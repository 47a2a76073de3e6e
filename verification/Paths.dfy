/** Normalisation of request paths. */
module Paths {
  import opened Bytes

  const SLASH: byte := 0x2f
  const DOT: byte := 0x2e
  const NUL: byte := 0

  type Part = seq<byte>

  const HERE: Part := [DOT]
  const UP: Part := [DOT, DOT]

  /** Where the first component of p stops: at a slash, a NUL, or the end. */
  function Stop(p: seq<byte>): (k: nat)
    ensures k <= |p| && SLASH !in p[..k] && NUL !in p[..k]
    ensures k < |p| ==> p[k] == SLASH || p[k] == NUL
  {
    if p == [] || p[0] == SLASH || p[0] == NUL then 0 else 1 + Stop(p[1..])
  }

  /** The non-empty components of a path; it ends at a NUL. */
  function Parts(p: seq<byte>): seq<Part>
    decreases |p|
  {
    var k := Stop(p);
    (if k > 0 then [p[..k]] else []) + (if k < |p| && p[k] == SLASH then Parts(p[k + 1..]) else [])
  }

  /** Walking the components from a place inside the tree; None once a step
      would leave the tree at its top. */
  function Walk(parts: seq<Part>, place: seq<Part>): Option<seq<Part>>
    decreases |parts|
  {
    if parts == [] then Some(place)
    else
      match Step(parts[0], place)
      case None => None
      case Some(next) => Walk(parts[1..], next)
  }

  function Step(part: Part, place: seq<Part>): Option<seq<Part>> {
    if part == UP then if place == [] then None else Some(place[..|place| - 1])
    else if part == HERE then Some(place)
    else Some(place + [part])
  }

  function Join(parts: seq<Part>): seq<byte> {
    if parts == [] then [] else [SLASH] + parts[0] + Join(parts[1..])
  }

  predicate EndsInSlash(s: seq<byte>) {
    s != [] && s[|s| - 1] == SLASH
  }

  /** The text of a place; a slash at the end of the request is kept. */
  function Render(place: seq<Part>, slash: bool): seq<byte> {
    if place == [] then [SLASH] else Join(place) + if slash then [SLASH] else []
  }

  function Normalized(path: seq<byte>): Option<seq<byte>> {
    if path == [] then None
    else
      match Walk(Parts(path), [])
      case None => None
      case Some(place) => Some(Render(place, |path| > 1 && EndsInSlash(path)))
  }

  lemma StopAt(p: seq<byte>, k: nat)
    requires k <= |p| && SLASH !in p[..k] && NUL !in p[..k]
    requires k < |p| ==> p[k] == SLASH || p[k] == NUL
    ensures Stop(p) == k
  {
  }

  /** A component that stays in a normalised path. */
  ghost predicate Normal(part: Part) {
    part != [] && SLASH !in part && NUL !in part && part != HERE && part != UP
  }

  ghost predicate AllNormal(parts: seq<Part>) {
    forall i :: 0 <= i < |parts| ==> Normal(parts[i])
  }

  lemma {:induction false} JoinEnd(parts: seq<Part>)
    requires parts != [] && AllNormal(parts)
    ensures !EndsInSlash(Join(parts)) && Join(parts) != []
  {
    if |parts| > 1 {
      JoinEnd(parts[1..]);
    } else {
      assert parts[1..] == [];
      assert Join(parts) == [SLASH] + parts[0];
    }
  }

  /** Walking on from a component that ends at k. */
  lemma WalkOn(p: seq<byte>, k: nat, place: seq<Part>)
    requires k <= |p| && SLASH !in p[..k] && NUL !in p[..k]
    requires k < |p| ==> p[k] == SLASH || p[k] == NUL
    ensures Walk(Parts(p), place) ==
            match if k > 0 then Step(p[..k], place) else Some(place)
            case None => None
            case Some(next) => if k < |p| && p[k] == SLASH then Walk(Parts(p[k + 1..]), next) else Some(next)
  {
    hide Step, Stop;
    StopAt(p, k);
    var rest := if k < |p| && p[k] == SLASH then Parts(p[k + 1..]) else [];
    if k > 0 {
      assert Parts(p)[1..] == rest;
    } else {
      assert Parts(p) == [] + rest == rest;
    }
  }

  lemma WalkPart(path: seq<byte>, left: nat, ptr: nat, place: seq<Part>)
    requires left <= ptr <= |path| && AllNormal(place)
    requires forall i :: left <= i < ptr ==> path[i] != SLASH && path[i] != NUL
    requires ptr < |path| ==> path[ptr] == SLASH || path[ptr] == NUL
    ensures var step := if left < ptr then Step(path[left..ptr], place) else Some(place);
            && (step.Some? ==> AllNormal(step.value))
            && Walk(Parts(path[left..]), place) ==
               match step
               case None => None
               case Some(next) =>
                 if ptr < |path| && path[ptr] == SLASH then Walk(Parts(path[ptr + 1..]), next) else Some(next)
  {
    hide Walk, Parts, Step, AllNormal;
    var p := path[left..];
    assert p[..ptr - left] == path[left..ptr];
    assert ptr < |path| ==> p[ptr - left + 1..] == path[ptr + 1..];
    WalkOn(p, ptr - left, place);
    if left < ptr {
      StepNormal(path[left..ptr], place);
    }
  }

  lemma NoParts()
    ensures AllNormal([])
  {
  }

  lemma StepNormal(part: Part, place: seq<Part>)
    requires part != [] && SLASH !in part && NUL !in part && AllNormal(place)
    ensures Step(part, place).Some? ==> AllNormal(Step(part, place).value)
  {
  }

  method NormalizePath(path: seq<byte>) returns (ret: Option<seq<byte>>)
    ensures ret == Normalized(path)
  {
    hide Walk, Parts, AllNormal, Render;
    if path == [] {
      return None;
    }
    var ok, parts := FollowPath(path);
    if !ok {
      return None;
    }
    var text := WritePath(parts, path);
    return Some(text);
  }

  /** Where the components of a path lead; false if out of the tree. */
  method FollowPath(path: seq<byte>) returns (ok: bool, parts: seq<Part>)
    ensures Walk(Parts(path), []) == if ok then Some(parts) else None
    ensures AllNormal(parts)
  {
    hide Walk, Parts, AllNormal, Step;
    parts := [];
    NoParts();
    var ptr, left := 0, 0;
    ghost var all := Walk(Parts(path), []);
    assert Walk(Parts(path[0..]), parts) == all by { assert path[0..] == path; }
    while true
      invariant 0 <= left <= ptr <= |path|
      invariant forall i :: left <= i < ptr ==> path[i] != SLASH && path[i] != NUL
      invariant Walk(Parts(path[left..]), parts) == all && AllNormal(parts)
      decreases |path| - ptr
    {
      var c := if ptr < |path| then path[ptr] else 0;
      if c == SLASH || c == NUL {
        WalkPart(path, left, ptr, parts);
        if left < ptr {
          ok, parts := TakePart(path[left..ptr], parts);
          if !ok {
            return false, [];
          }
        }
        if c == NUL {
          return true, parts;
        }
        ptr := ptr + 1;
        left := ptr;
      } else {
        ptr := ptr + 1;
      }
    }
  }

  /** Goes down into a component, or up for "..", or nowhere for ".". */
  method TakePart(part: Part, parts: seq<Part>) returns (ok: bool, next: seq<Part>)
    ensures Step(part, parts) == if ok then Some(next) else None
  {
    next := parts;
    if part == UP {
      if parts == [] {
        return false, parts;
      }
      next := parts[..|parts| - 1];
    } else if part != HERE {
      next := parts + [part];
    }
    ok := true;
  }

  method WritePath(parts: seq<Part>, path: seq<byte>) returns (text: seq<byte>)
    requires path != [] && AllNormal(parts)
    ensures text == Render(parts, |path| > 1 && EndsInSlash(path))
  {
    hide Join;
    text := WriteParts(parts, path[0] == SLASH);
    assert Join([]) == [] by { JoinNothing(); }
    if text == [] {
      text := [SLASH];
    }
    if parts != [] {
      JoinEnd(parts);
    }
    assert text + [] == text;
    if |path| > 1 && path[|path| - 1] == SLASH && text[|text| - 1] != SLASH {
      text := text + [SLASH];
    }
  }

  lemma JoinNothing()
    ensures Join([]) == []
  {
  }

  method WriteParts(parts: seq<Part>, absolute: bool) returns (ret: seq<byte>)
    ensures ret == if absolute && parts == [] then [SLASH] else Join(parts)
  {
    ret := if absolute then [SLASH] else [];
    for i := 0 to |parts|
      invariant ret == if absolute && i == 0 then [SLASH] else Join(parts[..i])
    {
      if i > 0 || !absolute {
        ret := ret + [SLASH];
      }
      ret := ret + parts[i];
      assert parts[..i + 1] == parts[..i] + [parts[i]];
      JoinSnoc(parts[..i], parts[i]);
    }
    assert parts[..|parts|] == parts;
  }

  lemma {:induction false} JoinSnoc(parts: seq<Part>, part: Part)
    ensures Join(parts + [part]) == Join(parts) + [SLASH] + part
  {
    if parts == [] {
      assert (parts + [part])[1..] == [] && [SLASH] + part + [] == [] + [SLASH] + part;
    } else {
      assert (parts + [part])[1..] == parts[1..] + [part];
      JoinSnoc(parts[1..], part);
      assert [SLASH] + parts[0] + (Join(parts[1..]) + [SLASH] + part)
             == [SLASH] + parts[0] + Join(parts[1..]) + [SLASH] + part;
    }
  }

  // What a normalised path is.

  /** How far below the start the components lead; each ".." leads one up. */
  function Depth(parts: seq<Part>): int {
    if parts == [] then 0
    else
      var last := parts[|parts| - 1];
      Depth(parts[..|parts| - 1]) + if last == UP then -1 else if last == HERE then 0 else 1
  }

  lemma {:induction false} DepthFront(parts: seq<Part>)
    requires parts != []
    ensures Depth(parts) == Depth([parts[0]]) + Depth(parts[1..])
  {
    if |parts| > 1 {
      var front := parts[..|parts| - 1];
      DepthFront(front);
      assert parts[1..][..|parts| - 2] == front[1..];
    } else {
      assert parts == [parts[0]] && parts[1..] == [];
    }
  }

  /** Some front part of the components leads above a start `depth` deep. */
  ghost predicate Climbs(parts: seq<Part>, depth: nat) {
    exists k :: 0 <= k <= |parts| && depth + Depth(parts[..k]) < 0
  }

  /** The walk fails exactly when some front part of it climbs above the start. */
  lemma {:induction false} WalkFails(parts: seq<Part>, place: seq<Part>)
    ensures Walk(parts, place) == None <==> Climbs(parts, |place|)
    decreases |parts|
  {
    if parts != [] {
      var rest := parts[1..];
      assert Depth([parts[0]]) == (if parts[0] == UP then -1 else if parts[0] == HERE then 0 else 1) by {
        var one: seq<Part> := [parts[0]];
        assert one[..0] == [];
      }
      forall k | 0 <= k <= |rest| ensures Depth(parts[..k + 1]) == Depth([parts[0]]) + Depth(rest[..k]) {
        DepthFront(parts[..k + 1]);
        assert parts[..k + 1][1..] == rest[..k];
      }
      assert parts[..0] == [];
      match Step(parts[0], place)
      case None =>
        assert rest[..0] == [];
        assert |place| + Depth(parts[..0 + 1]) < 0;
      case Some(next) =>
        WalkFails(rest, next);
        if k :| 0 <= k <= |rest| && |next| + Depth(rest[..k]) < 0 {
          assert |place| + Depth(parts[..k + 1]) < 0;
        }
        if k :| 0 <= k <= |parts| && |place| + Depth(parts[..k]) < 0 {
          assert |next| + Depth(rest[..k - 1]) < 0 by {
            assert Depth(parts[..(k - 1) + 1]) == Depth([parts[0]]) + Depth(rest[..k - 1]);
          }
        }
    }
  }

  /** A path is refused exactly if it is empty or some front part of it climbs
      above its start. */
  lemma RefusedIff(path: seq<byte>)
    ensures Normalized(path) == None <==> path == [] || Climbs(Parts(path), 0)
  {
    hide Walk, Climbs, Parts;
    WalkFails(Parts(path), []);
  }

  lemma {:induction false} PartsProper(p: seq<byte>)
    ensures forall i :: 0 <= i < |Parts(p)| ==> Parts(p)[i] != [] && SLASH !in Parts(p)[i] && NUL !in Parts(p)[i]
    decreases |p|
  {
    var k := Stop(p);
    if k < |p| && p[k] == SLASH {
      PartsProper(p[k + 1..]);
    }
  }

  lemma {:induction false} WalkNormal(parts: seq<Part>, place: seq<Part>)
    requires AllNormal(place) && forall i :: 0 <= i < |parts| ==>
               parts[i] != [] && SLASH !in parts[i] && NUL !in parts[i]
    ensures Walk(parts, place).Some? ==> AllNormal(Walk(parts, place).value)
    decreases |parts|
  {
    if parts != [] && Step(parts[0], place).Some? {
      StepNormal(parts[0], place);
      WalkNormal(parts[1..], Step(parts[0], place).value);
    }
  }

  /** Normal components are walked as they come. */
  lemma {:induction false} WalkStays(parts: seq<Part>, place: seq<Part>)
    requires AllNormal(parts)
    ensures Walk(parts, place) == Some(place + parts)
    decreases |parts|
  {
    if parts == [] {
      assert place + [] == place;
    } else {
      WalkStays(parts[1..], place + [parts[0]]);
      assert place + [parts[0]] + parts[1..] == place + parts;
    }
  }

  /** The components of a path whose first one stops at k. */
  lemma PartsStep(p: seq<byte>, k: nat)
    requires k <= |p| && SLASH !in p[..k] && NUL !in p[..k]
    requires k < |p| ==> p[k] == SLASH
    ensures Parts(p) == (if k > 0 then [p[..k]] else []) + (if k < |p| then Parts(p[k + 1..]) else [])
  {
    hide Stop, Parts;
    StopAt(p, k);
    PartsAt(p, k);
  }

  lemma PartsAt(p: seq<byte>, k: nat)
    requires k == Stop(p) && (k < |p| ==> p[k] == SLASH)
    ensures Parts(p) == (if k > 0 then [p[..k]] else []) + (if k < |p| then Parts(p[k + 1..]) else [])
  {
    hide Stop;
  }

  /** The components of a normalised path are the place it names. */
  lemma {:induction false} PartsOfJoin(parts: seq<Part>, tail: seq<byte>)
    requires AllNormal(parts) && (tail == [] || tail == [SLASH])
    ensures Parts(Join(parts) + tail) == parts
  {
    hide Parts;
    NoPathParts();
    var p := Join(parts) + tail;
    if parts == [] {
      AfterSlash(tail);
      assert p == tail && (tail != [] ==> tail[1..] == []);
    } else {
      var rest := Join(parts[1..]) + tail;
      PartsOfJoin(parts[1..], tail);
      assert p == [SLASH] + (parts[0] + rest);
      AfterSlash(p);
      assert p[1..] == parts[0] + rest;
      FirstPart(parts[0], rest);
      assert parts == [parts[0]] + parts[1..];
    }
  }

  lemma NoPathParts()
    ensures Parts([]) == []
  {
  }

  lemma FirstPart(part: Part, rest: seq<byte>)
    requires part != [] && SLASH !in part && NUL !in part && (rest == [] || rest[0] == SLASH)
    ensures Parts(part + rest) == [part] + Parts(rest)
  {
    hide Parts;
    NoPathParts();
    var q, k := part + rest, |part|;
    assert q[..k] == part;
    PartsStep(q, k);
    AfterSlash(rest);
    if k < |q| {
      assert q[k + 1..] == rest[1..];
    }
  }

  lemma AfterSlash(p: seq<byte>)
    requires p == [] || p[0] == SLASH
    ensures Parts(p) == if p == [] then [] else Parts(p[1..])
  {
    hide Parts;
    NoPathParts();
    if p != [] {
      PartsStep(p, 0);
      assert [] + Parts(p[1..]) == Parts(p[1..]);
    }
  }

  /** Begins with a slash, has no two in a row, and no NUL. */
  ghost predicate Tidy(p: seq<byte>) {
    && p != [] && p[0] == SLASH && NUL !in p
    && forall i :: 0 < i < |p| ==> p[i - 1] != SLASH || p[i] != SLASH
  }

  lemma {:induction false} JoinTidy(parts: seq<Part>)
    requires parts != [] && AllNormal(parts)
    ensures Tidy(Join(parts))
  {
    assert Normal(parts[0]);
    if |parts| == 1 {
      assert Join(parts) == [SLASH] + parts[0] by { assert parts[1..] == []; }
    } else {
      JoinTidy(parts[1..]);
    }
  }

  lemma SlashBehind(p: seq<byte>)
    requires Tidy(p) && !EndsInSlash(p)
    ensures Tidy(p + [SLASH])
  {
  }

  /** A tidy path is a slash, a component and another tidy path, or nothing behind it. */
  lemma TidySplit(p: seq<byte>) returns (part: Part, rest: seq<byte>)
    requires Tidy(p) && |p| > 1
    ensures p == [SLASH] + (part + rest)
    ensures part != [] && SLASH !in part && NUL !in part
    ensures if rest == [] then !EndsInSlash(p) else rest[0] == SLASH && Tidy(rest)
  {
    var k := Stop(p[1..]);
    part, rest := p[1..][..k], p[1..][k..];
    TidyStop(p, k);
    if rest != [] {
      TidyRest(p, k + 1);
    }
    hide Tidy, Stop;
    assert p == [p[0]] + p[1..] && part + rest == p[1..] && rest == p[k + 1..];
  }

  /** Where the first component of a tidy path ends. */
  lemma TidyStop(p: seq<byte>, k: nat)
    requires Tidy(p) && |p| > 1 && k == Stop(p[1..])
    ensures 0 < k < |p| && p[0] == SLASH
    ensures if k + 1 < |p| then p[k + 1] == SLASH else p[|p| - 1] != SLASH
  {
    var q := p[1..];
    assert q[0] == p[1] && p[1] in p;
    assert q[..k][k - 1] == p[k];
    assert k < |q| ==> q[k] == p[k + 1] && p[k + 1] in p;
  }

  lemma TidyRest(p: seq<byte>, k: nat)
    requires Tidy(p) && k < |p| && p[k] == SLASH
    ensures Tidy(p[k..])
  {
  }

  function EndSlash(p: seq<byte>): seq<byte> {
    if EndsInSlash(p) then [SLASH] else []
  }

  /** A tidy path is made up of its components, and a slash at its end if it has one. */
  lemma {:induction false} TidyParts(p: seq<byte>)
    requires Tidy(p)
    ensures p == Join(Parts(p)) + EndSlash(p)
    decreases |p|
  {
    hide Parts, Tidy;
    TidyBegins(p);
    NoPathParts();
    if |p| == 1 {
      assert p == [SLASH] && p[1..] == [];
      AfterSlash(p);
    } else {
      var part, rest := TidySplit(p);
      TidyJoin(p, part, rest);
      if rest != [] {
        TidyParts(rest);
        ConcatAssociative([SLASH] + part, Join(Parts(rest)), EndSlash(rest));
      } else {
        ConcatAssociative([SLASH] + part, [], []);
      }
    }
  }

  lemma TidyJoin(p: seq<byte>, part: Part, rest: seq<byte>)
    requires p == [SLASH] + (part + rest) && part != [] && SLASH !in part && NUL !in part
    requires if rest == [] then !EndsInSlash(p) else rest[0] == SLASH
    ensures Join(Parts(p)) == [SLASH] + part + Join(Parts(rest)) && p == [SLASH] + part + rest
    ensures EndSlash(p) == EndSlash(rest)
  {
    hide Parts;
    AfterSlash(p);
    assert p[1..] == part + rest;
    FirstPart(part, rest);
    assert ([part] + Parts(rest))[1..] == Parts(rest);
    assert rest != [] ==> p[|p| - 1] == rest[|rest| - 1];
  }

  /** The paths that normalising leaves as they are: the tidy ones whose
      components are none of them "." or "..". */
  lemma NormalIff(path: seq<byte>)
    ensures Normalized(path) == Some(path) <==> Tidy(path) && AllNormal(Parts(path))
  {
    hide Parts, Walk, Join, Tidy;
    NormalizedIsNormal(path);
    if Tidy(path) && AllNormal(Parts(path)) {
      var place := Parts(path);
      WalkStays(place, []);
      assert [] + place == place;
      TidyParts(path);
      assert path != [] && path[0] == SLASH by { TidyBegins(path); }
      JoinNothing();
      if place != [] {
        JoinBegins(place);
        assert Normalized(path) == Some(Join(place) + EndSlash(path));
      } else {
        assert path == [SLASH];
      }
    }
  }

  lemma TidyBegins(p: seq<byte>)
    requires Tidy(p)
    ensures p != [] && p[0] == SLASH
  {
  }

  /** A normalised path begins with a slash, has neither two in a row nor a NUL,
      its components are those of the place the request leads to, none of them
      "." or "..", and normalising it again changes nothing. */
  lemma NormalizedIsNormal(path: seq<byte>)
    ensures Normalized(path).Some? ==>
              var r := Normalized(path).value;
              && Tidy(r) && AllNormal(Parts(r))
              && Walk(Parts(path), []) == Some(Parts(r)) && Normalized(r) == Some(r)
  {
    hide Parts, Walk, Join;
    if Normalized(path).Some? {
      var place := Walk(Parts(path), []).value;
      var slash := |path| > 1 && EndsInSlash(path);
      var r := Render(place, slash);
      PartsProper(path);
      NoParts();
      WalkNormal(Parts(path), []);
      assert Join([]) == [] by { JoinNothing(); }
      PartsOfJoin(place, if slash || place == [] then [SLASH] else []);
      WalkStays(place, []);
      assert [] + place == place;
      if place != [] {
        JoinEnd(place);
        JoinBegins(place);
        JoinTidy(place);
        SlashBehind(Join(place));
        assert Join(place) + [] == Join(place);
        assert r == Join(place) + if slash then [SLASH] else [];
        assert EndsInSlash(r) == slash;
      } else {
        assert Join(place) + [SLASH] == [SLASH];
      }
    }
  }

  lemma JoinBegins(parts: seq<Part>)
    requires parts != [] && AllNormal(parts)
    ensures |Join(parts)| > 1 && Join(parts)[0] == SLASH
  {
  }

  // What "." and ".." mean.

  lemma {:induction false} WalkSum(a: seq<Part>, b: seq<Part>, place: seq<Part>)
    ensures Walk(a + b, place) == match Walk(a, place)
                                  case None => None
                                  case Some(next) => Walk(b, next)
    decreases |a|
  {
    hide Step;
    if a == [] {
      assert a + b == b;
    } else {
      assert (a + b)[1..] == a[1..] + b;
      if Step(a[0], place).Some? {
        WalkSum(a[1..], b, Step(a[0], place).value);
      }
    }
  }

  /** ".." takes back the component in front of it, and "." does nothing. */
  lemma Taken(a: seq<Part>, n: Part, b: seq<Part>, place: seq<Part>)
    requires Normal(n)
    ensures Walk(a + [n, UP] + b, place) == Walk(a + b, place)
    ensures Walk(a + [HERE] + b, place) == Walk(a + b, place)
  {
    WalkSum(a + [n, UP], b, place);
    WalkSum(a, [n, UP], place);
    WalkSum(a + [HERE], b, place);
    WalkSum(a, [HERE], place);
    WalkSum(a, b, place);
    assert [n, UP][1..] == [UP] && [UP][1..] == [] && [HERE][1..] == [];
  }

  /** A slash parts the components, a NUL ends them. */
  lemma PartsSum(a: seq<byte>, b: seq<byte>)
    requires NUL !in a
    ensures Parts(a + [SLASH] + b) == Parts(a) + Parts(b) && Parts(a + [NUL] + b) == Parts(a)
  {
    hide Parts;
    PartsUpTo(a, [SLASH] + b);
    PartsUpTo(a, [NUL] + b);
    ConcatAssociative(a, [SLASH], b);
    ConcatAssociative(a, [NUL], b);
    assert ([SLASH] + b)[1..] == b;
    assert Parts(a) + [] == Parts(a);
  }

  function From(t: seq<byte>): seq<Part>
    requires t != []
  {
    if t[0] == SLASH then Parts(t[1..]) else []
  }

  lemma {:induction false} PartsUpTo(a: seq<byte>, t: seq<byte>)
    requires NUL !in a && t != [] && (t[0] == SLASH || t[0] == NUL)
    ensures Parts(a + t) == Parts(a) + From(t)
    decreases |a|
  {
    hide Parts, From, Stop;
    var k := Stop(a);
    var part, rest := a[..k], a[k..];
    assert part + rest == a && (k < |a| ==> a[k] in a && rest[0] == a[k]);
    if rest != [] {
      PartsUpTo(rest[1..], t);
    }
    PartsOn(part, rest, t);
  }

  lemma PartsOn(part: seq<byte>, rest: seq<byte>, t: seq<byte>)
    requires SLASH !in part && NUL !in part && t != [] && (t[0] == SLASH || t[0] == NUL)
    requires rest != [] ==> rest[0] == SLASH && Parts(rest[1..] + t) == Parts(rest[1..]) + From(t)
    ensures Parts(part + rest + t) == Parts(part + rest) + From(t)
  {
    hide Parts;
    if rest == [] {
      assert part + [] == part;
      PartsBefore(part, t);
      PartAlone(part);
    } else {
      ConcatAssociative(part, rest, t);
      assert (rest + t)[1..] == rest[1..] + t;
      PartsBefore(part, rest + t);
      PartsBefore(part, rest);
    }
  }

  lemma PartAlone(part: seq<byte>)
    requires SLASH !in part && NUL !in part
    ensures Parts(part) == if part == [] then [] else [part]
  {
    assert part[..|part|] == part;
    StopAt(part, |part|);
  }

  lemma PartsBefore(part: seq<byte>, rest: seq<byte>)
    requires SLASH !in part && NUL !in part && rest != [] && (rest[0] == SLASH || rest[0] == NUL)
    ensures Parts(part + rest)
            == (if part != [] then [part] else []) + if rest[0] == SLASH then Parts(rest[1..]) else []
  {
    hide Parts;
    var p, k := part + rest, |part|;
    assert p[..k] == part && p[k] == rest[0] && p[k + 1..] == rest[1..];
    StopAt(p, k);
    PartsUnfold(p, k);
  }

  lemma PartsUnfold(p: seq<byte>, k: nat)
    requires k == Stop(p) && k < |p|
    ensures Parts(p) == (if k > 0 then [p[..k]] else []) + if p[k] == SLASH then Parts(p[k + 1..]) else []
  {
    hide Stop;
  }

  lemma OnePart(part: Part)
    requires Normal(part) || part == HERE || part == UP
    ensures Parts(part) == [part]
  {
    PartAlone(part);
  }

  /** A component with "/.." behind it, or a ".", may be cut out of any path. */
  lemma CutOut(front: seq<byte>, n: Part, back: seq<byte>)
    requires Normal(n) && 0 !in front && (front == [] || front[|front| - 1] == 0x2f) && back != [] && back[0] == 0x2f
    ensures Normalized(front + (n + [0x2f, 0x2e, 0x2e] + back)) == Normalized(front + back)
    ensures Normalized(front + ([0x2e] + back)) == Normalized(front + back)
  {
    hide Normalized, Normal;
    ConcatAssociative(n, [SLASH], UP);
    assert [SLASH] + UP == [0x2f, 0x2e, 0x2e];
    PartCutOut(front, n, back);
  }

  lemma PartCutOut(front: seq<byte>, n: Part, back: seq<byte>)
    requires Normal(n) && NUL !in front && (front == [] || EndsInSlash(front)) && back != [] && back[0] == SLASH
    ensures Normalized(front + (n + [SLASH] + UP + back)) == Normalized(front + back)
    ensures Normalized(front + (HERE + back)) == Normalized(front + back)
  {
    hide Parts, Walk, Normalized;
    var b := Parts(back[1..]);
    var a := if front == [] then [] else Parts(front[..|front| - 1]);
    InFront(front, n + [SLASH] + UP + back);
    InFront(front, HERE + back);
    InFront(front, back);
    Behind(n, back);
    AfterSlash(back);
    Taken(a, n, b, []);
    ConcatAssociative(a, [n, UP], b);
    ConcatAssociative(a, [HERE], b);
    SamePlace(front + (n + [SLASH] + UP + back), front + back);
    SamePlace(front + (HERE + back), front + back);
  }

  /** Longer paths that lead to the same place and end alike look alike. */
  lemma SamePlace(p: seq<byte>, q: seq<byte>)
    requires |p| > 1 && q != [] && p[|p| - 1] == q[|q| - 1] && Walk(Parts(p), []) == Walk(Parts(q), [])
    requires SLASH in q
    ensures Normalized(p) == Normalized(q)
  {
    hide Parts, Walk;
    if |q| == 1 {
      assert q == [SLASH] && [] + q == q;
      NothingWalked([], q);
    }
  }

  lemma InFront(front: seq<byte>, rest: seq<byte>)
    requires NUL !in front && (front == [] || EndsInSlash(front))
    ensures Parts(front + rest) == (if front == [] then [] else Parts(front[..|front| - 1])) + Parts(rest)
  {
    hide Parts;
    if front == [] {
      assert front + rest == rest && [] + Parts(rest) == Parts(rest);
    } else {
      var a := front[..|front| - 1];
      assert front + rest == a + [SLASH] + rest;
      PartsSum(a, rest);
    }
  }

  lemma Behind(n: Part, back: seq<byte>)
    requires Normal(n) && back != [] && back[0] == SLASH
    ensures Parts(n + [SLASH] + UP + back) == [n, UP] + Parts(back[1..])
    ensures Parts(HERE + back) == [HERE] + Parts(back[1..])
  {
    hide Parts;
    OnePart(n);
    OnePart(UP);
    OnePart(HERE);
    var b := back[1..];
    assert back == [SLASH] + b;
    PartsSum(n, UP + [SLASH] + b);
    PartsSum(UP, b);
    PartsSum(HERE, b);
    assert n + [SLASH] + UP + back == n + [SLASH] + (UP + [SLASH] + b) && HERE + back == HERE + [SLASH] + b;
    assert [n] + ([UP] + Parts(b)) == [n, UP] + Parts(b);
  }

  /** A path of one octet that is a slash leads nowhere. */
  lemma NothingWalked(front: seq<byte>, back: seq<byte>)
    requires back != []
    ensures front + back == [SLASH] ==> Walk(Parts(front + back), []) == Some([])
  {
    if front + back == [SLASH] {
      assert [SLASH][1..] == [];
    }
  }

  /** A slash at the end is kept, and put there only when nothing else is left. */
  lemma EndKept(path: seq<byte>)
    ensures Normalized(path).Some? ==>
              var r := Normalized(path).value;
              EndsInSlash(r) <==> r == [SLASH] || EndsInSlash(path)
  {
    hide Parts, Walk, Join;
    if Normalized(path).Some? {
      var place := Walk(Parts(path), []).value;
      PartsProper(path);
      NoParts();
      WalkNormal(Parts(path), []);
      if place != [] {
        JoinEnd(place);
        JoinBegins(place);
        NothingWalked([], path);
        assert [] + path == path && (|path| == 1 && EndsInSlash(path) ==> path == [SLASH]);
      }
    }
  }
}
