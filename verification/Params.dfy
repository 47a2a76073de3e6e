/** The environment a FastCGI application receives: a NULL-terminated vector of
    name=value strings that doubles when it is full. */
module EnvParams {
  import opened Bytes
  import opened FcgiRecords
  import opened NameValues

  class Params {
    var vec: array<Option<seq<byte>>>
    var length: nat
    var cur: nat

    ghost predicate Valid()
      reads this, vec
    {
      && vec.Length == length && cur < length && vec[cur] == None
      && forall i :: 0 <= i < cur ==> vec[i].Some?
    }

    ghost function Contents(): (s: seq<seq<byte>>)
      requires Valid()
      reads this, vec
    {
      seq(cur, i requires 0 <= i < cur reads this, vec requires Valid() => vec[i].value)
    }

    constructor (length: nat)
      requires length > 0
      ensures Valid() && fresh(vec) && Contents() == []
    {
      vec := new Option<seq<byte>>[length](_ => None);
      this.length := length;
      cur := 0;
    }

    method PutParam(nameValue: seq<byte>)
      requires Valid()
      modifies this, vec
      ensures Valid() && (vec == old(vec) || fresh(vec))
      ensures Contents() == old(Contents()) + [nameValue]
    {
      vec[cur] := Some(nameValue);
      cur := cur + 1;
      var size := cur;
      if size >= length {
        length := length * 2;
        var larger := new Option<seq<byte>>[length](_ => None);
        for i := 0 to size
          invariant vec == old(vec) && cur == size == vec.Length && length == larger.Length
          invariant forall j :: 0 <= j < i ==> larger[j] == vec[j]
          invariant vec[..] == old(vec[..])[old(cur) := Some(nameValue)]
        {
          larger[i] := vec[i];
        }
        vec := larger;
        cur := size;
      }
      vec[cur] := None;
    }
  }

  /** strncmp(name, p, strlen(name)) == 0 and p goes on with '='. */
  predicate Binds(p: seq<byte>, name: seq<byte>) {
    |name| < |p| && p[..|name|] == name && p[|name|] == EQUALS
  }

  /** The strings of a NULL-terminated vector. */
  function UpToNull(v: seq<Option<seq<byte>>>): seq<seq<byte>> {
    if v == [] || v[0].None? then [] else [v[0].value] + UpToNull(v[1..])
  }

  /** What follows name= in the first entry that starts with it. */
  function Find(entries: seq<seq<byte>>, name: seq<byte>): Option<seq<byte>> {
    if entries == [] then None
    else if Binds(entries[0], name) then Some(entries[0][|name| + 1..])
    else Find(entries[1..], name)
  }

  method GetParam(name: seq<byte>, envp: array<Option<seq<byte>>>) returns (value: Option<seq<byte>>)
    requires exists n :: 0 <= n < envp.Length && envp[n] == None
    ensures value == Find(UpToNull(envp[..]), name)
  {
    ghost var n :| 0 <= n < envp.Length && envp[n] == None;
    var p := 0;
    while envp[p] != None
      invariant 0 <= p <= n
      invariant Find(UpToNull(envp[p..]), name) == Find(UpToNull(envp[..]), name)
      decreases n - p
    {
      assert envp[p..][0] == envp[p] && envp[p..][1..] == envp[p + 1..];
      if Binds(envp[p].value, name) {
        return Some(envp[p].value[|name| + 1..]);
      }
      p := p + 1;
    }
    value := None;
  }

  /** The NUL-terminated value of the first pair called name. */
  function Lookup(ps: seq<Pair>, name: seq<byte>): Option<seq<byte>> {
    if ps == [] then None
    else if ps[0].name == name then Some(ps[0].value + [NUL])
    else Lookup(ps[1..], name)
  }

  /** An entry that starts with name= is that of a pair called name, or of one
      whose own name goes on with '=' behind it. */
  lemma BindsIff(p: Pair, name: seq<byte>)
    requires EQUALS !in name
    ensures Binds(Entry(p), name) <==> p.name == name || name + [EQUALS] <= p.name
    ensures p.name == name ==> Entry(p)[|name| + 1..] == p.value + [NUL]
  {
    var e, n := Entry(p), |name|;
    assert e[..|p.name|] == p.name && e[|p.name|] == EQUALS;
    if n < |p.name| {
      assert e[..n] == p.name[..n] && e[n] == p.name[n];
      assert name + [EQUALS] <= p.name <==> p.name[..n + 1] == name + [EQUALS];
      assert p.name[..n + 1] == p.name[..n] + [p.name[n]];
    } else if n > |p.name| {
      assert |e| > n ==> e[..n][|p.name|] == EQUALS;
    } else {
      assert e[..n] == p.name;
    }
  }

  /** The place of the first entry that starts with name=; the length if there is none. */
  function FindIndex(entries: seq<seq<byte>>, name: seq<byte>): (i: nat)
    ensures i <= |entries| && (i < |entries| ==> Binds(entries[i], name))
    ensures forall j :: 0 <= j < i ==> !Binds(entries[j], name)
  {
    if entries == [] || Binds(entries[0], name) then 0 else 1 + FindIndex(entries[1..], name)
  }

  lemma {:induction false} FindIsAt(entries: seq<seq<byte>>, name: seq<byte>)
    ensures Find(entries, name) ==
            var i := FindIndex(entries, name);
            if i < |entries| then Some(entries[i][|name| + 1..]) else None
  {
    if entries != [] && !Binds(entries[0], name) {
      FindIsAt(entries[1..], name);
    }
  }

  /** The place of the first pair called name; the length if there is none. */
  function NamedIndex(ps: seq<Pair>, name: seq<byte>): (i: nat)
    ensures i <= |ps| && (i < |ps| ==> ps[i].name == name)
    ensures forall j :: 0 <= j < i ==> ps[j].name != name
  {
    if ps == [] || ps[0].name == name then 0 else 1 + NamedIndex(ps[1..], name)
  }

  lemma {:induction false} LookupIsAt(ps: seq<Pair>, name: seq<byte>)
    ensures Lookup(ps, name) ==
            var i := NamedIndex(ps, name);
            if i < |ps| then Some(ps[i].value + [NUL]) else None
  {
    if ps != [] && ps[0].name != name {
      LookupIsAt(ps[1..], name);
    }
  }

  /** No pair in front of the first one called name has a name that begins with name=. */
  predicate Undisturbed(ps: seq<Pair>, name: seq<byte>) {
    forall i :: 0 <= i < NamedIndex(ps, name) ==> !(name + [EQUALS] <= ps[i].name)
  }

  /** Looking a name up finds the entry of the first pair called so, or nothing
      when no pair is, exactly if no pair in front of it has a name that begins
      with name=. */
  lemma FindIndexIff(ps: seq<Pair>, name: seq<byte>)
    requires EQUALS !in name
    ensures FindIndex(Entries(ps), name) == NamedIndex(ps, name) <==> Undisturbed(ps, name)
  {
    hide Binds, Entry;
    var f, n := FindIndex(Entries(ps), name), NamedIndex(ps, name);
    forall i | 0 <= i < |ps|
      ensures Entries(ps)[i] == Entry(ps[i])
      ensures Binds(Entries(ps)[i], name) <==> ps[i].name == name || name + [EQUALS] <= ps[i].name
    {
      BindsIff(ps[i], name);
    }
    assert f <= n;
  }

  /** Then its value is what is found. */
  lemma FindIsLookup(ps: seq<Pair>, name: seq<byte>)
    requires EQUALS !in name && Undisturbed(ps, name)
    ensures Find(Entries(ps), name) == Lookup(ps, name)
  {
    FindIndexIff(ps, name);
    FindIsAt(Entries(ps), name);
    LookupIsAt(ps, name);
    if NamedIndex(ps, name) < |ps| {
      BindsIff(ps[NamedIndex(ps, name)], name);
    }
  }

  /** Names free of '=' do not disturb each other. */
  lemma NamesWithoutEquals(ps: seq<Pair>, name: seq<byte>)
    requires EQUALS !in name && forall p :: p in ps ==> EQUALS !in p.name
    ensures Undisturbed(ps, name) && Find(Entries(ps), name) == Lookup(ps, name)
  {
    hide Find, Lookup;
    forall i | 0 <= i < |ps| ensures !(name + [EQUALS] <= ps[i].name) {
      assert ps[i] in ps;
      assert (name + [EQUALS])[|name|] == EQUALS;
    }
    FindIsLookup(ps, name);
  }

  /** A name that does hold '=' is found under its first part. */
  lemma NameWithEqualsSplits(a: seq<byte>, b: seq<byte>, value: seq<byte>)
    requires EQUALS !in a
    ensures Find(Entries([Pair(a + [EQUALS] + b, value)]), a) == Some(b + [EQUALS] + value + [NUL])
    ensures Lookup([Pair(a + [EQUALS] + b, value)], a) == None
  {
    var p := Pair(a + [EQUALS] + b, value);
    assert Entry(p) == a + [EQUALS] + (b + [EQUALS] + value + [NUL]);
    assert Entries([p]) == [Entry(p)];
    assert |p.name| > |a|;
    assert [p][1..] == [];
  }

  lemma {:induction false} UpToNullOf(v: seq<Option<seq<byte>>>, es: seq<seq<byte>>)
    requires |es| < |v| && v[|es|] == None && forall i :: 0 <= i < |es| ==> v[i] == Some(es[i])
    ensures UpToNull(v) == es
  {
    if es != [] {
      UpToNullOf(v[1..], es[1..]);
    }
  }
}
