/** The events of a value, and that the reader reports them for its text. */
module JsonEvents {
  import opened Bytes
  import opened JsonStrings
  import opened JsonLayout
  import opened JsonMachine
  import J = JsonTrees

  /** What a caller sees after a call: the state, the key, the string and the
      names of the open blocks. */
  datatype Happening = Happening(state: State, key: seq<byte>, text: seq<byte>, depth: seq<seq<byte>>)

  function Seen(m: Machine): Happening {
    Happening(m.Top(), m.key, if m.Top() == Key || IsConstant(m.Top()) then m.text else [], m.depth)
  }

  function ScalarEvent(v: J.Value, key: seq<byte>, depth: seq<seq<byte>>): Happening
    requires !v.Array? && !v.Object?
  {
    match v
    case Null => Happening(Null, key, J.NULL, depth)
    case False => Happening(False, key, J.FALSE, depth)
    case True => Happening(True, key, J.TRUE, depth)
    case Number(lexeme) => Happening(Number, key, lexeme, depth)
    case String(chars) => Happening(String, key, Clean(chars), depth)
  }

  /** The events of a value named `key` inside the blocks `depth`. */
  function EventsOf(v: J.Value, key: seq<byte>, depth: seq<seq<byte>>): (es: seq<Happening>)
    ensures es != []
    decreases v, 1
  {
    match v
    case Array(es) =>
      var inner := depth + [key + [OPEN_ARRAY]];
      [Happening(StartArray, key, [], inner)] + ElementEvents(es, inner) + [Happening(EndArray, key, [], depth)]
    case Object(ms) =>
      var inner := depth + [key + [OPEN_OBJECT]];
      [Happening(StartObject, key, [], inner)] + MemberEvents(ms, inner) + [Happening(EndObject, key, [], depth)]
    case _ => [ScalarEvent(v, key, depth)]
  }

  function ElementEvents(es: J.List<J.Value>, depth: seq<seq<byte>>): seq<Happening>
    decreases es, 0
  {
    match es
    case Nil => []
    case Cons(e, more) => EventsOf(e, [], depth) + ElementEvents(more, depth)
  }

  function MemberEvents(ms: J.List<J.Member>, depth: seq<seq<byte>>): seq<Happening>
    decreases ms, 0
  {
    match ms
    case Nil => []
    case Cons(m, more) =>
      var key := Clean(m.name);
      [Happening(Key, key, key, depth)] + EventsOf(m.value, key, depth) + MemberEvents(more, depth)
  }

  // Values a writer can express: members have names, numbers look like numbers.

  ghost predicate Lexeme(s: seq<byte>) {
    s != [] && forall i :: 0 <= i < |s| ==> NumberChar(s[i])
  }

  ghost predicate WellFormed(v: J.Value)
    decreases v, 1
  {
    match v
    case Number(lexeme) => Lexeme(lexeme)
    case Array(es) => AllWellFormed(es)
    case Object(ms) => AllNamed(ms)
    case _ => true
  }

  ghost predicate AllWellFormed(es: J.List<J.Value>)
    decreases es, 0
  {
    es.Cons? ==> WellFormed(es.head) && AllWellFormed(es.tail)
  }

  ghost predicate AllNamed(ms: J.List<J.Member>)
    decreases ms, 0
  {
    ms.Cons? ==> ms.head.name != [] && WellFormed(ms.head.value) && AllNamed(ms.tail)
  }

  /** The machine after a sequence of calls that report exactly these events. */
  function Follow(m: Machine, es: seq<Happening>): Option<Machine>
    decreases |es|, 1
  {
    if es == [] then Some(m) else FollowFrom(Next(m), es)
  }

  function FollowFrom(r: Result, es: seq<Happening>): Option<Machine>
    requires es != []
    decreases |es|, 0
  {
    if r.Event? && Seen(r.m) == es[0] then Follow(r.m, es[1..]) else Option.None
  }

  lemma {:induction false} FollowSum(m: Machine, a: seq<Happening>, b: seq<Happening>)
    requires Follow(m, a).Some?
    ensures Follow(m, a + b) == Follow(Follow(m, a).value, b)
    decreases |a|
  {
    hide Next, Seen;
    if a == [] {
      assert a + b == b;
    } else {
      assert (a + b)[1..] == a[1..] + b;
      FollowSum(Next(m).m, a[1..], b);
    }
  }

  lemma FollowFromSum(r: Result, a: seq<Happening>, b: seq<Happening>)
    requires a != [] && FollowFrom(r, a).Some?
    ensures FollowFrom(r, a + b) == Follow(FollowFrom(r, a).value, b)
  {
    hide Next, Seen;
    assert (a + b)[1..] == a[1..] + b;
    FollowSum(r.m, a[1..], b);
  }

  lemma FollowOne(r: Result, e: Happening)
    requires r.Event? && Seen(r.m) == e
    ensures FollowFrom(r, [e]) == Some(r.m)
  {
    assert [e][1..] == [];
  }

  // White space.

  ghost predicate AllSpace(s: seq<byte>) {
    forall i :: 0 <= i < |s| ==> IsSpace(s[i])
  }

  lemma {:induction false} DropSpaces(s: seq<byte>, t: seq<byte>)
    requires AllSpace(s)
    ensures DropSpace(s + t) == DropSpace(t)
    decreases |s|
  {
    if s == [] {
      assert s + t == t;
    } else {
      assert (s + t)[1..] == s[1..] + t;
      DropSpaces(s[1..], t);
    }
  }

  function Break(st: Style, level: nat): seq<byte> {
    (if level > 0 then Newline(st) else []) + Indent(st, level)
  }

  lemma {:induction false} BlanksAreSpace(n: nat)
    ensures AllSpace(Blanks(n))
  {
    if n > 0 {
      BlanksAreSpace(n - 1);
    }
  }

  lemma BreakIsSpace(st: Style, level: nat)
    ensures AllSpace(Break(st, level)) && AllSpace(Newline(st) + Indent(st, level))
  {
    hide IsSpace;
    assert IsSpace(LINE_FEED) by { LineFeedIsSpace(); }
    BlanksAreSpace(2 * level);
  }

  lemma LineFeedIsSpace()
    ensures IsSpace(LINE_FEED) && IsSpace(SPACE)
  {
  }

  // The three kinds of scalars.

  predicate Delimiter(c: byte) {
    c == COMMA || c == CLOSE_OBJECT || c == CLOSE_ARRAY
  }

  /** What may follow a value inside a block. */
  predicate Follows(tail: seq<byte>) {
    && tail != [] && (IsSpace(tail[0]) || Delimiter(tail[0]))
    && var r := DropSpace(tail); r != [] && Delimiter(r[0])
  }

  ghost predicate Blocks(outer: seq<State>) {
    forall i :: 0 <= i < |outer| ==> outer[i] == StartObject || outer[i] == StartArray
  }

  predicate Inside(outer: seq<State>, s: State) {
    outer != [] && outer[|outer| - 1] == s
  }

  /** Inside the blocks outer the reader is about to meet a value named key. */
  ghost predicate Ready(m: Machine, outer: seq<State>, key: seq<byte>) {
    && Blocks(outer)
    && (|| (m.states == outer + [Key] && !m.isArray && Inside(outer, StartObject) && m.key == key)
        || (m.states == outer + [Comma] && m.isArray && Inside(outer, StartArray) && key == [])
        || (m.states == outer && (Inside(outer, StartArray) ==> m.isArray) && !Inside(outer, StartObject) && key == []))
  }

  predicate Complete(s: State) {
    IsConstant(s) || s == EndObject || s == EndArray
  }

  /** The value has been read. */
  ghost predicate ReadOn(m: Machine, outer: seq<State>, depth: seq<seq<byte>>, tail: seq<byte>) {
    && m.states == outer + [m.Top()] && Complete(m.Top())
    && m.depth == depth && DropSpace(m.rest) == DropSpace(tail)
    && (outer != [] ==> m.isArray == Inside(outer, StartArray))
  }

  lemma ReadyTop(m: Machine, outer: seq<State>, key: seq<byte>)
    requires Ready(m, outer, key)
    ensures if m.states == outer then outer == [] || !Replaced(outer[|outer| - 1])
            else m.states != [] && m.states == outer + [m.Top()] && Replaced(m.Top())
    ensures TakesString(m.Top())
    ensures if outer == [] then m.Top() == State.None && key == []
            else if m.Top() == Key then !m.isArray && m.key == key && Inside(outer, StartObject)
            else m.isArray && key == [] && Inside(outer, StartArray) && (m.Top() == Comma || m.Top() == StartArray)
  {
  }

  lemma PushOnto(m: Machine, outer: seq<State>, s: State)
    requires if m.states == outer then outer == [] || !Replaced(outer[|outer| - 1])
             else m.states != [] && m.states == outer + [m.Top()] && Replaced(m.Top())
    ensures Push(m, s).states == outer + [s] && Push(m, s).Top() == s
  {
    assert (outer + [m.Top()])[..|outer|] == outer;
  }

  /** Taking in a scalar: the reader's states grow by its kind. */
  lemma PushValue(m: Machine, outer: seq<State>, key: seq<byte>, s: State, text: seq<byte>, rest: seq<byte>,
                  tail: seq<byte>)
    requires Ready(m, outer, key) && outer != [] && IsConstant(s) && DropSpace(rest) == DropSpace(tail)
    ensures var m' := Push(m.(text := text, rest := rest), s);
            ReadOn(m', outer, m.depth, tail) && Seen(m') == Happening(s, key, text, m.depth)
  {
    hide DropSpace, Ready;
    ReadyTop(m, outer, key);
    var m0 := m.(text := text, rest := rest);
    PushOnto(m0, outer, s);
    assert Push(m0, s) == Machine(rest, outer + [s], if m.isArray then [] else m.key, text, m.isArray, m.depth);
    hide Push, Replaced, TakesString;
  }

  lemma {:induction false} NumberSpanOf(lexeme: seq<byte>, tail: seq<byte>)
    requires forall i :: 0 <= i < |lexeme| ==> NumberChar(lexeme[i])
    requires Follows(tail)
    ensures NumberSpan(lexeme + tail) == |lexeme|
    decreases |lexeme|
  {
    if lexeme == [] {
      assert lexeme + tail == tail;
    } else {
      assert (lexeme + tail)[1..] == lexeme[1..] + tail;
      NumberSpanOf(lexeme[1..], tail);
    }
  }

  lemma {:induction false} SymbolSpanOf(word: seq<byte>, tail: seq<byte>)
    requires forall i :: 0 <= i < |word| ==> SymbolChar(word[i])
    requires Follows(tail)
    ensures SymbolSpan(word + tail) == |word|
    decreases |word|
  {
    if word == [] {
      assert word + tail == tail;
    } else {
      assert (word + tail)[1..] == word[1..] + tail;
      SymbolSpanOf(word[1..], tail);
    }
  }

  lemma NumberRead(lexeme: seq<byte>, m: Machine, outer: seq<State>, key: seq<byte>, tail: seq<byte>)
    requires Lexeme(lexeme) && Ready(m, outer, key) && outer != [] && m.rest == lexeme + tail && Follows(tail)
    ensures AtValue(m).Event? && ReadOn(AtValue(m).m, outer, m.depth, tail)
    ensures Seen(AtValue(m).m) == Happening(Number, key, lexeme, m.depth)
  {
    hide StringBody, AfterString, Open, Follows, TakesString, DropSpace, NumberSpan, Push, Seen, ReadOn, Ready;
    ReadyTop(m, outer, key);
    assert NumberChar(lexeme[0]) && m.rest[0] == lexeme[0];
    NumberSpanOf(lexeme, tail);
    assert DropSpace(m.rest) == m.rest by { NoLeadingSpace(m.rest); }
    assert m.rest[..|lexeme|] == lexeme && m.rest[|lexeme|..] == tail;
    PushValue(m, outer, key, Number, lexeme, tail, tail);
  }

  predicate Word(v: J.Value) {
    v == J.Null || v == J.False || v == J.True
  }

  lemma WordChars(v: J.Value)
    requires Word(v)
    ensures var w := Scalar(v);
            && w != [] && (forall i :: 0 <= i < |w| ==> SymbolChar(w[i]) && !NumberChar(w[0]))
            && IsAlpha(w[0]) && !IsSpace(w[0]) && w[0] != QUOTE
    ensures forall key, depth :: ScalarEvent(v, key, depth) == Happening(Constant(Scalar(v)), key, Scalar(v), depth)
    ensures IsConstant(Constant(Scalar(v)))
  {
    assert |J.FALSE| == 5 && |J.TRUE| == 4 && |J.NULL| == 4;
    assert J.TRUE[0] == 116 && J.NULL[0] == 110;
  }

  lemma WordTaken(v: J.Value, m: Machine, tail: seq<byte>)
    requires Word(v) && m.rest == Scalar(v) + tail && Follows(tail)
    requires m.Top() == Key || (m.isArray && (m.Top() == Comma || m.Top() == StartArray))
    ensures AtValue(m) == Event(Push(m.(text := Scalar(v), rest := tail), Constant(Scalar(v))))
  {
    hide StringBody, AfterString, Open, Follows, TakesString, DropSpace, SymbolSpan, Push, IsAlpha, SymbolChar,
         NumberChar, IsSpace, Constant;
    WordChars(v);
    hide Scalar;
    var w := Scalar(v);
    assert m.rest[0] == w[0];
    SymbolSpanOf(w, tail);
    assert DropSpace(m.rest) == m.rest by { NoLeadingSpace(m.rest); }
    assert NumberSpan(m.rest) == 0;
    assert m.rest[..|w|] == w && m.rest[|w|..] == tail;
  }

  lemma WordRead(v: J.Value, m: Machine, outer: seq<State>, key: seq<byte>, tail: seq<byte>)
    requires Word(v) && Ready(m, outer, key) && outer != [] && m.rest == Scalar(v) + tail && Follows(tail)
    ensures AtValue(m).Event? && ReadOn(AtValue(m).m, outer, m.depth, tail)
    ensures Seen(AtValue(m).m) == ScalarEvent(v, key, m.depth)
  {
    hide AtValue, Follows, DropSpace, Push, Seen, ReadOn, Ready, Constant, Scalar;
    ReadyTop(m, outer, key);
    WordChars(v);
    WordTaken(v, m, tail);
    PushValue(m, outer, key, Constant(Scalar(v)), Scalar(v), tail, tail);
  }

  lemma StringRead(chars: seq<byte>, m: Machine, outer: seq<State>, key: seq<byte>, tail: seq<byte>)
    requires Ready(m, outer, key) && outer != [] && m.rest == Quoted(chars) + tail && Follows(tail)
    ensures AtValue(m).Event? && ReadOn(AtValue(m).m, outer, m.depth, tail)
    ensures Seen(AtValue(m).m) == Happening(String, key, Clean(chars), m.depth)
  {
    hide StringBody, Quoted, Push, Seen, ReadOn, Ready, DropSpace, AtScalar, Open, TakesString, Clean;
    ReadyTop(m, outer, key);
    StringRoundTrip(chars, tail);
    NoLeadingSpace(DropSpace(tail));
    assert DropSpace(tail)[0] != COLON;
    PushValue(m, outer, key, String, Clean(chars), DropSpace(tail), tail);
  }
}
