/** The pull parser as an object that walks over a text. */
module JsonReaders {
  import opened Bytes
  import opened JsonStrings
  import opened JsonLayout
  import opened JsonMachine
  import opened JsonEvents
  import opened JsonRoundTrip
  import J = JsonTrees

  class Reader {
    const source: seq<byte>
    var ptr: nat
    var states: seq<State>
    var key: seq<byte>
    var string_: seq<byte>
    var isArray: bool
    var depth: seq<seq<byte>>
    var errors: nat

    ghost predicate Valid()
      reads this
    {
      ptr <= |source|
    }

    function Model(): Machine
      requires ptr <= |source|
      reads this
    {
      Machine(source[ptr..], states, key, string_, isArray, depth)
    }

    /** What a call makes of a result of the machine. */
    ghost predicate Shows(r: Result, ok: bool, errorsBefore: nat)
      reads this
    {
      Valid() && match r
                 case Event(m) => ok && Model() == m && errors == errorsBefore
                 case End => !ok && ptr == |source| && errors == errorsBefore
                 case Failed => !ok && states == [] && errors == errorsBefore + 1
    }

    constructor (source: seq<byte>)
      ensures Valid() && Model() == Start(source) && errors == 0 && this.source == source
    {
      this.source := source;
      ptr, states, key, string_, isArray, depth, errors := 0, [], [], [], false, [], 0;
      new;
      assert source[0..] == source;
    }

    function Top(): State
      reads this
    {
      if states == [] then State.None else states[|states| - 1]
    }

    function Peek(): byte
      requires ptr <= |source|
      reads this
    {
      if ptr == |source| then 0 else source[ptr]
    }

    method PushError()
      requires Valid()
      modifies this`states, this`errors
      ensures Shows(Failed, false, old(errors))
    {
      states := [];
      errors := errors + 1;
    }

    method PushState(s: State)
      requires Valid()
      modifies this`states, this`key, this`isArray
      ensures Valid() && Model() == Push(old(Model()), s)
    {
      if Replaced(Top()) {
        states := states[..|states| - 1];
      }
      states := states + [s];
      if isArray {
        key := [];
      }
      if s == StartArray {
        isArray := true;
      } else if s == StartObject || s == Key {
        isArray := false;
      }
    }

    method PopState() returns (f: bool)
      requires Valid()
      modifies this`states, this`key, this`isArray
      ensures Valid() && f == (old(states) != []) && (f ==> |states| < |old(states)|)
      ensures Model() == if f then Pop(old(Model())) else old(Model()).(key := [])
    {
      hide InArray;
      f := false;
      if states != [] {
        states := states[..|states| - 1];
        LookForArray();
        f := true;
        if Top() == Key {
          states := states[..|states| - 1];
        }
      }
      key := [];
    }

    /** Whether the innermost block is an array; as before if there is no block. */
    method LookForArray()
      modifies this`isArray
      ensures isArray == InArray(states, old(isArray))
    {
      var i := |states|;
      assert states[..i] == states;
      while i > 0
        invariant 0 <= i <= |states| && isArray == old(isArray)
        invariant InArray(states[..i], isArray) == InArray(states, isArray)
      {
        i := i - 1;
        var s := states[i];
        assert states[..i + 1][..i] == states[..i];
        if s == StartArray {
          isArray := true;
          return;
        }
        if s == StartObject || s == Key {
          isArray := false;
          return;
        }
      }
    }

    /** Pops states up to and including the given one. */
    method PopUntil(open: State) returns (closed: bool)
      requires Valid()
      modifies this`states, this`key, this`isArray
      ensures Valid() && (closed, Model()) == PopThrough(old(Model()), open)
    {
      hide Pop;
      closed := false;
      while true
        invariant Valid() && !closed && PopThrough(Model(), open) == PopThrough(old(Model()), open)
        invariant ptr == old(ptr) && string_ == old(string_) && depth == old(depth)
        decreases |states|
      {
        closed := Top() == open && states != [];
        var f := PopState();
        if !f || closed {
          break;
        }
      }
    }

    /** Handles a closing bracket, once it has been passed. */
    method Leave(open: State, bracket: byte) returns (closed: bool, name: seq<byte>)
      requires Valid()
      modifies this`states, this`key, this`isArray, this`string_, this`depth
      ensures Valid() && (closed, Model(), name) == CloseBlock(old(Model()), open, bracket)
    {
      hide PopThrough;
      string_ := [];
      name := [];
      if depth != [] {
        name := depth[|depth| - 1];
        if name != [] && name[|name| - 1] == bracket {
          name := name[..|name| - 1];
        }
        depth := depth[..|depth| - 1];
      }
      closed := PopUntil(open);
    }

    method ParseNumber(begin: nat) returns (n: nat)
      requires begin <= |source|
      ensures var r := DropSpace(source[begin..]); n == |source[begin..]| - |r| + NumberSpan(r)
      ensures begin + n <= |source|
    {
      var p := ScanSpace(source, begin);
      ghost var r := source[p..];
      ghost var span := NumberSpan(r);
      while p < |source| && NumberChar(source[p])
        invariant begin <= p <= |source|
        invariant p - begin + NumberSpan(source[p..]) == |source[begin..]| - |r| + span
      {
        assert source[p..][1..] == source[p + 1..];
        p := p + 1;
      }
      n := p - begin;
    }

    method ParseSymbol(begin: nat) returns (n: nat)
      requires begin <= |source|
      ensures n == SymbolSpan(source[begin..]) && begin + n <= |source|
    {
      var p := begin;
      while p < |source| && SymbolChar(source[p])
        invariant begin <= p <= |source|
        invariant p - begin + SymbolSpan(source[p..]) == SymbolSpan(source[begin..])
      {
        assert source[p..][1..] == source[p + 1..];
        p := p + 1;
      }
      n := p - begin;
    }

    /** The constant at the reader's position, if it is one. */
    method TakeSymbol() returns (ok: bool)
      requires Valid() && (Top() == Key || isArray) && DropSpace(source[ptr..]) == source[ptr..]
               && NumberSpan(source[ptr..]) == 0
      modifies this`ptr, this`states, this`key, this`string_, this`isArray, this`errors
      ensures Shows(AtScalar(old(Model())), ok, old(errors))
    {
      hide Push, DropSpace, NumberSpan, SymbolSpan, IsAlpha, Constant;
      ghost var rest := source[ptr..];
      if !IsAlpha(Peek()) {
        PushError();
        return false;
      }
      var n := ParseSymbol(ptr);
      var word := source[ptr..ptr + n];
      assert rest[..n] == word && rest[n..] == source[ptr + n..];
      string_ := word;
      if Top() == Key || Top() == Comma || Top() == StartArray {
        ptr := ptr + n;
        if Constant(word) != State.None {
          PushState(Constant(word));
          return true;
        }
      }
      PushError();
      return false;
    }

    method TakeScalar() returns (ok: bool)
      requires Valid()
      modifies this
      ensures Shows(AtScalar(old(Model())), ok, old(errors))
    {
      hide Push, DropSpace, NumberSpan, SymbolSpan, IsAlpha;
      if Top() != Key && !isArray {
        PushError();
        return false;
      }
      ghost var rest := source[ptr..];
      var n := ParseNumber(ptr);
      if n > 0 {
        string_ := source[ptr..ptr + n];
        assert rest[..n] == string_ && rest[n..] == source[ptr + n..];
        ptr := ptr + n;
        PushState(Number);
        return true;
      }
      SameText(rest);
      ok := TakeSymbol();
    }

    /** The string at the reader's position: a key if a colon follows where a
        key may stand, else a value. */
    method TakeString() returns (ok: bool)
      requires Valid() && Peek() == QUOTE && ptr < |source| && TakesString(Top())
      modifies this
      ensures Shows(AtValue(old(Model())), ok, old(errors))
    {
      hide Push, DropSpace, StringBody, AtScalar, NumberSpan, SymbolSpan;
      ghost var rest := source[ptr..];
      assert DropSpace(rest) == rest by { NoLeadingSpace(rest); }
      assert rest[1..] == source[ptr + 1..];
      var n, text := ParseString(source, ptr);
      if n == 0 {
        ok := TakeScalar();
        return;
      }
      string_ := text;
      ptr := ScanSpace(source, ptr + n);
      ok := FinishString();
    }

    method FinishString() returns (ok: bool)
      requires Valid()
      modifies this
      ensures Shows(AfterString(old(Model())), ok, old(errors))
    {
      hide Push;
      if Top() != Key && Peek() == COLON {
        if isArray {
          PushError();
          return false;
        }
        assert source[ptr..][1..] == source[ptr + 1..];
        ptr := ptr + 1;
        key := string_;
        PushState(Key);
        return true;
      }
      PushState(String);
      return true;
    }

    /** Enters the block whose bracket is at the reader's position. */
    method Enter(s: State, bracket: byte)
      requires Valid() && ptr < |source|
      modifies this
      ensures Valid() && Model() == Open(old(Model()), s, bracket) && errors == old(errors)
    {
      hide Push;
      assert source[ptr..][1..] == source[ptr + 1..];
      ptr := ptr + 1;
      if Top() != Key {
        key := [];
        string_ := [];
      }
      depth := depth + [key + [bracket]];
      PushState(s);
    }

    method TakeValue() returns (ok: bool)
      requires Valid()
      modifies this
      ensures Shows(AtValue(old(Model())), ok, old(errors))
    {
      hide Push, DropSpace, StringBody, AtScalar, Open;
      var c := Peek();
      if c == OPEN_OBJECT {
        Enter(StartObject, OPEN_OBJECT);
        return true;
      }
      if c == OPEN_ARRAY {
        Enter(StartArray, OPEN_ARRAY);
        return true;
      }
      if c == QUOTE {
        if !TakesString(Top()) {
          PushError();
          return false;
        }
        ok := TakeString();
        return;
      }
      ok := TakeScalar();
    }

    predicate IsValueNow()
      reads this
    {
      || IsConstant(Top()) || Top() == StartObject || Top() == StartArray
      || (&& (Top() == EndObject || Top() == EndArray) && |states| > 1
          && (states[|states| - 2] == StartObject || states[|states| - 2] == StartArray))
    }

    lemma ValueNow()
      requires Valid()
      ensures IsValueNow() == IsValue(Model())
    {
    }

    method TakeComma() returns (ok: bool)
      requires Valid()
      modifies this
      ensures Shows(AtComma(old(Model())), ok, old(errors))
    {
      hide Push, Pop, DropSpace, AtValue, IsValueNow, IsValue;
      if Peek() == COMMA {
        ghost var rest := source[ptr..];
        assert rest[1..] == source[ptr + 1..];
        ptr := ptr + 1;
        if Top() == Key {
          PushState(Null);
          return true;
        }
        ptr := ScanSpace(source, ptr);
        ValueNow();
        if IsValueNow() {
          var _ := PopState();
        }
        PushState(Comma);
      }
      ok := TakeValue();
    }

    method TakeBracket() returns (ok: bool)
      requires Valid()
      modifies this
      ensures Shows(AtBracket(old(Model())), ok, old(errors))
    {
      hide Push, CloseBlock, AtComma;
      if Peek() == CLOSE_ARRAY {
        assert source[ptr..][1..] == source[ptr + 1..];
        ptr := ptr + 1;
        var closed, name := Leave(StartArray, OPEN_ARRAY);
        if closed {
          PushState(EndArray);
          key := name;
          return true;
        }
      }
      ok := TakeComma();
    }

    /** The next event of the text; false at its end and after an error. */
    method NextEvent() returns (ok: bool)
      requires Valid()
      modifies this
      ensures Shows(Next(old(Model())), ok, old(errors))
    {
      hide Push, CloseBlock, AtBracket, DropSpace;
      ghost var rest := source[ptr..];
      NoLeadingSpace([]);
      ptr := ScanSpace(source, ptr);
      if ptr == |source| {
        return false;
      }
      if source[ptr] == CLOSE_OBJECT {
        assert source[ptr..][1..] == source[ptr + 1..];
        ptr := ptr + 1;
        var closed, name := Leave(StartObject, OPEN_OBJECT);
        if closed {
          PushState(EndObject);
          key := name;
          return true;
        }
      }
      ok := TakeBracket();
    }

    lemma SameText(r: seq<byte>)
      ensures |DropSpace(r)| == |r| ==> DropSpace(r) == r
    {
      ghost var d := DropSpace(r);
      if r != [] && IsSpace(r[0]) {
        assert |DropSpace(r[1..])| <= |r| - 1;
      }
    }
  }
}

/** A document written and read back. */
module JsonDocuments {
  import opened Bytes
  import opened JsonLayout
  import opened JsonMachine
  import opened JsonEvents
  import opened JsonRoundTrip
  import opened JsonReaders
  import opened JsonWriters
  import J = JsonTrees

  /** Calls the reader until it has no more events. */
  method ReadAll(r: Reader) returns (es: seq<Happening>)
    requires r.Valid()
    modifies r
    ensures r.Valid() && Follow(old(r.Model()), es).Some?
    ensures var last := Next(Follow(old(r.Model()), es).value);
            !last.Event? && (r.errors == old(r.errors) <==> last == End)
  {
    hide Next, Seen;
    es := [];
    ghost var m0 := r.Model();
    var ok := true;
    while ok
      invariant r.Valid() && Follow(m0, es).Some?
      invariant ok ==> Follow(m0, es) == Some(r.Model()) && r.errors == old(r.errors)
      invariant !ok ==>
                  var last := Next(Follow(m0, es).value);
                  !last.Event? && (r.errors == old(r.errors) <==> last == End)
      decreases ok, |r.source| - r.ptr
    {
      NextAdvances(r.Model());
      ghost var before := r.Model();
      ok := r.NextEvent();
      if ok {
        FollowSum(m0, es, [Seen(r.Model())]);
        FollowOne(Next(before), Seen(r.Model()));
        es := es + [Seen(r.Model())];
      }
    }
  }

  /** What the reader reports up to the end is determined by the text. */
  lemma {:induction false} SameEvents(m: Machine, a: seq<Happening>, b: seq<Happening>)
    requires Follow(m, a).Some? && !Next(Follow(m, a).value).Event?
    requires Follow(m, b).Some? && !Next(Follow(m, b).value).Event?
    ensures a == b
    decreases |a|
  {
    hide Next, Seen;
    if a != [] && b != [] {
      SameEvents(Next(m).m, a[1..], b[1..]);
      assert a == [a[0]] + a[1..] && b == [b[0]] + b[1..];
    }
  }

  /** Writes an array or an object in any layout and reads it back: the events
      are those of the value, and there is no error. */
  method WriteAndRead(v: J.Value, indent: bool, newline: bool)
    returns (text: seq<byte>, es: seq<Happening>, errors: nat)
    requires (v.Array? || v.Object?) && WellFormed(v)
    ensures text == ValueText(Style(newline, indent), v, 0) + Newline(Style(newline, indent))
    ensures es == EventsOf(v, [], []) && errors == 0
  {
    hide Follow, EventsOf, ValueText, WellFormed, Next;
    var w := new Writer();
    w.enableIndent := indent;
    w.enableNewline := newline;
    ghost var st := Style(newline, indent);
    WriteValue(w, [], v);
    assert ItemText(st, [0], [], v) == ValueText(st, v, 0) by { OutermostItem(st, v); }
    text := w.output;
    assert text == ValueText(st, v, 0) + Newline(st);
    var r := new Reader(text);
    es := ReadAll(r);
    errors := r.errors;
    BreakIsSpace(st, 1);
    assert AllSpace(Newline(st)) by { NewlineIsSpace(st); }
    DocumentRead(st, v, Newline(st));
    SameEvents(Start(text), es, EventsOf(v, [], []));
  }

  lemma NewlineIsSpace(st: Style)
    ensures AllSpace(Newline(st))
  {
    LineFeedIsSpace();
  }

  lemma OutermostItem(st: Style, v: J.Value)
    ensures ItemText(st, [0], [], v) == ValueText(st, v, 0)
  {
    hide ValueText;
    assert Indent(st, 0) == [];
    assert Lead(st, 0, true, []) == [];
    assert [] + ValueText(st, v, 0) == ValueText(st, v, 0);
  }
}
