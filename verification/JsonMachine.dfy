/** The pull parser as a function: from one state of the reader to the next. */
module JsonMachine {
  import opened Bytes
  import opened JsonStrings
  import opened JsonLayout
  import JsonTrees

  datatype State =
    | None | Null | False | True
    | Key | Comma | StartObject | EndObject | StartArray | EndArray | String | Number

  /** What the reader knows: the text it has not consumed, the states it is in,
      the current key and string, and the names of the open blocks. */
  datatype Machine = Machine(rest: seq<byte>, states: seq<State>, key: seq<byte>, text: seq<byte>, isArray: bool,
                             depth: seq<seq<byte>>) {
    function Top(): State {
      if states == [] then State.None else states[|states| - 1]
    }

    /** The character at the reader's position; the text ends with a NUL. */
    function Peek(): byte {
      if rest == [] then 0 else rest[0]
    }

    function Skip(n: nat): Machine
      requires n <= |rest|
    {
      this.(rest := rest[n..])
    }
  }

  /** A state that the next one replaces. */
  predicate Replaced(s: State) {
    s == Key || s == Comma || s == EndObject
  }

  /** A state in which a string may come. */
  predicate TakesString(s: State) {
    s == State.None || s == StartObject || s == StartArray || s == Key || s == Comma
  }

  function Push(m: Machine, s: State): Machine {
    var below := if Replaced(m.Top()) then m.states[..|m.states| - 1] else m.states;
    m.(states := below + [s],
       key := if m.isArray then [] else m.key,
       isArray := if s == StartArray then true else if s == StartObject || s == Key then false else m.isArray)
  }

  /** Whether the innermost open block is an array. */
  predicate InArray(states: seq<State>, otherwise: bool) {
    if states == [] then otherwise
    else
      var s := states[|states| - 1];
      if s == StartArray then true
      else if s == StartObject || s == Key then false
      else InArray(states[..|states| - 1], otherwise)
  }

  function Pop(m: Machine): Machine
    requires m.states != []
  {
    var below := m.states[..|m.states| - 1];
    m.(states := if below != [] && below[|below| - 1] == Key then below[..|below| - 1] else below,
       isArray := InArray(below, m.isArray),
       key := [])
  }

  /** Pops states up to and including the given one. */
  function PopThrough(m: Machine, open: State): (r: (bool, Machine))
    ensures r.1.rest == m.rest
    decreases |m.states|
  {
    if m.states == [] then (false, m.(key := []))
    else if m.Top() == open then (true, Pop(m))
    else PopThrough(Pop(m), open)
  }

  predicate IsConstant(s: State) {
    s == String || s == Number || s == Null || s == False || s == True
  }

  predicate IsStructure(m: Machine): (b: bool)
    ensures b ==> m.states != []
  {
    if m.Top() == EndObject || m.Top() == EndArray then
      |m.states| > 1 && var s := m.states[|m.states| - 2]; s == StartObject || s == StartArray
    else m.Top() == StartObject || m.Top() == StartArray
  }

  predicate IsValue(m: Machine): (b: bool)
    ensures b ==> m.states != []
  {
    IsConstant(m.Top()) || IsStructure(m)
  }

  /** What one call comes to: an event, the end of the text, or an error. */
  datatype Result = Event(m: Machine) | End | Failed

  predicate NumberChar(c: byte) {
    IsDigit(c) || c == 0x2e || c == 0x2b || c == 0x2d || c == 0x65 || c == 0x45
  }

  predicate IsAlpha(c: byte) {
    0x41 <= c <= 0x5a || 0x61 <= c <= 0x7a
  }

  predicate SymbolChar(c: byte) {
    IsAlpha(c) || IsDigit(c) || c == 0x5f
  }

  function NumberSpan(r: seq<byte>): (n: nat)
    ensures n <= |r|
  {
    if r != [] && NumberChar(r[0]) then 1 + NumberSpan(r[1..]) else 0
  }

  function SymbolSpan(r: seq<byte>): (n: nat)
    ensures n <= |r|
  {
    if r != [] && SymbolChar(r[0]) then 1 + SymbolSpan(r[1..]) else 0
  }

  function Next(m: Machine): Result {
    var r := DropSpace(m.rest);
    if r == [] then End
    else if r[0] == CLOSE_OBJECT then
      var closed := CloseBlock(m.(rest := r).Skip(1), StartObject, OPEN_OBJECT);
      if closed.0 then Event(Push(closed.1, EndObject).(key := closed.2)) else AtBracket(closed.1)
    else AtBracket(m.(rest := r))
  }

  /** Closes the innermost block, of which `open` is the state and `bracket`
      the opening bracket: its name was the key before it was opened. */
  function CloseBlock(m: Machine, open: State, bracket: byte): (r: (bool, Machine, seq<byte>))
    ensures r.1.rest == m.rest
  {
    var name := if m.depth == [] then [] else m.depth[|m.depth| - 1];
    var key := if name != [] && name[|name| - 1] == bracket then name[..|name| - 1] else name;
    var popped := PopThrough(m.(text := [], depth := if m.depth == [] then [] else m.depth[..|m.depth| - 1]), open);
    (popped.0, popped.1, key)
  }

  function AtBracket(m: Machine): Result {
    if m.Peek() == CLOSE_ARRAY then
      var closed := CloseBlock(m.Skip(1), StartArray, OPEN_ARRAY);
      if closed.0 then Event(Push(closed.1, EndArray).(key := closed.2)) else AtComma(closed.1)
    else AtComma(m)
  }

  function AtComma(m: Machine): Result {
    if m.Peek() != COMMA then AtValue(m)
    else if m.Top() == Key then Event(Push(m.Skip(1), Null))
    else
      var m1 := m.(rest := DropSpace(m.rest[1..]));
      var m2 := if IsValue(m1) then Pop(m1) else m1;
      AtValue(Push(m2, Comma))
  }

  function Open(m: Machine, s: State, bracket: byte): Machine
    requires m.rest != []
  {
    var m1 := if m.Top() != Key then m.(key := [], text := []) else m;
    Push(m1.Skip(1).(depth := m1.depth + [m1.key + [bracket]]), s)
  }

  function AtValue(m: Machine): Result {
    if m.Peek() == OPEN_OBJECT then Event(Open(m, StartObject, OPEN_OBJECT))
    else if m.Peek() == OPEN_ARRAY then Event(Open(m, StartArray, OPEN_ARRAY))
    else if m.Peek() == QUOTE then
      if !TakesString(m.Top()) then Failed
      else
        match StringBody(m.rest[1..])
        case Unterminated => AtScalar(m)
        case Scanned(text, rest) => AfterString(m.(text := text, rest := DropSpace(rest)))
    else AtScalar(m)
  }

  function AfterString(m: Machine): Result {
    if m.Top() == Key || m.Peek() != COLON then Event(Push(m, String))
    else if m.isArray then Failed
    else Event(Push(m.Skip(1).(key := m.text), Key))
  }

  function AtScalar(m: Machine): Result {
    if m.Top() != Key && !m.isArray then Failed
    else
      var r := DropSpace(m.rest);
      var n := |m.rest| - |r| + NumberSpan(r);
      if n > 0 then Event(Push(m.Skip(n).(text := m.rest[..n]), Number))
      else if !IsAlpha(m.Peek()) || !(m.Top() == Key || m.Top() == Comma || m.Top() == StartArray) then Failed
      else
        var k := SymbolSpan(m.rest);
        var word := m.rest[..k];
        var m1 := m.Skip(k).(text := word);
        if Constant(word) == State.None then Failed else Event(Push(m1, Constant(word)))
  }

  /** The state of a constant, if the word is one. */
  function Constant(word: seq<byte>): State {
    if word == JsonTrees.FALSE then False
    else if word == JsonTrees.TRUE then True
    else if word == JsonTrees.NULL then Null
    else State.None
  }
}
