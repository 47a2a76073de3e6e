/** The tree JSON library: how a value is written, and how a text is read. */
module PicoJsonSpec {
  import opened Bytes
  import opened JsonTrees
  import J = JsonStrings
  import L = JsonLayout

  const QUOTE: byte := 0x22
  const BACKSLASH: byte := 0x5c

  // Writing.

  /** The letter that stands for a byte behind a backslash, 0 if none does. */
  function ShortEscape(c: byte): byte {
    if c == QUOTE || c == BACKSLASH || c == 0x2f then c
    else if c == 8 then 0x62
    else if c == 12 then 0x66
    else if c == 10 then 0x6e
    else if c == 13 then 0x72
    else if c == 9 then 0x74
    else 0
  }

  function LowerHex(d: nat): byte
    requires d < 16
  {
    if d < 10 then 0x30 + d else 0x61 + d - 10
  }

  function CharText(c: byte): (t: seq<byte>)
    ensures t != []
  {
    if ShortEscape(c) != 0 then [BACKSLASH, ShortEscape(c)]
    else if c < 0x20 || c == 0x7f then [BACKSLASH, 0x75, 0x30, 0x30, LowerHex(c / 0x10), LowerHex(c % 0x10)]
    else [c]
  }

  function CharsText(s: seq<byte>): seq<byte> {
    if s == [] then [] else CharText(s[0]) + CharsText(s[1..])
  }

  function StringText(s: seq<byte>): seq<byte> {
    [QUOTE] + CharsText(s) + [QUOTE]
  }

  /** Layout: -1 for compact, else how many blocks are open. */
  type Level = i: int | -1 <= i

  function Deeper(level: Level): Level {
    if level == -1 then -1 else level + 1
  }

  /** A new line at a level, nothing in the compact layout. */
  function Line(level: Level): seq<byte> {
    if level == -1 then [] else [L.LINE_FEED] + L.Blanks(2 * level)
  }

  /** The line in front of a closing bracket; an empty block has none. */
  function LastLine(level: Level, empty: bool): seq<byte> {
    if empty then [] else Line(level)
  }

  function Body(v: Value, level: Level): seq<byte>
    decreases v, 1
  {
    match v
    case Null => NULL
    case False => FALSE
    case True => TRUE
    case Number(lexeme) => lexeme
    case String(chars) => StringText(chars)
    case Array(es) => [L.OPEN_ARRAY] + Items(es, Deeper(level), true) + LastLine(level, es.Nil?) + [L.CLOSE_ARRAY]
    case Object(ms) => [L.OPEN_OBJECT] + Entries(ms, Deeper(level), true) + LastLine(level, ms.Nil?) + [L.CLOSE_OBJECT]
  }

  /** A value as it is serialised; an outermost one in the spread-out layout
      ends its line. */
  function Serialized(v: Value, level: Level): seq<byte> {
    Body(v, level) + if level == 0 then [L.LINE_FEED] else []
  }

  function Separator(first: bool): seq<byte> {
    if first then [] else [L.COMMA]
  }

  function Items(es: List<Value>, level: Level, first: bool): seq<byte>
    decreases es, 0
  {
    match es
    case Nil => []
    case Cons(e, more) => Separator(first) + Line(level) + Body(e, level) + Items(more, level, false)
  }

  function Entries(ms: List<Member>, level: Level, first: bool): seq<byte>
    decreases ms, 0
  {
    match ms
    case Nil => []
    case Cons(m, more) =>
      Separator(first) + Line(level) + StringText(m.name) + [L.COLON] + (if level == -1 then [] else [L.SPACE])
      + Body(m.value, level) + Entries(more, level, false)
  }

  // Reading.

  datatype Read<T> = Bad | Good(value: T, rest: seq<byte>)

  predicate IsBlank(c: byte) {
    c == 0x20 || c == 9 || c == 10 || c == 13
  }

  function SkipSpace(r: seq<byte>): (s: seq<byte>)
    ensures |s| <= |r| && (s != [] ==> !IsBlank(s[0]))
  {
    if r != [] && IsBlank(r[0]) then SkipSpace(r[1..]) else r
  }

  /** Four hexadecimal digits. */
  function QuadHex(r: seq<byte>): (q: Read<nat>)
    ensures q.Good? ==> |q.rest| == |r| - 4
  {
    if |r| < 4 || J.HexDigit(r[0]) == 16 || J.HexDigit(r[1]) == 16 || J.HexDigit(r[2]) == 16
       || J.HexDigit(r[3]) == 16 then Bad
    else Good(((J.HexDigit(r[0]) * 16 + J.HexDigit(r[1])) * 16 + J.HexDigit(r[2])) * 16 + J.HexDigit(r[3]), r[4..])
  }

  /** One escape, or the two of a surrogate pair; a lone half is refused. */
  function CodePoint(r: seq<byte>): (q: Read<nat>)
    ensures q.Good? ==> |q.rest| < |r|
  {
    match QuadHex(r)
    case Bad => Bad
    case Good(u, r1) =>
      if 0xdc00 <= u <= 0xdfff then Bad
      else if 0xd800 <= u <= 0xdfff then
        if |r1| < 2 || r1[0] != BACKSLASH || r1[1] != 0x75 then Bad
        else
          match QuadHex(r1[2..])
          case Bad => Bad
          case Good(second, r2) =>
            if 0xdc00 <= second <= 0xdfff then Good((u - 0xd800) * 0x400 + (second - 0xdc00) + 0x10000, r2) else Bad
      else Good(u, r1)
  }

  /** What a letter behind a backslash stands for, 0 for none. */
  function Unescaped(c: byte): byte {
    if c == QUOTE || c == BACKSLASH || c == 0x2f then c
    else if c == 0x62 then 8
    else if c == 0x66 then 12
    else if c == 0x6e then 10
    else if c == 0x72 then 13
    else if c == 0x74 then 9
    else 0
  }

  /** One character of a string, with the bytes it stands for. */
  function Char(r: seq<byte>): (q: Read<seq<byte>>)
    requires r != []
    ensures q.Good? ==> |q.rest| < |r|
  {
    if r[0] < 0x20 then Bad
    else if r[0] != BACKSLASH then Good([r[0]], r[1..])
    else if |r| == 1 then Bad
    else if Unescaped(r[1]) != 0 then Good([Unescaped(r[1])], r[2..])
    else if r[1] != 0x75 then Bad
    else
      match CodePoint(r[2..])
      case Bad => Bad
      case Good(u, rest) => Good(J.Utf8(u), rest)
  }

  /** What follows an opening quote. */
  function Chars(r: seq<byte>): (q: Read<seq<byte>>)
    ensures q.Good? ==> |q.rest| < |r|
    decreases |r|
  {
    if r == [] then Bad
    else if r[0] == QUOTE then Good([], r[1..])
    else
      match Char(r)
      case Bad => Bad
      case Good(c, r1) =>
        match Chars(r1)
        case Bad => Bad
        case Good(cs, rest) => Good(c + cs, rest)
  }

  predicate NumberChar(c: byte) {
    IsDigit(c) || c == 0x2b || c == 0x2d || c == 0x65 || c == 0x45 || c == 0x2e
  }

  function NumberSpan(r: seq<byte>): (n: nat)
    ensures n <= |r|
    ensures forall i :: 0 <= i < n ==> NumberChar(r[i])
    ensures n < |r| ==> !NumberChar(r[n])
  {
    if r != [] && NumberChar(r[0]) then 1 + NumberSpan(r[1..]) else 0
  }

  function Digits(r: seq<byte>): (n: nat)
    ensures n <= |r|
  {
    if r != [] && IsDigit(r[0]) then 1 + Digits(r[1..]) else 0
  }

  function Sign(r: seq<byte>): (n: nat)
    ensures n <= |r|
  {
    if r != [] && (r[0] == 0x2b || r[0] == 0x2d) then 1 else 0
  }

  /** Whether strtod takes the whole of a text made of number characters. */
  predicate TakenWhole(t: seq<byte>) {
    Unsigned(t[Sign(t)..])
  }

  predicate Unsigned(m: seq<byte>) {
    BehindDigits(Digits(m), m[Digits(m)..])
  }

  predicate BehindDigits(whole: nat, b: seq<byte>) {
    if b != [] && b[0] == 0x2e then
      var fraction := Digits(b[1..]);
      whole + fraction > 0 && Exponent(b[1..][fraction..])
    else whole > 0 && Exponent(b)
  }

  predicate Exponent(e: seq<byte>) {
    e == [] || (&& (e[0] == 0x65 || e[0] == 0x45)
                && var x := e[1 + Sign(e[1..])..]; x != [] && Digits(x) == |x|)
  }

  function Word(r: seq<byte>, word: seq<byte>, v: Value): Read<Value> {
    if word <= r then Good(v, r[|word|..]) else Bad
  }

  /** Where a member goes among others in the order of their names; one of the
      same name is replaced. */
  function Insert(ms: List<Member>, m: Member): List<Member> {
    match ms
    case Nil => Cons(m, Nil)
    case Cons(first, more) =>
      if m.name == first.name then Cons(m, more)
      else if Before(m.name, first.name) then Cons(m, ms)
      else Cons(first, Insert(more, m))
  }

  /** The order of std::string: byte by byte. */
  predicate Before(a: seq<byte>, b: seq<byte>) {
    b != [] && (a == [] || a[0] < b[0] || (a[0] == b[0] && Before(a[1..], b[1..])))
  }

  function ParseValue(text: seq<byte>): (q: Read<Value>)
    ensures q.Good? ==> |q.rest| < |text|
    decreases |text|, 0
  {
    var r := SkipSpace(text);
    if r == [] then Bad
    else if r[0] == 0x6e then Word(r, NULL, Null)
    else if r[0] == 0x66 then Word(r, FALSE, False)
    else if r[0] == 0x74 then Word(r, TRUE, True)
    else if r[0] == QUOTE then
      match Chars(r[1..])
      case Bad => Bad
      case Good(s, rest) => Good(String(s), rest)
    else if r[0] == L.OPEN_ARRAY then ParseArray(r[1..])
    else if r[0] == L.OPEN_OBJECT then ParseObject(r[1..])
    else if IsDigit(r[0]) || r[0] == 0x2d then
      var n := NumberSpan(r);
      if TakenWhole(r[..n]) then Good(Number(r[..n]), r[n..]) else Bad
    else Bad
  }

  function ParseArray(r: seq<byte>): (q: Read<Value>)
    ensures q.Good? ==> |q.rest| < |r|
    decreases |r|, 2
  {
    var s := SkipSpace(r);
    if s != [] && s[0] == L.CLOSE_ARRAY then Good(Array(Nil), s[1..])
    else
      match ParseItems(s)
      case Bad => Bad
      case Good(es, rest) => Good(Array(es), rest)
  }

  /** Values with commas between them, up to the closing bracket. */
  function ParseItems(r: seq<byte>): (q: Read<List<Value>>)
    ensures q.Good? ==> |q.rest| < |r|
    decreases |r|, 1
  {
    match ParseValue(r)
    case Bad => Bad
    case Good(v, r1) =>
      var s := SkipSpace(r1);
      if s == [] then Bad
      else if s[0] == L.COMMA then
        match ParseItems(s[1..])
        case Bad => Bad
        case Good(vs, rest) => Good(Cons(v, vs), rest)
      else if s[0] == L.CLOSE_ARRAY then Good(Cons(v, Nil), s[1..])
      else Bad
  }

  function ParseObject(r: seq<byte>): (q: Read<Value>)
    ensures q.Good? ==> |q.rest| < |r|
    decreases |r|, 2
  {
    var s := SkipSpace(r);
    if s != [] && s[0] == L.CLOSE_OBJECT then Good(Object(Nil), s[1..])
    else
      match ParseEntries(s, Nil)
      case Bad => Bad
      case Good(ms, rest) => Good(Object(ms), rest)
  }

  /** A name in quotes and the colon behind it. */
  function ParseName(r: seq<byte>): (q: Read<seq<byte>>)
    ensures q.Good? ==> |q.rest| < |r|
  {
    var s := SkipSpace(r);
    if s == [] || s[0] != QUOTE then Bad
    else
      match Chars(s[1..])
      case Bad => Bad
      case Good(name, r1) =>
        var s1 := SkipSpace(r1);
        if s1 == [] || s1[0] != L.COLON then Bad else Good(name, s1[1..])
  }

  /** Members with commas between them, up to the closing bracket, put among
      those there are already. */
  function ParseEntries(r: seq<byte>, ms: List<Member>): (q: Read<List<Member>>)
    ensures q.Good? ==> |q.rest| < |r|
    decreases |r|, 1
  {
    match ParseName(r)
    case Bad => Bad
    case Good(name, r1) =>
      match ParseValue(r1)
      case Bad => Bad
      case Good(v, r2) =>
        var s, all := SkipSpace(r2), Insert(ms, Member(name, v));
        if s == [] then Bad
        else if s[0] == L.COMMA then ParseEntries(s[1..], all)
        else if s[0] == L.CLOSE_OBJECT then Good(all, s[1..])
        else Bad
  }
}
