/** JSON string literals (section 7 of RFC 8259) as the streaming library
    writes and reads them. */
module JsonStrings {
  import opened Bytes

  const QUOTE: byte := 0x22
  const BACKSLASH: byte := 0x5c

  /** The letter that stands for a byte behind a backslash, 0 if none does. */
  function ShortEscape(c: byte): (e: byte)
    ensures e != 0 ==> 0x20 <= e < 0x7f
  {
    if c == QUOTE || c == BACKSLASH then c
    else if c == 8 then 0x62
    else if c == 12 then 0x66
    else if c == 10 then 0x6e
    else if c == 13 then 0x72
    else if c == 9 then 0x74
    else 0
  }

  predicate Continues(c: byte) {
    c / 0x40 == 2
  }

  /** How many bytes make up the character s starts with; 0 for a first byte
      that belongs to none and is dropped. */
  function UnitLength(s: seq<byte>): (n: nat)
    requires s != []
    ensures n <= 4 && n <= |s|
  {
    var c := s[0];
    if ShortEscape(c) != 0 || 0x20 <= c < 0x7f then 1
    else if c / 0x20 == 6 && |s| > 1 then
      if Continues(s[1]) && (c % 0x20 != 0 || s[1] % 0x40 != 0) then 2 else 0
    else if c / 0x10 == 14 && |s| > 2 then
      if Continues(s[1]) && Continues(s[2]) && (c % 0x10 != 0 || s[1] % 0x40 != 0 || s[2] % 0x40 != 0) then 3 else 0
    else if c / 8 == 30 && |s| > 3 then
      if && Continues(s[1]) && Continues(s[2]) && Continues(s[3])
         && (c % 8 != 0 || s[1] % 0x40 != 0 || s[2] % 0x40 != 0 || s[3] % 0x40 != 0) then 4 else 0
    else 0
  }

  /** What is left of a string once bytes of no character are dropped. */
  function Clean(s: seq<byte>): seq<byte> {
    if s == [] then []
    else
      var n := UnitLength(s);
      if n == 0 then Clean(s[1..]) else s[..n] + Clean(s[n..])
  }

  function Escape(c: byte): (e: seq<byte>)
    ensures e != []
  {
    if ShortEscape(c) != 0 then [BACKSLASH, ShortEscape(c)] else [c]
  }

  function EscapeAll(s: seq<byte>): seq<byte> {
    if s == [] then [] else Escape(s[0]) + EscapeAll(s[1..])
  }

  function Quoted(s: seq<byte>): seq<byte> {
    [QUOTE] + EscapeAll(Clean(s)) + [QUOTE]
  }

  lemma {:induction false} EscapeAllSum(a: seq<byte>, b: seq<byte>)
    ensures EscapeAll(a + b) == EscapeAll(a) + EscapeAll(b)
  {
    hide Escape;
    if a == [] {
      assert a + b == b;
    } else {
      assert (a + b)[1..] == a[1..] + b;
      EscapeAllSum(a[1..], b);
    }
  }

  lemma {:induction false} EscapePlain(s: seq<byte>)
    requires forall i :: 0 <= i < |s| ==> ShortEscape(s[i]) == 0
    ensures EscapeAll(s) == s
  {
    if s != [] {
      EscapePlain(s[1..]);
      assert s == [s[0]] + s[1..];
    }
  }

  lemma UnitEscaped(s: seq<byte>)
    requires s != [] && UnitLength(s) > 0
    ensures EscapeAll(s[..UnitLength(s)])
            == if ShortEscape(s[0]) != 0 then [BACKSLASH, ShortEscape(s[0])] else s[..UnitLength(s)]
  {
    var u := s[..UnitLength(s)];
    if ShortEscape(s[0]) != 0 {
      assert u[1..] == [];
      assert Escape(s[0]) + [] == Escape(s[0]);
    } else {
      EscapePlain(u);
    }
  }

  /** The text of a string between its quotes. */
  method EncodeJsonString(input: seq<byte>) returns (ret: seq<byte>)
    ensures ret == EscapeAll(Clean(input))
  {
    hide UnitLength, Escape, EscapeAll;
    ret := [];
    var ptr := 0;
    assert input[0..] == input;
    ghost var all := EscapeAll(Clean(input));
    assert [] + all == all;
    while ptr < |input|
      invariant 0 <= ptr <= |input|
      invariant all == ret + EscapeAll(Clean(input[ptr..]))
    {
      ghost var s, before := input[ptr..], ret;
      var unit := UnitAt(input, ptr);
      if unit > 0 {
        assert s[..unit] == input[ptr..ptr + unit] && s[unit..] == input[ptr + unit..];
        UnitEscaped(s);
        EscapeAllSum(s[..unit], Clean(s[unit..]));
        var c := input[ptr];
        var added := if ShortEscape(c) != 0 then [BACKSLASH, ShortEscape(c)] else input[ptr..ptr + unit];
        ConcatAssociative(ret, added, EscapeAll(Clean(s[unit..])));
        ret := ret + added;
        ptr := ptr + unit;
      } else {
        assert s[1..] == input[ptr + 1..];
        ptr := ptr + 1;
      }
    }
    assert EscapeAll(Clean(input[ptr..])) == [] by { NothingEscaped(); }
    assert ret + [] == ret;
  }

  lemma NothingEscaped()
    ensures EscapeAll(Clean([])) == []
  {
  }

  /** How many bytes of the input at ptr go together: a plain character, or a
      multi-byte one whose code is not zero. */
  method UnitAt(input: seq<byte>, ptr: nat) returns (n: nat)
    requires ptr < |input|
    ensures n == UnitLength(input[ptr..])
  {
    var c: int, next, end := input[ptr], ptr + 1, |input|;
    ghost var s := input[ptr..];
    if ShortEscape(input[ptr]) != 0 || 0x20 <= c < 0x7f {
      return 1;
    }
    var unicode := 0;
    n := 0;
    if c / 0x20 == 6 && next < end {
      assert s[1] == input[next];
      if Continues(input[next]) {
        var d: int := input[next];
        unicode := c % 0x20 * 0x40 + d % 0x40;
        n := 2;
      }
    } else if c / 0x10 == 14 && next + 1 < end {
      assert s[1] == input[next] && s[2] == input[next + 1];
      if Continues(input[next]) && Continues(input[next + 1]) {
        var d: int, e: int := input[next], input[next + 1];
        unicode := c % 0x10 * 0x1000 + d % 0x40 * 0x40 + e % 0x40;
        n := 3;
      }
    } else if c / 8 == 30 && next + 2 < end {
      assert s[1] == input[next] && s[2] == input[next + 1] && s[3] == input[next + 2];
      if Continues(input[next]) && Continues(input[next + 1]) && Continues(input[next + 2]) {
        var d: int, e: int, f: int := input[next], input[next + 1], input[next + 2];
        unicode := c % 8 * 0x40000 + d % 0x40 * 0x1000 + e % 0x40 * 0x40 + f % 0x40;
        n := 4;
      }
    }
    if unicode == 0 {
      n := 0;
    }
  }

  // Reading.

  function DropSpace(r: seq<byte>): (s: seq<byte>)
    ensures |s| <= |r| && (s != [] ==> !IsSpace(s[0]))
  {
    if r != [] && IsSpace(r[0]) then DropSpace(r[1..]) else r
  }

  /** The value of a hexadecimal digit, 16 for anything else. */
  function HexDigit(c: byte): nat {
    if IsDigit(c) then c - 0x30
    else if 0x41 <= c <= 0x46 then c - 0x37
    else if 0x61 <= c <= 0x66 then c - 0x57
    else 16
  }

  function HexDigits(t: seq<byte>, value: nat): nat
    decreases |t|
  {
    if t == [] || HexDigit(t[0]) == 16 then value else HexDigits(t[1..], value * 16 + HexDigit(t[0]))
  }

  /** strtol(t, nullptr, 16) converted to 32 bits, for a short t. */
  function Hexadecimal(t: seq<byte>): nat
    requires |t| == 4
  {
    var s := DropSpace(t);
    var negative := s != [] && s[0] == 0x2d;
    var u := if s != [] && (s[0] == 0x2d || s[0] == 0x2b) then s[1..] else s;
    var prefixed := |u| > 2 && u[0] == 0x30 && (u[1] == 0x78 || u[1] == 0x58) && HexDigit(u[2]) < 16;
    var digits := if prefixed then u[2..] else u;
    var value := HexDigits(digits, 0);
    if negative then (0x1_0000_0000 - value) % 0x1_0000_0000 else value
  }

  /** A code point in one to four octets; nothing when it is out of range. */
  function Utf8(u: nat): seq<byte> {
    if u < 0x80 then [u]
    else if u < 0x800 then [0xc0 + u / 0x40, 0x80 + u % 0x40]
    else if u < 0x10000 then [0xe0 + u / 0x1000, 0x80 + u / 0x40 % 0x40, 0x80 + u % 0x40]
    else if u < 0x200000 then [0xf0 + u / 0x40000, 0x80 + u / 0x1000 % 0x40, 0x80 + u / 0x40 % 0x40, 0x80 + u % 0x40]
    else []
  }

  /** The bytes a backslash sequence stands for, and how long it is. */
  function Unescape(r: seq<byte>): (u: (seq<byte>, nat))
    requires |r| >= 2 && r[0] == BACKSLASH
    ensures 2 <= u.1 <= |r|
  {
    var c := r[1];
    if c == 0x75 then
      if |r| < 6 then ([], 2)
      else
        var unicode := Hexadecimal(r[2..6]);
        if 0xd800 <= unicode < 0xdc00 && |r| >= 12 && r[6] == BACKSLASH && r[7] == 0x75
           && 0xdc00 <= Hexadecimal(r[8..12]) < 0xe000 then
          (Utf8((unicode - 0xd800) * 0x400 + (Hexadecimal(r[8..12]) - 0xdc00) + 0x10000), 12)
        else (Utf8(unicode), 6)
    else if c == 0x62 then ([8], 2)
    else if c == 0x6e then ([10], 2)
    else if c == 0x72 then ([13], 2)
    else if c == 0x66 then ([12], 2)
    else if c == 0x74 then ([9], 2)
    else if c == 0x76 then ([11], 2)
    else ([c], 2)
  }

  datatype Scanned = Unterminated | Scanned(text: seq<byte>, rest: seq<byte>) {
    function Prepend(t: seq<byte>): Scanned {
      if this == Unterminated then Unterminated else this.(text := t + text)
    }
  }

  /** What follows an opening quote. */
  function StringBody(r: seq<byte>): (s: Scanned)
    ensures s.Scanned? ==> |s.rest| < |r| && s.rest == r[|r| - |s.rest|..]
    decreases |r|
  {
    if r == [] then Unterminated
    else if r[0] == QUOTE then Scanned([], r[1..])
    else if r[0] != BACKSLASH then StringBody(r[1..]).Prepend([r[0]])
    else if |r| == 1 then Unterminated
    else StringBody(r[Unescape(r).1..]).Prepend(Unescape(r).0)
  }

  lemma UnescapeShort(c: byte, rest: seq<byte>)
    requires ShortEscape(c) != 0
    ensures Unescape([BACKSLASH, ShortEscape(c)] + rest) == ([c], 2)
  {
  }

  /** Whatever was escaped is read back, up to its closing quote. */
  lemma {:induction false} EscapedReadBack(t: seq<byte>, rest: seq<byte>)
    ensures StringBody(EscapeAll(t) + [QUOTE] + rest) == Scanned(t, rest)
  {
    hide Unescape, ShortEscape, UnitLength;
    if t == [] {
      assert ([] + [QUOTE] + rest)[1..] == rest;
    } else {
      var tail := EscapeAll(t[1..]) + [QUOTE] + rest;
      var r := EscapeAll(t) + [QUOTE] + rest;
      assert r == Escape(t[0]) + tail by {
        Regroup(Escape(t[0]), EscapeAll(t[1..]), [QUOTE], rest);
      }
      EscapedReadBack(t[1..], rest);
      assert t == [t[0]] + t[1..];
      if ShortEscape(t[0]) != 0 {
        UnescapeShort(t[0], tail);
        assert r[2..] == tail;
      } else {
        assert r[1..] == tail && r[0] == t[0];
        assert t[0] != QUOTE && t[0] != BACKSLASH by { NotSpecial(t[0]); }
      }
    }
  }

  lemma Regroup(a: seq<byte>, b: seq<byte>, c: seq<byte>, d: seq<byte>)
    ensures a + b + c + d == a + (b + c + d)
  {
  }

  lemma NotSpecial(c: byte)
    requires ShortEscape(c) == 0
    ensures c != QUOTE && c != BACKSLASH
  {
  }

  /** Reading a string that was written gives it back without the bytes that
      were dropped, and stops right behind it. */
  lemma StringRoundTrip(s: seq<byte>, rest: seq<byte>)
    ensures var r := Quoted(s) + rest; r != [] && r[0] == QUOTE && StringBody(r[1..]) == Scanned(Clean(s), rest)
  {
    hide StringBody, EscapeAll, Clean;
    var t := EscapeAll(Clean(s));
    EscapedReadBack(Clean(s), rest);
    assert Quoted(s) + rest == [QUOTE] + (t + [QUOTE] + rest);
  }

  /** A string no byte of which is dropped. */
  predicate Whole(s: seq<byte>)
  {
    s == [] || (UnitLength(s) > 0 && Whole(s[UnitLength(s)..]))
  }

  lemma UnitStays(s: seq<byte>, tail: seq<byte>)
    requires s != [] && UnitLength(s) > 0
    ensures UnitLength(s[..UnitLength(s)] + tail) == UnitLength(s)
  {
  }

  /** Exactly the whole strings are kept as they are, and any string becomes one. */
  lemma {:induction false} CleanIsWhole(s: seq<byte>)
    ensures |Clean(s)| <= |s| && Whole(Clean(s)) && (Clean(s) == s <==> Whole(s))
    decreases |s|
  {
    hide UnitLength;
    if s != [] {
      var n := UnitLength(s);
      if n == 0 {
        CleanIsWhole(s[1..]);
      } else {
        CleanIsWhole(s[n..]);
        UnitStays(s, Clean(s[n..]));
        var c := s[..n] + Clean(s[n..]);
        assert c[n..] == Clean(s[n..]);
        assert s == s[..n] + s[n..];
        assert Clean(s) == s ==> Clean(s[n..]) == s[n..];
      }
    }
  }

  /** Cleaning twice does no more than cleaning once. */
  lemma CleanTwice(s: seq<byte>)
    ensures Clean(Clean(s)) == Clean(s)
  {
    CleanIsWhole(s);
    CleanIsWhole(Clean(s));
  }

  // Code points.

  predicate ScalarValue(u: nat) {
    u < 0x110000 && !(0xd800 <= u < 0xe000)
  }

  /** A character the writer can express. */
  predicate Expressible(u: nat) {
    u >= 0x80 || 0x20 <= u < 0x7f || u in {8, 9, 10, 12, 13}
  }

  function Utf8All(us: seq<nat>): seq<byte> {
    if us == [] then [] else Utf8(us[0]) + Utf8All(us[1..])
  }

  lemma Utf8Unit(u: nat, tail: seq<byte>)
    requires ScalarValue(u)
    ensures Utf8(u) != [] && UnitLength(Utf8(u) + tail) == if Expressible(u) then |Utf8(u)| else 0
    ensures (Utf8(u) + tail)[|Utf8(u)|..] == tail
  {
  }

  /** Text in UTF-8 passes unchanged exactly if it holds no control character
      without a short escape and no DEL. */
  lemma {:induction false} Utf8Passes(us: seq<nat>)
    requires forall i :: 0 <= i < |us| ==> ScalarValue(us[i])
    ensures Clean(Utf8All(us)) == Utf8All(us) <==> forall i :: 0 <= i < |us| ==> Expressible(us[i])
  {
    CleanIsWhole(Utf8All(us));
    WholeUtf8(us);
  }

  lemma {:induction false} WholeUtf8(us: seq<nat>)
    requires forall i :: 0 <= i < |us| ==> ScalarValue(us[i])
    ensures Whole(Utf8All(us)) <==> forall i :: 0 <= i < |us| ==> Expressible(us[i])
  {
    hide UnitLength, Utf8;
    if us != [] {
      Utf8Unit(us[0], Utf8All(us[1..]));
      WholeUtf8(us[1..]);
      assert us == [us[0]] + us[1..];
    }
  }

  function HexLetter(d: nat): byte
    requires d < 16
  {
    if d < 10 then 0x30 + d else 0x41 + d - 10
  }

  /** A backslash, u, and four hexadecimal digits. */
  function UnicodeEscape(u: nat): (e: seq<byte>)
    requires u < 0x10000
    ensures |e| == 6
  {
    [BACKSLASH, 0x75, HexLetter(u / 0x1000), HexLetter(u / 0x100 % 0x10), HexLetter(u / 0x10 % 0x10),
     HexLetter(u % 0x10)]
  }

  lemma LetterRead(d: nat)
    requires d < 16
    ensures var c := HexLetter(d); HexDigit(c) == d && !IsSpace(c) && c !in {0x2b, 0x2d, 0x58, 0x78}
  {
  }

  lemma NoLeadingSpace(t: seq<byte>)
    requires t != [] ==> !IsSpace(t[0])
    ensures DropSpace(t) == t
  {
  }

  lemma FourDigits(a: byte, b: byte, c: byte, d: byte)
    requires HexDigit(a) < 16 && HexDigit(b) < 16 && HexDigit(c) < 16 && HexDigit(d) < 16
    ensures HexDigits([a, b, c, d], 0) == ((HexDigit(a) * 16 + HexDigit(b)) * 16 + HexDigit(c)) * 16 + HexDigit(d)
  {
    hide HexDigit;
    assert [a, b, c, d][1..] == [b, c, d] && [b, c, d][1..] == [c, d] && [c, d][1..] == [d] && [d][1..] == [];
    var high := HexDigit(a) * 16 + HexDigit(b);
    assert HexDigits([a, b, c, d], 0) == HexDigits([b, c, d], HexDigit(a)) == HexDigits([c, d], high);
    assert HexDigits([c, d], high) == HexDigits([d], high * 16 + HexDigit(c));
  }

  /** Four digits that begin with no space, sign or prefix are read as they stand. */
  lemma PlainHexadecimal(t: seq<byte>)
    requires |t| == 4 && !IsSpace(t[0]) && t[0] !in {0x2b, 0x2d} && t[1] !in {0x58, 0x78}
    ensures Hexadecimal(t) == HexDigits(t, 0)
  {
    hide HexDigit, HexDigits, DropSpace, IsSpace;
    NoLeadingSpace(t);
  }

  lemma HexadecimalOf(u: nat)
    requires u < 0x10000
    ensures Hexadecimal(UnicodeEscape(u)[2..6]) == u
  {
    hide HexLetter, HexDigit, HexDigits, IsSpace, DropSpace, Hexadecimal;
    var a, b, c, d := u / 0x1000, u / 0x100 % 0x10, u / 0x10 % 0x10, u % 0x10;
    var t := UnicodeEscape(u)[2..6];
    assert t == [HexLetter(a), HexLetter(b), HexLetter(c), HexLetter(d)];
    LetterRead(a);
    LetterRead(b);
    LetterRead(c);
    LetterRead(d);
    FourDigits(t[0], t[1], t[2], t[3]);
    PlainHexadecimal(t);
    FromDigits(u, a, b, c, d);
  }

  lemma FromDigits(u: nat, a: nat, b: nat, c: nat, d: nat)
    requires a == u / 0x1000 && b == u / 0x100 % 0x10 && c == u / 0x10 % 0x10 && d == u % 0x10
    ensures ((a * 16 + b) * 16 + c) * 16 + d == u
  {
    assert u / 0x100 == u / 0x10 / 0x10 && u / 0x1000 == u / 0x100 / 0x10;
  }

  /** A character written as one escape, or as the two of a surrogate pair, is
      read as its octets. */
  lemma EscapedCharacterRead(u: nat, rest: seq<byte>)
    requires ScalarValue(u)
    ensures var v := if u < 0x10000 then 0 else u - 0x10000;
            var e := if u < 0x10000 then UnicodeEscape(u)
                     else UnicodeEscape(0xd800 + v / 0x400) + UnicodeEscape(0xdc00 + v % 0x400);
            Unescape(e + rest) == (Utf8(u), |e|)
  {
    hide Hexadecimal, HexLetter;
    if u < 0x10000 {
      HexadecimalOf(u);
      assert (UnicodeEscape(u) + rest)[2..6] == UnicodeEscape(u)[2..6];
    } else {
      var v := u - 0x10000;
      var high, low := UnicodeEscape(0xd800 + v / 0x400), UnicodeEscape(0xdc00 + v % 0x400);
      HexadecimalOf(0xd800 + v / 0x400);
      HexadecimalOf(0xdc00 + v % 0x400);
      var r := high + low + rest;
      assert r[2..6] == high[2..6] && r[8..12] == low[2..6];
      assert r[6] == BACKSLASH && r[7] == 0x75;
    }
  }

  /** The string literal at the front of text[begin..], white space before it
      included: its length there, 0 when there is none. */
  method ParseString(text: seq<byte>, begin: nat) returns (n: nat, out: seq<byte>)
    requires begin < |text|
    ensures var r := DropSpace(text[begin..]);
            if r != [] && r[0] == QUOTE && StringBody(r[1..]).Scanned? then
              n > 0 && begin + n <= |text| && Scanned(out, text[begin + n..]) == StringBody(r[1..])
            else n == 0
  {
    hide Unescape, StringBody, DropSpace;
    ghost var r := DropSpace(text[begin..]);
    var ptr := ScanSpace(text, begin);
    out := [];
    if ptr == |text| || text[ptr] != QUOTE {
      return 0, out;
    }
    ptr := ptr + 1;
    assert text[ptr..] == r[1..];
    var end;
    end, out := ParseBody(text, ptr);
    n := if end == 0 then 0 else end - begin;
  }

  /** From behind an opening quote to behind the closing one; 0 without one. */
  method ParseBody(text: seq<byte>, begin: nat) returns (end: nat, out: seq<byte>)
    requires 0 < begin <= |text|
    ensures if end == 0 then StringBody(text[begin..]) == Unterminated
            else begin < end <= |text| && StringBody(text[begin..]) == Scanned(out, text[end..])
  {
    hide Unescape, StringBody;
    out := [];
    var ptr := begin;
    ghost var all := StringBody(text[ptr..]);
    assert all.Prepend([]) == all by { PrependNothing(all); }
    while ptr < |text|
      invariant begin <= ptr <= |text|
      invariant all == StringBody(text[ptr..]).Prepend(out)
    {
      ghost var s, before := text[ptr..], out;
      BodyStep(s);
      var c := text[ptr];
      if c == QUOTE {
        assert s[1..] == text[ptr + 1..] && out + [] == out;
        return ptr + 1, out;
      }
      if c == BACKSLASH && ptr + 1 == |text| {
        return 0, out;
      }
      var u := if c == BACKSLASH then Unescape(text[ptr..]) else ([c], 1);
      assert s[u.1..] == text[ptr + u.1..];
      out := out + u.0;
      ptr := ptr + u.1;
      PrependTwice(before, u.0, StringBody(text[ptr..]));
    }
    assert text[ptr..] == [];
    BodyStep([]);
    return 0, out;
  }

  lemma PrependNothing(s: Scanned)
    ensures s.Prepend([]) == s
  {
    assert s.Scanned? ==> [] + s.text == s.text;
  }

  lemma PrependTwice(a: seq<byte>, b: seq<byte>, s: Scanned)
    ensures s.Prepend(b).Prepend(a) == s.Prepend(a + b)
  {
    if s.Scanned? {
      ConcatAssociative(a, b, s.text);
    }
  }

  lemma BodyStep(r: seq<byte>)
    ensures StringBody(r) ==
            if r == [] then Unterminated
            else if r[0] == QUOTE then Scanned([], r[1..])
            else if r[0] == BACKSLASH && |r| == 1 then Unterminated
            else
              var u := if r[0] == BACKSLASH then Unescape(r) else ([r[0]], 1);
              StringBody(r[u.1..]).Prepend(u.0)
  {
  }

  /** The index of the first byte from begin on that is not white space. */
  method ScanSpace(text: seq<byte>, begin: nat) returns (ptr: nat)
    requires begin <= |text|
    ensures begin <= ptr <= |text| && text[ptr..] == DropSpace(text[begin..])
  {
    ptr := begin;
    while ptr < |text| && IsSpace(text[ptr])
      invariant begin <= ptr <= |text|
      invariant DropSpace(text[ptr..]) == DropSpace(text[begin..])
    {
      assert text[ptr..][1..] == text[ptr + 1..];
      ptr := ptr + 1;
    }
  }
}
