/** The JSON texts that the tree library accepts, as texts: spelling, white
    space and structure, octet by octet. */
module PicoJsonGrammar {
  import opened Bytes
  import opened JsonTrees
  import opened PicoJsonSpec
  import J = JsonStrings

  // White space.

  ghost predicate Gap(s: seq<byte>) {
    forall i :: 0 <= i < |s| ==> s[i] in {0x20, 9, 10, 13}
  }

  lemma {:induction false} GapSkipped(s: seq<byte>, t: seq<byte>)
    requires Gap(s)
    ensures SkipSpace(s + t) == SkipSpace(t)
  {
    if s == [] {
      assert s + t == t;
    } else {
      assert (s + t)[1..] == s[1..] + t;
      GapSkipped(s[1..], t);
    }
  }

  lemma NothingSkipped(t: seq<byte>)
    requires t == [] || t[0] !in {0x20, 9, 10, 13}
    ensures SkipSpace(t) == t
  {
  }

  lemma {:induction false} GapFound(r: seq<byte>) returns (s: seq<byte>)
    ensures Gap(s) && r == s + SkipSpace(r)
    ensures SkipSpace(r) == [] || SkipSpace(r)[0] !in {0x20, 9, 10, 13}
  {
    if r != [] && IsBlank(r[0]) {
      var more := GapFound(r[1..]);
      s := [r[0]] + more;
    } else {
      s := [];
    }
  }

  // Strings.

  /** One character as it is spelled, and the bytes it stands for. */
  datatype Unit = Unit(text: seq<byte>, bytes: seq<byte>)

  predicate ShortUnit(e: byte, c: byte) {
    || (e == 0x22 && c == 0x22) || (e == 0x5c && c == 0x5c) || (e == 0x2f && c == 0x2f)
    || (e == 0x62 && c == 8) || (e == 0x66 && c == 12) || (e == 0x6e && c == 10)
    || (e == 0x72 && c == 13) || (e == 0x74 && c == 9)
  }

  /** The value of four hexadecimal digits; 0x10000 if they are not that. */
  function Hex(t: seq<byte>): nat
    requires |t| == 4
  {
    if J.HexDigit(t[0]) == 16 || J.HexDigit(t[1]) == 16 || J.HexDigit(t[2]) == 16 || J.HexDigit(t[3]) == 16 then 0x10000
    else 0x1000 * J.HexDigit(t[0]) + 0x100 * J.HexDigit(t[1]) + 0x10 * J.HexDigit(t[2]) + J.HexDigit(t[3])
  }

  predicate Spells(x: Unit) {
    var t := x.text;
    || (|t| == 1 && x.bytes == t && t[0] >= 0x20 && t[0] != 0x22 && t[0] != 0x5c)
    || (|t| == 2 && t[0] == 0x5c && |x.bytes| == 1 && ShortUnit(t[1], x.bytes[0]))
    || (|t| == 6 && t[0] == 0x5c && t[1] == 0x75
        && var u := Hex(t[2..6]); u < 0x10000 && !(0xd800 <= u < 0xe000) && x.bytes == J.Utf8(u))
    || (|t| == 12 && t[0] == t[6] == 0x5c && t[1] == t[7] == 0x75
        && var high, low := Hex(t[2..6]), Hex(t[8..12]);
           && 0xd800 <= high < 0xdc00 <= low < 0xe000
           && x.bytes == J.Utf8(0x10000 + (high - 0xd800) * 0x400 + (low - 0xdc00)))
  }

  lemma HexRead(t: seq<byte>, rest: seq<byte>)
    requires |t| == 4
    ensures QuadHex(t + rest) == if Hex(t) == 0x10000 then Bad else Good(Hex(t), rest)
    ensures Hex(t) <= 0x10000
  {
    assert (t + rest)[4..] == rest;
  }

  lemma UnitRead(x: Unit, rest: seq<byte>)
    requires Spells(x)
    ensures x.text != [] && x.text[0] != 0x22 && Char(x.text + rest) == Good(x.bytes, rest)
  {
    hide Hex, J.Utf8;
    var t := x.text;
    var r := t + rest;
    if |t| == 1 {
      assert r[1..] == rest && t == [r[0]];
    } else if |t| == 2 {
      assert r[2..] == rest && Unescaped(t[1]) == x.bytes[0] && x.bytes == [x.bytes[0]];
    } else if |t| == 6 {
      HexRead(t[2..6], rest);
      assert r[2..] == t[2..6] + rest;
    } else {
      PairRead(t, rest);
    }
  }

  lemma PairRead(t: seq<byte>, rest: seq<byte>)
    requires |t| == 12 && t[0] == t[6] == 0x5c && t[1] == t[7] == 0x75
    requires 0xd800 <= Hex(t[2..6]) < 0xdc00 <= Hex(t[8..12]) < 0xe000
    ensures CodePoint((t + rest)[2..])
            == Good(0x10000 + (Hex(t[2..6]) - 0xd800) * 0x400 + (Hex(t[8..12]) - 0xdc00), rest)
  {
    hide Hex, QuadHex;
    var r, r1 := t + rest, [0x5c, 0x75] + (t[8..12] + rest);
    assert r[2..] == t[2..6] + r1;
    HexRead(t[2..6], r1);
    assert r1[2..] == t[8..12] + rest;
    HexRead(t[8..12], rest);
  }

  lemma UnitFound(r: seq<byte>) returns (x: Unit)
    requires r != [] && r[0] != 0x22 && Char(r).Good?
    ensures Spells(x) && r == x.text + Char(r).rest && x.bytes == Char(r).value
  {
    hide Hex, J.Utf8;
    if r[0] != 0x5c {
      x := Unit(r[..1], r[..1]);
    } else if Unescaped(r[1]) != 0 {
      x := Unit(r[..2], Char(r).value);
    } else {
      assert r[2..] == r[2..6] + r[6..];
      HexRead(r[2..6], r[6..]);
      if 0xd800 <= Hex(r[2..6]) < 0xdc00 {
        x := PairFound(r);
      } else {
        x := Unit(r[..6], Char(r).value);
        assert x.text[2..6] == r[2..6] && r == r[..6] + r[6..];
      }
    }
  }

  lemma PairFound(r: seq<byte>) returns (x: Unit)
    requires |r| >= 6 && r[0] == 0x5c && r[1] == 0x75 && Char(r).Good? && 0xd800 <= Hex(r[2..6]) < 0xdc00
    ensures Spells(x) && r == x.text + Char(r).rest && x.bytes == Char(r).value
  {
    hide Hex, J.Utf8;
    var q := r[2..];
    assert q == r[2..6] + r[6..];
    HexRead(r[2..6], r[6..]);
    assert r[6..][2..] == r[8..12] + r[12..];
    HexRead(r[8..12], r[12..]);
    x := Unit(r[..12], Char(r).value);
    assert r == r[..12] + r[12..] && x.text[2..6] == r[2..6] && x.text[8..12] == r[8..12];
  }

  function Texts(xs: seq<Unit>): seq<byte> {
    if xs == [] then [] else xs[0].text + Texts(xs[1..])
  }

  function Stand(xs: seq<Unit>): seq<byte> {
    if xs == [] then [] else xs[0].bytes + Stand(xs[1..])
  }

  ghost predicate AllSpell(xs: seq<Unit>) {
    forall i :: 0 <= i < |xs| ==> Spells(xs[i])
  }

  lemma {:induction false} UnitsRead(xs: seq<Unit>, rest: seq<byte>)
    requires AllSpell(xs)
    ensures Chars(Texts(xs) + ([0x22] + rest)) == Good(Stand(xs), rest)
    decreases |xs|
  {
    hide Char, Spells;
    if xs == [] {
      assert [] + ([0x22] + rest) == [0x22] + rest;
      assert ([0x22] + rest)[1..] == rest;
    } else {
      var tail := Texts(xs[1..]) + ([0x22] + rest);
      ConcatAssociative(xs[0].text, Texts(xs[1..]), [0x22] + rest);
      UnitRead(xs[0], tail);
      UnitsRead(xs[1..], rest);
    }
  }

  lemma {:induction false} UnitsFound(r: seq<byte>) returns (xs: seq<Unit>)
    requires Chars(r).Good?
    ensures AllSpell(xs) && r == Texts(xs) + ([0x22] + Chars(r).rest) && Stand(xs) == Chars(r).value
    decreases |r|
  {
    hide Char, Spells;
    if r[0] == 0x22 {
      xs := [];
      assert r == [0x22] + r[1..];
    } else {
      var x := UnitFound(r);
      var more := UnitsFound(Char(r).rest);
      xs := [x] + more;
      assert xs[1..] == more;
      ConcatAssociative(x.text, Texts(more), [0x22] + Chars(r).rest);
    }
  }

  // Numbers.

  /** A number: a minus sign if it has one, digits, a fraction if it has a point, and an exponent. */
  datatype Numeral = Numeral(minus: bool, whole: seq<byte>, point: bool, fraction: seq<byte>, exponent: seq<byte>)

  predicate AllDigits(s: seq<byte>) {
    forall i :: 0 <= i < |s| ==> 0x30 <= s[i] <= 0x39
  }

  /** "e" or "E", a sign if there is one, and digits. */
  predicate IsExponent(s: seq<byte>) {
    && |s| > 1 && (s[0] == 0x65 || s[0] == 0x45)
    && (AllDigits(s[1..]) || ((s[1] == 0x2b || s[1] == 0x2d) && |s| > 2 && AllDigits(s[2..])))
  }

  predicate IsNumeral(n: Numeral) {
    && AllDigits(n.whole) && AllDigits(n.fraction) && (n.point || n.fraction == [])
    && |n.whole| + |n.fraction| > 0 && (n.minus || n.whole != [])
    && (n.exponent == [] || IsExponent(n.exponent))
  }

  function NumeralText(n: Numeral): seq<byte> {
    (if n.minus then [0x2d] else []) + Magnitude(n)
  }

  function Magnitude(n: Numeral): seq<byte> {
    n.whole + (if n.point then [0x2e] + n.fraction else []) + n.exponent
  }

  ghost predicate Lexeme(t: seq<byte>) {
    && t != [] && (IsDigit(t[0]) || t[0] == 0x2d) && TakenWhole(t)
    && forall i :: 0 <= i < |t| ==> NumberChar(t[i])
  }

  lemma {:induction false} DigitsOf(s: seq<byte>, rest: seq<byte>)
    requires AllDigits(s) && (rest == [] || !IsDigit(rest[0]))
    ensures Digits(s + rest) == |s|
  {
    if s == [] {
      assert s + rest == rest;
    } else {
      assert (s + rest)[1..] == s[1..] + rest;
      DigitsOf(s[1..], rest);
    }
  }

  lemma {:induction false} DigitsFound(r: seq<byte>)
    ensures AllDigits(r[..Digits(r)]) && (Digits(r) < |r| ==> !IsDigit(r[Digits(r)]))
  {
    if r != [] && IsDigit(r[0]) {
      DigitsFound(r[1..]);
      assert r[..Digits(r)] == [r[0]] + r[1..][..Digits(r[1..])];
    }
  }

  lemma NumeralTaken(n: Numeral)
    requires IsNumeral(n)
    ensures Lexeme(NumeralText(n))
  {
    NumeralChars(n);
    MagnitudeTaken(n);
    MagnitudeBegins(n);
    var m := Magnitude(n);
    hide Unsigned, Magnitude, IsNumeral, NumberChar;
    assert ([0x2d] + m)[1..] == m && [] + m == m && m[0..] == m;
  }

  lemma MagnitudeBegins(n: Numeral)
    requires IsNumeral(n)
    ensures Magnitude(n) != [] && Magnitude(n)[0] != 0x2b && Magnitude(n)[0] != 0x2d
    ensures !n.minus ==> IsDigit(Magnitude(n)[0])
  {
  }

  lemma MagnitudeTaken(n: Numeral)
    requires IsNumeral(n)
    ensures Unsigned(Magnitude(n))
  {
    hide Digits, Exponent, AllDigits, IsExponent, BehindDigits;
    var point := if n.point then [0x2e] + n.fraction else [];
    ConcatAssociative(n.whole, point, n.exponent);
    BackTaken(n.whole, point + n.exponent, n);
    UnsignedOf(n.whole, point + n.exponent);
  }

  lemma UnsignedOf(whole: seq<byte>, back: seq<byte>)
    requires AllDigits(whole) && (back == [] || !IsDigit(back[0]))
    ensures Unsigned(whole + back) == BehindDigits(|whole|, back)
  {
    hide BehindDigits, AllDigits;
    DigitsOf(whole, back);
    assert (whole + back)[|whole|..] == back;
  }

  lemma BackTaken(whole: seq<byte>, back: seq<byte>, n: Numeral)
    requires IsNumeral(n) && whole == n.whole && back == (if n.point then [0x2e] + n.fraction else []) + n.exponent
    ensures BehindDigits(|whole|, back) && (back == [] || !IsDigit(back[0]))
  {
    ExponentTaken(n.exponent);
    DigitsOf(n.fraction, n.exponent);
    hide Digits, Exponent, AllDigits;
    if n.point {
      PointBehind(n.fraction, n.exponent);
    } else {
      assert back == n.exponent;
    }
  }

  lemma PointBehind(fraction: seq<byte>, exponent: seq<byte>)
    ensures var back := [0x2e] + fraction + exponent;
            back[0] == 0x2e && back[1..] == fraction + exponent && back[1..][|fraction|..] == exponent
  {
    assert [0x2e] + fraction + exponent == [0x2e] + (fraction + exponent);
  }

  lemma ExponentTaken(e: seq<byte>)
    requires e == [] || IsExponent(e)
    ensures Exponent(e)
  {
    if e != [] {
      var x := e[1 + Sign(e[1..])..];
      assert x + [] == x;
      DigitsOf(x, []);
    }
  }

  lemma ExponentFound(e: seq<byte>)
    requires Exponent(e)
    ensures e == [] || IsExponent(e)
  {
    if e != [] {
      var x := e[1 + Sign(e[1..])..];
      DigitsFound(x);
      assert x[..|x|] == x;
    }
  }

  lemma NumeralChars(n: Numeral)
    requires IsNumeral(n)
    ensures forall i :: 0 <= i < |NumeralText(n)| ==> NumberChar(NumeralText(n)[i])
  {
    assert forall c :: c in n.whole + n.fraction ==> NumberChar(c);
    assert forall c :: c in n.exponent ==> NumberChar(c);
    assert forall c :: c in NumeralText(n) ==> c in n.whole + n.fraction || c in n.exponent || c in [0x2d, 0x2e];
  }

  lemma NumeralFound(t: seq<byte>) returns (n: Numeral)
    requires Lexeme(t)
    ensures IsNumeral(n) && t == NumeralText(n)
  {
    var minus := t[0] == 0x2d;
    n := MagnitudeFound(t[Sign(t)..], minus);
    hide Unsigned, Magnitude;
    assert t == (if minus then [0x2d] else []) + t[Sign(t)..];
  }

  lemma MagnitudeFound(m: seq<byte>, minus: bool) returns (n: Numeral)
    requires Unsigned(m) && (minus || (m != [] && IsDigit(m[0])))
    ensures IsNumeral(n) && m == Magnitude(n) && n.minus == minus
  {
    var whole, back := m[..Digits(m)], m[Digits(m)..];
    DigitsFound(m);
    SomeDigits(m);
    hide Digits;
    n := BackFound(whole, back, minus);
    assert m == whole + back;
  }

  lemma BackFound(whole: seq<byte>, back: seq<byte>, minus: bool) returns (n: Numeral)
    requires AllDigits(whole) && BehindDigits(|whole|, back) && (minus || whole != [])
    ensures IsNumeral(n) && whole + back == Magnitude(n) && n.minus == minus
  {
    hide Exponent, Digits, AllDigits, IsExponent;
    if back != [] && back[0] == 0x2e {
      var more := back[1..];
      var fraction, exponent := more[..Digits(more)], more[Digits(more)..];
      DigitsFound(more);
      ExponentFound(exponent);
      n := Numeral(minus, whole, true, fraction, exponent);
      PointFirst(back, Digits(more));
      ConcatAssociative(whole, [0x2e] + fraction, exponent);
    } else {
      ExponentFound(back);
      n := Numeral(minus, whole, false, [], back);
      NoDigits();
      assert whole + [] == whole;
    }
  }

  lemma PointFirst(back: seq<byte>, f: nat)
    requires back != [] && back[0] == 0x2e && f < |back|
    ensures back == [0x2e] + back[1..][..f] + back[1..][f..]
  {
  }

  lemma SomeDigits(m: seq<byte>)
    ensures m != [] && IsDigit(m[0]) ==> Digits(m) > 0
  {
  }

  lemma NoDigits()
    ensures AllDigits([])
  {
  }
}
