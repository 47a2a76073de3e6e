/** Integers as text, and fields of a given width. */
module IntegerText {
  import opened Bytes

  const ZERO: byte := 0x30
  const PLUS: byte := 0x2b
  const MINUS: byte := 0x2d
  const SPACE: byte := 0x20

  /** The decimal digits of n; none for zero. */
  function Digits(n: nat): seq<byte> {
    if n == 0 then [] else Digits(n / 10) + [ZERO + n % 10]
  }

  /** An integer as it stands by itself: a zero has no sign. */
  function Natural(val: int, forceSign: bool): (t: seq<byte>)
    ensures t != []
  {
    if val == 0 then [ZERO]
    else if val < 0 then [MINUS] + Digits(-val)
    else (if forceSign then [PLUS] else []) + Digits(val)
  }

  function Repeat(c: byte, n: nat): (s: seq<byte>)
    ensures |s| == n && forall i :: 0 <= i < n ==> s[i] == c
  {
    seq(n, _ => c)
  }

  predicate IsSign(c: byte) {
    c == PLUS || c == MINUS
  }

  /** A text in a field: zeros go behind the sign. */
  function Field(t: seq<byte>, width: int, zeroPadding: bool, alignLeft: bool): seq<byte>
    requires t != []
  {
    if width <= |t| then t
    else
      var pad := width - |t|;
      if alignLeft then t + Repeat(SPACE, pad)
      else if !zeroPadding then Repeat(SPACE, pad) + t
      else if IsSign(t[0]) then [t[0]] + Repeat(ZERO, pad) + t[1..]
      else Repeat(ZERO, pad) + t
  }

  // Reading a field back.

  ghost predicate AllDigits(t: seq<byte>) {
    forall i :: 0 <= i < |t| ==> IsDigit(t[i])
  }

  function Number(t: seq<byte>): int {
    if t == [] then 0 else Number(t[..|t| - 1]) * 10 + (t[|t| - 1] - ZERO)
  }

  function WithoutSpace(t: seq<byte>): seq<byte> {
    if t == [] then [] else (if t[0] == SPACE then [] else [t[0]]) + WithoutSpace(t[1..])
  }

  /** The number a field stands for, its spaces removed; None if it is no number. */
  ghost function ReadField(field: seq<byte>): Option<int> {
    var t := WithoutSpace(field);
    if t == [] then None
    else
      var digits := if IsSign(t[0]) then t[1..] else t;
      if digits == [] || !AllDigits(digits) then None
      else Some(if t[0] == MINUS then -Number(digits) else Number(digits))
  }

  lemma {:induction false} DigitsRead(n: nat)
    ensures AllDigits(Digits(n)) && Number(Digits(n)) == n && (n > 0 ==> Digits(n) != [])
  {
    if n > 0 {
      DigitsRead(n / 10);
      var d := Digits(n);
      assert d[..|d| - 1] == Digits(n / 10);
    }
  }

  lemma {:induction false} LeadingZeros(k: nat, t: seq<byte>)
    ensures Number(Repeat(ZERO, k) + t) == Number(t)
    decreases |t|, k
  {
    var z := Repeat(ZERO, k);
    if t == [] {
      assert z + t == z;
      if k > 0 {
        LeadingZeros(k - 1, []);
        assert z[..k - 1] == Repeat(ZERO, k - 1) == Repeat(ZERO, k - 1) + [];
      }
    } else {
      LeadingZeros(k, t[..|t| - 1]);
      assert (z + t)[..k + |t| - 1] == z + t[..|t| - 1];
    }
  }

  lemma {:induction false} NoSpaces(t: seq<byte>)
    requires SPACE !in t
    ensures WithoutSpace(t) == t
  {
    if t != [] {
      NoSpaces(t[1..]);
      assert t == [t[0]] + t[1..];
    }
  }

  lemma {:induction false} SpacesBefore(k: nat, t: seq<byte>)
    requires SPACE !in t
    ensures WithoutSpace(Repeat(SPACE, k) + t) == t
  {
    if k == 0 {
      NoSpaces(t);
      assert Repeat(SPACE, 0) + t == t;
    } else {
      SpacesBefore(k - 1, t);
      assert (Repeat(SPACE, k) + t)[1..] == Repeat(SPACE, k - 1) + t;
      assert [] + t == t;
    }
  }

  lemma {:induction false} SpacesAfter(k: nat, t: seq<byte>)
    requires SPACE !in t
    ensures WithoutSpace(t + Repeat(SPACE, k)) == t
    decreases |t|
  {
    if t == [] {
      SpacesBefore(k, []);
      assert t + Repeat(SPACE, k) == Repeat(SPACE, k) + [];
    } else {
      SpacesAfter(k, t[1..]);
      assert (t + Repeat(SPACE, k))[1..] == t[1..] + Repeat(SPACE, k);
      assert t == [t[0]] + t[1..];
    }
  }

  /** A number's text is a sign, or none, and digits. */
  lemma NaturalParts(val: int, forceSign: bool) returns (sign: seq<byte>, digits: seq<byte>)
    ensures Natural(val, forceSign) == sign + digits
    ensures digits != [] && AllDigits(digits) && val == if sign == [MINUS] then -Number(digits) else Number(digits)
    ensures sign == [] || sign == [MINUS] || sign == [PLUS]
  {
    var magnitude := if val < 0 then -val else val;
    digits := if val == 0 then [ZERO] else Digits(magnitude);
    sign := if val < 0 then [MINUS] else if val > 0 && forceSign then [PLUS] else [];
    DigitsRead(magnitude);
    assert Number([ZERO]) == 0 by { assert [ZERO][..0] == []; }
  }

  /** A field is as wide as asked, or as its number needs, and reads back as
      the number, in every combination of the flags. */
  lemma FieldReadsBack(val: int, forceSign: bool, width: int, zeroPadding: bool, alignLeft: bool)
    ensures var t := Natural(val, forceSign);
            var f := Field(t, width, zeroPadding, alignLeft);
            |f| == Max(width, |t|) && ReadField(f) == Some(val)
  {
    hide Natural, Number, ReadField, WithoutSpace, AllDigits;
    var t := Natural(val, forceSign);
    var sign, digits := NaturalParts(val, forceSign);
    BodyReads(sign, digits, val);
    NoSpaces(t);
    if width > |t| {
      var pad := width - |t|;
      if alignLeft {
        SpacesAfter(pad, t);
      } else if !zeroPadding {
        SpacesBefore(pad, t);
      } else {
        ZeroPadded(sign, digits, val, pad);
      }
    }
  }

  // Where everything stands, octet by octet.

  /** A number by itself: '-' exactly if it is negative, '+' exactly if it is
      positive and asked for, no leading zero, and its last digit at the end. */
  lemma NaturalOctets(val: int, forceSign: bool)
    ensures var t, n := Natural(val, forceSign), if val < 0 then -val else val;
            && (t[0] == 0x2d <==> val < 0) && (t[0] == 0x2b <==> val > 0 && forceSign)
            && t[|t| - 1] == 0x30 + n % 10
            && (forall i :: 0 < i < |t| ==> 0x30 <= t[i] <= 0x39)
            && (if val == 0 then t == [0x30] else t[if t[0] in {0x2b, 0x2d} then 1 else 0] >= 0x31)
  {
    var n := if val < 0 then -val else val;
    DigitsRead(n);
    FirstDigit(n);
  }

  lemma {:induction false} FirstDigit(n: nat)
    ensures n > 0 ==> Digits(n) != [] && 0x31 <= Digits(n)[0] <= 0x39
  {
    if n > 0 {
      FirstDigit(n / 10);
    }
  }

  /** A field with room to spare: the number at the left with blanks behind it,
      or at the right with blanks in front, or zeros behind its sign. */
  lemma FieldOctets(t: seq<byte>, width: int, zeroPadding: bool, alignLeft: bool)
    requires t != []
    ensures var f := Field(t, width, zeroPadding, alignLeft);
            && |f| == Max(width, |t|)
            && (alignLeft ==> t <= f && forall i :: |t| <= i < |f| ==> f[i] == 0x20)
            && (!alignLeft && !zeroPadding ==>
                  f[|f| - |t|..] == t && forall i :: 0 <= i < |f| - |t| ==> f[i] == 0x20)
            && (!alignLeft && zeroPadding ==>
                  var s := if t[0] in {0x2b, 0x2d} then 1 else 0;
                  && f[..s] == t[..s] && f[s + |f| - |t|..] == t[s..]
                  && forall i :: s <= i < s + |f| - |t| ==> f[i] == 0x30)
  {
  }

  /** Zeros between the sign and the digits do not change the number. */
  lemma ZeroPadded(sign: seq<byte>, digits: seq<byte>, val: int, pad: nat)
    requires digits != [] && AllDigits(digits)
    requires val == if sign == [MINUS] then -Number(digits) else Number(digits)
    requires sign == [] || sign == [MINUS] || sign == [PLUS]
    ensures var t, zeros := sign + digits, Repeat(ZERO, pad);
            ReadField(if IsSign(t[0]) then [t[0]] + zeros + t[1..] else zeros + t) == Some(val)
  {
    hide Number, ReadField, WithoutSpace;
    var t, zeros := sign + digits, Repeat(ZERO, pad);
    LeadingZeros(pad, digits);
    BodyReads(sign, zeros + digits, val);
    NoSpaces(sign + (zeros + digits));
    if sign == [] {
      assert t == digits && IsDigit(t[0]);
      assert sign + (zeros + digits) == zeros + t;
    } else {
      assert t[0] == sign[0] && t[1..] == digits;
      assert sign + (zeros + digits) == [t[0]] + zeros + t[1..];
    }
  }

  lemma BodyReads(sign: seq<byte>, digits: seq<byte>, val: int)
    requires digits != [] && AllDigits(digits)
    requires val == if sign == [MINUS] then -Number(digits) else Number(digits)
    requires sign == [] || sign == [MINUS] || sign == [PLUS]
    ensures SPACE !in sign + digits
    ensures forall f :: WithoutSpace(f) == sign + digits ==> ReadField(f) == Some(val)
  {
    var t := sign + digits;
    assert sign != [] ==> t[0] == sign[0] && t[1..] == digits;
    assert sign == [] ==> t == digits && IsDigit(t[0]);
  }
}

/** The formatter: digits are filled in from the end of a small buffer, and a
    field is a list of parts. */
module IntegerFormatter {
  import opened Bytes
  import opened IntegerText

  const BUFFER: nat := 30

  function Power10(k: nat): (p: nat)
    ensures p >= 1
  {
    if k == 0 then 1 else 10 * Power10(k - 1)
  }

  /** Modulus of an unsigned type. */
  function Modulus(wide: bool): nat {
    if wide then 0x1_0000_0000_0000_0000 else 0x1_0000_0000
  }

  lemma TwentyDigits(wide: bool)
    ensures Modulus(wide) <= Power10(20)
  {
    assert Power10(5) == 100000;
    assert Power10(10) == 10000000000;
    assert Power10(15) == 1000000000000000;
    assert Power10(20) == 100000000000000000000;
  }

  lemma DigitsOf(n: nat)
    ensures Digits(n) == if n == 0 then [] else Digits(n / 10) + [ZERO + n % 10]
  {
  }

  lemma PowerShrinks(u: nat, k: nat)
    requires 0 < u < Power10(k)
    ensures k > 0 && u / 10 < Power10(k - 1)
  {
  }

  /** Puts the digits of u in front of end; the place of the first. */
  method FillDigits(buf: array<byte>, end: nat, value: nat) returns (ptr: nat)
    requires buf.Length == BUFFER && 21 <= end < BUFFER && value < Power10(20)
    modifies buf
    ensures end - 20 <= ptr <= end && buf[ptr..end] == Digits(value)
  {
    hide Power10, Digits;
    var u: nat := value;
    ptr := end;
    assert buf[end..end] + [] == [];
    while u != 0
      invariant end - 20 <= ptr <= end && u < Power10(ptr - (end - 20))
      invariant Digits(value) == Digits(u) + buf[ptr..end]
      decreases u
    {
      ghost var done := buf[ptr..end];
      PowerShrinks(u, ptr - (end - 20));
      DigitsOf(u);
      var c := ZERO + u % 10;
      ghost var front := Digits(u / 10);
      u := u / 10;
      ptr := ptr - 1;
      buf[ptr] := c;
      assert buf[ptr..end] == [c] + done;
      ConcatAssociative(front, [c], done);
    }
    DigitsOf(0);
    assert [] + buf[ptr..end] == buf[ptr..end];
  }

  method PutInFront(buf: array<byte>, ptr: nat, end: nat, c: byte) returns (start: nat)
    requires 0 < ptr <= end <= buf.Length
    modifies buf
    ensures start == ptr - 1 && buf[start..end] == [c] + old(buf[ptr..end])
  {
    start := ptr - 1;
    buf[start] := c;
    assert buf[start..end] == [c] + buf[ptr..end];
  }

  /** The magnitude, computed in the unsigned type. */
  method Magnitude(val: int, wide: bool) returns (u: nat)
    requires 0 <= val + Modulus(wide) / 2 && val < Modulus(wide) / 2
    ensures u == (if val < 0 then -val else val) && u < Modulus(wide)
  {
    hide Modulus;
    Wraps(val, wide);
    assert Modulus(wide) > 0 by { Positive(wide); }
    u := val % Modulus(wide);
    if val < 0 {
      Wraps(0 - u, wide);
      u := (0 - u) % Modulus(wide);
    }
  }

  /** Sixty-four and thirty-two bits. */
  lemma ModulusIs()
    ensures Modulus(true) == 18446744073709551616 && Modulus(false) == 4294967296
  {
  }

  lemma Positive(wide: bool)
    ensures Modulus(wide) > 0
  {
  }

  lemma Wraps(x: int, wide: bool)
    requires 0 <= x + Modulus(wide) && x < Modulus(wide)
    ensures x % Modulus(wide) == if x + Modulus(wide) == 0 then 0 else if x < 0 then x + Modulus(wide) else x
  {
    if wide {
      var y := if x < 0 then x + 0x1_0000_0000_0000_0000 else x;
      assert x % 0x1_0000_0000_0000_0000 == y % 0x1_0000_0000_0000_0000;
    }
  }

  /** A signed integer of 32 or 64 bits. */
  method FormatSigned(val: int, wide: bool, forceSign: bool) returns (part: array<byte>)
    requires -(Modulus(wide) / 2) <= val < Modulus(wide) / 2
    ensures fresh(part) && part[..] == Natural(val, forceSign)
  {
    hide Digits, Power10, Modulus;
    var buf := new byte[BUFFER](_ => 0);
    var end := BUFFER - 1;
    var ptr := end;
    if val == 0 {
      ptr := ptr - 1;
      buf[ptr] := ZERO;
      assert buf[ptr..end] == [ZERO];
    } else {
      var sign := val < 0;
      var u := Magnitude(val, wide);
      TwentyDigits(wide);
      ptr := FillDigits(buf, end, u);
      ghost var digits := buf[ptr..end];
      if sign {
        ptr := PutInFront(buf, ptr, end, MINUS);
      } else if forceSign {
        ptr := PutInFront(buf, ptr, end, PLUS);
      } else {
        assert [] + digits == digits;
      }
    }
    part := AllocPart(buf, ptr, end);
  }

  method FormatUnsigned(val: nat, wide: bool) returns (part: array<byte>)
    requires val < Modulus(wide)
    ensures fresh(part) && part[..] == Natural(val, false)
  {
    var buf := new byte[BUFFER](_ => 0);
    var end := BUFFER - 1;
    var ptr := end;
    if val == 0 {
      ptr := ptr - 1;
      buf[ptr] := ZERO;
      assert buf[ptr..end] == [ZERO];
    } else {
      TwentyDigits(wide);
      ptr := FillDigits(buf, end, val);
      assert [] + Digits(val) == Digits(val);
    }
    part := AllocPart(buf, ptr, end);
  }

  method AllocPart(buf: array<byte>, ptr: nat, end: nat) returns (part: array<byte>)
    requires ptr <= end <= buf.Length
    ensures fresh(part) && part[..] == buf[ptr..end]
  {
    part := new byte[end - ptr](_ => 0);
    for i := 0 to end - ptr
      invariant part[..i] == buf[ptr..ptr + i]
    {
      part[i] := buf[ptr + i];
    }
    assert part[..end - ptr] == part[..];
  }

  /** A part of n equal characters. */
  method Chars(c: byte, n: nat) returns (part: array<byte>)
    ensures fresh(part) && part[..] == Repeat(c, n)
  {
    part := new byte[n](_ => 0);
    for i := 0 to n
      invariant forall j :: 0 <= j < i ==> part[j] == c
    {
      part[i] := c;
    }
  }

  /** The parts of a field, one behind the other. */
  ghost function Text(list: seq<array<byte>>): seq<byte>
    reads list
  {
    if list == [] then [] else list[0][..] + Text(list[1..])
  }

  /** Lays a part out in a field. */
  method Lay(p: array<byte>, width: int, zeroPadding: bool, alignLeft: bool) returns (list: seq<array<byte>>)
    requires p.Length > 0
    modifies p
    ensures Text(list) == Field(old(p[..]), width, zeroPadding, alignLeft)
  {
    var padlen := width - p.Length;
    if padlen <= 0 {
      list := [p];
      OnePart(p);
    } else if alignLeft {
      var spaces := Chars(SPACE, padlen);
      list := [p, spaces];
      TwoParts(p, spaces);
    } else if zeroPadding {
      var c := p[0];
      var zeros := Chars(ZERO, padlen);
      ghost var t := p[..];
      if c == PLUS || c == MINUS {
        zeros[0] := c;
        p[0] := ZERO;
        assert zeros[..] + p[..] == [c] + Repeat(ZERO, padlen) + t[1..];
      }
      list := [zeros, p];
      TwoParts(zeros, p);
    } else {
      var spaces := Chars(SPACE, padlen);
      list := [spaces, p];
      TwoParts(spaces, p);
    }
  }

  lemma OnePart(p: array<byte>)
    ensures Text([p]) == p[..]
  {
    assert [p][1..] == [];
    assert p[..] + [] == p[..];
  }

  lemma TwoParts(p: array<byte>, q: array<byte>)
    ensures Text([p, q]) == p[..] + q[..]
  {
    OnePart(q);
    assert [p, q][1..] == [q];
  }

  /** A signed integer in a field: what is laid out reads back as the integer. */
  method FormatField(val: int, wide: bool, plus: bool, width: int, zeroPadding: bool, alignLeft: bool)
    returns (list: seq<array<byte>>)
    requires -(Modulus(wide) / 2) <= val < Modulus(wide) / 2
    ensures |Text(list)| == Max(width, |Natural(val, plus)|)
    ensures ReadField(Text(list)) == Some(val)
  {
    hide ReadField, Natural, Field;
    var p := FormatSigned(val, wide, plus);
    assert p.Length == |p[..]|;
    list := Lay(p, width, zeroPadding, alignLeft);
    FieldReadsBack(val, plus, width, zeroPadding, alignLeft);
  }
}
