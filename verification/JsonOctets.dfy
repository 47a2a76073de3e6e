/** Characters of JSON strings, octet by octet: their UTF-8 form (section 3 of
    RFC 3629) and their escapes (section 7 of RFC 8259). */
module JsonOctets {
  import opened Bytes
  import opened JsonStrings

  /** An octet that goes on a character carries six bits of it. */
  predicate GoesOn(c: int) {
    0x80 <= c < 0xc0
  }

  /** The character that one, two, three or four octets stand for. */
  function Stands(a: int, b: int, c: int, d: int, n: nat): int {
    if n == 1 then a
    else if n == 2 then 0x40 * (a - 0xc0) + (b - 0x80)
    else if n == 3 then 0x1000 * (a - 0xe0) + 0x40 * (b - 0x80) + (c - 0x80)
    else 0x40000 * (a - 0xf0) + 0x1000 * (b - 0x80) + 0x40 * (c - 0x80) + (d - 0x80)
  }

  /** A character is written in as few octets as can carry it. */
  lemma Utf8Octets(u: nat)
    requires u < 0x200000
    ensures var t := Utf8(u);
            && |t| == (if u < 0x80 then 1 else if u < 0x800 then 2 else if u < 0x10000 then 3 else 4)
            && Stands(t[0], if |t| > 1 then t[1] else 0, if |t| > 2 then t[2] else 0, if |t| > 3 then t[3] else 0, |t|)
               == u
            && (forall i :: 0 < i < |t| ==> GoesOn(t[i]))
            && (|t| == 2 ==> 0xc0 <= t[0] < 0xe0) && (|t| == 3 ==> 0xe0 <= t[0] < 0xf0) && (|t| == 4 ==> t[0] >= 0xf0)
  {
    var x, y, z := u / 0x40, u / 0x1000, u / 0x40000;
    assert x == 0x40 * y + x % 0x40 && y == 0x40 * z + y % 0x40 && y == x / 0x40 && z == y / 0x40;
  }

  /** The examples of RFC 3629: a not-identical sign, Hangul, and a character
      beyond sixteen bits. */
  lemma Utf8Examples()
    ensures Utf8(0x41) == [0x41] && Utf8(0x2262) == [0xe2, 0x89, 0xa2] && Utf8(0xd55c) == [0xed, 0x95, 0x9c]
    ensures Utf8(0x233b4) == [0xf0, 0xa3, 0x8e, 0xb4]
  {
  }

  /** The digits of an escape, in either case. */
  lemma HexOctets(c: byte)
    ensures 0x30 <= c <= 0x39 ==> HexDigit(c) == c - 0x30
    ensures 0x41 <= c <= 0x46 ==> HexDigit(c) == 10 + (c - 0x41)
    ensures 0x61 <= c <= 0x66 ==> HexDigit(c) == 10 + (c - 0x61)
    ensures !(0x30 <= c <= 0x39) && !(0x41 <= c <= 0x46) && !(0x61 <= c <= 0x66) ==> HexDigit(c) == 16
  {
  }

  /** Two escapes in a row stand for one character exactly if they are a high
      and a low half, and the first one for itself otherwise. */
  lemma EscapePairs(u: nat, w: nat, rest: seq<byte>)
    requires u < 0x10000 && w < 0x10000
    ensures Unescape(UnicodeEscape(u) + (UnicodeEscape(w) + rest)) ==
            if 0xd800 <= u <= 0xdbff && 0xdc00 <= w <= 0xdfff then
              (Utf8(0x10000 + (u - 0xd800) * 0x400 + (w - 0xdc00)), 12)
            else (Utf8(u), 6)
    ensures rest == [] || rest[0] != 0x5c ==> Unescape(UnicodeEscape(u) + rest) == (Utf8(u), 6)
  {
    hide Hexadecimal, Utf8;
    HexadecimalOf(u);
    HexadecimalOf(w);
    var a, b := UnicodeEscape(u), UnicodeEscape(w);
    var r := a + (b + rest);
    assert r[2..6] == a[2..6] && r[8..12] == b[2..6] && r[6] == b[0] && r[7] == b[1];
    assert (a + rest)[2..6] == a[2..6] && (rest != [] ==> (a + rest)[6] == rest[0]);
  }

  predicate Short(e: byte, c: byte) {
    || (e == 0x22 && c == 0x22) || (e == 0x5c && c == 0x5c) || (e == 0x62 && c == 8) || (e == 0x66 && c == 12)
    || (e == 0x6e && c == 10) || (e == 0x72 && c == 13) || (e == 0x74 && c == 9)
  }

  /** The short escapes, as they are written and as they are read; a slash may
      be escaped too, and stands for itself. Nothing else is escaped. */
  lemma ShortEscapes(e: byte, c: byte, rest: seq<byte>)
    ensures Short(e, c) ==> Escape(c) == [0x5c, e] && Unescape([0x5c, e] + rest) == ([c], 2)
    ensures (forall x :: !Short(x, c)) ==> Escape(c) == [c]
    ensures Unescape([0x5c, 0x2f] + rest) == ([0x2f], 2)
  {
    if ShortEscape(c) != 0 {
      assert Short(ShortEscape(c), c);
    }
  }

  /** A string ends at the first quote that is not escaped; other octets stand
      for themselves. */
  lemma StringOctets(c: byte, rest: seq<byte>)
    ensures StringBody([0x22] + rest) == Scanned([], rest)
    ensures c != 0x22 && c != 0x5c ==> StringBody([c] + rest) == StringBody(rest).Prepend([c])
  {
    assert ([0x22] + rest)[1..] == rest && ([c] + rest)[1..] == rest;
  }

  // Cleaning.

  /** The characters a writer keeps. */
  function Keep(us: seq<nat>): seq<nat> {
    if us == [] then []
    else
      (if us[0] >= 0x80 || 0x20 <= us[0] < 0x7f || us[0] in {8, 9, 10, 12, 13} then [us[0]] else []) + Keep(us[1..])
  }

  /** Of a text in UTF-8 exactly the characters that cannot be expressed are dropped. */
  lemma {:induction false} CleanUtf8(us: seq<nat>)
    requires forall i :: 0 <= i < |us| ==> ScalarValue(us[i])
    ensures Clean(Utf8All(us)) == Utf8All(Keep(us))
  {
    hide UnitLength, Utf8;
    if us != [] {
      var u, tail := us[0], Utf8All(us[1..]);
      Utf8Unit(u, tail);
      CleanUtf8(us[1..]);
      if Expressible(u) {
        assert (Utf8(u) + tail)[..|Utf8(u)|] == Utf8(u);
        assert Keep(us)[1..] == Keep(us[1..]);
      } else {
        assert Utf8(u) == [u] by { OneOctet(u); }
        assert ([u] + tail)[1..] == tail;
        assert [] + Keep(us[1..]) == Keep(us[1..]);
      }
    }
  }

  lemma OneOctet(u: nat)
    requires u < 0x80
    ensures Utf8(u) == [u]
  {
  }

  /** An octet that begins no character is dropped by itself. */
  lemma StrayDropped(c: byte, s: seq<byte>)
    requires 0x80 <= c < 0xc0 || c >= 0xf8
    ensures Clean([c] + s) == Clean(s)
  {
    assert ([c] + s)[1..] == s;
  }

  /** Four characters of an escape that are not four digits are still read as
      strtoul reads them: white space, a sign, a prefix, and the digits in front
      of anything else. */
  lemma LenientEscapes()
    ensures Hexadecimal([0x20, 0x31, 0x32, 0x61]) == 0x12a && Hexadecimal([0x30, 0x78, 0x31, 0x66]) == 0x1f
    ensures Hexadecimal([0x2d, 0x30, 0x30, 0x31]) == 0xffff_ffff && Hexadecimal([0x31, 0x32, 0x67, 0x34]) == 0x12
    ensures Hexadecimal([0x7a, 0x31, 0x32, 0x33]) == 0
  {
    assert [0x20, 0x31, 0x32, 0x61][1..] == [0x31, 0x32, 0x61];
    assert [0x30, 0x78, 0x31, 0x66][2..] == [0x31, 0x66];
    assert [0x2d, 0x30, 0x30, 0x31][1..] == [0x30, 0x30, 0x31];
    ThreeDigits(0x31, 0x32, 0x61);
    ThreeDigits(0x30, 0x30, 0x31);
    TwoDigits(0x31, 0x66, []);
    TwoDigits(0x31, 0x32, [0x67, 0x34]);
    assert [0x31, 0x32] + [0x67, 0x34] == [0x31, 0x32, 0x67, 0x34] && [0x31, 0x66] + [] == [0x31, 0x66];
    hide HexDigits;
  }

  lemma ThreeDigits(a: byte, b: byte, c: byte)
    requires HexDigit(a) < 16 && HexDigit(b) < 16 && HexDigit(c) < 16
    ensures HexDigits([a, b, c], 0) == (HexDigit(a) * 16 + HexDigit(b)) * 16 + HexDigit(c)
  {
    assert [a, b, c][1..] == [b, c] && [b, c][1..] == [c] && [c][1..] == [];
    assert HexDigits([c], HexDigit(a) * 16 + HexDigit(b)) == (HexDigit(a) * 16 + HexDigit(b)) * 16 + HexDigit(c);
  }

  lemma TwoDigits(a: byte, b: byte, t: seq<byte>)
    requires HexDigit(a) < 16 && HexDigit(b) < 16 && (t == [] || HexDigit(t[0]) == 16)
    ensures HexDigits([a, b] + t, 0) == HexDigit(a) * 16 + HexDigit(b)
  {
    assert ([a, b] + t)[1..] == [b] + t && ([b] + t)[1..] == t;
    assert HexDigits([b] + t, HexDigit(a)) == HexDigit(a) * 16 + HexDigit(b);
  }
}
