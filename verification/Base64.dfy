/** Base64 (section 4 of RFC 4648): encoding, and lenient decoding. */
module Base64Spec {
  import opened Bytes

  const PAD: byte := 0x3d

  /** The letter for six bits. */
  function Letter(x: nat): (c: byte)
    requires x < 64
    ensures c < 0x80 && c != PAD && !IsSpace(c)
  {
    if x < 26 then 0x41 + x
    else if x < 52 then 0x61 + x - 26
    else if x < 62 then 0x30 + x - 52
    else if x == 62 then 0x2b
    else 0x2f
  }

  /** The six bits of a letter, 0xff for anything else. */
  function Bits(c: byte): nat {
    if 0x41 <= c <= 0x5a then c - 0x41
    else if 0x61 <= c <= 0x7a then c - 0x61 + 26
    else if 0x30 <= c <= 0x39 then c - 0x30 + 52
    else if c == 0x2b then 62
    else if c == 0x2f then 63
    else 0xff
  }

  lemma LetterRead(x: nat)
    requires x < 64
    ensures Bits(Letter(x)) == x
  {
  }

  /** The 24 bits of up to three octets, zeros for those missing. */
  function Group(s: seq<byte>): (v: nat)
    requires s != []
    ensures v < 0x1000000
  {
    s[0] * 0x10000 + (if |s| > 1 then s[1] * 0x100 else 0) + (if |s| > 2 then s[2] as nat else 0)
  }

  /** Four letters for the octets at the front of s, padded if there are fewer than three. */
  function Quad(s: seq<byte>): (q: seq<byte>)
    requires s != []
    ensures |q| == 4
  {
    var v := Group(s);
    [Letter(v / 0x40000), Letter(v / 0x1000 % 0x40),
     if |s| > 1 then Letter(v / 0x40 % 0x40) else PAD,
     if |s| > 2 then Letter(v % 0x40) else PAD]
  }

  function Encoded(s: seq<byte>): (t: seq<byte>)
    ensures |t| == (|s| + 2) / 3 * 4
    decreases |s|
  {
    if s == [] then [] else Quad(s) + Encoded(if |s| < 3 then [] else s[3..])
  }

  /** The octets of `count` letters that make up `bits`. */
  function Octets24(bits: nat, count: nat): seq<byte> {
    if count < 2 then []
    else
      [bits / 0x10000 % 0x100]
      + (if count < 3 then [] else [bits / 0x100 % 0x100] + if count < 4 then [] else [bits % 0x100])
  }

  function Shift(bits: nat, n: nat): nat
    decreases n
  {
    if n == 0 then bits else Shift(bits * 0x40, n - 1)
  }

  /** Decoding with `count` letters, worth `bits`, already taken. White space is
      skipped; anything else that is no letter ends the text. */
  function Decoded(t: seq<byte>, count: nat, bits: nat): seq<byte>
    requires count < 4
  {
    if t == [] then Octets24(Shift(bits, 4 - count), count)
    else if IsSpace(t[0]) then Decoded(t[1..], count, bits)
    else if Bits(t[0]) >= 0x40 then Octets24(Shift(bits, 4 - count), count)
    else if count == 3 then Octets24(bits * 0x40 + Bits(t[0]), 4) + Decoded(t[1..], 0, 0)
    else Decoded(t[1..], count + 1, bits * 0x40 + Bits(t[0]))
  }

  function WithoutSpace(t: seq<byte>): seq<byte> {
    if t == [] then [] else (if IsSpace(t[0]) then [] else [t[0]]) + WithoutSpace(t[1..])
  }

  /** White space makes no difference, wherever it stands. */
  lemma {:induction false} SpaceIgnored(t: seq<byte>, count: nat, bits: nat)
    requires count < 4
    ensures Decoded(t, count, bits) == Decoded(WithoutSpace(t), count, bits)
  {
    hide Octets24, Shift, Bits, IsSpace;
    if t != [] {
      if IsSpace(t[0]) {
        SpaceIgnored(t[1..], count, bits);
        assert [] + WithoutSpace(t[1..]) == WithoutSpace(t[1..]);
      } else {
        assert WithoutSpace(t)[1..] == WithoutSpace(t[1..]);
        if Bits(t[0]) < 0x40 {
          if count == 3 {
            SpaceIgnored(t[1..], 0, 0);
          } else {
            SpaceIgnored(t[1..], count + 1, bits * 0x40 + Bits(t[0]));
          }
        }
      }
    }
  }

  lemma TakeLetter(x: nat, t: seq<byte>, count: nat, bits: nat)
    requires x < 64 && count < 4
    ensures Decoded([Letter(x)] + t, count, bits) ==
            if count == 3 then Octets24(bits * 0x40 + x, 4) + Decoded(t, 0, 0)
            else Decoded(t, count + 1, bits * 0x40 + x)
  {
    hide Octets24, Shift;
    LetterRead(x);
    assert ([Letter(x)] + t)[1..] == t;
  }

  /** The text ends here, at its end or at a character that is no letter. */
  predicate Stops(t: seq<byte>) {
    t == [] || (Bits(t[0]) >= 0x40 && !IsSpace(t[0]))
  }

  lemma TakeStop(t: seq<byte>, count: nat, bits: nat)
    requires count < 4 && Stops(t)
    ensures Decoded(t, count, bits) == Octets24(Shift(bits, 4 - count), count)
  {
  }

  /** Two to four letters, and the end of the text behind them if they are
      fewer than four. */
  lemma LettersRead(a: nat, b: nat, c: nat, d: nat, e: seq<byte>, t: seq<byte>)
    requires a < 64 && b < 64 && c < 64 && d < 64 && Stops(e)
    ensures var ab, abc := a * 0x40 + b, (a * 0x40 + b) * 0x40 + c;
            && Decoded([Letter(a)] + ([Letter(b)] + e), 0, 0) == Octets24(ab * 0x1000, 2)
            && Decoded([Letter(a)] + ([Letter(b)] + ([Letter(c)] + e)), 0, 0) == Octets24(abc * 0x40, 3)
            && Decoded([Letter(a)] + ([Letter(b)] + ([Letter(c)] + ([Letter(d)] + t))), 0, 0)
               == Octets24(abc * 0x40 + d, 4) + Decoded(t, 0, 0)
  {
    hide Letter, Octets24, Decoded, Shift, Stops;
    var ab := a * 0x40 + b;
    var abc := ab * 0x40 + c;
    assert 0 * 0x40 + a == a;
    TakeLetter(a, [Letter(b)] + e, 0, 0);
    TakeLetter(b, e, 1, a);
    TakeStop(e, 2, ab);
    ShiftTwice(ab);
    TakeLetter(a, [Letter(b)] + ([Letter(c)] + e), 0, 0);
    TakeLetter(b, [Letter(c)] + e, 1, a);
    TakeLetter(c, e, 2, ab);
    TakeStop(e, 3, abc);
    ShiftOnce(abc);
    TakeLetter(a, [Letter(b)] + ([Letter(c)] + ([Letter(d)] + t)), 0, 0);
    TakeLetter(b, [Letter(c)] + ([Letter(d)] + t), 1, a);
    TakeLetter(c, [Letter(d)] + t, 2, ab);
    TakeLetter(d, t, 3, abc);
  }

  /** The letters of a group, without padding. */
  function Letters(s: seq<byte>): seq<byte>
    requires s != []
  {
    Quad(s)[..Min(|s|, 3) + 1]
  }

  /** The letters of a group, padded, cut short or full, give back its octets. */
  lemma GroupRead(s: seq<byte>, t: seq<byte>)
    requires s != [] && (|s| < 3 ==> Stops(t))
    ensures Decoded(Letters(s) + t, 0, 0) == if |s| < 3 then s else s[..3] + Decoded(t, 0, 0)
  {
    hide Letter, Octets24, Decoded, Group, Stops;
    var v, q := Group(s), Quad(s);
    var a, b, c, d := v / 0x40000, v / 0x1000 % 0x40, v / 0x40 % 0x40, v % 0x40;
    OneByOne(q, Letters(s), t);
    NothingStops();
    LettersRead(a, b, c, d, if |s| < 3 then t else [], t);
    GroupBits(v, a, b, c, d);
    GroupLow(s);
    GroupOctets(s, v, Min(|s|, 3) + 1);
  }

  lemma NothingStops()
    ensures Stops([]) && Stops([PAD]) && forall t: seq<byte> :: Stops([PAD] + t)
  {
  }

  /** A padded or a full group gives back its octets. */
  lemma QuadRead(s: seq<byte>, t: seq<byte>)
    requires s != []
    ensures Decoded(Quad(s) + t, 0, 0) == if |s| < 3 then s else s[..3] + Decoded(t, 0, 0)
  {
    hide Decoded, Letter, Stops, Group;
    NothingStops();
    var more := Quad(s)[|Letters(s)|..] + t;
    assert Quad(s) + t == Letters(s) + more;
    assert |s| == 1 ==> more == [PAD] + ([PAD] + t);
    assert |s| == 2 ==> more == [PAD] + t;
    assert |s| >= 3 ==> more == t;
    GroupRead(s, more);
  }

  lemma GroupLow(s: seq<byte>)
    requires s != []
    ensures (|s| == 1 ==> Group(s) % 0x10000 == 0) && (|s| == 2 ==> Group(s) % 0x100 == 0)
  {
  }

  lemma OneByOne(q: seq<byte>, l: seq<byte>, t: seq<byte>)
    requires |q| == 4 && 2 <= |l| <= 4 && l == q[..|l|]
    ensures l + t == [q[0]] + ([q[1]] + if |l| == 2 then t else [q[2]] + if |l| == 3 then t else [q[3]] + t)
  {
  }

  lemma GroupBits(v: nat, a: nat, b: nat, c: nat, d: nat)
    requires v < 0x1000000 && a == v / 0x40000 && b == v / 0x1000 % 0x40 && c == v / 0x40 % 0x40 && d == v % 0x40
    ensures a < 64 && b < 64 && c < 64 && d < 64
    ensures v == ((a * 0x40 + b) * 0x40 + c) * 0x40 + d
    ensures v % 0x10000 == 0 ==> v == (a * 0x40 + b) * 0x1000
    ensures v % 0x100 == 0 ==> v == ((a * 0x40 + b) * 0x40 + c) * 0x40
  {
    var v1, v2 := v / 0x40, v / 0x1000;
    assert v2 == v1 / 0x40 && a == v2 / 0x40;
    assert v == v1 * 0x40 + d && v1 == v2 * 0x40 + c && v2 == a * 0x40 + b;
  }

  lemma ShiftOnce(bits: nat)
    ensures Shift(bits, 1) == bits * 0x40
  {
    assert Shift(bits * 0x40, 0) == bits * 0x40;
  }

  lemma ShiftTwice(bits: nat)
    ensures Shift(bits, 2) == bits * 0x1000
  {
    ShiftOnce(bits * 0x40);
  }

  lemma GroupOctets(s: seq<byte>, v: nat, count: nat)
    requires s != [] && v == Group(s) && count == Min(|s|, 3) + 1
    ensures Octets24(v, count) == if |s| < 3 then s else s[..3]
  {
    ThreeOctets(v, s[0], if |s| > 1 then s[1] else 0, if |s| > 2 then s[2] else 0);
  }

  lemma ThreeOctets(v: nat, a: byte, b: byte, c: byte)
    requires v == a * 0x10000 + b * 0x100 + (c as nat)
    ensures v / 0x10000 % 0x100 == a && v / 0x100 % 0x100 == b && v % 0x100 == c
  {
    var w: nat := a * 0x100 + (b as nat);
    assert v / 0x100 == w && w / 0x100 == a && v / 0x10000 == v / 0x100 / 0x100;
  }

  /** Decoding an encoding gives the octets back. */
  lemma {:induction false} RoundTrip(s: seq<byte>)
    ensures Decoded(Encoded(s), 0, 0) == s
  {
    hide Quad, Octets24, Shift;
    if s == [] {
      NothingDecoded();
    } else {
      var more := if |s| < 3 then [] else s[3..];
      QuadRead(s, Encoded(more));
      if |s| >= 3 {
        RoundTrip(more);
        assert s == s[..3] + s[3..];
      }
    }
  }

  // The alphabet and the bits, and texts that are cut short.

  function Run(first: byte, n: nat): (s: seq<byte>)
    requires first + n <= 0x100
  {
    seq(n, i requires 0 <= i < n => first + i)
  }

  /** A to Z, a to z, 0 to 9, '+' and '/'. */
  const ALPHABET: seq<byte> := Run(0x41, 26) + Run(0x61, 26) + Run(0x30, 10) + [0x2b, 0x2f]

  /** Six bits are the letter at their place in the alphabet, and back. */
  lemma Alphabet(x: nat, c: byte)
    requires x < 64
    ensures Letter(x) == ALPHABET[x] && Bits(ALPHABET[x]) == x
    ensures c !in ALPHABET ==> Bits(c) >= 64
  {
    if Bits(c) < 64 {
      assert ALPHABET[Bits(c)] == c;
    }
  }

  /** Letter by letter a group is the octets' bits, six at a time, zeros behind
      them and '=' in place of letters without any. */
  lemma QuadBits(s: seq<byte>)
    requires s != []
    ensures var q, s0: nat := Quad(s), s[0];
            if |s| == 1 then s0 * 16 == 64 * Bits(q[0]) + Bits(q[1]) && q[2] == q[3] == 0x3d
            else
              var s1: nat := s[1];
              if |s| == 2 then (s0 * 256 + s1) * 4 == 4096 * Bits(q[0]) + 64 * Bits(q[1]) + Bits(q[2]) && q[3] == 0x3d
              else
                (s0 * 256 + s1) * 256 + s[2]
                == 262144 * Bits(q[0]) + 4096 * Bits(q[1]) + 64 * Bits(q[2]) + Bits(q[3])
  {
    hide Letter, Bits;
    var v := Group(s);
    var a, b, c, d := v / 0x40000, v / 0x1000 % 0x40, v / 0x40 % 0x40, v % 0x40;
    LetterRead(a);
    LetterRead(b);
    LetterRead(c);
    LetterRead(d);
    GroupBits(v, a, b, c, d);
    GroupLow(s);
  }

  /** The letters of an encoding without its padding. */
  function Bare(s: seq<byte>): seq<byte>
    decreases |s|
  {
    if s == [] then [] else Letters(s) + Bare(if |s| < 3 then [] else s[3..])
  }

  /** They are the encoding but for '=' at its end. */
  lemma {:induction false} BareIs(s: seq<byte>)
    ensures |Bare(s)| == (4 * |s| + 2) / 3 && Bare(s) <= Encoded(s)
    ensures forall i :: |Bare(s)| <= i < |Encoded(s)| ==> Encoded(s)[i] == 0x3d
    decreases |s|
  {
    hide Letter, Group;
    if s != [] {
      BareIs(if |s| < 3 then [] else s[3..]);
    }
  }

  /** Whatever ends the text, a foreign character or nothing, what came before
      is decoded, the letters of a last short group included. */
  lemma {:induction false} BareRead(s: seq<byte>, t: seq<byte>)
    requires t == [] || (t[0] !in ALPHABET && t[0] !in {0x20, 9, 10, 11, 12, 13})
    ensures Decoded(Bare(s) + t, 0, 0) == s
    decreases |s|
  {
    hide Letters, Octets24, Shift, Bits;
    if t != [] {
      Alphabet(0, t[0]);
    }
    if s == [] {
      assert [] + t == t;
      TakeStop(t, 0, 0);
      NoOctets();
    } else {
      var more := if |s| < 3 then [] else s[3..];
      ConcatAssociative(Letters(s), Bare(more), t);
      GroupRead(s, Bare(more) + t);
      if |s| >= 3 {
        BareRead(more, t);
        assert s == s[..3] + more;
      }
    }
  }

  /** A letter left over by itself brings no octet. */
  lemma LoneLetter(x: nat, t: seq<byte>)
    requires x < 64 && (t == [] || (t[0] !in ALPHABET && t[0] !in {0x20, 9, 10, 11, 12, 13}))
    ensures Decoded([ALPHABET[x]] + t, 0, 0) == []
  {
    hide Letter, Octets24, Shift, Bits;
    Alphabet(x, if t == [] then 0 else t[0]);
    TakeLetter(x, t, 0, 0);
    TakeStop(t, 1, 0 * 0x40 + x);
    NoOctets();
  }

  lemma NoOctets()
    ensures forall bits: nat :: Octets24(bits, 0) == [] && Octets24(bits, 1) == []
  {
  }

  lemma NothingDecoded()
    ensures Decoded([], 0, 0) == []
  {
  }

  /** So does decoding it with white space put in anywhere. */
  lemma SpacedRoundTrip(s: seq<byte>, t: seq<byte>)
    requires WithoutSpace(t) == Encoded(s)
    ensures Decoded(t, 0, 0) == s
  {
    SpaceIgnored(t, 0, 0);
    RoundTrip(s);
  }
}

/** The encoder and the decoder themselves. */
module Base64 {
  import opened Bytes
  import opened Base64Spec

  method Base64Encode(src: seq<byte>) returns (dst: array<byte>)
    ensures fresh(dst) && dst[..] == Encoded(src)
  {
    hide Quad, Encoded, Letter;
    var dstlen := (|src| + 2) / 3 * 4;
    dst := new byte[dstlen](_ => 0);
    var srcpos, dstpos := 0, 0;
    assert Encoded(src) == dst[..0] + Remaining(src, 0) by {
      NothingEncoded();
      assert src[0..] == src;
    }
    while srcpos < |src|
      invariant 0 <= srcpos && dstpos == (if srcpos <= |src| then srcpos / 3 * 4 else dstlen)
                && 0 <= dstpos <= dst.Length == dstlen
      invariant srcpos <= |src| ==> srcpos % 3 == 0
      invariant Encoded(src) == dst[..dstpos] + Remaining(src, srcpos)
      decreases |src| - srcpos
    {
      ghost var front := dst[..dstpos];
      EncodeQuad(src, srcpos);
      PutQuad(src, srcpos, dst, dstpos);
      assert dst[..dstpos + 4] == front + Quad(src[srcpos..]);
      ConcatAssociative(front, Quad(src[srcpos..]), Remaining(src, srcpos + 3));
      srcpos := srcpos + 3;
      dstpos := dstpos + 4;
    }
    assert dst[..dstpos] == dst[..] && dst[..] + [] == dst[..];
  }

  /** The encoding of what is left of src. */
  function Remaining(src: seq<byte>, srcpos: nat): seq<byte> {
    if srcpos < |src| then Encoded(src[srcpos..]) else []
  }

  lemma NothingEncoded()
    ensures Encoded([]) == []
  {
  }

  lemma EncodeQuad(src: seq<byte>, srcpos: nat)
    requires srcpos < |src|
    ensures Remaining(src, srcpos) == Quad(src[srcpos..]) + Remaining(src, srcpos + 3)
  {
    hide Quad;
    var s := src[srcpos..];
    assert |s| >= 3 ==> s[3..] == src[srcpos + 3..];
  }

  /** The four letters for the octets at srcpos. */
  method PutQuad(src: seq<byte>, srcpos: nat, dst: array<byte>, dstpos: nat)
    requires srcpos < |src| && dstpos + 4 <= dst.Length
    modifies dst
    ensures dst[..dstpos] == old(dst[..dstpos]) && dst[dstpos..dstpos + 4] == Quad(src[srcpos..])
  {
    hide Letter, Quad;
    var first: int := src[srcpos];
    var v := first * 0x10000;
    if srcpos + 1 < |src| {
      var second: int := src[srcpos + 1];
      v := v + second * 0x100;
      if srcpos + 2 < |src| {
        v := v + src[srcpos + 2];
        dst[dstpos + 3] := Letter(v % 0x40);
      } else {
        dst[dstpos + 3] := PAD;
      }
      dst[dstpos + 2] := Letter(v / 0x40 % 0x40);
    } else {
      dst[dstpos + 2] := PAD;
      dst[dstpos + 3] := PAD;
    }
    dst[dstpos + 1] := Letter(v / 0x1000 % 0x40);
    dst[dstpos] := Letter(v / 0x40000 % 0x40);
    assert v == Group(src[srcpos..]);
    QuadIs(src[srcpos..], v, dst[dstpos..dstpos + 4]);
  }

  lemma QuadIs(s: seq<byte>, v: nat, q: seq<byte>)
    requires s != [] && v == Group(s) && |q| == 4
    requires q[0] == Letter(v / 0x40000 % 0x40) && q[1] == Letter(v / 0x1000 % 0x40)
    requires q[2] == if |s| > 1 then Letter(v / 0x40 % 0x40) else PAD
    requires q[3] == if |s| > 2 then Letter(v % 0x40) else PAD
    ensures q == Quad(s)
  {
    hide Letter;
  }

  /** Decodes a text that a NUL follows. */
  method Base64Decode(src: seq<byte>) returns (out: seq<byte>)
    ensures out == Decoded(src, 0, 0)
  {
    hide Octets24, Shift, Bits, IsSpace;
    out := [];
    var ptr, count, bits := 0, 0, 0;
    assert src[0..] == src;
    ghost var all := Decoded(src, 0, 0);
    assert [] + all == all;
    while true
      invariant 0 <= ptr <= |src| && 0 <= count < 4 && bits >= 0
      invariant all == out + Decoded(src[ptr..], count, bits)
      decreases |src| - ptr
    {
      ghost var t, before := src[ptr..], out;
      assert ptr < |src| ==> t[1..] == src[ptr + 1..];
      if ptr < |src| && IsSpace(src[ptr]) {
        ptr := ptr + 1;
      } else {
        var c: nat := if ptr < |src| && src[ptr] < 0x80 then Bits(src[ptr]) else 0xff;
        assert ptr < |src| ==> c == Bits(src[ptr]) || (c >= 0x40 && Bits(src[ptr]) >= 0x40) by { LettersAreAscii(); }
        if c >= 0x40 {
          out := out + Octets24(Shift(bits, 4 - count), count);
          return;
        }
        bits := bits * 0x40 + c;
        count := count + 1;
        if count == 4 {
          ConcatAssociative(out, Octets24(bits, 4), Decoded(src[ptr + 1..], 0, 0));
          out := out + Octets24(bits, 4);
          count, bits := 0, 0;
        }
        ptr := ptr + 1;
      }
    }
  }

  lemma LettersAreAscii()
    ensures forall c: byte :: c >= 0x80 ==> Bits(c) >= 0x40
  {
  }
}
