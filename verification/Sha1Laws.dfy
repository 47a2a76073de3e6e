/** Rotations of words. */
module Rotations {
  import opened Sha1Spec

  /** Doubling, with the carry coming round. */
  function Turn(w: bv32): bv32 {
    w + w + if w < 0x80000000 then 0 else 1
  }

  /** Rotating by one place is turning, and by n places doing so n times. */
  lemma RotateLaw(n: Word, w: Word)
    requires n < 31
    ensures Rotate(0, w) == w && Rotate(1, w) == Turn(w)
    ensures Rotate(n + 1, w) == Rotate(1, Rotate(n, w))
  {
    hide Rotate, Turn;
    NoTurn(w);
    OneTurn(w);
    TurnAgain(n, w);
  }

  lemma NoTurn(w: Word)
    ensures Rotate(0, w) == w
  {
  }

  lemma OneTurn(w: Word)
    ensures Rotate(1, w) == Turn(w)
  {
    Carried(w);
  }

  lemma Carried(w: bv32)
    ensures (w << 1) | (w >> 31) == w + w + if w < 0x80000000 then 0 else 1
  {
  }

  lemma TurnAgain(n: Word, w: Word)
    requires n < 31
    ensures Rotate(n + 1, w) == Rotate(1, Rotate(n, w))
  {
    hide Rotate;
    var r, q := Rotate(n, w), Rotate(n + 1, w);
    assert q == Rotate(1, r) by {
      RotateIs(n, w);
      RotateIs(n + 1, w);
      Moved(n, w, r, q);
    }
  }

  lemma RotateIs(n: Word, w: Word)
    requires n < 32
    ensures Rotate(n, w) == (w << n) | (w >> (32 - n))
  {
  }

  lemma RotateOne(w: Word)
    ensures Rotate(1, w) == (w << 1) | (w >> 31)
  {
  }

  lemma Moved(n: Word, w: Word, r: Word, q: Word)
    requires n < 31 && r == (w << n) | (w >> (32 - n)) && q == (w << (n + 1)) | (w >> (32 - (n + 1)))
    ensures q == Rotate(1, r)
  {
    hide Rotate;
    MovedBits(n, w, r, q);
    RotateOne(r);
  }

  lemma MovedBits(n: Word, w: Word, r: Word, q: Word)
    requires n < 31 && r == (w << n) | (w >> (32 - n)) && q == (w << (n + 1)) | (w >> (32 - (n + 1)))
    ensures q == (r << 1) | (r >> 31)
  {
  }
}

/** The laws of SHA-1's functions, and the published digest of "abc". */
module Sha1Laws {
  import opened Bytes
  import opened Sha1Spec

  /** Choose is c where b is set and d where it is not. */
  lemma ChooseLaw(b: Word, c: Word, d: Word)
    ensures Choose(b, c, d) & b == c & b && Choose(b, c, d) & !b == d & !b
  {
  }

  /** Where two of the three agree, majority is what they agree on. */
  lemma MajorityLaw(b: Word, c: Word, d: Word)
    ensures Majority(b, c, d) & !(b ^ c) == b & !(b ^ c)
    ensures Majority(b, c, d) & !(c ^ d) == c & !(c ^ d)
    ensures Majority(b, c, d) & !(b ^ d) == d & !(b ^ d)
  {
  }

  /** Parity changes with every bit of each. */
  lemma ParityLaw(b: Word, c: Word, d: Word)
    ensures Parity(b, c, d) ^ b == c ^ d && Parity(b, c, d) ^ c == b ^ d
  {
  }

  /** Which of them a round uses. */
  lemma RoundFunctions(t: nat, b: Word, c: Word, d: Word)
    requires t < 80
    ensures F(t, b, c, d) ==
            if t < 20 then Choose(b, c, d) else if 40 <= t < 60 then Majority(b, c, d) else Parity(b, c, d)
  {
  }

  /** What is behind the message: one bit, as few zeros as make up whole blocks,
      and the length of the message in bits. */
  lemma PadLaw(message: seq<byte>, k: nat)
    requires k < |Pad(message)|
    ensures |Pad(message)| % 64 == 0 && |message| + 9 <= |Pad(message)| <= |message| + 72
    ensures |message| < 0x2000_0000_0000_0000 ==> BigEndian(Pad(message)[|Pad(message)| - 8..]) == 8 * |message|
    ensures k < |message| ==> Pad(message)[k] == message[k]
    ensures |message| <= k < |Pad(message)| - 8 ==> Pad(message)[k] == if k == |message| then 0x80 else 0
  {
    var p := Pad(message);
    hide BigEndian;
    assert p[|p| - 8..] == Octets(8 * |message|, 8);
    if |message| < 0x2000_0000_0000_0000 {
      assert Power256(4) == 0x1_0000_0000 && Power256(8) == 0x1_0000_0000_0000_0000;
      OctetsRoundTrip(8 * |message|, 8);
    }
  }

  /** The constants are 2^30 times the square roots of 2, 3, 5 and 10, cut off. */
  lemma Roots(t: nat)
    requires t < 80
    ensures var k := K(t) as int;
            var n := if t < 20 then 2 else if t < 40 then 3 else if t < 60 then 5 else 10;
            k * k <= n * 0x1000_0000_0000_0000 < (k + 1) * (k + 1)
  {
  }

  /** The octets of the first hash, low octet first: counting up, and down again. */
  lemma InitialOctets()
    ensures LowFirst(INITIAL.a) == [0x01, 0x23, 0x45, 0x67] && LowFirst(INITIAL.b) == [0x89, 0xab, 0xcd, 0xef]
    ensures LowFirst(INITIAL.c) == [0xfe, 0xdc, 0xba, 0x98] && LowFirst(INITIAL.d) == [0x76, 0x54, 0x32, 0x10]
    ensures LowFirst(INITIAL.e) == [0xf0, 0xe1, 0xd2, 0xc3]
  {
  }

  function LowFirst(w: Word): seq<Word> {
    [w & 0xff, (w >> 8) & 0xff, (w >> 16) & 0xff, w >> 24]
  }
}

/** The digest of "abc" (section A.1 of FIPS 180-1). */
module Sha1Example {
  import opened Bytes
  import opened Sha1Spec

  /** "abc", the bit behind it, zeros, and its length of 24 bits. */
  const ABC: seq<byte> := [0x61, 0x62, 0x63, 0x80] + Zeros(59) + [24]

  /** The hash as it is in the middle of the rounds, by the five words last made. */
  function Mid(a: Word, b: Word, c: Word, d: Word, e: Word): Hash {
    Hash(a, b, Rotate(30, c), Rotate(30, d), Rotate(30, e))
  }

  lemma NextRound(t: nat, v: Word, a: Word, b: Word, c: Word, d: Word, e: Word, w: Word)
    requires t < 80 && Rounds(INITIAL, ABC, t) == Mid(a, b, c, d, e) && Schedule(ABC, t) == w
    requires v == Sum(Rotate(5, a), F(t, b, Rotate(30, c), Rotate(30, d)), Rotate(30, e), w, K(t))
    ensures Rounds(INITIAL, ABC, t + 1) == Mid(v, a, b, c, d)
  {
    hide Rotate, F, K, Schedule, Rounds, Sum;
    RoundFrom(INITIAL, ABC, t);
  }

  lemma RoundFrom(h: Hash, block: seq<byte>, t: nat)
    requires |block| == BLOCK && t < 80
    ensures Rounds(h, block, t + 1) == Round(Rounds(h, block, t), t, Schedule(block, t))
  {
    hide Round, Schedule;
  }

  lemma NextWord(t: nat, v: Word)
    requires 16 <= t < 80
    requires v == Rotate(1, Schedule(ABC, t - 3) ^ Schedule(ABC, t - 8) ^ Schedule(ABC, t - 14) ^ Schedule(ABC, t - 16))
    ensures Schedule(ABC, t) == v
  {
    hide Rotate;
  }

  lemma Words0()
    ensures Schedule(ABC, 0) == 0x61626380 && Schedule(ABC, 15) == 24
    ensures forall t :: 0 < t < 15 ==> Schedule(ABC, t) == 0
  {
  }

  lemma Words16()
    ensures Schedule(ABC, 16) == 0xc2c4c700 && Schedule(ABC, 17) == 0x00000000
    ensures Schedule(ABC, 18) == 0x00000030 && Schedule(ABC, 19) == 0x85898e01
    ensures Schedule(ABC, 20) == 0x00000000 && Schedule(ABC, 21) == 0x00000060
    ensures Schedule(ABC, 22) == 0x0b131c03 && Schedule(ABC, 23) == 0x00000030
  {
    hide Schedule;
    Words0();
    NextWord(16, 0xc2c4c700);
    NextWord(17, 0x00000000);
    NextWord(18, 0x00000030);
    NextWord(19, 0x85898e01);
    NextWord(20, 0x00000000);
    NextWord(21, 0x00000060);
    NextWord(22, 0x0b131c03);
    NextWord(23, 0x00000030);
  }

  lemma Words24()
    ensures Schedule(ABC, 24) == 0x85898ec1 && Schedule(ABC, 25) == 0x16263806
    ensures Schedule(ABC, 26) == 0x00000000 && Schedule(ABC, 27) == 0x00000180
    ensures Schedule(ABC, 28) == 0x2c4c700c && Schedule(ABC, 29) == 0x000000f0
    ensures Schedule(ABC, 30) == 0x93afb507 && Schedule(ABC, 31) == 0x5898e048
  {
    hide Schedule;
    Words0();
    Words16();
    NextWord(24, 0x85898ec1);
    NextWord(25, 0x16263806);
    NextWord(26, 0x00000000);
    NextWord(27, 0x00000180);
    NextWord(28, 0x2c4c700c);
    NextWord(29, 0x000000f0);
    NextWord(30, 0x93afb507);
    NextWord(31, 0x5898e048);
  }

  lemma Words32()
    ensures Schedule(ABC, 32) == 0x8e9a9202 && Schedule(ABC, 33) == 0x00000600
    ensures Schedule(ABC, 34) == 0xb131c0f0 && Schedule(ABC, 35) == 0x16263bc6
    ensures Schedule(ABC, 36) == 0x4ebed41e && Schedule(ABC, 37) == 0x626380a1
    ensures Schedule(ABC, 38) == 0x16263806 && Schedule(ABC, 39) == 0x000018c0
  {
    hide Schedule;
    Words16();
    Words24();
    NextWord(32, 0x8e9a9202);
    NextWord(33, 0x00000600);
    NextWord(34, 0xb131c0f0);
    NextWord(35, 0x16263bc6);
    NextWord(36, 0x4ebed41e);
    NextWord(37, 0x626380a1);
    NextWord(38, 0x16263806);
    NextWord(39, 0x000018c0);
  }

  lemma Words40()
    ensures Schedule(ABC, 40) == 0xd2e138c4 && Schedule(ABC, 41) == 0x00000f00
    ensures Schedule(ABC, 42) == 0x3afb5079 && Schedule(ABC, 43) == 0x898e04e5
    ensures Schedule(ABC, 44) == 0xe2ba3c2b && Schedule(ABC, 45) == 0x000060c0
    ensures Schedule(ABC, 46) == 0x053a37cd && Schedule(ABC, 47) == 0x74458547
  {
    hide Schedule;
    Words24();
    Words32();
    NextWord(40, 0xd2e138c4);
    NextWord(41, 0x00000f00);
    NextWord(42, 0x3afb5079);
    NextWord(43, 0x898e04e5);
    NextWord(44, 0xe2ba3c2b);
    NextWord(45, 0x000060c0);
    NextWord(46, 0x053a37cd);
    NextWord(47, 0x74458547);
  }

  lemma Words48()
    ensures Schedule(ABC, 48) == 0xda9415ed && Schedule(ABC, 49) == 0x26380a16
    ensures Schedule(ABC, 50) == 0x626383a1 && Schedule(ABC, 51) == 0x4ebf54de
    ensures Schedule(ABC, 52) == 0x3835b44b && Schedule(ABC, 53) == 0x0000f600
    ensures Schedule(ABC, 54) == 0x1e84c7a3 && Schedule(ABC, 55) == 0x98e04d98
  {
    hide Schedule;
    Words32();
    Words40();
    NextWord(48, 0xda9415ed);
    NextWord(49, 0x26380a16);
    NextWord(50, 0x626383a1);
    NextWord(51, 0x4ebf54de);
    NextWord(52, 0x3835b44b);
    NextWord(53, 0x0000f600);
    NextWord(54, 0x1e84c7a3);
    NextWord(55, 0x98e04d98);
  }

  lemma Words56()
    ensures Schedule(ABC, 56) == 0x651d16a0 && Schedule(ABC, 57) == 0x62658ca1
    ensures Schedule(ABC, 58) == 0x458544d6 && Schedule(ABC, 59) == 0x44584cb7
    ensures Schedule(ABC, 60) == 0x7ba06619 && Schedule(ABC, 61) == 0x6380aea2
    ensures Schedule(ABC, 62) == 0x0ae55269 && Schedule(ABC, 63) == 0x627b49a1
  {
    hide Schedule;
    Words40();
    Words48();
    NextWord(56, 0x651d16a0);
    NextWord(57, 0x62658ca1);
    NextWord(58, 0x458544d6);
    NextWord(59, 0x44584cb7);
    NextWord(60, 0x7ba06619);
    NextWord(61, 0x6380aea2);
    NextWord(62, 0x0ae55269);
    NextWord(63, 0x627b49a1);
  }

  lemma Words64()
    ensures Schedule(ABC, 64) == 0x7cd45c9d && Schedule(ABC, 65) == 0x000f0000
    ensures Schedule(ABC, 66) == 0xfb50753a && Schedule(ABC, 67) == 0xec6765e8
    ensures Schedule(ABC, 68) == 0xba3c2be2 && Schedule(ABC, 69) == 0x0060c000
    ensures Schedule(ABC, 70) == 0x3a37cd05 && Schedule(ABC, 71) == 0x458546f4
  {
    hide Schedule;
    Words48();
    Words56();
    NextWord(64, 0x7cd45c9d);
    NextWord(65, 0x000f0000);
    NextWord(66, 0xfb50753a);
    NextWord(67, 0xec6765e8);
    NextWord(68, 0xba3c2be2);
    NextWord(69, 0x0060c000);
    NextWord(70, 0x3a37cd05);
    NextWord(71, 0x458546f4);
  }

  lemma Words72()
    ensures Schedule(ABC, 72) == 0xb8599dd6 && Schedule(ABC, 73) == 0x380a1a26
    ensures Schedule(ABC, 74) == 0x01e02203 && Schedule(ABC, 75) == 0xe7cc3456
    ensures Schedule(ABC, 76) == 0xe6e60b69 && Schedule(ABC, 77) == 0x00f60a00
    ensures Schedule(ABC, 78) == 0x5795ef4f && Schedule(ABC, 79) == 0x822e0879
  {
    hide Schedule;
    Words56();
    Words64();
    NextWord(72, 0xb8599dd6);
    NextWord(73, 0x380a1a26);
    NextWord(74, 0x01e02203);
    NextWord(75, 0xe7cc3456);
    NextWord(76, 0xe6e60b69);
    NextWord(77, 0x00f60a00);
    NextWord(78, 0x5795ef4f);
    NextWord(79, 0x822e0879);
  }

  lemma Rounds0()
    ensures Rounds(INITIAL, ABC, 0) == Mid(0x67452301, 0xefcdab89, 0x62eb73fa, 0x40c951d8, 0x0f4b87c3)
  {
  }

  lemma Rounds8()
    ensures Rounds(INITIAL, ABC, 8) == Mid(0x9e8c07d4, 0x993e30c1, 0x3fc7ca40, 0xcfd499de, 0xcdd8e11b)
  {
    hide Rounds, Schedule, Mid;
    Rounds0();
    Words0();
    NextRound(0, 0x0116fc33, 0x67452301, 0xefcdab89, 0x62eb73fa, 0x40c951d8, 0x0f4b87c3, 0x61626380);
    NextRound(1, 0x8990536d, 0x0116fc33, 0x67452301, 0xefcdab89, 0x62eb73fa, 0x40c951d8, 0x00000000);
    NextRound(2, 0xa1390f08, 0x8990536d, 0x0116fc33, 0x67452301, 0xefcdab89, 0x62eb73fa, 0x00000000);
    NextRound(3, 0xcdd8e11b, 0xa1390f08, 0x8990536d, 0x0116fc33, 0x67452301, 0xefcdab89, 0x00000000);
    NextRound(4, 0xcfd499de, 0xcdd8e11b, 0xa1390f08, 0x8990536d, 0x0116fc33, 0x67452301, 0x00000000);
    NextRound(5, 0x3fc7ca40, 0xcfd499de, 0xcdd8e11b, 0xa1390f08, 0x8990536d, 0x0116fc33, 0x00000000);
    NextRound(6, 0x993e30c1, 0x3fc7ca40, 0xcfd499de, 0xcdd8e11b, 0xa1390f08, 0x8990536d, 0x00000000);
    NextRound(7, 0x9e8c07d4, 0x993e30c1, 0x3fc7ca40, 0xcfd499de, 0xcdd8e11b, 0xa1390f08, 0x00000000);
  }

  lemma Rounds16()
    ensures Rounds(INITIAL, ABC, 16) == Mid(0x20bdd62f, 0x196bee77, 0x9128f695, 0x4607b664, 0x63188fe4)
  {
    hide Rounds, Schedule, Mid;
    Rounds8();
    Words0();
    NextRound(8, 0x4b6ae328, 0x9e8c07d4, 0x993e30c1, 0x3fc7ca40, 0xcfd499de, 0xcdd8e11b, 0x00000000);
    NextRound(9, 0x8351f929, 0x4b6ae328, 0x9e8c07d4, 0x993e30c1, 0x3fc7ca40, 0xcfd499de, 0x00000000);
    NextRound(10, 0xfbda9e89, 0x8351f929, 0x4b6ae328, 0x9e8c07d4, 0x993e30c1, 0x3fc7ca40, 0x00000000);
    NextRound(11, 0x63188fe4, 0xfbda9e89, 0x8351f929, 0x4b6ae328, 0x9e8c07d4, 0x993e30c1, 0x00000000);
    NextRound(12, 0x4607b664, 0x63188fe4, 0xfbda9e89, 0x8351f929, 0x4b6ae328, 0x9e8c07d4, 0x00000000);
    NextRound(13, 0x9128f695, 0x4607b664, 0x63188fe4, 0xfbda9e89, 0x8351f929, 0x4b6ae328, 0x00000000);
    NextRound(14, 0x196bee77, 0x9128f695, 0x4607b664, 0x63188fe4, 0xfbda9e89, 0x8351f929, 0x00000000);
    NextRound(15, 0x20bdd62f, 0x196bee77, 0x9128f695, 0x4607b664, 0x63188fe4, 0xfbda9e89, 0x00000018);
  }

  lemma Rounds24()
    ensures Rounds(INITIAL, ABC, 24) == Mid(0xd541f12d, 0x21283486, 0x33a23bfc, 0x1a37b0ca, 0xfd9e1d7d)
  {
    hide Rounds, Schedule, Mid;
    Rounds16();
    Words16();
    NextRound(16, 0x4e925823, 0x20bdd62f, 0x196bee77, 0x9128f695, 0x4607b664, 0x63188fe4, 0xc2c4c700);
    NextRound(17, 0x82aa6728, 0x4e925823, 0x20bdd62f, 0x196bee77, 0x9128f695, 0x4607b664, 0x00000000);
    NextRound(18, 0xdc64901d, 0x82aa6728, 0x4e925823, 0x20bdd62f, 0x196bee77, 0x9128f695, 0x00000030);
    NextRound(19, 0xfd9e1d7d, 0xdc64901d, 0x82aa6728, 0x4e925823, 0x20bdd62f, 0x196bee77, 0x85898e01);
    NextRound(20, 0x1a37b0ca, 0xfd9e1d7d, 0xdc64901d, 0x82aa6728, 0x4e925823, 0x20bdd62f, 0x00000000);
    NextRound(21, 0x33a23bfc, 0x1a37b0ca, 0xfd9e1d7d, 0xdc64901d, 0x82aa6728, 0x4e925823, 0x00000060);
    NextRound(22, 0x21283486, 0x33a23bfc, 0x1a37b0ca, 0xfd9e1d7d, 0xdc64901d, 0x82aa6728, 0x0b131c03);
    NextRound(23, 0xd541f12d, 0x21283486, 0x33a23bfc, 0x1a37b0ca, 0xfd9e1d7d, 0xdc64901d, 0x00000030);
  }

  lemma Rounds32()
    ensures Rounds(INITIAL, ABC, 32) == Mid(0x3b845d33, 0x1267b407, 0xc5fbaf5d, 0x8370b52e, 0x4aa84d97)
  {
    hide Rounds, Schedule, Mid;
    Rounds24();
    Words24();
    NextRound(24, 0xc7567dc6, 0xd541f12d, 0x21283486, 0x33a23bfc, 0x1a37b0ca, 0xfd9e1d7d, 0x85898ec1);
    NextRound(25, 0x48413ba4, 0xc7567dc6, 0xd541f12d, 0x21283486, 0x33a23bfc, 0x1a37b0ca, 0x16263806);
    NextRound(26, 0xbe35fbd5, 0x48413ba4, 0xc7567dc6, 0xd541f12d, 0x21283486, 0x33a23bfc, 0x00000000);
    NextRound(27, 0x4aa84d97, 0xbe35fbd5, 0x48413ba4, 0xc7567dc6, 0xd541f12d, 0x21283486, 0x00000180);
    NextRound(28, 0x8370b52e, 0x4aa84d97, 0xbe35fbd5, 0x48413ba4, 0xc7567dc6, 0xd541f12d, 0x2c4c700c);
    NextRound(29, 0xc5fbaf5d, 0x8370b52e, 0x4aa84d97, 0xbe35fbd5, 0x48413ba4, 0xc7567dc6, 0x000000f0);
    NextRound(30, 0x1267b407, 0xc5fbaf5d, 0x8370b52e, 0x4aa84d97, 0xbe35fbd5, 0x48413ba4, 0x93afb507);
    NextRound(31, 0x3b845d33, 0x1267b407, 0xc5fbaf5d, 0x8370b52e, 0x4aa84d97, 0xbe35fbd5, 0x5898e048);
  }

  lemma Rounds40()
    ensures Rounds(INITIAL, ABC, 40) == Mid(0x32de1cba, 0x4c986405, 0xdc63973f, 0x0f511fd8, 0xdcbbb0cb)
  {
    hide Rounds, Schedule, Mid;
    Rounds32();
    Words32();
    NextRound(32, 0x046faa0a, 0x3b845d33, 0x1267b407, 0xc5fbaf5d, 0x8370b52e, 0x4aa84d97, 0x8e9a9202);
    NextRound(33, 0x2c0ebc11, 0x046faa0a, 0x3b845d33, 0x1267b407, 0xc5fbaf5d, 0x8370b52e, 0x00000600);
    NextRound(34, 0x21796ad4, 0x2c0ebc11, 0x046faa0a, 0x3b845d33, 0x1267b407, 0xc5fbaf5d, 0xb131c0f0);
    NextRound(35, 0xdcbbb0cb, 0x21796ad4, 0x2c0ebc11, 0x046faa0a, 0x3b845d33, 0x1267b407, 0x16263bc6);
    NextRound(36, 0x0f511fd8, 0xdcbbb0cb, 0x21796ad4, 0x2c0ebc11, 0x046faa0a, 0x3b845d33, 0x4ebed41e);
    NextRound(37, 0xdc63973f, 0x0f511fd8, 0xdcbbb0cb, 0x21796ad4, 0x2c0ebc11, 0x046faa0a, 0x626380a1);
    NextRound(38, 0x4c986405, 0xdc63973f, 0x0f511fd8, 0xdcbbb0cb, 0x21796ad4, 0x2c0ebc11, 0x16263806);
    NextRound(39, 0x32de1cba, 0x4c986405, 0xdc63973f, 0x0f511fd8, 0xdcbbb0cb, 0x21796ad4, 0x000018c0);
  }

  lemma Rounds48()
    ensures Rounds(INITIAL, ABC, 48) == Mid(0xbead02ca, 0xa01b846c, 0x1c51e1f2, 0x40f28e09, 0xee1b1aaf)
  {
    hide Rounds, Schedule, Mid;
    Rounds40();
    Words40();
    NextRound(40, 0xfc87dedf, 0x32de1cba, 0x4c986405, 0xdc63973f, 0x0f511fd8, 0xdcbbb0cb, 0xd2e138c4);
    NextRound(41, 0x970a0d5c, 0xfc87dedf, 0x32de1cba, 0x4c986405, 0xdc63973f, 0x0f511fd8, 0x00000f00);
    NextRound(42, 0x7f193dc5, 0x970a0d5c, 0xfc87dedf, 0x32de1cba, 0x4c986405, 0xdc63973f, 0x3afb5079);
    NextRound(43, 0xee1b1aaf, 0x7f193dc5, 0x970a0d5c, 0xfc87dedf, 0x32de1cba, 0x4c986405, 0x898e04e5);
    NextRound(44, 0x40f28e09, 0xee1b1aaf, 0x7f193dc5, 0x970a0d5c, 0xfc87dedf, 0x32de1cba, 0xe2ba3c2b);
    NextRound(45, 0x1c51e1f2, 0x40f28e09, 0xee1b1aaf, 0x7f193dc5, 0x970a0d5c, 0xfc87dedf, 0x000060c0);
    NextRound(46, 0xa01b846c, 0x1c51e1f2, 0x40f28e09, 0xee1b1aaf, 0x7f193dc5, 0x970a0d5c, 0x053a37cd);
    NextRound(47, 0xbead02ca, 0xa01b846c, 0x1c51e1f2, 0x40f28e09, 0xee1b1aaf, 0x7f193dc5, 0x74458547);
  }

  lemma Rounds56()
    ensures Rounds(INITIAL, ABC, 56) == Mid(0x5e6456af, 0x7b71f76d, 0x27e9f1d8, 0xe490436d, 0x3847ad66)
  {
    hide Rounds, Schedule, Mid;
    Rounds48();
    Words48();
    NextRound(48, 0xbaf39337, 0xbead02ca, 0xa01b846c, 0x1c51e1f2, 0x40f28e09, 0xee1b1aaf, 0xda9415ed);
    NextRound(49, 0x120731c5, 0xbaf39337, 0xbead02ca, 0xa01b846c, 0x1c51e1f2, 0x40f28e09, 0x26380a16);
    NextRound(50, 0x641db2ce, 0x120731c5, 0xbaf39337, 0xbead02ca, 0xa01b846c, 0x1c51e1f2, 0x626383a1);
    NextRound(51, 0x3847ad66, 0x641db2ce, 0x120731c5, 0xbaf39337, 0xbead02ca, 0xa01b846c, 0x4ebf54de);
    NextRound(52, 0xe490436d, 0x3847ad66, 0x641db2ce, 0x120731c5, 0xbaf39337, 0xbead02ca, 0x3835b44b);
    NextRound(53, 0x27e9f1d8, 0xe490436d, 0x3847ad66, 0x641db2ce, 0x120731c5, 0xbaf39337, 0x0000f600);
    NextRound(54, 0x7b71f76d, 0x27e9f1d8, 0xe490436d, 0x3847ad66, 0x641db2ce, 0x120731c5, 0x1e84c7a3);
    NextRound(55, 0x5e6456af, 0x7b71f76d, 0x27e9f1d8, 0xe490436d, 0x3847ad66, 0x641db2ce, 0x98e04d98);
  }

  lemma Rounds64()
    ensures Rounds(INITIAL, ABC, 64) == Mid(0x6b61c9e1, 0xb66c020b, 0x548c9cb2, 0xd756c147, 0x3f52de5a)
  {
    hide Rounds, Schedule, Mid;
    Rounds56();
    Words56();
    NextRound(56, 0xc846093f, 0x5e6456af, 0x7b71f76d, 0x27e9f1d8, 0xe490436d, 0x3847ad66, 0x651d16a0);
    NextRound(57, 0xd262ff50, 0xc846093f, 0x5e6456af, 0x7b71f76d, 0x27e9f1d8, 0xe490436d, 0x62658ca1);
    NextRound(58, 0x09d785fd, 0xd262ff50, 0xc846093f, 0x5e6456af, 0x7b71f76d, 0x27e9f1d8, 0x458544d6);
    NextRound(59, 0x3f52de5a, 0x09d785fd, 0xd262ff50, 0xc846093f, 0x5e6456af, 0x7b71f76d, 0x44584cb7);
    NextRound(60, 0xd756c147, 0x3f52de5a, 0x09d785fd, 0xd262ff50, 0xc846093f, 0x5e6456af, 0x7ba06619);
    NextRound(61, 0x548c9cb2, 0xd756c147, 0x3f52de5a, 0x09d785fd, 0xd262ff50, 0xc846093f, 0x6380aea2);
    NextRound(62, 0xb66c020b, 0x548c9cb2, 0xd756c147, 0x3f52de5a, 0x09d785fd, 0xd262ff50, 0x0ae55269);
    NextRound(63, 0x6b61c9e1, 0xb66c020b, 0x548c9cb2, 0xd756c147, 0x3f52de5a, 0x09d785fd, 0x627b49a1);
  }

  lemma Rounds72()
    ensures Rounds(INITIAL, ABC, 72) == Mid(0x39859de7, 0xc199f8c7, 0x3f2588c2, 0x497093c0, 0x78dd4d2b)
  {
    hide Rounds, Schedule, Mid;
    Rounds64();
    Words64();
    NextRound(64, 0x19dfa7ac, 0x6b61c9e1, 0xb66c020b, 0x548c9cb2, 0xd756c147, 0x3f52de5a, 0x7cd45c9d);
    NextRound(65, 0x101655f9, 0x19dfa7ac, 0x6b61c9e1, 0xb66c020b, 0x548c9cb2, 0xd756c147, 0x000f0000);
    NextRound(66, 0x0c3df2b4, 0x101655f9, 0x19dfa7ac, 0x6b61c9e1, 0xb66c020b, 0x548c9cb2, 0xfb50753a);
    NextRound(67, 0x78dd4d2b, 0x0c3df2b4, 0x101655f9, 0x19dfa7ac, 0x6b61c9e1, 0xb66c020b, 0xec6765e8);
    NextRound(68, 0x497093c0, 0x78dd4d2b, 0x0c3df2b4, 0x101655f9, 0x19dfa7ac, 0x6b61c9e1, 0xba3c2be2);
    NextRound(69, 0x3f2588c2, 0x497093c0, 0x78dd4d2b, 0x0c3df2b4, 0x101655f9, 0x19dfa7ac, 0x0060c000);
    NextRound(70, 0xc199f8c7, 0x3f2588c2, 0x497093c0, 0x78dd4d2b, 0x0c3df2b4, 0x101655f9, 0x3a37cd05);
    NextRound(71, 0x39859de7, 0xc199f8c7, 0x3f2588c2, 0x497093c0, 0x78dd4d2b, 0x0c3df2b4, 0x458546f4);
  }

  lemma Rounds80()
    ensures Rounds(INITIAL, ABC, 80) == Mid(0x42541b35, 0x5738d5e1, 0x860d21cc, 0xa079b7d9, 0x63f7dab7)
  {
    hide Rounds, Schedule, Mid;
    Rounds72();
    Words72();
    NextRound(72, 0xedb42de4, 0x39859de7, 0xc199f8c7, 0x3f2588c2, 0x497093c0, 0x78dd4d2b, 0xb8599dd6);
    NextRound(73, 0x11793f6f, 0xedb42de4, 0x39859de7, 0xc199f8c7, 0x3f2588c2, 0x497093c0, 0x380a1a26);
    NextRound(74, 0x5ee76897, 0x11793f6f, 0xedb42de4, 0x39859de7, 0xc199f8c7, 0x3f2588c2, 0x01e02203);
    NextRound(75, 0x63f7dab7, 0x5ee76897, 0x11793f6f, 0xedb42de4, 0x39859de7, 0xc199f8c7, 0xe7cc3456);
    NextRound(76, 0xa079b7d9, 0x63f7dab7, 0x5ee76897, 0x11793f6f, 0xedb42de4, 0x39859de7, 0xe6e60b69);
    NextRound(77, 0x860d21cc, 0xa079b7d9, 0x63f7dab7, 0x5ee76897, 0x11793f6f, 0xedb42de4, 0x00f60a00);
    NextRound(78, 0x5738d5e1, 0x860d21cc, 0xa079b7d9, 0x63f7dab7, 0x5ee76897, 0x11793f6f, 0x5795ef4f);
    NextRound(79, 0x42541b35, 0x5738d5e1, 0x860d21cc, 0xa079b7d9, 0x63f7dab7, 0x5ee76897, 0x822e0879);
  }

  /** SHA-1 of "abc" is a9993e36 4706816a ba3e2571 7850c26c 9cd0d89d. */
  lemma DigestOfAbc(m: seq<byte>)
    requires m == [0x61, 0x62, 0x63]
    ensures Fold(Pad(m)) == Hash(0xa9993e36, 0x4706816a, 0xba3e2571, 0x7850c26c, 0x9cd0d89d)
  {
    hide Rounds, Schedule;
    Rounds80();
    assert Octets(24, 8) == Zeros(7) + [24] by { LengthOfAbc(); }
    assert Pad(m) == ABC;
    assert ABC[..0] == [] && ABC[0..] == ABC;
    assert Fold([]) == INITIAL;
  }

  /** Octet by octet. */
  lemma OctetsOfAbc(m: seq<byte>)
    requires m == [0x61, 0x62, 0x63]
    ensures Sha1(m)
            == [0xa9, 0x99, 0x3e, 0x36, 0x47, 0x06, 0x81, 0x6a, 0xba, 0x3e,
                0x25, 0x71, 0x78, 0x50, 0xc2, 0x6c, 0x9c, 0xd0, 0xd8, 0x9d]
  {
    hide Fold, Pad;
    DigestOfAbc(m);
  }

  lemma LengthOfAbc()
    ensures Octets(24, 8) == Zeros(7) + [24]
  {
    assert Octets(0, 1) == [] + [0];
  }
}
