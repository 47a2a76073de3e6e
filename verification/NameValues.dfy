/** Name-value pairs (section 3.4 of the FastCGI Specification 1.0): how the
    web server writes them and how the application reads them. */
module NameValues {
  import opened Bytes
  import opened FcgiRecords

  const EQUALS: byte := 0x3d
  const NUL: byte := 0

  datatype Pair = Pair(name: seq<byte>, value: seq<byte>)

  /** One octet below 128, else four with the top bit set. */
  function EncodeLength(n: nat): (s: seq<byte>)
  {
    if n < 0x80 then [n]
    else [0x80 + (n / 0x1000000) % 0x80, (n / 0x10000) % 0x100, (n / 0x100) % 0x100, n % 0x100]
  }

  function EncodePair(p: Pair): seq<byte> {
    EncodeLength(|p.name|) + EncodeLength(|p.value|) + p.name + p.value
  }

  function EncodePairs(ps: seq<Pair>): seq<byte> {
    if ps == [] then [] else EncodePair(ps[0]) + EncodePairs(ps[1..])
  }

  function LongLength(b3: int, b2: byte, b1: byte, b0: byte): nat
    requires 0x80 <= b3 < 0x100
  {
    (b3 - 0x80) * 0x1000000 + b2 * 0x10000 + b1 * 0x100 + b0
  }

  /** A length and the bytes after it. */
  function TakeLength(d: seq<byte>): Option<(nat, seq<byte>)> {
    if d == [] then None
    else if d[0] < 0x80 then Some((d[0], d[1..]))
    else if |d| < 4 then None
    else Some((LongLength(d[0], d[1], d[2], d[3]), d[4..]))
  }

  /** An environment entry: name=value and the terminating NUL. */
  function Entry(p: Pair): seq<byte> {
    p.name + [EQUALS] + p.value + [NUL]
  }

  function Entries(ps: seq<Pair>): seq<seq<byte>> {
    seq(|ps|, i requires 0 <= i < |ps| => Entry(ps[i]))
  }

  /** The pairs found before the data ends, and whether it ends between pairs. */
  datatype Parsed = Parsed(pairs: seq<Pair>, complete: bool) {
    function Prepend(p: Pair): Parsed {
      Parsed([p] + pairs, complete)
    }
  }

  function TakeLengths(d: seq<byte>): (r: Option<(nat, nat, seq<byte>)>)
    ensures r.Some? ==> |r.value.2| + 2 <= |d|
  {
    match TakeLength(d)
    case None => None
    case Some((nameLen, d1)) =>
      match TakeLength(d1)
      case None => None
      case Some((valueLen, d2)) => Some((nameLen, valueLen, d2))
  }

  function SplitPair(nameLen: nat, valueLen: nat, d: seq<byte>): (Pair, seq<byte>)
    requires nameLen + valueLen <= |d|
  {
    var end := nameLen + valueLen;
    (Pair(d[..nameLen], d[nameLen..end]), d[end..])
  }

  /** One pair and the bytes after it. */
  function TakePair(d: seq<byte>): (r: Option<(Pair, seq<byte>)>)
    ensures r.Some? ==> |r.value.0.name| + |r.value.0.value| + 2 <= |d| - |r.value.1|
  {
    match TakeLengths(d)
    case None => None
    case Some((nameLen, valueLen, d2)) =>
      if |d2| < nameLen + valueLen then None else Some(SplitPair(nameLen, valueLen, d2))
  }

  function ParsePairs(d: seq<byte>): Parsed {
    if d == [] then Parsed([], true)
    else match TakePair(d)
      case None => Parsed([], false)
      case Some((p, rest)) => ParsePairs(rest).Prepend(p)
  }

  const MAX_PAIR_LENGTH: nat := 0x80000000

  ghost predicate Encodable(ps: seq<Pair>) {
    forall p :: p in ps ==> |p.name| < MAX_PAIR_LENGTH && |p.value| < MAX_PAIR_LENGTH
  }

  lemma LengthRoundTrip(n: nat, rest: seq<byte>)
    ensures TakeLength(EncodeLength(n) + rest) == Some((if n < 0x80 then n else n % MAX_PAIR_LENGTH, rest))
  {
    var d := EncodeLength(n) + rest;
    if n >= 0x80 {
      var q3, q2, q1 := n / 0x1000000, n / 0x10000, n / 0x100;
      assert q2 == q1 / 0x100 && q3 == q2 / 0x100;
      assert q3 % 0x80 * 0x1000000 + q2 % 0x100 * 0x10000 + q1 % 0x100 * 0x100 + n % 0x100 == n % MAX_PAIR_LENGTH;
      assert d[4..] == rest;
    }
  }

  /** Name-value pairs survive encoding and decoding, one at a time. */
  lemma PairRoundTrip(p: Pair, rest: seq<byte>)
    requires Encodable([p])
    ensures TakePair(EncodePair(p) + rest) == Some((p, rest)) && EncodePair(p) + rest != []
  {
    hide EncodeLength, TakeLength;
    assert p in [p];
    var d2 := p.name + p.value + rest;
    var d1 := EncodeLength(|p.value|) + d2;
    LengthRoundTrip(|p.name|, d1);
    LengthRoundTrip(|p.value|, d2);
    Regroup(EncodeLength(|p.name|), EncodeLength(|p.value|), p.name, p.value, rest);
    assert TakeLength([]) == None by { TakeLengthEmpty(); }
    Cut(p.name, p.value, rest);
  }

  lemma TakeLengthEmpty()
    ensures TakeLength([]) == None
  {
  }

  lemma Regroup(a: seq<byte>, b: seq<byte>, c: seq<byte>, d: seq<byte>, e: seq<byte>)
    ensures a + b + c + d + e == a + (b + (c + d + e))
  {
  }

  lemma Cut(a: seq<byte>, b: seq<byte>, c: seq<byte>)
    ensures var d := a + b + c;
            d[..|a|] == a && d[|a|..|a| + |b|] == b && d[|a| + |b|..] == c
  {
  }

  /** Decoding what was encoded gives every pair back, in order. */
  lemma {:induction false} PairsRoundTrip(ps: seq<Pair>)
    requires Encodable(ps)
    ensures ParsePairs(EncodePairs(ps)) == Parsed(ps, true)
  {
    hide EncodePair, TakePair;
    if ps != [] {
      PairRoundTrip(ps[0], EncodePairs(ps[1..]));
      PairNotEmpty(ps[0]);
      PairsRoundTrip(ps[1..]);
      assert ps == [ps[0]] + ps[1..];
    }
  }

  lemma PairNotEmpty(p: Pair)
    ensures EncodePair(p) != []
  {
  }

  lemma EncodePairsEmpty(ps: seq<Pair>)
    ensures EncodePairs(ps) == [] <==> ps == []
  {
  }

  // Data that is cut off.

  lemma CutLength(n: nat, k: nat)
    requires k < |EncodeLength(n)|
    ensures TakeLength(EncodeLength(n)[..k]) == None
  {
  }

  /** A part of a pair is no pair. */
  lemma CutPair(p: Pair, k: nat)
    requires Encodable([p]) && 0 < k < |EncodePair(p)|
    ensures TakePair(EncodePair(p)[..k]) == None
  {
    hide EncodeLength, TakeLength;
    assert p in [p];
    var a, b, c := EncodeLength(|p.name|), EncodeLength(|p.value|), p.name + p.value;
    var d := EncodePair(p)[..k];
    assert EncodePair(p) == a + (b + c);
    if k < |a| {
      assert d == a[..k];
      CutLength(|p.name|, k);
    } else {
      assert d == a + (b + c)[..k - |a|];
      LengthRoundTrip(|p.name|, (b + c)[..k - |a|]);
      if k < |a| + |b| {
        assert (b + c)[..k - |a|] == b[..k - |a|];
        CutLength(|p.value|, k - |a|);
      } else {
        assert (b + c)[..k - |a|] == b + c[..k - |a| - |b|];
        LengthRoundTrip(|p.value|, c[..k - |a| - |b|]);
      }
    }
  }

  /** The data of a list of pairs stops behind the first j of them. */
  predicate EndsBehind(ps: seq<Pair>, d: seq<byte>, j: nat) {
    j <= |ps| && d == EncodePairs(ps[..j])
  }

  /** A front part of the data of some pairs is complete if and only if it stops
      behind one of them; the pairs found are those in front of the cut. */
  lemma {:induction false} CutPairs(ps: seq<Pair>, k: nat)
    requires Encodable(ps) && k <= |EncodePairs(ps)|
    ensures var d := EncodePairs(ps)[..k];
            && (ParsePairs(d).complete <==> exists j: nat :: EndsBehind(ps, d, j))
            && forall j: nat :: EndsBehind(ps, d, j) ==> ParsePairs(d) == Parsed(ps[..j], true)
    decreases |ps|
  {
    hide EncodePair, TakePair;
    var d := EncodePairs(ps)[..k];
    forall j: nat | EndsBehind(ps, d, j) ensures ParsePairs(d) == Parsed(ps[..j], true) {
      PairsRoundTrip(ps[..j]);
    }
    if ps == [] || k == 0 {
      assert d == [] && EndsBehind(ps, [], 0);
    } else {
      var p, rest := ps[0], EncodePairs(ps[1..]);
      assert Encodable([p]);
      if k < |EncodePair(p)| {
        assert d == EncodePair(p)[..k];
        CutPair(p, k);
      } else {
        var n := k - |EncodePair(p)|;
        assert d == EncodePair(p) + rest[..n];
        PairRoundTrip(p, rest[..n]);
        CutPairs(ps[1..], n);
        if j: nat :| EndsBehind(ps[1..], rest[..n], j) {
          assert ps[..j + 1][0] == p && ps[..j + 1][1..] == ps[1..][..j];
          assert EndsBehind(ps, d, j + 1);
        }
      }
    }
  }
}
