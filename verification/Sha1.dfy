/** SHA-1 (sections 4 to 6 of RFC 3174) as a function of the whole message. */
module Sha1Spec {
  import opened Bytes

  type Word = bv32

  const BLOCK: nat := 64

  datatype Hash = Hash(a: Word, b: Word, c: Word, d: Word, e: Word)

  const INITIAL: Hash := Hash(0x67452301, 0xEFCDAB89, 0x98BADCFE, 0x10325476, 0xC3D2E1F0)

  function ToWord(b3: byte, b2: byte, b1: byte, b0: byte): Word {
    (b3 as Word << 24) | (b2 as Word << 16) | (b1 as Word << 8) | b0 as Word
  }

  function Rotate(n: Word, w: Word): Word
    requires n < 32
  {
    (w << n) | (w >> (32 - n))
  }

  /** Word t of the schedule of a block. */
  function Schedule(block: seq<byte>, t: nat): Word
    requires |block| == BLOCK && t < 80
  {
    if t < 16 then ToWord(block[4 * t], block[4 * t + 1], block[4 * t + 2], block[4 * t + 3])
    else Rotate(1, Schedule(block, t - 3) ^ Schedule(block, t - 8) ^ Schedule(block, t - 14) ^ Schedule(block, t - 16))
  }

  function Choose(b: Word, c: Word, d: Word): Word {
    (b & c) | (!b & d)
  }

  function Parity(b: Word, c: Word, d: Word): Word {
    b ^ c ^ d
  }

  function Majority(b: Word, c: Word, d: Word): Word {
    (b & c) | (b & d) | (c & d)
  }

  function F(t: nat, b: Word, c: Word, d: Word): Word {
    if t < 20 then Choose(b, c, d)
    else if t < 40 then Parity(b, c, d)
    else if t < 60 then Majority(b, c, d)
    else Parity(b, c, d)
  }

  function K(t: nat): Word {
    if t < 20 then 0x5A827999 else if t < 40 then 0x6ED9EBA1 else if t < 60 then 0x8F1BBCDC else 0xCA62C1D6
  }

  function Sum(v: Word, f: Word, e: Word, w: Word, k: Word): Word {
    v + f + e + w + k
  }

  function Round(h: Hash, t: nat, w: Word): Hash {
    Hash(Sum(Rotate(5, h.a), F(t, h.b, h.c, h.d), h.e, w, K(t)), h.a, Rotate(30, h.b), h.c, h.d)
  }

  function Rounds(h: Hash, block: seq<byte>, t: nat): Hash
    requires |block| == BLOCK && t <= 80
  {
    if t == 0 then h else Round(Rounds(h, block, t - 1), t - 1, Schedule(block, t - 1))
  }

  function Plus(h: Hash, g: Hash): Hash {
    Hash(h.a + g.a, h.b + g.b, h.c + g.c, h.d + g.d, h.e + g.e)
  }

  function Compress(h: Hash, block: seq<byte>): Hash
    requires |block| == BLOCK
  {
    Plus(h, Rounds(h, block, 80))
  }

  /** The hash after the whole blocks of a message. */
  function Fold(message: seq<byte>): Hash
    requires |message| % BLOCK == 0
    decreases |message|
  {
    if message == [] then INITIAL
    else
      var n := |message| - BLOCK;
      Compress(Fold(message[..n]), message[n..])
  }

  /** How many zero octets bring a message of n octets to eight short of a block. */
  function Fill(n: nat): (z: nat)
    ensures z < BLOCK && (n + 1 + z + 8) % BLOCK == 0
  {
    (119 - n % BLOCK) % BLOCK
  }

  /** The message with a one bit, zeros and its length in bits behind it. */
  function Pad(message: seq<byte>): (p: seq<byte>)
    ensures |p| % BLOCK == 0
  {
    message + [0x80] + Zeros(Fill(|message|)) + Octets(8 * |message|, 8)
  }

  function WordOctets(w: Word): seq<byte> {
    [(w >> 24) as int % 0x100, (w >> 16) as int % 0x100, (w >> 8) as int % 0x100, w as int % 0x100]
  }

  function Digest(h: Hash): (d: seq<byte>)
    ensures |d| == 20
  {
    WordOctets(h.a) + WordOctets(h.b) + WordOctets(h.c) + WordOctets(h.d) + WordOctets(h.e)
  }

  function Sha1(message: seq<byte>): seq<byte> {
    Digest(Fold(Pad(message)))
  }
}

/** The streaming computation: octets come in any number of calls. */
module Sha1Streaming {
  import opened Bytes
  import opened Sha1Spec

  const SUCCESS: int := 0
  const TOO_LONG: int := 1
  const STATE_ERROR: int := 3

  const MAX_MESSAGE: nat := 0x2000_0000_0000_0000

  lemma FoldBlock(d: seq<byte>, b: seq<byte>)
    requires |d| % BLOCK == 0 && |b| == BLOCK
    ensures Fold(d + b) == Compress(Fold(d), b)
  {
    hide Compress;
    assert (d + b)[..|d|] == d && (d + b)[|d|..] == b;
  }

  lemma FoldNothing()
    ensures Fold([]) == INITIAL
  {
  }

  /** Two 32-bit words as eight octets. */
  lemma LengthOctets(high: nat, low: nat)
    requires high < 0x1_0000_0000 && low < 0x1_0000_0000
    ensures Octets(high * 0x1_0000_0000 + low, 8)
            == [high / 0x1000000 % 0x100, high / 0x10000 % 0x100, high / 0x100 % 0x100, high % 0x100,
                low / 0x1000000 % 0x100, low / 0x10000 % 0x100, low / 0x100 % 0x100, low % 0x100]
  {
    hide Octets;
    var n := high * 0x1_0000_0000 + low;
    var n1, n2, n3 := high * 0x1000000 + low / 0x100, high * 0x10000 + low / 0x10000, high * 0x100 + low / 0x1000000;
    DropOctet(n, 7, n1, low % 0x100);
    DropOctet(n1, 6, n2, low / 0x100 % 0x100);
    DropOctet(n2, 5, n3, low / 0x10000 % 0x100);
    DropOctet(n3, 4, high, low / 0x1000000 % 0x100);
    LastFour(high);
  }

  lemma DropOctet(n: nat, k: nat, q: nat, r: byte)
    requires n == q * 0x100 + r
    ensures Octets(n, k + 1) == Octets(q, k) + [r]
  {
    assert n / 0x100 == q && n % 0x100 == r;
  }

  lemma LastFour(n: nat)
    ensures Octets(n, 4) == [n / 0x1000000 % 0x100, n / 0x10000 % 0x100, n / 0x100 % 0x100, n % 0x100]
  {
    hide Octets;
    var n1, n2, n3 := n / 0x100, n / 0x10000, n / 0x1000000;
    assert n2 == n1 / 0x100 && n3 == n2 / 0x100;
    DropOctet(n, 3, n1, n % 0x100);
    DropOctet(n1, 2, n2, n1 % 0x100);
    DropOctet(n2, 1, n3, n2 % 0x100);
    DropOctet(n3, 0, n3 / 0x100, n3 % 0x100);
    assert Octets(n3 / 0x100, 0) == [];
  }

  lemma RestOfBlocks(n: nat, i: nat)
    requires i < BLOCK && i <= n && (n - i) % BLOCK == 0
    ensures i == n % BLOCK
  {
  }

  class SHA1Context {
    var intermediateHash: Hash
    // length of the message in bits, two words
    var lengthLow: nat
    var lengthHigh: nat
    var messageBlockIndex: nat
    const messageBlock: array<byte>
    var computed: bool
    var corrupted: int
    // all octets given since the last reset
    ghost var message: seq<byte>

    /** The data d has been taken in: its whole blocks are in the hash, the
        rest stands at the front of the block. */
    ghost predicate Holds(d: seq<byte>)
      reads this`intermediateHash, this`messageBlockIndex, messageBlock
    {
      && messageBlock.Length == BLOCK && messageBlockIndex <= BLOCK && messageBlockIndex <= |d|
      && (|d| - messageBlockIndex) % BLOCK == 0
      && intermediateHash == Fold(d[..|d| - messageBlockIndex])
      && messageBlock[..messageBlockIndex] == d[|d| - messageBlockIndex..]
    }

    /** Ready for more octets, or for the result. */
    ghost predicate Open()
      reads this, messageBlock
    {
      && messageBlock.Length == BLOCK && !computed && corrupted == 0 && Holds(message)
      && messageBlockIndex < BLOCK && |message| < MAX_MESSAGE
      && lengthLow < 0x1_0000_0000 && lengthHigh * 0x1_0000_0000 + lengthLow == 8 * |message|
    }

    ghost predicate Valid()
      reads this, messageBlock
    {
      && messageBlock.Length == BLOCK
      && if corrupted != 0 then true
         else if computed then intermediateHash == Fold(Pad(message))
         else Open()
    }

    constructor ()
      ensures Open() && message == [] && fresh(messageBlock)
    {
      hide Holds;
      intermediateHash := INITIAL;
      lengthLow, lengthHigh, messageBlockIndex := 0, 0, 0;
      messageBlock := new byte[BLOCK];
      computed, corrupted := false, 0;
      message := [];
      new;
      HoldsNothing();
    }

    method Reset()
      requires messageBlock.Length == BLOCK
      modifies this
      ensures Open() && message == []
    {
      hide Holds;
      lengthLow, lengthHigh, messageBlockIndex := 0, 0, 0;
      intermediateHash := INITIAL;
      computed, corrupted := false, 0;
      message := [];
      HoldsNothing();
    }

    lemma HoldsNothing()
      requires messageBlock.Length == BLOCK && messageBlockIndex == 0 && intermediateHash == INITIAL
      ensures Holds([])
    {
      hide Fold;
      FoldNothing();
    }

    /** Mixes the block into the hash. */
    method ProcessMessageBlock()
      requires messageBlock.Length == BLOCK
      modifies this`intermediateHash, this`messageBlockIndex
      ensures messageBlockIndex == 0
      ensures intermediateHash == Compress(old(intermediateHash), messageBlock[..])
    {
      hide Schedule, Sum, Rotate, Choose, Parity, Majority, Plus;
      ghost var block := messageBlock[..];
      var h := intermediateHash;
      var w := ExpandBlock();
      var a, b, c, d, e := h.a, h.b, h.c, h.d, h.e;
      for t := 0 to 20
        invariant Hash(a, b, c, d, e) == Rounds(h, block, t)
      {
        var temp := Sum(Rotate(5, a), Choose(b, c, d), e, w[t], 0x5A827999);
        e := d;
        d := c;
        c := Rotate(30, b);
        b := a;
        a := temp;
      }
      for t := 20 to 40
        invariant Hash(a, b, c, d, e) == Rounds(h, block, t)
      {
        var temp := Sum(Rotate(5, a), Parity(b, c, d), e, w[t], 0x6ED9EBA1);
        e := d;
        d := c;
        c := Rotate(30, b);
        b := a;
        a := temp;
      }
      for t := 40 to 60
        invariant Hash(a, b, c, d, e) == Rounds(h, block, t)
      {
        var temp := Sum(Rotate(5, a), Majority(b, c, d), e, w[t], 0x8F1BBCDC);
        e := d;
        d := c;
        c := Rotate(30, b);
        b := a;
        a := temp;
      }
      for t := 60 to 80
        invariant Hash(a, b, c, d, e) == Rounds(h, block, t)
      {
        var temp := Sum(Rotate(5, a), Parity(b, c, d), e, w[t], 0xCA62C1D6);
        e := d;
        d := c;
        c := Rotate(30, b);
        b := a;
        a := temp;
      }
      intermediateHash := Plus(intermediateHash, Hash(a, b, c, d, e));
      messageBlockIndex := 0;
    }

    /** The word schedule of the block. */
    method ExpandBlock() returns (w: seq<Word>)
      requires messageBlock.Length == BLOCK
      ensures |w| == 80 && forall t :: 0 <= t < 80 ==> w[t] == Schedule(messageBlock[..], t)
    {
      hide ToWord, Rotate, Schedule;
      w := [];
      ghost var block := messageBlock[..];
      for t := 0 to 16
        invariant |w| == t && forall k :: 0 <= k < t ==> w[k] == Schedule(block, k)
      {
        ScheduleStep(block, t);
        w := w + [ToWord(messageBlock[t * 4], messageBlock[t * 4 + 1], messageBlock[t * 4 + 2],
                         messageBlock[t * 4 + 3])];
      }
      for t := 16 to 80
        invariant |w| == t && forall k :: 0 <= k < t ==> w[k] == Schedule(block, k)
      {
        ScheduleStep(block, t);
        w := w + [Rotate(1, w[t - 3] ^ w[t - 8] ^ w[t - 14] ^ w[t - 16])];
      }
    }

    lemma ScheduleStep(block: seq<byte>, t: nat)
      requires |block| == BLOCK && t < 80
      ensures Schedule(block, t) ==
              if t < 16 then ToWord(block[4 * t], block[4 * t + 1], block[4 * t + 2], block[4 * t + 3])
              else Rotate(1, Schedule(block, t - 3) ^ Schedule(block, t - 8)
                             ^ Schedule(block, t - 14) ^ Schedule(block, t - 16))
    {
    }

    /** Takes in one octet behind d; the block may be full then. */
    method Put(x: byte, ghost d: seq<byte>)
      requires Holds(d) && messageBlockIndex < BLOCK
      modifies this`messageBlockIndex, messageBlock
      ensures messageBlockIndex == old(messageBlockIndex) + 1 && Holds(d + [x])
    {
      hide Fold;
      ghost var n := |d| - messageBlockIndex;
      messageBlock[messageBlockIndex] := x;
      messageBlockIndex := messageBlockIndex + 1;
      assert (d + [x])[..n] == d[..n] && (d + [x])[n..] == d[n..] + [x];
    }

    /** Puts a full block into the hash. */
    method Flush(ghost d: seq<byte>)
      requires Holds(d) && messageBlockIndex == BLOCK
      modifies this`intermediateHash, this`messageBlockIndex
      ensures Holds(d) && messageBlockIndex == 0
    {
      hide Fold, Compress;
      ghost var n := |d| - BLOCK;
      FoldBlock(d[..n], d[n..]);
      assert d[..n] + d[n..] == d && d[..|d|] == d;
      assert messageBlock[..] == messageBlock[..BLOCK];
      ProcessMessageBlock();
    }

    /** The next octets of the message. A message that is too long, and more
        octets after the result, spoil the context. */
    method Input(messageArray: seq<byte>) returns (status: int)
      requires Valid()
      modifies this, messageBlock
      ensures Valid()
      ensures messageArray == [] ==> status == SUCCESS && corrupted == old(corrupted)
      ensures messageArray != [] && old(computed) ==> status == STATE_ERROR == corrupted
      ensures messageArray != [] && !old(computed) && old(corrupted) != 0 ==> status == corrupted == old(corrupted)
      ensures messageArray != [] && !old(computed) && old(corrupted) == 0 ==>
                && status == SUCCESS
                && (corrupted == 0 <==> |old(message)| + |messageArray| < MAX_MESSAGE)
                && (corrupted == 0 ==> Open() && message == old(message) + messageArray)
      ensures messageArray == [] ==> message == old(message) && computed == old(computed)
    {
      hide Holds, Fold, Pad;
      if messageArray == [] {
        return SUCCESS;
      }
      if computed {
        corrupted := STATE_ERROR;
        return STATE_ERROR;
      }
      if corrupted != 0 {
        return corrupted;
      }
      for i := 0 to |messageArray|
        invariant corrupted == 0 && Open() && message == old(message) + messageArray[..i]
      {
        InputOctet(messageArray[i]);
        assert message == old(message) + messageArray[..i + 1];
        if corrupted != 0 {
          return SUCCESS;
        }
      }
      return SUCCESS;
    }

    /** The length after one more octet; past the longest message the context is spoilt. */
    method AddLength(ghost n: nat)
      requires n < MAX_MESSAGE && corrupted == 0
      requires lengthLow < 0x1_0000_0000 && lengthHigh * 0x1_0000_0000 + lengthLow == 8 * n
      modifies this`lengthLow, this`lengthHigh, this`corrupted
      ensures corrupted == if n + 1 < MAX_MESSAGE then 0 else TOO_LONG
      ensures corrupted == 0 ==> lengthLow < 0x1_0000_0000 && lengthHigh * 0x1_0000_0000 + lengthLow == 8 * (n + 1)
    {
      lengthLow := (lengthLow + 8) % 0x1_0000_0000;
      if lengthLow == 0 {
        lengthHigh := (lengthHigh + 1) % 0x1_0000_0000;
        if lengthHigh == 0 {
          corrupted := TOO_LONG;
        }
      }
    }

    method InputOctet(x: byte)
      requires Open()
      modifies this`messageBlockIndex, this`lengthLow, this`lengthHigh, this`corrupted, this`intermediateHash
      modifies this`message, messageBlock
      ensures messageBlock.Length == BLOCK && message == old(message) + [x] && !computed
      ensures if |message| < MAX_MESSAGE then Open() else corrupted == TOO_LONG
    {
      assert messageBlock.Length == BLOCK;
      hide Holds, Fold, Pad;
      ghost var d := message + [x];
      Put(x, message);
      AddLength(|message|);
      message := d;
      if messageBlockIndex == BLOCK {
        Flush(d);
      }
    }

    /** Fills the block up to `end` with zeros. */
    method PutZeros(end: nat, ghost d: seq<byte>)
      requires Holds(d) && messageBlockIndex <= end <= BLOCK
      modifies this`messageBlockIndex, messageBlock
      ensures messageBlockIndex == end && Holds(d + Zeros(end - old(messageBlockIndex)))
    {
      hide Holds;
      ghost var start := messageBlockIndex;
      assert d + Zeros(0) == d;
      while messageBlockIndex < end
        invariant start <= messageBlockIndex <= end && Holds(d + Zeros(messageBlockIndex - start))
      {
        ghost var n := messageBlockIndex - start;
        Put(0, d + Zeros(n));
        assert d + Zeros(n) + [0] == d + Zeros(n + 1);
      }
    }

    /** Pads the message and mixes in what is left of it. */
    method PadMessage()
      requires Open()
      modifies this`intermediateHash, this`messageBlockIndex, messageBlock
      ensures intermediateHash == Fold(Pad(message))
    {
      hide Holds, Pad, Fold;
      ghost var n, i := |message|, messageBlockIndex;
      assert i == n % BLOCK by { IndexIs(); }
      ghost var d := message + [0x80];
      if messageBlockIndex > 55 {
        Put(0x80, message);
        PutZeros(BLOCK, d);
        d := d + Zeros(63 - i);
        Flush(d);
        PutZeros(56, d);
        assert d + Zeros(56) == message + [0x80] + Zeros(Fill(n));
        d := d + Zeros(56);
      } else {
        Put(0x80, message);
        PutZeros(56, d);
        d := d + Zeros(55 - i);
        assert d == message + [0x80] + Zeros(Fill(n));
      }
      StoreLength(d);
    }

    lemma IndexIs()
      requires Open()
      ensures messageBlockIndex == |message| % BLOCK
    {
      hide Fold;
      RestOfBlocks(|message|, messageBlockIndex);
    }

    /** Puts the length of the message behind its padding. */
    method StoreLength(ghost d: seq<byte>)
      requires Holds(d) && messageBlockIndex == 56 && d == message + [0x80] + Zeros(Fill(|message|))
      requires lengthLow < 0x1_0000_0000 && lengthHigh < 0x1_0000_0000
      requires lengthHigh * 0x1_0000_0000 + lengthLow == 8 * |message|
      modifies this`intermediateHash, this`messageBlockIndex, messageBlock
      ensures intermediateHash == Fold(Pad(message))
    {
      hide Fold, Octets, Compress;
      ghost var n := |d| - 56;
      PutLength();
      ghost var last := Octets(8 * |message|, 8);
      assert messageBlock[..56] == d[n..] && messageBlock[..] == d[n..] + last;
      FoldBlock(d[..n], d[n..] + last);
      assert Pad(message) == d[..n] + (d[n..] + last);
      ProcessMessageBlock();
    }

    /** Puts the two length words at the end of the block. */
    method PutLength()
      requires messageBlock.Length == BLOCK && lengthLow < 0x1_0000_0000 && lengthHigh < 0x1_0000_0000
      modifies messageBlock
      ensures messageBlock[..56] == old(messageBlock[..56])
      ensures messageBlock[..] == messageBlock[..56] + Octets(lengthHigh * 0x1_0000_0000 + lengthLow, 8)
    {
      hide Octets;
      LengthOctets(lengthHigh, lengthLow);
      messageBlock[56] := lengthHigh / 0x1000000 % 0x100;
      messageBlock[57] := lengthHigh / 0x10000 % 0x100;
      messageBlock[58] := lengthHigh / 0x100 % 0x100;
      messageBlock[59] := lengthHigh % 0x100;
      messageBlock[60] := lengthLow / 0x1000000 % 0x100;
      messageBlock[61] := lengthLow / 0x10000 % 0x100;
      messageBlock[62] := lengthLow / 0x100 % 0x100;
      messageBlock[63] := lengthLow % 0x100;
    }

    /** The digest of the whole message, however it was cut into calls. Asking
        again gives it again. */
    method Result() returns (status: int, digest: seq<byte>)
      requires Valid()
      modifies this, messageBlock
      ensures Valid() && corrupted == old(corrupted)
      ensures if old(corrupted) != 0 then status == old(corrupted) && digest == []
              else status == SUCCESS && digest == Sha1(old(message)) && computed && message == old(message)
    {
      hide Fold, Pad, Holds, WordOctets;
      if corrupted != 0 {
        return corrupted, [];
      }
      if !computed {
        PadMessage();
        for i := 0 to BLOCK
          invariant intermediateHash == Fold(Pad(message)) && message == old(message)
          invariant messageBlock.Length == BLOCK && corrupted == 0
        {
          messageBlock[i] := 0;
        }
        lengthLow, lengthHigh, computed := 0, 0, true;
      }
      return SUCCESS, Digest(intermediateHash);
    }
  }

  /** Hashes a message that comes in pieces. */
  method HashPieces(pieces: seq<seq<byte>>) returns (digest: seq<byte>)
    requires |Flatten(pieces)| < MAX_MESSAGE
    ensures digest == Sha1(Flatten(pieces))
  {
    hide Sha1, Fold, Pad, SHA1Context.Holds;
    var c := new SHA1Context();
    for i := 0 to |pieces|
      invariant c.Open() && c.message == Flatten(pieces[..i]) && fresh(c) && fresh(c.messageBlock)
    {
      assert pieces[..i + 1] == pieces[..i] + [pieces[i]];
      FlattenSnoc(pieces[..i], pieces[i]);
      FrontShorter(pieces, i + 1);
      assert Flatten(pieces[..i]) + [] == Flatten(pieces[..i]);
      var _ := c.Input(pieces[i]);
    }
    assert pieces[..|pieces|] == pieces;
    var _, d := c.Result();
    digest := d;
  }

  lemma {:induction false} FrontShorter(pieces: seq<seq<byte>>, k: nat)
    requires k <= |pieces|
    ensures |Flatten(pieces[..k])| <= |Flatten(pieces)|
  {
    if k > 0 {
      FrontShorter(pieces[1..], k - 1);
      assert pieces[..k][1..] == pieces[1..][..k - 1];
    }
  }
}
