/** Which messages the echo service answers: what it makes of the cuts between
    reads, and of bytes that were read before it began. */
module EchoTheorems {
  import opened Bytes
  import opened WebSocketSpec
  import opened WebSocketTheorems

  /** How much one read takes at most. */
  const READ_SIZE: nat := 65536

  predicate Good(b: seq<byte>) {
    Decode(IDLE, b).verdict == Accepting
  }

  /** The messages in b. */
  function Out(b: seq<byte>): seq<Message> {
    Decode(IDLE, b).out
  }

  /** Those that are sent back. */
  function Echoes(b: seq<byte>): seq<Message> {
    EchoedOnly(Out(b))
  }

  ghost predicate Readable(pieces: seq<seq<byte>>) {
    forall i :: 0 <= i < |pieces| ==> 1 <= |pieces[i]| <= READ_SIZE
  }

  /** Some reads that bring b. */
  ghost predicate Cuts(b: seq<byte>, pieces: seq<seq<byte>>) {
    Readable(pieces) && Flatten(pieces) == b
  }

  /** The messages that are answered when the bytes come in these pieces: those
      in the pieces in front of the one that shows a fault. */
  function Answers(pieces: seq<seq<byte>>): seq<Message>
    decreases |pieces|
  {
    if Good(Flatten(pieces)) then Out(Flatten(pieces))
    else if pieces == [] then []
    else Answers(pieces[..|pieces| - 1])
  }

  lemma GoodIs(b: seq<byte>)
    ensures (Good(b) <==> Decode(IDLE, b).verdict == Accepting) && Out(b) == Decode(IDLE, b).out
  {
  }

  // Bytes in front of others.

  lemma NothingGood()
    ensures Good([]) && Out([]) == []
  {
  }

  lemma GoodFront(a: seq<byte>, b: seq<byte>)
    ensures Good(a + b) ==> Good(a)
    ensures Out(a) <= Out(a + b) && (!Good(a) ==> Out(a + b) == Out(a))
  {
    hide Decode;
    FeedInTwo(IDLE, a, b);
  }

  lemma EchoesFront(a: seq<byte>, b: seq<byte>)
    ensures Echoes(a) <= Echoes(a + b) && (Out(a + b) == Out(a) ==> Echoes(a + b) == Echoes(a))
  {
    hide Out;
    GoodFront(a, b);
    EchoedSum(Out(a), Out(a + b)[|Out(a)|..]);
    assert Out(a) + Out(a + b)[|Out(a)|..] == Out(a + b);
  }

  lemma FlattenSum(a: seq<seq<byte>>, b: seq<seq<byte>>)
    ensures Flatten(a + b) == Flatten(a) + Flatten(b)
    decreases |b|
  {
    if b == [] {
      assert a + b == a && Flatten(a) + [] == Flatten(a);
    } else {
      var front, last := b[..|b| - 1], b[|b| - 1];
      FlattenSum(a, front);
      FlattenSnoc(a + front, last);
      FlattenSnoc(front, last);
      assert a + front + [last] == a + b && front + [last] == b;
      ConcatAssociative(Flatten(a), Flatten(front), last);
    }
  }

  lemma AnswersGood(pieces: seq<seq<byte>>)
    requires Good(Flatten(pieces))
    ensures Answers(pieces) == Out(Flatten(pieces))
  {
  }

  // The cuts.

  /** How many octets it takes to show the fault. */
  function FaultAt(b: seq<byte>): (k: nat)
    requires !Good(b)
    ensures 0 < k <= |b| && !Good(b[..k]) && Good(b[..k - 1])
    decreases |b|
  {
    hide Good;
    NothingGood();
    assert b != [] && b[..|b|] == b;
    var front := b[..|b| - 1];
    if Good(front) then |b|
    else
      assert forall k :: 0 <= k <= |front| ==> front[..k] == b[..k];
      FaultAt(front)
  }

  /** Which piece shows the fault. */
  lemma {:induction false} FaultyPiece(pieces: seq<seq<byte>>) returns (n: nat)
    requires !Good(Flatten(pieces))
    ensures n < |pieces| && Good(Flatten(pieces[..n])) && !Good(Flatten(pieces[..n]) + pieces[n])
    ensures Answers(pieces) == Out(Flatten(pieces[..n]))
    decreases |pieces|
  {
    hide Good, Out;
    NothingGood();
    var front, last := pieces[..|pieces| - 1], pieces[|pieces| - 1];
    assert front + [last] == pieces;
    FlattenSnoc(front, last);
    if Good(Flatten(front)) {
      n := |front|;
    } else {
      n := FaultyPiece(front);
      assert pieces[..n] == front[..n];
    }
  }

  /** What comes behind a fault is not answered. */
  lemma {:induction false} AnswersPast(pieces: seq<seq<byte>>, more: seq<seq<byte>>)
    requires !Good(Flatten(pieces))
    ensures !Good(Flatten(pieces + more)) && Answers(pieces + more) == Answers(pieces)
    decreases |more|
  {
    hide Good, Out;
    FlattenSum(pieces, more);
    GoodFront(Flatten(pieces), Flatten(more));
    if more == [] {
      assert pieces + more == pieces;
    } else {
      var front := more[..|more| - 1];
      AnswersPast(pieces, front);
      assert (pieces + more)[..|pieces + more| - 1] == pieces + front;
    }
  }

  /** The first place where the read that shows the fault can begin. */
  function EarliestRead(b: seq<byte>): (j: nat)
    requires !Good(b)
    ensures j < FaultAt(b) <= j + READ_SIZE
  {
    Max(0, FaultAt(b) - READ_SIZE)
  }

  /** When the cuts between reads make no difference to what is sent back:
      always if all is accepted, and otherwise exactly if no message that is
      sent back ends within one read of the fault. */
  lemma CutsAgree(b: seq<byte>)
    ensures Good(b) ==> forall pieces: seq<seq<byte>> :: Flatten(pieces) == b ==> Answers(pieces) == Out(b)
    ensures !Good(b) ==>
              ((forall pieces :: Cuts(b, pieces) ==> EchoedOnly(Answers(pieces)) == Echoes(b))
               <==> Echoes(b[..EarliestRead(b)]) == Echoes(b))
  {
    hide Good, Echoes, Out, FaultAt, EarliestRead;
    if !Good(b) {
      if Echoes(b[..EarliestRead(b)]) == Echoes(b) {
        forall pieces | Cuts(b, pieces) ensures EchoedOnly(Answers(pieces)) == Echoes(b) {
          LateAnswers(b, pieces);
        }
      } else {
        var pieces := Latest(b);
        assert Cuts(b, pieces) && EchoedOnly(Answers(pieces)) != Echoes(b);
      }
    }
  }

  lemma LateAnswers(b: seq<byte>, pieces: seq<seq<byte>>)
    requires !Good(b) && Cuts(b, pieces)
    ensures Echoes(b[..EarliestRead(b)]) <= EchoedOnly(Answers(pieces)) <= Echoes(b)
  {
    hide Good, Out, Echoes, Answers;
    var n := FaultyPiece(pieces);
    var f := Flatten(pieces[..n]);
    FlattenAt(pieces, n);
    FaultAround(b, f, pieces[n], Flatten(pieces[n + 1..]));
    EchoesAre(f);
  }

  lemma FlattenAt(pieces: seq<seq<byte>>, n: nat)
    requires n < |pieces|
    ensures Flatten(pieces) == Flatten(pieces[..n]) + pieces[n] + Flatten(pieces[n + 1..])
  {
    hide Flatten;
    SplitAt(pieces, n);
    FlattenSum(pieces[..n] + [pieces[n]], pieces[n + 1..]);
    FlattenSnoc(pieces[..n], pieces[n]);
  }

  lemma SplitAt<T>(s: seq<T>, n: nat)
    requires n < |s|
    ensures s == s[..n] + [s[n]] + s[n + 1..]
  {
  }

  lemma FaultAround(b: seq<byte>, f: seq<byte>, read: seq<byte>, rest: seq<byte>)
    requires !Good(b) && b == f + read + rest && Good(f) && !Good(f + read) && |read| <= READ_SIZE
    ensures Echoes(b[..EarliestRead(b)]) <= Echoes(f) <= Echoes(b)
  {
    hide Good, Out, Echoes;
    var j := EarliestRead(b);
    ConcatAssociative(f, read, rest);
    OnlyBehind(b, f);
    NotInFront(b, f + read);
    assert b[..j] == f[..j] && f[..j] + f[j..] == f;
    EchoesFront(f[..j], f[j..]);
    EchoesFront(f, read + rest);
  }

  lemma EchoesAre(b: seq<byte>)
    ensures Echoes(b) == EchoedOnly(Out(b))
  {
  }

  lemma OnlyBehind(b: seq<byte>, f: seq<byte>)
    requires !Good(b) && f <= b && Good(f)
    ensures |f| < FaultAt(b)
  {
    hide Good;
    var k := FaultAt(b);
    if |f| >= k {
      assert f[..k] + f[k..] == f && f[..k] == b[..k];
      GoodFront(f[..k], f[k..]);
    }
  }

  lemma NotInFront(b: seq<byte>, f: seq<byte>)
    requires !Good(b) && f <= b && !Good(f)
    ensures FaultAt(b) <= |f|
  {
    hide Good;
    var k := FaultAt(b);
    if |f| < k {
      assert b[..k - 1] == f + b[|f|..k - 1];
      GoodFront(f, b[|f|..k - 1]);
    }
  }

  /** Octet by octet. */
  function Singles(b: seq<byte>): (pieces: seq<seq<byte>>)
    ensures |pieces| == |b| && Readable(pieces)
  {
    seq(|b|, i requires 0 <= i < |b| => [b[i]])
  }

  lemma {:induction false} SinglesMakeUp(b: seq<byte>)
    ensures Flatten(Singles(b)) == b
    decreases |b|
  {
    if b != [] {
      var front := b[..|b| - 1];
      SinglesMakeUp(front);
      FlattenSnoc(Singles(front), [b[|b| - 1]]);
      assert Singles(front) + [[b[|b| - 1]]] == Singles(b);
    }
  }

  /** The cut that answers least: one read up to the fault and as far back as
      a read goes. */
  function Latest(b: seq<byte>): (pieces: seq<seq<byte>>)
    requires !Good(b)
    ensures Cuts(b, pieces) && EchoedOnly(Answers(pieces)) == Echoes(b[..EarliestRead(b)])
  {
    var j, k := EarliestRead(b), FaultAt(b);
    LatestIs(b);
    Singles(b[..j]) + [b[j..k]] + Singles(b[k..])
  }

  lemma LatestIs(b: seq<byte>)
    requires !Good(b)
    ensures var j, k := EarliestRead(b), FaultAt(b);
            var pieces := Singles(b[..j]) + [b[j..k]] + Singles(b[k..]);
            Cuts(b, pieces) && EchoedOnly(Answers(pieces)) == Echoes(b[..j])
  {
    hide Good, Out, Echoes, Answers, Singles;
    var j, k := EarliestRead(b), FaultAt(b);
    SinglesMakeUp(b[..j]);
    SinglesMakeUp(b[k..]);
    Slices(b, j, k);
    GoodFront(b[..j], b[j..k - 1]);
    ReadAcross(Singles(b[..j]), b[j..k], Singles(b[k..]));
    EchoesAre(b[..j]);
  }

  lemma Slices(b: seq<byte>, j: nat, k: nat)
    requires j < k <= |b|
    ensures b[..j] + b[j..k] == b[..k] && b[..k] + b[k..] == b && b[..j] + b[j..k - 1] == b[..k - 1]
  {
  }

  lemma ReadAcross(front: seq<seq<byte>>, read: seq<byte>, rest: seq<seq<byte>>)
    requires Good(Flatten(front)) && !Good(Flatten(front) + read)
    requires Readable(front) && Readable(rest) && 1 <= |read| <= READ_SIZE
    ensures Cuts(Flatten(front) + read + Flatten(rest), front + [read] + rest)
    ensures Answers(front + [read] + rest) == Out(Flatten(front))
  {
    hide Good, Out, Answers;
    FlattenSum(front + [read], rest);
    AnswersStop(front, read);
    FlattenSnoc(front, read);
    AnswersPast(front + [read], rest);
  }

  lemma AnswersStop(front: seq<seq<byte>>, read: seq<byte>)
    requires Good(Flatten(front)) && !Good(Flatten(front) + read)
    ensures !Good(Flatten(front + [read])) && Answers(front + [read]) == Out(Flatten(front))
  {
    hide Good, Out;
    FlattenSnoc(front, read);
    assert (front + [read])[..|front|] == front;
  }

  /** Octet by octet every message is answered. */
  lemma ByteByByte(b: seq<byte>)
    ensures Answers(Singles(b)) == Out(b)
  {
    hide Out, Good;
    SinglesMakeUp(b);
    if !Good(b) {
      var n := FaultyPiece(Singles(b));
      var front := b[..n];
      assert Singles(b)[..n] == Singles(front);
      SinglesMakeUp(front);
      FaultSilent(front, b[n]);
      assert b == front + [b[n]] + b[n + 1..];
      GoodFront(front + [b[n]], b[n + 1..]);
    }
  }

  /** The octet that shows a fault completes no message. */
  lemma FaultSilent(a: seq<byte>, x: byte)
    requires Good(a) && !Good(a + [x])
    ensures Out(a + [x]) == Out(a)
  {
    hide Decode;
    FeedInTwo(IDLE, a, [x]);
    LeftOver(IDLE, a);
    var d := Decode(IDLE, a);
    OneMore(d.state, d.buffer, x);
    assert d.out + [] == d.out;
  }

  lemma OneMore(s: State, u: seq<byte>, x: byte)
    requires ScanFrame(u) == Incomplete && Decode(s, u + [x]).verdict != Accepting
    ensures Decode(s, u + [x]).out == []
  {
    hide React;
    var w := u + [x];
    if ScanFrame(w).Complete? && React(s, ScanFrame(w).frame).Continue? {
      WholeAtLast(u, [x]);
    }
  }

  /** A frame that the bytes added complete reaches into them. */
  lemma WholeAtLast(u: seq<byte>, added: seq<byte>)
    requires ScanFrame(u) == Incomplete && ScanFrame(u + added).Complete?
    ensures ScanFrame(u + added).size > |u|
  {
    hide PayloadLength;
    if ScanFrame(u + added).size <= |u| {
      LengthWithin(u, added);
    }
  }

  lemma LengthWithin(u: seq<byte>, added: seq<byte>)
    requires |u| >= 2 && PayloadLength(u + added).Known? && PayloadLength(u + added).offset <= |u|
    ensures PayloadLength(u) == PayloadLength(u + added)
  {
    var w := u + added;
    assert |u| >= 4 ==> w[2..4] == u[2..4];
    assert |u| >= 10 ==> w[2..10] == u[2..10];
  }

  /** Read at once or octet by octet: the same is sent back if and only if all
      is accepted, or nothing in it is to be sent back. */
  lemma OneReadIff(b: seq<byte>)
    ensures EchoedOnly(Answers([b])) == EchoedOnly(Answers(Singles(b))) <==> Good(b) || Echoes(b) == []
  {
    hide Good, Out, Answers;
    ByteByByte(b);
    EchoesAre(b);
    NothingGood();
    assert Flatten([b]) == b by { assert [b][1..] == [] && b + [] == b; }
    if Good(b) {
      AnswersGood([b]);
    } else {
      assert [] + [b] == [b] && [] + b == b;
      AnswersStop([], b);
    }
  }

  // Bytes that were read before the service began, and that it does not see.

  /** The client gets back the same whether or not `early` is left out. */
  predicate Same(early: seq<byte>, rest: seq<byte>) {
    Echoes(early + rest) == Echoes(rest) && (Good(early + rest) <==> Good(rest))
  }

  /** Whole frames, with no message begun or left to be sent back. */
  predicate Harmless(early: seq<byte>) {
    var d := Decode(IDLE, early);
    d.verdict == Accepting && d.state == IDLE && d.buffer == [] && EchoedOnly(d.out) == []
  }

  /** Leaving bytes out does no harm, whatever follows, if and only if they are
      whole frames without a message that would be sent back. */
  lemma EarlyIff(early: seq<byte>)
    ensures (forall rest: seq<byte> :: Same(early, rest)) <==> Harmless(early)
  {
    hide Same, Harmless;
    if Harmless(early) {
      forall rest: seq<byte> ensures Same(early, rest) {
        HarmlessSame(early, rest);
      }
    } else {
      var rest := Harm(early);
      assert !Same(early, rest);
    }
  }

  /** Whole frames may be left out exactly if nothing in them is sent back. */
  lemma WholeEarly(early: seq<byte>, rest: seq<byte>)
    requires var d := Decode(IDLE, early); d.verdict == Accepting && d.state == IDLE && d.buffer == []
    ensures Same(early, rest) <==> Echoes(early) == []
    ensures Good(early + rest) <==> Good(rest)
  {
    hide Decode;
    FeedInTwo(IDLE, early, rest);
    assert [] + rest == rest;
    EchoedSum(Out(early), Out(rest));
    assert Echoes(early + rest) == Echoes(early) + Echoes(rest);
    assert Echoes(early) == [] ==> [] + Echoes(rest) == Echoes(rest);
  }

  lemma HarmlessSame(early: seq<byte>, rest: seq<byte>)
    requires Harmless(early)
    ensures Same(early, rest)
  {
    hide Decode;
    WholeEarly(early, rest);
  }

  const KEY: seq<byte> := [0, 0, 0, 0]

  /** A whole message without any content. */
  function Empty(opcode: byte): (b: seq<byte>)
    requires opcode < 0x10
  {
    EncodeFrame(Frame(true, opcode, KEY, []))
  }

  lemma EmptyFrame(opcode: byte, s: State)
    requires opcode <= BINARY
    ensures ScanFrame(Empty(opcode)) == Complete(Frame(true, opcode, KEY, []), |Empty(opcode)|)
    ensures Decode(s, Empty(opcode))
            == if (opcode != CONTINUATION && s.current != []) || |s.current| > MAX_MESSAGE
               then Decoded([], Rejected, s, Empty(opcode))
               else Decoded([Message(if opcode == CONTINUATION then s.opcode else opcode, s.current)],
                            Accepting, IDLE, [])
  {
    hide ScanFrame, EncodeFrame, Mask;
    var f, b := Frame(true, opcode, KEY, []), Empty(opcode);
    FrameRead(f, []);
    assert b + [] == b && b[|b|..] == [];
    assert s.current + Mask([], KEY) == s.current;
    NothingScanned();
  }

  lemma NothingScanned()
    ensures ScanFrame([]) == Incomplete
  {
  }

  lemma {:induction false} OpcodeBounded(s: State, b: seq<byte>)
    requires s.opcode <= BINARY
    ensures Decode(s, b).state.opcode <= BINARY
    decreases |b|
  {
    hide ScanFrame, Mask;
    if ScanFrame(b).Complete? && React(s, ScanFrame(b).frame).Continue? {
      OpcodeBounded(React(s, ScanFrame(b).frame).state, b[ScanFrame(b).size..]);
    }
  }

  /** Otherwise there is something that shows the difference. */
  lemma Harm(early: seq<byte>) returns (rest: seq<byte>)
    requires !Harmless(early)
    ensures !Same(early, rest)
  {
    hide Decode, EchoedOnly;
    var d := Decode(IDLE, early);
    NothingGood();
    assert EchoedOnly([]) == [] by { EchoesNone(); }
    if d.verdict != Accepting || EchoedOnly(d.out) != [] {
      assert early + [] == early;
      return [];
    }
    LeftOver(IDLE, early);
    if d.buffer == [] {
      rest := HarmBegun(early);
    } else {
      rest := HarmInFrame(d.state, d.buffer);
      FeedInTwo(IDLE, early, rest);
    }
  }

  lemma EchoesNone()
    ensures EchoedOnly([]) == []
  {
  }

  /** Bytes that end in the middle of a message. */
  lemma HarmBegun(early: seq<byte>) returns (rest: seq<byte>)
    requires var d := Decode(IDLE, early);
             d.verdict == Accepting && d.buffer == [] && d.state != IDLE && EchoedOnly(d.out) == []
    ensures !Same(early, rest)
  {
    hide Decode, Empty;
    var s := Decode(IDLE, early).state;
    OpcodeBounded(IDLE, early);
    rest := Empty(if s.current != [] then TEXT else CONTINUATION);
    FeedInTwo(IDLE, early, rest);
    assert [] + rest == rest;
    if s.current != [] {
      EmptyFrame(TEXT, s);
      EmptyFrame(TEXT, IDLE);
    } else {
      EmptyFrame(CONTINUATION, s);
      EmptyFrame(CONTINUATION, IDLE);
      EchoedSum(Decode(IDLE, early).out, [Message(s.opcode, [])]);
      OneEchoed(Message(s.opcode, []));
      OneEchoed(Message(0, []));
    }
  }

  lemma OneEchoed(m: Message)
    ensures EchoedOnly([m]) == if Echoed(m) then [m] else []
  {
    assert [m][1..] == [];
  }

  // Two octets that are no frame on their own, and two that begin one.

  const FAULTY: seq<byte> := [0, 0]
  const STARTING: seq<byte> := [0x81, 0x81]

  lemma TwoOctets()
    ensures !Good(FAULTY) && Good(STARTING)
  {
  }

  /** Bytes that end in the middle of a frame. */
  lemma HarmInFrame(s: State, u: seq<byte>) returns (rest: seq<byte>)
    requires u != [] && ScanFrame(u) == Incomplete
    ensures Decode(s, u + rest).verdict == Accepting <==> !Good(rest)
  {
    hide Decode, Good;
    TwoOctets();
    if |u| == 1 {
      rest := HarmInHeader(s, u[0]);
      assert u == [u[0]];
    } else {
      hide ScanFrame, React;
      match ScanFrame(u + FAULTY)
      case Incomplete =>
        Waits(s, u + FAULTY);
        return FAULTY;
      case Invalid =>
        TooLongTwice(u);
        Fails(s, u + STARTING);
        return STARTING;
      case Complete(frame, size) =>
        SameFrame(u, FAULTY, STARTING);
        if React(s, frame).Continue? {
          GoesOn(s, u, FAULTY);
          return FAULTY;
        } else {
          SameReaction(s, frame, ScanFrame(u + STARTING).frame);
          Fails(s, u + STARTING);
          return STARTING;
        }
    }
  }

  lemma Waits(s: State, b: seq<byte>)
    requires ScanFrame(b) == Incomplete
    ensures Decode(s, b) == Decoded([], Accepting, s, b)
  {
  }

  lemma Fails(s: State, b: seq<byte>)
    requires ScanFrame(b) == Invalid || (ScanFrame(b).Complete? && !React(s, ScanFrame(b).frame).Continue?)
    ensures Decode(s, b).verdict != Accepting
  {
  }

  lemma GoesOn(s: State, u: seq<byte>, two: seq<byte>)
    requires |two| == 2 && ScanFrame(u) == Incomplete && ScanFrame(u + two).Complete?
    requires React(s, ScanFrame(u + two).frame).Continue?
    ensures Decode(s, u + two).verdict == Accepting
  {
    WholeAtLast(u, two);
    var f, size := ScanFrame(u + two).frame, ScanFrame(u + two).size;
    var left := (u + two)[size..];
    hide ScanFrame;
    Waits(React(s, f).state, left) by {
      assert |left| < 2;
      FewOctets(left);
    }
  }

  lemma FewOctets(b: seq<byte>)
    requires |b| < 2
    ensures ScanFrame(b) == Incomplete
  {
  }

  /** With one octet of a frame: the mask bit is what the second octet needs,
      and what would make the third one faulty as a second. */
  lemma HarmInHeader(s: State, first: byte) returns (rest: seq<byte>)
    ensures Decode(s, [first] + rest).verdict == Accepting <==> !Good(rest)
  {
    if first / 0x10 % 8 != 0 {
      rest := STARTING;
      TwoOctets();
      assert ScanFrame([first] + rest) == Invalid;
    } else {
      rest := [0x80, 0];
      assert ScanFrame(rest) == Invalid;
      var b := [first] + rest;
      assert b[0] == first && b[1] == 0x80;
      assert ScanFrame(b) == Incomplete;
    }
  }

  lemma SameFrame(u: seq<byte>, a: seq<byte>, b: seq<byte>)
    requires |u| >= 2 && ScanFrame(u) == Incomplete && ScanFrame(u + a).Complete? && |a| == |b| == 2
    ensures ScanFrame(u + b).Complete?
    ensures var f, g := ScanFrame(u + a).frame, ScanFrame(u + b).frame;
            f.fin == g.fin && f.opcode == g.opcode && |f.payload| == |g.payload|
  {
    hide PayloadLength;
    LengthWithin(u, a);
    LengthStable(u, b);
  }

  lemma SameReaction(s: State, f: Frame, g: Frame)
    requires |f.key| == |g.key| == 4 && f.fin == g.fin && f.opcode == g.opcode && |f.payload| == |g.payload|
    ensures React(s, f).Continue? <==> React(s, g).Continue?
  {
  }

  lemma TooLongTwice(u: seq<byte>)
    requires |u| >= 2 && ScanFrame(u) == Incomplete && ScanFrame(u + FAULTY) == Invalid
    ensures ScanFrame(u + STARTING) == Invalid
  {
    hide BigEndian;
    var z, w := u + FAULTY, u + STARTING;
    assert PayloadLength(z) == TooLong;
    if PayloadLength(u) != Short {
      LengthStable(u, FAULTY);
    }
    if |u| >= 4 {
      assert z[2..4] == u[2..4] == w[2..4];
    } else {
      TwoAtMost(z[2..4]);
    }
    if |u| == 8 {
      OneMoreOctet(u[2..8], 0);
      OneMoreOctet(u[2..8] + [0], 0);
      OneMoreOctet(u[2..8], 0x81);
      OneMoreOctet(u[2..8] + [0x81], 0x81);
      assert z[2..10] == u[2..8] + [0] + [0] && w[2..10] == u[2..8] + [0x81] + [0x81];
    } else if |u| == 9 {
      OneMoreOctet(u[2..9], 0);
      OneMoreOctet(u[2..9], 0x81);
      assert z[2..10] == u[2..9] + [0] && w[2..10] == u[2..9] + [0x81];
    }
  }

  lemma OneMoreOctet(a: seq<byte>, x: byte)
    ensures BigEndian(a + [x]) == BigEndian(a) * 0x100 + x
  {
    assert (a + [x])[..|a|] == a;
  }

  lemma TwoAtMost(a: seq<byte>)
    requires |a| == 2
    ensures BigEndian(a) < 0x10000
  {
    assert a[..1] == [a[0]] && [a[0]][..0] == [];
    assert BigEndian([a[0]]) == a[0];
  }

  /** One octet is enough: without its first octet a short final frame is
      refused, together with all that follows, if its key does not happen to
      look like a mask bit. */
  lemma FirstOctetLost(f: Frame, rest: seq<byte>)
    requires WellFormed(f) && f.fin && f.opcode in {TEXT, BINARY} && |f.payload| < 126 && f.key[0] < 0x80
    ensures Decode(IDLE, EncodeFrame(f) + rest)
            == Decode(IDLE, rest).Prepend([Message(f.opcode, Mask(f.payload, f.key))])
    ensures ScanFrame(EncodeFrame(f)[..1]) == Incomplete && EncodeFrame(f)[..1] + EncodeFrame(f)[1..] == EncodeFrame(f)
    ensures Decode(IDLE, EncodeFrame(f)[1..] + rest).verdict == Rejected && Out(EncodeFrame(f)[1..] + rest) == []
  {
    FrameRead(f, rest);
    var b := EncodeFrame(f)[1..] + rest;
    assert b[1] == f.key[0];
    assert [] + Mask(f.payload, f.key) == Mask(f.payload, f.key);
  }

  lemma AnswersWithin(pieces: seq<seq<byte>>)
    ensures Answers(pieces) <= Out(Flatten(pieces))
  {
    hide Good, Out;
    if !Good(Flatten(pieces)) {
      var n := FaultyPiece(pieces);
      FlattenAt(pieces, n);
      ConcatAssociative(Flatten(pieces[..n]), pieces[n], Flatten(pieces[n + 1..]));
      GoodFront(Flatten(pieces[..n]), pieces[n] + Flatten(pieces[n + 1..]));
    }
  }
}

/** The echo service behind an upgraded connection. */
module EchoService {
  import opened Bytes
  import opened Connections
  import opened WebSocketSpec
  import opened WebSockets
  import opened WebSocketTheorems
  import opened EchoTheorems
  import opened SocketBuffers

  function Shifted(n: nat, k: nat): nat {
    if k == 0 then n else Shifted(n, k - 1) / 0x100
  }

  method MakeFrame(opcode: byte, data: seq<byte>) returns (frame: seq<byte>)
    requires |data| < 0x1_0000_0000_0000_0000
    ensures frame == ServerFrame(opcode, data)
  {
    var len := |data|;
    frame := [0x80 + opcode % 0x10];
    if len < 126 {
      frame := frame + [len];
    } else if len <= 0xffff {
      frame := frame + [126];
      frame := frame + [len / 0x100 % 0x100];
      frame := frame + [len % 0x100];
      assert Octets(len / 0x100, 1) == Octets(len / 0x100 / 0x100, 0) + [len / 0x100 % 0x100];
      assert Octets(len, 2) == [len / 0x100 % 0x100] + [len % 0x100];
    } else {
      frame := frame + [127];
      ghost var front := frame;
      for i := 8 downto 0
        invariant frame == front + Octets(Shifted(len, i), 8 - i)
      {
        frame := frame + [Shifted(len, i) % 0x100];
      }
    }
    frame := frame + data;
  }

  /** Sends back what is to be echoed. */
  method Answer(conn: Connection, messages: seq<Message>)
    requires AllSmall(messages)
    modifies conn`outgoing
    ensures conn.outgoing == old(conn.outgoing) + Echo(messages)
  {
    hide Echo, ServerFrame;
    assert Echo(messages[..0]) == [] by { EchoNothing(); }
    assert conn.outgoing + [] == conn.outgoing;
    for i := 0 to |messages|
      invariant conn.outgoing == old(conn.outgoing) + Echo(messages[..i])
    {
      var msg := messages[i];
      EchoSum(messages[..i], [msg]);
      assert messages[..i + 1] == messages[..i] + [msg];
      EchoOne(msg);
      ConcatAssociative(old(conn.outgoing), Echo(messages[..i]), Echo([msg]));
      if msg.opcode == TEXT || msg.opcode == BINARY {
        var frame := MakeFrame(msg.opcode, msg.payload);
        conn.WriteAll(frame);
      }
    }
    assert messages[..|messages|] == messages;
  }

  lemma EchoNothing()
    ensures Echo([]) == []
  {
  }

  lemma EchoOne(m: Message)
    requires AllSmall([m])
    ensures |m.payload| <= MAX_MESSAGE
    ensures Echo([m]) == if Echoed(m) then ServerFrame(m.opcode, m.payload) else []
    ensures forall s: seq<byte> :: !Echoed(m) ==> s + Echo([m]) == s
  {
    assert [m][0] == m && [m][1..] == [];
  }

  /** The socket that a connection's receive buffer reads from serves the echo:
      what the buffer still holds from the handshake is passed by. The client
      gets the same as if it were not, if that does no harm. */
  method Serve(sockbuff: SocketBuffer) returns (ok: bool, ghost handled: seq<Message>, ghost pieces: seq<seq<byte>>)
    requires sockbuff.Valid() && sockbuff.connected
    modifies sockbuff.sock
    ensures Readable(pieces) && old(sockbuff.sock.incoming) == Flatten(pieces) + sockbuff.sock.incoming
    ensures handled == Answers(pieces) && AllSmall(handled) && handled <= Out(old(sockbuff.sock.incoming))
    ensures ok <==> Good(old(sockbuff.sock.incoming))
    ensures ok ==> sockbuff.sock.incoming == [] && handled == Out(old(sockbuff.sock.incoming))
    ensures sockbuff.sock.outgoing
            == old(sockbuff.sock.outgoing) + Echo(handled) + if ok then [] else ServerFrame(CLOSE, [0x03, 0xe8])
    ensures Harmless(old(sockbuff.Held())) ==>
              && (ok <==> Good(old(sockbuff.Data())))
              && (ok ==> EchoedOnly(handled) == Echoes(old(sockbuff.Data())))
  {
    hide Good, Out, Answers, Harmless, Echo, ServerFrame, AllSmall, EchoedOnly;
    ghost var early, rest := sockbuff.Held(), sockbuff.sock.incoming;
    if Harmless(early) {
      HarmlessSame(early, rest);
    }
    ok, handled, pieces := Converse(sockbuff.sock);
  }

  /** Answers messages until the peer goes away or breaks the protocol. Those
      that came along with the fault are left out: which ones depends on the
      pieces in which the bytes arrived. */
  method Converse(conn: Connection) returns (ok: bool, ghost handled: seq<Message>, ghost pieces: seq<seq<byte>>)
    modifies conn
    ensures Readable(pieces) && old(conn.incoming) == Flatten(pieces) + conn.incoming
    ensures handled == Answers(pieces) && AllSmall(handled) && handled <= Out(old(conn.incoming))
    ensures ok <==> Good(old(conn.incoming))
    ensures ok ==> conn.incoming == [] && handled == Out(old(conn.incoming))
    ensures conn.outgoing == old(conn.outgoing) + Echo(handled) + if ok then [] else ServerFrame(CLOSE, [0x03, 0xe8])
  {
    hide Decode, Echo, ServerFrame, ScanFrame, Flatten, Answers, Good, Out;
    var ws := new WebSocket();
    handled, pieces, ok := [], [], true;
    Beginning();
    ghost var seen: seq<byte> := [];
    assert [] + conn.incoming == conn.incoming && conn.outgoing + [] == conn.outgoing;
    while ok
      invariant fresh(ws) && AllSmall(handled) && Readable(pieces) && seen == Flatten(pieces)
      invariant old(conn.incoming) == seen + conn.incoming && handled == Answers(pieces)
      invariant if ok then
                  !ws.closing && Decode(IDLE, seen) == Decoded(handled, Accepting, ws.State(), ws.buffer)
                else !Good(seen)
      invariant conn.outgoing == old(conn.outgoing) + Echo(handled)
      decreases ok, |conn.incoming|
    {
      var data := conn.Receive(READ_SIZE);
      if data == [] {
        break;
      }
      ghost var before := pieces;
      FlattenSnoc(pieces, data);
      ConcatAssociative(seen, data, conn.incoming);
      FeedInTwo(IDLE, seen, data);
      StaysSmall(IDLE, seen + data);
      pieces, seen := pieces + [data], seen + data;
      var messages;
      ok, messages := ws.Feed(data);
      OneMorePiece(before, data);
      if ok {
        SmallParts(handled, messages);
        Answer(conn, messages);
        EchoSum(handled, messages);
        ConcatAssociative(old(conn.outgoing), Echo(handled), Echo(messages));
        handled := handled + messages;
      }
    }
    GoodIs(seen);
    GoodFront(seen, conn.incoming);
    AnswersWithin(pieces);
    assert ok ==> seen + [] == seen;
    assert conn.outgoing + [] == conn.outgoing;
    if !ok {
      var frame := MakeFrame(CLOSE, [0x03, 0xe8]);
      conn.WriteAll(frame);
    }
  }

  lemma Beginning()
    ensures Flatten<byte>([]) == [] && Echo([]) == [] && Answers([]) == []
    ensures Decode(IDLE, []) == Decoded([], Accepting, IDLE, [])
  {
  }

  lemma OneMorePiece(pieces: seq<seq<byte>>, data: seq<byte>)
    ensures var b := Flatten(pieces) + data;
            && Flatten(pieces + [data]) == b && (Good(b) <==> Decode(IDLE, b).verdict == Accepting)
            && Answers(pieces + [data]) == if Good(b) then Decode(IDLE, b).out else Answers(pieces)
  {
    hide Decode;
    FlattenSnoc(pieces, data);
    assert (pieces + [data])[..|pieces|] == pieces;
  }

  lemma SmallParts(a: seq<Message>, b: seq<Message>)
    requires forall m :: m in a + b ==> |m.payload| <= MAX_MESSAGE
    ensures AllSmall(a) && AllSmall(b)
  {
    assert forall i :: 0 <= i < |b| ==> b[i] in a + b;
    assert forall i :: 0 <= i < |a| ==> a[i] in a + b;
  }

  /** A message that reached the receive buffer along with the handshake is
      among those the client sent, and not among those that are answered. */
  lemma EarlyMessageLost(opcode: byte, parts: seq<Part>, rest: seq<byte>)
    requires opcode in {TEXT, BINARY} && parts != [] && Sendable(parts) && |Text(parts)| <= MAX_MESSAGE
    ensures var early := EncodeFrames(Fragments(opcode, parts));
            && Out(early + rest) == [Message(opcode, Text(parts))] + Out(rest)
            && Echoes(early + rest) == [Message(opcode, Text(parts))] + Echoes(rest)
            && !Same(early, rest)
  {
    hide Decode, Fragments, EncodeFrames, Text;
    MessageArrives(opcode, parts, rest);
    var m := Message(opcode, Text(parts));
    EchoedSum([m], Out(rest));
    OneEchoed(m);
    assert |[m] + Echoes(rest)| == 1 + |Echoes(rest)|;
  }
}
