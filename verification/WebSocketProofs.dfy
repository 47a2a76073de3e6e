/** What the WebSocket decoder guarantees. */
module WebSocketTheorems {
  import opened Bytes
  import opened WebSocketSpec

  lemma LengthStable(a: seq<byte>, b: seq<byte>)
    requires |a| >= 2 && PayloadLength(a) != Short
    ensures PayloadLength(a + b) == PayloadLength(a)
  {
    assert |a| >= 4 ==> (a + b)[2..4] == a[2..4];
    assert |a| >= 10 ==> (a + b)[2..10] == a[2..10];
  }

  /** A frame or a fault that has been seen stays what it is. */
  lemma ScanStable(a: seq<byte>, b: seq<byte>)
    requires ScanFrame(a) != Incomplete
    ensures ScanFrame(a + b) == ScanFrame(a)
  {
    hide PayloadLength;
    if a[0] / 0x10 % 8 == 0 && a[1] >= 0x80 {
      LengthStable(a, b);
      match PayloadLength(a) {
        case Known(n, i) =>
          assert i + 4 + n <= |a|;
          assert (a + b)[i..i + 4] == a[i..i + 4] && (a + b)[i + 4..i + 4 + n] == a[i + 4..i + 4 + n];
        case _ =>
      }
    }
  }

  /** Decoding in two goes. */
  function Then(first: Decoded, b: seq<byte>): Decoded {
    if first.verdict == Accepting then Decode(first.state, first.buffer + b).Prepend(first.out)
    else first.(buffer := first.buffer + b)
  }

  /** It makes no difference where the bytes are split. */
  lemma {:induction false} FeedInTwo(s: State, a: seq<byte>, b: seq<byte>)
    ensures Decode(s, a + b) == Then(Decode(s, a), b)
    decreases |a|
  {
    hide ScanFrame, React;
    match ScanFrame(a)
    case Incomplete =>
      var all := Decode(s, a + b);
      assert [] + all.out == all.out;
    case Invalid =>
      ScanStable(a, b);
    case Complete(frame, size) =>
      ScanStable(a, b);
      if React(s, frame).Continue? {
        var r, rest := React(s, frame), a[size..];
        assert (a + b)[size..] == rest + b;
        FeedInTwo(r.state, rest, b);
        var d := Decode(r.state, rest);
        ConcatAssociative(r.out, d.out, Decode(d.state, d.buffer + b).out);
      }
  }

  /** What an accepting decoder has left over, it has nothing to say about yet. */
  lemma {:induction false} LeftOver(s: State, b: seq<byte>)
    ensures var d := Decode(s, b); d.verdict == Accepting ==> ScanFrame(d.buffer) == Incomplete
    decreases |b|
  {
    if ScanFrame(b).Complete? {
      var r := React(s, ScanFrame(b).frame);
      if r.Continue? {
        LeftOver(r.state, b[ScanFrame(b).size..]);
      }
    }
  }

  /** While the decoder accepts, neither the message under way nor the bytes
      it keeps grow beyond a fixed size. */
  lemma {:induction false} StaysSmall(s: State, b: seq<byte>)
    requires |s.current| <= MAX_MESSAGE
    ensures var d := Decode(s, b);
            d.verdict == Accepting ==> |d.state.current| <= MAX_MESSAGE && |d.buffer| < MAX_MESSAGE + 14
    ensures forall m :: m in Decode(s, b).out ==> |m.payload| <= MAX_MESSAGE
    decreases |b|
  {
    hide PayloadLength, Mask;
    if |b| >= 2 {
      LengthBounded(b);
    }
    if ScanFrame(b).Complete? {
      var r := React(s, ScanFrame(b).frame);
      if r.Continue? {
        StaysSmall(r.state, b[ScanFrame(b).size..]);
      }
    }
  }

  lemma LengthBounded(b: seq<byte>)
    requires |b| >= 2
    ensures match PayloadLength(b)
            case Short => |b| < 10
            case TooLong => true
            case Known(n, i) => n <= MAX_MESSAGE && i <= 10
  {
  }

  // Sending.

  /** The shortest octets for a length; `bit` is the mask bit. */
  function LengthOctets(n: nat, bit: byte): seq<byte>
    requires bit == 0 || bit == 0x80
  {
    if n < 126 then [bit + n]
    else if n < 0x10000 then [bit + 126] + Octets(n, 2)
    else [bit + 127] + Octets(n, 8)
  }

  ghost predicate WellFormed(f: Frame) {
    f.opcode < 0x10 && |f.key| == 4 && |f.payload| < 0x1_0000_0000_0000_0000
  }

  function FirstOctet(fin: bool, opcode: byte): byte
    requires opcode < 0x10
  {
    (if fin then 0x80 else 0) + opcode
  }

  lemma FirstOctetRead(fin: bool, opcode: byte)
    requires opcode < 0x10
    ensures var b := FirstOctet(fin, opcode);
            b / 0x10 % 8 == 0 && b % 0x10 == opcode && (b >= 0x80 <==> fin)
  {
  }

  /** A masked frame. */
  function EncodeFrame(f: Frame): seq<byte>
    requires WellFormed(f)
  {
    [FirstOctet(f.fin, f.opcode)] + LengthOctets(|f.payload|, 0x80) + f.key + f.payload
  }

  lemma OctetsFit(n: nat)
    requires n < 0x1_0000_0000_0000_0000
    ensures n < 0x10000 ==> BigEndian(Octets(n, 2)) == n
    ensures BigEndian(Octets(n, 8)) == n
  {
    assert Power256(2) == 0x10000 && Power256(4) == 0x1_0000_0000;
    assert Power256(8) == 0x1_0000_0000_0000_0000;
    OctetsRoundTrip(n, 8);
    if n < 0x10000 {
      OctetsRoundTrip(n, 2);
    }
  }

  /** The length read from a frame header is the one written there. */
  lemma LengthRead(first: byte, n: nat, bit: byte, rest: seq<byte>)
    requires (bit == 0 || bit == 0x80) && n < 0x1_0000_0000_0000_0000
    ensures var b, octets := [first] + LengthOctets(n, bit) + rest, LengthOctets(n, bit);
            && |b| >= 2 && b[0] == first && (b[1] >= 0x80 <==> bit == 0x80)
            && PayloadLength(b) == Checked(n, 1 + |octets|) && |octets| <= 9
  {
    hide Octets, BigEndian;
    var b := [first] + LengthOctets(n, bit) + rest;
    OctetsFit(n);
    if n < 126 {
    } else if n < 0x10000 {
      assert b[2..4] == Octets(n, 2);
    } else {
      assert b[2..10] == Octets(n, 8);
    }
  }

  /** A frame on the wire is scanned back as it was, unless it is too long. */
  lemma FrameRead(f: Frame, rest: seq<byte>)
    requires WellFormed(f)
    ensures ScanFrame(EncodeFrame(f) + rest)
            == if |f.payload| <= MAX_MESSAGE then Complete(f, |EncodeFrame(f)|) else Invalid
    ensures (EncodeFrame(f) + rest)[|EncodeFrame(f)|..] == rest
  {
    var head := [FirstOctet(f.fin, f.opcode)] + LengthOctets(|f.payload|, 0x80);
    FirstOctetRead(f.fin, f.opcode);
    LengthRead(FirstOctet(f.fin, f.opcode), |f.payload|, 0x80, f.key + f.payload + rest);
    hide LengthOctets, PayloadLength, FirstOctet;
    FrameParts(head, f.key, f.payload, rest);
  }

  /** Where the parts of a frame stand. */
  lemma FrameParts(head: seq<byte>, key: seq<byte>, payload: seq<byte>, rest: seq<byte>)
    ensures var b, i := head + key + payload + rest, |head|;
            && b == head + (key + payload + rest)
            && b[i..i + |key|] == key && b[i + |key|..i + |key| + |payload|] == payload
            && b[i + |key| + |payload|..] == rest
  {
    var b, i := head + key + payload + rest, |head|;
    assert b[i..] == key + payload + rest;
  }

  ghost predicate AllWellFormed(fs: seq<Frame>) {
    forall i :: 0 <= i < |fs| ==> WellFormed(fs[i])
  }

  function EncodeFrames(fs: seq<Frame>): seq<byte>
    requires AllWellFormed(fs)
  {
    if fs == [] then [] else EncodeFrame(fs[0]) + EncodeFrames(fs[1..])
  }

  datatype Played = Played(out: seq<Message>, verdict: Verdict, state: State) {
    function Prepend(ms: seq<Message>): Played {
      this.(out := ms + out)
    }
  }

  /** What a sequence of whole frames amounts to. */
  function Play(s: State, fs: seq<Frame>): Played
    requires AllWellFormed(fs)
    decreases |fs|
  {
    if fs == [] then Played([], Accepting, s)
    else if |fs[0].payload| > MAX_MESSAGE then Played([], Rejected, s)
    else
      match React(s, fs[0])
      case Closed => Played([], Closing, s)
      case Refused => Played([], Rejected, s)
      case Continue(s', out) => Play(s', fs[1..]).Prepend(out)
  }

  /** Decoding the bytes of frames plays the frames, and then goes on with what follows. */
  lemma {:induction false} DecodePlays(s: State, fs: seq<Frame>, rest: seq<byte>)
    requires AllWellFormed(fs)
    ensures var d, p := Decode(s, EncodeFrames(fs) + rest), Play(s, fs);
            if p.verdict == Accepting then d == Decode(p.state, rest).Prepend(p.out)
            else d.out == p.out && d.verdict == p.verdict
    decreases |fs|
  {
    hide ScanFrame, React, EncodeFrame;
    if fs == [] {
      var d := Decode(s, rest);
      assert [] + rest == rest && [] + d.out == d.out;
    } else {
      var tail := EncodeFrames(fs[1..]) + rest;
      FrameRead(fs[0], tail);
      ConcatAssociative(EncodeFrame(fs[0]), EncodeFrames(fs[1..]), rest);
      if |fs[0].payload| <= MAX_MESSAGE && React(s, fs[0]).Continue? {
        var r := React(s, fs[0]);
        DecodePlays(r.state, fs[1..], rest);
        var p := Play(r.state, fs[1..]);
        ConcatAssociative(r.out, p.out, Decode(p.state, rest).out);
      }
    }
  }

  /** A piece of a message and the key it travels under. */
  datatype Part = Part(chunk: seq<byte>, key: seq<byte>)

  ghost predicate Sendable(parts: seq<Part>) {
    forall p :: p in parts ==> |p.key| == 4 && |p.chunk| < 0x1_0000_0000_0000_0000
  }

  function Text(parts: seq<Part>): seq<byte> {
    if parts == [] then [] else parts[0].chunk + Text(parts[1..])
  }

  /** The masked frames of a message, cut up as `parts` says. */
  function Fragments(opcode: byte, parts: seq<Part>): (fs: seq<Frame>)
    requires Sendable(parts) && opcode < 0x10
    ensures AllWellFormed(fs)
  {
    if parts == [] then []
    else
      [Frame(|parts| == 1, opcode, parts[0].key, Mask(parts[0].chunk, parts[0].key))]
      + Fragments(CONTINUATION, parts[1..])
  }

  /** A text or binary message comes out once and whole, whatever fragments it
      is cut into, if it is at most MAX_MESSAGE long; a longer one is refused. */
  lemma MessageArrives(opcode: byte, parts: seq<Part>, rest: seq<byte>)
    requires opcode in {TEXT, BINARY} && parts != [] && Sendable(parts)
    ensures var d := Decode(IDLE, EncodeFrames(Fragments(opcode, parts)) + rest);
            if |Text(parts)| <= MAX_MESSAGE then d == Decode(IDLE, rest).Prepend([Message(opcode, Text(parts))])
            else d.out == [] && d.verdict == Rejected
  {
    DecodePlays(IDLE, Fragments(opcode, parts), rest);
    PlayFragments(IDLE, opcode, opcode, parts);
    assert [] + Text(parts) == Text(parts);
  }

  lemma {:induction false} PlayFragments(s: State, first: byte, opcode: byte, parts: seq<Part>)
    requires opcode in {TEXT, BINARY} && parts != [] && Sendable(parts)
    requires |s.current| <= MAX_MESSAGE
    requires if first == CONTINUATION then s.opcode == opcode else first == opcode && s.current == []
    ensures var p := Play(s, Fragments(first, parts));
            if |s.current| + |Text(parts)| <= MAX_MESSAGE then
              p == Played([Message(opcode, s.current + Text(parts))], Accepting, IDLE)
            else p.out == [] && p.verdict == Rejected
    decreases |parts|
  {
    hide Mask;
    var fs, part := Fragments(first, parts), parts[0];
    assert |Mask(part.chunk, part.key)| == |part.chunk|;
    assert fs[1..] == Fragments(CONTINUATION, parts[1..]);
    if |s.current| + |part.chunk| <= MAX_MESSAGE {
      MaskTwice(part.chunk, part.key);
      var s' := State(s.current + part.chunk, opcode);
      ConcatAssociative(s.current, part.chunk, Text(parts[1..]));
      if |parts| > 1 {
        PlayFragments(s', CONTINUATION, opcode, parts[1..]);
      } else {
        assert part.chunk + [] == part.chunk;
        assert fs[1..] == [];
      }
    }
  }

  predicate Control(f: Frame) {
    f.opcode == PING || f.opcode == PONG
  }

  function WithoutControl(fs: seq<Frame>): (d: seq<Frame>)
    ensures AllWellFormed(fs) ==> AllWellFormed(d)
  {
    if fs == [] then [] else (if Control(fs[0]) then [] else [fs[0]]) + WithoutControl(fs[1..])
  }

  function WithoutPong(ms: seq<Message>): seq<Message> {
    if ms == [] then [] else (if ms[0].opcode == PONG then [] else [ms[0]]) + WithoutPong(ms[1..])
  }

  lemma {:induction false} WithoutPongSum(a: seq<Message>, b: seq<Message>)
    ensures WithoutPong(a + b) == WithoutPong(a) + WithoutPong(b)
  {
    if a == [] {
      assert a + b == b;
    } else {
      assert (a + b)[1..] == a[1..] + b;
      WithoutPongSum(a[1..], b);
    }
  }

  /** Pings and pongs between the fragments of a message do not disturb it. */
  lemma {:induction false} ControlsPass(s: State, fs: seq<Frame>)
    requires AllWellFormed(fs) && forall f :: f in fs && Control(f) ==> |f.payload| <= MAX_MESSAGE
    ensures var all, data := Play(s, fs), Play(s, WithoutControl(fs));
            && all.verdict == data.verdict && all.state == data.state
            && WithoutPong(all.out) == WithoutPong(data.out)
    decreases |fs|
  {
    hide Mask;
    if fs != [] {
      var f, rest := fs[0], fs[1..];
      if Control(f) {
        ControlsPass(s, rest);
        assert [] + WithoutControl(rest) == WithoutControl(rest);
        var r := React(s, f);
        WithoutPongSum(r.out, Play(s, rest).out);
        assert r.out != [] ==> r.out[1..] == [];
      } else {
        var r, data := React(s, f), WithoutControl(fs);
        assert data[0] == f && data[1..] == WithoutControl(rest);
        if |f.payload| <= MAX_MESSAGE && r.Continue? {
          ControlsPass(r.state, rest);
          WithoutPongSum(r.out, Play(r.state, rest).out);
          WithoutPongSum(r.out, Play(r.state, WithoutControl(rest)).out);
        }
      }
    }
  }

  // The order of fragments (section 5.4 of RFC 6455), which the decoder checks only in part.

  /** A continuation comes only while a message is under way, and a text or
      binary frame only while none is. */
  predicate InOrder(underWay: bool, fs: seq<Frame>)
    decreases |fs|
  {
    fs == [] ||
    var f, rest := fs[0], fs[1..];
    if f.opcode == CONTINUATION then underWay && InOrder(!f.fin, rest)
    else if f.opcode <= BINARY then !underWay && InOrder(!f.fin, rest)
    else InOrder(underWay, rest)
  }

  predicate Taken(s: State, f: Frame)
    requires |f.key| == 4
  {
    |f.payload| <= MAX_MESSAGE && React(s, f).Continue?
  }

  /** The decoder takes a continuation of nothing, or a text or binary frame
      inside a message that has been empty so far. */
  predicate LetsPass(s: State, fs: seq<Frame>)
    requires AllWellFormed(fs)
    decreases |fs|
  {
    fs != [] && Taken(s, fs[0]) &&
    var f := fs[0];
    || (f.opcode == CONTINUATION && s.opcode == 0)
    || (f.opcode in {TEXT, BINARY} && s.opcode != 0 && s.current == [])
    || LetsPass(React(s, f).state, fs[1..])
  }

  /** Frames that are accepted are in order if and only if none of them is one
      of those two kinds. */
  lemma {:induction false} OrderIff(s: State, fs: seq<Frame>)
    requires AllWellFormed(fs) && Play(s, fs).verdict == Accepting
    ensures InOrder(s.opcode != 0, fs) <==> !LetsPass(s, fs)
    decreases |fs|
  {
    hide Mask;
    if fs != [] {
      OrderIff(React(s, fs[0]).state, fs[1..]);
    }
  }

  /** The decoder takes the end of a message of which there was no beginning. */
  predicate Headless(s: State, fs: seq<Frame>)
    requires AllWellFormed(fs)
    decreases |fs|
  {
    fs != [] && Taken(s, fs[0]) &&
    (|| (fs[0].opcode == CONTINUATION && fs[0].fin && s.opcode == 0)
     || Headless(React(s, fs[0]).state, fs[1..]))
  }

  predicate Proper(m: Message) {
    m.opcode == TEXT || m.opcode == BINARY || m.opcode == PONG
  }

  ghost predicate AllProper(ms: seq<Message>) {
    forall i :: 0 <= i < |ms| ==> Proper(ms[i])
  }

  lemma ProperSum(a: seq<Message>, b: seq<Message>)
    ensures AllProper(a + b) <==> AllProper(a) && AllProper(b)
  {
    assert forall i :: 0 <= i < |a| ==> (a + b)[i] == a[i];
    assert forall i :: 0 <= i < |b| ==> (a + b)[|a| + i] == b[i];
  }

  lemma ProperAnswer(s: State, f: Frame)
    requires s.opcode <= BINARY && |f.key| == 4 && React(s, f).Continue?
    ensures React(s, f).state.opcode <= BINARY
    ensures AllProper(React(s, f).out) <==> !(f.opcode == CONTINUATION && f.fin && s.opcode == 0)
  {
    hide Mask;
    var out := React(s, f).out;
    assert out != [] ==> out == [out[0]];
  }

  /** Exactly then a message comes out that is neither text, nor binary, nor a pong. */
  lemma {:induction false} HeadlessIff(s: State, fs: seq<Frame>)
    requires AllWellFormed(fs) && s.opcode <= BINARY
    ensures !AllProper(Play(s, fs).out) <==> Headless(s, fs)
    decreases |fs|
  {
    hide React;
    if fs != [] && Taken(s, fs[0]) {
      var r, rest := React(s, fs[0]), fs[1..];
      ProperAnswer(s, fs[0]);
      HeadlessIff(r.state, rest);
      ProperSum(r.out, Play(r.state, rest).out);
    }
  }

  /** Both kinds occur: the rest of nothing is handed out under opcode 0, and
      an empty fragment is followed by another message. */
  lemma OutOfOrderTaken(key: seq<byte>, text: seq<byte>)
    requires |key| == 4 && |text| <= MAX_MESSAGE
    ensures var end := [Frame(true, CONTINUATION, key, Mask(text, key))];
            !InOrder(false, end) && Play(IDLE, end) == Played([Message(0, text)], Accepting, IDLE)
    ensures var two := [Frame(false, TEXT, key, []), Frame(true, BINARY, key, Mask(text, key))];
            !InOrder(false, two) && Play(IDLE, two) == Played([Message(BINARY, text)], Accepting, IDLE)
  {
    MaskTwice(text, key);
    var end := [Frame(true, CONTINUATION, key, Mask(text, key))];
    assert end[1..] == [] && [] + text == text;
    var two := [Frame(false, TEXT, key, []), Frame(true, BINARY, key, Mask(text, key))];
    assert Mask([], key) == [] && two[1..] == [two[1]] && two[1..][1..] == [];
    hide Mask;
  }

  // The server's own frames.

  /** A final frame without a mask. */
  function ServerFrame(opcode: byte, data: seq<byte>): seq<byte>
    requires |data| < 0x1_0000_0000_0000_0000
  {
    [FirstOctet(true, opcode % 0x10)] + LengthOctets(|data|, 0) + data
  }

  /** How a client reads the frame b starts with: its opcode, its payload and
      where it ends. */
  function ClientScan(b: seq<byte>): Scan {
    if |b| < 2 || !PayloadLength(b).Known? then Incomplete
    else if b[0] / 0x10 != 8 || b[1] >= 0x80 then Invalid
    else
      var i, n := PayloadLength(b).offset, PayloadLength(b).value;
      if |b| < i + n then Incomplete else Complete(Frame(true, b[0] % 0x10, [], b[i..i + n]), i + n)
  }

  lemma ServerFrameRead(opcode: byte, data: seq<byte>, rest: seq<byte>)
    requires |data| <= MAX_MESSAGE
    ensures var f := ServerFrame(opcode, data);
            && ClientScan(f + rest) == Complete(Frame(true, opcode % 0x10, [], data), |f|)
            && (f + rest)[|f|..] == rest
  {
    hide LengthOctets, PayloadLength;
    var head := [FirstOctet(true, opcode % 0x10)] + LengthOctets(|data|, 0);
    LengthRead(FirstOctet(true, opcode % 0x10), |data|, 0, data + rest);
    var b := ServerFrame(opcode, data) + rest;
    assert b == head + (data + rest);
    var i := |head|;
    assert b[i..] == data + rest;
    assert b[i..i + |data|] == b[i..][..|data|] == data;
    assert b[i + |data|..] == b[i..][|data|..] == rest;
  }

  predicate Echoed(m: Message) {
    m.opcode == TEXT || m.opcode == BINARY
  }

  ghost predicate AllSmall(ms: seq<Message>) {
    forall i :: 0 <= i < |ms| ==> |ms[i].payload| <= MAX_MESSAGE
  }

  /** The frames that answer some messages. */
  function Echo(ms: seq<Message>): seq<byte>
    requires AllSmall(ms)
  {
    if ms == [] then []
    else (if Echoed(ms[0]) then ServerFrame(ms[0].opcode, ms[0].payload) else []) + Echo(ms[1..])
  }

  /** What a client makes of frames from the server. */
  function ClientDecode(b: seq<byte>): seq<Message>
    decreases |b|
  {
    match ClientScan(b)
    case Complete(frame, size) =>
      if size == 0 then [] else [Message(frame.opcode, frame.payload)] + ClientDecode(b[size..])
    case _ => []
  }

  function EchoedOnly(ms: seq<Message>): seq<Message> {
    if ms == [] then [] else (if Echoed(ms[0]) then [ms[0]] else []) + EchoedOnly(ms[1..])
  }

  /** The client gets every text and binary message back as it was. */
  lemma {:induction false} EchoComesBack(ms: seq<Message>)
    requires AllSmall(ms)
    ensures ClientDecode(Echo(ms)) == EchoedOnly(ms)
  {
    hide ClientScan, ServerFrame;
    if ms == [] {
      assert ClientScan([]) == Incomplete by { ClientNothing(); }
    } else {
      EchoComesBack(ms[1..]);
      if Echoed(ms[0]) {
        ServerFrameRead(ms[0].opcode, ms[0].payload, Echo(ms[1..]));
        assert |ServerFrame(ms[0].opcode, ms[0].payload)| > 0 by { FrameNotEmpty(ms[0]); }
      } else {
        assert [] + Echo(ms[1..]) == Echo(ms[1..]) && [] + EchoedOnly(ms[1..]) == EchoedOnly(ms[1..]);
      }
    }
  }

  lemma ClientNothing()
    ensures ClientScan([]) == Incomplete
  {
  }

  lemma FrameNotEmpty(m: Message)
    requires |m.payload| <= MAX_MESSAGE
    ensures |ServerFrame(m.opcode, m.payload)| > 0
  {
  }

  lemma {:induction false} EchoSum(a: seq<Message>, b: seq<Message>)
    requires AllSmall(a) && AllSmall(b)
    ensures AllSmall(a + b) && Echo(a + b) == Echo(a) + Echo(b)
  {
    hide ServerFrame;
    if a == [] {
      assert a + b == b;
    } else {
      assert (a + b)[1..] == a[1..] + b && (a + b)[0] == a[0];
      EchoSum(a[1..], b);
    }
  }

  lemma {:induction false} EchoedSum(a: seq<Message>, b: seq<Message>)
    ensures EchoedOnly(a + b) == EchoedOnly(a) + EchoedOnly(b)
  {
    if a == [] {
      assert a + b == b;
    } else {
      assert (a + b)[1..] == a[1..] + b;
      EchoedSum(a[1..], b);
    }
  }
}
