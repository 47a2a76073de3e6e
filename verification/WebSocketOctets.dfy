/** Frames as octets (section 5.2 of RFC 6455), without the names of the
    functions that write and read them. */
module WebSocketOctets {
  import opened Bytes
  import opened WebSocketSpec
  import opened WebSocketTheorems

  /** Octets that state a payload length of n in one of the three forms: one
      octet, or two, or eight behind a mark. */
  predicate States(l: seq<byte>, n: nat, maskBit: int) {
    || (|l| == 1 && n < 126 && l[0] == maskBit + n)
    || (|l| == 3 && l[0] == maskBit + 126 && Number(l[1..]) == n)
    || (|l| == 9 && l[0] == maskBit + 127 && Number(l[1..]) == n)
  }

  /** The number whose octets are s, the most significant first. */
  function Number(s: seq<byte>): nat {
    if s == [] then 0 else s[|s| - 1] + 256 * Number(s[..|s| - 1])
  }

  lemma {:induction false} NumberIs(s: seq<byte>)
    ensures BigEndian(s) == Number(s)
  {
    if s != [] {
      NumberIs(s[..|s| - 1]);
    }
  }

  lemma LengthStated(first: byte, l: seq<byte>, n: nat, maskBit: int, tail: seq<byte>)
    requires (maskBit == 0 || maskBit == 128) && States(l, n, maskBit)
    ensures var b := [first] + l + tail;
            && |b| >= 2 && b[0] == first && (b[1] >= 128 <==> maskBit == 128)
            && PayloadLength(b) == Checked(n, 1 + |l|)
  {
    hide BigEndian, Number;
    var b := [first] + l + tail;
    NumberIs(l[1..]);
    assert b[1] == l[0];
    if |l| > 1 {
      assert b[2..1 + |l|] == l[1..];
    }
  }

  /** The first frame of the bytes received: what its first octet says, how
      long it is, and where its key and its payload stand. It is invalid
      without the mask bit, with a reserved bit, or when it is too long. */
  lemma FrameOctets(first: byte, l: seq<byte>, n: nat, maskBit: int, key: seq<byte>, payload: seq<byte>,
                    rest: seq<byte>)
    requires (maskBit == 0 || maskBit == 128) && States(l, n, maskBit) && |key| == 4
    requires n <= 1048576 ==> |payload| == n
    ensures ScanFrame([first] + l + (key + payload + rest)) ==
            if maskBit == 0 || n > 1048576 || first / 16 % 8 != 0 then Invalid
            else Complete(Frame(first >= 128, first % 16, key, payload), 1 + |l| + 4 + n)
  {
    LengthStated(first, l, n, maskBit, key + payload + rest);
    hide PayloadLength, States;
    var i, tail := 1 + |l|, key + payload + rest;
    var b := [first] + l + tail;
    assert b[i..] == tail;
    if n <= 1048576 {
      assert b[i..i + 4] == tail[..4] == key && b[i + 4..i + 4 + n] == tail[4..4 + n] == payload;
    }
  }

  /** What a frame does, by its opcode. */
  lemma Opcodes(s: State, f: Frame)
    requires |f.key| == 4 && f.opcode < 16
    ensures f.opcode == 8 <==> React(s, f) == Closed
    ensures f.opcode == 9 ==> React(s, f) == Continue(s, [Message(10, f.payload)])
    ensures f.opcode == 10 ==> React(s, f) == Continue(s, [])
    ensures f.opcode in {3, 4, 5, 6, 7, 11, 12, 13, 14, 15} ==> React(s, f) == Refused
    ensures f.opcode in {1, 2} ==>
              if s.current != [] || |f.payload| > 1048576 then React(s, f) == Refused
              else Appended(React(s, f), State([], f.opcode), f)
    ensures f.opcode == 0 ==>
              if |s.current| + |f.payload| > 1048576 then React(s, f) == Refused else Appended(React(s, f), s, f)
  {
    hide Overlaid;
    MaskOctets(f.payload, f.key);
  }

  /** The unmasked payload goes behind the message so far, which comes out when
      the frame is a final one. */
  ghost predicate Appended(r: Reaction, s: State, f: Frame)
    requires |f.key| == 4
  {
    exists data: seq<byte> ::
      && |data| == |f.payload| && (forall i :: 0 <= i < |data| ==> Overlaid(data[i], f.payload[i], f.key[i % 4]))
      && r == if f.fin then Continue(State([], 0), [Message(s.opcode, s.current + data)])
              else Continue(State(s.current + data, s.opcode), [])
  }

  /** A whole text or binary message in one frame. */
  lemma SingleFrame(first: byte, l: seq<byte>, key: seq<byte>, payload: seq<byte>, rest: seq<byte>)
    requires first in {0x81, 0x82} && |payload| <= 1048576 && States(l, |payload|, 128) && |key| == 4
    ensures exists data: seq<byte> ::
              && |data| == |payload|
              && (forall i :: 0 <= i < |data| ==> Overlaid(data[i], payload[i], key[i % 4]))
              && Decode(IDLE, [first] + l + (key + payload + rest))
                 == Decode(IDLE, rest).Prepend([Message(first - 128, data)])
  {
    hide Overlaid, States, Decode, Mask;
    FrameDecoded(first, l, key, payload, rest);
    MaskOctets(payload, key);
  }

  lemma FrameDecoded(first: byte, l: seq<byte>, key: seq<byte>, payload: seq<byte>, rest: seq<byte>)
    requires first in {0x81, 0x82} && |payload| <= 1048576 && States(l, |payload|, 128) && |key| == 4
    ensures Decode(IDLE, [first] + l + (key + payload + rest))
            == Decode(IDLE, rest).Prepend([Message(first - 128, Mask(payload, key))])
  {
    FrameOctets(first, l, |payload|, 128, key, payload, rest);
    var b, f := [first] + l + (key + payload + rest), Frame(true, first % 16, key, payload);
    FrameBehind([first] + l, key, payload, rest);
    assert [] + Mask(payload, key) == Mask(payload, key);
    assert React(IDLE, f) == Continue(IDLE, [Message(first - 128, Mask(payload, key))]);
    hide ScanFrame, States, Mask, React;
  }

  lemma FrameBehind(head: seq<byte>, key: seq<byte>, payload: seq<byte>, rest: seq<byte>)
    ensures (head + (key + payload + rest))[|head| + |key| + |payload|..] == rest
  {
    assert head + (key + payload + rest) == head + key + payload + rest;
  }

  /** What the server sends: its opcode in a final frame, no mask bit, and the
      shortest form of the length. */
  lemma ServerOctets(opcode: byte, data: seq<byte>)
    requires |data| < 0x1_0000_0000_0000_0000 && opcode < 16
    ensures exists l: seq<byte> ::
              && ServerFrame(opcode, data) == [128 + opcode] + l + data && States(l, |data|, 0)
              && |l| == if |data| < 126 then 1 else if |data| < 65536 then 3 else 9
  {
    var l := LengthOctets(|data|, 0);
    ShortestLength(|data|);
    hide LengthOctets, States;
    assert ServerFrame(opcode, data) == [128 + opcode] + l + data;
  }

  lemma ShortestLength(n: nat)
    requires n < 0x1_0000_0000_0000_0000
    ensures States(LengthOctets(n, 0), n, 0)
    ensures |LengthOctets(n, 0)| == if n < 126 then 1 else if n < 65536 then 3 else 9
  {
    hide BigEndian, Number, Octets;
    OctetsFit(n);
    var l := LengthOctets(n, 0);
    NumberIs(l[1..]);
    assert 126 <= n < 65536 ==> l[1..] == Octets(n, 2);
    assert n >= 65536 ==> l[1..] == Octets(n, 8);
  }

  /** The frames with which the server echoes "Hello" and ends a connection
      with status 1000. */
  lemma ServerExamples()
    ensures ServerFrame(1, [0x48, 0x65, 0x6c, 0x6c, 0x6f]) == [0x81, 0x05, 0x48, 0x65, 0x6c, 0x6c, 0x6f]
    ensures ServerFrame(8, [0x03, 0xe8]) == [0x88, 0x02, 0x03, 0xe8]
  {
  }

  /** Text and binary messages are echoed under their own opcode, and no others. */
  lemma EchoOctets(m: Message)
    requires |m.payload| <= MAX_MESSAGE
    ensures AllSmall([m]) && Echo([m]) == if m.opcode in {1, 2} then ServerFrame(m.opcode, m.payload) else []
    ensures EchoedOnly([m]) == if m.opcode in {1, 2} then [m] else []
  {
    hide ServerFrame;
    assert [m][1..] == [] && [m][0] == m;
    assert Echo([]) == [] && EchoedOnly([]) == [];
  }
}
