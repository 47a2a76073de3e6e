/** Decoding of client frames (sections 5.2 to 5.4 of RFC 6455), as a function
    of the bytes received. */
module WebSocketSpec {
  import opened Bytes

  const MAX_MESSAGE: nat := 1024 * 1024

  const CONTINUATION: byte := 0x0
  const TEXT: byte := 0x1
  const BINARY: byte := 0x2
  const CLOSE: byte := 0x8
  const PING: byte := 0x9
  const PONG: byte := 0xa

  function TwoTo(k: nat): (p: nat)
    ensures p >= 1
  {
    if k == 0 then 1 else 2 * TwoTo(k - 1)
  }

  /** The low-order k bits of a and b, exclusive-or. */
  function XorBits(a: nat, b: nat, k: nat): (x: nat)
    ensures x < TwoTo(k)
  {
    if k == 0 then 0 else (a % 2 + b % 2) % 2 + 2 * XorBits(a / 2, b / 2, k - 1)
  }

  /** Bit j of n, the lowest being bit 0. */
  function Bit(n: nat, j: nat): (b: nat)
    ensures b < 2
  {
    if j == 0 then n % 2 else Bit(n / 2, j - 1)
  }

  function Xor(a: byte, b: byte): byte {
    assert TwoTo(4) == 16 && TwoTo(8) == 256;
    XorBits(a, b, 8)
  }

  lemma {:induction false} XorBitsTwice(a: nat, b: nat, k: nat)
    requires a < TwoTo(k)
    ensures XorBits(XorBits(a, b, k), b, k) == a
  {
    if k > 0 {
      var x := XorBits(a / 2, b / 2, k - 1);
      XorBitsTwice(a / 2, b / 2, k - 1);
      OneBit(a, b, x);
    }
  }

  lemma OneBit(a: nat, b: nat, x: nat)
    ensures var y := (a % 2 + b % 2) % 2 + 2 * x; y / 2 == x && (y % 2 + b % 2) % 2 + 2 * (a / 2) == a
  {
  }

  lemma XorTwice(a: byte, b: byte)
    ensures Xor(Xor(a, b), b) == a
  {
    hide XorBits;
    assert TwoTo(4) == 16 && TwoTo(8) == 256;
    XorBitsTwice(a, b, 8);
  }

  /** The payload with the four octets of the key laid over it in turn. */
  function Mask(payload: seq<byte>, key: seq<byte>): (m: seq<byte>)
    requires |key| == 4
    ensures |m| == |payload|
  {
    seq(|payload|, i requires 0 <= i < |payload| => Xor(payload[i], key[i % 4]))
  }

  lemma MaskTwice(payload: seq<byte>, key: seq<byte>)
    requires |key| == 4
    ensures Mask(Mask(payload, key), key) == payload
  {
    hide Xor;
    forall i | 0 <= i < |payload| ensures Xor(Xor(payload[i], key[i % 4]), key[i % 4]) == payload[i] {
      XorTwice(payload[i], key[i % 4]);
    }
  }

  /** Octet m is octet p with octet k laid over it: bit by bit it is set where
      the two differ. */
  predicate Overlaid(m: byte, p: byte, k: byte) {
    forall j :: 0 <= j < 8 ==> (Bit(m, j) == 1 <==> Bit(p, j) != Bit(k, j))
  }

  lemma {:induction false} XorBitAt(a: nat, b: nat, k: nat, j: nat)
    requires j < k
    ensures Bit(XorBits(a, b, k), j) == 1 <==> Bit(a, j) != Bit(b, j)
    decreases k
  {
    var x := XorBits(a / 2, b / 2, k - 1);
    assert ((a % 2 + b % 2) % 2 + 2 * x) / 2 == x;
    if j > 0 {
      XorBitAt(a / 2, b / 2, k - 1, j - 1);
    }
  }

  /** Masking combines octet i of a payload with octet i modulo 4 of the key. */
  lemma MaskOctets(payload: seq<byte>, key: seq<byte>)
    requires |key| == 4
    ensures |Mask(payload, key)| == |payload|
    ensures forall i :: 0 <= i < |payload| ==> Overlaid(Mask(payload, key)[i], payload[i], key[i % 4])
  {
    hide XorBits, Bit;
    forall i, j | 0 <= i < |payload| && 0 <= j < 8
      ensures Bit(Mask(payload, key)[i], j) == 1 <==> Bit(payload[i], j) != Bit(key[i % 4], j)
    {
      XorBitAt(payload[i], key[i % 4], 8, j);
    }
  }

  /** A frame with its payload as it stands on the wire. */
  datatype Frame = Frame(fin: bool, opcode: byte, key: seq<byte>, payload: seq<byte>)

  datatype Scan = Incomplete | Invalid | Complete(frame: Frame, size: nat)

  datatype Length = Short | TooLong | Known(value: nat, offset: nat)

  function Checked(value: nat, offset: nat): Length {
    if value > MAX_MESSAGE then TooLong else Known(value, offset)
  }

  /** The payload length, and where the octets that state it end. */
  function PayloadLength(b: seq<byte>): Length
    requires |b| >= 2
  {
    var n := b[1] % 0x80;
    if n == 126 then
      if |b| < 4 then Short else Checked(BigEndian(b[2..4]), 4)
    else if n == 127 then
      if |b| < 10 then Short else Checked(BigEndian(b[2..10]), 10)
    else Known(n, 2)
  }

  /** The frame b starts with. */
  function ScanFrame(b: seq<byte>): (s: Scan)
    ensures s.Complete? ==> 6 <= s.size <= |b| && |s.frame.key| == 4
  {
    if |b| < 2 then Incomplete
    else if b[0] / 0x10 % 8 != 0 || b[1] < 0x80 then Invalid
    else
      match PayloadLength(b)
      case Short => Incomplete
      case TooLong => Invalid
      case Known(n, i) =>
        if |b| < i + 4 + n then Incomplete
        else Complete(Frame(b[0] >= 0x80, b[0] % 0x10, b[i..i + 4], b[i + 4..i + 4 + n]), i + 4 + n)
  }

  datatype Message = Message(opcode: byte, payload: seq<byte>)

  /** The message being put together. */
  datatype State = State(current: seq<byte>, opcode: byte)

  const IDLE: State := State([], 0)

  datatype Reaction = Closed | Refused | Continue(state: State, out: seq<Message>)

  function React(s: State, f: Frame): Reaction
    requires |f.key| == 4
  {
    if f.opcode == CLOSE then Closed
    else if f.opcode == PING then Continue(s, [Message(PONG, f.payload)])
    else if f.opcode == PONG then Continue(s, [])
    else if f.opcode > BINARY || (f.opcode != CONTINUATION && s.current != [])
            || |s.current| + |f.payload| > MAX_MESSAGE then Refused
    else
      var opcode := if f.opcode != CONTINUATION then f.opcode else s.opcode;
      var data := s.current + Mask(f.payload, f.key);
      if f.fin then Continue(IDLE, [Message(opcode, data)]) else Continue(State(data, opcode), [])
  }

  datatype Verdict = Accepting | Rejected | Closing

  /** The messages found, whether more is welcome, and what is left over. */
  datatype Decoded = Decoded(out: seq<Message>, verdict: Verdict, state: State, buffer: seq<byte>) {
    function Prepend(ms: seq<Message>): Decoded {
      this.(out := ms + out)
    }
  }

  function Decode(s: State, b: seq<byte>): Decoded
    decreases |b|
  {
    match ScanFrame(b)
    case Incomplete => Decoded([], Accepting, s, b)
    case Invalid => Decoded([], Rejected, s, b)
    case Complete(frame, size) =>
      match React(s, frame)
      case Closed => Decoded([], Closing, s, b)
      case Refused => Decoded([], Rejected, s, b)
      case Continue(s', out) => Decode(s', b[size..]).Prepend(out)
  }
}

/** The decoder itself, fed with whatever the connection brings. */
module WebSockets {
  import opened Bytes
  import opened WebSocketSpec

  class WebSocket {
    var buffer: seq<byte>
    var currentMessage: seq<byte>
    var messageOpcode: byte
    var closing: bool

    constructor ()
      ensures buffer == [] && State() == IDLE && !closing
    {
      buffer, currentMessage, messageOpcode, closing := [], [], 0, false;
    }

    function State(): WebSocketSpec.State
      reads this
    {
      WebSocketSpec.State(currentMessage, messageOpcode)
    }

    /** Appends a payload to the message being put together, unless that
        makes it too long. */
    method UnmaskAndAppend(payload: seq<byte>, maskKey: seq<byte>) returns (ok: bool)
      requires |maskKey| == 4
      modifies this`currentMessage
      ensures ok <==> |old(currentMessage)| + |payload| <= MAX_MESSAGE
      ensures currentMessage == old(currentMessage) + if ok then Mask(payload, maskKey) else []
      ensures ok ==> forall i :: 0 <= i < |payload| ==>
                Overlaid(currentMessage[|old(currentMessage)| + i], payload[i], maskKey[i % 4])
    {
      hide Xor, Overlaid;
      MaskOctets(payload, maskKey);
      if |currentMessage| + |payload| > MAX_MESSAGE {
        assert currentMessage + [] == currentMessage;
        return false;
      }
      var base := |currentMessage|;
      ghost var before := currentMessage;
      currentMessage := currentMessage + Zeros(|payload|);
      for j := 0 to |payload|
        invariant |currentMessage| == base + |payload|
        invariant currentMessage[..base] == before
        invariant forall k :: 0 <= k < j ==> currentMessage[base + k] == Mask(payload, maskKey)[k]
      {
        currentMessage := currentMessage[base + j := Xor(payload[j], maskKey[j % 4])];
      }
      assert currentMessage == before + Mask(payload, maskKey);
      return true;
    }

    /** The frame at the front of the buffer. */
    method NextFrame() returns (scan: Scan)
      ensures scan == ScanFrame(buffer)
    {
      var p := buffer;
      if |p| < 2 {
        return Incomplete;
      }
      var fin, rsv, opcode := p[0] / 0x80 != 0, p[0] / 0x10 % 0x08, p[0] % 0x10;
      var masked, payloadLength: nat := p[1] / 0x80 != 0, p[1] % 0x80;
      var i := 2;
      if rsv != 0 || !masked {
        return Invalid;
      }
      if payloadLength == 126 {
        if |p| < i + 2 {
          return Incomplete;
        }
        payloadLength := FromBigEndian16(p[i], p[i + 1]);
        assert p[2..4] == [p[2], p[3]] && [p[2], p[3]][..1] == [p[2]] && [p[2]][..0] == [];
        assert BigEndian([p[2]]) == p[2];
        i := i + 2;
        if payloadLength > MAX_MESSAGE {
          return Invalid;
        }
      } else if payloadLength == 127 {
        if |p| < i + 8 {
          return Incomplete;
        }
        payloadLength := 0;
        for j := 0 to 8
          invariant payloadLength == BigEndian(p[2..2 + j])
        {
          assert p[2..2 + j + 1][..j] == p[2..2 + j];
          payloadLength := payloadLength * 0x100 + p[i + j];
        }
        i := i + 8;
        if payloadLength > MAX_MESSAGE {
          return Invalid;
        }
      }
      if |p| < i + 4 {
        return Incomplete;
      }
      var maskKey := p[i..i + 4];
      i := i + 4;
      if |p| < i + payloadLength {
        return Incomplete;
      }
      return Complete(Frame(fin, opcode, maskKey, p[i..i + payloadLength]), i + payloadLength);
    }

    /** Takes in more bytes and hands out the messages they complete; false once
        the connection is to be given up. */
    method Feed(data: seq<byte>) returns (ok: bool, out: seq<Message>)
      modifies this
      ensures old(closing) ==> !ok && out == [] && closing
      ensures !old(closing) ==>
                var d := Decode(old(State()), old(buffer) + data);
                && out == d.out && (ok <==> d.verdict == Accepting) && (closing <==> d.verdict == Closing)
                && (ok ==> State() == d.state && buffer == d.buffer)
    {
      hide ScanFrame;
      out := [];
      if closing {
        return false, out;
      }
      buffer := buffer + data;
      ghost var all := Decode(State(), buffer);
      assert [] + all.out == all.out;
      while true
        invariant !closing && all == Decode(State(), buffer).Prepend(out)
        decreases |buffer|
      {
        ghost var d, before := Decode(State(), buffer), out;
        var scan := NextFrame();
        assert out + [] == out;
        if scan.Incomplete? {
          return true, out;
        }
        if scan.Invalid? {
          return false, out;
        }
        var opcode := scan.frame.opcode;
        if opcode == CLOSE {
          closing := true;
          return false, out;
        } else if opcode == PING {
          out := out + [Message(PONG, scan.frame.payload)];
        } else if opcode == PONG {
        } else if opcode == CONTINUATION || opcode == TEXT || opcode == BINARY {
          if opcode != CONTINUATION {
            if currentMessage != [] {
              return false, out;
            }
            messageOpcode := opcode;
          }
          var appended := UnmaskAndAppend(scan.frame.payload, scan.frame.key);
          if !appended {
            return false, out;
          }
          if scan.frame.fin {
            out := out + [Message(messageOpcode, currentMessage)];
            currentMessage := [];
            messageOpcode := 0;
          }
        } else {
          return false, out;
        }
        buffer := buffer[scan.size..];
        ConcatAssociative(before, out[|before|..], Decode(State(), buffer).out);
      }
    }
  }
}
