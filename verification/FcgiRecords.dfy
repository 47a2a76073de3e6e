/** FastCGI records (section 3.3 of the FastCGI Specification 1.0). */
module FcgiRecords {
  import opened Bytes

  const VERSION_1: byte := 1
  const HEADER_LEN: nat := 8
  const MAX_LENGTH: nat := 0xffff

  const BEGIN_REQUEST: byte := 1
  const END_REQUEST: byte := 3
  const PARAMS: byte := 4
  const STDIN: byte := 5
  const STDOUT: byte := 6
  const STDERR: byte := 7
  const GET_VALUES: byte := 9
  const UNKNOWN_TYPE: byte := 11

  const NULL_REQUEST_ID: nat := 0
  const RESPONDER: nat := 1
  const AUTHORIZER: nat := 2
  const FILTER: nat := 3

  const REQUEST_COMPLETE: byte := 0
  const CANT_MPX_CONN: byte := 1

  datatype Record = Record(typ: byte, id: nat, content: seq<byte>, padding: seq<byte>) {
    ghost predicate Valid() {
      id < 0x10000 && |content| <= MAX_LENGTH && |padding| < 0x100
    }
  }

  /** The eight header octets that introduce a record. */
  function MakeHeader(typ: byte, id: nat, contentLength: nat, paddingLength: byte): (h: seq<byte>)
    ensures |h| == HEADER_LEN
  {
    [VERSION_1, typ] + BigEndian16(id) + BigEndian16(contentLength) + [paddingLength, 0]
  }

  function MakeEndRequestBody(appStatus: int, protocolStatus: byte): (b: seq<byte>)
    ensures |b| == 8
  {
    [(appStatus / 0x1000000) % 0x100, (appStatus / 0x10000) % 0x100, (appStatus / 0x100) % 0x100,
     appStatus % 0x100, protocolStatus, 0, 0, 0]
  }

  /** The status a peer reads back from an END_REQUEST body, as a 32-bit
      two's complement number. */
  function AppStatus(b: seq<byte>): int
    requires |b| == 8
  {
    var b3: int, b2: int, b1: int := b[0], b[1], b[2];
    var u := b3 * 0x1000000 + b2 * 0x10000 + b1 * 0x100 + b[3];
    if u < 0x80000000 then u else u - 0x100000000
  }

  lemma AppStatusRoundTrip(appStatus: int, protocolStatus: byte)
    requires -0x80000000 <= appStatus < 0x80000000
    ensures AppStatus(MakeEndRequestBody(appStatus, protocolStatus)) == appStatus
  {
    var q1 := appStatus / 0x100;
    var q2 := appStatus / 0x10000;
    var q3 := appStatus / 0x1000000;
    assert q2 == q1 / 0x100 && q3 == q2 / 0x100;
    if appStatus < 0 {
      assert -0x80 <= q3 < 0;
      assert q3 % 0x100 == q3 + 0x100;
    }
  }

  function MakeUnknownTypeBody(typ: byte): (b: seq<byte>)
    ensures |b| == 8
  {
    [typ, 0, 0, 0, 0, 0, 0, 0]
  }

  datatype Header = Header(version: byte, typ: byte, id: nat, contentLength: nat, paddingLength: byte)

  function ParseHeader(h: seq<byte>): Header
    requires |h| == HEADER_LEN
  {
    Header(h[0], h[1], FromBigEndian16(h[2], h[3]), FromBigEndian16(h[4], h[5]), h[6])
  }

  lemma ParseMakeHeader(typ: byte, id: nat, contentLength: nat, paddingLength: byte)
    requires id < 0x10000 && contentLength < 0x10000
    ensures ParseHeader(MakeHeader(typ, id, contentLength, paddingLength))
            == Header(VERSION_1, typ, id, contentLength, paddingLength)
  {
    BigEndian16RoundTrip(id);
    BigEndian16RoundTrip(contentLength);
    var h := MakeHeader(typ, id, contentLength, paddingLength);
    assert h[2] == BigEndian16(id)[0] && h[3] == BigEndian16(id)[1];
    assert h[4] == BigEndian16(contentLength)[0] && h[5] == BigEndian16(contentLength)[1];
  }

  function Encode(r: Record): seq<byte>
    requires r.Valid()
  {
    MakeHeader(r.typ, r.id, |r.content|, |r.padding|) + r.content + r.padding
  }

  ghost predicate AllValid(rs: seq<Record>) {
    forall r :: r in rs ==> r.Valid()
  }

  /** The bytes on the wire for a sequence of records. */
  function EncodeAll(rs: seq<Record>): seq<byte>
    requires AllValid(rs)
  {
    if rs == [] then [] else Encode(rs[0]) + EncodeAll(rs[1..])
  }

  lemma {:induction false} EncodeAllConcat(a: seq<Record>, b: seq<Record>)
    requires AllValid(a) && AllValid(b)
    ensures AllValid(a + b) && EncodeAll(a + b) == EncodeAll(a) + EncodeAll(b)
  {
    if a == [] {
      assert a + b == b;
    } else {
      EncodeAllConcat(a[1..], b);
      assert (a + b)[1..] == a[1..] + b;
    }
  }

  lemma EncodeAllSingle(r: Record)
    requires r.Valid()
    ensures EncodeAll([r]) == Encode(r)
  {
    assert [r][1..] == [];
  }

  /** The contents of records, one after the other. */
  function Concat(rs: seq<Record>): seq<byte> {
    if rs == [] then [] else rs[0].content + Concat(rs[1..])
  }

  lemma {:induction false} ConcatOfSum(a: seq<Record>, b: seq<Record>)
    ensures Concat(a + b) == Concat(a) + Concat(b)
  {
    if a == [] {
      assert a + b == b;
    } else {
      assert (a + b)[1..] == a[1..] + b;
      ConcatOfSum(a[1..], b);
    }
  }

  /** Splits a byte sequence into whole records; None when it ends inside one. */
  function Deframe(w: seq<byte>): Option<seq<Record>> {
    if w == [] then Some([])
    else if |w| < HEADER_LEN then None
    else
      var h := ParseHeader(w[..HEADER_LEN]);
      var end := HEADER_LEN + h.contentLength;
      if |w| < end + h.paddingLength then None
      else
        var r := Record(h.typ, h.id, w[HEADER_LEN..end], w[end..end + h.paddingLength]);
        match Deframe(w[end + h.paddingLength..])
        case None => None
        case Some(rs) => Some([r] + rs)
  }

  lemma HeaderFirst(h: seq<byte>, content: seq<byte>, padding: seq<byte>, tail: seq<byte>)
    requires |h| == HEADER_LEN
    ensures var w := h + content + padding + tail;
            |w| >= HEADER_LEN && w[..HEADER_LEN] == h && w[HEADER_LEN..] == content + (padding + tail)
  {
    assert h + content + padding + tail == h + (content + (padding + tail));
  }

  /** What follows the header of an encoded record. */
  lemma EncodedParts(r: Record, tail: seq<byte>)
    requires r.Valid()
    ensures var w := Encode(r) + tail;
            && |w| >= HEADER_LEN
            && ParseHeader(w[..HEADER_LEN]) == Header(VERSION_1, r.typ, r.id, |r.content|, |r.padding|)
            && w[HEADER_LEN..] == r.content + (r.padding + tail)
  {
    ParseMakeHeader(r.typ, r.id, |r.content|, |r.padding|);
    HeaderFirst(MakeHeader(r.typ, r.id, |r.content|, |r.padding|), r.content, r.padding, tail);
  }

  /** Framing loses nothing: whole records come back, in order and in full. */
  lemma {:induction false} DeframeEncodeAll(rs: seq<Record>)
    requires AllValid(rs)
    ensures Deframe(EncodeAll(rs)) == Some(rs)
  {
    if rs != [] {
      var r, tail := rs[0], EncodeAll(rs[1..]);
      EncodedParts(r, tail);
      DeframeEncodeAll(rs[1..]);
      var w := Encode(r) + tail;
      var end := HEADER_LEN + |r.content|;
      assert w[HEADER_LEN..end] == w[HEADER_LEN..][..|r.content|] == r.content;
      assert w[end..] == w[HEADER_LEN..][|r.content|..] == r.padding + tail;
      assert w[end..end + |r.padding|] == w[end..][..|r.padding|] == r.padding;
      assert w[end + |r.padding|..] == w[end..][|r.padding|..] == tail;
      assert rs == [r] + rs[1..];
    }
  }
}
