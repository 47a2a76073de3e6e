/** What an application-side FastCGI input stream delivers, as a function of
    the bytes still to come. Nothing here knows how the connection splits
    them, so a reader shown to follow this function does not depend on it. */
module ReaderSpec {
  import opened Bytes
  import opened FcgiRecords

  const UNSUPPORTED_VERSION: int := -2
  const PROTOCOL_ERROR: int := -3
  const PARAMS_ERROR: int := -4
  // the answer to FCGI_GET_VALUES and what follows it are not modelled
  const GET_VALUES_NOT_MODELLED: int := -100

  const BEGIN_BODY_LEN: nat := 8

  /** What the stream currently accepts: one record type of one request. */
  datatype Mode = Mode(typ: byte, id: nat, begun: bool)

  /** Position inside the current record. */
  datatype Cursor = Cursor(contentLen: nat, paddingLen: nat, skip: bool, eorStop: bool)

  const BETWEEN_RECORDS: Cursor := Cursor(0, 0, false, false)

  datatype Ending =
    | Closed(code: int)  // 0 for a proper end of stream
    | NotModelled  // from here on nothing is said
    | Begun(id: nat, role: nat, keepConn: bool, paddingLen: nat)

  function EndingOf(code: int): Ending {
    if code == GET_VALUES_NOT_MODELLED then NotModelled else Closed(code)
  }

  /** The content bytes delivered, how delivery ends, the unread bytes at
      that point, and the records written back meanwhile. */
  datatype Outcome = Outcome(data: seq<byte>, ending: Ending, rest: seq<byte>, replies: seq<byte>) {
    function Prepend(d: seq<byte>): Outcome {
      this.(data := d + data)
    }

    function Replying(b: seq<byte>): Outcome {
      this.(replies := b + replies)
    }
  }

  /** An outcome with the first error, if there has been one, for its ending. */
  function Resolve(o: Outcome, errno: int): Outcome {
    if o.ending.Begun? || errno == 0 then o else o.(ending := EndingOf(errno))
  }

  function Broken(data: seq<byte>): Outcome {
    Outcome(data, Closed(PROTOCOL_ERROR), [], [])
  }

  function BodyRole(body: seq<byte>): nat
    requires |body| == BEGIN_BODY_LEN
  {
    FromBigEndian16(body[0], body[1])
  }

  predicate BodyKeepConn(body: seq<byte>)
    requires |body| == BEGIN_BODY_LEN
  {
    body[2] % 2 == 1
  }

  datatype Verdict =
    | StreamRecord
    | Skip(reply: seq<byte>)
    | BeginBody
    | Management(reply: seq<byte>)
    | Bad(code: int)

  /** How ProcessHeader and ProcessBeginRecord judge a record header. */
  function Judge(m: Mode, h: Header): Verdict {
    if h.version != VERSION_1 then Bad(UNSUPPORTED_VERSION)
    else if h.typ == BEGIN_REQUEST then
      if h.id == NULL_REQUEST_ID || h.contentLength != BEGIN_BODY_LEN then Bad(PROTOCOL_ERROR)
      else if m.begun then Skip(MakeHeader(END_REQUEST, h.id, 8, 0) + MakeEndRequestBody(0, CANT_MPX_CONN))
      else BeginBody
    else if h.id == NULL_REQUEST_ID then
      if h.typ == GET_VALUES then Bad(GET_VALUES_NOT_MODELLED)
      else Management(MakeHeader(UNKNOWN_TYPE, NULL_REQUEST_ID, 8, 0) + MakeUnknownTypeBody(h.typ))
    else if h.id != m.id then Skip([])
    else if h.typ != m.typ then Bad(PROTOCOL_ERROR)
    else StreamRecord
  }

  /** Everything the stream will deliver when it stands at c and r is still
      unread: c.contentLen bytes of content, then padding, then headers. */
  function Deliver(m: Mode, c: Cursor, r: seq<byte>): Outcome
    decreases |r|, 3
  {
    if c.contentLen > |r| then Broken(if c.skip then [] else r)
    else if c.contentLen > 0 && !c.skip then
      Deliver(m, c.(contentLen := 0), r[c.contentLen..]).Prepend(r[..c.contentLen])
    else if c.contentLen > 0 then
      AfterContent(m, c.(contentLen := 0, skip := false), r[c.contentLen..])
    else if c.eorStop && c.paddingLen == 0 && r == [] then Broken([])
    else AfterContent(m, c, r)
  }

  function AfterContent(m: Mode, c: Cursor, r: seq<byte>): Outcome
    decreases |r|, 2
  {
    if c.paddingLen > |r| then Broken([])
    else if c.eorStop then Outcome([], Closed(0), r[c.paddingLen..], [])
    else AtHeader(m, c.skip, r[c.paddingLen..])
  }

  function AtHeader(m: Mode, skip: bool, r: seq<byte>): Outcome
    decreases |r|, 1
  {
    if |r| < HEADER_LEN then Broken([])
    else OnHeader(m, skip, ParseHeader(r[..HEADER_LEN]), r[HEADER_LEN..])
  }

  /** A complete header decides what happens to the bytes after it. */
  function OnHeader(m: Mode, skip: bool, h: Header, after: seq<byte>): Outcome
    decreases |after|, 4
  {
    match Judge(m, h)
    case Bad(code) => Outcome([], EndingOf(code), after, [])
    case Skip(reply) =>
      Deliver(m, Cursor(h.contentLength, h.paddingLength, true, false), after).Replying(reply)
    case Management(reply) =>
      Deliver(m, Cursor(h.contentLength, h.paddingLength, skip, false), after).Replying(reply)
    case StreamRecord =>
      if h.contentLength == 0 then Outcome([], Closed(0), after, [])
      else Deliver(m, Cursor(h.contentLength, h.paddingLength, skip, false), after)
    case BeginBody =>
      // the body is read through the stream itself, up to the end of the record
      var body := Deliver(m, Cursor(BEGIN_BODY_LEN, h.paddingLength, skip, true), after);
      if skip || |after| < BEGIN_BODY_LEN then Outcome([], Closed(PROTOCOL_ERROR), body.rest, [])
      else
        Outcome([], Begun(h.id, BodyRole(after[..BEGIN_BODY_LEN]), BodyKeepConn(after[..BEGIN_BODY_LEN]),
                          h.paddingLength),
                after[BEGIN_BODY_LEN..], [])
  }

  // Handing out part of the content, or part of the padding, changes nothing.

  lemma DeliverChunk(m: Mode, c: Cursor, r: seq<byte>, count: nat)
    requires 0 < count <= c.contentLen && count <= |r| && !c.skip
    ensures Deliver(m, c, r)
            == Deliver(m, c.(contentLen := c.contentLen - count), r[count..]).Prepend(r[..count])
  {
    if c.contentLen > |r| {
      assert r == r[..count] + r[count..];
    } else if count < c.contentLen {
      assert r[count..][c.contentLen - count..] == r[c.contentLen..];
      assert r[..c.contentLen] == r[..count] + r[count..][..c.contentLen - count];
      var o := Deliver(m, c.(contentLen := 0), r[c.contentLen..]);
      assert r[..count] + (r[count..][..c.contentLen - count] + o.data) == r[..c.contentLen] + o.data;
    }
  }

  lemma SkipChunk(m: Mode, c: Cursor, r: seq<byte>, count: nat)
    requires 0 < count <= c.contentLen && count <= |r| && c.skip
    ensures Deliver(m, c, r)
            == if count < c.contentLen then Deliver(m, c.(contentLen := c.contentLen - count), r[count..])
               else AfterContent(m, c.(contentLen := 0, skip := false), r[count..])
  {
    if count < c.contentLen <= |r| {
      assert r[count..][c.contentLen - count..] == r[c.contentLen..];
    }
  }

  lemma PaddingChunk(m: Mode, c: Cursor, r: seq<byte>, count: nat)
    requires c.contentLen == 0 && 0 < count <= c.paddingLen && count <= |r|
    ensures AfterContent(m, c, r) == AfterContent(m, c.(paddingLen := c.paddingLen - count), r[count..])
    ensures count < c.paddingLen ==>
              AfterContent(m, c, r) == Deliver(m, c.(paddingLen := c.paddingLen - count), r[count..])
  {
    if c.paddingLen <= |r| {
      assert r[count..][c.paddingLen - count..] == r[c.paddingLen..];
    }
  }

  /** A connection that ends early breaks the stream off. */
  lemma NothingLeft(m: Mode, c: Cursor, skip: bool, header: seq<byte>)
    requires |header| < HEADER_LEN
    ensures Deliver(m, c, []) == Broken([]) && AtHeader(m, skip, header) == Broken([])
  {
  }

  /** Without content left, padding is next, then a header or the end of the record. */
  lemma ContentDone(m: Mode, c: Cursor, r: seq<byte>)
    requires c.contentLen == 0
    ensures r != [] || c.paddingLen > 0 || !c.eorStop ==> Deliver(m, c, r) == AfterContent(m, c, r)
    ensures c.paddingLen == 0 ==>
              AfterContent(m, c, r) == if c.eorStop then Outcome([], Closed(0), r, []) else AtHeader(m, c.skip, r)
  {
  }

  lemma HeaderRead(m: Mode, skip: bool, header: seq<byte>, after: seq<byte>)
    requires |header| == HEADER_LEN
    ensures AtHeader(m, skip, header + after) == OnHeader(m, skip, ParseHeader(header), after)
  {
    assert (header + after)[..HEADER_LEN] == header && (header + after)[HEADER_LEN..] == after;
  }

  /** Within one record delivery concerns that record only: it depends on no
      request, writes nothing back, and hands out the record's content. */
  lemma {:induction false} InRecord(m: Mode, m': Mode, c: Cursor, r: seq<byte>)
    requires c.eorStop
    ensures Deliver(m, c, r) == Deliver(m', c, r)
    ensures var o := Deliver(m, c, r);
            && o.replies == []
            && (o.ending == Closed(0) || o.ending == Closed(PROTOCOL_ERROR))
            && o.data == (if c.skip then [] else r[..Min(c.contentLen, |r|)])
            && |o.rest| <= |r|
    decreases |r|
  {
    if 0 < c.contentLen <= |r| && !c.skip {
      InRecord(m, m', c.(contentLen := 0), r[c.contentLen..]);
    }
  }
}
