/** A request on its way from the web server to the application. */
module RequestTheorems {
  import opened Bytes
  import opened FcgiRecords
  import opened NameValues
  import opened ReaderSpec
  import opened Delivery
  import opened ServerSpec
  import Server
  import Accept

  ghost predicate AllOwn(m: ReaderSpec.Mode, rs: seq<Record>) {
    forall r :: r in rs ==> r.Valid() && Own(m, r)
  }

  lemma {:induction false} KeptOwn(m: ReaderSpec.Mode, rs: seq<Record>)
    requires Receiving(m) && AllOwn(m, rs)
    ensures Kept(m, rs, false) == Concat(rs) && Replies(m, rs) == []
  {
    if rs != [] {
      assert rs[0] in rs;
      KeptOwn(m, rs[1..]);
    }
  }

  /** Data records and the record that ends their stream, as a server sends them. */
  lemma OwnStream(m: ReaderSpec.Mode, rs: seq<Record>, tail: seq<byte>)
    requires Receiving(m) && m.id == REQUEST_ID && AllOwn(m, rs)
    ensures AllValid(rs)
    ensures Deliver(m, BETWEEN_RECORDS, EncodeAll(rs) + (Encode(Chunk(m.typ, [])) + tail))
            == Outcome(Concat(rs), Closed(0), tail, [])
  {
    hide Deliver, Encode;
    KeptOwn(m, rs);
    WholeStream(m, rs, [], tail);
    assert [] + tail == tail;
  }

  lemma {:induction false} ConcatChunks(typ: byte, bytes: seq<byte>)
    ensures Concat(Chunks(typ, bytes)) == bytes
    decreases |bytes|
  {
    if |bytes| > MAX_LENGTH {
      ConcatChunks(typ, bytes[MAX_LENGTH..]);
      assert ([Chunk(typ, bytes[..MAX_LENGTH])] + Chunks(typ, bytes[MAX_LENGTH..]))[1..]
             == Chunks(typ, bytes[MAX_LENGTH..]);
      assert bytes[..MAX_LENGTH] + bytes[MAX_LENGTH..] == bytes;
    } else {
      assert [Chunk(typ, bytes)][1..] == [] && bytes + [] == bytes;
    }
  }

  lemma {:induction false} ConcatPieces(typ: byte, pieces: seq<seq<byte>>)
    ensures Concat(Pieces(typ, pieces)) == Flatten(pieces)
  {
    if pieces != [] {
      ConcatPieces(typ, pieces[1..]);
      assert Pieces(typ, pieces)[1..] == Pieces(typ, pieces[1..]);
    }
  }

  /** A record that starts a request, with padding. */
  function PaddedBegin(role: nat, padding: seq<byte>): Record {
    Begin(role).(padding := padding)
  }

  /** A starting record is taken, and its padding is left unread. */
  lemma BeginPaddingUnread(staleId: nat, role: nat, padding: seq<byte>, tail: seq<byte>)
    requires role < 0x10000 && |padding| < 0x100
    ensures PaddedBegin(role, padding).Valid()
    ensures Deliver(Mode(0, staleId, false), BETWEEN_RECORDS, Encode(PaddedBegin(role, padding)) + tail)
            == Outcome([], Begun(REQUEST_ID, role, false, |padding|), padding + tail, [])
  {
    hide AfterContent, AtHeader, Encode;
    var m, r := Mode(0, staleId, false), PaddedBegin(role, padding);
    var w := Encode(r) + tail;
    EncodedParts(r, tail);
    ContentDone(m, BETWEEN_RECORDS, w);
    assert w == w[..HEADER_LEN] + w[HEADER_LEN..];
    HeaderRead(m, false, w[..HEADER_LEN], w[HEADER_LEN..]);
    var after := r.content + (padding + tail);
    assert after[..BEGIN_BODY_LEN] == r.content && after[BEGIN_BODY_LEN..] == padding + tail;
    BigEndian16RoundTrip(role);
    assert r.content[0] == BigEndian16(role)[0] && r.content[1] == BigEndian16(role)[1] && r.content[2] == 0;
  }

  /** A starting record without padding is taken whole. */
  lemma BeginTaken(staleId: nat, role: nat, tail: seq<byte>)
    requires role < 0x10000
    ensures Deliver(Mode(0, staleId, false), BETWEEN_RECORDS, Encode(Begin(role)) + tail)
            == Outcome([], Begun(REQUEST_ID, role, false, 0), tail, [])
  {
    hide Deliver, Encode;
    BeginPaddingUnread(staleId, role, [], tail);
    assert PaddedBegin(role, []) == Begin(role);
    assert [] + tail == tail;
  }

  /** The unread bytes behind the parameters: the request body, and before it a
      second end of the parameters if there were none. */
  function BodyWire(params: seq<Pair>, body: seq<seq<byte>>, complete: bool, tail: seq<byte>): seq<byte>
    requires Sendable(body)
  {
    var end := if complete then Encode(Chunk(STDIN, [])) else [];
    var stdin := EncodeAll(Pieces(STDIN, body)) + (end + tail);
    if params == [] then Encode(Chunk(PARAMS, [])) + stdin else stdin
  }

  lemma ParamsTaken(params: seq<Pair>, stdin: seq<byte>)
    ensures AllValid(Chunks(PARAMS, EncodePairs(params)))
    ensures Deliver(Mode(PARAMS, REQUEST_ID, true), BETWEEN_RECORDS,
                    EncodeAll(Chunks(PARAMS, EncodePairs(params))) + (Encode(Chunk(PARAMS, [])) + stdin))
            == Outcome(EncodePairs(params), Closed(0),
                       if params == [] then Encode(Chunk(PARAMS, [])) + stdin else stdin, [])
  {
    hide Deliver, Encode, EncodePair;
    var m, enc := Mode(PARAMS, REQUEST_ID, true), EncodePairs(params);
    Server.ChunksValid(PARAMS, enc);
    EncodePairsEmpty(params);
    if params == [] {
      EncodeAllSingle(Chunk(PARAMS, []));
      OwnStream(m, [], Encode(Chunk(PARAMS, [])) + stdin);
      assert EncodeAll([]) + (Encode(Chunk(PARAMS, [])) + (Encode(Chunk(PARAMS, [])) + stdin))
          == Encode(Chunk(PARAMS, [])) + (Encode(Chunk(PARAMS, [])) + stdin);
    } else {
      ConcatChunks(PARAMS, enc);
      OwnStream(m, Chunks(PARAMS, enc), stdin);
    }
  }

  lemma RequestWire(params: seq<Pair>, body: seq<seq<byte>>, complete: bool, tail: seq<byte>)
    requires Sendable(body)
    ensures AllValid(RequestRecords(params, body, complete)) && AllValid(Chunks(PARAMS, EncodePairs(params)))
    ensures AllValid(Pieces(STDIN, body))
    ensures var end := if complete then Encode(Chunk(STDIN, [])) else [];
            EncodeAll(RequestRecords(params, body, complete)) + tail
            == Encode(Begin(RESPONDER)) + (EncodeAll(Chunks(PARAMS, EncodePairs(params))) + (Encode(Chunk(PARAMS, []))
               + (EncodeAll(Pieces(STDIN, body)) + (end + tail))))
  {
    hide Encode, EncodeAll, Chunks, Pieces, EncodePairs;
    Server.RequestEncoding(params, body, complete);
    assert EncodeAll(Chunks(PARAMS, [])) == Encode(Chunk(PARAMS, [])) by { Server.ChunksFirst(PARAMS, []); }
    Regroup6(Encode(Begin(RESPONDER)), EncodeAll(Chunks(PARAMS, EncodePairs(params))), Encode(Chunk(PARAMS, [])),
             EncodeAll(Pieces(STDIN, body)), if complete then Encode(Chunk(STDIN, [])) else [], tail);
  }

  lemma Regroup6(a: seq<byte>, b: seq<byte>, c: seq<byte>, d: seq<byte>, e: seq<byte>, f: seq<byte>)
    ensures a + b + c + d + e + f == a + (b + (c + (d + (e + f))))
  {
  }

  /** What the application makes of everything the server sends: the role and
      every parameter in order, and then the unread request body. */
  lemma RequestAccepted(staleId: nat, params: seq<Pair>, body: seq<seq<byte>>, complete: bool, tail: seq<byte>)
    requires Encodable(params) && Sendable(body)
    ensures AllValid(RequestRecords(params, body, complete)) && AllValid(Pieces(STDIN, body))
    ensures Accept.Acceptable(staleId, EncodeAll(RequestRecords(params, body, complete)) + tail)
            == Accept.Accepted(REQUEST_ID, RESPONDER, false, [Accept.RolePair(RESPONDER).value] + params, 0,
                               BodyWire(params, body, complete, tail), [])
  {
    hide Deliver, EncodeAll, Chunks, Pieces, EncodePairs, ParsePairs, Encode;
    RequestWire(params, body, complete, tail);
    var stdin := EncodeAll(Pieces(STDIN, body)) + ((if complete then Encode(Chunk(STDIN, [])) else []) + tail);
    BeginTaken(staleId, RESPONDER,
               EncodeAll(Chunks(PARAMS, EncodePairs(params))) + (Encode(Chunk(PARAMS, [])) + stdin));
    ParamsTaken(params, stdin);
    PairsRoundTrip(params);
  }

  /** Padding that does not begin with the version octet is read as a header,
      and a bad one: the request is accepted without any of its parameters. */
  lemma PaddedBeginLosesParams(staleId: nat, padding: seq<byte>, rest: seq<byte>)
    requires 0 < |padding| < 0x100 && padding[0] != VERSION_1 && |padding| + |rest| >= HEADER_LEN
    ensures PaddedBegin(RESPONDER, padding).Valid()
    ensures Accept.Acceptable(staleId, Encode(PaddedBegin(RESPONDER, padding)) + rest)
            == Accept.Accepted(REQUEST_ID, RESPONDER, false, [Accept.RolePair(RESPONDER).value], UNSUPPORTED_VERSION,
                               (padding + rest)[HEADER_LEN..], [])
  {
    hide Deliver, Encode, AfterContent;
    var m, w := Mode(PARAMS, REQUEST_ID, true), padding + rest;
    BeginPaddingUnread(staleId, RESPONDER, padding, rest);
    ContentDone(m, BETWEEN_RECORDS, w);
    assert w == w[..HEADER_LEN] + w[HEADER_LEN..] && w[..HEADER_LEN][0] == padding[0];
    HeaderRead(m, false, w[..HEADER_LEN], w[HEADER_LEN..]);
  }

  /** With such padding, or none, a request is accepted as it was sent if and
      only if there is none. */
  lemma PaddedBeginAccepted(staleId: nat, padding: seq<byte>, params: seq<Pair>, body: seq<seq<byte>>,
                            complete: bool, tail: seq<byte>)
    requires Encodable(params) && Sendable(body) && |padding| < 0x100 && (padding != [] ==> padding[0] != VERSION_1)
    ensures AllValid(RequestRecords(params, body, complete)) && AllValid(RequestRecords(params, body, complete)[1..])
    ensures PaddedBegin(RESPONDER, padding).Valid()
    ensures Accept.Acceptable(staleId, Encode(PaddedBegin(RESPONDER, padding))
                                       + (EncodeAll(RequestRecords(params, body, complete)[1..]) + tail))
            == Accept.Acceptable(staleId, EncodeAll(RequestRecords(params, body, complete)) + tail)
            <==> padding == []
    ensures params != [] ==>
              var a := Accept.Acceptable(staleId, Encode(PaddedBegin(RESPONDER, padding))
                                                  + (EncodeAll(RequestRecords(params, body, complete)[1..]) + tail));
              a.Accepted? && (a.env == [Accept.RolePair(RESPONDER).value] + params <==> padding == [])
  {
    hide EncodeAll, Encode, Accept.Acceptable, Chunks, Pieces, EncodePairs, BodyWire;
    RequestAccepted(staleId, params, body, complete, tail);
    var rs := RequestRecords(params, body, complete);
    var rest := EncodeAll(rs[1..]) + tail;
    assert rs == [Begin(RESPONDER)] + rs[1..];
    FirstEncoded(rs);
    ConcatAssociative(Encode(rs[0]), EncodeAll(rs[1..]), tail);
    if padding == [] {
      assert PaddedBegin(RESPONDER, []) == Begin(RESPONDER);
    } else {
      RestHasHeader(params, body, complete);
      PaddedBeginLosesParams(staleId, padding, rest);
    }
  }

  /** Padding that does begin with the version octet can be harmless: it may be
      a whole record of another request. */
  lemma PaddingPassedOver(staleId: nat, r: Record, rest: seq<byte>)
    requires r.Valid() && Foreign(Mode(PARAMS, REQUEST_ID, true), r) && r.typ != BEGIN_REQUEST && r.content != []
    requires |Encode(r)| < 0x100
    ensures PaddedBegin(RESPONDER, Encode(r)).Valid()
    ensures Accept.Acceptable(staleId, Encode(PaddedBegin(RESPONDER, Encode(r))) + rest)
            == Accept.Acceptable(staleId, Encode(Begin(RESPONDER)) + rest)
  {
    hide Deliver, Encode;
    var m := Mode(PARAMS, REQUEST_ID, true);
    BeginPaddingUnread(staleId, RESPONDER, Encode(r), rest);
    BeginTaken(staleId, RESPONDER, rest);
    OneRecord(m, r, false, rest);
    var o := Deliver(m, BETWEEN_RECORDS, rest);
    assert [] + o.data == o.data && [] + o.replies == o.replies;
  }

  lemma FirstEncoded(rs: seq<Record>)
    requires rs != [] && AllValid(rs)
    ensures AllValid(rs[1..]) && EncodeAll(rs) == Encode(rs[0]) + EncodeAll(rs[1..])
  {
  }

  /** What follows the starting record is at least a header long. */
  lemma RestHasHeader(params: seq<Pair>, body: seq<seq<byte>>, complete: bool)
    requires AllValid(RequestRecords(params, body, complete)[1..])
    ensures |EncodeAll(RequestRecords(params, body, complete)[1..])| >= HEADER_LEN
  {
    var rs := RequestRecords(params, body, complete)[1..];
    assert |Encode(rs[0])| >= HEADER_LEN;
  }

  /** What reading to the end of a request body yields. */
  function BodyOf(params: seq<Pair>, body: seq<seq<byte>>): seq<byte> {
    if params == [] then [] else Flatten(body)
  }

  /** Reading the body to its end yields exactly what the client sent, unless
      there were no parameters: then the stream breaks off at once. The end is
      a clean one if the client sent all it had promised. */
  lemma BodyDelivered(params: seq<Pair>, body: seq<seq<byte>>, complete: bool, tail: seq<byte>)
    requires Sendable(body) && (!complete ==> tail == [])
    ensures var o := Deliver(Mode(STDIN, REQUEST_ID, true), BETWEEN_RECORDS, BodyWire(params, body, complete, tail));
            && o.data == BodyOf(params, body) && o.replies == []
            && o.ending == Closed(if params != [] && complete then 0 else PROTOCOL_ERROR)
            && (params != [] ==> o.rest == tail)
  {
    hide Deliver, AfterContent, AtHeader, Encode, Flatten;
    var m, pieces := Mode(STDIN, REQUEST_ID, true), Pieces(STDIN, body);
    if params == [] {
      var end := if complete then Encode(Chunk(STDIN, [])) else [];
      var r, after := Chunk(PARAMS, []), EncodeAll(pieces) + (end + tail);
      var w := Encode(r) + after;
      EncodedParts(r, after);
      ContentDone(m, BETWEEN_RECORDS, w);
      assert w == w[..HEADER_LEN] + w[HEADER_LEN..];
      HeaderRead(m, false, w[..HEADER_LEN], w[HEADER_LEN..]);
    } else if complete {
      ConcatPieces(STDIN, body);
      OwnStream(m, pieces, tail);
    } else {
      ConcatPieces(STDIN, body);
      OpenStream(m, pieces);
      assert [] + tail == [] && EncodeAll(pieces) + [] == EncodeAll(pieces);
    }
  }

  /** A request whose parameters end in a record with padding. */
  function PaddedEnd(params: seq<Pair>, padding: seq<byte>, stdin: seq<byte>): seq<byte>
    requires AllValid(Chunks(PARAMS, EncodePairs(params))) && |padding| < 0x100
  {
    Encode(Begin(RESPONDER))
    + (EncodeAll(Chunks(PARAMS, EncodePairs(params))) + (Encode(Record(PARAMS, REQUEST_ID, [], padding)) + stdin))
  }

  /** It is accepted with all of its parameters, and the padding is left in
      front of the body. */
  lemma PaddedEndAccepted(staleId: nat, params: seq<Pair>, padding: seq<byte>, stdin: seq<byte>)
    requires Encodable(params) && params != [] && |padding| < 0x100
    ensures AllValid(Chunks(PARAMS, EncodePairs(params)))
    ensures Accept.Acceptable(staleId, PaddedEnd(params, padding, stdin))
            == Accept.Accepted(REQUEST_ID, RESPONDER, false, [Accept.RolePair(RESPONDER).value] + params, 0,
                               padding + stdin, [])
  {
    hide Deliver, EncodeAll, Chunks, EncodePairs, ParsePairs, Encode;
    var m, enc := Mode(PARAMS, REQUEST_ID, true), EncodePairs(params);
    Server.ChunksValid(PARAMS, enc);
    EncodePairsEmpty(params);
    ConcatChunks(PARAMS, enc);
    KeptOwn(m, Chunks(PARAMS, enc));
    WholeStream(m, Chunks(PARAMS, enc), padding, stdin);
    var end := Encode(Record(PARAMS, REQUEST_ID, [], padding));
    ConcatAssociative(EncodeAll(Chunks(PARAMS, enc)), end, stdin);
    BeginTaken(staleId, RESPONDER, EncodeAll(Chunks(PARAMS, enc)) + (end + stdin));
    PairsRoundTrip(params);
  }

  /** Unless that padding begins with the version octet, the body arrives whole
      if and only if there is none; otherwise nothing of it does. */
  lemma PaddedEndLosesBody(params: seq<Pair>, padding: seq<byte>, body: seq<seq<byte>>, tail: seq<byte>)
    requires Sendable(body) && params != [] && |padding| < 0x100 && (padding != [] ==> padding[0] != VERSION_1)
    ensures var o := Deliver(Mode(STDIN, REQUEST_ID, true), BETWEEN_RECORDS,
                             padding + BodyWire(params, body, true, tail));
            && (o.data == Flatten(body) && o.ending == Closed(0) <==> padding == [])
            && (padding != [] ==> o.data == [] && o.ending == Closed(UNSUPPORTED_VERSION))
  {
    hide Deliver, AfterContent, Encode, Flatten, EncodeAll;
    var m, stdin := Mode(STDIN, REQUEST_ID, true), BodyWire(params, body, true, tail);
    BodyDelivered(params, body, true, tail);
    if padding == [] {
      assert padding + stdin == stdin;
    } else {
      assert |Encode(Chunk(STDIN, []))| == HEADER_LEN by { EncodedSize(Chunk(STDIN, [])); }
      var w := padding + stdin;
      ContentDone(m, BETWEEN_RECORDS, w);
      assert w == w[..HEADER_LEN] + w[HEADER_LEN..] && w[..HEADER_LEN][0] == padding[0];
      HeaderRead(m, false, w[..HEADER_LEN], w[HEADER_LEN..]);
    }
  }

  lemma EncodedSize(r: Record)
    requires r.Valid()
    ensures |Encode(r)| == HEADER_LEN + |r.content| + |r.padding|
  {
  }

  /** Data records without the end of their stream deliver their contents and break off. */
  lemma OpenStream(m: ReaderSpec.Mode, rs: seq<Record>)
    requires Receiving(m) && AllOwn(m, rs)
    ensures AllValid(rs) && Deliver(m, BETWEEN_RECORDS, EncodeAll(rs)) == Broken(Concat(rs))
  {
    hide Deliver, Encode;
    KeptOwn(m, rs);
    Records(m, rs, false, []);
    NothingLeft(m, Between(SkipAfterAll(m, rs, false)), false, []);
    assert EncodeAll(rs) + [] == EncodeAll(rs) && Concat(rs) + [] == Concat(rs);
  }
}

/** A whole exchange between a web server and an application. */
module Exchanges {
  import opened Bytes
  import opened Connections
  import opened FcgiRecords
  import opened NameValues
  import opened Requests
  import opened Readers
  import opened Writers
  import opened WriterSpec
  import opened WriterRuns
  import opened ServerSpec
  import opened Server
  import opened Responses
  import opened RequestTheorems
  import opened SocketBuffers
  import opened WireOctets
  import EnvParams
  import ReaderSpec
  import Accept

  /** Opens the output streams of a request that has been accepted. */
  method OpenWriters(req: Request, misaligned: bool) returns (out: Writer, err: Writer)
    requires req.requestId < 0x10000
    modifies req`nWriters
    ensures fresh(out) && fresh(err) && fresh(out.buff) && fresh(err.buff) && out.req == req && Paired(out, err)
    ensures Implements(out, err, [])
            == Start(req.requestId, req.appStatus, Accept.BufferLength(8192, misaligned) - HEADER_LEN,
                     Accept.BufferLength(512, misaligned) - HEADER_LEN)
  {
    out := new Writer(req, Accept.BufferLength(8192, misaligned), STDOUT);
    err := new Writer(req, Accept.BufferLength(512, misaligned), STDERR);
    req.nWriters := 2;
  }

  /** The output an application starts a request with. */
  function Opened(id: nat, appStatus: int, misaligned: bool): (s: Session)
    requires id < 0x10000
    ensures s.Valid()
  {
    Start(id, appStatus, Accept.BufferLength(8192, misaligned) - HEADER_LEN,
          Accept.BufferLength(512, misaligned) - HEADER_LEN)
  }

  /** The environment of a request: its role, then its parameters in order. */
  function Environment(params: seq<Pair>): seq<seq<byte>> {
    Entries([Accept.RolePair(RESPONDER).value] + params)
  }

  /** An application takes a request a server has sent. */
  method TakeRequest(req: Request, misaligned: bool, ghost params: seq<Pair>, ghost body: seq<seq<byte>>,
                     ghost complete: bool)
    returns (envp: array<Option<seq<byte>>>, stream: Reader)
    requires Encodable(params) && Sendable(body) && AllValid(RequestRecords(params, body, complete))
    requires req.ipc.incoming == EncodeAll(RequestRecords(params, body, complete)) && req.ipc.outgoing == []
    modifies req`requestId, req`role, req`keepConnection, req`isBeginProcessed, req.ipc
    ensures fresh(stream) && fresh(stream.buff) && stream.req == req && stream.Valid()
    ensures req.isBeginProcessed && req.requestId == REQUEST_ID && req.role == RESPONDER && !req.keepConnection
    ensures EnvParams.UpToNull(envp[..]) == Environment(params) && Plays(EnvParams.UpToNull(envp[..]), 1)
    ensures req.ipc.outgoing == []
    ensures var o := stream.Future();
            && o.data == BodyOf(params, body) && o.replies == []
            && o.ending == ReaderSpec.Closed(if params != [] && complete then 0 else ReaderSpec.PROTOCOL_ERROR)
  {
    hide EncodeAll, RequestRecords, ReaderSpec.Deliver, Accept.Acceptable, BodyWire, Accept.RolePair, BodyOf, Plays;
    RolePlayed(1, params);
    assert req.ipc.incoming + [] == req.ipc.incoming;
    RequestAccepted(req.requestId, params, body, complete, []);
    BodyDelivered(params, body, complete, []);
    var ok, env;
    ok, stream, env := Accept.AcceptRequest(req, misaligned);
    envp := env.vec;
    EnvParams.UpToNullOf(envp[..], env.Contents());
    assert stream.buff[stream.rdNext..stream.stop] == [] && [] + BodyOf(params, body) == BodyOf(params, body);
  }

  /** What an application does with a request: it reads, and it writes. */
  datatype Step = Read(call: Call) | Write(op: Op)

  function Writes(steps: seq<Step>): seq<Op> {
    if steps == [] then [] else (if steps[0].Write? then [steps[0].op] else []) + Writes(steps[1..])
  }

  /** Nothing in what is still to be read asks for an answer. */
  ghost predicate Answered(o: ReaderSpec.Outcome) {
    o.replies == [] && !o.ending.NotModelled?
  }

  /** One read of the body, with nothing to answer meanwhile. */
  method ReadSome(stream: Reader, call: Call) returns (got: seq<byte>, atEnd: bool)
    requires stream.Valid() && stream.req.isBeginProcessed && Answered(stream.Unread())
    modifies stream, stream.buff, stream.req`requestId, stream.req`role, stream.req`keepConnection
    modifies stream.req`isBeginProcessed, stream.req.ipc
    ensures stream.Valid() && stream.SameStream() && stream.req.ipc.outgoing == old(stream.req.ipc.outgoing)
    ensures stream.Unread().Prepend(got) == old(stream.Unread())
    ensures atEnd ==> got == old(stream.Unread()).data
  {
    hide ReaderSpec.Deliver, Reader.Unread;
    ghost var before, sent := stream.Unread(), stream.req.ipc.outgoing;
    got, atEnd := stream.Perform([call]);
    assert sent + [] == sent == stream.req.ipc.outgoing + stream.Unread().replies;
  }

  /** A request's input stream, with nothing left to answer, beside its two
      output streams, which have put the session s on the connection. */
  ghost predicate Together(stream: Reader, out: Writer, err: Writer, s: Session)
    reads stream, stream.buff, out, err, out.buff, err.buff, out.req, out.req.ipc, err.req, stream.req, stream.req.ipc
  {
    && stream.Valid() && stream.req == out.req && out.req.isBeginProcessed && Answered(stream.Unread())
    && stream.buff != out.buff && stream.buff != err.buff
    && Paired(out, err) && s == Implements(out, err, s.log) && Carries(s, [], out.req.ipc.outgoing)
  }

  /** Reading leaves the output as it is. */
  method ReadBeside(stream: Reader, call: Call, out: Writer, err: Writer, ghost s: Session)
    returns (got: seq<byte>, atEnd: bool)
    requires Together(stream, out, err, s)
    modifies stream, stream.buff, stream.req`requestId, stream.req`role, stream.req`keepConnection
    modifies stream.req`isBeginProcessed, stream.req.ipc
    ensures Together(stream, out, err, s) && stream.Valid()
    ensures stream.Unread().Prepend(got) == old(stream.Unread()) && (atEnd ==> got == old(stream.Unread()).data)
  {
    hide Reader.Unread, Carries;
    got, atEnd := ReadSome(stream, call);
  }

  /** Writing leaves the input as it is. */
  method WriteBeside(stream: Reader, op: Op, out: Writer, err: Writer, ghost s: Session)
    requires Together(stream, out, err, s)
    modifies out, err, out.buff, err.buff, out.req`nWriters, out.req`appStatus, out.req.ipc`outgoing
    ensures s.Valid() && Apply(s, op).Valid() && Together(stream, out, err, Apply(s, op))
    ensures stream.Valid() && stream.Unread() == old(stream.Unread())
  {
    hide Reader.Unread, Apply;
    Do(op, out, err, s, []);
  }

  /** Reads and writes in any order: the reads get the body, the writes are a
      run of the output, and neither disturbs the other. */
  method Interact(stream: Reader, out: Writer, err: Writer, steps: seq<Step>, ghost s: Session)
    returns (got: seq<byte>, sawEnd: bool)
    requires Together(stream, out, err, s) && stream.Valid() && s.Valid() && stream.req == out.req
    modifies stream, stream.buff, out, err, out.buff, err.buff, out.req, out.req.ipc
    ensures Together(stream, out, err, Run(s, Writes(steps)))
    ensures got <= old(stream.Unread()).data && (sawEnd ==> got == old(stream.Unread()).data)
  {
    hide Reader.Unread, Apply, Together;
    got, sawEnd := [], false;
    ghost var now, o := s, stream.Unread();
    assert [] + o.data == o.data;
    for i := 0 to |steps|
      invariant Together(stream, out, err, now) && stream.Valid() && now.Valid()
      invariant Run(now, Writes(steps[i..])) == Run(s, Writes(steps))
      invariant stream.Unread().Prepend(got) == o
      invariant sawEnd ==> stream.Unread().data == []
    {
      assert steps[i..][0] == steps[i] && steps[i..][1..] == steps[i + 1..];
      match steps[i] {
        case Read(call) =>
          var more, atEnd := ReadBeside(stream, call, out, err, now);
          assert [] + Writes(steps[i + 1..]) == Writes(steps[i + 1..]);
          ConcatAssociative(got, more, stream.Unread().data);
          got := got + more;
          sawEnd := sawEnd || atEnd;
        case Write(op) =>
          assert ([op] + Writes(steps[i + 1..]))[1..] == Writes(steps[i + 1..]);
          WriteBeside(stream, op, out, err, now);
          now := Apply(now, op);
      }
    }
    assert sawEnd ==> got + [] == got;
  }

  /** An application deals with a request it has taken, and finishes it. */
  method Respond(req: Request, stream: Reader, misaligned: bool, steps: seq<Step>)
    returns (got: seq<byte>, sawEnd: bool)
    requires stream.Valid() && stream.req == req && req.isBeginProcessed && Answered(stream.Unread())
    requires req.requestId < 0x10000 && req.ipc.outgoing == []
    modifies stream, stream.buff, req, req.ipc
    ensures var s := Finish(Run(old(Opened(req.requestId, req.appStatus, misaligned)), Writes(steps)));
            AllValid(s.log) && req.ipc.outgoing == EncodeAll(s.log)
    ensures got <= old(stream.Unread()).data && (sawEnd ==> got == old(stream.Unread()).data)
  {
    hide EncodeAll, Run, Finish, Reader.Unread, Writes;
    var out, err := OpenWriters(req, misaligned);
    ghost var s := Implements(out, err, []);
    assert EncodeAll([]) == [] by { NoRecords(); }
    assert [] + EncodeAll([]) == EncodeAll([]);
    got, sawEnd := Interact(stream, out, err, steps, s);
    s := Run(s, Writes(steps));
    FinishRequest(out, err, s, []);
    s := Finish(s);
    assert [] + EncodeAll(s.log) == EncodeAll(s.log);
  }

  /** An application on a connection that brings a request: it takes the
      request, reads of its body and writes its output, and finishes. */
  method Serve(ipc: Connection, misaligned: bool, steps: seq<Step>, ghost params: seq<Pair>, ghost body: seq<seq<byte>>,
               ghost complete: bool)
    returns (envp: array<Option<seq<byte>>>, got: seq<byte>, sawEnd: bool)
    requires Encodable(params) && Sendable(body) && AllValid(RequestRecords(params, body, complete))
    requires ipc.incoming == EncodeAll(RequestRecords(params, body, complete)) && ipc.outgoing == []
    modifies ipc
    ensures EnvParams.UpToNull(envp[..]) == Environment(params) && Plays(EnvParams.UpToNull(envp[..]), 1)
    ensures got <= BodyOf(params, body) && (sawEnd ==> got == BodyOf(params, body))
    ensures var s := Finish(Run(Opened(REQUEST_ID, 0, misaligned), Writes(steps)));
            AllValid(s.log) && ipc.outgoing == EncodeAll(s.log)
  {
    hide EncodeAll, RequestRecords, Run, Finish, Environment, BodyOf, ReaderSpec.Deliver, Reader.Unread, Plays;
    var req := new Request(ipc);
    var stream;
    envp, stream := TakeRequest(req, misaligned, params, body, complete);
    got, sawEnd := Respond(req, stream, misaligned, steps);
  }

  /** The whole exchange. The application finds the role and the parameters in
      its environment, reads a front part of what the client sent, all of it if
      it reads to the end, and the server gets back what the application put
      on its output stream, unless it has given the client up: all of that is
      decided by what the two sides ask for, and none of it by how the bytes
      travel. */
  method Exchange(params: seq<Pair>, client: SocketBuffer, contentLength: nat, misaligned: bool, steps: seq<Step>,
                  rounds: nat)
    returns (envp: array<Option<seq<byte>>>, got: seq<byte>, sawEnd: bool, response: Response)
    requires Encodable(params) && client.Valid()
    modifies client, client.buffer, client.sock`incoming
    ensures EnvParams.UpToNull(envp[..]) == Environment(params) && Plays(EnvParams.UpToNull(envp[..]), 1)
    ensures var body := if params == [] then [] else old(client.Data())[..Min(contentLength, |old(client.Data())|)];
            got <= body && (sawEnd ==> got == body)
    ensures var s0, ops := Opened(REQUEST_ID, 0, misaligned), Writes(steps);
            var log := Finish(Run(s0, ops)).log;
            && AllValid(log)
            && (contentLength > |old(client.Data())| ==> response == Response.Failed)
            && (response.Complete? ==> response.stdout == Added(s0, ops, Out))
            && (contentLength <= |old(client.Data())| && rounds > |EncodeAll(log)| ==>
                  (response.Complete? <==> Added(s0, ops, Err) == [] && Fits(log, 0, 0)))
  {
    hide EncodeAll, RequestRecords, Run, Finish, Fits, Added, Deframed, Environment, Plays;
    var server := new Connection([]);
    ghost var body;
    var ok;
    ok, body := SendRequest(server, params, client, contentLength);
    FullPiecesMakeUp(old(client.Data())[..Min(contentLength, |old(client.Data())|)]);
    assert [] + EncodeAll(RequestRecords(params, body, ok)) == EncodeAll(RequestRecords(params, body, ok));
    var application := new Connection(server.outgoing);
    envp, got, sawEnd := Serve(application, misaligned, steps, params, body, ok);
    server.incoming := application.outgoing;
    ghost var s0 := Opened(REQUEST_ID, 0, misaligned);
    OutputArrives(REQUEST_ID, 0, s0.out.capacity, s0.err.capacity, Writes(steps), s0, Finish(Run(s0, Writes(steps))).log);
    if ok {
      response := ReadResponse(server, rounds);
    } else {
      response := Response.Failed;
    }
  }

  lemma NoRecords()
    ensures EncodeAll([]) == []
  {
  }
}
