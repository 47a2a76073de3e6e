/** Taking a request from a connection: its role, its environment, and the
    input stream positioned at the request body. */
module Accept {
  import opened Bytes
  import opened Connections
  import opened FcgiRecords
  import opened ReaderSpec
  import opened Requests
  import opened Readers
  import opened NameValues
  import opened EnvParams

  /** The rest of a length whose first octet is `first`. */
  method ReadLength(first: byte, stream: Reader) returns (ok: bool, n: nat)
    requires stream.Valid() && stream.req.isBeginProcessed
    modifies stream, stream.buff, stream.req`requestId, stream.req`role, stream.req`keepConnection
    modifies stream.req`isBeginProcessed, stream.req.ipc
    ensures stream.Valid() && stream.SameStream()
    ensures ok <==> TakeLength([first] + old(stream.Future()).data).Some?
    ensures ok ==> && TakeLength([first] + old(stream.Future()).data) == Some((n, stream.Future().data))
                   && stream.Future() == old(stream.Future()).(data := stream.Future().data)
  {
    hide Deliver, AfterContent, AtHeader, OnHeader;
    ghost var d := stream.Future().data;
    assert ([first] + d)[1..] == d;
    if first < 0x80 {
      return true, first;
    }
    var lenBuff := stream.GetStr(3);
    assert |lenBuff| < 3 ==> d == lenBuff + [];
    if |lenBuff| != 3 {
      stream.SetError(PARAMS_ERROR);
      return false, 0;
    }
    assert ([first] + d)[4..] == stream.Future().data;
    return true, LongLength(first, lenBuff[0], lenBuff[1], lenBuff[2]);
  }

  /** The two lengths in front of a pair, whose first octet the caller has read. */
  method ReadLengths(first: byte, stream: Reader) returns (ok: bool, nameLen: nat, valueLen: nat)
    requires stream.Valid() && stream.req.isBeginProcessed
    modifies stream, stream.buff, stream.req`requestId, stream.req`role, stream.req`keepConnection
    modifies stream.req`isBeginProcessed, stream.req.ipc
    ensures stream.Valid() && stream.SameStream()
    ensures ok <==> TakeLengths([first] + old(stream.Future()).data).Some?
    ensures ok ==>
              var d := stream.Future().data;
              && TakeLengths([first] + old(stream.Future()).data) == Some((nameLen, valueLen, d))
              && stream.Future() == old(stream.Future()).(data := d)
  {
    hide Deliver, AfterContent, AtHeader, OnHeader, TakeLength;
    valueLen := 0;
    ok, nameLen := ReadLength(first, stream);
    if ok {
      ghost var d1 := stream.Future().data;
      var c := stream.GetChar();
      if c == EOF {
        TakeLengthEmpty();
        stream.SetError(PARAMS_ERROR);
        ok := false;
        return;
      }
      assert d1 == [c as byte] + stream.Future().data;
      ok, valueLen := ReadLength(c as byte, stream);
    }
  }

  /** The name and value of a pair. */
  method ReadText(nameLen: nat, valueLen: nat, stream: Reader) returns (ok: bool, pair: Pair)
    requires stream.Valid() && stream.req.isBeginProcessed
    modifies stream, stream.buff, stream.req`requestId, stream.req`role, stream.req`keepConnection
    modifies stream.req`isBeginProcessed, stream.req.ipc
    ensures stream.Valid() && stream.SameStream()
    ensures ok <==> nameLen + valueLen <= |old(stream.Future()).data|
    ensures ok ==> && SplitPair(nameLen, valueLen, old(stream.Future()).data) == (pair, stream.Future().data)
                   && stream.Future() == old(stream.Future()).(data := stream.Future().data)
  {
    hide Deliver, AfterContent, AtHeader, OnHeader;
    pair := Pair([], []);
    ghost var d2 := stream.Future().data;
    var name := stream.GetStr(nameLen);
    if |name| != nameLen {
      assert d2 == name + [];
      stream.SetError(PARAMS_ERROR);
      return false, pair;
    }
    var value := stream.GetStr(valueLen);
    if |value| != valueLen {
      assert d2 == name + (value + []);
      stream.SetError(PARAMS_ERROR);
      return false, pair;
    }
    ConcatAssociative(name, value, stream.Future().data);
    Cut(name, value, stream.Future().data);
    return true, Pair(name, value);
  }

  datatype Next = AtEnd | Partial | Whole(pair: Pair)

  /** What the next step of reading pairs makes of the data ahead. */
  ghost predicate Yields(before: Outcome, after: Outcome, next: Next) {
    match next
    case AtEnd => before.data == [] && after == before
    case Partial => before.data != [] && TakePair(before.data) == None
    case Whole(pair) => && before.data != [] && after == before.(data := after.data)
                        && TakePair(before.data) == Some((pair, after.data))
  }

  /** The next pair of the stream, if it is there in full. */
  method ReadNext(stream: Reader) returns (next: Next)
    requires stream.Valid() && stream.req.isBeginProcessed
    modifies stream, stream.buff, stream.req`requestId, stream.req`role, stream.req`keepConnection
    modifies stream.req`isBeginProcessed, stream.req.ipc
    ensures stream.Valid() && stream.SameStream()
    ensures Yields(old(stream.Future()), stream.Future(), next)
    ensures next == AtEnd ==> stream.isClosed
  {
    hide Deliver, AfterContent, AtHeader, OnHeader, TakeLengths;
    ghost var d := stream.Future().data;
    var c := stream.GetChar();
    if c == EOF {
      return AtEnd;
    }
    assert d == [c as byte] + stream.Future().data;
    var ok, nameLen, valueLen := ReadLengths(c as byte, stream);
    if !ok {
      return Partial;
    }
    var pair;
    ok, pair := ReadText(nameLen, valueLen, stream);
    return if ok then Whole(pair) else Partial;
  }

  /** The pairs taken so far, with the one in hand, are the front of those in
      the data the stream set out with. */
  ghost predicate SoFar(o: Outcome, now: Outcome, pairs: seq<Pair>, next: Next) {
    match next
    case AtEnd => now == o.(data := []) && ParsePairs(o.data) == Parsed(pairs, true)
    case Partial => ParsePairs(o.data) == Parsed(pairs, false)
    case Whole(pair) =>
      && now == o.(data := now.data)
      && ParsePairs(o.data) == Parsed(pairs + [pair] + ParsePairs(now.data).pairs, ParsePairs(now.data).complete)
  }

  lemma TakeOne(o: Outcome, now: Outcome, later: Outcome, pairs: seq<Pair>, pair: Pair, next: Next)
    requires SoFar(o, now, pairs, Whole(pair)) && Yields(now, later, next)
    ensures SoFar(o, later, pairs + [pair], next)
    ensures next.Whole? ==> |later.data| < |now.data|
  {
    if next.Whole? {
      ConcatAssociative(pairs + [pair], [next.pair], ParsePairs(later.data).pairs);
    } else {
      assert pairs + [pair] + [] == pairs + [pair];
    }
  }

  /** Reads pairs until the end of the stream and adds each as name=value.
      The result is decided by the delivered bytes alone: the whole pairs in
      front are added, and the call fails exactly when a partial one follows. */
  method ReadParams(params: Params, stream: Reader) returns (ok: bool)
    requires stream.Valid() && stream.req.isBeginProcessed && params.Valid()
    modifies stream, stream.buff, stream.req`requestId, stream.req`role, stream.req`keepConnection
    modifies stream.req`isBeginProcessed, stream.req.ipc, params, params.vec
    ensures stream.Valid() && stream.SameStream() && params.Valid()
    ensures params.vec == old(params.vec) || fresh(params.vec)
    ensures ok <==> ParsePairs(old(stream.Future()).data).complete
    ensures params.Contents() == old(params.Contents()) + Entries(ParsePairs(old(stream.Future()).data).pairs)
    ensures ok ==> stream.isClosed && stream.Future() == old(stream.Future()).(data := [])
  {
    hide Deliver, AfterContent, AtHeader, OnHeader, TakePair;
    ghost var o, before, pairs := stream.Future(), params.Contents(), [];
    assert before + Entries([]) == before;
    var next := ReadNext(stream);
    while next.Whole?
      invariant stream.Valid() && stream.SameStream() && params.Valid()
      invariant params.vec == old(params.vec) || fresh(params.vec)
      invariant params.Contents() == before + Entries(pairs)
      invariant SoFar(o, stream.Future(), pairs, next)
      invariant next.AtEnd? ==> stream.isClosed
      decreases if next.Whole? then 1 + |stream.Future().data| else 0
    {
      ghost var now := stream.Future();
      var pair := next.pair;
      AddEntry(before, pairs, pair);
      params.PutParam(Entry(pair));
      next := ReadNext(stream);
      TakeOne(o, now, stream.Future(), pairs, pair, next);
      pairs := pairs + [pair];
    }
    return next.AtEnd?;
  }

  lemma AddEntry(before: seq<seq<byte>>, ps: seq<Pair>, p: Pair)
    ensures before + Entries(ps + [p]) == before + Entries(ps) + [Entry(p)]
  {
    assert Entries(ps + [p]) == Entries(ps) + [Entry(p)];
  }

  const ROLE_NAME: seq<byte> := Ascii("FCGI_ROLE")

  function RolePair(role: nat): Option<Pair> {
    if role == RESPONDER then Some(Pair(ROLE_NAME, Ascii("RESPONDER")))
    else if role == AUTHORIZER then Some(Pair(ROLE_NAME, Ascii("AUTHORIZER")))
    else if role == FILTER then Some(Pair(ROLE_NAME, Ascii("FILTER")))
    else None
  }

  /** What accepting a request finds on a connection: the request, its
      environment, the error its parameter stream ended with (0 if none), the
      bytes after that stream, and what was written back. */
  datatype Acceptance =
    | Refused
    | NotModelled  // a management query came up; nothing is said
    | Accepted(id: nat, role: nat, keepConn: bool, env: seq<Pair>, code: int, rest: seq<byte>, replies: seq<byte>)

  function Acceptable(staleId: nat, wire: seq<byte>): Acceptance {
    var start := Deliver(Mode(0, staleId, false), BETWEEN_RECORDS, wire);
    match start.ending
    case Closed(_) => Refused
    case NotModelled => Acceptance.NotModelled
    case Begun(id, role, keepConn, _) =>
      // the padding of the record is not passed over
      var params := Deliver(Mode(PARAMS, id, true), BETWEEN_RECORDS, start.rest);
      var parsed := ParsePairs(params.data);
      if start.data != [] || RolePair(role) == None then Refused
      else if params.ending.NotModelled? then Acceptance.NotModelled
      else if !parsed.complete then Refused
      else
        Accepted(id, role, keepConn, [RolePair(role).value] + parsed.pairs,
                 if params.ending.Closed? then params.ending.code else 0, params.rest, start.replies + params.replies)
  }

  /** The usable length of a stream's buffer: an aligned part of what was allocated. */
  function BufferLength(bufflen: nat, misaligned: bool): (n: nat)
    ensures n % 8 == 0 && 24 <= n <= MAX_LENGTH + 1
    ensures var asked := if bufflen < 32 then 32 else if bufflen > MAX_LENGTH + 1 then MAX_LENGTH + 1 else bufflen;
            if misaligned then asked - 8 <= n < asked else asked <= n < asked + 8
  {
    var size := if bufflen < 32 then 32 else bufflen;
    var n := AlignInt8(Min(size, MAX_LENGTH + 1));
    if misaligned then n - 8 else n
  }

  /** Reads the record that starts a request. */
  method ReadStart(req: Request, bufflen: nat) returns (stream: Reader)
    requires bufflen > 0
    modifies req`requestId, req`role, req`keepConnection, req`isBeginProcessed, req.ipc
    ensures fresh(stream) && fresh(stream.buff) && stream.req == req && stream.Valid()
    ensures var start := Deliver(Mode(0, old(req.requestId), false), BETWEEN_RECORDS, old(req.ipc.incoming));
            start.ending.NotModelled? ||
            (&& (req.isBeginProcessed <==> start.data == [] && start.ending.Begun?)
             && (req.isBeginProcessed ==>
                   && start.ending == Begun(req.requestId, req.role, req.keepConnection, stream.paddingLen)
                   && start.rest == stream.From(stream.rdNext)
                   && req.ipc.outgoing == old(req.ipc.outgoing) + start.replies))
    ensures req.isBeginProcessed ==> stream.errno == 0
  {
    hide Deliver, AfterContent, AtHeader, OnHeader;
    req.isBeginProcessed := false;
    stream := new Reader(req, bufflen, 0);
    ghost var start := Deliver(Mode(0, req.requestId, false), BETWEEN_RECORDS, req.ipc.incoming);
    assert [] + start.data == start.data;
    stream.FillBuffProc();
  }

  /** Reads the parameter stream, and leaves the stream at the request body. */
  method ReadEnvironment(params: Params, stream: Reader) returns (ok: bool)
    requires stream.Bounds() && stream.errno == 0 && stream.req.isBeginProcessed && params.Valid()
    modifies stream, stream.buff, stream.req`requestId, stream.req`role, stream.req`keepConnection
    modifies stream.req`isBeginProcessed, stream.req.ipc, params, params.vec
    ensures stream.Valid() && params.Valid() && (params.vec == old(params.vec) || fresh(params.vec))
    ensures var req, o := stream.req, Deliver(Mode(PARAMS, stream.req.requestId, true), BETWEEN_RECORDS,
                                            old(stream.From(stream.rdNext)));
            && req.requestId == old(req.requestId) && req.isBeginProcessed
            && req.role == old(req.role) && req.keepConnection == old(req.keepConnection)
            && (o.ending.NotModelled? ||
                (&& (ok <==> ParsePairs(o.data).complete)
                 && params.Contents() == old(params.Contents()) + Entries(ParsePairs(o.data).pairs)
                 && (ok ==> AtBody(stream, o.ending, o.rest) && req.ipc.outgoing == old(req.ipc.outgoing) + o.replies)))
  {
    hide Deliver, AfterContent, AtHeader, OnHeader, ParsePairs;
    stream.SetReaderType(PARAMS);
    ghost var o := Deliver(Mode(PARAMS, stream.req.requestId, true), BETWEEN_RECORDS, stream.From(stream.rdNext));
    assert [] + o.data == o.data;
    ghost var sent := stream.req.ipc.outgoing;
    assert stream.Future() == o.Replying(sent);
    ok := ReadParams(params, stream);
    assert stream.req.ipc.outgoing + [] == stream.req.ipc.outgoing;
    if ok {
      assert EndingOf(stream.errno) == o.ending;
      stream.SetReaderType(STDIN);
    }
  }

  /** The stream is open at the start of the request body. */
  ghost predicate AtBody(stream: Reader, ending: Ending, rest: seq<byte>)
    reads stream, stream.buff, stream.req, stream.req.ipc
  {
    && stream.Valid() && stream.typ == STDIN && !stream.isClosed && stream.rdNext == stream.stop
    && EndingOf(stream.errno) == ending
    && stream.Position() == BETWEEN_RECORDS && stream.From(stream.rdNext) == rest
  }

  /** Reads from an open connection to get the request's role and environment. */
  method AcceptRequest(req: Request, misaligned: bool) returns (ok: bool, stream: Reader, params: Params)
    modifies req`requestId, req`role, req`keepConnection, req`isBeginProcessed, req.ipc
    ensures fresh(stream) && fresh(stream.buff) && stream.req == req && stream.Valid()
    ensures ok ==> req.isBeginProcessed && fresh(params) && fresh(params.vec) && params.Valid()
    ensures match Acceptable(old(req.requestId), old(req.ipc.incoming))
            case Refused => !ok
            case NotModelled => true
            case Accepted(id, role, keepConn, env, code, rest, replies) =>
              && ok && req.requestId == id && req.role == role && req.keepConnection == keepConn
              && params.Contents() == Entries(env)
              && AtBody(stream, Closed(code), rest)
              && req.ipc.outgoing == old(req.ipc.outgoing) + replies
  {
    hide Deliver, AfterContent, AtHeader, OnHeader, ParsePairs;
    ghost var sent, wire, staleId := req.ipc.outgoing, req.ipc.incoming, req.requestId;
    stream := ReadStart(req, BufferLength(8192, misaligned));
    params := new Params(30);
    if !req.isBeginProcessed {
      return false, stream, params;
    }
    var rolePair := RolePair(req.role);
    if rolePair == None {
      return false, stream, params;
    }
    params.PutParam(Entry(rolePair.value));
    ok := ReadEnvironment(params, stream);
    ghost var start := Deliver(Mode(0, staleId, false), BETWEEN_RECORDS, wire);
    ghost var o := Deliver(Mode(PARAMS, req.requestId, true), BETWEEN_RECORDS, start.rest);
    ConcatAssociative(sent, start.replies, o.replies);
    EntriesAfter(rolePair.value, ParsePairs(o.data).pairs);
  }

  lemma EntriesAfter(p: Pair, ps: seq<Pair>)
    ensures [] + [Entry(p)] + Entries(ps) == Entries([p] + ps)
  {
  }
}
