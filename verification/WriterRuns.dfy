/** Every run of a request's output: any puts, flushes and closes, in any
    order, on either stream, and then the end of the request. */
module WriterRuns {
  import opened Bytes
  import opened FcgiRecords
  import opened WriterSpec
  import opened WriterTheorems

  /** The records of one type, in order. */
  function Of(rs: seq<Record>, typ: byte): seq<Record> {
    if rs == [] then []
    else (if rs[0].typ == typ then [rs[0]] else []) + Of(rs[1..], typ)
  }

  lemma {:induction false} OfSum(a: seq<Record>, b: seq<Record>, typ: byte)
    ensures Of(a + b, typ) == Of(a, typ) + Of(b, typ)
  {
    if a == [] {
      assert a + b == b;
    } else {
      assert (a + b)[1..] == a[1..] + b && (a + b)[0] == a[0];
      OfSum(a[1..], b, typ);
      ConcatAssociative(if a[0].typ == typ then [a[0]] else [], Of(a[1..], typ), Of(b, typ));
    }
  }

  lemma {:induction false} OfUniform(rs: seq<Record>, from: byte, typ: byte)
    requires forall r :: r in rs ==> r.typ == from
    ensures Of(rs, typ) == if from == typ then rs else []
  {
    if rs != [] {
      OfUniform(rs[1..], from, typ);
      assert rs == [rs[0]] + rs[1..];
    }
  }

  /** A finished stream: framed data, then one empty record. Only an error
      stream that never carried anything has no records at all. */
  ghost predicate Ended(mine: seq<Record>, typ: byte, id: nat) {
    || (typ == STDERR && mine == [])
    || (&& mine != [] && mine[|mine| - 1] == EndOfStream(typ, id)
        && AllFramed(mine[..|mine| - 1], typ, id)
        && (typ == STDERR ==> |mine| > 1))
  }

  /** A stream's records and what it holds back make up all that was put. */
  ghost predicate StreamKept(mine: seq<Record>, w: Stream, id: nat, put: seq<byte>) {
    && Concat(mine) + w.buffer == put
    && if w.open then AllFramed(mine, w.typ, id) && (w.written <==> mine != []) else Ended(mine, w.typ, id)
  }

  lemma PutKeeps(mine: seq<Record>, w: Stream, id: nat, put: seq<byte>, bytes: seq<byte>)
    requires w.Valid() && StreamKept(mine, w, id, put)
    ensures var step := Put(w, id, bytes);
            StreamKept(mine + step.emitted, step.stream, id, put + if w.open then bytes else [])
  {
    hide Put, AllFramed;
    PutKeepsValid(w, id, bytes);
    if w.open {
      PutConserves(w, id, bytes);
      var step := Put(w, id, bytes);
      AllFramedSum(mine, step.emitted, w.typ, id);
      ConcatOfSum(mine, step.emitted);
      ConcatAssociative(Concat(mine), Concat(step.emitted), step.stream.buffer);
      ConcatAssociative(Concat(mine), w.buffer, bytes);
    } else {
      assert Put(w, id, bytes) == Step(w, []) by { PutClosed(w, id, bytes); }
      assert mine + [] == mine && put + [] == put;
    }
  }

  lemma PutClosed(w: Stream, id: nat, bytes: seq<byte>)
    requires w.Valid() && !w.open
    ensures Put(w, id, bytes) == Step(w, [])
  {
  }

  lemma EmptyKeeps(mine: seq<Record>, w: Stream, id: nat, put: seq<byte>)
    requires w.Valid() && w.open && StreamKept(mine, w, id, put)
    ensures var step := Empty(w, id);
            StreamKept(mine + step.emitted, step.stream, id, put) && step.stream.buffer == [] && step.stream.Valid()
  {
    hide AllFramed;
    var step := Empty(w, id);
    EmptyFrames(w, id);
    AllFramedSum(mine, step.emitted, w.typ, id);
    ConcatOfSum(mine, step.emitted);
    assert Concat(mine) + w.buffer + [] == Concat(mine) + w.buffer;
  }

  /** The records Close writes for the stream itself. */
  function Closing(w: Stream, id: nat): seq<Record> {
    var last := Empty(w, id);
    last.emitted + if w.typ == STDERR && !last.stream.written then [] else [EndOfStream(w.typ, id)]
  }

  lemma CloseKeeps(mine: seq<Record>, w: Stream, id: nat, put: seq<byte>, nWriters: int, appStatus: int)
    requires w.Valid() && w.open && StreamKept(mine, w, id, put)
    ensures StreamKept(mine + Closing(w, id), Close(w, id, nWriters, appStatus).stream, id, put)
  {
    hide AllFramed, EndOfStream;
    var last := Empty(w, id);
    EmptyKeeps(mine, w, id, put);
    var data := mine + last.emitted;
    assert Concat(data) + [] == put;
    if w.typ == STDERR && !last.stream.written {
      assert last.emitted + [] == last.emitted;
    } else {
      var eof := EndOfStream(w.typ, id);
      var all := mine + Closing(w, id);
      assert all == data + [eof];
      assert all[..|all| - 1] == data;
      ConcatOfSum(data, [eof]);
      assert Concat([eof]) == [] by { ConcatEof(w.typ, id); }
      assert Concat(data) + [] + [] == put;
      assert w.typ == STDERR ==> data != [];
    }
  }

  lemma ConcatEof(typ: byte, id: nat)
    ensures Concat([EndOfStream(typ, id)]) == []
  {
    assert [EndOfStream(typ, id)][1..] == [];
  }

  /** Once both streams are closed, END_REQUEST stands last and only there. */
  ghost predicate EndKept(s: Session) {
    && s.nWriters == (if s.out.open then 1 else 0) + (if s.err.open then 1 else 0)
    && if s.nWriters == 0 then
         && s.log != [] && s.log[|s.log| - 1].typ == END_REQUEST
         && Of(s.log[..|s.log| - 1], END_REQUEST) == []
       else Of(s.log, END_REQUEST) == []
  }

  ghost predicate Kept(s: Session, putOut: seq<byte>, putErr: seq<byte>) {
    && s.Valid()
    && StreamKept(Of(s.log, STDOUT), s.out, s.id, putOut)
    && StreamKept(Of(s.log, STDERR), s.err, s.id, putErr)
    && EndKept(s)
    && forall r :: r in s.log ==> r.typ in {STDOUT, STDERR, END_REQUEST} && r.Valid() && r.id == s.id
  }

  /** The bytes an operation adds to a stream. */
  function Adds(s: Session, op: Op, side: Side): seq<byte> {
    if op.PutStr? && op.side == side && s.At(side).open then op.bytes else []
  }

  function TypeOf(side: Side): byte {
    if side == Out then STDOUT else STDERR
  }

  ghost predicate Ours(rs: seq<Record>, typ: byte, id: nat) {
    forall r :: r in rs ==> r.typ == typ && r.Valid() && r.id == id
  }

  lemma AddRecords(s: Session, side: Side, step: Step, putOut: seq<byte>, putErr: seq<byte>, put: seq<byte>)
    requires Kept(s, putOut, putErr) && step.stream.Valid() && step.stream.typ == TypeOf(side)
    requires step.stream.open == s.At(side).open && (step.emitted != [] ==> step.stream.open)
    requires Ours(step.emitted, TypeOf(side), s.id)
    requires StreamKept(Of(s.log, TypeOf(side)) + step.emitted, step.stream, s.id, put)
    ensures Kept(s.After(side, step), if side == Out then put else putOut, if side == Err then put else putErr)
  {
    hide StreamKept, EndKept, Of;
    RecordsOf(s.log, step.emitted, TypeOf(side), STDOUT);
    RecordsOf(s.log, step.emitted, TypeOf(side), STDERR);
    EndUnmoved(s, side, step);
  }

  lemma RecordsOf(log: seq<Record>, emitted: seq<Record>, from: byte, typ: byte)
    requires forall r :: r in emitted ==> r.typ == from
    ensures Of(log + emitted, typ) == if typ == from then Of(log, typ) + emitted else Of(log, typ)
  {
    OfSum(log, emitted, typ);
    OfUniform(emitted, from, typ);
    assert Of(log, typ) + [] == Of(log, typ);
  }

  /** Stream records do not disturb where END_REQUEST stands. */
  lemma EndUnmoved(s: Session, side: Side, step: Step)
    requires EndKept(s) && s.Valid() && step.stream.open == s.At(side).open && (step.emitted != [] ==> step.stream.open)
    requires forall r :: r in step.emitted ==> r.typ == TypeOf(side)
    ensures EndKept(s.After(side, step))
  {
    hide Of;
    RecordsOf(s.log, step.emitted, TypeOf(side), END_REQUEST);
    if step.emitted == [] {
      assert s.log + [] == s.log;
    }
  }

  lemma CloseParts(w: Stream, id: nat, nWriters: int, appStatus: int)
    requires w.Valid() && w.open && id < 0x10000
    ensures var step := Close(w, id, nWriters, appStatus);
            && step.emitted == Closing(w, id) + (if nWriters == 1 then [EndRequest(id, appStatus)] else [])
            && Ours(Closing(w, id), w.typ, id)
            && step.stream.Valid() && step.stream.typ == w.typ && !step.stream.open
  {
    EmptyFrames(w, id);
  }

  lemma ClosingLog(log: seq<Record>, closing: seq<Record>, end: seq<Record>, typ: byte, id: nat)
    requires typ in {STDOUT, STDERR} && Ours(closing, typ, id) && Ours(end, END_REQUEST, id) && |end| <= 1
    ensures var all := log + (closing + end);
            && Of(all, typ) == Of(log, typ) + closing
            && (forall other :: other in {STDOUT, STDERR} && other != typ ==> Of(all, other) == Of(log, other))
            && if end == [] then Of(all, END_REQUEST) == Of(log, END_REQUEST)
               else all[..|all| - 1] == log + closing && all[|all| - 1] == end[0]
                    && Of(log + closing, END_REQUEST) == Of(log, END_REQUEST)
  {
    hide Of;
    var all := log + (closing + end);
    forall t | t in {STDOUT, STDERR, END_REQUEST}
      ensures Of(log + closing, t) == Of(log, t) + if t == typ then closing else []
      ensures Of(all, t) == Of(log + closing, t) + if t == END_REQUEST then end else []
    {
      OfSum(log, closing, t);
      OfUniform(closing, typ, t);
      ConcatAssociative(log, closing, end);
      OfSum(log + closing, end, t);
      OfUniform(end, END_REQUEST, t);
    }
    ConcatAssociative(log, closing, end);
    assert end == [] ==> closing + end == closing;
  }

  lemma CloseKeepsSession(s: Session, side: Side, putOut: seq<byte>, putErr: seq<byte>)
    requires Kept(s, putOut, putErr) && s.At(side).open
    ensures Kept(Apply(s, FClose(side)), putOut, putErr)
    ensures s.nWriters == 1 ==>
              var log := Apply(s, FClose(side)).log;
              log != [] && log[|log| - 1] == EndRequest(s.id, s.appStatus)
  {
    hide StreamKept, EndRequest, Closing, Of, Close, Empty;
    var w, closing := s.At(side), Closing(s.At(side), s.id);
    var end := if s.nWriters == 1 then [EndRequest(s.id, s.appStatus)] else [];
    CloseParts(w, s.id, s.nWriters, s.appStatus);
    CloseKeeps(Of(s.log, w.typ), w, s.id, if side == Out then putOut else putErr, s.nWriters, s.appStatus);
    EndRequestValid(s.id, s.appStatus);
    ClosingLog(s.log, closing, end, w.typ, s.id);
  }

  lemma EndRequestValid(id: nat, appStatus: int)
    requires id < 0x10000
    ensures EndRequest(id, appStatus).Valid() && EndRequest(id, appStatus).id == id
    ensures EndRequest(id, appStatus).typ == END_REQUEST
  {
  }

  /** The invariant of every operation. */
  lemma ApplyKeeps(s: Session, op: Op, putOut: seq<byte>, putErr: seq<byte>)
    requires Kept(s, putOut, putErr)
    ensures Kept(Apply(s, op), putOut + Adds(s, op, Out), putErr + Adds(s, op, Err))
  {
    hide StreamKept, Put, Empty, Of;
    assert putOut + [] == putOut && putErr + [] == putErr;
    match op {
      case PutStr(side, bytes) =>
        var w, put := s.At(side), if side == Out then putOut else putErr;
        PutKeeps(Of(s.log, w.typ), w, s.id, put, bytes);
        PutKeepsValid(w, s.id, bytes);
        if w.open {
          PutConserves(w, s.id, bytes);
        } else {
          PutClosed(w, s.id, bytes);
        }
        AddRecords(s, side, Put(w, s.id, bytes), putOut, putErr, put + if w.open then bytes else []);
      case FFlush(side) =>
        var w, put := s.At(side), if side == Out then putOut else putErr;
        if w.open {
          EmptyKeeps(Of(s.log, w.typ), w, s.id, put);
          EmptyFrames(w, s.id);
          assert Empty(w, s.id).stream.typ == w.typ && Empty(w, s.id).stream.open by { EmptySame(w, s.id); }
          AddRecords(s, side, Empty(w, s.id), putOut, putErr, put);
        } else {
          assert s.log + [] == s.log;
        }
      case FClose(side) =>
        if s.At(side).open {
          CloseKeepsSession(s, side, putOut, putErr);
        } else {
          assert s.log + [] == s.log;
        }
      case SetExitStatus(status) =>
    }
  }

  lemma EmptySame(w: Stream, id: nat)
    ensures Empty(w, id).stream.typ == w.typ && Empty(w, id).stream.open == w.open
  {
  }

  /** All the bytes a run puts on one stream while it is open. */
  function Added(s: Session, ops: seq<Op>, side: Side): seq<byte>
    requires s.Valid()
    decreases |ops|
  {
    if ops == [] then []
    else
      ApplyKeepsValid(s, ops[0]);
      Adds(s, ops[0], side) + Added(Apply(s, ops[0]), ops[1..], side)
  }

  /** A flush puts all there was put so far on the connection. */
  lemma FlushSends(id: nat, appStatus: int, outCapacity: nat, errCapacity: nat, ops: seq<Op>, side: Side)
    requires Start(id, appStatus, outCapacity, errCapacity).Valid()
    ensures var s0 := Start(id, appStatus, outCapacity, errCapacity);
            var s := Run(s0, ops);
            s.At(side).open ==>
              var flushed := Apply(s, FFlush(side));
              && flushed.At(side).open && flushed.At(side).buffer == []
              && Concat(Of(flushed.log, TypeOf(side))) == Added(s0, ops, side)
  {
    hide Run, Added, Of, Ended, Concat, EndKept;
    var s0 := Start(id, appStatus, outCapacity, errCapacity);
    StartKept(id, appStatus, outCapacity, errCapacity);
    RunKeeps(s0, ops, [], []);
    var s, flush := Run(s0, ops), FFlush(side);
    assert [] + Added(s0, ops, Out) == Added(s0, ops, Out) && [] + Added(s0, ops, Err) == Added(s0, ops, Err);
    ApplyKeeps(s, flush, Added(s0, ops, Out), Added(s0, ops, Err));
    var sent := Concat(Of(Apply(s, flush).log, TypeOf(side)));
    assert sent + [] == sent && Added(s0, ops, side) + [] == Added(s0, ops, side);
  }

  lemma {:induction false} RunKeeps(s: Session, ops: seq<Op>, putOut: seq<byte>, putErr: seq<byte>)
    requires Kept(s, putOut, putErr)
    ensures Kept(Run(s, ops), putOut + Added(s, ops, Out), putErr + Added(s, ops, Err))
    decreases |ops|
  {
    hide StreamKept, EndKept, Apply;
    if ops == [] {
      assert putOut + [] == putOut && putErr + [] == putErr;
    } else {
      var op := ops[0];
      ApplyKeeps(s, op, putOut, putErr);
      RunKeeps(Apply(s, op), ops[1..], putOut + Adds(s, op, Out), putErr + Adds(s, op, Err));
      ConcatAssociative(putOut, Adds(s, op, Out), Added(Apply(s, op), ops[1..], Out));
      ConcatAssociative(putErr, Adds(s, op, Err), Added(Apply(s, op), ops[1..], Err));
    }
  }

  /** The exit status after some operations. */
  function LastStatus(status: int, ops: seq<Op>): int
    decreases |ops|
  {
    if ops == [] then status
    else LastStatus(if ops[0].SetExitStatus? then ops[0].status else status, ops[1..])
  }

  /** How many operations come before the one that closes the last stream. */
  function OpenSpan(s: Session, ops: seq<Op>): (n: nat)
    requires s.Valid()
    ensures n <= |ops|
    decreases |ops|
  {
    if ops == [] then 0
    else
      ApplyKeepsValid(s, ops[0]);
      if Apply(s, ops[0]).nWriters == 0 then 0 else 1 + OpenSpan(Apply(s, ops[0]), ops[1..])
  }

  /** After both streams are closed nothing is written any more. */
  lemma {:induction false} ClosedForGood(s: Session, ops: seq<Op>)
    requires s.Valid() && !s.out.open && !s.err.open
    ensures var s' := Run(s, ops); s'.log == s.log && s'.nWriters == s.nWriters
    decreases |ops|
  {
    if ops != [] {
      ApplyKeepsValid(s, ops[0]);
      assert s.log + [] == s.log;
      ClosedForGood(Apply(s, ops[0]), ops[1..]);
    }
  }

  lemma {:induction false} EndCarriesLastStatus(s: Session, ops: seq<Op>, putOut: seq<byte>, putErr: seq<byte>)
    requires Kept(s, putOut, putErr) && s.nWriters > 0
    ensures var s', n := Run(s, ops), OpenSpan(s, ops);
            if s'.nWriters == 0 then
              s'.log != [] && s'.log[|s'.log| - 1] == EndRequest(s.id, LastStatus(s.appStatus, ops[..n]))
            else n == |ops| && s'.appStatus == LastStatus(s.appStatus, ops)
    decreases |ops|
  {
    hide StreamKept, Put, Empty, Close, Of, EndRequest;
    if ops != [] {
      var op, s1 := ops[0], Apply(s, ops[0]);
      ApplyKeeps(s, op, putOut, putErr);
      if s1.nWriters == 0 {
        CloseKeepsSession(s, op.side, putOut, putErr);
        ClosedForGood(s1, ops[1..]);
        assert ops[..0] == [];
      } else {
        EndCarriesLastStatus(s1, ops[1..], putOut + Adds(s, op, Out), putErr + Adds(s, op, Err));
        var n := OpenSpan(s1, ops[1..]);
        assert ops[..1 + n][1..] == ops[1..][..n] && ops[..1 + n][0] == op;
      }
    }
  }

  /** However an application puts, flushes and closes, once it finishes the
      request both streams are ended, all they were given is on the wire, and a
      single END_REQUEST with the last exit status comes last. */
  lemma RequestCompletes(id: nat, appStatus: int, outCapacity: nat, errCapacity: nat, ops: seq<Op>)
    requires Start(id, appStatus, outCapacity, errCapacity).Valid()
    ensures var s0 := Start(id, appStatus, outCapacity, errCapacity);
            var s := Finish(Run(s0, ops));
            && s.nWriters == 0 && s.log != []
            && s.log[|s.log| - 1] == EndRequest(id, LastStatus(appStatus, ops[..OpenSpan(s0, ops)]))
            && Of(s.log[..|s.log| - 1], END_REQUEST) == []
            && Ended(Of(s.log, STDOUT), STDOUT, id) && Ended(Of(s.log, STDERR), STDERR, id)
            && Concat(Of(s.log, STDOUT)) == Added(s0, ops, Out)
            && Concat(Of(s.log, STDERR)) == Added(s0, ops, Err)
            && (Of(s.log, STDERR) == [] <==> Added(s0, ops, Err) == [])
            && (forall r :: r in s.log ==> r.typ in {STDOUT, STDERR, END_REQUEST} && r.Valid() && r.id == id)
  {
    hide Put, Empty, Of, EndRequest, Ended, StreamKept, Run, Finish;
    var s0 := Start(id, appStatus, outCapacity, errCapacity);
    StartKept(id, appStatus, outCapacity, errCapacity);
    RunKeeps(s0, ops, [], []);
    var putOut, putErr := [] + Added(s0, ops, Out), [] + Added(s0, ops, Err);
    var s := Finish(Run(s0, ops));
    FinishCloses(Run(s0, ops), putOut, putErr);
    FinishStatus(s0, ops);
    ClosedContents(Of(s.log, STDOUT), s.out, id, Added(s0, ops, Out));
    ClosedContents(Of(s.log, STDERR), s.err, id, Added(s0, ops, Err));
    EndedEmpty(Of(s.log, STDERR), id);
  }

  lemma ClosedContents(mine: seq<Record>, w: Stream, id: nat, put: seq<byte>)
    requires !w.open && w.buffer == [] && StreamKept(mine, w, id, [] + put)
    ensures Concat(mine) == put && Ended(mine, w.typ, id)
  {
    assert Concat(mine) + [] == Concat(mine) && [] + put == put;
  }

  lemma FinishStatus(s0: Session, ops: seq<Op>)
    requires Kept(s0, [], []) && s0.nWriters > 0
    ensures var s := Finish(Run(s0, ops));
            s.log != [] && s.log[|s.log| - 1] == EndRequest(s0.id, LastStatus(s0.appStatus, ops[..OpenSpan(s0, ops)]))
  {
    hide Put, Empty, Of, EndRequest, StreamKept, LastStatus, OpenSpan, Apply;
    var s1 := Run(s0, ops);
    var closes := [FClose(Err), FClose(Out)];
    var putOut, putErr := [] + Added(s0, ops, Out), [] + Added(s0, ops, Err);
    RunKeeps(s0, ops, [], []);
    EndCarriesLastStatus(s0, ops, [], []);
    FinishCloses(s1, putOut, putErr);
    if s1.nWriters == 0 {
      ClosedForGood(s1, closes);
    } else {
      EndCarriesLastStatus(s1, closes, putOut, putErr);
      StatusOfCloses(s1.appStatus, closes[..OpenSpan(s1, closes)]);
      assert ops[..|ops|] == ops;
    }
  }

  lemma StartKept(id: nat, appStatus: int, outCapacity: nat, errCapacity: nat)
    requires Start(id, appStatus, outCapacity, errCapacity).Valid()
    ensures Kept(Start(id, appStatus, outCapacity, errCapacity), [], [])
  {
  }

  lemma {:induction false} StatusOfCloses(status: int, ops: seq<Op>)
    requires forall op :: op in ops ==> op.FClose?
    ensures LastStatus(status, ops) == status
  {
    if ops != [] {
      assert ops[0] in ops;
      StatusOfCloses(status, ops[1..]);
    }
  }

  lemma FinishCloses(s: Session, putOut: seq<byte>, putErr: seq<byte>)
    requires Kept(s, putOut, putErr)
    ensures var s' := Finish(s);
            && s'.nWriters == 0 && !s'.out.open && !s'.err.open && s'.out.buffer == [] && s'.err.buffer == []
            && Kept(s', putOut, putErr)
  {
    hide StreamKept, Put, Empty, Of, EndRequest, Closing;
    ApplyKeeps(s, FClose(Err), putOut, putErr);
    var s1 := Apply(s, FClose(Err));
    assert putOut + [] == putOut && putErr + [] == putErr;
    ApplyKeeps(s1, FClose(Out), putOut, putErr);
    assert [FClose(Err), FClose(Out)][1..] == [FClose(Out)] && [FClose(Out)][1..] == [];
    assert Finish(s) == Apply(s1, FClose(Out));
  }

  lemma EndedEmpty(mine: seq<Record>, id: nat)
    requires Ended(mine, STDERR, id)
    ensures mine == [] <==> Concat(mine) == []
  {
    if mine != [] {
      var front := mine[..|mine| - 1];
      assert mine[0] == front[0] && front[0] in front;
    }
  }

  lemma {:induction false} OfHas(rs: seq<Record>, r: Record)
    ensures r in rs <==> r in Of(rs, r.typ)
  {
    if rs != [] {
      OfHas(rs[1..], r);
      assert rs == [rs[0]] + rs[1..];
    }
  }

  /** At every moment of every run the connection carries whole records of the
      request, aligned to eight bytes. What an open stream has sent is framed
      data without an empty record, and that together with what it holds back
      is all that was put on it. */
  lemma EveryMoment(id: nat, appStatus: int, outCapacity: nat, errCapacity: nat, ops: seq<Op>)
    requires Start(id, appStatus, outCapacity, errCapacity).Valid()
    ensures var s0 := Start(id, appStatus, outCapacity, errCapacity);
            var s := Run(s0, ops);
            && AllValid(s.log) && Deframe(EncodeAll(s.log)) == Some(s.log)
            && (forall r :: r in s.log ==> r.id == id)
            && (forall r :: r in s.log && r.typ != END_REQUEST ==> (HEADER_LEN + |r.content| + |r.padding|) % 8 == 0)
            && (forall side :: s.At(side).open ==> AllFramed(Of(s.log, TypeOf(side)), TypeOf(side), id))
            && (forall side :: Concat(Of(s.log, TypeOf(side))) + s.At(side).buffer == Added(s0, ops, side))
  {
    hide Run, Added, Of, Ended, Concat, Deframe, EncodeAll;
    var s0 := Start(id, appStatus, outCapacity, errCapacity);
    StartKept(id, appStatus, outCapacity, errCapacity);
    RunKeeps(s0, ops, [], []);
    var s := Run(s0, ops);
    assert [] + Added(s0, ops, Out) == Added(s0, ops, Out) && [] + Added(s0, ops, Err) == Added(s0, ops, Err);
    DeframeEncodeAll(s.log);
    forall r | r in s.log && r.typ != END_REQUEST
      ensures (HEADER_LEN + |r.content| + |r.padding|) % 8 == 0
    {
      OfHas(s.log, r);
      if r.typ == STDOUT {
        AlignedIn(Of(s.log, STDOUT), s.out, id, Added(s0, ops, Out), r);
      } else {
        AlignedIn(Of(s.log, STDERR), s.err, id, Added(s0, ops, Err), r);
      }
    }
  }

  lemma AlignedIn(mine: seq<Record>, w: Stream, id: nat, put: seq<byte>, r: Record)
    requires StreamKept(mine, w, id, put) && r in mine
    ensures (HEADER_LEN + |r.content| + |r.padding|) % 8 == 0
  {
    if !w.open {
      assert mine == mine[..|mine| - 1] + [mine[|mine| - 1]];
    }
  }
}
