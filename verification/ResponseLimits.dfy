/** How much an application may write for its response to keep to the server's
    limits: what it puts and how often it flushes decides. */
module ResponseLimits {
  import opened Bytes
  import opened FcgiRecords
  import opened ServerSpec
  import opened WriterSpec
  import opened WriterTheorems
  import opened WriterRuns
  import opened Responses

  /** Records that carry something, but less than a full buffer. */
  function Short(mine: seq<Record>, capacity: nat): nat {
    if mine == [] then 0
    else (if 0 < |mine[0].content| < capacity then 1 else 0) + Short(mine[1..], capacity)
  }

  lemma ShortFirst(mine: seq<Record>, capacity: nat)
    requires mine != []
    ensures Short(mine, capacity) == (if 0 < |mine[0].content| < capacity then 1 else 0) + Short(mine[1..], capacity)
  {
  }

  lemma {:induction false} ShortSum(a: seq<Record>, b: seq<Record>, capacity: nat)
    ensures Short(a + b, capacity) == Short(a, capacity) + Short(b, capacity)
  {
    if a == [] {
      assert a + b == b;
    } else {
      assert (a + b)[1..] == a[1..] + b && (a + b)[0] == a[0];
      ShortSum(a[1..], b, capacity);
    }
  }

  lemma {:induction false} NoneShort(rs: seq<Record>, capacity: nat)
    requires forall r :: r in rs ==> |r.content| == capacity || r.content == []
    ensures Short(rs, capacity) == 0
  {
    if rs != [] {
      assert rs[0] in rs;
      NoneShort(rs[1..], capacity);
    }
  }

  /** Putting sends full buffers only. */
  lemma {:induction false} PutSendsFull(w: Stream, id: nat, bytes: seq<byte>)
    requires w.Valid()
    ensures forall r :: r in Put(w, id, bytes).emitted ==> r.typ == w.typ && |r.content| == w.capacity
    decreases |bytes|, |w.buffer|
  {
    var room := w.capacity - |w.buffer|;
    if w.open && |bytes| > room {
      PutSendsFull(Empty(w.(buffer := w.buffer + bytes[..room]), id).stream, id, bytes[room..]);
    }
  }

  function Sends(op: Op): nat {
    if (op.FFlush? || op.FClose?) && op.side == Out then 1 else 0
  }

  /** How often the output stream is flushed or closed. */
  function Flushes(ops: seq<Op>): nat {
    if ops == [] then 0 else Sends(ops[0]) + Flushes(ops[1..])
  }

  function Emitted(s: Session, op: Op): seq<Record>
    requires s.Valid() && !op.SetExitStatus?
  {
    match op
    case PutStr(side, bytes) => Put(s.At(side), s.id, bytes).emitted
    case FFlush(side) => Flush(s.At(side), s.id).emitted
    case FClose(side) => Close(s.At(side), s.id, s.nWriters, s.appStatus).emitted
  }

  lemma EmptySendsOne(w: Stream, id: nat)
    ensures var e := Empty(w, id).emitted; |e| <= 1 && forall r :: r in e ==> r.typ == w.typ
  {
  }

  /** An operation on the output sends at most one short record, and only when
      it flushes or closes. */
  lemma EmittedShort(s: Session, op: Op)
    requires s.Valid() && !op.SetExitStatus?
    ensures Short(Of(Emitted(s, op), STDOUT), s.out.capacity) <= Sends(op)
  {
    hide Put, Empty, EndRequest, Short;
    var w, cap, e := s.At(op.side), s.out.capacity, Emitted(s, op);
    EmptySendsOne(w, s.id);
    var sent := Empty(w, s.id).emitted;
    NoneShort([], cap);
    OfUniform(sent, w.typ, STDOUT);
    ShortAtMost(Of(sent, STDOUT), cap);
    match op {
      case PutStr(side, bytes) =>
        PutSendsFull(w, s.id, bytes);
        OfUniform(e, w.typ, STDOUT);
        if side == Out {
          NoneShort(e, cap);
        }
      case FFlush(side) =>
        OfUniform([], w.typ, STDOUT);
      case FClose(side) =>
        if w.open {
          var final := FinalRecords(!Empty(w, s.id).stream.written, w.typ, s.id, s.nWriters, s.appStatus);
          FinalNotShort(!Empty(w, s.id).stream.written, w.typ, s.id, s.nWriters, s.appStatus, cap);
          OfSum(sent, final, STDOUT);
          ShortSum(Of(sent, STDOUT), Of(final, STDOUT), cap);
        } else {
          OfUniform([], w.typ, STDOUT);
        }
    }
  }

  lemma {:induction false} ShortAtMost(rs: seq<Record>, capacity: nat)
    ensures Short(rs, capacity) <= |rs|
  {
    if rs != [] {
      ShortAtMost(rs[1..], capacity);
    }
  }

  lemma FinalNotShort(silent: bool, typ: byte, id: nat, nWriters: int, appStatus: int, capacity: nat)
    requires typ == STDOUT || typ == STDERR
    ensures Short(Of(FinalRecords(silent, typ, id, nWriters, appStatus), STDOUT), capacity) == 0
  {
    hide Short;
    var a := if typ == STDERR && silent then [] else [EndOfStream(typ, id)];
    var b := if nWriters == 1 then [EndRequest(id, appStatus)] else [];
    OfSum(a, b, STDOUT);
    OfUniform(a, typ, STDOUT);
    OfUniform(b, END_REQUEST, STDOUT);
    NoneShort(if typ == STDOUT then a else [], capacity);
    assert Of(a, STDOUT) + [] == Of(a, STDOUT);
  }

  lemma {:induction false} RunShort(s: Session, ops: seq<Op>)
    requires s.Valid()
    ensures Run(s, ops).out.capacity == s.out.capacity
    ensures Short(Of(Run(s, ops).log, STDOUT), s.out.capacity)
            <= Short(Of(s.log, STDOUT), s.out.capacity) + Flushes(ops)
    decreases |ops|
  {
    hide Of, Short, Put, Empty, Close, Emitted, Sends;
    if ops != [] {
      var op, s1 := ops[0], Apply(s, ops[0]);
      ApplyKeepsValid(s, op);
      ApplyShort(s, op);
      RunShort(s1, ops[1..]);
    }
  }

  lemma ApplyShort(s: Session, op: Op)
    requires s.Valid()
    ensures Apply(s, op).out.capacity == s.out.capacity
    ensures Short(Of(Apply(s, op).log, STDOUT), s.out.capacity) <= Short(Of(s.log, STDOUT), s.out.capacity) + Sends(op)
  {
    hide Of, Short, Put;
    if !op.SetExitStatus? {
      EmittedShort(s, op);
      OfSum(s.log, Emitted(s, op), STDOUT);
      ShortSum(Of(s.log, STDOUT), Of(Emitted(s, op), STDOUT), s.out.capacity);
      if op.PutStr? {
        PutKeepsValid(s.At(op.side), s.id, op.bytes);
      }
    }
  }

  /** Full records account for their share of the bytes. */
  lemma {:induction false} FullBytes(mine: seq<Record>, capacity: nat)
    requires forall r :: r in mine ==> r.content != []
    ensures |mine| * capacity <= |Concat(mine)| + Short(mine, capacity) * capacity
  {
    if mine != [] {
      assert mine[0] in mine;
      FullBytes(mine[1..], capacity);
      hide Short;
      ShortFirst(mine, capacity);
      OneMoreTime(|mine[1..]|, capacity);
      OneMoreTime(Short(mine[1..], capacity), capacity);
    }
  }

  lemma OneMoreTime(n: nat, capacity: nat)
    ensures (n + 1) * capacity == n * capacity + capacity
  {
  }

  lemma DivideOut(n: nat, short: nat, bytes: nat, capacity: nat)
    requires capacity > 0 && n * capacity <= bytes + short * capacity
    ensures n <= short + bytes / capacity
  {
    if n > short {
      assert n * capacity == (n - short) * capacity + short * capacity;
      FitsInto(n - short, capacity, bytes);
    }
  }

  lemma FitsInto(d: nat, capacity: nat, bytes: nat)
    requires capacity > 0 && d * capacity <= bytes
    ensures d <= bytes / capacity
  {
    var q := bytes / capacity;
    assert bytes == q * capacity + bytes % capacity;
    assert (q + 1) * capacity == q * capacity + capacity;
    MoreTakesMore(q + 1, d, capacity);
  }

  lemma MoreTakesMore(a: nat, b: nat, capacity: nat)
    ensures a <= b ==> a * capacity <= b * capacity
  {
    if a <= b {
      assert b * capacity == a * capacity + (b - a) * capacity;
    }
  }

  /** Records of output and of ends of requests only, with little padding. */
  ghost predicate Plain(rs: seq<Record>) {
    forall r :: r in rs ==> && r.Valid() && (r.typ == STDOUT || r.typ == END_REQUEST) && |r.padding| <= 7
                            && (r.typ == END_REQUEST ==> Size(r) == 16)
  }

  lemma {:induction false} PlainSize(rs: seq<Record>)
    requires Plain(rs) && AllValid(rs)
    ensures Counted(rs) <= |Of(rs, STDOUT)| + |Of(rs, END_REQUEST)|
    ensures |EncodeAll(rs)| <= |Concat(Of(rs, STDOUT))| + 15 * |Of(rs, STDOUT)| + 16 * |Of(rs, END_REQUEST)|
  {
    hide Encode;
    if rs != [] {
      assert rs[0] in rs;
      PlainSize(rs[1..]);
      OutputFirst(rs);
      assert |Encode(rs[0])| == Size(rs[0]) by { SizeOf(rs[0]); }
    }
  }

  lemma SizeOf(r: Record)
    requires r.Valid()
    ensures |Encode(r)| == Size(r)
  {
  }

  /** The most output records a run can make: a full one for every buffer's
      worth, one for every flush and for closing, and the end of the stream. */
  function MostRecords(bytes: nat, flushes: nat, capacity: nat): nat
    requires capacity > 0
  {
    bytes / capacity + flushes + 2
  }

  /** An application that puts nothing on its error stream is answered in full
      as long as what it puts and how often it flushes keep to this bound. */
  lemma EnoughRoom(id: nat, appStatus: int, outCapacity: nat, errCapacity: nat, ops: seq<Op>)
    requires Start(id, appStatus, outCapacity, errCapacity).Valid()
    requires var s0 := Start(id, appStatus, outCapacity, errCapacity);
             && Added(s0, ops, Err) == []
             && var bytes := |Added(s0, ops, Out)|;
                var most := MostRecords(bytes, Flushes(ops), outCapacity);
                most + 1 <= MAX_RECORDS && bytes + 15 * most + 16 <= MAX_RESPONSE_BYTES
    ensures var s0 := Start(id, appStatus, outCapacity, errCapacity);
            var log := Finish(Run(s0, ops)).log;
            AllValid(log) && Deframed(EncodeAll(log), 0, 0, []) == Complete(Added(s0, ops, Out))
  {
    hide Deframed, Run, Finish, Added, EndRequest, LastStatus, OpenSpan, Of, Concat, Short, Ended;
    var s0 := Start(id, appStatus, outCapacity, errCapacity);
    var s := Finish(Run(s0, ops));
    RequestCompletes(id, appStatus, outCapacity, errCapacity, ops);
    OutputArrives(id, appStatus, outCapacity, errCapacity, ops, s0, s.log);
    RunShort(s0, ops);
    FinishShort(Run(s0, ops));
    assert Short(Of([], STDOUT), outCapacity) == 0 by { NothingShort(outCapacity); }
    OutputCount(Of(s.log, STDOUT), id, outCapacity, Flushes(ops) + 1);
    var last := s.log[|s.log| - 1];
    LogPlain(s.log, id, LastStatus(appStatus, ops[..OpenSpan(s0, ops)]));
    PlainSize(s.log);
  }

  lemma NothingShort(capacity: nat)
    ensures Short(Of([], STDOUT), capacity) == 0
  {
  }

  lemma FinishShort(s: Session)
    requires s.Valid()
    ensures Short(Of(Finish(s).log, STDOUT), s.out.capacity) <= Short(Of(s.log, STDOUT), s.out.capacity) + 1
  {
    hide Of, Short, Run;
    RunShort(s, [FClose(Err), FClose(Out)]);
    assert [FClose(Err), FClose(Out)][1..] == [FClose(Out)] && [FClose(Out)][1..] == [];
    assert Flushes([FClose(Out)]) == 1;
  }

  lemma OutputCount(mine: seq<Record>, id: nat, capacity: nat, short: nat)
    requires Ended(mine, STDOUT, id) && Short(mine, capacity) <= short && capacity > 0
    ensures |mine| <= |Concat(mine)| / capacity + short + 1
  {
    var data, end := mine[..|mine| - 1], mine[|mine| - 1];
    assert mine == data + [end];
    ShortSum(data, [end], capacity);
    ConcatOfSum(data, [end]);
    assert Concat([end]) == [] by { ConcatEof(STDOUT, id); }
    assert Concat(data) + [] == Concat(data);
    FullBytes(data, capacity);
    var k := Short(data, capacity);
    DivideOut(|data|, k, |Concat(data)|, capacity);
  }

  lemma LogPlain(log: seq<Record>, id: nat, status: int)
    requires log != [] && log[|log| - 1] == EndRequest(id, status) && Of(log[..|log| - 1], END_REQUEST) == []
    requires Ended(Of(log, STDOUT), STDOUT, id) && Of(log, STDERR) == []
    requires forall r :: r in log ==> r.typ in {STDOUT, STDERR, END_REQUEST} && r.Valid()
    ensures Plain(log) && |Of(log, END_REQUEST)| == 1
  {
    hide Of, MakeEndRequestBody;
    var front, end := log[..|log| - 1], log[|log| - 1];
    assert log == front + [end];
    OfSum(front, [end], END_REQUEST);
    OfUniform([end], END_REQUEST, END_REQUEST);
    forall r | r in log
      ensures (r.typ == STDOUT || r.typ == END_REQUEST) && |r.padding| <= 7 && (r.typ == END_REQUEST ==> Size(r) == 16)
    {
      OfHas(log, r);
      if r.typ == END_REQUEST {
        assert r == end by {
          if r in front {
            OfHas(front, r);
          }
        }
      } else if r.typ == STDOUT {
        LittlePadding(Of(log, STDOUT), id, r);
      }
    }
  }

  lemma LittlePadding(mine: seq<Record>, id: nat, r: Record)
    requires Ended(mine, STDOUT, id) && r in mine
    ensures |r.padding| <= 7
  {
    assert mine == mine[..|mine| - 1] + [mine[|mine| - 1]];
  }
}
