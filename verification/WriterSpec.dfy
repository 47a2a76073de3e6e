/** The output side of an application at the level of records: what its two
    output streams put on the connection, operation by operation. */
module WriterSpec {
  import opened Bytes
  import opened FcgiRecords

  /** An output stream: the content it holds back, how much it can hold, and
      whether it has sent anything yet. */
  datatype Stream = Stream(typ: byte, capacity: nat, buffer: seq<byte>, open: bool, written: bool) {
    ghost predicate Valid() {
      && 0 < capacity <= MAX_LENGTH - 7 && capacity % 8 == 0 && |buffer| <= capacity
      && (!open ==> buffer == [])
    }
  }

  /** A stream after an operation, and the records the operation wrote. */
  datatype Step = Step(stream: Stream, emitted: seq<Record>)

  /** A stream record padded to a multiple of eight bytes. */
  function DataRecord(typ: byte, id: nat, content: seq<byte>): Record {
    Record(typ, id, content, Zeros(AlignInt8(|content|) - |content|))
  }

  function EndOfStream(typ: byte, id: nat): Record {
    Record(typ, id, [], [])
  }

  function EndRequest(id: nat, appStatus: int): Record {
    Record(END_REQUEST, id, MakeEndRequestBody(appStatus, REQUEST_COMPLETE), [])
  }

  /** Sends whatever is held back. */
  function Empty(w: Stream, id: nat): Step {
    if w.buffer == [] then Step(w, [])
    else Step(w.(buffer := [], written := true), [DataRecord(w.typ, id, w.buffer)])
  }

  function Flush(w: Stream, id: nat): Step {
    if w.open then Empty(w, id) else Step(w, [])
  }

  function Put(w: Stream, id: nat, bytes: seq<byte>): Step
    requires w.Valid()
    decreases |bytes|, |w.buffer|
  {
    var room := w.capacity - |w.buffer|;
    if !w.open then Step(w, [])
    else if |bytes| <= room then Step(w.(buffer := w.buffer + bytes), [])
    else
      var full := Empty(w.(buffer := w.buffer + bytes[..room]), id);
      var more := Put(full.stream, id, bytes[room..]);
      Step(more.stream, full.emitted + more.emitted)
  }

  /** The records that follow a stream's data when it is closed: none for the
      stream itself if it is an error stream that carried nothing. */
  function FinalRecords(silent: bool, typ: byte, id: nat, nWriters: int, appStatus: int): seq<Record> {
    (if typ == STDERR && silent then [] else [EndOfStream(typ, id)])
    + if nWriters == 1 then [EndRequest(id, appStatus)] else []
  }

  /** Closes a stream when `nWriters` streams, it included, are open. */
  function Close(w: Stream, id: nat, nWriters: int, appStatus: int): Step {
    if !w.open then Step(w, [])
    else
      var last := Empty(w, id);
      var final := FinalRecords(!last.stream.written, w.typ, id, nWriters, appStatus);
      Step(w.(buffer := [], open := false, written := last.stream.written || final != []), last.emitted + final)
  }

  datatype Side = Out | Err

  datatype Op =
    | PutStr(side: Side, bytes: seq<byte>)
    | FFlush(side: Side)
    | FClose(side: Side)
    | SetExitStatus(status: int)

  /** A request's output: its two streams, what they share, and every record
      written so far. */
  datatype Session = Session(id: nat, nWriters: int, appStatus: int, out: Stream, err: Stream, log: seq<Record>) {
    function At(side: Side): Stream {
      if side == Out then out else err
    }

    function After(side: Side, step: Step): Session {
      var s := this.(log := log + step.emitted);
      if side == Out then s.(out := step.stream) else s.(err := step.stream)
    }

    ghost predicate Valid() {
      id < 0x10000 && out.Valid() && err.Valid() && out.typ == STDOUT && err.typ == STDERR
    }
  }

  function Start(id: nat, appStatus: int, outCapacity: nat, errCapacity: nat): Session {
    Session(id, 2, appStatus, Stream(STDOUT, outCapacity, [], true, false),
            Stream(STDERR, errCapacity, [], true, false), [])
  }

  function Apply(s: Session, op: Op): Session
    requires s.Valid()
  {
    match op
    case PutStr(side, bytes) => s.After(side, Put(s.At(side), s.id, bytes))
    case FFlush(side) => s.After(side, Flush(s.At(side), s.id))
    case FClose(side) =>
      var closed := s.After(side, Close(s.At(side), s.id, s.nWriters, s.appStatus));
      if s.At(side).open then closed.(nWriters := s.nWriters - 1) else closed
    case SetExitStatus(status) => s.(appStatus := status)
  }

  lemma PutKeepsValid(w: Stream, id: nat, bytes: seq<byte>)
    requires w.Valid()
    ensures var w' := Put(w, id, bytes).stream;
            w'.Valid() && w'.typ == w.typ && w'.open == w.open && w'.capacity == w.capacity
    decreases |bytes|, |w.buffer|
  {
    var room := w.capacity - |w.buffer|;
    if w.open && |bytes| > room {
      PutKeepsValid(Empty(w.(buffer := w.buffer + bytes[..room]), id).stream, id, bytes[room..]);
    }
  }

  lemma ApplyKeepsValid(s: Session, op: Op)
    requires s.Valid()
    ensures Apply(s, op).Valid() && Apply(s, op).id == s.id
  {
    if op.PutStr? {
      PutKeepsValid(s.At(op.side), s.id, op.bytes);
    }
  }

  function Run(s: Session, ops: seq<Op>): (s': Session)
    requires s.Valid()
    ensures s'.Valid() && s'.id == s.id
    decreases |ops|
  {
    if ops == [] then s
    else
      ApplyKeepsValid(s, ops[0]);
      Run(Apply(s, ops[0]), ops[1..])
  }

  /** Closing what is still open, the error stream first, ends the request. */
  function Finish(s: Session): (s': Session)
    requires s.Valid()
    ensures s'.Valid() && s'.id == s.id
  {
    Run(s, [FClose(Err), FClose(Out)])
  }
}

/** What holds of every run of a request's output. */
module WriterTheorems {
  import opened Bytes
  import opened FcgiRecords
  import opened WriterSpec

  /** A record of stream data as the framing rules want it. */
  ghost predicate WellFramed(r: Record, typ: byte, id: nat) {
    && r.typ == typ && r.id == id
    && 1 <= |r.content| <= MAX_LENGTH - 7 && |r.padding| <= 7
    && (HEADER_LEN + |r.content| + |r.padding|) % 8 == 0
  }

  ghost predicate AllFramed(rs: seq<Record>, typ: byte, id: nat) {
    forall r :: r in rs ==> WellFramed(r, typ, id)
  }

  lemma EmptyFrames(w: Stream, id: nat)
    requires w.Valid()
    ensures AllFramed(Empty(w, id).emitted, w.typ, id)
    ensures Concat(Empty(w, id).emitted) == w.buffer
  {
    var e := Empty(w, id).emitted;
    if w.buffer != [] {
      assert e[1..] == [];
      assert w.buffer + [] == w.buffer;
    }
  }

  lemma AllFramedSum(a: seq<Record>, b: seq<Record>, typ: byte, id: nat)
    requires AllFramed(a, typ, id) && AllFramed(b, typ, id)
    ensures AllFramed(a + b, typ, id)
  {
  }

  /** Nothing put is lost, reordered or repeated: it is on the wire in proper
      records or still held back. */
  lemma {:induction false} PutConserves(w: Stream, id: nat, bytes: seq<byte>)
    requires w.Valid() && w.open
    ensures var step := Put(w, id, bytes);
            && AllFramed(step.emitted, w.typ, id)
            && Concat(step.emitted) + step.stream.buffer == w.buffer + bytes
            && (step.stream.written <==> w.written || step.emitted != [])
    decreases |bytes|, |w.buffer|
  {
    hide AllFramed;
    var room := w.capacity - |w.buffer|;
    if |bytes| > room {
      var filled := w.(buffer := w.buffer + bytes[..room]);
      var full := Empty(filled, id);
      var more := Put(full.stream, id, bytes[room..]);
      EmptyFrames(filled, id);
      PutConserves(full.stream, id, bytes[room..]);
      ConcatOfSum(full.emitted, more.emitted);
      AllFramedSum(full.emitted, more.emitted, w.typ, id);
      Rejoin(w.buffer, bytes, room, Concat(more.emitted), more.stream.buffer);
    } else {
      assert AllFramed([], w.typ, id) by { EmptyFrames(w.(buffer := []), id); }
      assert [] + (w.buffer + bytes) == w.buffer + bytes;
    }
  }

  lemma Rejoin(buffer: seq<byte>, bytes: seq<byte>, room: nat, sent: seq<byte>, held: seq<byte>)
    requires room <= |bytes| && sent + held == [] + bytes[room..]
    ensures (buffer + bytes[..room] + sent) + held == buffer + bytes
  {
    ConcatAssociative(buffer + bytes[..room], sent, held);
    assert [] + bytes[room..] == bytes[room..];
    assert bytes[..room] + bytes[room..] == bytes;
    ConcatAssociative(buffer, bytes[..room], bytes[room..]);
  }

  /** How the application cuts its output into calls does not show on the wire. */
  lemma {:induction false} PutInPieces(w: Stream, id: nat, a: seq<byte>, b: seq<byte>)
    requires w.Valid()
    ensures var first := Put(w, id, a);
            && first.stream.Valid()
            && var second := Put(first.stream, id, b);
               Put(w, id, a + b) == Step(second.stream, first.emitted + second.emitted)
    decreases |a|, |w.buffer|
  {
    hide Empty;
    PutKeepsValid(w, id, a);
    var room := w.capacity - |w.buffer|;
    if w.open && |a| > room {
      PutOverflows(w, id, a, b);
    } else if w.open {
      var second := Put(w.(buffer := w.buffer + a), id, b);
      assert [] + second.emitted == second.emitted;
      ConcatAssociative(w.buffer, a, b);
      if |a + b| > room {
        var rest := room - |a|;
        assert (a + b)[..room] == a + b[..rest] && (a + b)[room..] == b[rest..];
        ConcatAssociative(w.buffer, a, b[..rest]);
      }
    }
  }

  lemma {:induction false} PutOverflows(w: Stream, id: nat, a: seq<byte>, b: seq<byte>)
    requires w.Valid() && w.open && |a| > w.capacity - |w.buffer|
    ensures var first := Put(w, id, a);
            && first.stream.Valid()
            && var second := Put(first.stream, id, b);
               Put(w, id, a + b) == Step(second.stream, first.emitted + second.emitted)
    decreases |a|, |w.buffer|, 0
  {
    hide Empty, DataRecord;
    PutKeepsValid(w, id, a);
    var room := w.capacity - |w.buffer|;
    var full := Empty(w.(buffer := w.buffer + a[..room]), id);
    EmptyKeepsValid(w.(buffer := w.buffer + a[..room]), id);
    PutInPieces(full.stream, id, a[room..], b);
    assert (a + b)[..room] == a[..room] && (a + b)[room..] == a[room..] + b;
    var more := Put(full.stream, id, a[room..]);
    ConcatAssociative(full.emitted, more.emitted, Put(more.stream, id, b).emitted);
  }

  lemma EmptyKeepsValid(w: Stream, id: nat)
    requires w.Valid()
    ensures Empty(w, id).stream.Valid() && (w.buffer != [] ==> |Empty(w, id).stream.buffer| < |w.buffer|)
    ensures Empty(w, id).stream.buffer == []
  {
  }
}
