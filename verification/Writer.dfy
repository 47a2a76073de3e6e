/** The buffered output stream of an application: content gathers in a buffer
    behind room for a record header, and leaves it as one padded record. */
module Writers {
  import opened Bytes
  import opened Connections
  import opened FcgiRecords
  import opened Requests
  import opened WriterSpec
  import WriterTheorems

  class Writer {
    const req: Request
    const buff: array<byte>
    const typ: byte
    var wrNext: nat
    var stop: nat
    var isClosed: bool
    var wasFCloseCalled: bool
    var isAnythingWritten: bool
    // records are placed in the buffer as they are, not as stream data
    var rawWrite: bool

    ghost predicate Bounds()
      reads this
    {
      && buff.Length % 8 == 0 && 2 * HEADER_LEN <= buff.Length <= MAX_LENGTH + 1
      && wrNext <= stop <= buff.Length
    }

    ghost predicate Valid()
      reads this, req
    {
      && Bounds() && req.requestId < 0x10000
      && wasFCloseCalled == isClosed
      && (!isClosed ==> !rawWrite && HEADER_LEN <= wrNext && stop == buff.Length)
      && (isClosed ==> wrNext == stop)
    }

    /** Placing final records behind what the buffer holds. */
    ghost predicate Raw()
      reads this, req
    {
      Bounds() && req.requestId < 0x10000 && rawWrite && !isClosed && !wasFCloseCalled && stop == buff.Length
    }

    /** The stream this object implements. */
    ghost function Model(): Stream
      requires Bounds() && (!isClosed ==> HEADER_LEN <= wrNext)
      reads this, buff
    {
      Stream(typ, buff.Length - HEADER_LEN, if isClosed then [] else buff[HEADER_LEN..wrNext], !isClosed,
             isAnythingWritten)
    }

    constructor (req: Request, bufflen: nat, streamType: byte)
      requires bufflen % 8 == 0 && 2 * HEADER_LEN <= bufflen <= MAX_LENGTH + 1 && req.requestId < 0x10000
      ensures Valid() && fresh(buff) && this.req == req
      ensures Model() == Stream(streamType, bufflen - HEADER_LEN, [], true, false)
    {
      this.req := req;
      buff := new byte[bufflen];
      typ := streamType;
      wrNext, stop := HEADER_LEN, bufflen;
      isClosed, wasFCloseCalled, isAnythingWritten, rawWrite := false, false, false, false;
    }

    /** Copies bytes into the buffer at wrNext. */
    method CopyIn(bytes: seq<byte>)
      requires Bounds() && wrNext + |bytes| <= buff.Length
      requires wrNext + |bytes| <= stop
      modifies this`wrNext, buff
      ensures Bounds() && wrNext == old(wrNext) + |bytes|
      ensures buff[..wrNext] == old(buff[..wrNext]) + bytes
    {
      var start := wrNext;
      for i := 0 to |bytes|
        invariant buff[..start] == old(buff[..wrNext]) && buff[start..start + i] == bytes[..i]
      {
        buff[start + i] := bytes[i];
      }
      wrNext := start + |bytes|;
      assert buff[..wrNext] == buff[..start] + buff[start..wrNext];
    }

    /** Puts a record header and padding around the content in the buffer. */
    method SealRecord(cLen: nat)
      requires Valid() && !isClosed && cLen == wrNext - HEADER_LEN && cLen > 0
      modifies this`wrNext, buff
      ensures Bounds()
      ensures buff[..wrNext] == Encode(DataRecord(typ, req.requestId, old(buff[HEADER_LEN..wrNext])))
    {
      ghost var content := buff[HEADER_LEN..wrNext];
      var eLen := AlignInt8(cLen);
      var header := MakeHeader(typ, req.requestId, cLen, eLen - cLen);
      CopyIn(Zeros(eLen - cLen));
      assert buff[HEADER_LEN..wrNext] == content + Zeros(eLen - cLen) by {
        assert buff[HEADER_LEN..wrNext] == buff[..wrNext][HEADER_LEN..];
      }
      PlaceHeader(header);
      ConcatAssociative(header, content, Zeros(eLen - cLen));
    }

    /** Writes a header into the room kept for it. */
    method PlaceHeader(header: seq<byte>)
      requires Bounds() && HEADER_LEN <= wrNext && |header| == HEADER_LEN
      modifies buff
      ensures buff[..wrNext] == header + old(buff[HEADER_LEN..wrNext])
    {
      ghost var tail := buff[HEADER_LEN..wrNext];
      for i := 0 to HEADER_LEN
        invariant buff[..i] == header[..i] && buff[HEADER_LEN..wrNext] == tail
      {
        buff[i] := header[i];
      }
      assert buff[..wrNext] == buff[..HEADER_LEN] + buff[HEADER_LEN..wrNext];
    }

    /** The bytes sent, and those in the buffer to be sent after them. */
    ghost function Raws(): seq<byte>
      requires wrNext <= buff.Length
      reads this`wrNext, buff, req.ipc`outgoing
    {
      req.ipc.outgoing + buff[..wrNext]
    }

    /** Sends what the buffer holds. */
    method SendBuffer()
      requires Bounds() && wrNext != 0
      modifies this`wrNext, this`isAnythingWritten, req.ipc`outgoing
      ensures wrNext == 0 && isAnythingWritten && req.ipc.outgoing == old(Raws())
    {
      isAnythingWritten := true;
      req.ipc.WriteAll(buff[..wrNext]);
      wrNext := 0;
    }

    /** Encapsulates buffered stream content in a record and sends it; sends
        raw bytes as they are. Closing adds the final records. */
    method EmptyBuffProc(doClose: bool)
      requires (Valid() && !isClosed) || (Raw() && !doClose)
      modifies this`wrNext, this`isAnythingWritten, this`rawWrite, buff, req`nWriters, req.ipc`outgoing
      ensures !doClose ==> rawWrite == old(rawWrite) && req.nWriters == old(req.nWriters)
      ensures !doClose && !rawWrite ==>
                && Valid() && wrNext == HEADER_LEN
                && Sent(Empty(old(Model()), req.requestId)) && Model() == Empty(old(Model()), req.requestId).stream
      ensures !doClose && rawWrite ==> Raw() && wrNext == 0 && Raws() == old(Raws())
      ensures doClose ==>
                && Raw() && wrNext == 0 && req.nWriters == old(req.nWriters) - 1
                && var step := Close(old(Model()), req.requestId, old(req.nWriters), req.appStatus);
                   Sent(step) && isAnythingWritten == step.stream.written
      decreases if doClose then 1 else 0, if doClose then 1 else 0, 0
    {
      hide Empty, Raws, EncodeAll, FinalRecords;
      ghost var sent := req.ipc.outgoing;
      ghost var step := if rawWrite then Step(Stream(typ, 8, [], true, true), []) else Empty(Model(), req.requestId);
      if !rawWrite {
        PrepareRecord();
      }
      if doClose {
        ghost var final := FinalRecords(!step.stream.written, typ, req.requestId, req.nWriters, req.appStatus);
        WriteCloseRecords();
        EncodeAllConcat(step.emitted, final);
        ConcatAssociative(sent, EncodeAll(step.emitted), EncodeAll(final));
      }
      if wrNext != 0 {
        SendBuffer();
      }
      NothingHeld();
      if !rawWrite {
        wrNext := HEADER_LEN;
      }
    }

    lemma NothingHeld()
      requires wrNext == 0
      ensures Raws() == req.ipc.outgoing
    {
      assert req.ipc.outgoing + [] == req.ipc.outgoing;
    }

    /** Turns buffered content into a record in place; without content, takes
        the room for the header back. */
    method PrepareRecord()
      requires Valid() && !isClosed
      modifies this`wrNext, buff
      ensures Bounds()
      ensures var step := Empty(old(Model()), req.requestId);
              && (wrNext == 0 <==> step.emitted == [])
              && AllValid(step.emitted) && Raws() == old(req.ipc.outgoing) + EncodeAll(step.emitted)
              && step.stream == old(Model()).(buffer := [], written := old(isAnythingWritten) || step.emitted != [])
    {
      ghost var content := buff[HEADER_LEN..wrNext];
      WriterTheorems.EmptyFrames(Model(), req.requestId);
      var cLen := wrNext - HEADER_LEN;
      if cLen > 0 {
        SealRecord(cLen);
        EncodeAllSingle(DataRecord(typ, req.requestId, content));
      } else {
        wrNext := 0;
      }
    }

    /** Adds the record that ends the stream, unless it is an error stream that
        never carried anything, and the END_REQUEST record when no other stream
        is open. */
    method WriteCloseRecords()
      requires Bounds() && req.requestId < 0x10000 && !isClosed && !wasFCloseCalled && stop == buff.Length
      modifies this`wrNext, this`isAnythingWritten, this`rawWrite, buff, req`nWriters, req.ipc`outgoing
      ensures Raw() && req.nWriters == old(req.nWriters) - 1
      ensures var silent := old(wrNext) == 0 && !old(isAnythingWritten);
              var final := FinalRecords(silent, typ, req.requestId, old(req.nWriters), req.appStatus);
              && AllValid(final) && Raws() == old(Raws()) + EncodeAll(final)
              && if final == [] then wrNext == old(wrNext) && isAnythingWritten == old(isAnythingWritten)
                 else wrNext > 0
      decreases 1, 0
    {
      hide Raws, Encode, MakeHeader;
      ghost var raws, id, silent := Raws(), req.requestId, wrNext == 0 && !isAnythingWritten;
      rawWrite := true;
      ghost var eof: seq<Record> := [];
      if !(typ == STDERR && wrNext == 0 && !isAnythingWritten) {
        var _ := PutStr(MakeHeader(typ, req.requestId, 0, 0));
        eof := [EndOfStream(typ, id)];
        EncodeEof(typ, id);
      }
      ghost var end: seq<Record> := [];
      if req.nWriters == 1 {
        var _ := PutStr(MakeHeader(END_REQUEST, req.requestId, 8, 0)
                        + MakeEndRequestBody(req.appStatus, REQUEST_COMPLETE));
        end := [EndRequest(id, req.appStatus)];
        EncodeEnd(id, req.appStatus);
      }
      req.nWriters := req.nWriters - 1;
      assert eof + end == FinalRecords(silent, typ, id, old(req.nWriters), req.appStatus);
      EncodeAllConcat(eof, end);
      ConcatAssociative(raws, EncodeAll(eof), EncodeAll(end));
      assert eof == [] ==> raws + [] == raws;
      assert end == [] ==> Raws() + [] == Raws();
    }

    lemma EncodeEof(typ: byte, id: nat)
      requires id < 0x10000
      ensures EndOfStream(typ, id).Valid()
      ensures EncodeAll([EndOfStream(typ, id)]) == MakeHeader(typ, id, 0, 0)
    {
      EncodeAllSingle(EndOfStream(typ, id));
    }

    lemma EncodeEnd(id: nat, appStatus: int)
      requires id < 0x10000
      ensures EndRequest(id, appStatus).Valid()
      ensures EncodeAll([EndRequest(id, appStatus)])
              == MakeHeader(END_REQUEST, id, 8, 0) + MakeEndRequestBody(appStatus, REQUEST_COMPLETE)
    {
      EncodeAllSingle(EndRequest(id, appStatus));
    }

    /** The records of a step, and nothing else, have been sent. */
    twostate predicate Sent(step: Step)
      reads req.ipc
    {
      AllValid(step.emitted) && req.ipc.outgoing == old(req.ipc.outgoing) + EncodeAll(step.emitted)
    }

    /** Copies as much of bytes into the buffer as fits. */
    method Fill(bytes: seq<byte>) returns (m: nat)
      requires Valid() || Raw()
      modifies this`wrNext, buff
      ensures m == Min(|bytes|, old(stop - wrNext)) && wrNext == old(wrNext) + m
      ensures old(Valid()) ==> Valid()
      ensures old(Raw()) ==> Raw() && Raws() == old(Raws()) + bytes[..m]
      ensures old(Valid()) ==>
                Model() == if isClosed then old(Model()) else old(Model()).(buffer := old(Model()).buffer + bytes[..m])
    {
      m := Min(|bytes|, stop - wrNext);
      ghost var front := buff[..wrNext];
      CopyIn(bytes[..m]);
      ConcatAssociative(req.ipc.outgoing, front, bytes[..m]);
      assert !rawWrite && !isClosed ==> buff[HEADER_LEN..wrNext] == buff[..wrNext][HEADER_LEN..];
    }

    /** Writes all of str, or nothing when the stream is closed. */
    method PutStr(str: seq<byte>) returns (n: int)
      requires Valid() || Raw()
      modifies this`wrNext, this`isAnythingWritten, this`rawWrite, buff, req`nWriters, req.ipc`outgoing
      ensures rawWrite == old(rawWrite) && req.nWriters == old(req.nWriters)
      ensures old(Raw()) ==> Raw() && Raws() == old(Raws()) + str && (str != [] ==> wrNext > 0)
      ensures old(Valid()) ==>
                && Valid() && var step := Put(old(Model()), req.requestId, str);
                   Sent(step) && Model() == step.stream
      ensures n == if isClosed && str != [] then -1 else |str|
      decreases 0, 2
    {
      assert EncodeAll([]) == [];
      hide Put, Empty, Raws, Reaches, EncodeAll;
      ghost var raw, raws, id, sent := Raw(), Raws(), req.requestId, req.ipc.outgoing;
      ghost var w := if raw then Stream(typ, 8, [], true, true) else Model();
      assert sent + [] == sent && raws + [] == raws && str[..|str|] == str;
      var moved := 0;
      ghost var emitted: seq<Record> := [];
      if !raw {
        ReachStart(w, id, str);
      }
      if |str| <= stop - wrNext {
        var m := Fill(str);
        if !raw {
          ReachFits(w, w, id, str, 0, []);
        }
        return |str|;
      }
      while true
        invariant 0 <= moved < |str|
        invariant rawWrite == old(rawWrite) && req.nWriters == old(req.nWriters)
        invariant !raw ==>
                    && Valid() && Reaches(w, Model(), id, str, moved, emitted)
                    && AllValid(emitted) && req.ipc.outgoing == sent + EncodeAll(emitted)
        invariant raw ==> Raw() && Raws() == raws + str[..moved]
        decreases |str| - moved, wrNext
      {
        ghost var extra, before := [], moved;
        moved, extra := PutSome(str, moved, w, emitted);
        Extends(raws, str, before, moved - before);
        if moved == |str| {
          return |str|;
        }
        if isClosed {
          return -1;
        }
        if !raw {
          ConcatAssociative(sent, EncodeAll(emitted), EncodeAll(extra));
          emitted := emitted + extra;
        }
      }
    }

    /** Fills the buffer with what is left of str, and empties it if that is
        not the end of str. */
    method PutSome(str: seq<byte>, from: nat, ghost w0: Stream, ghost emitted: seq<Record>)
      returns (moved: nat, ghost extra: seq<Record>)
      requires (Valid() || Raw()) && from < |str|
      requires Valid() ==> Reaches(w0, Model(), req.requestId, str, from, emitted)
      modifies this`wrNext, this`isAnythingWritten, this`rawWrite, buff, req`nWriters, req.ipc`outgoing
      ensures rawWrite == old(rawWrite) && req.nWriters == old(req.nWriters)
      ensures from <= moved <= |str|
      ensures if isClosed then moved == from else moved > from || wrNext < old(wrNext)
      ensures old(Raw()) ==>
                Raw() && Raws() == old(Raws()) + str[from..][..moved - from] && (moved == |str| ==> wrNext > 0)
      ensures old(Valid()) ==>
                && Valid() && AllValid(extra) && req.ipc.outgoing == old(req.ipc.outgoing) + EncodeAll(extra)
                && if moved == |str| || isClosed then
                     extra == [] && Put(w0, req.requestId, str) == Step(Model(), emitted)
                   else GoesOn(w0, Model(), req.requestId, str, moved, emitted, extra)
      decreases 0, 1
    {
      hide Put, Empty, Raws, Reaches, EncodeAll, GoesOn, MakeHeader, Encode;
      assert req.ipc.outgoing == req.ipc.outgoing + EncodeAll([]) by { NothingAdded(req.ipc.outgoing); }
      extra := [];
      ghost var raw, id := Raw(), req.requestId;
      ghost var w1 := if raw then w0 else Model();
      ghost var left := str[from..];
      var m := Fill(str[from..]);
      moved := from + m;
      if moved == |str| {
        assert left[..m] == left;
        if !raw {
          ReachFits(w0, w1, id, str, from, emitted);
        }
        return;
      }
      if isClosed {
        if !raw {
          ReachClosed(w0, w1, id, str, from, emitted);
        }
        return;
      }
      extra := EmptyOn(str, from, w0, w1, emitted);
    }

    lemma NothingAdded(sent: seq<byte>)
      ensures sent == sent + EncodeAll([])
    {
    }

    /** Empties the buffer that a part of str has filled up. */
    method EmptyOn(ghost str: seq<byte>, ghost from: nat, ghost w0: Stream, ghost w: Stream, ghost emitted: seq<Record>)
      returns (ghost extra: seq<Record>)
      requires Raw() || (Valid() && !isClosed)
      requires Valid() ==>
                 && Reaches(w0, w, req.requestId, str, from, emitted) && w.Valid() && w.open && from <= |str|
                 && var room := w.capacity - |w.buffer|;
                    |str| - from > room && Model() == w.(buffer := w.buffer + str[from..][..room])
      modifies this`wrNext, this`isAnythingWritten, this`rawWrite, buff, req`nWriters, req.ipc`outgoing
      ensures rawWrite == old(rawWrite) && req.nWriters == old(req.nWriters)
      ensures old(Raw()) ==> Raw() && Raws() == old(Raws()) && wrNext == 0
      ensures old(Valid()) ==>
                && Valid() && wrNext == HEADER_LEN && AllValid(extra)
                && req.ipc.outgoing == old(req.ipc.outgoing) + EncodeAll(extra)
                && GoesOn(w0, Model(), req.requestId, str, from + w.capacity - |w.buffer|, emitted, extra)
      decreases 0, 0, 1
    {
      hide Put, Empty, Raws, Reaches, EncodeAll, GoesOn;
      extra := [];
      if !rawWrite {
        ghost var full := ReachOn(w0, w, req.requestId, str, from, emitted);
        extra := full.emitted;
      }
      EmptyBuffProc(false);
    }

    ghost predicate GoesOn(w0: Stream, w: Stream, id: nat, str: seq<byte>, moved: nat, emitted: seq<Record>,
                           extra: seq<Record>) {
      && Reaches(w0, w, id, str, moved, emitted + extra)
      && AllValid(emitted + extra) && AllValid(emitted) && AllValid(extra)
      && EncodeAll(emitted + extra) == EncodeAll(emitted) + EncodeAll(extra)
    }

    lemma Extends(raws: seq<byte>, str: seq<byte>, from: nat, m: nat)
      requires from + m <= |str|
      ensures raws + str[..from] + str[from..][..m] == raws + str[..from + m]
    {
      assert str[..from] + str[from..][..m] == str[..from + m];
      ConcatAssociative(raws, str[..from], str[from..][..m]);
    }

    /** Putting str from w0 comes to having sent `emitted`, reached w, and
        putting what is left. */
    ghost predicate Reaches(w0: Stream, w: Stream, id: nat, str: seq<byte>, moved: nat, emitted: seq<Record>) {
      && w0.Valid() && w.Valid() && moved <= |str| && id < 0x10000 && AllValid(emitted)
      && var more := Put(w, id, str[moved..]);
         Put(w0, id, str) == Step(more.stream, emitted + more.emitted)
    }

    lemma ReachStart(w: Stream, id: nat, str: seq<byte>)
      requires w.Valid() && id < 0x10000
      ensures Reaches(w, w, id, str, 0, [])
    {
      assert str[0..] == str;
      assert [] + Put(w, id, str).emitted == Put(w, id, str).emitted;
    }

    lemma ReachFits(w0: Stream, w: Stream, id: nat, str: seq<byte>, moved: nat, emitted: seq<Record>)
      requires Reaches(w0, w, id, str, moved, emitted) && (w.open || str[moved..] == [])
      requires |str| - moved <= w.capacity - |w.buffer|
      ensures Put(w0, id, str) == Step(w.(buffer := w.buffer + str[moved..]), emitted)
    {
      assert emitted + [] == emitted;
      assert str[moved..] == [] ==> w.buffer + str[moved..] == w.buffer;
    }

    lemma ReachClosed(w0: Stream, w: Stream, id: nat, str: seq<byte>, moved: nat, emitted: seq<Record>)
      requires Reaches(w0, w, id, str, moved, emitted) && !w.open
      ensures Put(w0, id, str) == Step(w, emitted)
    {
      assert emitted + [] == emitted;
    }

    lemma ReachOn(w0: Stream, w: Stream, id: nat, str: seq<byte>, moved: nat, emitted: seq<Record>) returns (full: Step)
      requires Reaches(w0, w, id, str, moved, emitted) && w.open && |str| - moved > w.capacity - |w.buffer|
      ensures var room := w.capacity - |w.buffer|;
              && full == Empty(w.(buffer := w.buffer + str[moved..][..room]), id)
              && GoesOn(w0, full.stream, id, str, moved + room, emitted, full.emitted)
    {
      hide Empty;
      var room := w.capacity - |w.buffer|;
      var filled := w.(buffer := w.buffer + str[moved..][..room]);
      full := Empty(filled, id);
      assert full.stream.Valid() by { EmptyValid(filled, id); }
      assert str[moved..][room..] == str[moved + room..];
      WriterTheorems.EmptyFrames(filled, id);
      EncodeAllConcat(emitted, full.emitted);
      ConcatAssociative(emitted, full.emitted, Put(full.stream, id, str[moved + room..]).emitted);
    }

    lemma EmptyValid(w: Stream, id: nat)
      requires w.Valid()
      ensures Empty(w, id).stream.Valid()
    {
    }

    /** Sends what is buffered. */
    method FFlush() returns (n: int)
      requires Valid()
      modifies this`wrNext, this`isAnythingWritten, this`rawWrite, buff, req`nWriters, req.ipc`outgoing
      ensures Valid() && n == 0 && req.nWriters == old(req.nWriters)
      ensures var step := Flush(old(Model()), req.requestId); Sent(step) && Model() == step.stream
    {
      if isClosed {
        assert req.ipc.outgoing + [] == req.ipc.outgoing;
        return 0;
      }
      EmptyBuffProc(false);
      return 0;
    }

    /** Sends what is buffered and ends the stream; the last stream to be
        closed ends the request. Closing again does nothing. */
    method FClose() returns (n: int)
      requires Valid()
      modifies this, buff, req`nWriters, req.ipc`outgoing
      ensures Valid() && isClosed && n == 0
      ensures req.nWriters == old(req.nWriters) - if old(isClosed) then 0 else 1
      ensures var step := Close(old(Model()), req.requestId, old(req.nWriters), req.appStatus);
              Sent(step) && Model() == step.stream
    {
      if !wasFCloseCalled {
        EmptyBuffProc(true);
        wasFCloseCalled := true;
        isClosed := true;
        stop := wrNext;
      } else {
        assert req.ipc.outgoing + [] == req.ipc.outgoing;
      }
      return 0;
    }
  }

  /** The two output streams of a request. */
  ghost predicate Paired(out: Writer, err: Writer)
    reads out, err, out.req, err.req
  {
    && out.Valid() && err.Valid() && out != err && out.buff != err.buff
    && out.req == err.req && out.typ == STDOUT && err.typ == STDERR
  }

  /** The session the two streams implement, given the records sent so far. */
  ghost function Implements(out: Writer, err: Writer, log: seq<Record>): Session
    requires Paired(out, err)
    reads out, err, out.req, err.req, out.buff, err.buff
  {
    Session(out.req.requestId, out.req.nWriters, out.req.appStatus, out.Model(), err.Model(), log)
  }

  /** The connection has carried exactly the records of a valid session. */
  ghost predicate Carries(s: Session, base: seq<byte>, sent: seq<byte>) {
    s.Valid() && AllValid(s.log) && sent == base + EncodeAll(s.log)
  }

  /** One operation of the application on its output. */
  method Do(op: Op, out: Writer, err: Writer, ghost s: Session, ghost base: seq<byte>)
    requires Paired(out, err) && s == Implements(out, err, s.log) && Carries(s, base, out.req.ipc.outgoing)
    modifies out, err, out.buff, err.buff, out.req`nWriters, out.req`appStatus, out.req.ipc`outgoing
    ensures Paired(out, err)
    ensures var s' := Apply(s, op); s' == Implements(out, err, s'.log) && Carries(s', base, out.req.ipc.outgoing)
  {
    hide Put, Flush, Close, EncodeAll;
    ghost var w := if op.SetExitStatus? || op.side == Out then out else err;
    ghost var step := if op.PutStr? then Put(w.Model(), s.id, op.bytes)
                      else if op.FFlush? then Flush(w.Model(), s.id)
                      else Close(w.Model(), s.id, s.nWriters, s.appStatus);
    ApplyKeepsValid(s, op);
    match op {
      case PutStr(side, bytes) =>
        var _ := (if side == Out then out else err).PutStr(bytes);
      case FFlush(side) =>
        var _ := (if side == Out then out else err).FFlush();
      case FClose(side) =>
        var _ := (if side == Out then out else err).FClose();
      case SetExitStatus(status) =>
        out.req.appStatus := status;
        return;
    }
    EncodeAllConcat(s.log, step.emitted);
    ConcatAssociative(base, EncodeAll(s.log), EncodeAll(step.emitted));
  }

  /** A run of operations: what reaches the connection is what Run says. */
  method DoAll(ops: seq<Op>, out: Writer, err: Writer, ghost s: Session, ghost base: seq<byte>)
    requires Paired(out, err) && s == Implements(out, err, s.log) && Carries(s, base, out.req.ipc.outgoing)
    modifies out, err, out.buff, err.buff, out.req`nWriters, out.req`appStatus, out.req.ipc`outgoing
    ensures Paired(out, err)
    ensures var s' := Run(s, ops); s' == Implements(out, err, s'.log) && Carries(s', base, out.req.ipc.outgoing)
  {
    hide Apply;
    ghost var now := s;
    for i := 0 to |ops|
      invariant Paired(out, err) && now == Implements(out, err, now.log) && Carries(now, base, out.req.ipc.outgoing)
      invariant Run(now, ops[i..]) == Run(s, ops)
    {
      assert ops[i..][0] == ops[i] && ops[i..][1..] == ops[i + 1..];
      Do(ops[i], out, err, now, base);
      now := Apply(now, ops[i]);
    }
  }

  /** Finishes a request: closes the error stream, then the output stream. */
  method FinishRequest(out: Writer, err: Writer, ghost s: Session, ghost base: seq<byte>)
    requires Paired(out, err) && s == Implements(out, err, s.log) && Carries(s, base, out.req.ipc.outgoing)
    modifies out, err, out.buff, err.buff, out.req`nWriters, out.req`appStatus, out.req.ipc`outgoing
    ensures Paired(out, err)
    ensures var s' := Finish(s); s' == Implements(out, err, s'.log) && Carries(s', base, out.req.ipc.outgoing)
  {
    hide Apply;
    assert [FClose(Err), FClose(Out)][1..] == [FClose(Out)] && [FClose(Out)][1..] == [];
    Do(FClose(Err), out, err, s, base);
    Do(FClose(Out), out, err, Apply(s, FClose(Err)), base);
  }
}
