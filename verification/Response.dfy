/** What the server's response loop makes of whole records, and of the records
    an application writes. */
module Responses {
  import opened Bytes
  import opened FcgiRecords
  import opened ServerSpec
  import opened WriterSpec
  import opened WriterTheorems
  import opened WriterRuns

  function Size(r: Record): nat {
    HEADER_LEN + |r.content| + |r.padding|
  }

  /** An empty output record, which the loop passes over. */
  predicate Skipped(r: Record) {
    r.typ == STDOUT && r.content == []
  }

  /** A bare header that the loop never gets past. */
  predicate Blocking(r: Record) {
    r.typ != STDOUT && r.content == [] && r.padding == []
  }

  ghost predicate Unpadded(rs: seq<Record>) {
    forall r :: r in rs && Skipped(r) ==> r.padding == []
  }

  /** How far some records bring the loop: to its end, to what comes behind
      them, or into the padding of an empty output record, with the bytes of
      the records from there on. */
  datatype Walk =
    | Done(response: Response)
    | More(total: nat, count: nat, out: seq<byte>)
    | Astray(bytes: seq<byte>, total: nat, count: nat, out: seq<byte>)

  function Walked(rs: seq<Record>, total: nat, count: nat, out: seq<byte>): Walk
    requires AllValid(rs)
  {
    if rs == [] then More(total, count, out)
    else if total + HEADER_LEN > MAX_RESPONSE_BYTES then Done(Failed)
    else if Skipped(rs[0]) then
      if rs[0].padding == [] then Walked(rs[1..], total + HEADER_LEN, count, out)
      else Astray(rs[0].padding + EncodeAll(rs[1..]), total + HEADER_LEN, count, out)
    else if Blocking(rs[0]) then Done(Pending)
    else if total + Size(rs[0]) > MAX_RESPONSE_BYTES || count + 1 > MAX_RECORDS then Done(Failed)
    else if rs[0].typ == END_REQUEST then Done(Complete(out))
    else if rs[0].typ == STDOUT then
      if |out| + |rs[0].content| > MAX_RESPONSE_BYTES then Done(Failed)
      else Walked(rs[1..], total + Size(rs[0]), count + 1, out + rs[0].content)
    else Walked(rs[1..], total + Size(rs[0]), count + 1, out)
  }

  function AnswerAfter(w: Walk, tail: seq<byte>): Response {
    match w
    case Done(response) => response
    case More(total, count, out) => Deframed(tail, total, count, out)
    case Astray(bytes, total, count, out) => Deframed(bytes + tail, total, count, out)
  }

  /** Record by record, whatever bytes follow and however they arrive. */
  lemma {:induction false} DeframedFront(rs: seq<Record>, tail: seq<byte>, total: nat, count: nat, out: seq<byte>)
    requires AllValid(rs)
    ensures Deframed(EncodeAll(rs) + tail, total, count, out) == AnswerAfter(Walked(rs, total, count, out), tail)
  {
    hide Deframed, Encode, ParseHeader;
    DeframedOnce(EncodeAll(rs) + tail, total, count, out);
    if rs == [] {
      assert [] + tail == tail;
    } else {
      var r, rest := rs[0], EncodeAll(rs[1..]) + tail;
      ConcatAssociative(Encode(r), EncodeAll(rs[1..]), tail);
      if Skipped(r) && r.padding != [] {
        EncodedParts(r, rest);
        ConcatAssociative(r.padding, EncodeAll(rs[1..]), tail);
        assert [] + (r.padding + rest) == r.padding + rest;
      } else {
        RecordCut(r, rest);
        var more := if r.typ == STDOUT then out + r.content else out;
        assert out + [] == out;
        DeframedFront(rs[1..], tail, total + Size(r), if Skipped(r) then count else count + 1, more);
      }
    }
  }

  /** Nothing but records. */
  lemma DeframedRecords(rs: seq<Record>, total: nat, count: nat, out: seq<byte>)
    requires AllValid(rs)
    ensures Deframed(EncodeAll(rs), total, count, out) == AnswerAfter(Walked(rs, total, count, out), [])
  {
    hide Deframed, EncodeAll, Walked;
    DeframedFront(rs, [], total, count, out);
    assert EncodeAll(rs) + [] == EncodeAll(rs);
  }

  lemma RecordCut(r: Record, tail: seq<byte>)
    requires r.Valid()
    ensures var w, end := Encode(r) + tail, HEADER_LEN + |r.content|;
            && |w| >= Size(r)
            && ParseHeader(w[..HEADER_LEN]) == Header(VERSION_1, r.typ, r.id, |r.content|, |r.padding|)
            && w[HEADER_LEN..end] == r.content && w[Size(r)..] == tail
  {
    var w := Encode(r) + tail;
    EncodedParts(r, tail);
    var end := HEADER_LEN + |r.content|;
    assert w[HEADER_LEN..end] == w[HEADER_LEN..][..|r.content|] == r.content;
    assert w[Size(r)..] == w[HEADER_LEN..][|r.content| + |r.padding|..] == tail;
  }

  /** Behind any records the padding of an empty output record is taken for
      what comes next. */
  lemma PaddingNotSkipped(front: seq<Record>, id: nat, padding: seq<byte>, rest: seq<byte>)
    requires AllValid(front) && id < 0x10000 && |padding| < 0x100
    ensures var w, tail := Walked(front, 0, 0, []), Encode(Record(STDOUT, id, [], padding)) + rest;
            Deframed(EncodeAll(front) + tail, 0, 0, []) ==
            if !w.More? then AnswerAfter(w, tail)
            else if w.total + HEADER_LEN > MAX_RESPONSE_BYTES then Failed
            else Deframed(padding + rest, w.total + HEADER_LEN, w.count, w.out)
  {
    hide Deframed, Encode, ParseHeader, Walked;
    var r, w := Record(STDOUT, id, [], padding), Walked(front, 0, 0, []);
    DeframedFront(front, Encode(r) + rest, 0, 0, []);
    EncodedParts(r, rest);
    if w.More? {
      DeframedOnce(Encode(r) + rest, w.total, w.count, w.out);
      assert [] + (padding + rest) == padding + rest;
    }
  }

  /** Eight zero octets of it, or more, keep the loop from ending, wherever in
      the response they stand within the limits, and whatever follows. */
  lemma PaddingStalls(front: seq<Record>, id: nat, n: nat, rest: seq<byte>)
    requires AllValid(front) && id < 0x10000 && HEADER_LEN <= n < 0x100
    requires var w := Walked(front, 0, 0, []); w.More? && w.total + 2 * HEADER_LEN <= MAX_RESPONSE_BYTES
    ensures Deframed(EncodeAll(front) + (Encode(Record(STDOUT, id, [], Zeros(n))) + rest), 0, 0, []) == Pending
  {
    hide Deframed, Walked;
    var w := Walked(front, 0, 0, []);
    PaddingNotSkipped(front, id, Zeros(n), rest);
    ZerosStall(Zeros(n), rest, w.total + HEADER_LEN, w.count, w.out);
  }

  /** How many records count towards the limit. */
  function Counted(rs: seq<Record>): nat {
    if rs == [] then 0 else (if Skipped(rs[0]) then 0 else 1) + Counted(rs[1..])
  }

  /** The limits the loop sets: on bytes, and on records that carry anything. */
  predicate Fits(rs: seq<Record>, total: nat, count: nat)
    requires AllValid(rs)
  {
    total + |EncodeAll(rs)| <= MAX_RESPONSE_BYTES && count + Counted(rs) <= MAX_RECORDS
  }

  /** The limits in numbers: 64 MiB, and a hundred thousand records. */
  lemma FitsNumbers(rs: seq<Record>)
    requires AllValid(rs)
    ensures Fits(rs, 0, 0) <==> |EncodeAll(rs)| <= 67108864 && Counted(rs) <= 100000
  {
  }

  ghost predicate Blocked(rs: seq<Record>) {
    exists r :: r in rs && Blocking(r)
  }

  lemma BlockedFirst(rs: seq<Record>)
    requires rs != []
    ensures Blocked(rs) <==> Blocking(rs[0]) || Blocked(rs[1..])
  {
    if r :| r in rs && Blocking(r) && r != rs[0] {
      assert rs == [rs[0]] + rs[1..];
      assert r in rs[1..];
    }
  }

  /** One END_REQUEST, in last place. */
  ghost predicate EndsOnce(rs: seq<Record>) {
    && rs != [] && rs[|rs| - 1].typ == END_REQUEST
    && forall i :: 0 <= i < |rs| - 1 ==> rs[i].typ != END_REQUEST
  }

  /** A complete answer stays what it is, whatever comes behind it. */
  lemma {:induction false} CompleteStays(w: seq<byte>, tail: seq<byte>, total: nat, count: nat, out: seq<byte>)
    requires Deframed(w, total, count, out).Complete?
    ensures Deframed(w + tail, total, count, out) == Deframed(w, total, count, out)
    decreases |w|
  {
    hide Deframed, ParseHeader;
    DeframedOnce(w, total, count, out);
    DeframedOnce(w + tail, total, count, out);
    var h := ParseHeader(w[..HEADER_LEN]);
    assert (w + tail)[..HEADER_LEN] == w[..HEADER_LEN];
    var end := HEADER_LEN + h.contentLength;
    var need := end + h.paddingLength;
    if h.typ == STDOUT && h.contentLength == 0 {
      assert (w + tail)[HEADER_LEN..] == w[HEADER_LEN..] + tail;
      CompleteStays(w[HEADER_LEN..], tail, total + HEADER_LEN, count, out);
    } else if h.typ != END_REQUEST {
      assert (w + tail)[HEADER_LEN..end] == w[HEADER_LEN..end] && (w + tail)[need..] == w[need..] + tail;
      CompleteStays(w[need..], tail, total + need, count + 1, out + if h.typ == STDOUT then w[HEADER_LEN..end] else []);
    }
  }

  /** A response that is cut off anywhere is never taken for a complete one. */
  lemma {:induction false} CutNeverComplete(rs: seq<Record>, k: nat, total: nat, count: nat, out: seq<byte>)
    requires AllValid(rs) && Unpadded(rs) && EndsOnce(rs) && k < |EncodeAll(rs)|
    ensures !Deframed(EncodeAll(rs)[..k], total, count, out).Complete?
    decreases |rs|
  {
    hide Deframed, ParseHeader, Encode, EncodeAll;
    var r, rest := rs[0], rs[1..];
    FirstUnpadded(rs);
    var w := EncodeAll(rs)[..k];
    DeframedOnce(w, total, count, out);
    RecordCut(r, EncodeAll(rest));
    EncodeSize(r);
    if k >= HEADER_LEN {
      assert w[..HEADER_LEN] == EncodeAll(rs)[..HEADER_LEN];
    }
    if k >= Size(r) && |rs| > 1 {
      assert w[Size(r)..] == EncodeAll(rest)[..k - Size(r)];
      CutNeverComplete(rest, k - Size(r), total + Size(r), count, out);
      CutNeverComplete(rest, k - Size(r), total + Size(r), count + 1, out);
      CutNeverComplete(rest, k - Size(r), total + Size(r), count + 1, out + w[HEADER_LEN..HEADER_LEN + |r.content|]);
      assert out + [] == out;
    }
  }

  lemma EncodeSize(r: Record)
    requires r.Valid()
    ensures |Encode(r)| == Size(r)
  {
  }

  lemma FirstUnpadded(rs: seq<Record>)
    requires AllValid(rs) && Unpadded(rs) && EndsOnce(rs)
    ensures AllValid(rs[1..]) && Unpadded(rs[1..]) && EncodeAll(rs) == Encode(rs[0]) + EncodeAll(rs[1..])
    ensures (Skipped(rs[0]) ==> rs[0].padding == []) && rs[0] in rs
    ensures if |rs| == 1 then rs[1..] == [] && EncodeAll(rs[1..]) == [] && rs[0].typ == END_REQUEST
            else EndsOnce(rs[1..]) && rs[0].typ != END_REQUEST
  {
    hide Encode, Skipped;
    assert forall r :: r in rs[1..] ==> r in rs;
    EndsBehind(rs);
    hide EndsOnce;
  }

  /** The padding of empty output records is made of zero octets, eight or more. */
  ghost predicate ZeroPadded(rs: seq<Record>) {
    forall r :: r in rs && Skipped(r) && r.padding != [] ==>
      |r.padding| >= HEADER_LEN && r.padding == Zeros(|r.padding|)
  }

  /** Behind such a record the loop is handed the same header again and again. */
  lemma ZerosStall(padding: seq<byte>, rest: seq<byte>, total: nat, count: nat, out: seq<byte>)
    requires |padding| >= HEADER_LEN && padding == Zeros(|padding|)
    ensures Deframed(padding + rest, total, count, out)
            == if total + HEADER_LEN > MAX_RESPONSE_BYTES then Failed else Pending
  {
    DeframedOnce(padding + rest, total, count, out);
    assert (padding + rest)[..HEADER_LEN] == Zeros(HEADER_LEN);
  }

  /** A response is complete exactly when it keeps to the limits, no bare header
      of another type is in it, and no empty output record has padding; it is
      then all the output there was. Within the limits the loop has no end
      otherwise. */
  lemma AnswerIs(rs: seq<Record>, total: nat, count: nat, out: seq<byte>)
    requires AllValid(rs) && ZeroPadded(rs) && EndsOnce(rs) && |out| <= total
    ensures var answer := Deframed(EncodeAll(rs), total, count, out);
            && (answer.Complete? <==> Fits(rs, total, count) && !Blocked(rs) && Unpadded(rs))
            && (answer.Complete? ==> answer.stdout == out + Concat(Of(rs, STDOUT)))
            && (Fits(rs, total, count) && !answer.Complete? ==> answer == Pending)
  {
    hide Deframed, EncodeAll, Walked, Blocked, Fits, Concat, Of, ZeroPadded, EndsOnce, Unpadded, AnswerAfter;
    DeframedRecords(rs, total, count, out);
    WalkIs(rs, total, count, out);
  }

  ghost predicate Right(rs: seq<Record>, total: nat, count: nat, out: seq<byte>, answer: Response)
    requires AllValid(rs)
  {
    && (answer.Complete? <==> Fits(rs, total, count) && !Blocked(rs) && Unpadded(rs))
    && (answer.Complete? ==> answer.stdout == out + Concat(Of(rs, STDOUT)))
    && (Fits(rs, total, count) && !answer.Complete? ==> answer == Pending)
  }

  lemma {:induction false} WalkIs(rs: seq<Record>, total: nat, count: nat, out: seq<byte>)
    requires AllValid(rs) && ZeroPadded(rs) && EndsOnce(rs) && |out| <= total
    ensures Right(rs, total, count, out, AnswerAfter(Walked(rs, total, count, out), []))
  {
    var r, rest := rs[0], rs[1..];
    FirstOfAll(rs);
    hide Right, Walked, AnswerAfter, ZeroPadded, EndsOnce, Unpadded;
    if Skipped(r) && r.padding != [] {
      WalkAstray(rs, total, count, out);
    } else if |rs| == 1 {
      assert rs == [r];
      WalkEnds(r, total, count, out);
    } else {
      var more := if r.typ == STDOUT then out + r.content else out;
      WalkIs(rest, total + Size(r), if Skipped(r) then count else count + 1, more);
      WalkStep(rs, total, count, out);
    }
  }

  lemma WalkAstray(rs: seq<Record>, total: nat, count: nat, out: seq<byte>)
    requires rs != [] && AllValid(rs) && ZeroPadded(rs) && Skipped(rs[0]) && rs[0].padding != []
    ensures Right(rs, total, count, out, AnswerAfter(Walked(rs, total, count, out), []))
  {
    hide Deframed, EncodeAll, Blocked, Fits, Concat, Of;
    var padding, rest := rs[0].padding, EncodeAll(rs[1..]);
    PaddingFirst(rs);
    FitsFirst(rs, total, count);
    assert padding + rest + [] == padding + rest;
    ZerosStall(padding, rest, total + HEADER_LEN, count, out);
    assert rs[0] in rs;
  }

  lemma WalkedFirst(rs: seq<Record>, total: nat, count: nat, out: seq<byte>)
    requires rs != [] && AllValid(rs) && rs[0].typ != END_REQUEST && |out| <= total
    requires Skipped(rs[0]) ==> rs[0].padding == []
    ensures var r := rs[0];
            AllValid(rs[1..]) && Walked(rs, total, count, out) ==
            if total + HEADER_LEN > MAX_RESPONSE_BYTES then Done(Failed)
            else if Blocking(r) then Done(Pending)
            else if Skipped(r) then Walked(rs[1..], total + Size(r), count, out + r.content)
            else if total + Size(r) > MAX_RESPONSE_BYTES || count + 1 > MAX_RECORDS then Done(Failed)
            else Walked(rs[1..], total + Size(r), count + 1, if r.typ == STDOUT then out + r.content else out)
  {
    assert out + [] == out;
  }

  lemma WalkEnds(r: Record, total: nat, count: nat, out: seq<byte>)
    requires r.Valid() && r.typ == END_REQUEST
    ensures AllValid([r]) && Right([r], total, count, out, AnswerAfter(Walked([r], total, count, out), []))
  {
    hide Deframed, EncodeAll, Blocked, Fits, Concat, Of;
    assert [r][1..] == [];
    BlockedFirst([r]);
    OutputFirst([r]);
    FitsFirst([r], total, count);
    NothingMore(total + Size(r), count + 1);
    assert out + [] == out;
  }

  lemma WalkStep(rs: seq<Record>, total: nat, count: nat, out: seq<byte>)
    requires |rs| > 1 && AllValid(rs) && ZeroPadded(rs) && EndsOnce(rs) && |out| <= total
    requires Skipped(rs[0]) ==> rs[0].padding == []
    requires var r := rs[0];
             var more := if r.typ == STDOUT then out + r.content else out;
             var c := if Skipped(r) then count else count + 1;
             AllValid(rs[1..])
             && Right(rs[1..], total + Size(r), c, more, AnswerAfter(Walked(rs[1..], total + Size(r), c, more), []))
    ensures Right(rs, total, count, out, AnswerAfter(Walked(rs, total, count, out), []))
  {
    FirstOfAll(rs);
    hide Deframed, EncodeAll, Blocked, Fits, Concat, Of, ZeroPadded, EndsOnce, Unpadded, Walked;
    WalkedFirst(rs, total, count, out);
    BlockedFirst(rs);
    OutputFirst(rs);
    FitsFirst(rs, total, count);
    assert out + [] == out;
    if rs[0].typ == STDOUT {
      ConcatAssociative(out, rs[0].content, Concat(Of(rs[1..], STDOUT)));
    }
  }

  lemma PaddingFirst(rs: seq<Record>)
    requires rs != [] && ZeroPadded(rs) && Skipped(rs[0]) && rs[0].padding != []
    ensures |rs[0].padding| >= HEADER_LEN && rs[0].padding == Zeros(|rs[0].padding|)
  {
  }

  lemma FirstOfAll(rs: seq<Record>)
    requires rs != [] && AllValid(rs) && ZeroPadded(rs) && EndsOnce(rs)
    ensures AllValid(rs[1..]) && ZeroPadded(rs[1..]) && EncodeAll(rs) == Encode(rs[0]) + EncodeAll(rs[1..])
    ensures Unpadded(rs) <==> Unpadded(rs[1..]) && (Skipped(rs[0]) ==> rs[0].padding == [])
    ensures if |rs| == 1 then rs[1..] == [] && rs[0].typ == END_REQUEST && Unpadded([])
            else EndsOnce(rs[1..]) && rs[0].typ != END_REQUEST
  {
    hide Encode, Skipped;
    assert forall r :: r in rs <==> r == rs[0] || r in rs[1..] by {
      assert rs == [rs[0]] + rs[1..];
    }
    EndsBehind(rs);
    hide EndsOnce;
  }

  lemma EndsBehind(rs: seq<Record>)
    requires EndsOnce(rs)
    ensures if |rs| == 1 then rs[1..] == [] && rs[0].typ == END_REQUEST
            else EndsOnce(rs[1..]) && rs[0].typ != END_REQUEST
  {
    assert |rs| > 1 ==> rs[1..][|rs| - 2] == rs[|rs| - 1];
  }

  lemma NothingMore(total: nat, count: nat)
    ensures !Blocked([]) && Concat(Of([], STDOUT)) == []
    ensures Fits([], total, count) <==> total <= MAX_RESPONSE_BYTES && count <= MAX_RECORDS
  {
  }

  lemma FitsFirst(rs: seq<Record>, total: nat, count: nat)
    requires AllValid(rs) && rs != []
    ensures Fits(rs, total, count) <==>
            Fits(rs[1..], total + Size(rs[0]), if Skipped(rs[0]) then count else count + 1)
    ensures Fits(rs, total, count) ==> total + Size(rs[0]) <= MAX_RESPONSE_BYTES
    ensures Fits(rs, total, count) && !Skipped(rs[0]) ==> count + 1 <= MAX_RECORDS
  {
    assert |Encode(rs[0])| == Size(rs[0]);
  }

  lemma OutputFirst(rs: seq<Record>)
    requires rs != []
    ensures Concat(Of(rs, STDOUT)) == if rs[0].typ == STDOUT then rs[0].content + Concat(Of(rs[1..], STDOUT))
                                      else Concat(Of(rs[1..], STDOUT))
  {
    var rest := Of(rs[1..], STDOUT);
    assert ([rs[0]] + rest)[1..] == rest && [] + rest == rest;
  }

  /** What a server reads of a finished request: all that was put on its output
      stream, however the bytes travel, provided the error stream carried
      nothing and the limits are kept. An error stream that carried anything
      leaves the server's loop without an end. */
  lemma OutputArrives(id: nat, appStatus: int, outCapacity: nat, errCapacity: nat, ops: seq<Op>,
                      s0: Session, log: seq<Record>)
    requires s0 == Start(id, appStatus, outCapacity, errCapacity) && s0.Valid()
    requires log == Finish(Run(s0, ops)).log
    ensures && AllValid(log)
            && var answer := Deframed(EncodeAll(log), 0, 0, []);
               && (answer.Complete? <==> Added(s0, ops, Err) == [] && Fits(log, 0, 0))
               && (answer.Complete? ==> answer.stdout == Added(s0, ops, Out))
               && (Added(s0, ops, Err) != [] && Fits(log, 0, 0) ==> answer == Pending)
  {
    hide Deframed, Run, Finish, Added, Fits, EndRequest, LastStatus, OpenSpan, Ended;
    RequestCompletes(id, appStatus, outCapacity, errCapacity, ops);
    LogShape(log, id, LastStatus(appStatus, ops[..OpenSpan(s0, ops)]));
    AnswerIs(log, 0, 0, []);
    assert [] + Concat(Of(log, STDOUT)) == Concat(Of(log, STDOUT));
  }

  lemma LogShape(log: seq<Record>, id: nat, status: int)
    requires log != [] && log[|log| - 1] == EndRequest(id, status) && Of(log[..|log| - 1], END_REQUEST) == []
    requires Ended(Of(log, STDOUT), STDOUT, id) && Ended(Of(log, STDERR), STDERR, id)
    requires forall r :: r in log ==> r.typ in {STDOUT, STDERR, END_REQUEST} && r.Valid()
    ensures EndsOnce(log) && AllValid(log) && Unpadded(log)
    ensures Blocked(log) <==> Of(log, STDERR) != []
  {
    hide Of, Ended, EndRequest;
    var front, end := log[..|log| - 1], log[|log| - 1];
    assert log == front + [end];
    forall r | r in front ensures r.typ != END_REQUEST {
      OfHas(front, r);
    }
    assert end.typ == END_REQUEST && end.content != [] by { EndCarries(id, status); }
    forall r | r in log ensures (Skipped(r) ==> r.padding == []) && (Blocking(r) ==> Of(log, STDERR) != []) {
      OfHas(log, r);
      if r.typ == STDOUT {
        InEnded(Of(log, STDOUT), STDOUT, id, r);
      }
    }
    if Of(log, STDERR) != [] {
      LastOfErrors(Of(log, STDERR), id);
      OfHas(log, EndOfStream(STDERR, id));
      assert Blocking(EndOfStream(STDERR, id));
    }
  }

  lemma EndCarries(id: nat, status: int)
    ensures EndRequest(id, status).typ == END_REQUEST && EndRequest(id, status).content != []
  {
  }

  lemma LastOfErrors(mine: seq<Record>, id: nat)
    requires Ended(mine, STDERR, id) && mine != []
    ensures EndOfStream(STDERR, id) in mine
  {
  }

  lemma InEnded(mine: seq<Record>, typ: byte, id: nat, r: Record)
    requires Ended(mine, typ, id) && r in mine
    ensures r.content == [] ==> r.padding == []
  {
    assert mine == mine[..|mine| - 1] + [mine[|mine| - 1]];
  }
}
