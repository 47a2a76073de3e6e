/** What the application's input stream delivers for a sequence of records. */
module Delivery {
  import opened Bytes
  import opened FcgiRecords
  import opened ReaderSpec

  /** A request stream that has begun: records of its own type and id count. */
  ghost predicate Receiving(m: Mode) {
    m.begun && m.id != NULL_REQUEST_ID && m.typ != BEGIN_REQUEST
  }

  /** Non-empty data of this stream. */
  predicate Own(m: Mode, r: Record) {
    r.id == m.id && r.typ == m.typ && r.content != []
  }

  /** Addressed to another request, or an attempt to start one. */
  predicate Foreign(m: Mode, r: Record) {
    r.id != NULL_REQUEST_ID && if r.typ == BEGIN_REQUEST then |r.content| == BEGIN_BODY_LEN else r.id != m.id
  }

  /** A management record the library does not understand. */
  predicate UnknownManagement(r: Record) {
    r.id == NULL_REQUEST_ID && r.typ != BEGIN_REQUEST && r.typ != GET_VALUES
  }

  ghost predicate Passing(m: Mode, r: Record) {
    r.Valid() && (Own(m, r) || Foreign(m, r) || UnknownManagement(r))
  }

  ghost predicate AllPassing(m: Mode, rs: seq<Record>) {
    forall r :: r in rs ==> Passing(m, r)
  }

  function Reply(m: Mode, r: Record): seq<byte> {
    if r.id == NULL_REQUEST_ID then MakeHeader(UNKNOWN_TYPE, NULL_REQUEST_ID, 8, 0) + MakeUnknownTypeBody(r.typ)
    else if r.typ == BEGIN_REQUEST then MakeHeader(END_REQUEST, r.id, 8, 0) + MakeEndRequestBody(0, CANT_MPX_CONN)
    else []
  }

  function Replies(m: Mode, rs: seq<Record>): seq<byte> {
    if rs == [] then [] else Reply(m, rs[0]) + Replies(m, rs[1..])
  }

  /** Whether the stream is still to skip content once r has gone by. */
  predicate SkipAfter(m: Mode, r: Record, skip: bool) {
    (Foreign(m, r) || skip) && r.content == []
  }

  /** The content bytes the code hands out. */
  function Kept(m: Mode, rs: seq<Record>, skip: bool): seq<byte> {
    if rs == [] then []
    else (if Foreign(m, rs[0]) || skip then [] else rs[0].content) + Kept(m, rs[1..], SkipAfter(m, rs[0], skip))
  }

  predicate SkipAfterAll(m: Mode, rs: seq<Record>, skip: bool) {
    if rs == [] then skip else SkipAfterAll(m, rs[1..], SkipAfter(m, rs[0], skip))
  }

  function Between(skip: bool): Cursor {
    Cursor(0, 0, skip, false)
  }

  lemma WholeRecord(m: Mode, content: seq<byte>, padding: seq<byte>, skip: bool, tail: seq<byte>)
    ensures Deliver(m, Cursor(|content|, |padding|, skip, false), content + (padding + tail))
            == Deliver(m, Between(skip && content == []), tail).Prepend(if skip then [] else content)
  {
    hide AtHeader;
    var r := content + (padding + tail);
    var after := padding + tail;
    assert r[..|content|] == content && r[|content|..] == after && after[|padding|..] == tail;
    var skip' := skip && content == [];
    assert AfterContent(m, Cursor(0, |padding|, skip', false), after) == AtHeader(m, skip', tail);
    assert Deliver(m, Cursor(0, |padding|, skip', false), after) == AtHeader(m, skip', tail);
    ContentDone(m, Between(skip'), tail);
    var o := Deliver(m, Between(skip'), tail);
    assert [] + o.data == o.data;
  }

  lemma OneRecord(m: Mode, r: Record, skip: bool, tail: seq<byte>)
    requires Receiving(m) && Passing(m, r)
    ensures Deliver(m, Between(skip), Encode(r) + tail)
            == Deliver(m, Between(SkipAfter(m, r, skip)), tail)
               .Prepend(if Foreign(m, r) || skip then [] else r.content).Replying(Reply(m, r))
  {
    hide Deliver, AfterContent, AtHeader;
    hide Encode, MakeHeader, MakeEndRequestBody, MakeUnknownTypeBody, ParseHeader;
    var w := Encode(r) + tail;
    EncodedParts(r, tail);
    ContentDone(m, Between(skip), w);
    assert w == w[..HEADER_LEN] + w[HEADER_LEN..];
    HeaderRead(m, skip, w[..HEADER_LEN], w[HEADER_LEN..]);
    WholeRecord(m, r.content, r.padding, Foreign(m, r) || skip, tail);
    var o := Deliver(m, Between(SkipAfter(m, r, skip)), tail);
    assert [] + o.replies == o.replies;
  }

  /** Record by record: padding disappears, foreign records are passed over,
      and the rest of the wire is read as if it came first. */
  lemma {:induction false} Records(m: Mode, rs: seq<Record>, skip: bool, tail: seq<byte>)
    requires Receiving(m) && AllPassing(m, rs)
    ensures AllValid(rs)
    ensures Deliver(m, Between(skip), EncodeAll(rs) + tail)
            == Deliver(m, Between(SkipAfterAll(m, rs, skip)), tail).Prepend(Kept(m, rs, skip)).Replying(Replies(m, rs))
  {
    hide Deliver;
    if rs == [] {
      var o := Deliver(m, Between(skip), tail);
      assert [] + tail == tail && [] + o.data == o.data && [] + o.replies == o.replies;
    } else {
      var skip' := SkipAfter(m, rs[0], skip);
      Records(m, rs[1..], skip', tail);
      assert AllValid(rs) by {
        assert forall r :: r in rs ==> r == rs[0] || r in rs[1..];
      }
      OneRecord(m, rs[0], skip, EncodeAll(rs[1..]) + tail);
      ConcatAssociative(Encode(rs[0]), EncodeAll(rs[1..]), tail);
      var o := Deliver(m, Between(SkipAfterAll(m, rs, skip)), tail);
      ConcatAssociative(if Foreign(m, rs[0]) || skip then [] else rs[0].content, Kept(m, rs[1..], skip'), o.data);
      ConcatAssociative(Reply(m, rs[0]), Replies(m, rs[1..]), o.replies);
    }
  }

  /** An empty record of the stream ends it; its padding is left unread. */
  lemma Terminated(m: Mode, padding: seq<byte>, skip: bool, tail: seq<byte>)
    requires Receiving(m) && m.id < 0x10000 && |padding| < 0x100
    ensures Deliver(m, Between(skip), Encode(Record(m.typ, m.id, [], padding)) + tail)
            == Outcome([], Closed(0), padding + tail, [])
  {
    hide AfterContent, AtHeader;
    var r := Record(m.typ, m.id, [], padding);
    var w := Encode(r) + tail;
    EncodedParts(r, tail);
    ContentDone(m, Between(skip), w);
    assert w == w[..HEADER_LEN] + w[HEADER_LEN..];
    HeaderRead(m, skip, w[..HEADER_LEN], w[HEADER_LEN..]);
    assert [] + (padding + tail) == padding + tail;
  }

  /** A whole stream on the wire: its end is reported cleanly, and the bytes
      delivered are those Kept says, whatever follows. */
  lemma WholeStream(m: Mode, rs: seq<Record>, padding: seq<byte>, tail: seq<byte>)
    requires Receiving(m) && m.id < 0x10000 && |padding| < 0x100 && AllPassing(m, rs)
    ensures AllValid(rs)
    ensures Deliver(m, BETWEEN_RECORDS, EncodeAll(rs) + (Encode(Record(m.typ, m.id, [], padding)) + tail))
            == Outcome(Kept(m, rs, false), Closed(0), padding + tail, Replies(m, rs))
  {
    hide Deliver;
    Records(m, rs, false, Encode(Record(m.typ, m.id, [], padding)) + tail);
    Terminated(m, padding, SkipAfterAll(m, rs, false), tail);
    assert Kept(m, rs, false) + [] == Kept(m, rs, false);
    assert Replies(m, rs) + [] == Replies(m, rs);
  }

  /** The contents of the stream's own records, in order: what section 3.3 of
      the specification says the stream carries. */
  function Contents(m: Mode, rs: seq<Record>): seq<byte> {
    if rs == [] then []
    else (if Own(m, rs[0]) then rs[0].content else []) + Contents(m, rs[1..])
  }

  /** The records whose content the code hands out. */
  function HandedOut(m: Mode, rs: seq<Record>, skip: bool): seq<Record> {
    if rs == [] then []
    else
      (if rs[0].content == [] || Foreign(m, rs[0]) || skip then [] else [rs[0]])
      + HandedOut(m, rs[1..], SkipAfter(m, rs[0], skip))
  }

  function OwnRecords(m: Mode, rs: seq<Record>): seq<Record> {
    if rs == [] then [] else (if Own(m, rs[0]) then [rs[0]] else []) + OwnRecords(m, rs[1..])
  }

  /** How many bytes of its own the stream loses because it is still skipping. */
  function Lost(m: Mode, rs: seq<Record>, skip: bool): nat {
    if rs == [] then 0
    else (if Own(m, rs[0]) && skip then |rs[0].content| else 0) + Lost(m, rs[1..], SkipAfter(m, rs[0], skip))
  }

  /** How many bytes of management records it hands out. */
  function Leaked(m: Mode, rs: seq<Record>, skip: bool): nat {
    if rs == [] then 0
    else
      (if UnknownManagement(rs[0]) && !skip then |rs[0].content| else 0)
      + Leaked(m, rs[1..], SkipAfter(m, rs[0], skip))
  }

  /** Only empty records stand between an empty foreign one, or the start of a
      stream that is skipping, and the i-th. */
  ghost predicate Skipping(m: Mode, rs: seq<Record>, skip: bool, i: nat)
    requires i <= |rs|
  {
    || (skip && forall k :: 0 <= k < i ==> rs[k].content == [])
    || exists j :: 0 <= j < i && Foreign(m, rs[j]) && forall k :: j <= k < i ==> rs[k].content == []
  }

  /** No data of the stream stands where it is still skipping. */
  ghost predicate NothingLost(m: Mode, rs: seq<Record>, skip: bool) {
    forall i :: 0 <= i < |rs| && Own(m, rs[i]) ==> !Skipping(m, rs, skip, i)
  }

  /** Management records are empty, or stand where the stream is skipping. */
  ghost predicate NothingLeaked(m: Mode, rs: seq<Record>, skip: bool) {
    forall i :: 0 <= i < |rs| && UnknownManagement(rs[i]) && rs[i].content != [] ==> Skipping(m, rs, skip, i)
  }

  lemma SkippingFront(m: Mode, rs: seq<Record>, skip: bool, i: nat)
    requires 0 < i <= |rs|
    ensures Skipping(m, rs, skip, i) <==> Skipping(m, rs[1..], SkipAfter(m, rs[0], skip), i - 1)
  {
  }

  lemma SkippingAtStart(m: Mode, rs: seq<Record>, skip: bool)
    ensures Skipping(m, rs, skip, 0) <==> skip
  {
  }

  lemma LossFront(m: Mode, rs: seq<Record>, skip: bool)
    requires rs != []
    ensures var rest, skip' := rs[1..], SkipAfter(m, rs[0], skip);
            && (NothingLost(m, rs, skip) <==> NothingLost(m, rest, skip') && !(Own(m, rs[0]) && skip))
            && (NothingLeaked(m, rs, skip) <==>
                NothingLeaked(m, rest, skip') && (UnknownManagement(rs[0]) && rs[0].content != [] ==> skip))
  {
    hide Skipping;
    var rest := rs[1..];
    SkippingAtStart(m, rs, skip);
    forall i | 0 < i < |rs|
      ensures rs[i] == rest[i - 1]
      ensures Skipping(m, rs, skip, i) <==> Skipping(m, rest, SkipAfter(m, rs[0], skip), i - 1)
    {
      SkippingFront(m, rs, skip, i);
    }
    assert forall i :: 0 <= i < |rest| ==> rest[i] == rs[i + 1];
  }

  lemma {:induction false} LossIff(m: Mode, rs: seq<Record>, skip: bool)
    ensures Lost(m, rs, skip) == 0 <==> NothingLost(m, rs, skip)
    ensures Leaked(m, rs, skip) == 0 <==> NothingLeaked(m, rs, skip)
  {
    hide NothingLost, NothingLeaked;
    if rs == [] {
      NoLoss(m, skip);
    } else {
      LossFront(m, rs, skip);
      LossIff(m, rs[1..], SkipAfter(m, rs[0], skip));
    }
  }

  lemma NoLoss(m: Mode, skip: bool)
    ensures NothingLost(m, [], skip) && NothingLeaked(m, [], skip)
  {
  }

  /** What is handed out and what is lost make up the stream's own bytes and
      those that leak in. */
  lemma {:induction false} Balance(m: Mode, rs: seq<Record>, skip: bool)
    requires Receiving(m) && AllPassing(m, rs)
    ensures |Kept(m, rs, skip)| + Lost(m, rs, skip) == |Contents(m, rs)| + Leaked(m, rs, skip)
    ensures Lost(m, rs, skip) == 0 && Leaked(m, rs, skip) == 0 ==>
              Kept(m, rs, skip) == Contents(m, rs) && HandedOut(m, rs, skip) == OwnRecords(m, rs)
    ensures Concat(HandedOut(m, rs, skip)) == Kept(m, rs, skip)
  {
    if rs != [] {
      var r, rest := rs[0], rs[1..];
      assert Passing(m, r) by { assert r in rs; }
      Balance(m, rest, SkipAfter(m, r, skip));
      var more := HandedOut(m, rest, SkipAfter(m, r, skip));
      assert ([r] + more)[1..] == more && [] + more == more;
    }
  }

  lemma OwnFirst(m: Mode, r: Record, rs: seq<Record>)
    ensures OwnRecords(m, [r] + rs) == (if Own(m, r) then [r] else []) + OwnRecords(m, rs)
  {
    assert ([r] + rs)[1..] == rs;
  }

  /** A record of the stream's own that is lost is missing among those handed
      out, and one that leaks in is none of its own. */
  lemma {:induction false} HandedOutShows(m: Mode, rs: seq<Record>, skip: bool)
    requires Receiving(m) && AllPassing(m, rs)
    ensures var own := OwnRecords(m, HandedOut(m, rs, skip));
            |own| <= |OwnRecords(m, rs)| && (|own| == |OwnRecords(m, rs)| <==> Lost(m, rs, skip) == 0)
    ensures Leaked(m, rs, skip) == 0 <==> forall r :: r in HandedOut(m, rs, skip) ==> Own(m, r)
  {
    if rs != [] {
      var r, rest := rs[0], rs[1..];
      assert Passing(m, r) by { assert r in rs; }
      HandedOutShows(m, rest, SkipAfter(m, r, skip));
      var more := HandedOut(m, rest, SkipAfter(m, r, skip));
      OwnFirst(m, r, more);
      assert [] + more == more;
    }
  }

  lemma {:induction false} OwnTwice(m: Mode, rs: seq<Record>)
    ensures OwnRecords(m, OwnRecords(m, rs)) == OwnRecords(m, rs)
    ensures forall r :: r in OwnRecords(m, rs) ==> Own(m, r)
  {
    if rs != [] {
      OwnTwice(m, rs[1..]);
      OwnFirst(m, rs[0], OwnRecords(m, rs[1..]));
      assert [] + OwnRecords(m, rs[1..]) == OwnRecords(m, rs[1..]);
    }
  }

  /** When a stream delivers exactly its own contents. Record by record: if and
      only if none of its data stands where it is skipping, and no management
      record with content stands where it is not. Byte by byte the same holds
      as soon as one of the two is known. */
  lemma DeliversContents(m: Mode, rs: seq<Record>)
    requires Receiving(m) && AllPassing(m, rs)
    ensures HandedOut(m, rs, false) == OwnRecords(m, rs) <==>
              NothingLost(m, rs, false) && NothingLeaked(m, rs, false)
    ensures Concat(HandedOut(m, rs, false)) == Kept(m, rs, false)
    ensures NothingLost(m, rs, false) && NothingLeaked(m, rs, false) ==> Kept(m, rs, false) == Contents(m, rs)
    ensures NothingLost(m, rs, false) ==> (Kept(m, rs, false) == Contents(m, rs) <==> NothingLeaked(m, rs, false))
    ensures NothingLeaked(m, rs, false) ==> (Kept(m, rs, false) == Contents(m, rs) <==> NothingLost(m, rs, false))
  {
    hide NothingLost, NothingLeaked;
    LossIff(m, rs, false);
    Balance(m, rs, false);
    HandedOutShows(m, rs, false);
    OwnTwice(m, rs);
  }

  ghost predicate NoManagement(rs: seq<Record>) {
    forall r :: r in rs ==> r.id != NULL_REQUEST_ID
  }

  /** No empty foreign record stands right in front of data of the stream. */
  ghost predicate NoEmptyForeignBeforeOwn(m: Mode, rs: seq<Record>) {
    forall i :: 0 < i < |rs| && Foreign(m, rs[i - 1]) && rs[i - 1].content == [] ==> !Own(m, rs[i])
  }

  /** Without management records the stream delivers exactly its own contents
      if and only if no empty foreign record stands right in front of some. */
  lemma WithoutManagement(m: Mode, rs: seq<Record>)
    requires Receiving(m) && AllPassing(m, rs) && NoManagement(rs)
    ensures Kept(m, rs, false) == Contents(m, rs) <==> NoEmptyForeignBeforeOwn(m, rs)
  {
    hide Kept, Contents, HandedOut, OwnRecords;
    DeliversContents(m, rs);
    assert NothingLeaked(m, rs, false) by {
      assert forall i :: 0 <= i < |rs| ==> rs[i] in rs;
    }
    if NoEmptyForeignBeforeOwn(m, rs) {
      forall i | 0 <= i < |rs| && Own(m, rs[i]) ensures !Skipping(m, rs, false, i) {
        if i > 0 {
          assert Passing(m, rs[i - 1]) by { assert rs[i - 1] in rs; }
        }
      }
    }
    if NothingLost(m, rs, false) {
      forall i | 0 < i < |rs| && Foreign(m, rs[i - 1]) && rs[i - 1].content == [] ensures !Own(m, rs[i]) {
        assert Skipping(m, rs, false, i);
      }
    }
  }

  /** The content of a management record of an unknown type comes out as data. */
  lemma ManagementContentLeaks(m: Mode, r: Record)
    requires Receiving(m) && Passing(m, r) && UnknownManagement(r)
    ensures Contents(m, [r]) == [] && Kept(m, [r], false) == r.content
  {
    assert [r][1..] == [];
  }

  /** An empty record for another request costs the stream its next data. */
  lemma EmptyForeignLosesData(m: Mode, own: Record)
    requires Receiving(m) && Passing(m, own) && Own(m, own)
    ensures var rs := [Record(m.typ, if m.id == 1 then 2 else 1, [], []), own];
            AllPassing(m, rs) && Contents(m, rs) == own.content && Kept(m, rs, false) == []
  {
    var rs := [Record(m.typ, if m.id == 1 then 2 else 1, [], []), own];
    assert rs[1..] == [own] && [own][1..] == [];
    assert Contents(m, [own]) == own.content + [];
    assert SkipAfter(m, rs[0], false) && Kept(m, [own], true) == [] + Kept(m, [], SkipAfter(m, own, true));
  }
}
