/** A request whose connection ends before its parameters do. */
module CutRequests {
  import opened Bytes
  import opened FcgiRecords
  import opened NameValues
  import opened ReaderSpec
  import opened Delivery
  import opened ServerSpec
  import opened RequestTheorems
  import Server
  import Accept

  /** The content in the first k bytes of records without padding. */
  function ContentBefore(rs: seq<Record>, k: nat): seq<byte> {
    if rs == [] then []
    else
      var size := HEADER_LEN + |rs[0].content|;
      if k >= size then rs[0].content + ContentBefore(rs[1..], k - size)
      else if k <= HEADER_LEN then []
      else rs[0].content[..k - HEADER_LEN]
  }

  ghost predicate NoPadding(rs: seq<Record>) {
    forall r :: r in rs ==> r.padding == []
  }

  /** A stream cut off before its end delivers the content in front of the cut
      and breaks off. */
  lemma {:induction false} CutStream(m: ReaderSpec.Mode, rs: seq<Record>, k: nat)
    requires Receiving(m) && m.id == REQUEST_ID && AllOwn(m, rs) && NoPadding(rs)
    ensures AllValid(rs)
    ensures var w := EncodeAll(rs) + Encode(Chunk(m.typ, []));
            k < |w| ==> Deliver(m, BETWEEN_RECORDS, w[..k]) == Broken(ContentBefore(rs, k))
    decreases |rs|
  {
    hide Deliver, Encode;
    var last := Chunk(m.typ, []);
    var w := EncodeAll(rs) + Encode(last);
    if k < |w| {
      EncodedSize(last);
      if rs == [] {
        assert w == Encode(last);
        CutHeader(m, w[..k]);
      } else {
        var r, tail := rs[0], EncodeAll(rs[1..]) + Encode(last);
        var size := HEADER_LEN + |r.content|;
        assert r in rs;
        assert AllOwn(m, rs[1..]) && NoPadding(rs[1..]) by {
          assert forall x :: x in rs[1..] ==> x in rs;
        }
        CutStream(m, rs[1..], if k >= size then k - size else 0);
        ConcatAssociative(Encode(r), EncodeAll(rs[1..]), Encode(last));
        EncodedSize(r);
        if k >= size {
          assert w[..k] == Encode(r) + tail[..k - size];
          OneRecord(m, r, false, tail[..k - size]);
        } else if k < HEADER_LEN {
          CutHeader(m, w[..k]);
        } else {
          CutContent(m, r, tail, k);
        }
      }
    }
  }

  lemma CutHeader(m: ReaderSpec.Mode, w: seq<byte>)
    requires |w| < HEADER_LEN
    ensures Deliver(m, BETWEEN_RECORDS, w) == Broken([])
  {
    hide Deliver, AtHeader;
    NothingLeft(m, BETWEEN_RECORDS, false, w);
    ContentDone(m, BETWEEN_RECORDS, w);
  }

  /** A record cut off behind its header delivers what there is of its content. */
  lemma CutContent(m: ReaderSpec.Mode, r: Record, tail: seq<byte>, k: nat)
    requires Receiving(m) && r.Valid() && Own(m, r) && r.padding == [] && HEADER_LEN <= k < HEADER_LEN + |r.content|
    ensures k <= |Encode(r) + tail|
    ensures Deliver(m, BETWEEN_RECORDS, (Encode(r) + tail)[..k]) == Broken(r.content[..k - HEADER_LEN])
  {
    hide AfterContent, AtHeader, Encode;
    EncodedSize(r);
    EncodedParts(r, tail);
    var w := Encode(r) + tail;
    var d, front := w[..k], r.content[..k - HEADER_LEN];
    assert d[..HEADER_LEN] == w[..HEADER_LEN];
    assert d == w[..HEADER_LEN] + front by {
      assert w[HEADER_LEN..k] == w[HEADER_LEN..][..k - HEADER_LEN] == front;
    }
    ContentDone(m, BETWEEN_RECORDS, d);
    HeaderRead(m, false, w[..HEADER_LEN], front);
  }

  /** The records of the parameters in front of the end of their stream. */
  function ParamRecords(params: seq<Pair>): seq<Record> {
    if params == [] then [] else Chunks(PARAMS, EncodePairs(params))
  }

  lemma ParamRecordsOwn(params: seq<Pair>)
    ensures AllOwn(Mode(PARAMS, REQUEST_ID, true), ParamRecords(params)) && NoPadding(ParamRecords(params))
    ensures Concat(ParamRecords(params)) == EncodePairs(params)
  {
    hide EncodePairs, Chunks;
    EncodePairsEmpty(params);
    Server.ChunksValid(PARAMS, EncodePairs(params));
    ConcatChunks(PARAMS, EncodePairs(params));
  }

  lemma {:induction false} ContentIsFront(rs: seq<Record>, k: nat)
    ensures ContentBefore(rs, k) <= Concat(rs)
  {
    if rs != [] {
      var size := HEADER_LEN + |rs[0].content|;
      ContentIsFront(rs[1..], if k >= size then k - size else 0);
    }
  }

  /** The bytes of a request up to the end of its parameters. */
  function ParamsWire(params: seq<Pair>): seq<byte>
    requires AllValid(ParamRecords(params))
  {
    Encode(Begin(RESPONDER)) + (EncodeAll(ParamRecords(params)) + Encode(Chunk(PARAMS, [])))
  }

  /** How long the starting record is. */
  const BEGIN_LEN: nat := 16

  /** A connection that ends anywhere before the parameters do is accepted if
      and only if the starting record is whole and the content in front of the
      cut stops behind one of the parameters, or in front of all; the request
      has the parameters in front of the cut, and the error is kept. */
  lemma CutShort(staleId: nat, params: seq<Pair>, k: nat)
    requires Encodable(params)
    ensures AllValid(ParamRecords(params))
    ensures k < |ParamsWire(params)| ==>
              var a := Accept.Acceptable(staleId, ParamsWire(params)[..k]);
              var d := ContentBefore(ParamRecords(params), if k < BEGIN_LEN then 0 else k - BEGIN_LEN);
              && (a.Accepted? <==> k >= BEGIN_LEN && exists j: nat :: EndsBehind(params, d, j))
              && (forall j: nat :: k >= BEGIN_LEN && EndsBehind(params, d, j) ==>
                    a == Accept.Accepted(REQUEST_ID, RESPONDER, false, [Accept.RolePair(RESPONDER).value] + params[..j],
                                         PROTOCOL_ERROR, [], []))
              && (!a.Accepted? ==> a == Accept.Refused)
  {
    hide Deliver, EncodeAll, ParamRecords, EncodePairs, ParsePairs, Encode, ContentBefore;
    var m, rs := Mode(PARAMS, REQUEST_ID, true), ParamRecords(params);
    ParamRecordsOwn(params);
    EncodedSize(Begin(RESPONDER));
    var n := if k < BEGIN_LEN then 0 else k - BEGIN_LEN;
    CutStream(m, rs, n);
    if k < |ParamsWire(params)| {
      var more := EncodeAll(rs) + Encode(Chunk(PARAMS, []));
      if k < BEGIN_LEN {
        CutBegin(staleId, RESPONDER, more, k);
      } else {
        assert ParamsWire(params)[..k] == Encode(Begin(RESPONDER)) + more[..n];
        BeginTaken(staleId, RESPONDER, more[..n]);
        ContentIsFront(rs, n);
        var d := ContentBefore(rs, n);
        assert d == EncodePairs(params)[..|d|];
        CutPairs(params, |d|);
      }
    }
  }

  /** A starting record that is not whole starts nothing. */
  lemma CutBegin(staleId: nat, role: nat, tail: seq<byte>, k: nat)
    requires role < 0x10000 && k < BEGIN_LEN
    ensures k <= |Encode(Begin(role)) + tail|
    ensures Deliver(Mode(0, staleId, false), BETWEEN_RECORDS, (Encode(Begin(role)) + tail)[..k]).ending
            == Closed(PROTOCOL_ERROR)
  {
    hide AfterContent, AtHeader, Encode;
    var m, r := Mode(0, staleId, false), Begin(role);
    EncodedSize(r);
    EncodedParts(r, tail);
    var w := Encode(r) + tail;
    var d := w[..k];
    if k < HEADER_LEN {
      CutHeader(m, d);
    } else {
      assert d[..HEADER_LEN] == w[..HEADER_LEN] && d == d[..HEADER_LEN] + d[HEADER_LEN..];
      ContentDone(m, BETWEEN_RECORDS, d);
      HeaderRead(m, false, d[..HEADER_LEN], d[HEADER_LEN..]);
    }
  }
}
