/** The buffered, re-entrant input stream of an application. */
module Readers {
  import opened Bytes
  import opened Connections
  import opened FcgiRecords
  import opened ReaderSpec
  import opened Requests

  const EOF: int := -1

  datatype Status = STREAM_RECORD | SKIP | BEGIN_RECORD | MGMT_RECORD | Failed(code: int)

  datatype Progress = DELIVERED | MORE | RECORD_DONE | RETURN

  datatype Call = CharCall | StrCall(n: int)

  class Reader {
    const req: Request
    // bytes as the system delivered them: [0, buffStop) is valid,
    // [rdNext, stop) is content the client may take
    const buff: array<byte>
    var rdNext: nat
    var stop: nat
    var buffStop: nat
    var isClosed: bool
    var errno: int
    // record type of the stream
    var typ: byte
    // stop at the end of the record: set while a record is read through the stream
    var eorStop: bool
    var skip: bool
    var contentLen: nat
    var paddingLen: nat

    ghost predicate Bounds()
      reads this`rdNext, this`buffStop
    {
      buff.Length > 0 && rdNext <= buffStop <= buff.Length
    }

    ghost predicate Valid()
      reads this
    {
      && Bounds()
      && (!isClosed ==> rdNext <= stop <= buffStop)
    }

    ghost function Mode(): ReaderSpec.Mode
      reads this`typ, req`requestId, req`isBeginProcessed
    {
      ReaderSpec.Mode(typ, req.requestId, req.isBeginProcessed)
    }

    ghost function Position(): Cursor
      reads this
    {
      Cursor(contentLen, paddingLen, skip, eorStop)
    }

    /** Bytes from index i of the buffer on, then those still to be received. */
    ghost function From(i: nat): seq<byte>
      requires i <= buffStop <= buff.Length
      reads this`buffStop, buff, req.ipc`incoming
    {
      buff[i..buffStop] + req.ipc.incoming
    }

    /** All the client will still get, and what will be written back meanwhile. */
    ghost function Unread(): Outcome
      requires Valid()
      reads this, buff, req`requestId, req`isBeginProcessed, req.ipc`incoming
    {
      if isClosed then Outcome([], EndingOf(errno), From(rdNext), [])
      else Resolve(Deliver(Mode(), Position(), From(stop)).Prepend(buff[rdNext..stop]), errno)
    }

    /** The same, behind what has been written already. */
    ghost function Future(): Outcome
      requires Valid()
      reads this, buff, req, req.ipc
    {
      Unread().Replying(req.ipc.outgoing)
    }

    /** An outcome with the first error kept and the replies appended to what was sent. */
    ghost function Settled(o: Outcome): Outcome
      reads this, req.ipc
    {
      Resolve(o, errno).Replying(req.ipc.outgoing)
    }

    /** A BEGIN_REQUEST record ended what the stream would deliver, and the
        request has been taken over from it. */
    ghost predicate Started(o: Outcome)
      requires Bounds()
      reads this, buff, req, req.ipc
    {
      && req.isBeginProcessed && !isClosed && rdNext == stop
      && o.data == [] && o.rest == From(rdNext) && o.replies == req.ipc.outgoing
      && o.ending == Begun(req.requestId, req.role, req.keepConnection, paddingLen)
    }

    constructor (req: Request, bufflen: nat, streamType: byte)
      requires bufflen > 0
      ensures Valid() && fresh(buff) && this.req == req && typ == streamType
      ensures !isClosed && errno == 0 && rdNext == stop && Position() == BETWEEN_RECORDS
      ensures From(rdNext) == req.ipc.incoming
    {
      this.req := req;
      buff := new byte[bufflen];
      rdNext, stop, buffStop := 0, 0, 0;
      isClosed, errno, typ := false, 0, streamType;
      eorStop, skip, contentLen, paddingLen := false, false, 0, 0;
    }

    method SetError(code: int)
      modifies this`errno, this`isClosed
      ensures isClosed
      ensures errno == if old(errno) == 0 then code else old(errno)
    {
      if errno == 0 {
        errno := code;
      }
      isClosed := true;
    }

    /** What a call leaves alone; what has been sent is not taken back. */
    twostate predicate SameStream()
      reads this, req, req.ipc
    {
      && old(|req.ipc.outgoing|) <= |req.ipc.outgoing|
      && typ == old(typ) && eorStop == old(eorStop)
      && req.requestId == old(req.requestId) && req.isBeginProcessed == old(req.isBeginProcessed)
      && req.role == old(req.role) && req.keepConnection == old(req.keepConnection)
    }

    /** Within a record, what is handed out comes off its unread content. */
    twostate predicate Consumed(got: seq<byte>)
      requires old(Bounds()) && Bounds()
      reads this, buff, req.ipc
    {
      && old(From(rdNext)) == got + From(rdNext)
      && paddingLen == old(paddingLen)
      && contentLen + stop + |got| - rdNext == old(contentLen + stop - rdNext)
    }

    /** If the buffer is used up, reads more. */
    method Refill() returns (ok: bool)
      requires Bounds()
      modifies this`rdNext, this`buffStop, buff, req.ipc`incoming
      ensures Bounds() && From(rdNext) == old(From(rdNext))
      ensures ok <==> From(rdNext) != []
      ensures ok ==> rdNext < buffStop
    {
      ok := true;
      if rdNext == buffStop {
        ghost var unread := From(rdNext);
        var count := req.ipc.Read(buff);
        if count == 0 {
          return false;
        }
        rdNext, buffStop := 0, count;
        assert From(rdNext) == unread;
      }
    }

    /** Offers the client the content bytes the buffer holds. */
    method OfferContent()
      requires Bounds() && !isClosed && contentLen > 0 && !skip && rdNext < buffStop
      modifies this`contentLen, this`stop
      ensures Valid() && rdNext < stop && contentLen + stop - rdNext == old(contentLen)
      ensures Deliver(Mode(), Position(), From(stop)).Prepend(buff[rdNext..stop])
              == old(Deliver(Mode(), Position(), From(rdNext)))
    {
      ghost var c, unread := Position(), From(rdNext);
      var count := Min(contentLen, buffStop - rdNext);
      DeliverChunk(Mode(), c, unread, count);
      contentLen := contentLen - count;
      stop := rdNext + count;
      assert unread[..count] == buff[rdNext..stop] && unread[count..] == From(stop);
    }

    /** Passes over the content bytes of a skipped record that the buffer holds. */
    method DropContent()
      requires Bounds() && contentLen > 0 && skip && rdNext < buffStop
      modifies this`contentLen, this`rdNext, this`skip
      ensures Bounds() && skip == (contentLen > 0)
      ensures |From(rdNext)| + old(contentLen) == old(|From(rdNext)|) + contentLen
      ensures contentLen < old(contentLen)
      ensures old(Deliver(Mode(), Position(), From(rdNext)))
              == if contentLen > 0 then Deliver(Mode(), Position(), From(rdNext))
                 else AfterContent(Mode(), Position(), From(rdNext))
    {
      ghost var c, unread := Position(), From(rdNext);
      var count := Min(contentLen, buffStop - rdNext);
      SkipChunk(Mode(), c, unread, count);
      contentLen := contentLen - count;
      rdNext := rdNext + count;
      assert unread[count..] == From(rdNext);
      if contentLen == 0 {
        skip := false;
      }
    }

    /** Passes over the padding bytes that the buffer holds. */
    method DropPadding()
      requires Bounds() && contentLen == 0 && paddingLen > 0
      modifies this`paddingLen, this`rdNext
      ensures Bounds() && paddingLen <= old(paddingLen)
      ensures paddingLen > 0 ==> rdNext == buffStop
      ensures |From(rdNext)| + old(paddingLen) == old(|From(rdNext)|) + paddingLen
      ensures old(AfterContent(Mode(), Position(), From(rdNext))) == AfterContent(Mode(), Position(), From(rdNext))
    {
      hide Deliver, AfterContent;
      var count := Min(paddingLen, buffStop - rdNext);
      ghost var unread := From(rdNext);
      assert unread[count..] == From(rdNext + count);
      if count > 0 {
        PaddingChunk(Mode(), Position(), unread, count);
        paddingLen := paddingLen - count;
        rdNext := rdNext + count;
      }
    }

    /** Takes what the buffer holds of a record header begun with `header`. */
    method CollectHeader(header: seq<byte>) returns (h: seq<byte>)
      requires Bounds() && |header| < HEADER_LEN
      modifies this`rdNext
      ensures Bounds() && header <= h && |h| <= HEADER_LEN
      ensures header + old(From(rdNext)) == h + From(rdNext)
      ensures |h| < HEADER_LEN ==> rdNext == buffStop
    {
      var count := Min(HEADER_LEN - |header|, buffStop - rdNext);
      h := header + buff[rdNext..rdNext + count];
      assert From(rdNext) == buff[rdNext..rdNext + count] + From(rdNext + count);
      rdNext := rdNext + count;
    }

    /** One pass over the rest of the current record, as far as the buffer goes. */
    method Advance() returns (p: Progress)
      requires Bounds() && rdNext < buffStop && !isClosed
      modifies this`contentLen, this`paddingLen, this`rdNext, this`stop, this`skip
      ensures Bounds() && p != RETURN
      ensures p == DELIVERED ==>
                && Valid() && rdNext < stop && rdNext == old(rdNext) && !old(skip) && skip == old(skip)
                && paddingLen == old(paddingLen) && contentLen + stop - rdNext == old(contentLen)
                && Deliver(Mode(), Position(), From(stop)).Prepend(buff[rdNext..stop])
                   == old(Deliver(Mode(), Position(), From(rdNext)))
      ensures p == MORE ==>
                && (contentLen == 0 || skip) && old(contentLen + paddingLen) > 0
                && |From(rdNext)| < old(|From(rdNext)|)
                && Deliver(Mode(), Position(), From(rdNext)) == old(Deliver(Mode(), Position(), From(rdNext)))
      ensures p == RECORD_DONE ==>
                && contentLen == 0 && paddingLen == 0
                && |From(rdNext)| + old(contentLen + paddingLen) == old(|From(rdNext)|)
                && (old(contentLen + paddingLen) == 0 ==> skip == old(skip) && rdNext == old(rdNext))
                && (if eorStop then Outcome([], Closed(0), From(rdNext), []) else AtHeader(Mode(), skip, From(rdNext)))
                   == old(Deliver(Mode(), Position(), From(rdNext)))
    {
      hide Deliver, AfterContent, AtHeader, OnHeader;
      if contentLen > 0 {
        if !skip {
          OfferContent();
          return DELIVERED;
        }
        DropContent();
        if contentLen > 0 {
          return MORE;
        }
      } else {
        ContentDone(Mode(), Position(), From(rdNext));
      }
      if paddingLen > 0 {
        DropPadding();
        ContentDone(Mode(), Position(), From(rdNext));
        if paddingLen > 0 {
          return MORE;
        }
      }
      ContentDone(Mode(), Position(), From(rdNext));
      return RECORD_DONE;
    }

    /** What is still to come when a record header begun with `header` is
        being collected, or else content or padding is due. */
    ghost function Ahead(header: seq<byte>): Outcome
      requires Bounds()
      reads this, buff, req, req.ipc
    {
      Settled(if header == [] then Deliver(Mode(), Position(), From(rdNext))
              else AtHeader(Mode(), skip, header + From(rdNext)))
    }

    /** Reads more if needed and works off what is left of the current record.
        The client gets something (RETURN), the record is not over (MORE), or
        a header is due (RECORD_DONE). */
    method FinishRecord(ghost header: seq<byte>) returns (p: Progress)
      requires Bounds() && !isClosed && |header| < HEADER_LEN
      requires header != [] ==> contentLen == 0 && paddingLen == 0 && !eorStop
      modifies this`rdNext, this`stop, this`buffStop, this`isClosed, this`errno
      modifies this`contentLen, this`paddingLen, this`skip, buff, req.ipc`incoming
      ensures Bounds() && p != DELIVERED
      ensures (p != RETURN ==> !isClosed) && (!isClosed ==> errno == old(errno))
      ensures p == RETURN ==> Valid() && Future() == old(Ahead(header))
      ensures p == RETURN && !isClosed ==>
                && rdNext < stop && From(rdNext) == old(From(rdNext)) && !old(skip)
                && paddingLen == old(paddingLen) && contentLen + stop - rdNext == old(contentLen)
      ensures p == MORE ==>
                && header == [] && (contentLen == 0 || skip)
                && |From(rdNext)| < old(|From(rdNext)|) && Ahead([]) == old(Ahead([]))
      ensures p == RECORD_DONE ==>
                && contentLen == 0 && paddingLen == 0 && !eorStop
                && (rdNext < buffStop || |From(rdNext)| < old(|From(rdNext)|))
                && |From(rdNext)| <= old(|From(rdNext)|)
                && Settled(AtHeader(Mode(), skip, header + From(rdNext))) == old(Ahead(header))
    {
      hide Deliver, AfterContent, AtHeader, OnHeader;
      var ok := Refill();
      if !ok {
        NothingLeft(Mode(), Position(), skip, header);
        assert header + [] == header;
        SetError(PROTOCOL_ERROR);
        return RETURN;
      }
      p := Advance();
      if p == DELIVERED {
        return RETURN;
      }
      if p == RECORD_DONE {
        if eorStop {
          stop := rdNext;
          isClosed := true;
          return RETURN;
        }
        assert [] + From(rdNext) == From(rdNext);
      }
    }

    method FillBuffProc()
      requires Valid() && !isClosed && rdNext == stop
      modifies this, buff, req`requestId, req`role, req`keepConnection, req`isBeginProcessed, req.ipc
      ensures Valid()
      ensures eorStop == old(eorStop) && typ == old(typ)
      ensures !isClosed ==> errno == old(errno)
      ensures old(req.isBeginProcessed || eorStop) ==> SameStream()
      ensures req.isBeginProcessed == old(req.isBeginProcessed) ==>
                Future() == old(Future()) && (!isClosed ==> SameStream() && rdNext < stop)
      ensures old(eorStop) && !isClosed ==>
                && From(rdNext) == old(From(rdNext)) && paddingLen == old(paddingLen)
                && contentLen + stop - rdNext == old(contentLen + stop - rdNext)
      ensures req.isBeginProcessed != old(req.isBeginProcessed) ==> Started(old(Future()))
      decreases if eorStop then 0 else 1, 1
    {
      hide Deliver, AfterContent, AtHeader, OnHeader;
      ghost var o := Future();
      var header: seq<byte> := [];
      while true
        invariant Bounds() && !isClosed && errno == old(errno) && SameStream()
        invariant |header| < HEADER_LEN
        invariant header != [] ==> contentLen == 0 && paddingLen == 0 && !eorStop
        invariant Ahead(header) == o
        invariant eorStop && contentLen > 0 && !skip ==>
                    contentLen == old(contentLen) && paddingLen == old(paddingLen) && From(rdNext) == old(From(rdNext))
        decreases |From(rdNext)|
      {
        var progress := FinishRecord(header);
        if progress == RETURN {
          return;
        }
        if progress == RECORD_DONE {
          var done;
          header, done := ReadHeader(header);
          if done {
            return;
          }
        }
      }
    }

    /** Collects more of a header begun with `header` and acts on it once it is
        complete. */
    method ReadHeader(header: seq<byte>) returns (h: seq<byte>, done: bool)
      requires Bounds() && !isClosed && !eorStop && |header| < HEADER_LEN
      requires contentLen == 0 && paddingLen == 0
      modifies this, buff, req`requestId, req`role, req`keepConnection, req`isBeginProcessed, req.ipc
      ensures Bounds() && !eorStop && typ == old(typ) && (!isClosed ==> errno == old(errno))
      ensures old(req.isBeginProcessed) ==> SameStream()
      ensures done ==> Valid()
      ensures done && req.isBeginProcessed == old(req.isBeginProcessed) ==>
                isClosed && Future() == old(Settled(AtHeader(Mode(), skip, header + From(rdNext))))
      ensures done && req.isBeginProcessed != old(req.isBeginProcessed) ==>
                Started(old(Settled(AtHeader(Mode(), skip, header + From(rdNext)))))
      ensures !done ==>
                && SameStream() && !isClosed && errno == old(errno) && |h| < HEADER_LEN
                && (h != [] ==> contentLen == 0 && paddingLen == 0)
                && |From(rdNext)| <= old(|From(rdNext)|)
                && (old(rdNext < buffStop) ==> |From(rdNext)| < old(|From(rdNext)|))
                && Ahead(h) == old(Settled(AtHeader(Mode(), skip, header + From(rdNext))))
      decreases 1, 0, 1
    {
      hide Deliver, AfterContent, AtHeader, OnHeader;
      h := CollectHeader(header);
      done := false;
      if |h| == HEADER_LEN {
        done := TakeHeader(h, AtHeader(Mode(), skip, h + From(rdNext)));
        h := [];
      } else if h == [] {
        ContentDone(Mode(), Position(), From(rdNext));
        assert [] + From(rdNext) == From(rdNext);
      }
    }

    /** Acts on a complete record header; done when the client is to be told
        something: end of stream, an error, or a new request. */
    method TakeHeader(header: seq<byte>, ghost o: Outcome) returns (done: bool)
      requires Bounds() && !isClosed && !eorStop && |header| == HEADER_LEN
      requires o == AtHeader(Mode(), skip, header + From(rdNext))
      modifies this, buff, req`requestId, req`role, req`keepConnection, req`isBeginProcessed, req.ipc
      ensures Bounds() && !eorStop && typ == old(typ) && (!isClosed ==> errno == old(errno))
      ensures done ==> Valid()
      ensures done && req.isBeginProcessed == old(req.isBeginProcessed) ==>
                isClosed && Future() == old(Settled(o))
      ensures old(req.isBeginProcessed) ==> SameStream()
      ensures done && req.isBeginProcessed != old(req.isBeginProcessed) ==>
                !old(req.isBeginProcessed) && Started(old(Settled(o)))
      ensures !done ==>
                && SameStream() && !isClosed && errno == old(errno) && |From(rdNext)| <= old(|From(rdNext)|)
                && Settled(Deliver(Mode(), Position(), From(rdNext))) == old(Settled(o))
      decreases 1, 0, 0
    {
      hide Deliver, AfterContent, AtHeader, OnHeader;
      hide Conclusion, Resolve;
      ghost var sent := req.ipc.outgoing;
      // keeps the stream inside this record while its content is read
      eorStop := true;
      stop := rdNext;
      var status := ProcessHeader(header, o);
      eorStop := false;
      isClosed := false;
      if status == BEGIN_RECORD {
        return true;
      }
      ghost var c := Conclusion(status);
      ResolvedFirst(c, o, errno, old(errno), req.ipc.outgoing, sent);
      done := Conclude(status);
    }

    /** It makes no difference whether an error is noted before or after it ends a stream. */
    lemma ResolvedFirst(c: Outcome, o: Outcome, now: int, before: int, sentNow: seq<byte>, sent: seq<byte>)
      requires c.Replying(sentNow) == o.Replying(sent)
      requires now == before || (before == 0 && c.ending == EndingOf(now))
      ensures Resolve(c, now).Replying(sentNow) == Resolve(o, before).Replying(sent)
      ensures c.ending == EndingOf(now) && before == 0 ==> Resolve(c, now) == c
    {
    }

    /** What a record header that starts no request leads to, once judged. */
    ghost function Conclusion(status: Status): Outcome
      requires Bounds()
      reads this`contentLen, this`paddingLen, this`skip, this`typ, this`rdNext, this`buffStop, buff
      reads req`requestId, req`isBeginProcessed, req.ipc`incoming
    {
      if status.Failed? then Outcome([], EndingOf(status.code), From(rdNext), []) else AfterHeader(status)
    }

    /** Ends the stream, gives it up, or leaves it at the content of the record. */
    method Conclude(status: Status) returns (done: bool)
      requires Bounds() && !isClosed && !eorStop && status != BEGIN_RECORD
      modifies this`stop, this`isClosed, this`errno, this`skip
      ensures Bounds() && (!isClosed ==> errno == old(errno)) && (done <==> isClosed)
      ensures status.Failed? ==> done
      ensures done ==> Valid() && Unread() == Resolve(old(Conclusion(status)), old(errno))
      ensures !done ==> Deliver(Mode(), Position(), From(rdNext)) == old(Conclusion(status))
    {
      hide Deliver, AfterContent, AtHeader, OnHeader;
      match status {
        case STREAM_RECORD =>
          if contentLen == 0 {
            stop := rdNext;
            isClosed := true;
            return true;
          }
        case SKIP =>
          skip := true;
        case MGMT_RECORD =>
        case Failed(code) =>
          SetError(code);
          return true;
      }
      return false;
    }

    /** Interprets a record header; the bytes after it are next to be read. */
    method ProcessHeader(header: seq<byte>, ghost o: Outcome) returns (status: Status)
      requires Valid() && !isClosed && rdNext == stop && eorStop && |header| == HEADER_LEN
      requires o == AtHeader(Mode(), skip, header + From(rdNext))
      modifies this, buff, req`requestId, req`role, req`keepConnection, req`isBeginProcessed, req.ipc
      ensures Bounds() && eorStop && typ == old(typ) && |From(rdNext)| <= old(|From(rdNext)|)
      ensures status == BEGIN_RECORD ==>
                errno == old(errno) && Valid() && !old(req.isBeginProcessed) && Started(old(Settled(o)))
      ensures status != BEGIN_RECORD ==> req.isBeginProcessed == old(req.isBeginProcessed)
      ensures status != BEGIN_RECORD ==>
                Conclusion(status).Replying(req.ipc.outgoing) == o.Replying(old(req.ipc.outgoing))
      ensures status.Failed? ==>
                && (old(req.isBeginProcessed) ==> SameStream()) && FirstError(status.code)
                && Conclusion(status).ending == EndingOf(status.code)
      ensures status.STREAM_RECORD? || status.SKIP? || status.MGMT_RECORD? ==>
                SameStream() && !isClosed && errno == old(errno)
      decreases if eorStop then 0 else 1, 7
    {
      hide Deliver, AfterContent, AtHeader;
      hide MakeHeader, MakeEndRequestBody, MakeUnknownTypeBody, ParseHeader, BodyRole, BodyKeepConn;
      var h := ParseHeader(header);
      HeaderRead(Mode(), skip, header, From(rdNext));
      ghost var sent := req.ipc.outgoing;
      if h.version != VERSION_1 {
        return Failed(UNSUPPORTED_VERSION);
      }
      contentLen := h.contentLength;
      paddingLen := h.paddingLength;
      status := Dispatch(h);
      match Judge(old(Mode()), h) {
        case Skip(reply) =>
          RepliesJoin(AfterHeader(SKIP), reply, sent);
        case Management(reply) =>
          RepliesJoin(AfterHeader(MGMT_RECORD), reply, sent);
        case _ =>
      }
    }

    lemma RepliesJoin(o: Outcome, reply: seq<byte>, sent: seq<byte>)
      ensures o.Replying(reply).Replying(sent) == o.Replying(sent + reply)
    {
      ConcatAssociative(sent, reply, o.replies);
    }

    /** Judges a header of the right version. */
    method Dispatch(h: Header) returns (status: Status)
      requires Valid() && !isClosed && rdNext == stop && eorStop && h.version == VERSION_1
      requires contentLen == h.contentLength && paddingLen == h.paddingLength
      modifies this, buff, req`requestId, req`role, req`keepConnection, req`isBeginProcessed, req.ipc
      ensures Bounds() && eorStop && typ == old(typ)
      ensures match old(Judge(Mode(), h))
              case Bad(code) => status == Failed(code) && Untouched() && req.ipc.outgoing == old(req.ipc.outgoing)
              case Skip(reply) => status == SKIP && Untouched() && req.ipc.outgoing == old(req.ipc.outgoing) + reply
              case Management(reply) =>
                status == MGMT_RECORD && Untouched() && req.ipc.outgoing == old(req.ipc.outgoing) + reply
              case StreamRecord => status == STREAM_RECORD && Untouched() && req.ipc.outgoing == old(req.ipc.outgoing)
              case BeginBody => BodyRead(h, status)
      decreases if eorStop then 0 else 1, 6
    {
      hide Deliver, AfterContent, AtHeader, OnHeader, MakeHeader, MakeEndRequestBody, MakeUnknownTypeBody;
      assert req.ipc.outgoing + [] == req.ipc.outgoing;
      if h.typ == BEGIN_REQUEST {
        status := ProcessBeginRecord(h);
      } else if h.id == NULL_REQUEST_ID {
        status := ProcessManagementRecord(h.typ);
      } else if h.id != req.requestId {
        status := SKIP;
      } else if h.typ != typ {
        status := Failed(PROTOCOL_ERROR);
      } else {
        status := STREAM_RECORD;
      }
    }

    /** Answers a management record of an unknown type. */
    method ProcessManagementRecord(recordType: byte) returns (status: Status)
      modifies req.ipc`outgoing
      ensures recordType == GET_VALUES ==>
                status == Failed(GET_VALUES_NOT_MODELLED) && req.ipc.outgoing == old(req.ipc.outgoing)
      ensures recordType != GET_VALUES ==>
                && status == MGMT_RECORD
                && req.ipc.outgoing == old(req.ipc.outgoing)
                   + (MakeHeader(UNKNOWN_TYPE, NULL_REQUEST_ID, 8, 0) + MakeUnknownTypeBody(recordType))
    {
      if recordType == GET_VALUES {
        return Failed(GET_VALUES_NOT_MODELLED);
      }
      req.ipc.WriteAll(MakeHeader(UNKNOWN_TYPE, NULL_REQUEST_ID, 8, 0) + MakeUnknownTypeBody(recordType));
      return MGMT_RECORD;
    }

    /** Reads a BEGIN_REQUEST record, unless the request has begun already:
        then the attempt to multiplex is refused and the record skipped. */
    method ProcessBeginRecord(h: Header) returns (status: Status)
      requires Valid() && !isClosed && rdNext == stop && eorStop
      requires contentLen == h.contentLength && paddingLen == h.paddingLength
      requires h.version == VERSION_1 && h.typ == BEGIN_REQUEST
      modifies this, buff, req`requestId, req`role, req`keepConnection, req`isBeginProcessed, req.ipc
      ensures Bounds() && eorStop && typ == old(typ)
      ensures match old(Judge(Mode(), h))
              case Bad(code) => status == Failed(code) && Untouched() && req.ipc.outgoing == old(req.ipc.outgoing)
              case Skip(reply) => status == SKIP && Untouched() && req.ipc.outgoing == old(req.ipc.outgoing) + reply
              case BeginBody => BodyRead(h, status)
              case _ => false
      decreases if eorStop then 0 else 1, 5
    {
      hide Deliver, AfterContent, AtHeader, OnHeader;
      if h.id == NULL_REQUEST_ID || contentLen != BEGIN_BODY_LEN {
        return Failed(PROTOCOL_ERROR);
      }
      if req.isBeginProcessed {
        req.ipc.WriteAll(MakeHeader(END_REQUEST, h.id, 8, 0) + MakeEndRequestBody(0, CANT_MPX_CONN));
        return SKIP;
      }
      status := ReadBeginBody(h);
    }

    /** No part of the stream's own state has changed. */
    twostate predicate Untouched()
      requires old(Bounds()) && Bounds()
      reads this, buff, req, req.ipc
    {
      && SameStream() && isClosed == old(isClosed) && errno == old(errno)
      && rdNext == old(rdNext) && stop == old(stop) && skip == old(skip)
      && contentLen == old(contentLen) && paddingLen == old(paddingLen) && From(rdNext) == old(From(rdNext))
    }

    /** The outcome of reading the body of a BEGIN_REQUEST record. */
    twostate predicate BodyRead(h: Header, status: Status)
      requires old(Bounds()) && Bounds()
      reads this, buff, req, req.ipc
    {
      && req.ipc.outgoing == old(req.ipc.outgoing)
      && if old(skip) || |old(From(rdNext))| < BEGIN_BODY_LEN then
           && status == Failed(PROTOCOL_ERROR) && !req.isBeginProcessed && FirstError(PROTOCOL_ERROR)
           && From(rdNext) == old(Deliver(Mode(), Position(), From(rdNext))).rest
           && |From(rdNext)| <= |old(From(rdNext))|
         else
           var body := old(From(rdNext))[..BEGIN_BODY_LEN];
           && status == BEGIN_RECORD && !isClosed && errno == old(errno) && rdNext == stop <= buffStop
           && req.isBeginProcessed
           && req.requestId == h.id && paddingLen == old(paddingLen)
           && req.role == BodyRole(body) && req.keepConnection == BodyKeepConn(body)
           && From(rdNext) == old(From(rdNext))[BEGIN_BODY_LEN..]
    }

    /** Accepts a new request: reads the body of its BEGIN_REQUEST record
        through the stream. */
    method ReadBeginBody(h: Header) returns (status: Status)
      requires Valid() && !isClosed && rdNext == stop && eorStop
      requires contentLen == BEGIN_BODY_LEN && !req.isBeginProcessed
      modifies this, buff, req`requestId, req`role, req`keepConnection, req`isBeginProcessed, req.ipc
      ensures Bounds() && eorStop && typ == old(typ) && BodyRead(h, status)
      decreases if eorStop then 0 else 1, 4
    {
      hide Deliver, AfterContent, AtHeader, OnHeader, BodyRole, BodyKeepConn;
      ghost var m, m' := Mode(), Mode().(id := h.id);
      InRecord(m, m', Position(), From(rdNext));
      req.requestId := h.id;
      assert Mode() == m';
      var body := ReadBody();
      if |body| != BEGIN_BODY_LEN {
        return Failed(PROTOCOL_ERROR);
      }
      req.keepConnection := BodyKeepConn(body);
      req.role := BodyRole(body);
      req.isBeginProcessed := true;
      return BEGIN_RECORD;
    }

    /** Reads a body through the stream itself, which ends with the record. */
    method ReadBody() returns (body: seq<byte>)
      requires Valid() && !isClosed && rdNext == stop && eorStop
      requires contentLen == BEGIN_BODY_LEN && !req.isBeginProcessed
      modifies this, buff, req`requestId, req`role, req`keepConnection, req`isBeginProcessed, req.ipc
      ensures Bounds() && SameStream() && req.ipc.outgoing == old(req.ipc.outgoing)
      ensures if old(skip) || |old(From(rdNext))| < BEGIN_BODY_LEN then
                && |body| < BEGIN_BODY_LEN && FirstError(PROTOCOL_ERROR)
                && From(rdNext) == old(Deliver(Mode(), Position(), From(rdNext))).rest
                && |From(rdNext)| <= |old(From(rdNext))|
              else
                && body == old(From(rdNext))[..BEGIN_BODY_LEN] && From(rdNext) == old(From(rdNext))[BEGIN_BODY_LEN..]
                && !isClosed && errno == old(errno) && rdNext == stop <= buffStop && paddingLen == old(paddingLen)
      decreases if eorStop then 0 else 1, 3
    {
      hide Deliver, AfterContent, AtHeader, OnHeader;
      ghost var m, unread, sent := Mode(), From(rdNext), req.ipc.outgoing;
      InRecord(m, m, Position(), unread);
      assert [] + unread == unread && sent + [] == sent;
      body := GetStr(BEGIN_BODY_LEN);
      if |body| != BEGIN_BODY_LEN {
        assert body + [] == body;
        return;
      }
      InRecord(m, Mode(), Position(), From(stop));
      assert req.ipc.outgoing + [] == req.ipc.outgoing;
      assert !old(skip) && body == unread[..BEGIN_BODY_LEN] && From(rdNext) == unread[BEGIN_BODY_LEN..];
    }

    /** The next byte, or EOF at the end of the input. */
    method GetChar() returns (c: int)
      requires Valid() && (req.isBeginProcessed || eorStop)
      modifies this, buff, req`requestId, req`role, req`keepConnection, req`isBeginProcessed, req.ipc
      ensures Valid() && SameStream()
      ensures c == EOF || 0 <= c < 0x100
      ensures (old(isClosed) ==> isClosed) && (!isClosed ==> errno == old(errno))
      ensures c == EOF ==> isClosed && old(Future()) == Future()
      ensures c != EOF ==> !isClosed && old(Future()) == Future().Prepend([c as byte])
      decreases if eorStop then 0 else 1, 2
    {
      hide Deliver, AfterContent, AtHeader, OnHeader, Future, Unread, Consumed;
      if isClosed {
        return EOF;
      }
      if rdNext == stop {
        FillBuffProc();
        if isClosed {
          return EOF;
        }
      }
      var s := Take(1);
      return s[0];
    }

    /** Reads up to n bytes; fewer only at the end of the input. */
    method GetStr(n: int) returns (str: seq<byte>)
      requires Valid() && (req.isBeginProcessed || eorStop)
      modifies this, buff, req`requestId, req`role, req`keepConnection, req`isBeginProcessed, req.ipc
      ensures Valid() && SameStream()
      ensures Future().Prepend(str) == old(Future())
      ensures (old(isClosed) ==> isClosed) && (!isClosed ==> errno == old(errno))
      ensures if n <= 0 then str == [] else |str| <= n && (|str| < n <==> isClosed)
      ensures old(eorStop && !isClosed) && !isClosed ==> Consumed(str)
      decreases if eorStop then 0 else 1, 2
    {
      hide Deliver, AfterContent, AtHeader, OnHeader;
      assert [] + Future().data == Future().data;
      if isClosed || n <= 0 {
        return [];
      }
      if n <= stop - rdNext {
        str := Take(n);
        return;
      }
      ghost var unread, due := From(rdNext), contentLen + stop - rdNext;
      str := [];
      while true
        invariant Valid() && SameStream() && !isClosed && errno == old(errno) && |str| < n
        invariant Future().Prepend(str) == old(Future())
        invariant eorStop ==>
                    && unread == str + From(rdNext) && paddingLen == old(paddingLen)
                    && contentLen + stop + |str| - rdNext == due
        decreases n - |str|, if rdNext == stop then 1 else 0
      {
        if rdNext != stop {
          var m := Min(n - |str|, stop - rdNext);
          var taken := Take(m);
          ConcatAssociative(str, taken, Future().data);
          ConcatAssociative(str, taken, From(rdNext));
          str := str + taken;
          if |str| == n {
            return;
          }
        }
        FillBuffProc();
        if isClosed {
          return;
        }
      }
    }

    /** Copies out the next m bytes of available content. */
    method Take(m: nat) returns (s: seq<byte>)
      requires Valid() && !isClosed && m <= stop - rdNext
      modifies this`rdNext
      ensures Valid() && |s| == m && Future().Prepend(s) == old(Future())
      ensures Consumed(s)
    {
      hide Deliver, AfterContent, AtHeader, OnHeader, Resolve;
      s := buff[rdNext..rdNext + m];
      assert buff[rdNext..stop] == s + buff[rdNext + m..stop];
      assert buff[rdNext..buffStop] == s + buff[rdNext + m..buffStop];
      ConcatAssociative(s, buff[rdNext + m..buffStop], req.ipc.incoming);
      HandOut(Deliver(Mode(), Position(), From(stop)), s, buff[rdNext + m..stop], errno, req.ipc.outgoing);
      rdNext := rdNext + m;
    }

    lemma HandOut(o: Outcome, s: seq<byte>, rest: seq<byte>, code: int, sent: seq<byte>)
      ensures Resolve(o.Prepend(s + rest), code).Replying(sent)
              == Resolve(o.Prepend(rest), code).Replying(sent).Prepend(s)
    {
      ConcatAssociative(s, rest, o.data);
    }

    /** The error slot holds what it held, or the first error since. */
    twostate predicate FirstError(code: int)
      reads this
    {
      errno == old(errno) || (old(errno) == 0 && errno == code)
    }

    /** What follows an accepted header. */
    ghost function AfterHeader(status: Status): Outcome
      requires Bounds()
      reads this`contentLen, this`paddingLen, this`skip, this`typ, this`rdNext, this`buffStop, buff
      reads req`requestId, req`isBeginProcessed, req.ipc`incoming
    {
      var c := Cursor(contentLen, paddingLen, skip || status == SKIP, false);
      if status == STREAM_RECORD && contentLen == 0 then Outcome([], Closed(0), From(rdNext), [])
      else Deliver(Mode(), c, From(rdNext))
    }

    /** Makes the stream read records of another type from here on. */
    method SetReaderType(streamType: byte)
      requires Bounds()
      modifies this
      ensures Valid() && !isClosed && rdNext == stop && typ == streamType
      ensures Position() == BETWEEN_RECORDS && errno == old(errno) && From(rdNext) == old(From(rdNext))
    {
      typ := streamType;
      eorStop, skip, contentLen, paddingLen := false, false, 0, 0;
      stop := rdNext;
      isClosed := false;
    }

    /** Any mix of reads: what they return, in order, is what the stream was
        going to deliver, and a read that comes up short has seen all of it,
        unless a management query comes up. */
    method Perform(calls: seq<Call>) returns (got: seq<byte>, sawEnd: bool)
      requires Valid() && req.isBeginProcessed
      modifies this, buff, req`requestId, req`role, req`keepConnection, req`isBeginProcessed, req.ipc
      ensures Valid() && SameStream()
      ensures old(Future()).ending.NotModelled? ||
              (Future().Prepend(got) == old(Future()) && (sawEnd ==> isClosed && got == old(Future()).data))
    {
      hide Deliver, AfterContent, AtHeader, OnHeader;
      got, sawEnd := [], false;
      for i := 0 to |calls|
        invariant Valid() && SameStream()
        invariant Future().Prepend(got) == old(Future())
        invariant sawEnd ==> isClosed
      {
        var s: seq<byte>;
        match calls[i] {
          case CharCall =>
            var c := GetChar();
            s := if c == EOF then [] else [c as byte];
            sawEnd := sawEnd || c == EOF;
            assert c == EOF ==> [] + Future().data == Future().data;
          case StrCall(n) =>
            s := GetStr(n);
            sawEnd := sawEnd || |s| < n;
        }
        ConcatAssociative(got, s, Future().data);
        got := got + s;
      }
      assert sawEnd ==> got + [] == got;
    }
  }
}
