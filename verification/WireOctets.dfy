/** The octets that travel, as section 3.3 and section 8 of the FastCGI
    specification give them: nothing here is said through the names of the
    functions that write and read them. */
module WireOctets {
  import opened Bytes
  import opened FcgiRecords
  import opened NameValues
  import opened ReaderSpec
  import opened Delivery
  import opened WriterSpec
  import opened WriterRuns
  import ServerSpec
  import RequestTheorems
  import EnvParams
  import Accept

  function Two(hi: int, lo: int): int {
    256 * hi + lo
  }

  /** The numbers of section 8 of the FastCGI specification, and of the
      library's errors. */
  lemma Numbers()
    ensures BEGIN_REQUEST == 1 && END_REQUEST == 3 && PARAMS == 4 && STDIN == 5 && STDOUT == 6 && STDERR == 7
    ensures GET_VALUES == 9 && UNKNOWN_TYPE == 11
    ensures UNSUPPORTED_VERSION == -2 && PROTOCOL_ERROR == -3 && PARAMS_ERROR == -4
    ensures TypeOf(Out) == 6 && TypeOf(Err) == 7 && ServerSpec.REQUEST_ID == 1
  {
  }

  /** What a peer reads off eight octets of a header. */
  predicate HeaderSays(h: seq<byte>, typ: int, id: int, contentLength: int, paddingLength: int) {
    && |h| == 8 && h[0] == 1 && h[1] == typ && Two(h[2], h[3]) == id
    && Two(h[4], h[5]) == contentLength && h[6] == paddingLength
  }

  /** A header on the wire, and how it is read, whatever its reserved octet. */
  lemma HeaderOctets(typ: byte, id: nat, contentLength: nat, paddingLength: byte, h: seq<byte>)
    requires id < 0x10000 && contentLength < 0x10000
    ensures HeaderSays(MakeHeader(typ, id, contentLength, paddingLength), typ, id, contentLength, paddingLength)
    ensures MakeHeader(typ, id, contentLength, paddingLength)[7] == 0
    ensures |h| == 8 && HeaderSays(h, typ, id, contentLength, paddingLength) ==>
              ParseHeader(h) == Header(1, typ, id, contentLength, paddingLength)
  {
  }

  /** Eight octets that start a request, and the eight of its body. */
  lemma BeginOctets(staleId: nat, h: seq<byte>, id: int, padding: int, body: seq<byte>, rest: seq<byte>)
    requires HeaderSays(h, 1, id, 8, padding) && |body| == 8
    ensures var o := Deliver(Mode(0, staleId, false), BETWEEN_RECORDS, h + (body + rest));
            o == if id == 0 then Outcome([], Closed(-3), body + rest, [])
                 else Outcome([], Begun(id, Two(body[0], body[1]), body[2] % 2 == 1, padding), rest, [])
  {
    hide AfterContent, AtHeader, Deliver, MakeHeader, MakeEndRequestBody, MakeUnknownTypeBody;
    var m, w := Mode(0, staleId, false), h + (body + rest);
    HeaderOctets(1, Two(h[2], h[3]), 8, h[6], h);
    ContentDone(m, BETWEEN_RECORDS, w);
    assert w[..8] == h && w[8..] == body + rest;
    HeaderRead(m, false, h, body + rest);
    assert (body + rest)[..8] == body && (body + rest)[8..] == rest;
  }

  /** A BEGIN_REQUEST with a body of another length is no start at all, and
      neither is a header of another version. */
  lemma NoBegin(m: ReaderSpec.Mode, h: seq<byte>, after: seq<byte>)
    requires |h| == 8 && (h[0] != 1 || (h[1] == 1 && Two(h[4], h[5]) != 8))
    ensures Deliver(m, BETWEEN_RECORDS, h + after) == Outcome([], Closed(if h[0] != 1 then -2 else -3), after, [])
  {
    hide AfterContent, AtHeader;
    ContentDone(m, BETWEEN_RECORDS, h + after);
    HeaderRead(m, false, h, after);
  }

  /** While no request has begun, records of other ids are passed over, and one
      of the id that was last served is an error unless its type is 0. */
  lemma BeforeRequest(staleId: nat, r: Record, skip: bool, tail: seq<byte>)
    requires r.Valid() && r.id != 0 && r.typ != 1 && (r.id == staleId ==> r.typ != 0)
    ensures var m, w := Mode(0, staleId, false), Encode(r) + tail;
            if r.id != staleId then
              Deliver(m, Between(skip), w) == Deliver(m, Between(r.content == []), tail)
            else Deliver(m, Between(skip), w) == Outcome([], Closed(-3), r.content + (r.padding + tail), [])
  {
    hide Deliver, AfterContent, AtHeader, Encode, MakeHeader, ParseHeader;
    var m, w := Mode(0, staleId, false), Encode(r) + tail;
    EncodedParts(r, tail);
    ContentDone(m, Between(skip), w);
    assert w == w[..8] + w[8..];
    HeaderRead(m, skip, w[..8], w[8..]);
    WholeRecord(m, r.content, r.padding, true, tail);
    var o := Deliver(m, Between(r.content == []), tail);
    assert [] + o.data == o.data && [] + o.replies == o.replies;
  }

  /** A start that comes right behind an empty record of another id is skipped
      like its content, and that is an error. */
  lemma BeginSkipped(staleId: nat, h: seq<byte>, id: int, padding: int, after: seq<byte>)
    requires HeaderSays(h, 1, id, 8, padding)
    ensures var o := Deliver(Mode(0, staleId, false), Between(true), h + after);
            o.ending == Closed(-3) && o.data == [] && o.replies == []
  {
    hide AfterContent, AtHeader, Deliver, MakeHeader, MakeEndRequestBody, MakeUnknownTypeBody;
    var m := Mode(0, staleId, false);
    HeaderOctets(1, Two(h[2], h[3]), 8, h[6], h);
    ContentDone(m, Between(true), h + after);
    HeaderRead(m, true, h, after);
  }

  /** A second BEGIN_REQUEST is answered by its own END_REQUEST with protocol
      status 1, a management record of another type by that type. */
  lemma ReplyOctets(m: ReaderSpec.Mode, r: Record)
    requires Receiving(m) && Passing(m, r)
    ensures r.typ == 1 && r.id != 0 ==>
              Reply(m, r) == [1, 3, r.id / 256, r.id % 256, 0, 8, 0, 0, 0, 0, 0, 0, 1, 0, 0, 0]
    ensures r.id == 0 ==> Reply(m, r) == [1, 11, 0, 0, 0, 8, 0, 0, r.typ, 0, 0, 0, 0, 0, 0, 0]
  {
  }

  /** Four octets, most significant first, of a 32-bit two's complement number. */
  function Four(n: int): (b: seq<byte>)
    ensures |b| == 4
  {
    [n / 0x1000000 % 0x100, n / 0x10000 % 0x100, n / 0x100 % 0x100, n % 0x100]
  }

  /** The last sixteen octets of every finished request: END_REQUEST, its id,
      the last status, and protocol status 0. */
  lemma FinishedOctets(id: nat, appStatus: int, outCapacity: nat, errCapacity: nat, ops: seq<Op>)
    requires WriterSpec.Start(id, appStatus, outCapacity, errCapacity).Valid()
    ensures var s0 := WriterSpec.Start(id, appStatus, outCapacity, errCapacity);
            var log := Finish(Run(s0, ops)).log;
            var status := LastStatus(appStatus, ops[..OpenSpan(s0, ops)]);
            && log != [] && AllValid(log)
            && Encode(log[|log| - 1]) == [1, 3, id / 256, id % 256, 0, 8, 0, 0] + Four(status) + [0, 0, 0, 0]
  {
    hide Run, Finish, LastStatus, OpenSpan, Four, Encode, Of, Ended, Concat, Added;
    RequestCompletes(id, appStatus, outCapacity, errCapacity, ops);
    var s0 := WriterSpec.Start(id, appStatus, outCapacity, errCapacity);
    EndOctets(id, LastStatus(appStatus, ops[..OpenSpan(s0, ops)]));
  }

  lemma EndOctets(id: nat, status: int)
    requires id < 0x10000
    ensures EndRequest(id, status).Valid()
    ensures Encode(EndRequest(id, status)) == [1, 3, id / 256, id % 256, 0, 8, 0, 0] + Four(status) + [0, 0, 0, 0]
  {
  }

  /** Stream records carry version, type, id, the length of their content and
      that of the zero octets behind it, which fill it up to a multiple of eight. */
  lemma StreamOctets(typ: byte, id: nat, content: seq<byte>, w: seq<byte>)
    requires id < 0x10000 && |content| <= 65528
    requires DataRecord(typ, id, content).Valid() && w == Encode(DataRecord(typ, id, content))
    ensures |w| % 8 == 0 && |content| + 8 <= |w| < |content| + 16
    ensures HeaderSays(w[..8], typ, id, |content|, |w| - 8 - |content|)
    ensures w[8..8 + |content|] == content && forall i :: 8 + |content| <= i < |w| ==> w[i] == 0
  {
    var r := DataRecord(typ, id, content);
    HeaderOctets(typ, id, |content|, |r.padding|, []);
    HeaderFirst(MakeHeader(typ, id, |content|, |r.padding|), content, r.padding, []);
  }

  /** How a name-value pair begins: lengths below 128 in one octet, others in
      four with the highest bit set. */
  lemma PairOctets(p: Pair)
    requires |p.name| < 0x80000000 && |p.value| < 0x80000000
    ensures var n, v := |p.name|, |p.value|;
            var first := if n < 128 then [n] else Four(0x80000000 + n);
            var second := if v < 128 then [v] else Four(0x80000000 + v);
            EncodePair(p) == first + second + p.name + p.value
    ensures Entry(p) == p.name + [0x3d] + p.value + [0]
  {
    LongOctets(|p.name|);
    LongOctets(|p.value|);
  }

  lemma LongOctets(n: nat)
    requires n < 0x80000000
    ensures EncodeLength(n) == if n < 128 then [n] else Four(0x80000000 + n)
  {
    MarkedQuotients(n);
    MarkedRest(0x80, n / 0x10000);
    MarkedRest(0x8000, n / 0x100);
    MarkedRest(0x800000, n);
    assert (0x80 + n / 0x1000000) % 0x100 == 0x80 + n / 0x1000000 % 0x80;
  }

  lemma MarkedQuotients(n: nat)
    ensures (0x80000000 + n) / 0x100 == 0x800000 + n / 0x100 && (0x80000000 + n) / 0x10000 == 0x8000 + n / 0x10000
    ensures (0x80000000 + n) / 0x1000000 == 0x80 + n / 0x1000000
  {
  }

  lemma MarkedRest(k: nat, n: nat)
    ensures (0x100 * k + n) % 0x100 == n % 0x100
  {
  }

  /** The first octets of every request a server sends. */
  lemma RequestOctets(params: seq<Pair>, body: seq<seq<byte>>, complete: bool)
    requires params != [] && AllValid(ServerSpec.RequestRecords(params, body, complete))
    ensures [1, 1, 0, 1, 0, 8, 0, 0, 0, 1, 0, 0, 0, 0, 0, 0]
            <= EncodeAll(ServerSpec.RequestRecords(params, body, complete))
  {
    hide Encode, EncodeAll;
    var rs := ServerSpec.RequestRecords(params, body, complete);
    assert rs[0] == ServerSpec.Begin(1);
    RequestTheorems.FirstEncoded(rs);
    StartOctets();
  }

  lemma StartOctets()
    ensures ServerSpec.Begin(1).Valid()
    ensures Encode(ServerSpec.Begin(1)) == [1, 1, 0, 1, 0, 8, 0, 0, 0, 1, 0, 0, 0, 0, 0, 0]
  {
  }

  // FCGI_ROLE, octet by octet.

  const FCGI_ROLE: seq<byte> := [0x46, 0x43, 0x47, 0x49, 0x5f, 0x52, 0x4f, 0x4c, 0x45]

  /** RESPONDER, AUTHORIZER or FILTER. */
  function RoleText(role: int): seq<byte> {
    if role == 1 then [0x52, 0x45, 0x53, 0x50, 0x4f, 0x4e, 0x44, 0x45, 0x52]
    else if role == 2 then [0x41, 0x55, 0x54, 0x48, 0x4f, 0x52, 0x49, 0x5a, 0x45, 0x52]
    else [0x46, 0x49, 0x4c, 0x54, 0x45, 0x52]
  }

  /** The environment begins with the role, and the role is found in it. */
  predicate Plays(env: seq<seq<byte>>, role: int) {
    && 1 <= role <= 3 && env != [] && env[0] == FCGI_ROLE + [0x3d] + RoleText(role) + [0]
    && EnvParams.Find(env, FCGI_ROLE) == Some(RoleText(role) + [0])
  }

  lemma RolePlayed(role: nat, pairs: seq<Pair>)
    ensures Accept.RolePair(role).Some? <==> 1 <= role <= 3
    ensures 1 <= role <= 3 ==> Plays(Entries([Accept.RolePair(role).value] + pairs), role)
  {
    RolePairs();
    if 1 <= role <= 3 {
      var env := Entries([Accept.RolePair(role).value] + pairs);
      assert env[0] == FCGI_ROLE + [0x3d] + RoleText(role) + [0];
      assert env[0][..9] == FCGI_ROLE && env[0][10..] == RoleText(role) + [0];
    }
  }

  lemma RolePairs()
    ensures Accept.RolePair(1) == Some(Pair(FCGI_ROLE, RoleText(1)))
    ensures Accept.RolePair(2) == Some(Pair(FCGI_ROLE, RoleText(2)))
    ensures Accept.RolePair(3) == Some(Pair(FCGI_ROLE, RoleText(3)))
  {
    assert Accept.ROLE_NAME == FCGI_ROLE;
    assert Ascii("RESPONDER") == RoleText(1);
    assert Ascii("AUTHORIZER") == RoleText(2);
    assert Ascii("FILTER") == RoleText(3);
  }

  /** Whatever is accepted plays one of the three roles, and its environment says which. */
  lemma RoleFound(staleId: nat, wire: seq<byte>)
    ensures var a := Accept.Acceptable(staleId, wire); a.Accepted? ==> Plays(Entries(a.env), a.role)
  {
    hide Deliver, ParsePairs, Plays, Accept.RolePair;
    var a := Accept.Acceptable(staleId, wire);
    if a.Accepted? {
      RolePlayed(a.role, a.env[1..]);
      assert a.env == [Accept.RolePair(a.role).value] + a.env[1..];
    }
  }

  /** The role is the one in the first two octets of the starting record's body. */
  lemma RoleOfBegin(staleId: nat, h: seq<byte>, id: int, padding: int, body: seq<byte>, rest: seq<byte>)
    requires HeaderSays(h, 1, id, 8, padding) && |body| == 8
    ensures var a := Accept.Acceptable(staleId, h + (body + rest));
            && (id == 0 || body[0] != 0 || body[1] !in {1, 2, 3} ==> a == Accept.Refused)
            && (a.Accepted? ==> a.role == body[1] && a.id == id && (a.keepConn <==> body[2] % 2 == 1)
                                && Plays(Entries(a.env), body[1]))
  {
    hide Deliver, ParsePairs, Plays, Accept.RolePair;
    BeginOctets(staleId, h, id, padding, body, rest);
    RoleFound(staleId, h + (body + rest));
    RolePlayed(Two(body[0], body[1]), []);
  }
}
