/** The web server's side of a FastCGI exchange, at the level of bytes and
    records. */
module ServerSpec {
  import opened Bytes
  import opened FcgiRecords
  import opened NameValues

  const REQUEST_ID: nat := 1
  const MAX_RESPONSE_BYTES: nat := 64 * 1024 * 1024
  const MAX_RECORDS: nat := 100000

  function Begin(role: nat): Record {
    Record(BEGIN_REQUEST, REQUEST_ID, BigEndian16(role) + Zeros(6), [])
  }

  function Chunk(typ: byte, content: seq<byte>): Record {
    Record(typ, REQUEST_ID, content, [])
  }

  /** A byte sequence cut into records of at most MAX_LENGTH bytes. */
  function Chunks(typ: byte, bytes: seq<byte>): seq<Record> {
    if |bytes| <= MAX_LENGTH then [Chunk(typ, bytes)]
    else [Chunk(typ, bytes[..MAX_LENGTH])] + Chunks(typ, bytes[MAX_LENGTH..])
  }

  function Pieces(typ: byte, pieces: seq<seq<byte>>): seq<Record> {
    seq(|pieces|, i requires 0 <= i < |pieces| => Chunk(typ, pieces[i]))
  }

  /** The records of a request body, with the end of its stream if it is complete. */
  function StdinRecords(body: seq<seq<byte>>, complete: bool): seq<Record> {
    Pieces(STDIN, body) + if complete then [Chunk(STDIN, [])] else []
  }

  /** Every record of a request: its start, its parameters, and its body in
      pieces. The end is missing when the client stopped short. */
  function RequestRecords(params: seq<Pair>, body: seq<seq<byte>>, complete: bool): seq<Record> {
    [Begin(RESPONDER)] + Chunks(PARAMS, EncodePairs(params)) + Chunks(PARAMS, []) + StdinRecords(body, complete)
  }

  /** Bytes in pieces as large as a record takes. */
  function FullPieces(b: seq<byte>): seq<seq<byte>> {
    if b == [] then []
    else if |b| <= MAX_LENGTH then [b]
    else [b[..MAX_LENGTH]] + FullPieces(b[MAX_LENGTH..])
  }

  lemma {:induction false} FullPiecesMakeUp(b: seq<byte>)
    ensures Flatten(FullPieces(b)) == b && Sendable(FullPieces(b))
    ensures forall i :: 0 <= i < |FullPieces(b)| - 1 ==> |FullPieces(b)[i]| == 65535
    decreases |b|
  {
    if |b| > MAX_LENGTH {
      FullPiecesMakeUp(b[MAX_LENGTH..]);
      assert ([b[..MAX_LENGTH]] + FullPieces(b[MAX_LENGTH..]))[1..] == FullPieces(b[MAX_LENGTH..]);
      assert b[..MAX_LENGTH] + b[MAX_LENGTH..] == b;
    } else if b != [] {
      assert [b][1..] == [] && b + [] == b;
    }
  }

  ghost predicate Sendable(body: seq<seq<byte>>) {
    forall b :: b in body ==> 1 <= |b| <= MAX_LENGTH
  }

  /** What reading a response has come to: the bytes of its output stream, an
      error, or nothing yet. */
  datatype Response = Complete(stdout: seq<byte>) | Failed | Pending

  /** Deframes a response of which `total` bytes and `count` records have been
      taken and `out` collected. Pending means that reading never ends. */
  function Deframed(r: seq<byte>, total: nat, count: nat, out: seq<byte>): Response
    decreases |r|
  {
    if |r| < HEADER_LEN || total + HEADER_LEN > MAX_RESPONSE_BYTES then Failed
    else
      var h := ParseHeader(r[..HEADER_LEN]);
      var end := HEADER_LEN + h.contentLength;
      var need := end + h.paddingLength;
      if h.typ == STDOUT && h.contentLength == 0 then
        // an empty output record is passed over, its padding is not
        Deframed(r[HEADER_LEN..], total + HEADER_LEN, count, out)
      else if need == HEADER_LEN then Pending
      else if |r| < need || total + need > MAX_RESPONSE_BYTES || count + 1 > MAX_RECORDS then Failed
      else if h.typ == STDOUT then
        var more := out + r[HEADER_LEN..end];
        if |more| > MAX_RESPONSE_BYTES then Failed else Deframed(r[need..], total + need, count + 1, more)
      else if h.typ == END_REQUEST then Complete(out)
      else Deframed(r[need..], total + need, count + 1, out)
  }

  lemma DeframedOnce(r: seq<byte>, total: nat, count: nat, out: seq<byte>)
    ensures Deframed(r, total, count, out) ==
            if |r| < HEADER_LEN || total + HEADER_LEN > MAX_RESPONSE_BYTES then Failed
            else
              var h := ParseHeader(r[..HEADER_LEN]);
              var end := HEADER_LEN + h.contentLength;
              var need := end + h.paddingLength;
              if h.typ == STDOUT && h.contentLength == 0 then Deframed(r[HEADER_LEN..], total + HEADER_LEN, count, out)
              else if need == HEADER_LEN then Pending
              else if |r| < need || total + need > MAX_RESPONSE_BYTES || count + 1 > MAX_RECORDS then Failed
              else if h.typ == END_REQUEST then Complete(out)
              else
                var more := out + if h.typ == STDOUT then r[HEADER_LEN..end] else [];
                if h.typ == STDOUT && |more| > MAX_RESPONSE_BYTES then Failed
                else Deframed(r[need..], total + need, count + 1, more)
  {
    assert out + [] == out;
  }
}

/** The web server sending a request and reading the response. */
module Server {
  import opened Bytes
  import opened Connections
  import opened FcgiRecords
  import opened NameValues
  import opened ServerSpec
  import opened SocketBuffers

  /** Fills in the header of a record that takes up all of vec. */
  method MakeFcgiHeader(vec: array<byte>, typ: byte)
    requires HEADER_LEN <= vec.Length <= HEADER_LEN + MAX_LENGTH
    requires vec[6] == 0 && vec[7] == 0
    modifies vec
    ensures vec[..] == MakeHeader(typ, REQUEST_ID, vec.Length - HEADER_LEN, 0) + old(vec[HEADER_LEN..])
  {
    var contentLength := vec.Length - HEADER_LEN;
    vec[0] := VERSION_1;
    vec[1] := typ;
    vec[2] := REQUEST_ID / 0x100 % 0x100;
    vec[3] := REQUEST_ID % 0x100;
    vec[4] := contentLength / 0x100 % 0x100;
    vec[5] := contentLength % 0x100;
    assert vec[HEADER_LEN..] == old(vec[HEADER_LEN..]);
    assert vec[..HEADER_LEN] == MakeHeader(typ, REQUEST_ID, contentLength, 0);
    assert vec[..] == vec[..HEADER_LEN] + vec[HEADER_LEN..];
  }

  /** Sends one record, unless its content is too long for one. */
  method WriteFcgiRecord(proc: Connection, typ: byte, data: seq<byte>) returns (ok: bool)
    modifies proc`outgoing
    ensures ok <==> |data| <= MAX_LENGTH
    ensures proc.outgoing == old(proc.outgoing) + if ok then Encode(Chunk(typ, data)) else []
  {
    if |data| > MAX_LENGTH {
      assert proc.outgoing + [] == proc.outgoing;
      return false;
    }
    var vec := new byte[HEADER_LEN + |data|](_ => 0);
    for i := 0 to |data|
      invariant vec[6] == 0 && vec[7] == 0 && proc.outgoing == old(proc.outgoing)
      invariant vec[HEADER_LEN..HEADER_LEN + i] == data[..i]
    {
      vec[HEADER_LEN + i] := data[i];
    }
    assert vec[HEADER_LEN..] == vec[HEADER_LEN..HEADER_LEN + |data|] == data[..|data|] == data;
    MakeFcgiHeader(vec, typ);
    proc.WriteAll(vec[..]);
    assert Encode(Chunk(typ, data)) == vec[..] + [] == vec[..];
    return true;
  }

  /** Starts the request. */
  method WriteFcgiBeginRequest(proc: Connection, role: nat)
    modifies proc`outgoing
    ensures proc.outgoing == old(proc.outgoing) + Encode(Begin(role))
  {
    var vec := new byte[2 * HEADER_LEN](_ => 0);
    vec[HEADER_LEN] := role / 0x100 % 0x100;
    vec[HEADER_LEN + 1] := role % 0x100;
    assert vec[HEADER_LEN..] == BigEndian16(role) + Zeros(6);
    MakeFcgiHeader(vec, BEGIN_REQUEST);
    proc.WriteAll(vec[..]);
    assert Encode(Begin(role)) == vec[..] + [];
  }

  lemma {:induction false} EncodePairsSnoc(ps: seq<Pair>, p: Pair)
    ensures EncodePairs(ps + [p]) == EncodePairs(ps) + EncodePair(p)
  {
    hide EncodePair;
    if ps == [] {
      assert [p][1..] == [] && [] + [p] == [p];
      assert EncodePair(p) + [] == [] + EncodePair(p);
    } else {
      assert (ps + [p])[1..] == ps[1..] + [p];
      EncodePairsSnoc(ps[1..], p);
      ConcatAssociative(EncodePair(ps[0]), EncodePairs(ps[1..]), EncodePair(p));
    }
  }

  /** Sends name-value pairs, in as many records as they take. */
  method WriteFcgiParams(proc: Connection, params: seq<Pair>) returns (ok: bool)
    modifies proc`outgoing
    ensures ok && AllValid(Chunks(PARAMS, EncodePairs(params)))
    ensures proc.outgoing == old(proc.outgoing) + EncodeAll(Chunks(PARAMS, EncodePairs(params)))
  {
    hide EncodeLength, Chunks, EncodeAll;
    var body: seq<byte> := [];
    for i := 0 to |params|
      invariant body == EncodePairs(params[..i]) && proc.outgoing == old(proc.outgoing)
    {
      var p := params[i];
      assert params[..i + 1] == params[..i] + [p];
      EncodePairsSnoc(params[..i], p);
      ghost var before := body;
      body := body + EncodeLength(|p.name|);
      body := body + EncodeLength(|p.value|);
      body := body + p.name;
      body := body + p.value;
      Append4(before, EncodeLength(|p.name|), EncodeLength(|p.value|), p.name, p.value);
    }
    assert params[..|params|] == params;
    ok := WriteChunks(proc, body);
  }

  lemma Append4(s: seq<byte>, a: seq<byte>, b: seq<byte>, c: seq<byte>, d: seq<byte>)
    ensures s + a + b + c + d == s + (a + b + c + d)
  {
  }

  lemma {:induction false} ChunksValid(typ: byte, bytes: seq<byte>)
    ensures forall r :: r in Chunks(typ, bytes) ==> r.Valid() && r.typ == typ && r.id == REQUEST_ID && r.padding == []
    ensures bytes != [] ==> forall r :: r in Chunks(typ, bytes) ==> r.content != []
    decreases |bytes|
  {
    if |bytes| > MAX_LENGTH {
      ChunksValid(typ, bytes[MAX_LENGTH..]);
    }
  }

  lemma ChunksFirst(typ: byte, bytes: seq<byte>)
    ensures AllValid(Chunks(typ, bytes))
    ensures if |bytes| > MAX_LENGTH then
              && AllValid(Chunks(typ, bytes[MAX_LENGTH..]))
              && EncodeAll(Chunks(typ, bytes))
                 == Encode(Chunk(typ, bytes[..MAX_LENGTH])) + EncodeAll(Chunks(typ, bytes[MAX_LENGTH..]))
            else EncodeAll(Chunks(typ, bytes)) == Encode(Chunk(typ, bytes))
  {
    hide Encode;
    ChunksValid(typ, bytes);
    if |bytes| > MAX_LENGTH {
      ChunksValid(typ, bytes[MAX_LENGTH..]);
    } else {
      EncodeAllSingle(Chunk(typ, bytes));
    }
  }

  method WriteChunks(proc: Connection, body: seq<byte>) returns (ok: bool)
    modifies proc`outgoing
    ensures ok && AllValid(Chunks(PARAMS, body))
    ensures proc.outgoing == old(proc.outgoing) + EncodeAll(Chunks(PARAMS, body))
  {
    hide Encode, EncodeAll, Chunks;
    ChunksFirst(PARAMS, body);
    assert body[0..] == body;
    if body == [] {
      ok := WriteFcgiRecord(proc, PARAMS, []);
      return;
    }
    var pos := 0;
    ghost var sent := proc.outgoing;
    while pos < |body|
      invariant 0 <= pos <= |body|
      invariant pos < |body| ==>
                  && AllValid(Chunks(PARAMS, body[pos..]))
                  && proc.outgoing + EncodeAll(Chunks(PARAMS, body[pos..])) == sent + EncodeAll(Chunks(PARAMS, body))
      invariant pos == |body| ==> proc.outgoing == sent + EncodeAll(Chunks(PARAMS, body))
    {
      var chunk := Min(|body| - pos, MAX_LENGTH);
      ghost var rest, before := body[pos..], proc.outgoing;
      var _ := WriteFcgiRecord(proc, PARAMS, body[pos..pos + chunk]);
      assert body[pos..pos + chunk] == rest[..chunk] && body[pos + chunk..] == rest[chunk..];
      ChunksFirst(PARAMS, rest);
      if |rest| > MAX_LENGTH {
        ConcatAssociative(before, Encode(Chunk(PARAMS, rest[..chunk])), EncodeAll(Chunks(PARAMS, rest[chunk..])));
      } else {
        assert rest[..chunk] == rest;
      }
      pos := pos + chunk;
    }
    return true;
  }

  /** Sends contentLength bytes of the client's body, as many to a record as it
      takes; all the client sent when it stops short. */
  method WriteBody(proc: Connection, client: SocketBuffer, contentLength: nat)
    returns (ok: bool, ghost pieces: seq<seq<byte>>)
    requires proc != client.sock && client.Valid()
    modifies proc`outgoing, client, client.buffer, client.sock`incoming
    ensures client.Valid() && (client.buffer == old(client.buffer) || fresh(client.buffer))
    ensures ok <==> contentLength <= |old(client.Data())|
    ensures var n := Min(contentLength, |old(client.Data())|);
            pieces == FullPieces(old(client.Data())[..n]) && client.Data() == old(client.Data())[n..]
    ensures Sendable(pieces) && AllValid(Pieces(STDIN, pieces))
    ensures proc.outgoing == old(proc.outgoing) + EncodeAll(Pieces(STDIN, pieces))
  {
    hide Encode, EncodeAll, FullPieces, Pieces, Sendable, Left;
    pieces := [];
    var remaining: nat := contentLength;
    PiecesNone();
    ghost var sent, data := proc.outgoing, client.Data();
    NothingSent(data, contentLength);
    assert sent + [] == sent;
    while remaining > 0
      invariant client.Valid() && (client.buffer == old(client.buffer) || fresh(client.buffer))
      invariant Left(data, contentLength, remaining, client.Data(), pieces)
      invariant Sendable(pieces) && AllValid(Pieces(STDIN, pieces))
      invariant proc.outgoing == sent + EncodeAll(Pieces(STDIN, pieces))
    {
      ghost var rest := client.Data();
      var chunk := client.Read(Min(remaining, MAX_LENGTH));
      NextPiece(data, contentLength, remaining, rest, pieces, chunk, client.Data());
      if chunk == [] {
        return false, pieces;
      }
      SendPiece(proc, chunk, sent, pieces);
      pieces := pieces + [chunk];
      remaining := remaining - |chunk|;
    }
    AllSent(data, contentLength, client.Data(), pieces);
    return true, pieces;
  }

  /** One more piece behind those that have been sent. */
  method SendPiece(proc: Connection, chunk: seq<byte>, ghost sent: seq<byte>, ghost pieces: seq<seq<byte>>)
    requires Sendable(pieces) && AllValid(Pieces(STDIN, pieces)) && 1 <= |chunk| <= MAX_LENGTH
    requires proc.outgoing == sent + EncodeAll(Pieces(STDIN, pieces))
    modifies proc`outgoing
    ensures Sendable(pieces + [chunk]) && AllValid(Pieces(STDIN, pieces + [chunk]))
    ensures proc.outgoing == sent + EncodeAll(Pieces(STDIN, pieces + [chunk]))
  {
    hide Encode, EncodeAll;
    var _ := WriteFcgiRecord(proc, STDIN, chunk);
    PiecesSnoc(pieces, chunk);
    ConcatAssociative(sent, EncodeAll(Pieces(STDIN, pieces)), Encode(Chunk(STDIN, chunk)));
  }

  /** What is left of the client's data behind some pieces of a body that
      still lacks `remaining` bytes. */
  ghost predicate Left(data: seq<byte>, contentLength: nat, remaining: nat, rest: seq<byte>, pieces: seq<seq<byte>>) {
    var n, done := Min(contentLength, |data|), contentLength - remaining;
    && 0 <= done <= n && rest == data[done..]
    && FullPieces(data[..n]) == pieces + FullPieces(data[done..n])
  }

  lemma NothingSent(data: seq<byte>, contentLength: nat)
    ensures Left(data, contentLength, contentLength, data, [])
  {
    hide FullPieces;
    var n := Min(contentLength, |data|);
    assert data[0..] == data && data[0..n] == data[..n];
    assert [] + FullPieces(data[..n]) == FullPieces(data[..n]);
  }

  lemma AllSent(data: seq<byte>, contentLength: nat, rest: seq<byte>, pieces: seq<seq<byte>>)
    requires Left(data, contentLength, 0, rest, pieces)
    ensures contentLength <= |data| && pieces == FullPieces(data[..contentLength]) && rest == data[contentLength..]
  {
    assert data[contentLength..contentLength] == [] && FullPieces([]) == [];
    assert pieces + [] == pieces;
  }

  /** What one read takes off the body is its next piece, or shows that the
      client has stopped short. */
  lemma NextPiece(data: seq<byte>, contentLength: nat, remaining: nat, rest: seq<byte>, pieces: seq<seq<byte>>,
                  chunk: seq<byte>, after: seq<byte>)
    requires Left(data, contentLength, remaining, rest, pieces) && remaining > 0
    requires rest == chunk + after && |chunk| == Min(Min(remaining, MAX_LENGTH), |rest|)
    ensures chunk != [] ==>
              |chunk| <= remaining && Left(data, contentLength, remaining - |chunk|, after, pieces + [chunk])
    ensures chunk == [] ==>
              contentLength > |data| && pieces == FullPieces(data[..|data|]) && after == data[|data|..]
  {
    hide FullPieces;
    var n, done := Min(contentLength, |data|), contentLength - remaining;
    var b, next := data[done..n], done + |chunk|;
    assert chunk == rest[..|chunk|] && after == rest[|chunk|..];
    Window(data, done, n, |chunk|);
    FirstPiece(b);
    if chunk == [] {
      assert pieces + [] == pieces;
    } else {
      ConcatAssociative(pieces, [chunk], FullPieces(data[next..n]));
    }
  }

  lemma Window(s: seq<byte>, i: nat, n: nat, k: nat)
    requires i + k <= n <= |s|
    ensures s[i..][..k] == s[i..n][..k] && s[i..][k..] == s[i + k..] && s[i..n][k..] == s[i + k..n]
  {
  }

  lemma FirstPiece(b: seq<byte>)
    ensures var k := Min(MAX_LENGTH, |b|);
            FullPieces(b) == if b == [] then [] else [b[..k]] + FullPieces(b[k..])
  {
    if 0 < |b| <= MAX_LENGTH {
      assert b[..|b|] == b && b[|b|..] == [] && FullPieces([]) == [];
    }
  }

  lemma PiecesNone()
    ensures Pieces(STDIN, []) == [] && EncodeAll([]) == [] && Sendable([])
  {
  }

  lemma PiecesSnoc(pieces: seq<seq<byte>>, chunk: seq<byte>)
    requires Sendable(pieces) && 1 <= |chunk| <= MAX_LENGTH
    ensures Sendable(pieces + [chunk]) && AllValid(Pieces(STDIN, pieces)) && AllValid(Pieces(STDIN, pieces + [chunk]))
    ensures EncodeAll(Pieces(STDIN, pieces + [chunk])) == EncodeAll(Pieces(STDIN, pieces)) + Encode(Chunk(STDIN, chunk))
    ensures Flatten(pieces + [chunk]) == Flatten(pieces) + chunk
  {
    hide Encode;
    assert Pieces(STDIN, pieces + [chunk]) == Pieces(STDIN, pieces) + [Chunk(STDIN, chunk)];
    EncodeAllConcat(Pieces(STDIN, pieces), [Chunk(STDIN, chunk)]);
    EncodeAllSingle(Chunk(STDIN, chunk));
    FlattenSnoc(pieces, chunk);
  }

  /** Sends a request; its end is missing when the client stops short. */
  method SendRequest(proc: Connection, params: seq<Pair>, client: SocketBuffer, contentLength: nat)
    returns (ok: bool, ghost body: seq<seq<byte>>)
    requires proc != client.sock && client.Valid()
    modifies proc`outgoing, client, client.buffer, client.sock`incoming
    ensures client.Valid() && (client.buffer == old(client.buffer) || fresh(client.buffer))
    ensures ok <==> contentLength <= |old(client.Data())|
    ensures var n := Min(contentLength, |old(client.Data())|);
            body == FullPieces(old(client.Data())[..n]) && client.Data() == old(client.Data())[n..]
    ensures Sendable(body) && AllValid(RequestRecords(params, body, ok))
    ensures proc.outgoing == old(proc.outgoing) + EncodeAll(RequestRecords(params, body, ok))
  {
    hide Encode, EncodeAll, Chunks, EncodePairs, Pieces, RequestRecords, FullPieces;
    ghost var sent := proc.outgoing;
    WriteFcgiBeginRequest(proc, RESPONDER);
    var _ := WriteFcgiParams(proc, params);
    var _ := WriteFcgiParams(proc, []);
    ok, body := WriteBody(proc, client, contentLength);
    if ok {
      var _ := WriteFcgiRecord(proc, STDIN, []);
    } else {
      assert proc.outgoing + [] == proc.outgoing;
    }
    RequestEncoding(params, body, ok);
    assert EncodePairs([]) == [] by { EncodePairsEmpty([]); }
    Append5(sent, Encode(Begin(RESPONDER)), EncodeAll(Chunks(PARAMS, EncodePairs(params))),
            EncodeAll(Chunks(PARAMS, [])), EncodeAll(Pieces(STDIN, body)), if ok then Encode(Chunk(STDIN, [])) else []);
  }

  lemma Append5(s: seq<byte>, a: seq<byte>, b: seq<byte>, c: seq<byte>, d: seq<byte>, e: seq<byte>)
    ensures s + a + b + c + d + e == s + (a + b + c + d + e)
  {
  }

  lemma RequestEncoding(params: seq<Pair>, body: seq<seq<byte>>, complete: bool)
    requires Sendable(body)
    ensures AllValid(RequestRecords(params, body, complete)) && AllValid(Chunks(PARAMS, EncodePairs(params)))
    ensures AllValid(Chunks(PARAMS, [])) && AllValid(Pieces(STDIN, body))
    ensures EncodeAll(RequestRecords(params, body, complete))
            == Encode(Begin(RESPONDER)) + EncodeAll(Chunks(PARAMS, EncodePairs(params))) + EncodeAll(Chunks(PARAMS, []))
               + EncodeAll(Pieces(STDIN, body)) + if complete then Encode(Chunk(STDIN, [])) else []
  {
    hide Encode, Chunks;
    var b, e := Begin(RESPONDER), if complete then [Chunk(STDIN, [])] else [];
    var p, t, s := Chunks(PARAMS, EncodePairs(params)), Chunks(PARAMS, []), Pieces(STDIN, body);
    ChunksFirst(PARAMS, EncodePairs(params));
    ChunksFirst(PARAMS, []);
    EncodeAllConcat([b], p);
    EncodeAllConcat([b] + p, t);
    EncodeAllConcat([b] + p + t, s);
    EncodeAllConcat([b] + p + t + s, e);
    ConcatAssociative([b] + p + t, s, e);
    EncodeAllSingle(b);
    EncodeAllSingle(Chunk(STDIN, []));
  }

  /** Reads until tmp holds `need` bytes. */
  method FillTo(proc: Connection, buffer: seq<byte>, start: nat, need: nat, received: nat)
    returns (failed: bool, tmp: seq<byte>, totalReceived: nat)
    requires start <= need <= |buffer| && received <= MAX_RESPONSE_BYTES
    modifies proc`incoming
    ensures failed <==> |old(proc.incoming)| < need - start || received + (need - start) > MAX_RESPONSE_BYTES
    ensures !failed ==> && |tmp| == |buffer| && buffer[..start] + old(proc.incoming) == tmp[..need] + proc.incoming
                        && totalReceived == received + (need - start)
  {
    tmp, totalReceived := buffer, received;
    var pos := start;
    ghost var wire := proc.incoming;
    while pos < need
      invariant start <= pos <= need && |tmp| == |buffer| && totalReceived == received + (pos - start)
      invariant pos - start <= |wire| && totalReceived <= MAX_RESPONSE_BYTES
      invariant tmp[..pos] == buffer[..start] + wire[..pos - start] && proc.incoming == wire[pos - start..]
    {
      var bytes := proc.Receive(need - pos);
      if bytes == [] {
        return true, tmp, totalReceived;
      }
      ghost var n := pos - start;
      assert bytes == wire[n..][..|bytes|] && proc.incoming == wire[n..][|bytes|..];
      assert wire[..n + |bytes|] == wire[..n] + bytes;
      tmp := tmp[..pos] + bytes + tmp[pos + |bytes|..];
      pos := pos + |bytes|;
      totalReceived := totalReceived + |bytes|;
      if totalReceived > MAX_RESPONSE_BYTES {
        return true, tmp, totalReceived;
      }
    }
    assert wire == wire[..need - start] + wire[need - start..];
    ConcatAssociative(buffer[..start], wire[..need - start], wire[need - start..]);
    return false, tmp, totalReceived;
  }

  lemma Slices(tmp: seq<byte>, need: nat, end: nat, rest: seq<byte>)
    requires HEADER_LEN <= end <= need <= |tmp|
    ensures var r := tmp[..need] + rest;
            && r[..HEADER_LEN] == tmp[..HEADER_LEN] && r[HEADER_LEN..end] == tmp[HEADER_LEN..end]
            && r[need..] == rest == tmp[..0] + rest
  {
  }

  /** Reads the records of a response until END_REQUEST, in at most `rounds`
      rounds of the loop. A round for every byte of the response is enough, or
      no number of rounds is. */
  method ReadResponse(proc: Connection, rounds: nat) returns (response: Response)
    modifies proc`incoming
    ensures response == Pending || response == Deframed(old(proc.incoming), 0, 0, [])
    ensures rounds > |old(proc.incoming)| ==> response == Deframed(old(proc.incoming), 0, 0, [])
  {
    hide Deframed;
    var tmp: seq<byte> := [];
    var pos, need := 0, 0;
    var header := Header(0, 0, 0, 0, 0);
    var totalReceived, recordCount := 0, 0;
    var rawStdout: seq<byte> := [];
    assert tmp[..0] + proc.incoming == proc.incoming;
    for round := 0 to rounds
      invariant pos <= |tmp| && pos <= totalReceived <= MAX_RESPONSE_BYTES
      invariant (pos == 0 && need == 0)
                || (pos == HEADER_LEN && header == ParseHeader(tmp[..pos])
                    && !(header.typ == STDOUT && header.contentLength == 0)
                    && need == HEADER_LEN + header.contentLength + header.paddingLength)
      invariant Deframed(old(proc.incoming), 0, 0, [])
                == Deframed(tmp[..pos] + proc.incoming, totalReceived - pos, recordCount, rawStdout)
      invariant |proc.incoming| + round <= |old(proc.incoming)| || Deframed(old(proc.incoming), 0, 0, []) == Pending
    {
      ghost var r := tmp[..pos] + proc.incoming;
      assert r[..pos] == tmp[..pos];
      assert pos == HEADER_LEN ==> header == ParseHeader(r[..HEADER_LEN]);
      DeframedOnce(r, totalReceived - pos, recordCount, rawStdout);
      if need == 0 {
        need := HEADER_LEN;
      }
      if need > |tmp| {
        tmp := tmp + Zeros(need - |tmp|);
      }
      var failed;
      failed, tmp, totalReceived := FillTo(proc, tmp, pos, need, totalReceived);
      if failed {
        return Failed;
      }
      pos := need;
      assert r == tmp[..need] + proc.incoming;
      if pos == HEADER_LEN {
        Slices(tmp, need, need, proc.incoming);
        header := ParseHeader(tmp[..HEADER_LEN]);
        if header.typ == STDOUT && header.contentLength == 0 {
          pos, need := 0, 0;
          continue;
        }
        need := HEADER_LEN + header.contentLength + header.paddingLength;
      } else {
        var end := HEADER_LEN + header.contentLength;
        Slices(tmp, need, end, proc.incoming);
        recordCount := recordCount + 1;
        if recordCount > MAX_RECORDS {
          return Failed;
        }
        if header.typ == STDOUT {
          rawStdout := rawStdout + tmp[HEADER_LEN..end];
          if |rawStdout| > MAX_RESPONSE_BYTES {
            return Failed;
          }
        } else if header.typ == END_REQUEST {
          return Complete(rawStdout);
        } else {
          assert rawStdout + [] == rawStdout;
        }
        pos, need := 0, 0;
      }
    }
    return Pending;
  }
}
