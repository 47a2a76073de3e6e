# A model of the request path: FastCGI, HTTP, WebSocket, JSON and their helpers

The project models what the web server and the FastCGI library of this
repository do with bytes, and proves properties of it for all inputs and all
runs. Verify with `dafny verify dfyconfig.toml`.

A connection (`Connections.Connection`) moves at least one byte per system call
and leaves open how many; no result below depends on that choice. Where the
source changes state step by step, a class or a loop does so here, and is shown
to follow a function of the bytes it works on; the theorems are about that
function. One source function is often several methods here, one for each part
of its body.

## FastCGI, application side

- `Bytes.dfy`, `FcgiRecords.dfy`: octets, connections and records.
  `WireOctets.dfy`: what travels, octet by octet, said by value.
- `ReaderSpec.dfy`: `Deliver`, everything an input stream will deliver, as a
  function of the bytes still unread: data, how it ends, what is left unread,
  and what is written back meanwhile. `Request.dfy`, `Reader.dfy`: the buffered,
  re-entrant stream. Each call keeps `Future`, or takes a front part off it.
- `Delivery.dfy`: what `Deliver` makes of whole records.
- `NameValues.dfy`, `Params.dfy`, `Accept.dfy`: name-value pairs, the
  environment, and accepting a request.
- `WriterSpec.dfy`: the output of a request as an abstract machine, from
  operations to records. `WriterRuns.dfy`: the invariant of every run.
  `Writer.dfy`: the buffer with its reserved header, refining the machine.

## FastCGI, server side, and both ends together

- `Server.dfy`: sending a request, and the loop that reads the response.
  `Deframed` gives the answer to any bytes. `Response.dfy`: the answer to
  records, and to every run of an application. `ResponseLimits.dfy`: how much
  an application may put and flush for its answer to be complete.
- `EndToEnd.dfy`: the request arriving at the application, and the whole
  exchange there and back. `CutShort.dfy`: what becomes of a request whose
  connection ends before its parameters do.

## Beside FastCGI

- `WebSocket.dfy`, `WebSocketProofs.dfy`: the incremental decoder, and its
  independence of how bytes arrive. `WebSocketOctets.dfy`: frames octet by
  octet. `EchoService.dfy`: the echo service, and
  what it makes of the cuts between reads and of bytes read before it begins.
- `SocketBuffer.dfy`: the receive buffer of the HTTP server, lines, header
  blocks and bodies, in any mix of calls. The FastCGI server reads request
  bodies through it.
- `JsonStrings.dfy`, `JsonOctets.dfy`, `JsonWriter.dfy`, `JsonMachine.dfy`,
  `JsonReader.dfy`, `JsonEvents.dfy`, `JsonRoundTrip.dfy`, `JsonReaderLaws.dfy`:
  the streaming JSON library.
- `PicoJson.dfy`, `PicoJsonGrammar.dfy`, `PicoJsonLayouts.dfy`,
  `PicoJsonProofs.dfy`, `PicoJsonInput.dfy`: the tree JSON library, with the
  grammar of exactly the texts it accepts.
- `Sha1.dfy`, `Sha1Laws.dfy`: SHA-1, and the laws of its functions with the
  published digest of "abc".
- `Paths.dfy`, `Base64.dfy`, `IntegerFormat.dfy`, `Arena.dfy`.

## Where the code departs from its specifications

The model follows the code, and the departures are theorems. Where a condition
is called exact here, the theorem states it as an equivalence.

- `skip` is cleared only when skipped content is not empty, so an empty record
  of another request makes the next data of this one disappear
  (`Delivery.EmptyForeignLosesData`), and the content of an unknown management
  record comes out as data (`Delivery.ManagementContentLeaks`). The two can make
  up for each other in number, never in kind: the records handed out are the
  stream's own exactly if nothing is lost and nothing leaks, and both are
  conditions on the order of the records (`Delivery.DeliversContents`).
- The padding of a stream's terminating record stays unread
  (`Delivery.Terminated`): padding behind the parameters that does not begin
  with the version octet costs the request its body
  (`RequestTheorems.PaddedEndLosesBody`). The padding of BEGIN_REQUEST stays
  unread too (`RequestTheorems.BeginPaddingUnread`) and is taken for the next
  record header. Padding that does not begin with the version octet costs the
  request all of its parameters, though it is accepted
  (`RequestTheorems.PaddedBeginLosesParams`): with such padding or none, it is
  accepted as it was sent exactly if there is none
  (`RequestTheorems.PaddedBeginAccepted`). Other padding is read as a record,
  and can be harmless (`RequestTheorems.PaddingPassedOver`).
- A connection that ends before the parameters do is accepted all the same,
  exactly when it ends behind BEGIN_REQUEST and the parameter content in front
  of the cut ends behind a pair (`CutRequests.CutShort`).
- The response loop never gets past a bare header that is not of type STDOUT.
  The end of an error stream is such a header, so a response with error output
  is never completed (`Responses.OutputArrives`, an if and only if); nor does the
  loop skip the padding of an empty output record (`Responses.PaddingNotSkipped`).
  With padding of eight zero octets or more the response is completed exactly if
  no such record has any (`Responses.AnswerIs`).
- Looking up a name finds the first pair called so, exactly unless a pair in
  front of it has a name that begins with that name and '='
  (`EnvParams.FindIndexIff`, `EnvParams.NameWithEqualsSplits`).
- After a WebSocket handshake the code reads from the socket and no longer
  through the receive buffer, so bytes that came along with the handshake are
  never seen. A whole message among them is missing
  (`EchoService.EarlyMessageLost`); when they end behind the first octet of a
  frame, the rest of it can be a fault, and all that follows is lost
  (`EchoTheorems.FirstOctetLost`). Nothing is lost, whatever follows, exactly if
  they are whole frames, no message is left begun, and none is to be sent back
  (`EchoTheorems.EarlyIff`).
- The messages of the read that shows a fault are dropped, so what is sent back
  depends on how the bytes arrive. The exact condition under which it does not
  is `EchoTheorems.CutsAgree`; for input that one read can take it is that all
  is accepted or nothing is to be sent back (`EchoTheorems.OneReadIff`).
- The order of fragments is checked only in part: a continuation is taken when
  no message is under way, and a new message inside one that has been empty so
  far (`WebSocketTheorems.OutOfOrderTaken`). Accepted frames are in order exactly
  if neither happens (`WebSocketTheorems.OrderIff`).

A request without any parameter would have two parameter terminators on the
wire, and the second one would break the body off
(`RequestTheorems.BodyDelivered`). The server of this repository never sends
one, because its environment always has entries (serv/main.cpp:583-621).

## Model

| member | source | states |
|---|---|---|
| FcgiRecords.ParseMakeHeader | fcgi/libfcgi/fcgiapp.c:1201-1219 | the eight octets of a record header, read the way both peers read them, give back version, type, id, content length and padding length |
| FcgiRecords.AppStatusRoundTrip | fcgi/libfcgi/fcgiapp.c:1230-1242 | the exit status is read back from an END_REQUEST body as the same 32-bit two's complement number, negative ones included |
| FcgiRecords.EncodedParts | fcgi/include/fastcgi.h:22-31 | what follows the header of an encoded record is its content, then its padding, then whatever comes next |
| FcgiRecords.DeframeEncodeAll | fcgi/include/fastcgi.h:22-31 | framing loses nothing: cutting the bytes of any sequence of records gives exactly these records |
| WireOctets.Numbers | fcgi/include/fastcgi.h:45-66 | record types and error codes have the numbers of the specification and of the library's header |
| WireOctets.HeaderOctets | fcgi/libfcgi/fcgiapp.c:1201-1219 | the eight octets of a header, by value: version 1, type, id and length with the high octet first, padding, zero; and that any eight such octets are read so |
| WireOctets.BeginOctets | fcgi/libfcgi/fcgiapp.c:1526-1563 | a header of type 1 and length 8 and the eight octets behind it start the request they name, with role and flag from the first three; id 0 ends the stream with error -3 |
| WireOctets.NoBegin | fcgi/libfcgi/fcgiapp.c:1526-1545 | another version ends the stream with error -2, a start of another length with error -3, and nothing more is read |
| WireOctets.BeforeRequest | fcgi/libfcgi/fcgiapp.c:1587-1612 | before a request has begun, records of other ids are passed over, and one of the id last served is an error unless its type is 0 |
| WireOctets.BeginSkipped | fcgi/libfcgi/fcgiapp.c:1551-1561 | a start right behind an empty record of another id is not taken and ends the stream with error -3 |
| WireOctets.ReplyOctets | fcgi/libfcgi/fcgiapp.c:1453-1545 | the sixteen octets that refuse a second start, with protocol status 1, and that answer an unknown management record by its type |
| WireOctets.FinishedOctets | fcgi/libfcgi/fcgiapp.c:1325-1357 | the last sixteen octets of every finished request: type 3, its id, the last status in four octets, and protocol status 0 |
| WireOctets.StreamOctets | fcgi/libfcgi/fcgiapp.c:1385-1411 | a stream record fills up to a multiple of eight with zero octets, its header says how long content and padding are, and the content stands behind it |
| WireOctets.PairOctets | serv/main.cpp:932-947 | a pair begins with its two lengths, each in one octet below 128 and in four with the highest bit set otherwise; its entry is name, '=', value and a NUL |
| WireOctets.RequestOctets | serv/main.cpp:897-905 | the first sixteen octets of every request a server sends |
| WireOctets.RoleFound | fcgi/libfcgi/fcgiapp.c:2213-2228 | whatever is accepted has role 1, 2 or 3, its environment begins with FCGI_ROLE=RESPONDER, AUTHORIZER or FILTER accordingly, and looking FCGI_ROLE up finds that |
| WireOctets.RoleOfBegin | fcgi/libfcgi/fcgiapp.c:2205-2228 | the role is the one in the first two octets of the starting record's body; any other than 1, 2 or 3 is refused |
| Bytes.AlignInt8 | fcgi/libfcgi/fcgiapp.c:1272-1274 | the least multiple of eight not below the argument |
| ReaderSpec.DeliverChunk | fcgi/libfcgi/fcgiapp.c:1648-1653 | handing out any front part of a record's content leaves the whole of what the stream will deliver unchanged |
| ReaderSpec.SkipChunk | fcgi/libfcgi/fcgiapp.c:1654-1661 | dropping any part of skipped content changes nothing, and `skip` ends only when some content has been dropped |
| ReaderSpec.PaddingChunk | fcgi/libfcgi/fcgiapp.c:1667-1674 | dropping any part of the padding changes nothing |
| ReaderSpec.InRecord | fcgi/libfcgi/fcgiapp.c:1675-1704 | while a record is read through the stream itself, what comes out is the content of that record alone, nothing is written, and no request is consulted |
| Readers.Reader.Refill | fcgi/libfcgi/fcgiapp.c:1634-1643 | more bytes arrive behind those that are left, or an early end of the connection is an error; the bytes ahead are the same |
| Readers.Reader.OfferContent | fcgi/libfcgi/fcgiapp.c:1648-1653 | the content in the buffer becomes available; all the stream will deliver is unchanged |
| Readers.Reader.DropContent | fcgi/libfcgi/fcgiapp.c:1654-1661 | skipped content goes by as the specification function says |
| Readers.Reader.DropPadding | fcgi/libfcgi/fcgiapp.c:1667-1674 | padding goes by as the specification function says |
| Readers.Reader.CollectHeader | fcgi/libfcgi/fcgiapp.c:1684-1694 | header octets are collected across any number of refills |
| Readers.Reader.FinishRecord | fcgi/libfcgi/fcgiapp.c:1634-1683 | one round over the content and the padding of the current record keeps everything that lies ahead |
| Readers.Reader.FillBuffProc | fcgi/libfcgi/fcgiapp.c:1623-1741 | the loop ends, and leaves all that the stream will still deliver (data, ending, unread bytes, replies) as it was, or hands over the request that a BEGIN_REQUEST started; FCGI_GET_VALUES closes the stream with an ending about which nothing is promised |
| Readers.Reader.TakeHeader | fcgi/libfcgi/fcgiapp.c:1695-1739 | a complete header is acted on exactly as the specification function says: end of stream, error, skipping, or the next record; FCGI_GET_VALUES gives the ending NotModelled |
| Readers.Reader.ProcessHeader | fcgi/libfcgi/fcgiapp.c:1587-1612 | every header is judged as the specification function judges it, with its reply written; FCGI_GET_VALUES gives the ending NotModelled |
| Readers.Reader.Dispatch | fcgi/libfcgi/fcgiapp.c:1587-1612 | a header of the right version leads to the verdict of the specification function: an error that changes nothing, a reply and a record to skip, a reply and a record of management, a record of the stream, or a request's start read through the stream |
| Readers.Reader.Conclude | fcgi/libfcgi/fcgiapp.c:1706-1739 | the verdict closes the stream for good, with the first error kept, or leaves it in front of the record's content |
| Readers.Reader.ProcessManagementRecord | fcgi/libfcgi/fcgiapp.c:1453-1506 | a management record of any type but FCGI_GET_VALUES is answered by UNKNOWN_TYPE with its type; that one is passed over as not modelled, and nothing is written |
| Readers.Reader.ProcessBeginRecord | fcgi/libfcgi/fcgiapp.c:1526-1563 | a second BEGIN_REQUEST is refused with CANT_MPX_CONN and skipped; a first one is read through the stream |
| Readers.Reader.ReadBeginBody | fcgi/libfcgi/fcgiapp.c:1551-1562 | id, role and keep-connection flag come from the record's body, and the stream stands right behind the body |
| Readers.Reader.ReadBody | fcgi/libfcgi/fcgiapp.c:1551-1556 | the eight octets of the body, whole exactly if the record has them and is not being skipped; nothing is written and no other request begins |
| Readers.Reader.GetChar | fcgi/libfcgi/fcgiapp.c:108-126 | takes the next byte of all that will be delivered, or reports the end exactly when nothing is left |
| Readers.Reader.GetStr | fcgi/libfcgi/fcgiapp.c:143-181 | takes the next n bytes of all that will be delivered, fewer only when it ends |
| Readers.Reader.SetError | fcgi/libfcgi/fcgiapp.c:942-952 | closes the stream and keeps the first error |
| Readers.Reader.SetReaderType | fcgi/libfcgi/fcgiapp.c:1844-1856 | reopens the stream for another record type at the unread bytes, between records |
| Readers.Reader.Perform | fcgi/libfcgi/fcgiapp.c:108-181 | any mix of GetChar and GetStr takes a front part of what will be delivered, all of it once an end was seen, however the connection splits the bytes; nothing is promised of a wire with FCGI_GET_VALUES |
| Delivery.Records | fcgi/libfcgi/fcgiapp.c:1587-1741 | a whole sequence of own, foreign and unknown management records on the wire delivers the kept contents, writes the replies, and leaves the rest of the wire to be read as if it came first |
| Delivery.Terminated | fcgi/libfcgi/fcgiapp.c:1706-1720 | an empty record of the stream ends it with no error; its padding is left unread |
| Delivery.WholeStream | fcgi/libfcgi/fcgiapp.c:1623-1741 | records and a terminator deliver exactly the kept contents and a clean end, whatever follows |
| Delivery.DeliversContents | fcgi/libfcgi/fcgiapp.c:1654-1661 | whatever own, foreign and unknown management records there are: the records handed out are the stream's own if and only if no data of its own stands behind an empty foreign record with only empty records between, and every management record with content does; byte by byte each of the two conditions is equivalent to delivering exactly the own contents once the other is met |
| Delivery.Balance | fcgi/libfcgi/fcgiapp.c:1654-1661 | the bytes delivered and the own bytes lost are as many as the own bytes and the bytes of management records that leak in; if neither happens, the own contents are delivered |
| Delivery.LossIff | fcgi/libfcgi/fcgiapp.c:1654-1661 | nothing is lost exactly if no data of the stream stands where it is skipping, and nothing leaks exactly if every management record with content does |
| Delivery.HandedOutShows | fcgi/libfcgi/fcgiapp.c:1648-1661 | a lost record is missing among those handed out, and a leaked one is none of the stream's own |
| Delivery.WithoutManagement | fcgi/libfcgi/fcgiapp.c:1654-1661 | in particular, without management records: exactly the own contents if and only if no empty foreign record stands right in front of one of the stream's own |
| Delivery.ManagementContentLeaks | fcgi/libfcgi/fcgiapp.c:1492-1505 | the content of an unknown management record comes out as stream data |
| Delivery.EmptyForeignLosesData | fcgi/libfcgi/fcgiapp.c:1654-1661 | an empty foreign record in front of data makes that data disappear |
| NameValues.LengthRoundTrip | serv/main.cpp:932-941 | a length reads back as written, modulo 2^31 once it takes four octets |
| NameValues.PairRoundTrip | serv/main.cpp:942-947 | a pair with lengths below 2^31 is taken off the front of the data and nothing else with it |
| NameValues.PairsRoundTrip | fcgi/libfcgi/fcgiapp.c:1138-1190 | decoding an encoded list of pairs gives every pair back, in order and complete |
| NameValues.CutPair | fcgi/libfcgi/fcgiapp.c:1149-1185 | an encoded pair cut short anywhere behind its first octet is not a pair |
| NameValues.CutPairs | fcgi/libfcgi/fcgiapp.c:1138-1190 | an encoded list of pairs cut anywhere decodes without an error if and only if the cut is behind one of the pairs, or in front of all, and then to the pairs in front of it |
| EnvParams.Params.PutParam | fcgi/libfcgi/fcgiapp.c:1076-1088 | appends one entry, keeps all others and the terminating NULL, across doublings of the vector |
| EnvParams.GetParam | fcgi/libfcgi/fcgiapp.c:1103-1118 | finds what follows name= in the first entry that starts with it, or nothing |
| EnvParams.FindIsLookup | fcgi/libfcgi/fcgiapp.c:1103-1118 | unless a pair in front has a name that begins with name=, that is the value of the first pair of that name, or nothing when no pair has it |
| EnvParams.BindsIff | fcgi/libfcgi/fcgiapp.c:1110-1115 | an entry answers to a name free of '=' exactly if it is that of a pair called so, or of one whose own name begins with name= |
| EnvParams.FindIndexIff | fcgi/libfcgi/fcgiapp.c:1103-1118 | the entry found is that of the first pair of that name if and only if no pair in front of it has a name that begins with name= |
| EnvParams.NamesWithoutEquals | fcgi/libfcgi/fcgiapp.c:1103-1118 | in particular, names free of '=' are looked up as they were sent |
| EnvParams.NameWithEqualsSplits | fcgi/libfcgi/fcgiapp.c:1103-1118 | such a name is found under its first part, although no pair is called that |
| Accept.ReadLength | fcgi/libfcgi/fcgiapp.c:1149-1156 | takes a length off the delivered bytes, failing exactly when it is cut short |
| Accept.ReadText | fcgi/libfcgi/fcgiapp.c:1173-1185 | takes name and value, failing exactly when they are cut short |
| Accept.ReadNext | fcgi/libfcgi/fcgiapp.c:1144-1187 | the next pair, a partial pair, or the end, decided by the delivered bytes alone |
| Accept.ReadParams | fcgi/libfcgi/fcgiapp.c:1138-1190 | adds every whole pair as name=value and fails exactly when a partial pair follows |
| Accept.ReadStart | fcgi/libfcgi/fcgiapp.c:2205-2210 | begins a request exactly when the first thing the stream delivers is a request's start; nothing is promised when FCGI_GET_VALUES comes first |
| Accept.ReadEnvironment | fcgi/libfcgi/fcgiapp.c:2229-2249 | the parameters are those in the delivered bytes, and the stream is left open at the body; nothing is promised of FCGI_GET_VALUES among them |
| Accept.AcceptRequest | fcgi/libfcgi/fcgiapp.c:2177-2255 | accepting is a function of the unread bytes: refused, or the request with its environment, the error its parameters ended with, and the position of the body; nothing is promised of FCGI_GET_VALUES on the way |
| Accept.BufferLength | fcgi/libfcgi/fcgiapp.c:1767-1773 | the usable part of a stream buffer is a multiple of eight between 24 and 65536 bytes: what was asked for within these bounds, rounded up, less eight when the memory was not aligned |
| WriterTheorems.PutConserves | fcgi/libfcgi/fcgiapp.c:310-341 | every put is on the wire in framed records or still held back, in order, none lost, none twice, and no empty record among them |
| WriterTheorems.PutInPieces | fcgi/libfcgi/fcgiapp.c:310-341 | putting a then b leaves the same records and the same stream as putting a and b at once |
| WriterRuns.ApplyKeeps | fcgi/libfcgi/fcgiapp.c:310-341 | every operation, on either stream and at any time, keeps the invariant that links wire, buffers, open streams and END_REQUEST |
| WriterRuns.RunKeeps | fcgi/libfcgi/fcgiapp.c:887-929 | so does every run of operations |
| WriterRuns.EveryMoment | fcgi/libfcgi/fcgiapp.c:1385-1429 | at every moment of every run the wire parses into whole records of the request, stream records aligned to eight bytes; an open stream has only framed, non-empty records; wire and buffer make up all that was put |
| WriterRuns.FlushSends | fcgi/libfcgi/fcgiapp.c:887-893 | after any run, a flush of an open stream puts all that was put on it on the connection |
| WriterRuns.ClosedForGood | fcgi/libfcgi/fcgiapp.c:912-929 | after both streams are closed nothing is written any more |
| WriterRuns.CloseKeepsSession | fcgi/libfcgi/fcgiapp.c:1325-1357 | closing keeps the invariant, and closing the last open stream puts END_REQUEST with the current status last |
| WriterRuns.EndCarriesLastStatus | fcgi/libfcgi/fcgiapp.c:2303-2307 | END_REQUEST carries the last status set before the closing of the last stream |
| WriterRuns.RequestCompletes | fcgi/libfcgi/fcgiapp.c:2001-2020 | whatever was put, flushed and closed in whatever order: finishing leaves exactly one END_REQUEST, in last place, with the last status; both streams ended after all their data; the error stream without any record exactly when nothing was put on it |
| Writers.Writer.SealRecord | fcgi/libfcgi/fcgiapp.c:1396-1411 | header, content and zero padding stand in the buffer as one encoded record |
| Writers.Writer.SendBuffer | fcgi/libfcgi/fcgiapp.c:1415-1422 | all of the buffer reaches the connection, however few bytes each write takes |
| Writers.Writer.EmptyBuffProc | fcgi/libfcgi/fcgiapp.c:1385-1429 | what is sent and what is kept are those of the abstract stream |
| Writers.Writer.WriteCloseRecords | fcgi/libfcgi/fcgiapp.c:1325-1357 | places the end of the stream, unless a silent error stream, and END_REQUEST behind the last stream |
| Writers.Writer.PutStr | fcgi/libfcgi/fcgiapp.c:310-341 | sends and keeps what the abstract put says, for input of any length |
| Writers.Writer.FFlush | fcgi/libfcgi/fcgiapp.c:887-893 | sends what is held back, and nothing on a closed stream |
| Writers.Writer.FClose | fcgi/libfcgi/fcgiapp.c:912-929 | ends the stream once; closing again does nothing |
| Writers.Writer.constructor | fcgi/libfcgi/fcgiapp.c:1753-1808 | an open, empty stream with room for a header kept free |
| Writers.Do | fcgi/libfcgi/fcgiapp.c:310-341 | one operation on the two buffers puts exactly the records of the abstract step on the connection |
| Writers.DoAll | fcgi/libfcgi/fcgiapp.c:310-341 | a run of operations puts exactly the records of the abstract run on the connection |
| Writers.FinishRequest | fcgi/libfcgi/fcgiapp.c:2001-2020 | closing the error stream and then the output stream is the abstract end of the request |
| Server.MakeFcgiHeader | serv/main.cpp:884-895 | the header of a record that fills the vector, written in place |
| Server.WriteFcgiRecord | serv/main.cpp:916-926 | sends one record exactly, refuses content over 65535 bytes |
| Server.WriteFcgiBeginRequest | serv/main.cpp:897-905 | sends the BEGIN_REQUEST record of a role |
| Server.WriteFcgiParams | serv/main.cpp:928-967 | sends the encoded pairs cut into records of at most 65535 bytes |
| Server.WriteBody | serv/main.cpp:988-1024 | sends contentLength bytes of the client, each record filled up to min(remaining, 65535) through the receive buffer, or all there were when the client stopped short |
| ServerSpec.FullPiecesMakeUp | serv/main.cpp:988-1024 | these records make up the body, each carries between 1 and 65535 bytes of it, and all but the last carry 65535 |
| Server.SendRequest | serv/main.cpp:969-1024 | sends exactly the records of the request, whose body records make up the client's bytes; without the final empty record when the client stopped short |
| Server.FillTo | serv/main.cpp:1047-1061 | fills the buffer up to the bytes needed, failing exactly on an early end or the byte limit |
| Server.ReadResponse | serv/main.cpp:1026-1113 | the answer is that of the deframing function, however the bytes arrive; a round of the loop for every byte is enough, or no number of rounds is |
| Responses.DeframedRecords | serv/main.cpp:1063-1110 | deframing the bytes of any records is deciding record by record, up to the padding of an empty output record, whose octets are read as what comes next |
| Responses.DeframedFront | serv/main.cpp:1063-1110 | so it is on the records in front of any bytes, and goes on with those |
| Responses.PaddingNotSkipped | serv/main.cpp:1066-1071 | behind any records that do not end the loop, the padding of an empty output record is taken for what comes next |
| Responses.PaddingStalls | serv/main.cpp:1063-1080 | eight or more zero octets of padding there, wherever in the response within the limits, keep the loop from ever ending |
| Responses.AnswerIs | serv/main.cpp:1026-1113 | for any records ending in one END_REQUEST, their empty output records unpadded or padded with eight or more zero octets: complete if and only if within both limits, without a bare header of another type, and without such padding, and then all the output there was; within the limits the loop never ends otherwise |
| Responses.CutNeverComplete | serv/main.cpp:1047-1061 | a response cut off anywhere is never taken for a complete one |
| Responses.CompleteStays | serv/main.cpp:1092-1103 | whatever comes behind END_REQUEST makes no difference to a complete answer |
| Responses.FitsNumbers | serv/main.cpp:809-813 | the limits are 67108864 bytes and 100000 records |
| Responses.OutputArrives | serv/main.cpp:1026-1113 | for every run of the application: the server's answer is complete if and only if nothing was put on the error stream and the limits are kept, and is then all that was put on the output stream; an error stream that carried anything keeps the loop from ending |
| ResponseLimits.PutSendsFull | fcgi/libfcgi/fcgiapp.c:310-341 | putting sends records as large as the buffer and no others |
| ResponseLimits.RunShort | fcgi/libfcgi/fcgiapp.c:887-929 | every smaller output record of a run is due to a flush or a close |
| ResponseLimits.OutputCount | fcgi/libfcgi/fcgiapp.c:1385-1429 | so a finished output stream has at most one record for each buffer's worth, one for each flush and close, and its end |
| ResponseLimits.EnoughRoom | serv/main.cpp:809-813 | an application that puts nothing on its error stream, and whose bytes and flushes keep to a bound it can work out beforehand, is answered with all its output |
| RequestTheorems.OwnStream | fcgi/libfcgi/fcgiapp.c:1623-1741 | data records and their terminator deliver their contents and a clean end |
| RequestTheorems.BeginTaken | fcgi/libfcgi/fcgiapp.c:1526-1563 | the server's BEGIN_REQUEST starts request 1 with its role and leaves the rest unread |
| RequestTheorems.BeginPaddingUnread | fcgi/libfcgi/fcgiapp.c:1551-1562 | with padding of any length it starts the request too, and leaves exactly the padding and what follows unread |
| RequestTheorems.PaddedBeginLosesParams | fcgi/libfcgi/fcgiapp.c:2205-2236 | if that padding does not begin with the version octet, the request is accepted with none of its parameters, and UNSUPPORTED_VERSION kept in the stream |
| RequestTheorems.PaddedBeginAccepted | fcgi/libfcgi/fcgiapp.c:2205-2236 | with such padding or none, a request is accepted as it was sent, and with its parameters, if and only if there is none |
| RequestTheorems.PaddingPassedOver | fcgi/libfcgi/fcgiapp.c:1587-1612 | padding that is itself a non-empty record of another request changes nothing |
| RequestTheorems.PaddedEndAccepted | fcgi/libfcgi/fcgiapp.c:1706-1720 | when the record that ends the parameters has padding, the request is accepted with all of them, and the padding is left in front of the body |
| RequestTheorems.PaddedEndLosesBody | fcgi/libfcgi/fcgiapp.c:1587-1592 | unless that padding begins with the version octet, the body arrives whole and ends cleanly if and only if there is none; otherwise nothing of it arrives |
| RequestTheorems.RequestAccepted | serv/main.cpp:969-1024 | everything the server sends for a request is accepted: the role's pair (which WireOctets.RolePlayed spells out), then every parameter in order, no error, and the body next |
| RequestTheorems.BodyDelivered | serv/main.cpp:983-1024 | reading the body yields exactly what the client sent if there were parameters, and ends cleanly exactly if it sent all it had promised; without any, the second terminator breaks the stream off at once |
| RequestTheorems.OpenStream | fcgi/libfcgi/fcgiapp.c:1634-1643 | data records without a terminator deliver their contents and break off |
| CutRequests.CutStream | fcgi/libfcgi/fcgiapp.c:1634-1694 | a stream of unpadded records cut anywhere delivers the content in front of the cut and breaks off |
| CutRequests.CutShort | fcgi/libfcgi/fcgiapp.c:2205-2236 | a connection that ends anywhere before the parameters do is accepted if and only if BEGIN_REQUEST is whole and the content in front of the cut ends behind a pair, or is empty; the request has the pairs in front of the cut, and the error is kept in the stream |
| Exchanges.OpenWriters | fcgi/libfcgi/fcgiapp.c:2249-2252 | the two output streams of an accepted request, both counted as open |
| Exchanges.TakeRequest | fcgi/libfcgi/fcgiapp.c:2177-2255 | on a server's bytes, with or without parameters and whether or not the client sent all: request 1, its environment in the vector, which begins with and finds FCGI_ROLE=RESPONDER, and a stream that will deliver the body; it ends cleanly if there were parameters and the client sent all |
| Exchanges.Interact | fcgi/libfcgi/fcgiapp.c:108-181 | reads and writes in any order: the reads get the body, the writes are a run of the output, neither disturbs the other |
| Exchanges.Serve | fcgi/libfcgi/fcgiapp.c:2001-2255 | an application on such a connection finds the environment, gets the body, and puts the records of its run on the connection |
| Exchanges.Exchange | serv/main.cpp:869-1113 | the whole exchange, server to application and back, for any parameters and any client: environment (FCGI_ROLE=RESPONDER found in it), body and response are decided by what both sides ask for, and not by how any byte travels |
| WebSocketSpec.MaskTwice | serv/httpserver.cpp:302-318 | masking twice with one key gives the payload back |
| WebSocketSpec.MaskOctets | serv/httpserver.cpp:302-318 | bit by bit: octet i of the masked payload is set where octet i of the payload and octet i modulo 4 of the key differ |
| WebSocketOctets.FrameOctets | serv/httpserver.cpp:325-354 | the first frame of the bytes received, for every first octet and every form of the length: opcode, end mark, key and payload where they stand; invalid without mask bit, with a reserved bit, or above 1048576 octets |
| WebSocketOctets.Opcodes | serv/httpserver.cpp:355-381 | what a frame does, opcode by opcode and in any state |
| WebSocketOctets.SingleFrame | serv/httpserver.cpp:320-383 | a message in one frame comes out with each octet combined with its octet of the key, and decoding goes on behind it |
| WebSockets.WebSocket.UnmaskAndAppend | serv/httpserver.cpp:302-318 | appends the payload, octet i of it combined bit by bit with octet i modulo 4 of the key, unless the message would exceed 1 MiB |
| WebSockets.WebSocket.NextFrame | serv/httpserver.cpp:325-354 | finds the frame at the front of the buffer, or that it is incomplete or invalid |
| WebSockets.WebSocket.Feed | serv/httpserver.cpp:320-383 | messages, verdict and (while accepting) state are those of the decoding function on the bytes kept and the new ones |
| WebSocketTheorems.FeedInTwo | serv/httpserver.cpp:320-383 | decoding a and then b gives the same messages, verdict and state as decoding both at once |
| WebSocketTheorems.StaysSmall | serv/httpserver.cpp:320-383 | while accepting, the message under way is at most 2^20 bytes and the bytes kept are fewer than 2^20 + 14; no message is longer than 2^20 |
| WebSocketTheorems.LeftOver | serv/httpserver.cpp:325-353 | an accepting decoder keeps only an incomplete frame |
| WebSocketTheorems.FrameRead | serv/httpserver.cpp:325-354 | a masked frame is scanned back as it was sent if its payload is at most 1 MiB, and refused otherwise |
| WebSocketTheorems.DecodePlays | serv/httpserver.cpp:320-383 | decoding the bytes of frames is playing the frames and going on with what follows |
| WebSocketTheorems.MessageArrives | serv/httpserver.cpp:320-383 | a text or binary message in any fragments comes out once, unmasked, with its opcode, if it is at most 1 MiB; otherwise it is refused and nothing comes out |
| WebSocketTheorems.ControlsPass | serv/httpserver.cpp:358-363 | pings and pongs between fragments change neither the messages, nor the verdict, nor the state |
| WebSocketTheorems.OrderIff | serv/httpserver.cpp:358-373 | accepted frames keep the order of fragments if and only if no continuation met a state in which nothing was begun and no new message one whose fragments were empty so far: these two the code does not check |
| WebSocketTheorems.HeadlessIff | serv/httpserver.cpp:364-377 | a message comes out that is neither text, nor binary, nor a pong if and only if a final continuation met a state in which nothing was begun |
| WebSocketTheorems.OutOfOrderTaken | serv/httpserver.cpp:358-377 | both are taken: the end of nothing comes out under opcode 0, and a binary message comes out inside an empty text message |
| WebSocketTheorems.ServerFrameRead | serv/httpserver.cpp:385-403 | the server's frame is read back by a client with its opcode and payload |
| WebSocketOctets.ServerOctets | serv/httpserver.cpp:385-403 | the server's frame is 128 plus the opcode, the shortest form of the length without a mask bit, and the data |
| WebSocketOctets.EchoOctets | serv/httpserver.cpp:721-752 | messages of opcode 1 and 2 are echoed under that opcode, and no others |
| WebSocketOctets.ServerExamples | serv/httpserver.cpp:385-403 | an echoed "Hello" and the closing frame of status 1000, octet by octet |
| WebSocketTheorems.EchoComesBack | serv/httpserver.cpp:721-752 | a client gets every text and binary message back as it was |
| EchoService.MakeFrame | serv/httpserver.cpp:385-403 | builds the unmasked frame with the shortest length |
| EchoService.Serve | serv/httpserver.cpp:707-760 | the same on the socket under the receive buffer; the client gets the same as on all the bytes it sent if the buffer's part of them is harmless to leave out |
| EchoService.Converse | serv/httpserver.cpp:707-760 | the bytes come in some pieces, each of at most 65536 bytes; the messages answered are those in front of the piece that shows a fault, all of them if there is none; a fault is answered by a close frame |
| EchoService.EarlyMessageLost | serv/httpserver.cpp:712-720 | a message that reached the receive buffer along with the handshake is missing among those answered |
| EchoTheorems.CutsAgree | serv/httpserver.cpp:712-721 | what is sent back is the same for every cut of the bytes into reads if and only if all is accepted, or every message that is to be sent back ends in front of any read that can show the fault |
| EchoTheorems.OneReadIff | serv/httpserver.cpp:712-721 | read at once or octet by octet, the same is sent back if and only if all is accepted or nothing in it is to be sent back |
| EchoTheorems.ByteByByte | serv/httpserver.cpp:712-721 | octet by octet every message in front of a fault is answered |
| EchoTheorems.LateAnswers | serv/httpserver.cpp:712-721 | for every cut, at least what is answered when the read that shows the fault begins as early as it can, and at most all |
| EchoTheorems.EarlyIff | serv/httpserver.cpp:708-716 | leaving out bytes that came along with the handshake makes no difference, whatever follows, if and only if they are whole frames without a message begun or one to be sent back |
| EchoTheorems.WholeEarly | serv/httpserver.cpp:708-716 | whole frames may be left out in front of given bytes if and only if nothing in them is to be sent back |
| EchoTheorems.FirstOctetLost | serv/httpserver.cpp:325-333 | with only the first octet of a frame left out, the connection is refused and everything behind it lost, unless the key happens to look like a mask bit |
| HttpLines.LineInFront | serv/httpserver.cpp:126-139 | a line feed among the bytes received ends the line whatever is still to come; 8192 bytes without one, or the end of the input, mean that there is no line |
| HttpLines.PlayConserves | serv/httpserver.cpp:119-212 | whatever lines and bytes are asked for, what is consumed and what is left make up what there was, in order |
| HttpLines.LinesInOrder | serv/httpserver.cpp:119-168 | reading as many lines as there are returns each without its trailing white space and leaves what follows |
| HttpLines.HeaderRoundTrip | serv/httpserver.cpp:521-536 | a written header block is read back line by line, and what follows is left alone, if and only if every line fits 8192 bytes and the whole 65536 |
| HttpLines.HeaderNumbers | serv/httpserver.cpp:521-536 | the limits are 8192 octets for a line with its end and 65536 for the block; white space is octets 9 to 13 and 32 |
| SocketBuffers.SocketBuffer.MoveToFront | serv/httpserver.cpp:140-144 | moves the unconsumed bytes to the front in place |
| SocketBuffers.SocketBuffer.Resize | serv/httpserver.cpp:150-160 | gives the buffer another size without losing a byte |
| SocketBuffers.SocketBuffer.Receive | serv/httpserver.cpp:161-166 | appends what arrives; the bytes to be consumed are the same |
| SocketBuffers.SocketBuffer.TakeLine | serv/httpserver.cpp:126-135 | consumes a received line and its line feed and nothing more |
| SocketBuffers.SocketBuffer.Readline | serv/httpserver.cpp:119-168 | returns the next line without trailing white space, however it arrives, or gives the connection up and consumes nothing exactly when there is no line of at most 8192 bytes |
| SocketBuffers.SocketBuffer.TakeBytes | serv/httpserver.cpp:177-200 | takes received bytes off the front and keeps the others |
| SocketBuffers.SocketBuffer.Read | serv/httpserver.cpp:170-212 | returns exactly the next n bytes, fewer only when the connection ended, and consumes those |
| SocketBuffers.SocketBuffer.Perform | serv/httpserver.cpp:119-212 | any sequence of line reads and byte reads returns what the bytes ahead decide, however they arrive |
| HttpRequests.ReadRequestHeader | serv/httpserver.cpp:521-536 | reads the header block that the bytes ahead hold, or reports a bad request |
| HttpRequests.DiscardContent | serv/httpserver.cpp:762-775 | skips exactly a body nobody read, so that the next request is next |
| JsonStrings.EncodeJsonString | misc/jstream.h:22-89 | escapes the cleaned string |
| JsonStrings.UnitAt | misc/jstream.h:39-85 | finds how many bytes make up a character, none for a byte that is dropped |
| JsonStrings.EscapedReadBack | misc/jstream.h:543-624 | any bytes, escaped and quoted, are read back up to the closing quote and no further |
| JsonStrings.StringRoundTrip | misc/jstream.h:543-624 | reading a written string gives it back without the dropped bytes and stops right behind it |
| JsonStrings.CleanIsWhole | misc/jstream.h:22-89 | cleaning leaves exactly the strings without droppable bytes unchanged and turns every string into one |
| JsonStrings.CleanTwice | misc/jstream.h:22-89 | cleaning twice is cleaning once |
| JsonStrings.Utf8Passes | misc/jstream.h:22-89 | text in UTF-8 passes unchanged if and only if it holds no control character without a short escape and no DEL |
| JsonStrings.EscapedCharacterRead | misc/jstream.h:570-610 | a character given by one escape or by a surrogate pair is read as its octets in UTF-8 |
| JsonOctets.Utf8Octets | misc/jstream.h:593-610 | a character is read into as few octets as can carry it, with the marks and bits of UTF-8 |
| JsonOctets.HexOctets | misc/jstream.h:574-581 | the digits of an escape, in either case |
| JsonOctets.EscapePairs | misc/jstream.h:583-592 | two escapes in a row stand for one character exactly if they are a high and a low half |
| JsonOctets.ShortEscapes | misc/jstream.h:30-37 | the seven short escapes as they are written and read, the escaped slash, and that nothing else is escaped |
| JsonOctets.StringOctets | misc/jstream.h:547-620 | a string ends at the first quote that is not escaped, and other octets stand for themselves |
| JsonOctets.CleanUtf8 | misc/jstream.h:39-85 | of a text in UTF-8 exactly the characters that cannot be expressed are dropped |
| JsonOctets.StrayDropped | misc/jstream.h:39-85 | an octet that begins no character is dropped by itself |
| JsonOctets.LenientEscapes | misc/jstream.h:574-583 | escapes that are not four digits are read as strtol reads them |
| JsonStrings.ParseString | misc/jstream.h:543-624 | finds the string literal at a place in the text and its length, or that there is none |
| JsonStrings.ScanSpace | misc/jstream.h:420-451 | skips white space |
| JsonWriters.Writer.PrintName | misc/jstream.h:1430-1447 | comma, line, indentation and name as the state of the block demands |
| JsonWriters.Writer.PrintIndent | misc/jstream.h:1303-1312 | two spaces for every open block |
| JsonWriters.Writer.PrintValue | misc/jstream.h:1343-1356 | a scalar with what sets it off, counted in its block |
| JsonWriters.Writer.StartBlock | misc/jstream.h:1358-1378 | opens a block |
| JsonWriters.Writer.EndBlock | misc/jstream.h:1380-1388 | closes a block, counted in the one around it |
| JsonWriters.Writer.Flush | misc/jstream.h:1396-1402 | ends an outermost value and starts afresh |
| JsonWriters.WriteValue | misc/jstream.h:1455-1483 | writing a tree block by block produces the text of the tree in any layout |
| JsonReaders.Reader.PushState | misc/jstream.h:668-688 | the stack of states, the key and the array flag after a push |
| JsonReaders.Reader.PopState | misc/jstream.h:690-716 | and after a pop |
| JsonReaders.Reader.Leave | misc/jstream.h:750-773 | closes a block and restores the key it was opened under |
| JsonReaders.Reader.TakeScalar | misc/jstream.h:876-903 | a number or a constant where one may stand, else an error |
| JsonReaders.Reader.TakeString | misc/jstream.h:835-874 | a key if a colon follows where a key may stand, else a string value |
| JsonReaders.Reader.TakeComma | misc/jstream.h:798-814 | ends the item before and goes on to the next |
| JsonReaders.Reader.NextEvent | misc/jstream.h:740-920 | one call is one step of the machine, for any text: the same event, end or error |
| JsonRoundTrip.ValueRead | misc/jstream.h:740-920 | from any point where a value is due, reading its text, with any white space between its tokens, reports exactly its events, with keys and paths, and stops behind it |
| JsonRoundTrip.ElementsRead | misc/jstream.h:798-834 | the elements of an array report their events in order, whatever white space is around them |
| JsonRoundTrip.MembersRead | misc/jstream.h:835-874 | the members of an object report key and value events in order, whatever white space is around name, colon and value |
| JsonRoundTrip.Closed | misc/jstream.h:750-797 | a closing bracket reports the end of its block under the block's own key and leaves the path as before |
| JsonRoundTrip.DocumentRead | misc/jstream.h:740-920 | the text of any array or object, in every layout, reports exactly its events and then the end, without an error |
| JsonRoundTrip.LaidRead | misc/jstream.h:740-920 | reading a text with any white space in front of, between and behind its tokens reports exactly the events of its value, and then the end |
| JsonReaderLaws.EndIff | misc/jstream.h:740-750 | the end is reported exactly when nothing but white space is left |
| JsonReaderLaws.ScalarRefused | misc/jstream.h:876-912 | a number or a word is refused unless in an array or behind a key |
| JsonReaderLaws.WordRefused | misc/jstream.h:884-905 | of words only null, false and true are taken |
| JsonReaderLaws.KeyRefused | misc/jstream.h:857-866 | a key in an array is refused, whatever white space is in front of its colon |
| JsonReaderLaws.BareKey | misc/jstream.h:798-803 | a comma right behind a key reports a null under that key |
| JsonReaderLaws.MissingComma | misc/jstream.h:876-883 | numbers in an array are read without a comma between them |
| JsonReaderLaws.CharacterClasses | misc/jstream.h:876-884 | which octets make up numbers and words |
| JsonReaderLaws.LayoutOctets | misc/jstream.h:1303-1388 | a value as the writer lays it out, on one line and spread out, octet by octet |
| JsonRoundTrip.NextAdvances | misc/jstream.h:740-920 | every event consumes some of the text, whatever the text |
| JsonDocuments.ReadAll | misc/jstream.h:1000-1014 | calling until there is no more event collects exactly the events of the text |
| JsonDocuments.SameEvents | misc/jstream.h:1000-1014 | the events up to the end are determined by the text |
| JsonDocuments.WriteAndRead | misc/jstream.h:1296-1483 | writing a tree and reading it back reports the events of the tree and no error |
| PicoJsonRoundTrip.CharsRead | misc/picojson.h:772-811 | any byte string comes back from its text |
| PicoJsonLayouts.NumberRead | misc/picojson.h:849-913 | a number's text is taken whole and nothing behind it |
| PicoJsonRoundTrip.BeforeIsStrict | misc/picojson.h:1005-1009 | member names are strictly and totally ordered |
| PicoJsonRoundTrip.InsertLast | misc/picojson.h:1005-1009 | members that come in order are kept in that order |
| PicoJsonRoundTrip.ValueRead | misc/picojson.h:574-632 | parsing the text of a value gives the value back, compact or spread out, and stops right behind it |
| PicoJsonRoundTrip.SerializedRead | misc/picojson.h:558-637 | so does parsing a serialised value, which leaves only the line end of the spread-out layout |
| PicoJsonLayouts.LaidRead | misc/picojson.h:813-921 | any text of a value, in any spelling and with any runs of octets 32, 9, 10 and 13 around its tokens, is read as that value, and reading stops right behind it |
| PicoJsonLayouts.AcceptedIff | misc/picojson.h:813-921 | the texts accepted are exactly those: white space, structure, and scalars spelled as the grammar says |
| PicoJsonLayouts.OthersRefused | misc/picojson.h:676-690 | any other octet below 32 in front of a value is refused |
| PicoJsonLayouts.SpaceIgnored | misc/picojson.h:676-690 | white space in front of any text makes no difference |
| PicoJsonGrammar.UnitRead | misc/picojson.h:731-811 | every spelling of a character, raw, by a short escape, by one \u escape or by a pair of them, is read as the bytes it stands for |
| PicoJsonGrammar.UnitFound | misc/picojson.h:731-811 | and there is no other spelling |
| PicoJsonGrammar.NumeralTaken | misc/picojson.h:849-867 | every number with sign, digits, point, fraction and exponent is taken whole |
| PicoJsonGrammar.NumeralFound | misc/picojson.h:849-867 | and no other text is taken for a number |
| PicoJsonLayouts.LastStays | misc/picojson.h:830-847 | of members of one name the last one stays |
| PicoJsonRoundTrip.BeforeOctets | misc/picojson.h:830-847 | names are in the order of their first differing octet, a name before its continuations |
| PicoJsonRoundTrip.CompactOctets | misc/picojson.h:558-637 | a value on one line, octet by octet |
| PicoJsonRoundTrip.LayoutOctets | misc/picojson.h:558-637 | and spread out |
| PicoJsonRoundTrip.ParsedWellFormed | misc/picojson.h:813-921 | any value read from any text has its members in order and no name twice |
| PicoJsonRoundTrip.ReadsAgain | misc/picojson.h:558-921 | serialising what was read from any text and reading it again gives the same value |
| PicoJsonInput.Input.Getc | misc/picojson.h:654-667 | takes one character, which can still be put back |
| PicoJsonInput.Input.Ungetc | misc/picojson.h:668-670 | puts it back |
| PicoJsonInput.Input.Expect | misc/picojson.h:691-698 | takes the expected character behind white space, or only the white space |
| PicoJsonInput.Input.Match | misc/picojson.h:699-707 | takes a word exactly when it is there |
| PicoJsonInput.Input.ParseCodePoint | misc/picojson.h:731-770 | one escape or a surrogate pair in UTF-8; a lone half is refused |
| PicoJsonInput.Input.ParseString | misc/picojson.h:772-811 | the string up to its closing quote, or failure |
| PicoJsonInput.Input.ParseNumber | misc/picojson.h:849-867 | the longest run of number characters |
| PicoJsonInput.Input.ParseItems | misc/picojson.h:813-828 | values with commas between them up to the bracket |
| PicoJsonInput.Input.ParseObject | misc/picojson.h:830-847 | members with commas between them up to the brace, each put in its place |
| PicoJsonInput.Input.ParseValue | misc/picojson.h:869-921 | the parser at work is the parsing function, on any text |
| PicoJsonInput.Parse | misc/picojson.h:1072-1090 | reads one value and reports where its text ends |
| Sha1Streaming.SHA1Context.Reset | serv/sha1.c:61-82 | the context is as good as new |
| Sha1Streaming.SHA1Context.ProcessMessageBlock | serv/sha1.c:230-314 | mixes a block into the hash by the compression function |
| Rotations.RotateLaw | serv/sha1.c:39-40 | rotating by one place is doubling with the carry coming round, and by n places doing so n times |
| Sha1Laws.ChooseLaw | serv/sha1.c:266-279 | the first rounds' function is c where b is set and d where it is not |
| Sha1Laws.MajorityLaw | serv/sha1.c:292-303 | the third rounds' function is what two of the three agree on, bit by bit |
| Sha1Laws.ParityLaw | serv/sha1.c:280-291 | the other rounds' function changes with every bit of each |
| Sha1Laws.RoundFunctions | serv/sha1.c:266-314 | which function each of the eighty rounds uses |
| Sha1Laws.Roots | serv/sha1.c:232-237 | the constants are 2^30 times the square roots of 2, 3, 5 and 10, cut off |
| Sha1Laws.InitialOctets | serv/sha1.c:61-82 | the first hash, octet by octet |
| Sha1Example.DigestOfAbc | serv/sha1.c:230-314 | the published hash of "abc", round by round |
| Sha1Example.OctetsOfAbc | serv/sha1.c:103-137 | and its twenty octets |
| Sha1Streaming.SHA1Context.Put | serv/sha1.c:185-186 | one more octet is held behind those taken in |
| Sha1Streaming.SHA1Context.AddLength | serv/sha1.c:188-197 | the two length words are eight times the octets taken in; the context is spoilt exactly at 2^61 octets |
| Sha1Streaming.SHA1Context.Input | serv/sha1.c:159-208 | takes in the octets unless the message gets too long or the result has been asked for; in between the block index is the length modulo 64 and the length words are eight times the length |
| Sha1Streaming.SHA1Context.PadMessage | serv/sha1.c:340-385 | leaves the hash folded over the padded message, in the one-block and the two-block case |
| Sha1Laws.PadLaw | serv/sha1.c:340-385 | behind the message stand 0x80, as few zeros as fill the block, and the length in bits |
| Sha1Streaming.LengthOctets | serv/sha1.c:372-382 | the two length words written octet by octet are the 64-bit length |
| Sha1Streaming.SHA1Context.Result | serv/sha1.c:103-137 | gives the digest of the whole message, again when asked again |
| Sha1Streaming.HashPieces | serv/sha1.c:159-208 | a message of fewer than 2^61 octets in any pieces has the digest of the message |
| Paths.NormalizePath | serv/misc.cpp:89-142 | computes the normal form, or none |
| Paths.FollowPath | serv/misc.cpp:94-122 | the stack of components is where the path leads, or it leads above the start |
| Paths.RefusedIff | serv/misc.cpp:92-111 | none if and only if the path is empty or some front part of it climbs above its start |
| Paths.NormalizedIsNormal | serv/misc.cpp:89-142 | otherwise the result begins with a slash, has neither two slashes in a row nor a NUL, has the components of the place the path leads to, none of them "." or "..", and normalising it again changes nothing |
| Paths.Taken | serv/misc.cpp:101-118 | wherever it stands, ".." takes back the component in front of it, and "." does nothing |
| Paths.CutOut | serv/misc.cpp:89-142 | a component with "/.." behind it, or a ".", may be cut out of any path without changing what normalising gives |
| Paths.PartsSum | serv/misc.cpp:94-100 | a slash parts the components and a NUL ends them |
| Paths.EndKept | serv/misc.cpp:130-139 | the result ends in a slash exactly if it is one or the path does |
| Paths.NormalIff | serv/misc.cpp:89-142 | the paths that normalising leaves as they are: exactly those that begin with a slash, have no two in a row and no NUL, and have no component "." or ".." |
| Paths.TidyParts | serv/misc.cpp:125-139 | such a path is its components with a slash in front of each, and the slash at its end if it has one |
| Base64.Base64Encode | serv/base64.cpp:35-65 | fills the destination with the encoding |
| Base64.Base64Decode | serv/base64.cpp:67-112 | decodes up to the first character that is neither a letter nor white space, and ends |
| Base64Spec.SpaceIgnored | serv/base64.cpp:76-79 | white space makes no difference, wherever it stands, for any text |
| Base64Spec.QuadRead | serv/base64.cpp:80-110 | a full or padded group of four letters gives its octets back |
| Base64Spec.RoundTrip | serv/base64.cpp:35-112 | decoding an encoding gives the octets back |
| Base64Spec.SpacedRoundTrip | serv/base64.cpp:67-112 | also with white space put in anywhere |
| Base64Spec.Encoded | serv/base64.cpp:39-40 | an encoding takes four letters for every three octets begun |
| Base64Spec.Alphabet | serv/base64.cpp:7-28 | six bits are the letter at their place among A to Z, a to z, 0 to 9, '+' and '/', and back |
| Base64Spec.QuadBits | serv/base64.cpp:46-63 | a group's letters are its octets' bits, six at a time, with zeros and '=' for what is missing |
| Base64Spec.BareRead | serv/base64.cpp:80-110 | a text that is cut off or ended by any foreign character gives all octets in front, those of an unpadded last group included |
| Base64Spec.BareIs | serv/base64.cpp:39-63 | an encoding is its letters and '=' behind them |
| Base64Spec.LoneLetter | serv/base64.cpp:94-108 | a letter left over by itself brings no octet |
| IntegerFormatter.FillDigits | misc/strformat.h:590-594 | the digits stand in front of the end of the buffer, at most twenty of them |
| IntegerFormatter.Magnitude | misc/strformat.h:584-589 | the magnitude is right for every value, the most negative included |
| IntegerFormatter.FormatSigned | misc/strformat.h:574-652 | a signed 32- or 64-bit integer as text, within the 30-byte buffer |
| IntegerFormatter.FormatUnsigned | misc/strformat.h:604-672 | an unsigned 32- or 64-bit integer as text, within the 30-byte buffer |
| IntegerFormatter.Lay | misc/strformat.h:1113-1133 | the parts make up the field; with zero padding the sign has moved to the front |
| IntegerText.FieldReadsBack | misc/strformat.h:1113-1133 | for every value, width and combination of flags the field is as wide as asked or needed and reads back as the value |
| IntegerText.NaturalOctets | misc/strformat.h:574-652 | '-' exactly if negative, '+' exactly if positive and asked for, no leading zero, and the last digit at the end |
| IntegerText.FieldOctets | misc/strformat.h:1113-1133 | the number at the left with blanks behind it, at the right with blanks in front, or with zeros behind its sign |
| IntegerFormatter.FormatField | misc/strformat.h:1113-1133 | so does what the formatter lays out in place |
| Arena.QuickAlloc.Carve | misc/strformat.h:145-152 | hands out the next piece of a block exactly when the block has room for it |
| Arena.QuickAlloc.Link | misc/strformat.h:175-180 | a new block joins the chain, which stays free of cycles |
| Arena.QuickAlloc.Alloc | misc/strformat.h:140-182 | a piece of at least the size asked for and less than sixteen bytes more is always handed out: from the first block if it has room, else from the second, else from a new block of 256 bytes that becomes the second, or from one it fills that becomes the third; all pieces ever handed out stay inside their blocks, at multiples of eight, and apart from each other |
| Arena.QuickAlloc.Release | misc/strformat.h:100-111 | gives back every heap block exactly once, and never the first |
| Arena.AllocAll | misc/strformat.h:140-182 | all of that for any number of requests |

## Left out

- FCGI_GET_VALUES: not modelled, because the padding of its answer is whatever the stack held and is no function of the input. Meeting it gives the ending NotModelled (fcgiapp.c:1462-1491), and the contracts of reading and accepting promise nothing of what comes from there on.
- Readers.Reader.ProcessManagementRecord: promises no answer to FCGI_GET_VALUES.
- Readers.Reader.Dispatch: passes FCGI_GET_VALUES on as an error of its own.
- Readers.Reader.ProcessHeader: the same.
- Readers.Reader.TakeHeader: closes the stream with the ending NotModelled there, where the source goes on.
- Readers.Reader.FillBuffProc: the same.
- Readers.Reader.GetChar: the end it reports there is that of the model.
- Readers.Reader.GetStr: the same.
- Accept.ReadStart: promises nothing of a wire where FCGI_GET_VALUES stands in front of BEGIN_REQUEST.
- Accept.ReadEnvironment: promises nothing of a wire where it stands among the parameters.
- Accept.AcceptRequest: promises nothing of either.
- RequestTheorems.PaddedBeginAccepted: padding that begins with the version octet is read as a record header of any kind; what comes of it is what Accept.Acceptable makes of the bytes RequestTheorems.BeginPaddingUnread names.
- RequestTheorems.RequestAccepted: the environment of a server's request holds the role and the parameters; the server's choice of parameters is left out.
- Errors of reads and writes other than the peer closing, timeouts, sockets, accepting connections, and the loop that accepts again after a refused request.
- FCGX_UnGetChar, FCGX_GetLine, FCGX_VFPrintF, FCGX_StartFilterData, FCGX_Free and the C++ stream buffer over the library.
- Accept.ReadText: the sum of the two lengths is not cut to the width of a C int, because the pairs are limited to lengths below 2^31 where the round trip is stated.
- Accept.BufferLength: where the allocator puts the buffer is a parameter, aligned or not.
- A server that fails to write part of a request: the source gives the request up, and no property of the exchange is left to state.
- Server.ReadResponse: the number of rounds is a parameter, because the source's loop need not end; logging of error output is left out.
- The server's choice of parameters and its parsing of the response headers.
- WebSocket pings: the code hands out the masked payload under the opcode of a pong and the caller ignores it; only its harmlessness is stated.
- The upgrade handshake, HTTP request parsing beyond lines, keep-alive decisions, response writing and chunked encoding.
- jstream: comments, unquoted keys, hexadecimal numbers, special constants, wildcard paths, hold and nest, and raw values; numbers are the text they are written as, never a value.
- jstream reads one character past its text in some malformed cases; the text is taken to end with a NUL there, as a std::string does.
- picojson: numbers are the text they are written as; that strtod takes such a text whole is modelled, its value is not. Line counting and the error text are left out.
- Sha1Streaming.SHA1Context.Result: the context's cleared block is not part of any statement, and the digest octets are taken from the hash words at once.
- Arena.QuickAlloc.Alloc: the bytes of the memory, and sizes so large that adding a header wraps around; malloc is taken to succeed.
- IntegerFormatter.Lay: the list of parts holds the parts themselves; the link fields and the allocator under them are left out.
- Octal, hexadecimal and floating-point formatting and the parser of format strings.
- Base64Spec.Encoded: the alphabet is given by ranges of letters, in place of the two tables.
- Copies of the same code elsewhere in the repository (app/fcgiapp.c, misc/base64.cpp, misc/myfcgi.c) are modelled once.
