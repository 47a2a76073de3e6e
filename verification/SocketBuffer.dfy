/** Lines and header blocks of an HTTP request, as functions of the bytes that
    are still to be consumed. */
module HttpLines {
  import opened Bytes

  const LINE_FEED: byte := 10
  const CARRIAGE_RETURN: byte := 13
  const MAX_LINE: nat := 8192
  const MAX_HEADER: nat := 65536

  /** A line without the white space at its end. */
  function TrimRight(s: seq<byte>): (t: seq<byte>)
    ensures t <= s && (t != [] ==> !IsSpace(t[|t| - 1]))
    ensures forall i :: |t| <= i < |s| ==> IsSpace(s[i])
  {
    if s != [] && IsSpace(s[|s| - 1]) then TrimRight(s[..|s| - 1]) else s
  }

  /** The place of the first line feed, or the length if there is none. */
  function FindLineFeed(d: seq<byte>): (k: nat)
    ensures k <= |d| && LINE_FEED !in d[..k]
    ensures k < |d| ==> d[k] == LINE_FEED
  {
    if d == [] || d[0] == LINE_FEED then 0 else 1 + FindLineFeed(d[1..])
  }

  lemma LineFeedAt(d: seq<byte>, k: nat)
    requires k <= |d| && LINE_FEED !in d[..k] && (k < |d| ==> d[k] == LINE_FEED)
    ensures FindLineFeed(d) == k
  {
  }

  /** A line feed that has been received is where the line ends; without one in
      MAX_LINE bytes, or in all there is, there is no line. */
  lemma LineInFront(held: seq<byte>, coming: seq<byte>)
    requires |held| <= MAX_LINE
    ensures var k := FindLineFeed(held);
            && (k < |held| ==> NextLine(held + coming) == Line(TrimRight(held[..k]), held[k + 1..] + coming))
            && (k == |held| && (|held| == MAX_LINE || coming == []) ==> NextLine(held + coming) == NoLine)
  {
    hide TrimRight, FindLineFeed;
    var k, d := FindLineFeed(held), held + coming;
    FirstStays(held, coming);
    if k < |held| {
      assert d[..k] == held[..k] && d[k + 1..] == held[k + 1..] + coming;
    } else if coming == [] {
      assert d == held;
    }
  }

  /** More bytes do not bring a line feed forward. */
  lemma FirstStays(held: seq<byte>, coming: seq<byte>)
    ensures var k, f := FindLineFeed(held), FindLineFeed(held + coming);
            f >= k && (k < |held| ==> f == k)
  {
    hide FindLineFeed;
    var k, d := FindLineFeed(held), held + coming;
    if k < |held| {
      assert d[..k] == held[..k];
      LineFeedAt(d, k);
    }
  }

  datatype Line = NoLine | Line(text: seq<byte>, rest: seq<byte>)

  /** The line d starts with. With its line feed it may take MAX_LINE bytes. */
  function NextLine(d: seq<byte>): Line {
    var k := FindLineFeed(d);
    if k < |d| && k < MAX_LINE then Line(TrimRight(d[..k]), d[k + 1..]) else NoLine
  }

  /** A header block: its lines, whether it is complete, and what follows. */
  datatype Header = Header(lines: seq<seq<byte>>, ok: bool, rest: seq<byte>) {
    function Prepend(line: seq<byte>): Header {
      this.(lines := [line] + lines)
    }
  }

  function ReadHeader(d: seq<byte>, total: nat): Header
    decreases |d|
  {
    match NextLine(d)
    case NoLine => Header([], false, d)
    case Line(text, rest) =>
      if text == [] then Header([], true, rest)
      else if total + |text| + 2 > MAX_HEADER then Header([], false, rest)
      else ReadHeader(rest, total + |text| + 2).Prepend(text)
  }

  // Any mix of reading lines and reading bytes.

  datatype Call = LineCall | ReadCall(n: nat)

  /** What some calls return, the bytes they consume, those that are left, and
      whether the connection holds. */
  datatype Played = Played(results: seq<seq<byte>>, taken: seq<byte>, rest: seq<byte>, connected: bool) {
    function After(result: seq<byte>, taken: seq<byte>, connected: bool): Played {
      Played([result] + results, taken + this.taken, rest, connected && this.connected)
    }
  }

  /** How many bytes one call consumes. */
  function Takes(d: seq<byte>, call: Call): (n: nat)
    ensures n <= |d|
  {
    match call
    case LineCall => if NextLine(d).Line? then FindLineFeed(d) + 1 else 0
    case ReadCall(n) => Min(n, |d|)
  }

  /** What one call returns: a line without its end, or the bytes it consumes. */
  function Returns(d: seq<byte>, call: Call): seq<byte> {
    match call
    case LineCall => if NextLine(d).Line? then NextLine(d).text else []
    case ReadCall(n) => d[..Min(n, |d|)]
  }

  /** Whether a call leaves the connection as it is. */
  predicate Holds(d: seq<byte>, call: Call) {
    match call
    case LineCall => NextLine(d).Line?
    case ReadCall(n) => |d| >= Max(n, 1)
  }

  function Play(d: seq<byte>, calls: seq<Call>): Played
    decreases |calls|
  {
    if calls == [] then Played([], [], d, true)
    else
      var n := Takes(d, calls[0]);
      Play(d[n..], calls[1..]).After(Returns(d, calls[0]), d[..n], Holds(d, calls[0]))
  }

  /** No byte is lost, repeated or moved, whatever is called. */
  lemma {:induction false} PlayConserves(d: seq<byte>, calls: seq<Call>)
    ensures Play(d, calls).taken + Play(d, calls).rest == d
    decreases |calls|
  {
    hide Takes, Returns, Holds;
    if calls == [] {
      assert [] + d == d;
    } else {
      var n := Takes(d, calls[0]);
      var p := Play(d[n..], calls[1..]);
      PlayConserves(d[n..], calls[1..]);
      ConcatAssociative(d[..n], p.taken, p.rest);
      assert d[..n] + d[n..] == d;
    }
  }

  /** Lines, each with its line feed. */
  function JoinLines(lines: seq<seq<byte>>): seq<byte> {
    if lines == [] then [] else lines[0] + [LINE_FEED] + JoinLines(lines[1..])
  }

  function LineCalls(n: nat): seq<Call> {
    if n == 0 then [] else [LineCall] + LineCalls(n - 1)
  }

  function TrimAll(lines: seq<seq<byte>>): seq<seq<byte>> {
    if lines == [] then [] else [TrimRight(lines[0])] + TrimAll(lines[1..])
  }

  /** Reading lines returns the lines there are, one after the other, without
      the white space at their ends, if each fits with its line feed. */
  lemma {:induction false} LinesInOrder(lines: seq<seq<byte>>, tail: seq<byte>)
    requires forall i :: 0 <= i < |lines| ==> LINE_FEED !in lines[i] && |lines[i]| < MAX_LINE
    ensures Play(JoinLines(lines) + tail, LineCalls(|lines|)) == Played(TrimAll(lines), JoinLines(lines), tail, true)
    decreases |lines|
  {
    hide TrimRight, Takes, Returns, Holds;
    if lines == [] {
      assert [] + tail == tail;
    } else {
      var rest := JoinLines(lines[1..]) + tail;
      ConcatAssociative(lines[0] + [LINE_FEED], JoinLines(lines[1..]), tail);
      OneLine(lines[0], rest);
      LinesInOrder(lines[1..], tail);
      assert LineCalls(|lines|)[1..] == LineCalls(|lines| - 1);
    }
  }

  lemma OneLine(line: seq<byte>, rest: seq<byte>)
    requires LINE_FEED !in line && |line| < MAX_LINE
    ensures var d := line + [LINE_FEED] + rest;
            && Takes(d, LineCall) == |line| + 1 && Returns(d, LineCall) == TrimRight(line) && Holds(d, LineCall)
            && d[..|line| + 1] == line + [LINE_FEED] && d[|line| + 1..] == rest
  {
    hide TrimRight, FindLineFeed;
    var d, k := line + [LINE_FEED] + rest, |line|;
    assert d[..k] == line;
    LineFeedAt(d, k);
  }

  /** A line that means what it says: something, on one line, up to its last character. */
  ghost predicate Proper(line: seq<byte>) {
    line != [] && LINE_FEED !in line && !IsSpace(line[|line| - 1])
  }

  const END_OF_LINE: seq<byte> := [CARRIAGE_RETURN, LINE_FEED]

  function WriteHeader(lines: seq<seq<byte>>): seq<byte> {
    if lines == [] then END_OF_LINE else lines[0] + END_OF_LINE + WriteHeader(lines[1..])
  }

  function HeaderSize(lines: seq<seq<byte>>): nat {
    if lines == [] then 0 else |lines[0]| + 2 + HeaderSize(lines[1..])
  }

  ghost predicate AllProper(lines: seq<seq<byte>>) {
    forall i :: 0 <= i < |lines| ==> Proper(lines[i])
  }

  ghost predicate LinesFit(lines: seq<seq<byte>>) {
    forall i :: 0 <= i < |lines| ==> |lines[i]| + 2 <= MAX_LINE
  }

  lemma LineRead(line: seq<byte>, rest: seq<byte>)
    requires line == [] || Proper(line)
    ensures NextLine(line + END_OF_LINE + rest) == if |line| + 2 <= MAX_LINE then Line(line, rest) else NoLine
  {
    var d, k := line + END_OF_LINE + rest, |line| + 1;
    assert d[..k] == line + [CARRIAGE_RETURN] && d[k + 1..] == rest;
    LineFeedAt(d, k);
    var s := line + [CARRIAGE_RETURN];
    assert s[..|s| - 1] == line;
    assert TrimRight(line) == line;
  }

  /** The limits and the white space, in numbers: a line with its end takes
      8192 bytes, a header block 65536. */
  lemma HeaderNumbers(lines: seq<seq<byte>>, c: byte)
    ensures LinesFit(lines) <==> forall i :: 0 <= i < |lines| ==> |lines[i]| <= 8190
    ensures MAX_LINE == 8192 && MAX_HEADER == 65536 && END_OF_LINE == [13, 10]
    ensures IsSpace(c) <==> c in {9, 10, 11, 12, 13, 32}
  {
  }

  /** A header block that was written is read back line by line, and what
      follows it is left alone, exactly if it keeps to the two limits. */
  lemma {:induction false} HeaderRoundTrip(lines: seq<seq<byte>>, total: nat, body: seq<byte>)
    requires AllProper(lines)
    ensures var h := ReadHeader(WriteHeader(lines) + body, total);
            && (h.ok <==> LinesFit(lines) && (lines == [] || total + HeaderSize(lines) <= MAX_HEADER))
            && (h.ok ==> h == Header(lines, true, body))
  {
    hide NextLine, END_OF_LINE, IsSpace;
    if lines == [] {
      LineRead([], body);
      assert [] + END_OF_LINE + body == END_OF_LINE + body;
    } else {
      var line, tail := lines[0], WriteHeader(lines[1..]) + body;
      LineRead(line, tail);
      ConcatAssociative(line + END_OF_LINE, WriteHeader(lines[1..]), body);
      if |line| + 2 <= MAX_LINE && total + |line| + 2 <= MAX_HEADER {
        HeaderRoundTrip(lines[1..], total + |line| + 2, body);
        assert lines == [line] + lines[1..];
        assert LinesFit(lines) <==> LinesFit(lines[1..]);
        assert lines[1..] == [] ==> HeaderSize(lines[1..]) == 0;
      }
    }
  }
}

/** The receive buffer of an HTTP connection. */
module SocketBuffers {
  import opened Bytes
  import opened Connections
  import opened HttpLines

  class SocketBuffer {
    const sock: Connection
    // [offset, length) has been received and not consumed
    var buffer: array<byte>
    var length: nat
    var offset: nat
    var connected: bool

    ghost predicate Valid()
      reads this
    {
      offset <= length <= buffer.Length <= MAX_LINE
    }

    /** What has been received and not consumed. */
    ghost function Held(): seq<byte>
      requires Valid()
      reads this, buffer
    {
      buffer[offset..length]
    }

    /** All that is still to be consumed, received or not. */
    ghost function Data(): seq<byte>
      requires Valid()
      reads this, buffer, sock
    {
      Held() + sock.incoming
    }

    constructor (sock: Connection)
      ensures Valid() && fresh(buffer) && connected && Data() == sock.incoming && this.sock == sock
    {
      this.sock := sock;
      buffer := new byte[0];
      length, offset, connected := 0, 0, true;
    }

    /** Moves what is not consumed to the front of the buffer. */
    method MoveToFront()
      requires Valid()
      modifies this`length, this`offset, buffer
      ensures Valid() && offset == 0 && length == old(length - offset)
      ensures buffer[..length] == old(buffer[offset..length])
    {
      var n := length - offset;
      for i := 0 to n
        invariant length == old(length) && offset == old(offset)
        invariant forall j :: 0 <= j < i ==> buffer[j] == old(buffer[offset + j])
        invariant forall j :: offset + i <= j < length ==> buffer[j] == old(buffer[j])
      {
        buffer[i] := buffer[offset + i];
      }
      length := n;
      offset := 0;
    }

    /** Gives the buffer a larger size; what it holds stays. */
    method Resize(size: nat)
      requires Valid() && offset == 0 && buffer.Length <= size <= MAX_LINE
      modifies this`buffer
      ensures Valid() && fresh(buffer) && buffer.Length == size && buffer[..length] == old(buffer[..length])
    {
      var larger := new byte[size](_ => 0);
      for i := 0 to length
        invariant buffer == old(buffer) && Valid()
        invariant larger[..i] == buffer[..i]
      {
        larger[i] := buffer[i];
      }
      buffer := larger;
    }

    /** Appends what the connection brings; false when nothing more comes. */
    method Receive() returns (ok: bool)
      requires Valid() && offset == 0 && length < buffer.Length
      modifies this`length, this`connected, buffer, sock`incoming
      ensures Valid() && Data() == old(Data()) && length >= old(length)
      ensures ok <==> old(sock.incoming) != []
      ensures connected == (ok && old(connected))
      ensures ok ==> |sock.incoming| < |old(sock.incoming)| && length > 0
      ensures !ok ==> length == old(length) && sock.incoming == []
    {
      var bytes := sock.Receive(buffer.Length - length);
      if bytes == [] {
        connected := false;
        return false;
      }
      ghost var held, wire := buffer[..length], sock.incoming;
      for i := 0 to |bytes|
        invariant length == old(length) && connected == old(connected) && sock.incoming == wire
        invariant buffer[..length + i] == held + bytes[..i]
      {
        buffer[length + i] := bytes[i];
      }
      length := length + |bytes|;
      assert bytes[..|bytes|] == bytes && buffer[offset..length] == buffer[..length];
      ConcatAssociative(held, bytes, wire);
      return true;
    }

    /** Makes room for at least one more byte. */
    method MakeRoom()
      requires Valid() && 0 < buffer.Length && length - offset < MAX_LINE
      modifies this`length, this`offset, this`buffer, buffer
      ensures Valid() && offset == 0 && length < buffer.Length && (buffer == old(buffer) || fresh(buffer))
      ensures buffer[..length] == old(buffer[offset..length])
    {
      MoveToFront();
      if length >= buffer.Length {
        Resize(Min(buffer.Length * 2, MAX_LINE));
      }
    }

    /** Where the unconsumed part of the buffer has its first line feed; length if nowhere. */
    method SearchLineFeed() returns (i: nat)
      requires Valid()
      ensures offset <= i <= length && i - offset == FindLineFeed(buffer[offset..length])
    {
      i := offset;
      while i < length && buffer[i] != LINE_FEED
        invariant offset <= i <= length
        invariant LINE_FEED !in buffer[offset..i]
      {
        i := i + 1;
      }
      ghost var d := buffer[offset..length];
      assert d[..i - offset] == buffer[offset..i];
      LineFeedAt(d, i - offset);
    }

    /** The bytes from left to right without white space at the end. */
    method Trimmed(left: nat, end: nat) returns (line: seq<byte>)
      requires left <= end <= buffer.Length
      ensures line == TrimRight(buffer[left..end])
    {
      var right := end;
      while left < right && IsSpace(buffer[right - 1])
        invariant left <= right <= end
        invariant TrimRight(buffer[left..right]) == TrimRight(buffer[left..end])
      {
        assert buffer[left..right][..right - left - 1] == buffer[left..right - 1];
        right := right - 1;
      }
      return buffer[left..right];
    }

    lemma Cut(b: array<byte>, left: nat, mid: nat, end: nat)
      requires left <= mid <= end <= b.Length
      ensures b[left..end][..mid - left] == b[left..mid] && b[left..end][mid - left..] == b[mid..end]
    {
    }

    /** Consumes a line that has been received in full. */
    method TakeLine() returns (found: bool, line: seq<byte>)
      requires Valid()
      modifies this`offset
      ensures Valid()
      ensures found ==> NextLine(old(Data())) == Line(line, Data())
      ensures !found ==>
                && offset == old(offset)
                && (length - offset == MAX_LINE || sock.incoming == [] ==> NextLine(Data()) == NoLine)
    {
      hide NextLine, TrimRight, FindLineFeed;
      var i := SearchLineFeed();
      LineAhead(i);
      if i == length {
        return false, [];
      }
      line := Trimmed(offset, i);
      offset := i + 1;
      return true, line;
    }

    lemma LineAhead(i: nat)
      requires Valid() && offset <= i <= length && i - offset == FindLineFeed(buffer[offset..length])
      ensures i < length ==>
                NextLine(Data()) == Line(TrimRight(buffer[offset..i]), buffer[i + 1..length] + sock.incoming)
      ensures i == length && (length - offset == MAX_LINE || sock.incoming == []) ==> NextLine(Data()) == NoLine
    {
      hide NextLine, TrimRight, FindLineFeed;
      LineInFront(buffer[offset..length], sock.incoming);
      Cut(buffer, offset, i, length);
      if i < length {
        Cut(buffer, offset, i + 1, length);
      }
    }

    /** The next line, however it arrives; without one of an acceptable length
        the connection is given up. */
    method Readline() returns (line: seq<byte>)
      requires Valid()
      modifies this, buffer, sock`incoming
      ensures Valid() && (buffer == old(buffer) || fresh(buffer))
      ensures match NextLine(old(Data()))
              case NoLine => line == [] && !connected && Data() == old(Data())
              case Line(text, rest) => line == text && connected == old(connected) && Data() == rest
    {
      hide NextLine;
      if buffer.Length == 0 {
        Resize(1024);
      }
      while true
        invariant Valid() && buffer.Length > 0 && (buffer == old(buffer) || fresh(buffer))
        invariant Data() == old(Data()) && connected == old(connected)
        decreases |sock.incoming|
      {
        var found;
        found, line := TakeLine();
        if found {
          return;
        }
        if length - offset >= MAX_LINE {
          connected := false;
          return [];
        }
        MakeRoom();
        var received := Receive();
        if !received {
          return [];
        }
      }
    }

    /** Takes received bytes out of the buffer, as many as there are and at most maxlen. */
    method TakeBytes(maxlen: nat) returns (bytes: seq<byte>)
      requires Valid()
      modifies this`offset, this`length, buffer
      ensures Valid() && old(Data()) == bytes + Data() && |bytes| == Min(maxlen, old(length - offset))
      ensures offset == 0 && length == old(length - offset) - |bytes|
    {
      ghost var data := Data();
      var n := Min(length - offset, maxlen);
      bytes := buffer[offset..offset + n];
      assert buffer[offset..length] == bytes + buffer[offset + n..length];
      ConcatAssociative(bytes, buffer[offset + n..length], sock.incoming);
      offset := offset + n;
      MoveToFront();
    }

    /** The next n bytes, fewer only when the connection ends before. */
    method Read(maxlen: nat) returns (out: seq<byte>)
      requires Valid()
      modifies this, buffer, sock`incoming
      ensures Valid() && (buffer == old(buffer) || fresh(buffer))
      ensures old(Data()) == out + Data() && |out| == Min(maxlen, |old(Data())|)
      ensures connected <==> old(connected) && old(|Data()|) >= Max(maxlen, 1)
    {
      out := [];
      var remaining := maxlen;
      if buffer.Length == 0 {
        Resize(4096);
      }
      ghost var data := Data();
      assert [] + data == data;
      while true
        invariant Valid() && buffer.Length > 0 && (buffer == old(buffer) || fresh(buffer))
        invariant data == out + Data() && |out| + remaining == maxlen && remaining >= 0
        invariant remaining == 0 ==> maxlen == 0
        invariant connected == old(connected)
        decreases |Data()| + |sock.incoming|
      {
        if offset < length {
          if remaining == 0 {
            break;
          }
          var end := length - offset >= remaining;
          var bytes := TakeBytes(remaining);
          remaining := remaining - |bytes|;
          ConcatAssociative(out, bytes, Data());
          out := out + bytes;
          if end {
            break;
          }
        } else {
          length, offset := 0, 0;
        }
        var received := Receive();
        if !received {
          return;
        }
      }
    }

    /** One call. */
    method PerformOne(call: Call) returns (result: seq<byte>)
      requires Valid()
      modifies this, buffer, sock`incoming
      ensures Valid() && (buffer == old(buffer) || fresh(buffer))
      ensures var d := old(Data());
              && result == Returns(d, call) && Data() == d[Takes(d, call)..]
              && connected == (old(connected) && Holds(d, call))
    {
      ghost var d := Data();
      match call {
        case LineCall =>
          hide TrimRight, FindLineFeed;
          result := Readline();
        case ReadCall(n) =>
          result := Read(n);
          assert d[|result|..] == Data() && d[..|result|] == result;
      }
    }

    /** Any sequence of calls returns what the bytes ahead decide, however they arrive. */
    method Perform(calls: seq<Call>) returns (results: seq<seq<byte>>)
      requires Valid()
      modifies this, buffer, sock`incoming
      ensures Valid() && (buffer == old(buffer) || fresh(buffer))
      ensures var p := Play(old(Data()), calls);
              results == p.results && Data() == p.rest && connected == (old(connected) && p.connected)
    {
      hide Takes, Returns, Holds;
      results := [];
      ghost var all := Play(Data(), calls);
      assert [] + all.results == all.results;
      for i := 0 to |calls|
        invariant Valid() && (buffer == old(buffer) || fresh(buffer))
        invariant var p := Play(Data(), calls[i..]);
                  && all.results == results + p.results && all.rest == p.rest
                  && (connected && p.connected) == (old(connected) && all.connected)
      {
        assert calls[i..][0] == calls[i] && calls[i..][1..] == calls[i + 1..];
        ghost var before := results;
        var result := PerformOne(calls[i]);
        results := results + [result];
        ConcatAssociative(before, [result], Play(Data(), calls[i + 1..]).results);
      }
      assert results + [] == results;
    }
  }
}

/** The connection loop's use of the buffer. */
module HttpRequests {
  import opened Bytes
  import opened HttpLines
  import opened SocketBuffers

  /** Reads the header lines of a request up to the empty line. */
  method ReadRequestHeader(sockbuff: SocketBuffer) returns (header: seq<seq<byte>>, badRequest: bool)
    requires sockbuff.Valid() && sockbuff.connected
    modifies sockbuff, sockbuff.buffer, sockbuff.sock`incoming
    ensures sockbuff.Valid()
    ensures var h := ReadHeader(old(sockbuff.Data()), 0);
            header == h.lines && badRequest == !h.ok && sockbuff.connected == h.ok && sockbuff.Data() == h.rest
  {
    hide NextLine;
    header, badRequest := [], false;
    var total: nat := 0;
    ghost var all := ReadHeader(sockbuff.Data(), 0);
    while true
      invariant sockbuff.Valid() && sockbuff.connected && !badRequest
      invariant sockbuff.buffer == old(sockbuff.buffer) || fresh(sockbuff.buffer)
      invariant var h := ReadHeader(sockbuff.Data(), total); all == h.(lines := header + h.lines)
      decreases |sockbuff.Data()|
    {
      ghost var before, h := header, ReadHeader(sockbuff.Data(), total);
      LineShorter(sockbuff.Data());
      assert header + [] == header;
      var line := sockbuff.Readline();
      if line == [] {
        badRequest := !sockbuff.connected;
        return;
      }
      total := total + |line| + 2;
      if total > MAX_HEADER {
        badRequest := true;
        sockbuff.connected := false;
        return;
      }
      header := header + [line];
      ConcatAssociative(before, [line], ReadHeader(sockbuff.Data(), total).lines);
    }
  }

  lemma LineShorter(d: seq<byte>)
    ensures NextLine(d).Line? ==> |NextLine(d).rest| < |d|
  {
  }

  /** Skips a request body nobody has read: the next request is next. */
  method DiscardContent(sockbuff: SocketBuffer, contentLength: nat)
    requires sockbuff.Valid() && sockbuff.connected
    modifies sockbuff, sockbuff.buffer, sockbuff.sock`incoming
    ensures sockbuff.Valid()
    ensures sockbuff.connected <==> |old(sockbuff.Data())| >= contentLength
    ensures sockbuff.Data() == old(sockbuff.Data())[Min(contentLength, |old(sockbuff.Data())|)..]
  {
    var remaining := contentLength;
    ghost var data := sockbuff.Data();
    while remaining > 0 && sockbuff.connected
      invariant sockbuff.Valid() && 0 <= remaining <= contentLength
      invariant sockbuff.buffer == old(sockbuff.buffer) || fresh(sockbuff.buffer)
      invariant sockbuff.connected ==>
                  contentLength - remaining <= |data| && sockbuff.Data() == data[contentLength - remaining..]
      invariant !sockbuff.connected ==> |data| < contentLength && sockbuff.Data() == []
      decreases sockbuff.connected, remaining
    {
      ghost var ahead, done := sockbuff.Data(), contentLength - remaining;
      var discard := sockbuff.Read(Min(remaining, 65536));
      assert sockbuff.Data() == ahead[|discard|..] == data[done..][|discard|..];
      if discard == [] {
        sockbuff.connected := false;
        return;
      }
      remaining := remaining - |discard|;
    }
  }
}
