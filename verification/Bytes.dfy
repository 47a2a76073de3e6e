/** Octets, and the byte connection two processes talk over. */
module Bytes {

  type byte = x: int | 0 <= x < 256

  datatype Option<+T> = None | Some(value: T)

  // isspace and isdigit in the C locale

  predicate IsSpace(c: byte) {
    c == 0x20 || 9 <= c <= 13
  }

  predicate IsDigit(c: byte) {
    0x30 <= c <= 0x39
  }

  /** The two low-order octets of n, most significant first. */
  function BigEndian16(n: nat): (s: seq<byte>)
    ensures |s| == 2
  {
    [(n / 0x100) % 0x100, n % 0x100]
  }

  function FromBigEndian16(hi: byte, lo: byte): nat {
    hi * 0x100 + lo
  }

  lemma BigEndian16RoundTrip(n: nat)
    requires n < 0x10000
    ensures FromBigEndian16(BigEndian16(n)[0], BigEndian16(n)[1]) == n
  {
  }

  /** The octets of a string of characters below 256. */
  function Ascii(s: string): (b: seq<byte>)
    ensures |b| == |s|
  {
    seq(|s|, i requires 0 <= i < |s| => s[i] as int % 0x100)
  }

  /** The least multiple of eight that is at least n. */
  function AlignInt8(n: nat): (m: nat)
    ensures m % 8 == 0 && n <= m < n + 8
  {
    (n + 7) / 8 * 8
  }

  /** n zero octets. */
  function Zeros(n: nat): (s: seq<byte>)
    ensures |s| == n
    ensures forall i :: 0 <= i < n ==> s[i] == 0
  {
    seq(n, _ => 0)
  }

  lemma ConcatAssociative<T>(a: seq<T>, b: seq<T>, c: seq<T>)
    ensures a + b + c == a + (b + c)
  {
  }

  function Flatten<T>(pieces: seq<seq<T>>): seq<T> {
    if pieces == [] then [] else pieces[0] + Flatten(pieces[1..])
  }

  lemma {:induction false} FlattenSnoc<T>(pieces: seq<seq<T>>, last: seq<T>)
    ensures Flatten(pieces + [last]) == Flatten(pieces) + last
  {
    if pieces == [] {
      assert [last][1..] == [] && [] + [last] == [last];
      assert last + [] == [] + last;
    } else {
      assert (pieces + [last])[1..] == pieces[1..] + [last];
      FlattenSnoc(pieces[1..], last);
      ConcatAssociative(pieces[0], Flatten(pieces[1..]), last);
    }
  }

  /** The number whose octets, most significant first, are s. */
  function BigEndian(s: seq<byte>): nat {
    if s == [] then 0 else BigEndian(s[..|s| - 1]) * 0x100 + s[|s| - 1]
  }

  /** The low-order k octets of n, most significant first. */
  function Octets(n: nat, k: nat): (s: seq<byte>)
    ensures |s| == k
  {
    if k == 0 then [] else Octets(n / 0x100, k - 1) + [n % 0x100]
  }

  function Power256(k: nat): (p: nat)
    ensures p >= 1
  {
    if k == 0 then 1 else 0x100 * Power256(k - 1)
  }

  lemma {:induction false} OctetsRoundTrip(n: nat, k: nat)
    requires n < Power256(k)
    ensures BigEndian(Octets(n, k)) == n
  {
    if k > 0 {
      OctetsRoundTrip(n / 0x100, k - 1);
      var s := Octets(n, k);
      assert s[..|s| - 1] == Octets(n / 0x100, k - 1);
    }
  }

  function Min(a: int, b: int): (m: int)
    ensures m == a || m == b
    ensures m <= a && m <= b
  {
    if a < b then a else b
  }

  function Max(a: int, b: int): (m: int)
    ensures m == a || m == b
    ensures m >= a && m >= b
  {
    if a > b then a else b
  }
}

/** A connected stream socket as one process sees it. How many bytes one
    system call moves is left open: any count of at least one is possible. */
module Connections {
  import opened Bytes

  class Connection {
    // bytes the peer has sent and this side has not read yet
    var incoming: seq<byte>
    // bytes this side has written
    var outgoing: seq<byte>

    constructor (pending: seq<byte>)
      ensures incoming == pending && outgoing == []
    {
      incoming, outgoing := pending, [];
    }

    /** Moves at least one byte, and at most as many as fit, into buf; the
        count is zero exactly when the peer has closed its side. */
    method Read(buf: array<byte>) returns (count: nat)
      requires buf.Length > 0
      modifies this`incoming, buf
      ensures count == 0 <==> old(incoming) == []
      ensures count <= buf.Length && count <= |old(incoming)|
      ensures buf[..count] == old(incoming)[..count]
      ensures incoming == old(incoming)[count..]
    {
      if incoming == [] {
        return 0;
      }
      count :| 1 <= count <= buf.Length && count <= |incoming|;
      for i := 0 to count
        invariant incoming == old(incoming)
        invariant buf[..i] == incoming[..i]
      {
        buf[i] := incoming[i];
      }
      incoming := incoming[count..];
    }

    /** The next bytes, at least one and at most max, or none when the peer has
        closed its side. */
    method Receive(max: nat) returns (bytes: seq<byte>)
      requires max > 0
      modifies this`incoming
      ensures bytes == [] <==> old(incoming) == []
      ensures |bytes| <= max && old(incoming) == bytes + incoming
    {
      if incoming == [] {
        return [];
      }
      var count :| 1 <= count <= max && count <= |incoming|;
      bytes := incoming[..count];
      incoming := incoming[count..];
    }

    /** Appends between one and all of the given bytes to what was sent. */
    method Write(bytes: seq<byte>) returns (count: nat)
      requires bytes != []
      modifies this`outgoing
      ensures 1 <= count <= |bytes|
      ensures outgoing == old(outgoing) + bytes[..count]
    {
      count :| 1 <= count <= |bytes|;
      outgoing := outgoing + bytes[..count];
    }

    /** Writes all of bytes, however few each system call takes. */
    method WriteAll(bytes: seq<byte>)
      modifies this`outgoing
      ensures outgoing == old(outgoing) + bytes
    {
      var buf := bytes;
      while buf != []
        invariant outgoing + buf == old(outgoing) + bytes
        decreases |buf|
      {
        var wrote := Write(buf);
        assert buf == buf[..wrote] + buf[wrote..];
        buf := buf[wrote..];
      }
    }
  }
}
