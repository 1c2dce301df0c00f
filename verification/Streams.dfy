/**
 The byte stream of an install session: a socket that hands out its bytes in pieces of any size, and
 the buffered reader that carries both the header and the image body.
 */
module Streams {
  import opened Bytes

  datatype IoErr = NoErr | Eof | Failed

  /** The socket. `pending` is everything the host will still send. */
  class Conn {
    var pending: seq<byte>
    /** How many more reads may return nothing without an error. */
    var stalls: nat
    /** No read fails or comes back empty before the end. */
    const reliable: bool

    constructor (pending: seq<byte>, stalls: nat, reliable: bool)
      ensures this.pending == pending && this.stalls == stalls && this.reliable == reliable
    {
      this.pending, this.stalls, this.reliable := pending, stalls, reliable;
    }

    /** One read of at most `max` bytes: any part of what is pending, with or without an error. */
    method Read(max: nat) returns (bs: seq<byte>, err: IoErr)
      requires max > 0
      modifies this
      ensures old(pending) == bs + pending && |bs| <= max
      ensures stalls <= old(stalls) && (bs == [] && err == NoErr ==> stalls < old(stalls))
      ensures err == Eof ==> pending == []
      ensures reliable ==> err != Failed && (err == NoErr ==> bs != []) && (old(pending) != [] ==> bs != [])
    {
      var n: nat := *;
      var e: IoErr := *;
      n := Clamp(n, max, |pending|);
      if reliable && pending != [] && n == 0 {
        n := 1;
      }
      bs, pending := pending[..n], pending[n..];
      if (e == Eof && pending != []) || (reliable && e == Failed) {
        e := NoErr;
      }
      if bs == [] && e == NoErr {
        if pending == [] {
          e := Eof;
        } else if stalls == 0 {
          e := Failed;
        } else {
          stalls := stalls - 1;
        }
      }
      err := e;
    }
  }

  function Clamp(n: nat, a: nat, b: nat): (m: nat)
    ensures m <= a && m <= b
  {
    if n <= a && n <= b then n else if a <= b then a else b
  }

  /** The position of the first newline, or the length when there is none. */
  function NewlineAt(s: seq<byte>): (k: nat)
    ensures k <= |s| && (k < |s| ==> s[k] == 10)
    ensures forall i :: 0 <= i < k ==> s[i] != 10
  {
    if s == [] || s[0] == 10 then 0 else 1 + NewlineAt(s[1..])
  }

  const MAX_EMPTY_READS := 100

  /** A buffered reader: what it has taken from the socket and not yet handed out, and the error
      the socket gave with it. */
  class BufReader {
    const conn: Conn
    const size: nat
    var buf: seq<byte>
    var err: IoErr

    constructor (conn: Conn, size: nat)
      requires size > 0
      ensures this.conn == conn && this.size == size && buf == [] && err == NoErr
    {
      this.conn, this.size := conn, size;
      buf, err := [], NoErr;
    }

    ghost predicate Valid()
      reads this, conn
    {
      size > 0 && |buf| <= size
      && (err == Eof ==> conn.pending == []) && (conn.reliable ==> err != Failed)
    }

    /** Everything that is still to be read through this reader. */
    ghost function Rest(): seq<byte>
      reads this, conn
    {
      buf + conn.pending
    }

    /** Take more bytes from the socket into the buffer, giving up after 100 empty reads. */
    method Fill()
      requires Valid() && |buf| < size && err == NoErr
      modifies this, conn
      ensures Valid() && Rest() == old(Rest()) && old(buf) <= buf
      ensures conn.stalls <= old(conn.stalls)
      ensures err != NoErr || |conn.pending| < old(|conn.pending|)
    {
      for i := 0 to MAX_EMPTY_READS
        invariant Valid() && Rest() == old(Rest()) && buf == old(buf) && err == NoErr
        invariant conn.pending == old(conn.pending) && conn.stalls <= old(conn.stalls)
        invariant conn.reliable ==> i == 0
      {
        var bs, e := conn.Read(size - |buf|);
        assert buf + (bs + conn.pending) == (buf + bs) + conn.pending;
        buf, err := buf + bs, e;
        if e != NoErr || bs != [] {
          return;
        }
        assert buf == old(buf);
      }
      err := Failed;
    }

    /** `ReadString('\\n')`: the line with its newline, or what was left and the error. */
    method ReadLine() returns (line: seq<byte>, e: IoErr)
      requires Valid()
      modifies this, conn
      ensures Valid() && line + Rest() == old(Rest()) && conn.stalls <= old(conn.stalls)
      ensures e == NoErr <==> IsLine(line)
      ensures e != NoErr ==> NewlineAt(line) == |line|
      ensures conn.reliable && e != NoErr ==> Rest() == []
    {
      hide NewlineAt;
      line := [];
      NewlineEmpty();
      while true
        invariant Valid() && line + Rest() == old(Rest()) && conn.stalls <= old(conn.stalls)
        invariant NewlineAt(line) == |line|
        decreases |conn.pending|, if err == NoErr then 1 else 0
      {
        var k := NewlineAt(buf);
        NewlineAppend(line, buf[..k]);
        NewlinePrefix(buf, k);
        if k < |buf| {
          assert line + (buf + conn.pending) == (line + buf[..k + 1]) + (buf[k + 1..] + conn.pending);
          NewlineAppend(line, buf[..k + 1]);
          NewlinePrefix(buf, k + 1);
          line := line + buf[..k + 1];
          buf := buf[k + 1..];
          return line, NoErr;
        }
        assert buf[..k] == buf;
        if err != NoErr {
          assert line + (buf + conn.pending) == (line + buf) + ([] + conn.pending);
          line, e := line + buf, err;
          buf, err := [], NoErr;
          return line, e;
        }
        if |buf| == size {
          assert line + (buf + conn.pending) == (line + buf) + ([] + conn.pending);
          line, buf := line + buf, [];
        }
        Fill();
      }
    }

    /** `Read`: at most `max` bytes; served from the buffer when it holds any, directly from the
        socket when the request is large, and otherwise after one refill. */
    method Read(max: nat) returns (bs: seq<byte>, e: IoErr)
      requires Valid() && max > 0
      modifies this, conn
      ensures Valid() && bs + Rest() == old(Rest()) && |bs| <= max
      ensures conn.stalls <= old(conn.stalls) && (bs == [] && e == NoErr ==> conn.stalls < old(conn.stalls))
      ensures e == Eof ==> Rest() == []
      ensures conn.reliable ==> e != Failed && (bs != [] || e != NoErr) && (old(Rest()) != [] ==> bs != [])
    {
      if buf == [] {
        if err != NoErr {
          e, err := err, NoErr;
          return [], e;
        }
        if max >= size {
          bs, e := conn.Read(max);
          assert buf + conn.pending == conn.pending;
          return bs, e;
        }
        var got, ge := conn.Read(size);
        if got == [] {
          return [], ge;
        }
        buf, err := got, ge;
      }
      var n := if max < |buf| then max else |buf|;
      assert buf + conn.pending == buf[..n] + (buf[n..] + conn.pending);
      bs, buf := buf[..n], buf[n..];
      return bs, NoErr;
    }
  }

  /** `t` is what is left of `s` after some first part of it was taken. */
  predicate IsRest(s: seq<byte>, t: seq<byte>) {
    |t| <= |s| && t == s[|s| - |t|..]
  }

  lemma RestOfAll(s: seq<byte>)
    ensures IsRest(s, s)
  {
  }

  lemma RestTransitive(s: seq<byte>, t: seq<byte>, u: seq<byte>)
    requires IsRest(s, t) && IsRest(t, u)
    ensures IsRest(s, u)
  {
  }

  lemma RestOfRest(s: seq<byte>, t: seq<byte>, taken: seq<byte>, u: seq<byte>)
    requires IsRest(s, t) && t == taken + u
    ensures IsRest(s, u)
  {
  }

  /** A line: it ends with the only newline in it. */
  predicate IsLine(line: seq<byte>) {
    line != [] && NewlineAt(line) == |line| - 1
  }

  lemma NewlineEmpty()
    ensures NewlineAt([]) == 0
  {
  }

  lemma NewlineAppend(a: seq<byte>, b: seq<byte>)
    requires NewlineAt(a) == |a|
    ensures NewlineAt(a + b) == |a| + NewlineAt(b)
  {
    var (s, k) := (a + b, NewlineAt(a + b));
    assert forall i :: 0 <= i < |a| ==> s[i] == a[i] != 10;
    assert forall i :: 0 <= i < |b| ==> s[|a| + i] == b[i];
    assert k >= |a|;
    assert k < |s| ==> s[k] == b[k - |a|];
  }

  lemma NewlinePrefix(s: seq<byte>, n: nat)
    requires n <= |s|
    ensures NewlineAt(s[..n]) == if NewlineAt(s) < n then NewlineAt(s) else n
  {
    var k := NewlineAt(s[..n]);
    assert forall i :: 0 <= i < n ==> s[..n][i] == s[i];
  }
}
