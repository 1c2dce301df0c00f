/**
 The image writer: stream an image onto a partition so that a crash or a bad transfer never leaves
 anything mountable, and prove afterwards that the device holds what was sent.
 */
module ImageWrite {
  import opened Bytes
  import opened Outcomes
  import opened Streams

  /** A digest in hex, and the digest function. */
  type Digest = seq<byte>
  type Sha = seq<byte> -> Digest

  /** The first `window` bytes, where the superblock lives, are zero. */
  predicate WindowZero(s: seq<byte>, window: nat) {
    window <= |s| && forall i :: 0 <= i < window ==> s[i] == 0
  }

  /** `s` is `m` but for the `len` bytes from `off` on. */
  predicate SameOutside(m: seq<byte>, s: seq<byte>, off: nat, len: nat) {
    |s| == |m| && forall i :: 0 <= i < |m| && !(off <= i < off + len) ==> s[i] == m[i]
  }

  /** `s` is `m` with some first part of `buf` written at `off`. */
  predicate PartWritten(m: seq<byte>, s: seq<byte>, off: nat, buf: seq<byte>) {
    s == m || exists k: nat | k <= |buf| :: off + k <= |m| && s == Patch(m, off, buf[..k])
  }

  // ----- the target

  /** What was asked of the device and what it reported. `upTo` is the length of the history after the write. */
  datatype Op = WriteOp(off: nat, bytes: seq<byte>, ok: bool, upTo: nat) | SyncOp(ok: bool)

  /** The partition. Any operation can fail, and a failing write can have written any first part of
      its bytes; a device that is not `faithful` may land other bytes than it was given, even when
      it reports success. `history` has the contents after every single byte that landed, `ops` every
      operation that can change the device; nothing but `WriteAt` and `Sync` extends them. */
  class Device {
    const data: array<byte>
    const faithful: bool
    const robust: bool
    ghost var history: seq<seq<byte>>
    ghost var ops: seq<Op>

    constructor (data: array<byte>, faithful: bool, robust: bool)
      ensures Valid() && this.data == data && this.faithful == faithful && this.robust == robust
      ensures history == [data[..]] && ops == []
    {
      this.data, this.faithful, this.robust := data, faithful, robust;
      history, ops := [data[..]], [];
    }

    ghost predicate Valid()
      reads this, data
    {
      history != [] && history[|history| - 1] == data[..]
    }

    /** `n` bytes land one by one: those of `buf`, if the device is faithful. */
    method Land(buf: seq<byte>, off: nat, n: nat)
      requires Valid() && n <= |buf| && (n > 0 ==> off + n <= data.Length)
      modifies this`history, data
      ensures Valid() && old(history) <= history
      ensures forall i | |old(history)| <= i < |history| ::
                && SameOutside(old(data[..]), history[i], off, |buf|)
                && (faithful ==> PartWritten(old(data[..]), history[i], off, buf))
      ensures SameOutside(old(data[..]), data[..], off, n)
      ensures faithful && n > 0 ==> data[..] == Patch(old(data[..]), off, buf[..n])
    {
      hide Patch;
      ghost var m := data[..];
      var honest := faithful;
      var i := 0;
      while i < n
        invariant i <= n
        invariant Valid() && old(history) <= history
        invariant SameOutside(m, data[..], off, i)
        invariant faithful ==> forall j :: 0 <= j < i ==> data[off + j] == buf[j]
        invariant forall j | |old(history)| <= j < |history| ::
                    SameOutside(m, history[j], off, |buf|) && (faithful ==> PartWritten(m, history[j], off, buf))
      {
        hide PartWritten;
        var other: nat := *;
        data[off + i] := if honest then buf[i] else other % 256;
        history := history + [data[..]];
        i := i + 1;
        if faithful {
          PartOf(m, data[..], off, buf, i);
        }
      }
      if faithful && n > 0 {
        PartOf(m, data[..], off, buf, n);
      }
    }

    method WriteAt(buf: seq<byte>, off: nat) returns (ok: bool)
      requires Valid()
      modifies this, data
      ensures Valid() && old(history) <= history && ops == old(ops) + [WriteOp(off, buf, ok, |history|)]
      ensures forall i | |old(history)| <= i < |history| ::
                && SameOutside(old(data[..]), history[i], off, |buf|)
                && (faithful ==> PartWritten(old(data[..]), history[i], off, buf))
      ensures SameOutside(old(data[..]), data[..], off, |buf|)
      ensures faithful ==> PartWritten(old(data[..]), data[..], off, buf)
      ensures ok ==> off + |buf| <= data.Length
      ensures ok && faithful ==> data[..] == Patch(old(data[..]), off, buf)
      ensures robust && off + |buf| <= data.Length ==> ok
    {
      hide Patch;
      ghost var m := data[..];
      var fits := off + |buf| <= data.Length;
      var n: nat := *;
      n := Clamp(n, |buf|, if off <= data.Length then data.Length - off else 0);
      ok := *;
      if fits && (robust || ok) {
        n, ok := |buf|, true;
      } else {
        ok := false;
      }
      Land(buf, off, n);
      ops := ops + [WriteOp(off, buf, ok, |history|)];
      assert buf[..|buf|] == buf;
      if n == 0 {
        assert data[..] == m;
        if ok {
          PatchNothing(m, off);
        }
      }
    }

    method Sync() returns (ok: bool)
      modifies this`ops
      ensures robust ==> ok
      ensures ops == old(ops) + [SyncOp(ok)]
    {
      ok := *;
      ok := ok || robust;
      ops := ops + [SyncOp(ok)];
    }

    /** A read of `max` bytes; one that comes back short has an error. */
    method ReadAt(max: nat, off: nat) returns (bs: seq<byte>, e: IoErr)
      ensures |bs| <= max
      ensures bs != [] ==> off + |bs| <= data.Length && bs == data[off..off + |bs|]
      ensures e == NoErr ==> |bs| == max
      ensures e == Eof ==> off + |bs| >= data.Length
      ensures robust && off + max <= data.Length ==> |bs| == max && e != Failed
    {
      var n: nat := *;
      n := Clamp(n, max, if off <= data.Length then data.Length - off else 0);
      e := *;
      if robust && off + max <= data.Length {
        n := max;
        e := if e == Failed then NoErr else e;
      } else if n < max && e == NoErr {
        e := Failed;
      }
      if e == Eof && off + n < data.Length {
        e := if n < max then Failed else NoErr;
      }
      bs := if n == 0 then [] else data[off..off + n];
    }
  }

  lemma PatchNothing(m: seq<byte>, off: nat)
    requires off <= |m|
    ensures Patch(m, off, []) == m
  {
  }

  lemma PartOf(m: seq<byte>, s: seq<byte>, off: nat, buf: seq<byte>, n: nat)
    requires n <= |buf| && off + n <= |m| && SameOutside(m, s, off, n)
    requires forall j :: 0 <= j < n ==> s[off + j] == buf[j]
    ensures s == Patch(m, off, buf[..n]) && PartWritten(m, s, off, buf)
  {
    assert s == Patch(m, off, buf[..n]);
  }

  // ----- the hashed, limited source

  /** The body as the writer reads it: at most `limit` more bytes, each fed to the running hash. */
  class Hashed {
    const src: BufReader
    var limit: nat
    /** What the running hash has seen. */
    var fed: seq<byte>

    constructor (src: BufReader, limit: nat)
      ensures this.src == src && this.limit == limit && fed == []
    {
      this.src, this.limit, fed := src, limit, [];
    }

    /** `io.ReadFull`: exactly `n` bytes, or as many as there were and the error. */
    method ReadFull(n: nat) returns (bs: seq<byte>, e: IoErr)
      requires src.Valid()
      modifies this, src, src.conn
      ensures src.Valid() && bs + src.Rest() == old(src.Rest()) && fed == old(fed) + bs
      ensures |bs| <= n && limit + |bs| == old(limit)
      ensures e == NoErr <==> |bs| == n
      ensures src.conn.reliable ==> e != Failed && (e != NoErr ==> limit == 0 || src.Rest() == [])
    {
      bs, e := [], NoErr;
      while |bs| < n && e == NoErr
        invariant src.Valid() && bs + src.Rest() == old(src.Rest()) && fed == old(fed) + bs
        invariant |bs| <= n && limit + |bs| == old(limit)
        invariant src.conn.reliable ==> e != Failed
        invariant e != NoErr && src.conn.reliable ==> limit == 0 || src.Rest() == []
        decreases n - |bs|, src.conn.stalls, if e == NoErr then 1 else 0
      {
        if limit == 0 {
          e := Eof;
        } else {
          var max := if n - |bs| < limit then n - |bs| else limit;
          ghost var before := bs;
          var got, ge := src.Read(max);
          limit := limit - |got|;
          fed := fed + got;
          bs, e := bs + got, ge;
          assert before + (got + src.Rest()) == bs + src.Rest();
        }
      }
      if |bs| == n {
        e := NoErr;
      }
    }
  }

  // ----- the protocol

  /** All contents between two points of the history keep the window zero. */
  ghost predicate ZeroBetween(h: seq<seq<byte>>, from: nat, to: nat, window: nat) {
    from <= to <= |h| && forall i | from <= i < to :: WindowZero(h[i], window)
  }

  /** The operation zeroes the window. */
  predicate Zeroing(op: Op, window: nat) {
    op.WriteOp? && op.off == 0 && op.bytes == Zeros(window)
  }

  /** The operations from `k` on begin with a scrub that was reported to work. */
  predicate ScrubbedAt(ops: seq<Op>, k: nat, window: nat) {
    k + 1 < |ops| && Zeroing(ops[k], window) && ops[k].ok && ops[k + 1] == SyncOp(true)
  }

  /** The last operation is a zeroing of the window that failed. */
  predicate ScrubFailed(ops: seq<Op>, window: nat) {
    ops != [] && Zeroing(ops[|ops| - 1], window) && !ops[|ops| - 1].ok
  }

  /** `scrub`: zero the window. Once the window is zero it stays zero, whether this works or not. */
  method Scrub(dst: Device, window: nat) returns (ok: bool)
    requires dst.Valid()
    modifies dst, dst.data
    ensures dst.Valid() && old(dst.history) <= dst.history && old(dst.ops) <= dst.ops
    ensures var k := |old(dst.ops)|;
            && k < |dst.ops| <= k + 2 && Zeroing(dst.ops[k], window) && dst.ops[k].upTo == |dst.history|
            && (ok <==> ScrubbedAt(dst.ops, k, window)) && (ok ==> |dst.ops| == k + 2)
    ensures SameOutside(old(dst.data[..]), dst.data[..], 0, window)
    ensures forall i | |old(dst.history)| <= i < |dst.history| ::
              SameOutside(old(dst.data[..]), dst.history[i], 0, window)
    ensures dst.faithful && !WindowZero(dst.data[..], window) ==> ScrubFailed(dst.ops, window)
    ensures dst.faithful && ok ==> WindowZero(dst.data[..], window)
    ensures dst.faithful && WindowZero(old(dst.data[..]), window) ==>
              WindowZero(dst.data[..], window) && ZeroBetween(dst.history, |old(dst.history)|, |dst.history|, window)
    ensures dst.robust && window <= dst.data.Length ==> ok
  {
    ghost var m, k := dst.data[..], |dst.ops|;
    ok := dst.WriteAt(Zeros(window), 0);
    if dst.faithful && WindowZero(m, window) {
      forall i | |old(dst.history)| <= i < |dst.history| ensures WindowZero(dst.history[i], window) {
        ZerosOverZeros(m, dst.history[i], window);
      }
      ZerosOverZeros(m, dst.data[..], window);
    }
    if ok {
      ok := dst.Sync();
    }
  }

  lemma ZerosOverZeros(m: seq<byte>, s: seq<byte>, window: nat)
    requires WindowZero(m, window) && PartWritten(m, s, 0, Zeros(window))
    ensures WindowZero(s, window)
  {
  }

  /** One chunk of the copy: `m` and `len` are the contents and the history length when the copy began. */
  method PutChunk(dst: Device, bs: seq<byte>, offset: nat, done: nat, want: nat, ghost m: seq<byte>, ghost len: nat)
    returns (ok: bool)
    requires dst.Valid() && len <= |dst.history| && done + |bs| <= want
    requires SameOutside(m, dst.data[..], offset, want)
    requires forall i | len <= i < |dst.history| :: SameOutside(m, dst.history[i], offset, want)
    modifies dst, dst.data
    ensures dst.Valid() && old(dst.history) <= dst.history && old(dst.ops) <= dst.ops
    ensures SameOutside(m, dst.data[..], offset, want)
    ensures forall i | len <= i < |dst.history| :: SameOutside(m, dst.history[i], offset, want)
    ensures ok ==> offset + done + |bs| <= dst.data.Length
    ensures ok && dst.faithful ==> dst.data[..] == Patch(old(dst.data[..]), offset + done, bs)
    ensures dst.robust && offset + done + |bs| <= dst.data.Length ==> ok
  {
    hide SameOutside, PartWritten, Patch;
    ghost var m1, h1 := dst.data[..], dst.history;
    ok := dst.WriteAt(bs, offset + done);
    OutsideWider(m, m1, dst.data[..], offset, want, offset + done, |bs|);
    forall i | len <= i < |dst.history| ensures SameOutside(m, dst.history[i], offset, want) {
      if i < |h1| {
        assert dst.history[i] == h1[i];
      } else {
        OutsideWider(m, m1, dst.history[i], offset, want, offset + done, |bs|);
      }
    }
  }

  /** One turn of the copy: read up to `c` bytes and write what came. */
  method CopyChunk(dst: Device, h: Hashed, offset: nat, done: nat, want: nat, c: nat,
                   ghost m: seq<byte>, ghost len: nat)
    returns (bs: seq<byte>, e: IoErr, written: bool)
    requires dst.Valid() && h.src.Valid() && len <= |dst.history| && done + c <= want && c > 0
    requires SameOutside(m, dst.data[..], offset, want)
    requires forall i | len <= i < |dst.history| :: SameOutside(m, dst.history[i], offset, want)
    modifies dst, dst.data, h, h.src, h.src.conn
    ensures dst.Valid() && old(dst.history) <= dst.history && old(dst.ops) <= dst.ops
    ensures h.src.Valid() && bs + h.src.Rest() == old(h.src.Rest()) && h.fed == old(h.fed) + bs
    ensures |bs| <= c && h.limit + |bs| == old(h.limit) && (e == NoErr <==> |bs| == c)
    ensures SameOutside(m, dst.data[..], offset, want)
    ensures forall i | len <= i < |dst.history| :: SameOutside(m, dst.history[i], offset, want)
    ensures bs == [] ==> written && dst.data[..] == old(dst.data[..])
    ensures written && bs != [] ==> offset + done + |bs| <= dst.data.Length
    ensures written && bs != [] && dst.faithful ==> dst.data[..] == Patch(old(dst.data[..]), offset + done, bs)
    ensures dst.robust && offset + done + |bs| <= dst.data.Length ==> written
    ensures h.src.conn.reliable ==> e != Failed && (e != NoErr ==> h.limit == 0 || h.src.Rest() == [])
  {
    hide SameOutside, PartWritten, Patch;
    bs, e := h.ReadFull(c);
    written := true;
    if bs != [] {
      written := PutChunk(dst, bs, offset, done, want, m, len);
    }
  }

  /** `copyAt`: exactly `want` bytes of the source to the device, in chunks. */
  method CopyAt(dst: Device, h: Hashed, offset: nat, want: nat, chunk: nat)
    returns (done: nat, ok: bool, ghost got: seq<byte>)
    requires dst.Valid() && h.src.Valid() && chunk > 0
    modifies dst, dst.data, h, h.src, h.src.conn
    ensures dst.Valid() && old(dst.history) <= dst.history && old(dst.ops) <= dst.ops
    ensures h.src.Valid() && got + h.src.Rest() == old(h.src.Rest()) && h.fed == old(h.fed) + got
    ensures |got| <= want && h.limit + |got| == old(h.limit)
    ensures SameOutside(old(dst.data[..]), dst.data[..], offset, want)
    ensures forall i | |old(dst.history)| <= i < |dst.history| ::
              SameOutside(old(dst.data[..]), dst.history[i], offset, want)
    ensures ok ==> done == |got|
    ensures ok && dst.faithful ==> Wrote(old(dst.data[..]), dst.data[..], offset, got)
    ensures ok && want > 0 && done == want ==> offset + want <= dst.data.Length
    ensures h.src.conn.reliable && dst.robust && offset + want <= dst.data.Length ==>
              ok && (done < want ==> h.limit == 0 || h.src.Rest() == [])
  {
    hide SameOutside, PartWritten, Patch, Wrote;
    done, ok, got := 0, true, [];
    ghost var m, len := dst.data[..], |dst.history|;
    OutsideSelf(m, offset, want);
    WroteNothing(m, offset);
    while done < want
      invariant done == |got| <= want && ok
      invariant dst.Valid() && old(dst.history) <= dst.history && old(dst.ops) <= dst.ops
      invariant h.src.Valid() && got + h.src.Rest() == old(h.src.Rest()) && h.fed == old(h.fed) + got
      invariant h.limit + |got| == old(h.limit)
      invariant SameOutside(m, dst.data[..], offset, want)
      invariant forall i | len <= i < |dst.history| :: SameOutside(m, dst.history[i], offset, want)
      invariant dst.faithful ==> Wrote(m, dst.data[..], offset, got)
      invariant done > 0 ==> offset + done <= dst.data.Length
    {
      var c := if want - done < chunk then want - done else chunk;
      ghost var before, m1 := got, dst.data[..];
      var bs, e, written := CopyChunk(dst, h, offset, done, want, c, m, len);
      got := got + bs;
      Regroup(before, bs, h.src.Rest(), old(h.fed));
      if !written {
        return done, false, got;
      }
      if bs == [] {
        assert got == before;
      } else if dst.faithful {
        WroteMore(m, m1, dst.data[..], offset, before, bs);
      }
      done := done + |bs|;
      if e == Eof {
        return done, true, got;
      }
      if e != NoErr {
        return done, false, got;
      }
    }
  }

  lemma Regroup(a: seq<byte>, b: seq<byte>, rest: seq<byte>, fed: seq<byte>)
    ensures a + (b + rest) == (a + b) + rest && (fed + a) + b == fed + (a + b)
  {
  }

  lemma OutsideSelf(m: seq<byte>, off: nat, len: nat)
    ensures SameOutside(m, m, off, len)
  {
  }

  /** Two writes, the second within the range of the first. */
  lemma OutsideWider(m: seq<byte>, m1: seq<byte>, s: seq<byte>, off: nat, len: nat, off1: nat, len1: nat)
    requires SameOutside(m, m1, off, len) && SameOutside(m1, s, off1, len1)
    requires off <= off1 && off1 + len1 <= off + len
    ensures SameOutside(m, s, off, len)
  {
  }

  lemma WroteNothing(m: seq<byte>, off: nat)
    ensures Wrote(m, m, off, [])
  {
  }

  /** `s` is `m` with `bs` written at `off`. */
  predicate Wrote(m: seq<byte>, s: seq<byte>, off: nat, bs: seq<byte>) {
    if bs == [] then s == m else off + |bs| <= |m| && s == Patch(m, off, bs)
  }

  lemma WroteMore(m: seq<byte>, m1: seq<byte>, m2: seq<byte>, off: nat, a: seq<byte>, b: seq<byte>)
    requires Wrote(m, m1, off, a) && b != [] && off + |a| + |b| <= |m1| && m2 == Patch(m1, off + |a|, b)
    ensures Wrote(m, m2, off, a + b)
  {
    assert m2 == Patch(m, off, a + b);
  }

  /** `readBackSHA`: the digest of the first `size` bytes of the device. */
  method ReadBack(dst: Device, size: nat, chunk: nat, sha: Sha) returns (r: Option<Digest>)
    requires chunk > 0
    ensures r.Some? ==> size <= dst.data.Length && r.value == sha(dst.data[..size])
    ensures dst.robust && size <= dst.data.Length ==> r.Some?
  {
    var fed: seq<byte> := [];
    var done := 0;
    while done < size
      invariant done <= size && done <= dst.data.Length && fed == dst.data[..done]
    {
      var c := if size - done < chunk then size - done else chunk;
      var bs, e := dst.ReadAt(c, done);
      if bs != [] {
        assert dst.data[..done] + dst.data[done..done + |bs|] == dst.data[..done + |bs|];
        fed, done := fed + bs, done + |bs|;
      }
      if e != NoErr {
        if e == Eof && done == size {
          break;
        }
        return None;
      }
    }
    return Some(sha(fed));
  }

  datatype Written = Written(bytes: nat, digest: Digest)

  /** The transfer is complete and, when a digest was declared, correct. */
  predicate GoodTransfer(body: seq<byte>, size: nat, want: Digest, sha: Sha) {
    size <= |body| && (want == [] || sha(body[..size]) == want)
  }

  /** From the opening scrub to the transfer check: hold the first window back, write the rest. */
  method Receive(dst: Device, h: Hashed, size: nat, want: Digest, sha: Sha, window: nat, chunk: nat)
    returns (ok: bool, first: seq<byte>, ghost got: seq<byte>)
    requires dst.Valid() && h.src.Valid() && window <= size && chunk > 0 && h.limit == size && h.fed == []
    modifies dst, dst.data, h, h.src, h.src.conn
    ensures dst.Valid() && old(dst.history) <= dst.history && old(dst.ops) <= dst.ops
    ensures h.src.Valid() && got + h.src.Rest() == old(h.src.Rest()) && |got| <= size
    ensures SameOutside(old(dst.data[..]), dst.data[..], 0, size)
    ensures ok ==> |got| == size && first == got[..window] && h.fed == got
    ensures ok ==> (want == [] || sha(got) == want)
    ensures ok && dst.faithful ==> Wrote(old(dst.data[..]), dst.data[..], window, got[window..])
    ensures dst.faithful && WindowZero(old(dst.data[..]), window) ==>
              WindowZero(dst.data[..], window) && ZeroBetween(dst.history, |old(dst.history)|, |dst.history|, window)
    ensures h.src.conn.reliable && dst.robust && size <= dst.data.Length ==>
              (ok <==> GoodTransfer(old(h.src.Rest()), size, want, sha))
  {
    hide PartWritten, Patch, Wrote;
    ghost var m, len, body := dst.data[..], |dst.history|, h.src.Rest();
    OutsideSelf(m, 0, size);
    first, got := [], [];
    var e;
    first, e := h.ReadFull(window);
    got := first;
    if e != NoErr {
      return false, first, got;
    }
    var done, copied, rest := CopyAt(dst, h, window, size - window, chunk);
    ghost var m1, h1 := dst.data[..], dst.history;
    OutsideWider(m, m, m1, 0, size, window, size - window);
    got := first + rest;
    assert first + (rest + h.src.Rest()) == got + h.src.Rest();
    assert [] + first + rest == got;
    if dst.faithful && WindowZero(m, window) {
      forall i | len <= i < |h1| ensures WindowZero(h1[i], window) {
        ZeroKept(m, h1[i], window, size - window);
      }
      ZeroKept(m, m1, window, size - window);
    }
    if !copied || done != size - window {
      var _ := Scrub(dst, window);
      AfterScrub(m, m1, dst.data[..], size, window);
      return false, first, got;
    }
    assert got[..window] == first && got[window..] == rest;
    assert body[..size] == got;
    if want != [] && sha(h.fed) != want {
      var _ := Scrub(dst, window);
      AfterScrub(m, m1, dst.data[..], size, window);
      return false, first, got;
    }
    return true, first, got;
  }

  lemma ZeroKept(m: seq<byte>, s: seq<byte>, window: nat, len: nat)
    requires WindowZero(m, window) && SameOutside(m, s, window, len)
    ensures WindowZero(s, window)
  {
  }

  lemma AfterScrub(m: seq<byte>, m1: seq<byte>, m2: seq<byte>, size: nat, window: nat)
    requires SameOutside(m, m1, 0, size) && SameOutside(m1, m2, 0, window) && window <= size
    ensures SameOutside(m, m2, 0, size)
  {
  }

  /** The superblock goes in, is synced, and the whole image is read back; a failure is scrubbed. */
  method Commit(dst: Device, first: seq<byte>, digest: Digest, size: nat, sha: Sha, window: nat, chunk: nat)
    returns (ok: bool)
    requires dst.Valid() && |first| == window <= size && chunk > 0
    modifies dst, dst.data
    ensures dst.Valid() && old(dst.history) <= dst.history && old(dst.ops) <= dst.ops
    ensures SameOutside(old(dst.data[..]), dst.data[..], 0, window)
    ensures forall i | |old(dst.history)| <= i < |dst.history| ::
              SameOutside(old(dst.data[..]), dst.history[i], 0, window)
    ensures ok ==> size <= dst.data.Length && sha(dst.data[..size]) == digest
    ensures ok && dst.faithful ==> dst.data[..] == Patch(old(dst.data[..]), 0, first)
    ensures ok ==> dst.ops == old(dst.ops) + [WriteOp(0, first, true, |dst.history|), SyncOp(true)]
    ensures !ok && dst.faithful && !WindowZero(dst.data[..], window) ==> ScrubFailed(dst.ops, window)
    ensures !ok ==> |dst.ops| > |old(dst.ops)|
    ensures dst.robust && dst.faithful && size <= dst.data.Length ==>
              (ok <==> sha(Patch(old(dst.data[..]), 0, first)[..size]) == digest)
  {
    hide PartWritten, Patch, WindowZero, SameOutside, ScrubFailed, Zeroing;
    ghost var m, len, ops := dst.data[..], |dst.history|, dst.ops;
    ok := dst.WriteAt(first, 0);
    ghost var m1, h1 := dst.data[..], dst.history;
    if ok {
      ok := dst.Sync();
    }
    if ok {
      var back := ReadBack(dst, size, chunk, sha);
      ok := back == Some(digest);
    }
    if !ok {
      var _ := Scrub(dst, window);
      OutsideWider(m, m1, dst.data[..], 0, window, 0, window);
      forall i | len <= i < |dst.history| ensures SameOutside(m, dst.history[i], 0, window) {
        if i < |h1| {
          assert dst.history[i] == h1[i];
        } else {
          OutsideWider(m, m1, dst.history[i], 0, window, 0, window);
        }
      }
    }
  }

  /** The contents may become mountable: the transfer is good and all of the image but the window is there. */
  predicate Committable(s: seq<byte>, body: seq<byte>, size: nat, want: Digest, sha: Sha, window: nat) {
    GoodTransfer(body, size, want, sha) && window <= size <= |s| && s[window..size] == body[window..size]
  }

  /** At every moment from `from` on the window is zero, or the contents may be mountable. */
  ghost predicate NeverEarly(h: seq<seq<byte>>, from: nat, body: seq<byte>, size: nat, want: Digest, sha: Sha,
                             window: nat)
  {
    forall i | from <= i < |h| :: WindowZero(h[i], window) || Committable(h[i], body, size, want, sha, window)
  }

  /** What the device is left with when `Write` began after `k` operations and `len` moments, whatever failed.

      The opening scrub is the first thing that happens, and when it is not reported to work nothing else does.
      From the moment it worked, the window is zero after every byte that lands, unless the transfer is good and
      the rest of the image is there already. */
  ghost predicate CrashSafe(dst: Device, k: nat, len: nat, body: seq<byte>, size: nat, want: Digest, sha: Sha,
                            window: nat)
    reads dst, dst.data
  {
    && k < |dst.ops| && Zeroing(dst.ops[k], window) && 0 < len <= dst.ops[k].upTo <= |dst.history|
    && (!ScrubbedAt(dst.ops, k, window) ==> |dst.ops| <= k + 2 && dst.ops[k].upTo == |dst.history|)
    && (ScrubbedAt(dst.ops, k, window) && dst.faithful ==>
          NeverEarly(dst.history, dst.ops[k].upTo - 1, body, size, want, sha, window))
  }

  /** An error leaves the window zero, unless the opening scrub failed, or the transfer was good and the very last
      operation is a closing scrub that failed. */
  ghost predicate ErrorSafe(dst: Device, k: nat, body: seq<byte>, size: nat, want: Digest, sha: Sha, window: nat)
    reads dst, dst.data
  {
    || WindowZero(dst.data[..], window)
    || !ScrubbedAt(dst.ops, k, window)
    || (GoodTransfer(body, size, want, sha) && |dst.ops| > k + 2 && ScrubFailed(dst.ops, window))
  }

  /** The last two operations put the superblock in and sync it. */
  predicate Sealed(ops: seq<Op>, first: seq<byte>) {
    var n := |ops|;
    n >= 2 && ops[n - 1] == SyncOp(true) && ops[n - 2].WriteOp? && ops[n - 2].off == 0 && ops[n - 2].bytes == first
    && ops[n - 2].ok
  }

  /** All that follows the opening scrub. */
  method Transfer(dst: Device, src: BufReader, size: nat, want: Digest, sha: Sha, window: nat, chunk: nat)
    returns (r: Result<Written>)
    requires dst.Valid() && src.Valid() && chunk > 0 && window <= size
    requires dst.faithful ==> WindowZero(dst.data[..], window)
    modifies dst, dst.data, src, src.conn
    ensures dst.Valid() && old(dst.history) <= dst.history && old(dst.ops) <= dst.ops && src.Valid()
    ensures SameOutside(old(dst.data[..]), dst.data[..], 0, size)
    ensures IsRest(old(src.Rest()), src.Rest()) && |old(src.Rest())| <= |src.Rest()| + size
    ensures r.Ok? ==> GoodTransfer(old(src.Rest()), size, want, sha) && src.Rest() == old(src.Rest())[size..]
    ensures r.Ok? ==> r.value == Written(size, sha(old(src.Rest())[..size]))
    ensures r.Ok? ==> size <= dst.data.Length && sha(dst.data[..size]) == r.value.digest
    ensures r.Ok? && dst.faithful ==> dst.data[..size] == old(src.Rest())[..size]
    ensures r.Ok? ==> Sealed(dst.ops, old(src.Rest())[..window])
    ensures dst.faithful ==> NeverEarly(dst.history, |old(dst.history)|, old(src.Rest()), size, want, sha, window)
    ensures r.Err? && dst.faithful && !WindowZero(dst.data[..], window) ==>
              && GoodTransfer(old(src.Rest()), size, want, sha)
              && |dst.ops| > |old(dst.ops)| && ScrubFailed(dst.ops, window)
    ensures src.conn.reliable && dst.robust && dst.faithful && size <= dst.data.Length ==>
              (r.Ok? <==> GoodTransfer(old(src.Rest()), size, want, sha))
  {
    hide PartWritten, Patch, Wrote, WindowZero, SameOutside, Committable, ScrubFailed;
    ghost var m1, body, len := dst.data[..], src.Rest(), |dst.history|;
    var h := new Hashed(src, size);
    var ok, first, got := Receive(dst, h, size, want, sha, window, chunk);
    ghost var m2, h2, ops2 := dst.data[..], dst.history, dst.ops;
    assert body[|got|..] == src.Rest();
    if !ok {
      return Err("receiving the image");
    }
    assert body[..size] == got;
    var digest := sha(h.fed);
    if dst.faithful {
      RestLanded(m1, m2, body, size, want, sha, window);
      WindowThere(m1, window);
      BothWritten(m1, m2, Patch(m2, 0, first), window, got);
    }
    ok := Commit(dst, first, digest, size, sha, window, chunk);
    BothWithin(m1, m2, dst.data[..], size) by { WindowWithin(m2, dst.data[..], size, window); }
    if dst.faithful {
      forall i | len <= i < |dst.history|
        ensures WindowZero(dst.history[i], window) || Committable(dst.history[i], body, size, want, sha, window)
      {
        if i < |h2| {
          assert dst.history[i] == h2[i];
        } else {
          RestKept(m2, dst.history[i], body, size, want, sha, window);
        }
      }
    }
    if !ok {
      return Err("the image did not land");
    }
    assert dst.ops[|ops2|..] == [WriteOp(0, first, true, |dst.history|), SyncOp(true)];
    return Ok(Written(size, digest));
  }

  /** The body written behind the window is the rest of the image. */
  lemma RestLanded(m1: seq<byte>, m2: seq<byte>, body: seq<byte>, size: nat, want: Digest, sha: Sha, window: nat)
    requires GoodTransfer(body, size, want, sha) && window <= size && WindowZero(m1, window)
    requires Wrote(m1, m2, window, body[..size][window..])
    ensures Committable(m2, body, size, want, sha, window)
  {
  }

  lemma WindowThere(m: seq<byte>, window: nat)
    requires WindowZero(m, window)
    ensures window <= |m|
  {
  }

  lemma RestKept(m: seq<byte>, s: seq<byte>, body: seq<byte>, size: nat, want: Digest, sha: Sha, window: nat)
    requires Committable(m, body, size, want, sha, window) && SameOutside(m, s, 0, window)
    ensures Committable(s, body, size, want, sha, window)
  {
    assert s[window..size] == m[window..size];
  }

  lemma WindowWithin(m: seq<byte>, s: seq<byte>, size: nat, window: nat)
    requires SameOutside(m, s, 0, window) && window <= size
    ensures SameOutside(m, s, 0, size)
  {
  }

  /** `Write`.

      Success means that the device, read back, and the bytes received have the same digest, the
      declared one if there is one, and that exactly `size` bytes were taken from the source; on a
      faithful device those bytes are then what is on it, and the superblock was put in and synced last.
      However it ends, `CrashSafe` holds, and after an error `ErrorSafe`. Nothing past `size` is ever written. */
  method Write(dst: Device, src: BufReader, size: nat, want: Digest, sha: Sha, window: nat, chunk: nat)
    returns (r: Result<Written>)
    requires dst.Valid() && src.Valid() && chunk > 0
    modifies dst, dst.data, src, src.conn
    ensures dst.Valid() && old(dst.history) <= dst.history && old(dst.ops) <= dst.ops && src.Valid()
    ensures SameOutside(old(dst.data[..]), dst.data[..], 0, size)
    ensures IsRest(old(src.Rest()), src.Rest()) && |old(src.Rest())| <= |src.Rest()| + size
    // success
    ensures r.Ok? ==> GoodTransfer(old(src.Rest()), size, want, sha) && src.Rest() == old(src.Rest())[size..]
    ensures r.Ok? ==> r.value == Written(size, sha(old(src.Rest())[..size]))
    ensures r.Ok? ==> size <= dst.data.Length && sha(dst.data[..size]) == r.value.digest
    ensures r.Ok? && dst.faithful ==> dst.data[..size] == old(src.Rest())[..size]
    ensures r.Ok? ==> window <= size && Sealed(dst.ops, old(src.Rest())[..window])
    // never mountable early
    ensures size < window ==> r.Err? && dst.ops == old(dst.ops) && dst.history == old(dst.history)
    ensures size >= window ==>
              CrashSafe(dst, |old(dst.ops)|, |old(dst.history)|, old(src.Rest()), size, want, sha, window)
    ensures size >= window && r.Err? && dst.faithful ==>
              ErrorSafe(dst, |old(dst.ops)|, old(src.Rest()), size, want, sha, window)
    // when nothing fails, success is decided by the transfer alone
    ensures src.conn.reliable && dst.robust && dst.faithful && size <= dst.data.Length ==>
              (r.Ok? <==> window <= size && GoodTransfer(old(src.Rest()), size, want, sha))
  {
    hide PartWritten, Patch, Wrote, WindowZero, SameOutside, IsRest, GoodTransfer, Sealed, ScrubFailed, ScrubbedAt,
         NeverEarly, Zeroing;
    ghost var m0, k, body := dst.data[..], |dst.ops|, src.Rest();
    OutsideSelf(m0, 0, size);
    RestOfAll(body);
    if size < window {
      return Err("smaller than the superblock window");
    }
    var ok := Scrub(dst, window);
    AfterScrub(m0, m0, dst.data[..], size, window);
    if !ok {
      return Err("scrubbing the superblock");
    }
    ghost var m1, h1, ops1 := dst.data[..], dst.history, dst.ops;
    r := Transfer(dst, src, size, want, sha, window, chunk);
    BothWithin(m0, m1, dst.data[..], size);
    StaysScrubbed(ops1, dst.ops, k, window);
    if dst.faithful {
      OneEarlier(h1, dst.history, body, size, want, sha, window);
    }
  }

  lemma StaysScrubbed(before: seq<Op>, ops: seq<Op>, k: nat, window: nat)
    requires before <= ops && |before| == k + 2 && ScrubbedAt(before, k, window)
    ensures ScrubbedAt(ops, k, window) && ops[k] == before[k] && Zeroing(ops[k], window)
  {
    assert ops[k] == before[k] && ops[k + 1] == before[k + 1];
  }

  /** The moment at which the window was found zero counts too. */
  lemma OneEarlier(before: seq<seq<byte>>, h: seq<seq<byte>>, body: seq<byte>, size: nat, want: Digest, sha: Sha,
                   window: nat)
    requires before != [] && before <= h && WindowZero(before[|before| - 1], window)
    requires NeverEarly(h, |before|, body, size, want, sha, window)
    ensures NeverEarly(h, |before| - 1, body, size, want, sha, window)
  {
    hide WindowZero, Committable;
    assert h[|before| - 1] == before[|before| - 1];
  }

  lemma BothWithin(m: seq<byte>, m1: seq<byte>, m2: seq<byte>, size: nat)
    requires SameOutside(m, m1, 0, size) && SameOutside(m1, m2, 0, size)
    ensures SameOutside(m, m2, 0, size)
  {
  }

  lemma BothWritten(m1: seq<byte>, m2: seq<byte>, m3: seq<byte>, window: nat, got: seq<byte>)
    requires window <= |got| && Wrote(m1, m2, window, got[window..])
    requires window <= |m2| && m3 == Patch(m2, 0, got[..window])
    ensures |got| <= |m3| && m3[..|got|] == got
  {
  }
}
