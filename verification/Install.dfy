/** One install session: the header and the body through the same buffered reader. */
module Install {
  import opened Bytes
  import opened Outcomes
  import opened Streams
  import opened ImageWrite
  import Wire

  /** `serve`, from the accepted connection to the written image. `gates` stands for the steps in
      between that can refuse a session without touching the stream or the target. The reader is
      given back: what it still holds, with what is pending on the socket, is the unread stream. */
  method Serve(conn: Conn, dst: Device, gates: bool, decode: Wire.Decoder, sha: Sha,
               bufSize: nat, window: nat, chunk: nat)
    returns (r: Result<Written>, br: BufReader)
    requires dst.Valid() && bufSize > 0 && chunk > 0
    modifies conn, dst, dst.data
    ensures dst.Valid() && old(dst.history) <= dst.history && old(dst.ops) <= dst.ops
    ensures fresh(br) && br.conn == conn && br.Valid()
    ensures IsRest(old(conn.pending), br.Rest())
    ensures r.Ok? ==>
              var parsed := Wire.HeaderOf(old(conn.pending), decode);
              && parsed.Some?
              && var (h, body) := parsed.value;
              && 0 <= h.size <= |body| && h.size <= dst.data.Length
              && r.value == Written(h.size, sha(body[..h.size]))
              && br.Rest() == body[h.size..]
              && (h.sha256 == [] || r.value.digest == h.sha256)
              && sha(dst.data[..h.size]) == r.value.digest
              && SameOutside(old(dst.data[..]), dst.data[..], 0, h.size)
              && (dst.faithful ==> dst.data[..h.size] == body[..h.size])
              && window <= h.size && Sealed(dst.ops, body[..window])
    ensures Untouched(old(dst.ops), old(dst.history), dst) ||
              var parsed := Wire.HeaderOf(old(conn.pending), decode);
              && parsed.Some?
              && var (h, body) := parsed.value;
              && 0 <= h.size
              && CrashSafe(dst, |old(dst.ops)|, |old(dst.history)|, body, h.size, h.sha256, sha, window)
              && (r.Err? && dst.faithful ==> ErrorSafe(dst, |old(dst.ops)|, body, h.size, h.sha256, sha, window))
    ensures conn.reliable && dst.robust && dst.faithful && gates ==>
              var parsed := Wire.HeaderOf(old(conn.pending), decode);
              (r.Ok? <==> && parsed.Some?
                          && var (h, body) := parsed.value;
                             window <= h.size <= dst.data.Length && GoodTransfer(body, h.size, h.sha256, sha))
  {
    hide Wire.HeaderOf, SameOutside, WindowZero, GoodTransfer, CrashSafe, ErrorSafe, Sealed, IsRest, Wire.IsDigest;
    br := new BufReader(conn, bufSize);
    ghost var s := br.Rest();
    assert s == conn.pending;
    RestOfAll(s);
    var hdr := Wire.ParseHeader(br, decode);
    if hdr.Err? {
      return Err("bad header"), br;
    }
    var h := hdr.value;
    ghost var body := br.Rest();
    Wire.HeaderSound(s, decode);
    if !gates || h.size > dst.data.Length {
      return Err("refused"), br;
    }
    GoodTransferFits(body, h.size, h.sha256, sha);
    r := Write(dst, br, h.size, h.sha256, sha, window, chunk);
    RestTransitive(s, body, br.Rest());
  }

  /** Nothing was asked of the device. */
  ghost predicate Untouched(ops: seq<Op>, history: seq<seq<byte>>, dst: Device)
    reads dst
  {
    dst.ops == ops && dst.history == history
  }

  lemma GoodTransferFits(body: seq<byte>, size: nat, want: Digest, sha: Sha)
    ensures GoodTransfer(body, size, want, sha) ==> size <= |body| && (want == [] || sha(body[..size]) == want)
  {
  }

  /** The session a host sends: whatever pieces the socket delivers it in, the image ends up at the
      start of the partition byte for byte, nothing after it is touched, and what followed the image
      on the stream is still there. */
  method InstallSession(conn: Conn, dst: Device, decode: Wire.Decoder, sha: Sha, bufSize: nat, window: nat, chunk: nat,
                        ghost h: Wire.Header, ghost answers: seq<byte>, ghost image: seq<byte>, ghost rest: seq<byte>)
    returns (r: Result<Written>, br: BufReader)
    requires dst.Valid() && bufSize > 0 && chunk > 0
    requires Wire.Spellable(h, answers, decode) && conn.pending == Wire.Spell(h, answers) + (image + rest)
    requires |image| == h.size && sha(image) == h.sha256
    requires conn.reliable && dst.robust && dst.faithful && window <= h.size <= dst.data.Length
    modifies conn, dst, dst.data
    ensures r == Ok(Written(h.size, h.sha256)) && br.conn == conn && br.Rest() == rest
    ensures dst.data[..h.size] == image && dst.data[h.size..] == old(dst.data[h.size..])
  {
    hide Wire.HeaderOf, Wire.Spell, CrashSafe, ErrorSafe, Sealed;
    ghost var m := dst.data[..];
    Wire.HeaderRoundTrip(h, answers, image + rest, decode);
    assert (image + rest)[..h.size] == image && (image + rest)[h.size..] == rest;
    r, br := Serve(conn, dst, true, decode, sha, bufSize, window, chunk);
    assert dst.data[h.size..] == m[h.size..];
  }
}
