/** Android boot images, header versions 3 and 4: the packer, its readers, and the verify round trip. */
module BootImage {
  import opened Bytes
  import opened Outcomes

  type U32 = x: int | 0 <= x < TWO32

  const PAGE := 4096
  const CMDLINE_SIZE := 1536
  const HEADER_V3 := 1580
  const HEADER_V4 := 1584
  const CMDLINE_OFF_V0 := 64

  function Magic(): (m: seq<byte>)
    ensures |m| == 8
  {
    Ascii("ANDROID!")
  }

  datatype Opts = Opts(kernel: seq<byte>, ramdisk: seq<byte>, signature: seq<byte>, cmdline: seq<byte>,
                       osVersion: U32, headerVersion: U32, legacyCmdlineOffset: bool)

  function Pad(n: nat): (p: nat)
    ensures p < PAGE && (n + p) % PAGE == 0
  {
    if n % PAGE != 0 then PAGE - n % PAGE else 0
  }

  function Truncated(n: nat): U32 {
    n % TWO32
  }

  // ----- the packer

  function HeaderFields(kernelSize: U32, ramdiskSize: U32, osVersion: U32, headerSize: U32, version: U32)
    : (s: seq<byte>)
    ensures |s| == 44
  {
    Magic() + (LE32(kernelSize) + (LE32(ramdiskSize) + (LE32(osVersion) + (LE32(headerSize)
      + (Zeros(16) + LE32(version))))))
  }

  predicate Packable(o: Opts) {
    o.kernel != [] && 3 <= o.headerVersion <= 4 && |o.cmdline| < CMDLINE_SIZE
  }

  function HeaderSize(version: U32): U32 {
    if version >= 4 then HEADER_V4 else HEADER_V3
  }

  function Header(o: Opts): (s: seq<byte>)
    requires Packable(o)
    ensures |s| == HeaderSize(o.headerVersion)
  {
    HeaderFields(Truncated(|o.kernel|), Truncated(|o.ramdisk|), o.osVersion,
                 HeaderSize(o.headerVersion), o.headerVersion)
    + ((o.cmdline + Zeros(CMDLINE_SIZE - |o.cmdline|))
       + (if o.headerVersion >= 4 then LE32(Truncated(|o.signature|)) else []))
  }

  /** The header with the command line written at the old place as well, when asked for. */
  function FinalHeader(o: Opts): (s: seq<byte>)
    requires Packable(o)
    ensures |s| == HeaderSize(o.headerVersion)
  {
    var h := Header(o);
    if o.legacyCmdlineOffset && CMDLINE_OFF_V0 + |o.cmdline| < |h| then Patch(h, CMDLINE_OFF_V0, o.cmdline) else h
  }

  /** `buf` padded with zeros to the next page. */
  function Padded(buf: seq<byte>): (s: seq<byte>)
    ensures |s| == |buf| + Pad(|buf|) && |s| % PAGE == 0
  {
    buf + Zeros(Pad(|buf|))
  }

  function AddSection(buf: seq<byte>, s: seq<byte>): (r: seq<byte>)
    ensures |buf| % PAGE == 0 ==> |r| % PAGE == 0
  {
    if s == [] then buf else Padded(buf + s)
  }

  function Image(o: Opts): seq<byte>
    requires Packable(o)
  {
    var two := AddSection(AddSection(Padded(FinalHeader(o)), o.kernel), o.ramdisk);
    if o.headerVersion >= 4 then AddSection(two, o.signature) else two
  }

  /** `packBoot`. */
  method PackBoot(o: Opts) returns (r: Result<seq<byte>>)
    ensures r.Ok? <==> Packable(o)
    ensures r.Ok? ==> r.value == Image(o)
  {
    if o.kernel == [] {
      return Err("a kernel is required");
    }
    if o.headerVersion < 3 || o.headerVersion > 4 {
      return Err("unsupported header version");
    }
    if |o.cmdline| >= CMDLINE_SIZE {
      return Err("cmdline too long");
    }
    hide HeaderFields, Header, Padded, LE32, Patch;
    var buf := FinalHeader(o);
    buf := Padded(buf);
    var sections := [o.kernel, o.ramdisk];
    if o.headerVersion >= 4 {
      sections := sections + [o.signature];
    }
    for i := 0 to |sections|
      invariant i == 0 ==> buf == Padded(FinalHeader(o))
      invariant i == 1 ==> buf == AddSection(Padded(FinalHeader(o)), o.kernel)
      invariant i == 2 ==> buf == AddSection(AddSection(Padded(FinalHeader(o)), o.kernel), o.ramdisk)
      invariant i == 3 ==> buf == Image(o)
    {
      var s := sections[i];
      if s == [] {
        continue;
      }
      buf := buf + s;
      buf := Padded(buf);
    }
    return Ok(buf);
  }

  // ----- the reader

  datatype Hdr = Hdr(kernelSize: U32, ramdiskSize: U32, osVersion: U32, headerSize: U32,
                     headerVersion: U32, cmdline: seq<byte>, signatureSize: U32)

  /** `parseBoot`. */
  function ParseBoot(data: seq<byte>): (h: Option<Hdr>)
    ensures h.Some? ==> 3 <= h.value.headerVersion && HeaderSize(h.value.headerVersion) <= |data|
    ensures h.Some? ==> data[..8] == Ascii("ANDROID!")
  {
    if |data| < HEADER_V3 || data[..8] != Magic() then None
    else
      var version := GetLE32(data, 40);
      if version >= 4 && |data| < HEADER_V4 then None
      else if version < 3 then None
      else Some(Hdr(GetLE32(data, 8), GetLE32(data, 12), GetLE32(data, 16), GetLE32(data, 20), version,
                    data[44..HEADER_V3], if version >= 4 then GetLE32(data, HEADER_V3) else 0))
  }

  /** The bytes before the first NUL. */
  function CStr(b: seq<byte>): (s: seq<byte>)
    ensures |s| <= |b| && s == b[..|s|]
    ensures forall i :: 0 <= i < |s| ==> s[i] != 0
    ensures |s| < |b| ==> b[|s|] == 0
  {
    if b == [] || b[0] == 0 then [] else [b[0]] + CStr(b[1..])
  }

  datatype Parts = Parts(kernel: seq<byte>, ramdisk: seq<byte>, signature: seq<byte>)

  /** One section and the offset after it. */
  function Take(data: seq<byte>, off: nat, n: U32): Option<(seq<byte>, nat)> {
    if n == 0 then Some(([], off))
    else if off + n > |data| then None
    else Some((data[off..off + n], off + n + Pad(off + n)))
  }

  function SectionsOf(h: Hdr, data: seq<byte>): Option<Parts> {
    var off := HeaderSize(h.headerVersion) + Pad(HeaderSize(h.headerVersion));
    var k := Take(data, off, h.kernelSize);
    if k.None? then None
    else
      var r := Take(data, k.value.1, h.ramdiskSize);
      if r.None? then None
      else if h.headerVersion < 4 then Some(Parts(k.value.0, r.value.0, []))
      else
        var s := Take(data, r.value.1, h.signatureSize);
        if s.None? then None else Some(Parts(k.value.0, r.value.0, s.value.0))
  }

  /** `sections`, with its moving offset. */
  method Sections(h: Hdr, data: seq<byte>) returns (r: Option<Parts>)
    ensures r == SectionsOf(h, data)
  {
    var off: nat := HeaderSize(h.headerVersion);
    off := off + Pad(off);
    var kernel, ramdisk, sig: seq<byte> := [], [], [];
    if h.kernelSize != 0 {
      var end := off + h.kernelSize;
      if end > |data| { return None; }
      kernel, off := data[off..end], end + Pad(end);
    }
    if h.ramdiskSize != 0 {
      var end := off + h.ramdiskSize;
      if end > |data| { return None; }
      ramdisk, off := data[off..end], end + Pad(end);
    }
    if h.headerVersion >= 4 && h.signatureSize != 0 {
      var end := off + h.signatureSize;
      if end > |data| { return None; }
      sig, off := data[off..end], end + Pad(end);
    }
    return Some(Parts(kernel, ramdisk, sig));
  }

  // ----- round trip

  /** Options a reader can recover: they pack, every length fits its 32-bit field, the command line
      holds no NUL, nothing is written at the old command line offset, and version 3 has no
      signature. */
  predicate Canonical(o: Opts) {
    && Packable(o) && !o.legacyCmdlineOffset
    && |o.kernel| < TWO32 && |o.ramdisk| < TWO32 && |o.signature| < TWO32
    && (forall i :: 0 <= i < |o.cmdline| ==> o.cmdline[i] != 0)
    && (o.headerVersion < 4 ==> o.signature == [])
  }

  function HdrOf(o: Opts): Hdr
    requires Canonical(o)
  {
    Hdr(|o.kernel|, |o.ramdisk|, o.osVersion, HeaderSize(o.headerVersion), o.headerVersion,
        o.cmdline + Zeros(CMDLINE_SIZE - |o.cmdline|), |o.signature|)
  }

  lemma FieldsRead(data: seq<byte>, k: U32, r: U32, os: U32, hs: U32, v: U32)
    requires At(data, 0, HeaderFields(k, r, os, hs, v))
    ensures |data| >= 44 && data[..8] == Magic()
    ensures GetLE32(data, 8) == k && GetLE32(data, 12) == r && GetLE32(data, 16) == os
    ensures GetLE32(data, 20) == hs && GetLE32(data, 40) == v
  {
    hide At, LE32, GetLE32, Magic;
    var (f5, f4) := (Zeros(16) + LE32(v), LE32(hs) + (Zeros(16) + LE32(v)));
    AtConcat(data, 0, Magic(), LE32(k) + (LE32(r) + (LE32(os) + f4)));
    MagicAt(data);
    AtConcat(data, 8, LE32(k), LE32(r) + (LE32(os) + f4));
    AtConcat(data, 12, LE32(r), LE32(os) + f4);
    AtConcat(data, 16, LE32(os), f4);
    AtConcat(data, 20, LE32(hs), f5);
    AtConcat(data, 24, Zeros(16), LE32(v));
    AtLE32(data, 8, k);
    AtLE32(data, 12, r);
    AtLE32(data, 16, os);
    AtLE32(data, 20, hs);
    AtLE32(data, 40, v);
    AtSize(data, 40, LE32(v));
  }

  /** Lengths that do not fit their field are cut to 32 bits, in every header that is packed. */
  lemma SizesTruncate(o: Opts)
    requires Packable(o)
    ensures GetLE32(Header(o), 8) == |o.kernel| % TWO32 && GetLE32(Header(o), 12) == |o.ramdisk| % TWO32
    ensures o.headerVersion == 4 ==> GetLE32(Header(o), HEADER_V3) == |o.signature| % TWO32
  {
    hide At, LE32, GetLE32, Magic, HeaderFields, Zeros;
    var h := Header(o);
    var f := HeaderFields(Truncated(|o.kernel|), Truncated(|o.ramdisk|), o.osVersion,
                          HeaderSize(o.headerVersion), o.headerVersion);
    var c := o.cmdline + Zeros(CMDLINE_SIZE - |o.cmdline|);
    var s := if o.headerVersion >= 4 then LE32(Truncated(|o.signature|)) else [];
    assert At(h, 0, h) by { AtSelf(h); }
    AtConcat(h, 0, f, c + s);
    FieldsRead(h, Truncated(|o.kernel|), Truncated(|o.ramdisk|), o.osVersion,
               HeaderSize(o.headerVersion), o.headerVersion);
    AtConcat(h, 44, c, s);
    if o.headerVersion >= 4 {
      AtLE32(h, HEADER_V3, Truncated(|o.signature|));
    }
  }

  lemma AtSelf(s: seq<byte>)
    ensures At(s, 0, s)
  {
  }

  lemma MagicAt(data: seq<byte>)
    requires At(data, 0, Magic())
    ensures |data| >= 8 && data[..8] == Magic()
  {
  }

  lemma AtSize(data: seq<byte>, p: nat, s: seq<byte>)
    requires At(data, p, s)
    ensures p + |s| <= |data| && data[p..p + |s|] == s
  {
  }

  /** Whatever follows it, an image that starts with a packed header parses to that header. */
  lemma HeaderRead(data: seq<byte>, o: Opts)
    requires Canonical(o) && At(data, 0, Header(o))
    ensures ParseBoot(data) == Some(HdrOf(o))
  {
    hide At, LE32, GetLE32, Magic, HeaderFields, Zeros;
    var f := HeaderFields(|o.kernel|, |o.ramdisk|, o.osVersion, HeaderSize(o.headerVersion), o.headerVersion);
    var c := o.cmdline + Zeros(CMDLINE_SIZE - |o.cmdline|);
    var s := if o.headerVersion >= 4 then LE32(|o.signature|) else [];
    assert Header(o) == f + (c + s);
    AtConcat(data, 0, f, c + s);
    FieldsRead(data, |o.kernel|, |o.ramdisk|, o.osVersion, HeaderSize(o.headerVersion), o.headerVersion);
    AtConcat(data, 44, c, s);
    AtSize(data, 44, c);
    AtSize(data, HEADER_V3, s);
    if o.headerVersion >= 4 {
      AtLE32(data, HEADER_V3, |o.signature|);
    }
  }

  lemma CmdlineRead(o: Opts)
    requires Canonical(o)
    ensures CStr(HdrOf(o).cmdline) == o.cmdline
  {
    CStrPadded(o.cmdline, CMDLINE_SIZE - |o.cmdline|);
  }

  lemma {:induction false} CStrPadded(s: seq<byte>, n: nat)
    requires n > 0 && forall i :: 0 <= i < |s| ==> s[i] != 0
    ensures CStr(s + Zeros(n)) == s
  {
    if s != [] {
      assert (s + Zeros(n))[1..] == s[1..] + Zeros(n);
      CStrPadded(s[1..], n);
    }
  }

  /** A section added to a page-aligned prefix is taken back from there, whatever follows. */
  lemma TakeAdded(buf: seq<byte>, s: seq<byte>, data: seq<byte>)
    requires |buf| % PAGE == 0 && |s| < TWO32 && AddSection(buf, s) <= data
    ensures Take(data, |buf|, |s|) == Some((s, |AddSection(buf, s)|))
  {
    if s != [] {
      var a := AddSection(buf, s);
      assert data[|buf|..|buf| + |s|] == a[|buf|..|buf| + |s|] == s;
    }
  }

  lemma PrefixTransitive(a: seq<byte>, b: seq<byte>, c: seq<byte>)
    requires a <= b && b <= c
    ensures a <= c
  {
  }

  lemma SectionExtends(buf: seq<byte>, s: seq<byte>)
    ensures buf <= AddSection(buf, s)
  {
  }

  /** Every image that starts with a packed image is read back to exactly the options it was packed
      from. */
  lemma RoundTrip(o: Opts, data: seq<byte>)
    requires Canonical(o) && Image(o) <= data
    ensures ParseBoot(data) == Some(HdrOf(o))
    ensures CStr(HdrOf(o).cmdline) == o.cmdline
    ensures SectionsOf(HdrOf(o), data) == Some(Parts(o.kernel, o.ramdisk, o.signature))
  {
    hide Image, ParseBoot, SectionsOf, Header, HdrOf, CStr;
    PartsTaken(o, data);
    HeaderRead(data, o);
    CmdlineRead(o);
  }

  lemma PartsTaken(o: Opts, data: seq<byte>)
    requires Canonical(o) && Image(o) <= data
    ensures At(data, 0, Header(o))
    ensures SectionsOf(HdrOf(o), data) == Some(Parts(o.kernel, o.ramdisk, o.signature))
  {
    hide Header, Take, AddSection, Padded, At;
    var b0 := Padded(Header(o));
    var b1 := AddSection(b0, o.kernel);
    var b2 := AddSection(b1, o.ramdisk);
    var b3 := if o.headerVersion >= 4 then AddSection(b2, o.signature) else b2;
    SectionExtends(b0, o.kernel);
    SectionExtends(b1, o.ramdisk);
    SectionExtends(b2, o.signature);
    PrefixTransitive(b2, b3, data);
    PrefixTransitive(b1, b2, data);
    PrefixTransitive(b0, b1, data);
    HeaderPrefix(o, data);
    TakeAdded(b0, o.kernel, data);
    TakeAdded(b1, o.ramdisk, data);
    if o.headerVersion >= 4 {
      TakeAdded(b2, o.signature, data);
    }
  }

  lemma HeaderPrefix(o: Opts, data: seq<byte>)
    requires Packable(o) && Padded(Header(o)) <= data
    ensures At(data, 0, Header(o))
    ensures |Padded(Header(o))| == HeaderSize(o.headerVersion) + Pad(HeaderSize(o.headerVersion))
  {
    hide Header;
    var h := Header(o);
    assert data[..|h|] == Padded(h)[..|h|] == h;
  }

  /** Packing loses nothing: no two canonical option sets give the same image, nor one a prefix of
      the other. */
  lemma ImageUnique(o: Opts, o': Opts)
    requires Canonical(o) && Canonical(o') && Image(o) <= Image(o')
    ensures o == o'
  {
    hide Image, SectionsOf, ParseBoot;
    RoundTrip(o, Image(o'));
    RoundTrip(o', Image(o'));
  }

  // ----- the command line at the old offset

  /** Both grow by the same bytes behind their first `n`. */
  lemma SameGrowth(b: seq<byte>, b': seq<byte>, s: seq<byte>, n: nat)
    requires |b| == |b'| && n <= |b| && b[n..] == b'[n..]
    ensures var (r, r') := (AddSection(b, s), AddSection(b', s));
            && |r| == |r'| && n <= |r| && r[..n] == b[..n] && r'[..n] == b'[..n] && r[n..] == r'[n..]
  {
    if s != [] {
      var t := s + Zeros(Pad(|b| + |s|));
      assert AddSection(b, s) == b + t && AddSection(b', s) == b' + t;
      assert (b + t)[n..] == b[n..] + t && (b' + t)[n..] == b'[n..] + t;
    }
  }

  lemma SamePadding(h: seq<byte>, h': seq<byte>)
    requires |h| == |h'|
    ensures |Padded(h)| == |Padded(h')| >= |h| && Padded(h)[..|h|] == h && Padded(h')[..|h|] == h'
    ensures Padded(h)[|h|..] == Padded(h')[|h|..]
  {
  }

  /** Asked for, the command line is also at offset 64 when it fits there, over what it covers of the first copy;
      no other byte of the image differs. When it does not fit, nothing differs. */
  lemma LegacyCopy(o: Opts)
    requires Packable(o) && o.legacyCmdlineOffset
    ensures var (i, i') := (Image(o), Image(o.(legacyCmdlineOffset := false)));
            if 64 + |o.cmdline| < HeaderSize(o.headerVersion)
            then |i'| >= HeaderSize(o.headerVersion) && i == Patch(i', 64, o.cmdline) else i == i'
  {
    hide AddSection, Padded, Header, Patch;
    var o' := o.(legacyCmdlineOffset := false);
    var (h, h', n) := (FinalHeader(o), FinalHeader(o'), HeaderSize(o.headerVersion));
    assert Header(o) == Header(o') by { SameHeader(o); }
    SamePadding(h, h');
    var (b0, b0') := (Padded(h), Padded(h'));
    SameGrowth(b0, b0', o.kernel, n);
    var (b1, b1') := (AddSection(b0, o.kernel), AddSection(b0', o.kernel));
    SameGrowth(b1, b1', o.ramdisk, n);
    var (b2, b2') := (AddSection(b1, o.ramdisk), AddSection(b1', o.ramdisk));
    SameGrowth(b2, b2', o.signature, n);
    var (i, i') := (Image(o), Image(o'));
    assert i[..n] == h && i'[..n] == h' && i[n..] == i'[n..] && |i| == |i'|;
    assert i == i[..n] + i[n..] && i' == i'[..n] + i'[n..];
    if CMDLINE_OFF_V0 + |o.cmdline| < n {
      PatchFront(h', i'[n..], CMDLINE_OFF_V0, o.cmdline);
    }
  }

  lemma SameHeader(o: Opts)
    requires Packable(o)
    ensures Header(o) == Header(o.(legacyCmdlineOffset := false))
  {
  }

  lemma PatchFront(a: seq<byte>, b: seq<byte>, off: nat, v: seq<byte>)
    requires off + |v| <= |a|
    ensures Patch(a + b, off, v) == Patch(a, off, v) + b
  {
  }

  // ----- verify

  /** The options that `verify` packs again. */
  function Reread(data: seq<byte>): Option<Opts> {
    var h := ParseBoot(data);
    if h.None? then None
    else
      var p := SectionsOf(h.value, data);
      if p.None? then None
      else Some(Opts(p.value.kernel, p.value.ramdisk, p.value.signature, CStr(h.value.cmdline),
                     h.value.osVersion, h.value.headerVersion, false))
  }

  /** `verify`: parse, repack and compare as far as both reach. */
  method Verify(data: seq<byte>) returns (ok: bool)
    ensures ok <==> Passes(data)
  {
    hide SectionsOf, Image, CStr, Packable;
    var h := ParseBoot(data);
    if h.None? {
      return false;
    }
    var p := Sections(h.value, data);
    if p.None? {
      return false;
    }
    hide ParseBoot;
    var rebuilt := PackBoot(Opts(p.value.kernel, p.value.ramdisk, p.value.signature, CStr(h.value.cmdline),
                                 h.value.osVersion, h.value.headerVersion, false));
    if rebuilt.Err? {
      return false;
    }
    var n := if |rebuilt.value| < |data| then |rebuilt.value| else |data|;
    PrefixAgree(rebuilt.value, data, n);
    return rebuilt.value[..n] == data[..n];
  }

  lemma PrefixAgree(a: seq<byte>, b: seq<byte>, n: nat)
    requires n == if |a| < |b| then |a| else |b|
    ensures a[..n] == b[..n] <==> a <= b || b <= a
  {
  }

  predicate Passes(data: seq<byte>) {
    var o := Reread(data);
    o.Some? && Packable(o.value) && (Image(o.value) <= data || data <= Image(o.value))
  }

  lemma RereadCanonical(data: seq<byte>)
    requires Reread(data).Some? && Packable(Reread(data).value)
    ensures Canonical(Reread(data).value)
  {
  }

  /** What `verify` proves: an image passes, and is not shorter than its rebuild, exactly when it
      starts with a packed image; and that image then is its rebuild. */
  lemma VerifyExact(data: seq<byte>)
    ensures (Passes(data) && |Image(Reread(data).value)| <= |data|)
            <==> exists o :: Canonical(o) && Image(o) <= data
    ensures forall o :: Canonical(o) && Image(o) <= data ==> Reread(data) == Some(o)
  {
    hide Image, SectionsOf, ParseBoot;
    forall o | Canonical(o) && Image(o) <= data ensures Reread(data) == Some(o) {
      RoundTrip(o, data);
    }
    if Passes(data) && |Image(Reread(data).value)| <= |data| {
      RereadCanonical(data);
      assert Image(Reread(data).value) <= data;
    }
  }

  /** The length condition is needed: an image cut off inside its last padding still passes. */
  lemma VerifyAcceptsCutPadding(o: Opts)
    requires Canonical(o) && o.ramdisk == [] && o.signature == [] && Pad(|o.kernel|) > 0
    ensures var data := Padded(Header(o)) + o.kernel;
            Passes(data) && !exists o' :: Canonical(o') && Image(o') <= data
  {
    hide Header, ParseBoot;
    var b0 := Padded(Header(o));
    var data := b0 + o.kernel;
    HeaderPrefix(o, data);
    HeaderRead(data, o);
    CmdlineRead(o);
    assert data[|b0|..|b0| + |o.kernel|] == o.kernel;
    assert SectionsOf(HdrOf(o), data) == Some(Parts(o.kernel, [], []));
    assert Reread(data) == Some(o);
    assert Image(o) == Padded(data);
    assert data <= Image(o) && |data| < |Image(o)|;
    forall o' | Canonical(o') && Image(o') <= data ensures false {
      PrefixTransitive(Image(o'), data, Image(o));
      ImageUnique(o', o);
    }
  }
}
