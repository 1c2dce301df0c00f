/**
 The two Python readers of the same boot image, and the kernel-only rewrite of the dtbswap payload.
 Decompression is a parameter: `gunzip` maps a gzip stream to its contents, or to nothing.
 */
module Payload {
  import opened Bytes
  import opened Outcomes
  import opened BootImage

  function ArmMagic(): seq<byte> { [0x41, 0x52, 0x4d, 0x64] }

  function FdtMagic(): seq<byte> { [0xd0, 0x0d, 0xfe, 0xed] }

  function Lz4Magic(): seq<byte> { [0x02, 0x21, 0x4c, 0x18] }

  function AvbMagic(): seq<byte> { [0x41, 0x56, 0x42, 0x30] }

  /** A slice in the source's sense: cut off at the end of the sequence. */
  function Slice(s: seq<byte>, from: nat, to: nat): seq<byte>
    requires from <= to
  {
    if from >= |s| then [] else if to >= |s| then s[from..] else s[from..to]
  }

  datatype Table = Table(dtbOff: U32, dtbLen: U32, kernOff: U32, kernLen: U32)

  function TableOf(payload: seq<byte>): Table
    requires |payload| >= 80
  {
    Table(GetLE32(payload, 64), GetLE32(payload, 68), GetLE32(payload, 72), GetLE32(payload, 76))
  }

  /** What the kernel updater requires of a payload. */
  predicate PayloadOk(payload: seq<byte>) {
    && |payload| >= 80 && payload[56..60] == ArmMagic()
    && var t := TableOf(payload);
    && 80 <= t.dtbOff < t.dtbOff + t.dtbLen <= t.kernOff
    && t.kernOff + t.kernLen == |payload| && t.kernLen > 0
    && Slice(payload, t.dtbOff, t.dtbOff + 4) == FdtMagic()
  }

  datatype Unpacked = Unpacked(payload: seq<byte>, kernOff: nat, ramdisk: seq<byte>, signature: seq<byte>, end: nat)

  function AlignPage(n: nat): nat {
    (n + 4095) / 4096 * 4096
  }

  /** `unpack` of the local kernel updater. */
  function Unpack(data: seq<byte>, gunzip: seq<byte> -> Option<seq<byte>>): Option<Unpacked> {
    if |data| < 4096 || data[..8] != Magic() then None
    else
      var (k, r, osv, hs) := (GetLE32(data, 8), GetLE32(data, 12), GetLE32(data, 16), GetLE32(data, 20));
      if GetLE32(data, 40) != 4 || hs != 1584 || osv != 0x1800_017B || GetLE32(data, 1580) != 4096 then None
      else
        var roff := 4096 + AlignPage(k);
        var soff := roff + AlignPage(r);
        var end := soff + 4096;
        if !(0 < k < 64 * 1024 * 1024 && r > 0 && end <= |data|) then None
        else
          var payload := gunzip(data[4096..4096 + k]);
          if payload.None? || !PayloadOk(payload.value) then None
          else
            var (ramdisk, signature) := (data[roff..roff + r], data[soff..end]);
            if Slice(ramdisk, 0, 4) != Lz4Magic() || Slice(signature, 0, 4) != AvbMagic() then None
            else Some(Unpacked(payload.value, TableOf(payload.value).kernOff, ramdisk, signature, end))
  }

  /** `boot_inner_kernel` of the artifact verifier. */
  function InnerKernel(data: seq<byte>, gunzip: seq<byte> -> Option<seq<byte>>): Option<seq<byte>> {
    if |data| < 4096 || data[..8] != Magic() then None
    else
      var k := GetLE32(data, 8);
      if k <= 0 || 4096 + k > |data| then None
      else
        var blob := gunzip(data[4096..4096 + k]);
        if blob.None? || |blob.value| < 80 || blob.value[56..60] != ArmMagic() then None
        else
          var t := TableOf(blob.value);
          if t.dtbOff <= 0 || t.dtbLen <= 0 || t.kernOff <= t.dtbOff || t.kernLen <= 0 then None
          else if t.dtbOff + t.dtbLen > |blob.value| then None
          else if Slice(blob.value, t.dtbOff, t.dtbOff + 4) != FdtMagic() then None
          else if t.kernOff + t.kernLen != |blob.value| then None
          else Some(blob.value[t.kernOff..t.kernOff + t.kernLen])
  }

  lemma AlignFrom(m: nat, n: nat)
    requires m % 4096 == 0
    ensures m + AlignPage(n) == m + n + Pad(m + n)
  {
    var a := m / 4096;
    assert m == 4096 * a;
    assert (m + n) % 4096 == n % 4096;
    assert n == 4096 * (n / 4096) + n % 4096;
  }

  lemma SectionsSelect(data: seq<byte>, gunzip: seq<byte> -> Option<seq<byte>>)
    requires Unpack(data, gunzip).Some?
    ensures var (u, k) := (Unpack(data, gunzip).value, GetLE32(data, 8));
            var h := ParseBoot(data);
            && h.Some? && h.value.headerVersion == 4 && k <= 64 * 1024 * 1024 && 4096 + k <= |data|
            && gunzip(data[4096..4096 + k]) == Some(u.payload) && |u.signature| == 4096
            && SectionsOf(h.value, data) == Some(Parts(data[4096..4096 + k], u.ramdisk, u.signature))
  {
    hide GetLE32, Magic, Slice, PayloadOk, Pad, TableOf, AlignPage;
    var (k, r) := (GetLE32(data, 8), GetLE32(data, 12));
    HeaderPad();
    AlignBounds(k);
    AlignBounds(r);
    AlignFrom(4096, k);
    var roff := 4096 + AlignPage(k);
    AlignFrom(roff, r);
    var soff := roff + AlignPage(r);
    assert Take(data, 4096, k) == Some((data[4096..4096 + k], roff));
    assert Take(data, roff, r) == Some((data[roff..roff + r], soff));
    assert Take(data, soff, 4096).value.0 == data[soff..soff + 4096];
  }

  lemma AlignBounds(n: nat)
    ensures n <= AlignPage(n) && AlignPage(n) % PAGE == 0
    ensures forall m: nat :: m % PAGE == 0 ==> (m + AlignPage(n)) % PAGE == 0
  {
  }

  lemma InnerSelects(data: seq<byte>, gunzip: seq<byte> -> Option<seq<byte>>)
    requires Unpack(data, gunzip).Some?
    ensures var u := Unpack(data, gunzip).value;
            u.kernOff <= |u.payload| && InnerKernel(data, gunzip) == Some(u.payload[u.kernOff..])
  {
    hide GetLE32, Magic, Slice, ArmMagic, FdtMagic, AlignPage;
    var (k, r) := (GetLE32(data, 8), GetLE32(data, 12));
    AlignBounds(k);
    AlignBounds(r);
    var u := Unpack(data, gunzip).value;
    assert u.payload[u.kernOff..] == u.payload[u.kernOff..u.kernOff + TableOf(u.payload).kernLen];
  }

  /** An image the updater accepts is accepted by the other two readers, and all three select the
      same bytes: the same compressed payload, ramdisk and signature, and the same inner kernel. */
  lemma ReadersAgree(data: seq<byte>, gunzip: seq<byte> -> Option<seq<byte>>)
    requires Unpack(data, gunzip).Some?
    ensures var u := Unpack(data, gunzip).value;
            var h := ParseBoot(data);
            && h.Some? && h.value.headerVersion == 4
            && var p := SectionsOf(h.value, data);
            && p.Some? && gunzip(p.value.kernel) == Some(u.payload)
            && p.value.ramdisk == u.ramdisk && p.value.signature == u.signature && |u.signature| == 4096
            && u.kernOff <= |u.payload| && InnerKernel(data, gunzip) == Some(u.payload[u.kernOff..])
  {
    hide Unpack, ParseBoot, SectionsOf, InnerKernel, GetLE32;
    SectionsSelect(data, gunzip);
    InnerSelects(data, gunzip);
  }

  // ----- which images are accepted

  /** What the updater accepts, said with the fields and sections that `mkboot` reads. */
  ghost predicate Acceptable(data: seq<byte>, gunzip: seq<byte> -> Option<seq<byte>>) {
    var h := ParseBoot(data);
    && h.Some? && h.value.headerVersion == 4 && h.value.headerSize == 1584
    && h.value.osVersion == 0x1800_017B && h.value.signatureSize == 4096
    && 0 < h.value.kernelSize < 64 * 1024 * 1024 && h.value.ramdiskSize > 0
    && var p := SectionsOf(h.value, data);
    && p.Some? && gunzip(p.value.kernel).Some? && PayloadOk(gunzip(p.value.kernel).value)
    && Slice(p.value.ramdisk, 0, 4) == Lz4Magic() && Slice(p.value.signature, 0, 4) == AvbMagic()
  }

  /** The sections of such a header lie where the updater looks for them. */
  lemma SectionsLie(data: seq<byte>, h: Hdr)
    requires h.headerVersion == 4 && h.signatureSize == 4096 && h.kernelSize > 0 && h.ramdiskSize > 0
    ensures var roff := 4096 + AlignPage(h.kernelSize);
            var soff := roff + AlignPage(h.ramdiskSize);
            && (SectionsOf(h, data).Some? <==> soff + 4096 <= |data|)
            && 4096 + h.kernelSize <= roff && roff + h.ramdiskSize <= soff
            && (soff + 4096 <= |data| ==>
                  SectionsOf(h, data)
                  == Some(Parts(data[4096..4096 + h.kernelSize], data[roff..roff + h.ramdiskSize],
                                data[soff..soff + 4096])))
  {
    hide Pad, AlignPage;
    HeaderPad();
    AlignBounds(h.kernelSize);
    AlignBounds(h.ramdiskSize);
    AlignFrom(4096, h.kernelSize);
    AlignFrom(4096 + AlignPage(h.kernelSize), h.ramdiskSize);
  }

  /** The updater accepts exactly these images, and takes exactly these parts. */
  lemma UnpackExactly(data: seq<byte>, gunzip: seq<byte> -> Option<seq<byte>>)
    ensures Unpack(data, gunzip).Some? <==> Acceptable(data, gunzip)
    ensures Acceptable(data, gunzip) ==>
              var (h, u) := (ParseBoot(data).value, Unpack(data, gunzip).value);
              var p := SectionsOf(h, data).value;
              && gunzip(p.kernel) == Some(u.payload) && u.kernOff == TableOf(u.payload).kernOff
              && u.ramdisk == p.ramdisk && u.signature == p.signature
              && u.end == 4096 + AlignPage(h.kernelSize) + AlignPage(h.ramdiskSize) + 4096
  {
    hide GetLE32, Magic, Slice, PayloadOk, TableOf, AlignPage, SectionsOf;
    if ParseBoot(data).Some? {
      var h := ParseBoot(data).value;
      if h.headerVersion == 4 && h.signatureSize == 4096 && h.kernelSize > 0 && h.ramdiskSize > 0 {
        SectionsLie(data, h);
      }
    }
  }

  /** A boot image for this device: the parts the updater asks for. */
  ghost predicate DeviceImage(o: Opts, payload: seq<byte>, gunzip: seq<byte> -> Option<seq<byte>>) {
    && Canonical(o) && o.headerVersion == 4 && o.osVersion == 0x1800_017B
    && |o.kernel| < 64 * 1024 * 1024 && gunzip(o.kernel) == Some(payload) && PayloadOk(payload)
    && |o.ramdisk| >= 4 && o.ramdisk[..4] == Lz4Magic()
    && |o.signature| == 4096 && o.signature[..4] == AvbMagic()
  }

  /** Every such image, as `mkboot` packs it and with anything behind it, is accepted with exactly its parts; the
      same image with another OS version is not. */
  lemma PackedIsAccepted(o: Opts, payload: seq<byte>, gunzip: seq<byte> -> Option<seq<byte>>, data: seq<byte>)
    requires DeviceImage(o, payload, gunzip) && Image(o) <= data
    ensures var u := Unpack(data, gunzip);
            && u.Some? && u.value.payload == payload && u.value.kernOff == TableOf(payload).kernOff
            && u.value.ramdisk == o.ramdisk && u.value.signature == o.signature
    ensures forall v: U32 | v != o.osVersion :: Unpack(Image(o.(osVersion := v)), gunzip).None?
  {
    hide Image, Unpack, PayloadOk, TableOf, SectionsOf, ParseBoot, CStr, Header, Zeros, LE32, AlignPage;
    RoundTrip(o, data);
    SliceFirst(o.ramdisk);
    SliceFirst(o.signature);
    UnpackExactly(data, gunzip);
    forall v: U32 | v != o.osVersion ensures Unpack(Image(o.(osVersion := v)), gunzip).None? {
      var o' := o.(osVersion := v);
      RoundTrip(o', Image(o'));
      UnpackExactly(Image(o'), gunzip);
    }
  }

  lemma SliceFirst(s: seq<byte>)
    requires |s| >= 4
    ensures Slice(s, 0, 4) == s[..4]
  {
    if |s| == 4 {
      assert s[0..] == s[..4];
    }
  }

  /** The payload holds `kernel` behind a devicetree, as the artifact verifier wants it. */
  ghost predicate Carries(payload: seq<byte>, kernel: seq<byte>) {
    && |payload| >= 80 && payload[56..60] == ArmMagic()
    && var t := TableOf(payload);
    && 0 < t.dtbOff < t.kernOff && 0 < t.dtbLen && t.dtbOff + t.dtbLen <= |payload|
    && t.dtbOff + 4 <= |payload| && payload[t.dtbOff..t.dtbOff + 4] == FdtMagic()
    && kernel != [] && t.kernLen == |kernel| && t.kernOff <= |payload| && payload[t.kernOff..] == kernel
  }

  /** The artifact verifier finds a kernel exactly when the image's first section holds a payload that carries it. */
  lemma InnerExactly(data: seq<byte>, gunzip: seq<byte> -> Option<seq<byte>>, kernel: seq<byte>)
    ensures InnerKernel(data, gunzip) == Some(kernel) <==>
              && |data| >= 4096 && data[..8] == Magic()
              && var k := GetLE32(data, 8);
              && 0 < k && 4096 + k <= |data|
              && gunzip(data[4096..4096 + k]).Some? && Carries(gunzip(data[4096..4096 + k]).value, kernel)
  {
    hide GetLE32, Magic, ArmMagic, TableOf;
    if |data| >= 4096 && 4096 + GetLE32(data, 8) <= |data| && gunzip(data[4096..4096 + GetLE32(data, 8)]).Some? {
      var payload := gunzip(data[4096..4096 + GetLE32(data, 8)]).value;
      if |payload| >= 80 {
        var t := TableOf(payload);
        SliceWithin(payload, t.dtbOff);
        if t.kernOff + t.kernLen == |payload| {
          assert payload[t.kernOff..t.kernOff + t.kernLen] == payload[t.kernOff..];
        }
      }
    }
  }

  lemma SliceWithin(s: seq<byte>, off: nat)
    ensures Slice(s, off, off + 4) == FdtMagic() <==> off + 4 <= |s| && s[off..off + 4] == FdtMagic()
  {
    if off < |s| && off + 4 >= |s| {
      assert Slice(s, off, off + 4) == s[off..];
      assert off + 4 == |s| ==> s[off..] == s[off..off + 4];
    }
  }

  lemma HeaderPad()
    ensures HEADER_V4 + Pad(HEADER_V4) == 4096
  {
  }

  // ----- the kernel rewrite

  /** The kernel-only rewrite, on values: keep everything before the kernel, append the new one, and
      store its length and the length of the whole payload. */
  function Rewritten(payload: seq<byte>, koff: nat, kernel: seq<byte>): seq<byte>
    requires 80 <= koff <= |payload| && |kernel| < TWO32 && koff + |kernel| < TWO64
  {
    var p := payload[..koff] + kernel;
    Patch(Patch(p, 76, LE32(|kernel|)), 16, LE32(|p| % TWO32) + LE32(|p| / TWO32))
  }

  method PackInto(buf: array<byte>, off: nat, word: seq<byte>)
    requires off + |word| <= buf.Length
    modifies buf
    ensures buf[..] == Patch(old(buf[..]), off, word)
  {
    for i := 0 to |word|
      invariant forall j :: 0 <= j < buf.Length ==>
                  buf[j] == if off <= j < off + i then word[j - off] else old(buf[j])
    {
      buf[off + i] := word[i];
    }
  }

  /** The rewrite as the updater does it, patching one buffer in place. A kernel whose length does
      not fit the 32-bit field is an error there. */
  method Rewrite(payload: seq<byte>, koff: nat, kernel: seq<byte>) returns (r: Option<seq<byte>>)
    requires 80 <= koff <= |payload| && koff + |kernel| < TWO64
    ensures r.None? <==> |kernel| >= TWO32
    ensures r.Some? ==> r.value == Rewritten(payload, koff, kernel)
  {
    if |kernel| >= TWO32 {
      return None;
    }
    var p := payload[..koff] + kernel;
    var buf := new byte[|p|](i requires 0 <= i < |p| => p[i]);
    assert buf[..] == p;
    PackInto(buf, 76, LE32(|kernel|));
    PackInto(buf, 16, LE32(|p| % TWO32) + LE32(|p| / TWO32));
    return Some(buf[..]);
  }

  lemma PatchReads(s: seq<byte>, off: nat, n: U32)
    requires off + 4 <= |s|
    ensures GetLE32(Patch(s, off, LE32(n)), off) == n
  {
    hide LE32;
    var p := Patch(s, off, LE32(n));
    assert p[off..off + 4] == LE32(n);
    AtLE32(p, off, n);
  }

  lemma PatchElsewhere(s: seq<byte>, off: nat, w: seq<byte>, i: nat)
    requires off + |w| <= |s| && i + 4 <= |s| && (i + 4 <= off || off + |w| <= i)
    ensures GetLE32(Patch(s, off, w), i) == GetLE32(s, i)
  {
  }

  /** What the rewrite of an accepted payload keeps: the table but for the kernel length, the
      devicetree bytes and their offset; and the kernel in it is exactly the new one. */
  lemma RewriteKeeps(payload: seq<byte>, kernel: seq<byte>)
    requires PayloadOk(payload) && |kernel| < TWO32
    ensures var t := TableOf(payload);
            var p := Rewritten(payload, t.kernOff, kernel);
            && |p| == t.kernOff + |kernel| && p[56..60] == ArmMagic()
            && TableOf(p) == t.(kernLen := |kernel|)
            && p[t.dtbOff..t.dtbOff + t.dtbLen] == payload[t.dtbOff..t.dtbOff + t.dtbLen]
            && p[80..t.kernOff] == payload[80..t.kernOff]
            && p[..16] == payload[..16] && p[24..76] == payload[24..76]
            && GetLE32(p, 16) + TWO32 * GetLE32(p, 20) == |p|
            && p[t.kernOff..] == kernel
  {
    hide LE32, GetLE32, ArmMagic, FdtMagic;
    var t := TableOf(payload);
    var p0 := payload[..t.kernOff] + kernel;
    var w := LE32(|p0| % TWO32) + LE32(|p0| / TWO32);
    var p1 := Patch(p0, 76, LE32(|kernel|));
    var p := Patch(p1, 16, w);
    TableKept(payload, t.kernOff, kernel);
    PatchReads(p0, 76, |kernel|);
    PatchElsewhere(p1, 16, w, 76);
    PatchElsewhere(p1, 16, w, 64);
    PatchElsewhere(p1, 16, w, 68);
    PatchElsewhere(p1, 16, w, 72);
    PatchElsewhere(p0, 76, LE32(|kernel|), 64);
    PatchElsewhere(p0, 76, LE32(|kernel|), 68);
    PatchElsewhere(p0, 76, LE32(|kernel|), 72);
    LengthRead(p1, |p0|);
    assert forall i :: 80 <= i < |p| ==> p[i] == p0[i];
    assert p[56..60] == payload[56..60];
    assert p[t.dtbOff..t.dtbOff + t.dtbLen] == payload[t.dtbOff..t.dtbOff + t.dtbLen];
    assert p[t.kernOff..] == kernel;
  }

  lemma LengthRead(s: seq<byte>, n: nat)
    requires |s| >= 24 && n < TWO64
    ensures var p := Patch(s, 16, LE32(n % TWO32) + LE32(n / TWO32));
            GetLE32(p, 16) == n % TWO32 && GetLE32(p, 20) == n / TWO32
  {
    hide LE32, GetLE32;
    var (lo, hi) := (LE32(n % TWO32), LE32(n / TWO32));
    var p := Patch(s, 16, lo + hi);
    assert p[16..24] == lo + hi;
    AtConcat(p, 16, lo, hi);
    AtLE32(p, 16, n % TWO32);
    AtLE32(p, 20, n / TWO32);
  }

  lemma TableKept(payload: seq<byte>, koff: nat, kernel: seq<byte>)
    requires 80 <= koff <= |payload|
    ensures var p := payload[..koff] + kernel;
            GetLE32(p, 64) == GetLE32(payload, 64) && GetLE32(p, 68) == GetLE32(payload, 68)
            && GetLE32(p, 72) == GetLE32(payload, 72)
  {
  }

  /** How many of the four magic bytes at the devicetree offset belong to the kernel. Nothing in the
      table rules this out: a devicetree of one to three bytes may stand right before the kernel. */
  function Overhang(t: Table): nat {
    if t.dtbOff + 4 <= t.kernOff then 0 else t.dtbOff + 4 - t.kernOff
  }

  /** The rewrite of an accepted payload is accepted again exactly when the new kernel is not empty
      and supplies the magic bytes that overhang into it; with a devicetree of at least four bytes
      there are none. */
  lemma RewriteAcceptedIff(payload: seq<byte>, kernel: seq<byte>)
    requires PayloadOk(payload) && |kernel| < TWO32
    ensures var t := TableOf(payload);
            var n := Overhang(t);
            && n <= 3 && (t.dtbLen >= 4 ==> n == 0)
            && (PayloadOk(Rewritten(payload, t.kernOff, kernel))
                <==> kernel != [] && n <= |kernel| && kernel[..n] == FdtMagic()[4 - n..])
  {
    var t := TableOf(payload);
    var p := Rewritten(payload, t.kernOff, kernel);
    var n := Overhang(t);
    RewriteKeeps(payload, kernel);
    hide TableOf, Rewritten, ArmMagic;
    SliceJoin(payload, p, kernel, t.dtbOff, t.kernOff, n);
  }

  lemma SliceJoin(payload: seq<byte>, p: seq<byte>, kernel: seq<byte>, off: nat, koff: nat, n: nat)
    requires 80 <= off < koff < |payload| && koff + |kernel| == |p|
    requires p[80..koff] == payload[80..koff] && p[koff..] == kernel
    requires Slice(payload, off, off + 4) == FdtMagic()
    requires n == if off + 4 <= koff then 0 else off + 4 - koff
    ensures Slice(p, off, off + 4) == FdtMagic() <==> n <= |kernel| && kernel[..n] == FdtMagic()[4 - n..]
  {
    hide FdtMagic;
    MagicSizes();
    var m := FdtMagic();
    assert payload[off..off + 4] == m;
    if n <= |kernel| {
      var s := p[off..off + 4];
      SliceTail(p, kernel, off, koff, n);
      SliceHead(payload, p, off, koff, 4 - n);
      assert s == s[..4 - n] + s[4 - n..] && m == m[..4 - n] + m[4 - n..];
    }
  }

  lemma SliceHead(payload: seq<byte>, p: seq<byte>, off: nat, koff: nat, n: nat)
    requires 80 <= off && off + n <= koff <= |payload| && koff <= |p| && p[80..koff] == payload[80..koff]
    requires n <= 4 && off + 4 <= |p| && off + 4 <= |payload|
    ensures p[off..off + 4][..n] == payload[off..off + 4][..n]
  {
    KeptBytes(payload, p, koff);
  }

  lemma SliceTail(p: seq<byte>, kernel: seq<byte>, off: nat, koff: nat, n: nat)
    requires koff <= |p| && p[koff..] == kernel && n <= |kernel| && n <= 4 && off + 4 <= |p|
    requires n > 0 ==> koff + n == off + 4
    ensures p[off..off + 4][4 - n..] == kernel[..n]
  {
    if n > 0 {
      forall i | 0 <= i < n ensures p[off..off + 4][4 - n..][i] == kernel[i] {
        assert p[koff..][i] == p[koff + i];
      }
    }
  }

  lemma KeptBytes(payload: seq<byte>, p: seq<byte>, koff: nat)
    requires 80 <= koff <= |payload| && koff <= |p| && p[80..koff] == payload[80..koff]
    ensures forall i :: 80 <= i < koff ==> p[i] == payload[i]
  {
    forall i | 80 <= i < koff ensures p[i] == payload[i] {
      assert p[i] == p[80..koff][i - 80] && payload[i] == payload[80..koff][i - 80];
    }
  }

  /** A payload with a one-byte devicetree right before its kernel: the magic is split between them. */
  function Tiny(): (p: seq<byte>)
    ensures |p| == 84
  {
    Zeros(56) + (ArmMagic() + (Zeros(4) + ((LE32(80) + (LE32(1) + (LE32(81) + LE32(3)))) + FdtMagic())))
  }

  lemma TinyOk()
    ensures PayloadOk(Tiny()) && TableOf(Tiny()) == Table(80, 1, 81, 3)
  {
    hide LE32, GetLE32, Zeros, ArmMagic, FdtMagic, TableOf, At;
    MagicSizes();
    var p := Tiny();
    var table := LE32(80) + (LE32(1) + (LE32(81) + LE32(3)));
    AtWhole(p);
    AtConcat(p, 0, Zeros(56), ArmMagic() + (Zeros(4) + (table + FdtMagic())));
    AtConcat(p, 56, ArmMagic(), Zeros(4) + (table + FdtMagic()));
    AtConcat(p, 60, Zeros(4), table + FdtMagic());
    AtConcat(p, 64, table, FdtMagic());
    AtSize(p, 56, ArmMagic());
    AtSize(p, 64, table);
    AtSize(p, 80, FdtMagic());
    TableRead(p, 80, 1, 81, 3);
  }

  lemma AtWhole(p: seq<byte>)
    ensures At(p, 0, p)
  {
  }

  lemma MagicSizes()
    ensures |ArmMagic()| == 4 && |FdtMagic()| == 4
  {
  }

  /** The smallest kernel that passes for an arm64 image: zeros and, at 56, its magic. */
  function TinyKernel(): (k: seq<byte>)
    ensures |k| == 60 && k[56..60] == ArmMagic() && k[0] == 0
  {
    Zeros(56) + ArmMagic()
  }

  /** The payload above is accepted, but its rewrite with a kernel that has the arm64 magic the updater asks for is
      not: it does not start with the rest of the devicetree magic. */
  lemma RewriteCanFail()
    ensures PayloadOk(Tiny()) && TinyKernel()[56..60] == ArmMagic()
    ensures !PayloadOk(Rewritten(Tiny(), TableOf(Tiny()).kernOff, TinyKernel()))
  {
    hide Tiny, PayloadOk, Rewritten, TableOf, TinyKernel;
    TinyOk();
    RewriteAcceptedIff(Tiny(), TinyKernel());
    assert TinyKernel()[..3][0] != FdtMagic()[1..][0];
  }

  lemma TableRead(payload: seq<byte>, a: U32, b: U32, c: U32, d: U32)
    requires |payload| >= 80 && payload[64..80] == LE32(a) + (LE32(b) + (LE32(c) + LE32(d)))
    ensures TableOf(payload) == Table(a, b, c, d)
  {
    hide LE32, GetLE32;
    AtConcat(payload, 64, LE32(a), LE32(b) + (LE32(c) + LE32(d)));
    AtConcat(payload, 68, LE32(b), LE32(c) + LE32(d));
    AtConcat(payload, 72, LE32(c), LE32(d));
    AtLE32(payload, 64, a);
    AtLE32(payload, 68, b);
    AtLE32(payload, 72, c);
    AtLE32(payload, 76, d);
  }
}
