/**
 The boot stub itself: relocate the kernel, copy the bootloader's run-time values into our
 devicetree in place, and choose which tree the kernel gets.
 */
module DtbSwap {
  import opened Bytes
  import opened Outcomes
  import opened Fdt
  import opened FdtEdit
  import opened FdtFind

  // ----- the tree transformation

  /** The tree with the value of the first property that `q` selects replaced by `v`. */
  ghost function SetFirst(f: Items, strs: seq<byte>, q: Query, v: Value): Items
    requires Lookup(f, strs, q).Some?
  {
    PropertiesCount(f, 0, []);
    Replace(f, First(AllProps(f), strs, q), v)
  }

  lemma FirstSame(es: seq<Entry>, k: nat, v: Value, strs: seq<byte>, q: Query)
    requires k < |es|
    ensures First(WithValue(es, k, v), strs, q) == First(es, strs, q)
  {
    var es' := WithValue(es, k, v);
    var a, b := First(es, strs, q), First(es', strs, q);
    assert forall i :: 0 <= i < |es| ==> (Selects(es'[i], strs, q) <==> Selects(es[i], strs, q));
  }

  /** Setting one property: it now has the new value where it was, every property with another
      name is found as before, and of the whole property list one value changed. */
  lemma SetFirstLookup(f: Items, strs: seq<byte>, q: Query, v: Value, q': Query)
    requires Lookup(f, strs, q).Some? && |v| == |Lookup(f, strs, q).value.value|
    ensures AllProps(SetFirst(f, strs, q, v)) == WithValue(AllProps(f), First(AllProps(f), strs, q), v)
    ensures Lookup(SetFirst(f, strs, q, v), strs, q) == Some(Lookup(f, strs, q).value.(value := v))
    ensures q'.prop != q.prop ==> Lookup(SetFirst(f, strs, q, v), strs, q') == Lookup(f, strs, q')
  {
    hide Selects;
    var es := AllProps(f);
    var k := First(es, strs, q);
    PropertiesCount(f, 0, []);
    ReplaceProperties(f, k, v, 0, []);
    FirstSame(es, k, v, strs, q);
    FirstSame(es, k, v, strs, q');
    if q'.prop != q.prop && First(es, strs, q') < |es| {
      SelectsOneName(es[k], es[First(es, strs, q')], strs, q, q');
    }
  }

  lemma SelectsOneName(e: Entry, e': Entry, strs: seq<byte>, q: Query, q': Query)
    requires Selects(e, strs, q) && Selects(e', strs, q') && q.prop != q'.prop
    ensures e != e'
  {
  }

  // ----- memory

  ghost predicate Apart(a: nat, alen: nat, b: nat, blen: nat) {
    a + alen <= b || b + blen <= a
  }

  ghost function AfterSet(v: View, q: Query, val: Value): View
    requires |v.blob| >= HEADER_SIZE
    requires Lookup(v.tree, v.strs, q).Some?
    requires DataOff(v, q) + |val| <= |v.blob|
  {
    v.(tree := SetFirst(v.tree, v.strs, q, val), blob := Patch(v.blob, DataOff(v, q), val))
  }

  /** Where in the blob the data of the property starts. */
  ghost function DataOff(v: View, q: Query): nat
    requires |v.blob| >= HEADER_SIZE && Lookup(v.tree, v.strs, q).Some?
  {
    GetBE32(v.blob, OFF_DT_STRUCT) + Lookup(v.tree, v.strs, q).value.off
  }

  lemma PatchKeepsBE32(b: seq<byte>, off: nat, val: seq<byte>, i: nat)
    requires off + |val| <= |b| && i + 4 <= off
    ensures GetBE32(Patch(b, off, val), i) == GetBE32(b, i)
  {
  }

  lemma PatchApart(m: seq<byte>, off: nat, val: seq<byte>, p: nat, s: seq<byte>)
    requires off + |val| <= |m| && At(m, p, s) && Apart(p, |s|, off, |val|)
    ensures At(Patch(m, off, val), p, s)
  {
    assert Patch(m, off, val)[p..p + |s|] == m[p..p + |s|];
  }

  lemma PatchWithin(m: seq<byte>, p: nat, s: seq<byte>, off: nat, val: seq<byte>)
    requires At(m, p, s) && off + |val| <= |s|
    ensures At(Patch(m, p + off, val), p, Patch(s, off, val))
  {
    var m' := Patch(m, p + off, val);
    forall i | 0 <= i < |s| ensures m'[p..p + |s|][i] == Patch(s, off, val)[i] {
      AtIndex(m, p, s, i);
    }
    assert m'[p..p + |s|] == Patch(s, off, val);
  }

  /** Overwriting the data of a property in place leaves a blob that holds the changed tree. */
  lemma PatchBlob(v: View, q: Query, val: Value)
    requires IsBlob(v.blob, v.tree, v.strs)
    requires Lookup(v.tree, v.strs, q).Some? && |val| == |Lookup(v.tree, v.strs, q).value.value|
    ensures HEADER_SIZE <= DataOff(v, q) && DataOff(v, q) + |val| <= |v.blob|
    ensures var v' := AfterSet(v, q, val); IsBlob(v'.blob, v'.tree, v'.strs)
  {
    hide Encode, At, Properties, First, GetBE32, Patch, Replace;
    var e, k := Lookup(v.tree, v.strs, q).value, First(AllProps(v.tree), v.strs, q);
    PropertiesCount(v.tree, 0, []);
    ReplaceEncode(v.tree, k, val, 0, []);
    ReplaceNamed(v.tree, k, val, v.strs);
    var os := GetBE32(v.blob, OFF_DT_STRUCT);
    PatchLeft(Encode(v.tree), BE32(FDT_END), e.off, val);
    assert Block(Replace(v.tree, k, val)) == Patch(Block(v.tree), e.off, val);
    AtBounds(v.blob, os, Block(v.tree));
    PatchWithin(v.blob, os, Block(v.tree), e.off, val);
    AtBounds(v.blob, GetBE32(v.blob, OFF_DT_STRINGS), v.strs);
    PatchApart(v.blob, os + e.off, val, GetBE32(v.blob, OFF_DT_STRINGS), v.strs);
    PatchKeepsBE32(v.blob, os + e.off, val, 4);
    PatchKeepsBE32(v.blob, os + e.off, val, OFF_DT_STRUCT);
    PatchKeepsBE32(v.blob, os + e.off, val, OFF_DT_STRINGS);
    PatchKeepsBE32(v.blob, os + e.off, val, SIZE_DT_STRUCT);
    PatchKeepsBE32(v.blob, os + e.off, val, SIZE_DT_STRINGS);
  }

  /** The same, for a blob in memory. */
  lemma PatchView(m: seq<byte>, v: View, q: Query, val: Value)
    requires Holds(m, v)
    requires Lookup(v.tree, v.strs, q).Some? && |val| == |Lookup(v.tree, v.strs, q).value.value|
    ensures DataOff(v, q) + |val| <= |v.blob| && v.base + |v.blob| <= |m|
    ensures Holds(Patch(m, v.base + DataOff(v, q), val), AfterSet(v, q, val))
  {
    hide IsBlob, Lookup, SetFirst;
    PatchBlob(v, q, val);
    PatchWithin(m, v.base, v.blob, DataOff(v, q), val);
  }

  /** `memcpy_`, on non-overlapping ranges (or a copy downwards). */
  method MemCpy(mem: array<byte>, d: nat, s: nat, n: nat)
    requires s + n <= mem.Length && d + n <= mem.Length
    requires d <= s || s + n <= d
    modifies mem
    ensures mem[..] == Patch(old(mem[..]), d, old(mem[s..s + n]))
  {
    hide Patch;
    ghost var m := mem[..];
    var i := 0;
    while i < n
      invariant i <= n
      invariant forall j :: d <= j < d + i ==> mem[j] == m[j - d + s]
      invariant forall j :: 0 <= j < mem.Length && !(d <= j < d + i) ==> mem[j] == m[j]
    {
      mem[d + i] := mem[s + i];
      i := i + 1;
    }
    CopiedRange(m, mem[..], d, s, n);
  }

  lemma CopiedRange(m: seq<byte>, m': seq<byte>, d: nat, s: nat, n: nat)
    requires |m'| == |m| && s + n <= |m| && d + n <= |m|
    requires forall j :: d <= j < d + n ==> m'[j] == m[j - d + s]
    requires forall j :: 0 <= j < |m| && !(d <= j < d + n) ==> m'[j] == m[j]
    ensures m' == Patch(m, d, m[s..s + n])
  {
  }

  /** `memcpy_` from read-only data. */
  method MemCpyIn(mem: array<byte>, d: nat, bytes: seq<byte>)
    requires d + |bytes| <= mem.Length
    modifies mem
    ensures mem[..] == Patch(old(mem[..]), d, bytes)
  {
    var i := 0;
    while i < |bytes|
      invariant i <= |bytes|
      invariant forall j :: 0 <= j < mem.Length ==>
                  mem[j] == if d <= j < d + i then bytes[j - d] else old(mem[j])
    {
      mem[d + i] := bytes[i];
      i := i + 1;
    }
  }

  // ----- what is copied

  const CHOSEN: Name := [0x63, 0x68, 0x6f, 0x73, 0x65, 0x6e]  // chosen
  const MEMORY: Name := [0x6d, 0x65, 0x6d, 0x6f, 0x72, 0x79]  // memory
  const BOOTARGS := Query(CHOSEN, [0x62, 0x6f, 0x6f, 0x74, 0x61, 0x72, 0x67, 0x73])  // bootargs
  const INITRD_START := Query(CHOSEN, [0x6c, 0x69, 0x6e, 0x75, 0x78, 0x2c,  // linux,initrd-start
                                       0x69, 0x6e, 0x69, 0x74, 0x72, 0x64, 0x2d, 0x73, 0x74, 0x61, 0x72, 0x74])
  const INITRD_END := Query(CHOSEN, [0x6c, 0x69, 0x6e, 0x75, 0x78, 0x2c,  // linux,initrd-end
                                     0x69, 0x6e, 0x69, 0x74, 0x72, 0x64, 0x2d, 0x65, 0x6e, 0x64])
  const MEMORY_REG := Query(MEMORY, [0x72, 0x65, 0x67])  // reg

  /** The properties by name. */
  lemma BootargsSpelled()
    ensures BOOTARGS.node == Ascii("chosen") && BOOTARGS.prop == Ascii("bootargs")
  {
  }

  lemma InitrdStartSpelled()
    ensures INITRD_START.node == CHOSEN && INITRD_START.prop == Ascii("linux,initrd-start")
  {
  }

  lemma InitrdEndSpelled()
    ensures INITRD_END.node == CHOSEN && INITRD_END.prop == Ascii("linux,initrd-end")
  {
  }

  lemma MemorySpelled()
    ensures MEMORY_REG.node == Ascii("memory") && MEMORY_REG.prop == Ascii("reg")
  {
  }

  const EXTRA_LEN := 117

  const UNUSED_A := " pd_ignore_unused clk_ignore_unused"
  const UNUSED_B := " regulator_ignore_unused"
  const PROBE_STAGE := " mtk_cmdq_mailbox.jagar_mt6789_probe_stage=4"
  const CMA := " cma=256M@0-4G"

  /** The flags our tree needs that the bootloader's command line never carries. */
  function ExtraArgs(): (r: seq<byte>)
    ensures |r| == EXTRA_LEN
  {
    Ascii(UNUSED_A + UNUSED_B + PROBE_STAGE + CMA)
  }

  /** Our bootargs property once filled: the bootloader's command line up to its NUL, our extra
      flags, and NULs to the end. */
  ghost function Filled(cmdline: seq<byte>, len: nat): (r: seq<byte>)
    requires |CStr(cmdline, 0)| + EXTRA_LEN + 1 <= len
    ensures |r| == len
  {
    var s := CStr(cmdline, 0) + ExtraArgs();
    s + Zeros(len - |s|)
  }

  lemma {:induction false} CStrOf(s: Name, tail: seq<byte>, i: nat)
    requires i <= |s| && tail != [] && tail[0] == 0
    ensures CStr(s + tail, i) == s[i..]
    decreases |s| - i
  {
    if i < |s| {
      CStrOf(s, tail, i + 1);
    }
  }

  lemma ExtraArgsNulFree()
    ensures NulFree(ExtraArgs())
  {
    hide NulFree, IsPlain;
    PlainUnusedA();
    PlainUnusedB();
    PlainProbeStage();
    PlainCma();
    Plain(UNUSED_A, UNUSED_B, PROBE_STAGE, CMA);
  }

  predicate IsPlain(s: string) {
    forall x :: x in s ==> 0 < x as int < 128
  }

  lemma PlainUnusedA() ensures IsPlain(UNUSED_A) {}

  lemma PlainUnusedB() ensures IsPlain(UNUSED_B) {}

  lemma PlainProbeStage() ensures IsPlain(PROBE_STAGE) {}

  lemma PlainCma() ensures IsPlain(CMA) {}

  lemma Plain(a: string, b: string, c: string, d: string)
    requires IsPlain(a) && IsPlain(b) && IsPlain(c) && IsPlain(d)
    ensures NulFree(Ascii(a + b + c + d))
  {
    var s := a + b + c + d;
    forall i | 0 <= i < |s| ensures Ascii(s)[i] != 0 {
      assert s[i] in s;
    }
  }

  /** Read as a C string, the filled property is the bootloader's command line followed by the
      extra flags: nothing is truncated and nothing runs on. */
  lemma FilledReads(cmdline: seq<byte>, len: nat)
    requires |CStr(cmdline, 0)| + EXTRA_LEN + 1 <= len
    ensures CStr(Filled(cmdline, len), 0) == CStr(cmdline, 0) + ExtraArgs()
  {
    hide CStr, ExtraArgs;
    ExtraArgsNulFree();
    var s := CStr(cmdline, 0) + ExtraArgs();
    CStrOf(s, Zeros(len - |s|), 0);
  }

  lemma {:induction false} ReplaceSame(f: Items, k: nat, pos: nat, path: Path)
    requires k < Count(f) == |Properties(f, pos, path)|
    ensures Replace(f, k, Properties(f, pos, path)[k].value) == f
  {
    match f
    case Nop(rest) => ReplaceSame(rest, k, pos + 4, path);
    case Prop(nameOff, value, rest) =>
      EntryOfProp(nameOff, value, rest, k, pos, path);
      if k > 0 { ReplaceSame(rest, k - 1, pos + PropSize(value), path); }
    case Node(name, body, rest) =>
      EntryOfNode(name, body, rest, k, pos, path);
      var inner := pos + NodeHeadSize(name);
      if k < Count(body) { ReplaceSame(body, k, inner, path + [name]); }
      else { ReplaceSame(rest, k - Count(body), inner + Size(body) + 4, path); }
  }

  lemma EntryInBlock(f: Items, k: nat)
    requires k < Count(f) == |AllProps(f)|
    ensures At(Block(f), AllProps(f)[k].off, AllProps(f)[k].value)
  {
    hide Properties, Encode;
    var e := AllProps(f)[k];
    ReplaceSame(f, k, 0, []);
    ReplaceEncode(f, k, e.value, 0, []);
    assert Patch(Encode(f), e.off, e.value)[e.off..e.off + |e.value|] == e.value;
    assert Block(f)[e.off..e.off + |e.value|] == Encode(f)[e.off..e.off + |e.value|];
  }

  /** The data of a property that the lookup returns is in memory at the address it gives. */
  lemma DataAt(m: seq<byte>, v: View, q: Query)
    requires Holds(m, v) && Lookup(v.tree, v.strs, q).Some?
    ensures |v.blob| >= HEADER_SIZE
    ensures DataOff(v, q) + |ValueOf(v, q)| <= |v.blob| && v.base + |v.blob| <= |m|
    ensures At(m, v.base + DataOff(v, q), ValueOf(v, q))
  {
    hide Properties, Block, GetBE32, At;
    var e := Lookup(v.tree, v.strs, q).value;
    PropertiesCount(v.tree, 0, []);
    EntryInBlock(v.tree, First(AllProps(v.tree), v.strs, q));
    AtWithin(v.blob, GetBE32(v.blob, OFF_DT_STRUCT), Block(v.tree), e.off, e.value);
    AtWithin(m, v.base, v.blob, DataOff(v, q), e.value);
    AtBounds(v.blob, DataOff(v, q), e.value);
    AtBounds(m, v.base, v.blob);
  }

  ghost function ValueOf(v: View, q: Query): Value {
    var e := Lookup(v.tree, v.strs, q);
    if e.Some? then e.value.value else []
  }

  ghost predicate Has(v: View, q: Query) {
    Lookup(v.tree, v.strs, q).Some?
  }

  /** `m'` is `m` with the property of `d` overwritten by `val`. */
  ghost predicate Overwritten(m: seq<byte>, m': seq<byte>, d: View, q: Query, val: Value) {
    && |d.blob| >= HEADER_SIZE && Has(d, q)
    && DataOff(d, q) + |val| <= |d.blob| && d.base + |d.blob| <= |m|
    && m' == Patch(m, d.base + DataOff(d, q), val)
  }

  method CopyExact(mem: array<byte>, dst: nat, src: nat, q: Query, ghost d: View, ghost s: View) returns (ok: bool)
    requires Holds(mem[..], d) && Holds(mem[..], s) && dst == d.base && src == s.base
    requires Apart(d.base, |d.blob|, s.base, |s.blob|)
    modifies mem
    ensures ok <==> Has(d, q) && Has(s, q) && |ValueOf(d, q)| == |ValueOf(s, q)|
    ensures !ok ==> mem[..] == old(mem[..])
    ensures ok ==> Overwritten(old(mem[..]), mem[..], d, q, ValueOf(s, q))
  {
    hide IsBlob, Lookup, At, Patch, GetBE32;
    var from := Find(mem, src, q, s);
    var to := Find(mem, dst, q, d);
    if from == None || to == None || from.value.len != to.value.len {
      return false;
    }
    ghost var m := mem[..];
    DataAt(m, s, q);
    DataAt(m, d, q);
    AtSlice(m, s.base + DataOff(s, q), ValueOf(s, q));
    MemCpy(mem, to.value.addr, from.value.addr, from.value.len);
    return true;
  }

  lemma AtSlice(m: seq<byte>, p: nat, s: seq<byte>)
    requires At(m, p, s)
    ensures p + |s| <= |m| && m[p..p + |s|] == s
  {
  }

  lemma AtFirst(m: seq<byte>, p: nat, s: seq<byte>, n: nat)
    requires At(m, p, s) && n <= |s|
    ensures p + |s| <= |m| && m[p..p + n] == s[..n]
  {
    assert m[p..p + n] == m[p..p + |s|][..n];
  }

  /** The room the stub asks for, in the source's 32-bit arithmetic. */
  function RoomNeeded(n: nat): nat {
    (n + EXTRA_LEN + 1) % TWO32
  }

  /** The guard decides as the true sum would if and only if the sum does not wrap, or refuses all the same. */
  lemma GuardExact(n: nat, dlen: nat)
    requires n < TWO32 && dlen < TWO32
    ensures (RoomNeeded(n) > dlen <==> n + EXTRA_LEN + 1 > dlen)
            <==> n < TWO32 - EXTRA_LEN - 1 || RoomNeeded(n) > dlen
  {
  }

  /** The guard decides rightly for this pair of trees; `RoomyExact` shows that this is what it says. */
  ghost predicate Roomy(d: View, s: View, q: Query) {
    Has(d, q) && Has(s, q) ==>
      var n := |CStr(ValueOf(s, q), 0)|;
      n < TWO32 - EXTRA_LEN - 1 || RoomNeeded(n) > |ValueOf(d, q)|
  }

  /** What `copy_bootargs` does before it writes: both properties are there and the guard lets them through. */
  ghost predicate Admitted(d: View, s: View, q: Query) {
    Has(d, q) && Has(s, q) && RoomNeeded(|CStr(ValueOf(s, q), 0)|) <= |ValueOf(d, q)|
  }

  /** The command line is admitted exactly when it fits, for these trees, if and only if they are roomy. */
  lemma RoomyExact(d: View, s: View, q: Query)
    ensures Roomy(d, s, q) <==> (Admitted(d, s, q) <==> CmdlineFits(d, s, q))
  {
    hide CStr, Lookup;
    CStrShort(ValueOf(s, q), 0);
    GuardExact(|CStr(ValueOf(s, q), 0)|, |ValueOf(d, q)|);
  }

  lemma {:induction false} CStrShort(s: seq<byte>, i: nat)
    ensures i <= |s| ==> |CStr(s, i)| <= |s| - i
    decreases |s| - i
  {
    if i < |s| && s[i] != 0 {
      CStrShort(s, i + 1);
    }
  }

  ghost predicate CmdlineFits(d: View, s: View, q: Query) {
    && Has(d, q) && Has(s, q)
    && |CStr(ValueOf(s, q), 0)| + EXTRA_LEN + 1 <= |ValueOf(d, q)|
  }

  /** Length of the string in a buffer that need not be terminated. */
  method StrNLen(mem: array<byte>, p: nat, max: nat, ghost val: seq<byte>) returns (n: nat)
    requires At(mem[..], p, val) && |val| == max
    ensures n == |CStr(val, 0)| <= max && CStr(val, 0) == val[..n]
  {
    n := 0;
    while n < max && mem[p + n] != 0
      invariant n <= max
      invariant CStr(val, 0) == val[..n] + CStr(val, n)
    {
      AtIndex(mem[..], p, val, n);
      CStrStep(val, 0, n, val);
      n := n + 1;
    }
    if n < max {
      AtIndex(mem[..], p, val, n);
    }
  }

  /** `copy_bootargs`, for the query `q` that selects the command line. */
  method CopyBootargs(mem: array<byte>, dst: nat, src: nat, q: Query, ghost d: View, ghost s: View) returns (ok: bool)
    requires Holds(mem[..], d) && Holds(mem[..], s) && dst == d.base && src == s.base
    requires Apart(d.base, |d.blob|, s.base, |s.blob|) && Roomy(d, s, q)
    modifies mem
    ensures ok <==> CmdlineFits(d, s, q)
    ensures !ok ==> mem[..] == old(mem[..])
    ensures ok ==> Overwritten(old(mem[..]), mem[..], d, q, Filled(ValueOf(s, q), |ValueOf(d, q)|))
  {
    hide IsBlob, Lookup, At, Patch, GetBE32, CStr, ExtraArgs, Filled, NulFree, Zeros;
    var from := Find(mem, src, q, s);
    var to := Find(mem, dst, q, d);
    if from == None || to == None {
      return false;
    }
    ghost var m := mem[..];
    DataAt(m, s, q);
    DataAt(m, d, q);
    ghost var sval := ValueOf(s, q);
    var n := StrNLen(mem, from.value.addr, from.value.len, sval);
    var a, dlen := to.value.addr, to.value.len;
    if RoomNeeded(n) > dlen {
      return false;
    }
    AtFirst(m, from.value.addr, sval, n);
    FillBootargs(mem, a, from.value.addr, n, dlen, sval);
    return true;
  }

  /** Copy the command line, append the extra flags, clear the rest. */
  method FillBootargs(mem: array<byte>, a: nat, s: nat, n: nat, dlen: nat, ghost cmdline: seq<byte>)
    requires s + n <= mem.Length && a + dlen <= mem.Length && n + EXTRA_LEN + 1 <= dlen
    requires a <= s || s + n <= a
    requires mem[s..s + n] == CStr(cmdline, 0)
    modifies mem
    ensures mem[..] == Patch(old(mem[..]), a, Filled(cmdline, dlen))
  {
    hide Patch, NulFree, CStr, ExtraArgs, Zeros;
    ghost var m := mem[..];
    MemCpy(mem, a, s, n);
    MemCpyIn(mem, a + n, ExtraArgs());
    ZeroFill(mem, a + n + EXTRA_LEN, dlen - n - EXTRA_LEN);
    PatchThrice(m, a, m[s..s + n], ExtraArgs(), Zeros(dlen - n - EXTRA_LEN));
  }

  method ZeroFill(mem: array<byte>, d: nat, n: nat)
    requires d + n <= mem.Length
    modifies mem
    ensures mem[..] == Patch(old(mem[..]), d, Zeros(n))
  {
    var i := 0;
    while i < n
      invariant i <= n
      invariant forall j :: 0 <= j < mem.Length ==> mem[j] == if d <= j < d + i then 0 else old(mem[j])
    {
      mem[d + i] := 0;
      i := i + 1;
    }
  }

  lemma PatchThrice(m: seq<byte>, a: nat, x: seq<byte>, y: seq<byte>, z: seq<byte>)
    requires a + |x| + |y| + |z| <= |m|
    ensures Patch(Patch(Patch(m, a, x), a + |x|, y), a + |x| + |y|, z) == Patch(m, a, x + y + z)
  {
  }

  // ----- a blob that defeats the guard

  /** The 40 bytes of a header for these sizes. */
  function HeaderOf(structSize: Cell, stringsSize: Cell, stringsOff: Cell, total: Cell): (h: seq<byte>)
    ensures |h| == HEADER_SIZE
  {
    BE32(FDT_MAGIC) + (BE32(total) + (BE32(HEADER_SIZE) + (BE32(stringsOff)
      + (Zeros(16) + (BE32(stringsSize) + BE32(structSize))))))
  }

  /** Header, structure block, strings block. */
  function BlobOf(tree: Items, strs: seq<byte>): seq<byte>
    requires HEADER_SIZE + |Block(tree)| + |strs| < TWO32
  {
    var n := |Block(tree)|;
    HeaderOf(n, |strs|, HEADER_SIZE + n, HEADER_SIZE + n + |strs|) + (Block(tree) + strs)
  }

  lemma HeaderFields(b: seq<byte>, structSize: Cell, stringsSize: Cell, stringsOff: Cell, total: Cell)
    requires At(b, 0, HeaderOf(structSize, stringsSize, stringsOff, total))
    ensures |b| >= HEADER_SIZE && GetBE32(b, 0) == FDT_MAGIC && GetBE32(b, 4) == total
    ensures GetBE32(b, OFF_DT_STRUCT) == HEADER_SIZE && GetBE32(b, OFF_DT_STRINGS) == stringsOff
    ensures GetBE32(b, SIZE_DT_STRINGS) == stringsSize && GetBE32(b, SIZE_DT_STRUCT) == structSize
  {
    hide At, BE32, GetBE32, Zeros;
    var h5 := BE32(stringsSize) + BE32(structSize);
    var h3 := BE32(stringsOff) + (Zeros(16) + h5);
    AtBounds(b, 0, HeaderOf(structSize, stringsSize, stringsOff, total));
    AtConcat(b, 0, BE32(FDT_MAGIC), BE32(total) + (BE32(HEADER_SIZE) + h3));
    AtConcat(b, 4, BE32(total), BE32(HEADER_SIZE) + h3);
    AtConcat(b, 8, BE32(HEADER_SIZE), h3);
    AtConcat(b, 12, BE32(stringsOff), Zeros(16) + h5);
    AtConcat(b, 16, Zeros(16), h5);
    AtConcat(b, 32, BE32(stringsSize), BE32(structSize));
    AtBE32(b, 0, FDT_MAGIC);
    AtBE32(b, 4, total);
    AtBE32(b, 8, HEADER_SIZE);
    AtBE32(b, 12, stringsOff);
    AtBE32(b, 32, stringsSize);
    AtBE32(b, 36, structSize);
  }

  /** Every tree with its names that fits into 4 GiB has a blob. */
  lemma BlobOfIsBlob(tree: Items, strs: seq<byte>)
    requires Named(tree, strs) && HEADER_SIZE + |Block(tree)| + |strs| < TWO32
    ensures IsBlob(BlobOf(tree, strs), tree, strs) && GetBE32(BlobOf(tree, strs), 0) == FDT_MAGIC
  {
    hide At, Block, GetBE32, HeaderOf, Named;
    var b, n := BlobOf(tree, strs), |Block(tree)|;
    var h := HeaderOf(n, |strs|, HEADER_SIZE + n, HEADER_SIZE + n + |strs|);
    WholeAt(b);
    AtConcat(b, 0, h, Block(tree) + strs);
    AtConcat(b, HEADER_SIZE, Block(tree), strs);
    HeaderFields(b, n, |strs|, HEADER_SIZE + n, HEADER_SIZE + n + |strs|);
  }

  lemma WholeAt(b: seq<byte>)
    ensures At(b, 0, b)
  {
  }

  /** A command line of `n` letters and no NUL. */
  function Letters(n: nat): (s: seq<byte>)
    ensures |s| == n && NulFree(s)
  {
    seq(n, _ => 0x61)
  }

  const WRAP_LEN := TWO32 - EXTRA_LEN - 1

  function WrapTree(): Items {
    Node([], Node(CHOSEN, Prop(0, Letters(WRAP_LEN), Nil), Nil), Nil)
  }

  function BootargsName(): seq<byte> {
    BOOTARGS.prop + [0]
  }

  lemma {:induction false} CStrWhole(s: seq<byte>, i: nat)
    requires NulFree(s) && i <= |s|
    ensures CStr(s, i) == s[i..]
    decreases |s| - i
  {
    if i < |s| {
      hide NulFree;
      assert s[i] != 0 by { NoNul(s, i); }
      CStrWhole(s, i + 1);
    }
  }

  lemma NoNul(s: seq<byte>, i: nat)
    requires NulFree(s) && i < |s|
    ensures s[i] != 0
  {
  }

  lemma WrapTreeSize()
    ensures |Block(WrapTree())| == TWO32 - 72
  {
    hide Encode, Letters;
    EncodeSize(WrapTree());
    var value := Letters(WRAP_LEN);
    assert PropSize(value) == TWO32 - 104;
    assert Size(Prop(0, value, Nil)) == TWO32 - 104;
    assert Size(Node(CHOSEN, Prop(0, value, Nil), Nil)) == TWO32 - 88;
  }

  lemma WrapTreeLookup()
    ensures var e := Lookup(WrapTree(), BootargsName(), BOOTARGS);
            e.Some? && e.value.value == Letters(WRAP_LEN)
  {
    hide Letters, CStr;
    var value := Letters(WRAP_LEN);
    var leaf := Prop(0, value, Nil);
    var chosen := Node(CHOSEN, leaf, Nil);
    var path: Path := [[], CHOSEN];
    assert Properties(leaf, 20, path) == [Entry(path, 0, value, 32)];
    var none: Path, root: Path := [], [[]];
    assert root + [CHOSEN] == path;
    assert Properties(chosen, 8, root) == [Entry(path, 0, value, 32)];
    var rootName: Name := [];
    assert none + [rootName] == root;
    assert AllProps(WrapTree()) == [Entry(path, 0, value, 32)];
    CStrOf(BOOTARGS.prop, [0], 0);
    assert Selects(AllProps(WrapTree())[0], BootargsName(), BOOTARGS);
  }

  /** The wrap can be reached: there is a well-formed bootloader tree whose command line the guard admits into every
      property there is, and which fits into none. */
  lemma GuardCanFail() returns (s: View)
    ensures IsBlob(s.blob, s.tree, s.strs) && GetBE32(s.blob, 0) == FDT_MAGIC
    ensures forall d: View | Has(d, BOOTARGS) :: Admitted(d, s, BOOTARGS) && !CmdlineFits(d, s, BOOTARGS)
  {
    hide IsBlob, Lookup, Block, GetBE32, CStr, Letters, WrapTree, Named;
    WrapTreeSize();
    WrapTreeLookup();
    WrapTreeNamed();
    BlobOfIsBlob(WrapTree(), BootargsName());
    s := View(0, BlobOf(WrapTree(), BootargsName()), WrapTree(), BootargsName());
    CStrWhole(Letters(WRAP_LEN), 0);
    assert |CStr(ValueOf(s, BOOTARGS), 0)| == WRAP_LEN;
  }

  lemma WrapTreeNamed()
    ensures Named(WrapTree(), BootargsName())
  {
    assert BootargsName()[8] == 0;
    assert Terminated(BootargsName(), 0);
  }

  // ----- the whole swap

  /** The blob with one property overwritten, when it has that property with that length. */
  ghost function SetIn(v: View, q: Query, val: Value): View {
    if IsBlob(v.blob, v.tree, v.strs) && Has(v, q) && |val| == |ValueOf(v, q)| then
      PatchBlob(v, q, val);
      AfterSet(v, q, val)
    else v
  }

  /** Every value to copy exists on both sides and fits. */
  ghost predicate Swappable(our: View, lk: View) {
    && CmdlineFits(our, lk, BOOTARGS)
    && Has(our, INITRD_START) && Has(lk, INITRD_START) && |ValueOf(our, INITRD_START)| == |ValueOf(lk, INITRD_START)|
    && Has(our, INITRD_END) && Has(lk, INITRD_END) && |ValueOf(our, INITRD_END)| == |ValueOf(lk, INITRD_END)|
    && Has(our, MEMORY_REG) && Has(lk, MEMORY_REG) && |ValueOf(our, MEMORY_REG)| == |ValueOf(lk, MEMORY_REG)|
  }

  /** The property can be copied as it is. */
  ghost predicate Copyable(our: View, lk: View, q: Query) {
    Has(our, q) && Has(lk, q) && |ValueOf(our, q)| == |ValueOf(lk, q)|
  }

  /** The number of bars for the first copy that cannot be made. */
  ghost function FailedStep(our: View, lk: View): nat {
    if !CmdlineFits(our, lk, BOOTARGS) then 4
    else if !Copyable(our, lk, INITRD_START) then 5
    else if !Copyable(our, lk, INITRD_END) then 6
    else 7
  }

  ghost function Swapped(our: View, lk: View): View
    requires CmdlineFits(our, lk, BOOTARGS)
  {
    var v1 := SetIn(our, BOOTARGS, Filled(ValueOf(lk, BOOTARGS), |ValueOf(our, BOOTARGS)|));
    var v2 := SetIn(v1, INITRD_START, ValueOf(lk, INITRD_START));
    var v3 := SetIn(v2, INITRD_END, ValueOf(lk, INITRD_END));
    SetIn(v3, MEMORY_REG, ValueOf(lk, MEMORY_REG))
  }

  /** One copy: the blob still is one at the same place, the property has its new value, the
      properties with other names are found as before, and one value of the property list changed. */
  lemma SetInKeeps(v: View, q: Query, val: Value)
    requires IsBlob(v.blob, v.tree, v.strs) && Has(v, q) && |val| == |ValueOf(v, q)|
    ensures var w := SetIn(v, q, val);
            && IsBlob(w.blob, w.tree, w.strs)
            && w.base == v.base && w.strs == v.strs && |w.blob| == |v.blob|
            && Has(w, q) && ValueOf(w, q) == val
            && (forall q': Query | q'.prop != q.prop ::
                  (Has(w, q') <==> Has(v, q')) && ValueOf(w, q') == ValueOf(v, q'))
    ensures var (es, k) := (AllProps(v.tree), First(AllProps(v.tree), v.strs, q));
            && k < |es| && AllProps(SetIn(v, q, val).tree) == WithValue(es, k, val)
            && (forall q': Query :: First(AllProps(SetIn(v, q, val).tree), v.strs, q') == First(es, v.strs, q'))
  {
    hide IsBlob, Patch, SetFirst, Properties;
    PatchBlob(v, q, val);
    var es, k := AllProps(v.tree), First(AllProps(v.tree), v.strs, q);
    forall q': Query
      ensures First(WithValue(es, k, val), v.strs, q') == First(es, v.strs, q')
      ensures q'.prop != q.prop ==> Lookup(SetFirst(v.tree, v.strs, q, val), v.strs, q') == Lookup(v.tree, v.strs, q')
    {
      SetFirstLookup(v.tree, v.strs, q, val, q');
      FirstSame(es, k, val, v.strs, q');
    }
    SetFirstLookup(v.tree, v.strs, q, val, q);
  }

  /** The lists agree except, possibly, in the value at the first entry each of the four selects. */
  ghost predicate SameButFour(es: seq<Entry>, es': seq<Entry>, strs: seq<byte>) {
    && |es'| == |es|
    && forall i :: 0 <= i < |es| ==>
         && es'[i] == es[i].(value := es'[i].value)
         && (es'[i] == es[i] || i == First(es, strs, BOOTARGS) || i == First(es, strs, INITRD_START)
             || i == First(es, strs, INITRD_END) || i == First(es, strs, MEMORY_REG))
  }

  /** The swapped blob: in the tree it holds, the four properties have the bootloader's values
      (so no later copy disturbed an earlier one) and every other entry of the property list, in
      the same order and at the same offset, is as it was. */
  lemma SwapChangesFour(our: View, lk: View)
    requires IsBlob(our.blob, our.tree, our.strs) && Swappable(our, lk)
    ensures var w := Swapped(our, lk);
            && IsBlob(w.blob, w.tree, w.strs) && |w.blob| == |our.blob|
            && ValueOf(w, BOOTARGS) == Filled(ValueOf(lk, BOOTARGS), |ValueOf(our, BOOTARGS)|)
            && ValueOf(w, INITRD_START) == ValueOf(lk, INITRD_START)
            && ValueOf(w, INITRD_END) == ValueOf(lk, INITRD_END)
            && ValueOf(w, MEMORY_REG) == ValueOf(lk, MEMORY_REG)
            && SameButFour(AllProps(our.tree), AllProps(w.tree), our.strs)
  {
    hide IsBlob, Lookup, ValueOf, Has, SetIn, CStr, AllProps, First;
    var val1 := Filled(ValueOf(lk, BOOTARGS), |ValueOf(our, BOOTARGS)|);
    var v1 := SetIn(our, BOOTARGS, val1);
    var v2 := SetIn(v1, INITRD_START, ValueOf(lk, INITRD_START));
    var v3 := SetIn(v2, INITRD_END, ValueOf(lk, INITRD_END));
    SetInKeeps(our, BOOTARGS, val1);
    SetInKeeps(v1, INITRD_START, ValueOf(lk, INITRD_START));
    SetInKeeps(v2, INITRD_END, ValueOf(lk, INITRD_END));
    SetInKeeps(v3, MEMORY_REG, ValueOf(lk, MEMORY_REG));
  }

  // ----- the stub

  datatype PayloadTable = PayloadTable(dtbOff: nat, dtbLen: nat, kernOff: nat, kernLen: nat)

  const KERNEL_RELOC_PA := 0x4400_0000

  /** A word in memory says that a blob starts here, and a blob does. */
  ghost predicate Plausible(m: seq<byte>, v: View) {
    && |v.blob| >= 4 && At(m, v.base, v.blob)
    && (GetBE32(v.blob, 0) == FDT_MAGIC ==> IsBlob(v.blob, v.tree, v.strs))
  }

  ghost predicate Magic(v: View) {
    |v.blob| >= 4 && GetBE32(v.blob, 0) == FDT_MAGIC
  }

  /** The memory a run works on: both trees and both places of the kernel, apart from each other
      as far as the stub writes. A null bootloader pointer is address 0. */
  ghost predicate Laid(m: seq<byte>, lk: View, our: View, kernSrc: nat, kernLen: nat) {
    && kernSrc + kernLen <= |m| && KERNEL_RELOC_PA + kernLen <= |m|
    && (KERNEL_RELOC_PA <= kernSrc || kernSrc + kernLen <= KERNEL_RELOC_PA)
    && Plausible(m, our) && Apart(our.base, |our.blob|, KERNEL_RELOC_PA, kernLen)
    && (lk.base != 0 ==>
          && Plausible(m, lk) && Roomy(our, lk, BOOTARGS)
          && Apart(lk.base, |lk.blob|, KERNEL_RELOC_PA, kernLen)
          && Apart(lk.base, |lk.blob|, our.base, |our.blob|))
  }

  /** When the kernel gets our tree. */
  ghost predicate Succeeds(lk: View, our: View) {
    lk.base != 0 && Magic(lk) && Magic(our) && Swappable(our, lk)
  }

  /** The number of bars on the panel when the kernel gets the bootloader's tree. */
  ghost function Outcome(lk: View, our: View): nat {
    if lk.base == 0 || !Magic(lk) then 2 else if !Magic(our) then 3 else FailedStep(our, lk)
  }

  /** Between `m` and `m'` nothing changed outside the `len` bytes from `base` on. */
  ghost predicate OnlyWithin(m: seq<byte>, m': seq<byte>, base: nat, len: nat) {
    |m'| == |m| && forall a :: 0 <= a < |m| && !(base <= a < base + len) ==> m'[a] == m[a]
  }

  lemma OnlyWithinKeeps(m: seq<byte>, m': seq<byte>, base: nat, len: nat, p: nat, s: seq<byte>)
    requires OnlyWithin(m, m', base, len) && At(m, p, s) && Apart(p, |s|, base, len)
    ensures At(m', p, s)
  {
    assert m'[p..p + |s|] == m[p..p + |s|];
  }

  /** One successful copy: our blob holds the changed tree, and nothing outside it moved. */
  lemma OverwriteIsSet(m: seq<byte>, m': seq<byte>, d: View, q: Query, val: Value, s: View)
    requires Holds(m, d) && Has(d, q) && |val| == |ValueOf(d, q)| && Overwritten(m, m', d, q, val)
    requires Holds(m, s) && Apart(d.base, |d.blob|, s.base, |s.blob|)
    ensures Holds(m', SetIn(d, q, val)) && Holds(m', s)
    ensures OnlyWithin(m, m', d.base, |d.blob|)
  {
    hide IsBlob, Lookup, GetBE32, SetFirst;
    PatchView(m, d, q, val);
    assert OnlyWithin(m, m', d.base, |d.blob|);
    OnlyWithinKeeps(m, m', d.base, |d.blob|, s.base, s.blob);
  }

  class Stub {
    const mem: array<byte>
    var jumpTarget: nat
    /** Last step written to the trace word. */
    var step: nat
    /** Bars drawn on the panel: the outcome. */
    var bars: nat

    constructor (mem: array<byte>)
      ensures this.mem == mem
    {
      this.mem := mem;
      jumpTarget, step, bars := 0, 0, 0;
    }

    method Trace(n: nat)
      modifies this
      ensures step == n && jumpTarget == old(jumpTarget) && bars == old(bars)
    {
      step := n;
    }

    method Report(n: nat)
      modifies this
      ensures bars == n && jumpTarget == old(jumpTarget) && step == old(step)
    {
      bars := n;
    }

    /** The four copies, in order; `bars` counts the step that failed, or 8. */
    method Swap(ourFdt: nat, lkFdt: nat, ghost lk: View, ghost our: View) returns (ok: bool)
      requires Holds(mem[..], our) && Holds(mem[..], lk) && our.base == ourFdt && lk.base == lkFdt
      requires Apart(our.base, |our.blob|, lk.base, |lk.blob|) && Roomy(our, lk, BOOTARGS)
      modifies this, mem
      ensures jumpTarget == old(jumpTarget) && OnlyWithin(old(mem[..]), mem[..], our.base, |our.blob|)
      ensures ok <==> Swappable(our, lk)
      ensures ok ==> bars == 8 && Holds(mem[..], Swapped(our, lk))
      ensures !ok ==> bars == FailedStep(our, lk)
    {
      hide Holds, Lookup, CStr, Filled, SetIn, Roomy, AllProps, First;
      ghost var m0 := mem[..];
      ok := CopyBootargs(mem, ourFdt, lkFdt, BOOTARGS, our, lk);
      if !ok {
        Report(4);
        return;
      }
      ghost var v1 := Copied(m0, mem[..], our, BOOTARGS, Filled(ValueOf(lk, BOOTARGS), |ValueOf(our, BOOTARGS)|), lk);
      ghost var m1 := mem[..];
      Trace(5);
      ok := CopyExact(mem, ourFdt, lkFdt, INITRD_START, v1, lk);
      if !ok {
        Report(5);
        return;
      }
      ghost var v2 := Copied(m1, mem[..], v1, INITRD_START, ValueOf(lk, INITRD_START), lk);
      ghost var m2 := mem[..];
      Trace(6);
      ok := CopyExact(mem, ourFdt, lkFdt, INITRD_END, v2, lk);
      if !ok {
        Report(6);
        return;
      }
      ghost var v3 := Copied(m2, mem[..], v2, INITRD_END, ValueOf(lk, INITRD_END), lk);
      ghost var m3 := mem[..];
      Trace(7);
      ok := CopyExact(mem, ourFdt, lkFdt, MEMORY_REG, v3, lk);
      if !ok {
        Report(7);
        return;
      }
      ghost var v4 := Copied(m3, mem[..], v3, MEMORY_REG, ValueOf(lk, MEMORY_REG), lk);
      Trace(8);
      Report(8);
    }

    /** The kernel is relocated intact and the bootloader's blob is byte-identical on every path;
        the kernel gets our tree exactly when all four values could be copied, and then our blob
        holds the swapped tree; otherwise it gets the bootloader's pointer. Nothing outside our
        blob and the kernel's new place is written. */
    method Boot(lkFdt: nat, base: nat, payload: PayloadTable, ghost lk: View, ghost our: View) returns (fdt: nat)
      requires lk.base == lkFdt && our.base == base + payload.dtbOff
      requires Laid(mem[..], lk, our, base + payload.kernOff, payload.kernLen)
      modifies this, mem
      ensures jumpTarget == 0x4400_0000
      ensures At(mem[..], KERNEL_RELOC_PA,
                 old(mem[base + payload.kernOff..base + payload.kernOff + payload.kernLen]))
      ensures lkFdt != 0 ==> At(mem[..], lk.base, lk.blob)
      ensures forall a | 0 <= a < mem.Length :: our.base <= a < our.base + |our.blob|
                || KERNEL_RELOC_PA <= a < KERNEL_RELOC_PA + payload.kernLen || mem[a] == old(mem[a])
      ensures Succeeds(lk, our) ==> fdt == our.base && bars == 8 && Holds(mem[..], Swapped(our, lk))
      ensures !Succeeds(lk, our) ==> fdt == lkFdt && bars == Outcome(lk, our)
    {
      hide IsBlob, Swappable, Swapped, Roomy, GetBE32, Patch, At;
      ghost var m0 := mem[..];
      var ourFdt, kernSrc := base + payload.dtbOff, base + payload.kernOff;
      ghost var kern := m0[kernSrc..kernSrc + payload.kernLen];
      Trace(1);
      MemCpy(mem, KERNEL_RELOC_PA, kernSrc, payload.kernLen);
      jumpTarget := KERNEL_RELOC_PA;
      Trace(2);
      ghost var m1 := mem[..];
      Relocated(m0, m1, kern, lk, our);
      if lkFdt == 0 || ReadBE32(mem, lkFdt) != FDT_MAGIC {
        Report(2);
        return lkFdt;
      }
      Trace(3);
      if ReadBE32(mem, ourFdt) != FDT_MAGIC {
        Report(3);
        return lkFdt;
      }
      Trace(4);
      var ok := Swap(ourFdt, lkFdt, lk, our);
      OnlyWithinKeeps(m1, mem[..], our.base, |our.blob|, KERNEL_RELOC_PA, kern);
      OnlyWithinKeeps(m1, mem[..], our.base, |our.blob|, lk.base, lk.blob);
      return if ok then ourFdt else lkFdt;
    }
  }

  /** After the kernel copy: the kernel is in place and both trees are still where they were. */
  lemma Relocated(m0: seq<byte>, m1: seq<byte>, kern: seq<byte>, lk: View, our: View)
    requires KERNEL_RELOC_PA + |kern| <= |m0| && m1 == Patch(m0, KERNEL_RELOC_PA, kern)
    requires Plausible(m0, our) && Apart(our.base, |our.blob|, KERNEL_RELOC_PA, |kern|)
    requires lk.base != 0 ==> Plausible(m0, lk) && Apart(lk.base, |lk.blob|, KERNEL_RELOC_PA, |kern|)
    ensures OnlyWithin(m0, m1, KERNEL_RELOC_PA, |kern|) && OnlyWithin(m1, m1, our.base, |our.blob|)
    ensures At(m1, KERNEL_RELOC_PA, kern)
    ensures Plausible(m1, our) && our.base + 4 <= |m1| && (GetBE32(m1, our.base) == FDT_MAGIC <==> Magic(our))
    ensures lk.base != 0 ==>
              Plausible(m1, lk) && lk.base + 4 <= |m1| && (GetBE32(m1, lk.base) == FDT_MAGIC <==> Magic(lk))
  {
    hide IsBlob;
    assert m1[KERNEL_RELOC_PA..KERNEL_RELOC_PA + |kern|] == kern;
    OnlyWithinKeeps(m0, m1, KERNEL_RELOC_PA, |kern|, our.base, our.blob);
    HeaderField(m1, our.base, our.blob, 0);
    if lk.base != 0 {
      OnlyWithinKeeps(m0, m1, KERNEL_RELOC_PA, |kern|, lk.base, lk.blob);
      HeaderField(m1, lk.base, lk.blob, 0);
    }
  }

  /** The view of our blob after one successful copy, and all that it keeps. */
  lemma Copied(m: seq<byte>, m': seq<byte>, d: View, q: Query, val: Value, s: View) returns (w: View)
    requires Holds(m, d) && Has(d, q) && |val| == |ValueOf(d, q)| && Overwritten(m, m', d, q, val)
    requires Holds(m, s) && Apart(d.base, |d.blob|, s.base, |s.blob|)
    ensures w == SetIn(d, q, val) && Holds(m', w) && Holds(m', s)
    ensures OnlyWithin(m, m', d.base, |d.blob|)
    ensures w.base == d.base && |w.blob| == |d.blob|
    ensures forall q': Query | q'.prop != q.prop :: (Has(w, q') <==> Has(d, q')) && ValueOf(w, q') == ValueOf(d, q')
  {
    hide IsBlob, Overwritten, AllProps, First, Lookup, ValueOf, Has, At;
    w := SetIn(d, q, val);
    OverwriteIsSet(m, m', d, q, val, s);
    SetInKeeps(d, q, val);
  }
}
