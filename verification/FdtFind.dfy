/** `fdt_find` of the boot stub: a cursor over raw memory, proved to be lookup on the abstract tree. */
module FdtFind {
  import opened Bytes
  import opened Outcomes
  import opened Fdt

  const OFF_DT_STRUCT := 8
  const OFF_DT_STRINGS := 12
  const SIZE_DT_STRINGS := 32
  const SIZE_DT_STRUCT := 36
  const HEADER_SIZE := 40

  /** `b` is a devicetree blob that holds `tree`, with the strings block `strs`
      (Devicetree Specification v0.4, section 5.2). */
  ghost predicate IsBlob(b: seq<byte>, tree: Items, strs: seq<byte>) {
    && HEADER_SIZE <= |b| < TWO32
    && GetBE32(b, 4) == |b|
    && Named(tree, strs)
    && var (os, ot) := (GetBE32(b, OFF_DT_STRUCT), GetBE32(b, OFF_DT_STRINGS));
       var (ss, st) := (GetBE32(b, SIZE_DT_STRUCT), GetBE32(b, SIZE_DT_STRINGS));
    && HEADER_SIZE <= os && ss == |Block(tree)| && At(b, os, Block(tree))
    && HEADER_SIZE <= ot && st == |strs| && At(b, ot, strs)
    && (os + ss <= ot || ot + st <= os)
  }

  /** A blob in memory: where it starts, its bytes, and what they mean. */
  datatype View = View(base: nat, blob: seq<byte>, tree: Items, strs: seq<byte>)

  ghost predicate Holds(m: seq<byte>, v: View) {
    At(m, v.base, v.blob) && IsBlob(v.blob, v.tree, v.strs)
  }

  /** Address of the first byte of the structure block. */
  function StructAddr(v: View): nat
    requires |v.blob| >= HEADER_SIZE
  {
    v.base + GetBE32(v.blob, OFF_DT_STRUCT)
  }

  /** A pointer into memory and the length of what it points at. */
  datatype Slice = Slice(addr: nat, len: nat)

  function ReadBE32(mem: array<byte>, p: nat): (n: nat)
    requires p + 4 <= mem.Length
    reads mem
    ensures n == GetBE32(mem[..], p)
  {
    var (a: int, b: int, c: int, d: int) := (mem[p], mem[p + 1], mem[p + 2], mem[p + 3]);
    a * 0x100_0000 + b * 0x1_0000 + c * 0x100 + d
  }

  // ----- C strings in memory

  /** A byte of a string literal, its terminating NUL included. */
  function CharAt(s: seq<byte>, i: nat): byte
    requires i <= |s|
  {
    if i < |s| then s[i] else 0
  }

  lemma CStrStep(m: seq<byte>, a: nat, i: nat, s: seq<byte>)
    requires a + i < |m| && m[a + i] != 0 && i < |s| && m[a + i] == s[i]
    requires CStr(m, a) == s[..i] + CStr(m, a + i)
    ensures CStr(m, a) == s[..i + 1] + CStr(m, a + i + 1)
  {
    assert s[..i + 1] == s[..i] + [s[i]];
  }

  /** `streq`: the string at `a` is exactly `b`. */
  method StrEq(mem: array<byte>, a: nat, b: Name) returns (same: bool)
    requires Terminated(mem[..], a)
    ensures same <==> CStr(mem[..], a) == b
  {
    ghost var m := mem[..];
    ghost var nul :| a <= nul < |m| && m[nul] == 0;
    var i := 0;
    while mem[a + i] != 0 && mem[a + i] == CharAt(b, i)
      invariant i <= |b| && a + i <= nul
      invariant CStr(m, a) == b[..i] + CStr(m, a + i)
      decreases nul - i
    {
      CStrStep(m, a, i, b);
      i := i + 1;
    }
    same := mem[a + i] == CharAt(b, i);
    var tail := CStr(m, a + i);
    assert b == b[..i] + b[i..];
    assert same <==> tail == b[i..];
    assert CStr(m, a) == b <==> tail == b[i..] by {
      if CStr(m, a) == b { assert tail == CStr(m, a)[i..]; }
    }
  }

  method StrLen(mem: array<byte>, p: nat, ghost name: Name) returns (l: nat)
    requires At(mem[..], p, name + [0])
    ensures l == |name|
  {
    l := 0;
    AtIndex(mem[..], p, name + [0], 0);
    while mem[p + l] != 0
      invariant l <= |name| && mem[p + l] == (name + [0])[l]
      decreases |name| - l
    {
      l := l + 1;
      AtIndex(mem[..], p, name + [0], l);
    }
  }

  /** The name test: `memory` matches `memory` and `memory@40000000`. */
  method MatchNode(mem: array<byte>, a: nat, node: Name, ghost name: Name) returns (hit: bool)
    requires At(mem[..], a, name + [0])
    ensures hit <==> Matches(name, node)
  {
    var i := 0;
    ghost var s := name + [0];
    AtIndex(mem[..], a, s, 0);
    while CharAt(node, i) != 0 && mem[a + i] == CharAt(node, i)
      invariant i <= |node| && i <= |name| && mem[a + i] == s[i]
      invariant name[..i] == node[..i]
      decreases |node| - i
    {
      AtIndex(mem[..], a, s, i + 1);
      i := i + 1;
    }
    hit := CharAt(node, i) == 0 && (mem[a + i] == 0 || mem[a + i] == '@' as int);
    if i == |node| {
      assert name[..i] == node;
      assert Matches(name, node) <==> |name| == i || name[i] == '@' as int by {
        if |name| > i && name[i] == '@' as int {
          assert name[..i + 1] == node + ['@' as int];
          assert name[..i + 1] <= name;
        }
        if node + ['@' as int] <= name { assert name[i] == (node + ['@' as int])[i]; }
      }
    } else {
      assert !(node <= name);
    }
  }

  lemma {:induction false} CStrInside(m: seq<byte>, p: nat, s: seq<byte>, i: nat)
    requires At(m, p, s) && Terminated(s, i)
    ensures Terminated(m, p + i) && CStr(m, p + i) == CStr(s, i)
    decreases |s| - i
  {
    hide At, NulFree;
    var j :| i <= j < |s| && s[j] == 0;
    AtBounds(m, p, s);
    AtIndex(m, p, s, j);
    AtIndex(m, p, s, i);
    assert m[p + j] == 0;
    if s[i] != 0 {
      CStrInside(m, p, s, i + 1);
    }
  }

  lemma AtBounds(m: seq<byte>, p: nat, s: seq<byte>)
    requires At(m, p, s)
    ensures p + |s| <= |m|
  {
  }

  // ----- one token at the cursor

  ghost function LeadTag(ts: Stream): Cell {
    match ts
    case Done => FDT_END
    case Tok(TNop, _) => FDT_NOP
    case Tok(TEnd, _) => FDT_END_NODE
    case Tok(TBegin(_), _) => FDT_BEGIN_NODE
    case Tok(TProp(_, _), _) => FDT_PROP
  }

  /** What the cursor sees at the front of a token stream. */
  lemma TokenAt(m: seq<byte>, p: nat, ts: Stream)
    requires At(m, p, Flat(ts))
    ensures p + 4 <= |m| && GetBE32(m, p) == LeadTag(ts)
    ensures |Flat(ts)| >= 4
    ensures ts.Tok? ==> At(m, p + TokenSize(ts.head), Flat(ts.tail))
    ensures ts.Tok? ==> |Flat(ts)| == TokenSize(ts.head) + |Flat(ts.tail)|
    ensures ts.Tok? && ts.head.TBegin? ==> At(m, p + 4, ts.head.name + [0])
    ensures ts.Tok? && ts.head.TProp? ==>
              && p + 12 <= |m|
              && GetBE32(m, p + 4) == |ts.head.value|
              && GetBE32(m, p + 8) == ts.head.nameOff
  {
    hide At, BE32, GetBE32, Zeros, NulFree;
    AtBounds(m, p, Flat(ts));
    match ts
    case Done => AtBE32(m, p, FDT_END);
    case Tok(t, tail) =>
      AtConcat(m, p, TokenBytes(t), Flat(tail));
      match t
      case TNop => AtBE32(m, p, FDT_NOP);
      case TEnd => AtBE32(m, p, FDT_END_NODE);
      case TBegin(name) =>
        var pad := Zeros(PadTo4(|name| + 1));
        AtConcat(m, p, BE32(FDT_BEGIN_NODE), (name + [0]) + pad);
        AtBE32(m, p, FDT_BEGIN_NODE);
        AtConcat(m, p + 4, name + [0], pad);
      case TProp(nameOff, value) =>
        AtConcat(m, p, PropHead(nameOff, |value|), value + Zeros(PadTo4(|value|)));
        AtConcat(m, p, BE32(FDT_PROP), BE32(|value|) + BE32(nameOff));
        AtConcat(m, p + 4, BE32(|value|), BE32(nameOff));
        AtBE32(m, p, FDT_PROP);
        AtBE32(m, p + 4, |value|);
        AtBE32(m, p + 8, nameOff);
  }

  /** The header fields the walk reads are those of the blob. */
  lemma HeaderRead(m: seq<byte>, v: View)
    requires Holds(m, v)
    ensures v.base + HEADER_SIZE <= |m| && HEADER_SIZE <= |v.blob|
    ensures v.base + GetBE32(m, v.base + OFF_DT_STRUCT) == StructAddr(v)
    ensures GetBE32(m, v.base + OFF_DT_STRINGS) == GetBE32(v.blob, OFF_DT_STRINGS)
    ensures GetBE32(m, v.base + SIZE_DT_STRUCT) == GetBE32(v.blob, SIZE_DT_STRUCT)
  {
    HeaderField(m, v.base, v.blob, OFF_DT_STRUCT);
    HeaderField(m, v.base, v.blob, OFF_DT_STRINGS);
    HeaderField(m, v.base, v.blob, SIZE_DT_STRUCT);
  }

  lemma HeaderField(m: seq<byte>, base: nat, b: seq<byte>, off: nat)
    requires At(m, base, b) && off + 4 <= |b|
    ensures base + off + 4 <= |m| && GetBE32(m, base + off) == GetBE32(b, off)
  {
    AtIndex(m, base, b, off);
    AtIndex(m, base, b, off + 1);
    AtIndex(m, base, b, off + 2);
    AtIndex(m, base, b, off + 3);
  }

  // ----- the walk

  /** The cursor `p` is at the front of the token stream `ts`, which ends at `end`, and the rest of the
      walk still has to find what the lookup finds. */
  ghost predicate Walking(m: seq<byte>, p: nat, end: nat, depth: int, inside: bool, ts: Stream, q: Query, v: View)
  {
    && |v.blob| >= HEADER_SIZE
    && StructAddr(v) <= p < p + 4 <= end <= |m|
    && end - p == |Flat(ts)| < TWO32
    && At(m, p, Flat(ts))
    && At(m, v.base + GetBE32(v.blob, OFF_DT_STRINGS), v.strs)
    && StreamNamed(ts, v.strs)
    && Scan(ts, v.strs, q, p - StructAddr(v), depth, inside) == AsHit(Lookup(v.tree, v.strs, q))
  }

  /** The tag the cursor reads tells the kind of token; at FDT_END there is nothing left to find. */
  lemma WalkTag(m: seq<byte>, p: nat, end: nat, depth: int, inside: bool, ts: Stream, q: Query, v: View)
    requires Walking(m, p, end, depth, inside, ts, q, v)
    ensures p + 4 <= |m| && GetBE32(m, p) == LeadTag(ts)
    ensures ts.Done? ==> Lookup(v.tree, v.strs, q).None?
  {
    hide At, Flat, TokenBytes, NulFree, Lookup, Matches, CStr, GetBE32, Terminated;
    TokenAt(m, p, ts);
  }

  lemma WalkFlat(m: seq<byte>, p: nat, end: nat, depth: int, inside: bool, ts: Stream, q: Query, v: View)
    requires Walking(m, p, end, depth, inside, ts, q, v) && ts.Tok? && (ts.head.TNop? || ts.head.TEnd?)
    ensures ts.head.TNop? ==> Walking(m, p + 4, end, depth, inside, ts.tail, q, v)
    ensures ts.head.TEnd? ==> Walking(m, p + 4, end, depth - 1, if depth == 2 then false else inside, ts.tail, q, v)
  {
    hide At, Flat, TokenBytes, NulFree, Lookup, Matches, CStr, GetBE32, Terminated;
    TokenAt(m, p, ts);
    FlatNonempty(ts.tail);
  }

  lemma WalkBegin(m: seq<byte>, p: nat, end: nat, depth: int, inside: bool, ts: Stream, q: Query, v: View)
    requires Walking(m, p, end, depth, inside, ts, q, v) && ts.Tok? && ts.head.TBegin?
    ensures At(m, p + 4, ts.head.name + [0])
    ensures NodeHeadSize(ts.head.name) == 4 + (|ts.head.name| + 4) / 4 * 4
    ensures Walking(m, p + NodeHeadSize(ts.head.name), end, depth + 1,
                    if depth + 1 == 2 then Matches(ts.head.name, q.node) else inside, ts.tail, q, v)
  {
    hide At, Flat, TokenBytes, NulFree, Lookup, Matches, CStr, GetBE32, Terminated;
    TokenAt(m, p, ts);
    FlatNonempty(ts.tail);
  }

  lemma WalkProp(m: seq<byte>, p: nat, end: nat, depth: int, inside: bool, ts: Stream, q: Query, v: View)
    requires Walking(m, p, end, depth, inside, ts, q, v) && ts.Tok? && ts.head.TProp?
    ensures var TProp(nameOff, value) := ts.head;
            var str := v.base + GetBE32(v.blob, OFF_DT_STRINGS) + nameOff;
            && PropSize(value) == 12 + (|value| + 3) % TWO32 / 4 * 4
            && p + 12 <= |m| && GetBE32(m, p + 4) == |value| && GetBE32(m, p + 8) == nameOff
            && Terminated(m, str)
            && if inside && depth == 2 && CStr(m, str) == q.prop
               then AsHit(Lookup(v.tree, v.strs, q)) == Some(Hit(p + 12 - StructAddr(v), value))
               else Walking(m, p + PropSize(value), end, depth, inside, ts.tail, q, v)
  {
    hide At, Flat, TokenBytes, NulFree, Lookup, Matches, CStr, GetBE32, Terminated;
    TokenAt(m, p, ts);
    FlatNonempty(ts.tail);
    CStrInside(m, v.base + GetBE32(v.blob, OFF_DT_STRINGS), v.strs, ts.head.nameOff);
  }

  lemma WalkingBounds(m: seq<byte>, p: nat, end: nat, depth: int, inside: bool, ts: Stream, q: Query, v: View)
    requires Walking(m, p, end, depth, inside, ts, q, v)
    ensures p < end <= |m|
  {
  }

  lemma FlatNonempty(ts: Stream)
    ensures |Flat(ts)| >= 4
  {
  }

  /** `fdt_find` returns the data of the first property that `q` selects, and null exactly when
      the tree has none. The length arithmetic is that of 32-bit unsigned words. */
  method Find(mem: array<byte>, fdt: nat, q: Query, ghost v: View) returns (r: Option<Slice>)
    requires Holds(mem[..], v) && fdt == v.base
    ensures match Lookup(v.tree, v.strs, q)
            case None => r == None
            case Some(e) => r == Some(Slice(StructAddr(v) + e.off, |e.value|))
  {
    hide At, IsBlob, Lookup, Matches, CStr, GetBE32, Terminated, NulFree, TokensOf, Walking, NodeHeadSize, PropSize;
    ghost var m := mem[..];
    HeaderRead(m, v);
    WalkStarts(m, v, q);
    var start := fdt + ReadBE32(mem, fdt + OFF_DT_STRUCT);
    var end := start + ReadBE32(mem, fdt + SIZE_DT_STRUCT);
    var strs := fdt + ReadBE32(mem, fdt + OFF_DT_STRINGS);
    ghost var ts := TokensOf(v.tree, Done);
    var p, depth, inside := start, 0, false;
    while p < end
      invariant Walking(m, p, end, depth, inside, ts, q, v)
      decreases end - p
    {
      WalkTag(m, p, end, depth, inside, ts, q, v);
      var tag := ReadBE32(mem, p);
      p := p + 4;
      if tag == FDT_BEGIN_NODE {
        WalkBegin(m, p - 4, end, depth, inside, ts, q, v);
        var l := StrLen(mem, p, ts.head.name);
        var hit := MatchNode(mem, p, q.node, ts.head.name);
        p := p + (l + 4) / 4 * 4;
        depth := depth + 1;
        if depth == 2 {
          inside := hit;
        }
      } else if tag == FDT_END_NODE {
        WalkFlat(m, p - 4, end, depth, inside, ts, q, v);
        if depth == 2 {
          inside := false;
        }
        depth := depth - 1;
      } else if tag == FDT_PROP {
        WalkProp(m, p - 4, end, depth, inside, ts, q, v);
        var plen, noff := ReadBE32(mem, p), ReadBE32(mem, p + 4);
        var data := p + 8;
        p := data + (plen + 3) % TWO32 / 4 * 4;
        var same := StrEq(mem, strs + noff, q.prop);
        if inside && depth == 2 && same {
          return Some(Slice(data, plen));
        }
      } else if tag == FDT_NOP {
        WalkFlat(m, p - 4, end, depth, inside, ts, q, v);
      } else {
        return None;  // FDT_END or garbage
      }
      ts := ts.tail;
    }
    WalkingBounds(m, p, end, depth, inside, ts, q, v);
    return None;
  }

  lemma WalkStarts(m: seq<byte>, v: View, q: Query)
    requires Holds(m, v)
    ensures HEADER_SIZE <= |v.blob|
    ensures var ts := TokensOf(v.tree, Done);
            Walking(m, StructAddr(v), StructAddr(v) + GetBE32(v.blob, SIZE_DT_STRUCT), 0, false, ts, q, v)
  {
    hide TokensOf, Scan, Lookup, Flat, GetBE32, Named, StreamNamed;
    FlatNonempty(TokensOf(v.tree, Done));
    BlockIsFlat(v.tree);
    TokensNamed(v.tree, Done, v.strs);
    AtWithin(m, v.base, v.blob, GetBE32(v.blob, OFF_DT_STRUCT), Block(v.tree));
    AtWithin(m, v.base, v.blob, GetBE32(v.blob, OFF_DT_STRINGS), v.strs);
    ScanIsLookup(v.tree, v.strs, q);
  }

  lemma BlockIsFlat(f: Items)
    ensures Flat(TokensOf(f, Done)) == Block(f)
  {
    EncodeIsFlat(f, Done);
  }

  lemma AtWithin(m: seq<byte>, p: nat, b: seq<byte>, o: nat, s: seq<byte>)
    requires At(m, p, b) && At(b, o, s)
    ensures At(m, p + o, s)
  {
    forall i | 0 <= i < |s| ensures m[p + o..p + o + |s|][i] == s[i] {
      AtIndex(m, p, b, o + i);
      AtIndex(b, o, s, i);
    }
    assert m[p + o..p + o + |s|] == s;
  }
}
