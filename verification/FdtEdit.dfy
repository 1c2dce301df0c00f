/**
 Two facts about encoded trees: overwriting the data of one property in place is the replacement of
 one value in the tree, and no two trees share an encoding.
 */
module FdtEdit {
  import opened Bytes
  import opened Fdt

  function Count(f: Items): nat {
    match f
    case Nil => 0
    case Nop(rest) => Count(rest)
    case Prop(_, _, rest) => 1 + Count(rest)
    case Node(_, body, rest) => Count(body) + Count(rest)
  }

  /** The tree with the value of its `k`-th property, in document order, replaced by `v`. */
  function Replace(f: Items, k: nat, v: Value): Items
    requires k < Count(f)
  {
    match f
    case Nop(rest) => Nop(Replace(rest, k, v))
    case Prop(nameOff, value, rest) =>
      if k == 0 then Prop(nameOff, v, rest) else Prop(nameOff, value, Replace(rest, k - 1, v))
    case Node(name, body, rest) =>
      if k < Count(body) then Node(name, Replace(body, k, v), rest)
      else Node(name, body, Replace(rest, k - Count(body), v))
  }

  lemma {:induction false} PropertiesCount(f: Items, pos: nat, path: Path)
    ensures |Properties(f, pos, path)| == Count(f)
  {
    match f
    case Nil =>
    case Nop(rest) => PropertiesCount(rest, pos + 4, path);
    case Prop(_, value, rest) => PropertiesCount(rest, pos + PropSize(value), path);
    case Node(name, body, rest) =>
      var inner := pos + NodeHeadSize(name);
      PropertiesCount(body, inner, path + [name]);
      PropertiesCount(rest, inner + Size(body) + 4, path);
  }

  ghost function WithValue(es: seq<Entry>, k: nat, v: Value): seq<Entry>
    requires k < |es|
  {
    es[k := es[k].(value := v)]
  }

  lemma WithValueLeft(a: seq<Entry>, b: seq<Entry>, k: nat, v: Value)
    requires k < |a|
    ensures WithValue(a + b, k, v) == WithValue(a, k, v) + b
  {
  }

  lemma WithValueRight(a: seq<Entry>, b: seq<Entry>, k: nat, v: Value)
    requires |a| <= k < |a| + |b|
    ensures WithValue(a + b, k, v) == a + WithValue(b, k - |a|, v)
  {
  }

  /** Replacing one value by another of the same length changes that value in the property list and
      nothing else: no other value, no path, no name and no offset. */
  lemma {:induction false} ReplaceProperties(f: Items, k: nat, v: Value, pos: nat, path: Path)
    requires k < Count(f) == |Properties(f, pos, path)|
    requires |v| == |Properties(f, pos, path)[k].value|
    ensures Size(Replace(f, k, v)) == Size(f)
    ensures Properties(Replace(f, k, v), pos, path) == WithValue(Properties(f, pos, path), k, v)
    decreases f, 1
  {
    hide NodeHeadSize, NulFree;
    match f
    case Nop(rest) => ReplaceProperties(rest, k, v, pos + 4, path);
    case Prop(nameOff, value, rest) =>
      EntryOfProp(nameOff, value, rest, k, pos, path);
      var e, next := [Entry(path, nameOff, value, pos + 12)], pos + PropSize(value);
      if k > 0 {
        ReplaceProperties(rest, k - 1, v, next, path);
        WithValueRight(e, Properties(rest, next, path), k, v);
      } else {
        WithValueLeft(e, Properties(rest, next, path), 0, v);
      }
    case Node(name, body, rest) =>
      ReplacePropertiesNode(f, k, v, pos, path);
  }

  lemma {:induction false} ReplacePropertiesNode(f: Items, k: nat, v: Value, pos: nat, path: Path)
    requires f.Node?
    requires k < Count(f) == |Properties(f, pos, path)|
    requires |v| == |Properties(f, pos, path)[k].value|
    ensures Size(Replace(f, k, v)) == Size(f)
    ensures Properties(Replace(f, k, v), pos, path) == WithValue(Properties(f, pos, path), k, v)
    decreases f, 0
  {
    hide NodeHeadSize, WithValue, NulFree;
    var Node(name, body, rest) := f;
    var inner := pos + NodeHeadSize(name);
    var next := inner + Size(body) + 4;
    EntryOfNode(name, body, rest, k, pos, path);
    if k < Count(body) {
      ReplaceProperties(body, k, v, inner, path + [name]);
      WithValueLeft(Properties(body, inner, path + [name]), Properties(rest, next, path), k, v);
    } else {
      ReplaceProperties(rest, k - Count(body), v, next, path);
      WithValueRight(Properties(body, inner, path + [name]), Properties(rest, next, path), k, v);
    }
  }

  lemma {:induction false} ReplaceNamed(f: Items, k: nat, v: Value, strs: seq<byte>)
    requires k < Count(f) && Named(f, strs)
    ensures Named(Replace(f, k, v), strs)
  {
    match f
    case Nop(rest) => ReplaceNamed(rest, k, v, strs);
    case Prop(_, _, rest) => if k > 0 { ReplaceNamed(rest, k - 1, v, strs); }
    case Node(_, body, rest) =>
      if k < Count(body) { ReplaceNamed(body, k, v, strs); }
      else { ReplaceNamed(rest, k - Count(body), v, strs); }
  }

  lemma PatchLeft(a: seq<byte>, b: seq<byte>, off: nat, v: seq<byte>)
    requires off + |v| <= |a|
    ensures Patch(a + b, off, v) == Patch(a, off, v) + b
  {
  }

  lemma PatchRight(a: seq<byte>, b: seq<byte>, off: nat, v: seq<byte>)
    requires |a| <= off && off + |v| <= |a| + |b|
    ensures Patch(a + b, off, v) == a + Patch(b, off - |a|, v)
  {
  }

  /** Overwriting, in the encoding of `f`, the data of its `k`-th property by `v` gives the encoding
      of `f` with that value replaced. */
  ghost predicate PatchesEntry(f: Items, k: nat, v: Value, pos: nat, path: Path)
    requires k < Count(f) == |Properties(f, pos, path)|
  {
    var off := Properties(f, pos, path)[k].off;
    && pos <= off && off - pos + |v| <= |Encode(f)|
    && Encode(Replace(f, k, v)) == Patch(Encode(f), off - pos, v)
  }

  /** The in-place byte patch is the tree replacement. */
  lemma {:induction false} ReplaceEncode(f: Items, k: nat, v: Value, pos: nat, path: Path)
    requires k < Count(f) == |Properties(f, pos, path)|
    requires |v| == |Properties(f, pos, path)[k].value|
    ensures PatchesEntry(f, k, v, pos, path)
    decreases f, 1
  {
    hide PatchesEntry, Encode, Replace;
    match f
    case Nop(rest) => ReplaceEncodeNop(f, k, v, pos, path);
    case Prop(nameOff, value, rest) => ReplaceEncodeProp(f, k, v, pos, path);
    case Node(name, body, rest) =>
      if k < Count(body) {
        ReplaceEncodeBody(f, k, v, pos, path);
      } else {
        ReplaceEncodeRest(f, k, v, pos, path);
      }
  }

  lemma {:induction false} ReplaceEncodeNop(f: Items, k: nat, v: Value, pos: nat, path: Path)
    requires f.Nop?
    requires k < Count(f) == |Properties(f, pos, path)|
    requires |v| == |Properties(f, pos, path)[k].value|
    ensures PatchesEntry(f, k, v, pos, path)
    decreases f, 0
  {
    hide Patch, BE32;
    ReplaceEncode(f.rest, k, v, pos + 4, path);
    PatchRight(BE32(FDT_NOP), Encode(f.rest), Properties(f, pos, path)[k].off - pos, v);
  }

  lemma {:induction false} ReplaceEncodeProp(f: Items, k: nat, v: Value, pos: nat, path: Path)
    requires f.Prop?
    requires k < Count(f) == |Properties(f, pos, path)|
    requires |v| == |Properties(f, pos, path)[k].value|
    ensures PatchesEntry(f, k, v, pos, path)
    decreases f, 0
  {
    hide Patch, Encode, PropSize;
    var Prop(nameOff, value, rest) := f;
    var next := pos + PropSize(value);
    EntryOfProp(nameOff, value, rest, k, pos, path);
    if k > 0 {
      ReplaceEncode(rest, k - 1, v, next, path);
    }
    ReplaceInProp(nameOff, value, rest, k, v, if k == 0 then 0 else Properties(f, pos, path)[k].off - next);
  }

  lemma {:induction false} ReplaceEncodeBody(f: Items, k: nat, v: Value, pos: nat, path: Path)
    requires f.Node? && k < Count(f.body)
    requires k < Count(f) == |Properties(f, pos, path)|
    requires |v| == |Properties(f, pos, path)[k].value|
    ensures PatchesEntry(f, k, v, pos, path)
    decreases f, 0
  {
    hide Patch, Encode, NodeHeadSize;
    var Node(name, body, rest) := f;
    var inner := pos + NodeHeadSize(name);
    EntryOfNode(name, body, rest, k, pos, path);
    ReplaceEncode(body, k, v, inner, path + [name]);
    ReplaceInBody(name, body, rest, k, v, Properties(f, pos, path)[k].off - inner);
  }

  lemma {:induction false} ReplaceEncodeRest(f: Items, k: nat, v: Value, pos: nat, path: Path)
    requires f.Node? && Count(f.body) <= k
    requires k < Count(f) == |Properties(f, pos, path)|
    requires |v| == |Properties(f, pos, path)[k].value|
    ensures PatchesEntry(f, k, v, pos, path)
    decreases f, 0
  {
    hide Patch, Encode, NodeHeadSize;
    var Node(name, body, rest) := f;
    var next := pos + NodeHeadSize(name) + Size(body) + 4;
    EntryOfNode(name, body, rest, k, pos, path);
    var j := k - Count(body);
    var off := Properties(rest, next, path)[j].off;
    assert off == Properties(f, pos, path)[k].off;
    ReplaceEncode(rest, j, v, next, path);
    ReplaceInRest(name, body, rest, j, v, off - next);
  }

  lemma EntryOfProp(nameOff: Cell, value: Value, rest: Items, k: nat, pos: nat, path: Path)
    requires k < 1 + Count(rest)
    ensures var es := Properties(rest, pos + PropSize(value), path);
            && |es| == Count(rest)
            && |Properties(Prop(nameOff, value, rest), pos, path)| == 1 + |es|
            && Properties(Prop(nameOff, value, rest), pos, path)[k]
               == if k == 0 then Entry(path, nameOff, value, pos + 12) else es[k - 1]
  {
    PropertiesCount(rest, pos + PropSize(value), path);
  }

  lemma ReplaceInProp(nameOff: Cell, value: Value, rest: Items, k: nat, v: Value, o: nat)
    requires k == 0 ==> |v| == |value|
    requires k > 0 ==>
               && k - 1 < Count(rest) && o + |v| <= |Encode(rest)|
               && Encode(Replace(rest, k - 1, v)) == Patch(Encode(rest), o, v)
    ensures var off := if k == 0 then 12 else PropSize(value) + o;
            && off + |v| <= |Encode(Prop(nameOff, value, rest))|
            && Encode(Replace(Prop(nameOff, value, rest), k, v)) == Patch(Encode(Prop(nameOff, value, rest)), off, v)
  {
    if k == 0 {
      PatchProp(nameOff, value, v);
      PatchLeft(PropBytes(nameOff, value), Encode(rest), 12, v);
    } else {
      PatchRight(PropBytes(nameOff, value), Encode(rest), PropSize(value) + o, v);
    }
  }

  lemma PatchProp(nameOff: Cell, value: Value, v: Value)
    requires |v| == |value|
    ensures PropBytes(nameOff, v) == Patch(PropBytes(nameOff, value), 12, v)
  {
    var pad := Zeros(PadTo4(|value|));
    var head := PropHead(nameOff, |value|);
    PatchRight(head, value + pad, 12, v);
    PatchLeft(value, pad, 0, v);
    assert Patch(value, 0, v) == v;
  }

  lemma EntryOfNode(name: Name, body: Items, rest: Items, k: nat, pos: nat, path: Path)
    requires k < Count(body) + Count(rest) == |Properties(Node(name, body, rest), pos, path)|
    ensures var inner := pos + NodeHeadSize(name);
            var (a, b) := (Properties(body, inner, path + [name]), Properties(rest, inner + Size(body) + 4, path));
            && |a| == Count(body) && |b| == Count(rest)
            && Properties(Node(name, body, rest), pos, path)[k] == if k < |a| then a[k] else b[k - |a|]
  {
    PropertiesCount(body, pos + NodeHeadSize(name), path + [name]);
    PropertiesCount(rest, pos + NodeHeadSize(name) + Size(body) + 4, path);
  }

  lemma EncodeNode(name: Name, body: Items, rest: Items)
    ensures |Encode(Node(name, body, rest))| == NodeHeadSize(name) + |Encode(body)| + 4 + |Encode(rest)|
    ensures Encode(Node(name, body, rest)) == NodeHead(name) + (Encode(body) + (BE32(FDT_END_NODE) + Encode(rest)))
  {
  }

  lemma ReplaceInBody(name: Name, body: Items, rest: Items, k: nat, v: Value, o: nat)
    requires k < Count(body) && o + |v| <= |Encode(body)|
    requires Encode(Replace(body, k, v)) == Patch(Encode(body), o, v)
    ensures NodeHeadSize(name) + o + |v| <= |Encode(Node(name, body, rest))|
    ensures Encode(Replace(Node(name, body, rest), k, v))
         == Patch(Encode(Node(name, body, rest)), NodeHeadSize(name) + o, v)
  {
    hide Encode, Patch, BE32, NodeHead;
    EncodeNode(name, body, rest);
    EncodeNode(name, Replace(body, k, v), rest);
    PatchBody(NodeHead(name), Encode(body), BE32(FDT_END_NODE) + Encode(rest), NodeHeadSize(name) + o, v);
  }

  lemma ReplaceInRest(name: Name, body: Items, rest: Items, k: nat, v: Value, o: nat)
    requires k < Count(rest) && o + |v| <= |Encode(rest)|
    requires Encode(Replace(rest, k, v)) == Patch(Encode(rest), o, v)
    ensures NodeHeadSize(name) + Size(body) + 4 + o + |v| <= |Encode(Node(name, body, rest))|
    ensures Encode(Replace(Node(name, body, rest), Count(body) + k, v))
         == Patch(Encode(Node(name, body, rest)), NodeHeadSize(name) + Size(body) + 4 + o, v)
  {
    hide Encode, Patch, BE32, NodeHead;
    EncodeSize(body);
    EncodeNode(name, body, rest);
    EncodeNode(name, body, Replace(rest, k, v));
    PatchRest(NodeHead(name), Encode(body), BE32(FDT_END_NODE), Encode(rest),
              NodeHeadSize(name) + Size(body) + 4 + o, v);
  }

  lemma PatchBody(h: seq<byte>, b: seq<byte>, r: seq<byte>, off: nat, v: seq<byte>)
    requires |h| <= off && off + |v| <= |h| + |b|
    ensures Patch(h + (b + r), off, v) == h + (Patch(b, off - |h|, v) + r)
  {
    PatchRight(h, b + r, off, v);
    PatchLeft(b, r, off - |h|, v);
  }

  lemma PatchRest(h: seq<byte>, b: seq<byte>, e: seq<byte>, r: seq<byte>, off: nat, v: seq<byte>)
    requires |h| + |b| + |e| <= off && off + |v| <= |h| + |b| + |e| + |r|
    ensures Patch(h + (b + (e + r)), off, v) == h + (b + (e + Patch(r, off - |h| - |b| - |e|, v)))
  {
    PatchRight(h, b + (e + r), off, v);
    PatchRight(b, e + r, off - |h|, v);
    PatchRight(e, r, off - |h| - |b|, v);
  }

  // ----- unique decoding

  /** What can follow the items of a node or of the block: FDT_END_NODE or FDT_END. */
  predicate Closing(x: seq<byte>) {
    |x| >= 4 && (GetBE32(x, 0) == FDT_END_NODE || GetBE32(x, 0) == FDT_END)
  }

  lemma TagOf(tag: Cell, rest: seq<byte>)
    ensures GetBE32(BE32(tag) + rest, 0) == tag
  {
    AtConcat(BE32(tag) + rest, 0, BE32(tag), rest);
    AtBE32(BE32(tag) + rest, 0, tag);
  }

  function LeadingTag(f: Items, x: seq<byte>): int
    requires Closing(x)
  {
    match f
    case Nil => GetBE32(x, 0)
    case Nop(_) => FDT_NOP
    case Prop(_, _, _) => FDT_PROP
    case Node(_, _, _) => FDT_BEGIN_NODE
  }

  lemma TagOfPrefix(a: seq<byte>, x: seq<byte>)
    requires |a| >= 4
    ensures GetBE32(a + x, 0) == GetBE32(a, 0)
  {
  }

  lemma LeadingTagIsRead(f: Items, x: seq<byte>)
    requires Closing(x)
    ensures |Encode(f) + x| >= 4 && GetBE32(Encode(f) + x, 0) == LeadingTag(f, x)
  {
    if f.Nil? {
      assert Encode(f) + x == x;
    } else {
      TagOfPrefix(Encode(f), x);
      match f
      case Nop(rest) => TagOf(FDT_NOP, Encode(rest));
      case Prop(nameOff, value, rest) =>
        TagOfPrefix(PropBytes(nameOff, value), Encode(rest));
        TagOfPrefix(PropHead(nameOff, |value|), value + Zeros(PadTo4(|value|)));
        TagOf(FDT_PROP, BE32(|value|) + BE32(nameOff));
      case Node(name, body, rest) =>
        TagOfPrefix(NodeHead(name), Encode(body) + (BE32(FDT_END_NODE) + Encode(rest)));
        TagOf(FDT_BEGIN_NODE, name + [0] + Zeros(PadTo4(|name| + 1)));
    }
  }

  lemma Cancel(a: seq<byte>, a': seq<byte>, b: seq<byte>, b': seq<byte>)
    requires a + b == a' + b' && |a| == |a'|
    ensures a == a' && b == b'
  {
    assert a == (a + b)[..|a|] == (a' + b')[..|a|] == a';
    assert b == (a + b)[|a|..] == (a' + b')[|a|..] == b';
  }

  lemma CancelProp(nameOff: Cell, value: Value, x: seq<byte>, nameOff': Cell, value': Value, x': seq<byte>)
    requires PropBytes(nameOff, value) + x == PropBytes(nameOff', value') + x'
    ensures nameOff == nameOff' && value == value' && x == x'
  {
    var (tag, n, o, d) := (BE32(FDT_PROP), BE32(|value|), BE32(nameOff), value + Zeros(PadTo4(|value|)));
    var (n', o', d') := (BE32(|value'|), BE32(nameOff'), value' + Zeros(PadTo4(|value'|)));
    assert PropBytes(nameOff, value) + x == tag + (n + (o + (d + x)));
    assert PropBytes(nameOff', value') + x' == tag + (n' + (o' + (d' + x')));
    Cancel(tag, tag, n + (o + (d + x)), n' + (o' + (d' + x')));
    Cancel(n, n', o + (d + x), o' + (d' + x'));
    Cancel(o, o', d + x, d' + x');
    BE32RoundTrip(|value|);
    BE32RoundTrip(|value'|);
    BE32RoundTrip(nameOff);
    BE32RoundTrip(nameOff');
    Cancel(d, d', x, x');
    Cancel(value, value', Zeros(PadTo4(|value|)), Zeros(PadTo4(|value'|)));
  }

  lemma CancelName(name: Name, x: seq<byte>, name': Name, x': seq<byte>)
    requires name + ([0] + x) == name' + ([0] + x')
    ensures name == name'
  {
    var (s, s') := (name + ([0] + x), name' + ([0] + x'));
    assert s[|name|] == 0 && s'[|name'|] == 0;
    assert forall i :: 0 <= i < |name| ==> s[i] == name[i] != 0;
    assert forall i :: 0 <= i < |name'| ==> s'[i] == name'[i] != 0;
    assert |name| == |name'|;
    Cancel(name, name', [0] + x, [0] + x');
  }

  lemma CancelHead(name: Name, x: seq<byte>, name': Name, x': seq<byte>)
    requires NodeHead(name) + x == NodeHead(name') + x'
    ensures name == name' && x == x'
  {
    var tag := BE32(FDT_BEGIN_NODE);
    var (t, t') := (Zeros(PadTo4(|name| + 1)) + x, Zeros(PadTo4(|name'| + 1)) + x');
    assert NodeHead(name) + x == tag + (name + ([0] + t));
    assert NodeHead(name') + x' == tag + (name' + ([0] + t'));
    Cancel(tag, tag, name + ([0] + t), name' + ([0] + t'));
    CancelName(name, t, name', t');
    Cancel(NodeHead(name), NodeHead(name'), x, x');
  }

  /** No two trees share an encoding, whatever closes them: the tree can be read back. */
  lemma {:induction false} DecodeUnique(f: Items, g: Items, x: seq<byte>, y: seq<byte>)
    requires Closing(x) && Closing(y)
    requires Encode(f) + x == Encode(g) + y
    ensures f == g && x == y
  {
    hide BE32, Zeros, PropBytes, NodeHead, GetBE32;
    LeadingTagIsRead(f, x);
    LeadingTagIsRead(g, y);
    match f
    case Nil =>
      assert Encode(f) + x == x && Encode(g) + y == y;
    case Nop(rest) =>
      assert Encode(f) + x == BE32(FDT_NOP) + (Encode(rest) + x);
      assert Encode(g) + y == BE32(FDT_NOP) + (Encode(g.rest) + y);
      Cancel(BE32(FDT_NOP), BE32(FDT_NOP), Encode(rest) + x, Encode(g.rest) + y);
      DecodeUnique(rest, g.rest, x, y);
    case Prop(nameOff, value, rest) =>
      assert Encode(f) + x == PropBytes(nameOff, value) + (Encode(rest) + x);
      assert Encode(g) + y == PropBytes(g.nameOff, g.value) + (Encode(g.rest) + y);
      CancelProp(nameOff, value, Encode(rest) + x, g.nameOff, g.value, Encode(g.rest) + y);
      DecodeUnique(rest, g.rest, x, y);
    case Node(name, body, rest) =>
      var e := BE32(FDT_END_NODE);
      Regroup(NodeHead(name), Encode(body), e, Encode(rest), x);
      Regroup(NodeHead(g.name), Encode(g.body), e, Encode(g.rest), y);
      CancelHead(name, Encode(body) + (e + (Encode(rest) + x)), g.name, Encode(g.body) + (e + (Encode(g.rest) + y)));
      TagOf(FDT_END_NODE, Encode(rest) + x);
      TagOf(FDT_END_NODE, Encode(g.rest) + y);
      DecodeUnique(body, g.body, e + (Encode(rest) + x), e + (Encode(g.rest) + y));
      Cancel(e, e, Encode(rest) + x, Encode(g.rest) + y);
      DecodeUnique(rest, g.rest, x, y);
  }

  /** A structure block determines its tree. */
  lemma BlockUnique(f: Items, g: Items)
    requires Block(f) == Block(g)
    ensures f == g
  {
    var e := BE32(FDT_END);
    TagOf(FDT_END, []);
    assert e + [] == e;
    DecodeUnique(f, g, e, e);
  }
}
