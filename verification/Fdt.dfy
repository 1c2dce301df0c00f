/**
 The flattened devicetree (Devicetree Specification v0.4, sections 5.4 and 5.5): the abstract tree,
 its encoding, and the property lookup of the boot stub stated on the abstract tree.
 */
module Fdt {
  import opened Bytes
  import opened Outcomes

  const FDT_MAGIC := 0xd00d_feed
  const FDT_BEGIN_NODE := 1
  const FDT_END_NODE := 2
  const FDT_PROP := 3
  const FDT_NOP := 4
  const FDT_END := 9

  type Cell = x: int | 0 <= x < TWO32
  type Value = s: seq<byte> | |s| < TWO32
  type Name = s: seq<byte> | NulFree(s)

  predicate NulFree(s: seq<byte>) {
    forall i :: 0 <= i < |s| ==> s[i] != 0
  }

  /** The contents of a node (or of the whole structure block): NOPs, properties and
      subnodes in any order and at any nesting depth. */
  datatype Items =
    | Nil
    | Nop(rest: Items)
    | Prop(nameOff: Cell, value: Value, rest: Items)
    | Node(name: Name, body: Items, rest: Items)

  function Align4(n: nat): nat {
    (n + 3) / 4 * 4
  }

  function PadTo4(n: nat): nat {
    Align4(n) - n
  }

  function NodeHeadSize(name: Name): nat {
    4 + Align4(|name| + 1)
  }

  function PropSize(value: Value): nat {
    12 + Align4(|value|)
  }

  function NodeHead(name: Name): (s: seq<byte>)
    ensures |s| == NodeHeadSize(name)
  {
    BE32(FDT_BEGIN_NODE) + (name + [0] + Zeros(PadTo4(|name| + 1)))
  }

  function PropHead(nameOff: Cell, len: Cell): (s: seq<byte>)
    ensures |s| == 12
  {
    BE32(FDT_PROP) + (BE32(len) + BE32(nameOff))
  }

  function PropBytes(nameOff: Cell, value: Value): (s: seq<byte>)
    ensures |s| == PropSize(value)
  {
    PropHead(nameOff, |value|) + (value + Zeros(PadTo4(|value|)))
  }

  function Encode(f: Items): seq<byte> {
    match f
    case Nil => []
    case Nop(rest) => BE32(FDT_NOP) + Encode(rest)
    case Prop(nameOff, value, rest) => PropBytes(nameOff, value) + Encode(rest)
    case Node(name, body, rest) =>
      NodeHead(name) + (Encode(body) + (BE32(FDT_END_NODE) + Encode(rest)))
  }

  /** Length of the encoding. */
  function Size(f: Items): nat {
    match f
    case Nil => 0
    case Nop(rest) => 4 + Size(rest)
    case Prop(_, value, rest) => PropSize(value) + Size(rest)
    case Node(name, body, rest) => NodeHeadSize(name) + Size(body) + 4 + Size(rest)
  }

  lemma {:induction false} EncodeSize(f: Items)
    ensures |Encode(f)| == Size(f)
  {
    match f
    case Nil =>
    case Nop(rest) => EncodeSize(rest);
    case Prop(_, _, rest) => EncodeSize(rest);
    case Node(_, body, rest) => EncodeSize(body); EncodeSize(rest);
  }

  /** The structure block: the encoded tree closed by FDT_END. */
  function Block(f: Items): seq<byte> {
    Encode(f) + BE32(FDT_END)
  }

  /** The smallest tree with a property, byte for byte as section 5.4 of the Devicetree Specification lays it out. */
  lemma ExampleBlock()
    ensures Block(Node([], Prop(5, [0xab], Nil), Nil))
         == [0, 0, 0, 1, 0, 0, 0, 0] + ([0, 0, 0, 3, 0, 0, 0, 1, 0, 0, 0, 5, 0xab, 0, 0, 0] + [0, 0, 0, 2, 0, 0, 0, 9])
  {
    var name: Name, value: Value := [], [0xab];
    assert NodeHead(name) == [0, 0, 0, 1, 0, 0, 0, 0];
    assert PropBytes(5, value) == [0, 0, 0, 3, 0, 0, 0, 1, 0, 0, 0, 5, 0xab, 0, 0, 0];
    assert Encode(Prop(5, value, Nil)) == PropBytes(5, value) + [];
    assert BE32(FDT_END_NODE) == [0, 0, 0, 2] && BE32(FDT_END) == [0, 0, 0, 9] && BE32(FDT_NOP) == [0, 0, 0, 4];
  }

  // ----- property names: C strings of the strings block

  /** The C string that starts at `i`. */
  ghost function CStr(s: seq<byte>, i: nat): (r: seq<byte>)
    ensures NulFree(r)
    decreases |s| - i
  {
    if i >= |s| || s[i] == 0 then [] else [s[i]] + CStr(s, i + 1)
  }

  ghost predicate Terminated(s: seq<byte>, i: nat) {
    exists j :: i <= j < |s| && s[j] == 0
  }

  /** Every property name is a terminated string of the strings block. */
  ghost predicate Named(f: Items, strs: seq<byte>) {
    match f
    case Nil => true
    case Nop(rest) => Named(rest, strs)
    case Prop(nameOff, _, rest) => Terminated(strs, nameOff) && Named(rest, strs)
    case Node(_, body, rest) => Named(body, strs) && Named(rest, strs)
  }

  // ----- the abstract view: every property, with the path of its node

  type Path = seq<seq<byte>>

  /** A property, the names of the nodes that contain it from the root down, and where in the
      structure block its data starts. */
  datatype Entry = Entry(path: Path, nameOff: Cell, value: Value, off: nat)

  /** All properties in document order. */
  ghost function Properties(f: Items, pos: nat, path: Path): seq<Entry>
  {
    match f
    case Nil => []
    case Nop(rest) => Properties(rest, pos + 4, path)
    case Prop(nameOff, value, rest) =>
      [Entry(path, nameOff, value, pos + 12)] + Properties(rest, pos + PropSize(value), path)
    case Node(name, body, rest) =>
      var inner := pos + NodeHeadSize(name);
      Properties(body, inner, path + [name]) + Properties(rest, inner + Size(body) + 4, path)
  }

  ghost function AllProps(f: Items): seq<Entry> {
    Properties(f, 0, [])
  }

  /** What is asked of a tree: the property `prop` of the top-level node `node`. */
  datatype Query = Query(node: Name, prop: Name)

  /** The node is called `node`, or `node@` followed by a unit address. */
  ghost predicate Matches(name: seq<byte>, node: seq<byte>) {
    name == node || node + ['@' as int] <= name
  }

  /** The entry is a property called `q.prop` directly inside a top-level node that matches `q.node`. */
  ghost predicate Selects(e: Entry, strs: seq<byte>, q: Query) {
    |e.path| == 2 && Matches(e.path[1], q.node) && CStr(strs, e.nameOff) == q.prop
  }

  /** Index of the first selected entry, or the number of entries when there is none. */
  ghost function First(es: seq<Entry>, strs: seq<byte>, q: Query): (k: nat)
    ensures k <= |es|
    ensures k < |es| ==> Selects(es[k], strs, q)
    ensures forall i :: 0 <= i < k ==> !Selects(es[i], strs, q)
  {
    if es == [] || Selects(es[0], strs, q) then 0 else 1 + First(es[1..], strs, q)
  }

  ghost function FirstEntry(es: seq<Entry>, strs: seq<byte>, q: Query): Option<Entry> {
    var k := First(es, strs, q);
    if k < |es| then Some(es[k]) else None
  }

  ghost function Lookup(f: Items, strs: seq<byte>, q: Query): Option<Entry> {
    FirstEntry(AllProps(f), strs, q)
  }

  // ----- the intermediate view: the block as a flat stream of tokens

  datatype Token = TNop | TProp(nameOff: Cell, value: Value) | TBegin(name: Name) | TEnd

  function TokenSize(t: Token): (n: nat)
    ensures n >= 4
  {
    match t
    case TNop => 4
    case TProp(nameOff, value) => PropSize(value)
    case TBegin(name) => NodeHeadSize(name)
    case TEnd => 4
  }

  function TokenBytes(t: Token): (s: seq<byte>)
    ensures |s| == TokenSize(t)
  {
    match t
    case TNop => BE32(FDT_NOP)
    case TProp(nameOff, value) => PropBytes(nameOff, value)
    case TBegin(name) => NodeHead(name)
    case TEnd => BE32(FDT_END_NODE)
  }

  /** A stream of tokens; a list rather than a sequence, so that proofs follow its shape. */
  datatype Stream = Done | Tok(head: Token, tail: Stream)

  ghost function Flat(ts: Stream): seq<byte> {
    match ts
    case Done => BE32(FDT_END)
    case Tok(t, tail) => TokenBytes(t) + Flat(tail)
  }

  ghost function TokensOf(f: Items, after: Stream): Stream {
    match f
    case Nil => after
    case Nop(rest) => Tok(TNop, TokensOf(rest, after))
    case Prop(nameOff, value, rest) => Tok(TProp(nameOff, value), TokensOf(rest, after))
    case Node(name, body, rest) => Tok(TBegin(name), TokensOf(body, Tok(TEnd, TokensOf(rest, after))))
  }

  /** The recursive encoding of a tree is the concatenation of its tokens. */
  lemma {:induction false} EncodeIsFlat(f: Items, after: Stream)
    ensures Flat(TokensOf(f, after)) == Encode(f) + Flat(after)
  {
    hide BE32, PropBytes, NodeHead;
    match f
    case Nil =>
    case Nop(rest) =>
      EncodeIsFlat(rest, after);
      Assoc(BE32(FDT_NOP), Encode(rest), Flat(after));
    case Prop(nameOff, value, rest) =>
      EncodeIsFlat(rest, after);
      Assoc(PropBytes(nameOff, value), Encode(rest), Flat(after));
    case Node(name, body, rest) =>
      EncodeIsFlat(rest, after);
      EncodeIsFlat(body, Tok(TEnd, TokensOf(rest, after)));
      Regroup(NodeHead(name), Encode(body), BE32(FDT_END_NODE), Encode(rest), Flat(after));
  }

  lemma Assoc(a: seq<byte>, b: seq<byte>, c: seq<byte>)
    ensures a + (b + c) == (a + b) + c
  {
  }

  lemma Regroup(h: seq<byte>, b: seq<byte>, e: seq<byte>, r: seq<byte>, a: seq<byte>)
    ensures h + ((b + (e + (r + a)))) == (h + (b + (e + r))) + a
  {
  }

  ghost predicate StreamNamed(ts: Stream, strs: seq<byte>) {
    match ts
    case Done => true
    case Tok(t, tail) => (t.TProp? ==> Terminated(strs, t.nameOff)) && StreamNamed(tail, strs)
  }

  lemma {:induction false} TokensNamed(f: Items, after: Stream, strs: seq<byte>)
    requires Named(f, strs) && StreamNamed(after, strs)
    ensures StreamNamed(TokensOf(f, after), strs)
  {
    match f
    case Nil =>
    case Nop(rest) => TokensNamed(rest, after, strs);
    case Prop(nameOff, value, rest) => TokensNamed(rest, after, strs);
    case Node(name, body, rest) =>
      TokensNamed(rest, after, strs);
      TokensNamed(body, Tok(TEnd, TokensOf(rest, after)), strs);
  }

  /** A match: where its data starts in the block, and the data. */
  datatype Hit = Hit(off: nat, value: Value)

  /** The stub's depth/inside automaton, on tokens, starting `pos` bytes into the block. */
  ghost function Scan(ts: Stream, strs: seq<byte>, q: Query, pos: nat, depth: int, inside: bool): Option<Hit>
  {
    match ts
    case Done => None
    case Tok(t, tail) =>
      var next := pos + TokenSize(t);
      match t
      case TNop => Scan(tail, strs, q, next, depth, inside)
      case TBegin(name) =>
        Scan(tail, strs, q, next, depth + 1, if depth + 1 == 2 then Matches(name, q.node) else inside)
      case TEnd =>
        Scan(tail, strs, q, next, depth - 1, if depth == 2 then false else inside)
      case TProp(nameOff, value) =>
        if inside && depth == 2 && CStr(strs, nameOff) == q.prop then Some(Hit(pos + 12, value))
        else Scan(tail, strs, q, next, depth, inside)
  }

  ghost function AsHit(e: Option<Entry>): Option<Hit> {
    match e
    case None => None
    case Some(e) => Some(Hit(e.off, e.value))
  }

  /** The same search as a recursion over the tree: `depth` nodes are open around `f`, and
      `inside` says that the top-level one among them matches. */
  ghost function Search(f: Items, strs: seq<byte>, q: Query, pos: nat, depth: nat, inside: bool): Option<Hit> {
    match f
    case Nil => None
    case Nop(rest) => Search(rest, strs, q, pos + 4, depth, inside)
    case Prop(nameOff, value, rest) =>
      if inside && depth == 2 && CStr(strs, nameOff) == q.prop then Some(Hit(pos + 12, value))
      else Search(rest, strs, q, pos + PropSize(value), depth, inside)
    case Node(name, body, rest) =>
      var inner := pos + NodeHeadSize(name);
      var hit := Search(body, strs, q, inner, depth + 1, if depth + 1 == 2 then Matches(name, q.node) else inside);
      if hit.Some? then hit else Search(rest, strs, q, inner + Size(body) + 4, depth, inside)
  }

  /** The flat automaton in step with the tree: over the tokens of `f` it stops where the search of
      the tree does, and otherwise comes out with its depth and its `inside` flag as they were. */
  lemma {:induction false} ScanItems(f: Items, after: Stream, strs: seq<byte>, q: Query,
                                     pos: nat, depth: nat, inside: bool)
    requires inside ==> depth >= 2
    ensures Scan(TokensOf(f, after), strs, q, pos, depth, inside)
         == var hit := Search(f, strs, q, pos, depth, inside);
            if hit.Some? then hit else Scan(after, strs, q, pos + Size(f), depth, inside)
  {
    hide NodeHeadSize, PropSize, CStr, Matches, NulFree, Scan, Search;
    match f
    case Nil => SearchNil(strs, q, pos, depth, inside);
    case Nop(rest) =>
      ScanItems(rest, after, strs, q, pos + 4, depth, inside);
      ScanNop(rest, after, strs, q, pos, depth, inside);
    case Prop(nameOff, value, rest) =>
      ScanItems(rest, after, strs, q, pos + PropSize(value), depth, inside);
      ScanProp(nameOff, value, rest, after, strs, q, pos, depth, inside);
    case Node(name, body, rest) =>
      var inner := pos + NodeHeadSize(name);
      ScanItems(body, Tok(TEnd, TokensOf(rest, after)), strs, q, inner, depth + 1, Entered(depth, inside, name, q));
      ScanItems(rest, after, strs, q, inner + Size(body) + 4, depth, inside);
      ScanNode(name, body, rest, after, strs, q, pos, depth, inside);
  }

  lemma SearchNil(strs: seq<byte>, q: Query, pos: nat, depth: nat, inside: bool)
    ensures Search(Nil, strs, q, pos, depth, inside) == None
  {
  }

  lemma ScanNop(rest: Items, after: Stream, strs: seq<byte>, q: Query, pos: nat, depth: nat, inside: bool)
    ensures Scan(TokensOf(Nop(rest), after), strs, q, pos, depth, inside)
         == Scan(TokensOf(rest, after), strs, q, pos + 4, depth, inside)
    ensures Search(Nop(rest), strs, q, pos, depth, inside) == Search(rest, strs, q, pos + 4, depth, inside)
  {
  }

  lemma ScanProp(nameOff: Cell, value: Value, rest: Items, after: Stream, strs: seq<byte>, q: Query,
                 pos: nat, depth: nat, inside: bool)
    ensures var (f, next) := (Prop(nameOff, value, rest), pos + PropSize(value));
            var found := inside && depth == 2 && CStr(strs, nameOff) == q.prop;
            var hit := Some(Hit(pos + 12, value));
            && Scan(TokensOf(f, after), strs, q, pos, depth, inside)
               == (if found then hit else Scan(TokensOf(rest, after), strs, q, next, depth, inside))
            && Search(f, strs, q, pos, depth, inside)
               == (if found then hit else Search(rest, strs, q, next, depth, inside))
  {
    hide PropSize, CStr;
  }

  /** The `inside` flag after one more node was entered. */
  ghost predicate Entered(depth: nat, inside: bool, name: seq<byte>, q: Query) {
    if depth + 1 == 2 then Matches(name, q.node) else inside
  }

  /** One node, given that the automaton runs in step over its body and over what follows. */
  lemma ScanNode(name: Name, body: Items, rest: Items, after: Stream, strs: seq<byte>, q: Query,
                 pos: nat, depth: nat, inside: bool)
    requires inside ==> depth >= 2
    requires var (inner, ts) := (pos + NodeHeadSize(name), Tok(TEnd, TokensOf(rest, after)));
             var hit := Search(body, strs, q, inner, depth + 1, Entered(depth, inside, name, q));
             Scan(TokensOf(body, ts), strs, q, inner, depth + 1, Entered(depth, inside, name, q))
             == if hit.Some? then hit
                else Scan(ts, strs, q, inner + Size(body), depth + 1, Entered(depth, inside, name, q))
    requires var next := pos + NodeHeadSize(name) + Size(body) + 4;
             var hit := Search(rest, strs, q, next, depth, inside);
             Scan(TokensOf(rest, after), strs, q, next, depth, inside)
             == if hit.Some? then hit else Scan(after, strs, q, next + Size(rest), depth, inside)
    ensures var (f, n) := (Node(name, body, rest), Size(Node(name, body, rest)));
            var hit := Search(f, strs, q, pos, depth, inside);
            Scan(TokensOf(f, after), strs, q, pos, depth, inside)
            == if hit.Some? then hit else Scan(after, strs, q, pos + n, depth, inside)
  {
    hide NodeHeadSize, Scan, Search;
    var f, n := Node(name, body, rest), Size(Node(name, body, rest));
    var inner := pos + NodeHeadSize(name);
    SearchNode(name, body, rest, strs, q, pos, depth, inside);
    ScanBegin(name, TokensOf(body, Tok(TEnd, TokensOf(rest, after))), strs, q, pos, depth, inside);
    ScanEnd(TokensOf(rest, after), strs, q, inner + Size(body), depth + 1, Entered(depth, inside, name, q));
  }

  lemma SearchNode(name: Name, body: Items, rest: Items, strs: seq<byte>, q: Query, pos: nat, depth: nat, inside: bool)
    ensures var inner := pos + NodeHeadSize(name);
            var hit := Search(body, strs, q, inner, depth + 1, Entered(depth, inside, name, q));
            Search(Node(name, body, rest), strs, q, pos, depth, inside)
            == if hit.Some? then hit else Search(rest, strs, q, inner + Size(body) + 4, depth, inside)
  {
  }

  lemma ScanBegin(name: Name, ts: Stream, strs: seq<byte>, q: Query, pos: nat, depth: nat, inside: bool)
    ensures Scan(Tok(TBegin(name), ts), strs, q, pos, depth, inside)
         == Scan(ts, strs, q, pos + NodeHeadSize(name), depth + 1, Entered(depth, inside, name, q))
  {
  }

  lemma ScanEnd(ts: Stream, strs: seq<byte>, q: Query, pos: nat, depth: nat, inside: bool)
    ensures Scan(Tok(TEnd, ts), strs, q, pos, depth, inside)
         == Scan(ts, strs, q, pos + 4, depth - 1, if depth == 2 then false else inside)
  {
  }

  ghost predicate Inside(path: Path, node: seq<byte>) {
    |path| >= 2 && Matches(path[1], node)
  }

  /** The search of the tree finds the first selected entry of the property list. */
  lemma {:induction false} SearchIsFirst(f: Items, strs: seq<byte>, q: Query, pos: nat, path: Path)
    ensures Search(f, strs, q, pos, |path|, Inside(path, q.node))
         == AsHit(FirstEntry(Properties(f, pos, path), strs, q))
  {
    match f
    case Nil =>
    case Nop(rest) => SearchIsFirst(rest, strs, q, pos + 4, path);
    case Prop(nameOff, value, rest) =>
      var next := pos + PropSize(value);
      SearchIsFirst(rest, strs, q, next, path);
      FirstAppend([Entry(path, nameOff, value, pos + 12)], Properties(rest, next, path), strs, q);
    case Node(name, body, rest) =>
      var inner := pos + NodeHeadSize(name);
      var next := inner + Size(body) + 4;
      SearchIsFirst(body, strs, q, inner, path + [name]);
      SearchIsFirst(rest, strs, q, next, path);
      FirstAppend(Properties(body, inner, path + [name]), Properties(rest, next, path), strs, q);
      InsideStep(path, name, q.node);
  }

  /** Entering a node keeps `inside` in step with the path. */
  lemma InsideStep(path: Path, name: seq<byte>, node: seq<byte>)
    ensures Inside(path + [name], node) == if |path| + 1 == 2 then Matches(name, node) else Inside(path, node)
  {
    assert |path| >= 2 ==> (path + [name])[1] == path[1];
  }

  lemma FirstAppend(a: seq<Entry>, b: seq<Entry>, strs: seq<byte>, q: Query)
    ensures FirstEntry(a + b, strs, q)
         == if FirstEntry(a, strs, q).Some? then FirstEntry(a, strs, q) else FirstEntry(b, strs, q)
  {
    var ka, kb, k := First(a, strs, q), First(b, strs, q), First(a + b, strs, q);
    var want := if ka < |a| then ka else |a| + kb;
    assert want < |a + b| ==> (a + b)[want] == if ka < |a| then a[ka] else b[kb];
    assert k < |a + b| ==> (a + b)[k] == if k < |a| then a[k] else b[k - |a|];
  }

  /** Running the automaton over the whole tree from depth 0 is the declarative lookup. */
  lemma ScanIsLookup(f: Items, strs: seq<byte>, q: Query)
    ensures Scan(TokensOf(f, Done), strs, q, 0, 0, false) == AsHit(Lookup(f, strs, q))
  {
    ScanItems(f, Done, strs, q, 0, 0, false);
    SearchIsFirst(f, strs, q, 0, []);
  }
}
