/** Device trees, the layout that encodes them (section 5.4 of the Devicetree Specification),
    and the preorder list of their nodes. Everything in the layout is a whole number of 4-byte cells,
    so positions in a tree are counted in cells; cell c is byte offset 4 * c of the block. */
module FdtTree {
  import opened Words
  import opened FdtBlock

  type Name = seq<byte>

  datatype Tree = Node(name: Name, body: Body)

  /** What stands between a node's name and its end tag, in file order. */
  datatype Body =
    | Done
    | Nop(rest: Body)
    | Prop(nameoff: word, data: seq<byte>, rest: Body)
    | Sub(node: Tree, rest: Body)

  const NUL: byte := 0
  const SLASH: byte := 47
  const AT: byte := 64

  /** Begin tag, name and its NUL, padded. */
  function HeadCells(name: Name): nat {
    (|name| + 8) / 4
  }

  /** Property tag, length, name offset and data, padded. */
  function PropCells(data: seq<byte>): nat {
    (|data| + 15) / 4
  }

  function Cells(t: Tree): (n: nat)
    ensures n >= 2
  {
    HeadCells(t.name) + BodyCells(t.body) + 1
  }

  function BodyCells(b: Body): nat {
    match b
    case Done => 0
    case Nop(rest) => 1 + BodyCells(rest)
    case Prop(_, data, rest) => PropCells(data) + BodyCells(rest)
    case Sub(node, rest) => Cells(node) + BodyCells(rest)
  }

  // ---- Layout: which bytes of a block hold a tree. Padding bytes are free.

  predicate TagIs(dt: Block, c: nat, tag: int) {
    4 * c + 4 <= |dt| && Be32(dt, 4 * c) == tag
  }

  predicate BeginAt(dt: Block, c: nat, name: Name) {
    var o := 4 * c + 4;
    TagIs(dt, c, FDT_BEGIN_NODE) && 4 * (c + HeadCells(name)) <= |dt| &&
    dt[o..o + |name|] == name && NUL !in name && dt[o + |name|] == NUL
  }

  predicate PropAt(dt: Block, c: nat, nameoff: word, data: seq<byte>) {
    var o := 4 * c + 12;
    TagIs(dt, c, FDT_PROP) && 4 * (c + PropCells(data)) <= |dt| &&
    Be32(dt, o - 8) == |data| && Be32(dt, o - 4) == nameoff && dt[o..o + |data|] == data
  }

  predicate TreeAt(dt: Block, c: nat, t: Tree)
    decreases t
  {
    BeginAt(dt, c, t.name) &&
    BodyAt(dt, c + HeadCells(t.name), t.body) &&
    TagIs(dt, c + HeadCells(t.name) + BodyCells(t.body), FDT_END_NODE)
  }

  predicate BodyAt(dt: Block, c: nat, b: Body)
    decreases b
  {
    match b
    case Done => true
    case Nop(rest) => TagIs(dt, c, FDT_NOP) && BodyAt(dt, c + 1, rest)
    case Prop(nameoff, data, rest) => PropAt(dt, c, nameoff, data) && BodyAt(dt, c + PropCells(data), rest)
    case Sub(node, rest) => TreeAt(dt, c, node) && BodyAt(dt, c + Cells(node), rest)
  }

  /** A block that starts with the tree t, closed by the end tag. */
  predicate Encodes(dt: Block, t: Tree) {
    TreeAt(dt, 0, t) && TagIs(dt, Cells(t), FDT_END)
  }

  // ---- The encoder: every tree with NUL-free names that fits has such a block.

  function Zeros(n: nat): (s: seq<byte>)
    ensures |s| == n && forall i :: 0 <= i < n ==> s[i] == 0
  {
    seq(n, _ => 0)
  }

  function EncodeHead(name: Name): (s: seq<byte>)
    ensures |s| == 4 * HeadCells(name)
  {
    Bytes32(FDT_BEGIN_NODE) + name + Zeros(4 * HeadCells(name) - 4 - |name|)
  }

  function EncodeProp(nameoff: word, data: seq<byte>): (s: seq<byte>)
    ensures |s| == 4 * PropCells(data)
  {
    Bytes32(FDT_PROP) + Bytes32(Wrap(|data|)) + Bytes32(nameoff) + data + Zeros(4 * PropCells(data) - 12 - |data|)
  }

  function Encode(t: Tree): (s: seq<byte>)
    ensures |s| == 4 * Cells(t)
  {
    EncodeHead(t.name) + EncodeBody(t.body) + Bytes32(FDT_END_NODE)
  }

  function EncodeBody(b: Body): (s: seq<byte>)
    ensures |s| == 4 * BodyCells(b)
  {
    match b
    case Done => []
    case Nop(rest) => Bytes32(FDT_NOP) + EncodeBody(rest)
    case Prop(nameoff, data, rest) => EncodeProp(nameoff, data) + EncodeBody(rest)
    case Sub(node, rest) => Encode(node) + EncodeBody(rest)
  }

  predicate NulFree(t: Tree) {
    NUL !in t.name && NulFreeBody(t.body)
  }

  predicate NulFreeBody(b: Body) {
    match b
    case Done => true
    case Nop(rest) => NulFreeBody(rest)
    case Prop(_, _, rest) => NulFreeBody(rest)
    case Sub(node, rest) => NulFree(node) && NulFreeBody(rest)
  }

  predicate Slice(dt: Block, o: nat, s: seq<byte>) {
    o + |s| <= |dt| && forall i :: 0 <= i < |s| ==> dt[o + i] == s[i]
  }

  lemma SliceSplit(dt: Block, o: nat, s: seq<byte>, u: seq<byte>)
    requires Slice(dt, o, s + u)
    ensures Slice(dt, o, s) && Slice(dt, o + |s|, u)
  {
    assert forall i :: 0 <= i < |s| ==> s[i] == (s + u)[i];
    assert forall i :: 0 <= i < |u| ==> u[i] == (s + u)[|s| + i];
  }

  lemma Bytes32Decode(dt: Block, o: nat, x: word)
    requires Slice(dt, o, Bytes32(x))
    ensures Be32(dt, o) == x
  {
    var s := Bytes32(x);
    assert s[0] == dt[o + 0] && s[1] == dt[o + 1] && s[2] == dt[o + 2] && s[3] == dt[o + 3];
    Digits(x);
  }

  lemma Digits(x: word)
    ensures x == x / 0x100_0000 * 0x100_0000 + x / 0x1_0000 % 0x100 * 0x1_0000 + x / 0x100 % 0x100 * 0x100 + x % 0x100
  {
    var a := x / 0x100;
    var b := x / 0x1_0000;
    assert b == a / 0x100 && x / 0x100_0000 == b / 0x100;
  }

  lemma HeadDecode(dt: Block, c: nat, name: Name)
    requires NUL !in name && Slice(dt, 4 * c, EncodeHead(name))
    ensures BeginAt(dt, c, name)
  {
    hide Be32, Bytes32;
    var o, pad := 4 * c, Zeros(4 * HeadCells(name) - 4 - |name|);
    SliceSplit(dt, o, Bytes32(FDT_BEGIN_NODE) + name, pad);
    SliceSplit(dt, o, Bytes32(FDT_BEGIN_NODE), name);
    Bytes32Decode(dt, o, FDT_BEGIN_NODE);
    assert dt[o + 4 + |name| + 0] == pad[0];
  }

  lemma PropDecode(dt: Block, c: nat, nameoff: word, data: seq<byte>)
    requires Slice(dt, 4 * c, EncodeProp(nameoff, data))
    ensures PropAt(dt, c, nameoff, data)
  {
    hide Be32, Bytes32;
    var o, tag, len, name := 4 * c, Bytes32(FDT_PROP), Bytes32(Wrap(|data|)), Bytes32(nameoff);
    SliceSplit(dt, o, tag + len + name + data, Zeros(4 * PropCells(data) - 12 - |data|));
    SliceSplit(dt, o, tag + len + name, data);
    SliceSplit(dt, o, tag + len, name);
    SliceSplit(dt, o, tag, len);
    Bytes32Decode(dt, o, FDT_PROP);
    Bytes32Decode(dt, o + 4, Wrap(|data|));
    Bytes32Decode(dt, o + 8, nameoff);
  }

  lemma EncodeParts(dt: Block, c: nat, t: Tree)
    requires NUL !in t.name && Slice(dt, 4 * c, Encode(t))
    ensures BeginAt(dt, c, t.name)
    ensures Slice(dt, 4 * (c + HeadCells(t.name)), EncodeBody(t.body))
    ensures TagIs(dt, c + HeadCells(t.name) + BodyCells(t.body), FDT_END_NODE)
  {
    hide Be32, Bytes32, BeginAt;
    var head, body := EncodeHead(t.name), EncodeBody(t.body);
    SliceSplit(dt, 4 * c, head + body, Bytes32(FDT_END_NODE));
    SliceSplit(dt, 4 * c, head, body);
    HeadDecode(dt, c, t.name);
    Bytes32Decode(dt, 4 * c + |head + body|, FDT_END_NODE);
  }

  lemma {:induction false} EncodeHolds(dt: Block, c: nat, t: Tree)
    requires NulFree(t) && Slice(dt, 4 * c, Encode(t))
    ensures TreeAt(dt, c, t)
    decreases t
  {
    EncodeParts(dt, c, t);
    EncodeBodyHolds(dt, c + HeadCells(t.name), t.body);
  }

  lemma EncodeNopParts(dt: Block, c: nat, rest: Body)
    requires Slice(dt, 4 * c, EncodeBody(Nop(rest)))
    ensures TagIs(dt, c, FDT_NOP) && Slice(dt, 4 * (c + 1), EncodeBody(rest))
  {
    hide Bytes32, Be32;
    SliceSplit(dt, 4 * c, Bytes32(FDT_NOP), EncodeBody(rest));
    Bytes32Decode(dt, 4 * c, FDT_NOP);
  }

  lemma EncodePropParts(dt: Block, c: nat, nameoff: word, data: seq<byte>, rest: Body)
    requires Slice(dt, 4 * c, EncodeBody(Prop(nameoff, data, rest)))
    ensures PropAt(dt, c, nameoff, data)
    ensures Slice(dt, 4 * (c + PropCells(data)), EncodeBody(rest))
  {
    SliceSplit(dt, 4 * c, EncodeProp(nameoff, data), EncodeBody(rest));
    PropDecode(dt, c, nameoff, data);
  }

  lemma EncodeSubParts(dt: Block, c: nat, node: Tree, rest: Body)
    requires Slice(dt, 4 * c, EncodeBody(Sub(node, rest)))
    ensures Slice(dt, 4 * c, Encode(node)) && Slice(dt, 4 * (c + Cells(node)), EncodeBody(rest))
  {
    SliceSplit(dt, 4 * c, Encode(node), EncodeBody(rest));
  }

  lemma {:induction false} EncodeBodyHolds(dt: Block, c: nat, b: Body)
    requires NulFreeBody(b) && Slice(dt, 4 * c, EncodeBody(b))
    ensures BodyAt(dt, c, b)
    decreases b
  {
    hide Slice, PropAt, TagIs, EncodeProp, Bytes32;
    match b
    case Done =>
    case Nop(rest) =>
      EncodeNopParts(dt, c, rest);
      EncodeBodyHolds(dt, c + 1, rest);
    case Prop(nameoff, data, rest) =>
      EncodePropParts(dt, c, nameoff, data, rest);
      EncodeBodyHolds(dt, c + PropCells(data), rest);
    case Sub(node, rest) =>
      EncodeSubParts(dt, c, node, rest);
      EncodeHolds(dt, c, node);
      EncodeBodyHolds(dt, c + Cells(node), rest);
  }

  /** The layout is inhabited: encoding a tree and closing it yields a block that encodes that tree. */
  lemma EncodeEncodes(t: Tree)
    requires 4 * Cells(t) + 4 < 0x4000_0000 && NulFree(t)
    ensures Encodes(Encode(t) + Bytes32(FDT_END), t)
  {
    var dt: Block := Encode(t) + Bytes32(FDT_END);
    assert Slice(dt, 0, Encode(t) + Bytes32(FDT_END));
    SliceSplit(dt, 0, Encode(t), Bytes32(FDT_END));
    EncodeHolds(dt, 0, t);
    Bytes32Decode(dt, 4 * Cells(t), FDT_END);
  }

  /** A node "a" with the property of the name at offset 5 and the byte 7, a no-op, and a nameless child. */
  const SMALL: Tree := Node([97], Prop(5, [7], Nop(Sub(Node([], Done), Done))))

  const SMALL_HEAD: seq<byte> := [0, 0, 0, 1, 97, 0, 0, 0]
  const SMALL_PROP: seq<byte> := [0, 0, 0, 3, 0, 0, 0, 1, 0, 0, 0, 5, 7, 0, 0, 0]
  const SMALL_NOP: seq<byte> := [0, 0, 0, 4]
  const SMALL_CHILD: seq<byte> := [0, 0, 0, 1, 0, 0, 0, 0, 0, 0, 0, 2]
  const SMALL_ENDS: seq<byte> := [0, 0, 0, 2, 0, 0, 0, 9]

  /** The bytes that the specification of the format gives this tree. */
  lemma SmallEncodes()
    ensures var dt: seq<byte> := Encode(SMALL) + Bytes32(FDT_END);
      dt == SMALL_HEAD + SMALL_PROP + SMALL_NOP + SMALL_CHILD + SMALL_ENDS && |dt| < 100 && Encodes(dt, SMALL)
  {
    hide Bytes32, Encodes, EncodeHead, EncodeProp, Encode;
    SmallParts();
    SmallWhole();
    var child := Node([], Done);
    EncodeNode(child);
    EncodeNode(SMALL);
    assert EncodeBody(Done) == [];
    assert Encode(child) == SMALL_CHILD;
    assert EncodeBody(Sub(child, Done)) == SMALL_CHILD;
    assert EncodeBody(Nop(Sub(child, Done))) == SMALL_NOP + SMALL_CHILD;
    assert EncodeBody(SMALL.body) == SMALL_PROP + (SMALL_NOP + SMALL_CHILD);
    EncodeEncodes(SMALL);
  }

  lemma EncodeNode(t: Tree)
    ensures Encode(t) == EncodeHead(t.name) + EncodeBody(t.body) + Bytes32(FDT_END_NODE)
  {
  }

  lemma SmallParts()
    ensures Bytes32(FDT_NOP) == [0, 0, 0, 4]
    ensures Bytes32(FDT_END_NODE) == [0, 0, 0, 2] && Bytes32(FDT_END) == [0, 0, 0, 9]
    ensures EncodeHead([97]) == [0, 0, 0, 1, 97, 0, 0, 0] && EncodeHead([]) == [0, 0, 0, 1, 0, 0, 0, 0]
    ensures EncodeProp(5, [7]) == [0, 0, 0, 3, 0, 0, 0, 1, 0, 0, 0, 5, 7, 0, 0, 0]
  {
    assert Zeros(3) == [0, 0, 0] && Zeros(4) == [0, 0, 0, 0];
    assert Bytes32(1) == [0, 0, 0, 1] && Bytes32(3) == [0, 0, 0, 3] && Bytes32(5) == [0, 0, 0, 5];
    assert HeadCells([97]) == 2 && HeadCells([]) == 2 && PropCells([7]) == 4;
  }

  lemma SmallWhole()
    ensures Cells(SMALL) == 11 && NulFree(SMALL)
  {
    var child := Node([], Done);
    assert Cells(child) == 3 && BodyCells(Sub(child, Done)) == 3 && BodyCells(Nop(Sub(child, Done))) == 4;
    assert NulFree(child) && NulFreeBody(Done) && NulFreeBody(Sub(child, Done)) && NulFreeBody(Nop(Sub(child, Done)));
  }

  // ---- Nodes in preorder. A trail lists a node's ancestors from the root down to the node itself.

  /** A node, the cell where it starts, and what follows it inside its parent. */
  datatype Place = Place(cell: nat, node: Tree, rest: Body)

  type Trail = s: seq<Place> | |s| > 0 witness [Place(0, Node([], Done), Done)]

  function Here(tr: Trail): Place { tr[|tr| - 1] }
  function Depth(tr: Trail): nat { |tr| - 1 }

  /** The cell where a node's body starts. */
  function BodyCell(p: Place): nat { p.cell + HeadCells(p.node.name) }

  function Preorder(t: Tree, c: nat, rest: Body, above: seq<Place>): (v: seq<Trail>)
    ensures |v| > 0 && v[0] == above + [Place(c, t, rest)]
  {
    var trail: Trail := above + [Place(c, t, rest)];
    [trail] + PreorderBody(t.body, c + HeadCells(t.name), trail)
  }

  function PreorderBody(b: Body, c: nat, trail: Trail): seq<Trail> {
    match b
    case Done => []
    case Nop(rest) => PreorderBody(rest, c + 1, trail)
    case Prop(_, data, rest) => PreorderBody(rest, c + PropCells(data), trail)
    case Sub(node, rest) => Preorder(node, c, rest, trail) + PreorderBody(rest, c + Cells(node), trail)
  }

  function Trails(t: Tree): (v: seq<Trail>)
    ensures |v| > 0 && v[0] == [Place(0, t, Done)]
  {
    Preorder(t, 0, Done, [])
  }

  /** The cell of the first subnode in a body, or -1. */
  function FirstSub(b: Body, c: nat): (r: int)
    ensures r == -1 || c <= r < c + BodyCells(b)
  {
    match b
    case Done => -1
    case Nop(rest) => FirstSub(rest, c + 1)
    case Prop(_, data, rest) => FirstSub(rest, c + PropCells(data))
    case Sub(_, _) => c
  }

  /** p is one of the subnodes in a body that starts at cell c. */
  predicate SubAt(b: Body, c: nat, p: Place) {
    match b
    case Done => false
    case Nop(rest) => SubAt(rest, c + 1, p)
    case Prop(_, data, rest) => SubAt(rest, c + PropCells(data), p)
    case Sub(node, rest) => p == Place(c, node, rest) || SubAt(rest, c + Cells(node), p)
  }

  predicate ChildOf(p: Place, child: Place) {
    SubAt(p.node.body, BodyCell(p), child)
  }

  predicate IsTrail(t: Tree, tr: Trail) {
    tr[0] == Place(0, t, Done) && forall i :: 0 <= i < |tr| - 1 ==> ChildOf(tr[i], tr[i + 1])
  }
}
