/** Looking for a node's children and siblings by scanning depths (fdt/fdt_ro.c, fdt/fdt_pvp.c). */
module FdtLookup {
  import opened Words
  import opened FdtBlock
  import opened FdtTree
  import opened FdtWalk

  /** A C string, without its NUL. */
  type CName = s: seq<byte> | NUL !in s witness []

  /** A search key: any node, or a node of that name. */
  datatype Key = AnyNode | Named(name: CName)

  /** _fdt_nodename_eq (fdt/fdt_ro.c:58-76). */
  predicate NodenameEq(dt: Block, offset: nat, s: CName) {
    var p, len := offset + FDT_TAGSIZE, |s|;
    p + len + 1 <= |dt| && dt[p..p + len] == s &&
    (dt[p + len] == NUL || (AT !in s && dt[p + len] == AT))
  }

  predicate KeyAt(dt: Block, offset: nat, key: Key) {
    key.Named? ==> NodenameEq(dt, offset, key.name)
  }

  /** The loop shared by the child and sibling searches, from a step of the walk. */
  function Search(dt: Block, s: NodeStep, low: int, key: Key): (r: cint)
    requires CanStart(dt, s.offset)
    ensures r >= 0 ==> CanStep(dt, r)
    decreases |dt| + 4 - s.offset
  {
    if s.offset >= 0 && s.depth >= low then
      if s.depth == 1 && KeyAt(dt, s.offset, key) then s.offset
      else
        NextNodeAdvances(dt, s.offset, s.depth, true);
        var n := NextNode(dt, s.offset, s.depth, true);
        if n.offset < 0 then (if n.depth < 0 then -FDT_ERR_NOTFOUND else n.offset)
        else Search(dt, n, low, key)
    else if s.depth < 0 then -FDT_ERR_NOTFOUND
    else s.offset
  }

  /** Search continued from any step, including one that ended the walk. */
  function Resume(dt: Block, s: NodeStep, low: int, key: Key): (r: cint)
    requires s.offset >= 0 ==> CanStep(dt, s.offset)
    ensures r >= 0 ==> CanStep(dt, r)
  {
    if s.offset >= 0 then Search(dt, s, low, key)
    else if s.depth < 0 then -FDT_ERR_NOTFOUND
    else s.offset
  }

  function Subnode(dt: Block, offset: cint, key: Key): (r: cint)
    requires CanStep(dt, offset)
    ensures r >= 0 ==> CanStep(dt, r)
  {
    Resume(dt, NodeStep(offset, 0), 0, key)
  }

  function Sibling(dt: Block, offset: cint, key: Key): (r: cint)
    requires CanStart(dt, offset)
    ensures r >= 0 ==> CanStep(dt, r)
  {
    NextNodeAdvances(dt, offset, 1, true);
    Resume(dt, NextNode(dt, offset, 1, true), 1, key)
  }

  /** fdt_subnode (fdt/fdt_pvp.c:8-27). */
  method FdtSubnode(dt: Block, nodeoffset: cint) returns (r: cint)
    requires CanStep(dt, nodeoffset)
    ensures r == Subnode(dt, nodeoffset, AnyNode)
  {
    var offset, depth := nodeoffset, 0;
    while offset >= 0 && depth >= 0
      invariant offset >= 0 ==> CanStep(dt, offset)
      invariant Resume(dt, NodeStep(offset, depth), 0, AnyNode) == Subnode(dt, nodeoffset, AnyNode)
      decreases offset >= 0, |dt| + 4 - offset
    {
      if depth == 1 {
        return offset;
      }
      NextNodeAdvances(dt, offset, depth, true);
      offset, depth := FdtNextNode(dt, offset, depth, true);
    }
    if depth < 0 {
      return -FDT_ERR_NOTFOUND;
    }
    return offset;
  }

  /** fdt_sibling (fdt/fdt_pvp.c:29-48). */
  method FdtSibling(dt: Block, nodeoffset: cint) returns (r: cint)
    requires CanStart(dt, nodeoffset)
    ensures r == Sibling(dt, nodeoffset, AnyNode)
  {
    NextNodeAdvances(dt, nodeoffset, 1, true);
    var offset, depth := FdtNextNode(dt, nodeoffset, 1, true);
    while offset >= 0 && depth >= 1
      invariant offset >= 0 ==> CanStep(dt, offset)
      invariant Resume(dt, NodeStep(offset, depth), 1, AnyNode) == Sibling(dt, nodeoffset, AnyNode)
      decreases offset >= 0, |dt| + 4 - offset
    {
      if depth == 1 {
        return offset;
      }
      NextNodeAdvances(dt, offset, depth, true);
      offset, depth := FdtNextNode(dt, offset, depth, true);
    }
    if depth < 0 {
      return -FDT_ERR_NOTFOUND;
    }
    return offset;
  }

  /** fdt_subnode_offset_namelen (fdt/fdt_ro.c:108-125). */
  method FdtSubnodeOffsetNamelen(dt: Block, nodeoffset: cint, name: CName) returns (r: cint)
    requires CanStep(dt, nodeoffset)
    ensures r == Subnode(dt, nodeoffset, Named(name))
  {
    var offset, depth := nodeoffset, 0;
    while offset >= 0 && depth >= 0
      invariant offset >= 0 ==> CanStep(dt, offset)
      invariant Resume(dt, NodeStep(offset, depth), 0, Named(name)) == Subnode(dt, nodeoffset, Named(name))
      decreases offset >= 0, |dt| + 4 - offset
    {
      if depth == 1 && NodenameEq(dt, offset, name) {
        return offset;
      }
      NextNodeAdvances(dt, offset, depth, true);
      offset, depth := FdtNextNode(dt, offset, depth, true);
    }
    if depth < 0 {
      return -FDT_ERR_NOTFOUND;
    }
    return offset;
  }

  // ---- On encoded trees.

  /** A node name answers the name asked for: exactly, or, when that has no unit address, up to its own '@'. */
  predicate Answers(asked: Name, name: Name) {
    name == asked || (AT !in asked && asked + [AT] <= name)
  }

  predicate Matches(key: Key, name: Name) {
    key.Named? ==> Answers(key.name, name)
  }

  /** The cell of the first subnode in a body that matches, or -1. */
  function FirstMatch(b: Body, c: nat, key: Key): (r: int)
    ensures r == -1 || c <= r < c + BodyCells(b)
  {
    match b
    case Done => -1
    case Nop(rest) => FirstMatch(rest, c + 1, key)
    case Prop(_, data, rest) => FirstMatch(rest, c + PropCells(data), key)
    case Sub(node, rest) => if Matches(key, node.name) then c else FirstMatch(rest, c + Cells(node), key)
  }

  lemma NodenameEqMatches(dt: Block, c: nat, name: Name, key: CName)
    requires BeginAt(dt, c, name)
    ensures NodenameEq(dt, 4 * c, key) <==> Matches(Named(key), name)
  {
    hide Be32;
    var p := 4 * c + 4;
    assert forall i :: 0 <= i < |name| ==> dt[p..p + |name|][i] == name[i] == dt[p + i];
    if NodenameEq(dt, 4 * c, key) {
      assert forall i :: 0 <= i < |key| ==> dt[p..p + |key|][i] == key[i] == dt[p + i];
      assert |key| <= |name|;
      assert key == name[..|key|];
    }
    if Matches(Named(key), name) && name != key {
      assert name[..|key|] == (key + [AT])[..|key|];
      assert dt[p..p + |key|] == name[..|key|];
    }
  }

  /** The search, standing between the tags at cell c with the given depth. */
  function From(dt: Block, c: nat, depth: int, low: int, key: Key): cint
    requires 4 * c <= |dt| && Settles(dt, 4 * c)
  {
    NextFromAdvances(dt, 4 * c, depth, true);
    Resume(dt, NextFrom(dt, 4 * c, depth, true), low, key)
  }

  /** A subtree that is not itself the answer is passed over. */
  lemma {:induction false} PassTree(dt: Block, c: nat, t: Tree, depth: nat, low: int, key: Key)
    requires TreeAt(dt, c, t) && 4 * (c + Cells(t)) <= |dt| && Settles(dt, 4 * (c + Cells(t))) && low <= 1
    requires depth == 0 ==> !Matches(key, t.name)
    ensures Settles(dt, 4 * c)
    ensures From(dt, c, depth, low, key) == From(dt, c + Cells(t), depth, low, key)
    decreases t, 1
  {
    hide Be32, NextTag, NextNode, NextFrom, BeginAt;
    var b := c + HeadCells(t.name);
    EnterNode(dt, c, t, depth, true);
    EnterNode(dt, c, t, depth + 1, true);
    LeaveNode(dt, b + BodyCells(t.body), depth, true);
    if key.Named? {
      NodenameEqMatches(dt, c, t.name, key.name);
    }
    NextNodeAdvances(dt, 4 * c, depth + 1, true);
    assert From(dt, c, depth, low, key) == From(dt, b, depth + 1, low, key);
    PassBody(dt, b, t.body, depth + 1, low, key);
  }

  lemma {:induction false} PassBody(dt: Block, c: nat, b: Body, depth: nat, low: int, key: Key)
    requires BodyAt(dt, c, b) && 4 * (c + BodyCells(b)) <= |dt| && Settles(dt, 4 * (c + BodyCells(b))) && low <= 1
    requires depth >= 1 || FirstMatch(b, c, key) == -1
    ensures Settles(dt, 4 * c)
    ensures From(dt, c, depth, low, key) == From(dt, c + BodyCells(b), depth, low, key)
    decreases b, 0
  {
    hide Be32, NextTag, NextNode, PropAt, Resume, TreeAt, KeyAt;
    SettlesBody(dt, c, b);
    match b
    case Done =>
    case Nop(rest) =>
      PlainTag(dt, c, FDT_NOP);
      PassBody(dt, c + 1, rest, depth, low, key);
    case Prop(nameoff, data, rest) =>
      PropTag(dt, c, nameoff, data);
      PassBody(dt, c + PropCells(data), rest, depth, low, key);
    case Sub(node, rest) =>
      PassBody(dt, c + Cells(node), rest, depth, low, key);
      PassTree(dt, c, node, depth, low, key);
  }

  lemma StopAtMatch(dt: Block, c: nat, t: Tree, low: int, key: Key)
    requires TreeAt(dt, c, t) && Settles(dt, 4 * (c + Cells(t))) && low <= 1 && Matches(key, t.name)
    ensures Settles(dt, 4 * c) && 4 * c <= |dt| && From(dt, c, 0, low, key) == 4 * c
  {
    hide Be32, NextTag, NextNode, NextFrom, BeginAt;
    EnterNode(dt, c, t, 0, true);
    if key.Named? {
      NodenameEqMatches(dt, c, t.name, key.name);
    }
  }

  /** At depth 0 the search stops at the first matching subnode. */
  lemma {:induction false} FindInBody(dt: Block, c: nat, b: Body, low: int, key: Key)
    requires BodyAt(dt, c, b) && 4 * (c + BodyCells(b)) <= |dt| && Settles(dt, 4 * (c + BodyCells(b))) && low <= 1
    requires FirstMatch(b, c, key) >= 0
    ensures Settles(dt, 4 * c)
    ensures From(dt, c, 0, low, key) == 4 * FirstMatch(b, c, key)
    decreases b
  {
    hide Be32, NextTag, NextNode, PropAt, TreeAt, Resume;
    SettlesBody(dt, c, b);
    match b
    case Nop(rest) =>
      PlainTag(dt, c, FDT_NOP);
      FindInBody(dt, c + 1, rest, low, key);
    case Prop(nameoff, data, rest) =>
      PropTag(dt, c, nameoff, data);
      FindInBody(dt, c + PropCells(data), rest, low, key);
    case Sub(node, rest) =>
      SettlesBody(dt, c + Cells(node), rest);
      if Matches(key, node.name) {
        StopAtMatch(dt, c, node, low, key);
      } else {
        PassTree(dt, c, node, 0, low, key);
        FindInBody(dt, c + Cells(node), rest, low, key);
      }
  }

  /** A place in an encoded tree: the node, what follows it, and the tag that closes what follows. */
  predicate PlaceAt(dt: Block, p: Place) {
    var after := p.cell + Cells(p.node);
    var end := after + BodyCells(p.rest);
    TreeAt(dt, p.cell, p.node) && BodyAt(dt, after, p.rest) &&
    (TagIs(dt, end, FDT_END_NODE) || TagIs(dt, end, FDT_END)) && Settles(dt, 4 * end)
  }

  /** What Subnode and Sibling return for a cell number that may be -1. */
  function OffsetOrNotFound(c: int): int {
    if c < 0 then -FDT_ERR_NOTFOUND else 4 * c
  }

  /** The first matching child, or "not found" exactly when there is none. */
  lemma SubnodeFinds(dt: Block, p: Place, key: Key)
    requires PlaceAt(dt, p)
    ensures CanStep(dt, 4 * p.cell)
    ensures Subnode(dt, 4 * p.cell, key) == OffsetOrNotFound(FirstMatch(p.node.body, BodyCell(p), key))
  {
    hide Be32, NextTag, NextFrom, BeginAt, PropAt;
    var t, b := p.node, BodyCell(p);
    var end := b + BodyCells(t.body);
    SettlesBody(dt, end + 1, p.rest);
    EnterNode(dt, p.cell, t, 0, true);
    NextNodeAdvances(dt, 4 * p.cell, 0, true);
    assert Subnode(dt, 4 * p.cell, key) == From(dt, b, 0, 0, key);
    StopAtEnd(dt, end, 0, key);
    if FirstMatch(t.body, b, key) >= 0 {
      FindInBody(dt, b, t.body, 0, key);
    } else {
      PassBody(dt, b, t.body, 0, 0, key);
    }
  }

  /** At the tag that closes a body, a search at depth 0 ends without an answer. */
  lemma StopAtEnd(dt: Block, end: nat, low: int, key: Key)
    requires TagIs(dt, end, FDT_END_NODE) || TagIs(dt, end, FDT_END)
    requires TagIs(dt, end, FDT_END_NODE) ==> Settles(dt, 4 * (end + 1)) || Settles(dt, 4 * end)
    requires low >= 0
    ensures Settles(dt, 4 * end)
    ensures From(dt, end, 0, low, key) == -FDT_ERR_NOTFOUND
  {
    hide Be32, NextTag;
    PlainTag(dt, end, if TagIs(dt, end, FDT_END) then FDT_END else FDT_END_NODE);
  }

  /** The next matching sibling, or "not found" exactly when there is none. */
  lemma SiblingFinds(dt: Block, p: Place, key: Key)
    requires PlaceAt(dt, p)
    ensures CanStep(dt, 4 * p.cell)
    ensures Sibling(dt, 4 * p.cell, key) == OffsetOrNotFound(FirstMatch(p.rest, p.cell + Cells(p.node), key))
  {
    hide Be32, NextTag, NextFrom, BeginAt, PropAt, Resume, Search;
    var t, b, after := p.node, BodyCell(p), p.cell + Cells(p.node);
    var end := after + BodyCells(p.rest);
    SettlesBody(dt, after, p.rest);
    EnterNode(dt, p.cell, t, 1, true);
    LeaveNode(dt, after - 1, 0, true);
    assert Sibling(dt, 4 * p.cell, key) == From(dt, b, 1, 1, key);
    PassBody(dt, b, t.body, 1, 1, key);
    assert From(dt, after - 1, 1, 1, key) == From(dt, after, 0, 1, key);
    StopAtEnd(dt, end, 1, key);
    if FirstMatch(p.rest, after, key) >= 0 {
      FindInBody(dt, after, p.rest, 1, key);
    } else {
      PassBody(dt, after, p.rest, 0, 1, key);
    }
  }

  lemma {:induction false} SubPlaceAt(dt: Block, c: nat, b: Body, p: Place)
    requires BodyAt(dt, c, b) && SubAt(b, c, p)
    ensures TreeAt(dt, p.cell, p.node) && BodyAt(dt, p.cell + Cells(p.node), p.rest)
    ensures p.cell + Cells(p.node) + BodyCells(p.rest) == c + BodyCells(b)
    decreases b
  {
    hide Be32, TagIs, PropAt;
    match b
    case Nop(rest) => SubPlaceAt(dt, c + 1, rest, p);
    case Prop(_, data, rest) => SubPlaceAt(dt, c + PropCells(data), rest, p);
    case Sub(node, rest) =>
      if p != Place(c, node, rest) {
        SubPlaceAt(dt, c + Cells(node), rest, p);
      }
  }

  /** A child of a place is a place. */
  lemma ChildPlaceAt(dt: Block, p: Place, child: Place)
    requires PlaceAt(dt, p) && ChildOf(p, child)
    ensures PlaceAt(dt, child)
  {
    hide Be32, BeginAt, NextTag;
    var end := p.cell + Cells(p.node) - 1;
    SubPlaceAt(dt, BodyCell(p), p.node.body, child);
    SettlesBody(dt, end + 1, p.rest);
    LeaveNode(dt, end, 0, true);
  }

  /** Every node of an encoded tree is a place. */
  lemma {:induction false} TrailPlaceAt(dt: Block, t: Tree, tr: Trail)
    requires Encodes(dt, t) && IsTrail(t, tr)
    ensures PlaceAt(dt, Here(tr))
    decreases |tr|
  {
    if |tr| == 1 {
      PlainTag(dt, Cells(t), FDT_END);
    } else {
      var up: Trail := tr[..|tr| - 1];
      TrailPlaceAt(dt, t, up);
      ChildPlaceAt(dt, Here(up), Here(tr));
    }
  }
}
