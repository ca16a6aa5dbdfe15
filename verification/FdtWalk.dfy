/** fdt_next_node and what iterating it over an encoded tree visits. */
module FdtWalk {
  import opened Words
  import opened FdtBlock
  import opened FdtTree

  datatype NodeStep = NodeStep(offset: cint, depth: int)

  /** The scan of fdt_next_node once it stands on a tag inside a node. An untracked walk has no depth pointer. */
  function NextFrom(dt: Block, o: cint, depth: int, tracked: bool): NodeStep
    requires Settles(dt, o)
    decreases |dt| + 4 - o
  {
    NextTagProgress(dt, o);
    var t := NextTag(dt, o);
    if t.tag == FDT_BEGIN_NODE then NodeStep(o, if tracked then depth + 1 else depth)
    else if t.tag == FDT_END_NODE then
      var up := if tracked then depth - 1 else depth;
      if tracked && up < 0 then NodeStep(t.next, up) else NextFrom(dt, t.next, up, tracked)
    else if t.tag == FDT_END then
      NodeStep(if t.next >= 0 || (t.next == -FDT_ERR_TRUNCATED && !tracked) then -FDT_ERR_NOTFOUND else t.next, depth)
    else NextFrom(dt, t.next, depth, tracked)
  }

  function CheckNodeOffset(dt: Block, offset: cint): cint {
    if offset < 0 || offset % FDT_TAGSIZE != 0 || NextTag(dt, offset).tag != FDT_BEGIN_NODE
    then -FDT_ERR_BADOFFSET
    else NextTag(dt, offset).next
  }

  /** If there is a node at the offset, the scan that a walk continues on from it never meets a stuck property. */
  predicate CanStep(dt: Block, offset: cint) {
    CheckNodeOffset(dt, offset) >= 0 ==> Settles(dt, offset)
  }

  /** A walk that starts at a negative offset starts at the beginning. */
  predicate CanStart(dt: Block, offset: cint) {
    if offset < 0 then Settles(dt, 0) else CanStep(dt, offset)
  }

  function NextNode(dt: Block, offset: cint, depth: int, tracked: bool): NodeStep
    requires CanStart(dt, offset)
  {
    if offset >= 0 then
      NextTagProgress(dt, offset);
      if CheckNodeOffset(dt, offset) < 0 then NodeStep(CheckNodeOffset(dt, offset), depth)
      else NextFrom(dt, CheckNodeOffset(dt, offset), depth, tracked)
    else NextFrom(dt, 0, depth, tracked)
  }

  /** fdt_next_node (fdt/fdt.c:152-190); `tracked` says whether the caller passed a depth pointer. */
  method FdtNextNode(dt: Block, startoffset: cint, depth: int, tracked: bool) returns (r: cint, newdepth: int)
    requires CanStart(dt, startoffset)
    ensures NodeStep(r, newdepth) == NextNode(dt, startoffset, depth, tracked)
  {
    var offset, nextoffset: cint := startoffset, 0;
    var tag := FDT_END;
    newdepth := depth;
    if offset >= 0 {
      NextTagProgress(dt, offset);
      nextoffset := CheckNodeOffset(dt, offset);
      if nextoffset < 0 {
        return nextoffset, newdepth;
      }
    }
    while tag != FDT_BEGIN_NODE
      invariant tag != FDT_BEGIN_NODE ==> Settles(dt, nextoffset)
      invariant tag != FDT_BEGIN_NODE ==>
        NextFrom(dt, nextoffset, newdepth, tracked) == NextNode(dt, startoffset, depth, tracked)
      invariant tag == FDT_BEGIN_NODE ==> NodeStep(offset, newdepth) == NextNode(dt, startoffset, depth, tracked)
      decreases tag != FDT_BEGIN_NODE, |dt| + 4 - nextoffset
    {
      offset := nextoffset;
      NextTagProgress(dt, offset);
      tag, nextoffset := FdtNextTag(dt, offset);
      match tag {
        case 3 =>
        case 4 =>
        case 1 =>
          if tracked {
            newdepth := newdepth + 1;
          }
        case 2 =>
          if tracked {
            newdepth := newdepth - 1;
            if newdepth < 0 {
              return nextoffset, newdepth;
            }
          }
        case _ =>
          if nextoffset >= 0 || (nextoffset == -FDT_ERR_TRUNCATED && !tracked) {
            return -FDT_ERR_NOTFOUND, newdepth;
          } else {
            return nextoffset, newdepth;
          }
      }
    }
    return offset, newdepth;
  }

  /** On any bytes, a walk only moves forward and stays on the same scan. */
  lemma {:induction false} NextFromAdvances(dt: Block, o: cint, depth: int, tracked: bool)
    requires Settles(dt, o)
    ensures var r := NextFrom(dt, o, depth, tracked).offset;
      r >= 0 ==> 0 <= o <= r <= |dt| + 3 && Settles(dt, r)
    decreases |dt| + 4 - o
  {
    NextTagProgress(dt, o);
    var t := NextTag(dt, o);
    if t.tag == FDT_END_NODE && !(tracked && depth - 1 < 0) {
      NextFromAdvances(dt, t.next, if tracked then depth - 1 else depth, tracked);
    } else if t.tag == FDT_PROP || t.tag == FDT_NOP {
      NextFromAdvances(dt, t.next, depth, tracked);
    }
  }

  lemma NextNodeAdvances(dt: Block, offset: cint, depth: int, tracked: bool)
    requires CanStart(dt, offset)
    ensures var r := NextNode(dt, offset, depth, tracked).offset;
      r >= 0 ==> offset < r <= |dt| + 3 && CanStart(dt, r)
  {
    if offset < 0 {
      NextFromAdvances(dt, 0, depth, tracked);
    } else {
      NextTagProgress(dt, offset);
      if CheckNodeOffset(dt, offset) >= 0 {
        NextFromAdvances(dt, CheckNodeOffset(dt, offset), depth, tracked);
      }
    }
  }

  /** How a walk ends on any bytes: an end tag is "not found", a broken tag its error, and a block that stops short "not
      found" to a caller without a depth pointer only. An offset where no node starts is error 4 at once. */
  lemma WalkEnds(dt: Block, o: cint, depth: int, tracked: bool)
    requires CanStart(dt, o)
    ensures Settles(dt, o) && NextTag(dt, o).tag == 9 ==>
      var e := NextTag(dt, o).next;
      NextFrom(dt, o, depth, tracked) == NodeStep(if e == -11 || (e == -8 && tracked) then e else -1, depth)
    ensures o >= 0 && (o % 4 != 0 || NextTag(dt, o).tag != 1) ==> NextNode(dt, o, depth, tracked) == NodeStep(-4, depth)
  {
    hide Be32;
    TagExactly(dt, o);
  }

  // ---- The scanner on an encoded tree.

  lemma NameEnd(dt: Block, c: nat, name: Name)
    requires BeginAt(dt, c, name)
    ensures AfterNul(dt, 4 * c + 4) == 4 * c + 5 + |name|
  {
    var o, named := 4 * c + 4, AfterNul(dt, 4 * c + 4);
    assert forall i :: 0 <= i < |name| ==> dt[o..o + |name|][i] == name[i] == dt[o + i];
  }

  lemma BeginTag(dt: Block, c: nat, name: Name)
    requires BeginAt(dt, c, name)
    ensures NextTag(dt, 4 * c) == TagAt(FDT_BEGIN_NODE, 4 * (c + HeadCells(name)))
  {
    NameEnd(dt, c, name);
    assert TagAlign(4 * c + 5 + |name|) == 4 * (c + HeadCells(name));
    assert Wrap(5 + |name|) == 5 + |name|;
  }

  lemma PropTag(dt: Block, c: nat, nameoff: word, data: seq<byte>)
    requires PropAt(dt, c, nameoff, data)
    ensures NextTag(dt, 4 * c) == TagAt(FDT_PROP, 4 * (c + PropCells(data))) && !Stuck(dt, 4 * c)
  {
    hide NextTag, Be32;
    PropStep(dt, 4 * c);
    assert TagAlign(4 * c + 12 + |data|) == 4 * (c + PropCells(data));
    assert Wrap(12 + |data|) == 12 + |data|;
  }

  lemma PlainTag(dt: Block, c: nat, tag: int)
    requires TagIs(dt, c, tag) && (tag == FDT_END_NODE || tag == FDT_NOP || tag == FDT_END)
    ensures NextTag(dt, 4 * c) == TagAt(tag, 4 * (c + 1))
  {
  }

  function StepDepth(depth: int, tracked: bool): int {
    if tracked then depth + 1 else depth
  }

  lemma {:induction false} SettlesTree(dt: Block, c: nat, t: Tree)
    requires TreeAt(dt, c, t) && Settles(dt, 4 * (c + Cells(t)))
    ensures Settles(dt, 4 * c)
    decreases t
  {
    hide Be32, BeginAt;
    BeginTag(dt, c, t.name);
    PlainTag(dt, c + HeadCells(t.name) + BodyCells(t.body), FDT_END_NODE);
    SettlesBody(dt, c + HeadCells(t.name), t.body);
  }

  lemma {:induction false} SettlesBody(dt: Block, c: nat, b: Body)
    requires BodyAt(dt, c, b) && 4 * (c + BodyCells(b)) <= |dt| && Settles(dt, 4 * (c + BodyCells(b)))
    ensures Settles(dt, 4 * c)
    decreases b
  {
    hide NextTag, PropAt, Be32;
    match b
    case Done =>
    case Nop(rest) =>
      PlainTag(dt, c, FDT_NOP);
      SettlesBody(dt, c + 1, rest);
    case Prop(nameoff, data, rest) =>
      PropTag(dt, c, nameoff, data);
      SettlesBody(dt, c + PropCells(data), rest);
    case Sub(node, rest) =>
      SettlesBody(dt, c + Cells(node), rest);
      SettlesTree(dt, c, node);
  }

  /** Inside a body the scan stops at the first subnode, or runs on after the body. */
  lemma {:induction false} NextInBody(dt: Block, c: nat, b: Body, depth: int, tracked: bool)
    requires BodyAt(dt, c, b) && 4 * (c + BodyCells(b)) <= |dt| && Settles(dt, 4 * (c + BodyCells(b)))
    requires Settles(dt, 4 * c)
    ensures NextFrom(dt, 4 * c, depth, tracked) ==
      if FirstSub(b, c) >= 0 then NodeStep(4 * FirstSub(b, c), StepDepth(depth, tracked))
      else NextFrom(dt, 4 * (c + BodyCells(b)), depth, tracked)
    decreases b
  {
    hide NextTag, PropAt, Be32;
    match b
    case Done =>
    case Nop(rest) =>
      PlainTag(dt, c, FDT_NOP);
      NextInBody(dt, c + 1, rest, depth, tracked);
    case Prop(nameoff, data, rest) =>
      PropTag(dt, c, nameoff, data);
      NextInBody(dt, c + PropCells(data), rest, depth, tracked);
    case Sub(node, rest) =>
      BeginTag(dt, c, node.name);
  }

  // ---- Iterating fdt_next_node over an encoded tree is its preorder.

  function TrailDepth(tr: Trail, tracked: bool): nat {
    if tracked then Depth(tr) else 0
  }

  /** One step of the walk from the last node of a trail gives n. */
  predicate Gives(dt: Block, tr: Trail, tracked: bool, n: NodeStep) {
    var o := 4 * Here(tr).cell;
    o <= |dt| && CanStart(dt, o) && NextNode(dt, o, TrailDepth(tr, tracked), tracked) == n
  }

  predicate Reaches(n: NodeStep, tr: Trail, tracked: bool) {
    n.offset == 4 * Here(tr).cell && n.depth == TrailDepth(tr, tracked)
  }

  /** One step of the walk leads from the last node of a to the last node of b. */
  predicate LeadsTo(dt: Block, a: Trail, b: Trail, tracked: bool) {
    var o := 4 * Here(a).cell;
    o <= |dt| && CanStart(dt, o) && Reaches(NextNode(dt, o, TrailDepth(a, tracked), tracked), b, tracked)
  }

  /** The walk goes through v in order and then gives n. */
  predicate Walks(dt: Block, v: seq<Trail>, tracked: bool, n: NodeStep) {
    v != [] && Gives(dt, v[|v| - 1], tracked, n) &&
    forall k :: 0 <= k < |v| - 1 ==> LeadsTo(dt, v[k], v[k + 1], tracked)
  }

  lemma WalksJoin(dt: Block, v: seq<Trail>, m: NodeStep, u: seq<Trail>, n: NodeStep, tracked: bool)
    requires Walks(dt, v, tracked, m) && u != [] && Reaches(m, u[0], tracked) && Walks(dt, u, tracked, n)
    ensures Walks(dt, v + u, tracked, n)
  {
    hide NextNode, CanStart;
    var w := v + u;
    forall k | 0 <= k < |w| - 1
      ensures LeadsTo(dt, w[k], w[k + 1], tracked)
    {
      if k < |v| - 1 {
        assert LeadsTo(dt, v[k], v[k + 1], tracked);
      } else if k > |v| - 1 {
        assert LeadsTo(dt, u[k - |v|], u[k - |v| + 1], tracked);
      }
    }
  }

  lemma EnterNode(dt: Block, c: nat, t: Tree, depth: int, tracked: bool)
    requires TreeAt(dt, c, t) && Settles(dt, 4 * (c + Cells(t)))
    ensures Settles(dt, 4 * c) && Settles(dt, 4 * (c + HeadCells(t.name)))
    ensures NextFrom(dt, 4 * c, depth, tracked) == NodeStep(4 * c, StepDepth(depth, tracked))
    ensures NextNode(dt, 4 * c, depth, tracked) == NextFrom(dt, 4 * (c + HeadCells(t.name)), depth, tracked)
  {
    hide Be32, BeginAt, NextTag;
    SettlesTree(dt, c, t);
    BeginTag(dt, c, t.name);
  }

  lemma LeaveNode(dt: Block, c: nat, depth: nat, tracked: bool)
    requires TagIs(dt, c, FDT_END_NODE) && Settles(dt, 4 * (c + 1))
    ensures Settles(dt, 4 * c)
    ensures NextFrom(dt, 4 * c, StepDepth(depth, tracked), tracked) == NextFrom(dt, 4 * (c + 1), depth, tracked)
  {
    PlainTag(dt, c, FDT_END_NODE);
  }

  lemma EndOfTree(dt: Block, c: nat, t: Tree)
    requires TreeAt(dt, c, t)
    ensures TagIs(dt, c + Cells(t) - 1, FDT_END_NODE)
  {
  }

  lemma {:induction false} WalkTree(dt: Block, c: nat, t: Tree, rest: Body, above: seq<Place>, tracked: bool)
    requires TreeAt(dt, c, t) && Settles(dt, 4 * (c + Cells(t)))
    ensures Settles(dt, 4 * (c + Cells(t) - 1))
    ensures Walks(dt, Preorder(t, c, rest, above), tracked,
                  NextFrom(dt, 4 * (c + Cells(t) - 1), if tracked then |above| else 0, tracked))
    decreases t, 2
  {
    hide Be32, BeginAt, NextTag, NextNode, NextFrom, Settles;
    var trail: Trail := above + [Place(c, t, rest)];
    var b, d := c + HeadCells(t.name), TrailDepth(trail, tracked);
    var v := PreorderBody(t.body, b, trail);
    LeaveNode(dt, b + BodyCells(t.body), d, tracked);
    EnterNode(dt, c, t, d, tracked);
    WalkBody(dt, b, t.body, trail, tracked);
    var m, n := NextFrom(dt, 4 * b, d, tracked), NextFrom(dt, 4 * (c + Cells(t) - 1), d, tracked);
    assert Walks(dt, [trail], tracked, m);
    if v == [] {
      assert Preorder(t, c, rest, above) == [trail];
    } else {
      WalksJoin(dt, [trail], m, v, n, tracked);
    }
  }

  lemma {:induction false} WalkBody(dt: Block, c: nat, b: Body, trail: Trail, tracked: bool)
    requires BodyAt(dt, c, b) && 4 * (c + BodyCells(b)) <= |dt| && Settles(dt, 4 * (c + BodyCells(b)))
    requires Settles(dt, 4 * c)
    ensures var v, d := PreorderBody(b, c, trail), TrailDepth(trail, tracked);
      var n, first := NextFrom(dt, 4 * (c + BodyCells(b)), d, tracked), NextFrom(dt, 4 * c, d, tracked);
      if v == [] then first == n else Reaches(first, v[0], tracked) && Walks(dt, v, tracked, n)
    decreases b, 1
  {
    hide Be32, PropAt, NextTag, NextNode, Walks, Reaches;
    var d := TrailDepth(trail, tracked);
    match b
    case Done =>
    case Nop(rest) =>
      PlainTag(dt, c, FDT_NOP);
      WalkBody(dt, c + 1, rest, trail, tracked);
    case Prop(nameoff, data, rest) =>
      PropTag(dt, c, nameoff, data);
      WalkBody(dt, c + PropCells(data), rest, trail, tracked);
    case Sub(node, rest) =>
      WalkSub(dt, c, node, rest, trail, tracked);
  }

  lemma {:induction false} WalkSub(dt: Block, c: nat, node: Tree, rest: Body, trail: Trail, tracked: bool)
    requires TreeAt(dt, c, node) && BodyAt(dt, c + Cells(node), rest)
    requires var e := 4 * (c + Cells(node) + BodyCells(rest)); e <= |dt| && Settles(dt, e)
    requires Settles(dt, 4 * c)
    ensures var v, d := PreorderBody(Sub(node, rest), c, trail), TrailDepth(trail, tracked);
      Reaches(NextFrom(dt, 4 * c, d, tracked), v[0], tracked) &&
      Walks(dt, v, tracked, NextFrom(dt, 4 * (c + Cells(node) + BodyCells(rest)), d, tracked))
    decreases Sub(node, rest), 0
  {
    hide Be32, BeginAt, NextTag, NextNode, NextFrom, Walks, TreeAt, BodyAt, CanStart;
    var d, after := TrailDepth(trail, tracked), c + Cells(node);
    EndOfTree(dt, c, node);
    SettlesBody(dt, after, rest);
    EnterNode(dt, c, node, d, tracked);
    LeaveNode(dt, after - 1, d, tracked);
    WalkTree(dt, c, node, rest, trail, tracked);
    WalkBody(dt, after, rest, trail, tracked);
    var v, u := Preorder(node, c, rest, trail), PreorderBody(rest, after, trail);
    if u == [] {
      assert v + u == v;
    } else {
      WalksJoin(dt, v, NextFrom(dt, 4 * after, d, tracked), u,
                NextFrom(dt, 4 * (after + BodyCells(rest)), d, tracked), tracked);
    }
  }

  /** Iterating fdt_next_node from the root of an encoded tree visits its nodes in preorder, each with its
      true depth; then a tracked walk reports the end by depth -1, and an untracked one by "not found". */
  lemma WalkVisitsPreorder(dt: Block, t: Tree, tracked: bool)
    requires Encodes(dt, t)
    ensures Settles(dt, 0)
    ensures Walks(dt, Trails(t), tracked,
                  if tracked then NodeStep(4 * Cells(t), -1) else NodeStep(-FDT_ERR_NOTFOUND, 0))
  {
    var end := Cells(t);
    PlainTag(dt, end, FDT_END);
    PlainTag(dt, end - 1, FDT_END_NODE);
    assert Settles(dt, 4 * end);
    SettlesTree(dt, 0, t);
    WalkTree(dt, 0, t, Done, [], tracked);
  }
}
