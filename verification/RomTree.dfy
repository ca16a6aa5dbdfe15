/** The client interface's child, peer and parent services (section 6.3.2.2 of IEEE 1275-1994) over the device
    tree block, with phandles made from node offsets (rom.c:111-138, 1047-1158). */
module RomTree {
  import opened Words
  import opened Bits
  import opened FdtBlock
  import opened FdtTree
  import opened FdtWalk
  import opened FdtTrails
  import opened FdtLookup
  import opened FdtPath
  import opened FdtResolve

  const PHANDLE_MUNGE: word := 0x1000_0000

  predicate MungeBit(x: word) {
    x / PHANDLE_MUNGE % 2 == 1
  }

  /** node | PHANDLE_MUNGE */
  function RomGetPhandle(node: cint): word {
    var x := Wrap(node);
    if MungeBit(x) then x else x + PHANDLE_MUNGE
  }

  /** phandle & ~PHANDLE_MUNGE, as an int */
  function RomNodeOffsetByPhandle(phandle: word): cint {
    ToInt(if MungeBit(phandle) then phandle - PHANDLE_MUNGE else phandle)
  }

  const ROOT_PHANDLE: word := RomGetPhandle(0)

  /** A phandle leads back to its offset exactly when the offset leaves the munge bit clear; it is then nonzero. */
  lemma MungeRoundTrip(node: cint)
    ensures RomNodeOffsetByPhandle(RomGetPhandle(node)) == node <==> !MungeBit(Wrap(node))
    ensures RomGetPhandle(node) != 0
    ensures 0 <= node < PHANDLE_MUNGE ==> !MungeBit(Wrap(node)) && RomGetPhandle(node) == node + PHANDLE_MUNGE
  {
    ToIntWrap(node);
  }

  /** Bit 28 is set in a phandle and clear in the offset it stands for; the other bits are the same. */
  lemma MungeBits(node: cint, phandle: word, k: nat)
    requires k < 32
    ensures Bit(RomGetPhandle(node), k) <==> k == 28 || Bit(Wrap(node), k)
    ensures Bit(Wrap(RomNodeOffsetByPhandle(phandle)), k) <==> k != 28 && Bit(phandle, k)
  {
    hide Bit, Wrap;
    BackToWord(if MungeBit(phandle) then phandle - PHANDLE_MUNGE else phandle);
    SetBit28(Wrap(node), k);
    if MungeBit(phandle) {
      SetBit28(phandle - PHANDLE_MUNGE, k);
    } else {
      SetBit28(phandle, k);
    }
  }

  lemma BackToWord(x: word)
    ensures Wrap(ToInt(x)) == x
  {
  }

  /** Adding 2^28 to a number without that bit sets it. */
  lemma SetBit28(x: word, k: nat)
    requires k < 32
    ensures Bit(x, 28) <==> MungeBit(x)
    ensures MungeBit(x) ==> x >= PHANDLE_MUNGE && !MungeBit(x - PHANDLE_MUNGE)
    ensures !MungeBit(x) ==> x + PHANDLE_MUNGE < TWO32 && (Bit(x + PHANDLE_MUNGE, k) <==> k == 28 || Bit(x, k))
  {
    hide Bit;
    Pow2Values();
    assert Pow2(28) == PHANDLE_MUNGE;
    BitIs(x, 28);
    if !MungeBit(x) {
      var q := x / (2 * PHANDLE_MUNGE);
      assert x + PHANDLE_MUNGE < TWO32;
      AddBit(x, 28, k);
    }
  }

  /** The phandle of the node a trail ends in. */
  function PhandleOf(tr: Trail): int {
    4 * Here(tr).cell + PHANDLE_MUNGE
  }

  /** A block small enough that every node has its own phandle. */
  predicate Addressable(dt: Block, t: Tree) {
    Encodes(dt, t) && |dt| <= PHANDLE_MUNGE
  }

  lemma PhandleNode(dt: Block, t: Tree, tr: Trail)
    requires Addressable(dt, t) && IsTrail(t, tr)
    ensures 4 * Here(tr).cell < |dt| && RomGetPhandle(4 * Here(tr).cell) == PhandleOf(tr) < TWO32
    ensures RomNodeOffsetByPhandle(PhandleOf(tr)) == 4 * Here(tr).cell
    ensures PlaceAt(dt, Here(tr))
  {
    TrailPlaceAt(dt, t, tr);
    MungeRoundTrip(4 * Here(tr).cell);
  }

  // ---- Where the services should lead: first child, next sibling, encloser.

  /** The trail of the first child or of the next sibling; the trail itself when there is none. */
  function FirstChild(tr: Trail): (r: Trail)
    ensures r == tr || |r| == |tr| + 1
  {
    var p := Here(tr);
    if FirstMatch(p.node.body, BodyCell(p), AnyNode) < 0 then tr
    else tr + [MatchPlace(p.node.body, BodyCell(p), AnyNode)]
  }

  function NextPeer(tr: Trail): (r: Trail)
    ensures |r| == |tr|
  {
    var p := Here(tr);
    if FirstMatch(p.rest, p.cell + Cells(p.node), AnyNode) < 0 then tr
    else tr[..|tr| - 1] + [MatchPlace(p.rest, p.cell + Cells(p.node), AnyNode)]
  }

  function Encloser(tr: Trail): Trail {
    if |tr| == 1 then tr else tr[..|tr| - 1]
  }

  function Child(dt: Block, ph: word): word
    requires CanStep(dt, RomNodeOffsetByPhandle(ph))
  {
    var node := RomNodeOffsetByPhandle(ph);
    if node < 0 || Subnode(dt, node, AnyNode) < 0 then 0 else RomGetPhandle(Subnode(dt, node, AnyNode))
  }

  function Peer(dt: Block, ph: word): word
    requires ph != 0 ==> CanStep(dt, RomNodeOffsetByPhandle(ph))
  {
    var node := RomNodeOffsetByPhandle(ph);
    if ph == 0 then ROOT_PHANDLE
    else if node < 0 || Sibling(dt, node, AnyNode) < 0 then 0 else RomGetPhandle(Sibling(dt, node, AnyNode))
  }

  /** rom_child (rom.c:1047-1079), from the argument to the value returned. */
  method RomChild(dt: Block, ph: word) returns (phChild: word)
    requires CanStep(dt, RomNodeOffsetByPhandle(ph))
    ensures phChild == Child(dt, ph)
  {
    phChild := 0;
    var node := RomNodeOffsetByPhandle(ph);
    if node < 0 {
      return;
    }
    node := FdtSubnode(dt, node);
    if node >= 0 {
      phChild := RomGetPhandle(node);
    }
  }

  /** rom_peer (rom.c:1081-1118). */
  method RomPeer(dt: Block, ph: word) returns (phPeer: word)
    requires ph != 0 ==> CanStep(dt, RomNodeOffsetByPhandle(ph))
    ensures phPeer == Peer(dt, ph)
  {
    phPeer := 0;
    if ph == 0 {
      return ROOT_PHANDLE;
    }
    var node := RomNodeOffsetByPhandle(ph);
    if node < 0 {
      return;
    }
    node := FdtSibling(dt, node);
    if node >= 0 {
      phPeer := RomGetPhandle(node);
    }
  }

  /** rom_parent (rom.c:1120-1158). `stopped` is the BUG_ON for a phandle of no node below the root. */
  method RomParent(dt: Block, ph: word, ghost t: Tree) returns (stopped: bool, phParent: word)
    requires Addressable(dt, t)
    ensures ph == ROOT_PHANDLE ==> !stopped && phParent == 0
    ensures ph != ROOT_PHANDLE && RomNodeOffsetByPhandle(ph) < 0 ==> !stopped && phParent == 0xFFFF_FFFF
    ensures ph != ROOT_PHANDLE && RomNodeOffsetByPhandle(ph) >= 0 ==>
      forall tr: Trail :: NodeAt(t, RomNodeOffsetByPhandle(ph), tr) ==>
        (stopped <==> |tr| == 1) && (|tr| > 1 ==> phParent == PhandleOf(Encloser(tr)))
    ensures ph != ROOT_PHANDLE && RomNodeOffsetByPhandle(ph) >= 0 && NoNodeAt(t, RomNodeOffsetByPhandle(ph)) ==> stopped
  {
    hide Encodes, IsTrail;
    if ph == ROOT_PHANDLE {
      return false, 0;
    }
    var node := RomNodeOffsetByPhandle(ph);
    if node < 0 {
      return false, 0xFFFF_FFFF;
    }
    var parent := FdtParentOffset(dt, node, t);
    stopped, phParent := parent < 0, 0;
    forall tr: Trail | NodeAt(t, node, tr) && |tr| > 1
      ensures 4 * Here(Encloser(tr)).cell < 0x4000_0000
      ensures RomGetPhandle(4 * Here(Encloser(tr)).cell) == PhandleOf(Encloser(tr))
    {
      EncloserIsTrail(t, tr);
      PhandleNode(dt, t, Encloser(tr));
    }
    if !stopped {
      phParent := RomGetPhandle(parent);
    }
  }

  lemma EncloserIsTrail(t: Tree, tr: Trail)
    requires IsTrail(t, tr)
    ensures IsTrail(t, Encloser(tr))
  {
  }

  function PhandleOrZero(tr: Trail, from: Trail): int {
    if tr == from then 0 else PhandleOf(tr)
  }

  /** The child service gives the phandle of the first child, and 0 exactly when there is none. */
  lemma ChildLeads(dt: Block, t: Tree, tr: Trail)
    requires Addressable(dt, t) && IsTrail(t, tr)
    ensures 4 * Here(tr).cell < 0x4000_0000 && CanStep(dt, 4 * Here(tr).cell) && 0 <= PhandleOf(tr) < TWO32
    ensures RomNodeOffsetByPhandle(PhandleOf(tr)) == 4 * Here(tr).cell
    ensures Child(dt, PhandleOf(tr)) == PhandleOrZero(FirstChild(tr), tr)
    ensures IsTrail(t, FirstChild(tr))
  {
    hide Encodes, Subnode, PlaceAt, CanStep;
    PhandleNode(dt, t, tr);
    SubnodeFinds(dt, Here(tr), AnyNode);
    var up := FirstChild(tr);
    if up != tr {
      assert ChildOf(Here(tr), Here(up));
      PhandleNode(dt, t, up);
    }
  }

  /** The peer service gives the phandle of the next sibling, and 0 exactly when there is none. */
  lemma PeerLeads(dt: Block, t: Tree, tr: Trail)
    requires Addressable(dt, t) && IsTrail(t, tr)
    ensures 4 * Here(tr).cell < 0x4000_0000 && CanStep(dt, 4 * Here(tr).cell) && 0 <= PhandleOf(tr) < TWO32
    ensures RomNodeOffsetByPhandle(PhandleOf(tr)) == 4 * Here(tr).cell
    ensures Peer(dt, PhandleOf(tr)) == PhandleOrZero(NextPeer(tr), tr)
    ensures IsTrail(t, NextPeer(tr))
  {
    hide Encodes, Sibling, PlaceAt, CanStep;
    PhandleNode(dt, t, tr);
    SiblingFinds(dt, Here(tr), AnyNode);
    PeerIsTrail(t, tr);
    if NextPeer(tr) != tr {
      PhandleNode(dt, t, NextPeer(tr));
    }
  }

  /** What follows a child inside its parent are children of that parent too. */
  lemma {:induction false} LaterSub(b: Body, c: nat, p: Place, q: Place)
    requires SubAt(b, c, p) && SubAt(p.rest, p.cell + Cells(p.node), q)
    ensures SubAt(b, c, q)
    decreases b
  {
    match b
    case Nop(rest) => LaterSub(rest, c + 1, p, q);
    case Prop(_, data, rest) => LaterSub(rest, c + PropCells(data), p, q);
    case Sub(node, rest) => if p != Place(c, node, rest) { LaterSub(rest, c + Cells(node), p, q); }
  }

  lemma PeerIsTrail(t: Tree, tr: Trail)
    requires IsTrail(t, tr)
    ensures IsTrail(t, NextPeer(tr))
    ensures |tr| == 1 ==> NextPeer(tr) == tr
  {
    var peer, n := NextPeer(tr), |tr|;
    if peer != tr && n > 1 {
      assert ChildOf(tr[n - 2], tr[n - 1]);
      LaterSub(tr[n - 2].node.body, BodyCell(tr[n - 2]), Here(tr), Here(peer));
      assert forall i :: 0 <= i < n - 1 ==> peer[i] == tr[i];
    }
  }

  /** parent(child(x)) = x and parent(peer(x)) = parent(x); there is no child exactly when the node has no
      subnode, and no peer exactly when no subnode of its parent follows it. */
  lemma FamilyLaws(t: Tree, tr: Trail)
    requires IsTrail(t, tr)
    ensures FirstChild(tr) != tr ==> IsTrail(t, FirstChild(tr)) && Encloser(FirstChild(tr)) == tr
    ensures NextPeer(tr) != tr ==> IsTrail(t, NextPeer(tr)) && |tr| > 1 && Encloser(NextPeer(tr)) == Encloser(tr)
    ensures FirstChild(tr) == tr <==> forall c: Place :: !ChildOf(Here(tr), c)
    ensures NextPeer(tr) == tr <==>
      |tr| == 1 || forall c: Place :: ChildOf(Here(Encloser(tr)), c) ==> c.cell <= Here(tr).cell
  {
    hide IsTrail, ChildOf, FirstChild, NextPeer, Encloser;
    ChildLaws(t, tr);
    PeerLaws(t, tr);
  }

  lemma ChildLaws(t: Tree, tr: Trail)
    requires IsTrail(t, tr)
    ensures FirstChild(tr) != tr ==> IsTrail(t, FirstChild(tr)) && Encloser(FirstChild(tr)) == tr
    ensures FirstChild(tr) == tr <==> forall c: Place :: !ChildOf(Here(tr), c)
  {
    var p := Here(tr);
    forall c: Place | ChildOf(p, c)
      ensures FirstChild(tr) != tr
    {
      FirstMatchFirst(p.node.body, BodyCell(p), AnyNode, c);
    }
    if FirstChild(tr) != tr {
      assert ChildOf(p, Here(FirstChild(tr)));
    }
  }

  lemma PeerLaws(t: Tree, tr: Trail)
    requires IsTrail(t, tr)
    ensures NextPeer(tr) != tr ==> IsTrail(t, NextPeer(tr)) && |tr| > 1 && Encloser(NextPeer(tr)) == Encloser(tr)
    ensures NextPeer(tr) == tr <==>
      |tr| == 1 || forall c: Place :: ChildOf(Here(Encloser(tr)), c) ==> c.cell <= Here(tr).cell
  {
    var p, n := Here(tr), |tr|;
    PeerIsTrail(t, tr);
    if n > 1 {
      var up := tr[n - 2];
      assert ChildOf(up, p);
      forall c: Place | ChildOf(up, c) && c.cell > p.cell
        ensures NextPeer(tr) != tr
      {
        LaterIsSub(up.node.body, BodyCell(up), p, c);
        FirstMatchFirst(p.rest, p.cell + Cells(p.node), AnyNode, c);
      }
      if NextPeer(tr) != tr {
        var q := Here(NextPeer(tr));
        SubCells(p.rest, p.cell + Cells(p.node), q);
        LaterSub(up.node.body, BodyCell(up), p, q);
      }
    }
  }

  /** A sibling at a later cell stands in what follows. */
  lemma {:induction false} LaterIsSub(b: Body, c: nat, p: Place, q: Place)
    requires SubAt(b, c, p) && SubAt(b, c, q) && q.cell > p.cell
    ensures SubAt(p.rest, p.cell + Cells(p.node), q)
    decreases b
  {
    match b
    case Nop(rest) => LaterIsSub(rest, c + 1, p, q);
    case Prop(_, data, rest) => LaterIsSub(rest, c + PropCells(data), p, q);
    case Sub(node, rest) =>
      if p != Place(c, node, rest) {
        SubCells(rest, c + Cells(node), p);
        LaterIsSub(rest, c + Cells(node), p, q);
      }
  }

  // ---- A client walking the tree with nothing but child and peer.

  function Phandles(v: seq<Trail>): (r: seq<int>)
    ensures |r| == |v| && forall i :: 0 <= i < |v| ==> r[i] == PhandleOf(v[i])
  {
    if v == [] then [] else Phandles(v[..|v| - 1]) + [PhandleOf(v[|v| - 1])]
  }

  lemma {:induction false} PreorderBodyFirst(b: Body, c: nat, trail: Trail)
    ensures if FirstMatch(b, c, AnyNode) < 0 then PreorderBody(b, c, trail) == []
      else
        var p := MatchPlace(b, c, AnyNode);
        PreorderBody(b, c, trail) ==
        Preorder(p.node, p.cell, p.rest, trail) + PreorderBody(p.rest, p.cell + Cells(p.node), trail)
    decreases b
  {
    match b
    case Done =>
    case Nop(rest) => PreorderBodyFirst(rest, c + 1, trail);
    case Prop(_, data, rest) => PreorderBodyFirst(rest, c + PropCells(data), trail);
    case Sub(_, _) =>
  }

  /** The nodes below a place. */
  function Below(tr: Trail): seq<Trail> {
    Preorder(Here(tr).node, Here(tr).cell, Here(tr).rest, tr[..|tr| - 1])
  }

  /** The nodes that come after a child's subtree inside its parent. */
  function After(tr: Trail): seq<Trail> {
    if |tr| == 1 then []
    else PreorderBody(Here(tr).rest, Here(tr).cell + Cells(Here(tr).node), tr[..|tr| - 1])
  }

  lemma BelowSteps(tr: Trail)
    ensures Below(tr) == [tr] + if FirstChild(tr) == tr then [] else Below(FirstChild(tr)) + After(FirstChild(tr))
    ensures |tr| > 1 ==> After(tr) == if NextPeer(tr) == tr then [] else Below(NextPeer(tr)) + After(NextPeer(tr))
  {
    hide Below, After, FirstChild, NextPeer;
    BelowIs(tr);
    if |tr| > 1 {
      AfterIs(tr);
    }
  }

  lemma BelowIs(tr: Trail)
    ensures Below(tr) == [tr] + if FirstChild(tr) == tr then [] else Below(FirstChild(tr)) + After(FirstChild(tr))
  {
    hide MatchPlace, FirstMatch, PreorderBody;
    var p, c := Here(tr), FirstChild(tr);
    assert tr[..|tr| - 1] + [p] == tr;
    PreorderBodyFirst(p.node.body, BodyCell(p), tr);
    assert c != tr ==> c[..|c| - 1] == tr;
  }

  lemma AfterIs(tr: Trail)
    requires |tr| > 1
    ensures After(tr) == if NextPeer(tr) == tr then [] else Below(NextPeer(tr)) + After(NextPeer(tr))
  {
    hide MatchPlace, FirstMatch, PreorderBody, Preorder;
    var p, n := Here(tr), NextPeer(tr);
    PreorderBodyFirst(p.rest, p.cell + Cells(p.node), tr[..|tr| - 1]);
    assert n != tr ==> n[..|n| - 1] == tr[..|tr| - 1];
    PeerCell(tr);
  }

  /** Visit a node, then each of its children in turn: every node of the subtree is seen once, in preorder. */
  method ClientWalk(dt: Block, ph: word, ghost t: Tree, ghost tr: Trail) returns (seen: seq<word>)
    requires Addressable(dt, t) && IsTrail(t, tr) && ph == PhandleOf(tr)
    ensures seen == Phandles(Below(tr))
    decreases Cells(Here(tr).node)
  {
    hide Encodes, Child, Peer, Below, After, FirstChild, NextPeer, CanStep, IsTrail, Phandles, ChildOf;
    hide Cells;
    seen := [ph];
    PhandlesOne(tr);
    PhandlesJoin([tr], Below(FirstChild(tr)) + After(FirstChild(tr)));
    assert [tr] + [] == [tr];
    ChildLeads(dt, t, tr);
    FamilyLaws(t, tr);
    BelowSteps(tr);
    var c := RomChild(dt, ph);
    ghost var cur := FirstChild(tr);
    while c != 0
      invariant c == 0 ==> seen == Phandles(Below(tr))
      invariant c != 0 ==> IsTrail(t, cur) && cur != tr && |cur| > 1 && c == PhandleOf(cur) && Encloser(cur) == tr
      invariant c != 0 ==> Phandles(Below(tr)) == seen + Phandles(Below(cur) + After(cur))
      decreases c != 0, if c != 0 then Here(tr).cell + Cells(Here(tr).node) - Here(cur).cell else 0
    {
      ChildCell(t, cur);
      BelowSteps(cur);
      PhandlesJoin(Below(cur), After(cur));
      PeerLeads(dt, t, cur);
      FamilyLaws(t, cur);
      var sub := ClientWalk(dt, c, t, cur);
      seen := seen + sub;
      c := RomPeer(dt, c);
      if c != 0 {
        ChildCell(t, NextPeer(cur));
        PeerCell(cur);
      }
      cur := NextPeer(cur);
    }
  }

  /** A node lies inside its encloser. */
  lemma ChildCell(t: Tree, tr: Trail)
    requires IsTrail(t, tr) && |tr| > 1
    ensures var up, p := Here(Encloser(tr)), Here(tr);
      up.cell < p.cell && p.cell + Cells(p.node) < up.cell + Cells(up.node) && Cells(p.node) < Cells(up.node)
  {
    var up, p := Here(Encloser(tr)), Here(tr);
    assert ChildOf(tr[|tr| - 2], tr[|tr| - 1]);
    SubCells(up.node.body, BodyCell(up), p);
  }

  lemma PeerCell(tr: Trail)
    ensures NextPeer(tr) != tr ==> Here(tr).cell < Here(NextPeer(tr)).cell
  {
  }

  lemma PhandlesOne(tr: Trail)
    ensures Phandles([tr]) == [PhandleOf(tr)] && Phandles([]) == []
  {
    assert [tr][..0] == [];
  }

  lemma PhandlesJoin(v: seq<Trail>, u: seq<Trail>)
    ensures Phandles(v + u) == Phandles(v) + Phandles(u)
  {
  }

  /** The client's walk from peer(0) sees exactly the nodes of the tree, each once. */
  method ClientWalkAll(dt: Block, ghost t: Tree) returns (seen: seq<word>)
    requires Addressable(dt, t)
    ensures seen == Phandles(Trails(t))
    ensures forall tr: Trail :: IsTrail(t, tr) ==> PhandleOf(tr) in seen
    ensures forall i, j :: 0 <= i < j < |seen| ==> seen[i] < seen[j]
  {
    hide Encodes, IsTrail, Settles, Walks, CanStep, Below, PlaceAt, Trails;
    ghost var root: Trail := [Place(0, t, Done)];
    RootTrail(dt, t);
    var ph := RomPeer(dt, 0);
    MungeRoundTrip(0);
    seen := ClientWalk(dt, ph, t, root);
    SeenOnce(dt, t, seen);
  }

  lemma RootTrail(dt: Block, t: Tree)
    requires Addressable(dt, t)
    ensures var root: Trail := [Place(0, t, Done)];
      IsTrail(t, root) && PhandleOf(root) == ROOT_PHANDLE && Below(root) == Trails(t)
  {
  }

  lemma BlockHolds(dt: Block, t: Tree)
    requires Encodes(dt, t)
    ensures 4 * Cells(t) < |dt|
  {
  }

  lemma SeenOnce(dt: Block, t: Tree, seen: seq<word>)
    requires Encodes(dt, t) && seen == Phandles(Trails(t))
    ensures forall tr: Trail :: IsTrail(t, tr) ==> PhandleOf(tr) in seen
    ensures forall i, j :: 0 <= i < j < |seen| ==> seen[i] < seen[j]
  {
    hide Encodes, IsTrail, Walks, Trails;
    BlockHolds(dt, t);
    WalkVisitsPreorder(dt, t, true);
    var v := Trails(t);
    forall i, j | 0 <= i < j < |seen|
      ensures seen[i] < seen[j]
    {
      WalkIncreases(dt, v, true, NodeStep(4 * Cells(t), -1), i, j);
    }
    forall tr: Trail | IsTrail(t, tr)
      ensures PhandleOf(tr) in seen
    {
      TrailsComplete(t, tr);
      var k :| 0 <= k < |v| && v[k] == tr;
      assert seen[k] == PhandleOf(tr);
    }
  }

  /** A phandle that no node can have: negative, not a multiple of four, or without a begin tag there. It has no child
      and no peer. */
  lemma Nowhere(dt: Block, ph: word)
    requires ph != 0
    requires var o := RomNodeOffsetByPhandle(ph); o < 0 || o % 4 != 0 || o + 4 > |dt| || Be32(dt, o) != 1
    ensures CanStep(dt, RomNodeOffsetByPhandle(ph)) && Child(dt, ph) == 0 && Peer(dt, ph) == 0
  {
    hide Settles;
    var o := RomNodeOffsetByPhandle(ph);
    NextTagProgress(dt, o);
    assert CheckNodeOffset(dt, o) == -FDT_ERR_BADOFFSET;
  }

  // ---- Services one after the other.

  /** The parent of the child that the child service gives is the node asked about. */
  method ChildThenParent(dt: Block, ph: word, ghost t: Tree, ghost tr: Trail)
    returns (child: word, stopped: bool, parent: word)
    requires Addressable(dt, t) && IsTrail(t, tr) && ph == PhandleOf(tr)
    ensures child == 0 <==> forall c: Place :: !ChildOf(Here(tr), c)
    ensures child != 0 ==> !stopped && parent == ph
  {
    hide Encodes, IsTrail, CanStep, Child, FirstChild, ChildOf;
    ChildLeads(dt, t, tr);
    FamilyLaws(t, tr);
    child := RomChild(dt, ph);
    stopped, parent := false, 0;
    if child != 0 {
      BelowRoot(dt, t, FirstChild(tr));
      stopped, parent := RomParent(dt, child, t);
    }
  }

  /** A peer has the same parent as the node asked about. */
  method PeerThenParent(dt: Block, ph: word, ghost t: Tree, ghost tr: Trail)
    returns (peer: word, stopped: bool, parent: word, own: word)
    requires Addressable(dt, t) && IsTrail(t, tr) && ph == PhandleOf(tr)
    ensures peer == 0 <==> |tr| == 1 || forall c: Place :: ChildOf(Here(Encloser(tr)), c) ==> c.cell <= Here(tr).cell
    ensures peer != 0 ==> !stopped && parent == own == PhandleOf(Encloser(tr))
  {
    hide Encodes, IsTrail, CanStep, Peer, NextPeer, ChildOf;
    PeerLeads(dt, t, tr);
    FamilyLaws(t, tr);
    peer := RomPeer(dt, ph);
    stopped, parent, own := false, 0, 0;
    if peer != 0 {
      BelowRoot(dt, t, NextPeer(tr));
      BelowRoot(dt, t, tr);
      stopped, parent := RomParent(dt, peer, t);
      stopped, own := RomParent(dt, ph, t);
    }
  }

  /** A node below the root has a phandle of its own, different from the root's. */
  lemma BelowRoot(dt: Block, t: Tree, tr: Trail)
    requires Addressable(dt, t) && IsTrail(t, tr) && |tr| > 1
    ensures 0 < PhandleOf(tr) < TWO32 && PhandleOf(tr) != ROOT_PHANDLE
    ensures RomNodeOffsetByPhandle(PhandleOf(tr)) == 4 * Here(tr).cell && NodeAt(t, 4 * Here(tr).cell, tr)
  {
    hide Encodes;
    PhandleNode(dt, t, tr);
    ChildCell(t, tr);
  }
}
