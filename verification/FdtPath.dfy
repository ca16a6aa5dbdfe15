/** Walks from the root that keep track of ancestors: depth, parent and path (fdt/fdt_ro.c:327-434). */
module FdtPath {
  import opened Words
  import opened FdtBlock
  import opened FdtTree
  import opened FdtWalk
  import opened FdtTrails
  import opened FdtLookup

  /** tr is the trail of the node at this offset. */
  predicate NodeAt(t: Tree, offset: int, tr: Trail) {
    IsTrail(t, tr) && offset == 4 * Here(tr).cell
  }

  ghost predicate NoNodeAt(t: Tree, offset: int) {
    forall tr: Trail :: !NodeAt(t, offset, tr)
  }

  /** What a walk from the root knows after k steps: it stands on the k-th node of the preorder, or on the
      final end tag, or has stepped past it. */
  predicate Standing(t: Tree, k: nat, offset: int, depth: int) {
    var v := Trails(t);
    if k < |v| then offset == 4 * Here(v[k]).cell && depth == Depth(v[k])
    else if k == |v| then offset == 4 * Cells(t) && depth == -1
    else offset == -FDT_ERR_BADOFFSET
  }

  lemma StandingMeans(t: Tree, k: nat, offset: int, depth: int)
    ensures var v := Trails(t); Standing(t, k, offset, depth) <==>
      if k < |v| then offset == 4 * Here(v[k]).cell && depth == Depth(v[k])
      else if k == |v| then offset == 4 * Cells(t) && depth == -1
      else offset == -FDT_ERR_BADOFFSET
  {
  }

  lemma StandingStep(dt: Block, t: Tree, k: nat, offset: cint, depth: int)
    requires Encodes(dt, t) && Standing(t, k, offset, depth) && offset >= 0
    ensures CanStep(dt, offset)
    ensures var n := NextNode(dt, offset, depth, true); Standing(t, k + 1, n.offset, n.depth)
  {
    hide Be32, BeginAt, NextFrom;
    var v := Trails(t);
    WalkVisitsPreorder(dt, t, true);
    if k < |v| - 1 {
      assert LeadsTo(dt, v[k], v[k + 1], true);
    } else if k == |v| {
      PlainTag(dt, Cells(t), FDT_END);
    }
  }

  lemma StandingCell(dt: Block, t: Tree, k: nat)
    requires Encodes(dt, t) && k < |Trails(t)|
    ensures IsTrail(t, Trails(t)[k]) && TreeAt(dt, Here(Trails(t)[k]).cell, Here(Trails(t)[k]).node)
    ensures 4 * Here(Trails(t)[k]).cell + 8 <= |dt|
    ensures Here(Trails(t)[k]).cell < Cells(t)
  {
    var tr := Trails(t)[k];
    assert tr in Trails(t);
    TrailsComplete(t, tr);
    TrailPlaceAt(dt, t, tr);
    var i := TrailIndex(dt, t, tr);
  }

  /** Distinct nodes have distinct offsets: a trail whose end lies at the k-th preorder offset is the k-th trail. */
  lemma TrailIndex(dt: Block, t: Tree, tr: Trail) returns (k: nat)
    requires Encodes(dt, t) && IsTrail(t, tr)
    ensures k < |Trails(t)| && Trails(t)[k] == tr
    ensures forall j :: 0 <= j < k ==> Here(Trails(t)[j]).cell < Here(tr).cell
    ensures forall j :: k < j < |Trails(t)| ==> Here(tr).cell < Here(Trails(t)[j]).cell
    ensures Here(tr).cell < Cells(t)
  {
    hide NextNode, CanStep, Encodes, Preorder, IsTrail, Cells;
    var v := Trails(t);
    TrailsComplete(t, tr);
    k :| 0 <= k < |v| && v[k] == tr;
    WalkVisitsPreorder(dt, t, true);
    var n := NodeStep(4 * Cells(t), -1);
    forall j | 0 <= j < k
      ensures Here(v[j]).cell < Here(tr).cell
    {
      WalkIncreases(dt, v, true, n, j, k);
    }
    forall j | k < j < |v|
      ensures Here(tr).cell < Here(v[j]).cell
    {
      WalkIncreases(dt, v, true, n, k, j);
    }
    var last := v[|v| - 1];
    assert Gives(dt, last, true, n);
    NextNodeAdvances(dt, 4 * Here(last).cell, Depth(last), true);
  }

  /** Once every node before the k-th lies left of an offset and the k-th lies right of it, no node is there. */
  lemma BetweenNodes(dt: Block, t: Tree, k: nat, offset: int)
    requires Encodes(dt, t) && k <= |Trails(t)|
    requires forall j :: 0 <= j < k ==> 4 * Here(Trails(t)[j]).cell < offset
    requires k < |Trails(t)| ==> offset < 4 * Here(Trails(t)[k]).cell
    ensures NoNodeAt(t, offset)
  {
    forall tr: Trail
      ensures !NodeAt(t, offset, tr)
    {
      if NodeAt(t, offset, tr) {
        var i := TrailIndex(dt, t, tr);
      }
    }
  }

  /** fdt_supernode_atdepth_offset (fdt/fdt_ro.c:379-413): the ancestor at the given depth, for any offset. */
  method FdtSupernodeAtdepthOffset(dt: Block, nodeoffset: cint, supernodedepth: int, ghost t: Tree)
    returns (r: cint, nodedepth: int)
    requires Encodes(dt, t)
    ensures supernodedepth < 0 ==> r == -FDT_ERR_NOTFOUND
    ensures supernodedepth >= 0 ==> forall tr: Trail :: NodeAt(t, nodeoffset, tr) ==>
      nodedepth == Depth(tr) &&
      r == if supernodedepth > Depth(tr) then -FDT_ERR_NOTFOUND else 4 * tr[supernodedepth].cell
    ensures supernodedepth >= 0 && NoNodeAt(t, nodeoffset) ==>
      r == if nodeoffset < 4 * Cells(t) then -FDT_ERR_BADOFFSET
           else if nodeoffset == 4 * Cells(t) then -FDT_ERR_NOTFOUND else -FDT_ERR_BADSTRUCTURE
  {
    nodedepth := 0;
    if supernodedepth < 0 {
      return -FDT_ERR_NOTFOUND, nodedepth;
    }
    var offset: cint, depth, supernodeoffset: cint := 0, 0, -FDT_ERR_INTERNAL;
    ghost var v, k := Trails(t), 0;
    PreorderChain(t, 0, Done, []);
    while offset >= 0 && offset <= nodeoffset
      invariant Standing(t, k, offset, depth) && k <= |v| + 1
      invariant forall j :: 0 <= j < k && j < |v| ==> 4 * Here(v[j]).cell < nodeoffset
      invariant k > |v| ==> 4 * Cells(t) < nodeoffset
      invariant 0 < k <= |v| && supernodedepth < |v[k - 1]| ==> supernodeoffset == 4 * v[k - 1][supernodedepth].cell
      decreases |v| + 1 - k
    {
      if depth == supernodedepth {
        supernodeoffset := offset;
      }
      if k < |v| {
        StandingCell(dt, t, k);
        assert 0 < k ==> Follows(v[k - 1], v[k]);
        assert supernodedepth < |v[k]| ==> supernodeoffset == 4 * v[k][supernodedepth].cell;
      }
      if offset == nodeoffset {
        nodedepth := depth;
        Found(dt, t, k, offset);
        if supernodedepth > depth {
          return -FDT_ERR_NOTFOUND, nodedepth;
        } else {
          return supernodeoffset, nodedepth;
        }
      }
      StandingStep(dt, t, k, offset, depth);
      offset, depth := FdtNextNode(dt, offset, depth, true);
      k := k + 1;
    }
    if k <= |v| {
      if k < |v| {
        StandingCell(dt, t, k);
      }
      BetweenNodes(dt, t, k, nodeoffset);
    } else {
      BetweenNodes(dt, t, |v|, nodeoffset);
    }
    if offset == -FDT_ERR_NOTFOUND || offset >= 0 {
      return -FDT_ERR_BADOFFSET, nodedepth;
    } else if offset == -FDT_ERR_BADOFFSET {
      return -FDT_ERR_BADSTRUCTURE, nodedepth;
    }
    return offset, nodedepth;
  }

  /** The node under a walk that stands on the offset it looks for. */
  lemma Found(dt: Block, t: Tree, k: nat, offset: int)
    requires Encodes(dt, t) && k <= |Trails(t)|
    requires offset == if k < |Trails(t)| then 4 * Here(Trails(t)[k]).cell else 4 * Cells(t)
    ensures k < |Trails(t)| ==> NodeAt(t, offset, Trails(t)[k])
    ensures forall tr: Trail :: NodeAt(t, offset, tr) ==> k < |Trails(t)| && tr == Trails(t)[k]
  {
    if k < |Trails(t)| {
      StandingCell(dt, t, k);
    }
    forall tr: Trail | NodeAt(t, offset, tr)
      ensures k < |Trails(t)| && tr == Trails(t)[k]
    {
      var i := TrailIndex(dt, t, tr);
    }
  }

  /** fdt_node_depth (fdt/fdt_ro.c:415-424). */
  method FdtNodeDepth(dt: Block, nodeoffset: cint, ghost t: Tree) returns (r: int)
    requires Encodes(dt, t)
    ensures forall tr: Trail :: NodeAt(t, nodeoffset, tr) ==> r == Depth(tr)
    ensures NoNodeAt(t, nodeoffset) ==> r < 0
    ensures r >= -FDT_ERR_INTERNAL
  {
    var err, nodedepth := FdtSupernodeAtdepthOffset(dt, nodeoffset, 0, t);
    assert NoNodeAt(t, nodeoffset) || exists tr: Trail :: NodeAt(t, nodeoffset, tr);
    if err != 0 {
      return if err < 0 then err else -FDT_ERR_INTERNAL;
    }
    return nodedepth;
  }

  /** fdt_parent_offset (fdt/fdt_ro.c:426-434). */
  method FdtParentOffset(dt: Block, nodeoffset: cint, ghost t: Tree) returns (r: cint)
    requires Encodes(dt, t)
    ensures forall tr: Trail :: NodeAt(t, nodeoffset, tr) ==>
      r == if |tr| == 1 then -FDT_ERR_NOTFOUND else 4 * tr[|tr| - 2].cell
    ensures NoNodeAt(t, nodeoffset) ==> r < 0
  {
    var nodedepth := FdtNodeDepth(dt, nodeoffset, t);
    if nodedepth < 0 {
      return nodedepth;
    }
    var unused;
    r, unused := FdtSupernodeAtdepthOffset(dt, nodeoffset, nodedepth - 1, t);
  }
}
