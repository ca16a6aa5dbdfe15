/** The preorder list of a tree holds exactly the trails from the root, and consecutive entries
    share all but the last place. */
module FdtTrails {
  import opened FdtBlock
  import opened FdtTree
  import opened FdtWalk

  /** From place i on, every place is a child of the one before. */
  predicate Descends(tr: Trail, i: nat) {
    forall j :: i <= j < |tr| - 1 ==> ChildOf(tr[j], tr[j + 1])
  }

  lemma {:induction false} InPreorder(t: Tree, c: nat, rest: Body, above: seq<Place>, tr: Trail)
    ensures tr in Preorder(t, c, rest, above) <==>
      |tr| > |above| && tr[..|above|] == above && tr[|above|] == Place(c, t, rest) && Descends(tr, |above|)
    decreases t
  {
    var trail: Trail := above + [Place(c, t, rest)];
    InPreorderBody(t.body, c + HeadCells(t.name), trail, tr);
    if |tr| > |trail| && tr[..|above|] == above && tr[|above|] == Place(c, t, rest) {
      assert tr[..|trail|] == trail;
      assert Descends(tr, |above|) <==> ChildOf(tr[|above|], tr[|trail|]) && Descends(tr, |trail|);
    }
    if |tr| == |trail| && tr[..|above|] == above && tr[|above|] == Place(c, t, rest) {
      assert tr == trail;
    }
  }

  lemma {:induction false} InPreorderBody(b: Body, c: nat, trail: Trail, tr: Trail)
    ensures tr in PreorderBody(b, c, trail) <==>
      |tr| > |trail| && tr[..|trail|] == trail && SubAt(b, c, tr[|trail|]) && Descends(tr, |trail|)
    decreases b
  {
    match b
    case Done =>
    case Nop(rest) => InPreorderBody(rest, c + 1, trail, tr);
    case Prop(_, data, rest) => InPreorderBody(rest, c + PropCells(data), trail, tr);
    case Sub(node, rest) =>
      InPreorder(node, c, rest, trail, tr);
      InPreorderBody(rest, c + Cells(node), trail, tr);
  }

  /** The nodes of a tree are exactly the ends of the trails from its root. */
  lemma TrailsComplete(t: Tree, tr: Trail)
    ensures tr in Trails(t) <==> IsTrail(t, tr)
  {
    InPreorder(t, 0, Done, [], tr);
    assert tr[..0] == [];
  }

  /** b comes right after a: all of b but its last place is a prefix of a. */
  predicate Follows(a: Trail, b: Trail) {
    Depth(b) <= |a| && a[..Depth(b)] == b[..Depth(b)]
  }

  predicate Chain(v: seq<Trail>) {
    forall k :: 0 <= k < |v| - 1 ==> Follows(v[k], v[k + 1])
  }

  predicate AllBelow(v: seq<Trail>, above: seq<Place>) {
    forall k :: 0 <= k < |v| ==> |v[k]| > |above| && v[k][..|above|] == above
  }

  lemma ChainJoin(v: seq<Trail>, u: seq<Trail>, above: seq<Place>)
    requires Chain(v) && Chain(u) && AllBelow(v, above) && AllBelow(u, above)
    requires u != [] ==> |u[0]| == |above| + 1
    ensures Chain(v + u) && AllBelow(v + u, above)
  {
    var w := v + u;
    forall k | 0 <= k < |w| - 1
      ensures Follows(w[k], w[k + 1])
    {
      if k < |v| - 1 {
        assert Follows(v[k], v[k + 1]);
      } else if k > |v| - 1 {
        assert Follows(u[k - |v|], u[k - |v| + 1]);
      }
    }
  }

  lemma {:induction false} PreorderChain(t: Tree, c: nat, rest: Body, above: seq<Place>)
    ensures Chain(Preorder(t, c, rest, above)) && AllBelow(Preorder(t, c, rest, above), above)
    decreases t
  {
    var trail: Trail := above + [Place(c, t, rest)];
    var v := PreorderBody(t.body, c + HeadCells(t.name), trail);
    PreorderBodyChain(t.body, c + HeadCells(t.name), trail);
    forall k | 0 <= k < |v|
      ensures |v[k]| > |above| && v[k][..|above|] == above
    {
      assert v[k][..|above|] == v[k][..|trail|][..|above|];
    }
    if v != [] {
      assert Follows(trail, v[0]);
    }
    var w := [trail] + v;
    forall k | 0 <= k < |w| - 1
      ensures Follows(w[k], w[k + 1])
    {
      if k > 0 {
        assert Follows(v[k - 1], v[k]);
      }
    }
  }

  lemma {:induction false} PreorderBodyChain(b: Body, c: nat, trail: Trail)
    ensures var v := PreorderBody(b, c, trail);
      Chain(v) && AllBelow(v, trail) && (v != [] ==> |v[0]| == |trail| + 1)
    decreases b
  {
    match b
    case Done =>
    case Nop(rest) => PreorderBodyChain(rest, c + 1, trail);
    case Prop(_, data, rest) => PreorderBodyChain(rest, c + PropCells(data), trail);
    case Sub(node, rest) =>
      PreorderChain(node, c, rest, trail);
      PreorderBodyChain(rest, c + Cells(node), trail);
      ChainJoin(Preorder(node, c, rest, trail), PreorderBody(rest, c + Cells(node), trail), trail);
  }

  /** Along any walk the offsets increase strictly, so no node is visited twice. */
  lemma {:induction false} WalkIncreases(dt: Block, v: seq<Trail>, tracked: bool, n: NodeStep, j: nat, k: nat)
    requires Walks(dt, v, tracked, n) && j < k < |v|
    ensures Here(v[j]).cell < Here(v[k]).cell
    decreases k
  {
    hide NextNode, CanStart;
    assert LeadsTo(dt, v[k - 1], v[k], tracked);
    NextNodeAdvances(dt, 4 * Here(v[k - 1]).cell, TrailDepth(v[k - 1], tracked), tracked);
    if j < k - 1 {
      WalkIncreases(dt, v, tracked, n, j, k - 1);
    }
  }
}
