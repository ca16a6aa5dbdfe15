/** The path walk of fdt_path_offset, and the round trip with fdt_get_path (fdt/fdt_ro.c:159-201). */
module FdtResolve {
  import opened Words
  import opened FdtBlock
  import opened FdtTree
  import opened FdtWalk
  import opened FdtLookup
  import opened FdtGetPath

  /** The index of the first slash at or after i, or the length of the path. */
  function SlashOrEnd(path: seq<byte>, i: nat): (q: nat)
    requires i <= |path|
    ensures i <= q <= |path| && (forall j :: i <= j < q ==> path[j] != SLASH) && (q < |path| ==> path[q] == SLASH)
    decreases |path| - i
  {
    if i == |path| || path[i] == SLASH then i else SlashOrEnd(path, i + 1)
  }

  function Part(path: CName, i: nat, q: nat): CName
    requires i <= q <= |path|
  {
    path[i..q]
  }

  /** Resolve the components of path[i..] one after the other, from the node at offset. */
  function Resolve(dt: Block, offset: cint, path: CName, i: nat): (r: cint)
    requires i <= |path| && CanStep(dt, offset)
    ensures r >= 0 ==> CanStep(dt, r)
    decreases |path| - i
  {
    if i == |path| then offset
    else if path[i] == SLASH then Resolve(dt, offset, path, i + 1)
    else
      var q := SlashOrEnd(path, i + 1);
      var next := Subnode(dt, offset, Named(Part(path, i, q)));
      if next < 0 then next else Resolve(dt, next, path, q)
  }

  /** The loop of fdt_path_offset (fdt/fdt_ro.c:183-200), from a node and a place in the path. */
  method FollowPath(dt: Block, from: cint, path: CName, i: nat) returns (r: cint)
    requires i <= |path| && CanStep(dt, from)
    ensures r == Resolve(dt, from, path, i)
  {
    hide Subnode, Part, Settles;
    var p := i;
    var offset: cint := from;
    while p < |path|
      invariant p <= |path| && CanStep(dt, offset)
      invariant Resolve(dt, offset, path, p) == Resolve(dt, from, path, i)
    {
      ghost var start := p;
      while p < |path| && path[p] == SLASH
        invariant start <= p <= |path| && (p == start ==> p < |path|)
        invariant Resolve(dt, offset, path, p) == Resolve(dt, from, path, i)
      {
        p := p + 1;
      }
      if p == |path| {
        return offset;
      }
      var q := p + 1;
      while q < |path| && path[q] != SLASH
        invariant p < q <= |path|
        invariant SlashOrEnd(path, q) == SlashOrEnd(path, p + 1)
      {
        q := q + 1;
      }
      offset := FdtSubnodeOffsetNamelen(dt, offset, Part(path, p, q));
      if offset < 0 {
        return offset;
      }
      p := q;
    }
    return offset;
  }

  // ---- Round trip.

  /** Each name after a slash. */
  function Slashed(names: seq<Name>): seq<byte> {
    if names == [] then [] else [SLASH] + names[0] + Slashed(names[1..])
  }

  lemma {:induction false} JoinedIsSlashed(first: Name, names: seq<Name>)
    ensures Joined([first] + names) == first + Slashed(names) + [SLASH]
    decreases |names|
  {
    var all := [first] + names;
    if names == [] {
      assert all[..0] == [];
    } else {
      var butLast, last := names[..|names| - 1], names[|names| - 1];
      assert all[..|all| - 1] == [first] + butLast;
      JoinedIsSlashed(first, butLast);
      SlashedPush(butLast, last);
      assert butLast + [last] == names;
    }
  }

  lemma {:induction false} SlashedPush(names: seq<Name>, last: Name)
    ensures Slashed(names + [last]) == Slashed(names) + [SLASH] + last
    decreases |names|
  {
    if names != [] {
      assert (names + [last])[1..] == names[1..] + [last];
      SlashedPush(names[1..], last);
    }
  }

  /** The names on a trail that a path can spell: the root is nameless, the others are neither empty nor contain
      slashes. */
  predicate Spellable(names: seq<Name>) {
    names != [] && names[0] == [] && forall i :: 1 <= i < |names| ==> Plain(names[i])
  }

  predicate Plain(name: Name) {
    name != [] && SLASH !in name && NUL !in name
  }

  function KeyOf(name: Name): Key
    requires Plain(name)
  {
    Named(name)
  }

  lemma PathStringIsSlashed(names: seq<Name>)
    requires Spellable(names)
    ensures PathString(names) == if |names| == 1 then [SLASH] else Slashed(names[1..])
  {
    assert names == [names[0]] + names[1..];
    JoinedIsSlashed([], names[1..]);
  }

  /** A sibling that precedes c inside p and that a lookup of c's name takes instead. */
  predicate Shadows(p: Place, e: Place, c: Place) {
    ChildOf(p, e) && e.cell < c.cell && Answers(c.node.name, e.node.name)
  }

  ghost predicate Unshadowed(p: Place, c: Place) {
    forall e: Place :: !Shadows(p, e, c)
  }

  function MatchPlace(b: Body, c: nat, key: Key): (e: Place)
    requires FirstMatch(b, c, key) >= 0
    ensures e.cell == FirstMatch(b, c, key) && SubAt(b, c, e) && Matches(key, e.node.name)
  {
    match b
    case Nop(rest) => MatchPlace(rest, c + 1, key)
    case Prop(_, data, rest) => MatchPlace(rest, c + PropCells(data), key)
    case Sub(node, rest) =>
      if Matches(key, node.name) then Place(c, node, rest) else MatchPlace(rest, c + Cells(node), key)
  }

  lemma {:induction false} SubCells(b: Body, c: nat, e: Place)
    requires SubAt(b, c, e)
    ensures c <= e.cell && e.cell + Cells(e.node) <= c + BodyCells(b)
    decreases b
  {
    match b
    case Nop(rest) => SubCells(rest, c + 1, e);
    case Prop(_, data, rest) => SubCells(rest, c + PropCells(data), e);
    case Sub(node, rest) => if e != Place(c, node, rest) { SubCells(rest, c + Cells(node), e); }
  }

  /** Children of one node are ordered and do not overlap. */
  lemma {:induction false} SubsApart(b: Body, c: nat, e: Place, f: Place)
    requires SubAt(b, c, e) && SubAt(b, c, f)
    ensures e == f || e.cell + Cells(e.node) <= f.cell || f.cell + Cells(f.node) <= e.cell
    decreases b
  {
    match b
    case Nop(rest) => SubsApart(rest, c + 1, e, f);
    case Prop(_, data, rest) => SubsApart(rest, c + PropCells(data), e, f);
    case Sub(node, rest) =>
      var here, after := Place(c, node, rest), c + Cells(node);
      if e != here { SubCells(rest, after, e); }
      if f != here { SubCells(rest, after, f); }
      if e != here && f != here { SubsApart(rest, after, e, f); }
  }

  /** The first match is no later than any match. */
  lemma {:induction false} FirstMatchFirst(b: Body, c: nat, key: Key, e: Place)
    requires SubAt(b, c, e) && Matches(key, e.node.name)
    ensures 0 <= FirstMatch(b, c, key) <= e.cell
    decreases b
  {
    SubCells(b, c, e);
    match b
    case Nop(rest) => FirstMatchFirst(rest, c + 1, key, e);
    case Prop(_, data, rest) => FirstMatchFirst(rest, c + PropCells(data), key, e);
    case Sub(node, rest) =>
      if e != Place(c, node, rest) { FirstMatchFirst(rest, c + Cells(node), key, e); }
  }

  /** Looking a child up by its own name finds that child exactly when nothing shadows it. */
  lemma LookupUnshadowed(p: Place, child: Place, key: Key)
    requires ChildOf(p, child) && key.Named? && key.name == child.node.name
    ensures FirstMatch(p.node.body, BodyCell(p), key) >= 0
    ensures var e := MatchPlace(p.node.body, BodyCell(p), key);
      if e == child then Unshadowed(p, child)
      else !Unshadowed(p, child) && e.cell + Cells(e.node) <= child.cell
  {
    var b, c := p.node.body, BodyCell(p);
    FirstMatchFirst(b, c, key, child);
    var e := MatchPlace(b, c, key);
    SubsApart(b, c, e, child);
    if e == child {
      forall f: Place
        ensures !Shadows(p, f, child)
      {
        if Shadows(p, f, child) {
          FirstMatchFirst(b, c, key, f);
        }
      }
    } else {
      assert Shadows(p, e, child);
    }
  }

  /** Where a list of names leads from a place, taking the first match each time. */
  function Descend(p: Place, names: seq<Name>): int
    requires forall i :: 0 <= i < |names| ==> Plain(names[i])
    decreases |names|
  {
    if names == [] then 4 * p.cell
    else
      var key := KeyOf(names[0]);
      if FirstMatch(p.node.body, BodyCell(p), key) < 0 then -FDT_ERR_NOTFOUND
      else Descend(MatchPlace(p.node.body, BodyCell(p), key), names[1..])
  }

  lemma {:induction false} DescendWithin(p: Place, names: seq<Name>)
    requires forall i :: 0 <= i < |names| ==> Plain(names[i])
    ensures var r := Descend(p, names); r < 0 || 4 * p.cell <= r < 4 * (p.cell + Cells(p.node))
    decreases |names|
  {
    if names != [] {
      var key := KeyOf(names[0]);
      if FirstMatch(p.node.body, BodyCell(p), key) >= 0 {
        var e := MatchPlace(p.node.body, BodyCell(p), key);
        SubCells(p.node.body, BodyCell(p), e);
        DescendWithin(e, names[1..]);
      }
    }
  }

  lemma SlashOrEndIs(path: seq<byte>, i: nat, q: nat)
    requires i <= q <= |path| && (forall j :: i <= j < q ==> path[j] != SLASH) && (q < |path| ==> path[q] == SLASH)
    ensures SlashOrEnd(path, i) == q
  {
  }

  /** Resolving a path is descending by its names. */
  lemma {:induction false} ResolveDescends(dt: Block, p: Place, path: CName, i: nat, names: seq<Name>)
    requires PlaceAt(dt, p) && i <= |path| && path[i..] == Slashed(names)
    requires forall k :: 0 <= k < |names| ==> Plain(names[k])
    ensures CanStep(dt, 4 * p.cell)
    ensures Resolve(dt, 4 * p.cell, path, i) == Descend(p, names)
    decreases |names|
  {
    hide PlaceAt, Subnode, CanStep;
    SubnodeFinds(dt, p, AnyNode);
    if names != [] {
      var name, key := names[0], KeyOf(names[0]);
      var q := i + 1 + |name|;
      assert path[i..] == [SLASH] + name + Slashed(names[1..]);
      assert path[i] == path[i..][0] == SLASH;
      assert path[i + 1..q] == path[i..][1..1 + |name|] == name;
      assert path[q..] == path[i..][1 + |name|..] == Slashed(names[1..]);
      assert path[i + 1] == name[0];
      assert forall j :: 0 <= j < |name| ==> path[i + 1..q][j] == name[j] == path[i + 1 + j];
      assert q < |path| ==> path[q] == path[q..][0];
      SlashOrEndIs(path, i + 2, q);
      SubnodeFinds(dt, p, key);
      if FirstMatch(p.node.body, BodyCell(p), key) >= 0 {
        var e := MatchPlace(p.node.body, BodyCell(p), key);
        ChildPlaceAt(dt, p, e);
        ResolveDescends(dt, e, path, q, names[1..]);
      }
    }
  }

  lemma {:induction false} TrailCells(tr: Trail, i: nat)
    requires i < |tr| && forall j :: 0 <= j < |tr| - 1 ==> ChildOf(tr[j], tr[j + 1])
    ensures tr[i].cell <= Here(tr).cell
    decreases |tr| - i
  {
    if i < |tr| - 1 {
      assert ChildOf(tr[i], tr[i + 1]);
      SubCells(tr[i].node.body, BodyCell(tr[i]), tr[i + 1]);
      TrailCells(tr, i + 1);
    }
  }

  /** Descending along a trail by its names comes back to its end exactly when no step is shadowed. */
  lemma {:induction false} DescendTrail(tr: Trail, i: nat)
    requires i < |tr| && forall j :: 0 <= j < |tr| - 1 ==> ChildOf(tr[j], tr[j + 1])
    requires forall j :: 1 <= j < |tr| ==> Plain(tr[j].node.name)
    ensures Descend(tr[i], Names(tr)[i + 1..]) == 4 * Here(tr).cell <==>
      forall j :: i <= j < |tr| - 1 ==> Unshadowed(tr[j], tr[j + 1])
    decreases |tr| - i
  {
    hide Unshadowed, ChildOf, Answers, Matches, FirstMatch, Names, Cells, HeadCells;
    var names := Names(tr)[i + 1..];
    if i < |tr| - 1 {
      assert ChildOf(tr[i], tr[i + 1]);
      assert names[0] == tr[i + 1].node.name && names[1..] == Names(tr)[i + 2..];
      LookupUnshadowed(tr[i], tr[i + 1], KeyOf(names[0]));
      var e := MatchPlace(tr[i].node.body, BodyCell(tr[i]), KeyOf(names[0]));
      if e == tr[i + 1] {
        DescendTrail(tr, i + 1);
      } else {
        DescendWithin(e, names[1..]);
        TrailCells(tr, i + 1);
      }
    }
  }

  lemma {:induction false} SlashedNulFree(names: seq<Name>)
    requires forall k :: 0 <= k < |names| ==> Plain(names[k])
    ensures NUL !in Slashed(names)
    decreases |names|
  {
    if names != [] {
      SlashedNulFree(names[1..]);
    }
  }

  /** The path round trip: looking up the path of a node finds that node again exactly when, on the way down,
      no earlier sibling answers to a name on the path. */
  lemma PathRoundTrip(dt: Block, t: Tree, tr: Trail)
    requires Encodes(dt, t) && IsTrail(t, tr) && Spellable(Names(tr))
    ensures Settles(dt, 0)
    ensures var path := PathString(Names(tr));
      path != [] && path[0] == SLASH && NUL !in path &&
      (Resolve(dt, 0, path, 0) == 4 * Here(tr).cell <==>
       forall i :: 0 <= i < |tr| - 1 ==> Unshadowed(tr[i], tr[i + 1]))
  {
    hide Unshadowed, ChildOf, Answers, Matches, FirstMatch, Names, PlaceAt, Encodes, PathString, Slashed, Descend;
    hide CanStep;
    hide Resolve, Settles, Walks, Spellable, Plain, IsTrail;
    var names := Names(tr);
    PathStringIsSlashed(names);
    SpellableMeans(names);
    RootPlace(dt, t, tr);
    WalkVisitsPreorder(dt, t, true);
    CanStepRoot(dt);
    if |tr| == 1 {
      ResolveSlash(dt);
    } else {
      SlashedNulFree(names[1..]);
      SlashedFirst(names[1..]);
      ResolveDescends(dt, tr[0], PathString(names), 0, names[1..]);
      DescendTrail(tr, 0);
    }
  }

  lemma SpellableMeans(names: seq<Name>)
    requires Spellable(names)
    ensures forall i :: 1 <= i < |names| ==> Plain(names[i])
  {
  }

  lemma RootPlace(dt: Block, t: Tree, tr: Trail)
    requires Encodes(dt, t) && IsTrail(t, tr)
    ensures tr[0].cell == 0 && PlaceAt(dt, tr[0]) && forall j :: 0 <= j < |tr| - 1 ==> ChildOf(tr[j], tr[j + 1])
  {
    hide PlaceAt, Encodes;
    TrailPlaceAt(dt, t, tr[..1]);
  }

  lemma ResolveSlash(dt: Block)
    requires CanStep(dt, 0)
    ensures Resolve(dt, 0, [SLASH], 0) == 0
  {
    assert Resolve(dt, 0, [SLASH], 1) == 0;
  }

  lemma CanStepRoot(dt: Block)
    requires Settles(dt, 0)
    ensures CanStep(dt, 0)
  {
  }

  lemma SlashedFirst(names: seq<Name>)
    requires names != []
    ensures Slashed(names) != [] && Slashed(names)[0] == SLASH
  {
  }

  /** Sibling names that differ, none of which extends a name without unit address by an '@', shadow nothing. */
  lemma DistinctNamesUnshadowed(p: Place, c: Place)
    requires forall e: Place :: ChildOf(p, e) && e.cell < c.cell ==>
      e.node.name != c.node.name && (AT in c.node.name || !(c.node.name + [AT] <= e.node.name))
    ensures Unshadowed(p, c)
  {
  }

  // ---- A path that leads elsewhere.

  const NAME_A: Name := [97]
  const NAME_A1: Name := [97, 64, 49]

  /** A root with the children "a@1" and "a", in this order. */
  const SHADOWED: Tree := Node([], Sub(Node(NAME_A1, Done), Sub(Node(NAME_A, Done), Done)))

  /** The trail to the second child. */
  const TO_SECOND: Trail := [Place(0, SHADOWED, Done), Place(5, Node(NAME_A, Done), Done)]

  /** The path of the second child is "/a", and looking that up does not find it. */
  lemma ShadowedPath()
    ensures var dt := Encode(SHADOWED) + Bytes32(FDT_END);
      |dt| < 0x4000_0000 && Encodes(dt, SHADOWED) && IsTrail(SHADOWED, TO_SECOND) &&
      PathString(Names(TO_SECOND)) == [SLASH, 97] && Settles(dt, 0) && CanStep(dt, 0) &&
      Resolve(dt, 0, [SLASH, 97], 0) != 4 * Here(TO_SECOND).cell
  {
    hide Encodes, Encode, Resolve, Settles, Unshadowed, CanStep;
    var root, second := TO_SECOND[0], TO_SECOND[1];
    var first := Place(2, Node(NAME_A1, Done), Sub(Node(NAME_A, Done), Done));
    assert HeadCells([]) == 2 && HeadCells(NAME_A1) == 2 && HeadCells(NAME_A) == 2;
    assert Cells(first.node) == 3 && BodyCell(root) == 2;
    assert ChildOf(root, first) && ChildOf(root, second);
    assert Shadows(root, first, second);
    ShadowMeans(root, first, second);
    EncodeEncodes(SHADOWED);
    var dt := Encode(SHADOWED) + Bytes32(FDT_END);
    var names := Names(TO_SECOND);
    assert names == [[], NAME_A];
    PathStringIsSlashed(names);
    assert names[1..] == [NAME_A] && Slashed([NAME_A]) == [SLASH] + NAME_A + Slashed([]);
    PathRoundTrip(dt, SHADOWED, TO_SECOND);
    CanStepRoot(dt);
  }

  lemma ShadowMeans(p: Place, e: Place, c: Place)
    requires Shadows(p, e, c)
    ensures !Unshadowed(p, c)
  {
  }
}
