/** fdt_get_path: the path of a node, built in a caller's buffer during one preorder walk
    (fdt/fdt_ro.c:203-221, 327-377). */
module FdtGetPath {
  import opened Words
  import opened FdtBlock
  import opened FdtTree
  import opened FdtWalk
  import opened FdtTrails
  import opened FdtPath

  /** Each name followed by a slash. */
  function Joined(names: seq<Name>): seq<byte> {
    if names == [] then []
    else Joined(names[..|names| - 1]) + names[|names| - 1] + [SLASH]
  }

  function Names(tr: Trail): (names: seq<Name>)
    ensures |names| == |tr| && forall i :: 0 <= i < |tr| ==> names[i] == tr[i].node.name
  {
    if |tr| == 1 then [tr[0].node.name] else Names(tr[..|tr| - 1]) + [Here(tr).node.name]
  }

  /** The path of a node: its ancestors' names and its own, separated by slashes; "/" for a nameless root. */
  function PathString(names: seq<Name>): seq<byte> {
    var j := Joined(names);
    if |j| > 1 then j[..|j| - 1] else j
  }

  /** A node name other than the root's contains no slash. */
  ghost predicate SlashFree(t: Tree) {
    forall tr: Trail :: IsTrail(t, tr) && |tr| > 1 ==> SLASH !in Here(tr).node.name
  }

  lemma JoinedPush(names: seq<Name>, name: Name)
    ensures Joined(names + [name]) == Joined(names) + name + [SLASH]
  {
    assert (names + [name])[..|names|] == names;
  }

  lemma {:induction false} JoinedGrows(names: seq<Name>, i: nat, j: nat)
    requires i <= j <= |names|
    ensures |Joined(names[..i])| + (j - i) <= |Joined(names[..j])|
    decreases j
  {
    if i < j {
      assert names[..j][..j - 1] == names[..j - 1];
      JoinedGrows(names, i, j - 1);
    }
  }

  /** How many leading names fit a buffer of the given size, each with its slash. */
  predicate Fits(names: seq<Name>, count: nat, size: int) {
    count <= |names| && |Joined(names[..count])| <= size &&
    (count < |names| ==> |Joined(names[..count + 1])| > size)
  }

  /** The name at an offset that a node starts at. */
  function NameAt(dt: Block, o: cint): Name
    requires CheckNodeOffset(dt, o) >= 0
  {
    dt[o + FDT_TAGSIZE..AfterNul(dt, o + FDT_TAGSIZE) - 1]
  }

  lemma NameOfTree(dt: Block, c: nat, t: Tree)
    requires TreeAt(dt, c, t)
    ensures CheckNodeOffset(dt, 4 * c) >= 0 && NameAt(dt, 4 * c) == t.name
  {
    BeginTag(dt, c, t.name);
    NameEnd(dt, c, t.name);
  }

  /** fdt_get_name (fdt/fdt_ro.c:203-221): the name, or NULL and an error when no node starts there. */
  method FdtGetName(dt: Block, nodeoffset: cint) returns (err: cint, name: Name)
    ensures err == CheckNodeOffset(dt, nodeoffset) && (err >= 0 ==> name == NameAt(dt, nodeoffset))
  {
    err := CheckNodeOffset(dt, nodeoffset);
    if err < 0 {
      return err, [];
    }
    var end := AfterNul(dt, nodeoffset + FDT_TAGSIZE);
    name := dt[nodeoffset + FDT_TAGSIZE..end - 1];
  }

  /** The buffer holds the first `count` names of a trail, each with its slash. */
  predicate Holds(buf: array<byte>, p: nat, names: seq<Name>, count: nat)
    reads buf
  {
    count <= |names| && p <= buf.Length && buf[..p] == Joined(names[..count])
  }

  function Slashes(b: seq<byte>): nat {
    if b == [] then 0 else Slashes(b[..|b| - 1]) + if b[|b| - 1] == SLASH then 1 else 0
  }

  lemma {:induction false} SlashesJoin(a: seq<byte>, b: seq<byte>)
    ensures Slashes(a + b) == Slashes(a) + Slashes(b)
    decreases |b|
  {
    if b == [] {
      assert a + b == a;
    } else {
      assert (a + b)[..|a + b| - 1] == a + b[..|b| - 1];
      SlashesJoin(a, b[..|b| - 1]);
    }
  }

  lemma {:induction false} SlashesNone(b: seq<byte>)
    ensures Slashes(b) == 0 <==> SLASH !in b
    decreases |b|
  {
    if b != [] {
      SlashesNone(b[..|b| - 1]);
      assert b == b[..|b| - 1] + [b[|b| - 1]];
    }
  }

  /** What is left of p bytes without the last. */
  function ButLast(b: seq<byte>, p: nat): seq<byte>
    requires p <= |b|
  {
    if p == 0 then [] else b[..p - 1]
  }

  /** The inner loop of fdt_get_path (fdt/fdt_ro.c:344-347): back to just after the slash before the last one. `left` is
      a read before the start of the buffer. */
  method ScanBack(buf: array<byte>, p: nat) returns (left: bool, q: nat)
    requires p <= buf.Length
    ensures left <==> Slashes(ButLast(buf[..], p)) == 0
    ensures !left ==> 0 < q < p && buf[q - 1] == SLASH && Slashes(buf[..q]) == Slashes(ButLast(buf[..], p))
    ensures !left ==> forall i :: q <= i < p - 1 ==> buf[i] != SLASH
  {
    if p == 0 {
      return true, 0;
    }
    q := p - 1;
    assert buf[..q] == buf[..][..p - 1];
    while q > 0 && buf[q - 1] != SLASH
      invariant q <= p - 1 && Slashes(buf[..q]) == Slashes(ButLast(buf[..], p))
      invariant forall i :: q <= i < p - 1 ==> buf[i] != SLASH
    {
      assert buf[..q][..q - 1] == buf[..q - 1];
      q := q - 1;
    }
    left := q == 0;
    if q > 0 {
      assert buf[..q][..q - 1] == buf[..q - 1];
    }
  }

  /** Drop the last name and its slash from the buffer. */
  method Pop(buf: array<byte>, p: nat, ghost names: seq<Name>, ghost count: nat) returns (left: bool, q: nat)
    requires 1 < count && Holds(buf, p, names, count)
    requires SLASH !in names[count - 1]
    ensures !left && Holds(buf, q, names, count - 1) && q <= p
  {
    ghost var before, last := Joined(names[..count - 1]), names[count - 1];
    assert names[..count][..count - 1] == names[..count - 1];
    assert names[..count - 1] != [];
    assert before[|before| - 1] == SLASH;
    assert forall i :: |before| <= i < p - 1 ==> buf[..p][i] == last[i - |before|];
    assert buf[..p][|before| - 1] == SLASH && ButLast(buf[..], p)[|before| - 1] == SLASH;
    SlashesNone(ButLast(buf[..], p));
    left, q := ScanBack(buf, p);
    assert q == |before|;
    assert buf[..q] == buf[..p][..q] == before;
  }

  /** The same loop when the walk has stepped past the root: it looks for a name too many. */
  method PopPast(buf: array<byte>, p: nat, pdepth: nat) returns (left: bool)
    requires p <= buf.Length && (p > 0 ==> buf[p - 1] == SLASH)
    ensures left <==> Slashes(buf[..p]) <= pdepth + 1
  {
    var q: nat, d: int := p, pdepth;
    left := false;
    while d > -1
      invariant !left && -1 <= d <= pdepth && q <= buf.Length && (q > 0 ==> buf[q - 1] == SLASH)
      invariant Slashes(buf[..q]) as int == Slashes(buf[..p]) - (pdepth - d)
      invariant d == -1 ==> Slashes(buf[..q]) > 0
      decreases d
    {
      if q > 0 {
        assert buf[..q][..q - 1] == buf[..q - 1] == ButLast(buf[..], q);
      }
      left, q := ScanBack(buf, q);
      if left {
        return;
      }
      d := d - 1;
    }
  }

  lemma PrefixIsTrail(t: Tree, tr: Trail, n: nat)
    requires IsTrail(t, tr) && 0 < n <= |tr|
    ensures IsTrail(t, tr[..n])
  {
  }

  /** Shorten the path in the buffer to `depth` names if it is longer. */
  method PopTo(buf: array<byte>, p: nat, pdepth: nat, depth: nat, ghost names: seq<Name>)
    returns (left: bool, q: nat, qdepth: nat)
    requires Holds(buf, p, names, pdepth) && (depth == 0 ==> pdepth == 0)
    requires forall i :: 1 <= i < |names| ==> SLASH !in names[i]
    ensures !left && qdepth == Min(pdepth, depth) && q <= p && Holds(buf, q, names, qdepth)
  {
    left, q, qdepth := false, p, pdepth;
    while qdepth > depth
      invariant !left && q <= p && Holds(buf, q, names, qdepth)
      invariant Min(pdepth, depth) <= qdepth <= pdepth
    {
      left, q := Pop(buf, q, names, qdepth);
      qdepth := qdepth - 1;
    }
  }

  lemma BelowRootSlashFree(dt: Block, t: Tree, k: nat)
    requires Encodes(dt, t) && SlashFree(t) && k < |Trails(t)|
    ensures var names := Names(Trails(t)[k]); forall i :: 1 <= i < |names| ==> SLASH !in names[i]
  {
    var tr := Trails(t)[k];
    StandingCell(dt, t, k);
    forall i | 1 <= i < |tr|
      ensures SLASH !in tr[i].node.name
    {
      PrefixIsTrail(t, tr, i + 1);
      assert Here(tr[..i + 1]) == tr[i];
    }
  }

  /** Copy a name and a slash to the buffer at p. */
  method Append(buf: array<byte>, p: nat, name: Name)
    requires p + |name| + 1 <= buf.Length
    modifies buf
    ensures buf[..p + |name| + 1] == old(buf[..p]) + name + [SLASH]
  {
    for i := 0 to |name|
      invariant buf[..p] == old(buf[..p]) && buf[p..p + i] == name[..i]
    {
      buf[p + i] := name[i];
    }
    buf[p + |name|] := SLASH;
    assert buf[..p + |name| + 1] == buf[..p] + buf[p..p + |name|] + [SLASH];
  }

  /** What still fits when the walk moves from one trail to the next. */
  lemma FitsStep(prev: seq<Name>, names: seq<Name>, count: nat, size: int)
    requires Fits(prev, count, size) && names != []
    requires |names| - 1 <= |prev| && prev[..|names| - 1] == names[..|names| - 1]
    ensures var d := |names| - 1;
      if count < d then Fits(names, count, size) && prev[..count] == names[..count]
      else if |Joined(names[..d])| + |names[d]| + 1 <= size then Fits(names, d + 1, size)
      else Fits(names, d, size)
  {
    var d := |names| - 1;
    JoinedPush(names[..d], names[d]);
    assert names[..d] + [names[d]] == names == names[..d + 1];
    if count < d {
      assert prev[..count] == prev[..d][..count];
      assert prev[..count + 1] == prev[..d][..count + 1];
      assert names[..count] == names[..d][..count];
      assert names[..count + 1] == names[..d][..count + 1];
    } else {
      JoinedGrows(prev, d, count);
    }
  }

  /** One visit of the walk: cut the path back to the node's parent and add the node's name if it fits. */
  method Visit(dt: Block, offset: cint, buf: array<byte>, buflen: nat, p: nat, pdepth: nat, depth: nat,
               ghost prev: seq<Name>, ghost names: seq<Name>, ghost place: Place)
    returns (q: nat, qdepth: nat)
    requires offset == 4 * place.cell && TreeAt(dt, place.cell, place.node)
    requires |names| == depth + 1 && names[depth] == place.node.name
    requires depth <= |prev| && prev[..depth] == names[..depth] && (depth == 0 ==> prev == [])
    requires forall i :: 1 <= i < |prev| ==> SLASH !in prev[i]
    requires p <= buflen <= buf.Length && Holds(buf, p, prev, pdepth) && Fits(prev, pdepth, buflen)
    modifies buf
    ensures q <= buflen && Holds(buf, q, names, qdepth) && Fits(names, qdepth, buflen)
  {
    FitsStep(prev, names, pdepth, buflen);
    var left;
    left, q, qdepth := PopTo(buf, p, pdepth, depth, prev);
    if qdepth >= depth {
      NameOfTree(dt, place.cell, place.node);
      var err, name := FdtGetName(dt, offset);
      assert Holds(buf, q, names, depth);
      if q + |name| + 1 <= buflen {
        JoinedPush(names[..depth], name);
        assert names[..depth] + [name] == names[..depth + 1];
        Append(buf, q, name);
        q := q + |name| + 1;
        qdepth := qdepth + 1;
      }
    }
  }

  /** Replace the last slash by a NUL, except in the path of a nameless root. */
  method Terminate(buf: array<byte>, p: nat, ghost names: seq<Name>)
    requires names != [] && Holds(buf, p, names, |names|) && buf.Length >= 2
    modifies buf
    ensures var path := PathString(names); |path| < buf.Length && buf[..|path| + 1] == path + [NUL]
  {
    assert names[..|names|] == names;
    var q := p;
    if q > 1 {
      q := q - 1;
    }
    assert buf[..q] == PathString(names);
    buf[q] := NUL;
    assert buf[..q + 1] == PathString(names) + [NUL];
  }

  /** The preorder step from one visited node to the next, in names. */
  lemma NamesStep(dt: Block, t: Tree, k: nat)
    requires Encodes(dt, t) && SlashFree(t) && 0 < k < |Trails(t)|
    ensures var v := Trails(t); var prev, names, d := Names(v[k - 1]), Names(v[k]), Depth(v[k]);
      0 < d <= |prev| && prev[..d] == names[..d] && forall i :: 1 <= i < |prev| ==> SLASH !in prev[i]
  {
    hide Encodes, SlashFree, ChildOf;
    var v := Trails(t);
    PreorderChain(t, 0, Done, []);
    assert Follows(v[k - 1], v[k]);
    BelowRootSlashFree(dt, t, k - 1);
    StandingCell(dt, t, k);
    if |v[k]| == 1 {
      StandingCell(dt, t, 0);
      var i := TrailIndex(dt, t, v[0]);
    }
  }

  /** Stepping past the root, the code drops one name more than there is. It finds a slash to stop at only if the root's
      name has two; a root whose name does not fit has left nothing to drop. */
  predicate LeavesBuffer(rootName: Name, size: int) {
    |rootName| + 1 > size || Slashes(rootName) <= 1
  }

  /** fdt_get_path (fdt/fdt_ro.c:327-377) on any offset; `left` is a read before the start of the buffer. */
  method FdtGetPath(dt: Block, nodeoffset: cint, buf: array<byte>, buflen: int, ghost t: Tree)
    returns (left: bool, r: cint)
    requires Encodes(dt, t) && SlashFree(t) && buflen <= buf.Length
    modifies buf
    ensures left <==> buflen >= 2 && nodeoffset >= 4 * Cells(t) && LeavesBuffer(t.name, buflen)
    ensures buflen < 2 ==> r == -FDT_ERR_NOSPACE
    ensures buflen >= 2 ==> forall tr: Trail :: NodeAt(t, nodeoffset, tr) ==>
      var path := PathString(Names(tr));
      if |path| + 1 <= buflen then r == 0 && buf[..|path| + 1] == path + [NUL] else r == -FDT_ERR_NOSPACE
    ensures buflen >= 2 && NoNodeAt(t, nodeoffset) && !left ==> r == -FDT_ERR_BADOFFSET
  {
    hide Be32, BeginAt, Joined, IsTrail, TreeAt, Encodes, SlashFree, Holds, Fits, PathString, Standing, CanStart;
    hide NextNode;
    hide Names, LeavesBuffer;
    var pdepth: nat, p: nat := 0, 0;
    if buflen < 2 {
      return false, -FDT_ERR_NOSPACE;
    }
    var offset: cint, depth := 0, 0;
    ghost var v, k := Trails(t), 0;
    ghost var prev: seq<Name> := [];
    FitsNothing(buf, buflen);
    StandingMeans(t, k, offset, depth);
    while offset >= 0 && offset <= nodeoffset
      invariant k <= |v| && Standing(t, k, offset, depth)
      invariant forall j :: 0 <= j < k ==> 4 * Here(v[j]).cell < nodeoffset
      invariant prev == if k == 0 then [] else Names(v[k - 1])
      invariant p <= buflen && Holds(buf, p, prev, pdepth) && Fits(prev, pdepth, buflen)
      decreases |v| - k
    {
      StandingMeans(t, k, offset, depth);
      if depth < 0 {
        BetweenNodes(dt, t, k, nodeoffset);
        RootFirst(dt, t, k - 1);
        BelowRootSlashFree(dt, t, k - 1);
        PastRoot(buf, p, prev, pdepth, buflen);
        left := PopPast(buf, p, pdepth);
        EndTag(dt, t);
        PlainTag(dt, Cells(t), FDT_END);
        return left, CheckNodeOffset(dt, offset);
      }
      StandingCell(dt, t, k);
      ghost var names := Names(v[k]);
      if k > 0 {
        NamesStep(dt, t, k);
      }
      p, pdepth := Visit(dt, offset, buf, buflen, p, pdepth, depth, prev, names, Here(v[k]));
      if offset == nodeoffset {
        Found(dt, t, k, offset);
        Complete(names, pdepth, buflen);
        if pdepth < depth + 1 {
          return false, -FDT_ERR_NOSPACE;
        }
        Terminate(buf, p, names);
        return false, 0;
      }
      StandingStep(dt, t, k, offset, depth);
      offset, depth := FdtNextNode(dt, offset, depth, true);
      k, prev := k + 1, names;
    }
    StandingMeans(t, k, offset, depth);
    if k < |v| {
      StandingCell(dt, t, k);
    }
    BetweenNodes(dt, t, k, nodeoffset);
    return false, -FDT_ERR_BADOFFSET;
  }

  lemma EndTag(dt: Block, t: Tree)
    requires Encodes(dt, t)
    ensures TagIs(dt, Cells(t), FDT_END)
  {
  }

  lemma RootFirst(dt: Block, t: Tree, k: nat)
    requires Encodes(dt, t) && k < |Trails(t)|
    ensures Names(Trails(t)[k]) != [] && Names(Trails(t)[k])[0] == t.name
  {
    hide Encodes;
    StandingCell(dt, t, k);
  }

  /** How many slashes there are to stop at when the walk has stepped past the root. */
  lemma PastRoot(buf: array<byte>, p: nat, names: seq<Name>, count: nat, size: int)
    requires names != [] && Holds(buf, p, names, count) && Fits(names, count, size)
    requires forall i :: 1 <= i < |names| ==> SLASH !in names[i]
    ensures p > 0 ==> buf[p - 1] == SLASH
    ensures Slashes(buf[..p]) <= count + 1 <==> LeavesBuffer(names[0], size)
  {
    JoinedSlashes(names, count);
    assert names[..1] == [] + [names[0]];
    JoinedPush([], names[0]);
    if count > 0 {
      JoinedGrows(names, 1, count);
      assert buf[..p][p - 1] == SLASH;
    } else {
      assert names[..0] == [];
    }
  }

  lemma {:induction false} JoinedSlashes(names: seq<Name>, count: nat)
    requires count <= |names| && forall i :: 1 <= i < |names| ==> SLASH !in names[i]
    ensures Slashes(Joined(names[..count])) == if count == 0 then 0 else count + Slashes(names[0])
    decreases count
  {
    if count > 0 {
      var front, last := names[..count - 1], names[count - 1];
      assert names[..count] == front + [last];
      JoinedPush(front, last);
      JoinedSlashes(names, count - 1);
      SlashesJoin(Joined(front) + last, [SLASH]);
      SlashesJoin(Joined(front), last);
      assert Slashes([SLASH]) == 1;
      SlashesNone(last);
    }
  }

  lemma FitsNothing(buf: array<byte>, size: nat)
    ensures Holds(buf, 0, [], 0) && Fits([], 0, size)
  {
  }

  /** All names fit exactly when the path and its NUL do. */
  lemma Complete(names: seq<Name>, count: nat, size: int)
    requires names != [] && Fits(names, count, size) && size >= 2
    ensures count == |names| <==> |PathString(names)| + 1 <= size
    ensures names[..|names|] == names && |Joined(names)| > 0
  {
    assert names[..|names|] == names;
    JoinedGrows(names, 0, |names|);
    if count < |names| {
      JoinedGrows(names, count + 1, |names|);
    }
  }

  /** A tree of nothing but a nameless root, and the offset of the tag that ends it. */
  const LONE_ROOT: Tree := Node([], Done)

  lemma LoneRootLeaves()
    ensures var dt := Encode(LONE_ROOT) + Bytes32(FDT_END);
      |dt| == 16 && Encodes(dt, LONE_ROOT) && 4 * Cells(LONE_ROOT) == 12 &&
      forall size :: LeavesBuffer(LONE_ROOT.name, size)
  {
    EncodeEncodes(LONE_ROOT);
  }
}
