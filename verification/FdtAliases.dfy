/** Paths that start with an alias (fdt/fdt_ro.c:165-181, 310-320). */
module FdtAliases {
  import opened Words
  import opened FdtBlock
  import opened FdtTree
  import opened FdtWalk
  import opened FdtLookup
  import opened FdtPath
  import opened FdtGetPath
  import opened FdtResolve
  import opened FdtProps

  /** The bytes of "/aliases". */
  const ALIASES: CName := [47, 97, 108, 105, 97, 115, 101, 115]

  lemma AliasesName()
    ensures ALIASES == Ascii("/aliases")
  {
  }

  /** There is a NUL at or after the offset. */
  predicate Closed(dt: Block, o: nat) {
    AfterNul(dt, o) != -1
  }

  /** The NUL-terminated string at an offset of the block. */
  function CString(dt: Block, o: nat): (r: CName)
    requires Closed(dt, o)
    ensures o + |r| < |dt| && dt[o..o + |r|] == r && dt[o + |r|] == NUL
  {
    dt[o..AfterNul(dt, o) - 1]
  }

  /** The property that would be the alias can be looked for. */
  predicate Readable(dt: Block, strings: Block, name: seq<byte>)
    requires CanStep(dt, 0)
  {
    var node := Resolve(dt, 0, ALIASES, 0);
    node >= 0 ==> CanLookUp(dt, strings, node, name)
  }

  /** Where the value of an alias is, or -1. */
  function AliasAt(dt: Block, strings: Block, name: seq<byte>): (p: int)
    requires CanStep(dt, 0) && Readable(dt, strings, name)
    ensures p == -1 || 0 <= p <= |dt|
  {
    var node := Resolve(dt, 0, ALIASES, 0);
    if node < 0 then -1
    else
      var o := PropertyOffset(dt, strings, node, name);
      if o < 0 then -1 else o + 12
  }

  /** fdt_get_alias_namelen (fdt/fdt_ro.c:310-320): where the value starts, or -1 for NULL. */
  method FdtGetAliasNamelen(dt: Block, strings: Block, name: seq<byte>) returns (p: int)
    requires CanStep(dt, 0) && Readable(dt, strings, name)
    ensures p == AliasAt(dt, strings, name)
  {
    hide PropertyOffset, Resolve, CanLookUp;
    var aliasoffset := FollowPath(dt, 0, ALIASES, 0);
    if aliasoffset < 0 {
      return -1;
    }
    var prop, _ := FdtGetPropertyNamelen(dt, strings, aliasoffset, name);
    return if prop < 0 then -1 else prop + 12;
  }

  // ---- Chains of aliases.

  predicate Absolute(path: CName) {
    path != [] && path[0] == SLASH
  }

  /** The name that a path starts with. */
  function First(path: CName): seq<byte> {
    path[..SlashOrEnd(path, 0)]
  }

  /** The path that the alias at the start of a path stands for, if its value ends inside the block. */
  function Next(dt: Block, strings: Block, path: CName): Option<CName>
    requires CanStep(dt, 0) && Readable(dt, strings, First(path))
  {
    if Absolute(path) then None
    else
      var p := AliasAt(dt, strings, First(path));
      if p < 0 || !Closed(dt, p) then None else Some(CString(dt, p))
  }

  /** Aliases may name paths that start with aliases themselves: the chain from a path ends within n of them, in an
      absolute path, a name that is no alias, or a value that runs out of the block. */
  predicate Ends(dt: Block, strings: Block, path: CName, n: nat)
    requires CanStep(dt, 0)
    decreases n
  {
    Absolute(path) ||
    (Readable(dt, strings, First(path)) &&
     match Next(dt, strings, path)
     case None => true
     case Some(value) => n > 0 && Ends(dt, strings, value, n - 1))
  }

  lemma EndsMeans(dt: Block, strings: Block, path: CName, n: nat)
    requires CanStep(dt, 0) && Ends(dt, strings, path, n) && !Absolute(path)
    ensures Readable(dt, strings, First(path))
    ensures Next(dt, strings, path).Some? ==> n > 0 && Ends(dt, strings, Next(dt, strings, path).value, n - 1)
  {
  }

  /** A name on the way is no alias, a value does not end inside the block, or the whole path. */
  datatype Expansion = NoAlias | Outside | Full(path: CName)

  /** The path with its aliases replaced by their values until none is left. */
  function Expanded(dt: Block, strings: Block, path: CName, n: nat): Expansion
    requires CanStep(dt, 0) && Ends(dt, strings, path, n)
    decreases n
  {
    hide Ends, Readable, First, AliasAt;
    if Absolute(path) then Full(path)
    else
      EndsMeans(dt, strings, path, n);
      var p := AliasAt(dt, strings, First(path));
      if p < 0 then NoAlias
      else if !Closed(dt, p) then Outside
      else
        var e := Expanded(dt, strings, CString(dt, p), n - 1);
        if e.Full? then Full(Glued(e.path, path, SlashOrEnd(path, 0))) else e
  }

  function Glued(value: CName, path: CName, q: nat): CName
    requires q <= |path|
  {
    value + path[q..]
  }

  /** fdt_path_offset (fdt/fdt_ro.c:159-201): the node of the path with its aliases expanded; `left` is a read past the
      end of the block, for the NUL of a value. */
  method FdtPathOffset(dt: Block, strings: Block, path: CName, ghost n: nat) returns (left: bool, r: cint)
    requires CanStep(dt, 0) && Ends(dt, strings, path, n)
    ensures match Expanded(dt, strings, path, n)
      case NoAlias => !left && r == -FDT_ERR_BADPATH
      case Outside => left
      case Full(full) => !left && r == Resolve(dt, 0, full, 0)
    ensures r >= 0 ==> CanStep(dt, r)
    decreases n
  {
    hide AliasAt, Resolve, Settles, Glued, CanStep, Readable, Ends, Closed;
    left := false;
    if path == [] || path[0] != SLASH {
      var q := 0;
      while q < |path| && path[q] != SLASH
        invariant q <= |path| && SlashOrEnd(path, q) == SlashOrEnd(path, 0)
      {
        q := q + 1;
      }
      EndsMeans(dt, strings, path, n);
      var p := FdtGetAliasNamelen(dt, strings, path[..q]);
      if p < 0 {
        return false, -FDT_ERR_BADPATH;
      }
      if !Closed(dt, p) {
        return true, -1;
      }
      var offset;
      left, offset := FdtPathOffset(dt, strings, CString(dt, p), n - 1);
      if left {
        return true, -1;
      }
      FailureStays(dt, offset);
      r := FollowPath(dt, offset, path, q);
      ghost var value := Expanded(dt, strings, CString(dt, p), n - 1);
      if value.Full? {
        ResolveGlued(dt, value.path, path, q, 0, 0);
      } else {
        ResolveFailed(dt, offset, path, q);
      }
    } else {
      r := FollowPath(dt, 0, path, 0);
    }
  }

  /** A walk that has failed can go on, and stays failed. */
  lemma FailureStays(dt: Block, o: cint)
    requires o >= 0 ==> CanStep(dt, o)
    ensures CanStep(dt, o)
  {
  }

  /** Resolving a path in two parts is resolving the whole. */
  lemma {:induction false} ResolveGlued(dt: Block, value: CName, path: CName, q: nat, o: cint, i: nat)
    requires CanStep(dt, o) && i <= |value| && q <= |path| && (q < |path| ==> path[q] == SLASH)
    ensures var mid := Resolve(dt, o, value, i);
      CanStep(dt, mid) && Resolve(dt, o, Glued(value, path, q), i) == Resolve(dt, mid, path, q)
    decreases |value| - i
  {
    hide Subnode, Settles, CanStep;
    var all := Glued(value, path, q);
    FailureStays(dt, Resolve(dt, o, value, i));
    if i == |value| {
      ResolveShift(dt, value, path, q, o, 0);
    } else if value[i] == SLASH {
      ResolveGlued(dt, value, path, q, o, i + 1);
    } else {
      var e := SlashOrEnd(value, i + 1);
      SlashOrEndIs(all, i + 1, e);
      assert all[i..e] == value[i..e];
      var next := Subnode(dt, o, Named(Part(value, i, e)));
      if next >= 0 {
        ResolveGlued(dt, value, path, q, next, e);
      } else {
        ResolveFailed(dt, next, path, q);
      }
    }
  }

  lemma {:induction false} ResolveFailed(dt: Block, o: cint, path: CName, i: nat)
    requires o < 0 && i <= |path|
    ensures CanStep(dt, o) && Resolve(dt, o, path, i) == o
    decreases |path| - i
  {
    FailureStays(dt, o);
    if i < |path| && path[i] == SLASH {
      ResolveFailed(dt, o, path, i + 1);
    }
  }

  lemma {:induction false} ResolveShift(dt: Block, value: CName, path: CName, q: nat, o: cint, i: nat)
    requires CanStep(dt, o) && q + i <= |path|
    ensures Resolve(dt, o, Glued(value, path, q), |value| + i) == Resolve(dt, o, path, q + i)
    decreases |path| - i
  {
    hide Subnode, Settles, CanStep;
    var all := Glued(value, path, q);
    assert forall j :: q <= j < |path| ==> all[|value| + j - q] == path[j];
    if q + i < |path| {
      assert all[|value| + i] == path[q + i];
      if path[q + i] == SLASH {
        ResolveShift(dt, value, path, q, o, i + 1);
      } else {
        var e := SlashOrEnd(path, q + i + 1);
        SlashOrEndIs(all, |value| + i + 1, |value| + e - q);
        assert all[|value| + i..|value| + e - q] == path[q + i..e];
        var next := Subnode(dt, o, Named(Part(path, q + i, e)));
        if next >= 0 {
          ResolveShift(dt, value, path, q, next, e - q);
        }
      }
    }
  }

  // ---- When fdt_path_offset returns at all.

  ghost predicate AllReadable(dt: Block, strings: Block)
    requires CanStep(dt, 0)
  {
    forall name: seq<byte> :: Readable(dt, strings, name)
  }

  const ALIASES_NODE: Key := Named(ALIASES[1..])

  /** On an encoded tree an alias is the first own property of that name of the first child of the root that answers to
      "aliases". */
  lemma AliasOnTree(dt: Block, strings: Block, t: Tree, name: seq<byte>)
    requires Encodes(dt, t)
    ensures CanStep(dt, 0) && Readable(dt, strings, name)
    ensures AliasAt(dt, strings, name) ==
      if FirstMatch(t.body, HeadCells(t.name), ALIASES_NODE) < 0 then -1
      else
        var e := MatchPlace(t.body, HeadCells(t.name), ALIASES_NODE);
        var q := OwnProp(e.node.body, BodyCell(e), strings, name);
        if q < 0 then -1 else 4 * q + 12
  {
    hide PlaceAt, CanLookUp, Encodes, Resolve, PropertyOffset;
    var root := Place(0, t, Done);
    TrailPlaceAt(dt, t, [root]);
    var names: seq<Name> := [ALIASES[1..]];
    assert Slashed(names[1..]) == [] && ALIASES[0..] == Slashed(names);
    ResolveDescends(dt, root, ALIASES, 0, names);
    if FirstMatch(t.body, BodyCell(root), ALIASES_NODE) >= 0 {
      var e := MatchPlace(t.body, BodyCell(root), ALIASES_NODE);
      ChildPlaceAt(dt, root, e);
      PropertyLookup(dt, strings, e, name);
    }
  }

  /** In the block of a tree every alias can be looked for. */
  lemma TreeReadable(dt: Block, strings: Block, t: Tree)
    requires Encodes(dt, t)
    ensures CanStep(dt, 0) && AllReadable(dt, strings)
  {
    hide Encodes, Readable;
    forall name: seq<byte>
      ensures CanStep(dt, 0) && Readable(dt, strings, name)
    {
      AliasOnTree(dt, strings, t, name);
    }
    AliasOnTree(dt, strings, t, []);
  }

  /** The i-th path of the chain. */
  ghost function ChainAt(dt: Block, strings: Block, path: CName, i: nat): Option<CName>
    requires CanStep(dt, 0) && AllReadable(dt, strings)
  {
    if i == 0 then Some(path)
    else
      match ChainAt(dt, strings, path, i - 1)
      case None => None
      case Some(before) => Next(dt, strings, before)
  }

  lemma {:induction false} ChainFront(dt: Block, strings: Block, path: CName, i: nat)
    requires CanStep(dt, 0) && AllReadable(dt, strings)
    ensures ChainAt(dt, strings, path, i + 1) ==
      match Next(dt, strings, path)
      case None => None
      case Some(value) => ChainAt(dt, strings, value, i)
    decreases i
  {
    hide Next;
    if i > 0 {
      ChainFront(dt, strings, path, i - 1);
    }
  }

  lemma {:induction false} EndsIs(dt: Block, strings: Block, path: CName, n: nat)
    requires CanStep(dt, 0) && AllReadable(dt, strings)
    ensures Ends(dt, strings, path, n) <==> ChainAt(dt, strings, path, n + 1) == None
    decreases n
  {
    hide Readable, AliasAt;
    assert Readable(dt, strings, First(path));
    ChainFront(dt, strings, path, n);
    if n > 0 && Next(dt, strings, path).Some? {
      EndsIs(dt, strings, Next(dt, strings, path).value, n - 1);
    }
  }

  /** The chain comes back to a path it has been through. */
  ghost predicate Cycles(dt: Block, strings: Block, path: CName)
    requires CanStep(dt, 0) && AllReadable(dt, strings)
  {
    exists i: nat, j: nat :: i < j && ChainAt(dt, strings, path, i).Some? &&
      ChainAt(dt, strings, path, i) == ChainAt(dt, strings, path, j)
  }

  /** fdt_path_offset returns exactly when the chain of aliases has no cycle. */
  lemma EndsUnlessCycles(dt: Block, strings: Block, path: CName)
    requires CanStep(dt, 0) && AllReadable(dt, strings)
    ensures (exists n: nat :: Ends(dt, strings, path, n)) <==> !Cycles(dt, strings, path)
  {
    hide Ends, ChainAt;
    if n: nat :| Ends(dt, strings, path, n) {
      EndsIs(dt, strings, path, n);
      if Cycles(dt, strings, path) {
        var i: nat, j: nat :| i < j && ChainAt(dt, strings, path, i).Some? &&
          ChainAt(dt, strings, path, i) == ChainAt(dt, strings, path, j);
        CycleGoesOn(dt, strings, path, i, j, n + 1);
      }
    } else {
      var n := |dt| + 1;
      EndsIs(dt, strings, path, n);
      assert ChainAt(dt, strings, path, n + 1).Some?;
      ChainPrefix(dt, strings, path, n + 1);
      var at := ChainPlaces(dt, strings, path, n + 1);
      var i, j := Pigeonhole(at, |dt| + 1);
      assert ChainAt(dt, strings, path, i + 1) == ChainAt(dt, strings, path, j + 1);
    }
  }

  lemma {:induction false} ChainPrefix(dt: Block, strings: Block, path: CName, n: nat)
    requires CanStep(dt, 0) && AllReadable(dt, strings) && ChainAt(dt, strings, path, n).Some?
    ensures forall i: nat :: i <= n ==> ChainAt(dt, strings, path, i).Some?
    decreases n
  {
    hide Next;
    if n > 0 {
      ChainPrefix(dt, strings, path, n - 1);
    }
  }

  /** Once it has come back to a path, a chain never ends. */
  lemma {:induction false} CycleGoesOn(dt: Block, strings: Block, path: CName, i: nat, j: nat, m: nat)
    requires CanStep(dt, 0) && AllReadable(dt, strings) && i < j
    requires ChainAt(dt, strings, path, i).Some? && ChainAt(dt, strings, path, i) == ChainAt(dt, strings, path, j)
    ensures ChainAt(dt, strings, path, m).Some?
    decreases m
  {
    hide ChainAt;
    ChainPrefix(dt, strings, path, j);
    if m > j {
      Together(dt, strings, path, i, j, m - j);
      CycleGoesOn(dt, strings, path, i, j, i + (m - j));
    }
  }

  lemma {:induction false} Together(dt: Block, strings: Block, path: CName, i: nat, j: nat, k: nat)
    requires CanStep(dt, 0) && AllReadable(dt, strings)
    requires ChainAt(dt, strings, path, i) == ChainAt(dt, strings, path, j)
    ensures ChainAt(dt, strings, path, i + k) == ChainAt(dt, strings, path, j + k)
    decreases k
  {
    hide Next;
    if k > 0 {
      Together(dt, strings, path, i, j, k - 1);
    }
  }

  /** Where in the block the paths of a chain stand, after the first. */
  lemma {:induction false} ChainPlaces(dt: Block, strings: Block, path: CName, n: nat) returns (at: seq<nat>)
    requires CanStep(dt, 0) && AllReadable(dt, strings)
    requires forall i: nat :: i <= n ==> ChainAt(dt, strings, path, i).Some?
    ensures |at| == n
    ensures forall i :: 0 <= i < n ==>
      at[i] <= |dt| && Closed(dt, at[i]) && ChainAt(dt, strings, path, i + 1) == Some(CString(dt, at[i]))
    decreases n
  {
    hide AliasAt, Readable, CString;
    at := [];
    if n > 0 {
      at := ChainPlaces(dt, strings, path, n - 1);
      var before := ChainAt(dt, strings, path, n - 1).value;
      assert ChainAt(dt, strings, path, n).Some?;
      assert Readable(dt, strings, First(before));
      at := at + [AliasAt(dt, strings, First(before))];
    }
  }

  /** More numbers than values: two are equal. */
  lemma {:induction false} Pigeonhole(s: seq<nat>, m: nat) returns (i: nat, j: nat)
    requires |s| > m && forall k :: 0 <= k < |s| ==> s[k] < m
    ensures i < j < |s| && s[i] == s[j]
    decreases m
  {
    if k :| 0 <= k < |s| && s[k] == m - 1 {
      var t := s[..k] + s[k + 1..];
      if h :| 0 <= h < |t| && t[h] == m - 1 {
        var g := if h < k then h else h + 1;
        assert s[g] == t[h];
        i, j := if g < k then g else k, if g < k then k else g;
      } else {
        i, j := Pigeonhole(t, m - 1);
        assert t[i] == s[if i < k then i else i + 1] && t[j] == s[if j < k then j else j + 1];
        i, j := if i < k then i else i + 1, if j < k then j else j + 1;
      }
    } else {
      assert s[0] < m;
      i, j := Pigeonhole(s, m - 1);
    }
  }

  /** A tree with the alias a = "a", and the strings block with its name. */
  const NAMED_A: Block := [97, 0]
  const TO_ITSELF: CName := [97]
  const ALIASES_A: Tree := Node(ALIASES[1..], Prop(0, NAMED_A, Done))
  const SELF_ALIASED: Tree := Node([], Sub(ALIASES_A, Done))

  lemma SelfCells()
    ensures HeadCells([]) == 2 && HeadCells(ALIASES_A.name) == 3 && PropCells(NAMED_A) == 4
    ensures Cells(ALIASES_A) == 8 && Cells(SELF_ALIASED) == 11 && NulFree(ALIASES_A) && NulFree(SELF_ALIASED)
  {
    assert BodyCells(Done) == 0 && NulFreeBody(Done);
    assert BodyCells(ALIASES_A.body) == 4 && NulFreeBody(ALIASES_A.body);
    assert BodyCells(SELF_ALIASED.body) == 8 && NulFreeBody(SELF_ALIASED.body);
  }

  /** The path "a" makes fdt_path_offset call itself for ever. */
  lemma SelfAlias()
    ensures var dt: seq<byte> := Encode(SELF_ALIASED) + Bytes32(FDT_END);
      |dt| < 0x4000_0000 && Encodes(dt, SELF_ALIASED) && CanStep(dt, 0) && AllReadable(dt, NAMED_A) &&
      Cycles(dt, NAMED_A, TO_ITSELF)
  {
    hide Encodes, Encode, CanStep, Readable;
    SelfCells();
    EncodeEncodes(SELF_ALIASED);
    var dt: Block := Encode(SELF_ALIASED) + Bytes32(FDT_END);
    TreeReadable(dt, NAMED_A, SELF_ALIASED);
    SelfNext(dt);
    assert ChainAt(dt, NAMED_A, TO_ITSELF, 0) == ChainAt(dt, NAMED_A, TO_ITSELF, 1);
  }

  lemma SelfNext(dt: Block)
    requires Encodes(dt, SELF_ALIASED) && CanStep(dt, 0) && AllReadable(dt, NAMED_A)
    ensures Next(dt, NAMED_A, TO_ITSELF) == Some(TO_ITSELF)
  {
    hide Encodes, CanStep, Readable, AliasAt, AllReadable;
    SelfCells();
    var e := Place(2, ALIASES_A, Done);
    assert BodyCell(e) == 5;
    assert First(TO_ITSELF) == TO_ITSELF;
    assert NAMED_A[0..1] == TO_ITSELF && Spells(NAMED_A, 0, TO_ITSELF);
    AliasOnTree(dt, NAMED_A, SELF_ALIASED, [97]);
    assert AliasAt(dt, NAMED_A, TO_ITSELF) == 32;
    SelfBytes(dt);
  }

  lemma SelfBytes(dt: Block)
    requires Encodes(dt, SELF_ALIASED)
    ensures Closed(dt, 32) && CString(dt, 32) == TO_ITSELF
  {
    hide Be32;
    SelfCells();
    assert BodyAt(dt, 2, Sub(ALIASES_A, Done));
    assert TreeAt(dt, 2, ALIASES_A);
    assert BodyAt(dt, 5, Prop(0, NAMED_A, Done));
    assert PropAt(dt, 5, 0, NAMED_A);
    assert dt[32..34] == NAMED_A;
    assert dt[32] == dt[32..34][0] && dt[33] == dt[32..34][1];
  }

  /** A name that is no alias is a bad path. */
  lemma NoSuchAlias(dt: Block, n: nat)
    requires Encodes(dt, SELF_ALIASED)
    ensures CanStep(dt, 0) && Ends(dt, NAMED_A, [98], n) && Expanded(dt, NAMED_A, [98], n) == NoAlias
  {
    hide Encodes, CanStep, Readable, AliasAt;
    SelfCells();
    var e := Place(2, ALIASES_A, Done);
    assert BodyCell(e) == 5;
    var b: CName := [98];
    assert First(b) == b && !Spells(NAMED_A, 0, b);
    AliasOnTree(dt, NAMED_A, SELF_ALIASED, b);
    assert AliasAt(dt, NAMED_A, b) == -1;
  }

  /** A value without a NUL in the rest of the block runs out of it. */
  lemma RunsOut(dt: Block, strings: Block, path: CName, n: nat)
    requires CanStep(dt, 0) && !Absolute(path) && Readable(dt, strings, First(path))
    requires var p := AliasAt(dt, strings, First(path)); p >= 0 && forall i :: p <= i < |dt| ==> dt[i] != NUL
    ensures Ends(dt, strings, path, n) && Expanded(dt, strings, path, n) == Outside
  {
    hide AliasAt, Readable, CanStep;
  }

  /** But in the block of a tree every value ends: at the latest with the first byte of the end tag. */
  lemma {:induction false} NeverOutside(dt: Block, strings: Block, t: Tree, path: CName, n: nat)
    requires Encodes(dt, t) && CanStep(dt, 0) && Ends(dt, strings, path, n)
    ensures !Expanded(dt, strings, path, n).Outside?
    decreases n
  {
    hide Encodes, Readable, AliasAt, CanStep, FirstMatch, OwnProp, MatchPlace;
    if !Absolute(path) {
      EndsMeans(dt, strings, path, n);
      AliasOnTree(dt, strings, t, First(path));
      var p := AliasAt(dt, strings, First(path));
      if p >= 0 {
        AliasInside(dt, strings, t, First(path));
        EndTagCloses(dt, t, p);
        NeverOutside(dt, strings, t, CString(dt, p), n - 1);
      }
    }
  }

  lemma AliasInside(dt: Block, strings: Block, t: Tree, name: seq<byte>)
    requires Encodes(dt, t) && CanStep(dt, 0) && Readable(dt, strings, name) && AliasAt(dt, strings, name) >= 0
    ensures AliasAt(dt, strings, name) <= 4 * Cells(t)
  {
    hide Encodes, Readable, AliasAt, CanStep, OwnProp, FirstMatch;
    AliasOnTree(dt, strings, t, name);
    var e := MatchPlace(t.body, HeadCells(t.name), ALIASES_NODE);
    var q := OwnProp(e.node.body, BodyCell(e), strings, name);
    OwnPropRoom(e.node.body, BodyCell(e), strings, name);
    SubCells(t.body, HeadCells(t.name), e);
  }

  /** A property and its header end inside its node. */
  lemma {:induction false} OwnPropRoom(b: Body, c: nat, strings: Block, name: Name)
    requires OwnProp(b, c, strings, name) >= 0
    ensures OwnProp(b, c, strings, name) + 3 <= c + BodyCells(b)
    decreases b
  {
    hide Spells;
    match b
    case Nop(rest) => OwnPropRoom(rest, c + 1, strings, name);
    case Prop(n, d, rest) => if !Spells(strings, n, name) { OwnPropRoom(rest, c + PropCells(d), strings, name); }
  }

  lemma EndTagCloses(dt: Block, t: Tree, p: nat)
    requires Encodes(dt, t) && p <= 4 * Cells(t)
    ensures Closed(dt, p)
  {
    var o := 4 * Cells(t);
    assert Be32(dt, o) == FDT_END;
    assert dt[o] == NUL;
  }

  /** The value of an alias: on an encoded tree, the own property of that name of the aliases node. */
  predicate AliasIs(t: Tree, strings: Block, name: seq<byte>, value: seq<byte>) {
    FirstMatch(t.body, HeadCells(t.name), ALIASES_NODE) >= 0 &&
    var e := MatchPlace(t.body, HeadCells(t.name), ALIASES_NODE);
    var q := OwnProp(e.node.body, BodyCell(e), strings, name);
    q >= 0 && HasPropData(e.node.body, BodyCell(e), q, value)
  }

  /** An alias whose value is the path of a node leads to that node, exactly when nothing on the way is shadowed. */
  lemma AliasLeads(dt: Block, strings: Block, t: Tree, tr: Trail, name: CName)
    requires Encodes(dt, t) && IsTrail(t, tr) && Spellable(Names(tr)) && SLASH !in name
    requires AliasIs(t, strings, name, PathString(Names(tr)) + [NUL])
    ensures CanStep(dt, 0) && Ends(dt, strings, name, 1) && NUL !in PathString(Names(tr))
    ensures var e := Expanded(dt, strings, name, 1);
      e == Full(PathString(Names(tr))) &&
      (Resolve(dt, 0, e.path, 0) == 4 * Here(tr).cell <==>
       forall i :: 0 <= i < |tr| - 1 ==> Unshadowed(tr[i], tr[i + 1]))
  {
    hide Encodes, CanStep, Readable, AliasAt, Resolve, PathString, Names, Spellable, IsTrail, Unshadowed, Settles;
    hide OwnProp, HasPropData, FirstMatch;
    var text := PathString(Names(tr));
    PathRoundTrip(dt, t, tr);
    AliasOnTree(dt, strings, t, name);
    var e := MatchPlace(t.body, HeadCells(t.name), ALIASES_NODE);
    var q := OwnProp(e.node.body, BodyCell(e), strings, name);
    AliasesPlace(dt, t, e);
    OwnPropBytes(dt, strings, e, name, text + [NUL]);
    WholeString(dt, 4 * q + 12, text);
    NoSlash(name);
    assert Glued(text, name, |name|) == text;
  }

  lemma AliasesPlace(dt: Block, t: Tree, e: Place)
    requires Encodes(dt, t) && FirstMatch(t.body, HeadCells(t.name), ALIASES_NODE) >= 0
    requires e == MatchPlace(t.body, HeadCells(t.name), ALIASES_NODE)
    ensures PlaceAt(dt, e)
  {
    hide Encodes, PlaceAt, FirstMatch;
    var root := Place(0, t, Done);
    TrailPlaceAt(dt, t, [root]);
    ChildPlaceAt(dt, root, e);
  }

  lemma NoSlash(name: CName)
    requires SLASH !in name
    ensures SlashOrEnd(name, 0) == |name| && First(name) == name && !Absolute(name)
  {
  }

  lemma WholeString(dt: Block, o: nat, text: CName)
    requires o + |text| + 1 <= |dt| && dt[o..o + |text| + 1] == text + [NUL]
    ensures Closed(dt, o) && CString(dt, o) == text
  {
    var s := dt[o..o + |text| + 1];
    assert s[|text|] == dt[o + |text|];
    forall k | o <= k < o + |text|
      ensures dt[k] != NUL
    {
      assert dt[k] == s[k - o] == text[k - o];
    }
    assert dt[o..o + |text|] == s[..|text|] == text;
  }

  // ---- There and back.

  /** A node's path from fdt_get_path, looked up by fdt_path_offset: when the buffer has room for it, the node comes
      back exactly when no earlier sibling shadows a node on the way down. */
  method PathAndBack(dt: Block, strings: Block, offset: cint, buf: array<byte>, buflen: int, ghost t: Tree,
      ghost tr: Trail)
    returns (left: bool, err: cint, found: cint)
    requires Encodes(dt, t) && SlashFree(t) && NodeAt(t, offset, tr) && Spellable(Names(tr)) &&
      2 <= buflen <= buf.Length
    modifies buf
    ensures !left && (err == 0 <==> |PathString(Names(tr))| + 1 <= buflen)
    ensures err == 0 ==>
      (found == offset <==> forall i :: 0 <= i < |tr| - 1 ==> Unshadowed(tr[i], tr[i + 1]))
  {
    hide Encodes, SlashFree, Spellable, PathString, Unshadowed, Resolve, Settles, LeavesBuffer, CanStep;
    ghost var text := PathString(Names(tr));
    PathRoundTrip(dt, t, tr);
    CanStepRoot(dt);
    InTree(dt, t, offset, tr);
    left, err := FdtGetPath.FdtGetPath(dt, offset, buf, buflen, t);
    found := -1;
    if err == 0 {
      var n := 0;
      TextInBuffer(buf[..], text);
      while buf[n] != NUL
        invariant n <= |text|
        decreases |text| - n
      {
        n := n + 1;
      }
      assert buf[..n] == text;
      left, found := FdtPathOffset(dt, strings, buf[..n], 0);
    }
  }

  lemma InTree(dt: Block, t: Tree, offset: int, tr: Trail)
    requires Encodes(dt, t) && NodeAt(t, offset, tr)
    ensures offset < 4 * Cells(t)
  {
    var k := TrailIndex(dt, t, tr);
  }

  lemma TextInBuffer(b: seq<byte>, text: seq<byte>)
    requires |text| < |b| && b[..|text| + 1] == text + [NUL] && NUL !in text
    ensures forall i :: 0 <= i <= |text| ==> (b[i] == NUL <==> i == |text|)
  {
    assert forall i :: 0 <= i <= |text| ==> b[i] == b[..|text| + 1][i];
  }
}
