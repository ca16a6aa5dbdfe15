/** Lists of free address ranges, edited in place while they are iterated (lib/ranges.c). */
module MemRanges {
  import opened Words
  import opened CircularList

  /** An inclusive range of addresses. */
  datatype Range = Range(base: word, limit: word)

  // ---- What the lists mean.

  ghost predicate Holds(s: seq<Range>, a: int) {
    exists i :: 0 <= i < |s| && s[i].base <= a <= s[i].limit
  }

  /** Non-empty ranges in increasing order without overlap. */
  ghost predicate Sorted(s: seq<Range>) {
    (forall i :: 0 <= i < |s| ==> s[i].base <= s[i].limit) &&
    (forall i, j :: 0 <= i < j < |s| ==> s[i].limit < s[j].base)
  }

  function Cut(r: Range, base: word, limit: word): seq<Range>
    requires base <= limit
  {
    (if r.base < base then [Range(r.base, Min(r.limit, base - 1))] else []) +
    (if r.limit > limit then [Range(Max(r.base, limit + 1), r.limit)] else [])
  }

  /** Every range with the addresses base..limit taken out. */
  function CutAll(s: seq<Range>, base: word, limit: word): seq<Range>
    requires base <= limit
  {
    if s == [] then [] else CutAll(s[..|s| - 1], base, limit) + Cut(s[|s| - 1], base, limit)
  }

  /** Cutting leaves a piece of exactly one address on the left of a range it splits. */
  predicate SplitsOneOff(r: Range, base: word, limit: word) {
    r.base == base - 1 && r.limit > limit
  }

  /** Where a new range goes: before the first range that starts after its limit. */
  function AddPlace(s: seq<Range>, limit: word, i: nat): (k: nat)
    requires i <= |s|
    ensures i <= k <= |s| && (forall j :: i <= j < k ==> s[j].base <= limit) && (k < |s| ==> s[k].base > limit)
    decreases |s| - i
  {
    if i < |s| && s[i].base <= limit then AddPlace(s, limit, i + 1) else i
  }

  predicate Within(r: Range, base: word, limit: word) {
    base >= r.base && limit <= r.limit
  }

  /** The BUG_ONs of range_add: an empty or one-address range, or one already present. */
  predicate AddStops(s: seq<Range>, base: word, limit: word) {
    base >= limit || exists i :: 0 <= i < AddPlace(s, limit, 0) && Within(s[i], base, limit)
  }

  function Added(s: seq<Range>, base: word, limit: word): seq<Range> {
    var k := AddPlace(s, limit, 0);
    s[..k] + [Range(base, limit)] + s[k..]
  }

  /** The loop of range_add: the entry to insert before (or the head), unless a BUG_ON stops the run. */
  method SeekPlace(l: List<Range>, base: word, limit: word) returns (stopped: bool, pos: Node<Range>)
    requires l.Valid() && base < limit
    ensures stopped <==> AddStops(l.Items(), base, limit)
    ensures !stopped ==> pos == l.At(AddPlace(l.Items(), limit, 0) + 1)
  {
    hide List.Valid, Distinct;
    ghost var s := l.Items();
    pos := l.First();
    ghost var i := 0;
    while pos != l.head
      invariant i <= |s| && pos == l.At(i + 1) && (pos == l.head <==> i == |s|)
      invariant AddPlace(s, limit, i) == AddPlace(s, limit, 0) >= i
      invariant forall j :: 0 <= j < i ==> !Within(s[j], base, limit)
      decreases |s| - i
    {
      assert pos.item == s[i];
      if base >= pos.item.base && limit <= pos.item.limit {
        assert Within(s[i], base, limit);
        return true, pos;
      }
      if pos.item.base > limit {
        return false, pos;
      }
      pos := l.Next(pos, i + 1);
      i := i + 1;
    }
    return false, pos;
  }

  /** range_add (lib/ranges.c:46-70); `stopped` is one of its BUG_ONs. */
  method RangeAdd(l: List<Range>, base: word, limit: word) returns (stopped: bool, ghost entry: Node<Range>)
    requires l.Valid()
    modifies l, l.ring
    ensures stopped <==> AddStops(old(l.Items()), base, limit)
    ensures !stopped ==> l.Valid() && l.Items() == Added(old(l.Items()), base, limit)
    ensures fresh(entry)
    ensures !stopped ==>
      var k := AddPlace(old(l.Items()), limit, 0); l.ring == old(l.ring[..k + 1]) + [entry] + old(l.ring[k + 1..])
    ensures forall x: Node<Range> :: x in old(l.ring) ==> x.item == old(x.item)
  {
    var r := new Node(Range(base, limit));
    entry := r;
    if base >= limit {
      return true, r;
    }
    var at;
    stopped, at := SeekPlace(l, base, limit);
    if !stopped {
      l.AddTail(r, at, AddPlace(l.Items(), limit, 0) + 1);
    }
  }

  /** The BUG_ONs of range_remove: an empty or one-address request, or a split that leaves one address. */
  predicate RemoveStops(s: seq<Range>, base: word, limit: word) {
    base >= limit || exists i :: 0 <= i < |s| && SplitsOneOff(s[i], base, limit)
  }

  /** s with the k-th range replaced by what is left of it. */
  function CutOne(s: seq<Range>, k: nat, base: word, limit: word): seq<Range>
    requires k < |s| && base <= limit
  {
    s[..k] + Cut(s[k], base, limit) + s[k + 1..]
  }

  lemma CutOneSorted(s: seq<Range>, k: nat, base: word, limit: word)
    requires Sorted(s) && k < |s| && base <= limit
    ensures Sorted(CutOne(s, k, base, limit))
  {
    hide Cut;
    CutShape(s[k], base, limit);
  }

  /** What is left of a range lies inside it, in order. */
  lemma CutShape(r: Range, base: word, limit: word)
    requires base <= limit && r.base <= r.limit
    ensures var c := Cut(r, base, limit);
      |c| <= 2 && (|c| == 2 ==> c[0].limit < c[1].base) &&
      forall i :: 0 <= i < |c| ==> r.base <= c[i].base <= c[i].limit <= r.limit
  {
  }

  lemma CutIs(s: seq<Range>, k: nat, base: word, limit: word)
    requires Sorted(s) && k < |s| && base < limit
    ensures var r, c, u := s[k], Cut(s[k], base, limit), CutOne(s, k, base, limit);
      if r.base > limit || r.limit < base then c == [r] && u == s
      else if r.base >= base && r.limit <= limit then c == [] && u == s[..k] + s[k + 1..]
      else if r.base >= base then c == [Range(limit + 1, r.limit)]
      else if r.limit <= limit then c == [Range(r.base, base - 1)]
      else |c| == 2
  {
  }

  /** The body of the loop of range_remove for the entry at index k. A split goes through range_add. */
  method CutEntry(l: List<Range>, pos: Node<Range>, ghost k: nat, base: word, limit: word) returns (stopped: bool)
    requires l.Valid() && Sorted(l.Items()) && base < limit && k < |l.Items()| && pos == l.ring[k + 1]
    modifies l, l.ring
    ensures stopped <==> SplitsOneOff(old(l.Items())[k], base, limit)
    ensures !stopped ==> l.Valid() && l.Items() == CutOne(old(l.Items()), k, base, limit)
    ensures !stopped ==>
      l.ring[k + |Cut(old(l.Items())[k], base, limit)| + 1..] == old(l.ring[k + 2..])
    ensures !stopped ==> forall j :: 0 <= j < |l.ring| ==> l.ring[j] in old(l.ring) || fresh(l.ring[j])
  {
    hide List.Valid, Distinct, Sorted, Cut, AddStops, Added, AddPlace;
    ghost var s := l.Items();
    var r := pos.item;
    stopped := false;
    CutIs(s, k, base, limit);
    if r.base > limit || r.limit < base {
    } else if r.base >= base && r.limit <= limit {
      l.Del(pos, k + 1);
    } else if r.base >= base {
      l.SetItem(pos, Range(limit + 1, r.limit), k + 1);
    } else if r.limit <= limit {
      l.SetItem(pos, Range(r.base, base - 1), k + 1);
    } else {
      ghost var entry;
      l.SetItem(pos, Range(limit + 1, r.limit), k + 1);
      SplitPlace(s, k, base, limit);
      stopped, entry := RangeAdd(l, r.base, base - 1);
    }
  }

  /** A split's left piece is added right before its right piece. */
  lemma SplitPlace(s: seq<Range>, k: nat, base: word, limit: word)
    requires Sorted(s) && k < |s| && s[k].base < base < limit < s[k].limit
    ensures var u := s[..k] + [Range(limit + 1, s[k].limit)] + s[k + 1..];
      AddPlace(u, base - 1, 0) == k &&
      (AddStops(u, s[k].base, base - 1) <==> SplitsOneOff(s[k], base, limit)) &&
      Added(u, s[k].base, base - 1) == CutOne(s, k, base, limit)
  {
    var u := s[..k] + [Range(limit + 1, s[k].limit)] + s[k + 1..];
    AddPlaceIs(u, base - 1, 0, k);
  }

  lemma {:induction false} AddPlaceIs(s: seq<Range>, limit: word, i: nat, k: nat)
    requires i <= k < |s| && s[k].base > limit && forall j :: i <= j < k ==> s[j].base <= limit
    ensures AddPlace(s, limit, i) == k
    decreases k - i
  {
    if i < k {
      AddPlaceIs(s, limit, i + 1, k);
    }
  }

  /** range_remove (lib/ranges.c:72-116), iterating with the saved next entry while it edits the list. */
  method RangeRemove(l: List<Range>, base: word, limit: word) returns (stopped: bool)
    requires l.Valid() && Sorted(l.Items())
    modifies l, l.ring
    ensures stopped <==> RemoveStops(old(l.Items()), base, limit)
    ensures !stopped ==> l.Valid() && l.Items() == CutAll(old(l.Items()), base, limit) && Sorted(l.Items())
    ensures !stopped ==> forall j :: 0 <= j < |l.ring| ==> l.ring[j] in old(l.ring) || fresh(l.ring[j])
  {
    hide List.Valid, Distinct, Sorted, Cut, CutOne, CutAll, SplitsOneOff;
    if base >= limit {
      return true;
    }
    ghost var s := l.Items();
    ghost var i: nat, k: nat := 0, 0;
    CutNone(s, base, limit);
    var pos := l.First();
    var n: Node?<Range> := pos;
    if pos != l.head {
      n := l.Next(pos, 1);
    }
    while pos != l.head
      invariant l.Valid() && Sorted(l.Items()) && i <= |s| && |l.Items()| == k + (|s| - i)
      invariant pos == l.At(k + 1) && (pos == l.head <==> i == |s|)
      invariant i < |s| ==> n == l.At(k + 2)
      invariant l.Items()[..k] == CutAll(s[..i], base, limit) && l.Items()[k..] == s[i..]
      invariant forall j :: 0 <= j < i ==> !SplitsOneOff(s[j], base, limit)
      invariant forall j :: 0 <= j < |l.ring| ==> l.ring[j] in old(l.ring) || fresh(l.ring[j])
      decreases |s| - i
    {
      ghost var items := l.Items();
      CutStep(s, i, items, k, base, limit);
      CutOneSorted(items, k, base, limit);
      stopped := CutEntry(l, pos, k, base, limit);
      if stopped {
        return;
      }
      k := k + |Cut(s[i], base, limit)|;
      i := i + 1;
      assert n == l.At(k + 1);
      AtHead(l, k + 1);
      pos := n;
      if pos != l.head {
        n := l.Next(pos, k + 1);
      }
    }
    assert s[..i] == s && l.Items()[..k] == l.Items();
    return false;
  }

  lemma CutNone(s: seq<Range>, base: word, limit: word)
    requires base <= limit
    ensures CutAll(s[..0], base, limit) == []
  {
  }

  lemma AtHead(l: List<Range>, k: nat)
    requires l.Valid() && 0 < k <= |l.ring|
    ensures l.At(k) == l.head <==> k == |l.ring|
  {
  }

  /** Cutting the first of the remaining ranges moves it from the remaining part to the finished part. */
  lemma CutStep(s: seq<Range>, i: nat, items: seq<Range>, k: nat, base: word, limit: word)
    requires base < limit && i < |s| && k < |items| && |items| - k == |s| - i
    requires items[..k] == CutAll(s[..i], base, limit) && items[k..] == s[i..]
    ensures items[k] == s[i]
    ensures var u, m := CutOne(items, k, base, limit), k + |Cut(s[i], base, limit)|;
      |u| == m + (|s| - i - 1) && u[..m] == CutAll(s[..i + 1], base, limit) && u[m..] == s[i + 1..]
  {
    hide Cut;
    assert items[k] == items[k..][0];
    assert s[..i + 1][..i] == s[..i];
    assert items[k + 1..] == items[k..][1..] == s[i..][1..];
  }

  // ---- What cutting means.

  lemma {:induction false} CutAllSorted(s: seq<Range>, base: word, limit: word)
    requires Sorted(s) && base <= limit
    ensures Sorted(CutAll(s, base, limit))
    ensures s != [] ==> forall i :: 0 <= i < |CutAll(s, base, limit)| ==>
      CutAll(s, base, limit)[i].limit <= s[|s| - 1].limit
    decreases |s|
  {
    hide Cut;
    if s != [] {
      var front, last := s[..|s| - 1], s[|s| - 1];
      assert Sorted(front);
      CutAllSorted(front, base, limit);
      CutShape(last, base, limit);
      assert front != [] ==> front[|front| - 1].limit < last.base;
    }
  }

  lemma CutHolds(r: Range, base: word, limit: word, a: int)
    requires base <= limit && r.base <= r.limit
    ensures Holds(Cut(r, base, limit), a) <==> r.base <= a <= r.limit && !(base <= a <= limit)
  {
    var c := Cut(r, base, limit);
    if r.base <= a <= r.limit && a < base {
      assert c[0].base <= a <= c[0].limit;
    }
    if r.base <= a <= r.limit && a > limit {
      assert c[|c| - 1].base <= a <= c[|c| - 1].limit;
    }
  }

  lemma HoldsJoin(s: seq<Range>, u: seq<Range>, a: int)
    ensures Holds(s + u, a) <==> Holds(s, a) || Holds(u, a)
  {
    if Holds(s, a) {
      var i :| 0 <= i < |s| && s[i].base <= a <= s[i].limit;
      assert (s + u)[i] == s[i];
    }
    if Holds(u, a) {
      var i :| 0 <= i < |u| && u[i].base <= a <= u[i].limit;
      assert (s + u)[|s| + i] == u[i];
    }
  }

  /** Cutting is set difference on addresses. */
  lemma {:induction false} CutAllHolds(s: seq<Range>, base: word, limit: word, a: int)
    requires Sorted(s) && base <= limit
    ensures Holds(CutAll(s, base, limit), a) <==> Holds(s, a) && !(base <= a <= limit)
    decreases |s|
  {
    if s != [] {
      var front, last := s[..|s| - 1], s[|s| - 1];
      CutAllHolds(front, base, limit, a);
      CutHolds(last, base, limit, a);
      HoldsJoin(CutAll(front, base, limit), Cut(last, base, limit), a);
      HoldsJoin(front, [last], a);
      assert front + [last] == s;
      assert [last][0] == last;
    }
  }

  /** Adding a range that overlaps no other keeps the list sorted and adds exactly its addresses. */
  lemma AddedHolds(s: seq<Range>, base: word, limit: word, a: int)
    requires Sorted(s) && base < limit
    requires forall b :: base <= b <= limit ==> !Holds(s, b)
    ensures !AddStops(s, base, limit) && Sorted(Added(s, base, limit))
    ensures Holds(Added(s, base, limit), a) <==> Holds(s, a) || base <= a <= limit
  {
    hide Holds, Sorted;
    var k := AddPlace(s, limit, 0);
    var r := Range(base, limit);
    AddedSorted(s, base, limit);
    HoldsJoin(s[..k] + [r], s[k..], a);
    HoldsJoin(s[..k], [r], a);
    HoldsJoin(s[..k], s[k..], a);
    assert s[..k] + s[k..] == s;
    HoldsSingle(r, a);
  }

  lemma HoldsSingle(r: Range, a: int)
    ensures Holds([r], a) <==> r.base <= a <= r.limit
  {
    assert [r][0] == r;
  }

  lemma AddedSorted(s: seq<Range>, base: word, limit: word)
    requires Sorted(s) && base < limit
    requires forall b :: base <= b <= limit ==> !Holds(s, b)
    ensures !AddStops(s, base, limit) && Sorted(Added(s, base, limit))
  {
    forall i | 0 <= i < |s|
      ensures s[i].limit < base || limit < s[i].base
    {
      var b := Max(base, s[i].base);
      assert Holds(s, b) || !(s[i].base <= b <= s[i].limit);
    }
  }

  // ---- What the two operations refuse.

  predicate Contains(r: Range, a: int) {
    r.base <= a <= r.limit
  }

  ghost predicate ContainsAll(r: Range, base: int, limit: int) {
    forall a: int :: base <= a <= limit ==> Contains(r, a)
  }

  /** Adding refuses exactly the ranges of at most one address, and those that one entry holds all of. */
  lemma AddRefused(s: seq<Range>, base: word, limit: word)
    requires Sorted(s)
    ensures AddStops(s, base, limit) <==>
      base >= limit || exists i :: 0 <= i < |s| && ContainsAll(s[i], base, limit)
  {
    hide Sorted, AddPlace, ContainsAll, Within;
    if base < limit {
      forall i | 0 <= i < |s|
        ensures Within(s[i], base, limit) <==> ContainsAll(s[i], base, limit)
        ensures Within(s[i], base, limit) ==> i < AddPlace(s, limit, 0)
      {
        AllContained(s[i], base, limit);
        if Within(s[i], base, limit) {
          EarlyPlace(s, base, limit, i);
        }
      }
    }
  }

  lemma AllContained(r: Range, base: word, limit: word)
    requires base < limit
    ensures Within(r, base, limit) <==> ContainsAll(r, base, limit)
  {
    if ContainsAll(r, base, limit) {
      assert Contains(r, base) && Contains(r, limit);
    }
  }

  lemma EarlyPlace(s: seq<Range>, base: word, limit: word, i: nat)
    requires Sorted(s) && i < |s| && Within(s[i], base, limit) && base < limit
    ensures i < AddPlace(s, limit, 0)
  {
    var k := AddPlace(s, limit, 0);
    if k < |s| {
      LowerFirst(s, i, k);
    }
  }

  lemma LowerFirst(s: seq<Range>, i: nat, k: nat)
    requires Sorted(s) && i < |s| && k < |s| && s[i].base < s[k].base
    ensures i < k
  {
  }

  /** Removing refuses exactly the ranges of at most one address, and to leave a single address of an entry before the
      range when it leaves some after it. */
  lemma RemoveRefused(s: seq<Range>, base: word, limit: word)
    requires Sorted(s)
    ensures RemoveStops(s, base, limit) <==>
      base >= limit ||
      exists i :: 0 <= i < |s| &&
        Contains(s[i], base - 1) && !Contains(s[i], base - 2) && Contains(s[i], limit + 1)
  {
    if base < limit {
      forall i | 0 <= i < |s|
        ensures SplitsOneOff(s[i], base, limit) <==>
          Contains(s[i], base - 1) && !Contains(s[i], base - 2) && Contains(s[i], limit + 1)
      {
      }
    }
  }
}
