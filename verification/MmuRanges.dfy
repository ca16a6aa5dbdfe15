/** The ROM's list of effective-to-real address ranges, and the translation it denotes
    (mmu_ranges.c:39-86, rom.c:555-615, 1721-1741). */
module MmuRanges {
  import opened Words
  import opened Bits
  import opened CircularList

  /** Effective addresses base..limit map to real addresses from ra on. */
  datatype MmuRange = MmuRange(base: word, limit: word, ra: word, flags: word)

  predicate Covers(m: MmuRange, ea: word) {
    m.base <= ea <= m.limit
  }

  /** The real address an entry gives, in unsigned arithmetic. */
  function Shift(m: MmuRange, ea: word): word {
    Wrap(ea - m.base + m.ra)
  }

  /** The index of the first entry from i on that covers ea, or the length of the list. */
  function FindFrom(s: seq<MmuRange>, ea: word, i: nat): (k: nat)
    requires i <= |s|
    ensures i <= k <= |s| && (forall j :: i <= j < k ==> !Covers(s[j], ea)) && (k < |s| ==> Covers(s[k], ea))
    decreases |s| - i
  {
    if i < |s| && !Covers(s[i], ea) then FindFrom(s, ea, i + 1) else i
  }

  /** rom_fault: the translation a list denotes. */
  function Translate(s: seq<MmuRange>, ea: word): Option<word> {
    var k := FindFrom(s, ea, 0);
    if k == |s| then None else Some(Shift(s[k], ea))
  }

  /** mmu_range_find (mmu_ranges.c:72-86): the entry found, or the head for NULL. */
  method MmuRangeFind(l: List<MmuRange>, ea: word) returns (m: Node<MmuRange>)
    requires l.Valid()
    ensures m == l.At(FindFrom(l.Items(), ea, 0) + 1)
    ensures m == l.head <==> FindFrom(l.Items(), ea, 0) == |l.Items()|
  {
    hide List.Valid, Distinct;
    ghost var s := l.Items();
    m := l.First();
    ghost var i := 0;
    while m != l.head
      invariant i <= |s| && m == l.At(i + 1) && (m == l.head <==> i == |s|)
      invariant FindFrom(s, ea, i) == FindFrom(s, ea, 0)
      decreases |s| - i
    {
      assert m.item == s[i];
      if ea >= m.item.base && ea <= m.item.limit {
        return;
      }
      m := l.Next(m, i + 1);
      i := i + 1;
    }
  }

  /** rom_fault (rom.c:1721-1741). */
  method RomFault(l: List<MmuRange>, gea: word) returns (gra: Option<word>)
    requires l.Valid()
    ensures gra == Translate(l.Items(), gea)
  {
    var m := MmuRangeFind(l, gea);
    if m == l.head {
      return None;
    }
    return Some(Wrap(gea - m.item.base + m.item.ra));
  }

  // ---- Adding a range.

  predicate Inside(r: MmuRange, m: MmuRange) {
    r.base >= m.base && r.limit <= m.limit
  }

  predicate Compatible(r: MmuRange, m: MmuRange) {
    Wrap(r.base - m.base + m.ra) == r.ra && r.flags == m.flags
  }

  predicate Disjoint(r: MmuRange, m: MmuRange) {
    r.limit < m.base || r.base > m.limit
  }

  /** The BUG_ONs of mmu_range_add against one entry. */
  predicate Clash(r: MmuRange, m: MmuRange) {
    if Inside(r, m) then !Compatible(r, m) else !Disjoint(r, m)
  }

  /** Where a new range goes: before the first entry that starts after its limit. */
  function AddPlace(s: seq<MmuRange>, limit: word, i: nat): (k: nat)
    requires i <= |s|
    ensures i <= k <= |s| && (forall j :: i <= j < k ==> s[j].base <= limit) && (k < |s| ==> s[k].base > limit)
    decreases |s| - i
  {
    if i < |s| && s[i].base <= limit then AddPlace(s, limit, i + 1) else i
  }

  /** mmu_range_add stops on an empty or one-address range, or on a clash with an entry before its place. */
  predicate AddStops(s: seq<MmuRange>, r: MmuRange) {
    r.base >= r.limit || exists i :: 0 <= i < AddPlace(s, r.limit, 0) && Clash(r, s[i])
  }

  function Added(s: seq<MmuRange>, r: MmuRange): seq<MmuRange> {
    var k := AddPlace(s, r.limit, 0);
    s[..k] + [r] + s[k..]
  }

  lemma ClashIs(r: MmuRange, m: MmuRange)
    ensures Clash(r, m) <==>
      if r.base >= m.base && r.limit <= m.limit then !Compatible(r, m) else r.limit >= m.base && r.base <= m.limit
    ensures m.base > r.limit && r.base <= r.limit ==> !Clash(r, m)
  {
  }

  lemma AddPlaceStep(s: seq<MmuRange>, limit: word, i: nat)
    requires i < |s|
    ensures AddPlace(s, limit, i) == if s[i].base > limit then i else AddPlace(s, limit, i + 1)
  {
  }

  /** The loop of mmu_range_add: the entry to insert before (or the head), unless a BUG_ON stops the run. */
  method SeekPlace(l: List<MmuRange>, r: MmuRange) returns (stopped: bool, pos: Node<MmuRange>)
    requires l.Valid() && r.base < r.limit
    ensures stopped <==> AddStops(l.Items(), r)
    ensures !stopped ==> pos == l.At(AddPlace(l.Items(), r.limit, 0) + 1)
  {
    hide List.Valid, Distinct, Clash, Compatible, AddPlace;
    ghost var s := l.Items();
    pos := l.First();
    ghost var i := 0;
    while pos != l.head
      invariant i <= |s| && pos == l.At(i + 1) && (pos == l.head <==> i == |s|)
      invariant AddPlace(s, r.limit, i) == AddPlace(s, r.limit, 0) >= i
      invariant forall j :: 0 <= j < i ==> !Clash(r, s[j])
      decreases |s| - i
    {
      var m := pos.item;
      assert m == s[i];
      ClashIs(r, m);
      AddPlaceStep(s, r.limit, i);
      if r.base >= m.base && r.limit <= m.limit {
        if !Compatible(r, m) {
          return true, pos;
        }
      } else if r.limit >= m.base && r.base <= m.limit {
        return true, pos;
      }
      if m.base > r.limit {
        return false, pos;
      }
      pos := l.Next(pos, i + 1);
      i := i + 1;
    }
    return false, pos;
  }

  /** mmu_range_add (mmu_ranges.c:39-70); `stopped` is one of its BUG_ONs. */
  method MmuRangeAdd(l: List<MmuRange>, base: word, limit: word, ra: word, flags: word) returns (stopped: bool)
    requires l.Valid()
    modifies l, l.ring
    ensures stopped <==> AddStops(old(l.Items()), MmuRange(base, limit, ra, flags))
    ensures !stopped ==> l.Valid() && l.Items() == Added(old(l.Items()), MmuRange(base, limit, ra, flags))
    ensures !stopped ==> forall j :: 0 <= j < |l.ring| ==> l.ring[j] in old(l.ring) || fresh(l.ring[j])
  {
    var r := new Node(MmuRange(base, limit, ra, flags));
    if base >= limit {
      return true;
    }
    var at;
    stopped, at := SeekPlace(l, r.item);
    if !stopped {
      l.AddTail(r, at, AddPlace(l.Items(), limit, 0) + 1);
    }
  }

  /** Some address that both cover, and whether they send every such address to the same place. */
  predicate Overlap(r: MmuRange, m: MmuRange) {
    exists ea: word :: Covers(r, ea) && Covers(m, ea)
  }

  predicate Agree(r: MmuRange, m: MmuRange) {
    forall ea: word :: Covers(r, ea) && Covers(m, ea) ==> Wrap(r.ra + (ea - r.base)) == Wrap(m.ra + (ea - m.base))
  }

  /** A new range clashes with an entry exactly when some address is covered by both, unless the entry covers all of it,
      agrees on it and has the same flags. */
  lemma ClashExactly(r: MmuRange, m: MmuRange)
    requires r.base <= r.limit && m.base <= m.limit
    ensures Clash(r, m) <==>
      Overlap(r, m) &&
      !((forall ea: word :: Covers(r, ea) ==> Covers(m, ea)) && Agree(r, m) && r.flags == m.flags)
  {
    hide Wrap;
    assert Covers(r, r.base) && Covers(r, r.limit) && Covers(m, m.base);
    WrapNoneAt(r.ra);
    if Inside(r, m) {
      assert Overlap(r, m);
      ShiftBase(r, m);
      if Compatible(r, m) {
        forall ea: word | Covers(r, ea) && Covers(m, ea)
          ensures Wrap(r.ra + (ea - r.base)) == Wrap(m.ra + (ea - m.base))
        {
          WrapAdd(r.base - m.base + m.ra, ea - r.base);
        }
      }
    } else if !Disjoint(r, m) {
      assert Covers(r, Max(r.base, m.base)) && Covers(m, Max(r.base, m.base));
    }
  }

  lemma WrapNoneAt(x: word)
    ensures Wrap(x) == x
  {
  }

  lemma ShiftBase(r: MmuRange, m: MmuRange)
    ensures r.ra + (r.base - r.base) == r.ra && r.base - m.base + m.ra == m.ra + (r.base - m.base)
  {
  }

  /** mmu_range_add refuses exactly the ranges of at most one address and those that clash with an entry. */
  lemma RefusedExactly(s: seq<MmuRange>, r: MmuRange)
    requires WellNested(s)
    ensures AddStops(s, r) <==> r.base >= r.limit || exists i :: 0 <= i < |s| && Clash(r, s[i])
  {
    hide WellNested, Clash;
    if !AddStops(s, r) {
      forall i | 0 <= i < |s|
        ensures !Clash(r, s[i])
      {
        EarlyReturnSafe(s, r, i);
      }
    }
  }

  // ---- The list denotes one partial function.

  /** Ordered by base; an entry that overlaps an earlier one lies inside it and agrees with it. */
  predicate WellNested(s: seq<MmuRange>) {
    (forall i :: 0 <= i < |s| ==> s[i].base < s[i].limit) &&
    (forall i, j :: 0 <= i < j < |s| ==> s[i].base <= s[j].base && !Clash(s[j], s[i]))
  }

  /** Whatever entry covers an address gives the same translation. */
  lemma TranslateAnyEntry(s: seq<MmuRange>, ea: word, i: nat)
    requires WellNested(s) && i < |s| && Covers(s[i], ea)
    ensures Translate(s, ea) == Some(Shift(s[i], ea))
  {
    var k := FindFrom(s, ea, 0);
    if k < i {
      assert !Clash(s[i], s[k]);
      ShiftInside(s[i], s[k], ea);
    }
  }

  lemma ShiftInside(r: MmuRange, m: MmuRange, ea: word)
    requires Compatible(r, m)
    ensures Shift(r, ea) == Shift(m, ea)
  {
    WrapAdd(r.base - m.base + m.ra, ea - r.base);
  }

  lemma WrapAdd(a: int, b: int)
    ensures Wrap(Wrap(a) + b) == Wrap(a + b)
  {
  }

  /** The loop may stop early: an accepted range clashes with no entry at all, before or after its place. */
  lemma EarlyReturnSafe(s: seq<MmuRange>, r: MmuRange, i: nat)
    requires WellNested(s) && !AddStops(s, r) && i < |s|
    ensures !Clash(r, s[i])
    ensures i >= AddPlace(s, r.limit, 0) ==> r.limit < s[i].base
  {
    var k := AddPlace(s, r.limit, 0);
    if i > k {
      assert s[k].base <= s[i].base;
    }
  }

  lemma RightWay(s: seq<MmuRange>, r: MmuRange)
    requires !AddStops(s, r)
    ensures r.base < r.limit
  {
  }

  lemma AddedNested(s: seq<MmuRange>, r: MmuRange)
    requires WellNested(s) && !AddStops(s, r)
    ensures WellNested(Added(s, r))
  {
    hide AddStops, Clash;
    var k, u := AddPlace(s, r.limit, 0), Added(s, r);
    RightWay(s, r);
    forall i, j | 0 <= i < j < |u|
      ensures u[i].base <= u[j].base && !Clash(u[j], u[i])
    {
      if j == k {
        EarlyReturnSafe(s, r, i);
        ClashIs(r, s[i]);
      } else if i == k {
        EarlyReturnSafe(s, r, j - 1);
        ClashIs(s[j - 1], r);
      } else {
        assert u[i] == s[if i < k then i else i - 1] && u[j] == s[if j < k then j else j - 1];
      }
    }
  }

  /** An accepted range keeps every translation there was, and adds exactly ea -> ra + (ea - base) on its own
      addresses where there was none. */
  lemma AddedTranslates(s: seq<MmuRange>, r: MmuRange, ea: word)
    requires WellNested(s) && !AddStops(s, r)
    ensures WellNested(Added(s, r))
    ensures Translate(Added(s, r), ea) ==
      if Translate(s, ea).Some? then Translate(s, ea)
      else if Covers(r, ea) then Some(Wrap(r.ra + (ea - r.base))) else None
    ensures Covers(r, ea) ==> Translate(Added(s, r), ea) == Some(Wrap(r.ra + (ea - r.base)))
  {
    hide WellNested, Clash, AddStops, FindFrom, Shift;
    var k, u := AddPlace(s, r.limit, 0), Added(s, r);
    AddedNested(s, r);
    var f := FindFrom(s, ea, 0);
    if f < |s| {
      TranslateAnyEntry(u, ea, if f < k then f else f + 1);
    }
    ShiftIs(r, ea);
    if Covers(r, ea) {
      assert u[k] == r;
      TranslateAnyEntry(u, ea, k);
    }
    var g := FindFrom(u, ea, 0);
    if g < |u| && g != k {
      assert Covers(s[if g < k then g else g - 1], ea);
      assert f < |s|;
    }
  }

  lemma ShiftIs(r: MmuRange, ea: word)
    ensures Shift(r, ea) == Wrap(r.ra + (ea - r.base))
  {
  }

  // ---- The client interface's map call.

  /** Whole pages on both sides. */
  predicate PageRanges(s: seq<MmuRange>) {
    forall i :: 0 <= i < |s| ==>
      s[i].base % PAGE_SIZE == 0 && (s[i].limit + 1) % PAGE_SIZE == 0 && s[i].ra % PAGE_SIZE == 0
  }

  /** A BUG_ON stopped the run, the call failed, or it succeeded with this list. */
  datatype MapResult = MapStops | MapFails | MapDone(s: seq<MmuRange>)

  const DEFAULT_MODE: word := 0xFFFF_FFFF
  const VENEER_MODE: word := 0xFFFF_FFFE

  function MapRange(virt: word, phys: word, size: word): MmuRange {
    MmuRange(virt, Wrap(virt + Align(size, PAGE_SIZE) - 1), phys, 0)
  }

  function MapCall(s: seq<MmuRange>, ram: word, mode: word, size: word, virt: word, phys: word): MapResult {
    if mode != DEFAULT_MODE && mode != VENEER_MODE then MapStops
    else if phys == virt then MapDone(s)
    else if phys >= ram then MapFails
    else if phys % PAGE_SIZE != 0 || virt % PAGE_SIZE != 0 then MapStops
    else if AddStops(s, MapRange(virt, phys, size)) then MapStops
    else MapDone(Added(s, MapRange(virt, phys, size)))
  }

  /** rom_mmu_call for "map", from its arguments (rom.c:583-614). */
  method RomMmuCall(l: List<MmuRange>, ram: word, mode: word, size: word, virt: word, phys: word)
    returns (stopped: bool, failed: bool)
    requires l.Valid()
    modifies l, l.ring
    ensures var r := MapCall(old(l.Items()), ram, mode, size, virt, phys);
      stopped == r.MapStops? && (!stopped ==> failed == r.MapFails?) &&
      (!stopped ==> l.Valid() && l.Items() == if failed then old(l.Items()) else r.s)
    ensures !stopped ==> forall j :: 0 <= j < |l.ring| ==> l.ring[j] in old(l.ring) || fresh(l.ring[j])
  {
    hide List.Valid, Align, AddStops, Added;
    var mode' := if mode == VENEER_MODE then DEFAULT_MODE else mode;
    if mode' != DEFAULT_MODE {
      return true, false;
    }
    if phys == virt {
      return false, false;
    }
    if !(phys < ram) {
      return false, true;
    }
    if phys % PAGE_SIZE != 0 || virt % PAGE_SIZE != 0 {
      return true, false;
    }
    stopped := MmuRangeAdd(l, virt, Wrap(virt + Align(size, PAGE_SIZE) - 1), phys, 0);
    failed := false;
  }

  /** The lists the ROM builds: it starts with RAM mapped to itself, and map calls add to it. */
  predicate RomList(s: seq<MmuRange>, ram: word) {
    ram > 0 && WellNested(s) && PageRanges(s) && StartInRam(s, ram) && s != [] && s[0] == MmuRange(0, ram - 1, 0, 0)
  }

  /** Every range starts in RAM. */
  predicate StartInRam(s: seq<MmuRange>, ram: word) {
    forall i :: 0 <= i < |s| ==> s[i].ra < ram
  }

  lemma PageBelow(y: int)
    requires 0 <= y < 2 * TWO32 && y % PAGE_SIZE == 0
    ensures (Wrap(y - 1) + 1) % PAGE_SIZE == 0
  {
    if y == 0 {
      assert Wrap(-1) == TWO32 - 1;
    } else if y > TWO32 {
      assert Wrap(y - 1) == y - 1 - TWO32;
    }
  }

  lemma MapRangeAligned(virt: word, phys: word, size: word)
    requires virt % PAGE_SIZE == 0 && phys % PAGE_SIZE == 0
    ensures var r := MapRange(virt, phys, size);
      r.base % PAGE_SIZE == 0 && (r.limit + 1) % PAGE_SIZE == 0 && r.ra % PAGE_SIZE == 0
  {
    hide Align;
    PageAlign(size);
    PageBelow(virt + (size - size % PAGE_SIZE));
  }

  lemma AddedAligned(s: seq<MmuRange>, r: MmuRange)
    requires PageRanges(s) && r.base % PAGE_SIZE == 0 && (r.limit + 1) % PAGE_SIZE == 0 && r.ra % PAGE_SIZE == 0
    ensures PageRanges(Added(s, r))
  {
    var k, u := AddPlace(s, r.limit, 0), Added(s, r);
    forall i | 0 <= i < |u|
      ensures u[i].base % PAGE_SIZE == 0 && (u[i].limit + 1) % PAGE_SIZE == 0 && u[i].ra % PAGE_SIZE == 0
    {
      assert u[i] == if i < k then s[i] else if i == k then r else s[i - 1];
    }
  }

  lemma AddedStarts(s: seq<MmuRange>, r: MmuRange, ram: word)
    requires StartInRam(s, ram) && r.ra < ram
    ensures StartInRam(Added(s, r), ram)
  {
    var k, u := AddPlace(s, r.limit, 0), Added(s, r);
    forall i | 0 <= i < |u|
      ensures u[i].ra < ram
    {
      assert u[i] == if i < k then s[i] else if i == k then r else s[i - 1];
    }
  }

  /** Map calls keep the ROM's list and never change a translation it already gives. */
  lemma MapCallKeeps(s: seq<MmuRange>, ram: word, mode: word, size: word, virt: word, phys: word)
    requires RomList(s, ram) && MapCall(s, ram, mode, size, virt, phys).MapDone?
    ensures var u := MapCall(s, ram, mode, size, virt, phys).s;
      RomList(u, ram) && forall ea: word :: Translate(s, ea).Some? ==> Translate(u, ea) == Translate(s, ea)
  {
    hide WellNested, PageRanges, AddStops, Translate, StartInRam;
    if phys != virt {
      var r := MapRange(virt, phys, size);
      AddedNested(s, r);
      MapRangeAligned(virt, phys, size);
      AddedAligned(s, r);
      AddedStarts(s, r, ram);
      forall ea: word | Translate(s, ea).Some?
        ensures Translate(Added(s, r), ea) == Translate(s, ea)
      {
        AddedTranslates(s, r, ea);
      }
    }
  }

  /** RAM addresses always translate to themselves, so mapping one anywhere else stops the run. */
  lemma RamIdentity(s: seq<MmuRange>, ram: word, ea: word)
    requires RomList(s, ram) && ea < ram
    ensures Translate(s, ea) == Some(ea)
  {
    TranslateAnyEntry(s, ea, 0);
  }

  lemma MapOverRamStops(s: seq<MmuRange>, ram: word, mode: word, size: word, virt: word, phys: word)
    requires RomList(s, ram) && virt < ram && phys < ram && phys != virt
    ensures MapCall(s, ram, mode, size, virt, phys).MapStops?
  {
    hide Align;
    var r := MapRange(virt, phys, size);
    if r.base < r.limit {
      assert Clash(r, s[0]);
      assert 0 < AddPlace(s, r.limit, 0);
    }
  }

  predicate Permitted(mode: word) {
    mode == DEFAULT_MODE || mode == VENEER_MODE
  }

  /** How every map call ends: a mode it does not know stops the run, equal addresses change nothing, a real address
      outside RAM is an error, and partial pages or a range that cannot be added stop the run. */
  lemma MapEnds(s: seq<MmuRange>, ram: word, mode: word, size: word, virt: word, phys: word)
    ensures var r := MapCall(s, ram, mode, size, virt, phys);
      (r.MapFails? <==> Permitted(mode) && phys != virt && phys >= ram) &&
      (Permitted(mode) && phys == virt ==> r == MapDone(s)) &&
      (Permitted(mode) && phys != virt && phys < ram ==>
        (r.MapStops? <==>
          phys % PAGE_SIZE != 0 || virt % PAGE_SIZE != 0 ||
          AddStops(s, MmuRange(virt, Wrap(virt + (size - size % PAGE_SIZE) - 1), phys, 0)))) &&
      (!Permitted(mode) ==> r.MapStops?)
  {
    hide Align, AddStops;
    PageAlign(size);
  }

  /** The only modes are -1 and -2. */
  lemma PermittedIs(mode: word)
    ensures Permitted(mode) <==> ToInt(mode) == -1 || ToInt(mode) == -2
  {
  }

  /** Mapping a page outside RAM is an error. */
  lemma MapOutside()
    ensures var ram: word := 0x200_0000;
      MapCall([MmuRange(0, ram - 1, 0, 0)], ram, DEFAULT_MODE, PAGE_SIZE, 0x8000_0000, 0xF000_0000) == MapFails
  {
  }

  /** A map call that succeeds asked for at least one whole page. */
  lemma MapDoneWhole(s: seq<MmuRange>, ram: word, mode: word, size: word, virt: word, phys: word)
    requires RomList(s, ram) && MapCall(s, ram, mode, size, virt, phys).MapDone? && phys != virt
    ensures size >= PAGE_SIZE
  {
    hide Align;
    PageAlign(size);
    var r := MapRange(virt, phys, size);
    var first := s[0];
    assert size < PAGE_SIZE && virt == 0 ==> Clash(r, first);
  }

  /** A successful map call translates the whole pages asked for. A last partial page is left as it was, since the
      size is rounded down; and nothing at all is added when the two addresses are equal. */
  lemma MapCovers(s: seq<MmuRange>, ram: word, mode: word, size: word, virt: word, phys: word, i: word)
    requires RomList(s, ram) && MapCall(s, ram, mode, size, virt, phys).MapDone? && i < size
    ensures var u, ea := MapCall(s, ram, mode, size, virt, phys).s, Wrap(virt + i);
      Translate(u, ea) ==
        if phys != virt && i < size - size % PAGE_SIZE then Some(Wrap(phys + i)) else Translate(s, ea)
  {
    hide WellNested, AddStops, Translate, AddPlace, Added, PageRanges, Align;
    PageAlign(size);
    if phys != virt {
      MapDoneWhole(s, ram, mode, size, virt, phys);
      MapDoneFits(s, ram, mode, size, virt, phys);
      AddedTranslates(s, MapRange(virt, phys, size), Wrap(virt + i));
    }
  }

  /** The whole pages of a successful map call do not wrap around the address space. */
  lemma MapDoneFits(s: seq<MmuRange>, ram: word, mode: word, size: word, virt: word, phys: word)
    requires MapCall(s, ram, mode, size, virt, phys).MapDone? && phys != virt
    ensures virt + (size - size % PAGE_SIZE) <= TWO32
  {
    hide Align;
    PageAlign(size);
  }

  /** Calls that map less than what was asked for: a page and a byte, and an address to itself. */
  lemma MapsLess()
    ensures var ram: word := 2 * PAGE_SIZE;
      var s := [MmuRange(0, ram - 1, 0, 0)];
      RomList(s, ram) && Translate(s, 0x10_1000) == None &&
      (var r := MapCall(s, ram, DEFAULT_MODE, PAGE_SIZE + 1, 0x10_0000, 0);
       r.MapDone? && Translate(r.s, 0x10_0000) == Some(0) && Translate(r.s, 0x10_1000) == None) &&
      MapCall(s, ram, DEFAULT_MODE, PAGE_SIZE, 0x10_1000, 0x10_1000) == MapDone(s)
  {
    hide Align;
    PageAlign(PAGE_SIZE + 1);
    var ram: word := 2 * PAGE_SIZE;
    var s := [MmuRange(0, ram - 1, 0, 0)];
    var m := MapRange(0x10_0000, 0, PAGE_SIZE + 1);
    assert m == MmuRange(0x10_0000, 0x10_0FFF, 0, 0);
    assert !Clash(m, s[0]);
    assert MapCall(s, ram, DEFAULT_MODE, PAGE_SIZE + 1, 0x10_0000, 0).MapDone?;
    MapCovers(s, ram, DEFAULT_MODE, PAGE_SIZE + 1, 0x10_0000, 0, 0);
    MapCovers(s, ram, DEFAULT_MODE, PAGE_SIZE + 1, 0x10_0000, 0, PAGE_SIZE);
  }
}
