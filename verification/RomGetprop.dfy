/** Properties of the device tree stored into guest memory: the client interface's getprop, with the memory node's
    "reg" and "available" made from range lists (rom.c:827-957; lib/ranges.c:5-16). */
module RomGetprop {
  import opened Words
  import opened CircularList
  import opened MmuRanges
  import opened GuestCpu
  import opened GuestMmu
  import opened FlatCopy
  import opened GuestState
  import opened MemRanges
  import opened FdtBlock
  import opened FdtTree
  import opened FdtWalk
  import opened FdtLookup
  import opened FdtGetPath
  import opened FdtProps
  import opened RomDisk
  import opened RomClaim

  function Size(r: Range): word {
    Wrap(r.limit - r.base + 1)
  }

  /** The ranges of a list as a property: base and size of each. */
  function RangeBytes(s: seq<Range>): (b: seq<byte>)
    ensures |b| == 8 * |s|
  {
    if s == [] then []
    else RangeBytes(s[..|s| - 1]) + Bytes32(s[|s| - 1].base) + Bytes32(Size(s[|s| - 1]))
  }

  /** The size of a range is the number of its addresses. */
  lemma SizeIs(r: Range)
    requires r.base <= r.limit && r.limit - r.base < TWO32 - 1
    ensures r.base + Size(r) == r.limit + 1
  {
  }

  /** The i-th cells are the base and the size of the i-th range. */
  lemma {:induction false} RangeCells(s: seq<Range>, i: nat)
    requires i < |s|
    ensures var b := RangeBytes(s);
      b[8 * i..8 * i + 4] == Bytes32(s[i].base) && b[8 * i + 4..8 * i + 8] == Bytes32(Size(s[i]))
    decreases |s|
  {
    hide Bytes32, Size;
    var front, last := s[..|s| - 1], s[|s| - 1];
    if i < |s| - 1 {
      RangeCells(front, i);
      assert front[i] == s[i];
      assert RangeBytes(s)[8 * i..8 * i + 4] == RangeBytes(front)[8 * i..8 * i + 4];
      assert RangeBytes(s)[8 * i + 4..8 * i + 8] == RangeBytes(front)[8 * i + 4..8 * i + 8];
    }
  }

  /** range_count (lib/ranges.c:5-16) */
  method RangeCount(l: List<Range>) returns (c: nat)
    requires l.Valid()
    ensures c == |l.Items()|
  {
    c := 0;
    var pos := l.First();
    while pos != l.head
      invariant c <= |l.Items()| && pos == l.At(c + 1) && (pos == l.head <==> c == |l.Items()|)
      decreases |l.Items()| - c
    {
      pos := l.Next(pos, c + 1);
      c := c + 1;
    }
  }

  /** Bytes stored into guest memory where the caller asked for them, if it did; ok when all of them were. */
  predicate Stored(vm: Vm, was: seq<byte>, now: seq<byte>, dataEa: Option<word>, b: seq<byte>, ok: bool)
    requires CpuOk(vm.cpu) && |was| == vm.ram
  {
    if dataEa.None? then ok && now == was
    else (ok <==> Reach(vm, dataEa.value, |b|) == |b|) && now == WriteThrough(vm, was, dataEa.value, b)
  }

  /** The i-th byte from an address on translates. */
  predicate Translates(vm: Vm, ea: word, i: nat)
    requires CpuOk(vm.cpu)
  {
    Phys(vm, Wrap(ea + i)).Some?
  }

  /** All of the bytes do exactly when the first that does not comes after them. */
  lemma {:induction false} ReachAll(vm: Vm, ea: word, n: nat)
    requires CpuOk(vm.cpu)
    ensures Reach(vm, ea, n) == n <==> forall i: nat :: i < n ==> Translates(vm, ea, i)
    decreases n
  {
    hide Phys, Translates;
    if n > 0 {
      var next := Wrap(ea + 1);
      ReachAll(vm, next, n - 1);
      TranslatesFirst(vm, ea);
      forall i: nat | i < n - 1
        ensures Translates(vm, next, i) == Translates(vm, ea, i + 1)
      {
        TranslatesNext(vm, ea, i);
      }
      if Reach(vm, ea, n) == n {
        forall i: nat | i < n
          ensures Translates(vm, ea, i)
        {
          if i > 0 {
            assert Translates(vm, next, i - 1);
          }
        }
      }
    }
  }

  lemma TranslatesFirst(vm: Vm, ea: word)
    requires CpuOk(vm.cpu)
    ensures Translates(vm, ea, 0) <==> Phys(vm, ea).Some?
  {
    WrapNone(ea);
  }

  lemma TranslatesNext(vm: Vm, ea: word, i: nat)
    requires CpuOk(vm.cpu)
    ensures Translates(vm, Wrap(ea + 1), i) <==> Translates(vm, ea, i + 1)
  {
    hide Phys;
    WrapAdd(ea + 1, i);
  }

  /** A store is reported as done exactly when all of its bytes translate, and then they can be read where it was. */
  lemma StoredMeans(vm: Vm, was: seq<byte>, now: seq<byte>, ea: word, b: seq<byte>, ok: bool)
    requires CpuOk(vm.cpu) && |was| == vm.ram && Stored(vm, was, now, Some(ea), b, ok)
    ensures ok <==> forall i: nat :: i < |b| ==> Translates(vm, ea, i)
    ensures ok && Injective(vm, ea, |b|) ==> |now| == vm.ram && ReadThrough(vm, now, ea, |b|) == b
  {
    hide Reach, WriteThrough, ReadThrough, Injective, Translates, Reals;
    ReachAll(vm, ea, |b|);
    if ok && Injective(vm, ea, |b|) {
      ReadBack(vm, was, ea, b);
    }
  }

  /** Without an address nothing is stored, and that is no failure. */
  lemma StoredNowhere(vm: Vm, was: seq<byte>, now: seq<byte>, b: seq<byte>, ok: bool)
    requires CpuOk(vm.cpu) && |was| == vm.ram && Stored(vm, was, now, None, b, ok)
    ensures ok && now == was
  {
  }

  // ---- Storing one cell after another.

  /** Bytes after the first that does not translate are not stored. */
  lemma {:induction false} WriteStops(vm: Vm, view: seq<byte>, ea: word, a: seq<byte>, b: seq<byte>)
    requires CpuOk(vm.cpu) && |view| == vm.ram && Reach(vm, ea, |a|) < |a|
    ensures WriteThrough(vm, view, ea, a + b) == WriteThrough(vm, view, ea, a)
    ensures Reach(vm, ea, |a| + |b|) == Reach(vm, ea, |a|)
    decreases |a|
  {
    hide Phys;
    ReachSplit(vm, ea, |a|, |b|);
    if Phys(vm, ea).Some? {
      assert (a + b)[0] == a[0] && (a + b)[1..] == a[1..] + b;
      PhysInside(vm, ea);
      WriteStops(vm, view[Phys(vm, ea).value := a[0]], Wrap(ea + 1), a[1..], b);
    }
  }

  /** The BUG_ON of a BAT hit, at the first of n bytes that does not translate. */
  predicate StoreHalts(vm: Vm, ea: word, n: nat)
    requires CpuOk(vm.cpu)
  {
    Reach(vm, ea, n) < n && GuestMmu.Backmap(vm, Wrap(ea + Reach(vm, ea, n)), false).Stops?
  }

  /** Storing more bytes after those already stored. */
  lemma StoreNext(vm: Vm, view: seq<byte>, ea: word, a: seq<byte>, b: seq<byte>)
    requires CpuOk(vm.cpu) && |view| == vm.ram && Reach(vm, ea, |a|) == |a| && b != []
    ensures var d := Wrap(ea + |a|);
      (CopyHalts(vm, d, |b|, 1) <==> StoreHalts(vm, ea, |a| + |b|)) &&
      (Reach(vm, d, |b|) == |b| <==> Reach(vm, ea, |a| + |b|) == |a| + |b|) &&
      WriteThrough(vm, WriteThrough(vm, view, ea, a), d, b) == WriteThrough(vm, view, ea, a + b)
  {
    hide Phys, GuestMmu.Backmap, Reach, WriteThrough, Wrap;
    ReachSplit(vm, ea, |a|, |b|);
    WriteSplit(vm, view, ea, a, b);
    var d := Wrap(ea + |a|);
    WrapAdd(ea + |a|, Reach(vm, d, |b|));
  }

  /** guest_to of one cell, after the bytes already stored. */
  method PutCell(g: Guest, ghost ea: word, ghost stored: seq<byte>, ghost view: seq<byte>, d: word, v: word)
    returns (stopped: bool, ok: bool)
    requires g.Valid() && |view| == g.Abs().ram && Reach(g.Abs(), ea, |stored|) == |stored| && d == Wrap(ea + |stored|)
    requires g.Memory() == WriteThrough(g.Abs(), view, ea, stored)
    modifies g.pmem.mem
    ensures g.Valid() && g.Abs() == old(g.Abs())
    ensures stopped <==> StoreHalts(g.Abs(), ea, |stored| + 4)
    ensures !stopped ==> (ok <==> Reach(g.Abs(), ea, |stored| + 4) == |stored| + 4)
    ensures !stopped ==> g.Memory() == WriteThrough(g.Abs(), view, ea, stored + Bytes32(v))
  {
    hide Guest.Valid, Guest.Abs, Guest.Memory, Guest.Little, Coherent, Reach, WriteThrough, CopyHalts, Bytes32;
    g.AbsOk();
    var b := new byte[4];
    ghost var c := Bytes32(v);
    FillCell(b, v);
    StoreNext(g.Abs(), view, ea, stored, c);
    assert b[..4] == c;
    stopped, ok := PutBytes(g, d, b, 4);
  }

  // ---- "reg" and "available".

  lemma {:induction false} RangeBytesFront(s: seq<Range>, i: nat)
    requires i <= |s|
    ensures RangeBytes(s)[..8 * i] == RangeBytes(s[..i])
    decreases |s|
  {
    if i == |s| {
      assert s[..i] == s && RangeBytes(s)[..8 * i] == RangeBytes(s);
    } else {
      var front := s[..|s| - 1];
      RangeBytesFront(front, i);
      assert front[..i] == s[..i];
      assert RangeBytes(s)[..8 * i] == RangeBytes(front)[..8 * i];
    }
  }

  lemma RangeBytesNext(s: seq<Range>, i: nat)
    requires i < |s|
    ensures var b := RangeBytes(s);
      b[..8 * i] == RangeBytes(s[..i]) && b[..8 * i + 4] == RangeBytes(s[..i]) + Bytes32(s[i].base) &&
      b[..8 * i + 8] == RangeBytes(s[..i]) + Bytes32(s[i].base) + Bytes32(Size(s[i]))
  {
    hide Bytes32;
    RangeBytesFront(s, i);
    RangeBytesFront(s, i + 1);
    assert s[..i + 1][..i] == s[..i];
    var b, c := RangeBytes(s), RangeBytes(s[..i + 1]);
    assert b[..8 * i + 4] == c[..8 * i + 4];
  }

  lemma NoRanges()
    ensures RangeBytes([]) == []
  {
  }

  /** The BUG_ONs of a property made from ranges: no translation where one is needed, or, for "available", a range
      that is not whole pages, if it is come to. */
  predicate RangesHalt(vm: Vm, ea: word, s: seq<Range>, check: bool)
    requires CpuOk(vm.cpu)
  {
    StoreHalts(vm, ea, 8 * |s|) ||
    (check && exists i :: 0 <= i < |s| && 8 * i <= Reach(vm, ea, 8 * |s|) && !WholePages(s[i]))
  }

  /** Storing stops for good at the first cell that is not stored whole. */
  lemma StoreFails(vm: Vm, view: seq<byte>, ea: word, all: seq<byte>, k: nat)
    requires CpuOk(vm.cpu) && |view| == vm.ram && k <= |all| && Reach(vm, ea, k) < k
    ensures Reach(vm, ea, |all|) == Reach(vm, ea, k)
    ensures WriteThrough(vm, view, ea, all) == WriteThrough(vm, view, ea, all[..k])
  {
    WriteStops(vm, view, ea, all[..k], all[k..]);
    assert all[..k] + all[k..] == all;
  }

  lemma HaltsHere(vm: Vm, view: seq<byte>, ea: word, s: seq<Range>, check: bool, i: nat, k: nat)
    requires CpuOk(vm.cpu) && |view| == vm.ram && i < |s| && k <= 8 && Reach(vm, ea, 8 * i) == 8 * i
    requires check ==> forall j :: 0 <= j <= i ==> WholePages(s[j])
    requires Reach(vm, ea, 8 * i + k) < 8 * i + k
    ensures RangesHalt(vm, ea, s, check) <==> StoreHalts(vm, ea, 8 * i + k)
    ensures Reach(vm, ea, 8 * |s|) == Reach(vm, ea, 8 * i + k)
    ensures WriteThrough(vm, view, ea, RangeBytes(s)) == WriteThrough(vm, view, ea, RangeBytes(s)[..8 * i + k])
  {
    hide Phys, GuestMmu.Backmap, WholePages, Reach, WriteThrough;
    StoreFails(vm, view, ea, RangeBytes(s), 8 * i + k);
  }

  /** The length reported. */
  function RangesLength(s: seq<Range>, lenIn: word): nat {
    if lenIn == 0 then 8 * |s| else Min(8 * |s|, lenIn)
  }

  /** Asked for nothing in particular it is the whole length; else it is no more than was asked for. */
  lemma ReportedLength(s: seq<Range>, lenIn: word)
    ensures RangesLength(s, lenIn) <= 8 * |s| && (lenIn == 0 ==> RangesLength(s, lenIn) == 8 * |s|)
    ensures lenIn > 0 ==>
      RangesLength(s, lenIn) <= lenIn && (RangesLength(s, lenIn) == lenIn || RangesLength(s, lenIn) == 8 * |s|)
  {
  }

  /** The branches of rom_getprop_ex for the memory node (rom.c:845-939): all the ranges are stored, whatever the
      length asked for; the length reported is bounded by it. */
  method GetRanges(g: Guest, l: List<Range>, check: bool, lenIn: word, dataEa: Option<word>)
    returns (stopped: bool, ok: bool, lenOut: nat)
    requires g.Valid() && l.Valid() && 8 * |l.Items()| < 0x8000_0000
    modifies g.pmem.mem
    ensures stopped <==> dataEa.Some? && RangesHalt(old(g.Abs()), dataEa.value, l.Items(), check)
    ensures !stopped ==> g.Valid() && g.Abs() == old(g.Abs())
    ensures !stopped ==> lenOut == RangesLength(l.Items(), lenIn)
    ensures !stopped ==> Stored(g.Abs(), old(g.Memory()), g.Memory(), dataEa, RangeBytes(l.Items()), ok)
  {
    hide Guest.Valid, Guest.Abs, Guest.Memory, Guest.Little, Coherent, Phys, Reach, WriteThrough, StoreHalts;
    hide List.Valid, WholePages, Bytes32, RangesHalt, RangeBytes, Wrap, Distinct, CpuOk, Min, List.Items;
    ghost var s, vm, view := l.Items(), g.Abs(), g.Memory();
    g.AbsOk();
    var len := RangeCount(l);
    len := 8 * len;
    lenOut := if lenIn == 0 then len else Min(len, lenIn);
    stopped, ok := false, true;
    if dataEa.None? {
      return;
    }
    ghost var start := dataEa.value;
    NothingDone(vm, view, start, 1, false);
    var ea := dataEa.value;
    var pos := l.First();
    ghost var i := 0;
    assert s[..0] == [] && RangeBytes([]) == [] by { NoRanges(); }
    while pos != l.head
      invariant !stopped && ok && i <= |s| && len == 8 * (|s| - i) && ea == Wrap(start + 8 * i)
      invariant pos == l.At(i + 1) && (pos == l.head <==> i == |s|)
      invariant g.Valid() && g.Abs() == vm && Reach(vm, start, 8 * i) == 8 * i
      invariant g.Memory() == WriteThrough(vm, view, start, RangeBytes(s[..i]))
      invariant check ==> forall j :: 0 <= j < i ==> WholePages(s[j])
      decreases |s| - i
    {
      var b, bs := pos.item.base, Wrap(pos.item.limit - pos.item.base + 1);
      assert pos.item == s[i];
      stopped, ok, ea, len := PutRange(g, start, s, view, i, check, ea, len, b, bs);
      if stopped || !ok {
        return;
      }
      pos := l.Next(pos, i + 1);
      i := i + 1;
    }
    assert s[..i] == s;
    AllStored(vm, start, s, check);
  }

  lemma AllStored(vm: Vm, ea: word, s: seq<Range>, check: bool)
    requires CpuOk(vm.cpu) && Reach(vm, ea, 8 * |s|) == 8 * |s|
    requires check ==> forall j :: 0 <= j < |s| ==> WholePages(s[j])
    ensures !RangesHalt(vm, ea, s, check)
  {
  }

  /** One pass of the loop over the ranges. */
  method PutRange(g: Guest, ghost start: word, ghost s: seq<Range>, ghost view: seq<byte>, ghost i: nat, check: bool,
      ea: word, len: nat, b: word, bs: word)
    returns (stopped: bool, ok: bool, ea': word, len': nat)
    requires g.Valid() && |view| == g.Abs().ram && i < |s| && b == s[i].base && bs == Size(s[i])
    requires ea == Wrap(start + 8 * i) && len >= 8 && Reach(g.Abs(), start, 8 * i) == 8 * i
    requires g.Memory() == WriteThrough(g.Abs(), view, start, RangeBytes(s[..i]))
    requires check ==> forall j :: 0 <= j < i ==> WholePages(s[j])
    modifies g.pmem.mem
    ensures stopped ==> RangesHalt(old(g.Abs()), start, s, check)
    ensures !stopped ==> g.Valid() && g.Abs() == old(g.Abs())
    ensures !stopped && !ok ==>
      !RangesHalt(g.Abs(), start, s, check) && Reach(g.Abs(), start, 8 * |s|) < 8 * |s| &&
      g.Memory() == WriteThrough(g.Abs(), view, start, RangeBytes(s))
    ensures !stopped && ok ==>
      ea' == Wrap(start + 8 * (i + 1)) && len' == len - 8 && Reach(g.Abs(), start, 8 * (i + 1)) == 8 * (i + 1) &&
      (check ==> WholePages(s[i])) && g.Memory() == WriteThrough(g.Abs(), view, start, RangeBytes(s[..i + 1]))
  {
    hide Guest.Valid, Guest.Abs, Guest.Memory, Guest.Little, Coherent, Phys, Reach, WriteThrough, StoreHalts;
    hide Bytes32, Wrap, RangesHalt, RangeBytes;
    ghost var vm := g.Abs();
    g.AbsOk();
    ea', len' := ea, len;
    if check && (b % PAGE_SIZE != 0 || bs % PAGE_SIZE != 0) {
      PartialHalts(vm, start, s, i);
      return true, false, ea', len';
    }
    RangeBytesNext(s, i);
    RangeBytesFront(s, i + 1);
    stopped, ok := PutCell(g, start, RangeBytes(s[..i]), view, ea', b);
    if stopped || !ok {
      CellFails(vm, view, start, s, check, i, 4);
      return;
    }
    WrapAdd(start + 8 * i, 4);
    WrapAdd(start + 8 * i + 4, 4);
    ea', len' := Wrap(ea' + 4), len' - 4;
    stopped, ok := PutCell(g, start, RangeBytes(s[..i]) + Bytes32(b), view, ea', bs);
    if stopped || !ok {
      CellFails(vm, view, start, s, check, i, 8);
      return;
    }
    ea', len' := Wrap(ea' + 4), len' - 4;
  }

  lemma CellFails(vm: Vm, view: seq<byte>, ea: word, s: seq<Range>, check: bool, i: nat, k: nat)
    requires CpuOk(vm.cpu) && |view| == vm.ram && i < |s| && k <= 8 && Reach(vm, ea, 8 * i) == 8 * i
    requires check ==> forall j :: 0 <= j <= i ==> WholePages(s[j])
    requires Reach(vm, ea, 8 * i + k) != 8 * i + k || StoreHalts(vm, ea, 8 * i + k)
    ensures RangesHalt(vm, ea, s, check) <==> StoreHalts(vm, ea, 8 * i + k)
    ensures Reach(vm, ea, 8 * |s|) < 8 * |s|
    ensures WriteThrough(vm, view, ea, RangeBytes(s)) == WriteThrough(vm, view, ea, RangeBytes(s)[..8 * i + k])
  {
    hide Phys, GuestMmu.Backmap, WholePages, Reach, WriteThrough, RangesHalt;
    HaltsHere(vm, view, ea, s, check, i, k);
  }

  lemma PartialHalts(vm: Vm, ea: word, s: seq<Range>, i: nat)
    requires CpuOk(vm.cpu) && i < |s| && Reach(vm, ea, 8 * i) == 8 * i && !WholePages(s[i])
    ensures RangesHalt(vm, ea, s, true)
  {
    ReachSplit(vm, ea, 8 * i, 8 * (|s| - i));
  }

  // ---- Any property.

  const NAME: Name := [110, 97, 109, 101]
  const REG: Name := [114, 101, 103]
  const AVAILABLE: Name := [97, 118, 97, 105, 108, 97, 98, 108, 101]

  lemma PropertyNames()
    ensures NAME == Ascii("name") && REG == Ascii("reg") && AVAILABLE == Ascii("available")
  {
  }

  datatype Property = Missing | Data(bytes: seq<byte>) | Ranges(s: seq<Range>, check: bool)

  /** A property is looked for on the tree, unless it is a node's name or one of the memory node's two lists. */
  predicate OnTree(node: cint, name: Name, memoryNode: cint) {
    name != NAME && !(node == memoryNode && (name == REG || name == AVAILABLE))
  }

  /** Such a property can be looked for, and if it is found its data lies in the block. */
  predicate CanGet(dt: Block, strings: Block, node: cint, name: Name, memoryNode: cint) {
    OnTree(node, name, memoryNode) ==>
      CanLookUp(dt, strings, node, name) &&
      (PropertyOffset(dt, strings, node, name) >= 0 ==>
       Be32(dt, PropertyOffset(dt, strings, node, name) + 4) < STUCK_LENGTH)
  }

  /** What the property of an offset is: the root's name or a node's, the memory node's two lists, or the first of the
      node's own of that name. */
  function PropertyOf(dt: Block, strings: Block, node: cint, name: Name, memoryNode: cint, reg: seq<Range>,
      avail: seq<Range>): Property
    requires CanGet(dt, strings, node, name, memoryNode)
  {
    if name == NAME then
      if node == 0 then Data([SLASH]) else if CheckNodeOffset(dt, node) < 0 then Missing else Data(NameAt(dt, node))
    else if node == memoryNode && name == REG then Ranges(reg, false)
    else if node == memoryNode && name == AVAILABLE then Ranges(avail, true)
    else
      var o := PropertyOffset(dt, strings, node, name);
      if o < 0 then Missing else Data(PropertyData(dt, o))
  }

  /** On a node of an encoded tree: its name, or its own first property of that name. */
  lemma PropertyOnTree(dt: Block, strings: Block, p: Place, name: Name, memoryNode: cint, reg: seq<Range>,
      avail: seq<Range>)
    requires PlaceAt(dt, p) && p.cell < 0x1000_0000
    ensures CanGet(dt, strings, 4 * p.cell, name, memoryNode)
    ensures PropertyOf(dt, strings, 4 * p.cell, name, memoryNode, reg, avail) ==
      if name == NAME then Data(if p.cell == 0 then [SLASH] else p.node.name)
      else if 4 * p.cell == memoryNode && name == REG then Ranges(reg, false)
      else if 4 * p.cell == memoryNode && name == AVAILABLE then Ranges(avail, true)
      else
        var q := OwnProp(p.node.body, BodyCell(p), strings, name);
        if q < 0 then Missing else Data(PropertyData(dt, 4 * q))
    ensures var q := OwnProp(p.node.body, BodyCell(p), strings, name);
      q >= 0 ==> HasPropData(p.node.body, BodyCell(p), q, PropertyData(dt, 4 * q))
  {
    hide PropertyOffset, CanLookUp, Be32, PropAt, HasProp, HasPropData, OwnProp, Spells, PropertyData, TreeAt, BodyAt;
    PropertyLookup(dt, strings, p, name);
    NameOfTree(dt, p.cell, p.node);
    var b, c := p.node.body, BodyCell(p);
    var q := OwnProp(b, c, strings, name);
    if q >= 0 {
      var nameoff, data := OwnPropIs(b, c, strings, name);
      BodyOfPlace(dt, p);
      HasPropAt(dt, b, c, q, nameoff, data);
      DataOfProp(dt, q, nameoff, data);
      HasPropDataIs(b, c, q, nameoff, data, data);
    }
  }

  /** The end of rom_getprop_ex (rom.c:944-953): as much of the property as was asked for. */
  method PutData(g: Guest, data: seq<byte>, lenIn: word, dataEa: Option<word>) returns (stopped: bool, ok: bool)
    requires g.Valid()
    modifies g.pmem.mem
    ensures stopped <==> dataEa.Some? && CopyHalts(old(g.Abs()), dataEa.value, Min(|data|, lenIn), 1)
    ensures !stopped ==> g.Valid() && g.Abs() == old(g.Abs())
    ensures !stopped ==> Stored(g.Abs(), old(g.Memory()), g.Memory(), dataEa, data[..Min(|data|, lenIn)], ok)
  {
    hide Guest.Valid, Guest.Abs, Guest.Memory, Guest.Little, Coherent, Reach, WriteThrough, CopyHalts;
    g.AbsOk();
    if dataEa.None? {
      return false, true;
    }
    var b := new byte[|data|](i requires 0 <= i < |data| => data[i]);
    var m := Min(|data|, lenIn);
    assert b[..m] == data[..m];
    stopped, ok := PutBytes(g, dataEa.value, b, m);
  }

  /** rom_getprop_ex (rom.c:827-957), on any offset; -1 is the length of a missing property. */
  method RomGetpropEx(g: Guest, dt: Block, strings: Block, memoryNode: cint, reg: List<Range>, avail: List<Range>,
      node: cint, name: Name, lenIn: word, dataEa: Option<word>)
    returns (stopped: bool, ok: bool, lenOut: int)
    requires g.Valid() && CanGet(dt, strings, node, name, memoryNode)
    requires reg.Valid() && avail.Valid() && 8 * |reg.Items()| < 0x8000_0000 && 8 * |avail.Items()| < 0x8000_0000
    modifies g.pmem.mem
    ensures !stopped ==> g.Valid() && g.Abs() == old(g.Abs())
    ensures match PropertyOf(dt, strings, node, name, memoryNode, reg.Items(), avail.Items())
      case Missing => !stopped && ok && lenOut == -1 && g.Memory() == old(g.Memory())
      case Data(b) =>
        var asked := b[..Min(|b|, lenIn)];
        (stopped <==> dataEa.Some? && CopyHalts(old(g.Abs()), dataEa.value, |asked|, 1)) &&
        (!stopped ==> lenOut == |b| && Stored(g.Abs(), old(g.Memory()), g.Memory(), dataEa, asked, ok))
      case Ranges(s, check) =>
        (stopped <==> dataEa.Some? && RangesHalt(old(g.Abs()), dataEa.value, s, check)) &&
        (!stopped ==> lenOut == RangesLength(s, lenIn)) &&
        (!stopped ==> Stored(g.Abs(), old(g.Memory()), g.Memory(), dataEa, RangeBytes(s), ok))
  {
    hide Guest.Valid, Guest.Abs, Guest.Memory, Guest.Little, Coherent, Reach, WriteThrough, CopyHalts, RangesHalt;
    hide List.Valid, Be32, PropertyOffset, StringEq, RangeBytes, NameAt, NextTag, CanLookUp;
    g.AbsOk();
    if name == NAME {
      var data: seq<byte> := [SLASH];
      if node != 0 {
        var err;
        err, data := FdtGetName(dt, node);
        if err < 0 {
          return false, true, -1;
        }
      }
      lenOut := |data|;
      stopped, ok := PutData(g, data, lenIn, dataEa);
    } else if node == memoryNode && name == REG {
      stopped, ok, lenOut := GetRanges(g, reg, false, lenIn, dataEa);
    } else if node == memoryNode && name == AVAILABLE {
      stopped, ok, lenOut := GetRanges(g, avail, true, lenIn, dataEa);
    } else {
      var prop, len := FdtGetPropertyNamelen(dt, strings, node, name);
      if prop < 0 {
        return false, true, -1;
      }
      PropInside(dt, prop);
      lenOut := len;
      stopped, ok := PutData(g, dt[prop + 12..prop + 12 + len], lenIn, dataEa);
    }
  }

  /** After any run of claims, "available" read into memory that translates is all the ranges, and no BUG_ON fires. */
  lemma AvailableReads(ram: word, cs: seq<Claim>, vm: Vm, ea: word)
    requires RamOk(ram) && (forall i :: 0 <= i < |cs| ==> Proper(ram, cs[i])) && CpuOk(vm.cpu)
    ensures Run(ram, cs).Ran?
    ensures var s := Run(ram, cs).m.avail;
      Reach(vm, ea, 8 * |s|) == 8 * |s| ==> !RangesHalt(vm, ea, s, true)
  {
    hide WholePages;
    RunReadable(ram, cs);
  }

  /** One byte of "reg" is asked for and reported, and eight are stored. */
  lemma RegIsStoredWhole(view: seq<byte>)
    requires |view| == 2 * PAGE_SIZE
    ensures var reg := [Range(0, 2 * PAGE_SIZE - 1)];
      RangesLength(reg, 1) == 1 && CpuOk(TWO_PAGES.cpu) && !RangesHalt(TWO_PAGES, 0, reg, false) &&
      WriteThrough(TWO_PAGES, view, 0, RangeBytes(reg)) == [0, 0, 0, 0, 0, 0, 0x20, 0] + view[8..]
  {
    hide Coherent, Reach, WriteThrough, Phys, GuestMmu.Backmap;
    TwoPages();
    CoherentOk(TWO_PAGES);
    var reg := [Range(0, 2 * PAGE_SIZE - 1)];
    assert reg[..0] == [];
    assert RangeBytes(reg) == [0, 0, 0, 0, 0, 0, 0x20, 0];
    RamInjective(TWO_PAGES, 0, 8);
    RamPhys(TWO_PAGES, 0);
    WritePage(TWO_PAGES, view, 0, RangeBytes(reg));
  }
}
