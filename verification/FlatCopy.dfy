/** What copying to and from guest memory should do, byte by byte: translate each effective address on its own. */
module FlatCopy {
  import opened Words
  import opened Bits
  import opened MmuRanges
  import opened GuestCpu
  import opened GuestMmu
  import opened Pmem

  /** The real address behind an effective address, if there is memory there. */
  function Phys(vm: Vm, ea: word): Option<nat>
    requires CpuOk(vm.cpu)
  {
    var b := Backmap(vm, ea, false);
    if b.Found? && b.gra < vm.ram then Some(b.gra) else None
  }

  /** That is where it lies in memory. */
  lemma PhysIsBacking(vm: Vm, ea: word)
    requires CpuOk(vm.cpu)
    ensures Phys(vm, ea) == match Backing(vm, ea) case None => None case Some(g) => Some(g)
  {
    hide Translate;
    BatFaultExactly(vm.cpu, ea);
  }

  /** How many of the n bytes from ea on come before the first that does not translate. */
  function Reach(vm: Vm, ea: word, n: nat): (k: nat)
    requires CpuOk(vm.cpu)
    ensures k <= n
    decreases n
  {
    if n == 0 || Phys(vm, ea).None? then 0 else 1 + Reach(vm, Wrap(ea + 1), n - 1)
  }

  /** Memory after storing bytes one at a time, up to the first that does not translate. */
  function WriteThrough(vm: Vm, view: seq<byte>, ea: word, data: seq<byte>): (r: seq<byte>)
    requires CpuOk(vm.cpu) && |view| == vm.ram
    ensures |r| == vm.ram
    decreases |data|
  {
    if data == [] || Phys(vm, ea).None? then view
    else WriteThrough(vm, view[Phys(vm, ea).value := data[0]], Wrap(ea + 1), data[1..])
  }

  /** The bytes loaded one at a time, up to the first that does not translate. */
  function ReadThrough(vm: Vm, view: seq<byte>, ea: word, n: nat): (r: seq<byte>)
    requires CpuOk(vm.cpu) && |view| == vm.ram
    ensures |r| == Reach(vm, ea, n)
    decreases n
  {
    if n == 0 || Phys(vm, ea).None? then [] else [view[Phys(vm, ea).value]] + ReadThrough(vm, view, Wrap(ea + 1), n - 1)
  }

  // ---- Pages translate as wholes.

  lemma PhysPage(vm: Vm, ea: word, k: nat)
    requires Coherent(vm) && ea % PAGE_SIZE + k < PAGE_SIZE
    ensures ea + k < TWO32
    ensures Phys(vm, ea + k) == if Phys(vm, ea).Some? then Some(Phys(vm, ea).value + k) else None
    ensures Phys(vm, ea).Some? ==> Phys(vm, ea).value % PAGE_SIZE == ea % PAGE_SIZE
    ensures Backmap(vm, ea + k, false).Stops? <==> Backmap(vm, ea, false).Stops?
  {
    hide Translate, RomList, CpuOk, BatFault;
    SamePage(ea, k);
    if MmuOn(vm.cpu.msr) && vm.cpu.sdr1 == SDR1_MAGIC_ROM_MODE {
      TranslatePage(vm.ranges, vm.ram, ea);
      TranslatePage(vm.ranges, vm.ram, ea + k);
      var t := Translate(vm.ranges, PageOf(ea));
      if t.Some? {
        PageFits(t.value, vm.ram, ea % PAGE_SIZE);
        PageFits(t.value, vm.ram, ea % PAGE_SIZE + k);
      }
    } else if MmuOn(vm.cpu.msr) {
      BatPage(vm.cpu, ea, k);
    } else {
      PageFits(PageOf(ea), vm.ram, ea % PAGE_SIZE);
      PageFits(PageOf(ea), vm.ram, ea % PAGE_SIZE + k);
    }
  }

  lemma SamePage(ea: word, k: nat)
    requires ea % PAGE_SIZE + k < PAGE_SIZE
    ensures ea + k < TWO32 && PageOf(ea + k) == PageOf(ea) && (ea + k) % PAGE_SIZE == ea % PAGE_SIZE + k
    ensures PageOf(ea) % PAGE_SIZE == 0
  {
  }

  lemma PageFits(g: int, ram: int, off: nat)
    requires 0 <= g && g % PAGE_SIZE == 0 && ram % PAGE_SIZE == 0 && off < PAGE_SIZE
    ensures g + off < ram <==> g < ram
    ensures (g + off) % PAGE_SIZE == off
  {
  }

  lemma BatPage(c: Cpu, ea: word, k: nat)
    requires CpuOk(c) && ea % PAGE_SIZE + k < PAGE_SIZE && ea + k < TWO32
    ensures BatFault(c, ea + k) == BatFault(c, ea)
  {
    SameBlock(ea, k, 0x2_0000);
    SameBlock(ea, k, 0x1000_0000);
  }

  lemma SameBlock(ea: word, k: nat, size: nat)
    requires ea % PAGE_SIZE + k < PAGE_SIZE && (size == 0x2_0000 || size == 0x1000_0000)
    ensures (ea + k) / size == ea / size
  {
  }

  // ---- Splitting a copy into pages.

  lemma {:induction false} ReachSplit(vm: Vm, ea: word, x: nat, n: nat)
    requires CpuOk(vm.cpu)
    ensures Reach(vm, ea, x + n) == if Reach(vm, ea, x) == x then x + Reach(vm, Wrap(ea + x), n) else Reach(vm, ea, x)
    decreases x
  {
    hide Phys;
    if x > 0 && Phys(vm, ea).Some? {
      ReachSplit(vm, Wrap(ea + 1), x - 1, n);
      WrapStep(ea, x);
    } else if x == 0 {
      assert Wrap(ea) == ea;
    }
  }

  lemma WrapNone(ea: word)
    ensures Wrap(ea) == ea
  {
  }

  lemma WrapStep(ea: word, x: int)
    ensures Wrap(Wrap(ea + 1) + (x - 1)) == Wrap(ea + x)
  {
    WrapAdd(ea + 1, x - 1);
  }

  lemma {:induction false} WriteSplit(vm: Vm, view: seq<byte>, ea: word, a: seq<byte>, b: seq<byte>)
    requires CpuOk(vm.cpu) && |view| == vm.ram && Reach(vm, ea, |a|) == |a|
    ensures WriteThrough(vm, view, ea, a + b) == WriteThrough(vm, WriteThrough(vm, view, ea, a), Wrap(ea + |a|), b)
    decreases |a|
  {
    hide Phys, Wrap;
    if a == [] {
      WrapNone(ea);
      assert a + b == b;
    } else {
      assert (a + b)[0] == a[0] && (a + b)[1..] == a[1..] + b;
      PhysInside(vm, ea);
      WriteSplit(vm, view[Phys(vm, ea).value := a[0]], Wrap(ea + 1), a[1..], b);
      WrapStep(ea, |a|);
    }
  }

  lemma {:induction false} ReadSplit(vm: Vm, view: seq<byte>, ea: word, x: nat, n: nat)
    requires CpuOk(vm.cpu) && |view| == vm.ram && Reach(vm, ea, x) == x
    ensures ReadThrough(vm, view, ea, x + n) == ReadThrough(vm, view, ea, x) + ReadThrough(vm, view, Wrap(ea + x), n)
    decreases x
  {
    hide Phys, Wrap;
    if x == 0 {
      WrapNone(ea);
    } else {
      PhysInside(vm, ea);
      ReadSplit(vm, view, Wrap(ea + 1), x - 1, n);
      WrapStep(ea, x);
    }
  }

  /** A chunk inside one page translates wholly or not at all. */
  lemma {:induction false} ReachPage(vm: Vm, ea: word, x: nat)
    requires Coherent(vm) && ea % PAGE_SIZE + x <= PAGE_SIZE
    ensures Reach(vm, ea, x) == if Phys(vm, ea).Some? then x else 0
    decreases x
  {
    hide Phys, Coherent, PageOf, Backmap;
    CoherentOk(vm);
    if x > 1 {
      PhysPage(vm, ea, 1);
      assert Wrap(ea + 1) == ea + 1;
      SamePage(ea, 1);
      ReachPage(vm, ea + 1, x - 1);
    }
  }

  lemma CoherentOk(vm: Vm)
    requires Coherent(vm)
    ensures CpuOk(vm.cpu) && HostOk(vm)
  {
  }

  /** Storing a chunk inside one page is one store at its real address. */
  lemma {:induction false} WritePage(vm: Vm, view: seq<byte>, ea: word, data: seq<byte>)
    requires Coherent(vm) && |view| == vm.ram && ea % PAGE_SIZE + |data| <= PAGE_SIZE && Phys(vm, ea).Some?
    ensures var g := Phys(vm, ea).value;
      g + |data| <= vm.ram && WriteThrough(vm, view, ea, data) == Splice(view, g, data)
    decreases |data|
  {
    hide Phys, Coherent, PageOf, Backmap;
    CoherentOk(vm);
    var g := Phys(vm, ea).value;
    PhysInside(vm, ea);
    if |data| == 1 {
      assert data == [data[0]];
    } else if |data| > 1 {
      var w := view[g := data[0]];
      PhysPage(vm, ea, 1);
      assert Wrap(ea + 1) == ea + 1;
      SamePage(ea, 1);
      WritePage(vm, w, ea + 1, data[1..]);
      SpliceOne(view, g, data);
    }
  }

  lemma PhysInside(vm: Vm, ea: word)
    requires CpuOk(vm.cpu) && Phys(vm, ea).Some?
    ensures Phys(vm, ea).value < vm.ram
  {
  }

  lemma SpliceOne(view: seq<byte>, g: nat, data: seq<byte>)
    requires |data| > 0 && g + |data| <= |view|
    ensures Splice(view[g := data[0]], g + 1, data[1..]) == Splice(view, g, data)
  {
  }

  lemma {:induction false} ReadPage(vm: Vm, view: seq<byte>, ea: word, x: nat)
    requires Coherent(vm) && |view| == vm.ram && ea % PAGE_SIZE + x <= PAGE_SIZE && Phys(vm, ea).Some?
    ensures var g := Phys(vm, ea).value; g + x <= vm.ram && ReadThrough(vm, view, ea, x) == view[g..g + x]
    decreases x
  {
    hide Phys, Coherent, PageOf, Backmap;
    CoherentOk(vm);
    var g := Phys(vm, ea).value;
    PhysInside(vm, ea);
    if x > 1 {
      PhysPage(vm, ea, 1);
      assert Wrap(ea + 1) == ea + 1;
      SamePage(ea, 1);
      ReadPage(vm, view, ea + 1, x - 1);
      assert view[g..g + x] == [view[g]] + view[g + 1..g + x];
    } else if x == 1 {
      assert ReadThrough(vm, view, Wrap(ea + 1), 0) == [];
    }
  }

  lemma ReachNone(vm: Vm, ea: word, n: nat)
    requires CpuOk(vm.cpu) && Phys(vm, ea).None?
    ensures Reach(vm, ea, n) == 0
  {
  }

  lemma WriteNone(vm: Vm, view: seq<byte>, ea: word, data: seq<byte>)
    requires CpuOk(vm.cpu) && |view| == vm.ram && Phys(vm, ea).None?
    ensures WriteThrough(vm, view, ea, data) == view
  {
  }

  lemma ReadNone(vm: Vm, view: seq<byte>, ea: word, n: nat)
    requires CpuOk(vm.cpu) && |view| == vm.ram && Phys(vm, ea).None?
    ensures ReadThrough(vm, view, ea, n) == []
  {
  }

  /** A span ends at the first byte that does not translate. */
  lemma SpanEnds(vm: Vm, view: seq<byte>, ea: word, a: seq<byte>, b: seq<byte>)
    requires CpuOk(vm.cpu) && |view| == vm.ram
    requires Reach(vm, ea, |a|) == |a| && Phys(vm, Wrap(ea + |a|)).None?
    ensures Reach(vm, ea, |a| + |b|) == |a|
    ensures WriteThrough(vm, view, ea, a + b) == WriteThrough(vm, view, ea, a)
    ensures ReadThrough(vm, view, ea, |a| + |b|) == ReadThrough(vm, view, ea, |a|)
  {
    hide Phys, Reach, WriteThrough, ReadThrough, Wrap, CpuOk;
    var d := Wrap(ea + |a|);
    ReachSplit(vm, ea, |a|, |b|);
    ReachNone(vm, d, |b|);
    WriteSplit(vm, view, ea, a, b);
    WriteNone(vm, WriteThrough(vm, view, ea, a), d, b);
    ReadSplit(vm, view, ea, |a|, |b|);
    ReadNone(vm, view, d, |b|);
  }

  /** Storing all of a span is storing the part of it that translates. */
  lemma {:induction false} WriteReach(vm: Vm, view: seq<byte>, ea: word, data: seq<byte>)
    requires CpuOk(vm.cpu) && |view| == vm.ram
    ensures WriteThrough(vm, view, ea, data) == WriteThrough(vm, view, ea, data[..Reach(vm, ea, |data|)])
    decreases |data|
  {
    hide Phys, Wrap;
    var k := Reach(vm, ea, |data|);
    if k > 0 {
      PhysInside(vm, ea);
      WriteReach(vm, view[Phys(vm, ea).value := data[0]], Wrap(ea + 1), data[1..]);
      assert data[..k][1..] == data[1..][..k - 1];
    }
  }

  // ---- What stops a copy.

  /** How many bytes of a copy are left in the page of its first. */
  function Chunk(ea: word, left: nat): (x: nat)
    ensures x <= left && ea % PAGE_SIZE + x <= PAGE_SIZE && (left > 0 ==> x > 0)
    ensures x < left ==> Wrap(ea + x) % PAGE_SIZE == 0
  {
    Min(PAGE_SIZE - ea % PAGE_SIZE, left)
  }

  /** The BUG_ON of pmem.c on the number of bytes in the first page, or in the last when all the others were there; or
      that of guest.c on the first address without a translation. */
  predicate CopyHalts(vm: Vm, ea: word, n: nat, size: nat)
    requires CpuOk(vm.cpu) && AccessOk(size)
  {
    (Phys(vm, ea).Some? && Chunk(ea, n) % size != 0) ||
    (Reach(vm, ea, n) == n && n % size != 0) ||
    (n == 0 && Backmap(vm, ea, false).Stops?) ||
    (Reach(vm, ea, n) < n && Backmap(vm, Wrap(ea + Reach(vm, ea, n)), false).Stops?)
  }

  /** A first element that is not aligned, in a copy that leaves its page. */
  predicate Misaligned(ea: word, n: nat, size: nat)
    requires AccessOk(size)
  {
    ea % size != 0 && ea % PAGE_SIZE + n > PAGE_SIZE
  }

  /** A copy of whole elements has a ragged page exactly when it is unaligned and leaves its page. */
  lemma ChunkAligned(ea: word, left: nat, size: nat)
    requires AccessOk(size) && left % size == 0
    ensures Chunk(ea, left) % size != 0 <==> Misaligned(ea, left, size)
  {
    var x, o := Chunk(ea, left), ea % PAGE_SIZE;
    ModPage(ea, size);
    ModLess(PAGE_SIZE, o, size);
    ModLess(left, x, size);
  }

  /** A page after the first is ragged only if it is the last and the copy is. */
  lemma LaterChunk(d: word, s: nat, left: nat, size: nat)
    requires AccessOk(size) && s % size == 0 && d % PAGE_SIZE == 0
    ensures Chunk(d, left) % size != 0 ==> Chunk(d, left) == left && (s + left) % size != 0
    ensures Chunk(d, left) % size == 0 ==> (s + Chunk(d, left)) % size == 0
  {
    ModPage(d, size);
    ModSum(s, left, size);
    ModSum(s, Chunk(d, left), size);
  }

  lemma ModSum(a: nat, b: nat, size: nat)
    requires AccessOk(size) && a % size == 0
    ensures (a + b) % size == b % size
  {
    if size == 4 {
      DivModUnique(a + b, 4, a / 4 + b / 4, b % 4);
    } else if size == 2 {
      DivModUnique(a + b, 2, a / 2 + b / 2, b % 2);
    }
  }

  /** With translation off and in ROM mode nothing asks the BATs, so a copy stops the run only for its shape: a first
      page, or all of it, that is no whole number of elements. */
  lemma HaltsByShape(vm: Vm, ea: word, n: nat, size: nat)
    requires CpuOk(vm.cpu) && AccessOk(size) && (!MmuOn(vm.cpu.msr) || vm.cpu.sdr1 == SDR1_MAGIC_ROM_MODE)
    ensures CopyHalts(vm, ea, n, size) <==>
      (n > 0 && Backing(vm, ea).Some? &&
       if ea % PAGE_SIZE + n <= PAGE_SIZE then n % size != 0 else (PAGE_SIZE - ea % PAGE_SIZE) % size != 0) ||
      (n % size != 0 && Reach(vm, ea, n) == n)
  {
    hide Reach, Translate;
    PhysIsBacking(vm, ea);
  }

  /** Otherwise nothing translates, and a copy of any shape stops the run exactly when the first address hits a BAT,
      or the processor is no 601. */
  lemma HaltsByBat(vm: Vm, ea: word, n: nat, size: nat)
    requires CpuOk(vm.cpu) && AccessOk(size) && MmuOn(vm.cpu.msr) && vm.cpu.sdr1 != SDR1_MAGIC_ROM_MODE
    ensures CopyHalts(vm, ea, n, size) <==> vm.cpu.pvr != PVR_601 || InBat(vm.cpu, ea)
  {
    hide InBat;
    PhysIsBacking(vm, ea);
    BatFaultExactly(vm.cpu, ea);
    WrapNone(ea);
    if n == 0 {
      assert 0 % size == 0;
    }
  }

  // ---- Unaligned copies of a little-endian guest.

  predicate Unaligned(ea: word, size: nat, little: bool)
    requires AccessOk(size)
  {
    little && ea % size != 0
  }

  /** Such a copy does not leave its page, or stops the run. */
  lemma UnalignedWhole(ea: word, n: nat, size: nat)
    requires AccessOk(size) && ea % size != 0 && Chunk(ea, n) % size == 0
    ensures Chunk(ea, n) == n
  {
    var o := ea % PAGE_SIZE;
    ModPage(ea, size);
    ModLess(PAGE_SIZE, o, size);
  }

  /** Its munged accesses stay in the memory. */
  predicate FitsUnaligned(vm: Vm, ea: word, n: nat, size: nat, little: bool)
    requires CpuOk(vm.cpu) && AccessOk(size)
  {
    Unaligned(ea, size, little) && Phys(vm, ea).Some? && n % size == 0 && Chunk(ea, n) == n ==>
      SlotsInside(vm.ram, Phys(vm, ea).value, n, size)
  }

  /** They do unless the copy comes to the last eight bytes of memory and an element starts there less than its size
      after the first. */
  lemma FitsUnless(vm: Vm, ea: word, n: nat, size: nat, little: bool)
    requires Coherent(vm) && AccessOk(size)
    ensures CpuOk(vm.cpu)
    ensures !FitsUnaligned(vm, ea, n, size, little) <==>
      Unaligned(ea, size, little) && Phys(vm, ea).Some? && n % size == 0 && Chunk(ea, n) == n &&
      var g := Phys(vm, ea).value; g <= vm.ram - 8 + ea % size < g + n
  {
    hide Coherent, Phys, SlotsInside;
    CoherentOk(vm);
    if Phys(vm, ea).Some? && Chunk(ea, n) == n {
      var g := Phys(vm, ea).value;
      PhysPage(vm, ea, 0);
      PhysInside(vm, ea);
      ModPage(ea, size);
      ModPage(g, size);
      PageMod8(vm.ram);
      RamPages(vm, g, ea % PAGE_SIZE, n);
      if n % size == 0 {
        SlotsInsideIs(vm.ram, g, n, size);
      }
    }
  }

  lemma RamPages(vm: Vm, g: nat, o: nat, x: nat)
    requires HostOk(vm) && g < vm.ram && g % PAGE_SIZE == o && o + x <= PAGE_SIZE
    ensures g + x <= vm.ram
  {
  }

  /** What it leaves in the host's memory. */
  function StoredUnaligned(vm: Vm, m: seq<byte>, ea: word, b: seq<byte>, size: nat): (r: seq<byte>)
    requires CpuOk(vm.cpu) && AccessOk(size) && |m| == vm.ram
    ensures |r| == vm.ram
  {
    if Phys(vm, ea).Some? && |b| % size == 0 && SlotsInside(|m|, Phys(vm, ea).value, |b|, size)
    then MungedStores(m, Phys(vm, ea).value, b, size) else m
  }

  /** What it gets from there. */
  function LoadedUnaligned(vm: Vm, m: seq<byte>, ea: word, n: nat, size: nat): (r: seq<byte>)
    requires CpuOk(vm.cpu) && AccessOk(size) && |m| == vm.ram
    ensures |r| == 0 || |r| == n
  {
    if Phys(vm, ea).Some? && n % size == 0 && SlotsInside(|m|, Phys(vm, ea).value, n, size)
    then MungedLoads(m, Phys(vm, ea).value, n, size) else []
  }

  /** One unaligned element is at its munged address, and nothing else has changed. */
  lemma OneUnaligned(vm: Vm, m: seq<byte>, ea: word, b: seq<byte>)
    requires CpuOk(vm.cpu) && AccessOk(|b|) && |m| == vm.ram && Phys(vm, ea).Some?
    requires Munge(Phys(vm, ea).value, |b|) + |b| <= |m|
    ensures var h := Munge(Phys(vm, ea).value, |b|);
      StoredUnaligned(vm, m, ea, b, |b|) == Splice(m, h, b) && LoadedUnaligned(vm, m, ea, |b|, |b|) == m[h..h + |b|]
  {
    hide Phys, Munge;
    var g, size := Phys(vm, ea).value, |b|;
    assert b[..0] == [] && b[0..] == b;
    assert size % size == 0 && 0 % size == 0 by { SelfMultiple(size); }
    forall i: nat | i < size && i % size == 0
      ensures Slot(g, i, size) + size <= |m|
    {
      SameMultiple(0, i, size);
    }
    NoSlots(|m|, g, size);
    NoElements(m, g, size);
    StoresNext(m, g, b, size);
    LoadsNext(m, g, size, size);
  }

  lemma SelfMultiple(size: nat)
    requires AccessOk(size)
    ensures size % size == 0 && 0 % size == 0
  {
  }

  // ---- Copies of either kind, in terms of the guest's bytes.

  /** The elements of a load that goes through. */
  function Loaded(vm: Vm, view: seq<byte>, ea: word, n: nat, size: nat, little: bool): (r: seq<byte>)
    requires CpuOk(vm.cpu) && AccessOk(size) && |view| == vm.ram && |view| % 8 == 0
    ensures |r| <= n
  {
    if Unaligned(ea, size, little) then LoadedUnaligned(vm, View(view, true), ea, n, size)
    else Elements(ReadThrough(vm, view, ea, n), size, little)
  }

  /** Memory after a store that goes through. */
  function Stored(vm: Vm, view: seq<byte>, ea: word, b: seq<byte>, size: nat, little: bool): (r: seq<byte>)
    requires CpuOk(vm.cpu) && AccessOk(size) && |view| == vm.ram && |view| % 8 == 0
    ensures |r| == vm.ram
  {
    if Unaligned(ea, size, little) then View(StoredUnaligned(vm, View(view, true), ea, b, size), true)
    else WriteThrough(vm, view, ea, Elements(b, size, little))
  }

  /** For the guest, one unaligned element is stored to and loaded from the bytes that its munged address has on the
      host. */
  lemma UnalignedForGuest(vm: Vm, view: seq<byte>, ea: word, b: seq<byte>)
    requires CpuOk(vm.cpu) && AccessOk(|b|) && |view| == vm.ram && |view| % 8 == 0 && Phys(vm, ea).Some?
    requires ea % |b| != 0 && Munge(Phys(vm, ea).value, |b|) + |b| <= |view|
    ensures var h := Munge(Phys(vm, ea).value, |b|);
      View(Stored(vm, view, ea, b, |b|, true), true) == Splice(View(view, true), h, b) &&
      Loaded(vm, view, ea, |b|, |b|, true) == View(view, true)[h..h + |b|]
  {
    hide Phys, Munge, View, Splice, StoredUnaligned, LoadedUnaligned;
    OneUnaligned(vm, View(view, true), ea, b);
    ViewTwice(Splice(View(view, true), Munge(Phys(vm, ea).value, |b|), b), true);
  }

  lemma ModPage(ea: word, size: nat)
    requires AccessOk(size)
    ensures PAGE_SIZE % size == 0 && (ea % PAGE_SIZE) % size == ea % size
  {
    var q, o := ea / PAGE_SIZE, ea % PAGE_SIZE;
    if size == 4 {
      DivModUnique(ea, 4, 1024 * q + o / 4, o % 4);
    } else if size == 2 {
      DivModUnique(ea, 2, 2048 * q + o / 2, o % 2);
    }
  }

  lemma ModLess(n: nat, x: nat, size: nat)
    requires AccessOk(size) && x <= n && n % size == 0
    ensures (n - x) % size == 0 <==> x % size == 0
  {
    if size == 4 {
      assert n == 4 * (n / 4);
    } else if size == 2 {
      assert n == 2 * (n / 2);
    }
  }

  // ---- Elements.

  /** A buffer of elements can be taken in two parts. */
  lemma {:induction false} ElementsSplit(a: seq<byte>, b: seq<byte>, size: nat, little: bool)
    requires AccessOk(size) && |b| % size == 0
    ensures Elements(a + b, size, little) == Elements(a, size, little) + Elements(b, size, little)
    decreases |b|
  {
    hide Elements, Reverse;
    if b == [] {
      assert a + b == a;
      ElementsShort([], size, little);
    } else if !little {
      ElementsBig(a + b, size);
      ElementsBig(a, size);
      ElementsBig(b, size);
    } else {
      var m := |b| - size;
      LastElement(|b|, size);
      var front, last := b[..m], b[m..];
      ElementsSplit(a, front, size, little);
      ElementsPush(a + front, last, size);
      ElementsPush(front, last, size);
      assert front + last == b && a + front + last == a + b;
    }
  }

  lemma ElementsShort(b: seq<byte>, size: nat, little: bool)
    requires AccessOk(size) && |b| < size
    ensures Elements(b, size, little) == b
  {
  }

  lemma ElementsBig(b: seq<byte>, size: nat)
    requires AccessOk(size)
    ensures Elements(b, size, false) == b
  {
  }

  lemma LastElement(n: nat, size: nat)
    requires AccessOk(size) && n % size == 0 && n > 0
    ensures n >= size && (n - size) % size == 0
  {
  }

  /** Turning the elements round twice gives the buffer back. */
  lemma {:induction false} ElementsTwice(b: seq<byte>, size: nat, little: bool)
    requires AccessOk(size)
    ensures Elements(Elements(b, size, little), size, little) == b
    decreases |b|
  {
    hide Elements, Reverse;
    if !little {
      ElementsBig(b, size);
    } else if |b| < size {
      ElementsShort(b, size, little);
    } else {
      var front, last := b[..|b| - size], b[|b| - size..];
      assert front + last == b;
      ElementsTwice(front, size, little);
      ElementsPush(front, last, size);
      ElementsPush(Elements(front, size, little), Reverse(last), size);
      assert Reverse(Reverse(last)) == last;
    }
  }

  // ---- Writing and reading back.

  /** The real addresses of a span, up to the first byte that does not translate. */
  function Reals(vm: Vm, ea: word, n: nat): (r: seq<nat>)
    requires CpuOk(vm.cpu)
    ensures |r| == Reach(vm, ea, n)
    decreases n
  {
    if n == 0 || Phys(vm, ea).None? then [] else [Phys(vm, ea).value] + Reals(vm, Wrap(ea + 1), n - 1)
  }

  /** Different bytes of the span have different real addresses. */
  predicate Injective(vm: Vm, ea: word, n: nat)
    requires CpuOk(vm.cpu)
  {
    var r := Reals(vm, ea, n);
    forall i, j :: 0 <= i < j < |r| ==> r[i] != r[j]
  }

  /** Storing a span changes nothing outside its real addresses. */
  lemma {:induction false} WriteFrame(vm: Vm, view: seq<byte>, ea: word, data: seq<byte>, g: nat)
    requires CpuOk(vm.cpu) && |view| == vm.ram && g < vm.ram && g !in Reals(vm, ea, |data|)
    ensures WriteThrough(vm, view, ea, data)[g] == view[g]
    decreases |data|
  {
    if data != [] && Phys(vm, ea).Some? {
      var p := Phys(vm, ea).value;
      assert Reals(vm, ea, |data|)[0] == p;
      WriteFrame(vm, view[p := data[0]], Wrap(ea + 1), data[1..], g);
    }
  }

  /** Where the translation is injective on a span, what was stored is what is loaded. */
  lemma {:induction false} ReadBack(vm: Vm, view: seq<byte>, ea: word, data: seq<byte>)
    requires CpuOk(vm.cpu) && |view| == vm.ram
    requires Reach(vm, ea, |data|) == |data| && Injective(vm, ea, |data|)
    ensures ReadThrough(vm, WriteThrough(vm, view, ea, data), ea, |data|) == data
    decreases |data|
  {
    hide Phys;
    if data != [] {
      var g, next, tail := Phys(vm, ea).value, Wrap(ea + 1), data[1..];
      var all, rest := Reals(vm, ea, |data|), Reals(vm, next, |tail|);
      assert all == [g] + rest;
      forall i, j | 0 <= i < j < |rest|
        ensures rest[i] != rest[j]
      {
        assert all[i + 1] == rest[i] && all[j + 1] == rest[j];
      }
      forall i | 0 <= i < |rest|
        ensures rest[i] != g
      {
        assert all[0] == g && all[i + 1] == rest[i];
      }
      PhysInside(vm, ea);
      ReadBack(vm, view[g := data[0]], next, tail);
      WriteFrame(vm, view[g := data[0]], next, tail, g);
    }
  }

  /** Storing elements and loading them again, through any translation that is injective on the span. */
  lemma CopyRoundTrip(vm: Vm, view: seq<byte>, ea: word, data: seq<byte>, size: nat, little: bool)
    requires CpuOk(vm.cpu) && |view| == vm.ram && AccessOk(size)
    requires Reach(vm, ea, |data|) == |data| && Injective(vm, ea, |data|)
    ensures var stored := WriteThrough(vm, view, ea, Elements(data, size, little));
      Elements(ReadThrough(vm, stored, ea, |data|), size, little) == data
  {
    ReadBack(vm, view, ea, Elements(data, size, little));
    ElementsTwice(data, size, little);
  }

  /** RAM addresses are their own real addresses, so a span of RAM translates whole and injectively: always with
      translation off, and in ROM mode whatever has been mapped since. */
  lemma {:induction false} RamIdentical(vm: Vm, ea: word, n: nat)
    requires Coherent(vm) && ea + n <= vm.ram
    requires vm.cpu.sdr1 == SDR1_MAGIC_ROM_MODE || !MmuOn(vm.cpu.msr)
    ensures Reals(vm, ea, n) == seq(n, i => ea + i)
    decreases n
  {
    hide Translate, RomList;
    if n > 0 {
      RamIdentity(vm.ranges, vm.ram, ea);
      assert Phys(vm, ea) == Some(ea);
      assert Wrap(ea + 1) == ea + 1;
      RamIdentical(vm, ea + 1, n - 1);
      assert [ea as nat] + seq(n - 1, i => ea + 1 + i) == seq(n, i => ea + i);
    }
  }

  lemma RamInjective(vm: Vm, ea: word, n: nat)
    requires Coherent(vm) && ea + n <= vm.ram
    requires vm.cpu.sdr1 == SDR1_MAGIC_ROM_MODE || !MmuOn(vm.cpu.msr)
    ensures Reach(vm, ea, n) == n && Injective(vm, ea, n)
  {
    hide Coherent;
    CoherentOk(vm);
    RamIdentical(vm, ea, n);
  }
}
