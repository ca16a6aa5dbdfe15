/** The guest's address translation and the kernel's cached page tables, as one state machine
    (guest.c:346-482, 549-702; rom.c:1721-1741). */
module GuestMmu {
  import opened Words
  import opened Bits
  import opened MmuRanges
  import opened InsnBits
  import opened GuestCpu

  /** The kernel's page table of one VMM context: effective page to host page. */
  type PageTable = map<word, word>

  /** The CPU, the ROM's ranges, where guest memory is on the host, and the two contexts' page tables. */
  datatype Vm = Vm(cpu: Cpu, ranges: seq<MmuRange>, ram: word, base: word, on: PageTable, off: PageTable)

  /** A real address, no translation, a BUG_ON, or success without a result having been stored. */
  datatype Backmapped = Found(gra: word) | NotFound | Stops | Unset

  /** guest_bat_fault (guest.c:346-377). */
  function BatFault(c: Cpu, ea: word): (r: Backmapped)
    requires CpuOk(c)
    ensures r.NotFound? || r.Stops?
  {
    if c.pvr != PVR_601 then Stops
    else if SegmentDirect(c.sr[ea / 0x1000_0000]) then NotFound
    else if exists i :: 0 <= i < 4 && c.ubat[2 * i] / 0x2_0000 == ea / 0x2_0000 then Stops
    else NotFound
  }

  /** (sr & SR_T) == 1, where SR_T is the top bit: never true. */
  predicate SegmentDirect(sr: word) {
    And(sr, 0x8000_0000) == 1
  }

  /** The test for direct-store segments masks one bit and compares with another: it never finds one. */
  lemma SegmentNeverDirect(sr: word)
    ensures !SegmentDirect(sr)
  {
    hide And;
    Pow2Values();
    FlipBit(sr, 31, 32);
  }

  /** guest_backmap_ex (guest.c:379-421). */
  function Backmap(vm: Vm, ea: word, tryFast: bool): Backmapped
    requires CpuOk(vm.cpu)
  {
    if !MmuOn(vm.cpu.msr) then
      if ea < vm.ram then Found(ea) else NotFound
    else if tryFast && PageOf(ea) in vm.on then
      var ha := Wrap(vm.on[PageOf(ea)] + ea % PAGE_SIZE);
      if vm.base <= ha < vm.base + vm.ram then Found(ha - vm.base) else Unset
    else if vm.cpu.sdr1 == SDR1_MAGIC_ROM_MODE then
      match Translate(vm.ranges, ea)
      case None => NotFound
      case Some(gra) => Found(gra)
    else BatFault(vm.cpu, ea)
  }

  /** Translation is on when bits 5 and 4 of the MSR, from the right, are set; an MSR with only one of them is
      refused. */
  lemma MmuBits(m: word)
    ensures MmuOn(m) <==> Bit(m, 5) && Bit(m, 4)
    ensures Consistent(m) <==> (Bit(m, 5) <==> Bit(m, 4))
  {
    assert Pow2(4) == 0x10 && Pow2(5) == 0x20;
  }

  // ---- Coherence.

  predicate HostOk(vm: Vm) {
    vm.ram % PAGE_SIZE == 0 && vm.base % PAGE_SIZE == 0 && vm.ram > 0 && vm.base + vm.ram < TWO32
  }

  /** A cached page is the page the ROM's ranges give. */
  predicate RomPage(vm: Vm, p: word) {
    p in vm.on && p % PAGE_SIZE == 0 && Translate(vm.ranges, p).Some? &&
    Translate(vm.ranges, p).value < vm.ram && vm.on[p] == vm.base + Translate(vm.ranges, p).value
  }

  /** A cached page of the context without translation is guest memory at the same address. */
  predicate RealPage(vm: Vm, p: word) {
    p in vm.off && p % PAGE_SIZE == 0 && p < vm.ram && vm.off[p] == vm.base + p
  }

  ghost predicate Coherent(vm: Vm) {
    CpuOk(vm.cpu) && HostOk(vm) && RomList(vm.ranges, vm.ram) &&
    (vm.cpu.sdr1 == SDR1_MAGIC_ROM_MODE ==> forall p :: p in vm.on ==> RomPage(vm, p)) &&
    (vm.cpu.sdr1 != SDR1_MAGIC_ROM_MODE ==> vm.on == map[]) &&
    (forall p :: p in vm.off ==> RealPage(vm, p))
  }

  /** Translations move whole pages. */
  lemma TranslatePage(s: seq<MmuRange>, ram: word, ea: word)
    requires RomList(s, ram)
    ensures Translate(s, ea) ==
      match Translate(s, PageOf(ea))
      case None => None
      case Some(g) => Some(Wrap(g + ea % PAGE_SIZE))
    ensures Translate(s, PageOf(ea)).Some? ==>
      Translate(s, PageOf(ea)).value % PAGE_SIZE == 0 && Translate(s, PageOf(ea)).value + ea % PAGE_SIZE < TWO32
  {
    hide WellNested;
    var p := PageOf(ea);
    var i, k := FindFrom(s, ea, 0), FindFrom(s, p, 0);
    if i < |s| {
      PageCovered(s[i], ea);
      ShiftPage(s[i], ea);
      TranslateAnyEntry(s, p, i);
    }
    if k < |s| {
      PageCovered(s[k], ea);
      ShiftPage(s[k], ea);
      TranslateAnyEntry(s, ea, k);
    }
  }

  lemma PageCovered(m: MmuRange, ea: word)
    requires m.base % PAGE_SIZE == 0 && (m.limit + 1) % PAGE_SIZE == 0
    ensures Covers(m, ea) <==> Covers(m, PageOf(ea))
  {
  }

  lemma ShiftPage(m: MmuRange, ea: word)
    requires m.base % PAGE_SIZE == 0 && m.ra % PAGE_SIZE == 0
    ensures var g: int := Shift(m, PageOf(ea));
      g % PAGE_SIZE == 0 && g + ea % PAGE_SIZE < TWO32 && Shift(m, ea) == g + ea % PAGE_SIZE
  {
    var x: int := PageOf(ea) - m.base + m.ra;
    SumAligned(PageOf(ea), m.base, m.ra);
    WrapPage(x, ea % PAGE_SIZE);
  }

  lemma SumAligned(a: word, b: word, c: word)
    requires a % PAGE_SIZE == 0 && b % PAGE_SIZE == 0 && c % PAGE_SIZE == 0
    ensures (a - b + c) % PAGE_SIZE == 0
  {
  }

  lemma WrapPage(x: int, off: nat)
    requires -TWO32 < x < 2 * TWO32 && x % PAGE_SIZE == 0 && off < PAGE_SIZE
    ensures Wrap(x) as int % PAGE_SIZE == 0 && Wrap(x + off) == Wrap(x) + off
  {
    var w: int := if x < 0 then x + TWO32 else if x < TWO32 then x else x - TWO32;
    assert w % PAGE_SIZE == 0;
    assert w + off < TWO32;
    assert Wrap(x) == w;
  }

  /** Where both answer, and always: the cached translation is the one worked out from scratch. */
  lemma FastIsSlow(vm: Vm, ea: word)
    requires Coherent(vm)
    ensures Backmap(vm, ea, true) == Backmap(vm, ea, false)
    ensures !Backmap(vm, ea, true).Unset?
  {
    hide Translate, RomList, BatFault;
    var p := PageOf(ea);
    if MmuOn(vm.cpu.msr) && p in vm.on {
      assert RomPage(vm, p);
      TranslatePage(vm.ranges, vm.ram, ea);
      PageEndsInside(Translate(vm.ranges, p).value, vm.ram, ea % PAGE_SIZE);
    }
  }

  lemma PageEndsInside(g: int, ram: int, off: nat)
    requires 0 <= g < ram && g % PAGE_SIZE == 0 && ram % PAGE_SIZE == 0 && off < PAGE_SIZE
    ensures g + off < ram
  {
  }

  // ---- The steps of a run.

  /** What can happen to the guest: its own code runs in the active context until the next exit, leaving any values in
      the registers it can reach; a page fault taken to guest_fault (with the two DSISR bits it
      looks at, and whether the kernel accepts the mapping), an eviction by the kernel, the client interface's map
      call, an emulated instruction, and the monitor toggling single stepping. */
  datatype Event =
    | GuestRuns(gpr: seq<word>, user: UserRegs, pc: word)
    | PageFault(ea: word, badPerm: bool, notPresent: bool, mapOk: bool)
    | Evict(mmuOn: bool, page: word)
    | MapRanges(mode: word, size: word, virt: word, phys: word)
    | Emulate(insn: bv32, next: bv32)
    | ToggleTrace

  /** A BUG_ON ends the run; a failed call leaves the state as it was. */
  datatype StepResult = Halts | Fails | Runs(vm: Vm)

  function MapPage(vm: Vm, p: word, ha: word): Vm {
    if MmuOn(vm.cpu.msr) then vm.(on := vm.on[p := ha]) else vm.(off := vm.off[p := ha])
  }

  /** kVmmExecuteVM (pvp.c:72), or a client interface call's result and return (rom.c:1709-1717). */
  function GuestStep(vm: Vm, gpr: seq<word>, user: UserRegs, pc: word): StepResult {
    if |gpr| == 32 then Runs(vm.(cpu := vm.cpu.(gpr := gpr, user := user, pc := pc))) else Fails
  }

  /** guest_fault (guest.c:429-482). */
  function FaultStep(vm: Vm, ea: word, badPerm: bool, notPresent: bool, mapOk: bool): StepResult
    requires CpuOk(vm.cpu)
  {
    if badPerm then Halts
    else if !notPresent then Fails
    else
      match Backmap(vm, PageOf(ea), false)
      case Stops => Halts
      case NotFound => Fails
      case Unset => Fails
      case Found(gra) =>
        if gra >= vm.ram then Halts
        else if Wrap(vm.base + gra) % PAGE_SIZE != 0 then Halts
        else if !mapOk then Fails
        else Runs(MapPage(vm, PageOf(ea), Wrap(vm.base + gra)))
  }

  function Flushed(t: PageTable, f: Flush): PageTable {
    match f
    case Keep => t
    case Page(ea) => t - {PageOf(ea)}
    case All => map[]
  }

  /** guest_emulate, from the fetched words on (guest.c:549-702). */
  function EmulateStep(vm: Vm, insn: bv32, next: bv32): StepResult
    requires CpuOk(vm.cpu)
  {
    match Execute(vm.cpu, insn, next)
    case ExecStops => Halts
    case Unsupported => Fails
    case Done(cpu, flush) => Runs(vm.(cpu := cpu, on := Flushed(vm.on, flush)))
  }

  function Step(vm: Vm, e: Event): StepResult
    requires CpuOk(vm.cpu)
  {
    match e
    case GuestRuns(gpr, user, pc) => GuestStep(vm, gpr, user, pc)
    case PageFault(ea, badPerm, notPresent, mapOk) => FaultStep(vm, ea, badPerm, notPresent, mapOk)
    case Evict(mmuOn, p) => Runs(if mmuOn then vm.(on := vm.on - {p}) else vm.(off := vm.off - {p}))
    case MapRanges(mode, size, virt, phys) =>
      (match MapCall(vm.ranges, vm.ram, mode, size, virt, phys)
       case MapStops => Halts
       case MapFails => Fails
       case MapDone(s) => Runs(vm.(ranges := s)))
    case Emulate(insn, next) => EmulateStep(vm, insn, next)
    case ToggleTrace => Runs(vm)
  }

  /** Whatever the guest leaves in its registers, no translation depends on it. */
  lemma GuestCoherent(vm: Vm, gpr: seq<word>, user: UserRegs, pc: word)
    requires Coherent(vm) && GuestStep(vm, gpr, user, pc).Runs?
    ensures Coherent(GuestStep(vm, gpr, user, pc).vm)
    ensures forall ea: word, fast: bool ::
      Backmap(GuestStep(vm, gpr, user, pc).vm, ea, fast) == Backmap(vm, ea, fast)
  {
    hide Translate, RomList, Consistent;
    var u := GuestStep(vm, gpr, user, pc).vm;
    forall q | q in u.on && u.cpu.sdr1 == SDR1_MAGIC_ROM_MODE
      ensures RomPage(u, q)
    {
      assert RomPage(vm, q);
    }
    forall q | q in u.off
      ensures RealPage(u, q)
    {
      assert RealPage(vm, q);
    }
  }

  lemma FaultCoherent(vm: Vm, ea: word, badPerm: bool, notPresent: bool, mapOk: bool)
    requires Coherent(vm) && FaultStep(vm, ea, badPerm, notPresent, mapOk).Runs?
    ensures Coherent(FaultStep(vm, ea, badPerm, notPresent, mapOk).vm)
  {
    hide Translate, RomList, BatFault, CpuOk;
    var p := PageOf(ea);
    assert p % PAGE_SIZE == 0;
    var u := FaultStep(vm, ea, badPerm, notPresent, mapOk).vm;
    forall q | q in u.on && u.cpu.sdr1 == SDR1_MAGIC_ROM_MODE
      ensures RomPage(u, q)
    {
      if q in vm.on { assert RomPage(vm, q); }
    }
    forall q | q in u.off
      ensures RealPage(u, q)
    {
      if q in vm.off { assert RealPage(vm, q); }
    }
  }

  lemma EmulateCoherent(vm: Vm, insn: bv32, next: bv32)
    requires Coherent(vm) && EmulateStep(vm, insn, next).Runs?
    ensures Coherent(EmulateStep(vm, insn, next).vm)
  {
    hide Execute, RomList, Translate, CpuOk;
    ExecuteOk(vm.cpu, insn, next);
    ExecuteSdr1(vm.cpu, insn, next);
    var u := EmulateStep(vm, insn, next).vm;
    forall q | q in u.on && u.cpu.sdr1 == SDR1_MAGIC_ROM_MODE
      ensures RomPage(u, q)
    {
      assert RomPage(vm, q);
    }
    forall q | q in u.off
      ensures RealPage(u, q)
    {
      assert RealPage(vm, q);
    }
  }

  /** An instruction that leaves ROM mode flushes everything. */
  lemma ExecuteSdr1(c: Cpu, insn: bv32, next: bv32)
    requires CpuOk(c) && Execute(c, insn, next).Done?
    ensures var r := Execute(c, insn, next);
      c.sdr1 == SDR1_MAGIC_ROM_MODE && r.cpu.sdr1 != SDR1_MAGIC_ROM_MODE ==> r.flush == All
  {
    hide SprOf, Consistent;
  }

  lemma MapCoherent(vm: Vm, mode: word, size: word, virt: word, phys: word)
    requires Coherent(vm) && MapCall(vm.ranges, vm.ram, mode, size, virt, phys).MapDone?
    ensures Coherent(vm.(ranges := MapCall(vm.ranges, vm.ram, mode, size, virt, phys).s))
  {
    hide MapCall, Translate, RomList, CpuOk;
    MapCallKeeps(vm.ranges, vm.ram, mode, size, virt, phys);
    var u := vm.(ranges := MapCall(vm.ranges, vm.ram, mode, size, virt, phys).s);
    forall q | q in u.on && u.cpu.sdr1 == SDR1_MAGIC_ROM_MODE
      ensures RomPage(u, q)
    {
      assert RomPage(vm, q);
    }
    forall q | q in u.off
      ensures RealPage(u, q)
    {
      assert RealPage(vm, q);
    }
  }

  lemma EvictCoherent(vm: Vm, mmuOn: bool, p: word)
    requires Coherent(vm)
    ensures Coherent(if mmuOn then vm.(on := vm.on - {p}) else vm.(off := vm.off - {p}))
  {
    hide Translate, RomList, CpuOk;
    var u := if mmuOn then vm.(on := vm.on - {p}) else vm.(off := vm.off - {p});
    forall q | q in u.on && u.cpu.sdr1 == SDR1_MAGIC_ROM_MODE
      ensures RomPage(u, q)
    {
      assert RomPage(vm, q);
    }
    forall q | q in u.off
      ensures RealPage(u, q)
    {
      assert RealPage(vm, q);
    }
  }

  lemma StepCoherent(vm: Vm, e: Event)
    requires Coherent(vm) && Step(vm, e).Runs?
    ensures Coherent(Step(vm, e).vm)
  {
    hide Coherent, GuestStep, FaultStep, EmulateStep;
    match e
    case GuestRuns(gpr, user, pc) => GuestCoherent(vm, gpr, user, pc);
    case PageFault(ea, badPerm, notPresent, mapOk) => FaultCoherent(vm, ea, badPerm, notPresent, mapOk);
    case Evict(mmuOn, p) => EvictCoherent(vm, mmuOn, p);
    case MapRanges(mode, size, virt, phys) => MapCoherent(vm, mode, size, virt, phys);
    case Emulate(insn, next) => EmulateCoherent(vm, insn, next);
    case ToggleTrace =>
  }

  // ---- What the other events come to.

  predicate Dropped(f: Flush, q: word) {
    f.All? || (f.Page? && q == PageOf(f.ea))
  }

  /** An emulated instruction changes the CPU, and drops from the table of the translated context exactly what it
      says. */
  lemma EmulateEnds(vm: Vm, insn: bv32, next: bv32, q: word)
    requires CpuOk(vm.cpu)
    ensures var x, r := Execute(vm.cpu, insn, next), EmulateStep(vm, insn, next);
      (r.Halts? <==> x.ExecStops?) && (r.Fails? <==> x.Unsupported?) &&
      (r.Runs? ==>
        r.vm.cpu == x.cpu && r.vm.off == vm.off && r.vm.ranges == vm.ranges && r.vm.ram == vm.ram &&
        r.vm.base == vm.base && (q in r.vm.on <==> q in vm.on && !Dropped(x.flush, q)) &&
        (q in r.vm.on ==> r.vm.on[q] == vm.on[q]))
  {
    hide Execute;
  }

  /** An evicted page is in its table no more; a map call changes the ranges only, and toggling nothing. */
  lemma OthersEnd(vm: Vm, mmuOn: bool, p: word, q: word, mode: word, size: word, virt: word, phys: word)
    requires CpuOk(vm.cpu)
    ensures var r := Step(vm, Evict(mmuOn, p));
      r.Runs? && r.vm.cpu == vm.cpu && r.vm.ranges == vm.ranges && r.vm.ram == vm.ram && r.vm.base == vm.base &&
      (var was, now, others := if mmuOn then vm.on else vm.off, if mmuOn then r.vm.on else r.vm.off,
         if mmuOn then r.vm.off == vm.off else r.vm.on == vm.on;
       others && (q in now <==> q in was && q != p) && (q in now ==> now[q] == was[q]))
    ensures var r, m := Step(vm, MapRanges(mode, size, virt, phys)), MapCall(vm.ranges, vm.ram, mode, size, virt, phys);
      (r.Halts? <==> m.MapStops?) && (r.Fails? <==> m.MapFails?) &&
      (r.Runs? ==> r.vm.ranges == m.s && r.vm.(ranges := vm.ranges) == vm)
    ensures Step(vm, ToggleTrace) == Runs(vm)
  {
    hide MapCall;
  }

  // ---- What a page fault comes to.

  /** Where an address lies in memory: at itself without translation, where the ranges send it in ROM mode. */
  function Backing(vm: Vm, ea: word): Option<word> {
    var g := if !MmuOn(vm.cpu.msr) then Some(ea)
      else if vm.cpu.sdr1 == SDR1_MAGIC_ROM_MODE then Translate(vm.ranges, ea)
      else None;
    if g.Some? && g.value < vm.ram then g else None
  }

  function Active(vm: Vm): PageTable {
    if MmuOn(vm.cpu.msr) then vm.on else vm.off
  }

  function Inactive(vm: Vm): PageTable {
    if MmuOn(vm.cpu.msr) then vm.off else vm.on
  }

  /** An address in the 128 KiB block of one of the four upper BATs. */
  predicate InBat(c: Cpu, ea: word)
    requires CpuOk(c)
  {
    var block := ea - ea % 0x2_0000;
    exists i :: 0 <= i < 4 && block <= c.ubat[2 * i] < block + 0x2_0000
  }

  /** The lookup in the BATs never gives an address; it stops the run on a hit, and on a processor that is no 601. */
  lemma BatFaultExactly(c: Cpu, ea: word)
    requires CpuOk(c)
    ensures BatFault(c, ea) == if c.pvr != PVR_601 || InBat(c, ea) then Stops else NotFound
  {
    SegmentNeverDirect(c.sr[ea / 0x1000_0000]);
    forall i | 0 <= i < 4
      ensures c.ubat[2 * i] / 0x2_0000 == ea / 0x2_0000 <==>
        ea - ea % 0x2_0000 <= c.ubat[2 * i] < ea - ea % 0x2_0000 + 0x2_0000
    {
      SameBatBlock(c.ubat[2 * i], ea);
    }
  }

  lemma SameBatBlock(a: word, b: word)
    ensures a / 0x2_0000 == b / 0x2_0000 <==> b - b % 0x2_0000 <= a < b - b % 0x2_0000 + 0x2_0000
  {
  }

  /** The BUG_ONs of a fault on a page that can be mapped: its real address is past RAM, or the BATs are asked for it
      and do not just say no. */
  predicate FaultBug(vm: Vm, p: word)
    requires CpuOk(vm.cpu)
  {
    MmuOn(vm.cpu.msr) &&
    if vm.cpu.sdr1 == SDR1_MAGIC_ROM_MODE then Translate(vm.ranges, p).Some? && Translate(vm.ranges, p).value >= vm.ram
    else vm.cpu.pvr != PVR_601 || InBat(vm.cpu, p)
  }

  /** How every page fault ends: it is handled exactly when the page lies in memory and the kernel accepts the mapping,
      and then the page is in the table of the active context where it lies in memory, and nothing else has changed. */
  lemma FaultEnds(vm: Vm, ea: word, badPerm: bool, notPresent: bool, mapOk: bool)
    requires Coherent(vm)
    ensures CpuOk(vm.cpu)
    ensures var p, r := PageOf(ea), FaultStep(vm, ea, badPerm, notPresent, mapOk);
      (r.Halts? <==> badPerm || (notPresent && FaultBug(vm, p))) &&
      (r.Runs? <==> !badPerm && notPresent && mapOk && Backing(vm, p).Some?) &&
      (r.Runs? ==>
        Active(r.vm) == Active(vm)[p := vm.base + Backing(vm, p).value] && Inactive(r.vm) == Inactive(vm) &&
        r.vm.cpu == vm.cpu && r.vm.ranges == vm.ranges && r.vm.ram == vm.ram && r.vm.base == vm.base)
  {
    hide Translate, RomList, BatFault;
    var p := PageOf(ea);
    BatFaultExactly(vm.cpu, p);
    if Backing(vm, p).Some? {
      BackingAligned(vm, p);
    }
  }

  lemma BackingAligned(vm: Vm, p: word)
    requires Coherent(vm) && p % PAGE_SIZE == 0 && Backing(vm, p).Some?
    ensures var g: int := Backing(vm, p).value;
      g % PAGE_SIZE == 0 && vm.base + g < TWO32 && (vm.base + g) % PAGE_SIZE == 0
  {
    hide Translate, RomList, CpuOk;
    assert PageOf(p) == p;
    if MmuOn(vm.cpu.msr) {
      TranslatePage(vm.ranges, vm.ram, p);
    }
    SumAligned(vm.base, 0, Backing(vm, p).value);
  }

  /** After a handled fault every address of the page is found through the table, where it lies in memory. */
  lemma FaultServes(vm: Vm, ea: word, mapOk: bool, a: word)
    requires Coherent(vm) && FaultStep(vm, ea, false, true, mapOk).Runs? && PageOf(a) == PageOf(ea)
    ensures var u := FaultStep(vm, ea, false, true, mapOk).vm;
      PageOf(a) in Active(u) && Backing(vm, a).Some? &&
      Active(u)[PageOf(a)] + a % PAGE_SIZE == vm.base + Backing(vm, a).value &&
      Backmap(u, a, true) == Found(Backing(vm, a).value)
  {
    hide Translate, RomList, BatFault, CpuOk;
    FaultEnds(vm, ea, false, true, mapOk);
    FaultCoherent(vm, ea, false, true, mapOk);
    BackingPage(vm, a);
    FastIsSlow(FaultStep(vm, ea, false, true, mapOk).vm, a);
  }

  /** Pages lie in memory as wholes. */
  lemma BackingPage(vm: Vm, a: word)
    requires Coherent(vm)
    ensures Backing(vm, a) ==
      match Backing(vm, PageOf(a))
      case None => None
      case Some(g) => Some(Wrap(g + a % PAGE_SIZE))
    ensures Backing(vm, PageOf(a)).Some? ==> Backing(vm, PageOf(a)).value + a % PAGE_SIZE < vm.ram
  {
    hide Translate, RomList, CpuOk;
    var p := PageOf(a);
    assert p % PAGE_SIZE == 0;
    TranslatePage(vm.ranges, vm.ram, a);
    if Backing(vm, p).Some? {
      BackingAligned(vm, p);
      PageEndsInside(Backing(vm, p).value, vm.ram, a % PAGE_SIZE);
    }
  }

  // ---- Whole runs.

  /** The state guest_init and rom_init leave. */
  predicate Initial(vm: Vm) {
    CpuOk(vm.cpu) && HostOk(vm) && vm.cpu.sdr1 == SDR1_MAGIC_ROM_MODE && vm.ram > PAGE_SIZE &&
    vm.ranges == [MmuRange(0, vm.ram - 1, 0, 0)] && vm.on == map[] && vm.off == map[]
  }

  /** The state after a run, unless a BUG_ON ended it. */
  ghost function After(vm: Vm, es: seq<Event>): (r: StepResult)
    requires Initial(vm)
    ensures r.Runs? ==> CpuOk(r.vm.cpu)
  {
    if es == [] then Runs(vm)
    else
      var before := After(vm, es[..|es| - 1]);
      if before.Runs? then
        var r := Step(before.vm, es[|es| - 1]);
        if r.Fails? then before else CpuKept(before.vm, es[|es| - 1]); r
      else Halts
  }

  lemma CpuKept(vm: Vm, e: Event)
    requires CpuOk(vm.cpu)
    ensures Step(vm, e).Runs? ==> CpuOk(Step(vm, e).vm.cpu)
  {
    hide CpuOk, Execute, MapCall, Backmap;
    if e.Emulate? && Execute(vm.cpu, e.insn, e.next).Done? {
      ExecuteOk(vm.cpu, e.insn, e.next);
    } else if e.GuestRuns? && |e.gpr| == 32 {
      GuestOk(vm.cpu, e.gpr, e.user, e.pc);
    }
  }

  lemma GuestOk(c: Cpu, gpr: seq<word>, user: UserRegs, pc: word)
    requires CpuOk(c) && |gpr| == 32
    ensures CpuOk(c.(gpr := gpr, user := user, pc := pc))
  {
  }

  lemma InitialCoherent(vm: Vm)
    requires Initial(vm)
    ensures Coherent(vm)
  {
  }

  /** Coherence over every run: whatever guest code, faults, evictions, map calls, instructions and toggles happened,
      the cached tables agree with the ranges, and both paths of the translation give the same answer everywhere. */
  lemma {:induction false} RunCoherent(vm: Vm, es: seq<Event>)
    requires Initial(vm) && After(vm, es).Runs?
    ensures Coherent(After(vm, es).vm)
    ensures forall ea: word :: Backmap(After(vm, es).vm, ea, true) == Backmap(After(vm, es).vm, ea, false)
    decreases |es|
  {
    hide Coherent, Step, Initial;
    if es == [] {
      InitialCoherent(vm);
    } else {
      RunCoherent(vm, es[..|es| - 1]);
      var before := After(vm, es[..|es| - 1]).vm;
      if Step(before, es[|es| - 1]).Runs? {
        StepCoherent(before, es[|es| - 1]);
      }
    }
    var now := After(vm, es).vm;
    forall ea: word
      ensures Backmap(now, ea, true) == Backmap(now, ea, false)
    {
      FastIsSlow(now, ea);
    }
  }

  /** Guest code can put any value into a register and then move it to SDR1. */
  function ToSdr1(vm: Vm, v: word): seq<Event>
    requires CpuOk(vm.cpu)
  {
    [GuestRuns(vm.cpu.gpr[0 := v], vm.cpu.user, vm.cpu.pc), Emulate(Mtspr(SPRN_SDR1, 0), 0)]
  }

  /** Every value of SDR1 is reached by some run; leaving ROM mode leaves the translated context empty. */
  lemma AnySdr1(vm: Vm, v: word)
    requires Initial(vm)
    ensures var r := After(vm, ToSdr1(vm, v));
      r.Runs? && r.vm.cpu.sdr1 == v && r.vm.on == map[]
  {
    hide WriteSpr, ReadSpr, Mtspr, Execute, Initial, HostOk;
    InitialCoherent(vm);
    var es := ToSdr1(vm, v);
    var c := vm.cpu.(gpr := vm.cpu.gpr[0 := v]);
    assert es[..1] == [es[0]] && [es[0]][..0] == [];
    assert After(vm, []) == Runs(vm);
    NothingCached(vm);
    GuestOk(vm.cpu, c.gpr, vm.cpu.user, vm.cpu.pc);
    assert After(vm, es[..1]) == Runs(vm.(cpu := c));
    DecodeSpr(SPRN_SDR1, 0);
    ExecuteMtspr(c, Mtspr(SPRN_SDR1, 0), 0);
    WriteSdr1(c, v);
  }

  lemma NothingCached(vm: Vm)
    requires Initial(vm)
    ensures vm.on == map[]
  {
  }

  lemma WriteSdr1(c: Cpu, v: word)
    requires CpuOk(c)
    ensures WriteSpr(c, SPRN_SDR1, v) == Some(c.(sdr1 := v))
  {
  }
}
