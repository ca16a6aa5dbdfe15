/** The guest object: one emulated CPU kept in two kernel contexts, its address translation, and the emulation of
    privileged instructions (guest.c:68-250, 346-714). */
module GuestState {
  import opened Words
  import opened Bits
  import opened CircularList
  import opened MmuRanges
  import opened InsnBits
  import opened GuestCpu
  import opened GuestMmu
  import opened Pmem
  import opened FlatCopy

  const MSR_SE: word := 0x400
  const MSR_LE: word := 1
  const MSR_RESET: word := 0x1070
  const HID0_601_RESET_VALUE: word := 0x8001_0080
  const HID0_601_LM: word := 8

  /** A VMM state page and the kernel's page table of its context. */
  class VmmPage {
    var gpr: seq<word>
    var user: UserRegs
    var pc: word
    var msr: word
    var table: PageTable

    constructor ()
      ensures |gpr| == 32 && table == map[]
    {
      gpr, pc, msr, table := seq(32, _ => 0), 0, 0, map[];
      user := UserRegs(0, 0, 0, 0, 0, 0, [0, 0], [0, 0, 0, 0], seq(256, _ => 0), seq(512, _ => 0));
    }
  }

  class Guest {
    const pmem: PhysMem
    const ranges: List<MmuRange>
    const vmmOn: VmmPage
    const vmmOff: VmmPage
    /** The active page; null before the first guest_set_vmm. */
    var vmm: VmmPage?
    var msr: word
    /** MSR bits forced by the monitor: single stepping, and little-endian mode. */
    var monMsr: word
    var sdr1: word
    var pvr: word
    var srr0: word
    var srr1: word
    var ubat: seq<word>
    var sr: seq<word>
    var sprg: seq<word>
    var hid0: word

    /** The single CPU and translation state that the two pages stand for. */
    ghost function Abs(): Vm
      requires vmm != null && ranges.ring != [] && pmem.Valid()
      reads this, vmm, vmmOn, vmmOff, ranges, ranges.ring
    {
      Vm(Cpu(vmm.gpr, vmm.user, vmm.pc, msr, sdr1, pvr, srr0, srr1, ubat, sr, sprg),
         ranges.Items(), pmem.mem.Length, pmem.base, vmmOn.table, vmmOff.table)
    }

    /** The active page is the one MSR[IR, DR] asks for, and the cached translations are right. */
    ghost predicate Valid()
      reads this, vmm, vmmOn, vmmOff, ranges, ranges.ring
      ensures Valid() ==> vmm != null && ranges.ring != [] && pmem.Valid()
    {
      vmmOn != vmmOff && ranges.Valid() && pmem.Valid() &&
      vmm == (if MmuOn(msr) then vmmOn else vmmOff) && Coherent(Abs())
    }

    /** guest_is_little (guest.c:238-242) */
    predicate Little()
      reads this
    {
      And(monMsr, MSR_LE) != 0
    }

    /** guest_init (guest.c:132-194), with the range rom_init adds for the memory itself. */
    constructor (little: bool, pm: PhysMem, l: List<MmuRange>)
      requires pm.Valid() && pm.mem.Length > PAGE_SIZE
      requires l.Valid() && l.Items() == [MmuRange(0, pm.mem.Length - 1, 0, 0)]
      ensures Valid() && fresh(vmmOn) && fresh(vmmOff) && pmem == pm && ranges == l
      ensures monMsr == if little then MSR_LE else 0
      ensures hid0 == if little then HID0_601_RESET_VALUE + HID0_601_LM else HID0_601_RESET_VALUE
      ensures msr == MSR_RESET && pvr == PVR_601 && sr == seq(16, i requires 0 <= i < 16 => i)
      ensures Initial(Abs())
    {
      pmem, ranges := pm, l;
      vmmOff := new VmmPage();
      vmmOn := new VmmPage();
      vmm := null;
      pvr := PVR_601;
      sr := seq(16, i requires 0 <= i < 16 => i);
      ubat, sprg := seq(8, _ => 0), seq(4, _ => 0);
      srr0, srr1 := 0, 0;
      monMsr := if little then MSR_LE else 0;
      hid0 := if little then HID0_601_RESET_VALUE + HID0_601_LM else HID0_601_RESET_VALUE;
      sdr1 := SDR1_MAGIC_ROM_MODE;
      msr := 0;
      new;
      Reset();
    }

    /** The last step of guest_init: the MSR after a hard reset, with translation on. */
    method Reset()
      requires vmmOn != vmmOff && vmm == null && ranges.Valid() && pmem.Valid() && pmem.mem.Length > PAGE_SIZE
      requires |vmmOn.gpr| == |vmmOff.gpr| == 32 && vmmOn.table == vmmOff.table == map[]
      requires |ubat| == 8 && |sr| == 16 && |sprg| == 4 && sdr1 == SDR1_MAGIC_ROM_MODE
      requires ranges.Items() == [MmuRange(0, pmem.mem.Length - 1, 0, 0)]
      modifies `vmm, `msr, vmmOn, vmmOff
      ensures Valid() && Initial(Abs()) && msr == MSR_RESET
    {
      hide Or, Coherent, List.Valid, Initial;
      ResetBits();
      var stopped := SetMsr(MSR_RESET);
      StartsInitial(Abs());
    }

    /** guest_set_vmm (guest.c:68-89): the registers follow the CPU from page to page. */
    method SetVmm(mmuOn: bool)
      requires vmmOn != vmmOff && (vmm == null || vmm == vmmOn || vmm == vmmOff)
      modifies `vmm, vmmOn, vmmOff
      ensures vmm == if mmuOn then vmmOn else vmmOff
      ensures old(vmm) != null ==> vmm.gpr == old(vmm.gpr) && vmm.user == old(vmm.user) && vmm.pc == old(vmm.pc)
      ensures old(vmm) == null ==> vmm.gpr == old(vmmOn.gpr) || vmm.gpr == old(vmmOff.gpr)
      ensures vmmOn.table == old(vmmOn.table) && vmmOff.table == old(vmmOff.table)
    {
      var cur, next := vmm, if mmuOn then vmmOn else vmmOff;
      if cur == next {
        return;
      }
      if cur != null {
        next.gpr, next.user, next.pc, next.msr := cur.gpr, cur.user, cur.pc, cur.msr;
      }
      vmm := next;
    }

    /** guest_set_msr (guest.c:91-113): the guest's MSR is kept apart from the one the processor runs with. */
    method SetMsr(m: word) returns (stopped: bool)
      requires vmmOn != vmmOff && (vmm == null || vmm == vmmOn || vmm == vmmOff)
      modifies `vmm, `msr, vmmOn, vmmOff
      ensures stopped <==> !Consistent(m)
      ensures !stopped ==> msr == m && vmm == if MmuOn(m) then vmmOn else vmmOff
      ensures !stopped ==> vmm.msr as int == Or(m, monMsr)
      ensures !stopped && old(vmm) != null ==>
        vmm.gpr == old(vmm.gpr) && vmm.user == old(vmm.user) && vmm.pc == old(vmm.pc)
      ensures !stopped && old(vmm) == null ==> vmm.gpr == old(vmmOn.gpr) || vmm.gpr == old(vmmOff.gpr)
      ensures !stopped ==> vmmOn.table == old(vmmOn.table) && vmmOff.table == old(vmmOff.table)
    {
      var ir, dr := Ir(m), Dr(m);
      if ir != dr {
        return true;
      }
      SetVmm(ir || dr);
      Pow2Values();
      OrBelow(m, monMsr, 32);
      vmm.msr := Or(m, monMsr);
      msr := m;
      return false;
    }

    /** The guest's own code ran in the active context (pvp.c:72), with these values left in its registers and in
        memory; the processor's MSR is whatever the kernel reports. */
    method GuestRuns(gpr: seq<word>, user: UserRegs, pc: word, cpuMsr: word, ram: seq<byte>)
      requires Valid() && |gpr| == 32 && |ram| == pmem.mem.Length
      modifies vmm`gpr, vmm`user, vmm`pc, vmm`msr, pmem.mem
      ensures Valid() && Runs(Abs()) == Step(old(Abs()), Event.GuestRuns(gpr, user, pc))
      ensures pmem.mem[..] == ram && vmm.gpr == gpr && vmm.user == user && vmm.pc == pc
    {
      hide List.Valid, List.Items, Coherent;
      ghost var vm := Abs();
      vmm.gpr, vmm.user, vmm.pc, vmm.msr := gpr, user, pc, cpuMsr;
      forall i | 0 <= i < pmem.mem.Length {
        pmem.mem[i] := ram[i];
      }
      assert GuestStep(vm, gpr, user, pc) == Runs(Abs());
      GuestCoherent(vm, gpr, user, pc);
    }

    /** The end of rom_call (rom.c:1709-1717): the result in r3, and back to the caller. */
    method RomReturn(failed: bool)
      requires Valid()
      modifies vmm`gpr, vmm`pc
      ensures Valid() && vmm.gpr == old(vmm.gpr)[3 := if failed then 0xFFFF_FFFF else 0] && vmm.pc == vmm.user.lr
      ensures var c := old(Abs()).cpu;
        Runs(Abs()) ==
          Step(old(Abs()), Event.GuestRuns(c.gpr[3 := if failed then 0xFFFF_FFFF else 0], c.user, c.user.lr))
    {
      hide List.Valid, List.Items, Coherent;
      CoherentOk(Abs());
      ghost var vm := Abs();
      vmm.gpr := vmm.gpr[3 := if failed then 0xFFFF_FFFF else 0];
      vmm.pc := vmm.user.lr;
      assert GuestStep(vm, vmm.gpr, vmm.user, vmm.pc) == Runs(Abs());
      GuestCoherent(vm, vmm.gpr, vmm.user, vmm.pc);
    }

    /** guest_toggle_ss (guest.c:244-250): the guest's own state does not change. */
    method ToggleSs() returns (stopped: bool, on: bool)
      requires Valid()
      modifies this, vmmOn, vmmOff
      ensures !stopped && Valid() && Abs() == old(Abs())
      ensures on == (old(And(monMsr, MSR_SE)) == 0) && Little() == old(Little())
      ensures vmm.msr as int == Or(msr, monMsr)
    {
      ToggleBit(monMsr);
      monMsr := Xor(monMsr, MSR_SE);
      stopped := SetMsr(msr);
      on := And(monMsr, MSR_SE) != 0;
    }

    /** guest_unmap (guest.c:196-207). */
    method Unmap(ea: word)
      modifies vmmOn`table
      ensures vmmOn.table == Flushed(old(vmmOn.table), Page(ea))
    {
      vmmOn.table := vmmOn.table - {PageOf(ea)};
    }

    /** guest_unmap_all (guest.c:209-216). */
    method UnmapAll()
      modifies vmmOn`table
      ensures vmmOn.table == map[]
    {
      vmmOn.table := map[];
    }

    /** guest_map (guest.c:218-236); the kernel may refuse the mapping. */
    method Map(ha: word, ea: word, mapOk: bool) returns (stopped: bool, ok: bool)
      requires vmm != null
      modifies vmm`table
      ensures stopped <==> ha % PAGE_SIZE != 0 || ea % PAGE_SIZE != 0
      ensures !stopped ==> ok == mapOk
      ensures vmm.table == if !stopped && ok then old(vmm.table)[ea := ha] else old(vmm.table)
    {
      if ha % PAGE_SIZE != 0 || ea % PAGE_SIZE != 0 {
        return true, false;
      }
      if mapOk {
        vmm.table := vmm.table[ea := ha];
      }
      return false, mapOk;
    }

    /** guest_bat_fault (guest.c:346-377). */
    method BatLookup(ea: word) returns (r: Backmapped)
      requires Valid()
      ensures r == BatFault(Abs().cpu, ea)
    {
      if pvr != PVR_601 {
        return Stops;
      }
      if And(sr[ea / 0x1000_0000], 0x8000_0000) == 1 {
        return NotFound;
      }
      for i := 0 to 4
        invariant forall k :: 0 <= k < i ==> ubat[2 * k] / 0x2_0000 != ea / 0x2_0000
      {
        if ubat[2 * i] / 0x2_0000 == ea / 0x2_0000 {
          return Stops;
        }
      }
      return NotFound;
    }

    /** guest_backmap_ex (guest.c:379-421). */
    method BackmapEx(ea: word, tryFast: bool) returns (r: Backmapped)
      requires Valid()
      ensures r == GuestMmu.Backmap(Abs(), ea, tryFast)
    {
      if !MmuOn(msr) {
        return if ea < pmem.mem.Length then Found(ea) else NotFound;
      }
      if tryFast && PageOf(ea) in vmm.table {
        var gra := pmem.Gra(Wrap(vmm.table[PageOf(ea)] + ea % PAGE_SIZE));
        return if gra >= 0 then Found(gra) else Unset;
      }
      if sdr1 == SDR1_MAGIC_ROM_MODE {
        var gra := RomFault(ranges, ea);
        return if gra.Some? then Found(gra.value) else NotFound;
      }
      r := BatLookup(ea);
    }

    /** guest_backmap (guest.c:423-427): what the cache holds does not show. */
    method Backmap(ea: word) returns (r: Backmapped)
      requires Valid()
      ensures r == GuestMmu.Backmap(Abs(), ea, false) && !r.Unset?
    {
      hide GuestMmu.Backmap;
      r := BackmapEx(ea, true);
      FastIsSlow(Abs(), ea);
    }

    /** guest_fault (guest.c:429-482), from what the kernel reported: a page that lies in memory is mapped there. */
    method Fault(gea: word, badPerm: bool, notPresent: bool, mapOk: bool) returns (stopped: bool, ok: bool)
      requires Valid()
      modifies vmm`table
      ensures var r := FaultStep(old(Abs()), gea, badPerm, notPresent, mapOk);
        stopped == r.Halts? && (!stopped ==> Valid() && ok == r.Runs? && Abs() == if ok then r.vm else old(Abs()))
      ensures !stopped ==> (ok <==> notPresent && mapOk && Backing(old(Abs()), PageOf(gea)).Some?)
      ensures !stopped && ok ==>
        vmm.table == old(vmm.table)[PageOf(gea) := pmem.base + Backing(old(Abs()), PageOf(gea)).value]
    {
      hide GuestMmu.Backmap, List.Valid, List.Items, Coherent, Backing, FaultBug;
      AbsOk();
      FaultEnds(Abs(), gea, badPerm, notPresent, mapOk);
      if badPerm {
        return true, false;
      }
      if !notPresent {
        return false, false;
      }
      var ea := PageOf(gea);
      var b := BackmapEx(ea, false);
      if b.Stops? {
        return true, false;
      }
      if !b.Found? {
        return false, false;
      }
      if b.gra >= pmem.mem.Length {
        return true, false;
      }
      stopped, ok := Map(pmem.Ha(b.gra), ea, mapOk);
      if ok && !stopped {
        FaultCoherent(old(Abs()), gea, badPerm, notPresent, mapOk);
        assert Abs() == FaultStep(old(Abs()), gea, badPerm, notPresent, mapOk).vm;
      }
    }

    /** The client interface's map call (rom.c:583-614), while translations of the guest are cached. */
    method MapRanges(mode: word, size: word, virt: word, phys: word) returns (stopped: bool, ok: bool)
      requires Valid()
      modifies ranges, ranges.ring
      ensures var r := Step(old(Abs()), Event.MapRanges(mode, size, virt, phys));
        stopped == r.Halts? && (!stopped ==> Valid() && ok == r.Runs? && Abs() == if ok then r.vm else old(Abs()))
    {
      hide List.Valid, List.Items, Coherent, MapCall;
      ghost var vm := Abs();
      var failed;
      stopped, failed := RomMmuCall(ranges, pmem.mem.Length, mode, size, virt, phys);
      ok := !failed;
      if !stopped && ok {
        MapCoherent(vm, mode, size, virt, phys);
      }
    }

    // ---- Copying to and from guest memory.

    lemma AbsOk()
      requires Valid()
      ensures Coherent(Abs()) && CpuOk(Abs().cpu) && Abs().cpu.pc == vmm.pc &&
        |Memory()| == Abs().ram == pmem.mem.Length
      ensures Abs().cpu.gpr == vmm.gpr && (vmm == vmmOn || vmm == vmmOff)
    {
    }

    /** Guest memory as the guest's bytes. */
    ghost function Memory(): (v: seq<byte>)
      requires pmem.Valid()
      reads this, pmem.mem
      ensures |v| == pmem.mem.Length && |v| % 8 == 0
    {
      pmem.Contents(Little())
    }

    /** One pass of the loop of guest_to: at most a page. */
    method ToChunk(ea: word, src: array<byte>, at: nat, x: nat, size: word)
      returns (stopped: bool, astray: bool, n: nat)
      requires Valid() && src != pmem.mem && at + x <= src.Length && ea % PAGE_SIZE + x <= PAGE_SIZE
      requires AccessOk(size)
      modifies pmem.mem
      ensures Valid() && Abs() == old(Abs()) && Little() == old(Little())
      ensures stopped <==>
        if Phys(Abs(), ea).Some? then x % size != 0 else GuestMmu.Backmap(Abs(), ea, false).Stops?
      ensures astray <==> !FitsUnaligned(Abs(), ea, x, size, Little())
      ensures !stopped && !astray ==> n == Reach(Abs(), ea, x)
      ensures !stopped && !astray && !Unaligned(ea, size, Little()) ==>
        Memory() == WriteThrough(Abs(), old(Memory()), ea, Elements(src[at..at + x], size, Little()))
      ensures !stopped && !astray && Unaligned(ea, size, Little()) ==>
        pmem.mem[..] == StoredUnaligned(Abs(), old(pmem.mem[..]), ea, src[at..at + x], size)
    {
      hide GuestMmu.Backmap, List.Valid, Coherent, Elements, Reach, WriteThrough, View, Little, Splice, SlotsInside;
      hide MungedStores;
      CoherentOk(Abs());
      ReachPage(Abs(), ea, x);
      ghost var e, m := src[at..at + x], pmem.mem[..];
      var b := Backmap(ea);
      if !b.Found? {
        WriteNone(Abs(), Memory(), ea, Elements(e, size, Little()));
        return b.Stops?, false, 0;
      }
      if Phys(Abs(), ea).Some? {
        PhysPage(Abs(), ea, 0);
        PhysSpan(Abs(), ea, x);
        if x % size == 0 {
          StoredChunk(Abs(), m, ea, e, size, Little());
        }
        if x == 0 {
          NothingStored(m, b.gra, size);
          assert e == [];
        }
      } else {
        WriteNone(Abs(), Memory(), ea, Elements(e, size, Little()));
      }
      stopped, astray, n := pmem.PmemTo(b.gra, src, at, x, size, Little());
    }

    /** guest_to (guest.c:307-344): the elements of src[..bytes], stored byte by byte from dest on, up to the first
        byte that does not translate. An unaligned copy for a little-endian guest lands elsewhere; `astray` is an
        access past the end of memory. */
    method GuestTo(dest: word, src: array<byte>, bytes: nat, size: word)
      returns (stopped: bool, astray: bool, ok: bool)
      requires Valid() && src != pmem.mem && bytes <= src.Length
      requires AccessOk(size)
      modifies pmem.mem
      ensures Valid() && Abs() == old(Abs()) && Little() == old(Little())
      ensures stopped <==> CopyHalts(Abs(), dest, bytes, size)
      ensures astray <==> !FitsUnaligned(Abs(), dest, bytes, size, Little())
      ensures !stopped && !astray ==> (ok <==> Reach(Abs(), dest, bytes) == bytes)
      ensures !stopped && !astray && !Unaligned(dest, size, Little()) ==>
        var k := Reach(Abs(), dest, bytes);
        k % size == 0 && Memory() == WriteThrough(Abs(), old(Memory()), dest, Elements(src[..k], size, Little()))
      ensures !stopped && !astray && Unaligned(dest, size, Little()) ==>
        pmem.mem[..] == StoredUnaligned(Abs(), old(pmem.mem[..]), dest, src[..bytes], size)
    {
      hide Valid, Abs, Little, Memory, GuestMmu.Backmap, Elements, Reach, WriteThrough, Phys, CopyHalts;
      hide Coherent, Chunk, Wrap, FitsUnaligned, StoredUnaligned;
      ghost var vm, little, view, all, m := Abs(), Little(), Memory(), src[..bytes], pmem.mem[..];
      ghost var plain := !Unaligned(dest, size, little);
      AbsOk();
      NothingDone(vm, view, dest, size, little);
      UnalignedFits(vm, dest, bytes, size, little);
      AlignedFits(vm, dest, bytes, size, little);
      ModZero(size);
      var left: nat, s: nat, d := bytes, 0, dest;
      assert all[..0] == [];
      while true
        invariant s + left == bytes && d == Wrap(dest + s) && s % size == 0 && (plain && little ==> d % size == 0)
        invariant Valid() && Abs() == vm && Little() == little && Reach(vm, dest, s) == s
        invariant src[..bytes] == all
        invariant plain ==> Memory() == WriteThrough(vm, view, dest, Elements(all[..s], size, little))
        invariant !plain ==> s == 0 && pmem.mem[..] == m
        invariant s > 0 ==> left > 0 && d % PAGE_SIZE == 0 && Chunk(dest, bytes) % size == 0
        decreases left
      {
        var x, n := Chunk(d, left), 0;
        NextChunk(dest, s, left, size);
        ghost var before, rest := Memory(), all[s..];
        Slices(all, s, x);
        ArraySlice(src, bytes, s, s + x);
        AlignedFits(vm, d, x, size, little);
        stopped, astray, n := ToChunk(d, src, s, x, size);
        AstrayHere(vm, d, x, size, little);
        if Phys(vm, d).None? {
          ChunkMissing(vm, dest, s, left, size);
          WriteNone(vm, before, d, Elements(rest[..x], size, little));
          NoneUnaligned(vm, m, d, all, size);
          NoneUnaligned(vm, m, d, rest[..x], size);
        } else {
          ChunkPresent(vm, dest, s, left, size);
        }
        if stopped || astray {
          return stopped, astray, false;
        }
        left := left - n;
        if n != x {
          break;
        }
        if x % size == 0 {
          WriteStep(vm, view, dest, all[..s], rest, x, size, little);
        }
        s, d := s + x, Wrap(d + x);
        if left == 0 {
          break;
        }
      }
      ArraySlice(src, bytes, 0, s);
      assert src[..s] == all[..s] && all[..bytes] == all;
      ok := left == 0;
    }

    /** One pass of the loop of guest_from_ex. */
    method FromChunk(dest: array<byte>, at: nat, ea: word, x: nat, size: word)
      returns (stopped: bool, astray: bool, n: nat)
      requires Valid() && dest != pmem.mem && at + x <= dest.Length && ea % PAGE_SIZE + x <= PAGE_SIZE
      requires AccessOk(size)
      modifies dest
      ensures stopped <==>
        if Phys(Abs(), ea).Some? then x % size != 0 else GuestMmu.Backmap(Abs(), ea, false).Stops?
      ensures astray <==> !FitsUnaligned(Abs(), ea, x, size, Little())
      ensures !stopped && !astray ==> n == Reach(Abs(), ea, x)
      ensures !stopped && !astray && !Unaligned(ea, size, Little()) ==>
        dest[..] == Splice(old(dest[..]), at, Elements(ReadThrough(Abs(), Memory(), ea, x), size, Little()))
      ensures !stopped && !astray && Unaligned(ea, size, Little()) ==>
        dest[..] == Splice(old(dest[..]), at, LoadedUnaligned(Abs(), pmem.mem[..], ea, x, size))
    {
      hide GuestMmu.Backmap, List.Valid, Coherent, Elements, Reach, ReadThrough, View, Little, Splice, SlotsInside;
      hide MungedLoads;
      CoherentOk(Abs());
      ReachPage(Abs(), ea, x);
      SpliceNone(dest[..], at);
      ElementsShort([], size, Little());
      var b := Backmap(ea);
      if !b.Found? {
        ReadNone(Abs(), Memory(), ea, x);
        return b.Stops?, false, 0;
      }
      if Phys(Abs(), ea).Some? {
        PhysPage(Abs(), ea, 0);
        PhysSpan(Abs(), ea, x);
        if x % size == 0 {
          LoadedChunk(Abs(), pmem.mem[..], ea, x, size, Little());
        }
        if x == 0 {
          NothingStored(pmem.mem[..], b.gra, size);
        }
      } else {
        ReadNone(Abs(), Memory(), ea, x);
      }
      stopped, astray, n := pmem.PmemFrom(dest, at, b.gra, x, size, Little());
    }

    /** guest_from_ex without nul_term (guest.c:252-290): the elements loaded byte by byte from src on, up to the
        first byte that does not translate; n is the number of bytes. */
    method GuestFrom(dest: array<byte>, src: word, bytes: nat, size: word)
      returns (stopped: bool, astray: bool, n: nat)
      requires Valid() && dest != pmem.mem && bytes <= dest.Length
      requires AccessOk(size)
      modifies dest
      ensures stopped <==> CopyHalts(Abs(), src, bytes, size)
      ensures astray <==> !FitsUnaligned(Abs(), src, bytes, size, Little())
      ensures !stopped && !astray ==> n == Reach(Abs(), src, bytes)
      ensures !stopped && !astray && !Unaligned(src, size, Little()) ==>
        dest[..] == Splice(old(dest[..]), 0, Elements(ReadThrough(Abs(), Memory(), src, bytes), size, Little()))
      ensures !stopped && !astray && Unaligned(src, size, Little()) ==>
        dest[..] == Splice(old(dest[..]), 0, LoadedUnaligned(Abs(), pmem.mem[..], src, bytes, size))
    {
      hide Valid, Abs, Little, Memory, GuestMmu.Backmap, Elements, Reach, ReadThrough, Phys, CopyHalts;
      hide Coherent, Chunk, Wrap, Splice, FitsUnaligned, LoadedUnaligned;
      ghost var vm, little, view, was, m := Abs(), Little(), Memory(), dest[..], pmem.mem[..];
      ghost var plain := !Unaligned(src, size, little);
      AbsOk();
      NothingDone(vm, view, src, size, little);
      UnalignedFits(vm, src, bytes, size, little);
      AlignedFits(vm, src, bytes, size, little);
      ModZero(size);
      SpliceNone(was, 0);
      var left: nat, s: nat, d := bytes, 0, src;
      while true
        invariant s + left == bytes && d == Wrap(src + s) && s % size == 0 && (plain && little ==> d % size == 0)
        invariant Reach(vm, src, s) == s
        invariant plain ==> dest[..] == Splice(was, 0, Elements(ReadThrough(vm, view, src, s), size, little))
        invariant !plain ==> s == 0 && dest[..] == was
        invariant s > 0 ==> left > 0 && d % PAGE_SIZE == 0 && Chunk(src, bytes) % size == 0
        decreases left
      {
        var x, k := Chunk(d, left), 0;
        NextChunk(src, s, left, size);
        AlignedFits(vm, d, x, size, little);
        SpliceNone(dest[..], s);
        stopped, astray, k := FromChunk(dest, s, d, x, size);
        AstrayHere(vm, d, x, size, little);
        if Phys(vm, d).None? {
          ChunkMissing(vm, src, s, left, size);
          ReadEnds(vm, view, src, s, left);
          ReadNone(vm, view, d, x);
          NothingDone(vm, view, d, size, little);
          NoneLoaded(vm, m, d, x, size);
          NoneLoaded(vm, m, d, bytes, size);
        } else {
          ChunkPresent(vm, src, s, left, size);
        }
        if stopped || astray {
          return stopped, astray, 0;
        }
        left := left - k;
        if k != x {
          break;
        }
        if x % size == 0 {
          ReadStep(vm, view, src, s, x, size, little, was);
        }
        s, d := s + x, Wrap(d + x);
        if left == 0 {
          break;
        }
      }
      n := bytes - left;
    }

    // ---- Emulation.

    /** For a little-endian guest, what the host has in memory. */
    lemma HostMemory()
      requires pmem.Valid()
      ensures Little() ==> pmem.mem[..] == View(Memory(), true)
    {
      hide View;
      ViewTwice(pmem.mem[..], true);
    }

    /** guest_from of words, into all of a buffer. */
    method Load(dest: array<byte>, ea: word) returns (stopped: bool, astray: bool, n: nat)
      requires Valid() && dest != pmem.mem && dest.Length % 4 == 0
      modifies dest
      ensures stopped <==> CopyHalts(Abs(), ea, dest.Length, 4)
      ensures astray <==> !FitsUnaligned(Abs(), ea, dest.Length, 4, Little())
      ensures !stopped && !astray ==>
        n == Reach(Abs(), ea, dest.Length) &&
        dest[..] == Splice(old(dest[..]), 0, Loaded(Abs(), Memory(), ea, dest.Length, 4, Little()))
    {
      hide Valid, Abs, Little, Memory, Elements, CopyHalts, Reach, ReadThrough, Coherent, FitsUnaligned;
      hide LoadedUnaligned;
      hide View, Splice;
      AbsOk();
      HostMemory();
      stopped, astray, n := GuestFrom(dest, ea, dest.Length, 4);
    }

    /** guest_from_x into a 32-bit word. */
    method Fetch(ea: word) returns (stopped: bool, astray: bool, w: Option<bv32>)
      requires Valid()
      ensures stopped <==> CopyHalts(Abs(), ea, 4, 4)
      ensures astray <==> !FitsUnaligned(Abs(), ea, 4, 4, Little())
      ensures !stopped && !astray ==> w == WordAt(Abs(), Memory(), ea, Little())
    {
      hide Valid, Abs, Little, Memory, CopyHalts, Reach, Coherent, FitsUnaligned, Loaded;
      AbsOk();
      var b := new byte[4];
      var n;
      stopped, astray, n := Load(b, ea);
      if stopped || astray || n != 4 {
        return stopped, astray, None;
      }
      LoadedAll(Abs(), Memory(), ea, 4, Little());
      assert b[..] == Loaded(Abs(), Memory(), ea, 4, 4, Little());
      w := Some(BigEndian(b[0], b[1], b[2], b[3]));
    }

    /** The switch of mfspr (guest.c:580-641). */
    method MoveFromSpr(spr: bv32) returns (v: Option<word>)
      requires Valid()
      ensures v == ReadSpr(Abs().cpu, spr)
    {
      if spr == SPRN_PVR {
        v := Some(pvr);
      } else if spr == SPRN_SRR0 {
        v := Some(srr0);
      } else if spr == SPRN_SRR1 {
        v := Some(srr1);
      } else if SPRN_IBAT0U <= spr <= SPRN_IBAT3L {
        v := Some(ubat[BatIndex(spr)]);
      } else if SPRN_DBAT0U <= spr <= SPRN_DBAT3L {
        v := Some(0);
      } else if SPRN_SPRG0 <= spr <= SPRN_SPRG3 {
        v := Some(sprg[SprgIndex(spr)]);
      } else if spr == SPRN_SDR1 {
        v := Some(sdr1);
      } else {
        v := None;
      }
    }

    /** The switch of mtspr (guest.c:642-693), with the flush of a guest that leaves ROM mode. */
    method MoveToSpr(spr: bv32, v: word) returns (ok: bool)
      requires Valid()
      modifies `srr0, `srr1, `ubat, `sprg, `sdr1, vmmOn`table
      ensures ok <==> WriteSpr(old(Abs()).cpu, spr, v).Some?
      ensures vmm != null && ranges.ring != []
      ensures !ok ==> Abs() == old(Abs())
      ensures ok ==> var d := WriteSpr(old(Abs()).cpu, spr, v).value;
        Abs() == old(Abs()).(cpu := d, on := Flushed(old(Abs()).on, SdrFlush(old(sdr1), d.sdr1)))
    {
      hide List.Valid, Coherent, BatIndex, SprgIndex, Consistent, List.Items;
      CoherentOk(Abs());
      ok := true;
      if spr == SPRN_SRR0 {
        srr0 := v;
      } else if spr == SPRN_SRR1 {
        srr1 := v;
      } else if SPRN_IBAT0U <= spr <= SPRN_IBAT3L {
        ubat := ubat[BatIndex(spr) := v];
      } else if SPRN_SPRG0 <= spr <= SPRN_SPRG3 {
        sprg := sprg[SprgIndex(spr) := v];
      } else if spr == SPRN_SDR1 {
        if v != SDR1_MAGIC_ROM_MODE && sdr1 == SDR1_MAGIC_ROM_MODE {
          UnmapAll();
        }
        sdr1 := v;
      } else {
        ok := false;
      }
    }

    /** tlbie, mfsr and mtsr (guest.c:549-574). */
    method PerformSegment(insn: bv32, next: bv32)
      requires Valid()
      requires insn & INST_MASK == INST_TLBIE || insn & INST_MASK == INST_MFSR || insn & INST_MASK == INST_MTSR
      modifies `sr, vmmOn, vmmOff
      ensures vmm != null && EmulateStep(old(Abs()), insn, next) == Runs(Abs())
    {
      hide List.Valid, Coherent, List.Items, RegField, TlbField, SrField, MmuOn, Consistent;
      CoherentOk(Abs());
      var op, r := insn & INST_MASK, RegField(insn);
      if op == INST_TLBIE {
        if next == INST_SYNC {
          UnmapAll();
        } else {
          Unmap(vmm.gpr[TlbField(insn) as int]);
        }
      } else if op == INST_MFSR {
        vmm.gpr := vmm.gpr[r as int := sr[SrField(insn) as int]];
      } else {
        sr := sr[SrField(insn) as int := vmm.gpr[r as int]];
      }
      vmm.pc := Wrap(vmm.pc + 4);
    }

    /** rfi, mfmsr and mtmsr (guest.c:575-579, 694-702): the registers and the PC follow the switch of pages. */
    method PerformMsr(insn: bv32, next: bv32) returns (stopped: bool)
      requires Valid()
      requires insn & INST_MASK == INST_RFI || insn & INST_MASK == INST_MFMSR || insn & INST_MASK == INST_MTMSR
      modifies `vmm, `msr, vmmOn, vmmOff
      ensures stopped <==> EmulateStep(old(Abs()), insn, next).Halts?
      ensures !stopped ==> vmm != null && EmulateStep(old(Abs()), insn, next) == Runs(Abs())
      ensures !stopped ==> vmm == if MmuOn(msr) then vmmOn else vmmOff
      ensures !stopped && insn & INST_MASK != INST_MFMSR ==> vmm.msr as int == Or(msr, monMsr)
    {
      hide List.Valid, Coherent, List.Items, RegField, TlbField, SrField, MmuOn, Consistent;
      CoherentOk(Abs());
      var op, r := insn & INST_MASK, RegField(insn);
      if op == INST_RFI {
        stopped := SetMsr(srr1);
        if stopped {
          return;
        }
        vmm.pc := srr0;
      } else if op == INST_MFMSR {
        stopped := false;
        vmm.gpr := vmm.gpr[r as int := msr];
        vmm.pc := Wrap(vmm.pc + 4);
      } else {
        stopped := SetMsr(vmm.gpr[r as int]);
        if stopped {
          return;
        }
        vmm.pc := Wrap(vmm.pc + 4);
      }
    }

    /** mfspr and mtspr (guest.c:580-693). */
    method PerformSpr(insn: bv32, next: bv32) returns (ok: bool)
      requires Valid() && (insn & INST_MASK == INST_MFSPR || insn & INST_MASK == INST_MTSPR)
      modifies `srr0, `srr1, `ubat, `sprg, `sdr1, vmmOn, vmmOff
      ensures vmm != null && ranges.ring != []
      ensures EmulateStep(old(Abs()), insn, next) == if ok then Runs(Abs()) else Fails
      ensures !ok ==> Abs() == old(Abs())
    {
      hide List.Valid, Coherent, List.Items, RegField, SprField, MmuOn, Consistent, ReadSpr, WriteSpr, Execute;
      CoherentOk(Abs());
      var op, r, spr := insn & INST_MASK, RegField(insn), SprField(insn);
      if op == INST_MFSPR {
        ExecuteMfspr(Abs().cpu, insn, next);
        var v := MoveFromSpr(spr);
        if v.None? {
          return false;
        }
        vmm.gpr := vmm.gpr[r as int := v.value];
      } else {
        ExecuteMtspr(Abs().cpu, insn, next);
        ok := MoveToSpr(spr, vmm.gpr[r as int]);
        if !ok {
          return false;
        }
      }
      vmm.pc := Wrap(vmm.pc + 4);
      return true;
    }

    /** The instruction does to the two pages what it does to the one CPU they stand for. */
    method Perform(insn: bv32, next: bv32) returns (stopped: bool, ok: bool)
      requires Valid()
      modifies this, vmmOn, vmmOff
      ensures monMsr == old(monMsr)
      ensures var r := EmulateStep(old(Abs()), insn, next);
        stopped == r.Halts? &&
        (!stopped ==> Valid() && ok == r.Runs? && Abs() == if r.Runs? then r.vm else old(Abs()))
    {
      hide List.Valid, Coherent, EmulateStep, MmuOn;
      CoherentOk(Abs());
      ghost var vm := Abs();
      var op := insn & INST_MASK;
      stopped, ok := false, true;
      if op == INST_TLBIE || op == INST_MFSR || op == INST_MTSR {
        PerformSegment(insn, next);
      } else if op == INST_RFI || op == INST_MFMSR || op == INST_MTMSR {
        stopped := PerformMsr(insn, next);
      } else if op == INST_MFSPR || op == INST_MTSPR {
        ok := PerformSpr(insn, next);
      } else {
        UnknownFails(vm, insn, next);
        ok := false;
      }
      if !stopped && ok {
        EmulateCoherent(vm, insn, next);
      }
    }

    /** The lock sequences of one operating system (guest.c:505-547): when the words after the instruction are a
        sequence's, the lock is stored and the sequence skipped. */
    method SkipLock(insn: bv32, cmp: array<byte>) returns (stopped: bool, astray: bool, skipped: bool)
      requires Valid() && cmp.Length == 16 && cmp != pmem.mem
      modifies cmp, pmem.mem, vmm`pc
      ensures var r := TryLock(old(Abs()), old(Memory()), old(Little()), insn, old(cmp[..]));
        stopped == r.LockHalts? && astray == r.LockAstray? && skipped == r.Skipped? &&
        (r.NoLock? ==> Valid() && Little() == old(Little()) && Abs() == old(Abs()) && Memory() == old(Memory())) &&
        (r.Skipped? ==> Valid() && Little() == old(Little()) && Abs() == r.vm && Memory() == r.view)
    {
      hide Valid, Abs, Little, Memory, CopyHalts, Reach, Coherent, Splice, Bytes32, LockOf, FitsUnaligned, Loaded;
      hide Stored;
      AbsOk();
      stopped, astray, skipped := false, false, false;
      if LockOf(insn).None? {
        return;
      }
      var l := LockOf(insn).value;
      FitsOrHalts(Abs(), Wrap(vmm.pc + 4), 16, 4, Little());
      FitsOrHalts(Abs(), vmm.gpr[l.reg], 4, 4, Little());
      var n;
      stopped, astray, n := Load(cmp, Wrap(vmm.pc + 4));
      if stopped || astray || cmp[..] != RestBytes(l) {
        return;
      }
      stopped, astray := StoreLock(vmm.gpr[l.reg]);
      if stopped || astray {
        return;
      }
      skipped := true;
      Jump(Wrap(vmm.pc + 4 * l.words));
    }

    /** The first word of the sprg registers to a lock's address; whether that succeeds is not looked at. */
    method StoreLock(ea: word) returns (stopped: bool, astray: bool)
      requires Valid()
      modifies pmem.mem
      ensures Valid() && Abs() == old(Abs()) && Little() == old(Little())
      ensures stopped <==> CopyHalts(Abs(), ea, 4, 4)
      ensures astray <==> !FitsUnaligned(Abs(), ea, 4, 4, Little())
      ensures !stopped && !astray ==>
        Memory() == Stored(Abs(), old(Memory()), ea, Bytes32(Abs().cpu.sprg[0]), 4, Little())
    {
      hide Valid, Little, Memory, Elements, CopyHalts, Reach, WriteThrough, Coherent, Bytes32, List.Valid, List.Items;
      hide FitsUnaligned, StoredUnaligned, View;
      AbsOk();
      HostMemory();
      var b := new byte[4];
      FillCell(b, sprg[0]);
      assert b[..4] == b[..];
      ghost var all := Elements(Bytes32(sprg[0]), 4, Little());
      ghost var k := Reach(Abs(), ea, 4);
      WriteReach(Abs(), Memory(), ea, all);
      var ok;
      stopped, astray, ok := GuestTo(ea, b, 4, 4);
      LittleIs();
      if !stopped && !astray && k % 4 == 0 {
        WordOrNothing(b[..], k, Little());
      }
    }

    method Jump(to: word)
      requires Valid()
      modifies vmm`pc
      ensures Valid() && Abs() == old(Abs()).(cpu := old(Abs()).cpu.(pc := to)) && Little() == old(Little())
      ensures Memory() == old(Memory())
    {
      hide List.Valid, List.Items, Coherent, Little;
      CoherentOk(Abs());
      ghost var vm := Abs();
      vmm.pc := to;
      assert GuestStep(vm, vmm.gpr, vmm.user, to) == Runs(Abs());
      GuestCoherent(vm, vmm.gpr, vmm.user, to);
    }

    /** guest_emulate (guest.c:484-714); `stack` is what its comparison buffer holds before. */
    method Emulate(stack: seq<byte>) returns (stopped: bool, astray: bool, ok: bool)
      requires Valid() && |stack| == 16
      modifies this, vmmOn, vmmOff, pmem.mem
      ensures match EmulateAt(old(Abs()), old(Memory()), old(Little()), stack)
        case Astray => !stopped && astray
        case Ended(r, view) =>
          !astray && stopped == r.Halts? &&
          (!stopped ==>
            Valid() && ok == r.Runs? && Abs() == (if r.Runs? then r.vm else old(Abs())) && Memory() == view &&
            Little() == old(Little()))
    {
      hide List.Valid, Coherent, EmulateStep, WordAt, NextAt, NextHalts, CopyHalts, Valid, Memory, Abs, Little;
      hide TryLock, FitsUnaligned, NextAstray;
      AbsOk();
      LittleIs();
      var insn, next := None, 0;
      stopped, astray, insn := Fetch(vmm.pc);
      if stopped || astray || insn.None? {
        FitsOrHalts(Abs(), vmm.pc, 4, 4, Little());
        return stopped, astray, false;
      }
      var cmp := new byte[16](i requires 0 <= i < 16 => stack[i]);
      assert cmp[..] == stack;
      stopped, astray, ok := SkipLock(insn.value, cmp);
      if stopped || astray || ok {
        return;
      }
      AbsOk();
      LittleIs();
      stopped, astray, next := FetchNext(insn.value);
      if stopped || astray {
        return stopped, astray, false;
      }
      stopped, ok := Perform(insn.value, next);
      LittleIs();
    }

    lemma LittleIs()
      ensures Little() <==> And(monMsr, MSR_LE) != 0
      ensures pmem.Valid() ==> |pmem.mem[..]| % 8 == 0 && Memory() == View(pmem.mem[..], Little())
    {
    }

    /** What tlbie reads after itself; 0 for the other instructions, which do not look. */
    method FetchNext(insn: bv32) returns (stopped: bool, astray: bool, next: bv32)
      requires Valid()
      ensures stopped <==> NextHalts(Abs(), insn)
      ensures astray <==> NextAstray(Abs(), Little(), insn)
      ensures !(stopped && astray)
      ensures !stopped && !astray ==> next == NextAt(Abs(), Memory(), Little(), insn)
    {
      hide List.Valid, Coherent, WordAt, CopyHalts, Memory, Little, FitsUnaligned;
      AbsOk();
      stopped, astray, next := false, false, 0;
      if insn & INST_MASK == INST_TLBIE {
        var w;
        FitsOrHalts(Abs(), Wrap(vmm.pc + 4), 4, 4, Little());
        stopped, astray, w := Fetch(Wrap(vmm.pc + 4));
        next := if w.Some? then w.value else 0;
      }
    }
  }

  lemma UnknownFails(vm: Vm, insn: bv32, next: bv32)
    requires CpuOk(vm.cpu)
    requires var op := insn & INST_MASK;
      op != INST_TLBIE && op != INST_MFSR && op != INST_MTSR && op != INST_RFI && op != INST_MFMSR &&
      op != INST_MTMSR &&
      op != INST_MFSPR && op != INST_MTSPR
    ensures EmulateStep(vm, insn, next) == Fails
  {
    hide ReadSpr, WriteSpr;
  }

  predicate NextHalts(vm: Vm, insn: bv32)
    requires CpuOk(vm.cpu)
  {
    insn & INST_MASK == INST_TLBIE && CopyHalts(vm, Wrap(vm.cpu.pc + 4), 4, 4)
  }

  predicate NextAstray(vm: Vm, little: bool, insn: bv32)
    requires CpuOk(vm.cpu)
  {
    insn & INST_MASK == INST_TLBIE && !FitsUnaligned(vm, Wrap(vm.cpu.pc + 4), 4, 4, little)
  }

  function NextAt(vm: Vm, view: seq<byte>, little: bool, insn: bv32): bv32
    requires CpuOk(vm.cpu) && |view| == vm.ram && |view| % 8 == 0
  {
    if insn & INST_MASK != INST_TLBIE then 0
    else
      var w := WordAt(vm, view, Wrap(vm.cpu.pc + 4), little);
      if w.Some? then w.value else 0
  }

  /** A lock sequence that is not emulated but skipped: what follows its first word, the register with the address of
      the lock, and how many words long it is. */
  datatype LockSeq = LockSeq(rest: seq<bv32>, reg: nat, words: nat)

  function LockOf(insn: bv32): (l: Option<LockSeq>)
    ensures l.Some? ==> l.value.reg < 32 && |l.value.rest| == 4
  {
    if insn == 0x7d70_42a6 then Some(LockSeq([0x4082_0014, 0x7d60_512d, 0x4082_000c, 0x4c00_012c], 10, 10))
    else if insn == 0x7cb0_42a6 then Some(LockSeq([0x4082_0024, 0x7ca0_192d, 0x4082_001c, 0x4c00_012c], 3, 5))
    else if insn == 0x7cf0_42a6 then Some(LockSeq([0x4082_0014, 0x7ce0_492d, 0x4082_000c, 0x4c00_012c], 9, 5))
    else None
  }

  /** The bytes of the words after the first. */
  function RestBytes(l: LockSeq): (b: seq<byte>)
    requires |l.rest| == 4
    ensures |b| == 16
  {
    WordBytes(l.rest[0]) + WordBytes(l.rest[1]) + WordBytes(l.rest[2]) + WordBytes(l.rest[3])
  }

  /** What looking for a lock sequence comes to: it is none, a BUG_ON, an access past the end of memory, or the state
      and the memory after skipping it. */
  datatype LockTried = NoLock | LockHalts | LockAstray | Skipped(vm: Vm, view: seq<byte>)

  /** The words at the PC, after the first, are compared with the sequence's; any that cannot be read are those of the
      stack. The lock is stored if it can be. */
  function TryLock(vm: Vm, view: seq<byte>, little: bool, insn: bv32, stack: seq<byte>): (r: LockTried)
    requires CpuOk(vm.cpu) && |view| == vm.ram && |view| % 8 == 0 && |stack| == 16
    ensures r.Skipped? ==> r.vm == PastLock(vm, LockOf(insn)) && |r.view| == vm.ram
  {
    match LockOf(insn)
    case None => NoLock
    case Some(l) =>
      var next, a := Wrap(vm.cpu.pc + 4), vm.cpu.gpr[l.reg];
      if CopyHalts(vm, next, 16, 4) then LockHalts
      else if !FitsUnaligned(vm, next, 16, 4, little) then LockAstray
      else if Splice(stack, 0, Loaded(vm, view, next, 16, 4, little)) != RestBytes(l) then NoLock
      else if CopyHalts(vm, a, 4, 4) then LockHalts
      else if !FitsUnaligned(vm, a, 4, 4, little) then LockAstray
      else Skipped(PastLock(vm, Some(l)), Stored(vm, view, a, Bytes32(vm.cpu.sprg[0]), 4, little))
  }

  function PastLock(vm: Vm, l: Option<LockSeq>): Vm {
    if l.None? then vm else vm.(cpu := vm.cpu.(pc := Wrap(vm.cpu.pc + 4 * l.value.words)))
  }

  /** The fields of an instruction that moves between a register and a location: the register, and the one with the
      address. */
  function Rs(w: bv32): bv5 { RegField(w) }
  function Rb(w: bv32): bv5 { TlbField(w) }

  /** The store-conditional instruction, stwcx. */
  predicate IsStwcx(w: bv32) {
    w & 0xfc00_07ff == Opcode(31, 150) | 1
  }

  /** Each sequence moves SPRG0 to a register and stores that register conditionally at an address: the address that is
      stored to when it is skipped. One of them is ten words long and two are five. */
  lemma LockSeqs(insn: bv32)
    requires LockOf(insn).Some?
    ensures var l := LockOf(insn).value;
      var stwcx := l.rest[1];
      insn == Mfspr(SPRN_SPRG0, Rs(insn)) && IsStwcx(stwcx) && Rs(stwcx) == Rs(insn) && Rb(stwcx) as int == l.reg &&
      l.words == if Rs(insn) == 11 then 10 else 5
  {
  }

  /** At the words of a sequence, with an address to store to that is aligned, the sequence is skipped: the PC moves
      past it, and if the address translates SPRG0 is there afterwards, in the guest's byte order, and nothing else in
      memory has changed. */
  lemma LockSkips(vm: Vm, view: seq<byte>, little: bool, insn: bv32, stack: seq<byte>)
    requires Coherent(vm) && CpuOk(vm.cpu) && |view| == vm.ram && |view| % 8 == 0 && |stack| == 16
    requires vm.cpu.pc % 4 == 0 && LockOf(insn).Some? && InRom(vm)
    requires var l, ea := LockOf(insn).value, Wrap(vm.cpu.pc + 4);
      HoldsWord(vm, view, ea, little, l.rest[0]) && HoldsWord(vm, view, Wrap(ea + 4), little, l.rest[1]) &&
      HoldsWord(vm, view, Wrap(ea + 8), little, l.rest[2]) && HoldsWord(vm, view, Wrap(ea + 12), little, l.rest[3]) &&
      vm.cpu.gpr[l.reg] % 4 == 0
    ensures var l, r := LockOf(insn).value, TryLock(vm, view, little, insn, stack);
      r.Skipped? && r.vm == vm.(cpu := vm.cpu.(pc := Wrap(vm.cpu.pc + 4 * l.words))) &&
      var b, g := Bytes32(vm.cpu.sprg[0]), Phys(vm, vm.cpu.gpr[l.reg]);
      if g.None? then r.view == view
      else
        g.value + 4 <= vm.ram &&
        r.view == view[..g.value] + (if little then [b[3], b[2], b[1], b[0]] else b) + view[g.value + 4..]
  {
    hide Coherent, Phys, HoldsWord, CopyHalts, FitsUnaligned, LockOf, Loaded, View, Bytes32, Stored, InRom;
    var l, ea := LockOf(insn).value, Wrap(vm.cpu.pc + 4);
    NextAligned(vm.cpu.pc);
    FourWords(vm, view, ea, little, l.rest);
    AllReplaced(stack, RestBytes(l));
    WordsFit(vm, ea, 16, little);
    WordsFit(vm, vm.cpu.gpr[l.reg], 4, little);
    StoredWord(vm, view, vm.cpu.gpr[l.reg], Bytes32(vm.cpu.sprg[0]), little);
  }

  /** Words that start in memory and cross into the next page in the middle of one. */
  predicate Ragged(vm: Vm, ea: word, n: nat) {
    Backing(vm, ea).Some? && ea % PAGE_SIZE + n > PAGE_SIZE && ea % 4 != 0
  }

  /** Unaligned words of a little-endian guest in the last eight bytes of memory. */
  predicate Leaves(vm: Vm, ea: word, n: nat, little: bool) {
    little && ea % 4 != 0 && Backing(vm, ea).Some? && ea % PAGE_SIZE + n <= PAGE_SIZE &&
    var g := Backing(vm, ea).value; g <= vm.ram - 8 + ea % 4 < g + n
  }

  /** How trying a lock sequence ends: the words after the first are read and compared, and the lock is stored when they
      are the sequence's; either stops the run or leaves memory by where its words lie. */
  lemma LockEnds(vm: Vm, view: seq<byte>, little: bool, insn: bv32, stack: seq<byte>)
    requires Coherent(vm) && CpuOk(vm.cpu) && |view| == vm.ram && |view| % 8 == 0 && |stack| == 16
    requires LockOf(insn).Some? && InRom(vm)
    ensures var l, next, r := LockOf(insn).value, Wrap(vm.cpu.pc + 4), TryLock(vm, view, little, insn, stack);
      var a, same := vm.cpu.gpr[l.reg], Splice(stack, 0, Loaded(vm, view, next, 16, 4, little)) == RestBytes(l);
      (r.LockHalts? <==> Ragged(vm, next, 16) || (!Leaves(vm, next, 16, little) && same && Ragged(vm, a, 4))) &&
      (r.LockAstray? <==>
        Leaves(vm, next, 16, little) || (!Ragged(vm, next, 16) && same && Leaves(vm, a, 4, little)))
  {
    hide Coherent, LockOf, RestBytes, Loaded, Stored, Splice, InRom, CopyHalts, FitsUnaligned, Ragged, Leaves;
    var l := LockOf(insn).value;
    WordsEnd(vm, Wrap(vm.cpu.pc + 4), 16, little);
    WordsEnd(vm, vm.cpu.gpr[l.reg], 4, little);
  }

  lemma WordsEnd(vm: Vm, ea: word, n: nat, little: bool)
    requires Coherent(vm) && CpuOk(vm.cpu) && InRom(vm) && n % 4 == 0 && 0 < n <= PAGE_SIZE
    ensures CopyHalts(vm, ea, n, 4) <==> Ragged(vm, ea, n)
    ensures !FitsUnaligned(vm, ea, n, 4, little) <==> Leaves(vm, ea, n, little)
    ensures !(Ragged(vm, ea, n) && Leaves(vm, ea, n, little))
  {
    hide Coherent, Backing, CopyHalts, FitsUnaligned, Reach, Phys;
    HaltsByShape(vm, ea, n, 4);
    FitsUnless(vm, ea, n, 4, little);
    PhysIsBacking(vm, ea);
    ModPage(ea, 4);
    ModLess(PAGE_SIZE, ea % PAGE_SIZE, 4);
  }

  /** Fetching the instruction, and for tlbie the word after it, ends in the same way. A word after it that is not there
      counts as 0. */
  lemma FetchEnds(vm: Vm, view: seq<byte>, little: bool, stack: seq<byte>, insn: bv32)
    requires Coherent(vm) && CpuOk(vm.cpu) && |view| == vm.ram && |view| % 8 == 0 && |stack| == 16 && InRom(vm)
    ensures Ragged(vm, vm.cpu.pc, 4) ==> EmulateAt(vm, view, little, stack) == Ended(Halts, view)
    ensures Leaves(vm, vm.cpu.pc, 4, little) ==> EmulateAt(vm, view, little, stack) == Astray
    ensures var next, tlbie := Wrap(vm.cpu.pc + 4), insn & INST_MASK == INST_TLBIE;
      (NextHalts(vm, insn) <==> tlbie && Ragged(vm, next, 4)) &&
      (NextAstray(vm, little, insn) <==> tlbie && Leaves(vm, next, 4, little)) &&
      (!tlbie || Backing(vm, next).None? ==> NextAt(vm, view, little, insn) == 0)
  {
    hide Coherent, InRom, CopyHalts, FitsUnaligned, Ragged, Leaves, Backing, Phys, Loaded;
    var next := Wrap(vm.cpu.pc + 4);
    WordsEnd(vm, vm.cpu.pc, 4, little);
    WordsEnd(vm, next, 4, little);
    PhysIsBacking(vm, next);
    if Backing(vm, next).None? {
      ReachNone(vm, next, 4);
    }
  }

  /** At an aligned PC without memory emulation fails, or stops the run on a BAT hit. */
  lemma EmulateNowhere(vm: Vm, view: seq<byte>, little: bool, stack: seq<byte>)
    requires Coherent(vm) && CpuOk(vm.cpu) && |view| == vm.ram && |view| % 8 == 0 && |stack| == 16
    requires vm.cpu.pc % 4 == 0 && Backing(vm, vm.cpu.pc).None?
    ensures EmulateAt(vm, view, little, stack) ==
      Ended(if !InRom(vm) && (vm.cpu.pvr != PVR_601 || InBat(vm.cpu, vm.cpu.pc)) then Halts else Fails, view)
  {
    hide Coherent, Backing, CopyHalts, FitsUnaligned, InBat, Loaded, Phys;
    var pc := vm.cpu.pc;
    PhysIsBacking(vm, pc);
    ReachNone(vm, pc, 4);
    AlignedFits(vm, pc, 4, 4, little);
    if InRom(vm) {
      WordsFit(vm, pc, 4, little);
    } else {
      HaltsByBat(vm, pc, 4, 4);
      FitsNowhere(vm, pc, 4, little);
    }
  }

  lemma FitsNowhere(vm: Vm, ea: word, n: nat, little: bool)
    requires CpuOk(vm.cpu) && ea % 4 == 0
    ensures FitsUnaligned(vm, ea, n, 4, little)
  {
  }

  /** Translation is off, or in ROM mode. */
  predicate InRom(vm: Vm) {
    !MmuOn(vm.cpu.msr) || vm.cpu.sdr1 == SDR1_MAGIC_ROM_MODE
  }

  lemma AllReplaced(stack: seq<byte>, b: seq<byte>)
    requires |stack| == |b|
    ensures Splice(stack, 0, b) == b
  {
  }

  /** Whole aligned words neither stop the run nor go astray. */
  lemma WordsFit(vm: Vm, ea: word, n: nat, little: bool)
    requires CpuOk(vm.cpu) && InRom(vm) && ea % 4 == 0 && n % 4 == 0 && n > 0
    ensures !CopyHalts(vm, ea, n, 4) && FitsUnaligned(vm, ea, n, 4, little)
  {
    hide CopyHalts, Reach, Backing;
    HaltsByShape(vm, ea, n, 4);
    PageRest(ea);
  }

  lemma PageRest(ea: word)
    requires ea % 4 == 0
    ensures (PAGE_SIZE - ea % PAGE_SIZE) % 4 == 0
  {
    ModPage(ea, 4);
    ModLess(PAGE_SIZE, ea % PAGE_SIZE, 4);
  }

  /** One word more. */
  lemma LoadedNext(vm: Vm, view: seq<byte>, ea: word, n: nat, little: bool, w: bv32)
    requires CpuOk(vm.cpu) && |view| == vm.ram && n % 4 == 0 && Reach(vm, ea, n) == n
    requires HoldsWord(vm, view, Wrap(ea + n), little, w)
    ensures Reach(vm, ea, n + 4) == n + 4
    ensures Elements(ReadThrough(vm, view, ea, n + 4), 4, little) ==
      Elements(ReadThrough(vm, view, ea, n), 4, little) + WordBytes(w)
  {
    hide Phys, HoldsByte, WordBytes, Elements, Reach, ReadThrough, Wrap;
    var b, d := WordBytes(w), Wrap(ea + n);
    ReachSplit(vm, ea, n, 4);
    ReadSplit(vm, view, ea, n, 4);
    if little {
      FourRead(vm, view, d, b[3], b[2], b[1], b[0]);
      ReverseFour(b[3], b[2], b[1], b[0]);
    } else {
      FourRead(vm, view, d, b[0], b[1], b[2], b[3]);
      ElementsBig([b[0], b[1], b[2], b[3]], 4);
    }
    ElementsSplit(ReadThrough(vm, view, ea, n), ReadThrough(vm, view, d, 4), 4, little);
  }

  lemma FourWords(vm: Vm, view: seq<byte>, ea: word, little: bool, w: seq<bv32>)
    requires CpuOk(vm.cpu) && |view| == vm.ram && |view| % 8 == 0 && |w| == 4 && ea % 4 == 0
    requires HoldsWord(vm, view, ea, little, w[0]) && HoldsWord(vm, view, Wrap(ea + 4), little, w[1])
    requires HoldsWord(vm, view, Wrap(ea + 8), little, w[2]) && HoldsWord(vm, view, Wrap(ea + 12), little, w[3])
    ensures Loaded(vm, view, ea, 16, 4, little) ==
      WordBytes(w[0]) + WordBytes(w[1]) + WordBytes(w[2]) + WordBytes(w[3])
  {
    hide Phys, HoldsWord, WordBytes, Elements, Reach, ReadThrough, Wrap, LoadedUnaligned, View;
    NothingDone(vm, view, ea, 4, little);
    LoadedNext(vm, view, ea, 0, little, w[0]);
    LoadedNext(vm, view, ea, 4, little, w[1]);
    LoadedNext(vm, view, ea, 8, little, w[2]);
    LoadedNext(vm, view, ea, 12, little, w[3]);
    assert [] + WordBytes(w[0]) == WordBytes(w[0]);
  }

  /** A stored word is where its address lies in memory, in the guest's byte order. */
  lemma StoredWord(vm: Vm, view: seq<byte>, ea: word, b: seq<byte>, little: bool)
    requires Coherent(vm) && CpuOk(vm.cpu) && |view| == vm.ram && |view| % 8 == 0 && |b| == 4 && ea % 4 == 0
    ensures var r, g := Stored(vm, view, ea, b, 4, little), Phys(vm, ea);
      if g.None? then r == view
      else
        g.value + 4 <= vm.ram &&
        r == view[..g.value] + (if little then [b[3], b[2], b[1], b[0]] else b) + view[g.value + 4..]
  {
    hide Coherent, Phys, Elements, WriteThrough, StoredUnaligned, View;
    var e := Elements(b, 4, little);
    if little {
      assert b == [b[0], b[1], b[2], b[3]];
      ReverseFour(b[0], b[1], b[2], b[3]);
    } else {
      ElementsBig(b, 4);
    }
    if Phys(vm, ea).None? {
      WriteNone(vm, view, ea, e);
    } else {
      WordChunk(ea);
      WritePage(vm, view, ea, e);
    }
  }

  method FillCell(b: array<byte>, v: word)
    requires b.Length == 4
    modifies b
    ensures b[..] == Bytes32(v)
  {
    b[0], b[1], b[2], b[3] := v / 0x100_0000, v / 0x1_0000 % 0x100, v / 0x100 % 0x100, v % 0x100;
  }

  lemma WordOrNothing(b: seq<byte>, k: nat, little: bool)
    requires |b| == 4 && k <= 4 && k % 4 == 0
    ensures Elements(b[..k], 4, little) == Elements(b, 4, little)[..k]
  {
    if k == 4 {
      assert b[..4] == b;
    } else {
      ElementsShort(b[..k], 4, little);
    }
  }

  /** An access past the end of memory, or an outcome and the memory then. */
  datatype Emulated = Astray | Ended(r: StepResult, view: seq<byte>)

  /** Fetching the instruction at the PC, for tlbie the one after it too, and performing it, unless it starts a lock
      sequence. */
  function EmulateAt(vm: Vm, view: seq<byte>, little: bool, stack: seq<byte>): Emulated
    requires CpuOk(vm.cpu) && |view| == vm.ram && |view| % 8 == 0 && |stack| == 16
  {
    if CopyHalts(vm, vm.cpu.pc, 4, 4) then Ended(Halts, view)
    else if !FitsUnaligned(vm, vm.cpu.pc, 4, 4, little) then Astray
    else
      match WordAt(vm, view, vm.cpu.pc, little)
      case None => Ended(Fails, view)
      case Some(insn) =>
        match TryLock(vm, view, little, insn, stack)
        case LockHalts => Ended(Halts, view)
        case LockAstray => Astray
        case Skipped(u, v) => Ended(Runs(u), v)
        case NoLock =>
          if NextHalts(vm, insn) then Ended(Halts, view)
          else if NextAstray(vm, little, insn) then Astray
          else Ended(EmulateStep(vm, insn, NextAt(vm, view, little, insn)), view)
  }

  /** Emulation is always an event of the state machine: an instruction's, or, for a skipped sequence, one that guest
      code could have caused itself. */
  lemma EmulationIsEvent(vm: Vm, view: seq<byte>, little: bool, stack: seq<byte>)
    requires CpuOk(vm.cpu) && |view| == vm.ram && |view| % 8 == 0 && |stack| == 16
    requires var e := EmulateAt(vm, view, little, stack); e.Ended? && e.r.Runs?
    ensures exists e: Event :: Step(vm, e) == EmulateAt(vm, view, little, stack).r
  {
    hide CopyHalts, WordAt, NextHalts, NextAt, EmulateStep, TryLock, FitsUnaligned, NextAstray;
    var insn := WordAt(vm, view, vm.cpu.pc, little).value;
    var r := TryLock(vm, view, little, insn, stack);
    if r.Skipped? {
      assert Step(vm, GuestRuns(vm.cpu.gpr, vm.cpu.user, r.vm.cpu.pc)) == Runs(r.vm);
    } else {
      assert Step(vm, Event.Emulate(insn, NextAt(vm, view, little, insn))) == EmulateAt(vm, view, little, stack).r;
    }
  }

  /** Nothing both stops the run and goes astray. */
  lemma FitsOrHalts(vm: Vm, ea: word, n: nat, size: nat, little: bool)
    requires CpuOk(vm.cpu) && AccessOk(size) && n > 0
    ensures CopyHalts(vm, ea, n, size) && Coherent(vm) ==> FitsUnaligned(vm, ea, n, size, little)
  {
    hide Phys, GuestMmu.Backmap, Reach, SlotsInside, Coherent;
    if Coherent(vm) && Phys(vm, ea).Some? && Chunk(ea, n) == n {
      ReachPage(vm, ea, n);
    }
  }

  /** A big-endian word. */
  function BigEndian(a: byte, b: byte, c: byte, d: byte): bv32 {
    ((a as bv8 as bv32) << 24) | ((b as bv8 as bv32) << 16) | ((c as bv8 as bv32) << 8) | (d as bv8 as bv32)
  }

  /** The bytes of an instruction word, most significant first. */
  function WordBytes(w: bv32): (s: seq<byte>)
    ensures |s| == 4
  {
    [FromBits(((w >> 24) & 0xff) as bv8), FromBits(((w >> 16) & 0xff) as bv8),
     FromBits(((w >> 8) & 0xff) as bv8), FromBits((w & 0xff) as bv8)]
  }

  function FromBits(x: bv8): byte { x as int }

  lemma FromBitsBack(x: bv8)
    ensures FromBits(x) as bv8 == x
  {
  }

  /** Putting the bytes of a word together gives the word. */
  lemma BigEndianIs(w: bv32)
    ensures var b := WordBytes(w); BigEndian(b[0], b[1], b[2], b[3]) == w
  {
    hide FromBits;
    FromBitsBack(((w >> 24) & 0xff) as bv8);
    FromBitsBack(((w >> 16) & 0xff) as bv8);
    FromBitsBack(((w >> 8) & 0xff) as bv8);
    FromBitsBack((w & 0xff) as bv8);
    JoinBits(w);
  }

  lemma JoinBits(w: bv32)
    ensures ((((w >> 24) & 0xff) as bv8 as bv32) << 24) | ((((w >> 16) & 0xff) as bv8 as bv32) << 16) |
      ((((w >> 8) & 0xff) as bv8 as bv32) << 8) | ((w & 0xff) as bv8 as bv32) == w
  {
  }

  /** The bytes of rfi. */
  lemma RfiBytes()
    ensures WordBytes(INST_RFI) == [0x4C, 0, 0, 0x64] && BigEndian(0x4C, 0, 0, 0x64) == INST_RFI
  {
    hide BigEndian;
    BigEndianIs(INST_RFI);
  }

  /** The address translates, and this byte is there. */
  predicate HoldsByte(vm: Vm, view: seq<byte>, ea: word, x: byte)
    requires CpuOk(vm.cpu) && |view| == vm.ram
  {
    Phys(vm, ea).Some? && view[Phys(vm, ea).value] == x
  }

  /** The four bytes at an effective address are those of a word: in order, or for a little-endian guest in the other
      order. */
  predicate HoldsWord(vm: Vm, view: seq<byte>, ea: word, little: bool, w: bv32)
    requires CpuOk(vm.cpu) && |view| == vm.ram
  {
    var b := WordBytes(w);
    HoldsByte(vm, view, ea, if little then b[3] else b[0]) &&
    HoldsByte(vm, view, Wrap(ea + 1), if little then b[2] else b[1]) &&
    HoldsByte(vm, view, Wrap(ea + 2), if little then b[1] else b[2]) &&
    HoldsByte(vm, view, Wrap(ea + 3), if little then b[0] else b[3])
  }

  /** Such a word is what is fetched; a little-endian guest's is aligned. */
  lemma WordAtIs(vm: Vm, view: seq<byte>, ea: word, little: bool, w: bv32)
    requires CpuOk(vm.cpu) && |view| == vm.ram && |view| % 8 == 0 && HoldsWord(vm, view, ea, little, w)
    requires little ==> ea % 4 == 0
    ensures WordAt(vm, view, ea, little) == Some(w) && Reach(vm, ea, 4) == 4
  {
    hide HoldsByte, WordBytes, BigEndian, View, LoadedUnaligned, Wrap, Reach, ReadThrough, Elements, Phys;
    BigEndianIs(w);
    var b := WordBytes(w);
    if little {
      FourRead(vm, view, ea, b[3], b[2], b[1], b[0]);
      ReverseFour(b[3], b[2], b[1], b[0]);
    } else {
      FourRead(vm, view, ea, b[0], b[1], b[2], b[3]);
      ElementsBig([b[0], b[1], b[2], b[3]], 4);
    }
  }

  lemma FourRead(vm: Vm, view: seq<byte>, ea: word, a: byte, b: byte, c: byte, d: byte)
    requires CpuOk(vm.cpu) && |view| == vm.ram && HoldsByte(vm, view, ea, a) && HoldsByte(vm, view, Wrap(ea + 1), b)
    requires HoldsByte(vm, view, Wrap(ea + 2), c) && HoldsByte(vm, view, Wrap(ea + 3), d)
    ensures Reach(vm, ea, 4) == 4 && ReadThrough(vm, view, ea, 4) == [a, b, c, d]
  {
    hide Phys, Wrap;
    WrapStep(ea, 2);
    WrapStep(Wrap(ea + 1), 2);
    WrapStep(ea, 3);
    var b1: word, b2: word, b3: word := Wrap(ea + 1), Wrap(ea + 2), Wrap(ea + 3);
    assert Wrap(b1 + 1) == b2 && Wrap(b2 + 1) == b3;
    assert ReadThrough(vm, view, b3, 1) == [d];
    assert ReadThrough(vm, view, b2, 2) == [c, d];
    assert ReadThrough(vm, view, b1, 3) == [b, c, d];
    assert Reach(vm, b3, 1) == 1 && Reach(vm, b2, 2) == 2 && Reach(vm, b1, 3) == 3;
  }

  lemma ReverseFour(a: byte, b: byte, c: byte, d: byte)
    ensures Elements([a, b, c, d], 4, true) == [d, c, b, a]
  {
    hide Reverse;
    var s := [a, b, c, d];
    ElementsPush([], s, 4);
    assert [] + s == s;
    ElementsShort([], 4, true);
    assert Reverse(s) == [d, c, b, a];
  }

  /** With a word at an aligned PC that starts no lock sequence, emulation does what the CPU does for that word; tlbie
      also sees the word after it. */
  lemma EmulateWord(vm: Vm, view: seq<byte>, little: bool, stack: seq<byte>, w: bv32, next: bv32)
    requires Coherent(vm) && CpuOk(vm.cpu) && |view| == vm.ram && |view| % 8 == 0 && |stack| == 16
    requires vm.cpu.pc % 4 == 0 && HoldsWord(vm, view, vm.cpu.pc, little, w) && LockOf(w).None?
    requires w & INST_MASK == INST_TLBIE ==> HoldsWord(vm, view, Wrap(vm.cpu.pc + 4), little, next)
    ensures var x, e := Execute(vm.cpu, w, if w & INST_MASK == INST_TLBIE then next else 0),
        EmulateAt(vm, view, little, stack);
      e.Ended? && e.view == view && (e.r.Halts? <==> x.ExecStops?) && (e.r.Fails? <==> x.Unsupported?) &&
      (e.r.Runs? ==>
        e.r.vm.cpu == x.cpu && e.r.vm.off == vm.off && e.r.vm.ranges == vm.ranges &&
        forall q: word :: (q in e.r.vm.on <==> q in vm.on && !Dropped(x.flush, q)))
  {
    hide Coherent, Phys, HoldsWord, WordAt, CopyHalts, EmulateStep, Execute, FitsUnaligned;
    WordAtIs(vm, view, vm.cpu.pc, little, w);
    WordFits(vm, view, vm.cpu.pc, little, w);
    if w & INST_MASK == INST_TLBIE {
      NextAligned(vm.cpu.pc);
      WordAtIs(vm, view, Wrap(vm.cpu.pc + 4), little, next);
      WordFits(vm, view, Wrap(vm.cpu.pc + 4), little, next);
    }
    var n: bv32 := if w & INST_MASK == INST_TLBIE then next else 0;
    assert EmulateAt(vm, view, little, stack) == Ended(EmulateStep(vm, w, n), view);
    forall q: word
      ensures EmulateStep(vm, w, n).Runs? ==>
        Execute(vm.cpu, w, n).Done? &&
        (q in EmulateStep(vm, w, n).vm.on <==> q in vm.on && !Dropped(Execute(vm.cpu, w, n).flush, q))
    {
      EmulateEnds(vm, w, n, q);
    }
    EmulateEnds(vm, w, n, 0);
  }

  lemma NextAligned(pc: word)
    requires pc % 4 == 0
    ensures Wrap(pc + 4) % 4 == 0
  {
  }

  lemma WordFits(vm: Vm, view: seq<byte>, ea: word, little: bool, w: bv32)
    requires Coherent(vm) && CpuOk(vm.cpu) && |view| == vm.ram && |view| % 8 == 0 && ea % 4 == 0
    requires HoldsWord(vm, view, ea, little, w)
    ensures !CopyHalts(vm, ea, 4, 4) && FitsUnaligned(vm, ea, 4, 4, little)
  {
    hide Coherent, Phys, GuestMmu.Backmap, Reach, WordBytes, WordAt;
    WordAtIs(vm, view, ea, little, w);
    FoundNotStops(vm, ea);
    WordChunk(ea);
  }

  lemma WordChunk(ea: word)
    requires ea % 4 == 0
    ensures Chunk(ea, 4) == 4
  {
    ModPage(ea, 4);
  }


  /** The instruction word at an effective address, if all of it translates. */
  function WordAt(vm: Vm, view: seq<byte>, ea: word, little: bool): Option<bv32>
    requires CpuOk(vm.cpu) && |view| == vm.ram && |view| % 8 == 0
  {
    var b := Loaded(vm, view, ea, 4, 4, little);
    if Reach(vm, ea, 4) < 4 || |b| < 4 then None else Some(BigEndian(b[0], b[1], b[2], b[3]))
  }

  /** A load of words that goes through and translates whole has all of them. */
  lemma LoadedAll(vm: Vm, view: seq<byte>, ea: word, n: nat, little: bool)
    requires CpuOk(vm.cpu) && |view| == vm.ram && |view| % 8 == 0 && n > 0 && n % 4 == 0
    requires !CopyHalts(vm, ea, n, 4) && FitsUnaligned(vm, ea, n, 4, little) && Reach(vm, ea, n) == n
    ensures |Loaded(vm, view, ea, n, 4, little)| == n
  {
    hide Phys, GuestMmu.Backmap, SlotsInside, View;
    if Unaligned(ea, 4, little) {
      assert Phys(vm, ea).Some?;
      UnalignedWhole(ea, n, 4);
    }
  }

  // ---- One pass over a chunk of a copy, s bytes into it.

  /** What the pass does when the chunk's page is not there. */
  lemma ChunkMissing(vm: Vm, ea: word, s: nat, left: nat, size: nat)
    requires Coherent(vm) && AccessOk(size) && Reach(vm, ea, s) == s && Phys(vm, Wrap(ea + s)).None?
    requires s > 0 ==> left > 0 && Chunk(ea, s + left) % size == 0
    ensures Reach(vm, ea, s + left) == s && Reach(vm, Wrap(ea + s), Chunk(Wrap(ea + s), left)) == 0
    ensures CopyHalts(vm, ea, s + left, size) <==> GuestMmu.Backmap(vm, Wrap(ea + s), false).Stops?
  {
    hide Coherent, Phys, GuestMmu.Backmap, Reach, Chunk;
    CoherentOk(vm);
    ReachNone(vm, Wrap(ea + s), left);
    ReachNone(vm, Wrap(ea + s), Chunk(Wrap(ea + s), left));
    ReachSplit(vm, ea, s, left);
    ModZero(size);
    if s == 0 {
      WrapNone(ea);
    }
  }

  /** What the pass does when it is. */
  lemma ChunkPresent(vm: Vm, ea: word, s: nat, left: nat, size: nat)
    requires Coherent(vm) && AccessOk(size) && Reach(vm, ea, s) == s && Phys(vm, Wrap(ea + s)).Some?
    requires s % size == 0
    requires s > 0 ==> left > 0 && Wrap(ea + s) % PAGE_SIZE == 0 && Chunk(ea, s + left) % size == 0
    ensures var x := Chunk(Wrap(ea + s), left);
      Reach(vm, Wrap(ea + s), x) == x && Reach(vm, ea, s + x) == s + x &&
      (x % size != 0 ==> CopyHalts(vm, ea, s + left, size)) &&
      (x % size == 0 ==> (s + x) % size == 0 && Chunk(ea, s + left) % size == 0) &&
      (x % size == 0 && x == left ==> !CopyHalts(vm, ea, s + left, size))
  {
    hide Coherent, Phys, GuestMmu.Backmap, Reach, Chunk;
    CoherentOk(vm);
    var d := Wrap(ea + s);
    var x := Chunk(d, left);
    ReachPage(vm, d, x);
    ReachSplit(vm, ea, s, x);
    ModSum(s, x, size);
    if s == 0 {
      WrapNone(ea);
      FoundNotStops(vm, ea);
    } else {
      LaterChunk(d, s, left, size);
    }
  }

  lemma ModZero(size: nat)
    requires AccessOk(size)
    ensures 0 % size == 0
  {
  }

  // ---- A chunk of a copy on the host, and for the guest.

  lemma PhysSpan(vm: Vm, ea: word, x: nat)
    requires Coherent(vm) && ea % PAGE_SIZE + x <= PAGE_SIZE && Phys(vm, ea).Some?
    ensures var g := Phys(vm, ea).value; g < vm.ram && g + x <= vm.ram && g + x < TWO32
  {
    hide Phys;
    CoherentOk(vm);
    PhysInside(vm, ea);
    PhysPage(vm, ea, 0);
    RamPages(vm, Phys(vm, ea).value, ea % PAGE_SIZE, x);
  }

  /** Storing a chunk of whole elements in a page. */
  lemma StoredChunk(vm: Vm, m: seq<byte>, ea: word, e: seq<byte>, size: nat, little: bool)
    requires Coherent(vm) && |m| == vm.ram && AccessOk(size) && |e| % size == 0 && ea % PAGE_SIZE + |e| <= PAGE_SIZE
    requires Phys(vm, ea).Some?
    ensures |m| % 8 == 0 && Phys(vm, ea).value + |e| <= |m|
    ensures FitsUnaligned(vm, ea, |e|, size, little) <==>
      (little ==> SlotsInside(|m|, Phys(vm, ea).value, |e|, size))
    ensures !Unaligned(ea, size, little) ==>
      var g := Phys(vm, ea).value;
      View(if little then MungedStores(m, g, e, size) else Splice(m, g, e), little) ==
        WriteThrough(vm, View(m, little), ea, Elements(e, size, little))
  {
    hide Phys, Coherent, GuestMmu.Backmap, WriteThrough, Elements, MungedStores, Splice, SlotsInside;
    CoherentOk(vm);
    PhysSpan(vm, ea, |e|);
    PageMod8(vm.ram);
    var g := Phys(vm, ea).value;
    if !Unaligned(ea, size, little) {
      WritePage(vm, View(m, little), ea, Elements(e, size, little));
      if little {
        PhysAligned(vm, ea, size);
        StoresAligned(m, g, e, size);
      } else {
        ElementsBig(e, size);
      }
    } else {
      ChunkInside(ea, |e|);
    }
  }

  /** Loading one. */
  lemma LoadedChunk(vm: Vm, m: seq<byte>, ea: word, x: nat, size: nat, little: bool)
    requires Coherent(vm) && |m| == vm.ram && AccessOk(size) && x % size == 0 && ea % PAGE_SIZE + x <= PAGE_SIZE
    requires Phys(vm, ea).Some?
    ensures |m| % 8 == 0 && Phys(vm, ea).value + x <= |m|
    ensures FitsUnaligned(vm, ea, x, size, little) <==> (little ==> SlotsInside(|m|, Phys(vm, ea).value, x, size))
    ensures !Unaligned(ea, size, little) ==>
      var g := Phys(vm, ea).value;
      (if little then MungedLoads(m, g, x, size) else m[g..g + x]) ==
        Elements(ReadThrough(vm, View(m, little), ea, x), size, little)
  {
    hide Phys, Coherent, GuestMmu.Backmap, ReadThrough, Elements, MungedLoads, SlotsInside;
    CoherentOk(vm);
    PhysSpan(vm, ea, x);
    PageMod8(vm.ram);
    var g := Phys(vm, ea).value;
    if !Unaligned(ea, size, little) {
      ReadPage(vm, View(m, little), ea, x);
      if little {
        PhysAligned(vm, ea, size);
        LoadsAligned(m, g, x, size);
      } else {
        ElementsBig(m[g..g + x], size);
      }
    } else {
      ChunkInside(ea, x);
    }
  }

  lemma NothingStored(m: seq<byte>, g: nat, size: nat)
    requires AccessOk(size) && g <= |m|
    ensures SlotsInside(|m|, g, 0, size) && Splice(m, g, []) == m
    ensures MungedStores(m, g, [], size) == m && MungedLoads(m, g, 0, size) == []
  {
  }

  lemma PhysAligned(vm: Vm, ea: word, size: nat)
    requires Coherent(vm) && AccessOk(size) && ea % size == 0 && Phys(vm, ea).Some?
    ensures Phys(vm, ea).value % size == 0
  {
    hide Phys, Coherent;
    PhysPage(vm, ea, 0);
    CoherentOk(vm);
    PhysInside(vm, ea);
    ModPage(ea, size);
    assert vm.ram < TWO32;
    ModPage(Phys(vm, ea).value, size);
  }

  lemma ChunkInside(ea: word, x: nat)
    requires ea % PAGE_SIZE + x <= PAGE_SIZE
    ensures Chunk(ea, x) == x
  {
  }

  /** Only an unaligned copy has to fit. */
  lemma AlignedFits(vm: Vm, ea: word, x: nat, size: nat, little: bool)
    requires CpuOk(vm.cpu) && AccessOk(size)
    ensures !Unaligned(ea, size, little) ==> FitsUnaligned(vm, ea, x, size, little)
  {
  }

  /** The first chunk of an unaligned copy is all of it, or ragged. */
  lemma UnalignedFits(vm: Vm, ea: word, n: nat, size: nat, little: bool)
    requires CpuOk(vm.cpu) && AccessOk(size)
    ensures Unaligned(ea, size, little) ==>
      (FitsUnaligned(vm, ea, Chunk(ea, n), size, little) <==> FitsUnaligned(vm, ea, n, size, little)) &&
      (Chunk(ea, n) % size == 0 ==> Chunk(ea, n) == n)
  {
    if Unaligned(ea, size, little) && Chunk(ea, n) % size == 0 {
      UnalignedWhole(ea, n, size);
    }
  }

  /** What goes astray is an unaligned chunk of whole elements that translates. */
  lemma AstrayHere(vm: Vm, ea: word, x: nat, size: nat, little: bool)
    requires CpuOk(vm.cpu) && AccessOk(size)
    ensures !FitsUnaligned(vm, ea, x, size, little) ==>
      Unaligned(ea, size, little) && Phys(vm, ea).Some? && x % size == 0
  {
  }

  lemma NoneUnaligned(vm: Vm, m: seq<byte>, ea: word, b: seq<byte>, size: nat)
    requires CpuOk(vm.cpu) && AccessOk(size) && |m| == vm.ram && Phys(vm, ea).None?
    ensures StoredUnaligned(vm, m, ea, b, size) == m
  {
  }

  lemma NoneLoaded(vm: Vm, m: seq<byte>, ea: word, n: nat, size: nat)
    requires CpuOk(vm.cpu) && AccessOk(size) && |m| == vm.ram && Phys(vm, ea).None?
    ensures LoadedUnaligned(vm, m, ea, n, size) == []
  {
  }

  /** The next pass starts on a page, and so on an element. */
  lemma NextChunk(ea: word, s: nat, left: nat, size: nat)
    requires AccessOk(size)
    ensures var d := Wrap(ea + s);
      var x := Chunk(d, left);
      Wrap(d + x) == Wrap(ea + (s + x)) && (x < left ==> Wrap(d + x) % PAGE_SIZE == 0 && Wrap(d + x) % size == 0)
  {
    hide Chunk;
    var d := Wrap(ea + s);
    var x := Chunk(d, left);
    WrapAdd(ea + s, x);
    ModPage(Wrap(d + x), size);
  }

  lemma Slices(s: seq<byte>, k: nat, x: nat)
    requires k + x <= |s|
    ensures s[..k] + s[k..] == s && s[k..][..x] == s[k..k + x] && s[..k + x] == s[..k] + s[k..][..x]
  {
  }

  lemma ArraySlice(a: array<byte>, n: nat, i: nat, j: nat)
    requires i <= j <= n <= a.Length
    ensures a[i..j] == a[..n][i..j]
  {
  }

  lemma FoundNotStops(vm: Vm, ea: word)
    requires CpuOk(vm.cpu) && Phys(vm, ea).Some?
    ensures !GuestMmu.Backmap(vm, ea, false).Stops?
  {
  }

  lemma NothingDone(vm: Vm, view: seq<byte>, ea: word, size: nat, little: bool)
    requires CpuOk(vm.cpu) && |view| == vm.ram && AccessOk(size)
    ensures Wrap(ea) == ea && Reach(vm, ea, 0) == 0 && Elements([], size, little) == []
    ensures WriteThrough(vm, view, ea, []) == view && ReadThrough(vm, view, ea, 0) == []
  {
    WrapNone(ea);
  }

  /** Storing the next chunk extends what has been stored; a missing page ends it. */
  lemma WriteStep(vm: Vm, view: seq<byte>, ea: word, a: seq<byte>, b: seq<byte>, x: nat, size: nat, little: bool)
    requires Coherent(vm) && |view| == vm.ram && AccessOk(size) && x <= |b| && x % size == 0
    requires Reach(vm, ea, |a|) == |a|
    ensures var d := Wrap(ea + |a|);
      WriteThrough(vm, view, ea, Elements(a + b[..x], size, little)) ==
        WriteThrough(vm, WriteThrough(vm, view, ea, Elements(a, size, little)), d, Elements(b[..x], size, little))
  {
    hide Coherent, Phys, Elements, Reach, WriteThrough;
    CoherentOk(vm);
    ElementsSplit(a, b[..x], size, little);
    WriteSplit(vm, view, ea, Elements(a, size, little), Elements(b[..x], size, little));
  }

  /** Loading the next chunk extends what has been loaded; a missing page ends it. */
  lemma ReadStep(vm: Vm, view: seq<byte>, ea: word, s: nat, x: nat, size: nat, little: bool, was: seq<byte>)
    requires CpuOk(vm.cpu) && |view| == vm.ram && AccessOk(size) && x % size == 0 && s + x <= |was|
    requires Reach(vm, ea, s) == s && Reach(vm, Wrap(ea + s), x) == x
    ensures Reach(vm, ea, s + x) == s + x
    ensures Splice(Splice(was, 0, Elements(ReadThrough(vm, view, ea, s), size, little)), s,
        Elements(ReadThrough(vm, view, Wrap(ea + s), x), size, little)) ==
      Splice(was, 0, Elements(ReadThrough(vm, view, ea, s + x), size, little))
  {
    hide Phys, Elements, Reach, ReadThrough, Splice;
    ReachSplit(vm, ea, s, x);
    ReadSplit(vm, view, ea, s, x);
    var a, b := ReadThrough(vm, view, ea, s), ReadThrough(vm, view, Wrap(ea + s), x);
    ElementsSplit(a, b, size, little);
    SpliceGrows(was, 0, Elements(a, size, little), Elements(b, size, little));
  }

  lemma ReadEnds(vm: Vm, view: seq<byte>, ea: word, s: nat, left: nat)
    requires CpuOk(vm.cpu) && |view| == vm.ram && Reach(vm, ea, s) == s && Phys(vm, Wrap(ea + s)).None?
    ensures ReadThrough(vm, view, ea, s + left) == ReadThrough(vm, view, ea, s)
  {
    hide Phys;
    ReadSplit(vm, view, ea, s, left);
  }

  lemma ResetBits()
    ensures MmuOn(MSR_RESET) && Consistent(MSR_RESET)
  {
  }

  lemma StartsInitial(vm: Vm)
    requires |vm.cpu.gpr| == 32 && |vm.cpu.ubat| == 8 && |vm.cpu.sr| == 16 && |vm.cpu.sprg| == 4
    requires vm.cpu.msr == MSR_RESET && vm.cpu.sdr1 == SDR1_MAGIC_ROM_MODE && HostOk(vm) && vm.ram > PAGE_SIZE
    requires vm.ranges == [MmuRange(0, vm.ram - 1, 0, 0)] && vm.on == map[] && vm.off == map[]
    ensures Initial(vm) && Coherent(vm)
  {
    ResetBits();
    InitialCoherent(vm);
  }

  lemma ToggleBit(x: word)
    ensures Xor(x, MSR_SE) < TWO32 && And(Xor(x, MSR_SE), MSR_LE) == And(x, MSR_LE)
    ensures And(Xor(x, MSR_SE), MSR_SE) == 0 <==> And(x, MSR_SE) != 0
  {
    hide And, Xor;
    Pow2Values();
    assert Pow2(10) == MSR_SE && Pow2(1) == 2;
    FlipBit(x, 10, 32);
    AndLow(x, 1);
    AndLow(Xor(x, MSR_SE), 1);
  }

  // ---- A small machine.

  const NO_USER: UserRegs := UserRegs(0, 0, 0, 0, 0, 0, [], [], [], [])

  /** Two pages of memory, as at start-up. */
  const TWO_PAGES: Vm := Vm(
    Cpu(seq(32, _ => 0), NO_USER, 0, MSR_RESET, SDR1_MAGIC_ROM_MODE, PVR_601, 0, 0,
        seq(8, _ => 0), seq(16, _ => 0), seq(4, _ => 0)),
    [MmuRange(0, 2 * PAGE_SIZE - 1, 0, 0)], 2 * PAGE_SIZE, 0x1_0000, map[], map[])

  lemma TwoPages()
    ensures Initial(TWO_PAGES) && Coherent(TWO_PAGES)
  {
    ResetBits();
    StartsInitial(TWO_PAGES);
  }

  lemma RamPhys(vm: Vm, ea: word)
    requires Initial(vm) && MmuOn(vm.cpu.msr) && ea < vm.ram
    ensures CpuOk(vm.cpu) && Phys(vm, ea) == Some(ea)
  {
  }
}
