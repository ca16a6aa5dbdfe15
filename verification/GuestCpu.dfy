/** One emulated PowerPC CPU: the privileged instructions of guest_emulate over architectural state
    (guest.c:549-702, include/ppc-defs.h:115-169). */
module GuestCpu {
  import opened Words
  import opened InsnBits

  /** The registers the emulator does not touch, but that a guest has and that follow it from context to context; the
      floating-point and vector registers as the bytes they are kept in. */
  datatype UserRegs = UserRegs(
    cr: word, xer: word, lr: word, ctr: word, mq: word, vrsave: word, fpscr: seq<word>, vscr: seq<word>,
    fprs: seq<byte>, vrs: seq<byte>)

  datatype Cpu = Cpu(
    gpr: seq<word>, user: UserRegs, pc: word, msr: word, sdr1: word, pvr: word, srr0: word, srr1: word,
    ubat: seq<word>, sr: seq<word>, sprg: seq<word>)

  predicate CpuOk(c: Cpu) {
    |c.gpr| == 32 && |c.ubat| == 8 && |c.sr| == 16 && |c.sprg| == 4 && Consistent(c.msr)
  }

  const SDR1_MAGIC_ROM_MODE: word := 0xFFFF_FFFF
  const PVR_601: word := 0x0001_0001

  /** MSR[IR] and MSR[DR], bits 26 and 27 in IBM's numbering. */
  predicate Ir(msr: word) { msr / 0x20 % 2 == 1 }
  predicate Dr(msr: word) { msr / 0x10 % 2 == 1 }

  /** (msr & MSR_MMU_ON) == MSR_MMU_ON */
  predicate MmuOn(msr: word) {
    Ir(msr) && Dr(msr)
  }

  /** guest_set_msr accepts only both or neither. */
  predicate Consistent(msr: word) {
    Ir(msr) == Dr(msr)
  }

  const SPRN_SDR1: bv32 := 25
  const SPRN_SRR0: bv32 := 26
  const SPRN_SRR1: bv32 := 27
  const SPRN_SPRG0: bv32 := 272
  const SPRN_SPRG3: bv32 := 275
  const SPRN_PVR: bv32 := 287
  const SPRN_IBAT0U: bv32 := 528
  const SPRN_IBAT3L: bv32 := 535
  const SPRN_DBAT0U: bv32 := 536
  const SPRN_DBAT3L: bv32 := 543

  /** spr - SPRN_IBAT0U and spr - SPRN_SPRG0. */
  function BatIndex(spr: bv32): (i: nat)
    requires SPRN_IBAT0U <= spr <= SPRN_IBAT3L
    ensures i < 8
  {
    if spr == 528 then 0 else if spr == 529 then 1 else if spr == 530 then 2 else if spr == 531 then 3
    else if spr == 532 then 4 else if spr == 533 then 5 else if spr == 534 then 6 else 7
  }

  function SprgIndex(spr: bv32): (i: nat)
    requires SPRN_SPRG0 <= spr <= SPRN_SPRG3
    ensures i < 4
  {
    if spr == 272 then 0 else if spr == 273 then 1 else if spr == 274 then 2 else 3
  }

  /** The special-purpose registers the emulator knows. */
  datatype Spr = Pvr | Srr0 | Srr1 | Ibat(i: nat) | Dbat | Sprg(i: nat) | Sdr1 | Unknown

  function SprOf(spr: bv32): (s: Spr)
    ensures (s.Ibat? ==> s.i < 8) && (s.Sprg? ==> s.i < 4)
  {
    if spr == SPRN_PVR then Pvr
    else if spr == SPRN_SRR0 then Srr0
    else if spr == SPRN_SRR1 then Srr1
    else if SPRN_IBAT0U <= spr <= SPRN_IBAT3L then Ibat(BatIndex(spr))
    else if SPRN_DBAT0U <= spr <= SPRN_DBAT3L then Dbat
    else if SPRN_SPRG0 <= spr <= SPRN_SPRG3 then Sprg(SprgIndex(spr))
    else if spr == SPRN_SDR1 then Sdr1
    else Unknown
  }

  /** Different numbers are different registers, except among the DBATs, which do not exist. */
  lemma SprOfInjective(a: bv32, b: bv32)
    requires a != b && SprOf(a) == SprOf(b)
    ensures SprOf(a).Dbat? || SprOf(a).Unknown?
  {
    hide BatIndex, SprgIndex;
    if SPRN_IBAT0U <= a <= SPRN_IBAT3L && SPRN_IBAT0U <= b <= SPRN_IBAT3L {
      BatIndexInjective(a, b);
    } else if SPRN_SPRG0 <= a <= SPRN_SPRG3 && SPRN_SPRG0 <= b <= SPRN_SPRG3 {
      SprgIndexInjective(a, b);
    }
  }

  lemma BatIndexInjective(a: bv32, b: bv32)
    requires SPRN_IBAT0U <= a <= SPRN_IBAT3L && SPRN_IBAT0U <= b <= SPRN_IBAT3L && a != b
    ensures BatIndex(a) != BatIndex(b)
  {
  }

  lemma SprgIndexInjective(a: bv32, b: bv32)
    requires SPRN_SPRG0 <= a <= SPRN_SPRG3 && SPRN_SPRG0 <= b <= SPRN_SPRG3 && a != b
    ensures SprgIndex(a) != SprgIndex(b)
  {
  }

  /** What mfspr reads; None is an unhandled SPR. */
  function ReadSpr(c: Cpu, spr: bv32): Option<word>
    requires CpuOk(c)
  {
    match SprOf(spr)
    case Pvr => Some(c.pvr)
    case Srr0 => Some(c.srr0)
    case Srr1 => Some(c.srr1)
    case Ibat(i) => Some(c.ubat[i])
    case Dbat => Some(0)
    case Sprg(i) => Some(c.sprg[i])
    case Sdr1 => Some(c.sdr1)
    case Unknown => None
  }

  /** What mtspr changes; None is an unhandled SPR. */
  function WriteSpr(c: Cpu, spr: bv32, v: word): Option<Cpu>
    requires CpuOk(c)
  {
    match SprOf(spr)
    case Srr0 => Some(c.(srr0 := v))
    case Srr1 => Some(c.(srr1 := v))
    case Ibat(i) => Some(c.(ubat := c.ubat[i := v]))
    case Sprg(i) => Some(c.(sprg := c.sprg[i := v]))
    case Sdr1 => Some(c.(sdr1 := v))
    case _ => None
  }

  /** What an instruction does to the cached translations. */
  datatype Flush = Keep | Page(ea: word) | All

  /** A BUG_ON, an unhandled instruction, or the next CPU state. */
  datatype Exec = ExecStops | Unsupported | Done(cpu: Cpu, flush: Flush)

  function Advance(c: Cpu): Cpu { c.(pc := Wrap(c.pc + 4)) }

  function SetReg(c: Cpu, r: bv5, v: word): Cpu
    requires CpuOk(c)
  {
    c.(gpr := c.gpr[r as int := v])
  }

  function Reg(c: Cpu, r: bv5): word
    requires CpuOk(c)
  {
    c.gpr[r as int]
  }

  /** One emulated instruction; `next` is the word after it, 0 when it cannot be read. */
  function Execute(c: Cpu, insn: bv32, next: bv32): Exec
    requires CpuOk(c)
  {
    var op, r := insn & INST_MASK, RegField(insn);
    if op == INST_TLBIE then Done(Advance(c), if next == INST_SYNC then All else Page(Reg(c, TlbField(insn))))
    else if op == INST_MFSR then Done(Advance(SetReg(c, r, c.sr[SrField(insn) as int])), Keep)
    else if op == INST_MTSR then Done(Advance(c.(sr := c.sr[SrField(insn) as int := Reg(c, r)])), Keep)
    else if op == INST_RFI then
      if !Consistent(c.srr1) then ExecStops else Done(c.(msr := c.srr1, pc := c.srr0), Keep)
    else if op == INST_MFSPR then
      match ReadSpr(c, SprField(insn))
      case None => Unsupported
      case Some(v) => Done(Advance(SetReg(c, r, v)), Keep)
    else if op == INST_MTSPR then
      match WriteSpr(c, SprField(insn), Reg(c, r))
      case None => Unsupported
      case Some(d) => Done(Advance(d), SdrFlush(c.sdr1, d.sdr1))
    else if op == INST_MFMSR then Done(Advance(SetReg(c, r, c.msr)), Keep)
    else if op == INST_MTMSR then
      if !Consistent(Reg(c, r)) then ExecStops else Done(Advance(c.(msr := Reg(c, r))), Keep)
    else Unsupported
  }

  /** Leaving ROM translation mode drops every translation cached in it. */
  function SdrFlush(was: word, now: word): Flush {
    if now != SDR1_MAGIC_ROM_MODE && was == SDR1_MAGIC_ROM_MODE then All else Keep
  }

  lemma ExecuteOk(c: Cpu, insn: bv32, next: bv32)
    requires CpuOk(c) && Execute(c, insn, next).Done?
    ensures CpuOk(Execute(c, insn, next).cpu)
  {
  }

  // ---- Round trips.

  predicate Writable(spr: bv32) {
    var s := SprOf(spr);
    s.Srr0? || s.Srr1? || s.Ibat? || s.Sprg? || s.Sdr1?
  }

  /** Writing a register is reading it back, and leaves every other readable register alone. */
  lemma WriteReadSpr(c: Cpu, spr: bv32, v: word, other: bv32)
    requires CpuOk(c)
    ensures WriteSpr(c, spr, v).Some? <==> Writable(spr)
    ensures Writable(spr) ==>
      var d := WriteSpr(c, spr, v).value;
      CpuOk(d) && ReadSpr(d, spr) == Some(v) && (other != spr ==> ReadSpr(d, other) == ReadSpr(c, other)) &&
      d.gpr == c.gpr && d.pc == c.pc && d.msr == c.msr
  {
    hide SprOf, Consistent;
    if other != spr && SprOf(other) == SprOf(spr) {
      SprOfInjective(spr, other);
    }
  }

  lemma ExecuteMtspr(c: Cpu, insn: bv32, next: bv32)
    requires CpuOk(c) && insn & INST_MASK == INST_MTSPR
    ensures Execute(c, insn, next) ==
      match WriteSpr(c, SprField(insn), Reg(c, RegField(insn)))
      case None => Unsupported
      case Some(d) => Done(Advance(d), SdrFlush(c.sdr1, d.sdr1))
  {
    hide SprField, RegField, SprOf;
    OpsDistinct();
  }

  lemma ExecuteMfspr(c: Cpu, insn: bv32, next: bv32)
    requires CpuOk(c) && insn & INST_MASK == INST_MFSPR
    ensures Execute(c, insn, next) ==
      match ReadSpr(c, SprField(insn))
      case None => Unsupported
      case Some(v) => Done(Advance(SetReg(c, RegField(insn), v)), Keep)
  {
    hide SprField, RegField, SprOf;
    OpsDistinct();
  }

  /** mtspr spr, a and then mfspr b, spr: b holds what a held, and nothing but spr, b and the PC changed. */
  lemma MtsprThenMfspr(c: Cpu, spr: bv32, a: bv5, b: bv5, next: bv32, next': bv32)
    requires CpuOk(c) && Writable(spr)
    ensures var e := Execute(c, Mtspr(spr, a), next);
      e.Done? && CpuOk(e.cpu) &&
      var f := Execute(e.cpu, Mfspr(spr, b), next');
      f.Done? && f.cpu == WriteSpr(c, spr, Reg(c, a)).value.(gpr := c.gpr[b as int := Reg(c, a)], pc := Wrap(c.pc + 8))
  {
    hide Execute, WriteSpr, ReadSpr, Mtspr, Mfspr, SprField, RegField;
    WritableSmall(spr);
    DecodeSpr(spr, a);
    DecodeSpr(spr, b);
    WriteReadSpr(c, spr, Reg(c, a), spr);
    ExecuteMtspr(c, Mtspr(spr, a), next);
    var d := Execute(c, Mtspr(spr, a), next).cpu;
    ReadSprAdvance(WriteSpr(c, spr, Reg(c, a)).value, spr);
    ExecuteMfspr(d, Mfspr(spr, b), next');
  }

  lemma WritableSmall(spr: bv32)
    requires Writable(spr)
    ensures spr < 1024
  {
  }

  lemma ReadSprAdvance(c: Cpu, spr: bv32)
    requires CpuOk(c)
    ensures ReadSpr(Advance(c), spr) == ReadSpr(c, spr)
  {
  }

  /** mtmsr and then mfmsr: the guest reads its own MSR, whatever the monitor forces into the one in use. */
  lemma MtmsrThenMfmsr(c: Cpu, w: bv32, w': bv32, next: bv32, next': bv32)
    requires CpuOk(c) && w & INST_MASK == INST_MTMSR && w' & INST_MASK == INST_MFMSR
    ensures var m := Reg(c, RegField(w));
      if !Consistent(m) then Execute(c, w, next) == ExecStops
      else
        var e := Execute(c, w, next);
        e.Done? && CpuOk(e.cpu) && Execute(e.cpu, w', next') ==
          Done(c.(gpr := c.gpr[RegField(w') as int := m], msr := m, pc := Wrap(c.pc + 8)), Keep)
  {
    hide RegField, SprField, SprOf, ReadSpr, WriteSpr, Consistent;
    OpsDistinct();
    ExecuteMtmsr(c, w, next);
    if Consistent(Reg(c, RegField(w))) {
      ExecuteMfmsr(Execute(c, w, next).cpu, w', next');
    }
  }

  lemma ExecuteMtmsr(c: Cpu, insn: bv32, next: bv32)
    requires CpuOk(c) && insn & INST_MASK == INST_MTMSR
    ensures Execute(c, insn, next) ==
      if !Consistent(Reg(c, RegField(insn))) then ExecStops else Done(Advance(c.(msr := Reg(c, RegField(insn)))), Keep)
  {
    hide RegField, SprField, SprOf, ReadSpr, WriteSpr, Consistent;
  }

  lemma ExecuteMfmsr(c: Cpu, insn: bv32, next: bv32)
    requires CpuOk(c) && insn & INST_MASK == INST_MFMSR
    ensures Execute(c, insn, next) == Done(Advance(SetReg(c, RegField(insn), c.msr)), Keep)
  {
    hide RegField, SprField, SprOf, ReadSpr, WriteSpr, Consistent;
  }

  /** Putting a return address and an MSR into SRR0 and SRR1 and returning from the interrupt goes there with that MSR,
      or stops the run when its IR and DR differ; the general registers keep their values. */
  lemma RfiReturns(c: Cpu, a: bv5, b: bv5, rfi: bv32, n: bv32, n': bv32, n'': bv32)
    requires CpuOk(c) && rfi & INST_MASK == INST_RFI
    ensures var d := Execute(c, Mtspr(SPRN_SRR0, a), n);
      d.Done? && CpuOk(d.cpu) &&
      var e := Execute(d.cpu, Mtspr(SPRN_SRR1, b), n');
      e.Done? && CpuOk(e.cpu) &&
      var f := Execute(e.cpu, rfi, n'');
      if !Consistent(Reg(c, b)) then f == ExecStops
      else
        f == Done(c.(srr0 := Reg(c, a), srr1 := Reg(c, b), pc := Reg(c, a), msr := Reg(c, b)), Keep)
  {
    hide Execute, WriteSpr, Mtspr, SprField, RegField, Consistent;
    WritableSmall(SPRN_SRR0);
    WritableSmall(SPRN_SRR1);
    DecodeSpr(SPRN_SRR0, a);
    DecodeSpr(SPRN_SRR1, b);
    WriteSrr(c, Reg(c, a));
    ExecuteMtspr(c, Mtspr(SPRN_SRR0, a), n);
    var d := Execute(c, Mtspr(SPRN_SRR0, a), n).cpu;
    WriteSrr(d, Reg(d, b));
    ExecuteMtspr(d, Mtspr(SPRN_SRR1, b), n');
    ExecuteRfi(Execute(d, Mtspr(SPRN_SRR1, b), n').cpu, rfi, n'');
  }

  lemma WriteSrr(c: Cpu, v: word)
    requires CpuOk(c)
    ensures WriteSpr(c, SPRN_SRR0, v) == Some(c.(srr0 := v)) && WriteSpr(c, SPRN_SRR1, v) == Some(c.(srr1 := v))
  {
  }

  lemma ExecuteRfi(c: Cpu, insn: bv32, next: bv32)
    requires CpuOk(c) && insn & INST_MASK == INST_RFI
    ensures Execute(c, insn, next) ==
      if !Consistent(c.srr1) then ExecStops else Done(c.(msr := c.srr1, pc := c.srr0), Keep)
  {
    hide RegField, SprField, SprOf, ReadSpr, WriteSpr, Consistent;
  }

  // ---- The other registers and instructions.

  /** What mfspr reads, by the numbers of the architecture: the BATs that do not exist are zero, and every other
      number is unhandled. */
  lemma ReadsAs(c: Cpu, spr: bv32, k: bv32)
    requires CpuOk(c)
    ensures ReadSpr(c, 25) == Some(c.sdr1) && ReadSpr(c, 26) == Some(c.srr0) && ReadSpr(c, 27) == Some(c.srr1)
    ensures ReadSpr(c, 287) == Some(c.pvr)
    ensures ReadSpr(c, 272) == Some(c.sprg[0]) && ReadSpr(c, 273) == Some(c.sprg[1])
    ensures ReadSpr(c, 274) == Some(c.sprg[2]) && ReadSpr(c, 275) == Some(c.sprg[3])
    ensures ReadSpr(c, 528) == Some(c.ubat[0]) && ReadSpr(c, 529) == Some(c.ubat[1])
    ensures ReadSpr(c, 530) == Some(c.ubat[2]) && ReadSpr(c, 531) == Some(c.ubat[3])
    ensures ReadSpr(c, 532) == Some(c.ubat[4]) && ReadSpr(c, 533) == Some(c.ubat[5])
    ensures ReadSpr(c, 534) == Some(c.ubat[6]) && ReadSpr(c, 535) == Some(c.ubat[7])
    ensures 536 <= spr < 544 ==> ReadSpr(c, spr) == Some(0)
    ensures ReadSpr(c, spr).None? <==>
      !(25 <= spr <= 27 || spr == 287 || 272 <= spr <= 275 || 528 <= spr < 544)
  {
  }

  /** Of these only SDR1, the SRRs, the SPRGs and the BATs there are can be written. Leaving ROM mode drops every cached
      translation, and nothing else does. */
  lemma MtsprEnds(c: Cpu, spr: bv32, a: bv5, next: bv32)
    requires CpuOk(c) && spr < 1024
    ensures Writable(spr) <==> 25 <= spr <= 27 || 272 <= spr <= 275 || 528 <= spr < 536
    ensures var e := Execute(c, Mtspr(spr, a), next);
      if !Writable(spr) then e == Unsupported
      else
        e.Done? && e.flush ==
          if spr == 25 && c.sdr1 == 0xFFFF_FFFF && c.gpr[a as int] != 0xFFFF_FFFF then All else Keep
  {
    hide Execute, WriteSpr, Mtspr, SprField, RegField;
    DecodeSpr(spr, a);
    ExecuteMtspr(c, Mtspr(spr, a), next);
    WriteReadSpr(c, spr, c.gpr[a as int], SPRN_SDR1);
    if Writable(spr) {
      assert ReadSpr(c, SPRN_SDR1) == Some(c.sdr1);
      var d := WriteSpr(c, spr, c.gpr[a as int]).value;
      assert ReadSpr(d, SPRN_SDR1) == Some(d.sdr1);
    }
  }

  /** mtsr n, a and then mfsr b, m: b holds what a held if the numbers are the same, else what the segment register
      held, and no other segment register changes. */
  lemma MtsrThenMfsr(c: Cpu, n: bv4, m: bv4, a: bv5, b: bv5, next: bv32, next': bv32)
    requires CpuOk(c)
    ensures var e := Execute(c, Mtsr(n, a), next);
      e.Done? && e.flush == Keep && CpuOk(e.cpu) &&
      e.cpu == c.(sr := c.sr[n as int := c.gpr[a as int]], pc := Wrap(c.pc + 4)) &&
      Execute(e.cpu, Mfsr(m, b), next') ==
        Done(e.cpu.(gpr := c.gpr[b as int := if m == n then c.gpr[a as int] else c.sr[m as int]],
          pc := Wrap(c.pc + 8)), Keep)
  {
    hide Mtsr, Mfsr, RegField, SrField, TlbField, SprField, ReadSpr, WriteSpr, Consistent;
    DecodeSr(n, a);
    DecodeSr(m, b);
  }

  /** tlbie r: nothing changes but the PC, and the page of the address in r is to be dropped, or everything when the
      next word is a sync. */
  lemma TlbieDrops(c: Cpu, r: bv5, next: bv32)
    requires CpuOk(c)
    ensures Execute(c, Tlbie(r), next) ==
      Done(c.(pc := Wrap(c.pc + 4)), if next == INST_SYNC then All else Page(c.gpr[r as int]))
  {
    hide Tlbie, RegField, SrField, TlbField, SprField, ReadSpr, WriteSpr, Consistent;
    DecodeTlbie(r);
  }

  predicate Emulated(op: bv32) {
    op == INST_TLBIE || op == INST_MFSR || op == INST_MTSR || op == INST_RFI || op == INST_MFSPR || op == INST_MTSPR ||
    op == INST_MFMSR || op == INST_MTMSR
  }

  /** No other instruction is handled; the SPR instructions are for the registers there are, and a write to one that is
      only read is not. */
  lemma UnsupportedExactly(c: Cpu, insn: bv32, next: bv32)
    requires CpuOk(c)
    ensures var op := insn & INST_MASK;
      Execute(c, insn, next) == Unsupported <==>
        !Emulated(op) || (op == INST_MFSPR && ReadSpr(c, SprField(insn)).None?) ||
        (op == INST_MTSPR && !Writable(SprField(insn)))
  {
    hide RegField, SrField, TlbField, SprField, SprOf, Consistent;
  }

  /** An instruction stops the run exactly when it would leave IR and DR different. */
  lemma StopsExactly(c: Cpu, insn: bv32, next: bv32)
    requires CpuOk(c)
    ensures var op := insn & INST_MASK;
      Execute(c, insn, next) == ExecStops <==>
        (op == INST_RFI && !Consistent(c.srr1)) || (op == INST_MTMSR && !Consistent(c.gpr[RegField(insn) as int]))
  {
    hide RegField, SrField, TlbField, SprField, ReadSpr, WriteSpr, Consistent;
  }
}
