/** Fields of PowerPC instruction words (include/ppc-defs.h:115-132, include/defs.h:37-40). */
module InsnBits {
  const INST_MASK: bv32 := 0xfc00_07fe
  const INST_MTSPR: bv32 := 0x7c00_03a6
  const INST_MFSPR: bv32 := 0x7c00_02a6
  const INST_MTMSR: bv32 := 0x7c00_0124
  const INST_MFMSR: bv32 := 0x7c00_00a6
  const INST_MTSR: bv32 := 0x7c00_01a4
  const INST_MFSR: bv32 := 0x7c00_04a6
  const INST_RFI: bv32 := 0x4c00_0064
  const INST_TLBIE: bv32 := 0x7c00_0264
  const INST_SYNC: bv32 := 0x7c00_04ac

  function RegField(insn: bv32): bv5 { ((insn >> 21) & 0x1f) as bv5 }
  function SrField(insn: bv32): bv4 { ((insn >> 16) & 0xf) as bv4 }
  function TlbField(insn: bv32): bv5 { ((insn >> 11) & 0x1f) as bv5 }

  /** The SPR number, whose halves the encoding swaps. */
  function SprField(insn: bv32): bv32 {
    var spr := (insn >> 11) & 0x3ff;
    ((spr & 0x1f) << 5) | ((spr & 0x3e0) >> 5)
  }

  // ---- Building the words that the decoder takes apart.

  function SprBits(spr: bv32): bv32 {
    ((spr & 0x1f) << 16) | ((spr & 0x3e0) << 6)
  }

  function RegBits(r: bv5): bv32 {
    (r as bv32) << 21
  }

  /** The instruction words mtspr spr, r and mfspr r, spr. */
  function Mtspr(spr: bv32, r: bv5): bv32 { INST_MTSPR | RegBits(r) | SprBits(spr) }
  function Mfspr(spr: bv32, r: bv5): bv32 { INST_MFSPR | RegBits(r) | SprBits(spr) }

  lemma MtsprFields(spr: bv32, r: bv32)
    requires spr < 1024 && r < 32
    ensures var w := INST_MTSPR | (r << 21) | SprBits(spr);
      w & INST_MASK == INST_MTSPR && SprField(w) == spr && (w >> 21) & 0x1f == r
  {
  }

  lemma MfsprFields(spr: bv32, r: bv32)
    requires spr < 1024 && r < 32
    ensures var w := INST_MFSPR | (r << 21) | SprBits(spr);
      w & INST_MASK == INST_MFSPR && SprField(w) == spr && (w >> 21) & 0x1f == r
  {
  }

  lemma Widen(r: bv5)
    ensures (r as bv32) < 32 && (r as bv32) as bv5 == r
  {
  }

  lemma Narrow(w: bv32, r: bv5)
    requires (w >> 21) & 0x1f == r as bv32
    ensures RegField(w) == r
  {
  }

  lemma DecodeMtspr(spr: bv32, r: bv5)
    requires spr < 1024
    ensures Mtspr(spr, r) & INST_MASK == INST_MTSPR && SprField(Mtspr(spr, r)) == spr && RegField(Mtspr(spr, r)) == r
  {
    hide SprField, SprBits, RegField;
    Widen(r);
    MtsprFields(spr, r as bv32);
    Narrow(Mtspr(spr, r), r);
  }

  lemma DecodeMfspr(spr: bv32, r: bv5)
    requires spr < 1024
    ensures Mfspr(spr, r) & INST_MASK == INST_MFSPR && SprField(Mfspr(spr, r)) == spr && RegField(Mfspr(spr, r)) == r
  {
    hide SprField, SprBits, RegField;
    Widen(r);
    MfsprFields(spr, r as bv32);
    Narrow(Mfspr(spr, r), r);
  }

  /** Decoding undoes the encoding, swapped SPR halves included. */
  lemma DecodeSpr(spr: bv32, r: bv5)
    requires spr < 1024
    ensures Mtspr(spr, r) & INST_MASK == INST_MTSPR && SprField(Mtspr(spr, r)) == spr && RegField(Mtspr(spr, r)) == r
    ensures Mfspr(spr, r) & INST_MASK == INST_MFSPR && SprField(Mfspr(spr, r)) == spr && RegField(Mfspr(spr, r)) == r
  {
    hide SprField, SprBits, RegField, Mtspr, Mfspr;
    DecodeMtspr(spr, r);
    DecodeMfspr(spr, r);
  }

  /** No word is two of the emulated instructions. */
  lemma OpsDistinct()
    ensures INST_TLBIE != INST_MFSR && INST_TLBIE != INST_MTSR && INST_TLBIE != INST_RFI && INST_TLBIE != INST_MFSPR
    ensures INST_MTSPR != INST_TLBIE && INST_MTSPR != INST_MFSR && INST_MTSPR != INST_MTSR && INST_MTSPR != INST_RFI
    ensures INST_MFSPR != INST_TLBIE && INST_MFSPR != INST_MFSR && INST_MFSPR != INST_MTSR && INST_MFSPR != INST_RFI
    ensures INST_MTSPR != INST_MFSPR
  {
  }

  /** The instruction words of a segment register or of a translation to be dropped. */
  function Mfsr(n: bv4, r: bv5): bv32 { INST_MFSR | RegBits(r) | ((n as bv32) << 16) }
  function Mtsr(n: bv4, r: bv5): bv32 { INST_MTSR | RegBits(r) | ((n as bv32) << 16) }
  function Tlbie(r: bv5): bv32 { INST_TLBIE | ((r as bv32) << 11) }

  lemma DecodeSr(n: bv4, r: bv5)
    ensures Mfsr(n, r) & INST_MASK == INST_MFSR && SrField(Mfsr(n, r)) == n && RegField(Mfsr(n, r)) == r
    ensures Mtsr(n, r) & INST_MASK == INST_MTSR && SrField(Mtsr(n, r)) == n && RegField(Mtsr(n, r)) == r
  {
  }

  lemma DecodeTlbie(r: bv5)
    ensures Tlbie(r) & INST_MASK == INST_TLBIE && TlbField(Tlbie(r)) == r
  {
  }

  function Opcode(primary: bv32, extended: bv32): bv32 {
    (primary << 26) | (extended << 1)
  }

  /** The primary and extended opcodes that the architecture gives these instructions, and the bits they are in. */
  lemma Opcodes()
    ensures INST_MASK == Opcode(0x3f, 0x3ff)
    ensures INST_MTSPR == Opcode(31, 467) && INST_MFSPR == Opcode(31, 339)
    ensures INST_MTMSR == Opcode(31, 146) && INST_MFMSR == Opcode(31, 83)
    ensures INST_MTSR == Opcode(31, 210) && INST_MFSR == Opcode(31, 595)
    ensures INST_RFI == Opcode(19, 50) && INST_TLBIE == Opcode(31, 306) && INST_SYNC == Opcode(31, 598)
  {
  }
}
