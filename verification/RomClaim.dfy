/** Claiming physical memory: the available list and the bump arena behind it (rom.c:424-473, 712-721, 888-939). */
module RomClaim {
  import opened Words
  import opened Bits
  import opened CircularList
  import opened MemRanges

  const ARENA_SIZE := 0x100_0000

  datatype Claim = Claim(addr: word, size: word, align: word)

  /** RAM size, available ranges and the arena pointer. The arena is the last ARENA_SIZE bytes of RAM. */
  datatype Memory = Memory(ram: word, avail: seq<Range>, ptr: word)

  /** A BUG_ON stopped the run, or the claim was refused (-1), or it was granted at an address. */
  datatype Outcome = Stopped | Refused(m: Memory) | Granted(m: Memory, out: word)

  /** RAM sizes the ROM accepts: whole pages, and more than the arena. */
  predicate RamOk(ram: word) {
    ram % PAGE_SIZE == 0 && ram > ARENA_SIZE
  }

  function Init(ram: word): Memory
    requires RamOk(ram)
  {
    Memory(ram, [Range(0, ram - 1)], ram - ARENA_SIZE)
  }

  /** The arena pointer rounded up, and what one arena claim leaves it at. */
  datatype Bump = Bump(granted: bool, out: word, ptr: word)

  function ArenaBump(ptr: word, end: word, size: word, align: word): Bump {
    var out := AlignUp(ptr, align);
    if out >= end then Bump(false, out, out)
    else if Wrap(out + size) > end then Bump(false, out, Wrap(out + size))
    else Bump(true, out, Wrap(out + size))
  }

  function HullBase(out: word): word { Align(out, PAGE_SIZE) }
  function HullLimit(out: word, size: word): word { Wrap(AlignUp(Wrap(out + size), PAGE_SIZE) - 1) }

  function Take(m: Memory, out: word, size: word): Outcome {
    var base, limit := HullBase(out), HullLimit(out, size);
    if RemoveStops(m.avail, base, limit) then Stopped
    else Granted(m.(avail := CutAll(m.avail, base, limit)), out)
  }

  function ClaimStep(m: Memory, c: Claim): Outcome {
    if c.align != 0 then
      var b := ArenaBump(m.ptr, m.ram, c.size, c.align);
      if b.granted then Take(m.(ptr := b.ptr), b.out, c.size) else Refused(m.(ptr := b.ptr))
    else if Wrap(c.addr + c.size) > m.ram then Refused(m)
    else Take(m, c.addr, c.size)
  }

  /** The ROM's memory bookkeeping. */
  class RomMemory {
    const ram: word
    var avail: List<Range>
    var arenaPtr: word

    ghost function State(): Memory
      requires avail.ring != []
      reads this, avail, avail.ring
    {
      Memory(ram, avail.Items(), arenaPtr)
    }

    ghost predicate Valid()
      reads this, avail, avail.ring
    {
      avail.Valid() && Sorted(avail.Items())
    }

    /** The part of rom_init that sets up the available list and the arena (rom.c:714-721). */
    constructor (ramSize: word)
      requires RamOk(ramSize)
      ensures Valid() && State() == Init(ramSize)
      ensures fresh(avail) && forall j :: 0 <= j < |avail.ring| ==> fresh(avail.ring[j])
    {
      var l := new List(Range(0, 0));
      ghost var entry;
      var stopped;
      stopped, entry := RangeAdd(l, 0, ramSize - 1);
      assert l.Items() == [Range(0, ramSize - 1)];
      ram := ramSize;
      avail := l;
      arenaPtr := ramSize - ARENA_SIZE;
    }

    /** rom_claim_ex (rom.c:424-473); -1 is the largest word. */
    method RomClaimEx(addr: word, size: word, align: word) returns (stopped: bool, out: word)
      requires Valid()
      modifies this, avail, avail.ring
      ensures var r := ClaimStep(old(State()), Claim(addr, size, align));
        stopped == r.Stopped? &&
        (r.Refused? ==> Valid() && State() == r.m && out == 0xFFFF_FFFF) &&
        (r.Granted? ==> Valid() && State() == r.m && out == r.out)
    {
      hide List.Valid, AlignUp, Align, RemoveStops, Sorted, CutAll;
      if align != 0 {
        arenaPtr := AlignUp(arenaPtr, align);
        if arenaPtr >= ram {
          return false, 0xFFFF_FFFF;
        }
        out := arenaPtr;
        arenaPtr := Wrap(arenaPtr + size);
        if arenaPtr > ram {
          return false, 0xFFFF_FFFF;
        }
      } else {
        if Wrap(addr + size) > ram {
          return false, 0xFFFF_FFFF;
        }
        out := addr;
      }
      stopped := RangeRemove(avail, Align(out, PAGE_SIZE), Wrap(AlignUp(Wrap(out + size), PAGE_SIZE) - 1));
    }
  }

  // ---- Accounting: over every run, available memory is RAM minus the pages claimed.

  predicate PageAligned(s: seq<Range>) {
    forall i :: 0 <= i < |s| ==> s[i].base % PAGE_SIZE == 0 && (s[i].limit + 1) % PAGE_SIZE == 0
  }

  /** Not empty, and not past the end of the 32-bit space. */
  predicate Proper(ram: word, c: Claim) {
    c.size > 0 && (if c.align != 0 then ram + c.size else c.addr + c.size) <= TWO32 - 1
  }

  datatype Grant = Grant(out: word, size: word)

  /** The address lies in a page that the grant touches. */
  predicate InHull(g: Grant, a: int) {
    g.out - g.out % PAGE_SIZE <= a && a / PAGE_SIZE * PAGE_SIZE < g.out + g.size
  }

  ghost predicate InSomeHull(gs: seq<Grant>, a: int) {
    exists i :: 0 <= i < |gs| && InHull(gs[i], a)
  }

  /** A run of claims from start-up: halted by a BUG_ON, or the memory and the grants so far. */
  datatype Trace = Halted | Ran(m: Memory, grants: seq<Grant>)

  function Run(ram: word, cs: seq<Claim>): Trace
    requires RamOk(ram)
  {
    if cs == [] then Ran(Init(ram), [])
    else
      var before, c := Run(ram, cs[..|cs| - 1]), cs[|cs| - 1];
      if before.Halted? then Halted
      else match ClaimStep(before.m, c)
        case Stopped => Halted
        case Refused(m) => Ran(m, before.grants)
        case Granted(m, out) => Ran(m, before.grants + [Grant(out, c.size)])
  }

  lemma PageHull(out: word, size: word, ram: word)
    requires RamOk(ram) && size > 0 && out + size <= ram
    ensures var base, limit := HullBase(out), HullLimit(out, size);
      base == out - out % PAGE_SIZE && base < limit < ram &&
      base % PAGE_SIZE == 0 && (limit + 1) % PAGE_SIZE == 0 && out + size <= limit + 1 < out + size + PAGE_SIZE
  {
    hide AlignUp, Align, Wrap;
    PageAlign(out);
    PageAlignUp(out + size);
    PageHullArith(out, size, ram);
    var e := out + size;
    var up: nat := if e % PAGE_SIZE == 0 then e else e - e % PAGE_SIZE + PAGE_SIZE;
    WrapSmall(e);
    WrapSmall(up);
    WrapSmall(up - 1);
    RoundedDown(out);
  }

  lemma RoundedDown(x: word)
    ensures (x - x % PAGE_SIZE) % PAGE_SIZE == 0
  {
  }

  lemma PageHullArith(out: int, size: int, ram: word)
    requires RamOk(ram) && size > 0 && 0 <= out && out + size <= ram
    ensures var e := out + size; var up := if e % PAGE_SIZE == 0 then e else e - e % PAGE_SIZE + PAGE_SIZE;
      e <= up <= ram && up < e + PAGE_SIZE && up % PAGE_SIZE == 0 && out - out % PAGE_SIZE + 1 < up
  {
  }

  lemma InHullIs(out: word, size: word, ram: word, a: int)
    requires RamOk(ram) && size > 0 && out + size <= ram
    ensures HullBase(out) <= a <= HullLimit(out, size) <==> InHull(Grant(out, size), a)
  {
    hide HullBase, HullLimit;
    PageHull(out, size, ram);
  }

  lemma {:induction false} CutAllAligned(s: seq<Range>, base: word, limit: word)
    requires PageAligned(s) && base <= limit && base % PAGE_SIZE == 0 && (limit + 1) % PAGE_SIZE == 0
    ensures PageAligned(CutAll(s, base, limit))
    ensures forall i :: 0 <= i < |s| ==> !SplitsOneOff(s[i], base, limit)
    decreases |s|
  {
    hide Cut, SplitsOneOff;
    if s != [] {
      var front, last := s[..|s| - 1], s[|s| - 1];
      assert forall i :: 0 <= i < |front| ==> front[i] == s[i];
      CutAllAligned(front, base, limit);
      CutAligned(last, base, limit);
    }
  }

  lemma CutAligned(r: Range, base: word, limit: word)
    requires base <= limit && base % PAGE_SIZE == 0 && (limit + 1) % PAGE_SIZE == 0
    requires r.base % PAGE_SIZE == 0 && (r.limit + 1) % PAGE_SIZE == 0
    ensures PageAligned(Cut(r, base, limit)) && !SplitsOneOff(r, base, limit)
  {
  }

  ghost predicate Accounted(m: Memory, ram: word, gs: seq<Grant>) {
    m.ram == ram && Sorted(m.avail) && PageAligned(m.avail) &&
    forall a: int :: Holds(m.avail, a) <==> 0 <= a < ram && !InSomeHull(gs, a)
  }

  lemma HullJoin(gs: seq<Grant>, g: Grant, a: int)
    ensures InSomeHull(gs + [g], a) <==> InSomeHull(gs, a) || InHull(g, a)
  {
    if InSomeHull(gs, a) {
      var i :| 0 <= i < |gs| && InHull(gs[i], a);
      assert (gs + [g])[i] == gs[i];
    }
    if InHull(g, a) {
      assert (gs + [g])[|gs|] == g;
    }
  }

  lemma TakeAccounts(m: Memory, ram: word, gs: seq<Grant>, out: word, size: word)
    requires RamOk(ram) && Accounted(m, ram, gs) && size > 0 && out + size <= ram
    ensures var r := Take(m, out, size);
      r.Granted? && r.out == out && r.m.ptr == m.ptr && Accounted(r.m, ram, gs + [Grant(out, size)])
  {
    hide Holds, InSomeHull, InHull, HullBase, HullLimit, CutAll, Sorted, SplitsOneOff;
    var base, limit := HullBase(out), HullLimit(out, size);
    PageHull(out, size, ram);
    CutAllAligned(m.avail, base, limit);
    CutAllSorted(m.avail, base, limit);
    var r := Take(m, out, size);
    forall a: int
      ensures Holds(r.m.avail, a) <==> 0 <= a < ram && !InSomeHull(gs + [Grant(out, size)], a)
    {
      CutAllHolds(m.avail, base, limit, a);
      InHullIs(out, size, ram, a);
      HullJoin(gs, Grant(out, size), a);
    }
  }

  lemma ClaimAccounts(m: Memory, ram: word, gs: seq<Grant>, c: Claim)
    requires RamOk(ram) && Accounted(m, ram, gs) && Proper(ram, c)
    ensures var r := ClaimStep(m, c);
      (r.Refused? && Accounted(r.m, ram, gs)) ||
      (r.Granted? && r.out + c.size <= ram && Accounted(r.m, ram, gs + [Grant(r.out, c.size)]))
  {
    hide Holds, InSomeHull, Take, PageAligned, Sorted, AlignUp;
    if c.align != 0 {
      var b := ArenaBump(m.ptr, ram, c.size, c.align);
      if b.granted {
        TakeAccounts(m.(ptr := b.ptr), ram, gs, b.out, c.size);
      }
    } else if Wrap(c.addr + c.size) <= ram {
      TakeAccounts(m, ram, gs, c.addr, c.size);
    }
  }

  /** Over every run of non-empty, non-wrapping claims no BUG_ON fires, and the available memory is exactly RAM
      minus the page hulls of what was granted, in sorted, page-aligned ranges. */
  lemma {:induction false} RunAccounts(ram: word, cs: seq<Claim>)
    requires RamOk(ram) && forall i :: 0 <= i < |cs| ==> Proper(ram, cs[i])
    ensures Run(ram, cs).Ran? && Accounted(Run(ram, cs).m, ram, Run(ram, cs).grants)
    decreases |cs|
  {
    if cs == [] {
      assert Init(ram).avail[0] == Range(0, ram - 1);
    } else {
      RunAccounts(ram, cs[..|cs| - 1]);
      var before := Run(ram, cs[..|cs| - 1]);
      ClaimAccounts(before.m, ram, before.grants, cs[|cs| - 1]);
    }
  }

  /** A fixed claim is granted exactly when it ends inside RAM, at the address asked for; nothing else about the memory
      changes but the pages that are taken. */
  lemma FixedEnds(m: Memory, ram: word, gs: seq<Grant>, c: Claim)
    requires RamOk(ram) && Accounted(m, ram, gs) && Proper(ram, c) && c.align == 0
    ensures var r := ClaimStep(m, c);
      if c.addr + c.size <= ram then
        r.Granted? && r.out == c.addr && r.m.ptr == m.ptr && Accounted(r.m, ram, gs + [Grant(c.addr, c.size)])
      else r == Refused(m)
  {
    hide Accounted, Take;
    AccountedRam(m, ram, gs);
    WrapSmall(c.addr + c.size);
    if c.addr + c.size <= ram {
      TakeAccounts(m, ram, gs, c.addr, c.size);
    }
  }

  /** The first multiple of a from x on. */
  predicate FirstMultiple(x: nat, a: nat, up: nat) {
    a > 0 && up % a == 0 && x <= up < x + a
  }

  /** An arena claim is granted exactly when it ends inside RAM from the first multiple of its alignment on, at that
      address, and the pointer moves to its end. A multiple of 2^32 is 0. A refused claim moves the pointer as well. */
  lemma ArenaEnds(m: Memory, ram: word, gs: seq<Grant>, c: Claim, up: nat)
    requires RamOk(ram) && Accounted(m, ram, gs) && Proper(ram, c) && IsPow2(c.align)
    requires FirstMultiple(m.ptr, c.align, up)
    ensures up <= TWO32
    ensures var r, at := ClaimStep(m, c), if up == TWO32 then 0 else up;
      if at + c.size <= ram then
        r.Granted? && r.out == at && r.m.ptr == at + c.size && Accounted(r.m, ram, gs + [Grant(at, c.size)])
      else r == Refused(m.(ptr := if at >= ram then at else at + c.size))
  {
    hide Accounted, Take, AlignUp, IsPow2;
    AccountedRam(m, ram, gs);
    AlignUpIs(m.ptr, c.align);
    FirstMultipleIs(m.ptr, c.align, up);
    var at: nat := AlignUp(m.ptr, c.align);
    if at < ram {
      WrapSmall(at + c.size);
      if at + c.size <= ram {
        PtrIsFree(m, ram, gs, at + c.size);
        TakeAccounts(m.(ptr := at + c.size), ram, gs, at, c.size);
      }
    }
  }

  lemma FirstMultipleIs(x: word, a: word, up: nat)
    requires IsPow2(a) && FirstMultiple(x, a, up)
    ensures up == (if x % a == 0 then x else x - x % a + a) && up <= TWO32
    ensures Wrap(up) == if up == TWO32 then 0 else up
  {
    hide Pow2;
    var k: nat :| k < 32 && a == Pow2(k);
    Complement(a, k);
    var q, r := x / a, x % a;
    assert x == a * q + r;
    DivModIs(up, a);
    assert up == a * (up / a);
    var n := if r == 0 then q else q + 1;
    assert a * (q + 1) == a * q + a;
    if up / a < n {
      MulLess(a, up / a, n);
    } else if up / a > n {
      MulLess(a, n, up / a);
    }
    var w := Pow2(32 - k);
    if n > w {
      MulLess(a, w, n);
    }
  }

  lemma AccountedRam(m: Memory, ram: word, gs: seq<Grant>)
    requires Accounted(m, ram, gs)
    ensures m.ram == ram
  {
  }

  /** Where the arena pointer stands makes no difference to the accounts. */
  lemma PtrIsFree(m: Memory, ram: word, gs: seq<Grant>, ptr: word)
    requires Accounted(m, ram, gs)
    ensures Accounted(m.(ptr := ptr), ram, gs)
  {
  }

  /** So after every run of proper claims the next one gets what it asks for, or nothing. */
  lemma RunGrants(ram: word, cs: seq<Claim>, c: Claim, up: nat)
    requires RamOk(ram) && (forall i :: 0 <= i < |cs| ==> Proper(ram, cs[i])) && Proper(ram, c)
    requires Run(ram, cs).Ran? ==> c.align != 0 ==> IsPow2(c.align) && FirstMultiple(Run(ram, cs).m.ptr, c.align, up)
    ensures Run(ram, cs).Ran? && Run(ram, cs + [c]).Ran?
    ensures var at := if c.align == 0 then c.addr else if up == TWO32 then 0 else up;
      Run(ram, cs + [c]).grants ==
        if at + c.size <= ram then Run(ram, cs).grants + [Grant(at, c.size)] else Run(ram, cs).grants
  {
    hide Accounted, ClaimStep, IsPow2;
    RunAccounts(ram, cs);
    var before := Run(ram, cs);
    assert (cs + [c])[..|cs|] == cs;
    if c.align == 0 {
      FixedEnds(before.m, ram, before.grants, c);
    } else {
      ArenaEnds(before.m, ram, before.grants, c, up);
    }
  }

  /** What the "available" property asks of a range: base and size are whole pages (rom.c:910-919). */
  predicate WholePages(r: Range) {
    r.base % PAGE_SIZE == 0 && Wrap(r.limit - r.base + 1) % PAGE_SIZE == 0
  }

  /** After any such run every available range is whole pages. */
  lemma RunReadable(ram: word, cs: seq<Claim>)
    requires RamOk(ram) && forall i :: 0 <= i < |cs| ==> Proper(ram, cs[i])
    ensures Run(ram, cs).Ran? && forall i :: 0 <= i < |Run(ram, cs).m.avail| ==> WholePages(Run(ram, cs).m.avail[i])
  {
    RunAccounts(ram, cs);
    var s := Run(ram, cs).m.avail;
    forall i | 0 <= i < |s|
      ensures WholePages(s[i])
    {
      AlignedCell(s[i].base, s[i].limit);
    }
  }

  lemma AlignedCell(base: word, limit: word)
    requires base <= limit && base % PAGE_SIZE == 0 && (limit + 1) % PAGE_SIZE == 0
    ensures Wrap(limit - base + 1) % PAGE_SIZE == 0
  {
  }

  function PageEnd(addr: word): word {
    PageOf(addr) + PAGE_SIZE - 1
  }

  /** What taking no bytes at an address does: inside a page it takes that whole page; on a page boundary it stops the
      run; at address 0 it takes everything. */
  function NothingTaken(m: Memory, out: word): Outcome {
    if out % PAGE_SIZE != 0 then Granted(m.(avail := CutAll(m.avail, PageOf(out), PageEnd(out))), out)
    else if out != 0 then Stopped
    else Granted(m.(avail := CutAll(m.avail, 0, TWO32 - 1)), 0)
  }

  /** No empty claim is accounted for correctly, in the arena or at a fixed address. */
  lemma EmptyClaim(m: Memory, addr: word, align: word)
    requires RamOk(m.ram) && Sorted(m.avail) && PageAligned(m.avail)
    ensures ClaimStep(m, Claim(addr, 0, align)) ==
      if align == 0 then (if addr > m.ram then Refused(m) else NothingTaken(m, addr))
      else
        var b := ArenaBump(m.ptr, m.ram, 0, align);
        if b.granted then NothingTaken(m.(ptr := b.ptr), b.out) else Refused(m.(ptr := b.ptr))
  {
    hide AlignUp, Align, CutAll, Take, NothingTaken;
    if align != 0 {
      var b := ArenaBump(m.ptr, m.ram, 0, align);
      if b.granted {
        EmptyTake(m.(ptr := b.ptr), b.out);
      }
    } else if addr <= m.ram {
      EmptyTake(m, addr);
    }
  }

  lemma EmptyTake(m: Memory, out: word)
    requires RamOk(m.ram) && Sorted(m.avail) && PageAligned(m.avail) && out <= m.ram
    ensures Take(m, out, 0) == NothingTaken(m, out)
  {
    hide AlignUp, Align, CutAll;
    PageAlign(out);
    PageAlignUp(out);
    if out % PAGE_SIZE != 0 {
      CutAllAligned(m.avail, PageOf(out), PageEnd(out));
    }
  }

  /** The arena is the last 16 MiB of RAM. */
  lemma StartsWith(ram: word)
    requires RamOk(ram)
    ensures Init(ram) == Memory(ram, [Range(0, ram - 1)], ram - 16 * 1024 * 1024)
  {
  }

  /** Empty claims at three addresses of 32 MiB: inside a page, on a page boundary, and at zero. */
  lemma EmptyClaims()
    ensures var ram: word := 0x200_0000;
      var m := Init(ram);
      var p := ram - ARENA_SIZE;
      ClaimStep(m, Claim(0x1001, 0, 0)) == Granted(Memory(ram, [Range(0, 0xFFF), Range(0x2000, ram - 1)], p), 0x1001) &&
      ClaimStep(m, Claim(0x1000, 0, 0)) == Stopped &&
      ClaimStep(m, Claim(0, 0, 0)) == Granted(Memory(ram, [], p), 0)
  {
    hide ClaimStep, NothingTaken;
    var m := Init(0x200_0000);
    var all := Range(0, 0x1FF_FFFF);
    assert m.avail == [all];
    EmptyClaim(m, 0x1001, 0);
    EmptyClaim(m, 0x1000, 0);
    EmptyClaim(m, 0, 0);
    NothingOf(m, all);
    assert Cut(all, 0x1000, 0x1FFF) == [Range(0, 0xFFF), Range(0x2000, 0x1FF_FFFF)];
    assert Cut(all, 0, TWO32 - 1) == [];
  }

  lemma NothingOf(m: Memory, r: Range)
    requires m.avail == [r]
    ensures NothingTaken(m, 0x1001) == Granted(m.(avail := Cut(r, 0x1000, 0x1FFF)), 0x1001)
    ensures NothingTaken(m, 0x1000) == Stopped
    ensures NothingTaken(m, 0) == Granted(m.(avail := Cut(r, 0, TWO32 - 1)), 0)
  {
    CutOnly(r, 0x1000, 0x1FFF);
    CutOnly(r, 0, TWO32 - 1);
  }

  lemma CutOnly(r: Range, base: word, limit: word)
    requires base <= limit
    ensures CutAll([r], base, limit) == Cut(r, base, limit)
  {
    assert [r][..0] == [];
    assert [] + Cut(r, base, limit) == Cut(r, base, limit);
  }
}
