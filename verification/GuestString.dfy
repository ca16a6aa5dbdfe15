/** Reading NUL-terminated strings from guest memory, and when that gives the guest's string (guest.c:252-290 with
    nul_term; pmem.c:90-144 with PMEM_FROM_NUL_TERM). */
module GuestString {
  import opened Words
  import opened MmuRanges
  import opened GuestCpu
  import opened GuestMmu
  import opened Pmem
  import opened FlatCopy
  import opened GuestState

  /** The position of the first NUL from one on; the end when there is none. */
  function NulFrom(s: seq<byte>, i: nat): (j: nat)
    requires i <= |s|
    ensures i <= j <= |s| && (j < |s| ==> s[j] == 0) && forall k :: i <= k < j ==> s[k] != 0
    decreases |s| - i
  {
    if i == |s| || s[i] == 0 then i else NulFrom(s, i + 1)
  }

  /** A read inside one page: what is counted and the bytes that are written. */
  datatype Part = Part(count: nat, bytes: seq<byte>)

  /** None when strlcpy looks for the NUL past the end of memory. */
  function PagePart(view: seq<byte>, g: nat, x: nat, little: bool): (r: Option<Part>)
    requires g + x <= |view|
    ensures r.Some? ==> |r.value.bytes| <= x && (r.value.count == x ==> |r.value.bytes| == x)
  {
    if little then
      var j := NulFrom(view[g..g + x], 0);
      Some(Part(j, view[g..g + Min(j + 1, x)]))
    else
      var end := NulFrom(view, g);
      if end == |view| then None
      else Some(Part(end - g, if x == 0 then [] else view[g..g + Min(end - g, x - 1)] + [0]))
  }

  /** strlcpy from guest memory, on a host that looks for the NUL no further than the end of the memory. */
  method Strlcpy(pm: PhysMem, dest: array<byte>, at: nat, src: nat, size: nat) returns (beyond: bool, n: nat)
    requires dest != pm.mem && at + size <= dest.Length && src + size <= pm.mem.Length
    modifies dest
    ensures beyond == PagePart(pm.mem[..], src, size, false).None?
    ensures !beyond ==>
      var p := PagePart(pm.mem[..], src, size, false).value;
      n == p.count && dest[..] == Splice(old(dest[..]), at, p.bytes)
  {
    hide Splice;
    ghost var m, was := pm.mem[..], dest[..];
    n := 0;
    while src + n < pm.mem.Length && pm.mem[src + n] != 0
      invariant src + n <= pm.mem.Length && NulFrom(m, src + n) == NulFrom(m, src)
    {
      n := n + 1;
    }
    SpliceNone(was, at);
    if src + n == pm.mem.Length {
      return true, n;
    }
    beyond := false;
    if size > 0 {
      var k := Min(n, size - 1);
      pm.Load(src, dest, at, k);
      ghost var now := dest[..];
      dest[at + k] := 0;
      assert pm.mem[src..src + k] == m[src..src + k];
      SpliceNext(was, at, m[src..src + k], 0, now, dest[..]);
    }
  }

  /** pmem_from_ex with PMEM_FROM_NUL_TERM and single bytes. */
  method PmemFromString(pm: PhysMem, dest: array<byte>, at: nat, src: word, count: word, little: bool)
    returns (beyond: bool, n: nat)
    requires pm.Valid() && dest != pm.mem && at + count <= dest.Length
    requires src < pm.mem.Length ==> src + count < TWO32
    modifies dest
    ensures src >= pm.mem.Length ==> !beyond && n == 0 && dest[..] == old(dest[..])
    ensures src < pm.mem.Length ==>
      var p := PagePart(pm.Contents(little), src, pm.Most(src, count), little);
      beyond == p.None? && (!beyond ==> n == p.value.count && dest[..] == Splice(old(dest[..]), at, p.value.bytes))
  {
    hide Splice, View, PagePart, PhysMem.Contents, PhysMem.Valid;
    if src < pm.mem.Length {
      BigContents(pm);
    }
    var bytes := count;
    if src >= pm.mem.Length {
      return false, 0;
    }
    if src + bytes > pm.mem.Length {
      bytes := pm.mem.Length - src;
    }
    if little {
      beyond := false;
      n := LoadString(pm, dest, at, src, bytes);
    } else {
      beyond, n := Strlcpy(pm, dest, at, src, bytes);
    }
  }

  lemma BigContents(pm: PhysMem)
    requires pm.Valid()
    ensures pm.Contents(false) == pm.mem[..]
  {
  }

  /** The little-endian loop. */
  method LoadString(pm: PhysMem, dest: array<byte>, at: nat, src: word, bytes: nat) returns (n: nat)
    requires pm.Valid() && dest != pm.mem && at + bytes <= dest.Length && src + bytes <= pm.mem.Length
    modifies dest
    ensures PagePart(pm.Contents(true), src, bytes, true).Some?
    ensures var p := PagePart(pm.Contents(true), src, bytes, true).value;
      n == p.count && dest[..] == Splice(old(dest[..]), at, p.bytes)
  {
    hide Splice, View, Munge;
    PageMod8(pm.base);
    ghost var v, was := pm.Contents(true), dest[..];
    ghost var part := v[src..src + bytes];
    SpliceNone(was, at);
    assert v[src..src] == [];
    for i := 0 to bytes
      invariant dest[..] == Splice(was, at, v[src..src + i]) && NulFrom(part, i) == NulFrom(part, 0)
    {
      MungedByte(pm, src + i);
      var x := pm.mem[Munge(pm.base + src + i, 1) - pm.base];
      assert x == part[i];
      ghost var now := dest[..];
      dest[at + i] := x;
      SpliceNext(was, at, v[src..src + i], x, now, dest[..]);
      assert v[src..src + i] + [x] == v[src..src + i + 1];
      if x == 0 {
        return i;
      }
    }
    return bytes;
  }

  lemma MungedByte(pm: PhysMem, a: nat)
    requires pm.Valid() && a < pm.mem.Length
    ensures var h := Munge(pm.base + a, 1) - pm.base;
      0 <= h < pm.mem.Length && pm.mem[h] == pm.Contents(true)[a]
  {
    hide Munge, View;
    PageMod8(pm.base);
    PageMod8(pm.mem.Length);
    MungeBase(pm.base, a, 1);
    LoadView(pm.mem[..], a, 1);
    var h := Munge(a, 1);
    assert pm.mem[..][h..h + 1][0] == pm.mem[h];
  }

  // ---- Page by page.

  /** A BUG_ON, a NUL looked for past the end of memory, or the length and the bytes written. */
  datatype StringRead = Halted | Beyond | Got(n: word, bytes: seq<byte>)

  /** The result of a read of which so many bytes were done before. */
  function After(s: nat, done: seq<byte>, rest: StringRead): (r: StringRead)
    ensures r.Got? ==> rest.Got? && |r.bytes| == |done| + |rest.bytes|
  {
    if rest.Got? then Got(Wrap(s + rest.n), done + rest.bytes) else rest
  }

  /** guest_from_ex with nul_term: pages one after the other while each gives exactly what was asked of it. */
  function ReadString(vm: Vm, view: seq<byte>, ea: word, left: nat, little: bool): (r: StringRead)
    requires Coherent(vm) && |view| == vm.ram
    ensures r.Got? ==> |r.bytes| <= left
    decreases left
  {
    hide Coherent, PagePart, Phys, Chunk;
    CoherentOk(vm);
    var x := Chunk(ea, left);
    if Phys(vm, ea).None? then (if GuestMmu.Backmap(vm, ea, false).Stops? then Halted else Got(0, []))
    else
      PhysSpan(vm, ea, x);
      var p := PagePart(view, Phys(vm, ea).value, x, little);
      if p.None? then Beyond
      else if p.value.count != x || x == left then Got(Wrap(p.value.count), p.value.bytes)
      else After(x, p.value.bytes, ReadString(vm, view, Wrap(ea + x), left - x, little))
  }

  lemma AfterTwice(s: nat, a: seq<byte>, x: nat, b: seq<byte>, rest: StringRead)
    ensures After(s, a, After(x, b, rest)) == After(s + x, a + b, rest)
  {
    if rest.Got? {
      WrapAdd(x + rest.n, s);
      assert a + (b + rest.bytes) == a + b + rest.bytes;
    }
  }

  lemma AfterNothing(s: nat, done: seq<byte>, rest: StringRead)
    ensures After(s, done, Got(0, [])) == Got(Wrap(s), done) && After(0, [], rest) == rest
  {
    assert done + [] == done;
    if rest.Got? {
      WrapNone(rest.n);
      assert [] + rest.bytes == rest.bytes;
    }
  }

  lemma AfterLast(s: nat, done: seq<byte>, k: nat, b: seq<byte>)
    ensures After(s, done, Got(Wrap(k), b)) == Got(Wrap(s + k), done + b)
  {
    WrapAdd(k, s);
  }

  /** guest_from_ex with nul_term and single bytes; `beyond` is a search for the NUL past the end of memory. */
  method GuestFromString(g: Guest, dest: array<byte>, src: word, bytes: nat)
    returns (stopped: bool, beyond: bool, n: word)
    requires g.Valid() && dest != g.pmem.mem && bytes <= dest.Length
    modifies dest
    ensures var r := ReadString(g.Abs(), g.Memory(), src, bytes, g.Little());
      stopped == r.Halted? && beyond == r.Beyond? &&
      (r.Got? ==> n == r.n && dest[..] == Splice(old(dest[..]), 0, r.bytes))
  {
    hide Guest.Valid, Guest.Abs, Guest.Memory, Guest.Little, Coherent, Phys, GuestMmu.Backmap, PagePart;
    hide Chunk, Wrap, Splice, After;
    g.AbsOk();
    ghost var vm, little, view, was := g.Abs(), g.Little(), g.Memory(), dest[..];
    ghost var whole, done: seq<byte> := ReadString(vm, view, src, bytes, little), [];
    var left: nat, s: nat, d: word := bytes, 0, src;
    SpliceNone(was, 0);
    AfterNothing(0, [], whole);
    while true
      invariant s + left == bytes && |done| == s && dest[..] == Splice(was, 0, done)
      invariant whole == After(s, done, ReadString(vm, view, d, left, little))
      decreases left
    {
      var x, k := Chunk(d, left), 0;
      AfterNothing(s, done, whole);
      stopped, beyond, k := StringPass(g, dest, s, d, x);
      if stopped || beyond {
        AfterFailed(s, done);
        return stopped, beyond, 0;
      }
      if Phys(vm, d).Some? {
        PhysSpan(vm, d, x);
        ghost var b := PagePart(view, Phys(vm, d).value, x, little).value.bytes;
        SpliceGrows(was, 0, done, b);
        AfterLast(s, done, k, b);
        if k == x && x < left {
          AfterTwice(s, done, x, b, ReadString(vm, view, Wrap(d + x), left - x, little));
          done := done + b;
        }
      }
      if k != x || x == left {
        return false, false, Wrap(s + k);
      }
      left, s, d := left - x, s + x, Wrap(d + x);
    }
  }

  lemma AfterFailed(s: nat, done: seq<byte>)
    ensures After(s, done, Halted) == Halted && After(s, done, Beyond) == Beyond
  {
  }

  /** One pass of its loop. */
  method StringPass(g: Guest, dest: array<byte>, at: nat, ea: word, x: nat)
    returns (stopped: bool, beyond: bool, n: nat)
    requires g.Valid() && dest != g.pmem.mem && at + x <= dest.Length && ea % PAGE_SIZE + x <= PAGE_SIZE
    modifies dest
    ensures g.Valid() && g.Abs() == old(g.Abs()) && g.Memory() == old(g.Memory()) && g.Little() == old(g.Little())
    ensures CpuOk(g.Abs().cpu) && |g.Memory()| == g.Abs().ram
    ensures Phys(g.Abs(), ea).None? ==>
      stopped == GuestMmu.Backmap(g.Abs(), ea, false).Stops? && !beyond && n == 0 && dest[..] == old(dest[..])
    ensures Phys(g.Abs(), ea).Some? ==>
      var r := Phys(g.Abs(), ea).value;
      r + x <= |g.Memory()| &&
      var p := PagePart(g.Memory(), r, x, g.Little());
      !stopped && beyond == p.None? &&
      (!beyond ==> n == p.value.count && dest[..] == Splice(old(dest[..]), at, p.value.bytes))
  {
    hide Coherent, GuestMmu.Backmap, PagePart, Splice, View;
    g.AbsOk();
    var b := g.Backmap(ea);
    if !b.Found? {
      return b.Stops?, false, 0;
    }
    if Phys(g.Abs(), ea).Some? {
      PhysSpan(g.Abs(), ea, x);
    }
    beyond, n := PmemFromString(g.pmem, dest, at, b.gra, x, g.Little());
    stopped := false;
  }

  // ---- When that is the guest's string.

  /** The next pages, after one that translates. */
  lemma TextSplit(vm: Vm, view: seq<byte>, ea: word, n: nat)
    requires Coherent(vm) && |view| == vm.ram && Phys(vm, ea).Some?
    ensures var x, g := Chunk(ea, n), Phys(vm, ea).value;
      g + x <= |view| &&
      ReadThrough(vm, view, ea, n) == view[g..g + x] + ReadThrough(vm, view, Wrap(ea + x), n - x) &&
      (x < n ==> (CopyHalts(vm, ea, n, 1) <==> CopyHalts(vm, Wrap(ea + x), n - x, 1)))
    ensures Chunk(ea, n) == n ==> !CopyHalts(vm, ea, n, 1)
  {
    hide Phys, GuestMmu.Backmap, Coherent, Reach, ReadThrough, Chunk, Wrap;
    CoherentOk(vm);
    var x := Chunk(ea, n);
    ReachPage(vm, ea, x);
    ReadPage(vm, view, ea, x);
    ReadSplit(vm, view, ea, x, n - x);
    ReachSplit(vm, ea, x, n - x);
    FoundNotStops(vm, ea);
    if x < n {
      WrapAdd(ea + x, Reach(vm, Wrap(ea + x), n - x));
    } else {
      NothingDone(vm, view, Wrap(ea + x), 1, false);
    }
  }

  lemma NoText(vm: Vm, view: seq<byte>, ea: word, n: nat)
    requires Coherent(vm) && |view| == vm.ram && Phys(vm, ea).None?
    ensures ReadThrough(vm, view, ea, n) == [] && (CopyHalts(vm, ea, n, 1) <==> GuestMmu.Backmap(vm, ea, false).Stops?)
  {
    hide Phys, GuestMmu.Backmap, Coherent;
    CoherentOk(vm);
    WrapNone(ea);
  }

  /** What a string read of at most n bytes should be: up to and with the first NUL, or all that translates. */
  function Expected(vm: Vm, view: seq<byte>, ea: word, n: word): StringRead
    requires Coherent(vm) && |view| == vm.ram
  {
    CoherentOk(vm);
    var text := ReadThrough(vm, view, ea, n);
    var j := NulFrom(text, 0);
    if j < |text| then Got(j, text[..j + 1])
    else if CopyHalts(vm, ea, n, 1) then Halted
    else Got(|text|, text)
  }

  /** The first NUL of two parts, and what comes up to it. */
  lemma NulShift(a: seq<byte>, b: seq<byte>)
    ensures var j, k := NulFrom(a, 0), NulFrom(b, 0);
      if j < |a| then NulFrom(a + b, 0) == j && (a + b)[..j + 1] == a[..j + 1]
      else NulFrom(a + b, 0) == |a| + k && (k < |b| ==> (a + b)[..|a| + k + 1] == a + b[..k + 1])
  {
    var j, k := NulFrom(a, 0), NulFrom(b, 0);
    if j < |a| {
      assert (a + b)[j] == 0;
    } else if k < |b| {
      assert (a + b)[|a| + k] == 0;
    }
  }

  lemma LittlePart(view: seq<byte>, g: nat, x: nat)
    requires g + x <= |view|
    ensures var a := view[g..g + x];
      var j := NulFrom(a, 0);
      PagePart(view, g, x, true) == Some(Part(j, if j < x then a[..j + 1] else a))
  {
    var a := view[g..g + x];
    var j := NulFrom(a, 0);
    assert j < x ==> view[g..g + j + 1] == a[..j + 1];
  }

  /** A part without a NUL ends in one all the same. */
  lemma BigPart(view: seq<byte>, g: nat, x: nat)
    requires g + x <= |view| && x > 0
    ensures var a, p := view[g..g + x], PagePart(view, g, x, false);
      var j := NulFrom(a, 0);
      if j < x then p == Some(Part(j, a[..j + 1]))
      else p.Some? ==> p.value.count >= x && |p.value.bytes| == x && p.value.bytes[x - 1] == 0 && a[x - 1] != 0
  {
    var a, end := view[g..g + x], NulFrom(view, g);
    var j := NulFrom(a, 0);
    if j < x {
      assert a[j] == view[g + j] && end == g + j;
      assert view[g..g + j] + [0] == a[..j + 1];
    } else {
      assert forall k :: g <= k < g + x ==> view[k] == a[k - g];
    }
  }

  /** What reading its first page makes of a read. */
  lemma FirstPage(vm: Vm, view: seq<byte>, ea: word, n: nat, little: bool)
    requires Coherent(vm) && |view| == vm.ram && CpuOk(vm.cpu) && Phys(vm, ea).Some?
    ensures var x, g := Chunk(ea, n), Phys(vm, ea).value;
      g + x <= |view| &&
      var p := PagePart(view, g, x, little);
      ReadString(vm, view, ea, n, little) ==
        if p.None? then Beyond
        else if p.value.count != x || x == n then Got(Wrap(p.value.count), p.value.bytes)
        else After(x, p.value.bytes, ReadString(vm, view, Wrap(ea + x), n - x, little))
  {
    hide Phys, GuestMmu.Backmap, Coherent, Chunk, PagePart, Wrap;
    PhysSpan(vm, ea, Chunk(ea, n));
  }

  /** And of what it should be. */
  lemma FirstExpected(vm: Vm, view: seq<byte>, ea: word, n: word)
    requires Coherent(vm) && |view| == vm.ram && CpuOk(vm.cpu) && Phys(vm, ea).Some?
    ensures var x, g := Chunk(ea, n), Phys(vm, ea).value;
      g + x <= |view| &&
      var a := view[g..g + x];
      var j := NulFrom(a, 0);
      Expected(vm, view, ea, n) ==
        if j < x then Got(j, a[..j + 1])
        else if x == n then Got(x, a)
        else After(x, a, Expected(vm, view, Wrap(ea + x), n - x))
  {
    hide Phys, GuestMmu.Backmap, Coherent, Reach, ReadThrough, Chunk, CopyHalts, NulFrom, Wrap;
    CoherentOk(vm);
    var x, g := Chunk(ea, n), Phys(vm, ea).value;
    TextSplit(vm, view, ea, n);
    var a, b := view[g..g + x], ReadThrough(vm, view, Wrap(ea + x), n - x);
    NulShift(a, b);
    var k := NulFrom(b, 0);
    WrapNone(x + k);
    if x == n {
      assert a + b == a;
    }
  }

  /** For a little-endian guest it always is. */
  lemma {:induction false} LittleStrings(vm: Vm, view: seq<byte>, ea: word, n: word)
    requires Coherent(vm) && |view| == vm.ram
    ensures ReadString(vm, view, ea, n, true) == Expected(vm, view, ea, n)
    decreases n
  {
    hide Phys, GuestMmu.Backmap, Coherent, Reach, ReadThrough, Chunk, CopyHalts, PagePart, NulFrom, Wrap;
    CoherentOk(vm);
    if Phys(vm, ea).None? {
      NoText(vm, view, ea, n);
    } else {
      hide ReadString, Expected;
      var x, g := Chunk(ea, n), Phys(vm, ea).value;
      FirstPage(vm, view, ea, n, true);
      FirstExpected(vm, view, ea, n);
      LittlePart(view, g, x);
      WrapNone(NulFrom(view[g..g + x], 0));
      if NulFrom(view[g..g + x], 0) == x && x < n {
        LittleStrings(vm, view, Wrap(ea + x), n - x);
      }
    }
  }

  /** Where one address translates, no address is looked up in the BATs. */
  lemma NoStops(vm: Vm, ea: word, d: word)
    requires CpuOk(vm.cpu) && Phys(vm, ea).Some?
    ensures !GuestMmu.Backmap(vm, d, false).Stops?
  {
  }

  /** A string of no bytes. */
  lemma BigNothing(view: seq<byte>, g: nat)
    requires g < |view| < TWO32
    ensures var p := PagePart(view, g, 0, false);
      if view[g] == 0 then p == Some(Part(0, [])) else p.Some? ==> 0 < p.value.count < TWO32
  {
  }

  /** A big-endian guest's string is read exactly when its NUL is in the page of its first byte; when no byte is asked
      for, when it is empty. */
  lemma BigStrings(vm: Vm, view: seq<byte>, ea: word, n: word)
    requires Coherent(vm) && |view| == vm.ram && CpuOk(vm.cpu)
    ensures ReadString(vm, view, ea, n, false) == Expected(vm, view, ea, n) <==>
      Phys(vm, ea).None? ||
      (if n == 0 then view[Phys(vm, ea).value] == 0 else NulFrom(ReadThrough(vm, view, ea, n), 0) < Chunk(ea, n))
  {
    hide Phys, GuestMmu.Backmap, Coherent, Reach, ReadThrough, CopyHalts, PagePart, NulFrom, Wrap, ReadString, Chunk;
    CoherentOk(vm);
    if Phys(vm, ea).None? {
      BigMissing(vm, view, ea, n);
    } else {
      var x, g := Chunk(ea, n), Phys(vm, ea).value;
      PhysSpan(vm, ea, x);
      FirstPage(vm, view, ea, n, false);
      if n == 0 {
        BigNothing(view, g);
        FirstExpected(vm, view, ea, n);
        var p := PagePart(view, g, 0, false);
        if p.Some? {
          WrapNone(p.value.count);
        }
      } else {
        BigStarts(vm, view, ea, n);
      }
    }
  }

  lemma BigMissing(vm: Vm, view: seq<byte>, ea: word, n: word)
    requires Coherent(vm) && |view| == vm.ram && CpuOk(vm.cpu) && Phys(vm, ea).None?
    ensures ReadString(vm, view, ea, n, false) == Expected(vm, view, ea, n)
  {
    hide Phys, GuestMmu.Backmap, Coherent, CopyHalts, ReadThrough;
    NoText(vm, view, ea, n);
  }

  lemma BigStarts(vm: Vm, view: seq<byte>, ea: word, n: word)
    requires Coherent(vm) && |view| == vm.ram && CpuOk(vm.cpu) && Phys(vm, ea).Some? && n > 0
    ensures ReadString(vm, view, ea, n, false) == Expected(vm, view, ea, n) <==>
      NulFrom(ReadThrough(vm, view, ea, n), 0) < Chunk(ea, n)
  {
    hide Phys, GuestMmu.Backmap, Coherent, Reach, ReadThrough, PagePart, NulFrom, Wrap, Chunk, ReadString, CopyHalts;
    CoherentOk(vm);
    var x, g := Chunk(ea, n), Phys(vm, ea).value;
    TextSplit(vm, view, ea, n);
    var a, b := view[g..g + x], ReadThrough(vm, view, Wrap(ea + x), n - x);
    NulShift(a, b);
    BigPart(view, g, x);
    FirstPage(vm, view, ea, n, false);
    WrapNone(NulFrom(a, 0));
    if NulFrom(a, 0) == x {
      ExpectedStarts(vm, view, ea, n, a, b);
    }
  }

  /** A text whose first page has no NUL is expected to start with that page. */
  lemma ExpectedStarts(vm: Vm, view: seq<byte>, ea: word, n: word, a: seq<byte>, b: seq<byte>)
    requires Coherent(vm) && |view| == vm.ram && CpuOk(vm.cpu) && Phys(vm, ea).Some?
    requires ReadThrough(vm, view, ea, n) == a + b && NulFrom(a, 0) == |a| > 0
    ensures var e := Expected(vm, view, ea, n);
      e.Got? && |e.bytes| >= |a| && e.bytes[|a| - 1] == a[|a| - 1]
  {
    hide Phys, GuestMmu.Backmap, Coherent, Reach, ReadThrough, NulFrom;
    NulShift(a, b);
    NeverHalts(vm, ea, n);
  }

  lemma NeverHalts(vm: Vm, ea: word, n: word)
    requires CpuOk(vm.cpu) && Phys(vm, ea).Some?
    ensures !CopyHalts(vm, ea, n, 1)
  {
    hide Phys, GuestMmu.Backmap, Reach;
    NoStops(vm, ea, ea);
    NoStops(vm, ea, Wrap(ea + Reach(vm, ea, n)));
  }

  /** A string of one character, whose NUL is on the next page. */
  const CROSSING: seq<byte> := seq(2 * PAGE_SIZE, i => if i == PAGE_SIZE then 0 else 65)

  lemma CrossingString()
    ensures Coherent(TWO_PAGES) && ReadThrough(TWO_PAGES, CROSSING, PAGE_SIZE - 1, 2) == [65, 0]
    ensures ReadString(TWO_PAGES, CROSSING, PAGE_SIZE - 1, 2, false) != Got(1, [65, 0])
  {
    hide Coherent, ReadString;
    TwoPages();
    var ea: word := PAGE_SIZE - 1;
    RamPhys(TWO_PAGES, ea);
    RamPhys(TWO_PAGES, ea + 1);
    assert ReadThrough(TWO_PAGES, CROSSING, ea, 2) == [65, 0];
    BigStrings(TWO_PAGES, CROSSING, ea, 2);
  }

  // ---- Closing the string in a buffer.

  /** How long the string at a place in memory is, if it ends. */
  function Length(view: seq<byte>, g: nat): Option<nat>
    requires g <= |view|
  {
    if NulFrom(view, g) < |view| then Some(NulFrom(view, g) - g) else None
  }

  /** At least so many characters before the NUL. */
  predicate AtLeast(view: seq<byte>, g: nat, n: int)
    requires g <= |view|
  {
    Length(view, g).Some? && Length(view, g).value >= n
  }

  /** No room for the NUL in a buffer of at most a page: a little-endian guest's bytes fill all of it without a NUL.
      For a big-endian guest the string, as it stands in memory, is as long as the buffer, be it from its first byte
      on or, when it ends just after its page, on from the next page. */
  predicate NoRoom(vm: Vm, view: seq<byte>, ea: word, bytes: nat, room: nat, little: bool)
    requires CpuOk(vm.cpu) && |view| == vm.ram
  {
    if little then bytes == room && Reach(vm, ea, bytes) == bytes && 0 !in ReadThrough(vm, view, ea, bytes)
    else
      Phys(vm, ea).Some? &&
      (AtLeast(view, Phys(vm, ea).value, room) ||
       (var x := Chunk(ea, bytes);
        x < bytes && Length(view, Phys(vm, ea).value) == Some(x) && Phys(vm, Wrap(ea + x)).Some? &&
        AtLeast(view, Phys(vm, Wrap(ea + x)).value, room - x)))
  }

  /** How the client services read a string into the transfer buffer and close it (rom.c:635, 986, 1026, 1306, 1412,
      1691); `left` is a NUL written after the end of the buffer. */
  method ReadClosed(g: Guest, buf: array<byte>, ea: word, bytes: nat) returns (stopped: bool, beyond: bool, left: bool)
    requires g.Valid() && buf != g.pmem.mem && bytes <= buf.Length && 0 < buf.Length <= PAGE_SIZE
    modifies buf
    ensures CpuOk(g.Abs().cpu) && |g.Memory()| == g.Abs().ram
    ensures left <==> NoRoom(g.Abs(), g.Memory(), ea, bytes, buf.Length, g.Little())
    ensures var r := ReadString(g.Abs(), g.Memory(), ea, bytes, g.Little());
      stopped == r.Halted? && beyond == r.Beyond? &&
      (r.Got? && !left ==> r.n < buf.Length && buf[..] == Splice(old(buf[..]), 0, r.bytes)[r.n := 0])
  {
    hide Guest.Valid, Guest.Abs, Guest.Memory, Guest.Little, Coherent, ReadString, Splice, NoRoom;
    g.AbsOk();
    NoRoomIs(g.Abs(), g.Memory(), ea, bytes, buf.Length, g.Little());
    var n;
    stopped, beyond, n := GuestFromString(g, buf, ea, bytes);
    left := !stopped && !beyond && n >= buf.Length;
    if !stopped && !beyond && !left {
      buf[n] := 0;
    }
  }

  lemma NoRoomIs(vm: Vm, view: seq<byte>, ea: word, bytes: nat, room: nat, little: bool)
    requires Coherent(vm) && |view| == vm.ram && CpuOk(vm.cpu) && bytes <= room <= PAGE_SIZE && room > 0
    ensures var r := ReadString(vm, view, ea, bytes, little);
      NoRoom(vm, view, ea, bytes, room, little) <==> r.Got? && r.n >= room
  {
    hide Coherent, Phys, GuestMmu.Backmap, Reach, ReadThrough, Chunk, ReadString, CopyHalts, NulFrom;
    if little {
      LittleStrings(vm, view, ea, bytes);
      FullReach(vm, ea, bytes);
      var text := ReadThrough(vm, view, ea, bytes);
      NulIn(text);
    } else if Phys(vm, ea).None? {
      BigMissing(vm, view, ea, bytes);
      NoText(vm, view, ea, bytes);
      NulIn([]);
    } else {
      BigRoom(vm, view, ea, bytes, room);
    }
  }

  lemma NulIn(s: seq<byte>)
    ensures NulFrom(s, 0) < |s| <==> 0 in s
  {
  }

  lemma FullReach(vm: Vm, ea: word, n: nat)
    requires CpuOk(vm.cpu)
    ensures n > 0 && Reach(vm, ea, n) == n ==> !CopyHalts(vm, ea, n, 1)
  {
  }

  lemma BigRoom(vm: Vm, view: seq<byte>, ea: word, bytes: nat, room: nat)
    requires Coherent(vm) && |view| == vm.ram && CpuOk(vm.cpu) && bytes <= room <= PAGE_SIZE && room > 0
    requires Phys(vm, ea).Some?
    ensures var r := ReadString(vm, view, ea, bytes, false);
      NoRoom(vm, view, ea, bytes, room, false) <==> r.Got? && r.n >= room
  {
    hide Coherent, Phys, GuestMmu.Backmap, Chunk, ReadString, NulFrom, PagePart, Wrap, Reach, ReadThrough;
    var x, g := Chunk(ea, bytes), Phys(vm, ea).value;
    RamRoom(vm);
    PhysInside(vm, ea);
    FirstPage(vm, view, ea, bytes, false);
    BigCount(view, g, x);
    var end := NulFrom(view, g);
    WrapNone(end - g);
    if end < |view| && end - g == x && x < bytes {
      BigSecond(vm, view, ea, bytes, x);
      var rest := ReadString(vm, view, Wrap(ea + x), bytes - x, false);
      if rest.Got? {
        WrapNone(x + rest.n);
      }
    }
  }

  lemma BigCount(view: seq<byte>, g: nat, x: nat)
    requires g + x <= |view|
    ensures var p := PagePart(view, g, x, false);
      if NulFrom(view, g) == |view| then p == None else p.Some? && p.value.count == NulFrom(view, g) - g
  {
  }

  lemma RamRoom(vm: Vm)
    requires Coherent(vm)
    ensures vm.ram + PAGE_SIZE <= TWO32
  {
  }

  /** The second page of a buffer's worth is the last. */
  lemma BigSecond(vm: Vm, view: seq<byte>, ea: word, bytes: nat, x: nat)
    requires Coherent(vm) && |view| == vm.ram && CpuOk(vm.cpu) && bytes <= PAGE_SIZE && x == Chunk(ea, bytes) < bytes
    ensures var d := Wrap(ea + x);
      var r := ReadString(vm, view, d, bytes - x, false);
      if Phys(vm, d).None? then !r.Got? || r.n == 0
      else if NulFrom(view, Phys(vm, d).value) == |view| then r.Beyond?
      else r.Got? && r.n == NulFrom(view, Phys(vm, d).value) - Phys(vm, d).value
  {
    hide Coherent, Phys, GuestMmu.Backmap, ReadString, NulFrom, PagePart, Wrap, Reach, ReadThrough, CopyHalts;
    var d := Wrap(ea + x);
    if Phys(vm, d).None? {
      BigMissing(vm, view, d, bytes - x);
      NoText(vm, view, d, bytes - x);
      NulIn([]);
    } else {
      assert Chunk(d, bytes - x) == bytes - x;
      FirstPage(vm, view, d, bytes - x, false);
      BigCount(view, Phys(vm, d).value, bytes - x);
      WrapNone(NulFrom(view, Phys(vm, d).value) - Phys(vm, d).value);
    }
  }

  /** A page without a NUL has no room in a page, for a guest of either byte order. */
  lemma FullPage(little: bool)
    ensures CpuOk(TWO_PAGES.cpu) && NoRoom(TWO_PAGES, CROSSING, 0, PAGE_SIZE, PAGE_SIZE, little)
  {
    hide Coherent, Reach, ReadThrough, GuestMmu.Backmap, Phys;
    TwoPages();
    CoherentOk(TWO_PAGES);
    RamInjective(TWO_PAGES, 0, PAGE_SIZE);
    RamPhys(TWO_PAGES, 0);
    ReadPage(TWO_PAGES, CROSSING, 0, PAGE_SIZE);
    assert CROSSING[PAGE_SIZE] == 0;
  }
}
