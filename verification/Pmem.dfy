/** Guest memory on a big-endian host, with the address munging of PowerPC little-endian mode
    (pmem.c; section 3.1 of the PowerPC Programming Environments Manual). */
module Pmem {
  import opened Words
  import opened Bits

  // ---- The munge.

  /** Where a host access of the given size goes for a little-endian guest: XOR 7, 6 or 4. */
  function Munge(a: nat, size: nat): nat
    requires size == 1 || size == 2 || size == 4
  {
    Xor(a, 8 - size)
  }

  /** The byte of memory that is byte x of a little-endian guest. */
  function Flip(x: nat): nat {
    x - x % 8 + (7 - x % 8)
  }

  /** XOR with a number below 2^k leaves the rest of the address alone. */
  lemma {:induction false} XorLow(a: nat, b: nat, k: nat)
    requires b < Pow2(k)
    ensures Xor(a, b) == a - a % Pow2(k) + Xor(a % Pow2(k), b)
    decreases k
  {
    hide Xor;
    if k == 0 {
      XorZero(a);
      XorZero(0);
    } else {
      var p := Pow2(k - 1);
      var r := a % (2 * p);
      ModHalf(a, p);
      assert r / 2 == a / 2 % p && r % 2 == a % 2;
      XorLow(a / 2, b / 2, k - 1);
      XorStep(a, b);
      XorStep(r, b);
    }
  }

  lemma Xor7()
    ensures Xor(0, 7) == 7 && Xor(1, 7) == 6 && Xor(2, 7) == 5 && Xor(3, 7) == 4
    ensures Xor(4, 7) == 3 && Xor(5, 7) == 2 && Xor(6, 7) == 1 && Xor(7, 7) == 0
  {
    hide Xor;
    Xor7Low();
    Xor7High();
    Xor7Top();
  }

  lemma Xor7Low()
    ensures Xor(0, 7) == 7 && Xor(1, 7) == 6 && Xor(2, 7) == 5 && Xor(3, 7) == 4
  {
  }

  lemma Xor7High()
    ensures Xor(4, 7) == 3 && Xor(5, 7) == 2
  {
  }

  lemma Xor7Top()
    ensures Xor(6, 7) == 1 && Xor(7, 7) == 0
  {
  }

  lemma Xor6()
    ensures Xor(0, 6) == 6 && Xor(1, 6) == 7 && Xor(2, 6) == 4 && Xor(3, 6) == 5
    ensures Xor(4, 6) == 2 && Xor(5, 6) == 3 && Xor(6, 6) == 0 && Xor(7, 6) == 1
  {
  }

  lemma Xor4()
    ensures Xor(0, 4) == 4 && Xor(1, 4) == 5 && Xor(2, 4) == 6 && Xor(3, 4) == 7
    ensures Xor(4, 4) == 0 && Xor(5, 4) == 1 && Xor(6, 4) == 2 && Xor(7, 4) == 3
  {
  }

  /** Where munging sends an address within its eight bytes. */
  function MungeLow(r: nat, size: nat): nat
    requires r < 8 && (size == 1 || size == 2 || size == 4)
  {
    if size == 1 then 7 - r
    else if size == 2 then (if r % 2 == 0 then 6 - r else 8 - r)
    else (r + 4) % 8
  }

  lemma MungeIs(a: nat, size: nat)
    requires size == 1 || size == 2 || size == 4
    ensures Munge(a, size) == a - a % 8 + MungeLow(a % 8, size)
  {
    hide Xor;
    assert Pow2(3) == 8;
    XorLow(a, 8 - size, 3);
    Xor7();
    Xor6();
    Xor4();
  }

  /** Byte j of a munged access is the guest's byte a + size - 1 - j. */
  predicate Reversed(a: nat, size: nat, j: nat)
    requires size == 1 || size == 2 || size == 4
  {
    j < size ==> Munge(a, size) + j == Flip(a + (size - 1 - j))
  }

  lemma FlipIs(q: nat, r: nat)
    requires r < 8
    ensures Flip(8 * q + r) == 8 * q + 7 - r
  {
  }

  lemma ReversedAligned(q: nat, r: nat, size: nat, j: nat)
    requires (size == 1 || size == 2 || size == 4) && r < 8 && r % size == 0 && j < size
    ensures r + (size - 1 - j) < 8 && MungeLow(r, size) + j == 7 - (r + (size - 1 - j))
  {
  }

  lemma ModEight(a: nat, size: nat)
    requires size == 1 || size == 2 || size == 4
    ensures a == 8 * (a / 8) + a % 8 && (a % 8) % size == a % size
  {
    var e := a % 8;
    if size == 1 {
      DivModUnique(a, 1, a, 0);
      DivModUnique(e, 1, e, 0);
    } else if size == 2 {
      DivModUnique(a, 2, 4 * (a / 8) + e / 2, e % 2);
    } else {
      DivModUnique(a, 4, 2 * (a / 8) + e / 4, e % 4);
    }
  }

  lemma AlignedReversed(a: nat, size: nat, j: nat)
    requires (size == 1 || size == 2 || size == 4) && a % size == 0
    ensures Reversed(a, size, j)
  {
    hide Xor, Munge, Flip;
    if j < size {
      var q, r := a / 8, a % 8;
      MungeIs(a, size);
      ModEight(a, size);
      ReversedAligned(q, r, size, j);
      FlipIs(q, r + (size - 1 - j));
    }
  }

  lemma UnalignedNotReversed(a: nat, size: nat)
    requires (size == 1 || size == 2 || size == 4) && a % size != 0
    ensures !Reversed(a, size, 0)
  {
    hide Xor, Munge, Flip;
    var q, r := a / 8, a % 8;
    MungeIs(a, size);
    ModEight(a, size);
    var t := r + (size - 1);
    if t < 8 {
      FlipIs(q, t);
    } else {
      FlipIs(q + 1, t - 8);
    }
  }

  /** A munged access touches exactly the guest's bytes a, a + 1, ..., most significant last, if and only if
      it is aligned. */
  lemma MungeExact(a: nat, size: nat)
    requires size == 1 || size == 2 || size == 4
    ensures (forall j: nat :: Reversed(a, size, j)) <==> a % size == 0
  {
    hide Reversed;
    if a % size == 0 {
      forall j: nat
        ensures Reversed(a, size, j)
      {
        AlignedReversed(a, size, j);
      }
    } else {
      UnalignedNotReversed(a, size);
    }
  }

  /** A word at address 2 lands on the guest's bytes 0, 1, 14 and 15, not on 2 to 5. */
  lemma UnalignedWord()
    ensures Munge(2, 4) == 6 && Flip(2) == 5 && Flip(5) == 2 && !Reversed(2, 4, 0)
  {
    hide Munge;
    MungeIs(2, 4);
  }

  // ---- The memory a guest sees.

  predicate AccessOk(size: int) {
    size == 1 || size == 2 || size == 4
  }

  /** Bytes overwritten from position h on. */
  function Splice(m: seq<byte>, h: nat, b: seq<byte>): (r: seq<byte>)
    requires h + |b| <= |m|
    ensures |r| == |m|
  {
    m[..h] + b + m[h + |b|..]
  }

  lemma SpliceAt(m: seq<byte>, h: nat, b: seq<byte>, x: nat)
    requires h + |b| <= |m| && x < |m|
    ensures Splice(m, h, b)[x] == if h <= x < h + |b| then b[x - h] else m[x]
  {
  }

  /** One more byte. */
  lemma SpliceNext(m: seq<byte>, h: nat, b: seq<byte>, x: byte, now: seq<byte>, next: seq<byte>)
    requires h + |b| < |m| && now == Splice(m, h, b) && next == now[h + |b| := x]
    ensures next == Splice(m, h, b + [x])
  {
  }

  lemma SpliceGrows(m: seq<byte>, h: nat, b: seq<byte>, c: seq<byte>)
    requires h + |b| + |c| <= |m|
    ensures Splice(Splice(m, h, b), h + |b|, c) == Splice(m, h, b + c)
  {
  }

  lemma FlipInside(x: nat, len: nat)
    requires x < len && len % 8 == 0
    ensures Flip(x) < len && Flip(Flip(x)) == x
  {
  }

  /** The flat byte memory of the guest: for a little-endian guest its byte x is host byte x XOR 7. */
  function View(m: seq<byte>, little: bool): (v: seq<byte>)
    requires |m| % 8 == 0
    ensures |v| == |m|
  {
    if little then seq(|m|, x requires 0 <= x < |m| => FlipInside(x, |m|); m[Flip(x)]) else m
  }

  lemma ViewAt(m: seq<byte>, x: nat)
    requires |m| % 8 == 0 && x < |m|
    ensures Flip(x) < |m| && View(m, true)[x] == m[Flip(x)]
  {
    FlipInside(x, |m|);
  }

  /** And its byte x ^ 7 is host byte x. */
  lemma ViewTwice(m: seq<byte>, little: bool)
    requires |m| % 8 == 0
    ensures View(View(m, little), little) == m
  {
    hide Flip;
    if little {
      forall x | 0 <= x < |m|
        ensures View(View(m, true), true)[x] == m[x]
      {
        FlipInside(x, |m|);
      }
    }
  }

  /** A buffer of big-endian elements as the guest's bytes: each element reversed for a little-endian guest. */
  function Elements(b: seq<byte>, size: nat, little: bool): (r: seq<byte>)
    requires AccessOk(size)
    ensures |r| == |b|
    decreases |b|
  {
    if !little || |b| < size then b
    else Elements(b[..|b| - size], size, little) + Reverse(b[|b| - size..])
  }

  function Reverse(b: seq<byte>): (r: seq<byte>)
    ensures |r| == |b| && forall i :: 0 <= i < |b| ==> r[i] == b[|b| - 1 - i]
  {
    if b == [] then [] else Reverse(b[1..]) + [b[0]]
  }

  lemma ElementsPush(b: seq<byte>, e: seq<byte>, size: nat)
    requires AccessOk(size) && |e| == size
    ensures Elements(b + e, size, true) == Elements(b, size, true) + Reverse(e)
  {
    assert (b + e)[..|b|] == b && (b + e)[|b|..] == e;
  }

  /** Storing an aligned element at its munged host address is storing it reversed in the guest's bytes. */
  lemma SpliceView(m: seq<byte>, a: nat, e: seq<byte>)
    requires |m| % 8 == 0 && AccessOk(|e|) && a % |e| == 0 && a + |e| <= |m|
    ensures Munge(a, |e|) + |e| <= |m|
    ensures View(Splice(m, Munge(a, |e|), e), true) == Splice(View(m, true), a, Reverse(e))
  {
    hide Munge, Flip, View, Reverse, Splice;
    var size, h := |e|, Munge(a, |e|);
    MungeInside(a, size, |m|);
    var n := Splice(m, h, e);
    var left, right := View(n, true), Splice(View(m, true), a, Reverse(e));
    forall x | 0 <= x < |m|
      ensures left[x] == right[x]
    {
      ViewAt(n, x);
      ViewAt(m, x);
      SpliceAt(m, h, e, Flip(x));
      SpliceAt(View(m, true), a, Reverse(e), x);
      MungeHits(a, size, x);
    }
  }

  /** A munged aligned element occupies exactly the flipped addresses of its guest bytes. */
  lemma MungeHits(a: nat, size: nat, x: nat)
    requires AccessOk(size) && a % size == 0
    ensures Munge(a, size) <= Flip(x) < Munge(a, size) + size <==> a <= x < a + size
    ensures a <= x < a + size ==> Flip(x) == Munge(a, size) + (size - 1 - (x - a))
  {
    hide Munge, Flip;
    if a <= x < a + size {
      AlignedReversed(a, size, size - 1 - (x - a));
    }
    var j: int := Flip(x) - Munge(a, size);
    if 0 <= j < size {
      AlignedReversed(a, size, j);
      FlipTwice(x);
      FlipTwice(a + (size - 1 - j));
    }
  }

  lemma FlipTwice(x: nat)
    ensures Flip(Flip(x)) == x
  {
  }

  lemma MungeInside(a: nat, size: nat, len: nat)
    requires AccessOk(size) && a % size == 0 && len % 8 == 0 && a + size <= len
    ensures Munge(a, size) + size <= len
  {
    hide Munge, Xor;
    MungeIs(a, size);
    ModEight(a, size);
  }

  // ---- Whole copies of a little-endian guest, aligned or not.

  /** Where element i of a copy at address a goes. */
  function Slot(a: nat, i: nat, size: nat): nat
    requires AccessOk(size)
  {
    Munge(a + i, size)
  }

  /** Every element of a copy goes inside a memory of this length. */
  predicate SlotsInside(len: nat, a: nat, n: nat, size: nat)
    requires AccessOk(size)
  {
    forall i: nat :: i < n && i % size == 0 ==> Slot(a, i, size) + size <= len
  }

  /** The same from the start of the copy and its length: in the last eight bytes of memory no element may start less
      than its size after the first. */
  predicate SlotsFit(len: nat, a: nat, n: nat, size: nat)
    requires AccessOk(size)
  {
    a % size != 0 ==> !(a <= len - 8 + a % size < a + n)
  }

  lemma SlotsInsideIs(len: nat, a: nat, n: nat, size: nat)
    requires AccessOk(size) && n % size == 0 && len % 8 == 0 && a + n <= len
    ensures SlotsInside(len, a, n, size) <==> SlotsFit(len, a, n, size)
  {
    hide Munge, SlotsFit;
    if SlotsFit(len, a, n, size) {
      forall i: nat | i < n && i % size == 0
        ensures Slot(a, i, size) + size <= len
      {
        SlotInside(len, a, i, n, size);
      }
    } else {
      SlotsFitMeans(len, a, n, size);
      var i := len - 8 + a % size - a;
      SlotOutside(len, a, i, size);
    }
  }

  lemma SlotsFitMeans(len: nat, a: nat, n: nat, size: nat)
    requires AccessOk(size) && n % size == 0 && len % 8 == 0 && a + n <= len && !SlotsFit(len, a, n, size)
    ensures var i := len - 8 + a % size - a; 0 <= i < n && i % size == 0 && a % size != 0
  {
    if size == 2 {
      BackByTwo(len, a);
    } else if size == 4 {
      BackByFour(len, a);
    }
  }

  lemma BackByTwo(len: nat, a: nat)
    requires len % 8 == 0
    ensures (len - 8 + a % 2 - a) % 2 == 0
  {
  }

  lemma BackByFour(len: nat, a: nat)
    requires len % 8 == 0
    ensures (len - 8 + a % 4 - a) % 4 == 0
  {
  }

  /** Where a munged element ends. */
  lemma SlotInside(len: nat, a: nat, i: nat, n: nat, size: nat)
    requires AccessOk(size) && n % size == 0 && i % size == 0 && i < n && len % 8 == 0 && a + n <= len
    requires SlotsFit(len, a, n, size)
    ensures Slot(a, i, size) + size <= len
  {
    hide Munge;
    var x := a + i;
    MungeIs(x, size);
    ModEight(x, size);
    OffsetMod(a, i, size);
    LastOfRun(i, n, size);
    assert x - x % 8 + 8 <= len by { EightInside(x, len); }
  }

  lemma OffsetMod(a: nat, i: nat, size: nat)
    requires AccessOk(size) && i % size == 0
    ensures (a + i) % size == a % size
  {
    if size == 4 {
      DivModUnique(a + i, 4, a / 4 + i / 4, a % 4);
    } else if size == 2 {
      DivModUnique(a + i, 2, a / 2 + i / 2, a % 2);
    }
  }

  lemma LastOfRun(i: nat, n: nat, size: nat)
    requires AccessOk(size) && n % size == 0 && i % size == 0 && i < n
    ensures i + size <= n
  {
  }

  lemma EightInside(x: nat, len: nat)
    requires x < len && len % 8 == 0
    ensures x - x % 8 + 8 <= len
  {
  }

  lemma SlotOutside(len: nat, a: nat, i: nat, size: nat)
    requires AccessOk(size) && len % 8 == 0 && 8 <= len && a % size != 0 && a + i == len - 8 + a % size
    ensures Slot(a, i, size) + size > len
  {
    hide Munge;
    var x := a + i;
    MungeIs(x, size);
    DivModUnique(x, 8, len / 8 - 1, a % size);
  }

  /** A word six bytes from the end of memory goes past it. */
  lemma WordAstray(len: nat)
    requires len % 8 == 0 && len >= 8
    ensures !SlotsInside(len, len - 6, 4, 4)
  {
    hide SlotsInside;
    var q := len / 8;
    DivModUnique(len - 6, 4, 2 * q - 2, 2);
    SlotsInsideIs(len, len - 6, 4, 4);
  }

  /** Memory after each element has been stored at its munged address, in order. */
  function MungedStores(m: seq<byte>, a: nat, b: seq<byte>, size: nat): (r: seq<byte>)
    requires AccessOk(size) && |b| % size == 0 && SlotsInside(|m|, a, |b|, size)
    ensures |r| == |m|
    decreases |b|
  {
    if |b| < size then m
    else
      var k := |b| - size;
      LastSlot(|m|, a, |b|, size);
      Splice(MungedStores(m, a, b[..k], size), Slot(a, k, size), b[k..])
  }

  /** What is loaded element by element from the munged addresses. */
  function MungedLoads(m: seq<byte>, a: nat, n: nat, size: nat): (r: seq<byte>)
    requires AccessOk(size) && n % size == 0 && SlotsInside(|m|, a, n, size)
    ensures |r| == n
    decreases n
  {
    if n < size then ModSmall(n, size); []
    else
      var k := n - size;
      LastSlot(|m|, a, n, size);
      MungedLoads(m, a, k, size) + m[Slot(a, k, size)..Slot(a, k, size) + size]
  }

  lemma StoresNext(m: seq<byte>, a: nat, b: seq<byte>, size: nat)
    requires AccessOk(size) && |b| % size == 0 && SlotsInside(|m|, a, |b|, size) && |b| >= size
    ensures var k := |b| - size;
      k % size == 0 && SlotsInside(|m|, a, k, size) && Slot(a, k, size) + size <= |m| &&
      MungedStores(m, a, b, size) == Splice(MungedStores(m, a, b[..k], size), Slot(a, k, size), b[k..])
  {
    LastSlot(|m|, a, |b|, size);
  }

  lemma LoadsNext(m: seq<byte>, a: nat, n: nat, size: nat)
    requires AccessOk(size) && n % size == 0 && SlotsInside(|m|, a, n, size) && n >= size
    ensures var k := n - size;
      k % size == 0 && SlotsInside(|m|, a, k, size) && Slot(a, k, size) + size <= |m| &&
      MungedLoads(m, a, n, size) == MungedLoads(m, a, k, size) + m[Slot(a, k, size)..Slot(a, k, size) + size]
  {
    LastSlot(|m|, a, n, size);
  }

  lemma NoElements(m: seq<byte>, a: nat, size: nat)
    requires AccessOk(size) && SlotsInside(|m|, a, 0, size)
    ensures MungedStores(m, a, [], size) == m && MungedLoads(m, a, 0, size) == []
  {
  }

  lemma ModSmall(n: nat, size: nat)
    requires AccessOk(size) && n % size == 0 && n < size
    ensures n == 0
  {
  }

  lemma LastSlot(len: nat, a: nat, n: nat, size: nat)
    requires AccessOk(size) && n % size == 0 && SlotsInside(len, a, n, size) && n >= size
    ensures (n - size) % size == 0 && Slot(a, n - size, size) + size <= len && SlotsInside(len, a, n - size, size)
  {
    StepBack(n, size);
  }

  lemma StepBack(n: nat, size: nat)
    requires AccessOk(size) && n % size == 0 && n >= size
    ensures (n - size) % size == 0
  {
  }

  lemma AlignedSlots(len: nat, a: nat, n: nat, size: nat)
    requires AccessOk(size) && a % size == 0 && n % size == 0 && len % 8 == 0 && a + n <= len
    ensures SlotsInside(len, a, n, size)
  {
    hide Munge;
    forall i: nat | i < n && i % size == 0
      ensures Slot(a, i, size) + size <= len
    {
      StepInside(a, i, n, size);
      MungeInside(a + i, size, len);
    }
  }

  /** An aligned copy is one store of the reversed elements into the guest's own byte memory. */
  lemma {:induction false} StoresAligned(m: seq<byte>, a: nat, b: seq<byte>, size: nat)
    requires AccessOk(size) && a % size == 0 && |b| % size == 0 && |m| % 8 == 0 && a + |b| <= |m|
    ensures SlotsInside(|m|, a, |b|, size)
    ensures View(MungedStores(m, a, b, size), true) == Splice(View(m, true), a, Elements(b, size, true))
    decreases |b|
  {
    hide Munge, View, Splice, Elements, Reverse, SlotsInside, MungedStores;
    AlignedSlots(|m|, a, |b|, size);
    if |b| < size {
      ModSmall(|b|, size);
      assert b == [];
      NoElements(m, a, size);
      ElementsNone(b, size);
      SpliceNone(View(m, true), a);
    } else {
      var k := |b| - size;
      var front, e := b[..k], b[k..];
      StoresNext(m, a, b, size);
      StepInside(a, k, |b|, size);
      StoresAligned(m, a, front, size);
      SpliceView(MungedStores(m, a, front, size), a + k, e);
      ElementsPush(front, e, size);
      assert front + e == b;
      SpliceGrows(View(m, true), a, Elements(front, size, true), Reverse(e));
    }
  }

  lemma {:induction false} LoadsAligned(m: seq<byte>, a: nat, n: nat, size: nat)
    requires AccessOk(size) && a % size == 0 && n % size == 0 && |m| % 8 == 0 && a + n <= |m|
    ensures SlotsInside(|m|, a, n, size)
    ensures MungedLoads(m, a, n, size) == Elements(View(m, true)[a..a + n], size, true)
    decreases n
  {
    hide Munge, View, Elements, Reverse, SlotsInside, MungedLoads;
    AlignedSlots(|m|, a, n, size);
    var v := View(m, true);
    if n < size {
      ModSmall(n, size);
      NoElements(m, a, size);
      ElementsNone(v[a..a], size);
    } else {
      var k := n - size;
      LoadsNext(m, a, n, size);
      StepInside(a, k, n, size);
      LoadsAligned(m, a, k, size);
      LoadView(m, a + k, size);
      ElementsPush(v[a..a + k], v[a + k..a + n], size);
      assert v[a..a + k] + v[a + k..a + n] == v[a..a + n];
    }
  }

  /** The memory of pmem.c: its host address and its bytes. */
  class PhysMem {
    const base: word
    const mem: array<byte>

    ghost predicate Valid()
    {
      base % PAGE_SIZE == 0 && mem.Length % PAGE_SIZE == 0 && mem.Length > 0 && base + mem.Length < TWO32
    }

    ghost function Contents(little: bool): (v: seq<byte>)
      requires Valid()
      reads mem
      ensures |v| == mem.Length && |v| % 8 == 0
    {
      PageMod8(mem.Length);
      View(mem[..], little)
    }

    /** pmem_ha (pmem.c:9-13), without its BUG_ON. */
    function Ha(ra: word): word
      requires base + ra < TWO32
    {
      base + ra
    }

    /** pmem_gra (pmem.c:15-23): -1 when the host address is outside the memory. */
    function Gra(ha: word): int {
      if ha >= base && ha < base + mem.Length then ha - base else -1
    }

    /** One element copied into memory at a host index. */
    method Store(h: nat, src: array<byte>, i: nat, size: nat)
      requires h + size <= mem.Length && i + size <= src.Length && src != mem
      modifies mem
      ensures mem[..] == Splice(old(mem[..]), h, src[i..i + size])
    {
      hide Splice;
      ghost var was := mem[..];
      SpliceNone(was, h);
      assert src[i..i] == [];
      for j := 0 to size
        invariant mem[..] == Splice(was, h, src[i..i + j])
      {
        ghost var now := mem[..];
        mem[h + j] := src[i + j];
        SpliceNext(was, h, src[i..i + j], src[i + j], now, mem[..]);
        assert src[i..i + j + 1] == src[i..i + j] + [src[i + j]];
      }
    }

    /** One element copied out of memory from a host index. */
    method Load(h: nat, dest: array<byte>, i: nat, size: nat)
      requires h + size <= mem.Length && i + size <= dest.Length && dest != mem
      modifies dest
      ensures dest[..] == Splice(old(dest[..]), i, mem[h..h + size])
    {
      hide Splice;
      ghost var was := dest[..];
      SpliceNone(was, i);
      assert mem[h..h] == [];
      for j := 0 to size
        invariant dest[..] == Splice(was, i, mem[h..h + j])
      {
        ghost var now := dest[..];
        dest[i + j] := mem[h + j];
        SpliceNext(was, i, mem[h..h + j], mem[h + j], now, dest[..]);
        assert mem[h..h + j + 1] == mem[h..h + j] + [mem[h + j]];
      }
    }

    /** The little-endian loop of pmem_to; `astray` is an access past the end of the memory. */
    method StoreMunged(dest: word, src: array<byte>, at: nat, bytes: nat, size: nat) returns (astray: bool)
      requires Valid() && src != mem && at + bytes <= src.Length
      requires AccessOk(size) && bytes % size == 0
      modifies mem
      ensures astray <==> !SlotsInside(mem.Length, dest, bytes, size)
      ensures !astray ==> mem[..] == MungedStores(old(mem[..]), dest, src[at..at + bytes], size)
    {
      hide Munge, Splice, SlotsInside, MungedStores;
      PageMod8(base);
      ghost var m, b := mem[..], src[at..at + bytes];
      var i := 0;
      NoSlots(mem.Length, dest, size);
      NoElements(m, dest, size);
      assert b[..0] == [];
      while i < bytes
        invariant i <= bytes && i % size == 0 && SlotsInside(|m|, dest, i, size)
        invariant mem[..] == MungedStores(m, dest, b[..i], size)
      {
        StepInside(0, i, bytes, size);
        MungeBase(base, dest + i, size);
        NextSlot(mem.Length, dest, i, bytes, size);
        if Munge(base + dest + i, size) - base + size > mem.Length {
          return true;
        }
        StoresNext(m, dest, b[..i + size], size);
        BufferElement(src, at, bytes, i, size);
        assert src[at..at + bytes] == b && b[..i + size][..i] == b[..i];
        Store(Munge(base + dest + i, size) - base, src, at + i, size);
        i := i + size;
      }
      assert b[..i] == b;
      return false;
    }

    /** The little-endian loop of pmem_from_ex. */
    method LoadMunged(dest: array<byte>, at: nat, src: word, bytes: nat, size: nat) returns (astray: bool)
      requires Valid() && dest != mem && at + bytes <= dest.Length
      requires AccessOk(size) && bytes % size == 0
      modifies dest
      ensures astray <==> !SlotsInside(mem.Length, src, bytes, size)
      ensures !astray ==> dest[..] == Splice(old(dest[..]), at, MungedLoads(mem[..], src, bytes, size))
    {
      hide Munge, Splice, SlotsInside, MungedLoads;
      PageMod8(base);
      ghost var m, d := mem[..], dest[..];
      var i := 0;
      NoSlots(mem.Length, src, size);
      NoElements(m, src, size);
      SpliceNone(d, at);
      while i < bytes
        invariant i <= bytes && i % size == 0 && SlotsInside(|m|, src, i, size)
        invariant dest[..] == Splice(d, at, MungedLoads(m, src, i, size))
      {
        StepInside(0, i, bytes, size);
        MungeBase(base, src + i, size);
        NextSlot(mem.Length, src, i, bytes, size);
        if Munge(base + src + i, size) - base + size > mem.Length {
          return true;
        }
        LoadsNext(m, src, i + size, size);
        ghost var h := Slot(src, i, size);
        assert mem[h..h + size] == m[h..h + size];
        Load(Munge(base + src + i, size) - base, dest, at + i, size);
        SpliceGrows(d, at, MungedLoads(m, src, i, size), m[h..h + size]);
        i := i + size;
      }
      return false;
    }

    /** How many bytes a copy at a real address moves: those up to the end of memory, unless the sum wraps. */
    function Most(ra: word, count: word): (n: nat)
      ensures n <= count && (ra + count < TWO32 ==> ra + n <= Max(ra, mem.Length))
    {
      if ra >= mem.Length then 0 else if Wrap(ra + count) > mem.Length then mem.Length - ra else count
    }

    /** A copy ends at the end of memory; one whose end wraps to inside the memory is not cut, and leaves it. */
    lemma MostIs(ra: word, count: word)
      requires ra < mem.Length
      ensures ra + count < TWO32 ==> Most(ra, count) == if ra + count <= mem.Length then count else mem.Length - ra
      ensures ra + count >= TWO32 ==>
        Most(ra, count) == if ra + count - TWO32 <= mem.Length then count else mem.Length - ra
    {
    }

    /** Host addresses inside the memory, and no others, lead back to real addresses. */
    lemma HaGra(ra: word, ha: word)
      requires Valid()
      ensures ra < mem.Length ==> base + ra < TWO32 && Gra(Ha(ra)) == ra
      ensures Gra(ha) == -1 <==> forall g: word :: g < mem.Length && base + g < TWO32 ==> Ha(g) != ha
    {
      if Gra(ha) != -1 {
        assert Ha(Gra(ha)) == ha;
      }
    }

    /** The BUG_ONs on the size of the access. */
    predicate CopyStops(ra: word, count: word, size: nat)
      requires size > 0
    {
      ra < mem.Length && (Most(ra, count) % size != 0 || !AccessOk(size))
    }

    /** The accesses of a copy stay inside the memory, as those of an aligned one that does not wrap always do. */
    predicate CopyFits(ra: word, count: word, size: nat, little: bool)
      requires size > 0
    {
      ra < mem.Length && !CopyStops(ra, count, size) ==>
        if little then SlotsInside(mem.Length, ra, Most(ra, count), size) else ra + Most(ra, count) <= mem.Length
    }

    /** pmem_to (pmem.c:52-88), from index `at` of a buffer; n is the number of bytes copied, `astray` an access past
        the end of the memory. */
    method PmemTo(dest: word, src: array<byte>, at: nat, count: word, size: word, little: bool)
      returns (stopped: bool, astray: bool, n: nat)
      requires Valid() && src != mem && at + count <= src.Length && size > 0
      modifies mem
      ensures stopped <==> CopyStops(dest, count, size)
      ensures astray <==> !CopyFits(dest, count, size, little)
      ensures !stopped && !astray ==> n == Most(dest, count) && (n == 0 || AccessOk(size))
      ensures !stopped && !astray && n == 0 ==> mem[..] == old(mem[..])
      ensures !stopped && !astray && n > 0 ==>
        (little || dest + n <= mem.Length) &&
        mem[..] == if little then MungedStores(old(mem[..]), dest, src[at..at + n], size)
                   else Splice(old(mem[..]), dest, src[at..at + n])
    {
      hide SlotsInside, MungedStores, MungedLoads;
      var bytes := count;
      astray := false;
      if dest >= mem.Length {
        return false, false, 0;
      }
      if Wrap(dest + bytes) > mem.Length {
        bytes := mem.Length - dest;
      }
      if bytes % size != 0 || !AccessOk(size) {
        return true, false, 0;
      }
      if little {
        astray := StoreMunged(dest, src, at, bytes, size);
        NoSlots(mem.Length, dest, size);
        NoElements(old(mem[..]), dest, size);
        assert src[at..at] == [];
      } else if dest + bytes > mem.Length {
        return false, true, 0;
      } else {
        Store(dest, src, at, bytes);
        SpliceNone(old(mem[..]), dest);
      }
      return false, astray, bytes;
    }

    /** pmem_from_ex without PMEM_FROM_NUL_TERM (pmem.c:90-144), to index `at` of a buffer. */
    method PmemFrom(dest: array<byte>, at: nat, src: word, count: word, size: word, little: bool)
      returns (stopped: bool, astray: bool, n: nat)
      requires Valid() && dest != mem && at + count <= dest.Length && size > 0
      modifies dest
      ensures stopped <==> CopyStops(src, count, size)
      ensures astray <==> !CopyFits(src, count, size, little)
      ensures !stopped && !astray ==> n == Most(src, count) && (n == 0 || AccessOk(size))
      ensures !stopped && !astray && n == 0 ==> dest[..] == old(dest[..])
      ensures !stopped && !astray && n > 0 ==>
        (little || src + n <= mem.Length) &&
        dest[..] ==
          Splice(old(dest[..]), at, if little then MungedLoads(mem[..], src, n, size) else mem[src..src + n])
    {
      hide SlotsInside, MungedStores, MungedLoads;
      var bytes := count;
      astray := false;
      if src >= mem.Length {
        return false, false, 0;
      }
      if Wrap(src + bytes) > mem.Length {
        bytes := mem.Length - src;
      }
      if bytes % size != 0 || !AccessOk(size) {
        return true, false, 0;
      }
      if little {
        astray := LoadMunged(dest, at, src, bytes, size);
      } else if src + bytes > mem.Length {
        return false, true, 0;
      } else {
        Load(src, dest, at, bytes);
      }
      SpliceNone(old(dest[..]), at);
      return false, astray, bytes;
    }
  }

  lemma BufferElement(src: array<byte>, at: nat, bytes: nat, i: nat, size: nat)
    requires at + bytes <= src.Length && i + size <= bytes
    ensures src[at + i..at + i + size] == src[at..at + bytes][..i + size][i..]
  {
    var b := src[at..at + bytes][..i + size];
    forall j | 0 <= j < size
      ensures b[i..][j] == src[at + i + j]
    {
      assert b[i..][j] == b[i + j];
    }
  }

  lemma NoSlots(len: nat, a: nat, size: nat)
    requires AccessOk(size)
    ensures SlotsInside(len, a, 0, size)
  {
  }

  /** One more element is inside, or the copy is not. */
  lemma NextSlot(len: nat, a: nat, i: nat, n: nat, size: nat)
    requires AccessOk(size) && i % size == 0 && i < n && SlotsInside(len, a, i, size)
    ensures if Slot(a, i, size) + size <= len then SlotsInside(len, a, i + size, size)
      else !SlotsInside(len, a, n, size)
  {
    hide Munge;
    if Slot(a, i, size) + size <= len {
      forall j: nat | j < i + size && j % size == 0
        ensures Slot(a, j, size) + size <= len
      {
        if j >= i {
          SameMultiple(i, j, size);
        }
      }
    }
  }

  lemma SameMultiple(i: nat, j: nat, size: nat)
    requires AccessOk(size) && i % size == 0 && j % size == 0 && i <= j < i + size
    ensures j == i
  {
  }

  lemma ElementsNone(b: seq<byte>, size: nat)
    requires AccessOk(size) && b == []
    ensures Elements(b, size, true) == []
  {
  }

  lemma SpliceNone(m: seq<byte>, h: nat)
    requires h <= |m|
    ensures Splice(m, h, []) == m
  {
  }

  lemma StepInside(a: nat, i: nat, bytes: nat, size: nat)
    requires AccessOk(size) && a % size == 0 && i % size == 0 && bytes % size == 0 && i < bytes
    ensures (a + i) % size == 0 && i + size <= bytes && (i + size) % size == 0
  {
  }

  lemma MungeBase(base: nat, a: nat, size: nat)
    requires base % 8 == 0 && AccessOk(size)
    ensures Munge(base + a, size) == base + Munge(a, size)
  {
    hide Munge;
    MungeIs(a, size);
    MungeIs(base + a, size);
  }

  lemma LoadView(m: seq<byte>, a: nat, size: nat)
    requires |m| % 8 == 0 && AccessOk(size) && a % size == 0 && a + size <= |m|
    ensures Munge(a, size) + size <= |m|
    ensures m[Munge(a, size)..Munge(a, size) + size] == Reverse(View(m, true)[a..a + size])
  {
    hide Munge, Flip, View, Reverse;
    MungeInside(a, size, |m|);
    var h := Munge(a, size);
    forall x | h <= x < h + size
      ensures m[x] == View(m, true)[a + (size - 1 - (x - h))]
    {
      AlignedReversed(a, size, x - h);
      ViewAt(m, a + (size - 1 - (x - h)));
    }
  }

  lemma PageMod8(x: nat)
    ensures x % PAGE_SIZE == 0 ==> x % 8 == 0
  {
    if x % PAGE_SIZE == 0 {
      assert x == PAGE_SIZE * (x / PAGE_SIZE);
      DivModUnique(x, 8, 512 * (x / PAGE_SIZE), 0);
    }
  }
}
