/** Bitwise operators on natural numbers, and what masks of low bits compute (include/defs.h:15-19). */
module Bits {
  import opened Words

  function Pow2(k: nat): (p: nat)
    ensures p >= 1
  {
    if k == 0 then 1 else 2 * Pow2(k - 1)
  }

  predicate IsPow2(a: int) {
    exists k: nat :: k < 32 && a == Pow2(k)
  }

  /** a & b */
  function And(a: nat, b: nat): (r: nat)
    ensures r <= a && r <= b
  {
    if a == 0 || b == 0 then 0 else 2 * And(a / 2, b / 2) + if a % 2 == 1 && b % 2 == 1 then 1 else 0
  }

  /** a ^ b */
  function Xor(a: nat, b: nat): nat {
    if a == 0 && b == 0 then 0 else 2 * Xor(a / 2, b / 2) + (a % 2 + b % 2) % 2
  }

  /** a | b */
  function Or(a: nat, b: nat): nat {
    if a == 0 && b == 0 then 0 else 2 * Or(a / 2, b / 2) + if a % 2 == 1 || b % 2 == 1 then 1 else 0
  }

  /** ~x on 32 bits */
  function Not(x: word): word {
    TWO32 - 1 - x
  }

  /** ALIGN_MASK and ALIGN_UP_MASK, with C's unsigned arithmetic. */
  function Align(x: word, a: word): word {
    And(x, Not(Wrap(a - 1)))
  }

  function AlignUp(x: word, a: word): word {
    var mask := Wrap(a - 1);
    if And(x, mask) == 0 then x else And(Wrap(x + mask), Not(mask))
  }

  /** Bit k of a number, from the right. */
  predicate Bit(x: nat, k: nat) {
    x / Pow2(k) % 2 == 1
  }

  lemma BitIs(x: nat, k: nat)
    ensures Bit(x, k) <==> x / Pow2(k) % 2 == 1
  {
  }

  /** Adding 2^j to a number whose bit j is clear sets that bit and no other. */
  lemma {:induction false} AddBit(x: nat, j: nat, k: nat)
    requires !Bit(x, j)
    ensures Bit(x + Pow2(j), k) <==> k == j || Bit(x, k)
    decreases j
  {
    hide Bit;
    BitStep(x, j);
    BitStep(x, k);
    BitStep(x + Pow2(j), k);
    if j == 0 {
      assert x % 2 == 0 && (x + 1) % 2 == 1 && (x + 1) / 2 == x / 2;
    } else {
      var p := Pow2(j - 1);
      Pow2Step(j);
      assert (x + 2 * p) / 2 == x / 2 + p && (x + 2 * p) % 2 == x % 2;
      if k > 0 {
        AddBit(x / 2, j - 1, k - 1);
      }
    }
  }

  /** The operators are what they are bit by bit. */
  lemma {:induction false} BitByBit(a: nat, b: nat, k: nat)
    ensures Bit(And(a, b), k) <==> Bit(a, k) && Bit(b, k)
    ensures Bit(Or(a, b), k) <==> Bit(a, k) || Bit(b, k)
    ensures Bit(Xor(a, b), k) <==> Bit(a, k) != Bit(b, k)
    decreases k
  {
    hide Bit, And, Or, Xor;
    AndStep(a, b);
    XorStep(a, b);
    OrStep(a, b);
    BitStep(a, k);
    BitStep(b, k);
    BitStep(And(a, b), k);
    BitStep(Or(a, b), k);
    BitStep(Xor(a, b), k);
    if k > 0 {
      BitByBit(a / 2, b / 2, k - 1);
    }
  }

  lemma BitStep(x: nat, k: nat)
    ensures Bit(x, k) <==> if k == 0 then x % 2 == 1 else Bit(x / 2, k - 1)
  {
    if k > 0 {
      var p := Pow2(k - 1);
      HalfTwice(x, p);
    }
  }

  lemma HalfTwice(x: nat, p: nat)
    requires p > 0
    ensures x / (2 * p) == x / 2 / p
  {
    var h, l := x / 2, x % 2;
    var q, r := h / p, h % p;
    assert h == p * q + r;
    assert 2 * p * q == 2 * (p * q);
    DivModUnique(x, 2 * p, q, 2 * r + l);
  }

  lemma OrStep(a: nat, b: nat)
    ensures Or(a, b) == 2 * Or(a / 2, b / 2) + if a % 2 == 1 || b % 2 == 1 then 1 else 0
  {
  }

  lemma AndStep(a: nat, b: nat)
    ensures And(a, b) == 2 * And(a / 2, b / 2) + if a % 2 == 1 && b % 2 == 1 then 1 else 0
  {
  }

  lemma XorStep(a: nat, b: nat)
    ensures Xor(a, b) == 2 * Xor(a / 2, b / 2) + (a % 2 + b % 2) % 2
  {
  }

  lemma {:induction false} XorZero(a: nat)
    ensures Xor(a, 0) == a
    decreases a
  {
    if a > 0 {
      XorZero(a / 2);
    }
  }

  /** XOR with one bit flips that bit and nothing else. */
  lemma {:induction false} FlipBit(x: nat, k: nat, n: nat)
    requires k < n && x < Pow2(n)
    ensures Xor(x, Pow2(k)) < Pow2(n)
    ensures And(x, Pow2(k)) == 0 || And(x, Pow2(k)) == Pow2(k)
    ensures And(Xor(x, Pow2(k)), Pow2(k)) == Pow2(k) - And(x, Pow2(k))
    ensures k > 0 ==> Xor(x, Pow2(k)) % 2 == x % 2
    decreases k
  {
    hide And, Xor, Pow2;
    var b := Pow2(k);
    var y := Xor(x, b);
    Pow2Step(n);
    XorStep(x, b);
    AndStep(x, b);
    AndStep(y, b);
    if k == 0 {
      Pow2Zero();
      XorZero(x / 2);
      AndZero(x / 2);
      AndZero(y / 2);
    } else {
      Pow2Step(k);
      assert b / 2 == Pow2(k - 1) && b % 2 == 0;
      FlipBit(x / 2, k - 1, n - 1);
      assert y / 2 == Xor(x / 2, b / 2);
    }
  }

  lemma AndZero(x: nat)
    ensures And(x, 0) == 0
  {
  }

  lemma {:induction false} OrBelow(a: nat, b: nat, k: nat)
    requires a < Pow2(k) && b < Pow2(k)
    ensures Or(a, b) < Pow2(k)
    decreases k
  {
    if k > 0 {
      OrBelow(a / 2, b / 2, k - 1);
    }
  }

  lemma {:induction false} AndLow(x: nat, k: nat)
    ensures And(x, Pow2(k) - 1) == x % Pow2(k)
    decreases k
  {
    hide And;
    if k > 0 {
      var p, b := Pow2(k - 1), Pow2(k) - 1;
      assert b / 2 == p - 1 && b % 2 == 1;
      AndLow(x / 2, k - 1);
      AndStep(x, b);
      ModHalf(x, p);
    }
  }

  lemma ModHalf(x: nat, p: nat)
    requires p > 0
    ensures x % (2 * p) == 2 * (x / 2 % p) + x % 2
  {
    var q := x / 2 / p;
    assert x / 2 == p * q + x / 2 % p;
    assert x == (2 * p) * q + (2 * (x / 2 % p) + x % 2);
    DivModUnique(x, 2 * p, q, 2 * (x / 2 % p) + x % 2);
  }

  lemma DivModUnique(x: int, d: nat, q: int, r: int)
    requires d > 0 && x == d * q + r && 0 <= r < d
    ensures x / d == q && x % d == r
  {
    assert x == d * (x / d) + x % d;
    MulLess(d, x / d, q);
    MulLess(d, q, x / d);
  }

  lemma MulLess(d: nat, a: int, b: int)
    ensures a < b ==> d * a + d <= d * b
  {
    if a < b {
      assert d * b == d * a + d * (b - a);
      assert d * (b - a) == d + d * (b - a - 1);
    }
  }

  /** Clearing the low k of n bits rounds down to a multiple of 2^k. */
  lemma {:induction false} AndHigh(x: nat, k: nat, n: nat)
    requires k <= n && x < Pow2(n)
    ensures Pow2(k) <= Pow2(n) && And(x, Pow2(n) - Pow2(k)) == x - x % Pow2(k)
    decreases n
  {
    hide And, Pow2;
    Pow2Monotone(k, n);
    if k == 0 {
      Pow2Zero();
      AndLow(x, n);
      DivModUnique(x, Pow2(n), 0, x);
    } else {
      Pow2Step(k);
      Pow2Step(n);
      var b, p := Pow2(n) - Pow2(k), Pow2(k - 1);
      assert b / 2 == Pow2(n - 1) - p && b % 2 == 0;
      AndHigh(x / 2, k - 1, n - 1);
      AndStep(x, b);
      ModHalf(x, p);
    }
  }

  lemma Pow2Zero()
    ensures Pow2(0) == 1
  {
  }

  lemma Pow2Step(k: nat)
    requires k > 0
    ensures Pow2(k) == 2 * Pow2(k - 1)
  {
  }

  lemma {:induction false} Pow2Monotone(k: nat, n: nat)
    requires k <= n
    ensures Pow2(k) <= Pow2(n)
    decreases n
  {
    if k < n {
      Pow2Monotone(k, n - 1);
    }
  }

  lemma Pow2Below(k: nat, n: nat)
    ensures Pow2(k) < Pow2(n) ==> k < n
  {
    if n <= k {
      Pow2Monotone(n, k);
    }
  }

  lemma Pow2Values()
    ensures Pow2(12) == 4096 && Pow2(28) == 0x1000_0000
    ensures Pow2(30) == 0x4000_0000 && Pow2(31) == 0x8000_0000 && Pow2(32) == TWO32
  {
    assert Pow2(6) == 64;
    assert Pow2(12) == 4096;
    assert Pow2(18) == 0x4_0000;
    assert Pow2(24) == 0x100_0000;
    assert Pow2(30) == 0x4000_0000;
  }

  /** For a power of two, ALIGN is rounding down to a multiple. */
  lemma AlignIs(x: word, a: word)
    requires IsPow2(a)
    ensures Align(x, a) == x - x % a
  {
    hide And, Pow2;
    var k: nat :| k < 32 && a == Pow2(k);
    Pow2Values();
    Pow2Monotone(k, 31);
    assert Not(Wrap(a - 1)) == Pow2(32) - Pow2(k);
    AndHigh(x, k, 32);
  }

  /** For a power of two, ALIGN_UP is rounding up to a multiple, unless that wraps to zero. */
  lemma AlignUpIs(x: word, a: word)
    requires IsPow2(a)
    ensures AlignUp(x, a) == Wrap(if x % a == 0 then x else x - x % a + a)
  {
    hide And, Pow2, Wrap;
    var k: nat :| k < 32 && a == Pow2(k);
    Pow2Values();
    Pow2Monotone(k, 31);
    var mask := Wrap(a - 1);
    WrapSmall(a - 1);
    WrapSmall(x);
    AndLow(x, k);
    if x % a != 0 {
      AndHigh(Wrap(x + mask), k, 32);
      assert And(Wrap(x + mask), Not(mask)) == Wrap(x + mask) - Wrap(x + mask) % a;
      RoundUp(x, a, k);
    }
  }

  lemma WrapSmall(x: nat)
    requires x < TWO32
    ensures Wrap(x) == x
  {
  }

  lemma RoundUp(x: word, a: nat, k: nat)
    requires k < 32 && a == Pow2(k) && x % a != 0
    ensures var y: int := Wrap(x + a - 1); y - y % a == Wrap(x - x % a + a)
  {
    hide Pow2, Wrap;
    var r: nat := x % a;
    var down: int := x - r;
    DivModIs(x, a);
    Complement(a, k);
    RoundUpBy(a, x / a, down, r, Pow2(32 - k));
    assert down + r + a - 1 == x + a - 1;
  }

  lemma DivModIs(x: nat, d: nat)
    requires d > 0
    ensures x == d * (x / d) + x % d && 0 <= x % d < d && x - x % d >= 0
  {
  }

  lemma Complement(a: nat, k: nat)
    requires k < 32 && a == Pow2(k)
    ensures a * Pow2(32 - k) == TWO32
  {
    hide Pow2;
    Pow2Add(k, 32 - k);
    Pow2Values();
    assert k + (32 - k) == 32;
  }

  lemma RoundUpBy(a: nat, q: int, down: nat, r: int, m: int)
    requires a > 0 && 0 < r < a && a * m == TWO32 && down == a * q && down + r < TWO32
    ensures var y: int := Wrap(down + r + a - 1); y - y % a == Wrap(down + a)
  {
    var n := q + 1;
    var up := down + a;
    assert up == a * n;
    MulLess(a, m, n);
    MulLess(a, n, m);
    assert n <= m;
    RoundUpTo(a, n, r, up);
  }

  lemma RoundUpTo(a: nat, n: int, r: int, up: int)
    requires 0 < r < a && up == a * n && 0 < up && (up + a <= TWO32 || up == TWO32)
    ensures var y: int := Wrap(up + r - 1); y - y % a == Wrap(up)
  {
    if up == TWO32 {
      assert Wrap(up + r - 1) == r - 1 by { assert up + r - 1 - TWO32 == r - 1; }
      DivModUnique(r - 1, a, 0, r - 1);
    } else {
      DivModUnique(up + r - 1, a, n, r - 1);
    }
  }

  lemma {:induction false} Pow2Add(k: nat, m: nat)
    ensures Pow2(k + m) == Pow2(k) * Pow2(m)
    decreases k
  {
    if k > 0 {
      Pow2Add(k - 1, m);
      assert 2 * (Pow2(k - 1) * Pow2(m)) == 2 * Pow2(k - 1) * Pow2(m);
    }
  }

  lemma PageAlign(x: word)
    ensures Align(x, PAGE_SIZE) == x - x % PAGE_SIZE
  {
    Pow2Values();
    assert IsPow2(PAGE_SIZE);
    AlignIs(x, PAGE_SIZE);
  }

  lemma PageAlignUp(x: word)
    ensures AlignUp(x, PAGE_SIZE) == Wrap(if x % PAGE_SIZE == 0 then x else x - x % PAGE_SIZE + PAGE_SIZE)
  {
    Pow2Values();
    assert IsPow2(PAGE_SIZE);
    AlignUpIs(x, PAGE_SIZE);
  }
}
