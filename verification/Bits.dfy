/** Machine words as natural numbers: powers of two, bitwise AND and OR, and rounding up to an alignment. */
module Bits {

  type Byte = b: int | 0 <= b < 256

  const WORD_LIMIT := 0x1_0000_0000_0000_0000

  function Pow2(n: nat): (p: nat)
    ensures p >= 1
  {
    if n == 0 then 1 else 2 * Pow2(n - 1)
  }

  ghost predicate IsPow2(a: int) {
    exists k: nat :: a == Pow2(k)
  }

  function And(x: nat, y: nat): nat {
    if x == 0 || y == 0 then 0 else (if x % 2 + y % 2 == 2 then 1 else 0) + 2 * And(x / 2, y / 2)
  }

  function Or(x: nat, y: nat): nat {
    if x == 0 then y
    else if y == 0 then x
    else (if x % 2 + y % 2 > 0 then 1 else 0) + 2 * Or(x / 2, y / 2)
  }

  lemma AndStep(x: nat, half: nat, bit: nat)
    requires bit < 2
    ensures And(x, 2 * half + bit) == (if x % 2 + bit == 2 then 1 else 0) + 2 * And(x / 2, half)
  {
    assert (2 * half + bit) / 2 == half && (2 * half + bit) % 2 == bit;
  }

  lemma TwiceProduct(x: int, y: int)
    ensures 2 * (x * y) == (2 * x) * y
  {
  }

  lemma Pow2Sum(i: nat, j: nat)
    ensures Pow2(i + j) == Pow2(i) * Pow2(j)
  {
    if i > 0 {
      Pow2Sum(i - 1, j);
      TwiceProduct(Pow2(i - 1), Pow2(j));
    }
  }

  lemma Pow2Monotone(i: nat, j: nat)
    requires i <= j
    ensures Pow2(i) <= Pow2(j)
  {
    if i < j { Pow2Monotone(i, j - 1); }
  }

  lemma Pow2OfSum(i: nat, j: nat, n: nat, p: nat, q: nat)
    requires n == i + j && Pow2(i) == p && Pow2(j) == q
    ensures Pow2(n) == p * q
  {
    Pow2Sum(i, j);
  }

  lemma Pow2OfBytes()
    ensures Pow2(8) == 0x100 && Pow2(56) == 0x100_0000_0000_0000 && Pow2(64) == WORD_LIMIT
  {
    Pow2OfSum(8, 8, 16, 0x100, 0x100);
    Pow2OfSum(16, 16, 32, 0x1_0000, 0x1_0000);
    Pow2OfSum(32, 16, 48, 0x1_0000_0000, 0x1_0000);
    Pow2OfSum(48, 8, 56, 0x1_0000_0000_0000, 0x100);
    Pow2OfSum(32, 32, 64, 0x1_0000_0000, 0x1_0000_0000);
  }

  /** Halving a number halves its remainder modulo an even number. */
  lemma ModDouble(x: nat, p: nat)
    requires p >= 1
    ensures x % (2 * p) == 2 * ((x / 2) % p) + x % 2
  {
    var q, r := (x / 2) / p, (x / 2) % p;
    assert x / 2 == p * q + r;
    assert x == 2 * (x / 2) + x % 2;
    assert x == (2 * p) * q + (2 * r + x % 2) by { assert 2 * (p * q) == (2 * p) * q; }
    DivModUnique(x, 2 * p, q, 2 * r + x % 2);
  }

  function Max(a: int, b: int): int {
    if a < b then b else a
  }

  lemma MulAtLeast(d: int, e: int)
    requires d >= 0 && e >= 1
    ensures d * e >= d
  {
  }

  lemma MulMonotone(x: int, y: int, d: int)
    requires x <= y && d >= 0
    ensures x * d <= y * d
  {
  }

  lemma MulNext(x: int, y: int)
    ensures x * (y + 1) == x * y + x
  {
  }

  lemma MulDistributes(d: int, x: int, y: int)
    ensures d * (x - y) == d * x - d * y
  {
  }

  lemma DivModUnique(x: int, d: int, q: int, r: int)
    requires 0 <= r < d
    requires x == d * q + r
    ensures x / d == q && x % d == r
  {
    var q', r' := x / d, x % d;
    MulDistributes(d, q, q');
    MulDistributes(d, q', q);
    if q' < q {
      MulAtLeast(d, q - q');
      assert false;
    } else if q' > q {
      MulAtLeast(d, q' - q);
      assert false;
    }
  }

  lemma AllOnes(x: nat, w: nat)
    requires x < Pow2(w)
    ensures And(x, Pow2(w) - 1) == x
  {
    if x > 0 && w > 0 {
      AllOnes(x / 2, w - 1);
      AndStep(x, Pow2(w - 1) - 1, 1);
    }
  }

  /** The `k` low bits. */
  function Low(v: nat, k: nat): nat {
    if k == 0 then 0 else v % 2 + 2 * Low(v / 2, k - 1)
  }

  lemma {:induction false} LowIsMod(v: nat, k: nat)
    ensures Low(v, k) == v % Pow2(k)
  {
    if k > 0 {
      LowIsMod(v / 2, k - 1);
      ModDouble(v, Pow2(k - 1));
    }
  }

  lemma HighMaskHalves(k: nat, w: nat)
    requires 0 < k <= w
    ensures Pow2(k - 1) <= Pow2(w - 1)
    ensures Pow2(w) - Pow2(k) == 2 * (Pow2(w - 1) - Pow2(k - 1))
  {
    Pow2Monotone(k - 1, w - 1);
  }

  lemma HighMaskStep(x: nat, k: nat, half: nat)
    requires k > 0 && And(x / 2, half) == x / 2 - Low(x / 2, k - 1)
    ensures And(x, 2 * half) == x - Low(x, k)
  {
    AndStep(x, half, 0);
  }

  /** Masking the `k` low bits out of a `w`-bit word takes them off. */
  lemma {:induction false} AndHighMask(x: nat, k: nat, w: nat)
    requires k <= w && x < Pow2(w)
    ensures Pow2(k) <= Pow2(w)
    ensures And(x, Pow2(w) - Pow2(k)) == x - Low(x, k)
  {
    Pow2Monotone(k, w);
    if k == 0 {
      AllOnes(x, w);
    } else {
      HighMaskHalves(k, w);
      AndHighMask(x / 2, k - 1, w - 1);
      HighMaskStep(x, k, Pow2(w - 1) - Pow2(k - 1));
    }
  }

  /** `(value + (align - 1)) & !(align - 1)` in 64-bit arithmetic. */
  function AlignUp64(value: nat, align: nat): nat
    requires 1 <= align <= WORD_LIMIT
  {
    And((value + (align - 1)) % WORD_LIMIT, WORD_LIMIT - 1 - (align - 1))
  }

  /** The least multiple of `align` that is not below `value`. */
  function AlignUp(value: nat, align: nat): nat
    requires align >= 1
  {
    value + (align - 1) - (value + (align - 1)) % align
  }

  lemma MultipleGap(u: nat, v: nat, a: nat)
    requires a >= 1 && u % a == 0 && v % a == 0 && u < v
    ensures u + a <= v
  {
    var i, j := u / a, v / a;
    MulDistributes(a, i, j);
    MulDistributes(a, j, i);
    if i > j { MulAtLeast(a, i - j); }
    MulAtLeast(a, j - i);
  }

  lemma AlignUpLeast(value: nat, align: nat)
    requires align >= 1
    ensures value <= AlignUp(value, align) < value + align
    ensures AlignUp(value, align) % align == 0
    ensures forall m: nat :: value <= m && m % align == 0 ==> AlignUp(value, align) <= m
  {
    var t := value + (align - 1);
    DivModUnique(t - t % align, align, t / align, 0);
    forall m: nat | value <= m && m % align == 0
      ensures AlignUp(value, align) <= m
    {
      if m < AlignUp(value, align) { MultipleGap(m, AlignUp(value, align), align); }
    }
  }

  lemma {:induction false} Pow2Divides(i: nat, j: nat)
    requires i <= j
    ensures Pow2(j) % Pow2(i) == 0
  {
    Pow2Sum(j - i, i);
    DivModUnique(Pow2(j), Pow2(i), Pow2(j - i), 0);
  }

  lemma ModOfMultiple(x: int, d: int, m: int)
    requires d >= 1 && m >= 1 && m % d == 0 && x % m == 0
    ensures x % d == 0
  {
    var q, e := x / m, m / d;
    assert x == m * q && m == d * e;
    assert x == d * (e * q) by { assert (d * e) * q == d * (e * q); }
    DivModUnique(x, d, e * q, 0);
  }

  /** Rounding an 8-aligned address up to any power of two leaves it 8-aligned. */
  lemma AlignUpKeepsEight(value: nat, align: nat)
    requires value % 8 == 0 && IsPow2(align)
    ensures AlignUp(value, align) % 8 == 0
  {
    AlignUpLeast(value, align);
    var k: nat :| align == Pow2(k);
    assert Pow2(3) == 8;
    if k <= 3 {
      Pow2Divides(k, 3);
      ModOfMultiple(value, align, 8);
    } else {
      Pow2Divides(3, k);
      ModOfMultiple(AlignUp(value, align), 8, align);
    }
  }

  /** The low `k` bits cleared, for a word. */
  lemma ClearLow(x: nat, k: nat)
    requires x < WORD_LIMIT && k <= 64
    ensures Pow2(k) <= WORD_LIMIT && And(x, WORD_LIMIT - Pow2(k)) == x - x % Pow2(k)
  {
    Pow2OfBytes();
    AndHighMask(x, k, 64);
    LowIsMod(x, k);
  }

  /**
   * The bit trick rounds up exactly when the rounded address is still a 64-bit word;
   * past that point the addition wraps and the result falls below `value`.
   */
  lemma AlignUpExact(value: nat, align: nat)
    requires value < WORD_LIMIT && align <= WORD_LIMIT && IsPow2(align)
    ensures AlignUp64(value, align) == AlignUp(value, align) <==> value <= WORD_LIMIT - align
    ensures value > WORD_LIMIT - align ==> AlignUp64(value, align) < value
  {
    AlignUp64Rounds(value, align);
    AlignUpLeast(value, align);
    WrapOnce(value + (align - 1));
  }

  lemma ModSelf(x: int, m: int)
    requires 0 <= x < m
    ensures x % m == x
  {
  }

  lemma WrapOnce(t: nat)
    requires t < 2 * WORD_LIMIT
    ensures t % WORD_LIMIT == if t < WORD_LIMIT then t else t - WORD_LIMIT
  {
  }

  lemma AlignUp64Rounds(value: nat, align: nat)
    requires align <= WORD_LIMIT && IsPow2(align)
    ensures align >= 1
    ensures var t := (value + (align - 1)) % WORD_LIMIT;
            AlignUp64(value, align) == t - t % align <= t
  {
    var k: nat :| align == Pow2(k);
    Pow2OfBytes();
    if k > 64 { Pow2Monotone(65, k); }
    ClearLow((value + (align - 1)) % WORD_LIMIT, k);
  }
}
