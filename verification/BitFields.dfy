/** Shifts and fields of bits: when masks are disjoint, and how a field is read back out of an OR. */
module BitFields {
  import opened Bits

  function Shl(v: nat, k: nat): nat {
    if k == 0 then v else 2 * Shl(v, k - 1)
  }

  function Shr(v: nat, k: nat): nat {
    if k == 0 then v else Shr(v / 2, k - 1)
  }

  /** The `size` bits of `v` from bit `shift` on. */
  function Field(v: nat, shift: nat, size: nat): nat {
    Low(Shr(v, shift), size)
  }

  /** `size` one bits from bit `shift` on. */
  function Mask(size: nat, shift: nat): nat {
    Shl(Pow2(size) - 1, shift)
  }

  // ----- OR and AND, bit by bit -----

  lemma OrHalves(x: nat, y: nat)
    ensures Or(x, y) / 2 == Or(x / 2, y / 2)
    ensures Or(x, y) % 2 == if x % 2 + y % 2 > 0 then 1 else 0
  {
  }

  lemma AndHalves(x: nat, y: nat)
    ensures And(x, y) / 2 == And(x / 2, y / 2)
    ensures And(x, y) % 2 == if x % 2 + y % 2 == 2 then 1 else 0
  {
  }

  lemma {:induction false} ShrOr(x: nat, y: nat, k: nat)
    ensures Shr(Or(x, y), k) == Or(Shr(x, k), Shr(y, k))
  {
    if k > 0 {
      OrHalves(x, y);
      ShrOr(x / 2, y / 2, k - 1);
    }
  }

  lemma {:induction false} ShrAnd(x: nat, y: nat, k: nat)
    ensures Shr(And(x, y), k) == And(Shr(x, k), Shr(y, k))
  {
    if k > 0 {
      AndHalves(x, y);
      ShrAnd(x / 2, y / 2, k - 1);
    }
  }

  lemma LowHalves(v: nat, k: nat)
    requires k > 0
    ensures Low(v, k) / 2 == Low(v / 2, k - 1) && Low(v, k) % 2 == v % 2
  {
  }

  lemma SameHalves(a: nat, b: nat)
    requires a / 2 == b / 2 && a % 2 == b % 2
    ensures a == b
  {
  }

  lemma {:induction false} LowOr(x: nat, y: nat, k: nat)
    ensures Low(Or(x, y), k) == Or(Low(x, k), Low(y, k))
  {
    if k > 0 {
      OrHalves(x, y);
      LowOr(x / 2, y / 2, k - 1);
      LowHalves(x, k);
      LowHalves(y, k);
      LowHalves(Or(x, y), k);
      OrHalves(Low(x, k), Low(y, k));
      SameHalves(Low(Or(x, y), k), Or(Low(x, k), Low(y, k)));
    }
  }

  /** A field of an OR is the OR of the fields. */
  lemma FieldOr(x: nat, y: nat, shift: nat, size: nat)
    ensures Field(Or(x, y), shift, size) == Or(Field(x, shift, size), Field(y, shift, size))
  {
    ShrOr(x, y, shift);
    LowOr(Shr(x, shift), Shr(y, shift), size);
  }

  // ----- shifts -----

  lemma {:induction false} ShrShl(v: nat, shift: nat, at: nat)
    ensures Shr(Shl(v, shift), at) == if at <= shift then Shl(v, shift - at) else Shr(v, at - shift)
  {
    if at > 0 && shift > 0 {
      assert Shl(v, shift) / 2 == Shl(v, shift - 1);
      ShrShl(v, shift - 1, at - 1);
    }
  }

  lemma {:induction false} LowShl(v: nat, shift: nat, k: nat)
    requires k <= shift
    ensures Low(Shl(v, shift), k) == 0
  {
    if k > 0 {
      assert Shl(v, shift) / 2 == Shl(v, shift - 1);
      LowShl(v, shift - 1, k - 1);
    }
  }

  lemma {:induction false} LowSmall(v: nat, k: nat)
    requires v < Pow2(k)
    ensures Low(v, k) == v
  {
    if k > 0 { LowSmall(v / 2, k - 1); }
  }

  lemma {:induction false} ShrSmall(v: nat, k: nat)
    requires v < Pow2(k)
    ensures Shr(v, k) == 0
  {
    if k > 0 { ShrSmall(v / 2, k - 1); }
  }

  lemma {:induction false} ShlZero(k: nat)
    ensures Shl(0, k) == 0
  {
    if k > 0 { ShlZero(k - 1); }
  }

  lemma {:induction false} LowZero(k: nat)
    ensures Low(0, k) == 0
  {
    if k > 0 { LowZero(k - 1); }
  }

  lemma {:induction false} ShlBelow(v: nat, size: nat, shift: nat)
    requires v < Pow2(size)
    ensures Shl(v, shift) < Pow2(size + shift)
  {
    if shift > 0 { ShlBelow(v, size, shift - 1); }
  }

  lemma {:induction false} OrBelow(x: nat, y: nat, k: nat)
    requires x < Pow2(k) && y < Pow2(k)
    ensures Or(x, y) < Pow2(k)
  {
    if k > 0 {
      OrHalves(x, y);
      OrBelow(x / 2, y / 2, k - 1);
    }
  }

  /** Below bit `k` and from bit `k` on, an OR is a sum. */
  lemma {:induction false} OrIsSum(x: nat, y: nat, k: nat)
    requires x < Pow2(k)
    ensures Or(x, Shl(y, k)) == x + Shl(y, k)
  {
    if k > 0 {
      OrHalves(x, Shl(y, k));
      OrIsSum(x / 2, y, k - 1);
    }
  }

  /** A value placed at a field reads back there, and reads as zero at any field apart from it. */
  lemma FieldOfShifted(v: nat, size: nat, shift: nat, atSize: nat, at: nat)
    requires v < Pow2(size)
    ensures at == shift && atSize == size ==> Field(Shl(v, shift), at, atSize) == v
    ensures Apart(atSize, at, size, shift) ==> Field(Shl(v, shift), at, atSize) == 0
  {
    ShrShl(v, shift, at);
    if at == shift && atSize == size {
      LowSmall(v, size);
    }
    if at + atSize <= shift {
      LowShl(v, shift - at, atSize);
    } else if shift + size <= at {
      ShlBelow(v, size, shift);
      Pow2Monotone(size + shift, at);
      ShrSmall(Shl(v, shift), at);
      LowZero(atSize);
    }
  }

  // ----- masks -----

  predicate Apart(size1: nat, shift1: nat, size2: nat, shift2: nat) {
    shift1 + size1 <= shift2 || shift2 + size2 <= shift1
  }

  lemma {:induction false} OnesShr(size: nat, d: nat)
    requires d <= size
    ensures Shr(Pow2(size) - 1, d) == Pow2(size - d) - 1
  {
    if d > 0 {
      assert (Pow2(size) - 1) / 2 == Pow2(size - 1) - 1;
      OnesShr(size - 1, d - 1);
    }
  }

  lemma {:induction false} AndBelow(x: nat, y: nat, k: nat)
    requires x < Pow2(k)
    ensures And(x, Shl(y, k)) == 0 && And(Shl(y, k), x) == 0
  {
    if k > 0 {
      AndHalves(x, Shl(y, k));
      AndHalves(Shl(y, k), x);
      AndBelow(x / 2, y, k - 1);
    }
  }

  lemma MaskBelow(size: nat, shift: nat, top: nat)
    requires shift + size <= top
    ensures Mask(size, shift) < Pow2(top)
  {
    ShlBelow(Pow2(size) - 1, size, shift);
    Pow2Monotone(size + shift, top);
  }

  lemma OnesOdd(size: nat)
    requires size > 0
    ensures (Pow2(size) - 1) % 2 == 1
  {
  }

  /** From the bit where both ranges have started, both masks are odd. */
  lemma MaskOdd(size: nat, shift: nat, at: nat)
    requires shift <= at < shift + size
    ensures Shr(Mask(size, shift), at) % 2 == 1
  {
    ShrShl(Pow2(size) - 1, shift, at);
    OnesShr(size, at - shift);
    OnesOdd(size - (at - shift));
  }

  lemma OverlapSeen(size1: nat, shift1: nat, size2: nat, shift2: nat)
    requires shift1 <= shift2 < shift1 + size1 && size2 > 0
    ensures And(Mask(size1, shift1), Mask(size2, shift2)) != 0
    ensures And(Mask(size2, shift2), Mask(size1, shift1)) != 0
  {
    var m1, m2 := Mask(size1, shift1), Mask(size2, shift2);
    MaskOdd(size1, shift1, shift2);
    MaskOdd(size2, shift2, shift2);
    OddAnd(m1, m2, shift2);
    OddAnd(m2, m1, shift2);
  }

  lemma OddAnd(x: nat, y: nat, at: nat)
    requires Shr(x, at) % 2 == 1 && Shr(y, at) % 2 == 1
    ensures And(x, y) != 0
  {
    ShrAnd(x, y, at);
    AndHalves(Shr(x, at), Shr(y, at));
    ShrSmall(0, at);
  }

  /** Two non-empty masks have no bit in common exactly when their bit ranges are apart. */
  lemma MasksApartExactly(size1: nat, shift1: nat, size2: nat, shift2: nat)
    requires size1 > 0 && size2 > 0
    ensures And(Mask(size1, shift1), Mask(size2, shift2)) == 0 <==> Apart(size1, shift1, size2, shift2)
  {
    if shift1 + size1 <= shift2 {
      MaskBelow(size1, shift1, shift2);
      AndBelow(Mask(size1, shift1), Pow2(size2) - 1, shift2);
    } else if shift2 + size2 <= shift1 {
      MaskBelow(size2, shift2, shift1);
      AndBelow(Mask(size2, shift2), Pow2(size1) - 1, shift1);
    } else if shift1 <= shift2 {
      OverlapSeen(size1, shift1, size2, shift2);
    } else {
      OverlapSeen(size2, shift2, size1, shift1);
    }
  }
}
