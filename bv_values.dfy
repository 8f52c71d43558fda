/**
 * The bit-vector value constructors of the C interface, as functions on
 * naturals below 2^w, with their documented bit patterns proved from a
 * bit-by-bit reading of the value (bit 0 is the least significant bit).
 * The Boolean sort is the bit-vector sort of width 1.
 */
module BvValues {
  import opened Terms

  function Pow2(n: nat): (p: nat)
    ensures p >= 1
  {
    if n == 0 then 1 else 2 * Pow2(n - 1)
  }

  /** Bit i of x. */
  function Bit(x: nat, i: nat): bool
  {
    if i == 0 then x % 2 == 1 else Bit(x / 2, i - 1)
  }

  /** x is a value of a bit-vector of width w. */
  predicate Fits(x: nat, w: nat)
  {
    x < Pow2(w)
  }

  // ---------------------------------------------------------------------
  // Bit patterns of the building blocks

  lemma {:induction false} ZeroHasNoBits(i: nat)
    ensures !Bit(0, i)
  {
    if i > 0 {
      ZeroHasNoBits(i - 1);
    }
  }

  /** 2^k has exactly bit k set. */
  lemma {:induction false} PowerBits(k: nat, i: nat)
    ensures Bit(Pow2(k), i) <==> i == k
  {
    if i == 0 {
    } else if k == 0 {
      ZeroHasNoBits(i - 1);
    } else {
      PowerBits(k - 1, i - 1);
    }
  }

  /** 2^k - 1 has exactly the bits below k set. */
  lemma {:induction false} MaskBits(k: nat, i: nat)
    ensures Bit(Pow2(k) - 1, i) <==> i < k
  {
    if i == 0 {
    } else if k == 0 {
      ZeroHasNoBits(i);
    } else {
      assert (Pow2(k) - 1) / 2 == Pow2(k - 1) - 1;
      MaskBits(k - 1, i - 1);
    }
  }

  /** Euclidean division of a = m*q + r by m gives q, remainder r. */
  lemma DivModOf(a: int, m: int, q: int, r: int)
    requires m > 0 && 0 <= r < m && a == m * q + r
    ensures a / m == q && a % m == r
  {
    var q1, r1 := a / m, a % m;
    assert m * (q1 - q) == r - r1;
    if q1 > q {
      MulAtLeast(m, q1 - q);
      assert false;
    } else if q1 < q {
      MulAtLeast(m, q - q1);
      assert false;
    }
  }

  lemma MulAtLeast(m: nat, d: int)
    requires d >= 1
    ensures m * d >= m
  {
  }

  /** The remainder by 2*m keeps bit 0, and halving it gives the remainder of the half by m. */
  lemma HalfMod(x: nat, m: nat)
    requires m > 0
    ensures (x % (2 * m)) % 2 == x % 2
    ensures (x % (2 * m)) / 2 == (x / 2) % m
  {
    var q, r := x / (2 * m), x % (2 * m);
    var t := m * q;
    assert x == 2 * t + r;
    assert x / 2 == t + r / 2;
    DivModOf(x / 2, m, q, r / 2);
  }

  /** Truncation to w bits keeps bit 0, and halving commutes with it. */
  lemma TruncateStep(x: nat, w: nat)
    requires w > 0
    ensures (x % Pow2(w)) % 2 == x % 2
    ensures (x % Pow2(w)) / 2 == (x / 2) % Pow2(w - 1)
  {
    assert Pow2(w) == 2 * Pow2(w - 1);
    HalfMod(x, Pow2(w - 1));
  }

  /** Truncation to w bits keeps exactly the bits below w. */
  lemma {:induction false} TruncateBits(x: nat, w: nat, i: nat)
    requires i < w
    ensures Bit(x % Pow2(w), i) == Bit(x, i)
  {
    TruncateStep(x, w);
    if i > 0 {
      TruncateBits(x / 2, w - 1, i - 1);
    }
  }

  /** Two values of width w with the same bits are equal. */
  lemma {:induction false} BitsDetermineValue(x: nat, y: nat, w: nat)
    requires Fits(x, w) && Fits(y, w)
    requires forall i :: 0 <= i < w ==> Bit(x, i) == Bit(y, i)
    ensures x == y
  {
    if w > 0 {
      assert Bit(x, 0) == Bit(y, 0);
      forall i | 0 <= i < w - 1
        ensures Bit(x / 2, i) == Bit(y / 2, i)
      {
        assert Bit(x, i + 1) == Bit(y, i + 1);
      }
      BitsDetermineValue(x / 2, y / 2, w - 1);
    }
  }

  // ---------------------------------------------------------------------
  // The constructors

  /** bitwuzla_mk_bv_zero: no bit set. */
  function Zero(w: nat): (v: nat)
    ensures Fits(v, w)
    ensures forall i :: 0 <= i < w ==> !Bit(v, i)
  {
    ZeroBits(w);
    0
  }

  lemma ZeroBits(w: nat)
    ensures forall i :: 0 <= i < w ==> !Bit(0, i)
  {
    forall i | 0 <= i < w {
      ZeroHasNoBits(i);
    }
  }

  /** bitwuzla_mk_bv_one: only the least significant bit set. */
  function One(w: nat): (v: nat)
    requires w > 0
    ensures Fits(v, w)
    ensures Bit(v, 0) && forall i :: 0 < i < w ==> !Bit(v, i)
  {
    forall i | 0 < i < w
      ensures !Bit(1, i)
    {
      PowerBits(0, i);
    }
    1
  }

  /** bitwuzla_mk_bv_ones: every bit set. */
  function Ones(w: nat): (v: nat)
    ensures Fits(v, w)
    ensures forall i :: 0 <= i < w ==> Bit(v, i)
  {
    var ones := Pow2(w) - 1;
    forall i | 0 <= i < w
      ensures Bit(ones, i)
    {
      MaskBits(w, i);
    }
    ones
  }

  /** bitwuzla_mk_bv_min_signed: the most significant bit set, every other bit clear. */
  function MinSigned(w: nat): (v: nat)
    requires w > 0
    ensures Fits(v, w)
    ensures Bit(v, w - 1) && forall i :: 0 <= i < w - 1 ==> !Bit(v, i)
  {
    var msb := Pow2(w - 1);
    forall i | 0 <= i < w
      ensures Bit(msb, i) <==> i == w - 1
    {
      PowerBits(w - 1, i);
    }
    msb
  }

  /** bitwuzla_mk_bv_max_signed: the most significant bit clear, every other bit set. */
  function MaxSigned(w: nat): (v: nat)
    requires w > 0
    ensures Fits(v, w)
    ensures !Bit(v, w - 1) && forall i :: 0 <= i < w - 1 ==> Bit(v, i)
  {
    var low := Pow2(w - 1) - 1;
    forall i | 0 <= i < w
      ensures Bit(low, i) <==> i < w - 1
    {
      MaskBits(w - 1, i);
    }
    low
  }

  /**
   * bitwuzla_mk_bv_value_uint64: a 64-bit unsigned value, truncated to
   * width w when it does not fit; a value that fits is kept as it is.
   */
  function Uint64(w: nat, value: nat): (v: nat)
    requires value < Pow2(64)
    ensures Fits(v, w)
    ensures forall i :: 0 <= i < w ==> Bit(v, i) == Bit(value, i)
    ensures Fits(value, w) ==> v == value
  {
    var truncated := value % Pow2(w);
    forall i | 0 <= i < w
      ensures Bit(truncated, i) == Bit(value, i)
    {
      TruncateBits(value, w, i);
    }
    if Fits(value, w) then
      DivModOf(value, Pow2(w), 0, value);
      truncated
    else
      truncated
  }

  /** bitwuzla_mk_true: the value 1 of the Boolean sort, width 1. */
  function True(): (v: Ref)
    ensures v.node.sort == BoolSort && v.node.sort == BvSort(1)
    ensures v == MkBvConst(BoolSort, One(1))
  {
    MkBvConst(BvSort(1), 1)
  }

  /** bitwuzla_mk_false: the value 0 of the Boolean sort, width 1. */
  function False(): (v: Ref)
    ensures v.node.sort == BoolSort && v.node.sort == BvSort(1)
    ensures v == MkBvConst(BoolSort, Zero(1))
  {
    MkBvConst(BvSort(1), 0)
  }

  // ---------------------------------------------------------------------
  // Relations between the constructors

  /** The two's complement reading of a value of width w. */
  function ToSigned(w: nat, v: nat): int
    requires w > 0 && Fits(v, w)
  {
    if v < Pow2(w - 1) then v else v - Pow2(w)
  }

  /** Bit w-1 is the sign bit: set exactly on the values read as negative. */
  lemma {:induction false} SignBit(w: nat, v: nat)
    requires w > 0 && Fits(v, w)
    ensures Bit(v, w - 1) <==> ToSigned(w, v) < 0
  {
    if w == 1 {
    } else {
      assert Fits(v / 2, w - 1);
      SignBit(w - 1, v / 2);
    }
  }

  /** MinSigned and MaxSigned are the least and the greatest two's complement values of width w. */
  lemma SignedRange(w: nat, v: nat)
    requires w > 0 && Fits(v, w)
    ensures ToSigned(w, MinSigned(w)) == -(Pow2(w - 1) as int)
    ensures ToSigned(w, MaxSigned(w)) == Pow2(w - 1) - 1
    ensures ToSigned(w, MinSigned(w)) <= ToSigned(w, v) <= ToSigned(w, MaxSigned(w))
  {
  }

  /** All ones reads as -1, and is the bitwise sum of the two signed extremes. */
  lemma OnesIsMinusOne(w: nat)
    requires w > 0
    ensures ToSigned(w, Ones(w)) == -1
    ensures Ones(w) == MinSigned(w) + MaxSigned(w)
  {
  }

  /** The 64-bit all-ones value truncated to width w is all ones of width w. */
  lemma OnesIsUint64OfAllOnes(w: nat)
    requires 0 < w <= 64
    ensures Uint64(w, Pow2(64) - 1) == Ones(w)
  {
    var x := Uint64(w, Pow2(64) - 1);
    forall i | 0 <= i < w
      ensures Bit(x, i) == Bit(Ones(w), i)
    {
      MaskBits(64, i);
    }
    BitsDetermineValue(x, Ones(w), w);
  }
}
