/**
  The `round_up` macro of utils.h on unsigned values of any width of `w` bits, where `x` and
  `y` have the same type and are not narrower than `int` (no promotion).
 */
module Rounding {
  import opened Arithmetic

  function Pow2(k: nat): (p: nat)
    ensures p > 0
  {
    if k == 0 then 1 else 2 * Pow2(k - 1)
  }

  /** Bitwise or, least significant bit first. */
  function BitOr(a: nat, b: nat): nat
    decreases a + b
  {
    if a == 0 && b == 0 then 0
    else 2 * BitOr(a / 2, b / 2) + if a % 2 == 1 || b % 2 == 1 then 1 else 0
  }

  /** Subtraction of one and addition of one wrap around, as unsigned arithmetic does. */
  function Decrement(w: nat, x: nat): nat {
    if x == 0 then Pow2(w) - 1 else x - 1
  }

  function Increment(w: nat, x: nat): nat {
    if x + 1 == Pow2(w) then 0 else x + 1
  }

  /** `((x - 1) | (y - 1)) + 1` */
  function RoundUp(w: nat, x: nat, y: nat): nat {
    Increment(w, BitOr(Decrement(w, x), Decrement(w, y)))
  }

  ghost predicate IsLeastMultiple(r: nat, y: nat, x: nat)
    requires y > 0
  {
    r % y == 0 && x <= r && forall z: nat :: z % y == 0 && x <= z ==> r <= z
  }

  lemma {:induction false} BitOrZero(a: nat)
    ensures BitOr(a, 0) == a
    decreases a
  {
    if a == 0 {
    } else {
      BitOrZero(a / 2);
    }
  }

  lemma {:induction false} Pow2Monotone(j: nat, k: nat)
    requires j <= k
    ensures Pow2(j) <= Pow2(k) && Pow2(k) % Pow2(j) == 0
    decreases k
  {
    if j == k {
      MultipleMod(1, Pow2(j));
    } else {
      Pow2Monotone(j, k - 1);
      var q := Pow2(k - 1) / Pow2(j);
      DivMod(Pow2(k - 1), Pow2(j));
      Distribute(q, -q, Pow2(j));
      MultipleMod(2 * q, Pow2(j));
    }
  }

  /** Or-ing with `2^k - 1` sets the low `k` bits and keeps the others. */
  lemma {:induction false} OrMask(a: nat, k: nat)
    ensures BitOr(a, Pow2(k) - 1) == a / Pow2(k) * Pow2(k) + Pow2(k) - 1
    decreases k
  {
    if k == 0 {
      BitOrZero(a);
    } else {
      OrMask(a / 2, k - 1);
      var p := Pow2(k - 1);
      assert (Pow2(k) - 1) / 2 == p - 1 && (Pow2(k) - 1) % 2 == 1;
      DivDiv(a, 2, p);
      var q := a / 2 / p;
      assert BitOr(a, Pow2(k) - 1) == 2 * (q * p + p - 1) + 1;
      MulAssociative(q, p, 2);
      assert q * (2 * p) == 2 * (q * p);
    }
  }

  /** Every multiple from `x` on is at least the one just above `x - 1`. */
  lemma MultipleAbove(x: nat, y: nat, z: nat)
    requires x > 0 && y > 0 && z % y == 0 && x <= z
    ensures (x - 1) / y * y + y <= z
  {
    var q, t := (x - 1) / y, z / y;
    DivMod(x - 1, y);
    DivMod(z, y);
    if t <= q {
      MulMonotone(t, q, y);
    }
    MulMonotone(q + 1, t, y);
    Distribute(q, 1, y);
  }

  lemma LeastMultipleAbove(x: nat, y: nat)
    requires x > 0 && y > 0
    ensures (x - 1) / y * y + y >= 0 && IsLeastMultiple((x - 1) / y * y + y, y, x)
  {
    var q := (x - 1) / y;
    DivMod(x - 1, y);
    MultipleMod(q + 1, y);
    Distribute(q, 1, y);
    var r := q * y + y;
    assert r == (q + 1) * y;
    forall z: nat | z % y == 0 && x <= z
      ensures r <= z
    {
      MultipleAbove(x, y, z);
    }
  }

  /** Before the final increment the macro has computed one less than the least multiple. */
  lemma OrIsLeastMultiple(x: nat, k: nat)
    requires x > 0
    ensures IsLeastMultiple(BitOr(x - 1, Pow2(k) - 1) + 1, Pow2(k), x)
  {
    OrMask(x - 1, k);
    LeastMultipleAbove(x, Pow2(k));
  }

  lemma LeastMultipleUnique(r: nat, r': nat, y: nat, x: nat)
    requires y > 0 && IsLeastMultiple(r, y, x) && IsLeastMultiple(r', y, x)
    ensures r == r'
  {
  }

  /** The largest multiple of `y` in a range of `m` values. */
  lemma LastMultiple(m: nat, y: nat)
    requires 0 < y <= m && m % y == 0
    ensures (m - y) % y == 0
    ensures forall z: nat :: z % y == 0 && z < m ==> z <= m - y
  {
    var t := m / y;
    DivMod(m, y);
    Distribute(t, 1, y);
    MultipleMod(t - 1, y);
    forall z: nat | z % y == 0 && z < m
      ensures z <= m - y
    {
      MultipleAbove(z + 1, y, m);
      DivMod(z, y);
    }
  }

  /** For every width and every power of two that it can hold, `round_up` is the least
      multiple of `y` that is at least `x` exactly when that multiple still fits the width;
      for the other `x` the result wraps to 0.  `x == 0`, where `x - 1` wraps, is included. */
  lemma RoundUpIff(w: nat, k: nat, x: nat)
    requires k < w && x < Pow2(w)
    ensures IsLeastMultiple(RoundUp(w, x, Pow2(k)), Pow2(k), x) <==> x <= Pow2(w) - Pow2(k)
    ensures x > Pow2(w) - Pow2(k) ==> RoundUp(w, x, Pow2(k)) == 0
  {
    var y, m := Pow2(k), Pow2(w);
    Pow2Monotone(k, w);
    LastMultiple(m, y);
    if x == 0 {
      OrIsLeastMultiple(m, k);
      LeastMultipleUnique(BitOr(m - 1, y - 1) + 1, m, y, m);
      MultipleMod(0, y);
    } else {
      var r := BitOr(x - 1, y - 1) + 1;
      OrIsLeastMultiple(x, k);
      if x <= m - y {
        assert r <= m - y;
      } else {
        assert r <= m;
        assert r == m;
      }
    }
  }

  /** Rounding a rounded value changes nothing, wrapped or not. */
  lemma RoundUpIdempotent(w: nat, k: nat, x: nat)
    requires k < w && x < Pow2(w)
    ensures RoundUp(w, RoundUp(w, x, Pow2(k)), Pow2(k)) == RoundUp(w, x, Pow2(k))
  {
    var y, m := Pow2(k), Pow2(w);
    var r := RoundUp(w, x, y);
    RoundUpIff(w, k, x);
    Pow2Monotone(k, w);
    LastMultiple(m, y);
    MultipleMod(0, y);
    assert r <= m - y;
    RoundUpIff(w, k, r);
  }

  /** The order of two values is kept except where only the larger one wraps and the smaller
      one is not 0. */
  lemma RoundUpMonotoneIff(w: nat, k: nat, x: nat, x': nat)
    requires k < w && x <= x' < Pow2(w)
    ensures RoundUp(w, x, Pow2(k)) <= RoundUp(w, x', Pow2(k))
            <==> x == 0 || x > Pow2(w) - Pow2(k) || x' <= Pow2(w) - Pow2(k)
  {
    Pow2Monotone(k, w);
    RoundUpIff(w, k, x);
    RoundUpIff(w, k, x');
    MultipleMod(0, Pow2(k));
  }

  /** For `y == 0` the mask is all ones, and every value wraps to 0. */
  lemma RoundUpToZero(w: nat, x: nat)
    requires x < Pow2(w)
    ensures RoundUp(w, x, 0) == 0
  {
    OrMask(Decrement(w, x), w);
    DivUnique(Decrement(w, x), Pow2(w), 0, Decrement(w, x));
  }

  // ----- which `y` will do

  ghost predicate IsPow2(y: nat) {
    exists k: nat :: Pow2(k) == y
  }

  lemma {:induction false} BitOrSelf(a: nat)
    ensures BitOr(a, a) == a
    decreases a
  {
    if a == 0 {
    } else {
      BitOrSelf(a / 2);
    }
  }

  /** `y` and `y - 1` have no bit in common exactly for powers of two. */
  lemma {:induction false} OrPredecessor(y: nat)
    requires y > 0 && BitOr(y, y - 1) == 2 * y - 1
    ensures IsPow2(y)
    decreases y
  {
    if y % 2 == 1 {
      assert y / 2 == (y - 1) / 2;
      BitOrSelf(y / 2);
      assert Pow2(0) == 1;
    } else {
      assert (y - 1) / 2 == y / 2 - 1;
      OrPredecessor(y / 2);
      var k: nat :| Pow2(k) == y / 2;
      assert Pow2(k + 1) == y;
    }
  }

  lemma NoPow2Between(w: nat, v: nat)
    requires w > 0 && Pow2(w - 1) < v < Pow2(w)
    ensures !IsPow2(v)
  {
    if k: nat :| Pow2(k) == v {
      if k < w {
        Pow2Monotone(k, w - 1);
      } else {
        Pow2Monotone(w, k);
      }
    }
  }

  lemma {:induction false} OrAllOnes(w: nat, b: nat)
    requires b < Pow2(w)
    ensures BitOr(Pow2(w) - 1, b) == Pow2(w) - 1
  {
    if w == 0 {
    } else {
      assert (Pow2(w) - 1) / 2 == Pow2(w - 1) - 1 && (Pow2(w) - 1) % 2 == 1;
      OrAllOnes(w - 1, b / 2);
    }
  }

  lemma {:induction false} OrComplement(w: nat, h: nat)
    requires h < Pow2(w)
    ensures BitOr(h, Pow2(w) - 1 - h) == Pow2(w) - 1
  {
    if w == 0 {
    } else {
      assert (Pow2(w) - 1 - h) / 2 == Pow2(w - 1) - 1 - h / 2;
      OrComplement(w - 1, h / 2);
    }
  }

  lemma OrOdd(a: nat, b: nat)
    ensures BitOr(a, 2 * b + 1) == 2 * BitOr(a / 2, b) + 1
  {
  }

  lemma {:induction false} BitOrSymmetric(a: nat, b: nat)
    ensures BitOr(a, b) == BitOr(b, a)
    decreases a + b
  {
    if a == 0 && b == 0 {
    } else {
      BitOrSymmetric(a / 2, b / 2);
    }
  }

  /** All bits but bit `j` are set in `2^w - 1 - 2^j`; or-ing what lies below bit `j` adds none. */
  lemma {:induction false} OrBelowGap(w: nat, j: nat, z: nat)
    requires j < w && z < Pow2(j)
    ensures Pow2(w) - 1 - Pow2(j) >= 0
    ensures BitOr(z, Pow2(w) - 1 - Pow2(j)) == Pow2(w) - 1 - Pow2(j)
    decreases j
  {
    if j == 0 {
      var b := Pow2(w) - 2;
      BitOrZero(b);
      BitOrSymmetric(z, b);
    } else {
      OrBelowGap(w - 1, j - 1, z / 2);
      OrOdd(z, Pow2(w - 1) - 1 - Pow2(j - 1));
    }
  }

  /** Or-ing `d - 1` into `2^w - 1 - d` adds a bit unless `d` is a power of two. */
  lemma {:induction false} OrOfGap(w: nat, d: nat)
    requires 0 < d < Pow2(w) && BitOr(d - 1, Pow2(w) - 1 - d) == Pow2(w) - 1 - d
    ensures IsPow2(d)
    decreases w
  {
    var b := Pow2(w) - 1 - d;
    if d % 2 == 0 {
      assert (d - 1) / 2 == d / 2 - 1 && b / 2 == Pow2(w - 1) - 1 - d / 2 && b % 2 == 1;
      OrOfGap(w - 1, d / 2);
      var k: nat :| Pow2(k) == d / 2;
      assert Pow2(k + 1) == d;
    } else {
      OrComplement(w - 1, d / 2);
      assert (d - 1) / 2 == d / 2 && b / 2 == Pow2(w - 1) - 1 - d / 2;
      assert d == 1 == Pow2(0);
    }
  }

  /** The macro rounds every `x` with room. */
  ghost predicate RoundsAll(w: nat, y: nat)
    requires 0 < y < Pow2(w)
  {
    forall x: nat :: x <= Pow2(w) - y ==> IsLeastMultiple(RoundUp(w, x, y), y, x)
  }

  lemma PowersRoundAll(w: nat, y: nat)
    requires 0 < y < Pow2(w) && IsPow2(y)
    ensures RoundsAll(w, y)
  {
    var k: nat :| Pow2(k) == y;
    if k >= w {
      Pow2Monotone(w, k);
    }
    forall x: nat | x <= Pow2(w) - y
      ensures IsLeastMultiple(RoundUp(w, x, y), y, x)
    {
      RoundUpIff(w, k, x);
    }
  }

  lemma NoMultipleBetween(z: nat, y: nat)
    requires 0 < y < z <= 2 * y && z % y == 0
    ensures z == 2 * y
  {
  }

  /** Below half the range `y + 1` tells. */
  lemma SmallRoundsAll(w: nat, y: nat)
    requires 0 < y && 2 * y < Pow2(w) && RoundsAll(w, y)
    ensures IsPow2(y)
  {
    MultipleMod(2, y);
    var r := RoundUp(w, y + 1, y);
    assert IsLeastMultiple(r, y, y + 1);
    NoMultipleBetween(r, y);
    OrPredecessor(y);
  }

  /** From half the range on `y` itself is the least multiple of every `x > 0` with room. */
  lemma LeastIsSelf(r: nat, y: nat, x: nat)
    requires 0 < x <= y
    ensures IsLeastMultiple(r, y, x) <==> r == y
  {
    MultipleMod(1, y);
    if IsLeastMultiple(r, y, x) {
      LeastMultipleUnique(r, y, y, x);
    }
  }

  lemma LargeRounds(w: nat, y: nat, j: nat, x: nat)
    requires j < w && y == Pow2(w) - Pow2(j) && Pow2(w) <= 2 * y && x <= Pow2(j)
    ensures IsLeastMultiple(RoundUp(w, x, y), y, x)
  {
    if x == 0 {
      OrAllOnes(w, y - 1);
      MultipleMod(0, y);
    } else {
      OrBelowGap(w, j, x - 1);
      LeastIsSelf(y, y, x);
    }
  }

  lemma LargeRoundsAllIff(w: nat, y: nat)
    requires Pow2(w) <= 2 * y && y < Pow2(w)
    ensures RoundsAll(w, y) <==> IsPow2(Pow2(w) - y)
  {
    var d := Pow2(w) - y;
    if RoundsAll(w, y) {
      assert IsLeastMultiple(RoundUp(w, d, y), y, d);
      LeastIsSelf(RoundUp(w, d, y), y, d);
      OrOfGap(w, d);
    } else if j: nat :| Pow2(j) == d {
      if j >= w {
        Pow2Monotone(w, j);
      }
      forall x: nat | x <= d
        ensures IsLeastMultiple(RoundUp(w, x, y), y, x)
      {
        LargeRounds(w, y, j, x);
      }
    }
  }

  /** The macro rounds every `x` that leaves room for a multiple exactly when `y` or its
      distance from the end of the range is a power of two. */
  lemma RoundUpNeedsPow2(w: nat, y: nat)
    requires 0 < y < Pow2(w)
    ensures (forall x: nat :: x <= Pow2(w) - y ==> IsLeastMultiple(RoundUp(w, x, y), y, x))
            <==> IsPow2(y) || IsPow2(Pow2(w) - y)
  {
    assert RoundsAll(w, y) <==> forall x: nat :: x <= Pow2(w) - y ==> IsLeastMultiple(RoundUp(w, x, y), y, x);
    if IsPow2(y) {
      PowersRoundAll(w, y);
    } else if 2 * y < Pow2(w) {
      NoPow2Between(w, Pow2(w) - y);
      if RoundsAll(w, y) {
        SmallRoundsAll(w, y);
      }
    } else {
      LargeRoundsAllIff(w, y);
    }
  }
}
