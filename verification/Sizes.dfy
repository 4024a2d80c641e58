/**
  `calculate_size` of scsi_print.c: a 64-bit byte count is shown as a whole number of a unit.
 */
module Sizes {
  import opened Arithmetic
  import opened Numerals
  import opened CNumbers

  const KB_SIZE := 1024
  const UNITS := ["B", "KiB", "MiB", "GiB", "TiB"]
  const DOUBLE_EXACT := 0x20_0000_0000_0000  // 2^53

  type u64 = n: int | 0 <= n < 0x1_0000_0000_0000_0000

  // ----- the conversion to double

  /** The distance between the doubles around `n`. */
  function Ulp(n: nat): (unit: nat)
    ensures unit > 0
  {
    if n < DOUBLE_EXACT then 1 else 2 * Ulp(n / 2)
  }

  /** Conversion to double: to the nearest multiple of the distance, ties to the even one. */
  function ToDouble(n: nat): nat {
    var unit := Ulp(n);
    var q, r := n / unit, n % unit;
    MulNonNegative(q, unit);
    MulNonNegative(q + 1, unit);
    if 2 * r < unit || (2 * r == unit && q % 2 == 0) then q * unit else (q + 1) * unit
  }

  /** The doubles around `n` have 53 bits. */
  lemma {:induction false} UlpBounds(n: nat)
    ensures n < 0x20_0000_0000_0000 * Ulp(n)
    ensures Ulp(n) == 1 || 0x10_0000_0000_0000 * Ulp(n) <= n
    decreases n
  {
    if n >= DOUBLE_EXACT {
      UlpBounds(n / 2);
    }
  }

  function Distance(a: nat, b: nat): nat {
    if a < b then b - a else a - b
  }

  lemma NoMultipleBetween(q: nat, unit: nat, near: nat)
    requires unit > 0 && near % unit == 0
    ensures near <= q * unit || q * unit + unit <= near
  {
    var t := near / unit;
    DivMod(near, unit);
    Distribute(q, 1, unit);
    if t <= q {
      MulMonotone(t, q, unit);
    } else {
      MulMonotone(q + 1, t, unit);
    }
  }

  lemma NearestOfTwo(n: nat, unit: nat, low: nat, even: bool, near: nat, d: nat)
    requires low <= n < low + unit && (near <= low || low + unit <= near)
    requires d == if 2 * (n - low) < unit || (2 * (n - low) == unit && even) then low else low + unit
    ensures Distance(n, d) <= Distance(n, near)
    ensures near != d && Distance(n, near) == Distance(n, d) ==> if even then d == low else d == low + unit
  {
  }

  lemma DoubleIsOneOfTwo(n: nat) returns (q: nat, low: nat)
    ensures low == q * Ulp(n) && low <= n < low + Ulp(n)
    ensures var r := n - low;
            ToDouble(n) == if 2 * r < Ulp(n) || (2 * r == Ulp(n) && q % 2 == 0) then low else low + Ulp(n)
  {
    q := n / Ulp(n);
    low := q * Ulp(n);
    DivMod(n, Ulp(n));
    Distribute(q, 1, Ulp(n));
  }

  lemma EitherMultiple(q: nat, unit: nat, d: nat)
    requires unit > 0 && (d == q * unit || d == q * unit + unit)
    ensures d % unit == 0 && d / unit == if d == q * unit then q else q + 1
  {
    MultipleMod(q, unit);
    MultipleMod(q + 1, unit);
    Distribute(q, 1, unit);
  }

  lemma RoundedToNearest(n: nat, unit: nat, q: nat, near: nat, d: nat)
    requires unit > 0 && q * unit <= n < q * unit + unit && near % unit == 0
    requires var r := n - q * unit;
             d == if 2 * r < unit || (2 * r == unit && q % 2 == 0) then q * unit else q * unit + unit
    ensures d % unit == 0 && Distance(n, d) <= Distance(n, near)
    ensures near != d && Distance(n, near) == Distance(n, d) ==> d / unit % 2 == 0
  {
    NoMultipleBetween(q, unit, near);
    NearestOfTwo(n, unit, q * unit, q % 2 == 0, near, d);
    EitherMultiple(q, unit, d);
  }

  /** The double is a multiple of the distance, none is nearer to `n`, and if another one is equally
      near, the double is the even one. */
  lemma DoubleIsNearest(n: nat, near: nat)
    requires near % Ulp(n) == 0
    ensures ToDouble(n) % Ulp(n) == 0 && Distance(n, ToDouble(n)) <= Distance(n, near)
    ensures near != ToDouble(n) && Distance(n, near) == Distance(n, ToDouble(n)) ==>
              ToDouble(n) / Ulp(n) % 2 == 0
  {
    var q, low := DoubleIsOneOfTwo(n);
    RoundedToNearest(n, Ulp(n), q, near, ToDouble(n));
  }

  lemma SmallIsExact(n: nat)
    requires n < DOUBLE_EXACT
    ensures ToDouble(n) == n
  {
  }

  /** The first division leaves a value that is not exact as a double exactly for the sizes from
      2^63 on whose number of whole KiB is odd. */
  lemma RoundedOnTheWayIff(size: u64)
    ensures ToDouble(size / KB_SIZE) != size / KB_SIZE
            <==> size >= 0x8000_0000_0000_0000 && size / KB_SIZE % 2 == 1
  {
    var n := size / KB_SIZE;
    if n < DOUBLE_EXACT {
      SmallIsExact(n);
    } else {
      assert n / 2 < DOUBLE_EXACT && Ulp(n / 2) == 1 && Ulp(n) == 2;
    }
  }

  /** There are such sizes. */
  lemma LargeMayBeRounded()
    ensures exists size: u64 :: ToDouble(size / KB_SIZE) != size / KB_SIZE
  {
    var size: u64 := (DOUBLE_EXACT + 1) * KB_SIZE;
    RoundedOnTheWayIff(size);
  }

  // ----- what is displayed

  function UnitSize(i: nat): nat
    requires i < 5
  {
    [1, 1024, 1048576, 1073741824, 1099511627776][i]
  }

  /** The unit that a size is shown in: bytes up to 1024 inclusive, then the largest unit
      of which there is at least one. */
  function UnitOf(size: u64): (i: nat)
    ensures i < 5
  {
    if size <= UnitSize(1) then 0
    else if size < UnitSize(2) then 1
    else if size < UnitSize(3) then 2
    else if size < UnitSize(4) then 3
    else 4
  }

  function ValueOf(size: u64): nat {
    size / UnitSize(UnitOf(size))
  }

  function SizeText(size: u64): string {
    Digits(ValueOf(size), 10) + " " + UNITS[UnitOf(size)]
  }

  /** The number of whole units, for 64-bit sizes less than 2^24.  Below the largest unit it
      reaches 1024 exactly for the size 1024, which is shown in bytes. */
  lemma ValueBounds(size: u64)
    ensures var i, v := UnitOf(size), ValueOf(size);
            && v * UnitSize(i) <= size < (v + 1) * UnitSize(i)
            && v < 0x100_0000
            && (v >= 1024 && i < 4 <==> size == 1024)
            && (size > 0 ==> v > 0)
  {
  }

  /** The loop divides step by step; the result is one division by the unit. */
  lemma NextUnit(size: u64, i: nat)
    requires i < 4
    ensures size / UnitSize(i) / KB_SIZE == size / UnitSize(i + 1)
  {
  }

  /** After `i` divisions another unit fits exactly while the size reaches it. */
  lemma AnotherUnitFits(size: u64, i: nat)
    requires i < 4
    ensures size / UnitSize(i) / KB_SIZE > 0 <==> size >= UnitSize(i + 1)
  {
  }

  /** From the second division on every value of the loop is exact as a double. */
  lemma LaterValuesExact(size: u64, i: nat)
    requires 2 <= i < 5
    ensures size / UnitSize(i) < 0x1000_0000_0000 && ToDouble(size / UnitSize(i)) == size / UnitSize(i)
  {
    SmallIsExact(size / UnitSize(i));
  }

  /** What one round of the loop finds and does. */
  lemma LoopStep(size: u64, i: nat, rest: nat)
    requires i < 4 && rest == size / UnitSize(i)
    ensures rest / KB_SIZE == size / UnitSize(i + 1)
    ensures rest / KB_SIZE > 0 <==> size >= UnitSize(i + 1)
  {
    AnotherUnitFits(size, i);
    NextUnit(size, i);
  }

  lemma TextFits(value: nat)
    requires value < 0x100_0000
    ensures |Digits(value, 10)| <= 8
  {
    assert Power(10, 4) == 10000;
    assert Power(10, 8) == 100000000;
    DigitsLength(value, 10, 8);
  }

  /** Where the loop stops the unit and the double are the ones to be shown. */
  lemma LoopEnd(size: u64, i: nat, rest: nat)
    requires i < 5 && rest == size / UnitSize(i)
    requires if size <= KB_SIZE then i == 0 else i > 0 && size >= UnitSize(i)
    requires size > KB_SIZE && i < 4 ==> rest / KB_SIZE == 0
    ensures i == UnitOf(size) && rest == ValueOf(size) && ToDouble(rest) == rest <= INT_MAX
    ensures |SizeText(size)| < 64
  {
    if size > KB_SIZE && i < 4 {
      LoopStep(size, i, rest);
    }
    ValueBounds(size);
    SmallIsExact(rest);
    TextFits(rest);
  }

  method CalculateSize(size: u64) returns (i: nat, value: nat, text: string)
    ensures i == UnitOf(size)
    ensures value == ValueOf(size) && value <= INT_MAX
    ensures value == if size <= 1024 then size else if size < 0x10_0000 then size / 1024
                     else if size < 0x4000_0000 then size / 0x10_0000
                     else if size < 0x100_0000_0000 then size / 0x4000_0000 else size / 0x100_0000_0000
    ensures text == SizeText(size) && |text| < 64
    ensures text == Digits(value, 10) + (if size <= 1024 then " B" else if size < 0x10_0000 then " KiB"
                                         else if size < 0x4000_0000 then " MiB"
                                         else if size < 0x100_0000_0000 then " GiB" else " TiB")
  {
    i := 0;
    var length := |UNITS|;
    var dblSize := ToDouble(size);
    var rest := size;
    if rest > KB_SIZE {
      LoopStep(size, 0, rest);
      while rest / KB_SIZE > 0 && i < length - 1
        invariant 0 <= i <= 4 && rest == size / UnitSize(i)
        invariant dblSize == ToDouble(rest) && size >= UnitSize(i)
        invariant i == 0 ==> rest / KB_SIZE > 0
        decreases 4 - i
      {
        LoopStep(size, i, rest);
        dblSize := ToDouble(rest / KB_SIZE);
        i := i + 1;
        rest := rest / KB_SIZE;
      }
    }
    LoopEnd(size, i, rest);
    value := dblSize;
    text := Digits(value, 10) + " " + UNITS[i];
  }

  // ----- what the display tells

  /** A larger size is never shown as less: in a smaller unit, or as fewer of the same unit. */
  lemma DisplayMonotone(size: u64, size': u64)
    requires size <= size'
    ensures UnitOf(size) < UnitOf(size') || (UnitOf(size) == UnitOf(size') && ValueOf(size) <= ValueOf(size'))
  {
  }

  lemma Regroup(digits: string, u: string)
    ensures digits + " " + u == digits + (" " + u)
  {
  }

  lemma ReadsAs(t: string, v: nat, rest: string)
    requires t == Digits(v, 10) + rest && EndsNumber(rest, 10)
    ensures ReadNumber(t, false) == Parsed(false, v, rest)
  {
    ReadDecimal(v, rest, false);
  }

  lemma BlankCancels(u: string, u': string)
    requires " " + u == " " + u'
    ensures u == u'
  {
    assert u == (" " + u)[1..] == (" " + u')[1..] == u';
  }

  lemma NumberThenUnit(v: nat, u: string, v': nat, u': string)
    requires Digits(v, 10) + " " + u == Digits(v', 10) + " " + u'
    ensures v == v' && u == u'
  {
    var t := Digits(v, 10) + " " + u;
    Regroup(Digits(v, 10), u);
    Regroup(Digits(v', 10), u');
    ReadsAs(t, v, " " + u);
    ReadsAs(t, v', " " + u');
    BlankCancels(u, u');
  }

  lemma UnitNamesDiffer(i: nat, j: nat)
    requires i < 5 && j < 5 && UNITS[i] == UNITS[j]
    ensures i == j
  {
  }

  /** The text determines unit and value, and so the size up to one unit. */
  lemma TextTells(size: u64, size': u64)
    requires SizeText(size) == SizeText(size')
    ensures UnitOf(size) == UnitOf(size') && ValueOf(size) == ValueOf(size')
    ensures size - size' < UnitSize(UnitOf(size)) && size' - size < UnitSize(UnitOf(size))
  {
    NumberThenUnit(ValueOf(size), UNITS[UnitOf(size)], ValueOf(size'), UNITS[UnitOf(size')]);
    UnitNamesDiffer(UnitOf(size), UnitOf(size'));
    ValueBounds(size);
    ValueBounds(size');
    Distribute(ValueOf(size), 1, UnitSize(UnitOf(size)));
  }
}
