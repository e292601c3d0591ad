/** Why the rounding interval is the right one: what lies in it reads back as the same double. */
module Readback {
  import opened Arith
  import opened Decimals
  import opened Scaling
  import DigitGen
  import opened Words
  import Dtoa
  import opened Doubles

  /** A finite double, subnormal or not: at most 53 bits of significand. */
  ghost predicate IsDouble(m: nat, e: int) { m < 0x20_0000_0000_0000 && e >= -1074 }

  /**
   * A decimal in the rounding interval is nearer to the double than to every other double; on the
   * closed ends as near.
   */
  lemma ReadsBack(m: nat, e: int, closed: bool, x: real, m': nat, e': int)
    requires Significand(m) && IsDouble(m, e) && IsDouble(m', e')
    requires Within(DoubleValue(m, e), HalfGapBelow(m, e), HalfGapAbove(m, e), closed, x)
    requires DoubleValue(m', e') != DoubleValue(m, e)
    ensures Decimals.Dist(x, DoubleValue(m, e)) <= Decimals.Dist(x, DoubleValue(m', e'))
    ensures !closed ==> Decimals.Dist(x, DoubleValue(m, e)) < Decimals.Dist(x, DoubleValue(m', e'))
  {
    hide RPow, DoubleValue;
    NeighbourGap(m, e, m', e');
    Units(m, e);
    RPowStep(2, e - 1);
    RPowStep(2, e - 2);
  }

  /**
   * A decimal outside it is nearer to a neighbour, except below the smallest normal double, whose
   * lower gap is not halved.
   */
  lemma ReadsElsewhere(m: nat, e: int, closed: bool, x: real) returns (m': nat, e': int)
    requires Significand(m) && IsDouble(m, e)
    requires !Within(DoubleValue(m, e), HalfGapBelow(m, e), HalfGapAbove(m, e), closed, x)
    requires x < DoubleValue(m, e) ==> m > 0x10_0000_0000_0000 || e > -1074
    ensures IsDouble(m', e') && DoubleValue(m', e') != DoubleValue(m, e)
    ensures Decimals.Dist(x, DoubleValue(m', e')) <= Decimals.Dist(x, DoubleValue(m, e))
    ensures closed ==> Decimals.Dist(x, DoubleValue(m', e')) < Decimals.Dist(x, DoubleValue(m, e))
  {
    GapUnits(m, e);
    hide RPow, HalfGapAbove, HalfGapBelow, DoubleValue;
    if x > DoubleValue(m, e) {
      m', e' := NextUp(m, e);
    } else {
      m', e' := NextDown(m, e);
    }
  }

  lemma NextUp(m: nat, e: int) returns (m': nat, e': int)
    requires Significand(m) && IsDouble(m, e)
    ensures IsDouble(m', e') && DoubleValue(m', e') == DoubleValue(m, e) + 2.0 * HalfGapAbove(m, e)
  {
    GapUnits(m, e);
    RPowStep(2, e);
    hide RPow, HalfGapAbove;
    if m < 0x1f_ffff_ffff_ffff {
      m', e' := m + 1, e;
    } else {
      m', e' := 0x10_0000_0000_0000, e + 1;
    }
  }

  lemma NextDown(m: nat, e: int) returns (m': nat, e': int)
    requires Significand(m) && IsDouble(m, e) && (m > 0x10_0000_0000_0000 || e > -1074)
    ensures IsDouble(m', e') && DoubleValue(m', e') == DoubleValue(m, e) - 2.0 * HalfGapBelow(m, e)
  {
    GapUnits(m, e);
    hide RPow, HalfGapBelow;
    if m > 0x10_0000_0000_0000 {
      m', e' := m - 1, e;
    } else {
      m', e' := 0x1f_ffff_ffff_ffff, e - 1;
    }
  }

  /** x reads back as the double: it is nearest, and a tie is settled by its even significand. */
  ghost predicate ReadsAs(x: real, m: nat, e: int) {
    forall m': nat, e': int :: IsDouble(m', e') ==> Prefers(x, m, e, m', e')
  }

  ghost predicate Prefers(x: real, m: nat, e: int, m': nat, e': int) {
    var d, d' := DoubleValue(m, e), DoubleValue(m', e');
    d' == d || Decimals.Dist(x, d) < Decimals.Dist(x, d') || (Decimals.Dist(x, d) == Decimals.Dist(x, d') && m % 2 == 0)
  }

  ghost predicate IsSmallest(m: nat, e: int) { m == 0x10_0000_0000_0000 && e == -1074 }

  /** Half the distance to the next double down: at the smallest normal double it is not halved again. */
  ghost function TrueGapBelow(m: nat, e: int): real {
    if IsSmallest(m, e) then HalfGapAbove(m, e) else HalfGapBelow(m, e)
  }

  /** The interval between the middles, closed for an even significand, is exactly what reads back. */
  lemma IntervalReadsBack(m: nat, e: int, x: real)
    requires Significand(m) && IsDouble(m, e)
    ensures ReadsAs(x, m, e) <==> Within(DoubleValue(m, e), TrueGapBelow(m, e), HalfGapAbove(m, e), m % 2 == 0, x)
  {
    hide RPow, DoubleValue, HalfGapBelow, HalfGapAbove, Within, ReadsAs, Prefers;
    if IsSmallest(m, e) {
      SmallestReadsBack(x);
    } else if Within(DoubleValue(m, e), HalfGapBelow(m, e), HalfGapAbove(m, e), m % 2 == 0, x) {
      InsideReadsBack(m, e, x);
    } else {
      OutsideReadsElsewhere(m, e, x);
    }
  }

  lemma OutsideReadsElsewhere(m: nat, e: int, x: real)
    requires Significand(m) && IsDouble(m, e) && !IsSmallest(m, e)
    requires !Within(DoubleValue(m, e), HalfGapBelow(m, e), HalfGapAbove(m, e), m % 2 == 0, x)
    ensures !ReadsAs(x, m, e)
  {
    hide RPow, DoubleValue, HalfGapBelow, HalfGapAbove, Within;
    var m', e' := ReadsElsewhere(m, e, m % 2 == 0, x);
    assert !Prefers(x, m, e, m', e');
  }

  /** The interval the code works with is what reads back, unless the double is the smallest normal one. */
  lemma HalvedGapReadsBack(m: nat, e: int)
    requires Significand(m) && IsDouble(m, e)
    ensures !IsSmallest(m, e) <==>
              forall x: real :: ReadsAs(x, m, e)
                <==> Within(DoubleValue(m, e), HalfGapBelow(m, e), HalfGapAbove(m, e), m % 2 == 0, x)
  {
    hide RPow, DoubleValue, HalfGapBelow, HalfGapAbove, Within, ReadsAs;
    if IsSmallest(m, e) {
      var x := HalvedTooFar();
    } else {
      forall x: real
        ensures ReadsAs(x, m, e) <==> Within(DoubleValue(m, e), HalfGapBelow(m, e), HalfGapAbove(m, e), m % 2 == 0, x)
      {
        IntervalReadsBack(m, e, x);
      }
    }
  }

  /** Three eighths of a gap below the smallest normal double: it reads back, but the code's interval is without it. */
  lemma HalvedTooFar() returns (x: real)
    ensures var m, e := 0x10_0000_0000_0000, -1074;
      && x == DoubleValue(m, e) - 0.375 * RPow(2, e) && ReadsAs(x, m, e)
      && !Within(DoubleValue(m, e), HalfGapBelow(m, e), HalfGapAbove(m, e), m % 2 == 0, x)
  {
    GapUnits(0x10_0000_0000_0000, -1074);
    hide RPow, DoubleValue, HalfGapBelow, HalfGapAbove, ReadsAs;
    x := DoubleValue(0x10_0000_0000_0000, -1074) - 0.375 * RPow(2, -1074);
    SmallestReadsBack(x);
  }

  /** The neighbours of the smallest normal double are equally far. */
  lemma SmallestReadsBack(x: real)
    ensures var m, e := 0x10_0000_0000_0000, -1074;
      ReadsAs(x, m, e) <==> Within(DoubleValue(m, e), HalfGapAbove(m, e), HalfGapAbove(m, e), true, x)
  {
    var m, e := 0x10_0000_0000_0000, -1074;
    GapUnits(m, e);
    hide RPow, DoubleValue, HalfGapAbove, HalfGapBelow;
    if Within(DoubleValue(m, e), HalfGapAbove(m, e), HalfGapAbove(m, e), true, x) {
      forall m': nat, e': int | IsDouble(m', e') ensures Prefers(x, m, e, m', e') {
        SameGrid(m', e', e);
        hide Mul, Pow;
        GridGap(Mul(m', Pow(2, e' - e)), m, RPow(2, e), DoubleValue(m', e'), DoubleValue(m, e));
      }
    } else {
      SmallestElsewhere(x);
    }
  }

  lemma SmallestElsewhere(x: real)
    requires var m, e := 0x10_0000_0000_0000, -1074;
      !Within(DoubleValue(m, e), HalfGapAbove(m, e), HalfGapAbove(m, e), true, x)
    ensures !ReadsAs(x, 0x10_0000_0000_0000, -1074)
  {
    GapUnits(0x10_0000_0000_0000, -1074);
    hide RPow;
    assert DoubleValue(0x10_0000_0000_0001, -1074) == DoubleValue(0x10_0000_0000_0000, -1074) + RPow(2, -1074);
    assert DoubleValue(0xf_ffff_ffff_ffff, -1074) == DoubleValue(0x10_0000_0000_0000, -1074) - RPow(2, -1074);
    hide DoubleValue, HalfGapAbove, HalfGapBelow;
    if x > DoubleValue(0x10_0000_0000_0000, -1074) {
      assert !Prefers(x, 0x10_0000_0000_0000, -1074, 0x10_0000_0000_0001, -1074);
    } else {
      assert !Prefers(x, 0x10_0000_0000_0000, -1074, 0xf_ffff_ffff_ffff, -1074);
    }
  }

  /** Above and below the smallest normal double the gaps are equal, but no 16 digits lie even in the wider interval. */
  lemma SmallestNormal()
    ensures NoneOfLength(DoubleValue(0x10_0000_0000_0000, -1074), RPow(2, -1075), RPow(2, -1075), true, 16)
  {
    var d, u := DoubleValue(0x10_0000_0000_0000, -1074), RPow(2, -1075);
    RPowStep(2, -1075);
    Sixteen();
    SmallestBounds();
    hide Pow, RPow, Dec, DoubleValue;
    assert d == 9007199254740992.0 * u by { DoubleIs(); }
    DigitGen.NoneShorter(d, u, u, true, 16, 2225073858507201, -323);
  }

  lemma DoubleIs()
    ensures DoubleValue(0x10_0000_0000_0000, -1074) == 9007199254740992.0 * RPow(2, -1075)
  {
    hide RPow;
    RPowStep(2, -1075);
  }

  lemma Sixteen()
    ensures Pow(10, 15) == 1000000000000000
  {
    assert Pow(10, 5) == 100000;
    PowAdd(10, 5, 5);
    PowAdd(10, 5, 10);
  }

  lemma SmallestBounds()
    ensures Dec(2225073858507201, -323) < 9007199254740991.0 * RPow(2, -1075)
    ensures Dec(2225073858507202, -323) > 9007199254740993.0 * RPow(2, -1075)
  {
    hide Pow;
    assert RPow(10, -323) == 1.0 / (Pow(10, 323) as real) && RPow(2, -1075) == 1.0 / (Pow(2, 1075) as real);
    hide RPow;
    SmallestIntegers();
    PowMul(5, 2, 323);
    PowAdd(2, 323, 752);
    var f, t, w := Pow(5, 323), Pow(2, 323), Pow(2, 752);
    IntProduct(f, t);
    IntProduct(t, w);
    Cross(2225073858507201, 9007199254740991, f, t, w);
    Cross(2225073858507202, 9007199254740993, f, t, w);
  }

  /** a / (f * t) < m / (t * w) is a * w < m * f. */
  lemma Cross(a: nat, m: nat, f: nat, t: nat, w: nat)
    requires f > 0 && t > 0 && w > 0
    ensures (f as real) * (t as real) > 0.0 && (t as real) * (w as real) > 0.0
    ensures a * w < m * f ==>
              (a as real) * (1.0 / ((f as real) * (t as real))) < (m as real) * (1.0 / ((t as real) * (w as real)))
    ensures a * w > m * f ==>
              (a as real) * (1.0 / ((f as real) * (t as real))) > (m as real) * (1.0 / ((t as real) * (w as real)))
  {
    var F, T, W := f as real, t as real, w as real;
    assert F * T > 0.0 && T * W > 0.0 && F * T * W > 0.0;
    var p, q := 1.0 / (F * T), 1.0 / (T * W);
    assert p * (F * T) == 1.0 && q * (T * W) == 1.0;
    CrossOver(a as real, m as real, F, T, W, p, q);
    IntProduct(a, w);
    IntProduct(m, f);
    RMulLess((a as real) * p, (m as real) * q, F * T * W);
    RMulLess((m as real) * q, (a as real) * p, F * T * W);
  }

  lemma CrossOver(a: real, m: real, f: real, t: real, w: real, p: real, q: real)
    requires p * (f * t) == 1.0 && q * (t * w) == 1.0
    ensures (a * p) * (f * t * w) == a * w && (m * q) * (f * t * w) == m * f
  {
    assert (a * p) * (f * t * w) == a * w * (p * (f * t));
    assert (m * q) * (f * t * w) == m * f * (q * (t * w));
  }

  /** Integer bounds on a power of 5, in units of a power of 2. */
  ghost predicate Bounded5(n: nat, l: nat, h: nat, s: nat) {
    l * Pow(2, s) <= Pow(5, n) <= h * Pow(2, s)
  }

  lemma Square5(n: nat, l: nat, h: nat, s: nat, l': nat, h': nat)
    requires Bounded5(n, l, h, s)
    requires l' * 0x1_0000_0000_0000_0000_0000_0000 <= l * l && h * h <= h' * 0x1_0000_0000_0000_0000_0000_0000
    ensures Bounded5(2 * n, l', h', 2 * s + 96)
  {
    Pow96();
    PowAdd(5, n, n);
    PowAdd(2, s, s);
    PowAdd(2, 2 * s, 96);
    hide Pow;
    var p, t := Pow(2, s), Pow(5, n);
    SquareBounds(l, l', p, t, h, h');
  }

  lemma SquareBounds(l: nat, l': nat, p: nat, t: nat, h: nat, h': nat)
    requires l * p <= t <= h * p
    requires l' * 0x1_0000_0000_0000_0000_0000_0000 <= l * l && h * h <= h' * 0x1_0000_0000_0000_0000_0000_0000
    ensures l' * (p * p * 0x1_0000_0000_0000_0000_0000_0000) <= t * t
    ensures t * t <= h' * (p * p * 0x1_0000_0000_0000_0000_0000_0000)
  {
    SquareMono(l * p, t);
    SquareMono(t, h * p);
    MulSwap(l, p, l, p);
    MulSwap(h, p, h, p);
    MulMono(l' * 0x1_0000_0000_0000_0000_0000_0000, l * l, p * p);
    MulMono(h * h, h' * 0x1_0000_0000_0000_0000_0000_0000, p * p);
  }

  lemma SquareMono(x: nat, y: nat)
    requires x <= y
    ensures x * x <= y * y
  {
    MulMono(x, y, x);
    MulMono(x, y, y);
  }

  lemma Pow96()
    ensures Pow(2, 96) == 0x1_0000_0000_0000_0000_0000_0000 && Pow(2, 80) == 0x1_0000_0000_0000_0000_0000
  {
    assert Pow(2, 4) == 16;
    hide Pow;
    Doubled(2, 4, 16);
    Doubled(2, 8, 0x100);
    Doubled(2, 16, 0x1_0000);
    Doubled(2, 32, 0x1_0000_0000);
    PowAdd(2, 64, 16);
    PowAdd(2, 64, 32);
  }

  lemma Doubled(b: nat, n: nat, v: nat)
    requires Pow(b, n) == v
    ensures Pow(b, 2 * n) == v * v
  {
    PowAdd(b, n, n);
  }

  lemma Five40()
    ensures Pow(5, 40) == 9094947017729282379150390625
  {
    assert Pow(5, 5) == 3125;
    hide Pow;
    Doubled(5, 5, 3125);
    Doubled(5, 10, 9765625);
    Doubled(5, 20, 95367431640625);
  }

  lemma SmallestIntegers()
    ensures 2225073858507201 * Pow(2, 752) < 9007199254740991 * Pow(5, 323)
    ensures 2225073858507202 * Pow(2, 752) > 9007199254740993 * Pow(5, 323)
  {
    assert Pow(5, 3) == 125;
    hide Pow;
    Five320();
    Pow96();
    PowAdd(5, 320, 3);
    PowAdd(2, 672, 80);
    Compare5(Pow(2, 672), Pow(5, 320));
  }

  lemma Five320()
    ensures Bounded5(320, 2389154863368240330214, 2389154863368240330215, 672)
  {
    assert Pow(2, 0) == 1;
    hide Pow;
    Five40();
    Pow96();
    var v := 9094947017729282379150390625;
    Square5(40, v, v, 0, 1044048714879763924273647057, 1044048714879763924273647058);
    Square5(80, 1044048714879763924273647057, 1044048714879763924273647058, 96,
      13758210268297397763667897, 13758210268297397763667898);
    Square5(160, 13758210268297397763667897, 13758210268297397763667898, 288,
      2389154863368240330214, 2389154863368240330215);
  }

  lemma Compare5(p: nat, t: nat)
    requires p > 0 && 2389154863368240330214 * p <= t <= 2389154863368240330215 * p
    ensures 2225073858507201 * (p * 0x1_0000_0000_0000_0000_0000) < 9007199254740991 * (t * 125)
    ensures 2225073858507202 * (p * 0x1_0000_0000_0000_0000_0000) > 9007199254740993 * (t * 125)
  {
  }

  /** The header's promise for mode 0: the digits read back as the double, and no fewer digits do. */
  lemma ShortestReadsBack(m: nat, e: int, k: int, out: string, decpt: int)
    requires Significand(m) && IsDouble(m, e)
    requires DigitGen.Good(DigitGen.Goal(DoubleValue(m, e), HalfGapBelow(m, e), HalfGapAbove(m, e), m % 2 == 0, k),
               out, decpt)
    ensures IsDigits(out) && out != "" && ReadsAs(Dec(NatOf(out), decpt - |out|), m, e)
    ensures forall v: nat, q: int :: v < Pow(10, |out| - 1) ==> !ReadsAs(Dec(v, q), m, e)
  {
    hide RPow, DoubleValue, HalfGapBelow, HalfGapAbove, Within, Dec, Pow, ReadsAs, Prefers, Nearest;
    var x := Dec(NatOf(out), decpt - |out|);
    assert Within(DoubleValue(m, e), HalfGapBelow(m, e), HalfGapAbove(m, e), m % 2 == 0, x);
    InsideReadsBack(m, e, x);
    forall v: nat, q: int | v < Pow(10, |out| - 1) ensures !ReadsAs(Dec(v, q), m, e) {
      if IsSmallest(m, e) {
        PowMono(10, |out| - 1, 16);
        NotSixteen(v, q);
      } else {
        IntervalReadsBack(m, e, Dec(v, q));
      }
    }
  }

  /** What `dtoa` prints for a positive normal double in mode 0. */
  lemma ModeZeroReadsBack(hi: word, lo: word, ndigits: int, k: int, s: string, decpt: int)
    requires IsNormal(hi) && Dtoa.Printed(hi, lo, 0, ndigits, k, s, decpt)
    ensures IsDigits(s) && s != "" && ReadsAs(Dec(NatOf(s), decpt - |s|), Mantissa(hi, lo), Exponent(hi))
    ensures forall v: nat, q: int :: v < Pow(10, |s| - 1) ==> !ReadsAs(Dec(v, q), Mantissa(hi, lo), Exponent(hi))
  {
    var m, e := Mantissa(hi, lo), Exponent(hi);
    assert Significand(m) && IsDouble(m, e);
    hide *;
    ShortestReadsBack(m, e, k, s, decpt);
  }

  lemma InsideReadsBack(m: nat, e: int, x: real)
    requires Significand(m) && IsDouble(m, e)
    requires Within(DoubleValue(m, e), HalfGapBelow(m, e), HalfGapAbove(m, e), m % 2 == 0, x)
    ensures ReadsAs(x, m, e)
  {
    hide RPow, DoubleValue, HalfGapBelow, HalfGapAbove, Within;
    forall m': nat, e': int | IsDouble(m', e') ensures Prefers(x, m, e, m', e') {
      if DoubleValue(m', e') != DoubleValue(m, e) {
        ReadsBack(m, e, m % 2 == 0, x, m', e');
      }
    }
  }

  lemma NotSixteen(v: nat, q: int)
    requires v < Pow(10, 16)
    ensures !ReadsAs(Dec(v, q), 0x10_0000_0000_0000, -1074)
  {
    assert HalfGapAbove(0x10_0000_0000_0000, -1074) == RPow(2, -1075);
    hide RPow, Pow, Dec, DoubleValue, HalfGapAbove, Within, ReadsAs;
    SmallestNormal();
    SmallestReadsBack(Dec(v, q));
  }

  /** The next double up is a whole unit away; the next one down is at least twice the lower half gap away. */
  lemma NeighbourGap(m: nat, e: int, m': nat, e': int)
    requires Significand(m) && IsDouble(m, e) && IsDouble(m', e')
    ensures DoubleValue(m', e') > DoubleValue(m, e) ==>
              DoubleValue(m', e') >= DoubleValue(m, e) + 2.0 * HalfGapAbove(m, e)
    ensures DoubleValue(m', e') < DoubleValue(m, e) ==>
              DoubleValue(m', e') <= DoubleValue(m, e) - 2.0 * HalfGapBelow(m, e)
  {
    hide RPow, Pow, DoubleValue, HalfGapAbove, HalfGapBelow, Mul;
    GapUnits(m, e);
    if e' >= e {
      SameGrid(m', e', e);
      GridGap(Mul(m', Pow(2, e' - e)), m, RPow(2, e), DoubleValue(m', e'), DoubleValue(m, e));
    } else {
      CoarserGrid(m', e', e);
      FinerGap(m, RPow(2, e), DoubleValue(m', e'), DoubleValue(m, e));
    }
  }

  lemma GapUnits(m: nat, e: int)
    ensures RPow(2, e) > 0.0 && RPow(2, e - 1) == RPow(2, e) / 2.0 && DoubleValue(m, e) == (m as real) * RPow(2, e)
    ensures 2.0 * HalfGapAbove(m, e) == RPow(2, e)
    ensures 2.0 * HalfGapBelow(m, e) == if m == 0x10_0000_0000_0000 then RPow(2, e) / 2.0 else RPow(2, e)
  {
    hide RPow;
    RPowStep(2, e - 1);
    RPowStep(2, e - 2);
  }

  lemma SameGrid(m': nat, e': int, e: int)
    requires e' >= e
    ensures DoubleValue(m', e') == (Mul(m', Pow(2, e' - e)) as real) * RPow(2, e)
  {
    hide RPow, Pow;
    RPowAdd(2, e' - e, e);
    RPowNat(2, e' - e);
    RAssoc(m' as real, Pow(2, e' - e) as real, RPow(2, e));
    IntProduct(m', Pow(2, e' - e));
  }

  lemma GridGap(n: nat, m: nat, u: real, x: real, y: real)
    requires u > 0.0 && x == (n as real) * u && y == (m as real) * u
    ensures x > y ==> x >= y + u
    ensures x < y ==> x <= y - u
  {
    if n > m {
      UnitsApart(n as real, m as real, u, x, y);
    } else if n < m {
      UnitsApart(m as real, n as real, u, y, x);
    }
  }

  lemma UnitsApart(p: real, q: real, u: real, x: real, y: real)
    requires p >= q + 1.0 && u > 0.0 && x == p * u && y == q * u
    ensures x >= y + u
  {
    RMulLess(q + 1.0, p, u);
    assert (q + 1.0) * u == q * u + u;
  }

  lemma CoarserGrid(m': nat, e': int, e: int)
    requires m' < 0x20_0000_0000_0000 && e' < e
    ensures DoubleValue(m', e') <= 9007199254740991.0 * RPow(2, e - 1)
  {
    hide RPow, Pow;
    var k: nat := e - 1 - e';
    RPowAdd(2, k, e');
    RPowNat(2, k);
    PowMono(2, 0, k);
    PowOne(2);
    RMulLess(1.0, Pow(2, k) as real, RPow(2, e'));
    RMulLess(RPow(2, e'), RPow(2, e - 1), 9007199254740991.0);
    RMulLess(m' as real, 9007199254740991.0, RPow(2, e'));
  }

  lemma FinerGap(m: nat, u: real, x: real, y: real)
    requires m >= 0x10_0000_0000_0000 && u > 0.0
    requires x <= 9007199254740991.0 * (u / 2.0) && y == (m as real) * u
    ensures x <= y - u / 2.0
    ensures m > 0x10_0000_0000_0000 ==> x <= y - u
  {
    RMulLess(4503599627370496.0, m as real, u);
    if m > 0x10_0000_0000_0000 {
      RMulLess(4503599627370497.0, m as real, u);
    }
  }
}
