/**
 * What `dtoa` makes of subnormal doubles. The hidden bit is set for them too, so what is printed
 * belongs to another number, and reads back as the double only by luck: for the largest one.
 */
module Subnormals {
  import opened Arith
  import opened Decimals
  import opened Words
  import opened Doubles
  import opened Readback
  import DigitGen
  import Dtoa

  predicate IsSubnormal(hi: word, lo: word) { BiasedExp(hi) == 0 && !IsZero(hi, lo) }

  /** The bits that are significant in a subnormal double, whose value is this times 2^-1074. */
  function Fraction(hi: word, lo: word): nat { Mantissa(hi, lo) - 0x10_0000_0000_0000 }

  ghost predicate IsLargest(hi: word, lo: word) { Mantissa(hi, lo) == 0x1f_ffff_ffff_ffff }

  /** The header's promise for mode 0 and subnormal doubles: it is kept for the largest of them alone. */
  lemma SubnormalReadsBack(hi: word, lo: word, ndigits: int, k: int, s: string, decpt: int)
    requires IsSubnormal(hi, lo) && Dtoa.Printed(hi, lo, 0, ndigits, k, s, decpt)
    ensures IsDouble(Fraction(hi, lo), -1074) && IsDigits(s)
    ensures ReadsAs(Dec(NatOf(s), decpt - |s|), Fraction(hi, lo), -1074) <==> IsLargest(hi, lo)
  {
    var m := Mantissa(hi, lo);
    assert Exponent(hi) == -1075;
    PrintedNear(hi, lo, ndigits, k, s, decpt);
    hide *;
    MantissaBounds(hi, lo);
    if IsLargest(hi, lo) {
      LargestIs(hi, lo);
      LargestBelow(k, s, decpt);
      LargestReadsBack(Dec(NatOf(s), decpt - |s|));
    } else {
      NotLargest(hi, lo);
      OthersElsewhere(m, Dec(NatOf(s), decpt - |s|));
    }
  }

  /** The smallest subnormal double, say, 2^-1074, is printed as a number above 2^-1023. */
  lemma TiniestMisprinted(ndigits: int, k: int, s: string, decpt: int)
    requires Dtoa.Printed(0, 1, 0, ndigits, k, s, decpt)
    ensures IsDigits(s) && !ReadsAs(Dec(NatOf(s), decpt - |s|), 1, -1074)
    ensures Dec(NatOf(s), decpt - |s|) > RPow(2, -1023)
  {
    hide *;
    TiniestParts();
    PrintedNear(0, 1, ndigits, k, s, decpt);
    SubnormalReadsBack(0, 1, ndigits, k, s, decpt);
    AboveHidden(Dec(NatOf(s), decpt - |s|));
  }

  lemma TiniestParts()
    ensures IsSubnormal(0, 1) && Mantissa(0, 1) == 0x10_0000_0000_0001 && Fraction(0, 1) == 1 && !IsLargest(0, 1)
  {
  }

  lemma AboveHidden(x: real)
    requires Near(0x10_0000_0000_0001, x)
    ensures x > RPow(2, -1023)
  {
    assert Pow(2, 0) == 1;
    Pow53();
    RPowNat(2, 52);
    RPowAdd(2, 52, -1075);
    hide RPow, Pow;
  }

  lemma MantissaBounds(hi: word, lo: word)
    requires IsSubnormal(hi, lo)
    ensures 0x10_0000_0000_0000 < Mantissa(hi, lo) < 0x20_0000_0000_0000
    ensures Fraction(hi, lo) == Mantissa(hi, lo) - 0x10_0000_0000_0000 && IsDouble(Fraction(hi, lo), -1074)
  {
  }

  lemma LargestIs(hi: word, lo: word)
    requires IsLargest(hi, lo)
    ensures Mantissa(hi, lo) == 0x1f_ffff_ffff_ffff
  {
  }

  lemma NotLargest(hi: word, lo: word)
    requires !IsLargest(hi, lo)
    ensures Mantissa(hi, lo) != 0x1f_ffff_ffff_ffff
  {
  }

  /** What is printed lies within a quarter of a gap of the number with the hidden bit. */
  lemma PrintedNear(hi: word, lo: word, ndigits: int, k: int, s: string, decpt: int)
    requires IsSubnormal(hi, lo) && Dtoa.Printed(hi, lo, 0, ndigits, k, s, decpt)
    ensures IsDigits(s) && Near(Mantissa(hi, lo), Dec(NatOf(s), decpt - |s|))
    ensures IsLargest(hi, lo) ==> DigitGen.Good(LargestGoal(k), s, decpt)
  {
    GapUnits(Mantissa(hi, lo), -1075);
    hide Dec, NatOf, RPow, Pow, DoubleValue, NoneOfLength, Nearest;
  }

  ghost predicate Near(m: nat, x: real) {
    Decimals.Dist(x, DoubleValue(m, -1075)) <= RPow(2, -1075) / 2.0
  }

  ghost function LargestGoal(k: int): DigitGen.Goal {
    DigitGen.Goal(DoubleValue(0x1f_ffff_ffff_ffff, -1075), RPow(2, -1076), RPow(2, -1076), false, k)
  }

  /** Some double is nearer than the one that was to be printed. */
  lemma OthersElsewhere(m: nat, x: real)
    requires 0x10_0000_0000_0000 < m < 0x1f_ffff_ffff_ffff && Near(m, x)
    ensures !ReadsAs(x, m - 0x10_0000_0000_0000, -1074)
  {
    hide *;
    var f: nat, c: nat, u := m - 0x10_0000_0000_0000, (m + 1) / 2, RPow(2, -1075);
    InHalves(f, u);
    InHalves(c, u);
    NearUnits(m, x, u);
    Farther(m, x, u, (m as real) * u, 2 * f, DoubleValue(f, -1074), 2 * c, DoubleValue(c, -1074));
    NotPreferred(x, f, c);
  }

  lemma InHalves(n: nat, u: real)
    requires u == RPow(2, -1075)
    ensures u > 0.0 && DoubleValue(n, -1074) == ((2 * n) as real) * u
  {
    RPowStep(2, -1075);
    hide RPow;
  }

  lemma NearUnits(m: nat, x: real, u: real)
    requires Near(m, x) && u == RPow(2, -1075)
    ensures u > 0.0 && Decimals.Dist(x, (m as real) * u) <= u / 2.0
  {
    hide RPow;
  }

  lemma NotPreferred(x: real, f: nat, c: nat)
    requires c < 0x20_0000_0000_0000 && DoubleValue(f, -1074) != DoubleValue(c, -1074)
    requires Decimals.Dist(x, DoubleValue(c, -1074)) < Decimals.Dist(x, DoubleValue(f, -1074))
    ensures !ReadsAs(x, f, -1074)
  {
    hide DoubleValue;
    assert !Prefers(x, f, -1074, c, -1074);
  }

  /** In units of u: near m, farther from a = 2m - 2^53 than from the even one of m and m + 1. */
  lemma Farther(m: nat, x: real, u: real, y: real, a: nat, t: real, b: nat, c: real)
    requires 0x10_0000_0000_0000 < m < 0x1f_ffff_ffff_ffff && u > 0.0 && Decimals.Dist(x, y) <= u / 2.0
    requires a == 2 * m - 0x20_0000_0000_0000 && b == (if m % 2 == 0 then m else m + 1)
    requires y == (m as real) * u && t == (a as real) * u && c == (b as real) * u
    ensures t != c && Decimals.Dist(x, c) < Decimals.Dist(x, t)
  {
    if m % 2 == 0 {
      UnitsDown(a, m, 2, u, t, y);
    } else {
      UnitsDown(a, m, 3, u, t, y);
      OneMore(m, u);
    }
    Nearer(x, y, t, c, u);
  }

  lemma UnitsDown(a: nat, b: nat, n: nat, u: real, x: real, y: real)
    requires a + n <= b && u > 0.0 && x == (a as real) * u && y == (b as real) * u
    ensures x <= y - (n as real) * u
  {
    RMulLess((a + n) as real, b as real, u);
    assert ((a + n) as real) * u == x + (n as real) * u;
  }

  lemma OneMore(m: nat, u: real)
    ensures ((m + 1) as real) * u == (m as real) * u + u
  {
  }

  lemma Nearer(x: real, y: real, t: real, c: real, u: real)
    requires u > 0.0 && Decimals.Dist(x, y) <= u / 2.0
    requires (c == y && t <= y - 2.0 * u) || (c == y + u && t <= y - 3.0 * u)
    ensures t != c && Decimals.Dist(x, c) < Decimals.Dist(x, t)
  {
  }

  // ---- the largest one ----

  /** What lies between the largest subnormal double and the middle to the next reads back as it. */
  lemma LargestReadsBack(x: real)
    requires Near(0x1f_ffff_ffff_ffff, x) && x < DoubleValue(0x1f_ffff_ffff_ffff, -1075)
    ensures ReadsAs(x, 0xf_ffff_ffff_ffff, -1074)
  {
    var m: nat, u := 0xf_ffff_ffff_ffff, RPow(2, -1075);
    InHalves(m, u);
    GapUnits(m, -1074);
    RPowStep(2, -1075);
    assert DoubleValue(0x1f_ffff_ffff_ffff, -1075) == DoubleValue(m, -1074) + u;
    hide RPow, DoubleValue, HalfGapAbove, HalfGapBelow;
    forall m': nat, e': int | IsDouble(m', e') ensures Prefers(x, m, -1074, m', e') {
      SameGrid(m', e', -1074);
      hide Mul, Pow;
      GridGap(Mul(m', Pow(2, e' + 1074)), m, RPow(2, -1074), DoubleValue(m', e'), DoubleValue(m, -1074));
    }
  }

  /** The digits printed of it are below the number with the hidden bit, which is that middle. */
  lemma LargestBelow(k: int, s: string, decpt: int)
    requires DigitGen.Good(LargestGoal(k), s, decpt)
    ensures IsDigits(s) && Dec(NatOf(s), decpt - |s|) < DoubleValue(0x1f_ffff_ffff_ffff, -1075)
  {
    var d, q, w := DoubleValue(0x1f_ffff_ffff_ffff, -1075), RPow(2, -1076), 22250738585072011;
    SeventeenDigits(k, s, decpt);
    NatOfBound(s);
    TenTo16();
    LargestIn();
    hide Pow, RPow, Dec, DoubleValue, NatOf, Within;
    DigitGen.Grid(NatOf(s), decpt - |s|, 17, w, -324);
    assert Decimals.Dist(Dec(NatOf(s), decpt - |s|), d) <= Decimals.Dist(Dec(w, -324), d);
  }

  /** 17 digits: 16 are not enough. */
  lemma SeventeenDigits(k: int, s: string, decpt: int)
    requires DigitGen.Good(LargestGoal(k), s, decpt)
    ensures |s| == 17
  {
    LargestNone();
    NatOfBound(s);
    hide Pow, RPow, Dec, DoubleValue, NatOf, Within;
    if |s| <= 16 {
      PowMono(10, |s|, 16);
    }
  }

  lemma TenTo16()
    ensures Pow(10, 16) == 10000000000000000 && Pow(10, 17) == 100000000000000000
  {
    assert Pow(10, 4) == 10000;
    PowAdd(10, 4, 4);
    PowAdd(10, 8, 8);
    PowStep(10, 16);
  }

  /** No 16 digits lie in the interval. */
  lemma LargestNone()
    ensures NoneOfLength(DoubleValue(0x1f_ffff_ffff_ffff, -1075), RPow(2, -1076), RPow(2, -1076), false, 16)
  {
    var d, q := DoubleValue(0x1f_ffff_ffff_ffff, -1075), RPow(2, -1076);
    LargestUnits();
    Sixteen();
    Bounds16();
    hide Pow, RPow, Dec, DoubleValue;
    DigitGen.NoneShorter(d, q, q, false, 16, 2225073858507201, -323);
  }

  /** These 17 do, below the middle, and the next 17 are farther above it. */
  lemma LargestIn()
    ensures var d, q, w := DoubleValue(0x1f_ffff_ffff_ffff, -1075), RPow(2, -1076), 22250738585072011;
      && Within(d, q, q, false, Dec(w, -324)) && Dec(w, -324) < d && Dec(w + 1, -324) - d > d - Dec(w, -324)
  {
    LargestUnits();
    Bounds17();
    assert Dec(44501477170144023, -324) == Dec(22250738585072011, -324) + Dec(22250738585072012, -324) by {
      hide RPow;
    }
    hide Pow, RPow, Dec, DoubleValue;
  }

  lemma LargestUnits()
    ensures DoubleValue(0x1f_ffff_ffff_ffff, -1075) == 18014398509481982.0 * RPow(2, -1076)
  {
    RPowStep(2, -1076);
    hide RPow;
  }

  lemma Bounds16()
    ensures Dec(2225073858507201, -323) < 18014398509481981.0 * RPow(2, -1076)
    ensures Dec(2225073858507202, -323) > 18014398509481983.0 * RPow(2, -1076)
  {
    hide Pow;
    assert RPow(10, -323) == 1.0 / (Pow(10, 323) as real) && RPow(2, -1076) == 1.0 / (Pow(2, 1076) as real);
    hide RPow;
    Integers16();
    PowMul(5, 2, 323);
    PowAdd(2, 323, 753);
    var f, t, w := Pow(5, 323), Pow(2, 323), Pow(2, 753);
    IntProduct(f, t);
    IntProduct(t, w);
    Cross(2225073858507201, 18014398509481981, f, t, w);
    Cross(2225073858507202, 18014398509481983, f, t, w);
  }

  lemma Integers16()
    ensures 2225073858507201 * Pow(2, 753) < 18014398509481981 * Pow(5, 323)
    ensures 2225073858507202 * Pow(2, 753) > 18014398509481983 * Pow(5, 323)
  {
    assert Pow(5, 3) == 125 && Pow(2, 1) == 2;
    hide Pow;
    Five320();
    Pow96();
    PowAdd(5, 320, 3);
    PowAdd(2, 672, 80);
    PowAdd(2, 752, 1);
    Compare16(Pow(2, 672), Pow(5, 320));
  }

  lemma Compare16(p: nat, t: nat)
    requires p > 0 && 2389154863368240330214 * p <= t <= 2389154863368240330215 * p
    ensures 2225073858507201 * (p * 0x1_0000_0000_0000_0000_0000 * 2) < 18014398509481981 * (t * 125)
    ensures 2225073858507202 * (p * 0x1_0000_0000_0000_0000_0000 * 2) > 18014398509481983 * (t * 125)
  {
  }

  lemma Bounds17()
    ensures 18014398509481981.0 * RPow(2, -1076) < Dec(22250738585072011, -324) < 18014398509481982.0 * RPow(2, -1076)
    ensures Dec(44501477170144023, -324) > 36028797018963964.0 * RPow(2, -1076)
  {
    hide Pow;
    assert RPow(10, -324) == 1.0 / (Pow(10, 324) as real) && RPow(2, -1076) == 1.0 / (Pow(2, 1076) as real);
    hide RPow;
    Integers17();
    PowMul(5, 2, 324);
    PowAdd(2, 324, 752);
    var f, t, w := Pow(5, 324), Pow(2, 324), Pow(2, 752);
    IntProduct(f, t);
    IntProduct(t, w);
    Cross(22250738585072011, 18014398509481981, f, t, w);
    Cross(22250738585072011, 18014398509481982, f, t, w);
    Cross(44501477170144023, 36028797018963964, f, t, w);
  }

  lemma Integers17()
    ensures 18014398509481981 * Pow(5, 324) < 22250738585072011 * Pow(2, 752) < 18014398509481982 * Pow(5, 324)
    ensures 44501477170144023 * Pow(2, 752) > 36028797018963964 * Pow(5, 324)
  {
    assert Pow(5, 4) == 625;
    hide Pow;
    Five320();
    Pow96();
    PowAdd(5, 320, 4);
    PowAdd(2, 672, 80);
    Compare17(Pow(2, 672), Pow(5, 320));
  }

  lemma Compare17(p: nat, t: nat)
    requires p > 0 && 2389154863368240330214 * p <= t <= 2389154863368240330215 * p
    ensures 18014398509481981 * (t * 625) < 22250738585072011 * (p * 0x1_0000_0000_0000_0000_0000)
    ensures 22250738585072011 * (p * 0x1_0000_0000_0000_0000_0000) < 18014398509481982 * (t * 625)
    ensures 44501477170144023 * (p * 0x1_0000_0000_0000_0000_0000) > 36028797018963964 * (t * 625)
  {
  }
}
