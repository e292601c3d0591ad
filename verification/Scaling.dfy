/** How `dtoa` scales a double: exponents of 2 and 5, and the values they stand for. */
module Scaling {
  import opened Arith
  import opened Words
  import opened Decimals
  import opened DigitGen
  import opened Doubles
  import opened Handles

  /** v * 5^p * 2^q */
  function Scaled52(v: nat, p: nat, q: nat): nat { Mul(Mul(v, Pow(5, p)), Pow(2, q)) }

  // ---- values ----

  lemma {:induction false} PowBase(k: nat)
    ensures Pow(10, k) == Pow(2, k) * Pow(5, k)
  {
    PowMul(2, 5, k);
  }

  lemma RPowBase(k: int)
    ensures RPow(10, k) == RPow(2, k) * RPow(5, k)
  {
    hide Pow;
    if k >= 0 {
      PowBase(k);
      IntProduct(Pow(2, k), Pow(5, k));
    } else {
      PowBase(-k);
      IntProduct(Pow(2, -k), Pow(5, -k));
      Reciprocals(Pow(2, -k) as real, Pow(5, -k) as real);
    }
  }

  lemma Reciprocals(x: real, y: real)
    requires x > 0.0 && y > 0.0
    ensures x * y > 0.0 && 1.0 / (x * y) == (1.0 / x) * (1.0 / y)
  {
    var a, b, c := 1.0 / x, 1.0 / y, 1.0 / (x * y);
    assert a * x == 1.0 && b * y == 1.0 && c * (x * y) == 1.0;
    RAssoc(a, b, x * y);
    RAssoc(b, x, y);
    assert (a * b) * (x * y) == 1.0;
    RCancelEq(c, a * b, x * y);
  }

  lemma Scaled52Real(v: nat, p: nat, q: nat)
    ensures Scaled52(v, p, q) as real == ((v as real) * RPow(5, p)) * RPow(2, q)
  {
    hide Pow, RPow;
    IntProduct(v, Pow(5, p));
    IntProduct(v * Pow(5, p), Pow(2, q));
    RPowNat(5, p);
    RPowNat(2, q);
  }

  /** v * 2^x over S = 5^s5 * 2^s2 is 10^k times v * 5^b5 * 2^b2 over S. */
  lemma Balance(v: nat, x: int, b5: nat, b2: nat, s5: nat, s2: nat, k: int)
    requires x + s2 == b2 + k && s5 == b5 + k
    ensures ((v as real) * RPow(2, x)) * (Scaled52(1, s5, s2) as real) == (Scaled52(v, b5, b2) as real) * RPow(10, k)
  {
    hide Pow, RPow, Scaled52;
    Scaled52Real(1, s5, s2);
    Scaled52Real(v, b5, b2);
    RPowBase(k);
    RPowAdd(2, x, s2);
    RPowAdd(2, b2, k);
    RPowAdd(5, b5, k);
    BalanceAlgebra(v as real, RPow(2, x), RPow(5, s5), RPow(2, s2), RPow(5, b5), RPow(2, b2), RPow(5, k), RPow(2, k));
  }

  lemma BalanceAlgebra(v: real, a: real, p5: real, p2: real, q5: real, q2: real, k5: real, k2: real)
    requires a * p2 == q2 * k2 && p5 == q5 * k5
    ensures (v * a) * ((1.0 * p5) * p2) == ((v * q5) * q2) * (k2 * k5)
  {
    calc {
      (v * a) * (p5 * p2);
      v * p5 * (a * p2);
      v * (q5 * k5) * (q2 * k2);
      ((v * q5) * q2) * (k2 * k5);
    }
  }

  // ---- the double and its interval ----

  /** 10^(k-1) <= d < 10^(k+1): k is floor(log10 d) or one more. */
  ghost predicate Estimate10(d: real, k: int) { RPow(10, k - 1) <= d < RPow(10, k + 1) }

  /** k is floor(log10 d). */
  ghost predicate Exact10(d: real, k: int) { RPow(10, k) <= d < RPow(10, k + 1) }

  predicate Significand(m: nat) { 0x10_0000_0000_0000 <= m < 0x20_0000_0000_0000 }

  lemma DoubleShift(m: nat, v: nat, t: nat, e: int)
    requires m == v * Pow(2, t)
    ensures DoubleValue(m, e) == (v as real) * RPow(2, e + t)
  {
    hide Pow, RPow;
    IntProduct(v, Pow(2, t));
    RPowNat(2, t);
    RPowAdd(2, e, t);
    RAssoc(v as real, RPow(2, t), RPow(2, e));
  }

  /** The interval of a normal double is sane. */
  lemma IntervalSane(m: nat, e: int, closed: bool, k: int)
    requires Significand(m) && Exact10(DoubleValue(m, e), k)
    ensures Goal(DoubleValue(m, e), HalfGapBelow(m, e), HalfGapAbove(m, e), closed, k).Sane()
    ensures HalfGapBelow(m, e) + HalfGapAbove(m, e) < RPow(10, k)
  {
    hide Pow, RPow, DoubleValue, HalfGapBelow, HalfGapAbove;
    var u, d, w := RPow(2, e - 2), DoubleValue(m, e), RPow(10, k);
    var lo, up := HalfGapBelow(m, e), HalfGapAbove(m, e);
    RPowStep(10, k);
    Pow53();
    Units(m, e);
    GapArithmetic(m, u, d, lo, up, w);
  }

  lemma Units(m: nat, e: int)
    ensures HalfGapAbove(m, e) == 2.0 * RPow(2, e - 2)
    ensures HalfGapBelow(m, e) == if m == 0x10_0000_0000_0000 then RPow(2, e - 2) else 2.0 * RPow(2, e - 2)
    ensures DoubleValue(m, e) == (m as real) * (4.0 * RPow(2, e - 2))
  {
    hide Pow, RPow;
    RPowStep(2, e - 2);
    RPowStep(2, e - 1);
  }

  lemma GapArithmetic(m: nat, u: real, d: real, lo: real, up: real, w: real)
    requires Significand(m) && u > 0.0 && d == (m as real) * (4.0 * u) && d < 10.0 * w
    requires up == 2.0 * u && lo == if m == 0x10_0000_0000_0000 then u else 2.0 * u
    ensures d < (lo + up) * (0x20_0000_0000_0000 as real)
    ensures lo + up < w && 0.0 < lo <= up && lo < d
  {
    var x := 4.0 * u;
    RMulLess(m as real, 0x20_0000_0000_0000 as real, x);
    RMulLess(100.0, m as real, x);
  }

  // ---- bounds ----

  lemma RPowLarger(b: nat, c: nat, k: nat)
    requires 1 <= b <= c
    ensures RPow(b, k) <= RPow(c, k)
  {
    hide Pow, RPow;
    PowLarger(b, c, k);
    RPowNat(b, k);
    RPowNat(c, k);
  }

  lemma {:induction false} PowLarger(b: nat, c: nat, k: nat)
    requires b <= c
    ensures Pow(b, k) <= Pow(c, k)
  {
    if k > 0 {
      PowLarger(b, c, k - 1);
      MulMono(b, c, Pow(b, k - 1));
      MulMono(Pow(b, k - 1), Pow(c, k - 1), c);
    }
  }

  lemma Eight(k: nat)
    ensures Pow(8, k) == Pow(2, 3 * k) && RPow(8, k) == RPow(2, 3 * k)
  {
    assert Pow(2, 3) == 8;
    PowPow(2, 3, k);
    RPowNat(8, k);
    RPowNat(2, 3 * k);
  }

  lemma RPowInverse(b: nat, k: int)
    requires b > 0
    ensures RPow(b, k) * RPow(b, -k) == 1.0
  {
    RPowAdd(b, k, -k);
    RPowZero(b);
  }

  /** A double lies between two powers of 2. */
  lemma DoubleBetween(m: nat, e: int)
    requires Significand(m)
    ensures RPow(2, 52 + e) <= DoubleValue(m, e) < RPow(2, 53 + e)
  {
    hide Pow, RPow;
    Pow53();
    RPowNat(2, 53);
    RPowNat(2, 52);
    RPowAdd(2, 53, e);
    RPowAdd(2, 52, e);
    BetweenTimes(m as real, RPow(2, 52), RPow(2, 53), RPow(2, e));
  }

  lemma BetweenTimes(x: real, a: real, b: real, u: real)
    requires a <= x < b && u > 0.0
    ensures a * u <= x * u < b * u
  {
    RMulLess(a, x, u);
    RMulLess(x, b, u);
  }

  /** The decimal exponent of a finite double. */
  lemma ExponentBound(m: nat, e: int, k: int)
    requires Significand(m) && -1075 <= e <= 971 && Estimate10(DoubleValue(m, e), k)
    ensures -345 <= k <= 345
  {
    hide Pow, RPow;
    var d := DoubleValue(m, e);
    DoubleBetween(m, e);
    hide DoubleValue;
    if k > 345 {
      RPowLarger(8, 10, k - 1);
      Eight(k - 1);
      RPowMono(2, 53 + e, 3 * (k - 1) - (53 + e));
    } else if k < -345 {
      var j := -k - 1;
      RPowLarger(8, 10, j);
      Eight(j);
      RPowInverse(10, k + 1);
      RPowInverse(2, 52 + e);
      RPowMono(2, -(52 + e), 3 * j + 52 + e);
      InverseOrder(RPow(2, 52 + e), RPow(10, k + 1), RPow(2, -(52 + e)), RPow(10, -(k + 1)));
    }
  }

  lemma InverseOrder(x: real, y: real, a: real, b: real)
    requires x > 0.0 && y > 0.0 && a > 0.0 && x * a == 1.0 && y * b == 1.0 && x < y
    ensures b < a
  {
    if b >= a {
      RMulLess(x, y, a);
      RMulLess(a, b, y);
    }
  }

  /** All numbers stay far below the room of the pool. */
  lemma SizeBound(v: nat, p: nat, q: nat)
    requires v < 0x20_0000_0000_0000 && p <= 400 && q <= 3000
    ensures Roomy(Scaled52(v, p, q))
    ensures Small(Scaled52(v, p, q)) && Small(Mul(v, Pow(5, p))) && Small(v)
  {
    hide Pow, Roomy;
    var a, b := Pow(5, p), Pow(2, q);
    PowLarger(5, 8, p);
    Eight(p);
    Pow53();
    PowMono(2, 0, q);
    PowOne(2);
    PowAdd(2, 53, 3 * p);
    PowAdd(2, 53 + 3 * p, q);
    MulBoth(v, Pow(2, 53), a, Pow(2, 3 * p));
    MulBoth(v * a, Pow(2, 53 + 3 * p), b, Pow(2, q));
    PowMono(2, 53 + 3 * p + q, 4400);
    PowMono(2, 53 + 3 * p, 4400);
    PowMono(2, 53, 4400);
    RoomOf(v * a * b);
    RoomOf(v * a);
    RoomOf(v);
  }

  lemma MulBoth(x: nat, y: nat, z: nat, t: nat)
    requires x <= y && z <= t
    ensures x * z <= y * t
  {
    MulMono(x, y, z);
    MulMono(z, t, y);
  }

  lemma RoomOf(v: nat)
    requires v <= Pow(2, 4400)
    ensures Roomy(v) && Small(v)
  {
    hide Pow;
    Pow32();
    PowPow(2, 32, 200);
    Pow16();
    PowAdd(2, 4400, 4);
    PowStrict(2, 4404, 6400);
    PowMono(2, 4400, 4404);
    assert v * 10 <= Pow(2, 4400) * 16;
  }

  lemma Pow16()
    ensures Pow(2, 4) == 16
  {
  }

  // ---- the scaled numbers ----

  /** b/S is d/10^k, and mlo/S and mhi/S are the half-gaps on the same scale. */
  ghost predicate Ratios(d: real, lo: real, up: real, k: int, S: nat, b: nat, mlo: nat, mhi: nat) {
    && Pre(d, S, 0, b, RPow(10, k)) && Gap(lo, S, mlo, RPow(10, k)) && Gap(up, S, mhi, RPow(10, k))
    && 0 < mlo <= mhi
  }

  lemma Scaled52Pos(v: nat, p: nat, q: nat)
    requires v > 0
    ensures Scaled52(v, p, q) > 0
  {
    MulMono(1, v, Pow(5, p));
    MulMono(1, v * Pow(5, p), Pow(2, q));
  }

  lemma Scaled52Double(v: nat, p: nat, q: nat)
    ensures Scaled52(v, p, q + 1) == 2 * Scaled52(v, p, q) == Mul(Scaled52(v, p, q), Pow(2, 1))
  {
    hide Pow;
    PowStep(2, q);
    PowOne(2);
    Assoc(v * Pow(5, p), 2, Pow(2, q));
  }

  lemma PreFrom(d: real, v: nat, x: int, b5: nat, b2: nat, s5: nat, s2: nat, k: int)
    requires d == (v as real) * RPow(2, x) && x + s2 == b2 + k && s5 == b5 + k
    ensures Pre(d, Scaled52(1, s5, s2), 0, Scaled52(v, b5, b2), RPow(10, k))
  {
    hide Pow, RPow, Scaled52;
    Balance(v, x, b5, b2, s5, s2, k);
    Scaled52Pos(1, s5, s2);
  }

  lemma GapFrom(x: int, b5: nat, m2: nat, s5: nat, s2: nat, k: int)
    requires x + s2 == m2 + k && s5 == b5 + k
    ensures Gap(RPow(2, x), Scaled52(1, s5, s2), Scaled52(1, b5, m2), RPow(10, k))
  {
    hide Pow, RPow, Scaled52;
    Balance(1, x, b5, m2, s5, s2, k);
  }

  /** The numbers of modes 0 and 1, for a significand v * 2^t that is a power of two or not. */
  lemma FreeRatios(m: nat, e: int, v: nat, t: nat, k: int, b5: nat, b2: nat, s5: nat, s2: nat, m2: nat, spec: bool)
    requires m == v * Pow(2, t) && (spec <==> m == 0x10_0000_0000_0000)
    requires e + t + s2 == b2 + k && s5 == b5 + k
    requires e - 1 + s2 == m2 + k + if spec then 1 else 0
    ensures Ratios(DoubleValue(m, e), HalfGapBelow(m, e), HalfGapAbove(m, e), k, Scaled52(1, s5, s2),
      Scaled52(v, b5, b2), Scaled52(1, b5, m2), Scaled52(1, b5, if spec then m2 + 1 else m2))
  {
    hide Pow, RPow, Scaled52, Pre, Gap, DoubleValue, HalfGapAbove, HalfGapBelow;
    DoubleShift(m, v, t, e);
    GapsAre(m, e);
    PreFrom(DoubleValue(m, e), v, e + t, b5, b2, s5, s2, k);
    Scaled52Pos(1, b5, m2);
    if spec {
      GapFrom(e - 2, b5, m2, s5, s2, k);
      GapFrom(e - 1, b5, m2 + 1, s5, s2, k);
      Scaled52Double(1, b5, m2);
    } else {
      GapFrom(e - 1, b5, m2, s5, s2, k);
    }
  }

  lemma GapsAre(m: nat, e: int)
    ensures HalfGapAbove(m, e) == RPow(2, e - 1)
    ensures m == 0x10_0000_0000_0000 ==> HalfGapBelow(m, e) == RPow(2, e - 2)
    ensures m != 0x10_0000_0000_0000 ==> HalfGapBelow(m, e) == RPow(2, e - 1)
  {
  }

  /** Comparing b with S is comparing d with 10^k. */
  lemma RatioBounds(d: real, S: nat, b: nat, k: int)
    requires Pre(d, S, 0, b, RPow(10, k))
    ensures S <= b <==> RPow(10, k) <= d
    ensures b < 10 * S <==> d < RPow(10, k + 1)
    ensures S <= 10 * b <==> RPow(10, k - 1) <= d
  {
    hide Pow, RPow;
    var w, w' := RPow(10, k), RPow(10, k - 1);
    RPowStep(10, k);
    RPowStep(10, k - 1);
    assert d * (S as real) == (b as real) * w;
    TimesBound(d, S as real, b as real, w, 1.0);
    TimesBound(d, S as real, b as real, w, 10.0);
    assert (b as real) * w == (10.0 * (b as real)) * w' by { RAssoc(b as real, 10.0, w'); }
    TimesBound(d, S as real, 10.0 * (b as real), w', 1.0);
  }

  /** The estimate was one too big exactly when b < S; then b, mlo and mhi are taken ten times. */
  lemma Botched(d: real, lo: real, up: real, k: int, S: nat, b: nat, mlo: nat, mhi: nat)
    requires Ratios(d, lo, up, k, S, b, mlo, mhi) && Estimate10(d, k)
    ensures b >= S ==> Exact10(d, k)
    ensures b < S ==> Exact10(d, k - 1) && Ratios(d, lo, up, k - 1, S, 10 * b, 10 * mlo, 10 * mhi)
  {
    hide Pow, RPow, Gap;
    RatioBounds(d, S, b, k);
    RPowStep(10, k - 1);
    NextGap(lo, S, mlo, RPow(10, k), RPow(10, k - 1));
    NextGap(up, S, mhi, RPow(10, k), RPow(10, k - 1));
    NextAlgebra(d * (S as real), b, RPow(10, k), RPow(10, k - 1));
  }

  /** With the exact k the loop of modes 0 and 1 may start. */
  lemma FreeStart(m: nat, e: int, closed: bool, k: int, S: nat, b: nat, mlo: nat, mhi: nat)
    requires Significand(m) && Exact10(DoubleValue(m, e), k)
    requires Ratios(DoubleValue(m, e), HalfGapBelow(m, e), HalfGapAbove(m, e), k, S, b, mlo, mhi)
    ensures Running(Goal(DoubleValue(m, e), HalfGapBelow(m, e), HalfGapAbove(m, e), closed, k), S, "", b, mlo, mhi)
  {
    hide Pow, RPow, Gap, Pre, DoubleValue, HalfGapBelow, HalfGapAbove, Running;
    var d, lo, up := DoubleValue(m, e), HalfGapBelow(m, e), HalfGapAbove(m, e);
    IntervalSane(m, e, closed, k);
    RatioBounds(d, S, b, k);
    NarrowStart(lo, up, S, mlo, mhi, RPow(10, k));
    Start(Goal(d, lo, up, closed, k), S, b, mlo, mhi);
  }

  lemma NarrowStart(lo: real, up: real, S: nat, mlo: nat, mhi: nat, w: real)
    requires Gap(lo, S, mlo, w) && Gap(up, S, mhi, w) && lo + up < w && w > 0.0 && S > 0
    ensures mlo + mhi < S
  {
    NarrowSum(lo, up, S as real, mlo as real, mhi as real, w);
  }

  lemma NarrowSum(lo: real, up: real, s: real, x: real, y: real, w: real)
    requires lo * s == x * w && up * s == y * w && lo + up < w && w > 0.0 && s > 0.0
    ensures x + y < s
  {
    RDist(lo, up, s);
    RDist(x, y, w);
    RMulLess(lo + up, w, s);
    RMulLess(x + y, s, w);
  }

  /** Modes 2 and 3: the numbers for the exact k. */
  ghost predicate FixedRatio(d: real, k: int, S: nat, b: nat) {
    Pre(d, S, 0, b, RPow(10, k)) && S <= b < 10 * S && Exact10(d, k)
  }

  lemma FixedReady(m: nat, e: int, v: nat, t: nat, k0: int, b5: nat, b2: nat, s5: nat, s2: nat, kcheck: bool, x: nat)
    requires m == v * Pow(2, t) && e + t + s2 == b2 + k0 && s5 == b5 + k0
    requires if kcheck then Estimate10(DoubleValue(m, e), k0) else Exact10(DoubleValue(m, e), k0)
    requires x == if kcheck && Scaled52(v, b5, b2) < Scaled52(1, s5, s2) then 10 else 1
    ensures FixedRatio(DoubleValue(m, e), if x == 10 then k0 - 1 else k0, Scaled52(1, s5, s2),
              Mul(Scaled52(v, b5, b2), x))
  {
    hide Pow, RPow, Scaled52, DoubleValue, Pre;
    var d, b, S := DoubleValue(m, e), Scaled52(v, b5, b2), Scaled52(1, s5, s2);
    DoubleShift(m, v, t, e);
    PreFrom(d, v, e + t, b5, b2, s5, s2, k0);
    RatioBounds(d, S, b, k0);
    if x == 10 {
      PreTen(d, S, b, k0);
    }
  }

  lemma PreTen(d: real, S: nat, b: nat, k: int)
    requires Pre(d, S, 0, b, RPow(10, k))
    ensures Pre(d, S, 0, 10 * b, RPow(10, k - 1))
  {
    hide Pow, RPow;
    RPowStep(10, k - 1);
    assert 10 * 0 * S + b == b;
    NextAlgebra(d * (S as real), b, RPow(10, k), RPow(10, k - 1));
    assert 10 * 0 * S + 10 * b == 10 * b;
  }

  lemma FixedStart(d: real, k: int, S: nat, b: nat)
    requires FixedRatio(d, k, S, b)
    ensures Fixed(d, k, S, "", b)
  {
    hide RPow;
  }
}
