/** Decimals, the rounding interval of a double, and what it means to print one well. */
module Decimals {
  import opened Arith

  // ---- real powers ----

  ghost function RPow(b: nat, e: int): (p: real)
    requires b > 0
    ensures p > 0.0
  {
    if e >= 0 then Pow(b, e) as real else 1.0 / (Pow(b, -e) as real)
  }

  lemma RPowStep(b: nat, e: int)
    requires b > 0
    ensures RPow(b, e + 1) == (b as real) * RPow(b, e)
  {
    if e >= 0 {
      PowReal(b, e);
      hide Pow;
    } else {
      RPowDown(b, e);
    }
  }

  lemma RPowDown(b: nat, e: int)
    requires b > 0 && e < 0
    ensures RPow(b, e + 1) == (b as real) * RPow(b, e)
  {
    var n: nat := -e - 1;
    assert Pow(b, 0) == 1;
    PowReal(b, n);
    hide Pow;
    assert RPow(b, e + 1) == 1.0 / (Pow(b, n) as real) && RPow(b, e) == 1.0 / (Pow(b, n + 1) as real);
    hide RPow;
    RecipStep(Pow(b, n) as real, b as real);
  }

  lemma IntProduct(x: nat, y: nat)
    ensures (x * y) as real == (Mul(x, y) as real) == (x as real) * (y as real)
  {
  }

  lemma PowReal(b: nat, e: nat)
    ensures Pow(b, e + 1) as real == (b as real) * (Pow(b, e) as real)
  {
  }

  lemma RecipStep(x: real, y: real)
    requires x > 0.0 && y > 0.0
    ensures y * x > 0.0 && y * (1.0 / (y * x)) == 1.0 / x
  {
    var z, t := 1.0 / (y * x), 1.0 / x;
    assert z * (y * x) == 1.0 && t * x == 1.0;
    RAssoc(z, y, x);
    RAssoc(x, z, y);
    RAssoc(x, y, z);
    RCancelEq(y * z, t, x);
  }

  lemma {:induction false} RPowAdd(b: nat, x: int, y: int)
    requires b > 0
    ensures RPow(b, x + y) == RPow(b, x) * RPow(b, y)
    decreases if y >= 0 then y else -y
  {
    hide Pow, RPow;
    if y == 0 {
      RPowZero(b);
    } else if y > 0 {
      RPowAdd(b, x, y - 1);
      RPowStep(b, x + y - 1);
      RPowStep(b, y - 1);
      RAssoc(b as real, RPow(b, x), RPow(b, y - 1));
    } else {
      RPowAdd(b, x, y + 1);
      RPowStep(b, x + y);
      RPowStep(b, y);
      RAssoc(b as real, RPow(b, x), RPow(b, y));
      RCancelEq(RPow(b, x + y), RPow(b, x) * RPow(b, y), b as real);
    }
  }

  lemma RPowNat(b: nat, e: nat)
    requires b > 0
    ensures RPow(b, e) == Pow(b, e) as real
  {
  }

  lemma RPowZero(b: nat)
    requires b > 0
    ensures RPow(b, 0) == 1.0
  {
  }

  lemma RAssoc(x: real, y: real, z: real)
    ensures x * (y * z) == (x * y) * z
    ensures x * (y * z) == y * (x * z)
  {
  }

  lemma RCancelEq(x: real, y: real, z: real)
    requires z != 0.0 && z * x == z * y
    ensures x == y
  {
    assert z * (x - y) == 0.0;
  }

  lemma RMulLess(x: real, y: real, z: real)
    requires z > 0.0
    ensures x < y <==> x * z < y * z
    ensures x <= y <==> x * z <= y * z
    ensures x == y <==> x * z == y * z
  {
    if x < y {
      assert (y - x) * z > 0.0;
    } else if x > y {
      assert (x - y) * z > 0.0;
    }
  }

  // ---- doubles and decimals ----

  /** The double with significand m and exponent e. */
  ghost function DoubleValue(m: nat, e: int): real { (m as real) * RPow(2, e) }

  /** Half the distance to the next double. */
  ghost function HalfGapAbove(m: nat, e: int): real { RPow(2, e - 1) }

  /** Half the distance to the previous double, which is halved at a power of two. */
  ghost function HalfGapBelow(m: nat, e: int): real {
    if m == 0x10_0000_0000_0000 then RPow(2, e - 2) else RPow(2, e - 1)
  }

  /** n * 10^q. */
  ghost function Dec(n: int, q: int): real { (n as real) * RPow(10, q) }

  /** x lies within `lo` below d and `up` above d. */
  ghost predicate Within(d: real, lo: real, up: real, closed: bool, x: real) {
    if closed then d - lo <= x <= d + up else d - lo < x < d + up
  }

  ghost function Dist(x: real, y: real): real { if x <= y then y - x else x - y }

  /** No decimal of n digits lies in the interval. */
  ghost predicate NoneOfLength(d: real, lo: real, up: real, closed: bool, n: nat) {
    forall v: nat, q: int :: v < Pow(10, n) ==> !Within(d, lo, up, closed, Dec(v, q))
  }

  /** x is at least as near to d as every decimal of n digits in the interval. */
  ghost predicate Nearest(d: real, lo: real, up: real, closed: bool, n: nat, x: real) {
    forall v: nat, q: int :: v < Pow(10, n) && Within(d, lo, up, closed, Dec(v, q)) ==> Dist(x, d) <= Dist(Dec(v, q), d)
  }

  /** n * unit is x rounded to a multiple of `unit`, ties to even n. */
  ghost predicate RoundsTo(x: real, unit: real, n: int) {
    && 2.0 * Dist(x, (n as real) * unit) <= unit
    && (2.0 * Dist(x, (n as real) * unit) == unit ==> n % 2 == 0)
  }

  // ---- digit strings ----

  ghost predicate IsDigits(s: string) { forall i :: 0 <= i < |s| ==> '0' <= s[i] <= '9' }

  function DigitChar(d: nat): (c: char)
    requires d <= 9
    ensures '0' <= c <= '9'
  { ('0' as int + d) as char }

  ghost function NatOf(s: string): (n: nat)
    requires IsDigits(s)
  {
    if s == "" then 0 else 10 * NatOf(s[..|s| - 1]) + (s[|s| - 1] as int - '0' as int)
  }

  lemma NatOfSnoc(s: string, d: nat)
    requires IsDigits(s) && d <= 9
    ensures IsDigits(s + [DigitChar(d)]) && NatOf(s + [DigitChar(d)]) == 10 * NatOf(s) + d
  {
    assert (s + [DigitChar(d)])[..|s|] == s;
  }

  lemma {:induction false} NatOfBound(s: string)
    requires IsDigits(s)
    ensures NatOf(s) < Pow(10, |s|)
  {
    if s != "" {
      NatOfBound(s[..|s| - 1]);
    }
  }

  lemma {:induction false} NatOfLeading(s: string)
    requires IsDigits(s) && s != "" && s[0] != '0'
    ensures NatOf(s) >= Pow(10, |s| - 1)
  {
    if |s| > 1 {
      NatOfLeading(s[..|s| - 1]);
    } else {
      assert s[..0] == "";
    }
  }

  /** The digits `out` with the decimal point after `decpt` digits are n * 10^q, which is x rounded. */
  ghost predicate RoundedAs(x: real, q: int, n: nat, out: string, decpt: int) {
    && IsDigits(out) && (out != "" ==> out[0] != '0' && out[|out| - 1] != '0')
    && RoundsTo(x, RPow(10, q), n)
    && Dec(NatOf(out), decpt - |out|) == Dec(n, q)
  }

  /** The digits are x correctly rounded to a multiple of 10^q. */
  ghost predicate Rounded(x: real, q: int, out: string, decpt: int) {
    exists n: nat :: RoundedAs(x, q, n, out, decpt)
  }
}
