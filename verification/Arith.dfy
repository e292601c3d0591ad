/** Powers of naturals, and of naturals with integer exponents as reals. */
module Arith {

  function Pow(b: nat, e: nat): (p: nat)
    ensures b > 0 ==> p > 0
  {
    if e == 0 then 1 else b * Pow(b, e - 1)
  }

  /** The product of naturals, as a name that proofs can leave folded. */
  function Mul(x: nat, y: nat): nat { x * y }

  function Div(x: nat, y: nat): nat
    requires y > 0
  { x / y }

  function Mod(x: nat, y: nat): (r: nat)
    requires y > 0
    ensures r < y
  { x % y }

  lemma PowOne(b: nat)
    ensures Pow(b, 1) == b && Pow(b, 0) == 1
  {
  }

  lemma PowStep(b: nat, e: nat)
    ensures Pow(b, e + 1) == b * Pow(b, e)
  {
  }

  lemma {:induction false} PowAdd(b: nat, x: nat, y: nat)
    ensures Pow(b, x + y) == Pow(b, x) * Pow(b, y)
  {
    if x == 0 {
    } else {
      PowAdd(b, x - 1, y);
      var p, q, r := Pow(b, x - 1), Pow(b, y), Pow(b, x - 1 + y);
      assert b * (p * q) == (b * p) * q;
    }
  }

  lemma {:induction false} PowMono(b: nat, x: nat, y: nat)
    requires b >= 1 && x <= y
    ensures Pow(b, x) <= Pow(b, y)
  {
    if x < y {
      PowMono(b, x, y - 1);
      MulMono(1, b, Pow(b, y - 1));
    }
  }

  lemma {:induction false} PowStrict(b: nat, x: nat, y: nat)
    requires b >= 2 && x < y
    ensures Pow(b, x) < Pow(b, y)
  {
    PowMono(b, x, y - 1);
    MulMono(2, b, Pow(b, y - 1));
  }

  lemma {:induction false} PowMul(a: nat, b: nat, e: nat)
    ensures Pow(a * b, e) == Pow(a, e) * Pow(b, e)
  {
    if e > 0 {
      PowMul(a, b, e - 1);
      MulSwap(a, b, Pow(a, e - 1), Pow(b, e - 1));
    }
  }

  lemma {:induction false} PowPow(b: nat, x: nat, y: nat)
    ensures Pow(Pow(b, x), y) == Pow(b, x * y)
  {
    if y == 0 {
      assert x * y == 0;
    } else {
      PowPow(b, x, y - 1);
      assert x * y == x + x * (y - 1);
      PowAdd(b, x, x * (y - 1));
    }
  }

  lemma Assoc(x: int, y: int, z: int)
    ensures (x * y) * z == x * (y * z)
  {
  }

  lemma Dist(x: int, y: int, z: int)
    ensures (x + y) * z == x * z + y * z
  {
  }

  lemma MulComm(x: int, y: int)
    ensures x * y == y * x
    ensures x >= 0 && y >= 0 ==> Mul(x, y) == Mul(y, x)
  {
  }

  lemma MulSwap(a: int, b: int, p: int, q: int)
    ensures (a * b) * (p * q) == (a * p) * (b * q)
  {
    Assoc(a, b, p * q);
    Assoc(b, p, q);
    Assoc(p, b, q);
    Assoc(a, p, b * q);
    assert b * (p * q) == p * (b * q);
  }

  lemma MulMono(x: int, y: int, z: int)
    requires x <= y && 0 <= z
    ensures x * z <= y * z
  {
  }

  lemma MulCancel(x: int, y: int, z: int)
    requires 0 < z && x * z <= y * z
    ensures x <= y
  {
    if y < x {
      MulMono(y + 1, x, z);
    }
  }

  lemma MulCancelStrict(x: int, y: int, z: int)
    requires 0 < z && x * z < y * z
    ensures x < y
  {
    if y <= x {
      MulMono(y, x, z);
    }
  }

  /** `q` and `r` are the quotient and the remainder. */
  lemma DivModUnique(n: int, d: int, q: int, r: int)
    requires n == q * d + r && 0 <= r < d
    ensures q == n / d && r == n % d
  {
    var q', r' := n / d, n % d;
    assert n == q' * d + r';
    assert (q - q') * d == r' - r;
    if q > q' {
      MulMono(1, q - q', d);
    } else if q < q' {
      MulMono(q - q', -1, d);
    }
  }

  lemma DivModProps(n: int, d: int)
    requires d > 0
    ensures n == (n / d) * d + n % d && 0 <= n % d < d
  {
  }
}
