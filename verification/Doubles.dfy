/** IEEE 754 doubles as two words, and their conversion to a Bigint. */
module Doubles {
  import opened Arith
  import opened Words
  import opened Bigints

  /** The biased exponent of the high word. */
  function BiasedExp(hi: word): nat { (hi / 0x10_0000) % 0x800 }

  predicate IsNormal(hi: word) { 1 <= BiasedExp(hi) <= 2046 }

  predicate IsZero(hi: word, lo: word) { BiasedExp(hi) == 0 && hi % 0x10_0000 == 0 && lo == 0 }

  /** The 53-bit significand, with the hidden bit. */
  function Mantissa(hi: word, lo: word): (m: nat)
    ensures 0x10_0000_0000_0000 <= m < 0x20_0000_0000_0000
  {
    (0x10_0000 + hi % 0x10_0000) * 0x1_0000_0000 + lo
  }

  /** The value of a normal double is Mantissa * 2^Exponent. */
  function Exponent(hi: word): int { BiasedExp(hi) - 1075 }

  /** The number of leading zero bits; 32 for zero. */
  method Hi0bits(x0: word) returns (k: nat)
    ensures k <= 32 && (k == 32 <==> x0 == 0)
    ensures x0 > 0 ==> Pow(2, 31 - k) <= x0 < Pow(2, 32 - k)
  {
    hide Pow;
    PowerTable();
    var x: word := x0;
    k := 0;
    k, x := ShiftUp(x0, k, x, 16, 0x1_0000, 1);
    k, x := ShiftUp(x0, k, x, 8, 0x100, 0x1_0000);
    k, x := ShiftUp(x0, k, x, 4, 0x10, 0x100_0000);
    k, x := ShiftUp(x0, k, x, 2, 4, 0x1000_0000);
    if x < 0x8000_0000 {
      if x < 0x4000_0000 {
        ZeroProduct(x0, k);
        return 32;
      }
      ShiftMore(x0, k, 1);
      k, x := k + 1, x * 2;
    }
    LeadingBit(x0, k, x);
  }

  /** One halving of the search: shifts up by n = log2(m) bits when the high n bits are zero. */
  method ShiftUp(ghost x0: nat, k: nat, x: word, n: nat, m: nat, low: nat) returns (k': nat, x': word)
    requires x == x0 * Pow(2, k) && m == Pow(2, n) && (x == 0 || x >= low)
    requires low * m * m == 0x1_0000_0000
    ensures x' == x0 * Pow(2, k') && k <= k' <= k + n && (x' == 0 || x' >= low * m)
  {
    hide Pow;
    if x < low * m {
      ShiftMore(x0, k, n);
      if x >= low { MulMono(low, x, m); }
      MulMono(x, low * m - 1, m);
      return k + n, x * m;
    }
    return k, x;
  }

  lemma ShiftMore(x0: nat, k: nat, n: nat)
    ensures x0 * Pow(2, k + n) == (x0 * Pow(2, k)) * Pow(2, n)
  {
    PowAdd(2, k, n);
    Assoc(x0, Pow(2, k), Pow(2, n));
  }

  lemma PowerTable()
    ensures Pow(2, 0) == 1 && Pow(2, 1) == 2 && Pow(2, 2) == 4 && Pow(2, 4) == 16 && Pow(2, 8) == 256
    ensures Pow(2, 16) == 0x1_0000
  {
    assert Pow(2, 4) == 16;
    PowAdd(2, 4, 4);
    PowAdd(2, 8, 8);
  }

  lemma ZeroProduct(x0: nat, k: nat)
    requires x0 * Pow(2, k) == 0
    ensures x0 == 0
  {
    if x0 > 0 { MulMono(1, x0, Pow(2, k)); }
  }

  lemma LeadingBit(x0: nat, k: nat, x: nat)
    requires x == x0 * Pow(2, k) && 0x8000_0000 <= x < 0x1_0000_0000 && k <= 31
    ensures x0 > 0 && Pow(2, 31 - k) <= x0 < Pow(2, 32 - k)
  {
    hide Pow;
    PowAdd(2, 32 - k, k);
    PowAdd(2, 31 - k, k);
    PowStep(2, 31);
    Pow32();
    PowPos(2, k);
    MulCancelStrict(x0, Pow(2, 32 - k), Pow(2, k));
    MulCancel(Pow(2, 31 - k), x0, Pow(2, k));
  }

  /** Removes the trailing zero bits of y and returns their number; 32 for zero. */
  method Lo0bits(y: word) returns (k: nat, y': word)
    ensures y > 0 ==> y == y' * Pow(2, k) && y' % 2 == 1 && k < 32
    ensures y == 0 ==> k == 32 && y' == 0
  {
    hide Pow;
    PowerTable();
    var x := y;
    if x % 8 != 0 {
      if x % 2 == 1 { return 0, y; }
      if (x / 2) % 2 == 1 { return 1, x / 2; }
      return 2, x / 4;
    }
    k := 0;
    k, x := DropZeros(y, k, x, 16, 0x1_0000);
    k, x := DropZeros(y, k, x, 8, 0x100);
    k, x := DropZeros(y, k, x, 4, 0x10);
    k, x := DropZeros(y, k, x, 2, 4);
    k, x := DropZeros(y, k, x, 1, 2);
    if x == 0 { return 32, y; }
    y' := x;
  }

  /** One halving of the search: drops n = log2(m) zero bits when the low n bits are zero. */
  method DropZeros(ghost y: nat, k: nat, x: word, n: nat, m: nat) returns (k': nat, x': word)
    requires y == x * Pow(2, k) && m == Pow(2, n) && m > 1 && (x == 0 || x % (m * m) != 0)
    ensures y == x' * Pow(2, k') && k <= k' <= k + n && (x' == 0 || x' % m != 0)
  {
    hide Pow;
    if x % m == 0 {
      DropKeeps(x, k, n, m);
      return k + n, x / m;
    }
    return k, x;
  }

  lemma DropKeeps(x: nat, k: nat, n: nat, m: nat)
    requires m == Pow(2, n) && m > 1 && x % m == 0
    ensures x * Pow(2, k) == (x / m) * Pow(2, k + n) && x / m <= x
    ensures x % (m * m) != 0 ==> (x / m) % m != 0
  {
    hide Pow;
    var q := x / m;
    DivModProps(x, m);
    PowAdd(2, n, k);
    Assoc(q, m, Pow(2, k));
    MulMono(1, m, q);
    if q % m == 0 {
      DivModProps(q, m);
      Assoc(q / m, m, m);
      MulMono(1, m, m);
      DivModUnique(x, m * m, q / m, 0);
    }
  }

  /** The significand without its t trailing zero bits, in a new Bigint. */
  method D2B(pool: Pool, hi: word, lo: word) returns (b: Bigint, e: int, bits: int, ghost t: nat)
    requires pool.Valid()
    modifies pool, pool.objs, pool.arrs
    ensures pool.Valid() && old(pool.objs) <= pool.objs
    ensures fresh(pool.objs - old(pool.objs)) && fresh(pool.arrs - old(pool.arrs))
    ensures b !in old(pool.val) && b.k == 1 && pool.p5s == old(pool.p5s)
    ensures b in pool.val && pool.val == old(pool.val)[b := pool.val[b]]
    ensures t <= 52 && Mantissa(hi, lo) == pool.val[b] * Pow(2, t) && pool.val[b] > 0
    ensures e == Exponent(hi) + t && bits == 53 - t
  {
    hide *;
    var k, x0, x1 := OddPart(hi, lo);
    t := k;
    e := BiasedExp(hi) - 1023 - 52 + k;
    bits := 53 - k;
    b := pool.TwoWordNumber(lo != 0, x0, x1);
    ExponentIs(hi);
    FunnelPositive((x1 as nat) * 0x1_0000_0000 + x0, k);
  }

  lemma ExponentIs(hi: word)
    ensures Exponent(hi) == BiasedExp(hi) - 1075
  {
  }

  /** The words of the significand shifted down by its k trailing zero bits. */
  method OddPart(hi: word, lo: word) returns (k: nat, x0: word, x1: word)
    ensures k <= 52 && (x1 * 0x1_0000_0000 + x0) * Pow(2, k) == Mantissa(hi, lo)
    ensures x1 * 0x1_0000_0000 + x0 > 0 && (lo == 0 ==> x1 == 0)
  {
    hide Pow;
    var z: word := 0x10_0000 + hi % 0x10_0000;
    if lo != 0 {
      var y;
      k, y := Lo0bits(lo);
      if k != 0 {
        x0, x1 := Funnel(lo, y, z, k);
      } else {
        Pow2Zero();
        x0, x1 := y, z;
      }
    } else {
      var z';
      k, z' := Lo0bits(z);
      x0, x1 := z', 0;
      HighOnly(z, z', k);
      k := k + 32;
    }
    TrailingZeros(hi, lo, x1 * 0x1_0000_0000 + x0, k);
  }

  /** `y | z << 32 - k` and `z >> k`. */
  method Funnel(ghost lo: word, y: word, z: word, k: nat) returns (x0: word, x1: word)
    requires 0 < k < 32 && lo == y * Pow(2, k)
    ensures (x1 * 0x1_0000_0000 + x0) * Pow(2, k) == z * 0x1_0000_0000 + lo
  {
    hide Pow;
    PowAdd(2, 32 - k, k);
    Pow32();
    PowPos(2, k);
    MulCancelStrict(y, Pow(2, 32 - k), Pow(2, k));
    ShiftWord(z, 32 - k, y);
    x0 := (z * Pow(2, 32 - k)) % B + y;
    x1 := z / Pow(2, k);
    assert x1 * 0x1_0000_0000 + x0 == z * Pow(2, 32 - k) + y;
    Dist(z * Pow(2, 32 - k), y, Pow(2, k));
    Assoc(z, Pow(2, 32 - k), Pow(2, k));
  }

  lemma FunnelPositive(v: nat, k: nat)
    requires v * Pow(2, k) > 0
    ensures v > 0
  {
  }

  lemma HighOnly(z: nat, z': nat, k: nat)
    requires z == z' * Pow(2, k) && z > 0
    ensures z' > 0 && z * 0x1_0000_0000 == z' * Pow(2, k + 32)
  {
    PowAdd(2, k, 32);
    Pow32();
    Assoc(z', Pow(2, k), 0x1_0000_0000);
  }

  lemma TrailingZeros(hi: word, lo: word, v: nat, t: nat)
    requires Mantissa(hi, lo) == v * Pow(2, t)
    ensures v > 0 && t <= 52
  {
    hide Pow;
    if t >= 53 {
      Pow53();
      PowMono(2, 53, t);
      if v > 0 { MulMono(1, v, Pow(2, t)); }
    }
  }

  lemma Pow53()
    ensures Pow(2, 53) == 0x20_0000_0000_0000 && Pow(2, 52) == 0x10_0000_0000_0000
  {
    PowAdd(2, 32, 21);
    Pow32();
    PowAdd(2, 16, 5);
    PowerTable();
    assert Pow(2, 5) == 32;
    PowStep(2, 52);
  }
}
