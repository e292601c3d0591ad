/** `dtoa` by multiple-precision integers, for normal doubles. */
module Dtoa {
  import opened Arith
  import opened Words
  import opened Bigints
  import opened Handles
  import opened Decimals
  import opened DigitGen
  import opened DigitLoops
  import opened Doubles
  import opened Scaling

  /** The exponents of 2 and 5 in b, S and mhi. */
  datatype Plan = Plan(b2: int, s2: int, m2: int, b5: nat, s5: nat) {
    /** b/S stands for v * 2^be / 10^k, and mhi/S for half a unit of the significand. */
    ghost predicate Balanced(be: int, k: int, bbits: int) {
      && 0 <= b2 <= 1500 && 0 <= s2 <= 1500 && 0 <= m2 <= 1500 && b5 <= 345 && s5 <= 345
      && b2 - s2 == be - k && m2 - s2 == be - k - (54 - bbits) && s5 - b5 == k
    }

    ghost predicate BalancedFixed(be: int, k: int) {
      && 0 <= b2 <= 1500 && 0 <= s2 <= 1500 && b5 <= 345 && s5 <= 345
      && b2 - s2 == be - k && s5 - b5 == k
    }
  }

  /** Splits the scale into powers of 2 and 5 and cancels common factors of 2; i is the binary exponent of d. */
  method MakePlan(bbits: int, i: int, k: int, leftright: bool) returns (p: Plan)
    requires 1 <= bbits <= 53 && -1023 <= i <= 1023 && -345 <= k <= 345
    ensures leftright ==> p.Balanced(i + 1 - bbits, k, bbits)
    ensures p.BalancedFixed(i + 1 - bbits, k)
  {
    var j := bbits - i - 1;
    var b2, s2, b5: nat, s5: nat;
    if j >= 0 {
      b2, s2 := 0, j;
    } else {
      b2, s2 := -j, 0;
    }
    if k >= 0 {
      b5, s5 := 0, k;
      s2 := s2 + k;
    } else {
      b2 := b2 - k;
      b5, s5 := -k, 0;
    }
    var m2 := b2;
    if leftright {
      b2, s2 := b2 + (1 + 53 - bbits), s2 + (1 + 53 - bbits);
    }
    if m2 > 0 && s2 > 0 {
      var c := if m2 < s2 then m2 else s2;
      b2, m2, s2 := b2 - c, m2 - c, s2 - c;
    }
    p := Plan(b2, s2, m2, b5, s5);
  }

  /** The shift that leaves 28 bits in the top word of S * 2^s2, for S = 5^s5. */
  method ShiftAmount(pool: Pool, S: Bigint, s5: nat, s2: nat, ghost base: Others, ghost hs: set<Bigint>)
    returns (add: nat, ghost n: nat)
    requires pool.Valid() && Held(pool.val, pool.p5s, base, hs) && S in hs && S in pool.val && pool.val[S] == Pow(5, s5)
    ensures add <= 31 && TopIn28(Scaled52(1, s5, s2 + add), n)
  {
    hide Pow, Held, TopIn28, Mul, Pool.Valid, Holds, BitRange;
    var bits := 1;
    ghost var m := 0;
    if s5 != 0 {
      pool.Known(S);
      TopOfNumber(S.x[..], S.wds, pool.val[S]);
      var z := Hi0bits(S.x[S.wds - 1]);
      BitLength(S.x[..], S.wds, pool.val[S], z);
      bits := 32 - z;
      m := S.wds - 1;
    } else {
      OneBit();
    }
    var i := (bits + s2) % 32;
    if i != 0 {
      i := 32 - i;
    }
    add := 0;
    if i > 4 {
      add := i - 4;
    } else if i < 4 {
      add := i + 28;
    }
    n := m + (bits + s2 + add) / 32;
    TopBits(Pow(5, s5), m, bits, s2 + add, n);
  }

  /** The bits of a number: 2^(32m + bits - 1) <= v < 2^(32m + bits). */
  ghost predicate BitRange(v: nat, m: nat, bits: nat) {
    bits > 0 && Pow(2, 32 * m + bits - 1) <= v < Pow(2, 32 * m + bits)
  }

  lemma OneBit()
    ensures BitRange(Pow(5, 0), 0, 1)
  {
    PowOne(2);
    PowOne(5);
  }

  lemma TopOfNumber(s: seq<word>, wds: nat, v: nat)
    requires Holds(s, wds, v) && v > 0
    ensures wds > 0 && s[wds - 1] != 0
  {
    HoldsWords(s, wds, v);
    if wds == 1 && s[0] == 0 {
      VStep(s, 0);
    }
  }

  lemma BitLength(s: seq<word>, wds: nat, v: nat, z: nat)
    requires Holds(s, wds, v) && wds > 0 && z <= 31 && Pow(2, 31 - z) <= s[wds - 1] < Pow(2, 32 - z)
    ensures BitRange(v, wds - 1, 32 - z)
  {
    hide Pow, V;
    HoldsWords(s, wds, v);
    TopBounds(s, wds, v);
    BitPlaces(s[wds - 1], wds - 1, v, z);
  }

  lemma BitPlaces(t: nat, m: nat, v: nat, z: nat)
    requires z <= 31 && Pow(2, 31 - z) <= t < Pow(2, 32 - z) && t * Pow(B, m) <= v < (t + 1) * Pow(B, m)
    ensures BitRange(v, m, 32 - z)
  {
    hide Pow;
    WordPower(m);
    PowAdd(2, 31 - z, 32 * m);
    PowAdd(2, 32 - z, 32 * m);
    MulMono(Pow(2, 31 - z), t, Pow(B, m));
    MulMono(t + 1, Pow(2, 32 - z), Pow(B, m));
  }

  lemma WordPower(n: nat)
    ensures Pow(B, n) == Pow(2, 32 * n)
  {
    hide Pow;
    Pow32();
    PowPow(2, 32, n);
  }

  lemma TopBits(v: nat, m: nat, bits: nat, s2: nat, n: nat)
    requires BitRange(v, m, bits) && (bits + s2) % 32 == 28 && n == m + (bits + s2) / 32
    ensures TopIn28(Mul(Mul(1, v), Pow(2, s2)), n)
  {
    hide Pow;
    var t := 32 * m + bits;
    TopShift(v, t, s2, 32 * n);
    WordPower(n);
    assert t + s2 == 32 * n + 28;
  }

  lemma TopShift(v: nat, t: nat, s2: nat, n: nat)
    requires t > 0 && Pow(2, t - 1) <= v < Pow(2, t) && t + s2 == n + 28
    ensures 0x800_0000 * Pow(2, n) <= v * Pow(2, s2) < 0x1000_0000 * Pow(2, n)
  {
    hide Pow;
    PowAdd(2, t - 1, s2);
    PowAdd(2, t, s2);
    PowAdd(2, 27, n);
    PowAdd(2, 28, n);
    Pow28();
    MulMono(Pow(2, t - 1), v, Pow(2, s2));
    MulMono(v + 1, Pow(2, t), Pow(2, s2));
    Arith.Dist(v, 1, Pow(2, s2));
  }

  lemma Pow28()
    ensures Pow(2, 28) == 0x1000_0000 && Pow(2, 27) == 0x800_0000
  {
    PowerTable();
    PowAdd(2, 16, 8);
    PowAdd(2, 24, 4);
    PowStep(2, 27);
  }

  // ---- building the numbers ----

  /** `if (k > 0) b = lshift(b, k)` */
  method ShiftIf(pool: Pool, b: Bigint, k: int, ghost base: Others, ghost hs: set<Bigint>) returns (r: Bigint)
    requires pool.Valid() && Held(pool.val, pool.p5s, base, hs) && b in hs && b in pool.val
    requires Small(pool.val[b]) && pool.val[b] > 0
    requires 0 <= k < 6400
    modifies pool, pool.objs, pool.arrs
    ensures pool.Valid() && old(pool.objs) <= pool.objs && fresh(pool.objs - old(pool.objs))
    ensures fresh(pool.arrs - old(pool.arrs))
    ensures Held(pool.val, pool.p5s, base, hs - {b} + {r}) && Kept(old(pool.val), pool.val, hs - {b})
    ensures r !in hs - {b} && r in pool.val && pool.val[r] == Mul(old(pool.val[b]), Pow(2, k))
  {
    hide Held, Small, Mul, Pow, Pool.Valid, Kept;
    r := b;
    if k > 0 {
      r := ShiftBy(pool, b, k, base, hs);
    } else {
      NoShift(pool.val[b]);
      KeptSelf(pool.val, pool.p5s, base, hs);
      assert hs - {b} + {b} == hs;
    }
  }

  lemma NoShift(v: nat)
    ensures Mul(v, Pow(2, 0)) == v && Mul(v, Pow(5, 0)) == v
  {
  }

  lemma KeptSelf(val: map<Bigint, nat>, p5s: seq<Bigint>, base: Others, hs: set<Bigint>)
    requires Held(val, p5s, base, hs)
    ensures forall s: set<Bigint> :: s <= hs ==> Kept(val, val, s)
  {
  }

  /** `if (k > 0) b = pow5mult(b, k)` */
  method Power5If(pool: Pool, b: Bigint, k: nat, ghost base: Others, ghost hs: set<Bigint>)
    returns (r: Bigint)
    requires pool.Valid() && Held(pool.val, pool.p5s, base, hs) && b in hs && b in pool.val && pool.val[b] > 0
    requires Small(Mul(pool.val[b], Pow(5, k)))
    modifies pool, pool.objs, pool.arrs
    ensures pool.Valid() && old(pool.objs) <= pool.objs && fresh(pool.objs - old(pool.objs))
    ensures fresh(pool.arrs - old(pool.arrs))
    ensures Held(pool.val, pool.p5s, base, hs - {b} + {r}) && Kept(old(pool.val), pool.val, hs - {b})
    ensures r !in hs - {b} && r in pool.val && pool.val[r] == Mul(old(pool.val[b]), Pow(5, k))
  {
    hide Held, Small, Mul, Pow, Pool.Valid, Kept;
    r := b;
    if k > 0 {
      r := TimesPower5(pool, b, k, base, hs);
    } else {
      NoShift(pool.val[b]);
      KeptSelf(pool.val, pool.p5s, base, hs);
      assert hs - {b} + {b} == hs;
    }
  }

  lemma PowerParts(v: nat, p: nat)
    requires 0 < v < 0x20_0000_0000_0000 && p <= 400
    ensures Small(Mul(v, Pow(5, p))) && Small(Mul(1, Pow(5, p))) && Small(v) && Mul(1, Pow(5, p)) == Pow(5, p)
    ensures Pow(5, p) > 0
    ensures Mul(v, Pow(5, p)) > 0 && Mul(Pow(5, p), v) == Mul(v, Pow(5, p))
  {
    hide Small, Pow;
    SizeBound(v, p, 0);
    SizeBound(1, p, 0);
    MulOnes(Pow(5, p));
    MulComm(Pow(5, p), v);
    MulPositive(v, Pow(5, p));
  }

  /** The powers of 5: b5 into mhi and b for modes 0 and 1. */
  method FreeFives(pool: Pool, b0: Bigint, b5: nat, ghost v: nat, ghost base: Others)
    returns (b: Bigint, mhi: Bigint)
    requires pool.Valid() && Held(pool.val, pool.p5s, base, {b0}) && b0 in pool.val && pool.val[b0] == v
    requires 0 < v < 0x20_0000_0000_0000 && b5 <= 345
    modifies pool, pool.objs, pool.arrs
    ensures pool.Valid() && old(pool.objs) <= pool.objs && fresh(pool.objs - old(pool.objs))
    ensures fresh(pool.arrs - old(pool.arrs))
    ensures Held(pool.val, pool.p5s, base, {b, mhi}) && b != mhi && b in pool.val && mhi in pool.val
    ensures pool.val[b] == Mul(v, Pow(5, b5)) && pool.val[mhi] == Pow(5, b5)
  {
    hide Held, Small, Mul, Pow, Pool.Valid, Kept;
    PowerParts(v, b5);
    ghost var v0 := pool.val;
    b := b0;
    mhi := Fresh(pool, 1, base, {b0});
    KeptIn(v0, pool.val, {b0}, b0);
    assert {b0} + {mhi} == {b, mhi};
    if b5 > 0 {
      b, mhi := MultiplyIn(pool, b, mhi, b5, v, base);
    } else {
      NoFives(v);
    }
  }

  /** mhi = pow5mult(mhi, b5), and b is replaced by mhi * b. */
  method MultiplyIn(pool: Pool, b0: Bigint, mhi0: Bigint, b5: nat, ghost v: nat, ghost base: Others)
    returns (b: Bigint, mhi: Bigint)
    requires pool.Valid() && Held(pool.val, pool.p5s, base, {b0, mhi0}) && b0 != mhi0
    requires b0 in pool.val && mhi0 in pool.val && pool.val[b0] == v && pool.val[mhi0] == 1
    requires 0 < v < 0x20_0000_0000_0000 && b5 <= 345
    modifies pool, pool.objs, pool.arrs
    ensures pool.Valid() && old(pool.objs) <= pool.objs && fresh(pool.objs - old(pool.objs))
    ensures fresh(pool.arrs - old(pool.arrs))
    ensures Held(pool.val, pool.p5s, base, {b, mhi}) && b != mhi && b in pool.val && mhi in pool.val
    ensures pool.val[b] == Mul(v, Pow(5, b5)) && pool.val[mhi] == Pow(5, b5)
  {
    hide Held, Small, Mul, Pow, Pool.Valid, Kept;
    PowerParts(v, b5);
    ghost var v1 := pool.val;
    mhi := TimesPower5(pool, mhi0, b5, base, {b0, mhi0});
    assert {b0, mhi0} - {mhi0} == {b0} && {b0} + {mhi} == {b0, mhi};
    KeptIn(v1, pool.val, {b0}, b0);
    ghost var v2 := pool.val;
    b := Product(pool, mhi, b0, base, {b0, mhi});
    KeptIn(v2, pool.val, {b0, mhi}, mhi);
    ghost var v3 := pool.val;
    assert {b0, mhi} + {b} - {b0} == {b, mhi};
    Free(pool, b0, base, {b0, mhi} + {b});
    KeptIn(v3, pool.val, {b, mhi}, mhi);
    KeptIn(v3, pool.val, {b, mhi}, b);
  }

  lemma NoFives(v: nat)
    ensures Mul(v, Pow(5, 0)) == v && Pow(5, 0) == 1
  {
  }

  /** S = 5^s5 */
  method MakeS(pool: Pool, s5: nat, ghost base: Others, ghost hs: set<Bigint>) returns (S: Bigint)
    requires pool.Valid() && Held(pool.val, pool.p5s, base, hs) && s5 <= 345
    modifies pool, pool.objs, pool.arrs
    ensures pool.Valid() && old(pool.objs) <= pool.objs && fresh(pool.objs - old(pool.objs))
    ensures fresh(pool.arrs - old(pool.arrs))
    ensures Held(pool.val, pool.p5s, base, hs + {S}) && Kept(old(pool.val), pool.val, hs)
    ensures S !in hs && S in pool.val && pool.val[S] == Pow(5, s5)
  {
    hide Held, Small, Mul, Pow, Pool.Valid, Kept;
    PowerParts(1, s5);
    ghost var v0 := pool.val;
    S := Fresh(pool, 1, base, hs);
    ghost var S0, v1 := S, pool.val;
    S := Power5If(pool, S, s5, base, hs + {S});
    assert hs + {S0} - {S0} == hs;
    KeptOver(v0, v1, pool.val, hs);
  }

  lemma KeptOver(v0: map<Bigint, nat>, v1: map<Bigint, nat>, v2: map<Bigint, nat>, hs: set<Bigint>)
    requires Kept(v0, v1, hs) && Kept(v1, v2, hs)
    ensures Kept(v0, v2, hs)
  {
  }

  // ---- modes 0 and 1 ----

  /** What is known of the parts of a finite double, taken with its hidden bit. */
  ghost predicate Parts(m: nat, e: int, v: nat, t: nat) {
    && Significand(m) && -1075 <= e <= 971 && t <= 52 && m == v * Pow(2, t) && 0 < v
  }

  lemma PartsSmall(m: nat, e: int, v: nat, t: nat)
    requires Parts(m, e, v, t)
    ensures v < 0x20_0000_0000_0000 && Significand(m) && -1075 <= e <= 971 && t <= 52 && 0 < v
  {
    MulMono(1, Pow(2, t), v);
  }

  /** The parts of b, S and mhi that are powers of 5. */
  method FivesAndS(pool: Pool, b0: Bigint, b5: nat, s5: nat, ghost v: nat, ghost base: Others)
    returns (b: Bigint, S: Bigint, mhi: Bigint)
    requires pool.Valid() && Held(pool.val, pool.p5s, base, {b0}) && b0 in pool.val && pool.val[b0] == v
    requires 0 < v < 0x20_0000_0000_0000 && b5 <= 345 && s5 <= 345
    modifies pool, pool.objs, pool.arrs
    ensures pool.Valid() && old(pool.objs) <= pool.objs && fresh(pool.objs - old(pool.objs))
    ensures fresh(pool.arrs - old(pool.arrs))
    ensures Held(pool.val, pool.p5s, base, {b, S, mhi}) && b !in {S, mhi} && S != mhi
    ensures b in pool.val && S in pool.val && mhi in pool.val
    ensures pool.val[b] == Mul(v, Pow(5, b5)) && pool.val[S] == Pow(5, s5) && pool.val[mhi] == Pow(5, b5)
  {
    hide Held, Mul, Pow, Pool.Valid, Kept;
    b, mhi := FreeFives(pool, b0, b5, v, base);
    ghost var v0 := pool.val;
    S := MakeS(pool, s5, base, {b, mhi});
    KeptIn(v0, pool.val, {b, mhi}, b);
    KeptIn(v0, pool.val, {b, mhi}, mhi);
    assert {b, mhi} + {S} == {b, S, mhi};
  }

  /** b, S and mhi as far as the test of the estimate: m2 is still to be shifted into mhi. */
  method FreeScale(pool: Pool, b0: Bigint, bbits: int, i: int, k: int, spec: bool,
    ghost m: nat, ghost e: int, ghost v: nat, ghost t: nat, ghost base: Others)
    returns (b: Bigint, S: Bigint, mhi: Bigint, m2: nat, ghost p: Plan, ghost n: nat)
    requires pool.Valid() && Held(pool.val, pool.p5s, base, {b0}) && b0 in pool.val && pool.val[b0] == v
    requires Parts(m, e, v, t) && bbits == 53 - t && i == e + 52 && -345 <= k <= 345
    modifies pool, pool.objs, pool.arrs
    ensures pool.Valid() && old(pool.objs) <= pool.objs && fresh(pool.objs - old(pool.objs))
    ensures fresh(pool.arrs - old(pool.arrs))
    ensures Held(pool.val, pool.p5s, base, {b, S, mhi}) && b !in {S, mhi} && S != mhi
    ensures b in pool.val && S in pool.val && mhi in pool.val
    ensures p.b2 >= 0 && p.s2 >= 0 && m2 <= 1600 && p.b5 <= 345
    ensures pool.val[b] == Scaled52(v, p.b5, p.b2) && pool.val[S] == Scaled52(1, p.s5, p.s2)
    ensures pool.val[mhi] == Pow(5, p.b5)
    ensures e + t + p.s2 == p.b2 + k && p.s5 == p.b5 + k && e - 1 + p.s2 == m2 + k + if spec then 1 else 0
    ensures TopIn28(pool.val[S], n) && Roomy(pool.val[S]) && Small(pool.val[b]) && pool.val[b] > 0 && pool.val[S] > 0
  {
    hide Held, Small, Mul, Pow, Pool.Valid, Kept, Parts, Roomy, TopIn28, Scaled52;
    PartsSmall(m, e, v, t);
    var q := MakePlan(bbits, i, k, true);
    b, S, mhi := FivesAndS(pool, b0, q.b5, q.s5, v, base);
    var b2, s2 := q.b2, q.s2;
    if spec {
      b2, s2 := b2 + 1, s2 + 1;
    }
    var add;
    add, n := ShiftAmount(pool, S, q.s5, s2, base, {b, S, mhi});
    b2, s2, m2 := b2 + add, s2 + add, q.m2 + add;
    p := Plan(b2, s2, m2, q.b5, q.s5);
    b, S := ShiftBoth(pool, b, S, mhi, b2, s2, v, q.b5, q.s5, base);
  }

  method ShiftBoth(pool: Pool, b0: Bigint, S0: Bigint, mhi: Bigint, b2: int, s2: int,
    ghost v: nat, ghost b5: nat, ghost s5: nat, ghost base: Others)
    returns (b: Bigint, S: Bigint)
    requires pool.Valid() && Held(pool.val, pool.p5s, base, {b0, S0, mhi}) && b0 !in {S0, mhi} && S0 != mhi
    requires b0 in pool.val && S0 in pool.val && mhi in pool.val
    requires 0 < v < 0x20_0000_0000_0000 && b5 <= 345 && s5 <= 345 && 0 <= b2 <= 1600 && 0 <= s2 <= 1600
    requires pool.val[b0] == Mul(v, Pow(5, b5)) && pool.val[S0] == Pow(5, s5)
    modifies pool, pool.objs, pool.arrs
    ensures pool.Valid() && old(pool.objs) <= pool.objs && fresh(pool.objs - old(pool.objs))
    ensures fresh(pool.arrs - old(pool.arrs))
    ensures Held(pool.val, pool.p5s, base, {b, S, mhi}) && b !in {S, mhi} && S != mhi
    ensures b in pool.val && S in pool.val && mhi in pool.val && pool.val[mhi] == old(pool.val[mhi])
    ensures pool.val[b] == Scaled52(v, b5, b2) && pool.val[S] == Scaled52(1, s5, s2)
    ensures Roomy(pool.val[S]) && Small(pool.val[b]) && pool.val[b] > 0 && pool.val[S] > 0
  {
    hide Held, Small, Mul, Pow, Pool.Valid, Kept, Roomy;
    PowerParts(v, b5);
    PowerParts(1, s5);
    ghost var v0 := pool.val;
    b := ShiftIf(pool, b0, b2, base, {b0, S0, mhi});
    assert {b0, S0, mhi} - {b0} == {S0, mhi} && {S0, mhi} + {b} == {b, S0, mhi};
    KeptIn(v0, pool.val, {S0, mhi}, S0);
    KeptIn(v0, pool.val, {S0, mhi}, mhi);
    ghost var v1 := pool.val;
    S := ShiftIf(pool, S0, s2, base, {b, S0, mhi});
    assert {b, S0, mhi} - {S0} == {b, mhi} && {b, mhi} + {S} == {b, S, mhi};
    KeptIn(v1, pool.val, {b, mhi}, b);
    KeptIn(v1, pool.val, {b, mhi}, mhi);
    SizeBound(v, b5, b2);
    SizeBound(1, s5, s2);
    Scaled52Pos(v, b5, b2);
    Scaled52Pos(1, s5, s2);
  }

  /** The test of the estimate k, and b and mhi taken ten times when it was one too big. */
  method FreeCheck(pool: Pool, b0: Bigint, S: Bigint, mhi0: Bigint, k0: int, kcheck: bool,
      ghost base: Others)
    returns (b: Bigint, mhi: Bigint, k: int, ghost x: nat)
    requires pool.Valid() && Held(pool.val, pool.p5s, base, {b0, S, mhi0}) && b0 !in {S, mhi0} && S != mhi0
    requires b0 in pool.val && S in pool.val && mhi0 in pool.val
    requires Small(pool.val[b0]) && Small(pool.val[mhi0]) && pool.val[S] > 0
    modifies pool, pool.objs, pool.arrs
    ensures pool.Valid() && old(pool.objs) <= pool.objs && fresh(pool.objs - old(pool.objs))
    ensures fresh(pool.arrs - old(pool.arrs))
    ensures Held(pool.val, pool.p5s, base, {b, S, mhi}) && b !in {S, mhi} && S != mhi
    ensures b in pool.val && S in pool.val && mhi in pool.val && pool.val[S] == old(pool.val[S])
    ensures x == (if kcheck && old(pool.val[b0]) < old(pool.val[S]) then 10 else 1)
    ensures k == (if x == 10 then k0 - 1 else k0)
    ensures pool.val[b] == Mul(old(pool.val[b0]), x) && pool.val[mhi] == Mul(old(pool.val[mhi0]), x)
  {
    hide Held, Small, Mul, Pool.Valid, Kept;
    b, mhi, k, x := b0, mhi0, k0, 1;
    MulOnce(pool.val[b0]);
    MulOnce(pool.val[mhi0]);
    if kcheck {
      var c := Compare(pool, b, S, base, {b, S, mhi});
      if c < 0 {
        k, x := k - 1, 10;
        b, mhi := TenTimesBoth(pool, b, S, mhi, base);
      }
    }
  }

  method TenTimesBoth(pool: Pool, b0: Bigint, S: Bigint, mhi0: Bigint, ghost base: Others)
    returns (b: Bigint, mhi: Bigint)
    requires pool.Valid() && Held(pool.val, pool.p5s, base, {b0, S, mhi0}) && b0 !in {S, mhi0} && S != mhi0
    requires b0 in pool.val && S in pool.val && mhi0 in pool.val
    requires Small(pool.val[b0]) && Small(pool.val[mhi0])
    modifies pool, pool.objs, pool.arrs
    ensures pool.Valid() && old(pool.objs) <= pool.objs && fresh(pool.objs - old(pool.objs))
    ensures fresh(pool.arrs - old(pool.arrs))
    ensures Held(pool.val, pool.p5s, base, {b, S, mhi}) && b !in {S, mhi} && S != mhi
    ensures b in pool.val && S in pool.val && mhi in pool.val && pool.val[S] == old(pool.val[S])
    ensures pool.val[b] == Mul(old(pool.val[b0]), 10) && pool.val[mhi] == Mul(old(pool.val[mhi0]), 10)
  {
    hide Held, Small, Mul, Pool.Valid, Kept;
    ghost var v0 := pool.val;
    b := Times(pool, b0, 10, base, {b0, S, mhi0});
    assert {b0, S, mhi0} - {b0} == {S, mhi0} && {S, mhi0} + {b} == {b, S, mhi0};
    KeptIn(v0, pool.val, {S, mhi0}, S);
    KeptIn(v0, pool.val, {S, mhi0}, mhi0);
    ghost var v1 := pool.val;
    mhi := Times(pool, mhi0, 10, base, {b, S, mhi0});
    assert {b, S, mhi0} - {mhi0} == {b, S} && {b, S} + {mhi} == {b, S, mhi};
    KeptIn(v1, pool.val, {b, S}, S);
    KeptIn(v1, pool.val, {b, S}, b);
  }

  lemma MulOnce(v: nat)
    ensures Mul(v, 1) == v
  {
  }

  /** mhi shifted by m2, and mlo: the same Bigint, or half of mhi for a power of two. */
  method HalfGaps(pool: Pool, b: Bigint, S: Bigint, mhi0: Bigint, m2: nat, spec: bool, ghost base: Others)
    returns (mlo: Bigint, mhi: Bigint)
    requires pool.Valid() && Held(pool.val, pool.p5s, base, {b, S, mhi0}) && b !in {S, mhi0} && S != mhi0
    requires b in pool.val && S in pool.val && mhi0 in pool.val
    requires Small(pool.val[mhi0]) && pool.val[mhi0] > 0 && m2 < 6400 && Small(Mul(pool.val[mhi0], Pow(2, m2)))
    modifies pool, pool.objs, pool.arrs
    ensures pool.Valid() && old(pool.objs) <= pool.objs && fresh(pool.objs - old(pool.objs))
    ensures fresh(pool.arrs - old(pool.arrs))
    ensures Held(pool.val, pool.p5s, base, {b, S, mlo, mhi}) && b !in {S, mlo, mhi} && S !in {mlo, mhi}
    ensures b in pool.val && S in pool.val && mlo in pool.val && mhi in pool.val
    ensures pool.val[S] == old(pool.val[S]) && pool.val[b] == old(pool.val[b])
    ensures pool.val[mlo] == Mul(old(pool.val[mhi0]), Pow(2, m2))
    ensures pool.val[mhi] == if spec then Mul(pool.val[mlo], Pow(2, 1)) else pool.val[mlo]
  {
    hide Held, Small, Mul, Pool.Valid, Kept, Pow;
    ghost var v0 := pool.val;
    ShiftedPos(v0[mhi0], m2);
    mhi := ShiftIf(pool, mhi0, m2, base, {b, S, mhi0});
    assert {b, S, mhi0} - {mhi0} == {b, S} && {b, S} + {mhi} == {b, S, mhi};
    KeptIn(v0, pool.val, {b, S}, b);
    KeptIn(v0, pool.val, {b, S}, S);
    mlo := mhi;
    assert {b, S, mhi} == {b, S, mlo, mhi};
    if spec {
      mhi := DoubleCopy(pool, b, S, mlo, base);
    }
  }

  lemma ShiftedPos(v: nat, k: nat)
    requires v > 0
    ensures Mul(v, Pow(2, k)) > 0
  {
    MulMono(1, v, Pow(2, k));
  }

  method DoubleCopy(pool: Pool, b: Bigint, S: Bigint, mlo: Bigint, ghost base: Others) returns (mhi: Bigint)
    requires pool.Valid() && Held(pool.val, pool.p5s, base, {b, S, mlo}) && b !in {S, mlo} && S != mlo
    requires b in pool.val && S in pool.val && mlo in pool.val && Small(pool.val[mlo]) && pool.val[mlo] > 0
    modifies pool, pool.objs, pool.arrs
    ensures pool.Valid() && old(pool.objs) <= pool.objs && fresh(pool.objs - old(pool.objs))
    ensures fresh(pool.arrs - old(pool.arrs))
    ensures Held(pool.val, pool.p5s, base, {b, S, mlo, mhi}) && mhi !in {b, S, mlo}
    ensures b in pool.val && S in pool.val && mlo in pool.val && mhi in pool.val
    ensures pool.val[S] == old(pool.val[S]) && pool.val[b] == old(pool.val[b]) && pool.val[mlo] == old(pool.val[mlo])
    ensures pool.val[mhi] == Mul(old(pool.val[mlo]), Pow(2, 1))
  {
    hide Held, Small, Mul, Pool.Valid, Kept, Pow;
    ghost var hs, v0 := {b, S, mlo}, pool.val;
    mhi := Copy(pool, mlo, base, hs);
    ghost var v1, c := pool.val, mhi;
    KeptIn(v0, v1, hs, mlo);
    mhi := ShiftBy(pool, mhi, 1, base, hs + {mhi});
    assert hs + {c} - {c} == hs && hs + {mhi} == {b, S, mlo, mhi};
    KeptOver(v0, v1, pool.val, hs);
    KeptIn(v0, pool.val, hs, b);
    KeptIn(v0, pool.val, hs, S);
    KeptIn(v0, pool.val, hs, mlo);
  }

  lemma TimesGap(p5: nat, x: nat, p2: nat)
    ensures Mul(Mul(p5, x), p2) == x * Mul(Mul(1, p5), p2)
    ensures Mul(Mul(Mul(p5, x), p2), Pow(2, 1)) == x * Mul(Mul(Mul(1, p5), p2), Pow(2, 1))
  {
    PowOne(2);
    Assoc(p5, x, p2);
    MulComm(p5, x);
    Assoc(x, p5, p2);
  }

  /** After the scaling and the test of the estimate, the loop of modes 0 and 1 may start. */
  lemma FreeReady(m: nat, e: int, v: nat, t: nat, k0: int, p: Plan, m2: nat, spec: bool, closed: bool,
      kcheck: bool, x: nat, mlo: nat, mhi: nat)
    requires Parts(m, e, v, t) && (spec <==> m == 0x10_0000_0000_0000) && p.b2 >= 0 && p.s2 >= 0
    requires e + t + p.s2 == p.b2 + k0 && p.s5 == p.b5 + k0 && e - 1 + p.s2 == m2 + k0 + if spec then 1 else 0
    requires if kcheck then Estimate10(DoubleValue(m, e), k0) else Exact10(DoubleValue(m, e), k0)
    requires x == if kcheck && Scaled52(v, p.b5, p.b2) < Scaled52(1, p.s5, p.s2) then 10 else 1
    requires mlo == Mul(Mul(Pow(5, p.b5), x), Pow(2, m2))
    requires mhi == if spec then Mul(mlo, Pow(2, 1)) else mlo
    ensures var k := if x == 10 then k0 - 1 else k0;
      && Exact10(DoubleValue(m, e), k)
      && Running(Goal(DoubleValue(m, e), HalfGapBelow(m, e), HalfGapAbove(m, e), closed, k),
           Scaled52(1, p.s5, p.s2), "", Mul(Scaled52(v, p.b5, p.b2), x), mlo, mhi)
  {
    hide Pow, RPow, Scaled52, DoubleValue, HalfGapAbove, HalfGapBelow, Running, Mul, Exact10, Ratios, Pre, Gap;
    var d, lo, up := DoubleValue(m, e), HalfGapBelow(m, e), HalfGapAbove(m, e);
    var b, S, l := Scaled52(v, p.b5, p.b2), Scaled52(1, p.s5, p.s2), Scaled52(1, p.b5, m2);
    var h := Scaled52(1, p.b5, if spec then m2 + 1 else m2);
    FreeRatios(m, e, v, t, k0, p.b5, p.b2, p.s5, p.s2, m2, spec);
    GapNumbers(p.b5, m2, spec, x, mlo, mhi);
    MulOnce(b);
    TimesTenIs(b);
    if kcheck {
      Botched(d, lo, up, k0, S, b, l, h);
    }
    FreeStart(m, e, closed, if x == 10 then k0 - 1 else k0, S, Mul(b, x), mlo, mhi);
  }

  lemma GapNumbers(b5: nat, m2: nat, spec: bool, x: nat, mlo: nat, mhi: nat)
    requires mlo == Mul(Mul(Pow(5, b5), x), Pow(2, m2)) && mhi == if spec then Mul(mlo, Pow(2, 1)) else mlo
    ensures mlo == x * Scaled52(1, b5, m2)
    ensures mhi == x * Scaled52(1, b5, if spec then m2 + 1 else m2)
    ensures x == 10 ==> mlo == 10 * Scaled52(1, b5, m2)
    ensures x == 1 ==> mlo == Scaled52(1, b5, m2) && mhi == Scaled52(1, b5, if spec then m2 + 1 else m2)
  {
    hide Pow;
    TimesGap(Pow(5, b5), x, Pow(2, m2));
    Scaled52Double(1, b5, m2);
  }

  /** Modes 0 and 1: the shortest decimal that rounds to d, and the nearest such. */
  method FreePath(pool: Pool, b0: Bigint, bbits: int, i: int, k0: int, kcheck: bool, spec: bool, closed: bool,
    ghost m: nat, ghost e: int, ghost v: nat, ghost t: nat, ghost base: Others)
    returns (s: string, decpt: int, ghost k: int)
    requires pool.Valid() && Held(pool.val, pool.p5s, base, {b0}) && b0 in pool.val && pool.val[b0] == v
    requires Parts(m, e, v, t) && bbits == 53 - t && i == e + 52 && -345 <= k0 <= 345
    requires spec <==> m == 0x10_0000_0000_0000
    requires if kcheck then Estimate10(DoubleValue(m, e), k0) else Exact10(DoubleValue(m, e), k0)
    modifies pool, pool.objs, pool.arrs
    ensures pool.Valid() && old(pool.objs) <= pool.objs && fresh(pool.objs - old(pool.objs))
    ensures fresh(pool.arrs - old(pool.arrs))
    ensures Held(pool.val, pool.p5s, base, {})
    ensures Exact10(DoubleValue(m, e), k)
    ensures Good(Goal(DoubleValue(m, e), HalfGapBelow(m, e), HalfGapAbove(m, e), closed, k), s, decpt)
  {
    hide *;
    var b, S, mlo, mhi, up, kk;
    ghost var g, vS, n;
    b, S, mlo, mhi, kk, g, vS, n := FreeBegin(pool, b0, bbits, i, k0, kcheck, spec, closed, m, e, v, t, base);
    s, up, b, mlo, mhi := FreeLoop(pool, b, S, mlo, mhi, closed, g, vS, n, base);
    k := kk;
    if up {
      kk := kk + 1;
    }
    decpt := kk + 1;
    FreeAll(pool, b, S, mlo, mhi, base);
  }

  /** The part of modes 0 and 1 before the loop. */
  method FreeBegin(pool: Pool, b0: Bigint, bbits: int, i: int, k0: int, kcheck: bool, spec: bool, closed: bool,
    ghost m: nat, ghost e: int, ghost v: nat, ghost t: nat, ghost base: Others)
    returns (b: Bigint, S: Bigint, mlo: Bigint, mhi: Bigint, k: int, ghost g: Goal, ghost vS: nat, ghost n: nat)
    requires pool.Valid() && Held(pool.val, pool.p5s, base, {b0}) && b0 in pool.val && pool.val[b0] == v
    requires Parts(m, e, v, t) && bbits == 53 - t && i == e + 52 && -345 <= k0 <= 345
    requires spec <==> m == 0x10_0000_0000_0000
    requires if kcheck then Estimate10(DoubleValue(m, e), k0) else Exact10(DoubleValue(m, e), k0)
    modifies pool, pool.objs, pool.arrs
    ensures pool.Valid() && old(pool.objs) <= pool.objs && fresh(pool.objs - old(pool.objs))
    ensures fresh(pool.arrs - old(pool.arrs))
    ensures g == Goal(DoubleValue(m, e), HalfGapBelow(m, e), HalfGapAbove(m, e), closed, k)
    ensures Exact10(DoubleValue(m, e), k)
    ensures InLoop(pool.val, pool.p5s, base, b, S, mlo, mhi, g, "", vS) && TopIn28(vS, n) && Roomy(vS)
  {
    hide Held, Small, Mul, Pow, Pool.Valid, Kept, Parts, Roomy, TopIn28, Scaled52, Running, Exact10, Estimate10,
      DoubleValue, HalfGapBelow, HalfGapAbove;
    ghost var p, x, m2;
    b, S, mlo, mhi, k, p, m2, x, n := FreeNumbers(pool, b0, bbits, i, k0, kcheck, spec, m, e, v, t, base);
    vS := pool.val[S];
    g := Goal(DoubleValue(m, e), HalfGapBelow(m, e), HalfGapAbove(m, e), closed, k);
    FreeReady(m, e, v, t, k0, p, m2, spec, closed, kcheck, x, pool.val[mlo], pool.val[mhi]);
  }

  /** b, S, mlo and mhi for the exact k. */
  method FreeNumbers(pool: Pool, b0: Bigint, bbits: int, i: int, k0: int, kcheck: bool, spec: bool,
    ghost m: nat, ghost e: int, ghost v: nat, ghost t: nat, ghost base: Others)
    returns (b: Bigint, S: Bigint, mlo: Bigint, mhi: Bigint, k: int, ghost p: Plan, ghost m2: nat, ghost x: nat,
        ghost n: nat)
    requires pool.Valid() && Held(pool.val, pool.p5s, base, {b0}) && b0 in pool.val && pool.val[b0] == v
    requires Parts(m, e, v, t) && bbits == 53 - t && i == e + 52 && -345 <= k0 <= 345
    modifies pool, pool.objs, pool.arrs
    ensures pool.Valid() && old(pool.objs) <= pool.objs && fresh(pool.objs - old(pool.objs))
    ensures fresh(pool.arrs - old(pool.arrs))
    ensures Held(pool.val, pool.p5s, base, {b, S, mlo, mhi}) && b !in {S, mlo, mhi} && S !in {mlo, mhi}
    ensures b in pool.val && S in pool.val && mlo in pool.val && mhi in pool.val
    ensures p.b2 >= 0 && p.s2 >= 0
    ensures e + t + p.s2 == p.b2 + k0 && p.s5 == p.b5 + k0 && e - 1 + p.s2 == m2 + k0 + if spec then 1 else 0
    ensures x == (if kcheck && Scaled52(v, p.b5, p.b2) < Scaled52(1, p.s5, p.s2) then 10 else 1)
    ensures k == (if x == 10 then k0 - 1 else k0)
    ensures pool.val[b] == Mul(Scaled52(v, p.b5, p.b2), x) && pool.val[S] == Scaled52(1, p.s5, p.s2)
    ensures pool.val[mlo] == Mul(Mul(Pow(5, p.b5), x), Pow(2, m2))
    ensures pool.val[mhi] == if spec then Mul(pool.val[mlo], Pow(2, 1)) else pool.val[mlo]
    ensures TopIn28(pool.val[S], n) && Roomy(pool.val[S])
  {
    hide Held, Small, Mul, Pow, Pool.Valid, Kept, Parts, Roomy, TopIn28, Scaled52;
    var shift;
    b, S, mhi, shift, p, n := FreeScale(pool, b0, bbits, i, k0, spec, m, e, v, t, base);
    m2 := shift;
    b, mlo, mhi, k, x := FreeTail(pool, b, S, mhi, shift, k0, kcheck, spec, p.b5, base);
  }

  /** The test of the estimate, and then the half-gaps. */
  method FreeTail(pool: Pool, b0: Bigint, S: Bigint, mhi0: Bigint, m2: nat, k0: int, kcheck: bool, spec: bool,
    ghost b5: nat, ghost base: Others)
    returns (b: Bigint, mlo: Bigint, mhi: Bigint, k: int, ghost x: nat)
    requires pool.Valid() && Held(pool.val, pool.p5s, base, {b0, S, mhi0}) && b0 !in {S, mhi0} && S != mhi0
    requires b0 in pool.val && S in pool.val && mhi0 in pool.val && pool.val[mhi0] == Pow(5, b5)
    requires Small(pool.val[b0]) && pool.val[S] > 0 && b5 <= 345 && m2 <= 1600
    modifies pool, pool.objs, pool.arrs
    ensures pool.Valid() && old(pool.objs) <= pool.objs && fresh(pool.objs - old(pool.objs))
    ensures fresh(pool.arrs - old(pool.arrs))
    ensures Held(pool.val, pool.p5s, base, {b, S, mlo, mhi}) && b !in {S, mlo, mhi} && S !in {mlo, mhi}
    ensures b in pool.val && S in pool.val && mlo in pool.val && mhi in pool.val
    ensures x == (if kcheck && old(pool.val[b0]) < old(pool.val[S]) then 10 else 1)
    ensures k == (if x == 10 then k0 - 1 else k0)
    ensures pool.val[b] == Mul(old(pool.val[b0]), x) && pool.val[S] == old(pool.val[S])
    ensures pool.val[mlo] == Mul(Mul(Pow(5, b5), x), Pow(2, m2))
    ensures pool.val[mhi] == if spec then Mul(pool.val[mlo], Pow(2, 1)) else pool.val[mlo]
  {
    hide Held, Small, Mul, Pow, Pool.Valid, Kept;
    GapRoom(b5, m2);
    b, mhi, k, x := FreeCheck(pool, b0, S, mhi0, k0, kcheck, base);
    GapRoomTen(b5, m2, x);
    mlo, mhi := HalfGaps(pool, b, S, mhi, m2, spec, base);
  }

  lemma GapRoom(b5: nat, m2: nat)
    requires b5 <= 345 && m2 <= 1600
    ensures Small(Pow(5, b5))
  {
    hide Small, Pow;
    SizeBound(1, b5, m2);
    MulOnes(Pow(5, b5));
  }

  lemma MulOnes(v: nat)
    ensures Mul(1, v) == v && Mul(v, 1) == v
  {
  }

  lemma GapRoomTen(b5: nat, m2: nat, x: nat)
    requires b5 <= 345 && m2 <= 1600 && (x == 1 || x == 10)
    ensures Small(Mul(Pow(5, b5), x)) && Mul(Pow(5, b5), x) > 0
    ensures Small(Mul(Mul(Pow(5, b5), x), Pow(2, m2)))
  {
    hide Small, Pow, Mul;
    SizeBound(x, b5, m2);
    SizeBound(x, b5, 0);
    MulComm(x, Pow(5, b5));
    MulPositive(Pow(5, b5), x);
  }

  /** Frees S, mhi, mlo when it is another Bigint, and b. */
  method FreeAll(pool: Pool, b: Bigint, S: Bigint, mlo: Bigint, mhi: Bigint, ghost base: Others)
    requires pool.Valid() && Held(pool.val, pool.p5s, base, {b, S, mlo, mhi}) && b !in {S, mlo, mhi} && S !in {mlo, mhi}
    modifies pool, pool.objs, pool.arrs
    ensures pool.Valid() && pool.objs == old(pool.objs) && pool.arrs == old(pool.arrs)
    ensures Held(pool.val, pool.p5s, base, {})
  {
    hide *;
    Free(pool, S, base, {b, S, mlo, mhi});
    assert {b, S, mlo, mhi} - {S} == {b, mlo, mhi};
    if mlo != mhi {
      Free(pool, mlo, base, {b, mlo, mhi});
      assert {b, mlo, mhi} - {mlo} == {b, mhi};
    } else {
      assert {b, mlo, mhi} == {b, mhi};
    }
    Free(pool, mhi, base, {b, mhi});
    assert {b, mhi} - {mhi} == {b};
    Free(pool, b, base, {b});
    assert {b} - {b} == {};
  }

  // ---- modes 2 and 3 ----

  /** b and S as far as the test of the estimate. */
  method FixedScale(pool: Pool, b0: Bigint, bbits: int, i: int, k: int,
    ghost m: nat, ghost e: int, ghost v: nat, ghost t: nat, ghost base: Others)
    returns (b: Bigint, S: Bigint, ghost p: Plan, ghost n: nat)
    requires pool.Valid() && Held(pool.val, pool.p5s, base, {b0}) && b0 in pool.val && pool.val[b0] == v
    requires Parts(m, e, v, t) && bbits == 53 - t && i == e + 52 && -345 <= k <= 345
    modifies pool, pool.objs, pool.arrs
    ensures pool.Valid() && old(pool.objs) <= pool.objs && fresh(pool.objs - old(pool.objs))
    ensures fresh(pool.arrs - old(pool.arrs))
    ensures Held(pool.val, pool.p5s, base, {b, S}) && b != S && b in pool.val && S in pool.val
    ensures p.b2 >= 0 && p.s2 >= 0
    ensures pool.val[b] == Scaled52(v, p.b5, p.b2) && pool.val[S] == Scaled52(1, p.s5, p.s2)
    ensures e + t + p.s2 == p.b2 + k && p.s5 == p.b5 + k
    ensures TopIn28(pool.val[S], n) && Roomy(pool.val[S]) && Small(pool.val[b]) && pool.val[S] > 0
  {
    hide Held, Small, Mul, Pow, Pool.Valid, Kept, Parts, Roomy, TopIn28, Scaled52;
    PartsSmall(m, e, v, t);
    var q := MakePlan(bbits, i, k, false);
    b, S := FixedFives(pool, b0, q.b5, q.s5, v, base);
    var add;
    add, n := ShiftAmount(pool, S, q.s5, q.s2, base, {b, S});
    p := Plan(q.b2 + add, q.s2 + add, q.m2 + add, q.b5, q.s5);
    b, S := ShiftPair(pool, b, S, q.b2 + add, q.s2 + add, v, q.b5, q.s5, base);
  }

  method FixedFives(pool: Pool, b0: Bigint, b5: nat, s5: nat, ghost v: nat, ghost base: Others)
    returns (b: Bigint, S: Bigint)
    requires pool.Valid() && Held(pool.val, pool.p5s, base, {b0}) && b0 in pool.val && pool.val[b0] == v
    requires 0 < v < 0x20_0000_0000_0000 && b5 <= 345 && s5 <= 345
    modifies pool, pool.objs, pool.arrs
    ensures pool.Valid() && old(pool.objs) <= pool.objs && fresh(pool.objs - old(pool.objs))
    ensures fresh(pool.arrs - old(pool.arrs))
    ensures Held(pool.val, pool.p5s, base, {b, S}) && b != S && b in pool.val && S in pool.val
    ensures pool.val[b] == Mul(v, Pow(5, b5)) && pool.val[S] == Pow(5, s5)
  {
    hide Held, Small, Mul, Pow, Pool.Valid, Kept;
    PowerParts(v, b5);
    b := Power5If(pool, b0, b5, base, {b0});
    assert {b0} - {b0} + {b} == {b};
    ghost var v0 := pool.val;
    S := MakeS(pool, s5, base, {b});
    KeptIn(v0, pool.val, {b}, b);
    assert {b} + {S} == {b, S};
  }

  method ShiftPair(pool: Pool, b0: Bigint, S0: Bigint, b2: int, s2: int,
    ghost v: nat, ghost b5: nat, ghost s5: nat, ghost base: Others)
    returns (b: Bigint, S: Bigint)
    requires pool.Valid() && Held(pool.val, pool.p5s, base, {b0, S0}) && b0 != S0 && b0 in pool.val && S0 in pool.val
    requires 0 < v < 0x20_0000_0000_0000 && b5 <= 345 && s5 <= 345 && 0 <= b2 <= 1600 && 0 <= s2 <= 1600
    requires pool.val[b0] == Mul(v, Pow(5, b5)) && pool.val[S0] == Pow(5, s5)
    modifies pool, pool.objs, pool.arrs
    ensures pool.Valid() && old(pool.objs) <= pool.objs && fresh(pool.objs - old(pool.objs))
    ensures fresh(pool.arrs - old(pool.arrs))
    ensures Held(pool.val, pool.p5s, base, {b, S}) && b != S && b in pool.val && S in pool.val
    ensures pool.val[b] == Scaled52(v, b5, b2) && pool.val[S] == Scaled52(1, s5, s2)
    ensures Roomy(pool.val[S]) && Small(pool.val[b]) && pool.val[S] > 0
  {
    hide Held, Small, Mul, Pow, Pool.Valid, Kept, Roomy;
    PowerParts(v, b5);
    PowerParts(1, s5);
    ghost var v0 := pool.val;
    b := ShiftIf(pool, b0, b2, base, {b0, S0});
    assert {b0, S0} - {b0} == {S0} && {S0} + {b} == {b, S0};
    KeptIn(v0, pool.val, {S0}, S0);
    ghost var v1 := pool.val;
    S := ShiftIf(pool, S0, s2, base, {b, S0});
    assert {b, S0} - {S0} == {b} && {b} + {S} == {b, S};
    KeptIn(v1, pool.val, {b}, b);
    SizeBound(v, b5, b2);
    SizeBound(1, s5, s2);
    Scaled52Pos(1, s5, s2);
  }

  /** The test of the estimate in modes 2 and 3. */
  method FixedCheck(pool: Pool, b0: Bigint, S: Bigint, k0: int, kcheck: bool, ilim0: int, ilim1: int,
      ghost base: Others)
    returns (b: Bigint, k: int, ilim: int, ghost x: nat)
    requires pool.Valid() && Held(pool.val, pool.p5s, base, {b0, S}) && b0 != S && b0 in pool.val && S in pool.val
    requires Small(pool.val[b0]) && pool.val[S] > 0
    modifies pool, pool.objs, pool.arrs
    ensures pool.Valid() && old(pool.objs) <= pool.objs && fresh(pool.objs - old(pool.objs))
    ensures fresh(pool.arrs - old(pool.arrs))
    ensures Held(pool.val, pool.p5s, base, {b, S}) && b != S && b in pool.val && S in pool.val
    ensures pool.val[S] == old(pool.val[S])
    ensures x == (if kcheck && old(pool.val[b0]) < old(pool.val[S]) then 10 else 1)
    ensures (x == 10 ==> k == k0 - 1 && ilim == ilim1) && (x == 1 ==> k == k0 && ilim == ilim0)
    ensures pool.val[b] == Mul(old(pool.val[b0]), x)
  {
    hide Held, Small, Mul, Pool.Valid, Kept;
    b, k, ilim, x := b0, k0, ilim0, 1;
    MulOnce(pool.val[b0]);
    if kcheck {
      var c := Compare(pool, b, S, base, {b, S});
      if c < 0 {
        k, ilim, x := k - 1, ilim1, 10;
        ghost var v0 := pool.val;
        b := Times(pool, b, 10, base, {b0, S});
        assert {b0, S} - {b0} == {S} && {S} + {b} == {b, S};
        KeptIn(v0, pool.val, {S}, S);
      }
    }
  }

  /** The digit limits before and after a correction of k. */
  method Limits(mode: int, ndigits: int, k: int) returns (ilim: int, ilim1: int)
    requires mode == 2 || mode == 3
    ensures mode == 2 ==> ilim == ilim1 == if ndigits <= 0 then 1 else ndigits
    ensures mode == 3 ==> ilim == ndigits + k + 1 && ilim1 == ilim - 1
  {
    if mode == 2 {
      ilim := if ndigits <= 0 then 1 else ndigits;
      ilim1 := ilim;
    } else {
      ilim := ndigits + k + 1;
      ilim1 := ilim - 1;
    }
  }

  /** The part of modes 2 and 3 before the digits. */
  method FixedBegin(pool: Pool, b0: Bigint, bbits: int, i: int, k0: int, kcheck: bool, mode: int, ndigits: int,
    ghost m: nat, ghost e: int, ghost v: nat, ghost t: nat, ghost base: Others)
    returns (b: Bigint, S: Bigint, k: int, ilim: int, ghost vS: nat, ghost n: nat)
    requires pool.Valid() && Held(pool.val, pool.p5s, base, {b0}) && b0 in pool.val && pool.val[b0] == v
    requires Parts(m, e, v, t) && bbits == 53 - t && i == e + 52 && -345 <= k0 <= 345 && (mode == 2 || mode == 3)
    requires if kcheck then Estimate10(DoubleValue(m, e), k0) else Exact10(DoubleValue(m, e), k0)
    modifies pool, pool.objs, pool.arrs
    ensures pool.Valid() && old(pool.objs) <= pool.objs && fresh(pool.objs - old(pool.objs))
    ensures fresh(pool.arrs - old(pool.arrs))
    ensures Held(pool.val, pool.p5s, base, {b, S}) && b != S && b in pool.val && S in pool.val && pool.val[S] == vS
    ensures FixedRatio(DoubleValue(m, e), k, vS, pool.val[b]) && TopIn28(vS, n) && Roomy(vS)
    ensures mode == 2 ==> ilim == if ndigits <= 0 then 1 else ndigits
    ensures mode == 3 ==> ilim == ndigits + k + 1
  {
    hide Held, Small, Mul, Pow, Pool.Valid, Kept, Parts, Roomy, TopIn28, Scaled52, Exact10, Estimate10, DoubleValue,
      FixedRatio;
    var ilim0, ilim1 := Limits(mode, ndigits, k0);
    ghost var p, x;
    b, S, p, n := FixedScale(pool, b0, bbits, i, k0, m, e, v, t, base);
    vS := pool.val[S];
    b, k, ilim, x := FixedCheck(pool, b, S, k0, kcheck, ilim0, ilim1, base);
    PartsValue(m, e, v, t);
    FixedReady(m, e, v, t, k0, p.b5, p.b2, p.s5, p.s2, kcheck, x);
  }

  lemma PartsValue(m: nat, e: int, v: nat, t: nat)
    requires Parts(m, e, v, t)
    ensures m == v * Pow(2, t)
  {
  }

  /** Mode 3 when the requested place is above the first digit: nothing, or a single 1. */
  method NoneOrOne(pool: Pool, b: Bigint, S0: Bigint, ilim: int, ndigits: int, k0: int,
    ghost d: real, ghost vS: nat, ghost base: Others)
    returns (s: string, k: int, S: Bigint)
    requires pool.Valid() && Held(pool.val, pool.p5s, base, {b, S0}) && b != S0 && b in pool.val
    requires S0 in pool.val && pool.val[S0] == vS
    requires FixedRatio(d, k0, vS, pool.val[b]) && Roomy(vS) && ilim <= 0 && ilim == ndigits + k0 + 1
    modifies pool, pool.objs, pool.arrs
    ensures pool.Valid() && old(pool.objs) <= pool.objs && fresh(pool.objs - old(pool.objs))
    ensures fresh(pool.arrs - old(pool.arrs))
    ensures Held(pool.val, pool.p5s, base, {b, S}) && b != S
    ensures Rounded(d, -ndigits, s, k + 1) && (s == "" ==> k + 1 == -ndigits)
  {
    hide Held, Small, Mul, Pool.Valid, Kept, Roomy, Rounded, Pre, RPow, Exact10;
    RoomySmall(vS, vS);
    FiveTimes(vS);
    S := S0;
    ghost var vb := pool.val[b];
    var none := ilim < 0;
    if !none {
      ghost var v0 := pool.val;
      S := Times(pool, S, 5, base, {b, S});
      assert {b, S0} - {S0} == {b} && {b} + {S} == {b, S};
      KeptIn(v0, pool.val, {b}, b);
      var c := Compare(pool, b, S, base, {b, S});
      none := c <= 0;
    }
    NoDigits(d, k0, -ndigits, vS, vb, !none);
    if none {
      s, k := "", -1 - ndigits;
    } else {
      s, k := "1", k0 + 1;
    }
  }

  lemma FiveTimes(v: nat)
    ensures Mul(v, 5) == 5 * v
  {
  }

  /** Modes 2 and 3: d rounded to the requested place. */
  method FixedPath(pool: Pool, b0: Bigint, bbits: int, i: int, k0: int, kcheck: bool, mode: int, ndigits: int,
    ghost m: nat, ghost e: int, ghost v: nat, ghost t: nat, ghost base: Others)
    returns (s: string, decpt: int, ghost k: int)
    requires pool.Valid() && Held(pool.val, pool.p5s, base, {b0}) && b0 in pool.val && pool.val[b0] == v
    requires Parts(m, e, v, t) && bbits == 53 - t && i == e + 52 && -345 <= k0 <= 345 && (mode == 2 || mode == 3)
    requires if kcheck then Estimate10(DoubleValue(m, e), k0) else Exact10(DoubleValue(m, e), k0)
    modifies pool, pool.objs, pool.arrs
    ensures pool.Valid() && old(pool.objs) <= pool.objs && fresh(pool.objs - old(pool.objs))
    ensures fresh(pool.arrs - old(pool.arrs))
    ensures Held(pool.val, pool.p5s, base, {})
    ensures Exact10(DoubleValue(m, e), k)
    ensures mode == 2 ==> 1 <= |s| <= (if ndigits <= 0 then 1 else ndigits)
    ensures mode == 2 ==> Rounded(DoubleValue(m, e), k + 1 - (if ndigits <= 0 then 1 else ndigits), s, decpt)
    ensures mode == 3 ==> Rounded(DoubleValue(m, e), -ndigits, s, decpt) && (s == "" ==> decpt == -ndigits)
  {
    hide Held, Small, Mul, Pow, Pool.Valid, Kept, Parts, Roomy, TopIn28, Exact10, Estimate10, DoubleValue, FixedRatio,
      Rounded, Fixed;
    var b, S, kk, ilim;
    ghost var vS, n, d;
    d := DoubleValue(m, e);
    b, S, kk, ilim, vS, n := FixedBegin(pool, b0, bbits, i, k0, kcheck, mode, ndigits, m, e, v, t, base);
    k := kk;
    FixedExact(d, k, vS, pool.val[b]);
    if ilim <= 0 && mode > 2 {
      s, kk, S := NoneOrOne(pool, b, S, ilim, ndigits, kk, d, vS, base);
    } else {
      FixedStart(d, k, vS, pool.val[b]);
      var up;
      s, up, b := FixedLoop(pool, b, S, ilim, d, k, vS, n, base);
      if up {
        kk := kk + 1;
      }
    }
    decpt := kk + 1;
    FreePair(pool, b, S, base);
  }

  lemma FixedExact(d: real, k: int, S: nat, b: nat)
    requires FixedRatio(d, k, S, b)
    ensures Exact10(d, k)
  {
  }

  method FreePair(pool: Pool, b: Bigint, S: Bigint, ghost base: Others)
    requires pool.Valid() && Held(pool.val, pool.p5s, base, {b, S}) && b != S
    modifies pool, pool.objs, pool.arrs
    ensures pool.Valid() && pool.objs == old(pool.objs) && pool.arrs == old(pool.arrs)
    ensures Held(pool.val, pool.p5s, base, {})
  {
    hide *;
    Free(pool, S, base, {b, S});
    assert {b, S} - {S} == {b};
    Free(pool, b, base, {b});
    assert {b} - {b} == {};
  }

  // ---- dtoa ----

  /** `d < tens[k]`, which is exact as 10^22 is still a double. */
  method BelowTens(m: nat, e: int, k: nat) returns (less: bool)
    ensures less <==> DoubleValue(m, e) < RPow(10, k)
  {
    hide Pow, RPow;
    RPowNat(10, k);
    if e >= 0 {
      less := m * Pow(2, e) < Pow(10, k);
      IntProduct(m, Pow(2, e));
      RPowNat(2, e);
    } else {
      less := m < Pow(10, k) * Pow(2, -e);
      IntProduct(Pow(10, k), Pow(2, -e));
      RPowNat(2, -e);
      RPowInverse(2, e);
      MoveFactor(m as real, RPow(2, e), RPow(2, -e), RPow(10, k));
    }
  }

  lemma MoveFactor(m: real, a: real, b: real, c: real)
    requires a * b == 1.0 && a > 0.0 && b > 0.0
    ensures m * a < c <==> m < c * b
  {
    RMulLess(m * a, c, b);
    RAssoc(m, a, b);
  }

  /** Removes the estimate's error for small k; `kcheck` tells that the test is still to be made. */
  method SettleK(m: nat, e: int, k0: int) returns (k: int, kcheck: bool)
    requires Estimate10(DoubleValue(m, e), k0)
    ensures kcheck ==> k == k0
    ensures !kcheck ==> Exact10(DoubleValue(m, e), k) && k0 - 1 <= k <= k0
  {
    hide RPow, DoubleValue;
    k, kcheck := k0, true;
    if 0 <= k <= 22 {
      var less := BelowTens(m, e, k);
      if less {
        k := k - 1;
      }
      kcheck := false;
    }
  }

  /** The double without its sign bit. */
  function Magnitude(hi: word): word { hi % 0x8000_0000 }

  /** A finite double other than zero, and an estimate of the logarithm of its value. */
  ghost predicate Estimated(hi: word, k0: int, lo: word) {
    BiasedExp(hi) != 2047 && !IsZero(hi, lo) && Estimate10(DoubleValue(Mantissa(hi, lo), Exponent(hi)), k0)
  }

  /**
   * What the caller's mode promises of the digits of m * 2^e: in mode 0 and outside 0..9 the
   * shortest in the interval, its ends included for an even m, and nearest among those; in mode 1
   * the same without the ends; in 2 and 6 ndigits significant digits at most, correctly rounded;
   * in 3 and 7 ndigits after the point, correctly rounded.
   */
  ghost predicate Promised(m: nat, e: int, mode: int, ndigits: int, k: int, s: string, decpt: int) {
    var d, n := DoubleValue(m, e), if ndigits <= 0 then 1 else ndigits;
    && Exact10(d, k)
    && (mode == 0 || mode < 0 || mode > 9 ==>
          Good(Goal(d, HalfGapBelow(m, e), HalfGapAbove(m, e), m % 2 == 0, k), s, decpt))
    && (mode == 1 ==> Good(Goal(d, HalfGapBelow(m, e), HalfGapAbove(m, e), false, k), s, decpt))
    && (mode == 2 || mode == 6 ==> 1 <= |s| <= n && Rounded(d, k + 1 - n, s, decpt))
    && (mode == 3 || mode == 7 ==> Rounded(d, -ndigits, s, decpt) && (s == "" ==> decpt == -ndigits))
  }

  /** The same of a double given by its bits: 11 of exponent and 52 of fraction, to which the hidden bit is added. */
  ghost predicate Printed(hi: word, lo: word, mode: int, ndigits: int, k: int, s: string, decpt: int) {
    Promised(0x10_0000_0000_0000 + hi % 0x10_0000 * 0x1_0000_0000 + lo, hi / 0x10_0000 % 0x800 - 1075,
      mode, ndigits, k, s, decpt)
  }

  lemma PrintedIs(hi: word, lo: word, mode: int, ndigits: int, k: int, s: string, decpt: int)
    ensures Printed(hi, lo, mode, ndigits, k, s, decpt)
      == Promised(Mantissa(hi, lo), Exponent(hi), mode, ndigits, k, s, decpt)
  {
    hide Promised;
  }

  /** Modes outside 0..9 are mode 0, and 6 to 9 are 2 to 5 without the quick path. */
  function PlainMode(mode: int): int { if mode < 0 || mode > 9 then 0 else if mode > 5 then mode - 4 else mode }

  /** The modes that the switch maps onto another keep their promise there. */
  lemma ModePromised(m: nat, e: int, mode: int, ndigits: int, k: int, s: string, decpt: int)
    requires mode < 4 || mode == 6 || mode == 7 || mode > 9
    requires Promised(m, e, PlainMode(mode), ndigits, k, s, decpt)
    ensures Promised(m, e, mode, ndigits, k, s, decpt)
  {
    hide Exact10, DoubleValue, Good, Rounded;
  }

  lemma FiniteParts(hi: word, lo: word, v: nat, t: nat, k0: int)
    requires Estimated(hi, k0, lo) && Mantissa(hi, lo) == v * Pow(2, t) && t <= 52 && v > 0
    ensures Parts(Mantissa(hi, lo), Exponent(hi), v, t) && -345 <= k0 <= 345
    ensures Estimate10(DoubleValue(Mantissa(hi, lo), Exponent(hi)), k0)
  {
    hide Pow, RPow, DoubleValue, Estimate10;
    ExponentBound(Mantissa(hi, lo), Exponent(hi), k0);
  }

  lemma ExponentBoundExact(m: nat, e: int, k0: int)
    requires Significand(m) && -1075 <= e <= 971 && Exact10(DoubleValue(m, e), k0)
    ensures -345 <= k0 <= 345
  {
    hide Pow, DoubleValue;
    RPowMono(10, k0 - 1, 1);
    hide RPow;
    ExponentBound(m, e, k0);
  }

  /** The digits of a finite double other than zero. */
  method Digits(pool: Pool, hi: word, lo: word, mode: int, ndigits: int, k0: int, ghost base: Others)
    returns (s: string, decpt: int, ghost k: int)
    requires pool.Valid() && Held(pool.val, pool.p5s, base, {}) && Estimated(hi, k0, lo) && 0 <= mode <= 3
    modifies pool, pool.objs, pool.arrs
    ensures pool.Valid() && old(pool.objs) <= pool.objs && fresh(pool.objs - old(pool.objs))
    ensures fresh(pool.arrs - old(pool.arrs))
    ensures Held(pool.val, pool.p5s, base, {})
    ensures Promised(Mantissa(hi, lo), Exponent(hi), mode, ndigits, k, s, decpt)
  {
    hide Held, Pow, RPow, Pool.Valid, Parts, DoubleValue, Estimate10, Exact10, HalfGapAbove, HalfGapBelow, Good,
      Rounded, Mantissa, Estimated;
    ghost var m, e, v0 := Mantissa(hi, lo), Exponent(hi), pool.val;
    var b, be, bbits;
    ghost var t;
    b, be, bbits, t := D2B(pool, hi, lo);
    ghost var v := pool.val[b];
    HeldAdd(v0, pool.p5s, base, {}, pool.val, b, v);
    assert {} + {b} == {b};
    FiniteParts(hi, lo, v, t, k0);
    var i := BiasedExp(hi) - 1023;
    var kk, kcheck := SettleK(Mantissa(hi, lo), Exponent(hi), k0);
    SettledBound(m, e, v, t, k0, kk, kcheck);
    ParityOf(hi, lo);
    if mode == 2 || mode == 3 {
      s, decpt, k := FixedPath(pool, b, bbits, i, kk, kcheck, mode, ndigits, m, e, v, t, base);
    } else {
      var spec := lo == 0 && hi % 0x10_0000 == 0;
      s, decpt, k := FreePath(pool, b, bbits, i, kk, kcheck, spec, mode != 1 && lo % 2 == 0, m, e, v, t, base);
    }
  }

  lemma SettledBound(m: nat, e: int, v: nat, t: nat, k0: int, k: int, kcheck: bool)
    requires Parts(m, e, v, t) && -345 <= k0 <= 345
    requires if kcheck then k == k0 else Exact10(DoubleValue(m, e), k)
    ensures -345 <= k <= 345
  {
    hide Pow, RPow, DoubleValue, Exact10;
    if !kcheck {
      ExponentBoundExact(m, e, k);
    }
  }

  lemma ParityOf(hi: word, lo: word)
    ensures Mantissa(hi, lo) % 2 == lo % 2
    ensures Mantissa(hi, lo) == 0x10_0000_0000_0000 <==> lo == 0 && hi % 0x10_0000 == 0
    ensures Exponent(hi) == BiasedExp(hi) - 1075
  {
  }

  /**
   * `dtoa`: sign, digits and decimal point. What is printed of a subnormal double is not its
   * value, but that of its bits with the hidden bit set. The estimate k0 of log10 is given. At
   * return every Bigint the call took is on its free list, apart from the cached powers of 5,
   * and the numbers of others are as before.
   */
  method Dtoa(pool: Pool, hi: word, lo: word, mode: int, ndigits: int, k0: int)
    returns (s: string, decpt: int, sign: nat, ghost k: int)
    requires pool.Valid() && (mode < 4 || mode == 6 || mode == 7 || mode > 9)
    requires BiasedExp(hi) != 2047 && !IsZero(hi, lo) ==> Estimated(hi, k0, lo)
    modifies pool, pool.objs, pool.arrs
    ensures pool.Valid() && pool.Own() == old(pool.Own())
    ensures old(pool.objs) <= pool.objs && old(pool.p5s) <= pool.p5s
    ensures fresh(pool.objs - old(pool.objs)) && fresh(pool.arrs - old(pool.arrs))
    ensures sign == hi / 0x8000_0000
    ensures hi / 0x10_0000 % 0x800 == 0x7ff ==>
              decpt == 9999 && s == if hi % 0x10_0000 == 0 && lo == 0 then "Infinity" else "NaN"
    ensures hi % 0x8000_0000 == 0 && lo == 0 ==> s == "0" && decpt == 1
    ensures hi / 0x10_0000 % 0x800 != 0x7ff && !(hi % 0x8000_0000 == 0 && lo == 0) ==>
              Printed(hi, lo, mode, ndigits, k, s, decpt)
  {
    hide Promised, Held, Pool.Inv, Pool.Own, Estimated, IsZero;
    sign := hi / 0x8000_0000;
    var h := Magnitude(hi);
    MagnitudeSame(hi, lo, k0);
    k := 0;
    if BiasedExp(h) == 2047 {
      decpt := 9999;
      s := if lo == 0 && h % 0x10_0000 == 0 then "Infinity" else "NaN";
      return;
    }
    if h == 0 && lo == 0 {
      s, decpt := "0", 1;
      return;
    }
    ghost var base := Others(pool.Own(), pool.p5s);
    OwnHeld(pool);
    s, decpt, k := Digits(pool, h, lo, PlainMode(mode), ndigits, k0, base);
    ModePromised(Mantissa(h, lo), Exponent(h), mode, ndigits, k, s, decpt);
    PrintedIs(hi, lo, mode, ndigits, k, s, decpt);
    HeldOwn(pool, base);
  }

  lemma MagnitudeSame(hi: word, lo: word, k0: int)
    ensures BiasedExp(Magnitude(hi)) == BiasedExp(hi) && Magnitude(hi) % 0x10_0000 == hi % 0x10_0000
    ensures IsZero(hi, lo) <==> Magnitude(hi) == 0 && lo == 0
    ensures Mantissa(Magnitude(hi), lo) == Mantissa(hi, lo) && Exponent(Magnitude(hi)) == Exponent(hi)
    ensures Estimated(hi, k0, lo) ==> Estimated(Magnitude(hi), k0, lo)
  {
    var h := Magnitude(hi);
    var a, s := hi / 0x10_0000, hi / 0x8000_0000;
    assert hi == s * 0x8000_0000 + h;
    DivModUnique(hi, 0x10_0000, s * 0x800 + h / 0x10_0000, h % 0x10_0000);
    assert h / 0x10_0000 < 0x800;
    DivModUnique(a, 0x800, s, h / 0x10_0000);
    assert Mantissa(h, lo) == Mantissa(hi, lo) && Exponent(h) == Exponent(hi);
  }

  lemma OwnHeld(pool: Pool)
    requires pool.Valid()
    ensures Held(pool.val, pool.p5s, Others(pool.Own(), pool.p5s), {})
  {
    pool.NodesInUse();
  }

  lemma HeldOwn(pool: Pool, base: Others)
    requires Held(pool.val, pool.p5s, base, {})
    ensures pool.Own() == base.own && base.powers <= pool.p5s
  {
  }
}
