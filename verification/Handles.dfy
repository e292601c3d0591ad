/**
 * The Bigint operations as `dtoa` uses them: a few numbers of its own, `hs`, beside the
 * numbers `base` of others, which stay as they are.
 */
module Handles {
  import opened Arith
  import opened Words
  import opened Bigints

  /** The numbers of others and the powers that were cached before. */
  datatype Others = Others(own: map<Bigint, nat>, powers: seq<Bigint>)

  /** The pool holds `base`, the handles `hs`, the cached powers, and nothing else. */
  ghost predicate Held(val: map<Bigint, nat>, p5s: seq<Bigint>, base: Others, hs: set<Bigint>) {
    && base.powers <= p5s
    && (forall o :: o in base.own ==> o in val && val[o] == base.own[o] && o !in p5s && o !in hs)
    && (forall o :: o in hs ==> o in val && o !in p5s && o.k >= 1)
    && (forall o :: o in val ==> o in p5s || o in base.own || o in hs)
    && (forall o :: o in p5s ==> o in val)
  }

  ghost predicate Kept(v0: map<Bigint, nat>, v1: map<Bigint, nat>, hs: set<Bigint>) {
    forall h :: h in hs ==> h in v0 && h in v1 && v1[h] == v0[h]
  }

  lemma HeldReplace(v0: map<Bigint, nat>, p: seq<Bigint>, base: Others, hs: set<Bigint>, b: Bigint,
      v1: map<Bigint, nat>, r: Bigint, x: nat)
    requires Held(v0, p, base, hs) && b in hs && v1 == (v0 - {b})[r := x] && (r == b || r !in v0) && r.k >= 1
    ensures Held(v1, p, base, hs - {b} + {r}) && Kept(v0, v1, hs - {b}) && r !in hs - {b} && v1[r] == x
  {
  }

  lemma HeldUpdate(v0: map<Bigint, nat>, p: seq<Bigint>, base: Others, hs: set<Bigint>, b: Bigint,
      v1: map<Bigint, nat>, x: nat)
    requires Held(v0, p, base, hs) && b in hs && v1 == v0[b := x]
    ensures Held(v1, p, base, hs) && Kept(v0, v1, hs - {b}) && v1[b] == x
  {
  }

  lemma HeldAdd(v0: map<Bigint, nat>, p: seq<Bigint>, base: Others, hs: set<Bigint>, v1: map<Bigint,
      nat>, c: Bigint, x: nat)
    requires Held(v0, p, base, hs) && c !in v0 && v1 == v0[c := x] && c.k >= 1
    ensures Held(v1, p, base, hs + {c}) && Kept(v0, v1, hs) && c !in hs && v1[c] == x
  {
  }

  lemma HeldDrop(v0: map<Bigint, nat>, p: seq<Bigint>, base: Others, hs: set<Bigint>, b: Bigint,
      v1: map<Bigint, nat>)
    requires Held(v0, p, base, hs) && b in hs && v1 == v0 - {b}
    ensures Held(v1, p, base, hs - {b}) && Kept(v0, v1, hs - {b})
  {
  }

  lemma HeldPower(v0: map<Bigint, nat>, p: seq<Bigint>, base: Others, hs: set<Bigint>, b: Bigint,
      v1: map<Bigint, nat>, r: Bigint, p': seq<Bigint>)
    requires Held(v0, p, base, hs) && b in hs && Replaced(v0, b, v1, r, p, p') && r.k >= 1
    requires forall o :: o in p' ==> o in v1
    ensures Held(v1, p', base, hs - {b} + {r}) && Kept(v0, v1, hs - {b}) && r !in hs - {b}
  {
  }

  lemma HeldIn(v: map<Bigint, nat>, p: seq<Bigint>, base: Others, hs: set<Bigint>, h: Bigint)
    requires Held(v, p, base, hs) && h in hs
    ensures h in v && h !in p && h.k >= 1
  {
  }

  lemma KeptIn(v0: map<Bigint, nat>, v1: map<Bigint, nat>, hs: set<Bigint>, h: Bigint)
    requires Kept(v0, v1, hs) && h in hs
    ensures h in v0 && h in v1 && v1[h] == v0[h]
  {
  }

  /** At most `n` words, far below the largest class. */
  ghost predicate Small(v: nat) { v < Pow(B, 200) }

  /** There is room for ten times v. */
  ghost predicate Roomy(v: nat) { Small(Mul(v, 10)) }

  lemma SmallWords(pool: Pool, b: Bigint)
    requires pool.Valid() && b in pool.val && Small(pool.val[b])
    ensures b.wds <= 200 && Pow(2, KMAX) == 0x8000 && Small(pool.val[b])
  {
    pool.WdsBound(b, 200);
    Pow15();
  }

  lemma Pow15()
    ensures Pow(2, 15) == 0x8000
  {
    assert Pow(2, 5) == 32;
    PowAdd(2, 5, 5);
    PowAdd(2, 10, 5);
  }

  /** b * m, as `b = multadd(b, m, 0)`. */
  method Times(pool: Pool, b: Bigint, m: nat, ghost base: Others, ghost hs: set<Bigint>) returns (r: Bigint)
    requires pool.Valid() && Held(pool.val, pool.p5s, base, hs) && b in hs && b in pool.val && Small(pool.val[b])
    requires 1 <= m <= 10
    modifies pool, pool.objs, pool.arrs
    ensures pool.Valid() && old(pool.objs) <= pool.objs && fresh(pool.objs - old(pool.objs))
    ensures fresh(pool.arrs - old(pool.arrs))
    ensures Held(pool.val, pool.p5s, base, hs - {b} + {r}) && Kept(old(pool.val), pool.val, hs - {b})
    ensures r !in hs - {b} && r in pool.val && pool.val[r] == Mul(old(pool.val[b]), m)
  {
    hide *;
    SmallWords(pool, b);
    HeldIn(pool.val, pool.p5s, base, hs, b);
    pool.Known(b);
    Room200(b.wds);
    ghost var v0, p := pool.val, pool.p5s;
    r := pool.MultAdd(b, m, 0);
    HeldReplace(v0, p, base, hs, b, pool.val, r, Mul(v0[b], m) + 0);
  }

  lemma Room200(wds: nat)
    requires wds <= 200
    ensures wds < Pow(2, KMAX) && wds + 200 <= Pow(2, KMAX)
  {
    Pow15();
  }

  lemma SmallRoom(v: nat)
    requires Small(v)
    ensures v < Room()
  {
    hide Pow;
    Pow14();
    PowMono(B, 200, 0x4000);
  }

  lemma Pow14()
    ensures Pow(2, 14) == 0x4000
  {
    assert Pow(2, 7) == 128;
    PowAdd(2, 7, 7);
  }

  /** b * 5^k, as `b = pow5mult(b, k)`. */
  method TimesPower5(pool: Pool, b: Bigint, k: nat, ghost base: Others, ghost hs: set<Bigint>)
    returns (r: Bigint)
    requires pool.Valid() && Held(pool.val, pool.p5s, base, hs) && b in hs && b in pool.val && pool.val[b] > 0
    requires Small(Mul(pool.val[b], Pow(5, k)))
    modifies pool, pool.objs, pool.arrs
    ensures pool.Valid() && old(pool.objs) <= pool.objs && fresh(pool.objs - old(pool.objs))
    ensures fresh(pool.arrs - old(pool.arrs))
    ensures Held(pool.val, pool.p5s, base, hs - {b} + {r}) && Kept(old(pool.val), pool.val, hs - {b})
    ensures r !in hs - {b} && r in pool.val && pool.val[r] == Mul(old(pool.val[b]), Pow(5, k))
  {
    hide *;
    HeldIn(pool.val, pool.p5s, base, hs, b);
    SmallRoom(Mul(pool.val[b], Pow(5, k)));
    ghost var v0, p := pool.val, pool.p5s;
    r := pool.Pow5Mult(b, k);
    pool.NodesInUse();
    HeldPower(v0, p, base, hs, b, pool.val, r, pool.p5s);
  }

  /** b * 2^k, as `b = lshift(b, k)`. */
  method ShiftBy(pool: Pool, b: Bigint, k: nat, ghost base: Others, ghost hs: set<Bigint>) returns (r: Bigint)
    requires pool.Valid() && Held(pool.val, pool.p5s, base, hs) && b in hs && b in pool.val && Small(pool.val[b])
    requires k < 6400 && (pool.val[b] > 0 || k < 32)
    modifies pool, pool.objs, pool.arrs
    ensures pool.Valid() && old(pool.objs) <= pool.objs && fresh(pool.objs - old(pool.objs))
    ensures fresh(pool.arrs - old(pool.arrs))
    ensures Held(pool.val, pool.p5s, base, hs - {b} + {r}) && Kept(old(pool.val), pool.val, hs - {b})
    ensures r !in hs - {b} && r in pool.val && pool.val[r] == Mul(old(pool.val[b]), Pow(2, k))
  {
    hide *;
    SmallWords(pool, b);
    HeldIn(pool.val, pool.p5s, base, hs, b);
    ShiftRoom(k, b.wds);
    ghost var v0, p := pool.val, pool.p5s;
    r := pool.Lshift(b, k);
    ShiftedIs(v0[b], k);
    HeldReplace(v0, p, base, hs, b, pool.val, r, Shifted(v0[b], k));
  }

  lemma ShiftRoom(k: nat, wds: nat)
    requires k < 6400 && wds <= 200
    ensures k / 32 + wds + 1 <= Pow(2, KMAX)
  {
    Pow15();
  }

  lemma ShiftedIs(v: nat, k: nat)
    ensures Shifted(v, k) == Mul(v, Pow(2, k))
  {
  }

  /** A new number a * b. */
  method Product(pool: Pool, a: Bigint, b: Bigint, ghost base: Others, ghost hs: set<Bigint>)
    returns (c: Bigint)
    requires pool.Valid() && Held(pool.val, pool.p5s, base, hs) && a in hs && b in hs && a in pool.val && b in pool.val
    requires Small(pool.val[a]) && Small(pool.val[b]) && pool.val[a] > 0
    modifies pool, pool.objs, pool.arrs
    ensures pool.Valid() && old(pool.objs) <= pool.objs && fresh(pool.objs - old(pool.objs))
    ensures fresh(pool.arrs - old(pool.arrs))
    ensures Held(pool.val, pool.p5s, base, hs + {c}) && Kept(old(pool.val), pool.val, hs)
    ensures c !in hs && c in pool.val && pool.val[c] == Mul(old(pool.val[a]), old(pool.val[b]))
  {
    hide *;
    SmallWords(pool, a);
    SmallWords(pool, b);
    HeldIn(pool.val, pool.p5s, base, hs, a);
    HeldIn(pool.val, pool.p5s, base, hs, b);
    pool.Known(a);
    Room200(a.wds);
    ghost var v0, p := pool.val, pool.p5s;
    c := pool.Mult(a, b);
    HeldAdd(v0, p, base, hs, pool.val, c, Mul(v0[a], v0[b]));
  }

  /** A new number i. */
  method Fresh(pool: Pool, i: word, ghost base: Others, ghost hs: set<Bigint>) returns (c: Bigint)
    requires pool.Valid() && Held(pool.val, pool.p5s, base, hs)
    modifies pool, pool.objs, pool.arrs
    ensures pool.Valid() && old(pool.objs) <= pool.objs && fresh(pool.objs - old(pool.objs))
    ensures fresh(pool.arrs - old(pool.arrs))
    ensures Held(pool.val, pool.p5s, base, hs + {c}) && Kept(old(pool.val), pool.val, hs)
    ensures c !in hs && c in pool.val && pool.val[c] == i
  {
    hide *;
    ghost var v0, p := pool.val, pool.p5s;
    c := pool.I2B(i);
    HeldAdd(v0, p, base, hs, pool.val, c, i);
  }

  /** A new copy of b, as `Balloc(b->k)` and `Bcopy`. */
  method Copy(pool: Pool, b: Bigint, ghost base: Others, ghost hs: set<Bigint>) returns (c: Bigint)
    requires pool.Valid() && Held(pool.val, pool.p5s, base, hs) && b in hs && b in pool.val && pool.val[b] > 0
    modifies pool, pool.objs, pool.arrs
    ensures pool.Valid() && old(pool.objs) <= pool.objs && fresh(pool.objs - old(pool.objs))
    ensures fresh(pool.arrs - old(pool.arrs))
    ensures Held(pool.val, pool.p5s, base, hs + {c}) && Kept(old(pool.val), pool.val, hs)
    ensures c !in hs && c in pool.val && pool.val[c] == old(pool.val[b])
  {
    hide *;
    HeldIn(pool.val, pool.p5s, base, hs, b);
    ghost var v0, p := pool.val, pool.p5s;
    c := pool.Clone(b);
    HeldAdd(v0, p, base, hs, pool.val, c, v0[b]);
  }

  method Free(pool: Pool, b: Bigint, ghost base: Others, ghost hs: set<Bigint>)
    requires pool.Valid() && Held(pool.val, pool.p5s, base, hs) && b in hs
    modifies pool`freelist, pool`val
    ensures pool.Valid() && Held(pool.val, pool.p5s, base, hs - {b}) && Kept(old(pool.val), pool.val, hs - {b})
    ensures pool.objs == old(pool.objs) && pool.arrs == old(pool.arrs)
  {
    hide *;
    HeldIn(pool.val, pool.p5s, base, hs, b);
    ghost var v0, p := pool.val, pool.p5s;
    pool.Release(b);
    HeldDrop(v0, p, base, hs, b, pool.val);
  }

  /** The next digit: floor(b / S), leaving b mod S. */
  method Quotient(pool: Pool, b: Bigint, S: Bigint, ghost n: nat, ghost base: Others, ghost hs: set<Bigint>)
    returns (q: nat)
    requires pool.Valid() && Held(pool.val, pool.p5s, base, hs) && b in hs && S in hs && b != S && b in pool.val
    requires S in pool.val
    requires TopIn28(pool.val[S], n) && pool.val[b] < 10 * pool.val[S]
    modifies pool, pool.objs, pool.arrs
    ensures pool.Valid() && pool.objs == old(pool.objs) && pool.arrs == old(pool.arrs)
    ensures Held(pool.val, pool.p5s, base, hs) && Kept(old(pool.val), pool.val, hs - {b})
    ensures old(pool.val[S]) > 0 && q == Div(old(pool.val[b]), old(pool.val[S]))
    ensures b in pool.val && pool.val[b] == Mod(old(pool.val[b]), old(pool.val[S]))
  {
    hide *;
    HeldIn(pool.val, pool.p5s, base, hs, b);
    pool.Known(S);
    pool.Known(b);
    TopWord(S.x[..], S.wds, pool.val[S], n);
    ghost var v0, p := pool.val, pool.p5s;
    q := pool.QuoRem(b, S);
    HeldUpdate(v0, p, base, hs, b, pool.val, Mod(v0[b], v0[S]));
  }

  /** The top of n+1 words has its 4 high bits clear and the next bit set. */
  ghost predicate TopIn28(v: nat, n: nat) { 0x800_0000 * Pow(B, n) <= v < 0x1000_0000 * Pow(B, n) }

  lemma TopWord(s: seq<word>, wds: nat, v: nat, n: nat)
    requires Holds(s, wds, v) && TopIn28(v, n)
    ensures wds == n + 1 && wds <= |s| && 0x800_0000 <= s[wds - 1] < 0x1000_0000
  {
    hide Pow, V;
    HoldsSpan(s, wds, v);
    HoldsWords(s, wds, v);
    var p := Pow(B, n);
    TopLength(s, wds, v, n);
    TopBounds(s, n + 1, v);
    MulCancelStrict(0x800_0000, s[n] + 1, p);
    MulCancelStrict(s[n], 0x1000_0000, p);
  }

  lemma TopLength(s: seq<word>, wds: nat, v: nat, n: nat)
    requires Holds(s, wds, v) && TopIn28(v, n)
    ensures wds == n + 1 && Pow(B, n) > 0
  {
    hide V;
    HoldsSpan(s, wds, v);
    var p := Pow(B, n);
    assert v >= p && v < Pow(B, n + 1);
    if wds > n + 1 {
      PowMono(B, n + 1, wds - 1);
    } else if wds < n + 1 {
      PowMono(B, Span(wds), if n == 0 then 1 else n);
    }
  }

  /** The sign of a - b, for b > 0. */
  method Compare(pool: Pool, a: Bigint, b: Bigint, ghost base: Others, ghost hs: set<Bigint>) returns (r: int)
    requires pool.Valid() && Held(pool.val, pool.p5s, base, hs) && a in hs && b in hs && a in pool.val && b in pool.val
    requires pool.val[b] > 0
    ensures (r < 0 <==> pool.val[a] < pool.val[b]) && (r > 0 <==> pool.val[a] > pool.val[b])
  {
    hide *;
    pool.Known(b);
    r := pool.Cmp(a, b);
  }

  /**
   * The sign of b - (S - mhi): 1 when S < mhi. When b is 0 and mhi is S it is 0 or -1,
   * as the two zeros may have different lengths.
   */
  method CompareDiff(pool: Pool, b: Bigint, S: Bigint, mhi: Bigint, ghost base: Others,
      ghost hs: set<Bigint>)
    returns (j1: int)
    requires pool.Valid() && Held(pool.val, pool.p5s, base, hs) && b in hs && S in hs && mhi in hs
    requires b in pool.val && S in pool.val && mhi in pool.val && pool.val[S] > 0
    modifies pool, pool.objs, pool.arrs
    ensures pool.Valid() && old(pool.objs) <= pool.objs && fresh(pool.objs - old(pool.objs))
    ensures fresh(pool.arrs - old(pool.arrs))
    ensures Held(pool.val, pool.p5s, base, hs) && Kept(old(pool.val), pool.val, hs)
    ensures j1 > 0 <==> old(pool.val[b]) + old(pool.val[mhi]) > old(pool.val[S])
    ensures j1 == 0 ==> old(pool.val[b]) + old(pool.val[mhi]) == old(pool.val[S])
    ensures j1 < 0 ==>
              || old(pool.val[b]) + old(pool.val[mhi]) < old(pool.val[S])
              || (old(pool.val[b]) == 0 && old(pool.val[mhi]) == old(pool.val[S]))
  {
    hide *;
    ghost var v0, p := pool.val, pool.p5s;
    var delta := pool.Diff(S, mhi);
    DistanceIs(v0[S], v0[mhi]);
    if delta.sign != 0 {
      j1 := 1;
    } else {
      j1 := pool.Cmp(b, delta);
    }
    AddDrop(v0, p, base, hs, delta, Distance(v0[S], v0[mhi]));
    pool.Release(delta);
  }

  lemma AddDrop(v0: map<Bigint, nat>, p: seq<Bigint>, base: Others, hs: set<Bigint>, c: Bigint, x: nat)
    requires Held(v0, p, base, hs) && c !in v0
    ensures c !in p && v0[c := x] - {c} == v0 && Kept(v0, v0, hs)
  {
  }

  lemma DistanceIs(a: nat, b: nat)
    ensures Distance(a, b) == if a < b then b - a else a - b
  {
  }
}
