/** The Bigint package: numbers in pooled word arrays, with one free list per size class. */
module Bigints {
  import opened Arith
  import opened Words

  const KMAX: nat := 15

  /**
   * `s[..wds]` is a normalised representation of v: the top word of a multi-word number
   * is nonzero. Zero is either the one word 0 or, after `quorem`, no word at all above
   * a first word 0.
   */
  ghost predicate Holds(s: seq<word>, wds: nat, v: nat) {
    && 0 < |s|
    && wds <= |s|
    && (wds >= 2 ==> s[wds - 1] != 0)
    && (wds == 0 ==> s[0] == 0)
    && V(s[..wds]) == v
  }

  /** The number of words the loops look at. */
  function Span(wds: nat): (n: nat)
    ensures n >= 1 && n >= wds
  { if wds == 0 then 1 else wds }

  lemma HoldsSpan(s: seq<word>, wds: nat, v: nat)
    requires Holds(s, wds, v)
    ensures Span(wds) <= |s| && V(s[..Span(wds)]) == v
    ensures Span(wds) >= 2 ==> v >= Pow(B, Span(wds) - 1)
    ensures v < Pow(B, Span(wds))
    ensures wds == 0 ==> v == 0
  {
    if wds == 0 {
      VZeros(s[..1], 0);
      assert s[..1][..0] == s[..0];
    }
    if wds >= 2 {
      VTop(s[..wds]);
    }
    VBound(s[..Span(wds)]);
  }

  lemma HoldsIntro(s: seq<word>, wds: nat, v: nat)
    requires 0 < |s| && wds <= |s| && V(s[..Span(wds)]) == v
    requires Span(wds) >= 2 ==> v >= Pow(B, Span(wds) - 1)
    requires wds == 0 ==> v == 0
    ensures Holds(s, wds, v)
  {
    if wds == 0 {
      VZero(s[..1]);
      assert s[..1][0] == s[0];
    }
    if wds >= 2 {
      VTopNonzero(s[..wds]);
    }
  }

  lemma HoldsLen(s: seq<word>, wds: nat, v: nat)
    requires Holds(s, wds, v)
    ensures 0 < |s| && wds <= Span(wds) <= |s|
    ensures v > 0 ==> wds > 0
  {
  }

  lemma HoldsSame(s: seq<word>, t: seq<word>, wds: nat, v: nat)
    requires Holds(s, wds, v) && 0 < |t| && wds <= |t| && t[..wds] == s[..wds]
    requires wds == 0 ==> t[0] == s[0]
    ensures Holds(t, wds, v)
  {
    if wds >= 2 {
      assert t[wds - 1] == t[..wds][wds - 1];
    }
  }

  lemma MultAddKeeps(s: seq<word>, t: seq<word>, wds: nat, v: nat, m: nat, a: nat)
    requires Holds(s, wds, v) && |t| == |s| && m >= 1 && (wds > 0 || a == 0)
    requires V(t[..Span(wds)]) == Scaled(V(s[..Span(wds)]), m, a)
    ensures Holds(t, wds, Mul(v, m) + a)
  {
    HoldsSpan(s, wds, v);
    MulMono(1, m, v);
    HoldsIntro(t, wds, v * m + a);
  }

  lemma MultAddGrows(s: seq<word>, t: seq<word>, t': seq<word>, wds: nat, v: nat, m: nat, a: nat, carry: word)
    requires Holds(s, wds, v) && |t| == |s| && m < 0x1_0000 && (wds > 0 || a == 0)
    requires V(t[..Span(wds)]) + At(carry, Span(wds)) == Scaled(V(s[..Span(wds)]), m, a) && carry > 0
    ensures wds > 0
    ensures wds < |t'| && t'[..wds] == t[..wds] && t'[wds] == carry ==> Holds(t', wds + 1, Mul(v, m) + a)
  {
    HoldsSpan(s, wds, v);
    MulMono(1, carry, Pow(B, Span(wds)));
    if wds < |t'| && t'[..wds] == t[..wds] && t'[wds] == carry {
      VStep(t', wds);
    }
  }

  /** Values below this have at most half of the words of the largest class. */
  ghost function Room(): nat { Pow(B, Pow(2, KMAX - 1)) }

  class Bigint {
    const k: nat
    const x: array<word>
    var sign: int
    var wds: nat

    constructor (k: nat)
      ensures this.k == k && x.Length == Pow(2, k) && fresh(x)
      ensures sign == 0 && wds == 0
    {
      this.k := k;
      x := new word[Pow(2, k)];
      sign, wds := 0, 0;
    }
  }

  /** Sizes and separate storage of a set of Bigints. */
  ghost predicate Shapes(objs: set<Bigint>, arrs: set<array<word>>) {
    && (forall o :: o in objs ==> o.k <= KMAX && o.x.Length == Pow(2, o.k) && o.x in arrs)
    && (forall o, p :: o in objs && p in objs && o != p ==> o.x != p.x)
  }

  /** Every Bigint that is not in use is on exactly the free list of its class, once. */
  ghost predicate Lists(fl: seq<seq<Bigint>>, objs: set<Bigint>, used: set<Bigint>) {
    && |fl| == KMAX + 1
    && (forall k, i :: 0 <= k <= KMAX && 0 <= i < |fl[k]| ==> fl[k][i] in objs && fl[k][i].k == k && fl[k][i] !in used)
    && (forall k, i, j :: 0 <= k <= KMAX && 0 <= i < j < |fl[k]| ==> fl[k][i] != fl[k][j])
    && (forall o :: o in objs && o !in used ==> o.k <= KMAX && o in fl[o.k])
  }

  ghost function P5(i: nat): nat { Pow(5, 4 * Pow(2, i)) }

  lemma P5First()
    ensures P5(0) == 625
  {
    assert Pow(2, 0) == 1;
    assert Pow(5, 2) == 25;
    PowAdd(5, 2, 2);
  }

  lemma P5Square(i: nat)
    ensures Mul(P5(i), P5(i)) == P5(i + 1)
  {
    PowStep(2, i);
    PowAdd(5, 4 * Pow(2, i), 4 * Pow(2, i));
  }

  /** The exponent loop: halving k while squaring the power. */
  lemma P5Halve(v: nat, i: nat, k: nat)
    ensures k % 2 == 0 ==> Mul(v, Pow(P5(i), k)) == Mul(v, Pow(P5(i + 1), k / 2))
    ensures k % 2 == 1 ==> Mul(v, Pow(P5(i), k)) == Mul(Mul(v, P5(i)), Pow(P5(i + 1), k / 2))
  {
    var x, m := P5(i), k / 2;
    P5Square(i);
    PowMul(x, x, m);
    PowAdd(x, m, m);
    if k % 2 == 1 {
      PowStep(x, m + m);
      Assoc(v, x, Pow(x, m + m));
    }
  }

  lemma P5Split(v: nat, k: nat)
    ensures Mul(v, Pow(5, k)) == Mul(Mul(v, Pow(5, k % 4)), Pow(P5(0), k / 4))
    ensures Pow(5, 0) == 1 && Pow(5, 1) == 5 && Pow(5, 2) == 25 && Pow(5, 3) == 125
    ensures Mul(v, 1) == v
  {
    PowAdd(5, k % 4, 4 * (k / 4));
    PowPow(5, 4, k / 4);
    P5First();
    assert Pow(5, 4) == 625 by { PowStep(5, 3); }
    Assoc(v, Pow(5, k % 4), Pow(5, 4 * (k / 4)));
  }

  /** The factors of a product are no larger than it. */
  lemma P5Factors(v: nat, x: nat, k: nat, bound: nat)
    requires x > 0 && k > 0 && Mul(v, Pow(x, k)) < bound && Pow(x, k) < bound
    ensures v < bound && x < bound
  {
    PowMono(x, 1, k);
    assert Pow(x, 1) == x;
    MulMono(1, Pow(x, k), v);
  }

  lemma P5Below(i: nat, k: nat, bound: nat)
    requires k > 0 && Pow(P5(i), k) < bound
    ensures P5(i) < bound && Pow(P5(i + 1), k / 2) < bound
  {
    PowMono(P5(i), 1, k);
    assert Pow(P5(i), 1) == P5(i);
    P5Halve(1, i, k);
    MulMono(1, P5(i), Pow(P5(i + 1), k / 2));
  }

  lemma P5Done(v: nat, i: nat)
    ensures Mul(v, Pow(P5(i), 0)) == v
  {
  }

  lemma P5FitsFirst(v: nat, k: nat, bound: nat)
    requires Mul(v, Pow(5, k)) < bound && (v > 0 || Pow(5, k) < bound)
    ensures v < bound && Pow(P5(0), k / 4) < bound
  {
    MulMono(1, Pow(5, k), v);
    if v > 0 {
      MulMono(1, v, Pow(5, k));
    }
    P5Split(1, k);
    MulMono(1, Pow(5, k % 4), Pow(P5(0), k / 4));
  }

  lemma MulPositive(x: nat, y: nat)
    requires x > 0 && y > 0
    ensures Mul(x, y) > 0
  {
    MulMono(1, x, y);
  }

  lemma MorePowers(p5s: seq<Bigint>, val: map<Bigint, nat>, c: Bigint)
    requires Powers(p5s, val) && c in val && c !in p5s && val[c] == P5(|p5s|) && c.k >= 1
    ensures Powers(p5s + [c], val)
  {
  }

  lemma PowersAt(p5s: seq<Bigint>, val: map<Bigint, nat>, i: nat)
    requires Powers(p5s, val) && i < |p5s|
    ensures p5s[i] in val && val[p5s[i]] == P5(i) > 0 && p5s[i].k >= 1
  {
  }

  lemma PowersKeep(p5s: seq<Bigint>, val: map<Bigint, nat>)
    requires Powers(p5s, val)
    ensures forall o :: o in p5s ==> o in val
  {
  }

  /** Node `i` of the list of cached powers holds 5^(4*2^i). */
  ghost predicate Powers(p5s: seq<Bigint>, val: map<Bigint, nat>) {
    && (forall i :: 0 <= i < |p5s| ==> p5s[i] in val && val[p5s[i]] == P5(i) && p5s[i].k >= 1)
    && (forall i, j :: 0 <= i < j < |p5s| ==> p5s[i] != p5s[j])
  }

  lemma Pop(fl: seq<seq<Bigint>>, objs: set<Bigint>, used: set<Bigint>, k: nat)
    requires Lists(fl, objs, used) && k <= KMAX && fl[k] != []
    ensures fl[k][0] in objs && fl[k][0] !in used && fl[k][0].k == k
    ensures Lists(fl[k := fl[k][1..]], objs, used + {fl[k][0]})
  {
    var r, fl' := fl[k][0], fl[k := fl[k][1..]];
    forall o | o in objs && o !in used + {r} ensures o.k <= KMAX && o in fl'[o.k] {
      if o.k == k {
        var i :| 0 <= i < |fl[k]| && fl[k][i] == o;
        assert fl'[k][i - 1] == o;
      }
    }
  }

  lemma Grow(fl: seq<seq<Bigint>>, objs: set<Bigint>, used: set<Bigint>, r: Bigint)
    requires Lists(fl, objs, used)
    ensures Lists(fl, objs + {r}, used + {r}) || r in objs
  {
  }

  lemma Push(fl: seq<seq<Bigint>>, objs: set<Bigint>, used: set<Bigint>, r: Bigint)
    requires Lists(fl, objs, used) && r in objs && r in used && r.k <= KMAX
    ensures Lists(fl[r.k := [r] + fl[r.k]], objs, used - {r})
  {
    var fl' := fl[r.k := [r] + fl[r.k]];
    forall o | o in objs && o !in used - {r} ensures o.k <= KMAX && o in fl'[o.k] {
      if o == r {
        assert fl'[r.k][0] == r;
      } else if o.k == r.k {
        var i :| 0 <= i < |fl[o.k]| && fl[o.k][i] == o;
        assert fl'[o.k][i + 1] == o;
      }
    }
  }

  lemma TrimmedHolds(s: seq<word>, n: nat, wc: nat, v: nat)
    requires 1 <= wc <= |s| && n <= wc && V(s[..wc]) == v
    requires n > 0 ==> s[n - 1] != 0
    requires forall i :: n <= i < wc ==> s[i] == 0
    ensures Holds(s, n, v)
  {
    VZeros(s[..wc], n);
    assert s[..wc][..n] == s[..n];
  }

  lemma HoldsZero(s: seq<word>, wds: nat, v: nat)
    requires Holds(s, wds, v)
    ensures v == 0 ==> wds <= 1
  {
    HoldsSpan(s, wds, v);
  }

  lemma HoldsWords(s: seq<word>, wds: nat, v: nat)
    requires Holds(s, wds, v)
    ensures wds <= |s| && V(s[..wds]) == v
  {
  }

  ghost function Shifted(v: nat, k: nat): nat { v * Pow(2, k) }

  lemma ShiftedSplit(v: nat, n: nat, k: nat)
    ensures v * Pow(2, k) * Pow(B, n) == Shifted(v, 32 * n + k)
  {
    hide Pow;
    Pow32();
    PowPow(2, 32, n);
    PowAdd(2, k, 32 * n);
    Assoc(v, Pow(2, k), Pow(B, n));
  }

  lemma PowGrows(k: nat)
    ensures Pow(2, k) > 0
  {
  }

  /** A shift by whole words leaves nothing above the copied words. */
  lemma SmallShift(s: seq<word>, z: word, v: nat, n: nat)
    requires V(s) + At(z, |s|) == Shifted(v, 32 * n + 0) && n <= |s|
    requires v < Pow(B, |s| - n)
    ensures z == 0
  {
    assert Pow(2, 0) == 1;
    ShiftedSplit(v, n, 0);
    PowAdd(B, |s| - n, n);
    assert At(z, |s|) == z * Pow(B, |s|) && V(s) >= 0;
    NothingAbove(z, v, Pow(B, |s| - n), Pow(B, n), Pow(B, |s|));
  }

  lemma NothingAbove(z: nat, v: nat, x: nat, y: nat, xy: nat)
    requires xy == x * y && v < x && y > 0 && z * xy <= v * y
    ensures z == 0
  {
    MulMono(v, x - 1, y);
    assert (x - 1) * y == xy - y;
    if z > 0 {
      MulMono(1, z, xy);
    }
  }

  lemma RoomFor(k: nat, k1: nat, wds: nat, n: nat)
    requires k <= k1 && n + wds + 1 <= Pow(2, k1) && (wds == 0 ==> n == 0 && k >= 1)
    ensures n + Span(wds) < Pow(2, k1) || wds > 0
    ensures n + Span(wds) < Pow(2, k1)
  {
    PowMono(2, 1, if k1 == 0 then 1 else k1);
    assert Pow(2, 1) == 2;
  }

  lemma ShiftHolds(s: seq<word>, wds: nat, v: nat, n: nat, k: nat, z: word)
    requires n + Span(wds) < |s| && v < Pow(B, Span(wds)) && (v > 0 || n == 0)
    requires Span(wds) >= 2 ==> v >= Pow(B, Span(wds) - 1)
    requires wds == 0 ==> v == 0
    requires V(s[..n + Span(wds)]) + At(z, n + Span(wds)) == Shifted(v, 32 * n + k)
    requires z != 0 ==> s[n + Span(wds)] == z
    ensures Holds(s, if z != 0 then n + wds + 1 else n + wds, Shifted(v, 32 * n + k))
  {
    var m := Span(wds);
    if v == 0 {
      if z != 0 {
        MulMono(1, z, Pow(B, n + m));
      }
    }
    if z != 0 {
      VStep(s, n + m);
    } else {
      if v > 0 {
        ShiftedSplit(v, n, k);
        ShiftedLower(v, n, k, m - 1);
      }
      HoldsIntro(s, n + wds, Shifted(v, 32 * n + k));
    }
  }

  lemma ShiftedLower(v: nat, n: nat, k: nat, j: nat)
    requires v >= Pow(B, j)
    ensures v * Pow(2, k) * Pow(B, n) >= Pow(B, n + j)
  {
    PowAdd(B, j, n);
    MulMono(1, Pow(2, k), v);
    MulMono(Pow(B, j), v * Pow(2, k), Pow(B, n));
  }

  function Distance(a: nat, b: nat): nat { if a < b then b - a else a - b }

  lemma LengthOrder(s: seq<word>, m: nat, a: nat, t: seq<word>, n: nat, b: nat)
    requires Holds(s, m, a) && Holds(t, n, b) && m > n && (a > 0 || b > 0)
    ensures a > b
  {
    if m >= 2 {
      LongerIsLarger(s[..m], t[..n]);
    } else {
      assert t[..n] == [];
    }
  }

  lemma DiffRoom(s: seq<word>, m: nat, a: nat, t: seq<word>, n: nat, b: nat)
    requires Holds(s, m, a) && Holds(t, n, b) && a > b
    ensures 1 <= Span(n) <= |t| && Span(n) <= m <= |s|
    ensures V(t[..Span(n)]) == b && V(s[..m]) == a
  {
    HoldsSpan(t, n, b);
    HoldsSpan(s, m, a);
    if n > m {
      LengthOrder(t, n, b, s, m, a);
    }
  }

  lemma TwoWords(s: seq<word>, x0: word, x1: word)
    requires |s| >= 2 && s[0] == x0 && (x1 != 0 ==> s[1] == x1) && (x0 > 0 || x1 > 0)
    ensures Holds(s, if x1 != 0 then 2 else 1, x1 * 0x1_0000_0000 + x0)
  {
    VStep(s, 0);
    VStep(s, 1);
  }

  lemma QuoTrimHolds(s: seq<word>, wds: nat, n: nat, v: nat)
    requires 1 <= wds <= |s| && n <= wds && V(s[..wds]) == v
    requires forall i :: n <= i < wds ==> s[i] == 0
    requires (n >= 2 ==> s[n - 1] != 0) && (n == 0 ==> wds == 1)
    ensures Holds(s, n, v)
  {
    VZeros(s[..wds], n);
    assert s[..wds][..n] == s[..n];
  }

  /** Bounds of a number by its top word. */
  lemma TopBounds(s: seq<word>, n: nat, v: nat)
    requires 0 < n <= |s| && V(s[..n]) == v
    ensures s[n - 1] * Pow(B, n - 1) <= v < (s[n - 1] + 1) * Pow(B, n - 1)
  {
    assert s[..n][..n - 1] == s[..n - 1];
    VBound(s[..n - 1]);
    Dist(s[n - 1], 1, Pow(B, n - 1));
  }

  /** The one-word quotient estimate of `quorem`. */
  function Estimate(bt: nat, st: nat): nat { bt / (st + 1) }

  ghost predicate QuoNear(vb: nat, vs: nat, q: nat) { q <= 9 && vs * q <= vb < vs * (q + 2) }

  /**
   * The one-word estimate q = bt / (st + 1) is never too big and at most one too small.
   */
  lemma QuoEstimate(vb: nat, vs: nat, bt: nat, st: nat, p: nat)
    requires p > 0 && bt * p <= vb < (bt + 1) * p && st * p <= vs < (st + 1) * p
    requires 0x800_0000 <= st < 0x1000_0000 && vb < 10 * vs
    ensures QuoNear(vb, vs, Estimate(bt, st))
  {
    var q := bt / (st + 1);
    QuoTopBound(bt * p, 10 * vs, bt, st + 1, p, vs);
    QuoDigit(bt, st);
    QuoNotTooBig(vb, vs, bt, st + 1, p, q);
    QuoNotTooSmall(vb, vs, bt, st, p, q);
  }

  lemma QuoTopBound(x: nat, y: nat, bt: nat, s1: nat, p: nat, vs: nat)
    requires p > 0 && x == bt * p && y == 10 * vs && x < y && vs < s1 * p
    ensures bt < 10 * s1
  {
    Assoc(10, s1, p);
    MulCancelStrict(bt, 10 * s1, p);
  }

  lemma QuoDigit(bt: nat, st: nat)
    requires bt < 10 * (st + 1)
    ensures bt / (st + 1) <= 9
    ensures bt / (st + 1) * (st + 1) <= bt < (bt / (st + 1) + 1) * (st + 1)
  {
    DivModProps(bt, st + 1);
    Dist(bt / (st + 1), 1, st + 1);
    MulCancelStrict(bt / (st + 1), 10, st + 1);
  }

  lemma QuoNotTooBig(vb: nat, vs: nat, bt: nat, s1: nat, p: nat, q: nat)
    requires bt * p <= vb && vs < s1 * p && q * s1 <= bt
    ensures vs * q <= vb
  {
    MulMono(vs, s1 * p, q);
    Assoc(q, s1, p);
    MulComm(q, s1 * p);
    MulMono(q * s1, bt, p);
  }

  lemma QuoNotTooSmall(vb: nat, vs: nat, bt: nat, st: nat, p: nat, q: nat)
    requires vb < (bt + 1) * p && st * p <= vs && bt < (q + 1) * (st + 1)
    requires q <= 9 && st >= 0x800_0000
    ensures vb < vs * (q + 2)
  {
    assert (q + 1) * (st + 1) == q * st + q + st + 1;
    assert (q + 2) * st == q * st + 2 * st;
    MulMono(bt + 1, (q + 2) * st, p);
    Assoc(q + 2, st, p);
    MulComm(q + 2, st * p);
    MulMono(st * p, vs, q + 2);
  }

  lemma QuoWords(s: seq<word>, m: nat, vb: nat, t: seq<word>, n: nat, vs: nat)
    requires Holds(s, m, vb) && Holds(t, n, vs) && n > 0
    requires 0x800_0000 <= t[n - 1] < 0x1000_0000 && vb < 10 * vs
    ensures vs > 0 && m <= n
    ensures m < n ==> vb < vs
    ensures m == n ==> QuoNear(vb, vs, Estimate(s[n - 1], t[n - 1]))
  {
    hide Pow, V, QuoNear, Estimate;
    HoldsWords(s, m, vb);
    HoldsWords(t, n, vs);
    TopBounds(t, n, vs);
    var p := Pow(B, n - 1);
    QuoPositive(t[n - 1], n - 1, vs);
    VBound(s[..m]);
    if m < n {
      PowMono(B, m, n - 1);
    } else {
      if m > n {
        VTop(s[..m]);
        PowMono(B, n, m - 1);
        QuoTooLong(t[n - 1], n - 1, vs);
      }
      TopBounds(s, n, vb);
      QuoEstimate(vb, vs, s[n - 1], t[n - 1], p);
    }
  }

  lemma QuoPositive(st: nat, n: nat, vs: nat)
    requires st >= 1 && st * Pow(B, n) <= vs
    ensures vs > 0 && vs >= Pow(B, n) && Pow(B, n) > 0
  {
    MulMono(1, st, Pow(B, n));
  }

  lemma QuoTooLong(st: nat, n: nat, vs: nat)
    requires vs < (st + 1) * Pow(B, n) && st < 0x1000_0000
    ensures 10 * vs < Pow(B, n + 1)
  {
    MulMono(st + 1, 0x1000_0000, Pow(B, n));
  }

  lemma QuoSub(vb: nat, vs: nat, q: nat)
    requires QuoNear(vb, vs, q)
    ensures q <= 9 && Mul(vs, q) <= vb && vb - Mul(vs, q) < 2 * vs
    ensures Mul(vs, 1) == vs && Mul(vs, q + 1) == Mul(vs, q) + vs && (q == 0 ==> Mul(vs, q) == 0)
  {
    Dist(q, 2, vs);
  }

  lemma MulOne(x: nat, q: nat)
    ensures Mul(x, 1) == x && Mul(x, q + 1) == Mul(x, q) + x
  {
    Dist(q, 1, x);
  }

  lemma QuoNone(val: map<Bigint, nat>, b: Bigint, vs: nat)
    requires b in val && val[b] < vs
    ensures val == val[b := Mod(val[b], vs)] && Div(val[b], vs) == 0
  {
    DivModUnique(val[b], vs, 0, val[b]);
  }

  lemma QuoDone(vb: nat, vs: nat, q: nat, r: nat)
    requires r < vs && vb == Mul(vs, q) + r
    ensures q == Div(vb, vs) && r == Mod(vb, vs)
  {
    DivModUnique(vb, vs, q, r);
  }

  lemma OneWord(s: seq<word>, i: word)
    requires 0 < |s| && s[0] == i
    ensures Holds(s, 1, i)
  {
    assert s[..1] == [] + [i];
    VSnoc([], i);
  }

  lemma Unlink(p5s: seq<Bigint>, val: map<Bigint, nat>, b: Bigint)
    requires Powers(p5s, val) && b !in p5s
    ensures Powers(p5s, val - {b})
  {
  }

  lemma Relink(p5s: seq<Bigint>, val: map<Bigint, nat>, r: Bigint, v: nat)
    requires Powers(p5s, val) && r !in val
    ensures Powers(p5s, val[r := v])
  {
  }

  class Pool {
    var freelist: seq<seq<Bigint>>  // freelist[k][0] is the head of the list for class k
    var p5s: seq<Bigint>            // the cached powers, in the order of their `next` links
    ghost var objs: set<Bigint>     // everything ever allocated
    ghost var arrs: set<array<word>>
    ghost var val: map<Bigint, nat> // the numbers in use

    ghost predicate Numbers()
      reads this, objs, arrs
    {
      forall o :: o in val ==> o in objs && o.x in arrs && Holds(o.x[..], o.wds, val[o])
    }

    /** The invariant, with the Bigints in `pending` handed out but not yet holding a number. */
    ghost predicate Inv(pending: set<Bigint>)
      reads this, objs, arrs
    {
      && |freelist| == KMAX + 1 && pending <= objs && pending !! val.Keys
      && Shapes(objs, arrs) && Lists(freelist, objs, val.Keys + pending) && Powers(p5s, val) && Numbers()
    }

    ghost predicate Valid()
      reads this, objs, arrs
    {
      Inv({})
    }

    /** The numbers in use other than the cached powers. */
    ghost function Own(): map<Bigint, nat>
      reads this
    {
      map o | o in val && o !in p5s :: val[o]
    }

    constructor ()
      ensures Valid() && objs == {} && arrs == {} && val == map[] && p5s == []
    {
      freelist := seq(KMAX + 1, _ => []);
      p5s, objs, arrs, val := [], {}, {}, map[];
    }

    method Balloc(k: nat, ghost pending: set<Bigint>) returns (r: Bigint)
      requires Inv(pending) && k <= KMAX
      modifies this, objs`sign, objs`wds
      ensures Inv(pending + {r}) && r !in pending
      ensures r.k == k && r.sign == 0 && r.wds == 0
      ensures val == old(val) && p5s == old(p5s) && objs == old(objs) + {r} && arrs == old(arrs) + {r.x}
      ensures r !in old(objs) ==> fresh(r) && fresh(r.x)
      ensures r in old(objs) ==> r.x in old(arrs)
      ensures forall o :: o in old(objs) && o != r ==> unchanged(o)
    {
      hide Lists, Powers, P5, Pow, V;
      ghost var used := val.Keys + pending;
      if |freelist[k]| != 0 {
        Pop(freelist, objs, used, k);
        r := freelist[k][0];
        freelist := freelist[k := freelist[k][1..]];
      } else {
        r := new Bigint(k);
        Grow(freelist, objs, used, r);
        objs, arrs := objs + {r}, arrs + {r.x};
      }
      assert val.Keys + (pending + {r}) == used + {r};
      r.sign, r.wds := 0, 0;
    }

    method Bfree(v: Bigint, ghost pending: set<Bigint>)
      requires Inv(pending) && v in pending
      modifies this`freelist
      ensures Inv(pending - {v})
    {
      hide Lists, Powers, P5, Pow, V;
      ghost var used := val.Keys + pending;
      Push(freelist, objs, used, v);
      freelist := freelist[v.k := [v] + freelist[v.k]];
      assert val.Keys + (pending - {v}) == used - {v};
    }

    lemma Known(b: Bigint)
      requires Valid() && b in val
      ensures b in objs && b.x in arrs && Holds(b.x[..], b.wds, val[b])
      ensures b.k <= KMAX && b.x.Length == Pow(2, b.k) && 0 < b.x.Length
      ensures b.wds <= Span(b.wds) <= b.x.Length && (val[b] > 0 ==> b.wds > 0)
    {
      HoldsLen(b.x[..], b.wds, val[b]);
    }

    lemma KnownPending(b: Bigint, pending: set<Bigint>)
      requires Inv(pending) && b in pending
      ensures b in objs && b.x in arrs && b !in val && b.k <= KMAX && b.x.Length == Pow(2, b.k) && 0 < b.x.Length
    {
    }

    /** A pending Bigint that holds a number comes into use. */
    ghost method Adopt(r: Bigint, v: nat)
      requires Inv({r}) && Holds(r.x[..], r.wds, v)
      modifies this`val
      ensures Valid() && val == old(val)[r := v]
    {
      hide Lists, Pow, V, Holds, Powers, P5, Mul;
      Relink(p5s, val, r, v);
      val := val[r := v];
      assert val.Keys + {} == old(val).Keys + {r};
    }

    /** Stores the length of a pending Bigint, which then comes into use. */
    method SetWds(r: Bigint, n: nat, ghost v: nat)
      requires Inv({r}) && Holds(r.x[..], n, v)
      modifies this`val, r`wds
      ensures Valid() && val == old(val)[r := v] && r.wds == n
    {
      hide Lists, Pow, V, Holds, Powers, P5, Mul;
      r.wds := n;
      Adopt(r, v);
    }

    /** A number goes out of use; its Bigint is pending until it is freed or adopted. */
    ghost method Drop(b: Bigint)
      requires Valid() && b in val && b !in p5s
      modifies this`val
      ensures Inv({b}) && val == old(val) - {b}
    {
      hide Lists, Pow, V, Holds, Powers, P5, Mul;
      Unlink(p5s, val, b);
      val := val - {b};
      assert old(val).Keys + {} == val.Keys + {b};
    }

    /** Copies what `Bcopy` copies: sign, length and words. */
    method Bcopy(to: Bigint, from: Bigint)
      requires from.wds <= from.x.Length && from.wds <= to.x.Length && to.x != from.x && to != from
      modifies to, to.x
      ensures to.sign == from.sign && to.wds == from.wds
      ensures to.x[..to.wds] == from.x[..from.wds]
    {
      to.sign, to.wds := from.sign, from.wds;
      var i := 0;
      while i < from.wds
        invariant 0 <= i <= from.wds
        invariant to.sign == from.sign && to.wds == from.wds
        invariant to.x[..i] == from.x[..i]
      {
        to.x[i] := from.x[i];
        i := i + 1;
      }
    }

    /** Stores one more word on top, in a Bigint of the next class when there is no room. */
    method Append(b: Bigint, carry: word) returns (r: Bigint)
      requires Inv({b}) && b.wds <= b.x.Length && b.wds < Pow(2, KMAX)
      modifies this, objs, arrs
      ensures Inv({r}) && old(objs) <= objs && fresh(objs - old(objs)) && fresh(arrs - old(arrs))
      ensures p5s == old(p5s) && val == old(val)
      ensures r.k >= b.k && r.wds == old(b.wds) + 1 && r.wds <= r.x.Length
      ensures r.x[..old(b.wds)] == old(b.x[..b.wds]) && r.x[old(b.wds)] == carry
      ensures r == b || r !in old(val)
    {
      hide Inv, Numbers, Shapes, Lists, Pow, V, Holds, Powers, P5, Mul;
      KnownPending(b, {b});
      var wds := b.wds;
      r := b;
      if wds >= b.x.Length {
        r := Enlarge(b);
      }
      KnownPending(r, {r});
      PutTop(r, carry);
    }

    method PutTop(r: Bigint, carry: word)
      requires Inv({r}) && r.wds < r.x.Length
      modifies r`wds, r.x
      ensures Inv({r}) && r.wds == old(r.wds) + 1
      ensures r.x[..old(r.wds)] == old(r.x[..r.wds]) && r.x[old(r.wds)] == carry
    {
      hide Lists, Pow, V, Holds, Powers, P5;
      r.x[r.wds] := carry;
      r.wds := r.wds + 1;
    }

    method Store(r: Bigint, i: nat, w: word)
      requires Inv({r}) && i < r.x.Length
      modifies r.x
      ensures Inv({r}) && r.x[..] == old(r.x[..])[i := w]
    {
      hide Lists, Pow, V, Holds, Powers, P5;
      r.x[i] := w;
    }

    /** Moves a number to a Bigint of the next class. */
    method Enlarge(b: Bigint) returns (r: Bigint)
      requires Inv({b}) && b.wds == b.x.Length && b.wds < Pow(2, KMAX)
      modifies this, objs, arrs
      ensures Inv({r}) && old(objs) <= objs && fresh(objs - old(objs)) && fresh(arrs - old(arrs))
      ensures p5s == old(p5s) && val == old(val)
      ensures r.k == b.k + 1 && r.wds == old(b.wds) && r.wds < r.x.Length && r !in val
      ensures r.x[..r.wds] == old(b.x[..b.wds])
    {
      hide Lists, Pow, V, Holds, Powers, P5;
      PowGrows(b.k);
      PowStep(2, b.k);
      r := Balloc(b.k + 1, {b});
      Bcopy(r, b);
      Bfree(b, {b} + {r});
      assert {b} + {r} - {b} == {r};
    }

    method ScaleInPlace(b: Bigint, n: nat, m: nat, a: nat) returns (carry: word)
      requires Inv({b}) && 1 <= n <= b.x.Length && m < 0x1_0000 && a < 0x1_0000
      modifies b.x
      ensures Inv({b})
      ensures V(b.x[..][..n]) + At(carry, n) == Scaled(old(V(b.x[..][..n])), m, a)
    {
      hide Lists, Pow, V, Holds, Powers, P5, Mul;
      carry := MultAddWords(b.x, n, m, a);
      assert b.x[..][..n] == b.x[..n] && old(b.x[..][..n]) == old(b.x[..n]);
    }

    /** b * m + a, in place or in a Bigint of the next class. */
    method MultAdd(b: Bigint, m: nat, a: nat) returns (r: Bigint)
      requires Valid() && b in val && b !in p5s
      requires 1 <= m < 0x1_0000 && a < 0x1_0000 && (b.wds > 0 || a == 0) && b.wds < Pow(2, KMAX)
      modifies this, objs, arrs
      ensures Valid() && old(objs) <= objs && fresh(objs - old(objs)) && fresh(arrs - old(arrs))
      ensures p5s == old(p5s) && val == (old(val) - {b})[r := Mul(old(val[b]), m) + a]
      ensures r.k >= b.k && (r == b || r !in old(val))
    {
      hide Inv, Numbers, Lists, Pow, V, Holds, Powers, Shapes, Span, Mul;
      Known(b);
      var wds := b.wds;
      ghost var v, x0 := val[b], b.x[..];
      Drop(b);
      var carry := ScaleInPlace(b, Span(wds), m, a);
      ghost var x1 := b.x[..];
      r := b;
      if carry != 0 {
        MultAddGrows(x0, x1, x1, wds, v, m, a, carry);
        r := Append(b, carry);
        assert r.x[..][..wds] == r.x[..wds] == x1[..wds];
        MultAddGrows(x0, x1, r.x[..], wds, v, m, a, carry);
      } else {
        MultAddKeeps(x0, x1, wds, v, m, a);
      }
      Adopt(r, Mul(v, m) + a);
    }

    /** A new Bigint for the number i > 0, as `i2b`. */
    method I2B(i: word) returns (b: Bigint)
      requires Valid()
      modifies this, objs, arrs
      ensures Valid() && old(objs) <= objs && fresh(objs - old(objs)) && fresh(arrs - old(arrs))
      ensures p5s == old(p5s) && val == old(val)[b := i]
      ensures b.k == 1 && b !in old(val)
    {
      hide Lists, V, Holds, Powers;
      b := Balloc(1, {});
      assert Pow(2, 1) == 2;
      b.x[0] := i;
      b.wds := 1;
      OneWord(b.x[..], i);
      assert Inv({b}) by { assert {} + {b} == {b}; }
      Adopt(b, i);
    }

    /** A new Bigint of class 1 for the words x0, x1; x1 is stored when `two` is set. */
    method TwoWordNumber(two: bool, x0: word, x1: word) returns (b: Bigint)
      requires Valid() && (!two ==> x1 == 0) && (x0 > 0 || x1 > 0)
      modifies this, objs, arrs
      ensures Valid() && old(objs) <= objs && fresh(objs - old(objs)) && fresh(arrs - old(arrs))
      ensures p5s == old(p5s) && val == old(val)[b := x1 * 0x1_0000_0000 + x0]
      ensures b.k == 1 && b !in old(val)
    {
      hide Inv, Numbers, Lists, V, Holds, Powers, P5, Shapes;
      b := Balloc(1, {});
      assert {} + {b} == {b};
      KnownPending(b, {b});
      assert Pow(2, 1) == 2;
      Store(b, 0, x0);
      if two {
        Store(b, 1, x1);
      }
      TwoWords(b.x[..], x0, x1);
      SetWds(b, if x1 != 0 then 2 else 1, x1 * 0x1_0000_0000 + x0);
    }

    method MultInto(a: Bigint, b: Bigint, c: Bigint)
      requires Inv({c}) && a in objs && b in objs && c != a && c != b
      requires 1 <= a.wds <= a.x.Length && b.wds <= b.x.Length && a.wds + b.wds <= c.x.Length
      modifies c.x
      ensures Inv({c})
      ensures V(c.x[..][..a.wds + b.wds]) == Mul(old(V(a.x[..][..a.wds])), old(V(b.x[..][..b.wds])))
    {
      hide Lists, Pow, V, Holds, Powers, P5;
      MultWords(a.x, a.wds, b.x, b.wds, c.x);
      assert c.x[..][..a.wds + b.wds] == c.x[..a.wds + b.wds];
      assert old(a.x[..][..a.wds]) == old(a.x[..a.wds]) && old(b.x[..][..b.wds]) == old(b.x[..b.wds]);
      assert a.x[..][..a.wds] == a.x[..a.wds] && b.x[..][..b.wds] == b.x[..b.wds];
    }

    /** A new Bigint for a * b; its class holds a.wds + b.wds words. */
    method Mult(a: Bigint, b: Bigint) returns (c: Bigint)
      requires Valid() && a in val && b in val
      requires a.wds > 0 || b.wds > 0
      requires a.wds + b.wds <= Pow(2, KMAX)
      modifies this, objs, arrs
      ensures Valid() && old(objs) <= objs && fresh(objs - old(objs)) && fresh(arrs - old(arrs))
      ensures p5s == old(p5s) && val == old(val)[c := Mul(old(val[a]), old(val[b]))]
      ensures c !in old(val) && (c.k >= a.k || c.k >= b.k)
    {
      hide *;
      if a.wds < b.wds {
        MulComm(val[a], val[b]);
        c := MultOrdered(b, a);
      } else {
        c := MultOrdered(a, b);
      }
    }

    method MultOrdered(a: Bigint, b: Bigint) returns (c: Bigint)
      requires Valid() && a in val && b in val
      requires 1 <= a.wds && b.wds <= a.wds && a.wds + b.wds <= Pow(2, KMAX)
      modifies this, objs, arrs
      ensures Valid() && old(objs) <= objs && fresh(objs - old(objs)) && fresh(arrs - old(arrs))
      ensures p5s == old(p5s) && val == old(val)[c := Mul(old(val[a]), old(val[b]))]
      ensures c !in old(val) && c.k >= a.k
    {
      hide Inv, Numbers, Lists, Pow, V, Holds, Powers, Shapes, Span, Mul;
      Known(a);
      Known(b);
      ghost var va, vb := val[a], val[b];
      HoldsWords(a.x[..], a.wds, va);
      HoldsWords(b.x[..], b.wds, vb);
      var k, wc := a.k, a.wds + b.wds;
      PowStep(2, k);
      if wc > a.x.Length {
        k := k + 1;
      }
      c := Balloc(k, {});
      assert {} + {c} == {c};
      KnownPending(c, {c});
      MultInto(a, b, c);
      Normalise(c, wc, Mul(va, vb));
    }

    /** Drops the leading zero words of a pending Bigint, which then comes into use. */
    method Normalise(c: Bigint, wc: nat, ghost v: nat)
      requires Inv({c}) && 1 <= wc <= c.x.Length && V(c.x[..][..wc]) == v
      modifies this`val, c`wds
      ensures Valid() && val == old(val)[c := v] && (v > 0 ==> c.wds > 0)
    {
      hide Lists, Pow, V, Holds, Powers, P5, Span;
      var n := Trim(c.x, wc);
      TrimmedHolds(c.x[..], n, wc, v);
      HoldsLen(c.x[..], n, v);
      SetWds(c, n, v);
    }

    method Trim(x: array<word>, wc: nat) returns (n: nat)
      requires wc <= x.Length
      ensures n <= wc && (n > 0 ==> x[n - 1] != 0)
      ensures forall i :: n <= i < wc ==> x[..][i] == 0
    {
      n := wc;
      while n > 0 && x[n - 1] == 0
        invariant 0 <= n <= wc
        invariant forall i :: n <= i < wc ==> x[i] == 0
      {
        n := n - 1;
      }
    }

    method ShiftInto(b: Bigint, c: Bigint, n: nat, k: nat) returns (z: word)
      requires Inv({c}) && b in objs && c != b && k < 32
      requires 1 <= Span(b.wds) <= b.x.Length
      requires n + Span(b.wds) <= c.x.Length && (k != 0 ==> n + Span(b.wds) < c.x.Length)
      modifies c.x
      ensures Inv({c})
      ensures V(c.x[..][..n + Span(b.wds)]) + At(z, n + Span(b.wds))
              == Shifted(old(V(b.x[..][..Span(b.wds)])), 32 * n + k)
      ensures k != 0 ==> c.x[n + Span(b.wds)] == z
      ensures k == 0 ==> z == 0
    {
      hide Lists, Pow, V, Holds, Powers, P5, At, Shifted, Span;
      var m := Span(b.wds);
      z := ShiftWords(b.x, m, c.x, n, k);
      assert old(b.x[..][..m]) == old(b.x[..m]);
      ShiftedSplit(V(old(b.x[..m])), n, k);
      if k != 0 {
        ghost var low := c.x[..n + m];
        c.x[n + m] := z;
        assert c.x[..n + m] == low;
      } else {
        VBound(old(b.x[..m]));
        SmallShift(c.x[..n + m], z, V(old(b.x[..m])), n);
      }
      assert c.x[..][..n + m] == c.x[..n + m];
    }

    /** b * 2^k in a new Bigint; b is freed. */
    method Lshift(b: Bigint, k: nat) returns (r: Bigint)
      requires Valid() && b in val && b !in p5s
      requires val[b] > 0 || k < 32
      requires b.wds == 0 ==> b.k >= 1
      requires k / 32 + b.wds + 1 <= Pow(2, KMAX)
      modifies this, objs, arrs
      ensures Valid() && old(objs) <= objs && fresh(objs - old(objs)) && fresh(arrs - old(arrs))
      ensures p5s == old(p5s) && val == (old(val) - {b})[r := Shifted(old(val[b]), k)]
      ensures r !in old(val) && r.k >= b.k
    {
      hide Inv, Numbers, Lists, Pow, V, Holds, Powers, Shapes, Span, Mul, Shifted, At;
      r := ShiftNew(b, k / 32, k % 32);
      Release(b);
    }

    /** Frees a number. */
    method Release(b: Bigint)
      requires Valid() && b in val && b !in p5s
      modifies this`freelist, this`val
      ensures Valid() && objs == old(objs) && arrs == old(arrs) && p5s == old(p5s) && val == old(val) - {b}
    {
      hide Inv;
      Drop(b);
      Bfree(b, {b});
      assert {b} - {b} == {};
    }

    method ShiftNew(b: Bigint, n: nat, k: nat) returns (r: Bigint)
      requires Valid() && b in val && k < 32
      requires val[b] > 0 || n == 0
      requires b.wds == 0 ==> b.k >= 1
      requires n + b.wds + 1 <= Pow(2, KMAX)
      modifies this, objs, arrs
      ensures Valid() && old(objs) <= objs && fresh(objs - old(objs)) && fresh(arrs - old(arrs))
      ensures p5s == old(p5s) && val == old(val)[r := Shifted(old(val[b]), 32 * n + k)]
      ensures r !in old(val) && r.k >= b.k
    {
      hide Inv, Numbers, Lists, Pow, V, Holds, Powers, Shapes, Span, Mul, Shifted, At;
      Known(b);
      ghost var v, wds := val[b], b.wds;
      HoldsSpan(b.x[..], wds, v);
      var n1 := n + b.wds + 1;
      var k1 := ClassFor(b.k, b.x.Length, n1);
      RoomFor(b.k, k1, wds, n);
      r := Balloc(k1, {});
      assert {} + {r} == {r};
      KnownPending(r, {r});
      var z := ShiftInto(b, r, n, k);
      ShiftHolds(r.x[..], wds, v, n, k, z);
      SetWds(r, if z != 0 then n1 else n1 - 1, Shifted(v, 32 * n + k));
    }

    /** The class `k1` whose size, doubled from `size` as often as needed, is at least n1. */
    method ClassFor(k: nat, size: nat, n1: nat) returns (k1: nat)
      requires size == Pow(2, k) && k <= KMAX && n1 <= Pow(2, KMAX)
      ensures k <= k1 <= KMAX && n1 <= Pow(2, k1)
    {
      hide *;
      k1 := k;
      var i := size;
      PowGrows(k);
      while n1 > i
        invariant i == Pow(2, k1) && k <= k1 <= KMAX && i > 0
        decreases KMAX - k1
      {
        PowStep(2, k1);
        i, k1 := 2 * i, k1 + 1;
      }
    }

    /**
     * The sign of a - b; two zeros of different length compare by length.
     */
    method Cmp(a: Bigint, b: Bigint) returns (r: int)
      requires Valid() && a in val && b in val && (a.wds > 0 || b.wds > 0)
      ensures val[a] > 0 || val[b] > 0 ==> (r < 0 <==> val[a] < val[b]) && (r > 0 <==> val[a] > val[b])
      ensures val[a] == 0 && val[b] == 0 ==> r == a.wds - b.wds && a.wds <= 1
    {
      hide Inv, Numbers, Lists, Pow, V, Powers, Shapes, Span, Holds;
      Known(a);
      Known(b);
      HoldsWords(a.x[..], a.wds, val[a]);
      HoldsWords(b.x[..], b.wds, val[b]);
      HoldsZero(a.x[..], a.wds, val[a]);
      if a.wds != b.wds {
        if val[a] > 0 || val[b] > 0 {
          if a.wds > b.wds {
            LengthOrder(a.x[..], a.wds, val[a], b.x[..], b.wds, val[b]);
          } else {
            LengthOrder(b.x[..], b.wds, val[b], a.x[..], a.wds, val[a]);
          }
        }
        return a.wds - b.wds;
      }
      r := CompareWords(a.x, b.x, a.wds);
      assert a.x[..][..a.wds] == a.x[..a.wds] && b.x[..][..b.wds] == b.x[..b.wds];
    }

    method SubInto(a: Bigint, b: Bigint, c: Bigint)
      requires Inv({c}) && a in objs && b in objs && c != a && c != b
      requires 1 <= Span(b.wds) <= b.x.Length && Span(b.wds) <= a.wds <= a.x.Length && a.wds <= c.x.Length
      requires V(b.x[..][..Span(b.wds)]) <= V(a.x[..][..a.wds])
      modifies c.x
      ensures Inv({c})
      ensures V(c.x[..][..a.wds]) == old(V(a.x[..][..a.wds])) - old(V(b.x[..][..Span(b.wds)]))
    {
      hide Lists, Pow, V, Holds, Powers, P5, Span;
      assert b.x[..][..Span(b.wds)] == b.x[..Span(b.wds)] && a.x[..][..a.wds] == a.x[..a.wds];
      SubWords(a.x, a.wds, b.x, Span(b.wds), c.x);
      assert c.x[..][..a.wds] == c.x[..a.wds];
    }

    /** A new Bigint for |a - b|, with sign 1 when a < b. */
    method Diff(a: Bigint, b: Bigint) returns (c: Bigint)
      requires Valid() && a in val && b in val && (val[a] > 0 || val[b] > 0)
      modifies this, objs, arrs
      ensures Valid() && old(objs) <= objs && fresh(objs - old(objs)) && fresh(arrs - old(arrs))
      ensures p5s == old(p5s)
      ensures val == old(val)[c := Distance(old(val[a]), old(val[b]))]
      ensures c !in old(val) && c.sign == if old(val[a]) < old(val[b]) then 1 else 0
      ensures c.wds > 0
    {
      hide Inv, Numbers, Lists, Pow, V, Holds, Powers, Shapes, Span;
      Known(a);
      Known(b);
      var i := Cmp(a, b);
      if i == 0 {
        c := NewZero();
      } else if i < 0 {
        c := DiffOrdered(b, a, 1);
      } else {
        c := DiffOrdered(a, b, 0);
      }
    }

    method NewZero() returns (c: Bigint)
      requires Valid()
      modifies this, objs, arrs
      ensures Valid() && old(objs) <= objs && fresh(objs - old(objs)) && fresh(arrs - old(arrs))
      ensures p5s == old(p5s) && val == old(val)[c := 0]
      ensures c !in old(val) && c.sign == 0 && c.wds == 1
    {
      hide Lists, Pow, V, Holds, Powers, P5;
      c := Balloc(0, {});
      assert {} + {c} == {c};
      KnownPending(c, {c});
      c.wds := 1;
      c.x[0] := 0;
      OneWord(c.x[..], 0);
      Adopt(c, 0);
    }

    method DiffOrdered(a: Bigint, b: Bigint, i: int) returns (c: Bigint)
      requires Valid() && a in val && b in val && val[a] > val[b]
      modifies this, objs, arrs
      ensures Valid() && old(objs) <= objs && fresh(objs - old(objs)) && fresh(arrs - old(arrs))
      ensures p5s == old(p5s)
      ensures val == old(val)[c := old(val[a]) - old(val[b])]
      ensures c !in old(val) && c.sign == i && c.wds > 0
    {
      hide Inv, Numbers, Lists, Pow, V, Holds, Powers, Shapes, Span;
      Known(a);
      Known(b);
      ghost var va, vb := val[a], val[b];
      DiffRoom(a.x[..], a.wds, va, b.x[..], b.wds, vb);
      c := Balloc(a.k, {});
      assert {} + {c} == {c};
      KnownPending(c, {c});
      SubInto(a, b, c);
      SetSign(c, i);
      Normalise(c, a.wds, va - vb);
    }

    /** A new Bigint of the same class with the same number. */
    method Clone(b: Bigint) returns (c: Bigint)
      requires Valid() && b in val && val[b] > 0
      modifies this, objs, arrs
      ensures Valid() && old(objs) <= objs && fresh(objs - old(objs)) && fresh(arrs - old(arrs))
      ensures p5s == old(p5s) && val == old(val)[c := old(val[b])]
      ensures c !in old(val) && c.k == b.k
    {
      hide Inv, Numbers, Lists, Pow, V, Holds, Powers, P5, Shapes, Span;
      Known(b);
      ghost var v := val[b];
      c := Balloc(b.k, {});
      assert {} + {c} == {c};
      KnownPending(c, {c});
      CopyInto(c, b, v);
      Adopt(c, v);
    }

    method CopyInto(c: Bigint, b: Bigint, ghost v: nat)
      requires Inv({c}) && b in objs && b != c && 0 < b.wds <= b.x.Length == c.x.Length && Holds(b.x[..], b.wds, v)
      modifies c, c.x
      ensures Inv({c}) && Holds(c.x[..], c.wds, v)
    {
      hide Lists, Pow, V, Holds, Powers, P5;
      HoldsLen(b.x[..], b.wds, v);
      Bcopy(c, b);
      assert c.x[..][..c.wds] == c.x[..c.wds] && b.x[..][..b.wds] == b.x[..b.wds];
      HoldsSame(b.x[..], c.x[..], b.wds, v);
    }

    method SetSign(c: Bigint, i: int)
      requires Inv({c})
      modifies c`sign
      ensures Inv({c}) && c.sign == i
    {
      hide Lists, Pow, V, Holds, Powers, P5;
      c.sign := i;
    }

    /** b - S * q for b and S of the same length: the multiply-subtract loop and the trimming after it. */
    method SubMul(b: Bigint, S: Bigint, q: nat)
      requires Valid() && b in val && S in val && b != S && b !in p5s
      requires b.wds == S.wds > 0 && q < 0x1_0000 && Mul(val[S], q) <= val[b]
      modifies this`val, b`wds, b.x
      ensures Valid() && val == old(val)[b := old(val[b]) - Mul(old(val[S]), q)] && b.wds <= S.wds
    {
      hide Inv, Numbers, Lists, Pow, V, Holds, Powers, Shapes, Span, Mul;
      Known(b);
      Known(S);
      ghost var vb, vs := val[b], val[S];
      var n := S.wds;
      HoldsWords(b.x[..], n, vb);
      HoldsWords(S.x[..], n, vs);
      Drop(b);
      SubMulInPlace(b, S, n, q);
      n := TrimTop(b.x, n);
      QuoTrimHolds(b.x[..], S.wds, n, vb - Mul(vs, q));
      SetWds(b, n, vb - Mul(vs, q));
    }

    method SubMulInPlace(b: Bigint, S: Bigint, n: nat, q: nat)
      requires Inv({b}) && S in objs && b != S && n <= b.x.Length && n <= S.x.Length && q < 0x1_0000
      requires Mul(V(S.x[..][..n]), q) <= V(b.x[..][..n])
      modifies b.x
      ensures Inv({b})
      ensures V(b.x[..][..n]) == old(V(b.x[..][..n])) - Mul(old(V(S.x[..][..n])), q)
    {
      hide Lists, Pow, V, Holds, Powers, P5;
      assert b.x[..][..n] == b.x[..n] && S.x[..][..n] == S.x[..n];
      SubMulWords(b.x, S.x, n, q);
      assert b.x[..][..n] == b.x[..n];
    }

    /** The length left after a subtraction: word 0 always stays unless it is the top word. */
    method TrimTop(x: array<word>, wds: nat) returns (n: nat)
      requires 1 <= wds <= x.Length
      ensures n <= wds && forall i :: n <= i < wds ==> x[..][i] == 0
      ensures n >= 2 ==> x[..][n - 1] != 0
      ensures n == 0 ==> wds == 1
    {
      n := wds - 1;
      if x[n] == 0 {
        while n >= 2 && x[n - 1] == 0
          invariant 0 <= n <= wds - 1 && (n == 0 ==> wds == 1)
          invariant forall i :: n <= i < wds ==> x[i] == 0
        {
          n := n - 1;
        }
      } else {
        n := wds;
      }
    }

    /** floor(b / S); b becomes b mod S. */
    method QuoRem(b: Bigint, S: Bigint) returns (q: nat)
      requires Valid() && b in val && S in val && b != S && b !in p5s
      requires S.wds > 0 && 0x800_0000 <= S.x[S.wds - 1] < 0x1000_0000
      requires val[b] < 10 * val[S]
      modifies this`val, b`wds, b.x
      ensures Valid() && old(val[S]) > 0
      ensures q == Div(old(val[b]), old(val[S])) && val == old(val)[b := Mod(old(val[b]), old(val[S]))]
    {
      hide Inv, Numbers, Lists, Pow, V, Holds, Powers, Shapes, Span, Estimate, QuoNear, Mul, Div, Mod;
      Known(b);
      Known(S);
      ghost var vb, vs := val[b], val[S];
      QuoWords(b.x[..], b.wds, vb, S.x[..], S.wds, vs);
      if b.wds < S.wds {
        QuoNone(val, b, vs);
        return 0;
      }
      q := Estimate(b.x[b.wds - 1], S.x[S.wds - 1]);
      QuoSub(vb, vs, q);
      if q != 0 {
        SubMul(b, S, q);
      }
      q := Correct(b, S, vb, q);
    }

    /** The second half of `quorem`: one more subtraction when the remainder is still too big. */
    method Correct(b: Bigint, S: Bigint, ghost vb: nat, q0: nat) returns (q: nat)
      requires Valid() && b in val && S in val && b != S && b !in p5s && val[S] > 0
      requires vb == Mul(val[S], q0) + val[b] && val[b] < 2 * val[S]
      requires S.wds > 0 && b.wds <= S.wds
      modifies this`val, b`wds, b.x
      ensures Valid()
      ensures q == Div(vb, old(val[S])) && val == old(val)[b := Mod(vb, old(val[S]))]
    {
      hide Inv, Numbers, Lists, Pow, V, Holds, Powers, Shapes, Span, Mul, Div, Mod;
      Known(b);
      Known(S);
      q := q0;
      ghost var r, vs := val[b], val[S];
      MulOne(vs, q);
      var c := Cmp(b, S);
      if c >= 0 {
        q := q + 1;
        if b.wds < S.wds {
          LengthOrder(S.x[..], S.wds, vs, b.x[..], b.wds, r);
        }
        SubMul(b, S, 1);
      }
      QuoDone(vb, vs, q, val[b]);
    }

    lemma WdsBound(o: Bigint, n: nat)
      requires Valid() && o in val && val[o] < Pow(B, n) && n >= 1
      ensures o.wds <= n
    {
      Known(o);
      HoldsSpan(o.x[..], o.wds, val[o]);
      if o.wds > n {
        PowMono(B, n, o.wds - 1);
      }
    }

    /** Adds the next cached power. */
    method Extend(c: Bigint)
      requires Valid() && c in val && c !in p5s && val[c] == P5(|p5s|) && c.k >= 1
      modifies this`p5s
      ensures Valid() && p5s == old(p5s) + [c]
    {
      hide Lists, Pow, V, Holds, Powers, P5;
      MorePowers(p5s, val, c);
      p5s := p5s + [c];
    }

    /** Makes node `i` of the cached powers exist, given node i - 1. */
    method NeedPower(i: nat)
      requires Valid() && i <= |p5s|
      requires i > 0 ==> P5(i - 1) < Room()
      modifies this, objs, arrs
      ensures Valid() && old(objs) <= objs && fresh(objs - old(objs)) && fresh(arrs - old(arrs))
      ensures old(p5s) <= p5s && i < |p5s|
      ensures Cached(old(val), val, old(p5s), p5s)
    {
      hide Inv, Numbers, Lists, Pow, V, Holds, Powers, P5, Shapes, Span, Mul;
      if i < |p5s| {
        return;
      }
      NodesInUse();
      if i == 0 {
        var c := I2B(625);
        P5First();
        Extend(c);
      } else {
        Node(i - 1);
        PowGrows(KMAX - 1);
        PowStep(2, KMAX - 1);
        WdsBound(p5s[i - 1], Pow(2, KMAX - 1));
        Known(p5s[i - 1]);
        P5Square(i - 1);
        var c := Mult(p5s[i - 1], p5s[i - 1]);
        Extend(c);
      }
    }

    lemma NodesInUse()
      requires Valid()
      ensures forall o :: o in p5s ==> o in val
    {
      PowersKeep(p5s, val);
    }

    /** The cached powers are numbers in use, and on no free list. */
    lemma NodesNotFree(i: nat, k: nat)
      requires Valid() && i < |p5s| && k < |freelist|
      ensures p5s[i] in val && p5s[i] !in freelist[k]
    {
      NodesInUse();
      hide Numbers, Shapes, Powers;
      assert p5s[i] in p5s;
      if j :| 0 <= j < |freelist[k]| && freelist[k][j] == p5s[i] {
        assert false;
      }
    }

    lemma Node(i: nat)
      requires Valid() && i < |p5s|
      ensures p5s[i] in val && val[p5s[i]] == P5(i) > 0 && p5s[i].k >= 1
    {
      PowersAt(p5s, val, i);
    }

    /** b * 5^(4*2^i) in a new Bigint; b is freed. */
    method MultByPower(b: Bigint, i: nat) returns (r: Bigint)
      requires Valid() && b in val && b !in p5s && i < |p5s|
      requires val[b] < Room() && P5(i) < Room()
      modifies this, objs, arrs
      ensures Valid() && old(objs) <= objs && fresh(objs - old(objs)) && fresh(arrs - old(arrs))
      ensures p5s == old(p5s) && val == (old(val) - {b})[r := Mul(old(val[b]), P5(i))]
      ensures r !in old(val) && (b.k >= 1 ==> r.k >= 1)
    {
      hide Inv, Numbers, Lists, Pow, V, Holds, Powers, P5, Shapes, Span, Mul;
      Node(i);
      NodesInUse();
      PowGrows(KMAX - 1);
      PowStep(2, KMAX - 1);
      WdsBound(b, Pow(2, KMAX - 1));
      WdsBound(p5s[i], Pow(2, KMAX - 1));
      Known(b);
      Known(p5s[i]);
      ghost var was := val;
      r := Mult(b, p5s[i]);
      Release(b);
    }

    /** Multiplies the product so far by node i. */
    method TakePower(ghost b: Bigint, r0: Bigint, i: nat, k: nat, ghost v0: map<Bigint, nat>, ghost p0: seq<Bigint>)
      returns (r: Bigint)
      requires Valid() && b in v0 && Replaced(v0, b, val, r0, p0, p5s) && r0 in val && r0 !in p5s
      requires i < |p5s| && k > 0 && Mul(val[r0], Pow(P5(i), k)) < Room() && Pow(P5(i), k) < Room()
      modifies this, objs, arrs
      ensures Valid() && old(objs) <= objs && fresh(objs - old(objs)) && fresh(arrs - old(arrs))
      ensures Replaced(v0, b, val, r, p0, p5s) && r in val && r !in p5s && p5s == old(p5s)
      ensures val[r] == Mul(old(val[r0]), P5(i)) && (r0.k >= 1 ==> r.k >= 1)
    {
      hide Inv, Numbers, Lists, Pow, V, Holds, Powers, P5, Shapes, Span, Mul, Replaced, Cached;
      NodesInUse();
      Node(i);
      P5Factors(val[r0], P5(i), k, Room());
      ghost var was := val;
      r := MultByPower(r0, i);
      ReplacedStep(v0, b, was, r0, p0, p5s, val, r);
    }

    /** Makes node `i` exist while the product so far stays. */
    method NextPower(ghost b: Bigint, r: Bigint, i: nat, ghost v0: map<Bigint, nat>, ghost p0: seq<Bigint>)
      requires Valid() && b in v0 && Replaced(v0, b, val, r, p0, p5s) && r in val
      requires i <= |p5s| && (i > 0 ==> P5(i - 1) < Room())
      modifies this, objs, arrs
      ensures Valid() && old(objs) <= objs && fresh(objs - old(objs)) && fresh(arrs - old(arrs))
      ensures Replaced(v0, b, val, r, p0, p5s) && r in val && r !in p5s && val[r] == old(val[r])
      ensures i < |p5s|
    {
      hide Inv, Numbers, Lists, Pow, V, Holds, Powers, P5, Shapes, Span, Mul, Replaced, Cached;
      ghost var was, pwas := val, p5s;
      NeedPower(i);
      ReplacedCached(v0, b, was, r, p0, pwas, val, p5s);
    }

    /** The exponent loop of `pow5mult`, for r = the product so far. */
    method PowerLoop(ghost b: Bigint, r0: Bigint, n: nat, ghost v0: map<Bigint, nat>, ghost p0: seq<Bigint>,
        ghost total: nat)
      returns (r: Bigint)
      requires Valid() && n > 0 && b in v0 && Replaced(v0, b, val, r0, p0, p5s) && r0 in val && r0 !in p5s
      requires Mul(val[r0], Pow(P5(0), n)) == total < Room() && Pow(P5(0), n) < Room()
      modifies this, objs, arrs
      ensures Valid() && old(objs) <= objs && fresh(objs - old(objs)) && fresh(arrs - old(arrs))
      ensures Replaced(v0, b, val, r, p0, p5s) && r in val && r !in p5s && val[r] == total
      ensures r0.k >= 1 ==> r.k >= 1
    {
      hide *;
      r := r0;
      var k: nat, i: nat := n, 0;
      NextPower(b, r, 0, v0, p0);
      while k > 0
        invariant Valid() && old(objs) <= objs && fresh(objs - old(objs)) && fresh(arrs - old(arrs))
        invariant k > 0 ==> i < |p5s|
        invariant Replaced(v0, b, val, r, p0, p5s) && r in val && r !in p5s && (r0.k >= 1 ==> r.k >= 1)
        invariant Mul(val[r], Pow(P5(i), k)) == total && Pow(P5(i), k) < Room()
      {
        r := PowerBody(b, r, i, k, v0, p0, total);
        k, i := k / 2, i + 1;
      }
      P5Done(val[r], i);
    }

    /** One round: take node i when the low bit of k is set, then make the next node exist if bits remain. */
    method PowerBody(ghost b: Bigint, r0: Bigint, i: nat, k: nat, ghost v0: map<Bigint, nat>,
        ghost p0: seq<Bigint>, ghost total: nat)
      returns (r: Bigint)
      requires Valid() && b in v0 && Replaced(v0, b, val, r0, p0, p5s) && r0 in val && r0 !in p5s
      requires i < |p5s| && k > 0 && Mul(val[r0], Pow(P5(i), k)) == total < Room() && Pow(P5(i), k) < Room()
      modifies this, objs, arrs
      ensures Valid() && old(objs) <= objs && fresh(objs - old(objs)) && fresh(arrs - old(arrs))
      ensures Replaced(v0, b, val, r, p0, p5s) && r in val && r !in p5s && (r0.k >= 1 ==> r.k >= 1)
      ensures Mul(val[r], Pow(P5(i + 1), k / 2)) == total && Pow(P5(i + 1), k / 2) < Room()
      ensures k / 2 > 0 ==> i + 1 < |p5s|
    {
      hide *;
      P5Halve(val[r0], i, k);
      P5Below(i, k, Room());
      r := r0;
      if k % 2 == 1 {
        r := TakePower(b, r, i, k, v0, p0);
      }
      if k / 2 > 0 {
        NextPower(b, r, i + 1, v0, p0);
      }
    }

    /** b * 5^k; the list of cached powers grows as far as needed, for a zero b too. */
    method Pow5Mult(b: Bigint, k: nat) returns (r: Bigint)
      requires Valid() && b in val && b !in p5s
      requires Mul(val[b], Pow(5, k)) < Room() && (val[b] > 0 || Pow(5, k) < Room())
      modifies this, objs, arrs
      ensures Valid() && old(objs) <= objs && fresh(objs - old(objs)) && fresh(arrs - old(arrs))
      ensures Replaced(old(val), b, val, r, old(p5s), p5s)
      ensures r in val && r !in p5s && val[r] == Mul(old(val[b]), Pow(5, k))
      ensures b.k >= 1 ==> r.k >= 1
    {
      hide Inv, Numbers, Lists, Pow, V, Holds, Powers, P5, Shapes, Span, Mul, Replaced, Cached;
      ghost var v, total, bound := val[b], Mul(val[b], Pow(5, k)), Room();
      P5Split(v, k);
      P5FitsFirst(v, k, bound);
      NodesInUse();
      ReplacedSelf(val, b, p5s);
      r := b;
      if k % 4 != 0 {
        PowGrows(KMAX - 1);
        PowStep(2, KMAX - 1);
        WdsBound(b, Pow(2, KMAX - 1));
        r := MultAdd(b, [5, 25, 125][k % 4 - 1], 0);
        ReplacedOnce(old(val), b, val, r, old(p5s));
      }
      assert val[r] == Mul(v, Pow(5, k % 4));
      var n := k / 4;
      if n == 0 {
        P5Done(val[r], 0);
        ReplacedOut(old(val), b, val, r, old(p5s), p5s);
        return;
      }
      ReplacedOut(old(val), b, val, r, old(p5s), p5s);
      r := PowerLoop(b, r, n, old(val), old(p5s), total);
    }
  }

  /** From `old` to `new`, only cached powers have been added. */
  ghost predicate Cached(old_: map<Bigint, nat>, new_: map<Bigint, nat>, p: seq<Bigint>, p': seq<Bigint>) {
    && (forall o :: o in old_ ==> o in new_ && new_[o] == old_[o])
    && (forall o :: o in new_ ==> o in old_ || o in p')
    && (forall o :: o in p' ==> o in p || o !in old_)
  }

  /** `b` has been replaced by `r`, and nothing else changed but the cached powers. */
  ghost predicate Replaced(v0: map<Bigint, nat>, b: Bigint, v1: map<Bigint, nat>, r: Bigint, p: seq<Bigint>,
      p': seq<Bigint>) {
    && r in v1 && r !in p' && (r == b || r !in v0)
    && (forall o :: o in v0 && o != b ==> o in v1 && v1[o] == v0[o])
    && (forall o :: o in v1 && o != r ==> o in p' || (o in v0 && o != b))
    && p <= p' && (forall o :: o in p' ==> o in p || o !in v0 || o == b)
  }

  lemma ReplacedSelf(v: map<Bigint, nat>, b: Bigint, p: seq<Bigint>)
    requires b in v && b !in p
    ensures Replaced(v, b, v, b, p, p)
  {
  }

  lemma ReplacedOut(v0: map<Bigint, nat>, b: Bigint, v1: map<Bigint, nat>, r: Bigint, p: seq<Bigint>, p': seq<Bigint>)
    requires Replaced(v0, b, v1, r, p, p')
    ensures r in v1 && r !in p'
  {
  }

  lemma ReplacedOnce(v0: map<Bigint, nat>, b: Bigint, v1: map<Bigint, nat>, r: Bigint, p: seq<Bigint>)
    requires b in v0 && b !in p && (r == b || r !in v0) && (forall o :: o in p ==> o in v0)
    requires r in v1 && v1 == (v0 - {b})[r := v1[r]]
    ensures Replaced(v0, b, v1, r, p, p)
  {
  }

  lemma ReplacedStep(v0: map<Bigint, nat>, b: Bigint, v1: map<Bigint, nat>, r: Bigint, p: seq<Bigint>,
      p1: seq<Bigint>, v2: map<Bigint, nat>, c: Bigint)
    requires b in v0 && Replaced(v0, b, v1, r, p, p1) && (forall o :: o in p1 ==> o in v1)
    requires c !in v1 && c in v2 && v2 == (v1 - {r})[c := v2[c]]
    ensures Replaced(v0, b, v2, c, p, p1) && c !in p1
  {
  }

  lemma ReplacedCached(v0: map<Bigint, nat>, b: Bigint, v1: map<Bigint, nat>, r: Bigint, p: seq<Bigint>,
      p1: seq<Bigint>, v2: map<Bigint, nat>, p2: seq<Bigint>)
    requires b in v0 && Replaced(v0, b, v1, r, p, p1)
    requires Cached(v1, v2, p1, p2) && p1 <= p2
    ensures Replaced(v0, b, v2, r, p, p2) && v2[r] == v1[r] && r !in p2
  {
  }
}
