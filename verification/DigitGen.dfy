/**
 * Digit generation over naturals: the remainder r, the scale S and the scaled half-gaps
 * mlo and mhi decide when a digit prefix is good enough.
 */
module DigitGen {
  import opened Arith
  import opened Decimals

  /** After the digits with value D, in units of w: d == (D + r/S) * w. */
  ghost predicate Level(d: real, S: nat, D: nat, r: nat, w: real) {
    S > 0 && w > 0.0 && d * (S as real) == ((D * S + r) as real) * w
  }

  /** Before a quotient digit: d == (10 D + b/S) * w. */
  ghost predicate Pre(d: real, S: nat, D: nat, b: nat, w: real) {
    S > 0 && w > 0.0 && d * (S as real) == ((10 * D * S + b) as real) * w
  }

  /** The half-gap g is m/S in units of w. */
  ghost predicate Gap(g: real, S: nat, m: nat, w: real) {
    g * (S as real) == (m as real) * w
  }

  lemma TakeDigit(d: real, S: nat, D: nat, b: nat, w: real)
    requires Pre(d, S, D, b, w)
    ensures Level(d, S, 10 * D + Div(b, S), Mod(b, S), w)
  {
    DivModProps(b, S);
    Arith.Dist(10 * D, b / S, S);
  }

  lemma NextPre(d: real, S: nat, D: nat, r: nat, w: real, w': real)
    requires Level(d, S, D, r, w) && w == 10.0 * w'
    ensures Pre(d, S, D, 10 * r, w')
  {
    NextAlgebra(d * (S as real), D * S + r, w, w');
    assert 10 * (D * S + r) == 10 * D * S + 10 * r;
  }

  lemma NextAlgebra(x: real, n: int, w: real, w': real)
    requires x == (n as real) * w && w == 10.0 * w'
    ensures x == ((10 * n) as real) * w'
  {
    RAssoc(n as real, 10.0, w');
  }

  lemma NextGap(g: real, S: nat, m: nat, w: real, w': real)
    requires Gap(g, S, m, w) && w == 10.0 * w'
    ensures Gap(g, S, 10 * m, w')
  {
    NextAlgebra(g * (S as real), m, w, w');
  }

  /** The two neighbours D*w and (D+1)*w of d, compared with an interval bound. */
  lemma Neighbours(d: real, lo: real, up: real, S: nat, D: nat, r: nat, mlo: nat, mhi: nat, w: real)
    requires Level(d, S, D, r, w) && r < S && Gap(lo, S, mlo, w) && Gap(up, S, mhi, w)
    ensures (D as real) * w <= d < ((D + 1) as real) * w
    ensures r < mlo <==> d - lo < (D as real) * w
    ensures r <= mlo <==> d - lo <= (D as real) * w
    ensures S - r < mhi <==> ((D + 1) as real) * w < d + up
    ensures S - r <= mhi <==> ((D + 1) as real) * w <= d + up
  {
    hide Level, Gap;
    NextUp(D, w);
    GapIs(lo, S, mlo, w);
    GapIs(up, S, mhi, w);
    BelowScaled(d, S, D, r, w);
    LowSide(d, (D as real) * w, lo, S as real, r as real, mlo as real, w);
    AboveScaled(d, S, D, r, w);
    LowSide((D as real) * w + w, d, up, S as real, (S - r) as real, mhi as real, w);
  }

  lemma LowSide(y: real, x: real, g: real, s: real, a: real, c: real, w: real)
    requires s > 0.0 && w > 0.0 && y * s - x * s == a * w && g * s == c * w
    ensures (a < c <==> y - g < x) && (a <= c <==> y - g <= x)
    ensures (a >= 0.0 ==> x <= y) && (a > 0.0 ==> x < y)
  {
    Side(y, x, g, s, a, c, w);
  }

  lemma GapIs(g: real, S: nat, m: nat, w: real)
    requires Gap(g, S, m, w)
    ensures g * (S as real) == (m as real) * w
  {
  }

  lemma NextUp(D: nat, w: real)
    ensures ((D + 1) as real) * w == (D as real) * w + w
  {
  }

  /** y - x is a/s and g is c/s in units of w: comparing y - g with x is comparing a with c. */
  lemma Side(y: real, x: real, g: real, s: real, a: real, c: real, w: real)
    requires s > 0.0 && w > 0.0
    ensures y * s - x * s == a * w && g * s == c * w ==>
      && (a < c <==> y - g < x) && (a <= c <==> y - g <= x)
      && (a >= 0.0 ==> x <= y) && (a > 0.0 ==> x < y)
  {
    RDist(y, -g, s);
    RNeg(g, s);
    RMulLess(y - g, x, s);
    RMulLess(x, y, s);
    RMulLess(a, c, w);
    PosMul(a, w);
  }

  lemma PosMul(x: real, w: real)
    requires w > 0.0
    ensures x >= 0.0 ==> x * w >= 0.0
    ensures x > 0.0 ==> x * w > 0.0
  {
  }

  lemma RDist(x: real, y: real, z: real)
    ensures (x + y) * z == x * z + y * z
  {
  }

  lemma RNeg(x: real, z: real)
    ensures (-x) * z == -(x * z)
  {
  }

  lemma BelowScaled(d: real, S: nat, D: nat, r: nat, w: real)
    requires Level(d, S, D, r, w)
    ensures S > 0 && w > 0.0 && d * (S as real) - ((D as real) * w) * (S as real) == (r as real) * w
  {
    var s, dd, rr := S as real, D as real, r as real;
    assert (D * S + r) as real == dd * s + rr;
    RDist(dd * s, rr, w);
    RAssoc(dd, w, s);
    RAssoc(dd, s, w);
  }

  lemma AboveScaled(d: real, S: nat, D: nat, r: nat, w: real)
    requires Level(d, S, D, r, w) && r <= S
    ensures ((D as real) * w + w) * (S as real) - d * (S as real) == ((S - r) as real) * w
  {
    BelowScaled(d, S, D, r, w);
    RDist((D as real) * w, w, S as real);
    RDist((S - r) as real, r as real, w);
  }

  lemma RPowMono(b: nat, x: int, t: nat)
    requires b >= 1
    ensures RPow(b, x) <= RPow(b, x + t)
  {
    hide Pow, RPow;
    RPowAdd(b, x, t);
    RPowNat(b, t);
    PowMono(b, 0, t);
    PowOne(b);
    Grows(RPow(b, x), RPow(b, t), RPow(b, x + t));
  }

  lemma Grows(p: real, f: real, z: real)
    requires z == p * f && f >= 1.0 && p > 0.0
    ensures p <= z
  {
    RMulLess(1.0, f, p);
  }

  lemma DecScale(v: nat, q: int, t: nat)
    ensures Dec(v, q + t) == Dec(v * Pow(10, t), q)
  {
    hide Pow, RPow;
    RPowAdd(10, q, t);
    RPowNat(10, t);
    IntProduct(v, Pow(10, t));
    RAssoc(v as real, RPow(10, t), RPow(10, q));
  }

  lemma DecMono(x: int, y: int, q: int)
    requires x <= y
    ensures Dec(x, q) <= Dec(y, q)
  {
    RMulLess(x as real, y as real, RPow(10, q));
  }

  /** A decimal of n digits does not fall strictly between two neighbours of n digits. */
  lemma Grid(v: nat, q: int, n: nat, D: nat, q0: int)
    requires n >= 1 && v < Pow(10, n) && D >= Pow(10, n - 1)
    ensures Dec(v, q) <= Dec(D, q0) || Dec(v, q) >= Dec(D + 1, q0)
  {
    hide Dec, Pow, RPow;
    if q >= q0 {
      var t := q - q0;
      DecScale(v, q0, t);
      var M := v * Pow(10, t);
      if M <= D {
        DecMono(M, D, q0);
      } else {
        DecMono(D + 1, M, q0);
      }
    } else {
      var t := q0 - 1 - q;
      DecMono(v, Pow(10, n), q);
      CoarseDecimal(n, q, t);
      DecMono(Pow(10, n - 1), D, q0);
    }
  }

  lemma CoarseDecimal(n: nat, q: int, t: nat)
    requires n >= 1
    ensures Dec(Pow(10, n), q) <= Dec(Pow(10, n - 1), q + t + 1)
  {
    hide Pow, RPow;
    PowStep(10, n - 1);
    PowOne(10);
    RPowMono(10, q, t);
    DecScale(Pow(10, n - 1), q + t, 1);
    MulComm(10, Pow(10, n - 1));
    RMulLess(RPow(10, q), RPow(10, q + t), Pow(10, n) as real);
  }

  lemma Outside(d: real, lo: real, up: real, closed: bool, x: real, y: real)
    requires !Within(d, lo, up, closed, y)
    requires (x <= y <= d) || (d <= y <= x)
    requires lo >= 0.0 && up >= 0.0
    ensures !Within(d, lo, up, closed, x) || (lo == 0.0 || up == 0.0)
  {
  }

  /** When neither neighbour of d among the n-digit decimals is in the interval, none is. */
  lemma NoneShorter(d: real, lo: real, up: real, closed: bool, n: nat, D: nat, q0: int)
    requires n >= 1 && D >= Pow(10, n - 1) && lo > 0.0 && up > 0.0
    requires Dec(D, q0) <= d < Dec(D + 1, q0)
    requires !Within(d, lo, up, closed, Dec(D, q0)) && !Within(d, lo, up, closed, Dec(D + 1, q0))
    ensures NoneOfLength(d, lo, up, closed, n)
  {
    hide Dec, Pow, RPow;
    forall v: nat, q: int | v < Pow(10, n) ensures !Within(d, lo, up, closed, Dec(v, q)) {
      Grid(v, q, n, D, q0);
      if Dec(v, q) <= Dec(D, q0) {
        Outside(d, lo, up, closed, Dec(v, q), Dec(D, q0));
      } else {
        Outside(d, lo, up, closed, Dec(v, q), Dec(D + 1, q0));
      }
    }
  }

  /** The neighbour that is in the interval, or the nearer one when both are, is nearest. */
  lemma NearestNeighbour(d: real, lo: real, up: real, closed: bool, n: nat, D: nat, q0: int, high: bool)
    requires n >= 1 && D >= Pow(10, n - 1) && lo > 0.0 && up > 0.0
    requires Dec(D, q0) <= d < Dec(D + 1, q0)
    requires high && Within(d, lo, up, closed, Dec(D, q0)) ==> Dec(D + 1, q0) - d <= d - Dec(D, q0)
    requires !high && Within(d, lo, up, closed, Dec(D + 1, q0)) ==> d - Dec(D, q0) <= Dec(D + 1, q0) - d
    ensures Nearest(d, lo, up, closed, n, Dec(if high then D + 1 else D, q0))
  {
    hide Dec, Pow, RPow;
    forall v: nat, q: int | v < Pow(10, n) && Within(d, lo, up, closed, Dec(v, q))
      ensures Decimals.Dist(Dec(if high then D + 1 else D, q0), d) <= Decimals.Dist(Dec(v, q), d)
    {
      Grid(v, q, n, D, q0);
    }
  }

  // ---- the choice after each digit of modes 0 and 1 ----

  datatype Choice = Low | High | Next

  function InLow(r: int, mlo: int, closed: bool): bool { r < mlo || (closed && r == mlo) }

  function InHigh(r: int, S: int, mhi: int, closed: bool): bool { S - r < mhi || (closed && S - r == mhi) }

  /** The choice takes a neighbour in the interval, the nearer one if both are, and none only if none is. */
  ghost predicate Sound(c: Choice, r: nat, S: nat, mlo: nat, mhi: nat, closed: bool) {
    && (c == Low ==> InLow(r, mlo, closed) && (InHigh(r, S, mhi, closed) ==> 2 * r <= S))
    && (c == High ==> InHigh(r, S, mhi, closed) && (InLow(r, mlo, closed) ==> 2 * r >= S))
    && (c == Next ==> !InLow(r, mlo, closed) && !InHigh(r, S, mhi, closed))
  }

  // ---- modes 0 and 1 ----

  /** A double d with its rounding interval, and k = floor(log10 d). */
  datatype Goal = Goal(d: real, lo: real, up: real, closed: bool, k: int) {
    ghost predicate In(x: real) { Within(d, lo, up, closed, x) }

    /** The interval is neither empty nor too wide: 10^k / 2^53 < lo + up. */
    ghost predicate Sane() {
      && 0.0 < lo <= up && lo < d
      && RPow(10, k) <= d
      && RPow(10, k) < (lo + up) * (Pow(2, 53) as real)
    }
  }

  /** The digits `out` with the decimal point after `decpt` digits print the double well. */
  ghost predicate Good(g: Goal, out: string, decpt: int) {
    && IsDigits(out) && 1 <= |out| <= 17 && out[0] != '0' && out[|out| - 1] != '0'
    && g.In(Dec(NatOf(out), decpt - |out|))
    && NoneOfLength(g.d, g.lo, g.up, g.closed, |out| - 1)
    && Nearest(g.d, g.lo, g.up, g.closed, |out|, Dec(NatOf(out), decpt - |out|))
  }

  /** The numbers of the loop after the digits s. */
  ghost predicate Scales(g: Goal, S: nat, s: string, b: nat, mlo: nat, mhi: nat) {
    && IsDigits(s)
    && Pre(g.d, S, NatOf(s), b, RPow(10, g.k - |s|))
    && Gap(g.lo, S, mlo, RPow(10, g.k - |s|)) && Gap(g.up, S, mhi, RPow(10, g.k - |s|))
    && b < 10 * S && 0 < mlo <= mhi
  }

  /** The loop invariant of modes 0 and 1: nothing shorter than the digits s will do. */
  ghost predicate Running(g: Goal, S: nat, s: string, b: nat, mlo: nat, mhi: nat) {
    && g.Sane() && Scales(g, S, s, b, mlo, mhi)
    && |s| <= 16
    && (s != "" ==> s[0] != '0')
    && (s == "" ==> b >= S && mlo + mhi < S)
    && NoneOfLength(g.d, g.lo, g.up, g.closed, |s|)
  }

  lemma Start(g: Goal, S: nat, b: nat, mlo: nat, mhi: nat)
    requires g.Sane() && Pre(g.d, S, 0, b, RPow(10, g.k)) && Gap(g.lo, S, mlo, RPow(10, g.k))
    requires Gap(g.up, S, mhi, RPow(10, g.k))
    requires S <= b < 10 * S && 0 < mlo <= mhi && mlo + mhi < S
    ensures Running(g, S, "", b, mlo, mhi)
  {
    hide Pow, RPow, Pre, Gap;
    forall v: nat, q: int | v < Pow(10, 0) ensures !g.In(Dec(v, q)) {
      PowOne(10);
      assert Dec(0, q) == 0.0;
    }
  }

  /** What is known once the next digit q and the remainder r are there. */
  ghost predicate Digit(g: Goal, S: nat, s: string, q: nat, r: nat, mlo: nat, mhi: nat) {
    && IsDigits(s) && q <= 9 && r < S && (s == "" ==> q > 0)
    && Dec(10 * NatOf(s) + q, g.k - |s|) <= g.d < Dec(10 * NatOf(s) + q + 1, g.k - |s|)
    && (InLow(r, mlo, g.closed) <==> g.In(Dec(10 * NatOf(s) + q, g.k - |s|)))
    && (InHigh(r, S, mhi, g.closed) <==> g.In(Dec(10 * NatOf(s) + q + 1, g.k - |s|)))
    && (2 * r <= S ==> g.d - Dec(10 * NatOf(s) + q, g.k - |s|) <= Dec(10 * NatOf(s) + q + 1, g.k - |s|) - g.d)
    && (2 * r >= S ==> g.d - Dec(10 * NatOf(s) + q, g.k - |s|) >= Dec(10 * NatOf(s) + q + 1, g.k - |s|) - g.d)
    && Level(g.d, S, 10 * NatOf(s) + q, r, RPow(10, g.k - |s|))
  }

  lemma DigitKnown(g: Goal, S: nat, s: string, b: nat, mlo: nat, mhi: nat)
    requires g.Sane() && Scales(g, S, s, b, mlo, mhi) && (s == "" ==> b >= S)
    ensures S > 0 && Digit(g, S, s, Div(b, S), Mod(b, S), mlo, mhi)
  {
    hide *;
    ScalesGive(g, S, s, b, mlo, mhi);
    SmallQuotient(b, S);
    DigitIs(g, S, s, Div(b, S), Mod(b, S), mlo, mhi);
  }

  lemma ScalesGive(g: Goal, S: nat, s: string, b: nat, mlo: nat, mhi: nat)
    requires g.Sane() && Scales(g, S, s, b, mlo, mhi)
    ensures g.lo > 0.0 && g.up > 0.0 && S > 0 && IsDigits(s) && b < 10 * S
    ensures Level(g.d, S, 10 * NatOf(s) + Div(b, S), Mod(b, S), RPow(10, g.k - |s|))
    ensures Gap(g.lo, S, mlo, RPow(10, g.k - |s|)) && Gap(g.up, S, mhi, RPow(10, g.k - |s|))
  {
    hide Pow, RPow, Gap, NatOf, Level, Div, Mod;
    TakeDigit(g.d, S, NatOf(s), b, RPow(10, g.k - |s|));
  }

  lemma DigitIs(g: Goal, S: nat, s: string, q: nat, r: nat, mlo: nat, mhi: nat)
    requires IsDigits(s) && q <= 9 && r < S && (s == "" ==> q > 0) && g.lo > 0.0 && g.up > 0.0
    requires Level(g.d, S, 10 * NatOf(s) + q, r, RPow(10, g.k - |s|))
    requires Gap(g.lo, S, mlo, RPow(10, g.k - |s|)) && Gap(g.up, S, mhi, RPow(10, g.k - |s|))
    ensures Digit(g, S, s, q, r, mlo, mhi)
  {
    hide Pow, RPow, Gap, NatOf, Level;
    var w, D := RPow(10, g.k - |s|), 10 * NatOf(s) + q;
    Neighbours(g.d, g.lo, g.up, S, D, r, mlo, mhi, w);
    Halves(g.d, S, D, r, w);
  }

  lemma SmallQuotient(b: nat, S: nat)
    requires b < 10 * S
    ensures S > 0 && Div(b, S) <= 9 && Mod(b, S) < S && (b >= S ==> Div(b, S) > 0)
  {
    DivModProps(b, S);
    if b / S >= 10 { MulMono(10, b / S, S); }
  }

  /** Which of the two neighbours is nearer is decided by 2r against S. */
  lemma Halves(d: real, S: nat, D: nat, r: nat, w: real)
    requires Level(d, S, D, r, w) && r <= S
    ensures 2 * r <= S <==> d - (D as real) * w <= ((D + 1) as real) * w - d
    ensures 2 * r >= S <==> d - (D as real) * w >= ((D + 1) as real) * w - d
  {
    hide Level;
    var x, s := (D as real) * w, S as real;
    NextUp(D, w);
    BelowScaled(d, S, D, r, w);
    AboveScaled(d, S, D, r, w);
    HalfSides(d, x, s, r as real, (S - r) as real, w);
  }

  lemma HalfSides(d: real, x: real, s: real, a: real, c: real, w: real)
    requires s > 0.0 && w > 0.0
    ensures d * s - x * s == a * w && (x + w) * s - d * s == c * w ==>
      (a <= c <==> d - x <= (x + w) - d) && (a >= c <==> d - x >= (x + w) - d)
  {
    RDist(d, -x, s);
    RNeg(x, s);
    RDist(x + w, -d, s);
    RNeg(d, s);
    RMulLess(d - x, (x + w) - d, s);
    RMulLess((x + w) - d, d - x, s);
    RMulLess(a, c, w);
    RMulLess(c, a, w);
  }

  lemma Leading(s: string, q: nat)
    requires IsDigits(s) && q <= 9 && (s == "" ==> q > 0) && (s != "" ==> s[0] != '0')
    ensures var t := s + [DigitChar(q)];
            IsDigits(t) && t[0] != '0' && NatOf(t) == 10 * NatOf(s) + q >= Pow(10, |s|)
  {
    NatOfSnoc(s, q);
    NatOfLeading(s + [DigitChar(q)]);
  }

  /** The value of a string that ends in 0 is a shorter decimal. */
  lemma TrailingZero(out: string, q: int)
    requires IsDigits(out) && out != "" && out[|out| - 1] == '0'
    ensures Dec(NatOf(out), q) == Dec(NatOf(out[..|out| - 1]), q + 1)
    ensures NatOf(out[..|out| - 1]) < Pow(10, |out| - 1)
  {
    var v := NatOf(out[..|out| - 1]);
    hide Dec, RPow;
    DecScale(v, q, 1);
    PowOne(10);
    NatOfBound(out[..|out| - 1]);
  }

  lemma Finish(g: Goal, s: string, D: nat, high: bool, out: string)
    requires g.Sane() && IsDigits(out) && |out| == |s| + 1 <= 17 && out[0] != '0' && IsDigits(s)
    requires NatOf(out) == if high then D + 1 else D
    requires D >= Pow(10, |s|) && NoneOfLength(g.d, g.lo, g.up, g.closed, |s|)
    requires Dec(D, g.k - |s|) <= g.d < Dec(D + 1, g.k - |s|)
    requires g.In(Dec(NatOf(out), g.k - |s|))
    requires high && g.In(Dec(D, g.k - |s|)) ==> Dec(D + 1, g.k - |s|) - g.d <= g.d - Dec(D, g.k - |s|)
    requires !high && g.In(Dec(D + 1, g.k - |s|)) ==> g.d - Dec(D, g.k - |s|) <= Dec(D + 1, g.k - |s|) - g.d
    ensures Good(g, out, g.k + 1)
  {
    hide Dec, Pow, RPow, NatOf, Within, NoneOfLength;
    var q0, n := g.k - |s|, |out|;
    NearestNeighbour(g.d, g.lo, g.up, g.closed, n, D, q0, high);
    if out[n - 1] == '0' {
      TrailingZero(out, q0);
      NoneAt(g, n - 1, NatOf(out[..n - 1]), q0 + 1);
    }
  }

  lemma NoneAt(g: Goal, n: nat, v: nat, q: int)
    requires NoneOfLength(g.d, g.lo, g.up, g.closed, n) && v < Pow(10, n)
    ensures !g.In(Dec(v, q))
  {
  }

  lemma EmitLow(g: Goal, S: nat, s: string, q: nat, r: nat, b: nat, mlo: nat, mhi: nat)
    requires Running(g, S, s, b, mlo, mhi) && Digit(g, S, s, q, r, mlo, mhi)
    requires InLow(r, mlo, g.closed) && (InHigh(r, S, mhi, g.closed) ==> 2 * r <= S)
    ensures Good(g, s + [DigitChar(q)], g.k + 1)
  {
    hide Dec, Pow, RPow, NatOf, Within, InLow, InHigh, Level, Scales, NoneOfLength;
    Leading(s, q);
    Finish(g, s, 10 * NatOf(s) + q, false, s + [DigitChar(q)]);
  }

  lemma EmitHigh(g: Goal, S: nat, s: string, q: nat, r: nat, b: nat, mlo: nat, mhi: nat)
    requires Running(g, S, s, b, mlo, mhi) && Digit(g, S, s, q, r, mlo, mhi) && q < 9
    requires InHigh(r, S, mhi, g.closed) && (InLow(r, mlo, g.closed) ==> 2 * r >= S)
    ensures Good(g, s + [DigitChar(q + 1)], g.k + 1)
  {
    hide Dec, Pow, RPow, NatOf, Within, InLow, InHigh, Level, Scales, NoneOfLength;
    Leading(s, q);
    Leading(s, q + 1);
    Finish(g, s, 10 * NatOf(s) + q, true, s + [DigitChar(q + 1)]);
  }

  /** A 9 is rounded up only as the first digit: otherwise the rounded prefix would have been taken before. */
  lemma NineIsFirst(g: Goal, S: nat, s: string, r: nat, b: nat, mlo: nat, mhi: nat)
    requires Running(g, S, s, b, mlo, mhi) && Digit(g, S, s, 9, r, mlo, mhi)
    requires InHigh(r, S, mhi, g.closed)
    ensures s == ""
  {
    hide Dec, RPow, Within, InLow, InHigh, Level, Pow, NoneOfLength;
    if s != "" {
      var v, q0, n := NatOf(s) + 1, g.k - |s|, |s|;
      NatOfBound(s);
      PowOne(10);
      DecScale(v, q0, 1);
      PowStrict(10, 0, n);
      if v == Pow(10, n) {
        DecScale(1, q0 + 1, n);
        NoneAt(g, n, 1, q0 + 1 + n);
      } else {
        NoneAt(g, n, v, q0 + 1);
      }
    }
  }

  lemma EmitOne(g: Goal, S: nat, r: nat, b: nat, mlo: nat, mhi: nat)
    requires Running(g, S, "", b, mlo, mhi) && Digit(g, S, "", 9, r, mlo, mhi)
    requires InHigh(r, S, mhi, g.closed) && (InLow(r, mlo, g.closed) ==> 2 * r >= S)
    ensures Good(g, "1", g.k + 2)
  {
    hide Dec, RPow, Within, InLow, InHigh, Level, Pow;
    assert NatOf("") == 0;
    assert "1"[..0] == "";
    assert NatOf("1") == 1;
    PowOne(10);
    DecScale(1, g.k, 1);
    NearestNeighbour(g.d, g.lo, g.up, g.closed, 1, 9, g.k, true);
  }

  /** A tie at the open end of the interval with digit 9 has the low neighbour outside. */
  lemma NineTie(g: Goal, S: nat, s: string, r: nat, b: nat, mlo: nat, mhi: nat)
    requires Running(g, S, s, b, mlo, mhi) && Digit(g, S, s, 9, r, mlo, mhi)
    requires g.closed && S - r == mhi
    ensures r > mlo
  {
    hide Dec, RPow, Within, Level, Pow, NatOf;
    NineIsFirst(g, S, s, r, b, mlo, mhi);
  }

  lemma GoOn(g: Goal, S: nat, s: string, q: nat, r: nat, b: nat, mlo: nat, mhi: nat)
    requires Running(g, S, s, b, mlo, mhi) && Digit(g, S, s, q, r, mlo, mhi)
    requires !InLow(r, mlo, g.closed) && !InHigh(r, S, mhi, g.closed)
    ensures Running(g, S, s + [DigitChar(q)], 10 * r, 10 * mlo, 10 * mhi)
  {
    hide Dec, Pow, RPow, NatOf, Within, Level, Pre, Gap, NoneOfLength;
    var D, q0, s' := 10 * NatOf(s) + q, g.k - |s|, s + [DigitChar(q)];
    Leading(s, q);
    NoneShorter(g.d, g.lo, g.up, g.closed, |s'|, D, q0);
    RPowStep(10, q0 - 1);
    NextPre(g.d, S, D, r, RPow(10, q0), RPow(10, q0 - 1));
    NextGap(g.lo, S, mlo, RPow(10, q0), RPow(10, q0 - 1));
    NextGap(g.up, S, mhi, RPow(10, q0), RPow(10, q0 - 1));
    FewDigits(g, S, |s|, mlo, mhi);
  }

  /** The loop goes on only while mlo + mhi <= S, which bounds the number of digits. */
  lemma FewDigits(g: Goal, S: nat, n: nat, mlo: nat, mhi: nat)
    requires g.Sane() && Gap(g.lo, S, mlo, RPow(10, g.k - n)) && Gap(g.up, S, mhi, RPow(10, g.k - n))
    requires mlo + mhi <= S && S > 0
    ensures n <= 15
  {
    hide Pow, RPow;
    var w := RPow(10, g.k - n);
    GapSum(g.lo, g.up, S, mlo, mhi, w);
    RPowAdd(10, g.k - n, n);
    RPowNat(10, n);
    Pow1053();
    TooNarrow(g.lo + g.up, w, Pow(2, 53) as real, Pow(10, n) as real);
    if n >= 16 {
      PowMono(10, 16, n);
    }
  }

  lemma GapSum(lo: real, up: real, S: nat, mlo: nat, mhi: nat, w: real)
    requires Gap(lo, S, mlo, w) && Gap(up, S, mhi, w) && mlo + mhi <= S && S > 0 && w > 0.0
    ensures lo + up <= w
  {
    var s, x, y := S as real, mlo as real, mhi as real;
    SumScaled(lo, up, s, x, y, w);
  }

  lemma SumScaled(lo: real, up: real, s: real, x: real, y: real, w: real)
    requires lo * s == x * w && up * s == y * w && x + y <= s && s > 0.0 && w > 0.0
    ensures lo + up <= w
  {
    RDist(lo, up, s);
    RDist(x, y, w);
    RMulLess(x + y, s, w);
    RMulLess(lo + up, w, s);
  }

  lemma Pow1053()
    ensures Pow(10, 16) > Pow(2, 53) > 0
  {
    Pow10000();
    hide Pow;
    PowAdd(10, 4, 4);
    PowAdd(10, 8, 8);
    PowAdd(2, 8, 8);
    PowAdd(2, 16, 16);
    PowAdd(2, 32, 16);
    PowAdd(2, 48, 5);
  }

  lemma Pow10000()
    ensures Pow(10, 4) == 10000 && Pow(2, 8) == 256 && Pow(2, 5) == 32
  {
    PowStep(2, 7);
    PowStep(2, 6);
    PowStep(2, 5);
  }

  lemma TooNarrow(x: real, w: real, p: real, t: real)
    requires x <= w && p > 0.0 && w > 0.0 && w * t < x * p
    ensures t < p
  {
    RMulLess(x, w, p);
    RMulLess(t, p, w);
  }

  // ---- modes 2 and 3 ----

  /** The loop invariant of modes 2 and 3. */
  ghost predicate Fixed(d: real, k: int, S: nat, s: string, b: nat) {
    && IsDigits(s) && Pre(d, S, NatOf(s), b, RPow(10, k - |s|)) && b < 10 * S
    && (s == "" ==> b >= S) && (s != "" ==> s[0] != '0')
  }

  /** After the digit q with remainder r. */
  ghost predicate FixedDigit(d: real, k: int, S: nat, s: string, r: nat) {
    && IsDigits(s) && s != "" && s[0] != '0' && r < S
    && Level(d, S, NatOf(s), r, RPow(10, k - |s| + 1))
  }

  lemma FixedTake(d: real, k: int, S: nat, s: string, b: nat)
    requires Fixed(d, k, S, s, b)
    ensures S > 0 && b < 10 * S && Div(b, S) <= 9 && Mod(b, S) < S
    ensures FixedDigit(d, k, S, s + [DigitChar(Div(b, S))], Mod(b, S))
    ensures NatOf(s + [DigitChar(Div(b, S))]) % 2 == Div(b, S) % 2
  {
    hide Pow, RPow, NatOf, Level, Pre, Div, Mod;
    SmallQuotient(b, S);
    FixedPre(d, k, S, s, b);
    Leading(s, Div(b, S));
  }

  lemma FixedPre(d: real, k: int, S: nat, s: string, b: nat)
    requires Fixed(d, k, S, s, b)
    ensures S > 0 && Level(d, S, 10 * NatOf(s) + Div(b, S), Mod(b, S), RPow(10, k - |s|))
  {
    hide Pow, RPow, NatOf, Level, Div, Mod;
    TakeDigit(d, S, NatOf(s), b, RPow(10, k - |s|));
  }

  lemma FixedNext(d: real, k: int, S: nat, s: string, r: nat)
    requires FixedDigit(d, k, S, s, r)
    ensures Fixed(d, k, S, s, 10 * r)
  {
    hide Pow, RPow, NatOf, Level, Pre;
    RPowStep(10, k - |s|);
    NextPre(d, S, NatOf(s), r, RPow(10, k - |s| + 1), RPow(10, k - |s|));
  }

  /** Rounding the last digit by 2r against S is rounding d, ties to even. */
  lemma RoundLast(d: real, k: int, S: nat, s: string, r: nat, high: bool)
    requires FixedDigit(d, k, S, s, r)
    requires high ==> 2 * r > S || (2 * r == S && NatOf(s) % 2 == 1)
    requires !high ==> 2 * r < S || (2 * r == S && NatOf(s) % 2 == 0)
    ensures RoundsTo(d, RPow(10, k - |s| + 1), if high then NatOf(s) + 1 else NatOf(s))
  {
    hide Pow, RPow, NatOf, Level;
    RoundSides(d, S, NatOf(s), r, RPow(10, k - |s| + 1));
  }

  lemma RoundSides(d: real, S: nat, D: nat, r: nat, w: real)
    requires Level(d, S, D, r, w) && r < S
    ensures (D as real) * w <= d < (D as real) * w + w && ((D + 1) as real) * w == (D as real) * w + w
    ensures 2 * r <= S <==> 2.0 * (d - (D as real) * w) <= w
    ensures 2 * r >= S <==> 2.0 * (d - (D as real) * w) >= w
  {
    hide Level;
    NextUp(D, w);
    Halves(d, S, D, r, w);
    LevelBelow(d, S, D, r, w);
    MiddleOf(d, (D as real) * w, w);
  }

  lemma MiddleOf(d: real, x: real, w: real)
    ensures d - x <= (x + w) - d <==> 2.0 * (d - x) <= w
    ensures d - x >= (x + w) - d <==> 2.0 * (d - x) >= w
  {
  }

  lemma LevelBelow(d: real, S: nat, D: nat, r: nat, w: real)
    requires Level(d, S, D, r, w) && r < S
    ensures (D as real) * w <= d < (D as real) * w + w
  {
    hide Level;
    BelowScaled(d, S, D, r, w);
    AboveScaled(d, S, D, r, w);
    Between(d, (D as real) * w, S as real, r as real, (S - r) as real, w);
  }

  lemma Between(d: real, x: real, s: real, a: real, c: real, w: real)
    requires s > 0.0 && w > 0.0 && a >= 0.0 && c > 0.0
    ensures d * s - x * s == a * w && (x + w) * s - d * s == c * w ==> x <= d < x + w
  {
    RMulLess(x, d, s);
    RMulLess(d, x + w, s);
    PosMul(a, w);
    PosMul(c, w);
  }

  lemma UpDone(d: real, k: int, s: string, out: string, carry: bool)
    requires IsDigits(s) && IsDigits(out) && s != "" && out != "" && out[0] != '0' && out[|out| - 1] != '0'
    requires |out| <= |s|
    requires RoundsTo(d, RPow(10, k - |s| + 1), NatOf(s) + 1)
    requires carry ==> out == "1" && NatOf(s) + 1 == Pow(10, |s|)
    requires !carry ==> NatOf(s) + 1 == NatOf(out) * Pow(10, |s| - |out|)
    ensures Rounded(d, k - |s| + 1, out, if carry then k + 2 else k + 1)
  {
    hide Pow, RPow, Dec, RoundsTo;
    var q, decpt := k - |s| + 1, if carry then k + 2 else k + 1;
    if carry {
      assert "1"[..0] == "" && NatOf("1") == 1;
      DecScale(1, q, |s|);
    } else {
      DecScale(NatOf(out), q, |s| - |out|);
    }
    assert RoundedAs(d, q, NatOf(s) + 1, out, decpt);
  }

  lemma DownDone(d: real, k: int, s: string, out: string)
    requires IsDigits(s) && IsDigits(out) && out != "" && out[0] != '0' && out[|out| - 1] != '0' && |out| <= |s|
    requires RoundsTo(d, RPow(10, k - |s| + 1), NatOf(s))
    requires NatOf(s) == NatOf(out) * Pow(10, |s| - |out|)
    ensures Rounded(d, k - |s| + 1, out, k + 1)
  {
    hide Pow, RPow, Dec, RoundsTo;
    DecScale(NatOf(out), k - |s| + 1, |s| - |out|);
    assert RoundedAs(d, k - |s| + 1, NatOf(s), out, k + 1);
  }

  /** Mode 3 with no digits to print: 0, or 1 in the requested place. */
  lemma NoDigits(d: real, k: int, q: int, S: nat, b: nat, one: bool)
    requires Pre(d, S, 0, b, RPow(10, k)) && S <= b < 10 * S && q > k
    requires one ==> q == k + 1 && b > 5 * S
    requires !one && q == k + 1 ==> b <= 5 * S
    ensures Rounded(d, q, if one then "1" else "", if one then q + 1 else q)
  {
    hide Pow, RPow, Dec, Pre;
    var w := RPow(10, k);
    PreBounds(d, S, b, w);
    RPowStep(10, k);
    DecZero(q);
    RPowMono(10, k + 1, q - k - 1);
    if one {
      assert "1"[..0] == "" && NatOf("1") == 1;
      DecIs(1, q);
      assert RoundedAs(d, q, 1, "1", q + 1);
    } else {
      if q > k + 1 {
        RPowStep(10, k + 1);
        RPowMono(10, k + 2, q - k - 2);
      }
      assert RoundedAs(d, q, 0, "", q);
    }
  }

  lemma DecZero(q: int)
    ensures Dec(0, q) == 0.0 && NatOf("") == 0
  {
  }

  lemma DecIs(n: nat, q: int)
    ensures Dec(n, q) == (n as real) * RPow(10, q)
  {
  }

  lemma PreBounds(d: real, S: nat, b: nat, w: real)
    requires Pre(d, S, 0, b, w) && S <= b < 10 * S
    ensures w <= d < 10.0 * w
    ensures b > 5 * S <==> d > 5.0 * w
  {
    TimesBound(d, S as real, b as real, w, 1.0);
    TimesBound(d, S as real, b as real, w, 10.0);
    TimesBound(d, S as real, b as real, w, 5.0);
  }

  /** x/s = d/w compared with a constant c. */
  lemma TimesBound(d: real, s: real, x: real, w: real, c: real)
    requires s > 0.0 && w > 0.0 && d * s == x * w
    ensures c * s <= x <==> c * w <= d
    ensures c * s < x <==> c * w < d
  {
    RMulLess(c * w, d, s);
    RMulLess(c * s, x, w);
    RAssoc(c, w, s);
    RAssoc(c, s, w);
  }
}
