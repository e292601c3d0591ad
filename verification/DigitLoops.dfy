/** The digit loops of `dtoa` over multiple-precision integers. */
module DigitLoops {
  import opened Arith
  import opened Bigints
  import opened Handles
  import opened Decimals
  import opened DigitGen

  lemma RoomySmall(S: nat, v: nat)
    requires Roomy(S) && v < 10 * S
    ensures Small(v)
  {
  }

  lemma TwiceIs(v: nat)
    ensures Mul(v, Pow(2, 1)) == 2 * v
  {
    PowOne(2);
  }

  /** Both neighbours are in the interval: the nearer one, and on a tie the even digit. */
  method NearerSide(pool: Pool, b0: Bigint, S: Bigint, mlo: Bigint, mhi: Bigint, q: nat,
    ghost v0: map<Bigint, nat>, ghost base: Others, ghost hs: set<Bigint>, ghost r: nat)
    returns (b: Bigint, c: Choice)
    requires pool.Valid() && Held(pool.val, pool.p5s, base, hs) && hs == {b0, S, mlo, mhi} && b0 !in {S, mlo, mhi}
    requires Kept(v0, pool.val, {S, mlo, mhi}) && b0 in pool.val && S in pool.val && pool.val[b0] == r
    requires Small(r) && pool.val[S] > 0
    modifies pool, pool.objs, pool.arrs
    ensures pool.Valid() && old(pool.objs) <= pool.objs && fresh(pool.objs - old(pool.objs))
    ensures fresh(pool.arrs - old(pool.arrs))
    ensures Held(pool.val, pool.p5s, base, {b, S, mlo, mhi}) && Kept(v0, pool.val, {S, mlo, mhi})
    ensures b !in {S, mlo, mhi} && b in pool.val && c != Next
    ensures (c == High ==> 2 * r >= old(pool.val[S])) && (c == Low ==> 2 * r <= old(pool.val[S]))
    ensures 2 * r == old(pool.val[S]) ==> (c == High <==> q % 2 == 1)
  {
    hide Held, Kept, Small, Mul, Pow, Pool.Valid;
    ghost var v1 := pool.val;
    b := ShiftBy(pool, b0, 1, base, hs);
    TwiceIs(r);
    assert hs - {b0} == {S, mlo, mhi} && hs - {b0} + {b} == {b, S, mlo, mhi};
    KeptTrans(v0, v1, pool.val, S, mlo, mhi);
    var j1 := Compare(pool, b, S, base, {b, S, mlo, mhi});
    c := if j1 > 0 || (j1 == 0 && q % 2 == 1) then High else Low;
  }

  lemma KeptVals(v0: map<Bigint, nat>, v1: map<Bigint, nat>, S: Bigint, mlo: Bigint, mhi: Bigint)
    requires Kept(v0, v1, {S, mlo, mhi})
    ensures S in v1 && mlo in v1 && mhi in v1 && S in v0 && mlo in v0 && mhi in v0
    ensures v1[S] == v0[S] && v1[mlo] == v0[mlo] && v1[mhi] == v0[mhi]
  {
  }

  lemma DigitFits(g: Goal, S: nat, s: string, q: nat, r: nat, mlo: nat, mhi: nat)
    requires Digit(g, S, s, q, r, mlo, mhi)
    ensures q <= 9 && r < S
  {
  }

  lemma RunningShort(g: Goal, S: nat, s: string, b: nat, mlo: nat, mhi: nat)
    requires Running(g, S, s, b, mlo, mhi)
    ensures |s| <= 16 && IsDigits(s)
  {
  }

  /** When the loop goes on, every number has room for a factor of ten. */
  lemma SmallGaps(g: Goal, S: nat, s: string, r: nat, b: nat, mlo: nat, mhi: nat)
    requires Running(g, S, s, b, mlo, mhi) && r < S && !InHigh(r, S, mhi, g.closed) && Roomy(S)
    ensures Small(r) && Small(mlo) && Small(mhi)
  {
    hide Small, Pow, Pre, Gap;
    RoomySmall(S, r);
    RoomySmall(S, mlo);
    RoomySmall(S, mhi);
  }

  lemma KeptTrans(v0: map<Bigint, nat>, v1: map<Bigint, nat>, v2: map<Bigint, nat>, S: Bigint, mlo: Bigint, mhi: Bigint)
    requires Kept(v0, v1, {S, mlo, mhi}) && Kept(v1, v2, {S, mlo, mhi})
    ensures Kept(v0, v2, {S, mlo, mhi}) && S in v2 && S in v1 && v2[S] == v1[S]
  {
  }

  /** One digit of modes 0 and 1, and whether the loop stops at it. */
  method FreeDigit(pool: Pool, b0: Bigint, S: Bigint, mlo: Bigint, mhi: Bigint, closed: bool,
    ghost g: Goal, ghost s: string, ghost n: nat, ghost base: Others)
    returns (b: Bigint, q: nat, c: Choice, ghost r: nat)
    requires pool.Valid() && Held(pool.val, pool.p5s, base, {b0, S, mlo, mhi}) && b0 !in {S, mlo, mhi}
    requires b0 in pool.val && S in pool.val && mlo in pool.val && mhi in pool.val
    requires closed == g.closed && Running(g, pool.val[S], s, pool.val[b0], pool.val[mlo], pool.val[mhi])
    requires TopIn28(pool.val[S], n) && Roomy(pool.val[S])
    modifies pool, pool.objs, pool.arrs
    ensures pool.Valid() && old(pool.objs) <= pool.objs && fresh(pool.objs - old(pool.objs))
    ensures fresh(pool.arrs - old(pool.arrs))
    ensures Held(pool.val, pool.p5s, base, {b, S, mlo, mhi}) && Kept(old(pool.val), pool.val, {S, mlo, mhi})
    ensures b != S && b != mlo && b != mhi && b in pool.val && (c == Next ==> pool.val[b] == r)
    ensures Digit(g, old(pool.val[S]), s, q, r, old(pool.val[mlo]), old(pool.val[mhi]))
    ensures Sound(c, r, old(pool.val[S]), old(pool.val[mlo]), old(pool.val[mhi]), closed)
  {
    hide Running, Digit, Held, Kept, Small, Roomy, TopIn28, Mul, Div, Mod, Pow, Pool.Valid;
    ghost var vS, vlo, vhi, v0 := pool.val[S], pool.val[mlo], pool.val[mhi], pool.val;
    RunningGives(g, vS, s, v0[b0], vlo, vhi);
    r := Mod(v0[b0], vS);
    var j, j1;
    q, j, j1 := TakeAndCompare(pool, b0, S, mlo, mhi, r, n, base);
    NineAt(g, vS, s, q, r, v0[b0], vlo, vhi);
    b := b0;
    if j1 == 0 && closed {
      c := if q == 9 then High else if j > 0 then High else Low;
    } else if j < 0 || (j == 0 && closed) {
      c := Low;
      if j1 > 0 {
        RoomySmall(vS, r);
        b, c := NearerSide(pool, b, S, mlo, mhi, q, v0, base, {b0, S, mlo, mhi}, r);
      }
    } else {
      c := if j1 > 0 then High else Next;
    }
  }

  /** The quotient digit, and the remainder compared with mlo and with S - mhi. */
  method TakeAndCompare(pool: Pool, b: Bigint, S: Bigint, mlo: Bigint, mhi: Bigint, ghost r: nat, ghost n: nat,
      ghost base: Others)
    returns (q: nat, j: int, j1: int)
    requires pool.Valid() && Held(pool.val, pool.p5s, base, {b, S, mlo, mhi}) && b !in {S, mlo, mhi}
    requires b in pool.val && S in pool.val && mlo in pool.val && mhi in pool.val && pool.val[mlo] > 0
    requires TopIn28(pool.val[S], n) && pool.val[b] < 10 * pool.val[S] && r == Mod(pool.val[b], pool.val[S])
    modifies pool, pool.objs, pool.arrs
    ensures pool.Valid() && old(pool.objs) <= pool.objs && fresh(pool.objs - old(pool.objs))
    ensures fresh(pool.arrs - old(pool.arrs))
    ensures Held(pool.val, pool.p5s, base, {b, S, mlo, mhi}) && Kept(old(pool.val), pool.val, {S, mlo, mhi})
    ensures b in pool.val && S in pool.val && pool.val[b] == r && pool.val[S] == old(pool.val[S])
    ensures q == Div(old(pool.val[b]), old(pool.val[S]))
    ensures (j < 0 <==> r < old(pool.val[mlo])) && (j > 0 <==> r > old(pool.val[mlo]))
    ensures j1 > 0 <==> r + old(pool.val[mhi]) > old(pool.val[S])
    ensures j1 == 0 ==> r + old(pool.val[mhi]) == old(pool.val[S])
    ensures j1 < 0 ==> r + old(pool.val[mhi]) < old(pool.val[S]) || (r == 0 && old(pool.val[mhi]) == old(pool.val[S]))
  {
    hide Held, Kept, Small, TopIn28, Mul, Div, Mod, Pow, Pool.Valid;
    ghost var hs, v0 := {b, S, mlo, mhi}, pool.val;
    q := Quotient(pool, b, S, n, base, hs);
    KeptThree(v0, pool.val, hs, b, S, mlo, mhi);
    j := Compare(pool, b, mlo, base, hs);
    ghost var v1 := pool.val;
    j1 := CompareDiff(pool, b, S, mhi, base, hs);
    KeptFour(v0, v1, pool.val, b, S, mlo, mhi);
  }

  lemma RunningGives(g: Goal, S: nat, s: string, b: nat, mlo: nat, mhi: nat)
    requires Running(g, S, s, b, mlo, mhi)
    ensures S > 0 && b < 10 * S && 0 < mlo <= mhi
    ensures Digit(g, S, s, Div(b, S), Mod(b, S), mlo, mhi)
  {
    hide Pre, Gap, RPow, Pow, Digit, NoneOfLength;
    DigitKnown(g, S, s, b, mlo, mhi);
  }

  lemma NineAt(g: Goal, S: nat, s: string, q: nat, r: nat, b: nat, mlo: nat, mhi: nat)
    requires Running(g, S, s, b, mlo, mhi) && Digit(g, S, s, q, r, mlo, mhi)
    ensures r < S
    ensures q == 9 && g.closed && S - r == mhi ==> r > mlo
  {
    if q == 9 && g.closed && r < S && S - r == mhi {
      NineTie(g, S, s, r, b, mlo, mhi);
    }
  }

  lemma KeptThree(v0: map<Bigint, nat>, v1: map<Bigint, nat>, hs: set<Bigint>, b: Bigint, S: Bigint,
      mlo: Bigint, mhi: Bigint)
    requires Kept(v0, v1, hs - {b}) && {S, mlo, mhi} <= hs && b !in {S, mlo, mhi}
    ensures Kept(v0, v1, {S, mlo, mhi}) && S in v1 && mlo in v1 && mhi in v1
    ensures v1[S] == v0[S] && v1[mlo] == v0[mlo] && v1[mhi] == v0[mhi]
  {
  }

  lemma KeptFour(v0: map<Bigint, nat>, v1: map<Bigint, nat>, v2: map<Bigint, nat>, b: Bigint, S: Bigint,
      mlo: Bigint, mhi: Bigint)
    requires Kept(v0, v1, {S, mlo, mhi}) && Kept(v1, v2, {b, S, mlo, mhi})
    ensures Kept(v0, v2, {S, mlo, mhi}) && b in v2 && b in v1 && v2[b] == v1[b]
    ensures S in v2 && mlo in v2 && mhi in v2
    ensures v2[S] == v0[S] && v2[mlo] == v0[mlo] && v2[mhi] == v0[mhi]
  {
  }

  /**
   * The label `roundoff`: drops trailing nines and adds one to the digit before them;
   * when all digits are nines the result is "1" and the exponent grows.
   */
  method RoundOff(s0: string) returns (s: string, carry: bool)
    requires IsDigits(s0) && s0 != "" && s0[0] != '0'
    ensures IsDigits(s) && s != "" && s[0] != '0' && s[|s| - 1] != '0' && |s| <= |s0|
    ensures carry ==> s == "1" && NatOf(s0) + 1 == Pow(10, |s0|)
    ensures !carry ==> NatOf(s0) + 1 == NatOf(s) * Pow(10, |s0| - |s|)
    ensures s0 == "9" ==> carry
  {
    hide Pow;
    s := s0;
    PowOne(10);
    while true
      invariant IsDigits(s) && s != "" && |s| <= |s0| && s[0] == s0[0]
      invariant s0 == "9" ==> s == "9"
      invariant NatOf(s0) + 1 == (NatOf(s) + 1) * Pow(10, |s0| - |s|)
      decreases |s|
    {
      var last := |s| - 1;
      if s[last] != '9' {
        ghost var t := s;
        s, carry := s[..last] + [(s[last] as int + 1) as char], false;
        assert s[..last] == t[..last];
        return;
      }
      NineDropped(s, |s0|);
      if last == 0 {
        s, carry := "1", true;
        return;
      }
      s := s[..last];
    }
  }

  lemma NineDropped(s: string, n: nat)
    requires IsDigits(s) && s != "" && s[|s| - 1] == '9' && |s| <= n
    ensures (NatOf(s) + 1) * Pow(10, n - |s|) == (NatOf(s[..|s| - 1]) + 1) * Pow(10, n - (|s| - 1))
    ensures |s| == 1 ==> (NatOf(s) + 1) * Pow(10, n - |s|) == Pow(10, n)
  {
    hide Pow;
    PowStep(10, n - |s|);
    var v := NatOf(s[..|s| - 1]) + 1;
    Assoc(v, 10, Pow(10, n - |s|));
    if |s| == 1 {
      assert s[..0] == "";
    }
  }

  /** Drops trailing zeros; the first digit stops the loop. */
  method StripZeros(s0: string) returns (s: string)
    requires IsDigits(s0) && s0 != "" && s0[0] != '0'
    ensures IsDigits(s) && s != "" && s[0] == s0[0] && s[|s| - 1] != '0' && |s| <= |s0|
    ensures NatOf(s0) == NatOf(s) * Pow(10, |s0| - |s|)
  {
    hide Pow;
    s := s0;
    PowOne(10);
    while s[|s| - 1] == '0'
      invariant IsDigits(s) && s != "" && |s| <= |s0| && s[0] == s0[0]
      invariant NatOf(s0) == NatOf(s) * Pow(10, |s0| - |s|)
      decreases |s|
    {
      ZeroDropped(s, |s0|);
      s := s[..|s| - 1];
    }
  }

  lemma ZeroDropped(s: string, n: nat)
    requires IsDigits(s) && |s| > 1 && s[|s| - 1] == '0' && |s| <= n
    ensures NatOf(s) * Pow(10, n - |s|) == NatOf(s[..|s| - 1]) * Pow(10, n - (|s| - 1))
  {
    hide Pow;
    PowStep(10, n - |s|);
    Assoc(NatOf(s[..|s| - 1]), 10, Pow(10, n - |s|));
  }

  lemma TimesTenIs(v: nat)
    ensures Mul(v, 10) == 10 * v
  {
  }

  /** b, mlo and mhi times ten, with mlo and mhi one Bigint as long as they are equal. */
  method NextScale(pool: Pool, b0: Bigint, S: Bigint, mlo0: Bigint, mhi0: Bigint, ghost base: Others)
    returns (b: Bigint, mlo: Bigint, mhi: Bigint)
    requires pool.Valid() && Held(pool.val, pool.p5s, base, {b0, S, mlo0, mhi0}) && b0 !in {S, mlo0, mhi0}
    requires S !in {mlo0, mhi0}
    requires b0 in pool.val && S in pool.val && mlo0 in pool.val && mhi0 in pool.val
    requires Small(pool.val[b0]) && Small(pool.val[mlo0]) && Small(pool.val[mhi0])
    modifies pool, pool.objs, pool.arrs
    ensures pool.Valid() && old(pool.objs) <= pool.objs && fresh(pool.objs - old(pool.objs))
    ensures fresh(pool.arrs - old(pool.arrs))
    ensures Held(pool.val, pool.p5s, base, {b, S, mlo, mhi}) && b !in {S, mlo, mhi} && S !in {mlo, mhi}
    ensures b in pool.val && S in pool.val && mlo in pool.val && mhi in pool.val && pool.val[S] == old(pool.val[S])
    ensures pool.val[b] == 10 * old(pool.val[b0])
    ensures pool.val[mlo] == 10 * old(pool.val[mlo0]) && pool.val[mhi] == 10 * old(pool.val[mhi0])
  {
    hide Held, Small, Mul, Pool.Valid;
    ghost var v0 := pool.val;
    TimesTenIs(v0[b0]);
    TimesTenIs(v0[mlo0]);
    TimesTenIs(v0[mhi0]);
    b := Times(pool, b0, 10, base, {b0, S, mlo0, mhi0});
    assert {b0, S, mlo0, mhi0} - {b0} + {b} == {b, S, mlo0, mhi0} && {b0, S, mlo0, mhi0} - {b0} == {S, mlo0, mhi0};
    KeptVals(v0, pool.val, S, mlo0, mhi0);
    mlo, mhi := ScaleGaps(pool, b, S, mlo0, mhi0, base);
  }

  method ScaleGaps(pool: Pool, b: Bigint, S: Bigint, mlo0: Bigint, mhi0: Bigint, ghost base: Others)
    returns (mlo: Bigint, mhi: Bigint)
    requires pool.Valid() && Held(pool.val, pool.p5s, base, {b, S, mlo0, mhi0}) && b !in {S, mlo0, mhi0}
    requires S !in {mlo0, mhi0}
    requires b in pool.val && S in pool.val && mlo0 in pool.val && mhi0 in pool.val
    requires Small(pool.val[mlo0]) && Small(pool.val[mhi0])
    modifies pool, pool.objs, pool.arrs
    ensures pool.Valid() && old(pool.objs) <= pool.objs && fresh(pool.objs - old(pool.objs))
    ensures fresh(pool.arrs - old(pool.arrs))
    ensures Held(pool.val, pool.p5s, base, {b, S, mlo, mhi}) && b !in {S, mlo, mhi} && S !in {mlo, mhi}
    ensures b in pool.val && S in pool.val && mlo in pool.val && mhi in pool.val
    ensures pool.val[S] == old(pool.val[S]) && pool.val[b] == old(pool.val[b])
    ensures pool.val[mlo] == Mul(old(pool.val[mlo0]), 10) && pool.val[mhi] == Mul(old(pool.val[mhi0]), 10)
  {
    hide Held, Small, Mul, Pool.Valid;
    if mlo0 == mhi0 {
      mhi := Times(pool, mhi0, 10, base, {b, S, mlo0, mhi0});
      mlo := mhi;
      assert {b, S, mlo0, mhi0} - {mhi0} + {mhi} == {b, S, mlo, mhi} && {b, S, mlo0, mhi0} - {mhi0} == {b, S};
    } else {
      mlo := Times(pool, mlo0, 10, base, {b, S, mlo0, mhi0});
      assert {b, S, mlo0, mhi0} - {mlo0} + {mlo} == {b, S, mlo, mhi0} && {b, S, mlo0, mhi0} - {mlo0} == {b, S, mhi0};
      mhi := Times(pool, mhi0, 10, base, {b, S, mlo, mhi0});
      assert {b, S, mlo, mhi0} - {mhi0} + {mhi} == {b, S, mlo, mhi} && {b, S, mlo, mhi0} - {mhi0} == {b, S, mlo};
    }
  }

  /** The last digit of modes 0 and 1. */
  method Emit(s: string, q: nat, c: Choice, ghost g: Goal, ghost S: nat, ghost r: nat, ghost b: nat,
      ghost mlo: nat, ghost mhi: nat)
    returns (out: string, up: bool)
    requires c != Next && Running(g, S, s, b, mlo, mhi) && Digit(g, S, s, q, r, mlo, mhi)
    requires Sound(c, r, S, mlo, mhi, g.closed)
    requires IsDigits(s)
    ensures Good(g, out, if up then g.k + 2 else g.k + 1)
  {
    hide Running, Digit, Good, InLow, InHigh, Pow;
    DigitFits(g, S, s, q, r, mlo, mhi);
    up := false;
    if c == Low {
      EmitLow(g, S, s, q, r, b, mlo, mhi);
      out := s + [DigitChar(q)];
    } else if q == 9 {
      NineIsFirst(g, S, s, r, b, mlo, mhi);
      EmitOne(g, S, r, b, mlo, mhi);
      assert s + "9" == "9";
      out, up := RoundOff(s + "9");
    } else {
      EmitHigh(g, S, s, q, r, b, mlo, mhi);
      out := s + [DigitChar(q + 1)];
    }
  }

  /** The numbers of the loop are in the pool, b and S apart from the others. */
  ghost predicate InLoop(val: map<Bigint, nat>, p5s: seq<Bigint>, base: Others, b: Bigint, S: Bigint,
      mlo: Bigint, mhi: Bigint,
    g: Goal, s: string, vS: nat)
  {
    && Held(val, p5s, base, {b, S, mlo, mhi}) && b !in {S, mlo, mhi} && S !in {mlo, mhi}
    && b in val && S in val && mlo in val && mhi in val && val[S] == vS
    && IsDigits(s) && |s| <= 16 && Running(g, vS, s, val[b], val[mlo], val[mhi])
  }

  /** One round of the loop of modes 0 and 1; `up` tells that k was incremented. */
  method FreeStep(pool: Pool, b0: Bigint, S: Bigint, mlo0: Bigint, mhi0: Bigint, closed: bool, s0: string,
    ghost g: Goal, ghost vS: nat, ghost n: nat, ghost base: Others)
    returns (done: bool, s: string, up: bool, b: Bigint, mlo: Bigint, mhi: Bigint)
    requires pool.Valid() && InLoop(pool.val, pool.p5s, base, b0, S, mlo0, mhi0, g, s0, vS)
    requires closed == g.closed && TopIn28(vS, n) && Roomy(vS)
    modifies pool, pool.objs, pool.arrs
    ensures pool.Valid() && old(pool.objs) <= pool.objs && fresh(pool.objs - old(pool.objs))
    ensures fresh(pool.arrs - old(pool.arrs))
    ensures !done ==> InLoop(pool.val, pool.p5s, base, b, S, mlo, mhi, g, s, vS) && |s| == |s0| + 1
    ensures done ==> Held(pool.val, pool.p5s, base, {b, S, mlo, mhi}) && b !in {S, mlo, mhi} && S !in {mlo, mhi}
    ensures done ==> Good(g, s, if up then g.k + 2 else g.k + 1)
  {
    hide Held, Kept, Small, Roomy, Mul, Pool.Valid, TopIn28, Running, Digit, Good, InLow, InHigh;
    s, up, mlo, mhi := s0, false, mlo0, mhi0;
    ghost var v0 := pool.val;
    ghost var vb, vlo, vhi := v0[b0], v0[mlo], v0[mhi];
    var q, c;
    ghost var r;
    b, q, c, r := FreeDigit(pool, b0, S, mlo, mhi, closed, g, s, n, base);
    KeptVals(v0, pool.val, S, mlo, mhi);
    DigitFits(g, vS, s, q, r, vlo, vhi);
    done := c != Next;
    if done {
      s, up := Emit(s, q, c, g, vS, r, vb, vlo, vhi);
      return;
    }
    GoOn(g, vS, s, q, r, vb, vlo, vhi);
    SmallGaps(g, vS, s, r, vb, vlo, vhi);
    s := s + [DigitChar(q)];
    b, mlo, mhi := NextScale(pool, b, S, mlo, mhi, base);
    RunningShort(g, vS, s, 10 * r, 10 * vlo, 10 * vhi);
  }

  /** The loop of modes 0 and 1. */
  method FreeLoop(pool: Pool, b0: Bigint, S: Bigint, mlo0: Bigint, mhi0: Bigint, closed: bool,
    ghost g: Goal, ghost vS: nat, ghost n: nat, ghost base: Others)
    returns (s: string, up: bool, b: Bigint, mlo: Bigint, mhi: Bigint)
    requires pool.Valid() && InLoop(pool.val, pool.p5s, base, b0, S, mlo0, mhi0, g, "", vS)
    requires closed == g.closed && TopIn28(vS, n) && Roomy(vS)
    modifies pool, pool.objs, pool.arrs
    ensures pool.Valid() && old(pool.objs) <= pool.objs && fresh(pool.objs - old(pool.objs))
    ensures fresh(pool.arrs - old(pool.arrs))
    ensures Held(pool.val, pool.p5s, base, {b, S, mlo, mhi}) && b !in {S, mlo, mhi} && S !in {mlo, mhi}
    ensures Good(g, s, if up then g.k + 2 else g.k + 1)
  {
    hide *;
    s, up := "", false;
    b, mlo, mhi := b0, mlo0, mhi0;
    while true
      invariant pool.Valid() && old(pool.objs) <= pool.objs && fresh(pool.objs - old(pool.objs))
      invariant fresh(pool.arrs - old(pool.arrs))
      invariant InLoop(pool.val, pool.p5s, base, b, S, mlo, mhi, g, s, vS)
      decreases 17 - |s|
    {
      AtMost16(pool.val, pool.p5s, base, b, S, mlo, mhi, g, s, vS);
      var done;
      done, s, up, b, mlo, mhi := FreeStep(pool, b, S, mlo, mhi, closed, s, g, vS, n, base);
      if done { return; }
    }
  }

  lemma AtMost16(val: map<Bigint, nat>, p5s: seq<Bigint>, base: Others, b: Bigint, S: Bigint,
      mlo: Bigint, mhi: Bigint,
    g: Goal, s: string, vS: nat)
    requires InLoop(val, p5s, base, b, S, mlo, mhi, g, s, vS)
    ensures |s| <= 16
  {
  }

  // ---- modes 2 and 3 ----

  ghost predicate InFixed(val: map<Bigint, nat>, p5s: seq<Bigint>, base: Others, b: Bigint, S: Bigint,
    d: real, k: int, s: string, vS: nat)
  {
    && Held(val, p5s, base, {b, S}) && b != S && b in val && S in val && val[S] == vS
    && Fixed(d, k, vS, s, val[b])
  }

  /** One digit of modes 2 and 3; the remainder is left in b. */
  method FixedStep(pool: Pool, b: Bigint, S: Bigint, s0: string,
    ghost d: real, ghost k: int, ghost vS: nat, ghost n: nat, ghost base: Others)
    returns (s: string, dig: nat)
    requires pool.Valid() && InFixed(pool.val, pool.p5s, base, b, S, d, k, s0, vS) && TopIn28(vS, n)
    modifies pool, pool.objs, pool.arrs
    ensures pool.Valid() && pool.objs == old(pool.objs) && pool.arrs == old(pool.arrs)
    ensures Held(pool.val, pool.p5s, base, {b, S}) && b in pool.val && S in pool.val && pool.val[S] == vS
    ensures |s| == |s0| + 1 && FixedDigit(d, k, vS, s, pool.val[b]) && IsDigits(s) && pool.val[b] < vS
    ensures NatOf(s) % 2 == dig % 2
  {
    hide Held, Kept, TopIn28, Pool.Valid, Fixed, FixedDigit, Div, Mod, NatOf;
    FixedTake(d, k, vS, s0, pool.val[b]);
    IsFixed(d, k, vS, s0, pool.val[b]);
    ghost var v0 := pool.val;
    dig := Quotient(pool, b, S, n, base, {b, S});
    s := s0 + [DigitChar(dig)];
    FixedIs(d, k, vS, s, pool.val[b]);
    assert {b, S} - {b} == {S};
    KeptIn(v0, pool.val, {S}, S);
  }

  lemma IsFixed(d: real, k: int, S: nat, s: string, b: nat)
    requires Fixed(d, k, S, s, b)
    ensures IsDigits(s)
  {
  }

  lemma FixedIs(d: real, k: int, S: nat, s: string, r: nat)
    requires FixedDigit(d, k, S, s, r)
    ensures IsDigits(s) && s != "" && s[0] != '0' && r < S
  {
  }

  /** The digit loop of modes 2 and 3. */
  method FixedDigits(pool: Pool, b0: Bigint, S: Bigint, ilim: int,
    ghost d: real, ghost k: int, ghost vS: nat, ghost n: nat, ghost base: Others)
    returns (s: string, dig: nat, b: Bigint)
    requires pool.Valid() && InFixed(pool.val, pool.p5s, base, b0, S, d, k, "", vS) && TopIn28(vS, n)
    requires Roomy(vS) && ilim >= 1
    modifies pool, pool.objs, pool.arrs
    ensures pool.Valid() && old(pool.objs) <= pool.objs && fresh(pool.objs - old(pool.objs))
    ensures fresh(pool.arrs - old(pool.arrs))
    ensures Held(pool.val, pool.p5s, base, {b, S}) && b != S && b in pool.val && S in pool.val && pool.val[S] == vS
    ensures |s| == ilim && FixedDigit(d, k, vS, s, pool.val[b]) && IsDigits(s) && pool.val[b] < vS
    ensures NatOf(s) % 2 == dig % 2
  {
    hide Held, Kept, Small, Roomy, Mul, Pool.Valid, TopIn28, Fixed, FixedDigit, NatOf;
    s, b := "", b0;
    var i := 1;
    while true
      invariant pool.Valid() && old(pool.objs) <= pool.objs && fresh(pool.objs - old(pool.objs))
      invariant fresh(pool.arrs - old(pool.arrs))
      invariant InFixed(pool.val, pool.p5s, base, b, S, d, k, s, vS)
      invariant |s| == i - 1 < ilim
      decreases ilim - i
    {
      s, dig := FixedStep(pool, b, S, s, d, k, vS, n, base);
      if i >= ilim { return; }
      ghost var r, v0 := pool.val[b], pool.val;
      FixedNext(d, k, vS, s, r);
      RoomySmall(vS, r);
      TimesTenIs(r);
      ghost var b1 := b;
      b := Times(pool, b, 10, base, {b, S});
      assert {b1, S} - {b1} == {S} && {S} + {b} == {b, S};
      KeptIn(v0, pool.val, {S}, S);
      i := i + 1;
    }
  }

  /** Modes 2 and 3: ilim digits, the last one rounded to nearest, ties to even. */
  method FixedLoop(pool: Pool, b0: Bigint, S: Bigint, ilim: int,
    ghost d: real, ghost k: int, ghost vS: nat, ghost n: nat, ghost base: Others)
    returns (s: string, up: bool, b: Bigint)
    requires pool.Valid() && InFixed(pool.val, pool.p5s, base, b0, S, d, k, "", vS) && TopIn28(vS, n)
    requires Roomy(vS) && ilim >= 1
    modifies pool, pool.objs, pool.arrs
    ensures pool.Valid() && old(pool.objs) <= pool.objs && fresh(pool.objs - old(pool.objs))
    ensures fresh(pool.arrs - old(pool.arrs))
    ensures Held(pool.val, pool.p5s, base, {b, S}) && b != S && b in pool.val && S in pool.val
    ensures 1 <= |s| <= ilim
    ensures Rounded(d, k - ilim + 1, s, if up then k + 2 else k + 1)
  {
    hide Held, Kept, Small, Roomy, Mul, Pool.Valid, TopIn28, FixedDigit, NatOf, InFixed, Rounded, RoundsTo, Pow;
    var dig;
    s, dig, b := FixedDigits(pool, b0, S, ilim, d, k, vS, n, base);
    ghost var r, v0, b1 := pool.val[b], pool.val, b;
    FixedIs(d, k, vS, s, r);
    RoomySmall(vS, r);
    TwiceIs(r);
    b := ShiftBy(pool, b, 1, base, {b, S});
    assert {b1, S} - {b1} == {S} && {S} + {b} == {b, S};
    KeptIn(v0, pool.val, {S}, S);
    var j := Compare(pool, b, S, base, {b, S});
    up := false;
    ghost var t := s;
    if j > 0 || (j == 0 && dig % 2 == 1) {
      RoundLast(d, k, vS, s, r, true);
      s, up := RoundOff(s);
      UpDone(d, k, t, s, up);
    } else {
      RoundLast(d, k, vS, s, r, false);
      s := StripZeros(s);
      DownDone(d, k, t, s);
    }
  }
}
