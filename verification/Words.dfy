/** Little-endian numbers over 32-bit words, and the word loops of the Bigint package. */
module Words {
  import opened Arith

  const B: nat := 0x1_0000_0000

  type word = w: nat | w < 0x1_0000_0000

  function Lo(w: word): (h: nat)
    ensures h < 0x1_0000
  { w % 0x1_0000 }

  function Hi(w: word): (h: nat)
    ensures h < 0x1_0000
  { w / 0x1_0000 }

  /** Unsigned 32-bit wrap-around. */
  function Wrap(v: int): word { v % 0x1_0000_0000 }

  /** The word that `Storeinc(p, hi, lo)` stores. */
  function Join(hi: word, lo: word): word { (hi % 0x1_0000) * 0x1_0000 + lo % 0x1_0000 }

  /** `w` placed at word position `n`. */
  ghost function At(w: int, n: nat): int { w * Pow(B, n) }

  /** The value of a word sequence, least significant word first. */
  ghost function V(s: seq<word>): nat {
    if s == [] then 0 else V(s[..|s| - 1]) + s[|s| - 1] * Pow(B, |s| - 1)
  }

  lemma VSnoc(s: seq<word>, w: word)
    ensures V(s + [w]) == V(s) + w * Pow(B, |s|)
  {
    assert (s + [w])[..|s|] == s;
  }

  /** Taking one word more of a prefix. */
  lemma VStep(s: seq<word>, i: nat)
    requires i < |s|
    ensures V(s[..i + 1]) == V(s[..i]) + s[i] * Pow(B, i)
  {
    assert s[..i + 1] == s[..i] + [s[i]];
    VSnoc(s[..i], s[i]);
  }

  lemma {:induction false} VBound(s: seq<word>)
    ensures V(s) < Pow(B, |s|)
  {
    if s != [] {
      var n := |s| - 1;
      VBound(s[..n]);
      MulMono(s[n], B - 1, Pow(B, n));
    }
  }

  lemma {:induction false} VZeros(s: seq<word>, n: nat)
    requires n <= |s| && forall i :: n <= i < |s| ==> s[i] == 0
    ensures V(s) == V(s[..n])
  {
    if n == |s| {
      assert s[..n] == s;
    } else {
      var m := |s| - 1;
      VZeros(s[..m], n);
      assert s[..m][..n] == s[..n];
    }
  }

  lemma {:induction false} VZero(s: seq<word>)
    requires V(s) == 0
    ensures forall i :: 0 <= i < |s| ==> s[i] == 0
  {
    if s != [] {
      var n := |s| - 1;
      assert s[n] * Pow(B, n) == 0;
      if s[n] != 0 {
        MulMono(1, s[n], Pow(B, n));
      }
      VZero(s[..n]);
      forall i | 0 <= i < |s| ensures s[i] == 0 {
        if i < n { assert s[i] == s[..n][i]; }
      }
    }
  }

  /** A nonzero top word bounds the value from below. */
  lemma VTop(s: seq<word>)
    requires s != [] && s[|s| - 1] != 0
    ensures V(s) >= Pow(B, |s| - 1)
  {
    MulMono(1, s[|s| - 1], Pow(B, |s| - 1));
  }

  /** A value of at least B^(n-1) in n words has a nonzero top word. */
  lemma VTopNonzero(s: seq<word>)
    requires s != [] && V(s) >= Pow(B, |s| - 1)
    ensures s[|s| - 1] != 0
  {
    VBound(s[..|s| - 1]);
  }

  lemma AppendAlgebra(s: int, p: int, q: int, u: int, v: int)
    ensures (s + p * u) + v * (p * q) == s + p * (u + v * q)
  {
    Assoc(v, p, q);
    Assoc(p, v, q);
    Dist(u, v * q, p);
  }

  lemma {:induction false} VAppend(s: seq<word>, t: seq<word>)
    ensures V(s + t) == V(s) + Pow(B, |s|) * V(t)
  {
    if t == [] {
      assert s + t == s;
    } else {
      var n := |t| - 1;
      VAppend(s, t[..n]);
      assert s + t == (s + t[..n]) + [t[n]];
      VSnoc(s + t[..n], t[n]);
      PowAdd(B, |s|, n);
      var p, q, u, v := Pow(B, |s|), Pow(B, n), V(t[..n]), t[n];
      AppendAlgebra(V(s), p, q, u, v);
    }
  }

  /** One step of a carry chain: the words below `i` already add up. */
  lemma CarryStep(sum: int, old0: int, w: int, carry: int, add: int, carry': int, i: nat)
    requires w + carry' * B == add + carry
    requires sum + carry * Pow(B, i) == old0
    ensures (sum + w * Pow(B, i)) + carry' * Pow(B, i + 1) == old0 + add * Pow(B, i)
  {
    var p := Pow(B, i);
    calc {
      (sum + w * p) + carry' * Pow(B, i + 1);
      sum + w * p + carry' * (B * p);
      { assert carry' * (B * p) == (carry' * B) * p; }
      sum + w * p + (carry' * B) * p;
      sum + (w + carry' * B) * p;
      sum + (add + carry) * p;
      sum + carry * p + add * p;
    }
  }

  /** Halves of a product or a sum: how two 16-bit steps make one 32-bit step. */
  lemma HalvesJoin(z: word, z2: word)
    ensures Join(z2, z) + (z2 / 0x1_0000) * B == z2 * 0x1_0000 + z % 0x1_0000
  {
  }

  lemma MulHalves(x: word, m: nat)
    ensures Mul(Hi(x), m) * 0x1_0000 + Mul(Lo(x), m) == x * m
  {
    Dist(Hi(x) * 0x1_0000, Lo(x), m);
    Assoc(Hi(x), 0x1_0000, m);
  }

  /** A 16-bit column of at most (2^16-1)^2 + 2(2^16-1) fits in a word. */
  lemma ColumnFits(h: nat, m: nat, c: nat, d: nat)
    requires h < 0x1_0000 && m < 0x1_0000 && c < 0x1_0000 && d < 0x1_0000
    ensures Mul(h, m) + c + d < 0x1_0000_0000
  {
    MulMono(h, 0xffff, m);
  }

  ghost function Scaled(v: nat, m: nat, a: nat): nat { v * m + a }

  lemma ScaledStep(x: seq<word>, i: nat, m: nat, a: nat)
    requires i < |x|
    ensures Scaled(V(x[..i + 1]), m, a) == Scaled(V(x[..i]), m, a) + At(x[i] * m, i)
  {
    VStep(x, i);
    SubMulAlgebra(V(x[..i]), x[i], m, 0, Pow(B, i));
    Assoc(x[i], Pow(B, i), m);
    Assoc(x[i], m, Pow(B, i));
  }

  lemma ScaledStart(x: seq<word>, m: nat, a: nat)
    ensures V(x[..0]) + At(a, 0) == Scaled(V(x[..0]), m, a)
  {
  }

  lemma MultAddStep(done: seq<word>, x0: seq<word>, i: nat, m: nat, a: nat, carry: nat, y: word, z: word)
    requires i < |x0| && |done| == i
    requires y == Mul(Lo(x0[i]), m) + carry && z == Mul(Hi(x0[i]), m) + y / 0x1_0000
    requires V(done) + At(carry, i) == Scaled(V(x0[..i]), m, a)
    ensures V(done + [Join(z, y)]) + At(z / 0x1_0000, i + 1) == Scaled(V(x0[..i + 1]), m, a)
  {
    hide *;
    MulHalves(x0[i], m);
    HalvesJoin(y, z);
    CarryAt(Join(z, y), carry, x0[i] * m, z / 0x1_0000, i);
    VSnocAt(done, Join(z, y));
    ScaledStep(x0, i, m, a);
  }

  /** x[..n] := x[..n] * m + a; the word that does not fit is returned. */
  method MultAddWords(x: array<word>, n: nat, m: nat, a: nat) returns (carry: word)
    requires 1 <= n <= x.Length && m < 0x1_0000 && a < 0x1_0000
    modifies x
    ensures V(x[..n]) + At(carry, n) == Scaled(old(V(x[..n])), m, a)
    ensures x[n..] == old(x[n..])
  {
    hide *;
    var i := 0;
    carry := a;
    ghost var x0 := x[..];
    ScaledStart(x0, m, a);
    assert x[..0] == x0[..0];
    while i < n
      invariant 0 <= i <= n
      invariant x[i..] == x0[i..]
      invariant carry < 0x1_0000
      invariant V(x[..i]) + At(carry, i) == Scaled(V(x0[..i]), m, a)
    {
      var xi := x[i];
      assert xi == x0[i] by { assert x[i..][0] == x0[i..][0]; }
      ColumnFits(Lo(xi), m, carry, 0);
      var y: word := Mul(Lo(xi), m) + carry;
      ColumnFits(Hi(xi), m, y / 0x1_0000, 0);
      var z: word := Mul(Hi(xi), m) + y / 0x1_0000;
      MultAddStep(x[..i], x0, i, m, a, carry, y, z);
      carry := z / 0x1_0000;
      ghost var done := x[..i];
      x[i] := Join(z, y);
      assert x[..i + 1] == done + [Join(z, y)];
      i := i + 1;
    }
    assert x0[..n] == old(x[..n]);
  }

  // ---- mult ----

  /** A multiplicand times one multiplier digit, placed at word position `j`. */
  ghost function Row(va: nat, y: nat, j: nat): int { va * y * Pow(B, j) }

  lemma MultLowStep(done: seq<word>, c: seq<word>, a: seq<word>, i: nat, j: nat, y: nat, carry: nat, z: word, z2: word)
    requires |done| == j + i < |c| && i < |a|
    requires z == Mul(Lo(a[i]), y) + Lo(c[j + i]) + carry
    requires z2 == Mul(Hi(a[i]), y) + Hi(c[j + i]) + z / 0x1_0000
    requires V(done) + At(carry, j + i) == V(c[..j + i]) + Row(V(a[..i]), y, j)
    ensures V(done + [Join(z2, z)]) + At(z2 / 0x1_0000, j + i + 1) == V(c[..j + i + 1]) + Row(V(a[..i + 1]), y, j)
  {
    hide *;
    var ai, ci, n := a[i], c[j + i], j + i;
    MulHalves(ai, y);
    HalvesJoin(z, z2);
    HalvesWord(ci);
    CarryAt(Join(z2, z), carry, ai * y + ci, z2 / 0x1_0000, n);
    VSnocAt(done, Join(z2, z));
    VStepAt(c, n);
    RowStep(a, i, y, j);
    AtAdd(ai * y, ci, n);
  }

  lemma HalvesWord(x: word)
    ensures x == Hi(x) * 0x1_0000 + Lo(x)
  {
  }

  lemma AtAdd(x: int, y: int, n: nat)
    ensures At(x + y, n) == At(x, n) + At(y, n)
  {
    Dist(x, y, Pow(B, n));
  }

  lemma RowStep(a: seq<word>, i: nat, y: nat, j: nat)
    requires i < |a|
    ensures Row(V(a[..i + 1]), y, j) == Row(V(a[..i]), y, j) + At(a[i] * y, j + i)
  {
    VStep(a, i);
    PowAdd(B, j, i);
    MultLowAlgebra(V(a[..i]), a[i], y, 0, Pow(B, j), Pow(B, i));
  }

  lemma RowStart(a: seq<word>, y: nat, j: nat)
    ensures Row(V(a[..0]), y, j) == 0
    ensures forall n: nat :: At(0, n) == 0
  {
  }

  lemma LoMod(w: word)
    ensures w < 0x1_0000 ==> Lo(w) == w
    ensures Pending(w / 0x1_0000, w) == w && Pending(0, w) == Lo(w)
  {
  }

  lemma VSnocAt(s: seq<word>, w: word)
    ensures V(s + [w]) == V(s) + At(w, |s|)
  {
    VSnoc(s, w);
  }

  lemma VStepAt(s: seq<word>, i: nat)
    requires i < |s|
    ensures V(s[..i + 1]) == V(s[..i]) + At(s[i], i)
  {
    VStep(s, i);
  }

  lemma MultLowAlgebra(va: int, ai: int, y: int, ci: int, pj: int, pi: int)
    ensures va * y * pj + (ai * y + ci) * (pj * pi) == ci * (pj * pi) + (va + ai * pi) * y * pj
  {
    calc {
      (va + ai * pi) * y * pj;
      { Dist(va, ai * pi, y); }
      (va * y + ai * pi * y) * pj;
      { Dist(va * y, ai * pi * y, pj); }
      va * y * pj + ai * pi * y * pj;
      { Assoc(ai, pi, y); Assoc(ai, y, pi); Assoc(ai * y, pi, pj); }
      va * y * pj + ai * y * (pi * pj);
    }
    Dist(ai * y, ci, pj * pi);
  }

  /** c[j..] := c[j..] + a[..wa] * y, for the low half of a word of the multiplier. */
  method MultLowRow(a: array<word>, wa: nat, y: nat, c: array<word>, j: nat)
    requires 1 <= wa <= a.Length && j + wa < c.Length && a != c
    requires y < 0x1_0000 && c[j + wa] == 0
    modifies c
    ensures V(c[..j + wa + 1]) == V(old(c[..j + wa + 1])) + Row(V(a[..wa]), y, j)
    ensures c[j + wa] < 0x1_0000
    ensures c[j + wa + 1..] == old(c[j + wa + 1..])
  {
    hide *;
    ghost var c0, a0 := c[..], a[..];
    var i, carry: word := 0, 0;
    RowStart(a0, y, j);
    while i < wa
      invariant 0 <= i <= wa && carry < 0x1_0000
      invariant c[j + i..] == c0[j + i..]
      invariant V(c[..j + i]) + At(carry, j + i) == V(c0[..j + i]) + Row(V(a0[..i]), y, j)
    {
      assert c[j + i] == c0[j + i] by { assert c[j + i..][0] == c0[j + i..][0]; }
      ColumnFits(Lo(a[i]), y, Lo(c[j + i]), carry);
      var z: word := Mul(Lo(a[i]), y) + Lo(c[j + i]) + carry;
      ColumnFits(Hi(a[i]), y, Hi(c[j + i]), z / 0x1_0000);
      var z2: word := Mul(Hi(a[i]), y) + Hi(c[j + i]) + z / 0x1_0000;
      MultLowStep(c[..j + i], c0, a0, i, j, y, carry, z, z2);
      carry := z2 / 0x1_0000;
      ghost var done := c[..j + i];
      c[j + i] := Join(z2, z);
      assert c[..j + i + 1] == done + [Join(z2, z)];
      i := i + 1;
    }
    ghost var done := c[..j + wa];
    c[j + wa] := carry;
    assert c[..j + wa + 1] == done + [carry];
    VSnocAt(done, carry);
    VStepAt(c0, j + wa);
    assert c0[..j + wa + 1] == old(c[..j + wa + 1]);
    assert a0[..wa] == a[..wa];
  }

  /** The part of a column not yet stored: the carry above the low half of `lo`. */
  ghost function Pending(carry: nat, lo: nat): nat { carry * 0x1_0000 + lo % 0x1_0000 }

  lemma MultHighStep(done: seq<word>, c: seq<word>, a: seq<word>, i: nat, j: nat, y: nat, carry: nat, lo: word,
      z: word, z2: word)
    requires |done| == j + i && j + i + 1 < |c| && i < |a|
    requires z == Mul(Lo(a[i]), y) + Hi(c[j + i]) + carry
    requires z2 == Mul(Hi(a[i]), y) + Lo(c[j + i + 1]) + z / 0x1_0000
    requires V(done) + At(Pending(carry, lo), j + i)
          == V(c[..j + i]) + At(Lo(c[j + i]), j + i) + Row(V(a[..i]), y * 0x1_0000, j)
    ensures V(done + [Join(z, lo)]) + At(z2, j + i + 1)
         == V(c[..j + i + 1]) + At(Lo(c[j + i + 1]), j + i + 1) + Row(V(a[..i + 1]), y * 0x1_0000, j)
  {
    hide *;
    var ai, ci, cn, n := a[i], c[j + i], Lo(c[j + i + 1]), j + i;
    HighColumn(ai, ci, y, carry, lo, z, z2, cn);
    CarryAt(Join(z, lo), Pending(carry, lo), ai * (y * 0x1_0000) + Hi(ci) * 0x1_0000, z2 - cn, n);
    AtSub(z2, cn, n + 1);
    AtAdd(ai * (y * 0x1_0000), Hi(ci) * 0x1_0000, n);
    HalvesWord(ci);
    AtAdd(Hi(ci) * 0x1_0000, Lo(ci), n);
    VSnocAt(done, Join(z, lo));
    VStepAt(c, n);
    RowStep(a, i, y * 0x1_0000, j);
  }

  lemma HighColumn(ai: word, ci: word, y: nat, carry: nat, lo: word, z: word, z2: word, cn: nat)
    requires z == Mul(Lo(ai), y) + Hi(ci) + carry && z2 == Mul(Hi(ai), y) + cn + z / 0x1_0000
    ensures Join(z, lo) + (z2 - cn) * B == ai * (y * 0x1_0000) + Hi(ci) * 0x1_0000 + Pending(carry, lo)
  {
    MulHalves(ai, y);
    assert ai * (y * 0x1_0000) == (ai * y) * 0x1_0000;
    assert (z % 0x1_0000) * 0x1_0000 + (z / 0x1_0000) * B == z * 0x1_0000;
  }

  /** c[j..] := c[j..] + a[..wa] * y * 2^16, for the high half of a word of the multiplier. */
  method MultHighRow(a: array<word>, wa: nat, y: nat, c: array<word>, j: nat)
    requires 1 <= wa <= a.Length && j + wa < c.Length && a != c
    requires y < 0x1_0000 && c[j + wa] < 0x1_0000
    modifies c
    ensures V(c[..j + wa + 1]) == V(old(c[..j + wa + 1])) + Row(V(a[..wa]), y * 0x1_0000, j)
    ensures c[j + wa + 1..] == old(c[j + wa + 1..])
  {
    hide *;
    ghost var c0, a0 := c[..], a[..];
    var i, carry: word := 0, 0;
    var z2: word := c[j];
    RowStart(a0, y * 0x1_0000, j);
    LoMod(z2);
    while i < wa
      invariant 0 <= i <= wa && carry < 0x1_0000
      invariant i > 0 ==> Pending(carry, z2) == z2
      invariant c[j + i..] == c0[j + i..]
      invariant V(c[..j + i]) + At(Pending(carry, z2), j + i)
             == V(c0[..j + i]) + At(Lo(c0[j + i]), j + i) + Row(V(a0[..i]), y * 0x1_0000, j)
    {
      assert c[j + i] == c0[j + i] by { assert c[j + i..][0] == c0[j + i..][0]; }
      assert c[j + i + 1] == c0[j + i + 1] by { assert c[j + i..][1] == c0[j + i..][1]; }
      ColumnFits(Lo(a[i]), y, Hi(c[j + i]), carry);
      var z: word := Mul(Lo(a[i]), y) + Hi(c[j + i]) + carry;
      ghost var done, lo := c[..j + i], z2;
      ColumnFits(Hi(a[i]), y, Lo(c[j + i + 1]), z / 0x1_0000);
      assert c[j + i + 1..] == c0[j + i + 1..] by { assert c[j + i + 1..] == c[j + i..][1..]; }
      c[j + i] := Join(z, z2);
      assert c[j + i + 1..] == c0[j + i + 1..];
      z2 := Mul(Hi(a[i]), y) + Lo(c[j + i + 1]) + z / 0x1_0000;
      MultHighStep(done, c0, a0, i, j, y, carry, lo, z, z2);
      carry := z2 / 0x1_0000;
      LoMod(z2);
      assert c[..j + i + 1] == done + [Join(z, lo)];
      i := i + 1;
    }
    ghost var done := c[..j + wa];
    c[j + wa] := z2;
    assert c[..j + wa + 1] == done + [z2];
    VSnocAt(done, z2);
    VStepAt(c0, j + wa);
    LoMod(c0[j + wa]);
    assert c0[..j + wa + 1] == old(c[..j + wa + 1]);
    assert a0[..wa] == a[..wa];
  }

  lemma MultOuterStep(va: nat, b: seq<word>, j: nat)
    requires j < |b|
    ensures va * V(b[..j + 1]) == va * V(b[..j]) + Row(va, Lo(b[j]), j) + Row(va, Hi(b[j]) * 0x1_0000, j)
  {
    VStep(b, j);
    OuterAlgebra(va, V(b[..j]), Lo(b[j]), Hi(b[j]) * 0x1_0000, Pow(B, j));
  }

  lemma OuterAlgebra(va: int, vb: int, l: int, h: int, p: int)
    ensures va * (vb + (l + h) * p) == va * vb + va * l * p + va * h * p
  {
    Dist(l, h, p);
    Assoc(va, l, p);
    Assoc(va, h, p);
    Dist(vb, l * p + h * p, va);
    Dist(l * p, h * p, va);
  }

  /** c[..wa+wb] := a[..wa] * b[..wb]. */
  method MultWords(a: array<word>, wa: nat, b: array<word>, wb: nat, c: array<word>)
    requires 1 <= wa <= a.Length && wb <= b.Length && wa + wb <= c.Length && a != c && b != c
    modifies c
    ensures V(c[..wa + wb]) == V(a[..wa]) * V(b[..wb])
  {
    hide *;
    var wc := wa + wb;
    var t := 0;
    while t < wc
      invariant 0 <= t <= wc
      invariant forall i :: 0 <= i < t ==> c[i] == 0
    {
      c[t] := 0;
      t := t + 1;
    }
    ghost var va, b0 := V(a[..wa]), b[..];
    VZeros(c[..wa], 0);
    MultStart(va, c[..wa], b0);
    var j := 0;
    while j < wb
      invariant 0 <= j <= wb
      invariant forall i :: wa + j <= i < wc ==> c[i] == 0
      invariant V(c[..wa + j]) == va * V(b0[..j])
    {
      VStepZero(c[..], j + wa);
      assert c[..][..j + wa] == c[..wa + j] && c[..][..j + wa + 1] == c[..j + wa + 1];
      MultOuterStep(va, b0, j);
      label L:
      if Lo(b[j]) != 0 {
        MultLowRow(a, wa, Lo(b[j]), c, j);
        TailKept(c[..], old@L(c[..]), j + wa + 1);
      } else {
        RowZero(va, j);
      }
      label M:
      if Hi(b[j]) != 0 {
        MultHighRow(a, wa, Hi(b[j]), c, j);
        TailKept(c[..], old@M(c[..]), j + wa + 1);
      } else {
        RowZero(va, j);
      }
      j := j + 1;
    }
    assert b0[..wb] == b[..wb];
  }

  lemma MultStart(va: nat, c: seq<word>, b: seq<word>)
    requires V(c) == V(c[..0])
    ensures V(c) == va * V(b[..0])
  {
  }

  lemma RowZero(va: nat, j: nat)
    ensures Row(va, 0, j) == 0
  {
  }

  lemma VStepZero(s: seq<word>, i: nat)
    requires i < |s| && s[i] == 0
    ensures V(s[..i + 1]) == V(s[..i])
  {
    VStep(s, i);
  }

  lemma TailKept(s: seq<word>, t: seq<word>, n: nat)
    requires |s| == |t| && n <= |s| && s[n..] == t[n..]
    ensures forall i :: n <= i < |s| ==> s[i] == t[i]
  {
    forall i | n <= i < |s| ensures s[i] == t[i] {
      assert s[n..][i - n] == t[n..][i - n];
    }
  }

  // ---- diff and quorem ----

  /** The borrow bit `(y & 0x10000) >> 16`. */
  function Bit16(y: word): (b: nat)
    ensures b <= 1
  { (y / 0x1_0000) % 2 }

  /** A 16-bit subtraction on wrapped 32-bit words leaves the right half and the right borrow. */
  lemma HalfSub(x: int, y: int, borrow: int)
    requires 0 <= x < 0x1_0000 && 0 <= y < 0x1_0000 && 0 <= borrow <= 1
    ensures Wrap(x - y - borrow) % 0x1_0000 == x - y - borrow + 0x1_0000 * Bit16(Wrap(x - y - borrow))
  {
    var t := x - y - borrow;
    if t < 0 {
      DivModUnique(t, 0x1_0000_0000, -1, t + 0x1_0000_0000);
      DivModUnique(t + 0x1_0000_0000, 0x1_0000, 0xffff, t + 0x1_0000);
    } else {
      DivModUnique(t, 0x1_0000_0000, 0, t);
      DivModUnique(t, 0x1_0000, 0, t);
    }
  }

  /** The two halves of a word subtraction. */
  lemma WordSub(a: word, b: word, borrow: nat, y: word, z: word)
    requires borrow <= 1
    requires y == Wrap(Lo(a) - Lo(b) - borrow)
    requires z == Wrap(Hi(a) - Hi(b) - Bit16(y))
    ensures Join(z, y) == a - b - borrow + Bit16(z) * B
  {
    HalfSub(Lo(a), Lo(b), borrow);
    HalfSub(Hi(a), Hi(b), Bit16(y));
    assert a == Hi(a) * 0x1_0000 + Lo(a) && b == Hi(b) * 0x1_0000 + Lo(b);
    assert Join(z, y) == (z % 0x1_0000) * 0x1_0000 + y % 0x1_0000;
  }

  lemma SubStep(done: seq<word>, a: seq<word>, b: seq<word>, i: nat, borrow: nat, y: word, z: word)
    requires |done| == i < |a| && i < |b| && borrow <= 1
    requires y == Wrap(Lo(a[i]) - Lo(b[i]) - borrow)
    requires z == Wrap(Hi(a[i]) - Hi(b[i]) - Bit16(y))
    requires V(done) + V(b[..i]) == V(a[..i]) + At(borrow, i)
    ensures V(done + [Join(z, y)]) + V(b[..i + 1]) == V(a[..i + 1]) + At(Bit16(z), i + 1)
  {
    hide *;
    WordSub(a[i], b[i], borrow, y, z);
    CarryAt(Join(z, y), -(borrow as int), a[i] as int - b[i] as int, -(Bit16(z) as int), i);
    VSnocAt(done, Join(z, y));
    VStepAt(a, i);
    VStepAt(b, i);
    AtSub(0, borrow, i);
    AtSub(0, Bit16(z), i + 1);
    AtSub(a[i], b[i], i);
  }

  lemma CarryAt(w: int, carry: int, add: int, carry': int, i: nat)
    requires w + carry' * B == add + carry
    ensures At(w, i) + At(carry', i + 1) == At(add, i) + At(carry, i)
  {
    CarryStep(-(carry * Pow(B, i)), 0, w, carry, add, carry', i);
  }

  lemma AtSub(x: int, y: int, i: nat)
    ensures At(x - y, i) == At(x, i) - At(y, i)
    ensures At(-y, i) == -At(y, i)
    ensures At(0, i) == 0
  {
    Dist(x, -y, Pow(B, i));
    NegMul(y, Pow(B, i));
  }

  lemma NegMul(x: int, p: int)
    ensures (-x) * p == -(x * p)
  {
  }

  lemma AtZero(i: nat)
    ensures At(0, i) == 0
    ensures V([]) == 0
  {
  }

  /** No borrow is left when the result cannot be negative. */
  lemma NoBorrow(c: seq<word>, va: int, t: nat)
    requires V(c) == va + At(t, |c|) && va >= 0
    ensures t == 0
  {
    VBound(c);
    if t >= 1 {
      MulMono(1, t, Pow(B, |c|));
    }
  }

  ghost function Padded(b: seq<word>, n: nat): (s: seq<word>)
    requires |b| <= n
    ensures |s| == n && s[..|b|] == b && V(s) == V(b)
    ensures forall i :: |b| <= i < n ==> s[i] == 0
  {
    var s := b + seq(n - |b|, _ => 0);
    VZeros(s, |b|);
    assert s[..|b|] == b;
    s
  }

  /** c[..wa] := a[..wa] - b[..wb]. */
  method SubWords(a: array<word>, wa: nat, b: array<word>, wb: nat, c: array<word>)
    requires 1 <= wb <= wa <= a.Length && wb <= b.Length && wa <= c.Length && a != c && b != c
    requires V(b[..wb]) <= V(a[..wa])
    modifies c
    ensures V(c[..wa]) == V(a[..wa]) - V(b[..wb])
  {
    hide *;
    ghost var a0, b0 := a[..wa], Padded(b[..wb], wa);
    var i, borrow: nat := 0, 0;
    AtZero(0);
    assert c[..0] == a0[..0] == b0[..0] == [];
    while i < wb
      invariant 0 <= i <= wb && borrow <= 1
      invariant V(c[..i]) + V(b0[..i]) == V(a0[..i]) + At(borrow, i)
    {
      assert b0[i] == b0[..wb][i];
      i, borrow := SubOne(a, a0, b0, b[i], c, i, borrow);
    }
    while i < wa
      invariant wb <= i <= wa && borrow <= 1
      invariant V(c[..i]) + V(b0[..i]) == V(a0[..i]) + At(borrow, i)
    {
      i, borrow := SubOne(a, a0, b0, 0, c, i, borrow);
    }
    assert a0[..wa] == a0 && b0[..wa] == b0;
    NoBorrow(c[..wa], V(a0) - V(b0), borrow);
    AtZero(wa);
  }

  method SubOne(a: array<word>, ghost a0: seq<word>, ghost b0: seq<word>, bi: word, c: array<word>, i: nat, borrow: nat)
    returns (i': nat, borrow': nat)
    requires i < a.Length && i < c.Length && i < |a0| && i < |b0| && borrow <= 1 && a != c
    requires a[i] == a0[i] && bi == b0[i]
    requires V(c[..i]) + V(b0[..i]) == V(a0[..i]) + At(borrow, i)
    modifies c
    ensures i' == i + 1 && borrow' <= 1
    ensures V(c[..i']) + V(b0[..i']) == V(a0[..i']) + At(borrow', i')
  {
    hide *;
    var y := Wrap(Lo(a[i]) - Lo(bi) - borrow);
    var z := Wrap(Hi(a[i]) - Hi(bi) - Bit16(y));
    SubStep(c[..i], a0, b0, i, borrow, y, z);
    ghost var done := c[..i];
    c[i] := Join(z, y);
    assert c[..i + 1] == done + [Join(z, y)];
    i', borrow' := i + 1, Bit16(z);
  }

  lemma SubMulStep(done: seq<word>, b: seq<word>, s: seq<word>, i: nat, q: nat, carry: nat, borrow: nat,
    ys: word, zs: word, y: word, z: word)
    requires |done| == i < |b| && i < |s| && borrow <= 1
    requires ys == Mul(Lo(s[i]), q) + carry && zs == Mul(Hi(s[i]), q) + ys / 0x1_0000
    requires y == Wrap(Lo(b[i]) - Lo(ys) - borrow)
    requires z == Wrap(Hi(b[i]) - Lo(zs) - Bit16(y))
    requires V(done) + V(s[..i]) * q == V(b[..i]) + At(carry + borrow, i)
    ensures V(done + [Join(z, y)]) + V(s[..i + 1]) * q == V(b[..i + 1]) + At(zs / 0x1_0000 + Bit16(z), i + 1)
  {
    hide *;
    var w: word, t := Join(zs, ys), zs / 0x1_0000 + Bit16(z);
    MulHalves(s[i], q);
    HalvesJoin(ys, zs);
    JoinHalves(zs, ys);
    WordSub(b[i], w, borrow, y, z);
    SubMulCarry(Join(z, y), b[i], w, s[i], q, carry, borrow, Mul(Lo(s[i]), q), Mul(Hi(s[i]), q), ys, zs, Bit16(z));
    CarryAt(Join(z, y), -(carry + borrow), b[i] - s[i] * q, -t, i);
    VSnocAt(done, Join(z, y));
    VStepAt(b, i);
    VStepMul(s, i, q);
    AtSub(0, carry + borrow, i);
    AtSub(0, t, i + 1);
    AtSub(b[i], s[i] * q, i);
  }

  /** The multiply-subtract identity on one word. */
  lemma SubMulCarry(out: int, bi: int, w: int, si: int, q: int, carry: int, borrow: int, l: int, h: int,
      ys: int, zs: int, bit: int)
    requires out == bi - w - borrow + bit * B
    requires w + (zs / 0x1_0000) * B == zs * 0x1_0000 + ys % 0x1_0000
    requires ys == l + carry && zs == h + ys / 0x1_0000 && h * 0x1_0000 + l == si * q
    ensures out + (-(zs / 0x1_0000 + bit)) * B == (bi - si * q) + (-(carry + borrow))
  {
  }

  lemma VStepMul(s: seq<word>, i: nat, q: nat)
    requires i < |s|
    ensures V(s[..i + 1]) * q == V(s[..i]) * q + At(s[i] * q, i)
  {
    VStep(s, i);
    SubMulAlgebra(V(s[..i]), s[i], q, 0, Pow(B, i));
    Assoc(s[i], Pow(B, i), q);
    Assoc(s[i], q, Pow(B, i));
  }

  lemma JoinHalves(zs: word, ys: word)
    ensures Lo(Join(zs, ys)) == Lo(ys) && Hi(Join(zs, ys)) == Lo(zs)
  {
    DivModUnique(Join(zs, ys), 0x1_0000, zs % 0x1_0000, ys % 0x1_0000);
  }

  lemma SubMulAlgebra(vs: int, si: int, q: int, bi: int, p: int)
    ensures (bi - si * q) * p == bi * p - si * p * q
    ensures (vs + si * p) * q == vs * q + si * p * q
  {
    Dist(bi, -(si * q), p);
    Assoc(si, q, p);
    Assoc(si, p, q);
    NegMul(si * q, p);
    Dist(vs, si * p, q);
  }

  /** b[..n] := b[..n] - s[..n] * q, the subtraction that `quorem` does twice. */
  method SubMulWords(b: array<word>, s: array<word>, n: nat, q: nat)
    requires n <= b.Length && n <= s.Length && b != s && q < 0x1_0000
    requires V(s[..n]) * q <= V(b[..n])
    modifies b
    ensures V(b[..n]) == V(old(b[..n])) - V(s[..n]) * q
    ensures b[n..] == old(b[n..])
  {
    hide *;
    ghost var b0, s0 := b[..], s[..];
    var i, carry: nat, borrow: nat := 0, 0, 0;
    SubMulStart(b0, s0, q);
    while i < n
      invariant 0 <= i <= n && borrow <= 1 && carry < 0x1_0000
      invariant b[i..] == b0[i..]
      invariant V(b[..i]) + V(s0[..i]) * q == V(b0[..i]) + At(carry + borrow, i)
    {
      var si := s[i];
      assert b[i] == b0[i] by { assert b[i..][0] == b0[i..][0]; }
      ColumnFits(Lo(si), q, carry, 0);
      var ys: word := Mul(Lo(si), q) + carry;
      ColumnFits(Hi(si), q, ys / 0x1_0000, 0);
      var zs: word := Mul(Hi(si), q) + ys / 0x1_0000;
      var y := Wrap(Lo(b[i]) - Lo(ys) - borrow);
      var z := Wrap(Hi(b[i]) - Lo(zs) - Bit16(y));
      SubMulStep(b[..i], b0, s0, i, q, carry, borrow, ys, zs, y, z);
      ghost var done := b[..i];
      b[i] := Join(z, y);
      assert b[..i + 1] == done + [Join(z, y)];
      carry, borrow := zs / 0x1_0000, Bit16(z);
      i := i + 1;
    }
    assert b0[..n] == old(b[..n]) && s0[..n] == s[..n];
    NoBorrow(b[..n], V(b0[..n]) - V(s0[..n]) * q, carry + borrow);
    AtZero(n);
  }

  lemma SubMulStart(b: seq<word>, s: seq<word>, q: nat)
    ensures V(b[..0]) == 0 && V(s[..0]) * q == 0 && At(0, 0) == 0
  {
  }

  // ---- lshift ----

  /** `x << k | z` in a word, and the bits that leave it. */
  lemma ShiftWord(x: word, k: nat, z: nat)
    requires 0 < k < 32 && z < Pow(2, k)
    ensures Pow(2, 32 - k) > 0
    ensures (x * Pow(2, k)) % B + z < B
    ensures (x * Pow(2, k)) % B + z + (x / Pow(2, 32 - k)) * B == x * Pow(2, k) + z
    ensures x / Pow(2, 32 - k) < Pow(2, k)
  {
    var p, r := Pow(2, k), Pow(2, 32 - k);
    PowAdd(2, k, 32 - k);
    Pow32();
    ShiftAlgebra(x, p, r);
    assert z <= p - 1;
  }

  lemma Pow32()
    ensures Pow(2, 32) == B
  {
    assert Pow(2, 8) == 256;
    PowAdd(2, 8, 8);
    PowAdd(2, 16, 16);
  }

  lemma ShiftAlgebra(x: nat, p: nat, r: nat)
    requires p > 0 && r > 0 && p * r == B && x < B
    ensures x / r < p
    ensures (x * p) % B + (x / r) * B == x * p
    ensures (x * p) % B <= B - p
  {
    var q, s := x / r, x % r;
    assert x == q * r + s;
    Dist(q * r, s, p);
    Assoc(q, r, p);
    assert r * p == B;
    MulMono(s, r - 1, p);
    assert (r - 1) * p == r * p - p;
    MulMono(0, s, p);
    DivModUnique(x * p, B, q, s * p);
    MulCancelStrict(q, p, r);
  }

  lemma ShiftStep(done: seq<word>, x: seq<word>, i: nat, n: nat, k: nat, z: nat, w: word, z': nat)
    requires i < |x| && |done| == n + i
    requires w + z' * B == x[i] * Pow(2, k) + z
    requires V(done) + At(z, n + i) == V(x[..i]) * Pow(2, k) * Pow(B, n)
    ensures V(done + [w]) + At(z', n + i + 1) == V(x[..i + 1]) * Pow(2, k) * Pow(B, n)
  {
    hide *;
    CarryAt(w, z, x[i] * Pow(2, k), z', n + i);
    VSnocAt(done, w);
    ShiftPlace(x, i, n, k);
  }

  lemma ShiftPlace(x: seq<word>, i: nat, n: nat, k: nat)
    requires i < |x|
    ensures V(x[..i + 1]) * Pow(2, k) * Pow(B, n) == V(x[..i]) * Pow(2, k) * Pow(B, n) + At(x[i] * Pow(2, k), n + i)
  {
    VStep(x, i);
    PowAdd(B, n, i);
    MultLowAlgebra(V(x[..i]), x[i], Pow(2, k), 0, Pow(B, n), Pow(B, i));
  }

  lemma ShiftStart(zeros: seq<word>, x: seq<word>, k: nat)
    requires forall i :: 0 <= i < |zeros| ==> zeros[i] == 0
    ensures V(zeros) + At(0, |zeros|) == V(x[..0]) * Pow(2, k) * Pow(B, |zeros|)
  {
    VZeros(zeros, 0);
    assert zeros[..0] == [];
  }

  lemma Pow2Zero()
    ensures Pow(2, 0) == 1
  {
  }

  lemma PowPos(b: nat, e: nat)
    requires b > 0
    ensures Pow(b, e) > 0
  {
  }

  /** `x << k | z`, whose two parts share no bit, and the bits shifted out. */
  method ShiftOne(x: word, k: nat, z: nat) returns (w: word, z': word)
    requires 0 < k < 32 && z < Pow(2, k)
    ensures w + z' * B == x * Pow(2, k) + z && z' < Pow(2, k)
  {
    hide Pow;
    ShiftWord(x, k, z);
    Pow32();
    PowMono(2, k, 32);
    w := (x * Pow(2, k)) % B + z;
    z' := x / Pow(2, 32 - k);
  }

  /** x1[..n+m] := x[..m] << (32n + k) with 0 <= k < 32; the bits above word n+m are returned. */
  method ShiftWords(x: array<word>, m: nat, x1: array<word>, n: nat, k: nat) returns (z: word)
    requires m <= x.Length && n + m <= x1.Length && x != x1 && k < 32
    modifies x1
    ensures V(x1[..n + m]) + At(z, n + m) == V(x[..m]) * Pow(2, k) * Pow(B, n)
    ensures x1[n + m..] == old(x1[n + m..])
  {
    hide *;
    var j := 0;
    while j < n
      invariant 0 <= j <= n
      invariant forall i :: 0 <= i < j ==> x1[i] == 0
      invariant x1[n + m..] == old(x1[n + m..])
    {
      x1[j] := 0;
      j := j + 1;
    }
    ghost var x0 := x[..];
    ShiftStart(x1[..n], x0, k);
    z := 0;
    var i := 0;
    if k != 0 {
      PowPos(2, k);
      while i < m
        invariant 0 <= i <= m && z < Pow(2, k)
        invariant V(x1[..n + i]) + At(z, n + i) == V(x0[..i]) * Pow(2, k) * Pow(B, n)
        invariant x1[n + m..] == old(x1[n + m..])
      {
        ghost var done, zOld := x1[..n + i], z;
        x1[n + i], z := ShiftOne(x[i], k, z);
        ShiftStep(done, x0, i, n, k, zOld, x1[n + i], z);
        assert x1[..n + i + 1] == done + [x1[n + i]];
        i := i + 1;
      }
    } else {
      Pow2Zero();
      while i < m
        invariant 0 <= i <= m
        invariant V(x1[..n + i]) + At(z, n + i) == V(x0[..i]) * Pow(2, k) * Pow(B, n)
        invariant x1[n + m..] == old(x1[n + m..])
        invariant z == 0
      {
        ghost var done := x1[..n + i];
        x1[n + i] := x[i];
        ShiftStep(done, x0, i, n, k, 0, x1[n + i], 0);
        assert x1[..n + i + 1] == done + [x1[n + i]];
        i := i + 1;
      }
    }
    assert x0[..m] == x[..m];
  }

  // ---- cmp ----

  lemma CompareTop(a: seq<word>, b: seq<word>, i: nat)
    requires |a| == |b| && i < |a| && a[i] < b[i] && a[i + 1..] == b[i + 1..]
    ensures V(a) < V(b)
  {
    hide *;
    assert a == a[..i + 1] + a[i + 1..] && b == b[..i + 1] + b[i + 1..];
    VAppend(a[..i + 1], a[i + 1..]);
    VAppend(b[..i + 1], b[i + 1..]);
    CompareAt(a, b, i);
  }

  lemma CompareAt(a: seq<word>, b: seq<word>, i: nat)
    requires i < |a| && i < |b| && a[i] < b[i]
    ensures V(a[..i + 1]) < V(b[..i + 1])
  {
    hide *;
    VStepAt(a, i);
    VStepAt(b, i);
    VBound(a[..i]);
    AtMono(a[i], b[i], i);
  }

  lemma AtMono(x: nat, y: nat, i: nat)
    requires x < y
    ensures At(x, i) + Pow(B, i) <= At(y, i)
  {
    MulMono(x + 1, y, Pow(B, i));
  }

  /** The sign of a[..n] - b[..n], most significant words first. */
  method CompareWords(a: array<word>, b: array<word>, n: nat) returns (r: int)
    requires n <= a.Length && n <= b.Length
    ensures -1 <= r <= 1
    ensures r < 0 <==> V(a[..n]) < V(b[..n])
    ensures r > 0 <==> V(a[..n]) > V(b[..n])
  {
    hide *;
    var i := n;
    while i > 0
      invariant 0 <= i <= n
      invariant a[i..n] == b[i..n]
    {
      i := i - 1;
      if a[i] != b[i] {
        assert a[..n][i + 1..] == a[i + 1..n] && b[..n][i + 1..] == b[i + 1..n];
        if a[i] < b[i] {
          CompareTop(a[..n], b[..n], i);
          return -1;
        } else {
          CompareTop(b[..n], a[..n], i);
          return 1;
        }
      }
    }
    assert a[..n] == b[..n];
    return 0;
  }

  /** More normalised words mean a larger value. */
  lemma LongerIsLarger(s: seq<word>, t: seq<word>)
    requires |s| > |t| && s[|s| - 1] != 0
    ensures V(s) > V(t)
  {
    VTop(s);
    VBound(t);
    PowMono(B, |t|, |s| - 1);
  }
}
