/** The integer conversions of printf and scanf, and that they undo each other. */
module Integers {
  import opened Arith

  /** One more than the largest unsigned long. */
  const MODULUS: nat := 0x1_0000_0000

  datatype Flags = Flags(space: bool, alt: bool, sign: bool, left: bool, zpad: bool)

  /** A conversion: %d, %u, %o, %x or %X. */
  datatype Conversion = D | U | O | X | UpperX {
    function Radix(): nat { match this case D => 10 case U => 10 case O => 8 case X => 16 case UpperX => 16 }

    predicate Signed() { this == D }

    function Prefix(): string { match this case O => "0" case X => "0x" case UpperX => "0X" case _ => "" }

    /** The numbers it takes. */
    predicate Takes(n: int) { if this == D then -0x8000_0000 < n < 0x8000_0000 else 0 <= n < 0x1_0000_0000 }
  }

  function DigitChar(d: nat, upper: bool): char
    requires d < 16
  {
    if d < 10 then ('0' as int + d) as char else ((if upper then 'A' else 'a') as int + d - 10) as char
  }

  /** The number in the radix, without leading zeros. */
  function Numeral(n: nat, radix: nat, upper: bool): (s: string)
    requires 2 <= radix <= 16
    ensures s != ""
    decreases n, 1
  {
    High(n, radix, upper) + [DigitChar(Mod(n, radix), upper)]
  }

  /** All digits but the last. */
  function High(n: nat, radix: nat, upper: bool): string
    requires 2 <= radix <= 16
    decreases n, 0
  {
    if n < radix then "" else Numeral(Div(n, radix), radix, upper)
  }

  function Repeat(c: char, n: nat): (s: string)
    ensures |s| == n
  { seq(n, _ => c) }

  function Abs(n: int): nat { if n < 0 then -n else n }

  function SignOf(n: int, c: Conversion, fl: Flags): string {
    if !c.Signed() then "" else if n < 0 then "-" else if fl.sign then "+" else if fl.space then " " else ""
  }

  /** The digits of the number; precision 0 prints no zero. */
  function DigitsOf(n: int, c: Conversion, precision: int): string {
    if n == 0 && precision == 0 then "" else Numeral(Abs(n), c.Radix(), c == UpperX)
  }

  function LeadingZeros(n: int, c: Conversion, precision: int): nat {
    var have := |DigitsOf(n, c, precision)|;
    if precision > have then precision - have else 0
  }

  function PrefixOf(n: int, c: Conversion, fl: Flags, precision: int): string {
    if n == 0 || !fl.alt || (c == O && LeadingZeros(n, c, precision) > 0) then "" else c.Prefix()
  }

  function Padding(n: int, c: Conversion, fl: Flags, width: nat, precision: int): nat {
    var have := |DigitsOf(n, c, precision)| + LeadingZeros(n, c, precision)
      + |PrefixOf(n, c, fl, precision)| + |SignOf(n, c, fl)|;
    if width > have then width - have else 0
  }

  /** Where the padding goes. */
  function Layout(front: string, number: string, pad: nat, fl: Flags, precision: int): string {
    if fl.left then front + number + Repeat(' ', pad)
    else if fl.zpad && precision <= 0 then front + Repeat('0', pad) + number
    else Repeat(' ', pad) + front + number
  }

  /** What is printed. */
  function Printed(n: int, c: Conversion, fl: Flags, width: nat, precision: int): string {
    Layout(SignOf(n, c, fl) + PrefixOf(n, c, fl, precision),
           Repeat('0', LeadingZeros(n, c, precision)) + DigitsOf(n, c, precision),
           Padding(n, c, fl, width, precision), fl, precision)
  }

  // ---- what the format promises ----

  /** The parts of what is printed: blanks, a sign, a prefix, zeros, digits and blanks. */
  datatype Parts = Parts(left: nat, sign: string, prefix: string, zeros: nat, digits: string, right: nat)

  ghost predicate IsDigit(ch: char, c: Conversion) {
    match c
    case D => '0' <= ch <= '9'
    case U => '0' <= ch <= '9'
    case O => '0' <= ch <= '7'
    case X => '0' <= ch <= '9' || 'a' <= ch <= 'f'
    case UpperX => '0' <= ch <= '9' || 'A' <= ch <= 'F'
  }

  ghost predicate AllDigits(s: string, c: Conversion) { forall k :: 0 <= k < |s| ==> IsDigit(s[k], c) }

  ghost function CharWorth(ch: char): int {
    ch as int - if ch <= '9' then '0' as int else if ch <= 'F' then 'A' as int - 10 else 'a' as int - 10
  }

  /** The number that digits of a base stand for. */
  ghost function Worth(s: string, base: nat): int {
    if s == "" then 0
    else Worth(s[..|s| - 1], base) * base + CharWorth(s[|s| - 1])
  }

  ghost predicate Signs(sign: string, n: int, c: Conversion, fl: Flags) {
    sign == if c != D then "" else if n < 0 then "-" else if fl.sign then "+" else if fl.space then " " else ""
  }

  /** The alternate form; that of octal is only to start with a 0. */
  ghost predicate Prefixes(p: Parts, n: int, c: Conversion, fl: Flags, precision: int) {
    p.prefix ==
      if n == 0 || !fl.alt then ""
      else match c {
        case X => "0x"
        case UpperX => "0X"
        case O => if precision > |p.digits| then "" else "0"
        case _ => ""
      }
  }

  ghost predicate Counts(digits: string, n: int, c: Conversion, precision: int) {
    && AllDigits(digits, c)
    && Worth(digits, match c case O => 8 case D => 10 case U => 10 case _ => 16) == (if n < 0 then -n else n)
    && (digits == "" <==> n == 0 && precision == 0)
    && (digits != "" && digits[0] == '0' ==> digits == "0")
  }

  /** The precision is a least number of digits; what the width adds goes to one place. */
  ghost predicate Pads(p: Parts, fl: Flags, width: nat, precision: int) {
    var zeros: nat := if precision > |p.digits| then precision - |p.digits| else 0;
    var have := |p.sign| + |p.prefix| + zeros + |p.digits|;
    var pad: nat := if width > have then width - have else 0;
    if fl.left then p.left == 0 && p.zeros == zeros && p.right == pad
    else if fl.zpad && precision <= 0 then p.left == 0 && p.zeros == pad && p.right == 0
    else p.left == pad && p.zeros == zeros && p.right == 0
  }

  /** What a conversion is to print. */
  ghost predicate Formatted(out: string, p: Parts, n: int, c: Conversion, fl: Flags, width: nat, precision: int) {
    && out == Repeat(' ', p.left) + p.sign + p.prefix + Repeat('0', p.zeros) + p.digits + Repeat(' ', p.right)
    && Signs(p.sign, n, c, fl) && Prefixes(p, n, c, fl, precision)
    && Counts(p.digits, n, c, precision) && Pads(p, fl, width, precision)
  }

  ghost function PartsOf(n: int, c: Conversion, fl: Flags, width: nat, precision: int): Parts {
    var pad, zeros := Padding(n, c, fl, width, precision), LeadingZeros(n, c, precision);
    var zpad := !fl.left && fl.zpad && precision <= 0;
    Parts(if fl.left || zpad then 0 else pad, SignOf(n, c, fl), PrefixOf(n, c, fl, precision),
          if zpad then pad else zeros, DigitsOf(n, c, precision), if fl.left then pad else 0)
  }

  lemma DigitIs(d: nat, c: Conversion)
    requires d < c.Radix()
    ensures IsDigit(DigitChar(d, c == UpperX), c) && CharWorth(DigitChar(d, c == UpperX)) == d
  {
  }

  lemma WorthSnoc(s: string, d: char, base: nat)
    ensures Worth(s + [d], base) == Worth(s, base) * base + CharWorth(d)
  {
    assert (s + [d])[..|s|] == s;
  }

  /** A numeral is made of digits of the conversion and is worth the number. */
  lemma {:induction false} NumeralWorth(n: nat, c: Conversion)
    ensures Worth(Numeral(n, c.Radix(), c == UpperX), c.Radix()) == n
    ensures AllDigits(Numeral(n, c.Radix(), c == UpperX), c)
    decreases n
  {
    var r, up := c.Radix(), c == UpperX;
    assert 2 <= r <= 16 && Worth("", r) == 0 && AllDigits("", c);
    NumeralIs(n, r, up);
    DigitIs(Mod(n, r), c);
    hide *;
    WorthSnoc(High(n, r, up), DigitChar(Mod(n, r), up), r);
    Split(n, r);
    if n >= r {
      DivLess(n, r);
      NumeralWorth(Div(n, r), c);
    }
    DigitsSnoc(High(n, r, up), DigitChar(Mod(n, r), up), c);
  }

  lemma DigitsSnoc(s: string, d: char, c: Conversion)
    requires AllDigits(s, c) && IsDigit(d, c)
    ensures AllDigits(s + [d], c)
  {
  }

  lemma Split(n: nat, r: nat)
    requires r > 0
    ensures Div(n, r) * r + Mod(n, r) == n && (n < r ==> Mod(n, r) == n && Div(n, r) == 0)
  {
    DivModProps(n, r);
    if n < r {
      DivModUnique(n, r, 0, n);
    }
  }

  lemma DigitsCount(n: int, c: Conversion, precision: int)
    ensures Counts(DigitsOf(n, c, precision), n, c, precision)
  {
    NumeralWorth(Abs(n), c);
    LeadingDigit(Abs(n), c.Radix(), c == UpperX);
    if n == 0 {
      ZeroNumeral(c.Radix(), c == UpperX);
    }
    hide Numeral, IsDigit;
  }

  /** What is printed is what the format promises. */
  lemma PrintedIs(n: int, c: Conversion, fl: Flags, width: nat, precision: int)
    ensures var out, p := Printed(n, c, fl, width, precision), PartsOf(n, c, fl, width, precision);
            Formatted(out, p, n, c, fl, width, precision)
  {
    DigitsCount(n, c, precision);
    hide Counts, Numeral, DigitsOf, Repeat;
    var p, z := PartsOf(n, c, fl, width, precision), LeadingZeros(n, c, precision);
    var pad := Padding(n, c, fl, width, precision);
    assert Signs(p.sign, n, c, fl) && Prefixes(p, n, c, fl, precision) && Pads(p, fl, width, precision);
    assert Printed(n, c, fl, width, precision)
        == Layout(p.sign + p.prefix, Repeat('0', z) + p.digits, pad, fl, precision);
    LaidOut(p.sign, p.prefix, z, p.digits, pad, fl, precision);
  }

  lemma LaidOut(sign: string, prefix: string, z: nat, digits: string, pad: nat, fl: Flags, precision: int)
    requires precision <= 0 ==> z == 0
    ensures Layout(sign + prefix, Repeat('0', z) + digits, pad, fl, precision)
         == if fl.left then Repeat(' ', 0) + sign + prefix + Repeat('0', z) + digits + Repeat(' ', pad)
            else if fl.zpad && precision <= 0
            then Repeat(' ', 0) + sign + prefix + Repeat('0', pad) + digits + Repeat(' ', 0)
            else Repeat(' ', pad) + sign + prefix + Repeat('0', z) + digits + Repeat(' ', 0)
  {
  }

  // ---- printing ----

  /** The digits, least significant first; `digits` holds 128 of them. */
  method FillDigits(digits: array<char>, n: nat, c: Conversion) returns (dp: nat)
    requires digits.Length == 128 && n < Pow(2, 64)
    modifies digits
    ensures 0 < dp <= 64 && Reversed(digits[..dp]) == Numeral(n, c.Radix(), c == UpperX)
  {
    hide Numeral, High, Mod, Div, Mul, Reversed, DigitChar;
    var num := n;
    dp := 0;
    ghost var r, up := c.Radix(), c == UpperX;
    assert Mul(n, Pow(2, 0)) == n by { MulOne(n); }
    hide Pow;
    while true
      invariant dp < 64 && 0 <= num && Mul(num, Pow(2, dp)) < Pow(2, 64)
      invariant if dp == 0 then num == n else Numeral(num, r, up) + Reversed(digits[..dp]) == Numeral(n, r, up)
      decreases num
    {
      ghost var done := digits[..dp];
      digits[dp] := DigitChar(Mod(num, c.Radix()), c == UpperX);
      OneDigit(num, r, up, done, n);
      assert digits[..dp + 1] == done + [DigitChar(Mod(num, r), up)];
      NumeralIs(num, r, up);
      Halved(num, r, dp);
      dp := dp + 1;
      num := Div(num, c.Radix());
      if num == 0 {
        return;
      }
    }
  }

  function Reversed(s: string): string {
    if s == "" then "" else [s[|s| - 1]] + Reversed(s[..|s| - 1])
  }

  lemma ReversedSnoc(s: string, d: char)
    ensures Reversed(s + [d]) == [d] + Reversed(s)
  {
    assert (s + [d])[..|s|] == s;
  }

  lemma NumeralIs(num: nat, r: nat, up: bool)
    requires 2 <= r <= 16
    ensures Numeral(num, r, up) == High(num, r, up) + [DigitChar(Mod(num, r), up)]
    ensures High(num, r, up) == if num < r then "" else Numeral(Div(num, r), r, up)
    ensures num < r <==> Div(num, r) == 0
  {
    hide Mod;
    SmallDiv(num, r);
  }

  lemma SmallDiv(num: nat, r: nat)
    requires r > 0
    ensures num < r <==> Div(num, r) == 0
  {
    DivModProps(num, r);
    if num >= r && num / r == 0 {
      assert false;
    }
  }

  lemma OneDigit(num: nat, r: nat, up: bool, done: string, n: nat)
    requires 2 <= r <= 16
    requires if done == "" then num == n else Numeral(num, r, up) + Reversed(done) == Numeral(n, r, up)
    ensures High(num, r, up) + Reversed(done + [DigitChar(Mod(num, r), up)]) == Numeral(n, r, up)
  {
    ghost var d := DigitChar(Mod(num, r), up);
    NumeralIs(num, r, up);
    ReversedSnoc(done, d);
    assert Reversed("") == "";
    hide *;
    Shift(High(num, r, up), d, Reversed(done), Numeral(num, r, up));
    if done == "" {
      Nothing(Numeral(n, r, up));
    }
  }

  lemma Shift(h: string, d: char, rest: string, whole: string)
    requires whole == h + [d]
    ensures h + ([d] + rest) == whole + rest
  {
  }

  lemma Nothing(s: string)
    ensures s + "" == s
  {
  }

  lemma MulOne(n: nat)
    ensures Mul(n, Pow(2, 0)) == n
  {
  }

  lemma Halved(num: nat, r: nat, dp: nat)
    requires r >= 2 && dp < 64 && Mul(num, Pow(2, dp)) < Pow(2, 64)
    ensures Div(num, r) <= num && (num > 0 ==> Div(num, r) < num)
    ensures Div(num, r) > 0 ==> dp + 1 < 64 && Mul(Div(num, r), Pow(2, dp + 1)) < Pow(2, 64)
  {
    DivLess(num, r);
    PowStep(2, dp);
    hide Pow, Div;
    HalfProduct(Div(num, r), num, Pow(2, dp));
    if Div(num, r) > 0 && dp == 63 {
      MulMono(1, Div(num, r), Pow(2, 64));
    }
  }

  lemma DivLess(num: nat, r: nat)
    requires r >= 2
    ensures 2 * Div(num, r) <= num
  {
    DivModProps(num, r);
    MulMono(2, r, num / r);
  }

  lemma HalfProduct(q: nat, num: nat, p: nat)
    requires 2 * q <= num
    ensures Mul(q, 2 * p) <= Mul(num, p)
  {
    MulMono(2 * q, num, p);
    assert q * (2 * p) == (2 * q) * p;
  }

  lemma {:induction false} LeadingDigit(n: nat, r: nat, up: bool)
    requires 2 <= r <= 16
    ensures Numeral(n, r, up)[0] == '0' <==> n == 0
    decreases n
  {
    NumeralIs(n, r, up);
    DigitZero(n, r, up);
    if n >= r {
      LeadingDigit(Div(n, r), r, up);
    }
  }

  lemma DigitZero(n: nat, r: nat, up: bool)
    requires 2 <= r <= 16
    ensures n < r ==> (DigitChar(Mod(n, r), up) == '0' <==> n == 0)
    ensures n >= r ==> Div(n, r) < n
  {
    DivLess(n, r);
    if n < r {
      DivModUnique(n, r, 0, n);
    }
  }

  /** `while(n) putc(c)`. */
  method PutMany(out: string, c: char, n: nat) returns (out': string)
    ensures out' == out + Repeat(c, n)
  {
    out' := out;
    var i := n;
    while i > 0
      invariant 0 <= i <= n && out' == out + Repeat(c, n - i)
    {
      out' := out' + [c];
      i := i - 1;
      assert Repeat(c, n - i) == Repeat(c, n - i - 1) + [c];
    }
  }

  /** `while(dp != digits) putc(*--dp)`. */
  method PutDigits(out: string, digits: array<char>, dp: nat) returns (out': string)
    requires dp <= digits.Length
    ensures out' == out + Reversed(digits[..dp])
  {
    out' := out;
    var i := dp;
    while i > 0
      invariant 0 <= i <= dp && out' + Reversed(digits[..i]) == out + Reversed(digits[..dp])
    {
      i := i - 1;
      assert digits[..i + 1][..i] == digits[..i];
      assert out' + ([digits[i]] + Reversed(digits[..i])) == (out' + [digits[i]]) + Reversed(digits[..i]);
      out' := out' + [digits[i]];
    }
    assert out' + "" == out';
  }

  lemma {:induction false} ReversedShape(s: string)
    ensures |Reversed(s)| == |s| && (s != "" ==> Reversed(s)[0] == s[|s| - 1])
  {
    if s != "" {
      ReversedShape(s[..|s| - 1]);
    }
  }

  lemma Pow64()
    ensures MODULUS < Pow(2, 64)
  {
    assert Pow(2, 4) == 16;
    hide Pow;
    PowAdd(2, 4, 4);
    PowAdd(2, 8, 8);
    PowAdd(2, 16, 16);
    PowAdd(2, 32, 32);
  }

  /** The digits, none for a zero with precision 0. */
  method NumberDigits(digits: array<char>, num: nat, c: Conversion, precision: int) returns (dp: nat)
    requires digits.Length == 128 && num <= MODULUS
    modifies digits
    ensures dp <= 64
    ensures Reversed(digits[..dp]) == if num == 0 && precision == 0 then "" else Numeral(num, c.Radix(), c == UpperX)
    ensures |Reversed(digits[..dp])| == dp && (dp > 0 ==> (digits[dp - 1] == '0' <==> num == 0))
  {
    Pow64();
    hide Pow;
    dp := FillDigits(digits, num, c);
    ReversedShape(digits[..dp]);
    LeadingDigit(num, c.Radix(), c == UpperX);
    hide High;
    if precision == 0 && dp == 1 && digits[dp - 1] == '0' {
      dp := dp - 1;
      assert Reversed(digits[..0]) == "";
    } else if num == 0 {
      ZeroNumeral(c.Radix(), c == UpperX);
    }
  }

  lemma ZeroNumeral(r: nat, up: bool)
    requires 2 <= r <= 16
    ensures |Numeral(0, r, up)| == 1
  {
  }

  /** The sign, the prefix, the zeros and the digits. */
  method Pieces(digits: array<char>, n: int, c: Conversion, fl: Flags, precision: int)
    returns (sign: string, prefix: string, nlzero: nat, dp: nat)
    requires c.Takes(n) && digits.Length == 128
    modifies digits
    ensures dp <= 64 && Reversed(digits[..dp]) == DigitsOf(n, c, precision) && |DigitsOf(n, c, precision)| == dp
    ensures sign == SignOf(n, c, fl) && nlzero == LeadingZeros(n, c, precision)
    ensures prefix == PrefixOf(n, c, fl, precision)
  {
    sign := if !c.Signed() then "" else if n < 0 then "-" else if fl.sign then "+" else if fl.space then " " else "";
    var num: nat := if n < 0 then -n else n;
    dp := NumberDigits(digits, num, c, precision);
    hide Numeral, Reversed;
    nlzero := if precision - dp < 0 then 0 else precision - dp;
    // The source reads the leading digit even when there is none; then the number is zero and has no prefix anyway.
    prefix :=
      if num == 0 || !fl.alt || (c.Radix() == 8 && ((dp > 0 && digits[dp - 1] == '0') || nlzero > 0)) then ""
      else c.Prefix();
  }

  /** `ocvt_fixed`: the characters, and their number, which is at least the width. */
  method Print(n: int, c: Conversion, fl: Flags, width: nat, precision: int)
    returns (out: string, nout: nat, ghost parts: Parts)
    requires c.Takes(n)
    ensures Formatted(out, parts, n, c, fl, width, precision)
    ensures out == Printed(n, c, fl, width, precision) && nout == |out| && nout >= width
  {
    parts := PartsOf(n, c, fl, width, precision);
    PrintedIs(n, c, fl, width, precision);
    hide Numeral, Reversed, DigitsOf, SignOf, PrefixOf, LeadingZeros, Repeat, Layout, Pow, Formatted, PartsOf;
    var digits := new char[128];
    var sign, prefix, nlzero, dp := Pieces(digits, n, c, fl, precision);
    nout := dp + nlzero + |prefix| + |sign|;
    var npad: nat := if width - nout < 0 then 0 else width - nout;
    nout := nout + npad;
    out := Assemble(sign, prefix, nlzero, digits, dp, npad, fl, precision);
  }

  /** The pieces in order. */
  method Assemble(sign: string, prefix: string, nlzero: nat, digits: array<char>, dp: nat, npad: nat,
      fl: Flags, precision: int)
    returns (out: string)
    requires dp <= digits.Length && |Reversed(digits[..dp])| == dp
    ensures out == Layout(sign + prefix, Repeat('0', nlzero) + Reversed(digits[..dp]), npad, fl, precision)
    ensures |out| == |sign| + |prefix| + nlzero + dp + npad
  {
    hide Repeat, Reversed;
    var ds := Reversed(digits[..dp]);
    if !fl.left {
      if fl.zpad && precision <= 0 {
        out := PutMany(sign + prefix, '0', npad);
      } else {
        out := PutMany("", ' ', npad);
        out := out + sign + prefix;
      }
      out := PutMany(out, '0', nlzero);
      out := PutDigits(out, digits, dp);
    } else {
      out := PutMany(sign + prefix, '0', nlzero);
      out := PutDigits(out, digits, dp);
      out := PutMany(out, ' ', npad);
    }
  }

  // ---- scanning ----

  predicate IsSpace(c: char)
    ensures IsSpace(c) <==> c as int == 32 || 9 <= c as int <= 13
  { c in [' ', '\t', '\n', '\r', '\U{0b}', '\U{0c}'] }

  /** The value of a hexadecimal digit, 16 for anything else. */
  function DigitValue(c: char): nat {
    if '0' <= c <= '9' then c as int - '0' as int
    else if 'a' <= c <= 'f' then c as int - 'a' as int + 10
    else if 'A' <= c <= 'F' then c as int - 'A' as int + 10
    else 16
  }

  lemma DigitValueIs(c: char, v: nat)
    requires v < 16
    ensures DigitValue(c) == v <==> c == "0123456789abcdef"[v] || c == "0123456789ABCDEF"[v]
  {
  }

  ghost function SkipSpaces(s: string): string {
    if s != "" && IsSpace(s[0]) then SkipSpaces(s[1..]) else s
  }

  /** The number the digits at the front make, modulo the range of an unsigned long, and how many there are. */
  ghost function Digits(s: string, base: nat, num: nat): (nat, nat) {
    if s != "" && DigitValue(s[0]) < base then
      var (n, k) := Digits(s[1..], base, (num * base + DigitValue(s[0])) % 0x1_0000_0000);
      (n, k + 1)
    else (num, 0)
  }

  /** A scanned number: its sign, its magnitude and how many characters it took; none if there is no digit. */
  datatype Scan = NoNumber(used: nat) | Number(negative: bool, magnitude: nat, used: nat)

  /** The digits after a sign and a base prefix of `used` characters, of which `seen` are digits already. */
  ghost function ScanDigits(s: string, base: nat, negative: bool, seen: nat, used: nat): Scan {
    var (n, k) := Digits(s, base, 0);
    if seen + k == 0 then NoNumber(used) else Number(negative, n, used + k)
  }

  /**
   * The field s, which `cut` says the field width ended. Base 16 takes a prefix and base 0 is C's
   * syntax. A lone 0 that the width ends does not count as a number in those two.
   */
  ghost function ScanUnsigned(s: string, cut: bool, base: nat, negative: bool, used: nat): Scan {
    if (base == 0 || base == 16) && s != "" && s[0] == '0' then
      if |s| == 1 then if cut then NoNumber(used + 1) else Number(negative, 0, used + 1)
      else if s[1] == 'x' || s[1] == 'X' then ScanDigits(s[2..], 16, negative, 0, used + 2)
      else ScanDigits(s[1..], if base == 0 then 8 else 16, negative, 1, used + 1)
    else ScanDigits(s, if base == 0 then 10 else base, negative, 0, used)
  }

  ghost function ScanField(s: string, cut: bool, base: nat): Scan {
    if s != "" && (s[0] == '+' || s[0] == '-') then ScanUnsigned(s[1..], cut, base, s[0] == '-', 1)
    else ScanUnsigned(s, cut, base, false, 0)
  }

  /** What scanf's integer conversion makes of a text; a negative width is none. */
  ghost function Scanned(text: string, width: int, base: nat): Scan {
    var s := SkipSpaces(text);
    if 0 <= width <= |s| then ScanField(s[..width], true, base) else ScanField(s, false, base)
  }

  /** The field a width leaves of the text after the spaces, and whether the width ends it. */
  function Field(s: string, width: int): string { if 0 <= width <= |s| then s[..width] else s }

  predicate Cut(s: string, width: int) { 0 <= width <= |s| }

  /** Position i of the field is the current character; `left` counts the width down. */
  predicate Reading(s: string, width: int, i: nat, left: int) {
    i <= |Field(s, width)| && (if width < 0 then left < 0 else left == width - 1 - i >= 0)
  }

  /** `wgetc`: the next character, unless the field is used up. */
  method Next(s: string, width: int, i: nat, left: int) returns (done: bool, i': nat, left': int)
    requires Reading(s, width, i, left) && i < |s|
    ensures i < |Field(s, width)| && i' == i + 1 && (done <==> Cut(s, width) && i' == |Field(s, width)|)
    ensures !done ==> Reading(s, width, i', left')
  {
    done := left == 0;
    i', left' := i + 1, left - 1;
  }

  /** The digits of `icvt_fixed`, from the current character on. */
  method TakeDigits(s: string, width: int, i0: nat, left0: int, base: nat, negative: bool, seen: nat) returns (r: Scan)
    requires Reading(s, width, i0, left0) && seen <= 1 && 0 < base <= 16
    ensures r == ScanDigits(Field(s, width)[i0..], base, negative, seen, i0)
  {
    ghost var f := Field(s, width);
    var i, left, num, ndig := i0, left0, 0, seen;
    while i < |s| && DigitValue(s[i]) < 16
      invariant Reading(s, width, i, left) && ndig == seen + (i - i0) && i0 <= i && 0 <= num
      invariant Digits(f[i0..], base, 0) == (Digits(f[i..], base, num).0, (i - i0) + Digits(f[i..], base, num).1)
    {
      hide DigitValue;
      var dig := DigitValue(s[i]);
      if dig >= base {
        break;
      }
      ndig := ndig + 1;
      assert i < |f| && f[i] == s[i] && f[i..][1..] == f[i + 1..];
      num := (num * base + dig) % MODULUS;
      var done;
      done, i, left := Next(s, width, i, left);
      if done {
        assert f[i..] == "";
        return Number(negative, num, i);
      }
    }
    r := if ndig == 0 then NoNumber(i) else Number(negative, num, i);
  }

  /** `icvt_fixed` after the spaces and the sign. */
  method TakeUnsigned(s: string, width: int, i0: nat, left0: int, base0: nat, negative: bool) returns (r: Scan)
    requires Reading(s, width, i0, left0) && base0 in {0, 8, 10, 16}
    ensures r == ScanUnsigned(Field(s, width)[i0..], Cut(s, width), base0, negative, i0)
  {
    ghost var f := Field(s, width);
    var i, left, base, ndig := i0, left0, base0, 0;
    if (base == 0 || base == 16) && i < |s| && s[i] == '0' {
      assert i < |f| && f[i..][0] == '0';
      var done;
      done, i, left := Next(s, width, i, left);
      if done {
        assert |f[i0..]| == 1;
        return NoNumber(i);
      }
      if i < |s| && (s[i] == 'x' || s[i] == 'X') {
        assert i < |f| && f[i0..][1] == s[i] && f[i0..][2..] == f[i + 1..];
        done, i, left := Next(s, width, i, left);
        if done {
          assert f[i..] == "";
          return NoNumber(i);
        }
        base := 16;
      } else {
        assert f[i0..][1..] == f[i..] && (|f[i0..]| > 1 ==> f[i0..][1] == s[i]);
        ndig := 1;
        base := if base == 0 then 8 else 16;
      }
    } else if base == 0 {
      base := 10;
    }
    hide Digits, Reading;
    r := TakeDigits(s, width, i, left, base, negative, ndig);
  }

  /** `icvt_fixed`: what is scanned, and how far the stream has moved. */
  method ScanNumber(text: string, width: int, base: nat) returns (r: Scan, at: nat)
    requires base in {0, 8, 10, 16}
    ensures r == Scanned(text, width, base)
    ensures at == |text| - |SkipSpaces(text)| + r.used
  {
    var k := 0;
    while k < |text| && IsSpace(text[k])
      invariant k <= |text| && SkipSpaces(text) == SkipSpaces(text[k..])
    {
      assert text[k..][1..] == text[k + 1..];
      k := k + 1;
    }
    var s := text[k..];
    if width == 0 {
      return NoNumber(0), k;
    }
    var i, left, negative := 0, width - 1, false;
    ghost var f := Field(s, width);
    if s != "" && (s[0] == '+' || s[0] == '-') {
      negative := s[0] == '-';
      var done;
      done, i, left := Next(s, width, i, left);
      if done {
        return NoNumber(1), k + 1;
      }
      assert f[0] == s[0];
    } else {
      assert f[0..] == f && (f != "" ==> f[0] == s[0]);
    }
    hide ScanUnsigned, Reading;
    r := TakeUnsigned(s, width, i, left, base, negative);
    at := k + r.used;
  }

  /** The base that C's syntax gives a number. */
  ghost function SyntaxBase(s: string): nat {
    if s == "" || s[0] != '0' then 10 else if |s| > 1 && (s[1] == 'x' || s[1] == 'X') then 16 else 8
  }

  /** In base 0 the field is read in the base its first characters ask for, but for a lone 0 that the width ends. */
  lemma BaseZero(s: string, cut: bool)
    ensures ScanField(s, cut, 0) ==
              var signed := s != "" && (s[0] == '+' || s[0] == '-');
              var t := if signed then s[1..] else s;
              if cut && t == "0" then NoNumber(|s|) else ScanField(s, cut, SyntaxBase(t))
  {
    var signed := s != "" && (s[0] == '+' || s[0] == '-');
    var t := if signed then s[1..] else s;
    if t != "" && t[0] == '0' {
      assert DigitValue(t[0]) == 0;
      if |t| > 1 && t[1] != 'x' && t[1] != 'X' {
        assert Digits(t, 8, 0) == (Digits(t[1..], 8, 0).0, Digits(t[1..], 8, 0).1 + 1);
      } else if |t| == 1 {
        assert t[1..] == "" && Digits("", 8, 0) == (0, 0);
      }
    }
  }

  lemma OctalSample()
    ensures Scanned("010", -1, 0) == Number(false, 8, 3)
  {
    TwoDigits('1', '0', 8);
    assert "010"[1..] == "10";
    hide Digits;
  }

  lemma HexSample()
    ensures Scanned("0x1f", -1, 0) == Number(false, 31, 4)
  {
    TwoDigits('1', 'f', 16);
    assert "0x1f"[2..] == "1f";
    hide Digits;
  }

  lemma DecimalSample()
    ensures Scanned("\n42", -1, 0) == Number(false, 42, 2)
  {
    TwoDigits('4', '2', 10);
    assert "\n42"[1..] == "42";
    hide Digits;
  }

  lemma TwoDigits(a: char, b: char, base: nat)
    requires DigitValue(a) < base <= 16 && DigitValue(b) < base
    ensures Digits([a, b], base, 0) == (DigitValue(a) * base + DigitValue(b), 2)
  {
    var v, w := DigitValue(a), DigitValue(b);
    MulMono(v, 15, base);
    assert [a, b][1..] == [b] && [b][1..] == "";
    assert Digits("", base, v * base + w) == (v * base + w, 0);
    assert Digits([b], base, v) == (v * base + w, 1);
  }

  // ---- printing, then scanning ----

  lemma DigitBack(d: nat, upper: bool)
    requires d < 16
    ensures DigitValue(DigitChar(d, upper)) == d
  {
  }

  /** Digits that were printed are read back. */
  lemma {:induction false} NumeralReads(n: nat, r: nat, up: bool, t: string)
    requires 2 <= r <= 16 && n < MODULUS
    ensures Digits(Numeral(n, r, up) + t, r, 0) == (Digits(t, r, n).0, |Numeral(n, r, up)| + Digits(t, r, n).1)
    decreases n
  {
    var d := Mod(n, r);
    var u := [DigitChar(d, up)] + t;
    NumeralIs(n, r, up);
    DigitBack(d, up);
    DigitZero(n, r, up);
    Recombine(n, r);
    hide Numeral, High, DigitChar, DigitValue, Digits, Mod, Div;
    if n < r {
      assert Numeral(n, r, up) + t == u;
      OneMore(u, r, 0, n, t);
    } else {
      assert Numeral(n, r, up) + t == Numeral(Div(n, r), r, up) + u;
      NumeralReads(Div(n, r), r, up, u);
      OneMore(u, r, Div(n, r), n, t);
    }
  }

  lemma Recombine(n: nat, r: nat)
    requires r > 0 && n < MODULUS
    ensures Div(n, r) * r + Mod(n, r) == n && Div(n, r) < MODULUS && (n < r ==> Mod(n, r) == n)
  {
    DivModProps(n, r);
    MulMono(1, r, n / r);
    if n < r {
      DivModUnique(n, r, 0, n);
    }
  }

  lemma OneMore(u: string, r: nat, num: nat, n: nat, t: string)
    requires u != "" && DigitValue(u[0]) < r && u[1..] == t && num * r + DigitValue(u[0]) == n < MODULUS
    ensures Digits(u, r, num) == (Digits(t, r, n).0, Digits(t, r, n).1 + 1)
  {
    hide DigitValue;
  }

  lemma {:induction false} ZerosRead(k: nat, r: nat, t: string)
    requires r > 0
    ensures Digits(Repeat('0', k) + t, r, 0) == (Digits(t, r, 0).0, k + Digits(t, r, 0).1)
  {
    if k == 0 {
      assert Repeat('0', 0) + t == t;
    } else {
      ZerosRead(k - 1, r, t);
      var u := Repeat('0', k) + t;
      assert u[1..] == Repeat('0', k - 1) + t;
      OneMore(u, r, 0, 0, u[1..]);
    }
  }

  lemma SpacesEnd(e: nat, r: nat, n: nat)
    requires r <= 16
    ensures Digits(Repeat(' ', e), r, n) == (n, 0)
  {
  }

  /** Zeros and a numeral, with spaces after them, read as the number. */
  lemma NumberReads(b: nat, n: nat, r: nat, up: bool, e: nat)
    requires 2 <= r <= 16 && n < MODULUS
    ensures Digits(Repeat('0', b) + Numeral(n, r, up) + Repeat(' ', e), r, 0) == (n, b + |Numeral(n, r, up)|)
  {
    var ds, sp := Numeral(n, r, up), Repeat(' ', e);
    assert Repeat('0', b) + ds + sp == Repeat('0', b) + (ds + sp);
    SpacesEnd(e, r, n);
    hide Digits, Numeral, Repeat;
    ZerosRead(b, r, ds + sp);
    NumeralReads(n, r, up, sp);
  }

  /** A number without sign, as printed: only a lone 0 that the field width cuts off is not read back in base 16. */
  lemma UnsignedReads(n: nat, c: Conversion, prefix: string, b: nat, e: nat, cut: bool, negative: bool, used: nat)
    requires n < MODULUS && prefix in {"", c.Prefix()} && (n == 0 ==> prefix == "")
    ensures var ds := Numeral(n, c.Radix(), c == UpperX);
            var s := prefix + (Repeat('0', b) + ds + Repeat(' ', e));
            ScanUnsigned(s, cut, c.Radix(), negative, used)
              == if cut && c.Radix() == 16 && s == "0" then NoNumber(used + 1)
                 else Number(negative, n, used + |prefix| + b + |ds|)
  {
    var r, up := c.Radix(), c == UpperX;
    var ds, sp := Numeral(n, r, up), Repeat(' ', e);
    var t := Repeat('0', b) + ds + sp;
    var s := prefix + t;
    NumberReads(b, n, r, up, e);
    if prefix == "" {
      assert s == t;
      if r == 16 {
        HexReads(n, up, b, e, cut, negative, used);
      }
    } else if r == 8 {
      assert s == Repeat('0', b + 1) + ds + sp;
      NumberReads(b + 1, n, r, up, e);
    } else {
      assert s[0] == '0' && s[2..] == t;
    }
  }

  lemma HexReads(n: nat, up: bool, b: nat, e: nat, cut: bool, negative: bool, used: nat)
    requires n < MODULUS
    ensures var ds := Numeral(n, 16, up);
            var t := Repeat('0', b) + ds + Repeat(' ', e);
            ScanUnsigned(t, cut, 16, negative, used)
              == if cut && t == "0" then NoNumber(used + 1) else Number(negative, n, used + b + |ds|)
  {
    var ds, sp := Numeral(n, 16, up), Repeat(' ', e);
    var t := Repeat('0', b) + ds + sp;
    NumberReads(b, n, 16, up, e);
    LeadingDigit(n, 16, up);
    if b > 0 {
      assert t[1..] == Repeat('0', b - 1) + ds + sp;
      NumberReads(b - 1, n, 16, up, e);
      assert t[1] == if b > 1 then '0' else ds[0];
      FirstDigit(n, 16, up);
    } else {
      assert t == ds + sp;
      if n == 0 {
        assert Digits(sp, 16, 0) == (0, 0) by { SpacesEnd(e, 16, 0); }
        ZeroNumeral(16, up);
        assert t[1..] == sp;
        assert e == 0 ==> t == "0";
      }
    }
  }

  /** A numeral starts with a digit. */
  lemma {:induction false} FirstDigit(n: nat, r: nat, up: bool)
    requires 2 <= r <= 16
    ensures DigitValue(Numeral(n, r, up)[0]) < r
    decreases n
  {
    NumeralIs(n, r, up);
    DigitZero(n, r, up);
    DigitBack(Mod(n, r), up);
    if n >= r {
      FirstDigit(Div(n, r), r, up);
    }
  }

  /** The sign as scanned: a space in its place is only skipped. */
  function SignRead(n: int, c: Conversion, fl: Flags): string {
    if SignOf(n, c, fl) == " " then "" else SignOf(n, c, fl)
  }

  /** The zeros of padding with zeros. */
  function ZeroPadding(n: int, c: Conversion, fl: Flags, width: nat, precision: int): nat {
    if !fl.left && fl.zpad && precision <= 0 then Padding(n, c, fl, width, precision) else 0
  }

  /** What is printed, without the spaces around it. */
  function Token(n: int, c: Conversion, fl: Flags, width: nat, precision: int): string {
    SignRead(n, c, fl) + PrefixOf(n, c, fl, precision)
    + (Repeat('0', ZeroPadding(n, c, fl, width, precision) + LeadingZeros(n, c, precision)) + DigitsOf(n, c, precision))
  }

  lemma RepeatAdd(c: char, a: nat, b: nat)
    ensures Repeat(c, a) + Repeat(c, b) == Repeat(c, a + b)
  {
  }

  /** Around the token there are only spaces. */
  lemma TokenInside(n: int, c: Conversion, fl: Flags, width: nat, precision: int) returns (a: nat, e: nat)
    ensures Printed(n, c, fl, width, precision) == Repeat(' ', a) + (Token(n, c, fl, width, precision) + Repeat(' ', e))
  {
    var pad := Padding(n, c, fl, width, precision);
    var sg, pre := SignOf(n, c, fl), PrefixOf(n, c, fl, precision);
    var z, ds := LeadingZeros(n, c, precision), DigitsOf(n, c, precision);
    var rd, zp := SignRead(n, c, fl), ZeroPadding(n, c, fl, width, precision);
    assert (sg == " " && rd == "") || sg == rd;
    assert zp == if !fl.left && fl.zpad && precision <= 0 then pad else 0;
    assert Token(n, c, fl, width, precision) == rd + pre + (Repeat('0', zp + z) + ds);
    assert Printed(n, c, fl, width, precision) == Layout(sg + pre, Repeat('0', z) + ds, pad, fl, precision);
    hide *;
    a, e := LayoutToken(sg, rd, pre, z, ds, pad, zp, fl, precision);
  }

  lemma LayoutToken(sg: string, rd: string, pre: string, z: nat, ds: string, pad: nat, zp: nat, fl: Flags,
      precision: int)
    returns (a: nat, e: nat)
    requires (sg == " " && rd == "") || sg == rd
    requires zp == if !fl.left && fl.zpad && precision <= 0 then pad else 0
    ensures Layout(sg + pre, Repeat('0', z) + ds, pad, fl, precision)
            == Repeat(' ', a) + (rd + pre + (Repeat('0', zp + z) + ds) + Repeat(' ', e))
  {
    var sp := if sg == rd then 0 else 1;
    assert sg == Repeat(' ', sp) + rd;
    a, e := sp, if fl.left then pad else 0;
    if !fl.left {
      if fl.zpad && precision <= 0 {
        RepeatAdd('0', pad, z);
        assert Repeat('0', zp + z) == Repeat('0', pad) + Repeat('0', z);
      } else {
        a := pad + sp;
        RepeatAdd(' ', pad, sp);
      }
    }
  }

  lemma {:induction false} SkipsSpaces(a: nat, t: string)
    requires t != "" && !IsSpace(t[0])
    ensures SkipSpaces(Repeat(' ', a) + t) == t
  {
    if a == 0 {
      assert Repeat(' ', 0) + t == t;
    } else {
      SkipsSpaces(a - 1, t);
      assert (Repeat(' ', a) + t)[1..] == Repeat(' ', a - 1) + t;
    }
  }

  /** A token, with spaces after it, reads as the number. */
  lemma TokenReads(n: int, c: Conversion, fl: Flags, width: nat, precision: int, e: nat, cut: bool)
    requires c.Takes(n) && !(n == 0 && precision == 0)
    ensures var t := Token(n, c, fl, width, precision);
            && t != "" && !IsSpace(t[0])
            && ScanField(t + Repeat(' ', e), cut, c.Radix())
               == if cut && c.Radix() == 16 && t + Repeat(' ', e) == "0" then NoNumber(1)
                  else Number(n < 0, Abs(n), |t|)
  {
    var r, up := c.Radix(), c == UpperX;
    var b := ZeroPadding(n, c, fl, width, precision) + LeadingZeros(n, c, precision);
    var sg, pre, ds, sp := SignRead(n, c, fl), PrefixOf(n, c, fl, precision), Numeral(Abs(n), r, up), Repeat(' ', e);
    var t := Token(n, c, fl, width, precision);
    assert DigitsOf(n, c, precision) == ds && t == sg + pre + (Repeat('0', b) + ds);
    assert pre in {"", c.Prefix()} && (n == 0 ==> pre == "");
    assert sg in {"", "+", "-"} && (sg == "-" <==> n < 0) && (r == 16 ==> sg == "");
    var body := pre + (Repeat('0', b) + ds + sp);
    FirstDigit(Abs(n), r, up);
    UnsignedReads(Abs(n), c, pre, b, e, cut, n < 0, |sg|);
    BodyStart(pre, b, ds, sp, c);
    hide *;
    Regroup(sg, pre, Repeat('0', b), ds, sp);
    assert |Repeat('0', b)| == b;
    SignedReads(sg, body, cut, r);
    assert sg != "" ==> body != "0" || sg + body != "0";
    FrontOf(t, sp, sg, body);
  }

  lemma Regroup(sg: string, pre: string, z: string, ds: string, sp: string)
    ensures (sg + pre + (z + ds)) + sp == sg + (pre + (z + ds + sp))
  {
  }

  lemma SignedReads(sg: string, body: string, cut: bool, r: nat)
    requires sg in {"", "+", "-"} && body != "" && body[0] != '+' && body[0] != '-'
    ensures ScanField(sg + body, cut, r) == ScanUnsigned(body, cut, r, sg == "-", |sg|)
  {
    hide ScanUnsigned;
    if sg == "" {
      assert sg + body == body;
    } else {
      assert (sg + body)[1..] == body && (sg + body)[0] == sg[0];
    }
  }

  lemma FrontOf(t: string, sp: string, sg: string, body: string)
    requires t != "" && t + sp == sg + body && body != "" && !IsSpace(body[0]) && sg in {"", "+", "-"}
    ensures !IsSpace(t[0])
  {
    assert (t + sp)[0] == t[0];
  }

  lemma BodyStart(pre: string, b: nat, ds: string, sp: string, c: Conversion)
    requires pre in {"", c.Prefix()} && ds != "" && DigitValue(ds[0]) < 16
    ensures var body := pre + (Repeat('0', b) + ds + sp);
            body != "" && !IsSpace(body[0]) && body[0] != '+' && body[0] != '-'
  {
    var body := pre + (Repeat('0', b) + ds + sp);
    assert body[0] == if pre != "" then pre[0] else if b > 0 then '0' else ds[0];
  }

  /**
   * Main theorem: what was printed, under any flags, width and precision, is scanned back in the
   * same base, by a field wide enough; only a lone 0 in a field of one character is lost in base 16.
   */
  lemma PrintThenScan(n: int, c: Conversion, fl: Flags, width: nat, precision: int, w: int)
    requires c.Takes(n) && !(n == 0 && precision == 0)
    requires w < 0 || w >= |Token(n, c, fl, width, precision)|
    ensures Scanned(Printed(n, c, fl, width, precision), w, c.Radix())
              == if w == 1 && c.Radix() == 16 && Token(n, c, fl, width, precision) == "0" then NoNumber(1)
                 else Number(n < 0, Abs(n), |Token(n, c, fl, width, precision)|)
  {
    var a, e := TokenInside(n, c, fl, width, precision);
    var t := Token(n, c, fl, width, precision);
    TokenReads(n, c, fl, width, precision, e, false);
    hide Token, Printed, ScanField;
    assert (t + Repeat(' ', e))[0] == t[0];
    SkipsSpaces(a, t + Repeat(' ', e));
    if 0 <= w <= |t| + e {
      var e' := w - |t|;
      assert (t + Repeat(' ', e))[..w] == t + Repeat(' ', e');
      TokenReads(n, c, fl, width, precision, e', true);
      assert t + Repeat(' ', e') == "0" <==> w == 1 && t == "0";
    }
  }

  /** The number as it is stored: signed numbers in two's complement. */
  ghost function Stored(s: Scan, signed: bool): int
    requires s.Number?
  {
    var u := (if s.negative then -(s.magnitude as int) else s.magnitude) % 0x1_0000_0000;
    if signed && u >= 0x8000_0000 then u - 0x1_0000_0000 else u
  }

  lemma StoredBack(n: int, c: Conversion, used: nat)
    requires c.Takes(n)
    ensures Stored(Number(n < 0, Abs(n), used), c.Signed()) == n
  {
  }
}
