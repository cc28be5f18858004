/**
 * The numeric side of quality values: `parseFloat` on a decimal literal, the
 * `toFixed(3)` rounding, and the trimmed three-decimal form `toString` writes.
 * Numbers are exact reals rather than binary doubles.
 */
module Decimal {
  import opened Wrappers
  import opened Text

  predicate IsDigit(c: char) {
    '0' <= c <= '9'
  }

  predicate AllDigits(s: string) {
    forall i :: 0 <= i < |s| ==> IsDigit(s[i])
  }

  /** The end of the run of digits that starts at `i`. */
  function DigitsEnd(s: string, i: nat): (j: nat)
    requires i <= |s|
    ensures i <= j <= |s|
    ensures j < |s| ==> !IsDigit(s[j])
    decreases |s| - i
  {
    if i < |s| && IsDigit(s[i]) then DigitsEnd(s, i + 1) else i
  }

  /** The value of one digit. */
  function Val(d: char): (r: int) {
    d as int - '0' as int
  }

  /** The whole number the digits `s[i..j]` denote. */
  function DigitsValue(s: string, i: nat, j: nat): (r: int)
    requires i <= j <= |s|
    decreases j - i
  {
    if i == j then 0 else DigitsValue(s, i, j - 1) * 10 + Val(s[j - 1])
  }

  /** The value of the digits `s[i..j]` written after a decimal point. */
  function FracValue(s: string, i: nat, j: nat): (r: real)
    requires i <= j <= |s|
    decreases j - i
  {
    if i == j then 0.0 else (Val(s[i]) as real + FracValue(s, i + 1, j)) / 10.0
  }

  /**
   * The unsigned decimal literal at `i`: the longest run of the form
   * `digits [ "." digits ]` holding at least one digit. `None` when there is none.
   */
  function ParseUnsigned(s: string, i: nat): (r: Option<real>)
    requires i <= |s|
  {
    var n := DigitsEnd(s, i);
    if n < |s| && s[n] == '.' then
      var e := DigitsEnd(s, n + 1);
      if n == i && e == n + 1 then None
      else Some(DigitsValue(s, i, n) as real + FracValue(s, n + 1, e))
    else if n == i then None
    else Some(DigitsValue(s, i, n) as real)
  }

  /**
   * `parseFloat`: leading whitespace, an optional sign, then the unsigned
   * literal; whatever follows it is ignored. `None` stands for NaN.
   */
  function ParseFloat(s: string): (r: Option<real>) {
    var i := SkipSpace(s, 0);
    if i < |s| && s[i] == '-' then
      match ParseUnsigned(s, i + 1)
      case Some(v) => Some(-v)
      case None => None
    else if i < |s| && s[i] == '+' then ParseUnsigned(s, i + 1)
    else ParseUnsigned(s, i)
  }

  /** The integer `n` that `toFixed(3)` picks for `x >= 0`: the nearest to `1000 x`, the larger on a tie. */
  function RoundThousandths(x: real): (n: int)
    requires x >= 0.0
    ensures n >= 0
    ensures n as real - 0.5 <= 1000.0 * x < n as real + 0.5
  {
    (x * 1000.0 + 0.5).Floor
  }

  /** `parseFloat(x.toFixed(3))`: `x` rounded to three decimals, a negative value by its magnitude. */
  function RoundTo3(x: real): (r: real)
  {
    if x >= 0.0 then RoundThousandths(x) as real / 1000.0
    else -(RoundThousandths(-x) as real / 1000.0)
  }

  /** A whole number of thousandths. */
  predicate IsThousandths(x: real) {
    (x * 1000.0).Floor as real == x * 1000.0
  }

  lemma RoundTo3Properties(x: real)
    ensures IsThousandths(RoundTo3(x))
    ensures -0.0005 <= RoundTo3(x) - x <= 0.0005
    ensures x >= 0.0 ==> RoundTo3(x) >= 0.0
    ensures x < 0.0 ==> RoundTo3(x) <= 0.0
    ensures x <= 1.0 ==> RoundTo3(x) <= 1.0
  {
    var n := RoundThousandths(if x >= 0.0 then x else -x);
    var m := if x >= 0.0 then n else -n;
    assert RoundTo3(x) == m as real / 1000.0;
    assert RoundTo3(x) * 1000.0 == m as real;
    assert (m as real).Floor == m;
    if x <= 1.0 && x >= 0.0 {
      assert n as real < 1000.5;
    }
  }

  lemma RoundTo3Exact(x: real)
    requires IsThousandths(x)
    ensures RoundTo3(x) == x
  {
    var m := (x * 1000.0).Floor;
    if x >= 0.0 {
      assert RoundThousandths(x) == m;
    } else {
      assert (-x * 1000.0 + 0.5).Floor == -m;
    }
  }

  function DigitChar(d: nat): (c: char)
    requires d < 10
    ensures IsDigit(c)
  {
    ('0' as int + d) as char
  }

  /** The `toFixed(3)` text of `n / 1000` for `0 <= n <= 1000`. */
  function Fixed3(n: nat): (r: string)
    requires n <= 1000
  {
    var m := n % 1000;
    [DigitChar(n / 1000), '.', DigitChar(m / 100), DigitChar(m / 10 % 10), DigitChar(m % 10)]
  }

  /** The four digits of `Fixed3(n)` put back together give `n`. */
  lemma Fixed3Digits(n: nat)
    requires n <= 1000
    ensures var m := n % 1000;
      n == 1000 * (n / 1000) + 100 * (m / 100) + 10 * (m / 10 % 10) + m % 10
  {
    var m := n % 1000;
    assert n == 1000 * (n / 1000) + m;
    assert m == 10 * (m / 10) + m % 10;
    var t := m / 10;
    assert t == 10 * (t / 10) + t % 10;
    assert t / 10 == m / 100;
  }

  /** The end of `s[..j]` once its trailing zeros are dropped. */
  function ZerosEnd(s: string, j: nat): (k: nat)
    requires j <= |s|
    ensures k <= j
    ensures k > 0 ==> s[k - 1] != '0'
  {
    if j > 0 && s[j - 1] == '0' then ZerosEnd(s, j - 1) else j
  }

  /** `replace(/0*$/, '')` */
  function StripZeros(s: string): (r: string) {
    s[..ZerosEnd(s, |s|)]
  }

  /** `replace(/\.$/, '')` */
  function StripDot(s: string): (r: string) {
    if s != [] && s[|s| - 1] == '.' then s[..|s| - 1] else s
  }

  /**
   * `Math.min(q, 1).toFixed(3)` with trailing zeros and a trailing point
   * removed: how both `toString`s write a quality value.
   */
  function FormatQ(x: real): (r: string)
    requires x >= 0.0
  {
    var n := RoundThousandths(if x < 1.0 then x else 1.0);
    StripDot(StripZeros(Fixed3(n)))
  }

  /** A run of digits from `i` that stops at `j` ends at `j`. */
  lemma {:induction false} DigitsEndRun(s: string, i: nat, j: nat)
    requires i <= j <= |s| && (j == |s| || !IsDigit(s[j]))
    requires forall k :: i <= k < j ==> IsDigit(s[k])
    ensures DigitsEnd(s, i) == j
    decreases j - i
  {
    if i < j {
      DigitsEndRun(s, i + 1, j);
    }
  }

  /** Zeros run from `ZerosEnd(s, j)` up to `j`. */
  lemma {:induction false} ZerosEndSpan(s: string, j: nat)
    requires j <= |s|
    ensures forall k :: ZerosEnd(s, j) <= k < j ==> s[k] == '0'
  {
    if j > 0 && s[j - 1] == '0' {
      ZerosEndSpan(s, j - 1);
    }
  }

  /** Fraction digits followed by zeros are worth as much without them. */
  lemma {:induction false} FracValueZeros(s: string, i: nat, j: nat, e: nat)
    requires i <= j <= e <= |s|
    requires forall k :: j <= k < e ==> s[k] == '0'
    ensures FracValue(s, i, j) == FracValue(s, i, e)
    decreases e - i
  {
    if i < j {
      FracValueZeros(s, i + 1, j, e);
    } else if i < e {
      FracValueZeros(s, i + 1, j + 1, e);
    }
  }

  /** The fraction value only depends on the digits it reads. */
  lemma {:induction false} FracValueSame(s: string, t: string, i: nat, j: nat)
    requires i <= j <= |s| && j <= |t|
    requires forall k :: i <= k < j ==> s[k] == t[k]
    ensures FracValue(s, i, j) == FracValue(t, i, j)
    decreases j - i
  {
    if i < j {
      FracValueSame(s, t, i + 1, j);
    }
  }

  lemma ValDigitChar(d: nat)
    requires d < 10
    ensures Val(DigitChar(d)) == d
  {
  }

  /** The three fraction digits of `Fixed3(n)` are worth the thousandths of `n` below 1000. */
  lemma Fixed3Frac(n: nat)
    requires n <= 1000
    ensures var m := n % 1000;
      FracValue(Fixed3(n), 2, 5) == m as real / 1000.0
  {
    var t := Fixed3(n);
    var m := n % 1000;
    var av, bv, cv := m / 100, m / 10 % 10, m % 10;
    ValDigitChar(av);
    ValDigitChar(bv);
    ValDigitChar(cv);
    assert FracValue(t, 5, 5) == 0.0;
    assert FracValue(t, 4, 5) == cv as real / 10.0;
    assert FracValue(t, 3, 5) == (bv as real + cv as real / 10.0) / 10.0;
    assert FracValue(t, 2, 5) == (av as real + (bv as real + cv as real / 10.0) / 10.0) / 10.0;
    Fixed3Digits(n);
    assert m == 100 * av + 10 * bv + cv by {
      assert n % 1000 == n - 1000 * (n / 1000);
    }
  }

  /**
   * The trimmed `toFixed(3)` text of `n / 1000`: the whole digit, then, when
   * some fraction digit is not 0, a point and the fraction digits up to the
   * last non-zero one; `m` is where the digits `Fixed3(n)` keeps end.
   */
  lemma TrimmedFixed3(n: nat) returns (m: nat)
    requires n <= 1000
    ensures var r := StripDot(StripZeros(Fixed3(n)));
      && 2 <= m <= 5
      && (m == 2 ==> r == Fixed3(n)[..1])
      && (m > 2 ==> r == Fixed3(n)[..m] && IsDigit(Fixed3(n)[m - 1]))
      && (forall k :: m <= k < 5 ==> Fixed3(n)[k] == '0')
  {
    var t := Fixed3(n);
    m := ZerosEnd(t, 5);
    ZerosEndSpan(t, 5);
    assert t[1] == '.';
    assert m >= 2;
    var z := StripZeros(t);
    assert z == t[..m];
    if m == 2 {
      assert z[|z| - 1] == '.';
      assert z[..|z| - 1] == t[..1];
    } else {
      assert z[|z| - 1] == t[m - 1];
    }
  }

  /** `parseFloat` reads the trimmed `toFixed(3)` text of `n / 1000` back as `n / 1000`. */
  lemma ParseFixed3(n: nat)
    requires n <= 1000
    ensures ParseFloat(StripDot(StripZeros(Fixed3(n)))) == Some(n as real / 1000.0)
  {
    var t := Fixed3(n);
    var m := TrimmedFixed3(n);
    var r := StripDot(StripZeros(t));
    var iv := n / 1000;
    ValDigitChar(iv);
    assert r[0] == t[0] && IsDigit(r[0]);
    assert SkipSpace(r, 0) == 0;
    assert DigitsValue(r, 0, 1) == iv;
    Fixed3Frac(n);
    Fixed3Digits(n);
    if m == 2 {
      DigitsEndRun(r, 0, 1);
      FracValueZeros(t, 2, 2, 5);
      assert n % 1000 == 0;
    } else {
      assert r[1] == '.';
      DigitsEndRun(r, 0, 1);
      DigitsEndRun(r, 2, m);
      FracValueSame(r, t, 2, m);
      FracValueZeros(t, 2, m, 5);
      assert ParseUnsigned(r, 0) == Some(iv as real + FracValue(r, 2, m));
    }
  }

  /**
   * A thousandths value in [0, 1] written by `FormatQ` is read back exactly by
   * `parseFloat`: the quality part of `toString` round-trips.
   */
  lemma FormatQRoundTrip(x: real)
    requires 0.0 <= x <= 1.0 && IsThousandths(x)
    ensures ParseFloat(FormatQ(x)) == Some(x)
  {
    var n := RoundThousandths(x);
    RoundTo3Exact(x);
    assert RoundTo3(x) == n as real / 1000.0;
    assert n <= 1000;
    ParseFixed3(n);
  }

  /** The text `FormatQ` writes is digits and at most a point, starting and ending with a digit. */
  lemma FormatQDigits(x: real)
    requires x >= 0.0
    ensures var r := FormatQ(x);
      r != [] && IsDigit(r[0]) && IsDigit(r[|r| - 1]) && forall k :: 0 <= k < |r| ==> IsDigit(r[k]) || r[k] == '.'
  {
    var n := RoundThousandths(if x < 1.0 then x else 1.0);
    var t := Fixed3(n);
    var m := TrimmedFixed3(n);
    assert forall k :: 0 <= k < 5 ==> IsDigit(t[k]) || t[k] == '.';
  }
}
