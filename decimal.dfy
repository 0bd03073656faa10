/**
 * Base-10 integers as text: what Go's `strconv.ParseInt(s, 10, 64)` accepts,
 * the rendering of `fmt`'s `%d` verb, and the zero padding of the time layouts.
 */
module Decimal {
  import opened Wrappers

  const MinInt64: int := -0x8000_0000_0000_0000
  const MaxInt64: int := 0x7fff_ffff_ffff_ffff

  predicate IsInt64(n: int) {
    MinInt64 <= n <= MaxInt64
  }

  predicate IsDigit(c: char) {
    '0' <= c <= '9'
  }

  predicate AllDigits(s: string) {
    forall i :: 0 <= i < |s| ==> IsDigit(s[i])
  }

  function DigitValue(c: char): (v: nat)
    requires IsDigit(c)
    ensures v < 10
  {
    c as int - '0' as int
  }

  function DigitChar(v: nat): (c: char)
    requires v < 10
    ensures IsDigit(c) && DigitValue(c) == v
  {
    ('0' as int + v) as char
  }

  /** The value of a string of decimal digits, most significant first. */
  function ValueOf(s: string): nat
    requires AllDigits(s)
    decreases |s|
  {
    if s == [] then 0 else 10 * ValueOf(s[..|s| - 1]) + DigitValue(s[|s| - 1])
  }

  /**
   * `strconv.ParseInt(s, 10, 64)`: an optional `+` or `-`, then one or more
   * ASCII digits (leading zeros allowed), with a value in the signed 64-bit range.
   * Every other input is an error.
   */
  function ParseInt64(s: string): (r: Option<int>)
    ensures s == [] ==> r == None
    ensures r.Some? ==> IsInt64(r.value)
    ensures r.Some? ==> AllDigits(s[1..]) && (IsDigit(s[0]) || (|s| >= 2 && (s[0] == '+' || s[0] == '-')))
  {
    if s == [] then None
    else
      var digits := if s[0] == '+' || s[0] == '-' then s[1..] else s;
      if digits == [] || !AllDigits(digits) then None
      else
        var v: int := if s[0] == '-' then -(ValueOf(digits) as int) else ValueOf(digits);
        if IsInt64(v) then Some(v) else None
  }

  /** A sign (none, `+` or `-`) followed by digits is read as the signed value of the digits. */
  lemma ParseSigned(sign: string, digits: string)
    requires sign == "" || sign == "+" || sign == "-"
    requires digits != [] && AllDigits(digits)
    ensures var v: int := if sign == "-" then -(ValueOf(digits) as int) else ValueOf(digits);
            ParseInt64(sign + digits) == if IsInt64(v) then Some(v) else None
  {
    var s := sign + digits;
    if sign == "" {
      assert s == digits;
      assert IsDigit(s[0]);
    } else {
      assert s[0] == sign[0] && s[1..] == digits;
    }
  }

  /** The digits of `n` without leading zeros, as `%d` prints a non-negative number. */
  function NatText(n: nat): (s: string)
    decreases n
    ensures |s| >= 1 && AllDigits(s)
  {
    if n < 10 then [DigitChar(n)] else NatText(n / 10) + [DigitChar(n % 10)]
  }

  /** Multiplying by ten appends a `0` to the decimal text. */
  lemma NatTextTimesTen(n: nat)
    requires n >= 1
    ensures NatText(10 * n) == NatText(n) + "0"
  {
    assert (10 * n) / 10 == n && (10 * n) % 10 == 0;
  }

  /** `fmt.Sprintf("%d", n)`: a minus sign for negative numbers, then the digits of the magnitude. */
  function IntText(n: int): (s: string)
    ensures |s| >= 1 && (s[0] == '-' <==> n < 0)
    ensures var digits := if n < 0 then s[1..] else s;
            AllDigits(digits) && ValueOf(digits) == (if n < 0 then -n else n) &&
            (digits[0] == '0' ==> n == 0)
  {
    ValueOfNatText(if n < 0 then -n else n);
    NatTextLeading(if n < 0 then -n else n);
    if n < 0 then "-" + NatText(-n) else NatText(n)
  }

  /** Reading back the digits of a number gives the number. */
  lemma {:induction false} ValueOfNatText(n: nat)
    decreases n
    ensures ValueOf(NatText(n)) == n
  {
    if n >= 10 {
      var s := NatText(n);
      assert s[..|s| - 1] == NatText(n / 10);
      ValueOfNatText(n / 10);
    }
  }

  /** The rendering has no leading zero: its first digit is `0` only for zero itself. */
  lemma {:induction false} NatTextLeading(n: nat)
    decreases n
    ensures NatText(n)[0] == '0' <==> n == 0
  {
    if n >= 10 {
      NatTextLeading(n / 10);
    }
  }

  /** For every signed 64-bit `n`, parsing the `%d` rendering of `n` gives `n` back. */
  lemma ParseIntText(n: int)
    requires IsInt64(n)
    ensures ParseInt64(IntText(n)) == Some(n)
  {
    if n < 0 {
      ParseNegativeText(n);
    } else {
      ParseNatText(n);
    }
  }

  lemma ParseNegativeText(n: int)
    requires IsInt64(n) && n < 0
    ensures ParseInt64("-" + NatText(-n)) == Some(n)
  {
    var t := NatText(-n);
    ValueOfNatText(-n);
    assert t != [] && AllDigits(t);
    ParseSigned("-", t);
    assert -(ValueOf(t) as int) == n;
  }

  lemma ParseNatText(n: nat)
    requires IsInt64(n)
    ensures ParseInt64(NatText(n)) == Some(n)
  {
    ValueOfNatText(n);
    ParseSigned("", NatText(n));
    assert "" + NatText(n) == NatText(n);
  }

  /** Text that starts with neither a sign nor a digit is not a number. */
  lemma ParseNoDigit(s: string)
    requires s != [] && !IsDigit(s[0]) && s[0] != '+' && s[0] != '-'
    ensures ParseInt64(s) == None
  {
  }

  function Zeros(k: nat): (s: string)
    ensures |s| == k && AllDigits(s)
  {
    if k == 0 then "" else Zeros(k - 1) + "0"
  }

  /** `n` in at least `w` digits, padded with leading zeros (the width of `%02d` and of the layout fields). */
  function Padded(n: nat, w: nat): (s: string)
    ensures AllDigits(s) && |s| >= w
  {
    var t := NatText(n);
    if |t| >= w then t else Zeros(w - |t|) + t
  }

  /** A leading zero does not change the value of a digit string. */
  lemma {:induction false} ValueOfLeadingZero(t: string)
    requires AllDigits(t)
    decreases |t|
    ensures ValueOf("0" + t) == ValueOf(t)
  {
    if t != [] {
      var s := "0" + t;
      assert s[..|s| - 1] == "0" + t[..|t| - 1];
      ValueOfLeadingZero(t[..|t| - 1]);
    }
  }

  lemma {:induction false} ValueOfZeros(k: nat, t: string)
    requires AllDigits(t)
    decreases k
    ensures AllDigits(Zeros(k) + t) && ValueOf(Zeros(k) + t) == ValueOf(t)
  {
    if k == 0 {
      assert Zeros(k) + t == t;
    } else {
      var u := "0" + t;
      assert AllDigits(u);
      assert Zeros(k) + t == Zeros(k - 1) + u;
      ValueOfLeadingZero(t);
      ValueOfZeros(k - 1, u);
    }
  }

  function Pow10(k: nat): (p: nat)
    ensures p >= 1
  {
    if k == 0 then 1 else 10 * Pow10(k - 1)
  }

  /** A number below 10^k has at most k digits. */
  lemma {:induction false} NatTextLength(n: nat, k: nat)
    requires 1 <= k && n < Pow10(k)
    decreases k
    ensures |NatText(n)| <= k
  {
    if n >= 10 {
      NatTextLength(n / 10, k - 1);
    }
  }

  /** A number below 10^w, padded to width `w`, is exactly `w` digits that read back as the number. */
  lemma PaddedExact(n: nat, w: nat)
    requires 1 <= w && n < Pow10(w)
    ensures |Padded(n, w)| == w && ValueOf(Padded(n, w)) == n
  {
    NatTextLength(n, w);
    PaddedValue(n, w);
  }

  /** A number below 10^w, zero-padded to width `w`, is exactly `w` digits long. */
  lemma PaddedWidth(n: nat, w: nat)
    requires 1 <= w
    ensures n < Pow10(w) ==> |Padded(n, w)| == w
  {
    if n < Pow10(w) {
      NatTextLength(n, w);
    }
  }

  /** Zero padding keeps the value of a number, at any width. */
  lemma PaddedValue(n: nat, w: nat)
    ensures ValueOf(Padded(n, w)) == n
  {
    var t := NatText(n);
    ValueOfNatText(n);
    if |t| < w {
      assert Padded(n, w) == Zeros(w - |t|) + t;
      ValueOfZeros(w - |t|, t);
    } else {
      assert Padded(n, w) == t;
    }
  }
}
