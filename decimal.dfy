/** Decimal numbers as the evaluator uses them. A `BigDecimal` is an exact
    rational, so it is a `real` here; `with_scale(s)` keeps `s` fractional
    digits and drops the rest, i.e. truncates toward zero; `from_str`
    accepts the plain decimal notation of the feed. */
module Decimal {
  import opened Wrappers

  function Pow10(n: nat): (p: nat)
    ensures p >= 1
  {
    if n == 0 then 1 else 10 * Pow10(n - 1)
  }

  /** Integer part of `x`, rounded toward zero. */
  function Trunc(x: real): (n: int)
    ensures x >= 0.0 ==> 0.0 <= n as real <= x < n as real + 1.0
    ensures x < 0.0 ==> n as real - 1.0 < x <= n as real <= 0.0
  {
    if x >= 0.0 then x.Floor else -((-x).Floor)
  }

  /** `BigDecimal::with_scale(scale)`: `x` cut to `scale` fractional digits. */
  function Rescale(x: real, scale: nat): real {
    Truncate(x, Pow10(scale) as real)
  }

  /** `x` cut to a whole number of units of `1 / p`, toward zero. */
  function Truncate(x: real, p: real): real
    requires p > 0.0
  {
    Trunc(x * p) as real / p
  }

  /** Dividing both sides of `a <= b * p` by a positive `p`. */
  lemma DivideBounds(a: real, b: real, p: real)
    requires p > 0.0
    ensures a <= b * p ==> a / p <= b
    ensures a < b * p ==> a / p < b
    ensures b * p <= a ==> b <= a / p
    ensures a >= 0.0 ==> a / p >= 0.0
  {
    var q := a / p;
    assert q * p == a;
    if a <= b * p {
      assert q * p <= b * p;
    }
  }

  lemma MultiplyBounds(a: real, b: real, p: real)
    requires p > 0.0
    ensures a >= 0.0 ==> a * p >= 0.0
    ensures a < 0.0 ==> a * p < 0.0
    ensures a <= b ==> a * p <= b * p
  {
  }

  lemma DivideMonotone(a: real, b: real, p: real)
    requires p > 0.0 && a <= b
    ensures a / p <= b / p
  {
    var q1, q2 := a / p, b / p;
    assert q1 * p == a && q2 * p == b;
    if q1 > q2 {
      MultiplyBounds(q2, q1, p);
    }
  }

  lemma DivideStrict(a: real, b: real, p: real)
    requires p > 0.0 && a < b
    ensures a / p < b / p
  {
    var q1, q2 := a / p, b / p;
    assert q1 * p == a && q2 * p == b;
    if q1 >= q2 {
      MultiplyBounds(q2, q1, p);
    }
  }

  /** `(x * p - n) / p == x - n / p` for a positive `p`. */
  lemma DivideDifference(x: real, n: real, p: real)
    requires p > 0.0
    ensures (x * p - n) / p == x - n / p
  {
    var q := n / p;
    assert q * p == n;
    assert x * p - n == (x - q) * p;
  }

  lemma TruncateNonNegative(x: real, p: real)
    requires x >= 0.0 && p > 0.0
    ensures 0.0 <= Truncate(x, p) <= x
    ensures x - Truncate(x, p) < 1.0 / p
  {
    MultiplyBounds(x, x, p);
    var n := Trunc(x * p) as real;
    assert 0.0 <= n <= x * p < n + 1.0;
    DivideBounds(n, x, p);
    DivideStrict(x * p - n, 1.0, p);
    DivideDifference(x, n, p);
  }

  lemma TruncateNegative(x: real, p: real)
    requires x < 0.0 && p > 0.0
    ensures x <= Truncate(x, p) <= 0.0
  {
    MultiplyBounds(x, x, p);
    var n := Trunc(x * p) as real;
    assert x * p <= n <= 0.0;
    DivideBounds(-n, -x, p);
    DivideBounds(-n, 0.0, p);
    assert (-n) / p == -(n / p);
  }

  lemma TruncMonotone(a: real, b: real)
    requires 0.0 <= a <= b
    ensures Trunc(a) <= Trunc(b)
  {
  }

  lemma TruncateMonotone(x: real, y: real, p: real)
    requires 0.0 <= x <= y && p > 0.0
    ensures Truncate(x, p) <= Truncate(y, p)
  {
    MultiplyBounds(x, y, p);
    TruncMonotone(x * p, y * p);
    DivideMonotone(Trunc(x * p) as real, Trunc(y * p) as real, p);
  }

  /** Rescaling a non-negative amount never raises it, never makes it
      negative, and loses less than one unit in the last kept digit. */
  lemma RescaleNonNegative(x: real, scale: nat)
    requires x >= 0.0
    ensures 0.0 <= Rescale(x, scale) <= x
    ensures x - Rescale(x, scale) < 1.0 / Pow10(scale) as real
  {
    TruncateNonNegative(x, Pow10(scale) as real);
  }

  /** Rescaling a negative amount moves it toward zero and never past it. */
  lemma RescaleNegative(x: real, scale: nat)
    requires x < 0.0
    ensures x <= Rescale(x, scale) <= 0.0
  {
    TruncateNegative(x, Pow10(scale) as real);
  }

  /** Truncation toward zero is monotone on non-negative amounts. */
  lemma RescaleMonotone(x: real, y: real, scale: nat)
    requires 0.0 <= x <= y
    ensures Rescale(x, scale) <= Rescale(y, scale)
  {
    TruncateMonotone(x, y, Pow10(scale) as real);
  }

  predicate IsDigit(c: char) {
    '0' <= c <= '9'
  }

  /** The value of a string of decimal digits (0 for the empty string). */
  function DigitsValue(s: string): (n: nat)
    requires forall i :: 0 <= i < |s| ==> IsDigit(s[i])
    ensures n < Pow10(|s|)
  {
    if s == [] then 0
    else
      var d := s[|s| - 1] as int - '0' as int;
      assert '0' as int <= s[|s| - 1] as int <= '9' as int by { assert IsDigit(s[|s| - 1]); }
      DigitsValue(s[..|s| - 1]) * 10 + d
  }

  predicate AllDigits(s: string) {
    forall i :: 0 <= i < |s| ==> IsDigit(s[i])
  }

  /** The position of the first '.' in `s`, if any. */
  function DotIndex(s: string): (r: Option<nat>)
    ensures r.Some? ==> r.value < |s| && s[r.value] == '.' && '.' !in s[..r.value]
    ensures r.None? ==> '.' !in s
  {
    if s == [] then None
    else if s[0] == '.' then Some(0)
    else match DotIndex(s[1..])
      case None => None
      case Some(k) => Some(k + 1)
  }

  /** Unsigned `digits[.digits]` with at least one digit. */
  function ParseUnsigned(s: string): (r: Option<real>)
    ensures r.Some? ==> r.value >= 0.0
  {
    match DotIndex(s)
    case None =>
      if s != [] && AllDigits(s) then Some(DigitsValue(s) as real) else None
    case Some(k) =>
      var whole, frac := s[..k], s[k + 1..];
      if AllDigits(whole) && AllDigits(frac) && |whole| + |frac| > 0 then
        DivideBounds(DigitsValue(frac) as real, 0.0, Pow10(|frac|) as real);
        Some(DigitsValue(whole) as real + DigitsValue(frac) as real / Pow10(|frac|) as real)
      else None
  }

  /** Decimal text as `BigDecimal::from_str` reads it: an optional sign, then
      digits with an optional fractional part. `None` is the parse error the
      source turns into a panic with `unwrap`. */
  function ParseDecimal(s: string): (r: Option<real>)
    ensures s != [] && s[0] != '-' && r.Some? ==> r.value >= 0.0
  {
    if s != [] && s[0] == '-' then
      match ParseUnsigned(s[1..])
      case None => None
      case Some(v) => Some(-v)
    else if s != [] && s[0] == '+' then ParseUnsigned(s[1..])
    else ParseUnsigned(s)
  }

  /** The text a missing price falls back to reads as zero. */
  lemma ZeroText()
    ensures ParseDecimal("0.0") == Some(0.0)
  {
    assert DotIndex("0.0") == Some(1);
    assert "0.0"[..1] == "0" && "0.0"[2..] == "0";
    assert DigitsValue("0") == 0;
  }
}
