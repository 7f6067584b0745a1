/**
 * Python's number conversions as the engine uses them: `float()` applied to a
 * run of digits and dots, `int()` applied to a float (truncation toward zero)
 * and `str()` applied to an int.  Floats are modelled as exact reals.
 */
module PyNumbers {
  import opened Wrappers
  import opened PyStrings

  function Pow10(k: nat): (p: nat)
    ensures p >= 1
  {
    if k == 0 then 1 else 10 * Pow10(k - 1)
  }

  predicate IsDigits(ds: string) {
    forall k :: 0 <= k < |ds| ==> IsAsciiDigit(ds[k])
  }

  /** The regex class `[\d\.]`. */
  predicate IsDigitOrDot(c: char) { IsAsciiDigit(c) || c == '.' }

  function DigitValue(c: char): nat
    requires IsAsciiDigit(c)
  {
    c as int - '0' as int
  }

  function DigitChar(d: nat): (c: char)
    requires d < 10
    ensures IsAsciiDigit(c) && DigitValue(c) == d
  {
    ('0' as int + d) as char
  }

  /** The value of a decimal digit string, most significant digit first. */
  function DigitsValue(ds: string): (n: nat)
    requires IsDigits(ds)
    ensures n < Pow10(|ds|)
    decreases |ds|
  {
    if ds == [] then 0 else DigitsValue(ds[..|ds| - 1]) * 10 + DigitValue(ds[|ds| - 1])
  }

  predicate AtMostOneDot(g: string) {
    forall i, j :: 0 <= i < j < |g| && g[i] == '.' ==> g[j] != '.'
  }

  predicate HasDigit(g: string) {
    exists k :: 0 <= k < |g| && IsAsciiDigit(g[k])
  }

  /**
   * `float(g)` for a string of digits and dots: it is accepted exactly when it
   * has at most one dot and at least one digit ("8", "8.", ".5", "8.5");
   * anything else raises ValueError, modelled as None.
   */
  function ParseFloat(g: string): (r: Option<real>)
    requires forall k :: 0 <= k < |g| ==> IsDigitOrDot(g[k])
    ensures r.Some? <==> AtMostOneDot(g) && HasDigit(g)
    ensures r.Some? ==> r.value >= 0.0
    ensures IsDigits(g) && g != [] ==> r == Some(DigitsValue(g) as real)
  {
    match IndexOfCharFrom(g, '.', 0)
    case None =>
      NoDotCase(g);
      if g == [] then None else Some(DigitsValue(g) as real)
    case Some(d) =>
      var whole, frac := g[..d], g[d + 1..];
      match IndexOfCharFrom(frac, '.', 0)
      case Some(e) =>
        TwoDotsCase(g, d, frac, e);
        None
      case None =>
        OneDotCase(g, d, frac);
        if whole == [] && frac == [] then None
        else Some(DecimalValue(whole, frac))
  }

  /** The value of the digits `whole`, a point, and the digits `frac`. */
  function DecimalValue(whole: string, frac: string): (v: real)
    requires IsDigits(whole) && IsDigits(frac)
    ensures v >= 0.0
  {
    var p := Pow10(|frac|) as real;
    var f := DigitsValue(frac) as real / p;
    assert f >= 0.0;
    DigitsValue(whole) as real + f
  }

  /** Without a dot, a digit-and-dot string is a digit string, with a digit exactly when non-empty. */
  lemma NoDotCase(g: string)
    requires forall k :: 0 <= k < |g| ==> IsDigitOrDot(g[k]) && g[k] != '.'
    ensures IsDigits(g) && AtMostOneDot(g) && (HasDigit(g) <==> g != [])
  {
    if g != [] {
      assert IsAsciiDigit(g[0]);
    }
  }

  /** A second dot after the first breaks the one-dot rule. */
  lemma TwoDotsCase(g: string, d: nat, frac: string, e: nat)
    requires d < |g| && g[d] == '.' && frac == g[d + 1..]
    requires e < |frac| && frac[e] == '.'
    ensures !AtMostOneDot(g)
  {
    assert g[d + 1 + e] == '.';
  }

  /**
   * With one dot only, the parts before and after it are digit strings, and
   * the string has a digit exactly when it is more than the dot.
   */
  lemma OneDotCase(g: string, d: nat, frac: string)
    requires forall k :: 0 <= k < |g| ==> IsDigitOrDot(g[k])
    requires d < |g| && g[d] == '.' && frac == g[d + 1..]
    requires forall k :: 0 <= k < d ==> g[k] != '.'
    requires forall k :: 0 <= k < |frac| ==> frac[k] != '.'
    ensures IsDigits(g[..d]) && IsDigits(frac) && AtMostOneDot(g) && !IsDigits(g)
    ensures HasDigit(g) <==> (g[..d] != [] || frac != [])
  {
    assert forall k :: 0 <= k < |frac| ==> frac[k] == g[d + 1 + k];
    if d > 0 {
      assert IsAsciiDigit(g[0]);
    } else if d + 1 < |g| {
      assert IsAsciiDigit(g[d + 1]);
    }
  }

  /** `str(n)` for a natural number: its decimal digits, without leading zeros. */
  function NatToDecimal(n: nat): (r: string)
    ensures r != [] && IsDigits(r)
    ensures |r| > 1 ==> r[0] != '0'
  {
    if n < 10 then [DigitChar(n)] else NatToDecimal(n / 10) + [DigitChar(n % 10)]
  }

  /**
   * `str(i)` for any int: digits that `float()` reads back as `i`, after a
   * minus sign when `i` is negative.
   */
  function IntToDecimal(i: int): (r: string)
    ensures r != []
    ensures i >= 0 ==> IsDigits(r) && ParseFloat(r) == Some(i as real)
    ensures i < 0 ==> r[0] == '-' && IsDigits(r[1..]) && ParseFloat(r[1..]) == Some((-i) as real)
  {
    if i < 0 then
      ParseFloatOfNatToDecimal(-i);
      assert ("-" + NatToDecimal(-i))[1..] == NatToDecimal(-i);
      "-" + NatToDecimal(-i)
    else
      ParseFloatOfNatToDecimal(i);
      NatToDecimal(i)
  }

  /** `int(x)` for a float: truncation toward zero. */
  function Trunc(x: real): (r: int)
    ensures x >= 0.0 ==> 0 <= r && r as real <= x < r as real + 1.0
    ensures x < 0.0 ==> r <= 0 && r as real - 1.0 < x <= r as real
  {
    if x >= 0.0 then x.Floor else -((-x).Floor)
  }

  /** Reading back the digits of `str(n)` gives `n`. */
  lemma {:induction false} DigitsOfNatToDecimal(n: nat)
    ensures DigitsValue(NatToDecimal(n)) == n
  {
    var r := NatToDecimal(n);
    if n >= 10 {
      DigitsOfNatToDecimal(n / 10);
      assert r[..|r| - 1] == NatToDecimal(n / 10);
    }
  }

  /** `float(str(n)) == n`: the number formatting and parsing round-trip. */
  lemma ParseFloatOfNatToDecimal(n: nat)
    ensures ParseFloat(NatToDecimal(n)) == Some(n as real)
  {
    DigitsOfNatToDecimal(n);
  }
}
