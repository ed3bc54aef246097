/** The numeric reading of a size label or of a price: the group that the
    pattern `^(\d*\.\d*|\d*)` captures at the start of the text, read as a
    number. Python reads it with `float`; the model reads it exactly, as a
    decimal fraction. */
module LeadingNumber {

  predicate IsDigit(c: char) {
    '0' <= c <= '9'
  }

  predicate AllDigits(s: string) {
    forall i :: 0 <= i < |s| ==> IsDigit(s[i])
  }

  /** `re.search(r'^\d*$', s)`: digits only. Python's `$` also matches just
      before a newline that ends the text, so one trailing newline passes. */
  predicate MatchesDigitsOnly(s: string) {
    AllDigits(s) || (|s| > 0 && s[|s| - 1] == '\n' && AllDigits(s[..|s| - 1]))
  }

  /** The longest run of digits at the start of `s`. */
  function LeadingDigits(s: string): (d: string)
    ensures d <= s && AllDigits(d)
    ensures |d| < |s| ==> !IsDigit(s[|d|])
  {
    if s != [] && IsDigit(s[0]) then [s[0]] + LeadingDigits(s[1..]) else []
  }

  predicate HasDot(p: string) {
    exists i :: 0 <= i < |p| && p[i] == '.'
  }

  /** The group `^(\d*\.\d*|\d*)` captures: the leading digits and, when a
      dot follows them, the dot and the digits after it. It is the longest
      prefix made of digits and at most one dot. */
  function NumericPrefix(s: string): (p: string)
    ensures p <= s
    ensures forall i :: 0 <= i < |p| ==> IsDigit(p[i]) || p[i] == '.'
    ensures forall i, j :: 0 <= i < j < |p| && p[i] == '.' ==> p[j] != '.'
    ensures |p| < |s| ==> !IsDigit(s[|p|]) && (s[|p|] == '.' ==> HasDot(p))
  {
    var d := LeadingDigits(s);
    if |d| < |s| && s[|d|] == '.' then
      var f := LeadingDigits(s[|d| + 1..]);
      assert s[..|d| + 1 + |f|] == d + "." + f;
      assert (d + "." + f)[|d|] == '.';
      d + "." + f
    else
      d
  }

  /** `float` accepts the captured group exactly when it holds a digit;
      on "" and "." it raises ValueError. */
  predicate Parses(s: string) {
    var p := NumericPrefix(s);
    exists i :: 0 <= i < |p| && IsDigit(p[i])
  }

  function DigitValue(c: char): nat
    requires IsDigit(c)
  {
    c as int - '0' as int
  }

  /** The number a run of decimal digits denotes. */
  function Natural(d: string): nat
    requires AllDigits(d)
  {
    if d == [] then 0 else 10 * Natural(d[..|d| - 1]) + DigitValue(d[|d| - 1])
  }

  function Pow10(n: nat): (r: nat)
    ensures r >= 1
  {
    if n == 0 then 1 else 10 * Pow10(n - 1)
  }

  lemma {:induction false} NaturalBelowPow10(d: string)
    requires AllDigits(d)
    ensures Natural(d) < Pow10(|d|)
  {
    if d != [] {
      NaturalBelowPow10(d[..|d| - 1]);
    }
  }

  /** The exact value of the numeric prefix: the integer part plus the
      fraction digits over the matching power of ten. Where the prefix
      holds no digit (`Parses` is false) Python raises instead; callers
      exclude that case, and 0.0 is returned there. The value always lies
      between the integer part and the next integer. */
  function Value(s: string): (r: real)
    ensures Natural(LeadingDigits(s)) as real <= r < Natural(LeadingDigits(s)) as real + 1.0
  {
    var d := LeadingDigits(s);
    if |d| < |s| && s[|d|] == '.' then
      var f := LeadingDigits(s[|d| + 1..]);
      NaturalBelowPow10(f);
      FractionBelowOne(Natural(f), Pow10(|f|));
      Natural(d) as real + Natural(f) as real / Pow10(|f|) as real
    else
      Natural(d) as real
  }

  lemma FractionBelowOne(n: nat, p: nat)
    requires n < p
    ensures 0.0 <= n as real / p as real < 1.0
  {
    assert n as real / p as real * p as real == n as real;
  }

  /** A run of digits followed by a non-digit is exactly what
      `LeadingDigits` returns. */
  lemma {:induction false} LeadingDigitsOfRun(d: string, rest: string)
    requires AllDigits(d)
    requires rest == [] || !IsDigit(rest[0])
    ensures LeadingDigits(d + rest) == d
  {
    if d != [] {
      assert (d + rest)[1..] == d[1..] + rest;
      LeadingDigitsOfRun(d[1..], rest);
    } else if rest != [] {
      assert (d + rest)[0] == rest[0];
    }
  }

  /** Only the captured group matters: reading the group again captures the
      whole of it and gives the same value. So "10W" sorts with "10". */
  lemma PrefixDeterminesValue(s: string)
    ensures NumericPrefix(NumericPrefix(s)) == NumericPrefix(s)
    ensures Value(NumericPrefix(s)) == Value(s)
    ensures Parses(NumericPrefix(s)) == Parses(s)
  {
    var d := LeadingDigits(s);
    if |d| < |s| && s[|d|] == '.' {
      var f := LeadingDigits(s[|d| + 1..]);
      var p := d + "." + f;
      LeadingDigitsOfRun(d, "." + f);
      assert d + ("." + f) == p;
      assert p[|d| + 1..] == f + [];
      LeadingDigitsOfRun(f, []);
    } else {
      LeadingDigitsOfRun(d, []);
      assert d + [] == d;
    }
  }

  /** A label made only of digits reads as the integer it spells, and
      parses exactly when it is non-empty. */
  lemma DigitsValue(s: string)
    requires AllDigits(s)
    ensures Value(s) == Natural(s) as real
    ensures Parses(s) <==> s != []
  {
    LeadingDigitsOfRun(s, []);
    assert s + [] == s;
    if s != [] {
      assert NumericPrefix(s)[0] == s[0];
    }
  }

  /** A price literal as the store and the parsed product write it: its
      own numeric prefix, holding at least one digit. */
  predicate IsDecimalLiteral(s: string) {
    NumericPrefix(s) == s && Parses(s)
  }

  /** The value of `d.f`, digits `d` and `f`. */
  lemma {:induction false} FractionValue(d: string, f: string)
    requires AllDigits(d) && AllDigits(f)
    ensures Value(d + "." + f) == Natural(d) as real + Natural(f) as real / Pow10(|f|) as real
  {
    var s := d + "." + f;
    LeadingDigitsOfRun(d, "." + f);
    assert d + ("." + f) == s;
    assert s[|d|] == '.';
    assert s[|d| + 1..] == f + [];
    LeadingDigitsOfRun(f, []);
  }

  lemma NaturalAppendZero(f: string)
    requires AllDigits(f)
    ensures AllDigits(f + "0") && Natural(f + "0") == 10 * Natural(f)
  {
    var f0 := f + "0";
    assert f0[..|f0| - 1] == f;
  }

  lemma ScaledFraction(n: nat, q: nat)
    requires q >= 1
    ensures (10 * n) as real / (10 * q) as real == n as real / q as real
  {
    var x := n as real / q as real;
    assert x * q as real == n as real;
    assert x * (10 * q) as real == (10 * n) as real;
  }

  /** `d.f` with at least one digit is a price literal. */
  lemma FractionLiteral(d: string, f: string)
    requires AllDigits(d) && AllDigits(f) && (d != [] || f != [])
    ensures IsDecimalLiteral(d + "." + f)
  {
    var s := d + "." + f;
    LeadingDigitsOfRun(d, "." + f);
    assert d + ("." + f) == s;
    assert s[|d| + 1..] == f + [];
    LeadingDigitsOfRun(f, []);
    assert NumericPrefix(s) == s;
    if d != [] {
      assert IsDigit(s[0]);
    } else {
      assert IsDigit(s[1]);
    }
  }

  /** A zero appended to the fraction does not change the value: "19.9" and
      "19.90" are the same price. */
  lemma TrailingZeroKeepsValue(d: string, f: string)
    requires AllDigits(d) && AllDigits(f)
    ensures Value(d + "." + (f + "0")) == Value(d + "." + f)
  {
    NaturalAppendZero(f);
    FractionValue(d, f);
    FractionValue(d, f + "0");
    assert Pow10(|f + "0"|) == 10 * Pow10(|f|);
    ScaledFraction(Natural(f), Pow10(|f|));
  }
}
