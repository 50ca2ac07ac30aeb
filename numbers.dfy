/**
 * JavaScript numbers as the quiz code uses them: exact reals for finite values,
 * and NaN, which `0 / 0` and `parseFloat` of a non-number produce.
 * Rounding of floating point is not modelled.
 */
module Numbers {
  import opened Wrappers
  import opened Text

  datatype Num = Finite(value: real) | NaN

  /** `a + b`: NaN is absorbing. */
  function Add(a: Num, b: Num): Num
  {
    if a.Finite? && b.Finite? then Finite(a.value + b.value) else NaN
  }

  /** `x >= t`, which is false whenever `x` is NaN. */
  predicate AtLeast(x: Num, t: real)
  {
    x.Finite? && x.value >= t
  }

  /** The sum `xs.reduce((s, x) => s + x, 0)`, taken left to right. */
  function Sum(xs: seq<Num>): Num
  {
    if xs == [] then Finite(0.0) else Add(Sum(xs[..|xs| - 1]), xs[|xs| - 1])
  }

  /** A sum of finite numbers is finite, and it is NaN as soon as one term is NaN. */
  lemma {:induction false} SumFinite(xs: seq<Num>)
    ensures Sum(xs).Finite? <==> forall k :: 0 <= k < |xs| ==> xs[k].Finite?
  {
    if xs != [] {
      SumFinite(xs[..|xs| - 1]);
      assert forall k :: 0 <= k < |xs| - 1 ==> xs[..|xs| - 1][k] == xs[k];
    }
  }

  /** The number of elements of `xs` that `p` holds of: the quiz modes'
      count of correct answers. */
  function Count<T>(xs: seq<T>, p: T -> bool): (c: nat)
    ensures c <= |xs|
  {
    if xs == [] then 0
    else Count(xs[..|xs| - 1], p) + if p(xs[|xs| - 1]) then 1 else 0
  }

  /** `part / whole * 100`; `0 / 0` is NaN. */
  function Percentage(part: nat, whole: nat): (r: Num)
    requires part <= whole
    ensures r.NaN? <==> whole == 0
    ensures r.Finite? ==> 0.0 <= r.value <= 100.0 && r.value * whole as real == 100.0 * part as real
  {
    if whole == 0 then NaN else Finite(part as real / whole as real * 100.0)
  }

  /** `total / count`, where the only division by zero that occurs is `0 / 0`. */
  function Mean(total: Num, count: nat): (r: Num)
    requires count == 0 ==> total == Finite(0.0)
    ensures r.NaN? <==> (count == 0 || total.NaN?)
    ensures r.Finite? ==> r.value * count as real == total.value
  {
    if count == 0 || total.NaN? then NaN else Finite(total.value / count as real)
  }

  /** A mean of values between 0 and 100 lies between 0 and 100. */
  lemma MeanOfPercentages(total: Num, count: nat)
    requires count > 0 && total.Finite? && 0.0 <= total.value <= 100.0 * count as real
    ensures Mean(total, count).Finite? && 0.0 <= Mean(total, count).value <= 100.0
  {
    QuotientNonnegative(total.value, count as real);
    QuotientAtMost(total.value, 100.0, count as real);
  }

  lemma QuotientAtMost(a: real, b: real, n: real)
    requires n > 0.0 && a <= b * n
    ensures a / n <= b
  {
  }

  lemma QuotientNonnegative(a: real, n: real)
    requires a >= 0.0 && n > 0.0
    ensures a / n >= 0.0
  {
  }

  /** The four-way verdict at 90, 75 and 60 percent shared by the AI chat
      closing message and the overall statistics assessment. */
  datatype Tier = Outstanding | Great | Decent | NeedsWork

  function TierOf(score: Num): (t: Tier)
    ensures t == Outstanding <==> AtLeast(score, 90.0)
    ensures t == Great <==> AtLeast(score, 75.0) && !AtLeast(score, 90.0)
    ensures t == Decent <==> AtLeast(score, 60.0) && !AtLeast(score, 75.0)
    ensures t == NeedsWork <==> !AtLeast(score, 60.0)
  {
    if AtLeast(score, 90.0) then Outstanding
    else if AtLeast(score, 75.0) then Great
    else if AtLeast(score, 60.0) then Decent
    else NeedsWork
  }

  function TierRank(t: Tier): nat
  {
    match t
    case NeedsWork => 0
    case Decent => 1
    case Great => 2
    case Outstanding => 3
  }

  /** A higher score never gets a lower verdict. */
  lemma TierMonotone(a: real, b: real)
    requires a <= b
    ensures TierRank(TierOf(Finite(a))) <= TierRank(TierOf(Finite(b)))
  {
  }

  /** The three-colour band at 80 and 60 percent used by every statistics table. */
  datatype Band = Green | Yellow | Red

  function BandOf(rate: Num): (b: Band)
    ensures b == Green <==> AtLeast(rate, 80.0)
    ensures b == Yellow <==> AtLeast(rate, 60.0) && !AtLeast(rate, 80.0)
    ensures b == Red <==> !AtLeast(rate, 60.0)
  {
    if AtLeast(rate, 80.0) then Green else if AtLeast(rate, 60.0) then Yellow else Red
  }

  // ---------------------------------------------------------------------
  // parseFloat

  function Pow10(n: nat): (p: nat)
    ensures p >= 1
  {
    if n == 0 then 1 else 10 * Pow10(n - 1)
  }

  /** `parseFloat(s)` for decimal numerals: leading whitespace is skipped, then
      an optional sign, digits and an optional fraction are read, and whatever
      follows is ignored; without a digit the result is NaN.  Exponents and
      "Infinity" are not modelled. */
  function ParseFloat(s: string): Num
  {
    Signed(s[LeadingSpace(s)..])
  }

  /** The number after an optional sign. */
  function Signed(t: string): Num
  {
    var neg := t != [] && t[0] == '-';
    var u := if t != [] && (t[0] == '-' || t[0] == '+') then t[1..] else t;
    match Numeral(u)
    case None => NaN
    case Some(n) => Finite(if neg then -NumeralValue(n) else NumeralValue(n))
  }

  /** The digits of a numeral, before and after the decimal point. */
  datatype Digits = Digits(whole: string, fraction: string)

  predicate AllDigits(s: string)
  {
    forall k :: 0 <= k < |s| ==> IsDigit(s[k])
  }

  /** The numeral `u` starts with; None when there is no digit at all. */
  function Numeral(u: string): (r: Option<Digits>)
    ensures r.Some? ==> AllDigits(r.value.whole) && AllDigits(r.value.fraction)
  {
    var i := LeadingDigits(u);
    var f := Fraction(u[i..]);
    if i == 0 && f == [] then None else Some(Digits(u[..i], f))
  }

  /** The digits after a leading '.', if any. */
  function Fraction(rest: string): (f: string)
    ensures AllDigits(f)
  {
    if rest != [] && rest[0] == '.' then
      var digits := rest[1..][..LeadingDigits(rest[1..])];
      assert forall k :: 0 <= k < |digits| ==> digits[k] == rest[1..][k];
      digits
    else []
  }

  function NumeralValue(n: Digits): real
    requires AllDigits(n.whole) && AllDigits(n.fraction)
  {
    DigitsValue(n.whole) as real + FractionValue(n.fraction)
  }

  /** The value of the digits after the decimal point. */
  function FractionValue(f: string): real
    requires AllDigits(f)
  {
    DigitsValue(f) as real / Pow10(|f|) as real
  }

  /** `parseFloat` of a destructured value that may be undefined. */
  function ParseFloatOf(o: Option<string>): Num
  {
    match o
    case None => NaN
    case Some(s) => ParseFloat(s)
  }

  /** Reading starts right at a leading digit. */
  lemma StartsWithDigit(s: string)
    requires s != [] && IsDigit(s[0])
    ensures ParseFloat(s) == match Numeral(s) case None => NaN case Some(n) => Finite(NumeralValue(n))
  {
    assert s[LeadingSpace(s)..] == s by {
      assert LeadingSpace(s) == 0;
    }
    assert s[0] != '-' && s[0] != '+';
  }

  /** The digit run of `d + rest` is `d` when `rest` does not go on with a digit. */
  lemma NumeralOf(d: string, rest: string)
    requires d != [] && AllDigits(d)
    requires rest == [] || !IsDigit(rest[0])
    ensures Numeral(d + rest) == Some(Digits(d, Fraction(rest)))
  {
    LeadingDigitsOf(d, rest);
    assert (d + rest)[..|d|] == d;
    assert (d + rest)[|d|..] == rest;
  }

  /** Digits followed by anything that does not continue a numeral are read
      as the number they denote ("85", "85%", "85/100"). */
  lemma ParseDigits(d: string, rest: string)
    requires d != [] && AllDigits(d)
    requires rest == [] || (!IsDigit(rest[0]) && rest[0] != '.')
    ensures ParseFloat(d + rest) == Finite(DigitsValue(d) as real)
  {
    var s := d + rest;
    assert NumeralValue(Digits(d, [])) == DigitsValue(d) as real by {
      assert FractionValue([]) == 0.0 by {
        assert DigitsValue([]) == 0 && Pow10(0) == 1;
      }
    }
    assert Numeral(s) == Some(Digits(d, [])) by {
      NumeralOf(d, rest);
    }
    assert s[0] == d[0];
    StartsWithDigit(s);
  }

  /** A rendered whole number reads back as that number. */
  lemma ParseWholeNumber(n: nat, rest: string)
    requires rest == [] || (!IsDigit(rest[0]) && rest[0] != '.')
    ensures ParseFloat(Decimal(n) + rest) == Finite(n as real)
  {
    ParseDigits(Decimal(n), rest);
    DecimalValue(n);
  }

  /** Digits, a point and more digits are read as whole part plus fraction. */
  lemma ParseDigitsWithFraction(d: string, f: string)
    requires d != [] && AllDigits(d) && AllDigits(f)
    ensures ParseFloat(d + "." + f) == Finite(DigitsValue(d) as real + FractionValue(f))
  {
    ParseNumeralText(d + "." + f, d, f);
  }

  /** The same with the text as a variable, which keeps the proof small. */
  lemma ParseNumeralText(s: string, d: string, f: string)
    requires d != [] && AllDigits(d) && AllDigits(f) && s == d + "." + f
    ensures ParseFloat(s) == Finite(DigitsValue(d) as real + FractionValue(f))
  {
    NumeralWithFraction(d, f);
    ParseNumeral(s, Digits(d, f));
  }

  /** A text that starts with a digit is read as its numeral. */
  lemma ParseNumeral(s: string, n: Digits)
    requires s != [] && IsDigit(s[0]) && Numeral(s) == Some(n)
    ensures AllDigits(n.whole) && AllDigits(n.fraction)
    ensures ParseFloat(s) == Finite(NumeralValue(n))
  {
    StartsWithDigit(s);
  }

  lemma NumeralWithFraction(d: string, f: string)
    requires d != [] && AllDigits(d) && AllDigits(f)
    ensures Numeral(d + "." + f) == Some(Digits(d, f))
    ensures IsDigit((d + "." + f)[0])
  {
    assert (d + "." + f)[0] == d[0];
    FractionAfterPoint(f);
    NumeralOf(d, "." + f);
    assert d + "." + f == d + ("." + f);
  }

  lemma FractionAfterPoint(f: string)
    requires AllDigits(f)
    ensures Fraction("." + f) == f
  {
    assert ("." + f)[1..] == f;
    LeadingDigitsOf(f, []);
    assert f + [] == f;
  }

  /** A rendered number with a fraction reads back as whole part plus fraction. */
  lemma ParseFraction(n: nat, f: string)
    requires AllDigits(f)
    ensures ParseFloat(Decimal(n) + "." + f) == Finite(n as real + FractionValue(f))
  {
    ParseDigitsWithFraction(Decimal(n), f);
    DecimalValue(n);
  }

  /** Text that does not start like a numeral is not a number. */
  lemma NotANumber(s: string)
    requires s != [] && !IsWhitespace(s[0]) && !IsDigit(s[0])
    requires s[0] != '-' && s[0] != '+' && s[0] != '.'
    ensures ParseFloat(s).NaN?
  {
    assert LeadingSpace(s) == 0;
    assert s[0..] == s;
  }
}
