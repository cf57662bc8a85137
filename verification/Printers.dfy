/** The exact-number printers and their agreement with the decimal normaliser: artifactDecimal
    (evaluation/finalv5oracle/artifact.go), canonicalPGXNumeric (canonical.go) and
    canonicalExposureScaleNumericCents (dependency.go). */
module Printers {
  import opened GoBytes
  import opened Numerals
  import opened Decimal
  import opened Euclid

  lemma {:induction false} ScaledNegate(m: int, e: int)
    ensures Scaled(-m, e) == -Scaled(m, e)
  {
    ScaledAdd(m, -m, e);
    ScaledZero(e);
  }

  /** Any plain signed numeral with few digits is accepted and keeps its value. */
  lemma {:induction false} ShortNumeralAccepted(n: Numeral)
    requires WellFormed(n) && n.exponent.None? && |n.whole| + |Behind(n.fraction)| < 1000
    ensures Canonical(Render(n)).Some? && Split(Canonical(Render(n)).value).Some?
    ensures Value(Split(Canonical(Render(n)).value).value) == Value(n)
  {
    DigitsConcat(n.whole, Behind(n.fraction));
    assert |Mantissa(n)| <= 1001 && |Render(n)| <= |Mantissa(n)| + 1;
    CanonicalOfRender(n);
    NormalizesExactly(n);
    SplitComplete(n);
    CanonicalPreservesValue(Render(n));
  }

  // ---------- artifactDecimal ----------

  function ArtifactNumeral(scaled: int, scale: nat): Numeral {
    var size := Abs(scaled);
    Numeral(SignFor(scaled < 0), Itoa(HighPart(size, scale)),
            if scale > 0 then Some(Padded(LowPart(size, scale), scale)) else None, None)
  }

  /** The range on which the int64 arithmetic of artifactDecimal does not wrap. */
  predicate ArtifactRange(scaled: int, scale: int) {
    -TWO63 < scaled < TWO63 && 0 <= scale <= 18
  }

  lemma {:induction false} ArtifactDigits(scaled: int, scale: nat)
    ensures var n := ArtifactNumeral(scaled, scale);
            && WellFormed(n) && |Behind(n.fraction)| == scale
            && Coefficient(n) == Abs(scaled)
  {
    var n, size := ArtifactNumeral(scaled, scale), Abs(scaled);
    HighLow(size, scale);
    ItoaValue(HighPart(size, scale));
    PaddedValue(LowPart(size, scale), scale);
    NatAppend(n.whole, Behind(n.fraction));
  }

  lemma {:induction false} ArtifactNumeralValue(scaled: int, scale: nat)
    ensures WellFormed(ArtifactNumeral(scaled, scale))
    ensures Value(ArtifactNumeral(scaled, scale)) == Scaled(scaled, -(scale as int))
  {
    ArtifactDigits(scaled, scale);
    MagnitudeOfCoefficient(ArtifactNumeral(scaled, scale));
    ScaledNegate(Abs(scaled), -(scale as int));
  }

  lemma {:induction false} ArtifactNumeralShort(scaled: int, scale: nat)
    requires ArtifactRange(scaled, scale)
    ensures |ArtifactNumeral(scaled, scale).whole| <= 19
  {
    assert Ten(9) == 1_000_000_000 && Ten(10) == 10_000_000_000;
    TenAdd(9, 10);
    HighLow(Abs(scaled), scale);
    ItoaLength(HighPart(Abs(scaled), scale), 19);
  }

  /** fmt "%0*d" of a signed number: the sign counts towards the width. */
  function SignedPadded(v: int, width: nat): Bytes {
    if v < 0 then [MINUS] + Padded(-v, if width > 0 then width - 1 else 0) else Padded(v, width)
  }

  /** At least `width` bytes in all, a leading minus exactly for a negative number, and its digits. */
  lemma {:induction false} SignedPaddedReads(v: int, width: nat)
    ensures var text := SignedPadded(v, width);
            && |text| >= width && text != []
            && (text[0] == MINUS <==> v < 0)
            && AllDigits(if v < 0 then text[1..] else text) && Nat(if v < 0 then text[1..] else text) == Abs(v)
  {
    PaddedValue(Abs(v), if v >= 0 then width else if width > 0 then width - 1 else 0);
    var text := SignedPadded(v, width);
    assert v < 0 ==> text[1..] == Padded(-v, if width > 0 then width - 1 else 0);
    ItoaValue(Abs(v));
    assert v >= 0 ==> IsDigit(text[0]);
  }

  /** The size the source works on: negating the most negative value wraps back to it. */
  function ArtifactSize(scaled: int64): int64 {
    if scaled < 0 then Wrap64(0 - (scaled as int)) else scaled
  }

  function ArtifactPower(scale: int): (p: nat)
    ensures p > 0
  {
    if scale > 0 then Ten(scale) else 1
  }

  /** The printed text, with the wrap-around of the negation. */
  function ArtifactText(scaled: int64, scale: int): Bytes {
    var size, power := ArtifactSize(scaled) as int, ArtifactPower(scale);
    var body := FormatInt(GoDiv(size, power)) +
                if scale > 0 then [POINT] + SignedPadded(GoRem(size, power), scale) else [];
    if scaled < 0 && size != 0 then [MINUS] + body else body
  }

  /** Up to a scale of 18 the power fits int64. */
  method ArtifactDecimal(scaled: int64, scale: int) returns (value: Bytes)
    requires scale <= 18
    ensures value == ArtifactText(scaled, scale)
  {
    var size: int64 := scaled;
    var negative := size < 0;
    if negative { size := Wrap64(0 - (size as int)); }
    var power: int := 1;
    var index := 0;
    while index < scale
      invariant 0 <= index && (index <= scale || index == 0) && power == Ten(index)
    {
      power := power * 10;
      index := index + 1;
    }
    value := FormatInt(GoDiv(size as int, power));
    if scale > 0 {
      value := value + ([POINT] + SignedPadded(GoRem(size as int, power), scale));
    } else {
      assert value + [] == value;
    }
    if negative && size != 0 { value := [MINUS] + value; }
  }

  lemma {:induction false} ArtifactRendered(scaled: int, scale: nat)
    ensures var n := ArtifactNumeral(scaled, scale);
            Render(n) == Signed(scaled < 0, n.whole + if scale > 0 then [POINT] + n.fraction.value else [])
  {
    RenderPlain(ArtifactNumeral(scaled, scale), scaled < 0);
  }

  /** In range the text is the numeral with the given number of decimals. */
  lemma {:induction false} ArtifactTextIs(scaled: int64, scale: nat)
    requires scaled > -TWO63
    ensures ArtifactText(scaled, scale) == Render(ArtifactNumeral(scaled, scale))
  {
    var size: nat := Abs(scaled);
    HighLow(size, scale);
    assert ArtifactPower(scale) == Ten(scale);
    DivisionIs(size, HighPart(size, scale), LowPart(size, scale), Ten(scale));
    assert ArtifactSize(scaled) == size;
    assert GoDiv(size, Ten(scale)) == HighPart(size, scale) && GoRem(size, Ten(scale)) == LowPart(size, scale);
    ArtifactRendered(scaled, scale);
  }

  /** Parsing what artifactDecimal prints gives back scaled / 10^scale. */
  lemma {:induction false} ArtifactRoundTrip(scaled: int, scale: nat)
    requires ArtifactRange(scaled, scale)
    ensures var text := Render(ArtifactNumeral(scaled, scale));
            && Canonical(text).Some? && Split(Canonical(text).value).Some?
            && Value(Split(Canonical(text).value).value) == Scaled(scaled, -(scale as int))
  {
    ArtifactNumeralValue(scaled, scale);
    ArtifactNumeralShort(scaled, scale);
    ArtifactDigits(scaled, scale);
    ShortNumeralAccepted(ArtifactNumeral(scaled, scale));
  }

  ghost predicate Denotes(text: Bytes, value: real) {
    Canonical(text).Some? && Split(Canonical(text).value).Some? && Value(Split(Canonical(text).value).value) == value
  }

  lemma {:induction false} DoubleMinusRefused(text: Bytes)
    requires |text| >= 2 && text[0] == MINUS && text[1] == MINUS
    ensures Canonical(text) == None
  {
    PartsSound(text);
    if WellFormed(Parts(text)) { OneSign(Parts(text), text); }
  }

  lemma {:induction false} OneSign(n: Numeral, text: Bytes)
    requires WellFormed(n) && text == Render(n) && n.sign.Some?
    ensures |text| >= 2 && text[1] != MINUS
  {
    MantissaBytes(n);
    assert Unsigned(n)[0] == Mantissa(n)[0];
    assert text[1] == Unsigned(n)[0];
  }

  lemma {:induction false} MinimumMisprinted(scaled: int64, scale: int)
    requires scaled == -TWO63 && scale <= 18
    ensures Canonical(ArtifactText(scaled, scale)) == None
  {
    var text := ArtifactText(scaled, scale);
    assert ArtifactSize(scaled) == scaled;
    PowerBelow(scale);
    MinimumQuotient(ArtifactPower(scale));
    assert text[0] == MINUS && text[1] == MINUS;
    DoubleMinusRefused(text);
  }

  lemma {:induction false} PowerBelow(scale: int)
    requires scale <= 18
    ensures ArtifactPower(scale) <= 1_000_000_000_000_000_000
  {
    if scale > 0 {
      TenMonotone(scale, 18);
      assert Ten(9) == 1_000_000_000;
      TenAdd(9, 9);
    }
  }

  lemma {:induction false} MinimumQuotient(power: nat)
    requires 0 < power <= 1_000_000_000_000_000_000
    ensures GoDiv(-TWO63, power) < 0
  {
    var q := TWO63 / power;
    assert TWO63 == q * power + TWO63 % power;
  }

  lemma {:induction false} NegativeScale(scaled: int, up: nat)
    requires up > 0
    ensures Scaled(scaled, up) == scaled as real <==> scaled == 0
  {
    ShiftScale(scaled, up, up);
    assert Ten(up) == 10 * Ten(up - 1);
    assert scaled > 0 ==> scaled * (Ten(up) - 1) > 0;
    assert scaled < 0 ==> (-scaled) * (Ten(up) - 1) > 0;
    assert scaled * (Ten(up) - 1) == scaled * Ten(up) - scaled;
    assert Scaled(scaled, up) == (scaled * Ten(up)) as real;
  }

  /** For every int64 and every scale up to 18: the printed text denotes scaled / 10^scale exactly when
      the value is not the most negative one and the scale is not negative, zero excepted. */
  lemma {:induction false} ArtifactExactly(scaled: int64, scale: int)
    requires scale <= 18
    ensures Denotes(ArtifactText(scaled, scale), Scaled(scaled, -scale)) <==>
            scaled > -TWO63 && (scale >= 0 || scaled == 0)
  {
    if scaled == -TWO63 {
      MinimumMisprinted(scaled, scale);
    } else if scale >= 0 {
      ArtifactTextIs(scaled, scale);
      ArtifactRoundTrip(scaled, scale);
    } else {
      assert ArtifactText(scaled, scale) == ArtifactText(scaled, 0);
      ArtifactTextIs(scaled, 0);
      ArtifactRoundTrip(scaled, 0);
      NegativeScale(scaled, -scale);
    }
  }

  // ---------- canonicalPGXNumeric ----------

  function PgxNumeral(coefficient: int, exp: int): Numeral {
    Numeral(SignFor(coefficient < 0), Itoa(Abs(coefficient)), None,
            if exp != 0 then Some(('e' as int, FormatInt(exp))) else None)
  }

  /** The text handed to canonicalDecimal: the coefficient, and the exponent unless it is zero. */
  method CanonicalPgxNumeric(coefficient: int, exp: int) returns (r: Option<Bytes>)
    requires -0x8000_0000 <= exp < 0x8000_0000
    ensures r == Canonical(Render(PgxNumeral(coefficient, exp)))
    ensures r.Some? ==> Split(r.value).Some? && Value(Split(r.value).value) == Scaled(coefficient, exp)
    ensures r.Some? ==> -MAX_BYTES <= exp <= MAX_BYTES
  {
    var text := FormatInt(coefficient);
    if exp != 0 { text := text + (['e' as int] + FormatInt(exp)); }
    PgxText(coefficient, exp);
    r := CanonicalDecimal(text);
    PgxOutcome(coefficient, exp, r);
  }

  lemma {:induction false} PgxText(coefficient: int, exp: int)
    ensures exp == 0 ==> Render(PgxNumeral(coefficient, exp)) == FormatInt(coefficient)
    ensures exp != 0 ==>
              Render(PgxNumeral(coefficient, exp)) == FormatInt(coefficient) + (['e' as int] + FormatInt(exp))
  {
    var n := PgxNumeral(coefficient, exp);
    assert Mantissa(n) == n.whole;
    assert exp == 0 ==> Unsigned(n) == n.whole;
  }

  /** Acceptance and value of every coefficient and exponent. */
  lemma {:induction false} PgxOutcome(coefficient: int, exp: int, r: Option<Bytes>)
    requires -0x8000_0000 <= exp < 0x8000_0000 && r == Canonical(Render(PgxNumeral(coefficient, exp)))
    ensures r.Some? ==> -MAX_BYTES <= exp <= MAX_BYTES
    ensures r.Some? ==> Split(r.value).Some? && Value(Split(r.value).value) == Scaled(coefficient, exp)
  {
    if -MAX_BYTES <= exp <= MAX_BYTES { PgxDenotes(coefficient, exp); } else { PgxRefused(coefficient, exp); }
  }

  lemma {:induction false} ParseFormatInt(v: int)
    requires -0x8000_0000 <= v < 0x8000_0000
    ensures ParseInt32(FormatInt(v)) == Some(v)
  {
    var text := FormatInt(v);
    ItoaValue(Abs(v));
    if v < 0 { assert text[1..] == Itoa(-v); }
  }

  /** An accepted pgx numeric denotes coefficient * 10^exp. */
  lemma {:induction false} PgxDenotes(coefficient: int, exp: int)
    requires -MAX_BYTES <= exp <= MAX_BYTES
    ensures var n := PgxNumeral(coefficient, exp);
            && WellFormed(n) && Value(n) == Scaled(coefficient, exp)
            && (Canonical(Render(n)).Some? <==> |Render(n)| <= MAX_BYTES && Expandable(n))
            && (Canonical(Render(n)).Some? ==>
                  && Split(Canonical(Render(n)).value).Some?
                  && Value(Split(Canonical(Render(n)).value).value) == Scaled(coefficient, exp))
  {
    var n := PgxNumeral(coefficient, exp);
    PgxValue(coefficient, exp);
    CanonicalOfRender(n);
    NormalizesExactly(n);
    SplitComplete(n);
    if Canonical(Render(n)).Some? { CanonicalPreservesValue(Render(n)); }
  }

  /** Any other int32 exponent is refused. */
  lemma {:induction false} PgxRefused(coefficient: int, exp: int)
    requires -0x8000_0000 <= exp < 0x8000_0000 && !(-MAX_BYTES <= exp <= MAX_BYTES)
    ensures Canonical(Render(PgxNumeral(coefficient, exp))) == None
  {
    var n := PgxNumeral(coefficient, exp);
    ParseFormatInt(exp);
    assert Splittable(n) && !WellFormed(n);
    PartsComplete(n);
  }

  lemma {:induction false} PgxValue(coefficient: int, exp: int)
    requires -MAX_BYTES <= exp <= MAX_BYTES
    ensures var n := PgxNumeral(coefficient, exp);
            WellFormed(n) && Value(n) == Scaled(coefficient, exp)
  {
    var n := PgxNumeral(coefficient, exp);
    ParseFormatInt(exp);
    ItoaValue(Abs(coefficient));
    assert n.whole + [] == n.whole;
    MagnitudeOfCoefficient(n);
    ScaledNegate(Abs(coefficient), exp);
  }

  // ---------- canonicalExposureScaleNumericCents ----------

  function RatText(p: int, q: int): Bytes {
    if q == 1 then FormatInt(p) else FormatInt(p) + ['/' as int] + FormatInt(q)
  }

  /** The text of the dependency fact for a number of cents. */
  function CentsText(cents: int): Bytes {
    GcdZero(cents, 100);
    var common := Gcd(cents, 100);
    Ascii("n:") + RatText(GoDiv(cents, common), GoDiv(100, common))
  }

  method CanonicalCents(cents: int64) returns (text: Bytes)
    ensures text == CentsText(cents)
  {
    var divisor := 100;
    var common := DependencyGcd(cents, divisor);
    GcdZero(cents, divisor);
    var numerator, denominator := GoDiv(cents, common), GoDiv(divisor, common);
    if denominator == 1 {
      return Ascii("n:") + FormatInt(numerator);
    }
    return Ascii("n:") + (FormatInt(numerator) + ['/' as int] + FormatInt(denominator));
  }

  /** The text spells cents / 100 in lowest terms. */
  lemma {:induction false} CentsInLowestTerms(cents: int) returns (p: int, q: int)
    ensures CentsText(cents) == Ascii("n:") + RatText(p, q)
    ensures q > 0 && Gcd(p, q) == 1 && p * 100 == cents * q
  {
    var hundred := 100;
    var g := Gcd(cents, hundred);
    GcdZero(cents, hundred);
    GcdDivides(cents, hundred);
    ExactQuotient(cents, g);
    ExactQuotient(hundred, g);
    p, q := GoDiv(cents, g), GoDiv(hundred, g);
    LowestTerms(cents, hundred, g, p, q);
  }

  /** For every number of cents, in particular those of each member rank, the dataset's decimal and the
      dependency fact's reduced fraction p/q both denote cents / 100. */
  lemma {:induction false} DatasetAndFactAgree(cents: int64) returns (p: int, q: int)
    requires cents > -TWO63
    ensures CentsText(cents) == Ascii("n:") + RatText(p, q)
    ensures q > 0 && Gcd(p, q) == 1 && p * 100 == cents * q
    ensures Denotes(ArtifactText(cents, 2), cents as real / 100.0)
  {
    p, q := CentsInLowestTerms(cents);
    ArtifactExactly(cents, 2);
    Hundredth(cents);
  }

  lemma {:induction false} Hundredth(cents: int)
    ensures Scaled(cents, -2) == cents as real / 100.0
  {
    assert Scaled(cents, -1) == cents as real / 10.0;
  }
}
