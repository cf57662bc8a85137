/** The canonical decimal normaliser (evaluation/finalv5oracle/canonical.go, canonicalDecimal and
    canonicalPGXNumeric): what texts it accepts, what numbers they denote, and why its output is a
    canonical name of the number. */
module Decimal {
  import opened GoBytes
  import opened Numerals
  import Euclid

  const MAX_BYTES: int := 0x10_0000

  const POINT: byte := '.' as int
  const PLUS: byte := '+' as int
  const MINUS: byte := '-' as int
  const MARKERS: Bytes := ['e' as int, 'E' as int]

  // ---------- decimal numerals and the numbers they denote ----------

  /** sign? whole [. fraction] [e exponent] */
  datatype Numeral = Numeral(
    sign: Option<byte>, whole: Bytes, fraction: Option<Bytes>, exponent: Option<(byte, Bytes)>)

  function Behind(fraction: Option<Bytes>): Bytes {
    match fraction
    case Some(f) => f
    case None => []
  }

  /** strconv.ParseInt(text, 10, 32). */
  function ParseInt32(text: Bytes): Option<int> {
    var signed := text != [] && (text[0] == PLUS || text[0] == MINUS);
    var digits := if signed then text[1..] else text;
    if digits == [] || !AllDigits(digits) then None
    else
      var value: int := if text[0] == MINUS then 0 - Nat(digits) else Nat(digits);
      if -0x8000_0000 <= value < 0x8000_0000 then Some(value) else None
  }

  function InInt32(v: int): Option<int> {
    if -2147483648 <= v <= 2147483647 then Some(v) else None
  }

  /** An optional sign before digits, in range: a minus negates, a plus does not, and nothing else parses. */
  lemma {:induction false} ParseInt32Reads(text: Bytes)
    ensures text != [] && AllDigits(text) ==>
              && ParseInt32(text) == InInt32(Nat(text))
              && ParseInt32([PLUS] + text) == InInt32(Nat(text)) && ParseInt32([MINUS] + text) == InInt32(0 - Nat(text))
    ensures ParseInt32(text).Some? ==>
              || (text != [] && AllDigits(text))
              || (|text| > 1 && (text[0] == PLUS || text[0] == MINUS) && AllDigits(text[1..]))
  {
    assert ([PLUS] + text)[1..] == text && ([MINUS] + text)[1..] == text;
  }

  predicate ValidExponent(text: Bytes) {
    match ParseInt32(text)
    case Some(v) => -MAX_BYTES <= v <= MAX_BYTES
    case None => false
  }

  predicate ExponentOk(exponent: Option<(byte, Bytes)>) {
    match exponent
    case Some((marker, text)) => marker in MARKERS && ValidExponent(text)
    case None => true
  }

  function ExponentValue(exponent: Option<(byte, Bytes)>): int
    requires ExponentOk(exponent)
  {
    match exponent
    case Some((_, text)) => ParseInt32(text).value
    case None => 0
  }

  predicate DigitsOk(whole: Bytes, fraction: Option<Bytes>) {
    AllDigits(whole) && AllDigits(Behind(fraction)) && |whole| + |Behind(fraction)| > 0
  }

  predicate SignOk(sign: Option<byte>) {
    sign.Some? ==> sign.value == PLUS || sign.value == MINUS
  }

  predicate WellFormed(n: Numeral) {
    SignOk(n.sign) && DigitsOk(n.whole, n.fraction) && ExponentOk(n.exponent)
  }

  function Mantissa(n: Numeral): Bytes {
    n.whole + match n.fraction case Some(f) => [POINT] + f case None => []
  }

  function Unsigned(n: Numeral): Bytes {
    Mantissa(n) + match n.exponent case Some((marker, text)) => [marker] + text case None => []
  }

  function Render(n: Numeral): Bytes {
    SignText(n.sign) + Unsigned(n)
  }

  /** The number, read off positionally. */
  function Magnitude(n: Numeral): real
    requires WellFormed(n)
  {
    var exponent, behind := ExponentValue(n.exponent), Behind(n.fraction);
    Scaled(Nat(n.whole), exponent) + Scaled(Nat(behind), exponent - |behind|)
  }

  function Value(n: Numeral): real
    requires WellFormed(n)
  {
    if n.sign == Some(MINUS) then -Magnitude(n) else Magnitude(n)
  }

  // ---------- splitting a text ----------

  /** strings.IndexAny: the first position holding one of the given bytes, or -1. */
  function IndexAny(s: Bytes, any: Bytes): (r: int)
    ensures -1 <= r < |s|
    ensures r >= 0 ==> s[r] in any && forall i :: 0 <= i < r ==> s[i] !in any
    ensures r == -1 ==> forall i :: 0 <= i < |s| ==> s[i] !in any
  {
    if s == [] then -1
    else if s[0] in any then 0
    else
      var rest := IndexAny(s[1..], any);
      if rest == -1 then -1 else rest + 1
  }

  function SplitMantissa(text: Bytes): (Bytes, Option<Bytes>) {
    var point := IndexAny(text, [POINT]);
    if point >= 0 then (text[..point], Some(text[point + 1..])) else (text, None)
  }

  function SplitExponent(text: Bytes): (Bytes, Option<(byte, Bytes)>) {
    var position := IndexAny(text, MARKERS);
    if position >= 0 then (text[..position], Some((text[position], text[position + 1..]))) else (text, None)
  }

  function SignOf(text: Bytes): Option<byte> {
    if text != [] && (text[0] == PLUS || text[0] == MINUS) then Some(text[0]) else None
  }

  function Parts(text: Bytes): Numeral {
    var sign := SignOf(text);
    var (mantissa, exponent) := SplitExponent(if sign.Some? then text[1..] else text);
    var (whole, fraction) := SplitMantissa(mantissa);
    Numeral(sign, whole, fraction, exponent)
  }

  function Split(text: Bytes): (r: Option<Numeral>)
    ensures r.Some? ==> WellFormed(r.value)
  {
    if WellFormed(Parts(text)) then Some(Parts(text)) else None
  }

  lemma {:induction false} IndexAnyIs(s: Bytes, any: Bytes, k: nat)
    requires k < |s| && s[k] in any && forall i :: 0 <= i < k ==> s[i] !in any
    ensures IndexAny(s, any) == k
  {
  }

  lemma {:induction false} MantissaOfParts(text: Bytes, sign: Option<byte>, exponent: Option<(byte, Bytes)>)
    ensures Mantissa(Numeral(sign, SplitMantissa(text).0, SplitMantissa(text).1, exponent)) == text
  {
  }

  lemma {:induction false} UnsignedOfParts(text: Bytes, sign: Option<byte>)
    ensures var (mantissa, exponent) := SplitExponent(text);
            Unsigned(Numeral(sign, SplitMantissa(mantissa).0, SplitMantissa(mantissa).1, exponent)) == text
  {
    var (mantissa, exponent) := SplitExponent(text);
    MantissaOfParts(mantissa, sign, exponent);
  }

  function SignText(sign: Option<byte>): Bytes {
    match sign case Some(s) => [s] case None => []
  }

  lemma {:induction false} SignRestored(text: Bytes)
    ensures SignText(SignOf(text)) + (if SignOf(text).Some? then text[1..] else text) == text
  {
  }

  /** Splitting loses nothing: the parts spell the text again. */
  lemma {:induction false} PartsSound(text: Bytes)
    ensures Render(Parts(text)) == text
  {
    SignRestored(text);
    UnsignedOfParts(if SignOf(text).Some? then text[1..] else text, SignOf(text));
  }

  /** Sign, digits and marker are in order; the exponent text may be anything. */
  predicate Splittable(n: Numeral) {
    SignOk(n.sign) && DigitsOk(n.whole, n.fraction) && (n.exponent.Some? ==> n.exponent.value.0 in MARKERS)
  }

  lemma {:induction false} PartsComplete(n: Numeral)
    requires Splittable(n)
    ensures Parts(Render(n)) == n
  {
    SplitSign(n);
    SplitExponentComplete(n);
    SplitMantissaComplete(n);
  }

  /** Every well-formed numeral is recovered from its text, so a text has exactly one reading. */
  lemma {:induction false} SplitComplete(n: Numeral)
    requires WellFormed(n)
    ensures Split(Render(n)) == Some(n)
  {
    PartsComplete(n);
  }

  lemma {:induction false} SplitSign(n: Numeral)
    requires Splittable(n)
    ensures SignOf(Render(n)) == n.sign
    ensures Unsigned(n) == if n.sign.Some? then Render(n)[1..] else Render(n)
  {
    MantissaBytes(n);
    assert Unsigned(n)[0] == Mantissa(n)[0];
    if n.sign.None? { assert Render(n) == Unsigned(n); }
  }

  lemma {:induction false} SplitExponentComplete(n: Numeral)
    requires Splittable(n)
    ensures SplitExponent(Unsigned(n)) == (Mantissa(n), n.exponent)
  {
    var unsigned, mantissa := Unsigned(n), Mantissa(n);
    MantissaBytes(n);
    if n.exponent.Some? {
      var (marker, text) := n.exponent.value;
      assert unsigned == mantissa + [marker] + text;
      IndexAnyIs(unsigned, MARKERS, |mantissa|);
      assert unsigned[..|mantissa|] == mantissa;
      assert unsigned[|mantissa| + 1..] == text;
    } else {
      assert unsigned == mantissa;
    }
  }

  lemma {:induction false} MantissaBytes(n: Numeral)
    requires Splittable(n)
    ensures |Mantissa(n)| > 0
    ensures forall i :: 0 <= i < |Mantissa(n)| ==> IsDigit(Mantissa(n)[i]) || Mantissa(n)[i] == POINT
  {
  }

  lemma {:induction false} SplitMantissaComplete(n: Numeral)
    requires Splittable(n)
    ensures SplitMantissa(Mantissa(n)) == (n.whole, n.fraction)
  {
    var m := Mantissa(n);
    if n.fraction.Some? {
      IndexAnyIs(m, [POINT], |n.whole|);
      assert m[..|n.whole|] == n.whole && m[|n.whole| + 1..] == n.fraction.value;
    } else {
      assert m == n.whole;
    }
  }

  // ---------- the normaliser ----------

  function Signed(negative: bool, digits: Bytes): Bytes {
    if negative then [MINUS] + digits else digits
  }

  function TrimSuffixPoint(s: Bytes): Bytes {
    if s != [] && s[|s| - 1] == POINT then s[..|s| - 1] else s
  }

  /** From the significant digits and the scale to the canonical text. */
  function Expand(negative: bool, digits: Bytes, scale: int): Option<Bytes> {
    if digits == [] then Some([ZERO])
    else if scale <= 0 then
      if -scale > MAX_BYTES - |digits| then None else Some(Signed(negative, digits + Zeros(-scale)))
    else if scale >= |digits| then
      if scale - |digits| > MAX_BYTES - |digits| then None
      else Some(Signed(negative,
          TrimSuffixPoint(TrimRightZeros([ZERO] + [POINT] + (Zeros(scale - |digits|) + digits)))))
    else
      var position := |digits| - scale;
      Some(Signed(negative, TrimSuffixPoint(TrimRightZeros(digits[..position] + [POINT] + digits[position..]))))
  }

  /** The significant digits of a numeral and how many of them stand behind the point. */
  function Reduced(n: Numeral): (r: (Bytes, int))
    requires WellFormed(n)
    ensures AllDigits(r.0) && (r.0 != [] ==> r.0[0] != ZERO)
  {
    DigitsConcat(n.whole, Behind(n.fraction));
    (TrimLeftZeros(n.whole + Behind(n.fraction)), |Behind(n.fraction)| - ExponentValue(n.exponent))
  }

  function Normalize(n: Numeral): Option<Bytes>
    requires WellFormed(n)
  {
    Expand(n.sign == Some(MINUS), Reduced(n).0, Reduced(n).1)
  }

  function Canonical(text: Bytes): Option<Bytes> {
    if text == [] || |text| > MAX_BYTES then None
    else match Split(text)
      case None => None
      case Some(n) => Normalize(n)
  }

  /** The source's own steps, ending in the result described by `Canonical`. */
  method CanonicalDecimal(raw: Bytes) returns (r: Option<Bytes>)
    ensures r == Canonical(raw)
  {
    var text := raw;
    if |text| == 0 || |text| > MAX_BYTES { return None; }
    if HasBoundarySpace(text) {
      NoBoundarySpace(raw);
      return None;
    }
    var negative := false;
    if text[0] == PLUS || text[0] == MINUS {
      negative := text[0] == MINUS;
      text := text[1..];
    }
    r := NormalizeUnsigned(negative, text);
    CanonicalStepwise(raw);
  }

  method NormalizeUnsigned(negative: bool, text: Bytes) returns (r: Option<Bytes>)
    ensures r == Stepwise(negative, text)
  {
    var parts := SignificantDigits(text);
    if parts.None? { return None; }
    r := Expand(negative, parts.value.0, parts.value.1);
  }

  method SignificantDigits(text: Bytes) returns (r: Option<(Bytes, int)>)
    ensures r == StepwiseParts(text)
  {
    var cut := CutExponent(text);
    if cut.None? { return None; }
    r := ScaleDigits(cut.value.0, cut.value.1);
  }

  method ScaleDigits(mantissa: Bytes, exponent: int) returns (r: Option<(Bytes, int)>)
    ensures r == ScaledDigits(mantissa, exponent)
  {
    var coefficient := RemovePoint(mantissa);
    if coefficient.None? { return None; }
    return Some((TrimLeftZeros(coefficient.value.0), coefficient.value.1 - exponent));
  }

  /** The mantissa and the exponent, if it is acceptable. */
  function ExponentCut(text: Bytes): Option<(Bytes, int)> {
    var (mantissa, exponent) := SplitExponent(text);
    if ExponentOk(exponent) then Some((mantissa, ExponentValue(exponent))) else None
  }

  /** The digits without the point, and how many of them stood behind it. */
  function PointRemoved(mantissa: Bytes): (r: Option<(Bytes, int)>)
    ensures r.Some? ==> AllDigits(r.value.0)
  {
    var (whole, fraction) := SplitMantissa(mantissa);
    DigitsConcat(whole, Behind(fraction));
    if DigitsOk(whole, fraction) then Some((whole + Behind(fraction), |Behind(fraction)|)) else None
  }

  function StepwiseParts(unsigned: Bytes): Option<(Bytes, int)> {
    match ExponentCut(unsigned)
    case None => None
    case Some((mantissa, exponent)) => ScaledDigits(mantissa, exponent)
  }

  function ScaledDigits(mantissa: Bytes, exponent: int): Option<(Bytes, int)> {
    match PointRemoved(mantissa)
    case None => None
    case Some((digits, behind)) => Some((TrimLeftZeros(digits), behind - exponent))
  }

  function Stepwise(negative: bool, unsigned: Bytes): Option<Bytes> {
    match StepwiseParts(unsigned)
    case None => None
    case Some((digits, scale)) => Expand(negative, digits, scale)
  }

  lemma {:induction false} CutIs(unsigned: Bytes, mantissa: Bytes, exponent: Option<(byte, Bytes)>)
    requires SplitExponent(unsigned) == (mantissa, exponent)
    ensures ExponentCut(unsigned) == if ExponentOk(exponent) then Some((mantissa, ExponentValue(exponent))) else None
  {
  }

  lemma {:induction false} RemovedIs(mantissa: Bytes, whole: Bytes, fraction: Option<Bytes>)
    requires SplitMantissa(mantissa) == (whole, fraction)
    ensures PointRemoved(mantissa) == if DigitsOk(whole, fraction)
            then Some((whole + Behind(fraction), |Behind(fraction)|)) else None
  {
  }

  lemma {:induction false} StepwiseReduces(n: Numeral, mantissa: Bytes, unsigned: Bytes)
    requires SignOk(n.sign)
    requires SplitExponent(unsigned) == (mantissa, n.exponent)
    requires SplitMantissa(mantissa) == (n.whole, n.fraction)
    ensures StepwiseParts(unsigned) == if WellFormed(n) then Some(Reduced(n)) else None
  {
    CutIs(unsigned, mantissa, n.exponent);
    RemovedIs(mantissa, n.whole, n.fraction);
  }

  lemma {:induction false} CanonicalStepwise(text: Bytes)
    requires text != [] && |text| <= MAX_BYTES
    ensures Canonical(text) == Stepwise(SignOf(text) == Some(MINUS), if SignOf(text).Some? then text[1..] else text)
  {
    var unsigned := if SignOf(text).Some? then text[1..] else text;
    StepwiseReduces(Parts(text), SplitExponent(unsigned).0, unsigned);
  }

  method CutExponent(text: Bytes) returns (r: Option<(Bytes, int)>)
    ensures r == ExponentCut(text)
  {
    var position := IndexAny(text, MARKERS);
    if position < 0 { return Some((text, 0)); }
    var suffix := text[position + 1..];
    if IndexAny(suffix, MARKERS) >= 0 {
      MarkersAreNotDigits(suffix);
      return None;
    }
    var parsed := ParseInt32(suffix);
    if parsed.None? || parsed.value < -MAX_BYTES || parsed.value > MAX_BYTES { return None; }
    return Some((text[..position], parsed.value));
  }

  method RemovePoint(mantissa: Bytes) returns (r: Option<(Bytes, int)>)
    ensures r == PointRemoved(mantissa)
  {
    var text := mantissa;
    var point := IndexAny(text, [POINT]);
    if point >= 0 && IndexAny(text[point + 1..], [POINT]) >= 0 { return None; }
    var fractionalDigits := 0;
    if point >= 0 {
      fractionalDigits := |text| - point - 1;
      text := text[..point] + text[point + 1..];
    } else {
      assert text + [] == text;
    }
    if text == [] { return None; }
    DigitsConcat(SplitMantissa(mantissa).0, Behind(SplitMantissa(mantissa).1));
    for index := 0 to |text|
      invariant forall i :: 0 <= i < index ==> IsDigit(text[i])
    {
      if !IsDigit(text[index]) { return None; }
    }
    return Some((text, fractionalDigits));
  }

  lemma {:induction false} MarkersAreNotDigits(suffix: Bytes)
    requires IndexAny(suffix, MARKERS) >= 0
    ensures !ValidExponent(suffix)
  {
    var k := IndexAny(suffix, MARKERS);
    if k > 0 { assert suffix[1..][k - 1] == suffix[k]; }
  }

  /** A padded text is not a numeral, so the explicit check never decides the outcome. */
  lemma {:induction false} NoBoundarySpace(text: Bytes)
    ensures HasBoundarySpace(text) ==> Split(text) == None
  {
    if WellFormed(Parts(text)) {
      PrintableEnds(text);
      PrintableBoundary(text);
    }
  }

  lemma {:induction false} PrintableEnds(text: Bytes)
    requires WellFormed(Parts(text))
    ensures text != [] && 32 < text[0] < 128 && 32 < text[|text| - 1] < 128
  {
    PartsSound(text);
    EndBytes(Parts(text), text);
  }

  lemma {:induction false} EndBytes(n: Numeral, text: Bytes)
    requires WellFormed(n) && text == Render(n)
    ensures text != [] && 32 < text[0] < 128 && 32 < text[|text| - 1] < 128
  {
    MantissaBytes(n);
    var unsigned, mantissa := Unsigned(n), Mantissa(n);
    assert text[|text| - 1] == unsigned[|unsigned| - 1];
    match n.exponent
    case None => assert unsigned == mantissa;
    case Some((marker, t)) =>
      assert unsigned[|unsigned| - 1] == t[|t| - 1];
      assert |t| > 1 ==> t[1..][|t| - 2] == t[|t| - 1];
  }

  // ---------- the output names the number ----------

  function Coefficient(n: Numeral): nat
    requires WellFormed(n)
  {
    DigitsConcat(n.whole, Behind(n.fraction));
    Nat(n.whole + Behind(n.fraction))
  }

  lemma {:induction false} MagnitudeOfCoefficient(n: Numeral)
    requires WellFormed(n)
    ensures Magnitude(n) == Scaled(Coefficient(n), ExponentValue(n.exponent) - |Behind(n.fraction)|)
  {
    DigitsConcat(n.whole, Behind(n.fraction));
    PositionalValue(n.whole, Behind(n.fraction), ExponentValue(n.exponent));
  }

  /** No plus sign, no exponent, no superfluous zero or point, no negative zero. */
  predicate IsCanonical(m: Numeral) {
    && WellFormed(m) && m.exponent.None?
    && (m.sign.Some? ==> m.sign.value == MINUS && Coefficient(m) != 0)
    && m.whole != [] && (m.whole == [ZERO] || m.whole[0] != ZERO)
    && (m.fraction.Some? ==> m.fraction.value != [] && m.fraction.value[|m.fraction.value| - 1] != ZERO)
  }

  function SignFor(negative: bool): Option<byte> {
    if negative then Some(MINUS) else None
  }

  lemma {:induction false} RenderPlain(m: Numeral, negative: bool)
    requires m.exponent.None? && m.sign == SignFor(negative)
    ensures Render(m) == Signed(negative, Mantissa(m))
  {
    assert Unsigned(m) == Mantissa(m);
  }

  /** whole "." fraction with the trailing zeros, and then the bare point, removed. */
  function PointForm(negative: bool, w: Bytes, f: Bytes): Numeral {
    var kept := TrimRightZeros(f);
    Numeral(SignFor(negative), w, if kept == [] then None else Some(kept), None)
  }

  lemma {:induction false} PointFormRender(negative: bool, w: Bytes, f: Bytes)
    requires w != [] && AllDigits(f)
    ensures Render(PointForm(negative, w, f)) == Signed(negative, TrimSuffixPoint(TrimRightZeros(w + [POINT] + f)))
  {
    var m := PointForm(negative, w, f);
    RenderPlain(m, negative);
    TrimRightAfterPoint(w, POINT, f);
    KeptDigits(f);
    WithoutBarePoint(w, TrimRightZeros(f));
  }

  lemma {:induction false} KeptDigits(f: Bytes)
    requires AllDigits(f)
    ensures AllDigits(TrimRightZeros(f))
  {
    if f != [] && TrimRightZeros(f) != f { KeptDigits(f[..|f| - 1]); }
  }

  lemma {:induction false} WithoutBarePoint(w: Bytes, kept: Bytes)
    requires AllDigits(kept)
    ensures TrimSuffixPoint(w + [POINT] + kept) == if kept == [] then w else w + ([POINT] + kept)
  {
    var s := w + [POINT] + kept;
    if kept == [] {
      assert s[..|s| - 1] == w;
    } else {
      assert s[|s| - 1] == kept[|kept| - 1];
      Assoc(w, [POINT], kept);
    }
  }

  lemma {:induction false} PointFormCanonical(negative: bool, w: Bytes, f: Bytes)
    requires w != [] && AllDigits(w) && AllDigits(f) && AllDigits(w + f)
    requires w == [ZERO] || w[0] != ZERO
    requires Nat(w + f) != 0
    ensures IsCanonical(PointForm(negative, w, f))
  {
    var m := PointForm(negative, w, f);
    TrimmedCoefficient(w, f);
    assert Behind(m.fraction) == TrimRightZeros(f);
    assert WellFormed(m);
    assert Coefficient(m) != 0;
  }

  lemma {:induction false} PointFormDenotes(negative: bool, w: Bytes, f: Bytes)
    requires AllDigits(w) && AllDigits(f) && AllDigits(w + f)
    requires WellFormed(PointForm(negative, w, f))
    ensures Magnitude(PointForm(negative, w, f)) == Scaled(Nat(w + f), -|f|)
  {
    var m := PointForm(negative, w, f);
    var kept := TrimRightZeros(f);
    TrimmedCoefficient(w, f);
    assert Behind(m.fraction) == kept;
    MagnitudeOfCoefficient(m);
    ShiftScale(Nat(w + kept), |f| - |kept|, -|kept|);
  }

  lemma {:induction false} TrimmedCoefficient(w: Bytes, f: Bytes)
    requires AllDigits(w) && AllDigits(f) && AllDigits(w + f)
    ensures var kept := TrimRightZeros(f);
            AllDigits(kept) && AllDigits(w + kept) && Nat(w + f) == Nat(w + kept) * Ten(|f| - |kept|)
  {
    var kept := TrimRightZeros(f);
    var dropped := |f| - |kept|;
    TrimRightKeepsValue(f);
    NatAppend(w, f);
    NatAppend(w, kept);
    TenAdd(|kept|, dropped);
    FactorOut(Nat(w), Ten(|kept|), Nat(kept), Ten(dropped));
  }

  lemma {:induction false} FactorOut(w: nat, t: nat, k: nat, d: nat)
    ensures w * (t * d) + k * d == (w * t + k) * d
  {
  }

  lemma {:induction false} IntegerFormDenotes(negative: bool, w: Bytes)
    requires w != [] && AllDigits(w) && w[0] != ZERO
    ensures var m := Numeral(SignFor(negative), w, None, None);
            IsCanonical(m) && Magnitude(m) == Nat(w) as real && Render(m) == Signed(negative, w)
  {
    var m := Numeral(SignFor(negative), w, None, None);
    NatAtLeast(w);
    assert w + [] == w;
    RenderPlain(m, negative);
    MagnitudeOfCoefficient(m);
  }

  /** Whatever `Expand` prints is a canonical numeral for digits * 10^-scale. */
  lemma {:induction false} ExpandDenotes(negative: bool, digits: Bytes, scale: int) returns (m: Numeral)
    requires AllDigits(digits) && (digits != [] ==> digits[0] != ZERO)
    requires Expand(negative, digits, scale).Some?
    ensures IsCanonical(m) && Render(m) == Expand(negative, digits, scale).value
    ensures Magnitude(m) == Scaled(Nat(digits), -scale)
    ensures m.sign == SignFor(negative && digits != [])
  {
    if digits == [] {
      m := Numeral(None, [ZERO], None, None);
      ZeroNumeral();
      ScaledZero(-scale);
    } else if scale <= 0 {
      m := ExpandInteger(negative, digits, scale);
    } else if scale >= |digits| {
      m := ExpandSmall(negative, digits, scale);
    } else {
      m := ExpandMiddle(negative, digits, scale);
    }
  }

  lemma {:induction false} ExpandInteger(negative: bool, digits: Bytes, scale: int) returns (m: Numeral)
    requires digits != [] && AllDigits(digits) && digits[0] != ZERO && scale <= 0
    ensures IsCanonical(m) && Render(m) == Signed(negative, digits + Zeros(-scale)) && m.sign == SignFor(negative)
    ensures Magnitude(m) == Scaled(Nat(digits), -scale)
  {
    var w := digits + Zeros(-scale);
    m := Numeral(SignFor(negative), w, None, None);
    NatAppend(digits, Zeros(-scale));
    NatOfZeros(-scale);
    IntegerFormDenotes(negative, w);
    ShiftScale(Nat(digits), -scale, -scale);
  }

  lemma {:induction false} ExpandSmall(negative: bool, digits: Bytes, scale: int) returns (m: Numeral)
    requires digits != [] && AllDigits(digits) && digits[0] != ZERO && scale >= |digits|
    ensures IsCanonical(m) && m.sign == SignFor(negative)
    ensures Render(m) == Signed(negative,
            TrimSuffixPoint(TrimRightZeros([ZERO] + [POINT] + (Zeros(scale - |digits|) + digits))))
    ensures Magnitude(m) == Scaled(Nat(digits), -scale)
  {
    var f := Zeros(scale - |digits|) + digits;
    m := PointForm(negative, [ZERO], f);
    SmallForm(digits, scale);
    PointFormCanonical(negative, [ZERO], f);
    PointFormDenotes(negative, [ZERO], f);
    PointFormRender(negative, [ZERO], f);
  }

  lemma {:induction false} ExpandMiddle(negative: bool, digits: Bytes, scale: int) returns (m: Numeral)
    requires AllDigits(digits) && 0 < scale < |digits| && digits[0] != ZERO
    ensures var p := |digits| - scale;
            Render(m) == Signed(negative, TrimSuffixPoint(TrimRightZeros(digits[..p] + [POINT] + digits[p..])))
    ensures IsCanonical(m) && m.sign == SignFor(negative)
    ensures Magnitude(m) == Scaled(Nat(digits), -scale)
  {
    var p := |digits| - scale;
    assert digits == digits[..p] + digits[p..];
    DigitsConcat(digits[..p], digits[p..]);
    NatAtLeast(digits);
    PointFormRender(negative, digits[..p], digits[p..]);
    PointFormCanonical(negative, digits[..p], digits[p..]);
    PointFormDenotes(negative, digits[..p], digits[p..]);
    m := PointForm(negative, digits[..p], digits[p..]);
  }

  lemma {:induction false} ZeroNumeral()
    ensures var m := Numeral(None, [ZERO], None, None);
            IsCanonical(m) && Render(m) == [ZERO] && Magnitude(m) == 0.0
  {
    var m := Numeral(None, [ZERO], None, None);
    assert [ZERO][..0] == [];
    assert Nat([ZERO]) == 0;
    assert [ZERO] + [] == [ZERO];
    MagnitudeOfCoefficient(m);
  }

  lemma {:induction false} SmallForm(digits: Bytes, scale: nat)
    requires digits != [] && AllDigits(digits) && digits[0] != ZERO && scale >= |digits|
    ensures var f := Zeros(scale - |digits|) + digits;
            |f| == scale && AllDigits(f) && AllDigits([ZERO] + f) && Nat([ZERO] + f) == Nat(digits) != 0
  {
    var f := Zeros(scale - |digits|) + digits;
    NatAtLeast(digits);
    ZerosInFront(scale - |digits|, digits);
    assert [ZERO] == Zeros(1) by { assert Zeros(0) == []; }
    ZerosInFront(1, f);
  }

  lemma {:induction false} NormalizeDenotes(n: Numeral) returns (m: Numeral)
    requires WellFormed(n) && Normalize(n).Some?
    ensures IsCanonical(m) && Render(m) == Normalize(n).value && Value(m) == Value(n)
  {
    ReducedMagnitude(n);
    m := DenotesSame(n, Reduced(n).0, Reduced(n).1);
  }

  lemma {:induction false} DenotesSame(n: Numeral, digits: Bytes, scale: int) returns (m: Numeral)
    requires AllDigits(digits) && (digits != [] ==> digits[0] != ZERO)
    requires Expand(n.sign == Some(MINUS), digits, scale).Some?
    requires WellFormed(n) && Magnitude(n) == Scaled(Nat(digits), -scale) && (digits == [] ==> Magnitude(n) == 0.0)
    ensures IsCanonical(m) && Render(m) == Expand(n.sign == Some(MINUS), digits, scale).value && Value(m) == Value(n)
  {
    m := ExpandDenotes(n.sign == Some(MINUS), digits, scale);
    SameValue(m, n);
  }

  lemma {:induction false} ReducedMagnitude(n: Numeral)
    requires WellFormed(n)
    ensures Magnitude(n) == Scaled(Nat(Reduced(n).0), -Reduced(n).1) && (Reduced(n).0 == [] ==> Magnitude(n) == 0.0)
  {
    DigitsConcat(n.whole, Behind(n.fraction));
    TrimLeftKeepsValue(n.whole + Behind(n.fraction));
    MagnitudeOfCoefficient(n);
    ScaledZero(-Reduced(n).1);
  }

  lemma {:induction false} SameValue(m: Numeral, n: Numeral)
    requires WellFormed(m) && WellFormed(n) && Magnitude(m) == Magnitude(n)
    requires (m.sign == Some(MINUS)) == (n.sign == Some(MINUS)) || Magnitude(n) == 0.0
    ensures Value(m) == Value(n)
  {
  }

  /** The output denotes exactly the number the input denotes. */
  lemma {:induction false} CanonicalPreservesValue(text: Bytes)
    requires Canonical(text).Some?
    ensures Split(text).Some? && Split(Canonical(text).value).Some?
    ensures IsCanonical(Split(Canonical(text).value).value)
    ensures Value(Split(Canonical(text).value).value) == Value(Split(text).value)
  {
    var m := NormalizeDenotes(Split(text).value);
    SplitComplete(m);
  }

  // ---------- the output is the only canonical name ----------

  lemma {:induction false} LastDigit(m: Numeral)
    requires IsCanonical(m) && m.fraction.Some?
    ensures Coefficient(m) % 10 != 0
  {
    var f := m.fraction.value;
    var all := m.whole + f;
    DigitsConcat(m.whole, f);
    assert all[|all| - 1] == f[|f| - 1];
  }

  lemma {:induction false} ScaleUnique(c1: nat, k1: nat, c2: nat, k2: nat)
    requires Scaled(c1, -(k1 as int)) == Scaled(c2, -(k2 as int)) && k1 <= k2
    requires k2 > 0 ==> c2 % 10 != 0
    ensures k1 == k2 && c1 == c2
  {
    var d := k2 - k1;
    ShiftScale(c1, d, -(k1 as int));
    ScaledOrder(c1 * Ten(d), c2, -(k2 as int));
    ScaledOrder(c2, c1 * Ten(d), -(k2 as int));
    if d > 0 { MultipleOfTen(c1, d); }
  }

  lemma {:induction false} MultipleOfTen(c: nat, d: nat)
    requires d > 0
    ensures (c * Ten(d)) % 10 == 0
  {
    assert c * Ten(d) == 10 * (c * Ten(d - 1));
  }

  lemma {:induction false} SameMagnitude(m1: Numeral, m2: Numeral)
    requires IsCanonical(m1) && IsCanonical(m2) && Magnitude(m1) == Magnitude(m2)
    ensures |Behind(m1.fraction)| == |Behind(m2.fraction)| && Coefficient(m1) == Coefficient(m2)
  {
    MagnitudeOfCoefficient(m1);
    MagnitudeOfCoefficient(m2);
    if m1.fraction.Some? { LastDigit(m1); }
    if m2.fraction.Some? { LastDigit(m2); }
    var k1, k2 := |Behind(m1.fraction)|, |Behind(m2.fraction)|;
    if k1 <= k2 {
      ScaleUnique(Coefficient(m1), k1, Coefficient(m2), k2);
    } else {
      ScaleUnique(Coefficient(m2), k2, Coefficient(m1), k1);
    }
  }

  lemma {:induction false} SameDigits(w1: Bytes, f1: Bytes, w2: Bytes, f2: Bytes)
    requires AllDigits(w1) && AllDigits(f1) && AllDigits(w2) && AllDigits(f2)
    requires AllDigits(w1 + f1) && AllDigits(w2 + f2) && |f1| == |f2| && Nat(w1 + f1) == Nat(w2 + f2)
    requires w1 != [] && w2 != [] && (w1 == [ZERO] || w1[0] != ZERO) && (w2 == [ZERO] || w2[0] != ZERO)
    ensures w1 == w2 && f1 == f2
  {
    NatAppend(w1, f1);
    NatAppend(w2, f2);
    NatBelowTen(f1);
    NatBelowTen(f2);
    Euclid.QuotientUnique(Nat(w1), Nat(f1), Nat(w2), Nat(f2), Ten(|f1|));
    SameLengthInjective(f1, f2);
    SameWhole(w1, w2);
  }

  lemma {:induction false} SameWhole(w1: Bytes, w2: Bytes)
    requires AllDigits(w1) && AllDigits(w2) && Nat(w1) == Nat(w2)
    requires w1 != [] && w2 != [] && (w1 == [ZERO] || w1[0] != ZERO) && (w2 == [ZERO] || w2[0] != ZERO)
    ensures w1 == w2
  {
    assert [ZERO][..0] == [];
    assert Nat([ZERO]) == 0;
    if w1[0] != ZERO { NatAtLeast(w1); }
    if w2[0] != ZERO { NatAtLeast(w2); }
    if w1[0] != ZERO && w2[0] != ZERO { NoLeadingZeroInjective(w1, w2); }
  }

  lemma {:induction false} CanonicalUnique(m1: Numeral, m2: Numeral)
    requires IsCanonical(m1) && IsCanonical(m2) && Value(m1) == Value(m2)
    ensures m1 == m2
  {
    SignUnique(m1);
    SignUnique(m2);
    SameMagnitude(m1, m2);
    SameDigits(m1.whole, Behind(m1.fraction), m2.whole, Behind(m2.fraction));
  }

  lemma {:induction false} SignUnique(m: Numeral)
    requires IsCanonical(m)
    ensures Magnitude(m) >= 0.0
    ensures m.sign.Some? <==> Value(m) < 0.0
  {
    MagnitudeOfCoefficient(m);
    ScaledZero(-|Behind(m.fraction)|);
    ScaledOrder(0, Coefficient(m), -|Behind(m.fraction)|);
    ScaledOrder(Coefficient(m), 0, -|Behind(m.fraction)|);
  }

  /** Two accepted texts get the same output exactly when they denote the same number. */
  lemma {:induction false} SameOutputIffSameNumber(t1: Bytes, t2: Bytes)
    requires Canonical(t1).Some? && Canonical(t2).Some?
    ensures Canonical(t1) == Canonical(t2) <==> Value(Split(t1).value) == Value(Split(t2).value)
  {
    CanonicalPreservesValue(t1);
    CanonicalPreservesValue(t2);
    var r1, r2 := Canonical(t1).value, Canonical(t2).value;
    if Value(Split(t1).value) == Value(Split(t2).value) {
      CanonicalUnique(Split(r1).value, Split(r2).value);
      PartsSound(r1);
      PartsSound(r2);
    }
  }

  // ---------- acceptance, size and fixed points ----------

  predicate Expandable(n: Numeral)
    requires WellFormed(n)
  {
    DigitsConcat(n.whole, Behind(n.fraction));
    var digits := |TrimLeftZeros(n.whole + Behind(n.fraction))|;
    var scale := |Behind(n.fraction)| - ExponentValue(n.exponent);
    digits == 0 || ((scale <= 0 ==> digits - scale <= MAX_BYTES) && (scale >= digits ==> scale <= MAX_BYTES))
  }

  lemma {:induction false} NormalizesExactly(n: Numeral)
    requires WellFormed(n)
    ensures Normalize(n).Some? <==> Expandable(n)
  {
    DigitsConcat(n.whole, Behind(n.fraction));
  }

  lemma {:induction false} CanonicalOfRender(n: Numeral)
    requires WellFormed(n)
    ensures Canonical(Render(n)) == if |Render(n)| > MAX_BYTES then None else Normalize(n)
  {
    SplitComplete(n);
    EndBytes(n, Render(n));
  }

  /** Accepted texts are exactly the numerals of bounded size whose expansion is bounded. */
  lemma {:induction false} AcceptedExactly(text: Bytes)
    ensures Canonical(text).Some? <==>
            |text| <= MAX_BYTES && exists n :: WellFormed(n) && Render(n) == text && Expandable(n)
  {
    if Canonical(text).Some? {
      PartsSound(text);
      NormalizesExactly(Split(text).value);
      assert Render(Split(text).value) == text;
    }
    if n :| WellFormed(n) && Render(n) == text && Expandable(n) {
      CanonicalOfRender(n);
      NormalizesExactly(n);
    }
  }

  lemma {:induction false} FixedPoint(m: Numeral)
    requires IsCanonical(m) && |Render(m)| <= MAX_BYTES
    ensures Canonical(Render(m)) == Some(Render(m))
  {
    CanonicalOfRender(m);
    FitsAsWritten(m);
    NormalizesExactly(m);
    var m2 := NormalizeDenotes(m);
    CanonicalUnique(m, m2);
  }

  lemma {:induction false} FitsAsWritten(m: Numeral)
    requires IsCanonical(m) && |Render(m)| <= MAX_BYTES
    ensures Expandable(m)
  {
    RenderPlain(m, m.sign.Some?);
    assert |m.whole| + |Behind(m.fraction)| <= |Mantissa(m)| <= |Render(m)|;
    DigitsConcat(m.whole, Behind(m.fraction));
  }

  /** An output is a fixed point exactly when it respects the input size limit itself. */
  lemma {:induction false} FixedPointExactly(text: Bytes)
    requires Canonical(text).Some?
    ensures var r := Canonical(text).value;
            Canonical(r) == Some(r) <==> |r| <= MAX_BYTES
  {
    var r := Canonical(text).value;
    CanonicalPreservesValue(text);
    PartsSound(r);
    if |r| <= MAX_BYTES { FixedPoint(Split(r).value); }
  }

  /** The length of the output, computed from the sign, the significant digits and the scale. */
  function OutputLength(negative: bool, digits: Bytes, scale: int): int {
    var sign := if negative then 1 else 0;
    if digits == [] then 1
    else if scale <= 0 then sign + |digits| - scale
    else if scale >= |digits| then sign + 2 + scale - (|digits| - |TrimRightZeros(digits)|)
    else
      var position := |digits| - scale;
      var kept := |TrimRightZeros(digits[position..])|;
      sign + position + if kept == 0 then 0 else 1 + kept
  }

  lemma {:induction false} TrimmedLength(w: Bytes, f: Bytes)
    requires AllDigits(f)
    ensures var kept := |TrimRightZeros(f)|;
            |TrimSuffixPoint(TrimRightZeros(w + [POINT] + f))| == |w| + if kept == 0 then 0 else 1 + kept
  {
    TrimRightAfterPoint(w, POINT, f);
    KeptDigits(f);
    WithoutBarePoint(w, TrimRightZeros(f));
  }

  /** Zeros in front of a number that is not zero do not change what is trimmed behind it. */
  lemma {:induction false} TrimBehind(front: Bytes, d: Bytes)
    requires d != [] && TrimRightZeros(d) != []
    ensures TrimRightZeros(front + d) == front + TrimRightZeros(d)
  {
    var n := |d| - 1;
    if d[n] == ZERO {
      assert (front + d)[..|front| + n] == front + d[..n];
      TrimBehind(front, d[..n]);
    }
  }

  lemma {:induction false} NotAllZeros(d: Bytes)
    requires d != [] && d[0] != ZERO
    ensures TrimRightZeros(d) != []
  {
    if |d| > 1 { NotAllZeros(d[..|d| - 1]); }
  }

  lemma {:induction false} OutputLengthIs(negative: bool, digits: Bytes, scale: int)
    requires AllDigits(digits) && (digits != [] ==> digits[0] != ZERO) && Expand(negative, digits, scale).Some?
    ensures |Expand(negative, digits, scale).value| == OutputLength(negative, digits, scale)
  {
    if digits != [] && scale > 0 {
      if scale >= |digits| {
        SmallLength(digits, scale);
      } else {
        TrimmedLength(digits[..|digits| - scale], digits[|digits| - scale..]);
      }
    }
  }

  lemma {:induction false} SmallLength(digits: Bytes, scale: nat)
    requires AllDigits(digits) && digits != [] && digits[0] != ZERO && scale >= |digits|
    ensures |TrimSuffixPoint(TrimRightZeros([ZERO] + [POINT] + (Zeros(scale - |digits|) + digits)))|
            == 2 + scale - (|digits| - |TrimRightZeros(digits)|)
  {
    var zeros := Zeros(scale - |digits|);
    DigitsConcat(zeros, digits);
    TrimmedLength([ZERO], zeros + digits);
    NotAllZeros(digits);
    TrimBehind(zeros, digits);
  }

  /** Idempotence decided on the input: normalising twice succeeds exactly when the length that sign,
      significant digits and scale of the input give is within the limit. */
  lemma {:induction false} IdempotentExactly(text: Bytes)
    requires Canonical(text).Some?
    ensures Split(text).Some?
    ensures var n := Split(text).value;
            Canonical(Canonical(text).value) == Canonical(text) <==>
            OutputLength(n.sign == Some(MINUS), Reduced(n).0, Reduced(n).1) <= MAX_BYTES
  {
    var n := Split(text).value;
    FixedPointExactly(text);
    OutputLengthIs(n.sign == Some(MINUS), Reduced(n).0, Reduced(n).1);
  }

  /** The limit does bite: 1e-1048576 is accepted and its own output is not. */
  lemma {:induction false} OversizedOutput()
    ensures var n := Numeral(None, ['1' as int], None, Some(('e' as int, FormatInt(-1048576))));
            && WellFormed(n) && Canonical(Render(n)).Some?
            && |Canonical(Render(n)).value| == MAX_BYTES + 2
            && Canonical(Canonical(Render(n)).value) == None
  {
    var n := Numeral(None, ['1' as int], None, Some(('e' as int, FormatInt(-1048576))));
    NegativeExponent(1048576);
    ItoaLength(1048576, 7);
    CanonicalOfRender(n);
    TinyExpansion(n);
  }

  lemma {:induction false} NegativeExponent(size: nat)
    requires 0 < size <= MAX_BYTES
    ensures ExponentOk(Some(('e' as int, FormatInt(0 - size))))
            && ExponentValue(Some(('e' as int, FormatInt(0 - size)))) == 0 - size
  {
    var text := FormatInt(0 - size);
    ItoaValue(size);
    assert text[1..] == Itoa(size);
  }

  lemma {:induction false} TinyExpansion(n: Numeral)
    requires WellFormed(n) && n.sign.None? && n.whole == ['1' as int] && n.fraction.None?
    requires ExponentValue(n.exponent) == -MAX_BYTES
    ensures Normalize(n).Some? && |Normalize(n).value| == MAX_BYTES + 2
  {
    var one := ['1' as int];
    assert n.whole + Behind(n.fraction) == one;
    assert Reduced(n) == (one, MAX_BYTES);
    OutputLengthIs(false, one, MAX_BYTES);
  }
}
