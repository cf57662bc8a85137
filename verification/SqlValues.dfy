/** What counts as a canonical value of a SQL type (evaluation/finalv5oracle/facts.go,
    validateOracleCanonicalValue). Integers, numerics, booleans, byte strings, times of day, texts and
    jsonb are decided here; floats, dates, timestamps and UUIDs are left to a parameter. */
module SqlValues {
  import opened GoBytes
  import opened Numerals
  import opened Euclid
  import Decimal
  import opened Facts
  import Printers

  const MINUS: byte := '-' as int
  const SLASH: byte := '/' as int

  // ---------- canonical integers ----------

  /** big.Int.SetString(text, 10) followed by the comparison with String(): no plus sign, no leading
      zero, no negative zero. */
  function ParseCanonicalInt(text: Bytes): Option<int> {
    if text == [] then None
    else if text[0] == MINUS then
      if |text| > 1 && AllDigits(text[1..]) && text[1] != ZERO then Some(0 - Nat(text[1..])) else None
    else if AllDigits(text) && (|text| == 1 || text[0] != ZERO) then Some(Nat(text))
    else None
  }

  lemma {:induction false} ParseFormat(n: int)
    ensures ParseCanonicalInt(FormatInt(n)) == Some(n)
  {
    var text := FormatInt(n);
    ItoaValue(if n < 0 then -n else n);
    if n < 0 {
      assert text[1..] == Itoa(-n) && text[1] == Itoa(-n)[0];
    }
  }

  lemma {:induction false} FormatParse(text: Bytes)
    ensures ParseCanonicalInt(text).Some? ==> FormatInt(ParseCanonicalInt(text).value) == text
  {
    match ParseCanonicalInt(text)
    case None =>
    case Some(n) =>
      var digits := if text[0] == MINUS then text[1..] else text;
      CanonicalDigits(digits);
      if text[0] == MINUS {
        NatAtLeast(digits);
        assert text == [MINUS] + digits;
      }
  }

  /** Digits without a superfluous zero are what Itoa prints. */
  lemma {:induction false} CanonicalDigits(digits: Bytes)
    requires digits != [] && AllDigits(digits) && (|digits| == 1 || digits[0] != ZERO)
    ensures Itoa(Nat(digits)) == digits
  {
    ItoaValue(Nat(digits));
    if digits[0] == ZERO {
      assert digits == [ZERO] && digits[..0] == [];
      assert Nat(digits) == 0;
    } else {
      NatAtLeast(digits);
      NoLeadingZeroInjective(Itoa(Nat(digits)), digits);
    }
  }

  predicate HasPrefix(value: Bytes, prefix: Bytes) {
    |prefix| <= |value| && value[..|prefix|] == prefix
  }

  /** strings.TrimPrefix of a prefix that is there. */
  function After(value: Bytes, prefix: Bytes): Bytes
    requires HasPrefix(value, prefix)
  {
    value[|prefix|..]
  }

  lemma {:induction false} AfterPrefix(prefix: Bytes, text: Bytes)
    ensures HasPrefix(prefix + text, prefix) && After(prefix + text, prefix) == text
  {
  }

  lemma {:induction false} PrefixRestored(value: Bytes, prefix: Bytes)
    requires HasPrefix(value, prefix)
    ensures value == prefix + After(value, prefix)
  {
  }

  predicate IntegerIn(text: Bytes, low: int, high: int) {
    match ParseCanonicalInt(text)
    case Some(n) => low <= n <= high
    case None => false
  }

  predicate IntegerRule(value: Bytes, bound: nat) {
    HasPrefix(value, Ascii("i:")) && IntegerIn(After(value, Ascii("i:")), 0 - bound, bound - 1)
  }

  /** Accepted are exactly the decimal spellings of the integers in range. */
  lemma {:induction false} IntegerExactly(value: Bytes, bound: nat)
    ensures IntegerRule(value, bound) <==> exists n :: 0 - bound <= n < bound && value == Ascii("i:") + FormatInt(n)
  {
    if IntegerRule(value, bound) {
      var text := After(value, Ascii("i:"));
      PrefixRestored(value, Ascii("i:"));
      FormatParse(text);
      assert value == Ascii("i:") + FormatInt(ParseCanonicalInt(text).value);
    }
    if n :| 0 - bound <= n < bound && value == Ascii("i:") + FormatInt(n) {
      AfterPrefix(Ascii("i:"), FormatInt(n));
      ParseFormat(n);
    }
  }

  // ---------- reduced rationals ----------

  /** big.Rat.SetString followed by the comparison with RatString(): an integer, or a fraction in lowest
      terms with a denominator above one. */
  predicate CanonicalRational(text: Bytes) {
    var slash := Decimal.IndexAny(text, [SLASH]);
    if slash < 0 then ParseCanonicalInt(text).Some?
    else
      match (ParseCanonicalInt(text[..slash]), ParseCanonicalInt(text[slash + 1..]))
      case (Some(p), Some(q)) => q >= 2 && Gcd(p, q) == 1
      case _ => false
  }

  lemma {:induction false} NoSlash(n: int)
    ensures forall i :: 0 <= i < |FormatInt(n)| ==> FormatInt(n)[i] != SLASH
  {
    var text, digits := FormatInt(n), Itoa(if n < 0 then -n else n);
    forall i | 0 <= i < |text| ensures text[i] != SLASH {
      if n >= 0 { assert IsDigit(digits[i]); } else if i > 0 { assert text[i] == digits[i - 1]; }
    }
  }

  lemma {:induction false} SlashAt(p: int, q: int)
    ensures var text := FormatInt(p) + [SLASH] + FormatInt(q);
            Decimal.IndexAny(text, [SLASH]) == |FormatInt(p)|
  {
    NoSlash(p);
    Decimal.IndexAnyIs(FormatInt(p) + [SLASH] + FormatInt(q), [SLASH], |FormatInt(p)|);
  }

  lemma {:induction false} RationalAccepted(p: int, q: int)
    requires q > 0 && Gcd(p, q) == 1
    ensures CanonicalRational(Printers.RatText(p, q))
  {
    ParseFormat(p);
    ParseFormat(q);
    if q == 1 {
      NoSlash(p);
    } else {
      var text := FormatInt(p) + [SLASH] + FormatInt(q);
      SlashAt(p, q);
      assert text[..|FormatInt(p)|] == FormatInt(p) && text[|FormatInt(p)| + 1..] == FormatInt(q);
    }
  }

  lemma {:induction false} GcdWithOne(p: int)
    ensures Gcd(p, 1) == 1
  {
    GcdDivides(p, 1);
    var k :| 1 == Gcd(p, 1) * k;
    UnitFactor(Gcd(p, 1), k);
  }

  /** Accepted are exactly the texts RatString prints. */
  lemma {:induction false} RationalExactly(text: Bytes)
    ensures CanonicalRational(text) <==> exists p, q :: q > 0 && Gcd(p, q) == 1 && text == Printers.RatText(p, q)
  {
    var slash := Decimal.IndexAny(text, [SLASH]);
    if CanonicalRational(text) {
      if slash < 0 {
        FormatParse(text);
        GcdWithOne(ParseCanonicalInt(text).value);
        assert text == Printers.RatText(ParseCanonicalInt(text).value, 1);
      } else {
        FormatParse(text[..slash]);
        FormatParse(text[slash + 1..]);
        var p, q := ParseCanonicalInt(text[..slash]).value, ParseCanonicalInt(text[slash + 1..]).value;
        assert text == text[..slash] + [SLASH] + text[slash + 1..];
        assert text == Printers.RatText(p, q);
      }
    }
    if p, q :| q > 0 && Gcd(p, q) == 1 && text == Printers.RatText(p, q) { RationalAccepted(p, q); }
  }

  predicate NumericRule(value: Bytes) {
    HasPrefix(value, Ascii("n:")) &&
    var text := After(value, Ascii("n:"));
    text == Ascii("nan") || text == Ascii("+infinity") || text == Ascii("-infinity") || CanonicalRational(text)
  }

  // ---------- the other decided types ----------

  predicate BooleanRule(value: Bytes) {
    value == Ascii("b:true") || value == Ascii("b:false")
  }

  predicate ByteaRule(value: Bytes) {
    HasPrefix(value, Ascii("x:")) &&
    match HexDecode(After(value, Ascii("x:")))
    case Some(d) => HexEncode(d) == After(value, Ascii("x:"))
    case None => false
  }

  /** Exactly the lowercase hexadecimal spellings. */
  lemma {:induction false} ByteaExactly(value: Bytes)
    ensures ByteaRule(value) <==> exists d: Bytes :: value == Ascii("x:") + HexEncode(d)
  {
    if ByteaRule(value) {
      PrefixRestored(value, Ascii("x:"));
      assert value == Ascii("x:") + HexEncode(HexDecode(After(value, Ascii("x:"))).value);
    }
    if d: Bytes :| value == Ascii("x:") + HexEncode(d) {
      AfterPrefix(Ascii("x:"), HexEncode(d));
      HexRoundTrip(d);
    }
  }

  predicate TimeRule(value: Bytes) {
    HasPrefix(value, Ascii("tm:")) && IntegerIn(After(value, Ascii("tm:")), 0, 86_400_000_000)
  }

  predicate JsonRule(value: Bytes) {
    HasPrefix(value, Ascii("j:")) && After(value, Ascii("j:")) != [] && !HasBoundarySpace(After(value, Ascii("j:")))
  }

  /** The validator; `other` decides floats, dates, timestamps and UUIDs. */
  predicate ValueOk(other: ValueCheck, sqlType: Bytes, value: Bytes) {
    || value == Ascii("null")
    || (if sqlType == Ascii("smallint") then IntegerRule(value, 0x8000)
        else if sqlType == Ascii("integer") then IntegerRule(value, 0x8000_0000)
        else if sqlType == Ascii("bigint") then IntegerRule(value, TWO63)
        else if sqlType == Ascii("numeric") then NumericRule(value)
        else if sqlType == Ascii("boolean") then BooleanRule(value)
        else if sqlType == Ascii("bytea") then ByteaRule(value)
        else if sqlType == Ascii("time without time zone") then TimeRule(value)
        else if sqlType == Ascii("text") || sqlType == Ascii("character") || sqlType == Ascii("character varying")
        then HasPrefix(value, Ascii("s:"))
        else if sqlType == Ascii("jsonb") then JsonRule(value)
        else other(sqlType, value))
  }

  // ---------- the accepted texts, type by type ----------

  ghost predicate Spells(value: Bytes, prefix: string, n: int) {
    value == Ascii(prefix) + FormatInt(n)
  }

  ghost predicate SpellsWithin(value: Bytes, prefix: string, low: int, high: int) {
    exists n :: low <= n <= high && Spells(value, prefix, n)
  }

  lemma {:induction false} IntegersAccepted(other: ValueCheck, value: Bytes)
    requires value != Ascii("null")
    ensures ValueOk(other, Ascii("smallint"), value) <==> SpellsWithin(value, "i:", -32768, 32767)
    ensures ValueOk(other, Ascii("integer"), value) <==> SpellsWithin(value, "i:", -2147483648, 2147483647)
    ensures ValueOk(other, Ascii("bigint"), value) <==>
            SpellsWithin(value, "i:", -9223372036854775808, 9223372036854775807)
  {
    TypeNames();
    IntegerSpelled(value, 0x8000);
    IntegerSpelled(value, 0x8000_0000);
    IntegerSpelled(value, TWO63);
  }

  lemma {:induction false} IntegerSpelled(value: Bytes, bound: nat)
    ensures IntegerRule(value, bound) <==> SpellsWithin(value, "i:", 0 - bound, bound - 1)
  {
    IntegerExactly(value, bound);
    if IntegerRule(value, bound) {
      var n :| 0 - bound <= n < bound && value == Ascii("i:") + FormatInt(n);
      assert Spells(value, "i:", n);
    }
    if n :| 0 - bound <= n <= bound - 1 && Spells(value, "i:", n) {
      assert value == Ascii("i:") + FormatInt(n);
    }
  }

  /** A time of day is a number of microseconds since midnight, the end of the day included. */
  lemma {:induction false} TimesAccepted(other: ValueCheck, value: Bytes)
    requires value != Ascii("null")
    ensures ValueOk(other, Ascii("time without time zone"), value) <==>
            SpellsWithin(value, "tm:", 0, 24 * 60 * 60 * 1_000_000)
  {
    LongTypeNames();
    if TimeRule(value) {
      var text := After(value, Ascii("tm:"));
      PrefixRestored(value, Ascii("tm:"));
      FormatParse(text);
      assert Spells(value, "tm:", ParseCanonicalInt(text).value);
    }
    if n :| 0 <= n <= 24 * 60 * 60 * 1_000_000 && Spells(value, "tm:", n) {
      AfterPrefix(Ascii("tm:"), FormatInt(n));
      ParseFormat(n);
    }
  }

  lemma {:induction false} NumericsAccepted(other: ValueCheck, value: Bytes)
    requires value != Ascii("null")
    ensures ValueOk(other, Ascii("numeric"), value) <==>
            || value == Ascii("n:") + Ascii("nan") || value == Ascii("n:") + Ascii("+infinity")
            || value == Ascii("n:") + Ascii("-infinity")
            || exists p, q :: q > 0 && Gcd(p, q) == 1 && value == Ascii("n:") + Printers.RatText(p, q)
  {
    TypeNames();
    var prefix := Ascii("n:");
    if HasPrefix(value, prefix) {
      PrefixRestored(value, prefix);
      RationalExactly(After(value, prefix));
      NumericTexts(value, After(value, prefix));
    }
    if p, q :| q > 0 && Gcd(p, q) == 1 && value == prefix + Printers.RatText(p, q) {
      AfterPrefix(prefix, Printers.RatText(p, q));
    }
  }

  lemma {:induction false} NumericTexts(value: Bytes, text: Bytes)
    requires value == Ascii("n:") + text
    ensures forall t: Bytes :: value == Ascii("n:") + t <==> text == t
  {
    forall t: Bytes ensures value == Ascii("n:") + t <==> text == t {
      AfterPrefix(Ascii("n:"), t);
      AfterPrefix(Ascii("n:"), text);
    }
  }

  lemma {:induction false} TextsAccepted(other: ValueCheck, sqlType: Bytes, value: Bytes)
    requires value != Ascii("null") && Collatable(sqlType)
    ensures ValueOk(other, sqlType, value) <==> exists t :: value == Ascii("s:") + t
  {
    LongTypeNames();
    if HasPrefix(value, Ascii("s:")) { PrefixRestored(value, Ascii("s:")); }
    if t :| value == Ascii("s:") + t { AfterPrefix(Ascii("s:"), t); }
  }

  lemma {:induction false} OthersAccepted(other: ValueCheck, value: Bytes)
    requires value != Ascii("null")
    ensures ValueOk(other, Ascii("boolean"), value) <==> value == Ascii("b:true") || value == Ascii("b:false")
    ensures ValueOk(other, Ascii("bytea"), value) <==> exists d: Bytes :: value == Ascii("x:") + HexEncode(d)
    ensures ValueOk(other, Ascii("jsonb"), value) <==>
            exists t :: value == Ascii("j:") + t && t != [] && !HasBoundarySpace(t)
  {
    LongTypeNames();
    ByteaExactly(value);
    if JsonRule(value) { PrefixRestored(value, Ascii("j:")); }
    if t :| value == Ascii("j:") + t && t != [] && !HasBoundarySpace(t) { AfterPrefix(Ascii("j:"), t); }
  }

  /** Names of one length differ in their first byte. */
  lemma {:induction false} LongTypeNames()
    ensures |Ascii("smallint")| == 8 && |Ascii("integer")| == |Ascii("numeric")| == |Ascii("boolean")| == 7
    ensures |Ascii("bigint")| == 6 && |Ascii("bytea")| == |Ascii("jsonb")| == 5 && |Ascii("text")| == 4
    ensures |Ascii("time without time zone")| == 22 && |Ascii("character")| == 9 && |Ascii("character varying")| == 17
    ensures Ascii("integer")[0] == 'i' as int && Ascii("numeric")[0] == 'n' as int && Ascii("boolean")[0] == 'b' as int
    ensures Ascii("bytea")[0] == 'b' as int && Ascii("jsonb")[0] == 'j' as int
  {
  }

  function ValueRules(other: ValueCheck): ValueCheck {
    (sqlType, value) => ValueOk(other, sqlType, value)
  }

  lemma {:induction false} BigintAccepted(other: ValueCheck, n: int64)
    ensures ValueRules(other)(Ascii("bigint"), Ascii("i:") + FormatInt(n))
  {
    IntegerExactly(Ascii("i:") + FormatInt(n), TWO63);
    TypeNames();
  }

  lemma {:induction false} IntegerAccepted(other: ValueCheck, n: int)
    requires -0x8000_0000 <= n < 0x8000_0000
    ensures ValueRules(other)(Ascii("integer"), Ascii("i:") + FormatInt(n))
  {
    IntegerExactly(Ascii("i:") + FormatInt(n), 0x8000_0000);
    TypeNames();
  }

  lemma {:induction false} NumericAccepted(other: ValueCheck, p: int, q: int)
    requires q > 0 && Gcd(p, q) == 1
    ensures ValueRules(other)(Ascii("numeric"), Ascii("n:") + Printers.RatText(p, q))
  {
    AfterPrefix(Ascii("n:"), Printers.RatText(p, q));
    RationalAccepted(p, q);
    TypeNames();
  }

  lemma {:induction false} TypeNames()
    ensures Ascii("bigint") != Ascii("smallint") && Ascii("bigint") != Ascii("integer")
    ensures Ascii("integer") != Ascii("smallint") && Ascii("numeric") != Ascii("smallint")
    ensures Ascii("numeric") != Ascii("integer") && Ascii("numeric") != Ascii("bigint")
  {
    assert |Ascii("bigint")| == 6 && |Ascii("smallint")| == 8 && |Ascii("integer")| == 7 && |Ascii("numeric")| == 7;
    assert Ascii("integer")[0] == 'i' as int && Ascii("numeric")[0] == 'n' as int;
  }
}
