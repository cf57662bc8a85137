/** Decimal digit strings, their values, and the integer printers of strconv. */
module Numerals {
  import opened GoBytes

  const ZERO: byte := '0' as int

  predicate IsDigit(b: byte) {
    '0' as int <= b <= '9' as int
  }

  predicate AllDigits(s: Bytes) {
    forall i :: 0 <= i < |s| ==> IsDigit(s[i])
  }

  function Ten(n: nat): (p: nat)
    ensures p >= 1
  {
    if n == 0 then 1 else 10 * Ten(n - 1)
  }

  /** The number a digit string denotes. */
  function Nat(s: Bytes): nat
    requires AllDigits(s)
  {
    if s == [] then 0 else Nat(s[..|s| - 1]) * 10 + (s[|s| - 1] - ZERO)
  }

  function Zeros(n: nat): (s: Bytes)
    ensures |s| == n && AllDigits(s) && forall i :: 0 <= i < n ==> s[i] == ZERO
  {
    if n == 0 then [] else Zeros(n - 1) + [ZERO]
  }

  lemma {:induction false} TenAdd(a: nat, b: nat)
    ensures Ten(a + b) == Ten(a) * Ten(b)
  {
    if a > 0 { TenAdd(a - 1, b); }
  }

  lemma {:induction false} DigitsConcat(a: Bytes, b: Bytes)
    ensures AllDigits(a + b) <==> AllDigits(a) && AllDigits(b)
  {
    if AllDigits(a + b) {
      forall i | 0 <= i < |a| ensures IsDigit(a[i]) { assert (a + b)[i] == a[i]; }
      forall i | 0 <= i < |b| ensures IsDigit(b[i]) { assert (a + b)[|a| + i] == b[i]; }
    }
  }

  lemma {:induction false} NatSnoc(s: Bytes, d: byte)
    requires AllDigits(s) && IsDigit(d)
    ensures AllDigits(s + [d]) && Nat(s + [d]) == Nat(s) * 10 + (d - ZERO)
  {
    assert (s + [d])[..|s|] == s;
  }

  lemma {:induction false} NatAppend(a: Bytes, b: Bytes)
    requires AllDigits(a) && AllDigits(b)
    ensures AllDigits(a + b) && Nat(a + b) == Nat(a) * Ten(|b|) + Nat(b)
  {
    if b == [] {
      assert a + b == a;
    } else {
      var b', d := b[..|b| - 1], b[|b| - 1];
      NatAppend(a, b');
      assert a + b == (a + b') + [d];
      NatSnoc(a + b', d);
      Distribute(Nat(a), Ten(|b'|), Nat(b'));
    }
  }

  lemma {:induction false} Distribute(x: int, y: int, z: int)
    ensures (x * y + z) * 10 == x * (10 * y) + z * 10
  {
  }

  lemma {:induction false} NatOfZeros(n: nat)
    ensures Nat(Zeros(n)) == 0
  {
    if n > 0 {
      NatOfZeros(n - 1);
      NatSnoc(Zeros(n - 1), ZERO);
    }
  }

  lemma {:induction false} NatBelowTen(s: Bytes)
    requires AllDigits(s)
    ensures Nat(s) < Ten(|s|)
  {
    if s != [] { NatBelowTen(s[..|s| - 1]); }
  }

  lemma {:induction false} NatAtLeast(s: Bytes)
    requires AllDigits(s) && s != [] && s[0] != ZERO
    ensures Nat(s) >= Ten(|s| - 1)
  {
    assert s == [s[0]] + s[1..];
    NatAppend([s[0]], s[1..]);
    assert [s[0]][..0] == [];
    assert Nat([s[0]]) == s[0] - ZERO;
    Scale(s[0] - ZERO, Ten(|s| - 1));
  }

  lemma {:induction false} Scale(k: int, t: nat)
    requires k >= 1
    ensures k * t >= t
  {
  }

  lemma {:induction false} SameLengthInjective(a: Bytes, b: Bytes)
    requires AllDigits(a) && AllDigits(b) && |a| == |b| && Nat(a) == Nat(b)
    ensures a == b
  {
    if a != [] {
      SameLengthInjective(a[..|a| - 1], b[..|b| - 1]);
      assert a == a[..|a| - 1] + [a[|a| - 1]] && b == b[..|b| - 1] + [b[|b| - 1]];
    }
  }

  lemma {:induction false} TenMonotone(a: nat, b: nat)
    requires a <= b
    ensures Ten(a) <= Ten(b)
  {
    if a < b { TenMonotone(a, b - 1); }
  }

  /** A digit string without a leading zero is determined by its value. */
  lemma {:induction false} NoLeadingZeroInjective(a: Bytes, b: Bytes)
    requires AllDigits(a) && AllDigits(b) && a != [] && b != [] && a[0] != ZERO && b[0] != ZERO
    requires Nat(a) == Nat(b)
    ensures a == b
  {
    if |a| < |b| { TenMonotone(|a|, |b| - 1); }
    if |b| < |a| { TenMonotone(|b|, |a| - 1); }
    NatAtLeast(a);
    NatAtLeast(b);
    NatBelowTen(a);
    NatBelowTen(b);
    SameLengthInjective(a, b);
  }

  // ---------- strings.TrimLeft / TrimRight with "0" ----------

  function TrimLeftZeros(s: Bytes): (r: Bytes)
    requires AllDigits(s)
    ensures AllDigits(r) && |r| <= |s| && (r != [] ==> r[0] != ZERO)
  {
    if s != [] && s[0] == ZERO then TrimLeftZeros(s[1..]) else s
  }

  lemma {:induction false} TrimLeftKeepsValue(s: Bytes)
    requires AllDigits(s)
    ensures Nat(TrimLeftZeros(s)) == Nat(s)
  {
    if s != [] && s[0] == ZERO {
      TrimLeftKeepsValue(s[1..]);
      DropZero(s[1..]);
      assert s == [ZERO] + s[1..];
    }
  }

  lemma {:induction false} DropZero(s: Bytes)
    requires AllDigits(s)
    ensures AllDigits([ZERO] + s) && Nat([ZERO] + s) == Nat(s)
  {
    NatAppend([ZERO], s);
    assert [ZERO][..0] == [];
    assert Nat([ZERO]) == 0;
  }

  function TrimRightZeros(s: Bytes): (r: Bytes)
    ensures |r| <= |s| && r == s[..|r|] && (r != [] ==> r[|r| - 1] != ZERO)
  {
    if s != [] && s[|s| - 1] == ZERO then TrimRightZeros(s[..|s| - 1]) else s
  }

  lemma {:induction false} TrimRightKeepsValue(s: Bytes)
    requires AllDigits(s)
    ensures AllDigits(TrimRightZeros(s))
    ensures Nat(s) == Nat(TrimRightZeros(s)) * Ten(|s| - |TrimRightZeros(s)|)
  {
    if s != [] && s[|s| - 1] == ZERO {
      var t := s[..|s| - 1];
      TrimRightKeepsValue(t);
      var r := TrimRightZeros(t);
      var k := |t| - |r|;
      assert Nat(s) == 10 * (Nat(r) * Ten(k));
      Distribute(Nat(r), Ten(k), 0);
    }
  }

  lemma {:induction false} TrimRightAfterPoint(w: Bytes, point: byte, f: Bytes)
    requires point != ZERO
    ensures TrimRightZeros(w + [point] + f) == w + [point] + TrimRightZeros(f)
  {
    var s := w + [point] + f;
    if f != [] && f[|f| - 1] == ZERO {
      assert s[..|s| - 1] == w + [point] + f[..|f| - 1];
      TrimRightAfterPoint(w, point, f[..|f| - 1]);
    }
  }

  // ---------- strconv.FormatInt / FormatUint, big.Int.String ----------

  function Itoa(n: nat): (s: Bytes)
    ensures s != [] && AllDigits(s) && (s[0] == ZERO <==> n == 0) && (n == 0 ==> s == [ZERO])
  {
    if n < 10 then [ZERO + n] else Itoa(n / 10) + [ZERO + n % 10]
  }

  function FormatInt(n: int): Bytes {
    if n < 0 then ['-' as int] + Itoa(-n) else Itoa(n)
  }

  lemma {:induction false} ItoaValue(n: nat)
    ensures Nat(Itoa(n)) == n
  {
    if n < 10 {
      assert [ZERO + n][..0] == [];
    } else {
      ItoaValue(n / 10);
      NatSnoc(Itoa(n / 10), ZERO + n % 10);
    }
  }

  lemma {:induction false} FormatIntInjective(m: int, n: int)
    requires FormatInt(m) == FormatInt(n)
    ensures m == n
  {
    var a, b := if m < 0 then -m else m, if n < 0 then -n else n;
    ItoaValue(a);
    ItoaValue(b);
    assert m < 0 ==> FormatInt(m)[0] == '-' as int && FormatInt(m)[1..] == Itoa(a);
    assert n < 0 ==> FormatInt(n)[0] == '-' as int && FormatInt(n)[1..] == Itoa(b);
    assert m >= 0 ==> IsDigit(FormatInt(m)[0]);
    assert n >= 0 ==> IsDigit(FormatInt(n)[0]);
  }

  /** fmt "%0*d": at least `width` digits, padded with zeros. */
  function Padded(n: nat, width: nat): (s: Bytes)
    ensures AllDigits(s) && |s| >= width
  {
    var d := Itoa(n);
    if |d| < width then Zeros(width - |d|) + d else d
  }

  lemma {:induction false} PaddedValue(n: nat, width: nat)
    ensures Nat(Padded(n, width)) == n
    ensures width > 0 && n < Ten(width) ==> |Padded(n, width)| == width
  {
    var d := Itoa(n);
    ItoaValue(n);
    if |d| < width {
      ZerosInFront(width - |d|, d);
    } else if width > 0 {
      ItoaLength(n, width);
    }
  }

  lemma {:induction false} ZerosInFront(k: nat, d: Bytes)
    requires AllDigits(d)
    ensures AllDigits(Zeros(k) + d) && Nat(Zeros(k) + d) == Nat(d)
  {
    NatAppend(Zeros(k), d);
    NatOfZeros(k);
  }

  lemma {:induction false} ItoaLength(n: nat, width: nat)
    requires width > 0
    ensures n < Ten(width) ==> |Itoa(n)| <= width
  {
    if |Itoa(n)| > width { TenMonotone(width, |Itoa(n)| - 1); }
    NatAtLeastDigits(n);
  }

  lemma {:induction false} NatAtLeastDigits(n: nat)
    ensures n > 0 ==> n >= Ten(|Itoa(n)| - 1)
  {
    ItoaValue(n);
    if n > 0 { NatAtLeast(Itoa(n)); }
  }

  /** n without its last k digits, and the number those digits denote. */
  function HighPart(n: nat, k: nat): nat
    decreases k
  {
    if k == 0 then n else HighPart(n / 10, k - 1)
  }

  function LowPart(n: nat, k: nat): nat
    decreases k
  {
    if k == 0 then 0 else n % 10 + 10 * LowPart(n / 10, k - 1)
  }

  lemma {:induction false} HighLow(n: nat, k: nat)
    ensures n == HighPart(n, k) * Ten(k) + LowPart(n, k) && LowPart(n, k) < Ten(k)
    ensures HighPart(n, k) <= n
    decreases k
  {
    if k > 0 {
      HighLow(n / 10, k - 1);
      Distribute(HighPart(n, k), Ten(k - 1), LowPart(n / 10, k - 1));
    }
  }

  // ---------- exact decimal numbers ----------

  /** m * 10^e, for any integer exponent. */
  function Scaled(m: int, e: int): real
    decreases if e >= 0 then e else -e
  {
    if e == 0 then m as real else if e > 0 then 10.0 * Scaled(m, e - 1) else Scaled(m, e + 1) / 10.0
  }

  lemma {:induction false} ScaledTimesTen(m: int, e: int)
    ensures Scaled(10 * m, e) == Scaled(m, e + 1)
    decreases if e >= 0 then e else -e
  {
    if e > 0 { ScaledTimesTen(m, e - 1); } else if e < 0 { ScaledTimesTen(m, e + 1); }
  }

  /** Moving n digits between the coefficient and the exponent changes nothing. */
  lemma {:induction false} ShiftScale(m: int, n: nat, e: int)
    ensures Scaled(m * Ten(n), e - n) == Scaled(m, e)
  {
    if n > 0 {
      ShiftScale(m, n - 1, e);
      assert m * Ten(n) == 10 * (m * Ten(n - 1)) by { Distribute(m, Ten(n - 1), 0); }
      ScaledTimesTen(m * Ten(n - 1), e - n);
    }
  }

  lemma {:induction false} ScaledAdd(a: int, b: int, e: int)
    ensures Scaled(a + b, e) == Scaled(a, e) + Scaled(b, e)
    decreases if e >= 0 then e else -e
  {
    if e > 0 { ScaledAdd(a, b, e - 1); } else if e < 0 { ScaledAdd(a, b, e + 1); }
  }

  lemma {:induction false} ScaledOrder(a: int, b: int, e: int)
    ensures Scaled(a, e) <= Scaled(b, e) <==> a <= b
    decreases if e >= 0 then e else -e
  {
    if e > 0 { ScaledOrder(a, b, e - 1); } else if e < 0 { ScaledOrder(a, b, e + 1); }
  }

  lemma {:induction false} ScaledZero(e: int)
    ensures Scaled(0, e) == 0.0
    decreases if e >= 0 then e else -e
  {
    if e > 0 { ScaledZero(e - 1); } else if e < 0 { ScaledZero(e + 1); }
  }

  /** Reading whole and fraction positionally is reading all digits and then placing the point. */
  lemma {:induction false} PositionalValue(w: Bytes, b: Bytes, e: int)
    requires AllDigits(w) && AllDigits(b) && AllDigits(w + b)
    ensures Scaled(Nat(w), e) + Scaled(Nat(b), e - |b|) == Scaled(Nat(w + b), e - |b|)
  {
    NatAppend(w, b);
    ShiftScale(Nat(w), |b|, e);
    ScaledAdd(Nat(w) * Ten(|b|), Nat(b), e - |b|);
  }
}
