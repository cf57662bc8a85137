/** Byte strings, their order, and the two encodings every oracle commitment is built from:
    unsigned 64-bit big-endian length framing and lowercase hexadecimal.

    A Go string and a Go []byte are both sequences of bytes here. A hash function is a parameter
    of type `Bytes -> Digest`, so every statement holds for SHA-256 without saying what it computes. */
module GoBytes {

  datatype Option<+T> = None | Some(value: T)

  datatype Result<+T, +E> = Ok(value: T) | Err(error: E)

  type byte = b: int | 0 <= b < 256

  type Bytes = seq<byte>

  type Digest = d: Bytes | |d| == 32 witness seq(32, _ => 0)

  type HashFunction = Bytes -> Digest

  const TWO63: int := 0x8000_0000_0000_0000
  const TWO64: int := 0x1_0000_0000_0000_0000

  type int64 = v: int | -0x8000_0000_0000_0000 <= v < 0x8000_0000_0000_0000

  /** Two's-complement wrap-around of an int64 result. */
  function Wrap64(v: int): int64 {
    (v + TWO63) % TWO64 - TWO63
  }

  /** The wrapped value is the one int64 that is congruent to the number modulo 2^64. */
  lemma {:induction false} Wrap64Exactly(v: int, w: int)
    ensures Wrap64(v) == w <==> -TWO63 <= w < TWO63 && (v - w) % TWO64 == 0
  {
    var m := v + TWO63;
    assert m == m / TWO64 * TWO64 + m % TWO64;
    assert v - Wrap64(v) == m / TWO64 * TWO64;
    if (v - w) % TWO64 == 0 {
      assert v - w == (v - w) / TWO64 * TWO64;
    }
  }

  /** The bytes of a literal; every literal below is ASCII. */
  function Ascii(s: string): (r: Bytes)
    ensures |r| == |s|
  {
    seq(|s|, i requires 0 <= i < |s| => CharByte(s[i]))
  }

  function CharByte(c: char): byte {
    c as int % 256
  }

  /** A length that a Go `int` can hold. */
  ghost predicate Fits(v: Bytes) {
    |v| < TWO63
  }

  ghost predicate AllFit(vs: seq<Bytes>) {
    forall v <- vs :: Fits(v)
  }

  /** No two members of the finite preimage set S share a digest. */
  ghost predicate CollisionFree(h: HashFunction, S: set<Bytes>) {
    forall a, b :: a in S && b in S && h(a) == h(b) ==> a == b
  }

  lemma {:induction false} SameHeadAndTail<T>(a: seq<T>, b: seq<T>)
    requires a != [] && b != [] && a[0] == b[0] && a[1..] == b[1..]
    ensures a == b
  {
    assert a == [a[0]] + a[1..] && b == [b[0]] + b[1..];
  }

  // ---------- strings.TrimSpace ----------

  /** The UTF-8 encodings of the runes for which unicode.IsSpace holds. */
  predicate SpaceRune(r: Bytes) {
    || (|r| == 1 && (9 <= r[0] <= 13 || r[0] == 32))
    || (|r| == 2 && r[0] == 0xC2 && (r[1] == 0x85 || r[1] == 0xA0))
    || (|r| == 3 && r[0] == 0xE1 && r[1] == 0x9A && r[2] == 0x80)
    || (|r| == 3 && r[0] == 0xE2 && r[1] == 0x80 && (0x80 <= r[2] <= 0x8A || r[2] in {0xA8, 0xA9, 0xAF}))
    || (|r| == 3 && r[0] == 0xE2 && r[1] == 0x81 && r[2] == 0x9F)
    || (|r| == 3 && r[0] == 0xE3 && r[1] == 0x80 && r[2] == 0x80)
  }

  /** The UTF-8 encoding of a code point below 2^16. */
  function Utf8(c: int): Bytes
    requires 0 <= c < 0x1_0000
  {
    if c < 0x80 then [c]
    else if c < 0x800 then [0xC0 + c / 64, 0x80 + c % 64]
    else [0xE0 + c / 4096, 0x80 + (c / 64) % 64, 0x80 + c % 64]
  }

  /** The code points with the property White_Space. */
  ghost const WHITE_SPACE: set<int> :=
    {9, 10, 11, 12, 13, 0x20, 0x85, 0xA0, 0x1680, 0x2000, 0x2001, 0x2002, 0x2003, 0x2004, 0x2005, 0x2006, 0x2007,
     0x2008, 0x2009, 0x200A, 0x2028, 0x2029, 0x202F, 0x205F, 0x3000}

  lemma {:induction false} SpaceEncodes(c: int)
    requires c in WHITE_SPACE
    ensures SpaceRune(Utf8(c))
  {
  }

  lemma {:induction false} SpaceDecodes(r: Bytes) returns (c: int)
    requires SpaceRune(r)
    ensures c in WHITE_SPACE && r == Utf8(c)
  {
    c := if |r| == 1 then r[0] as int
         else if |r| == 2 then (r[0] as int - 0xC0) * 64 + (r[1] as int - 0x80)
         else (r[0] as int - 0xE0) * 4096 + (r[1] as int - 0x80) * 64 + (r[2] as int - 0x80);
  }

  /** A space rune is the encoding of a white-space code point. */
  lemma {:induction false} SpaceRuneExactly(r: Bytes)
    ensures SpaceRune(r) <==> exists c :: c in WHITE_SPACE && r == Utf8(c)
  {
    if SpaceRune(r) { var c := SpaceDecodes(r); }
    if c :| c in WHITE_SPACE && r == Utf8(c) { SpaceEncodes(c); }
  }

  /** value != strings.TrimSpace(value): a space rune stands at one end. */
  predicate HasBoundarySpace(s: Bytes) {
    exists n :: 1 <= n <= 3 && n <= |s| && (SpaceRune(s[..n]) || SpaceRune(s[|s| - n..]))
  }

  lemma {:induction false} PrintableBoundary(s: Bytes)
    requires s != [] && 32 < s[0] < 128 && 32 < s[|s| - 1] < 128
    ensures !HasBoundarySpace(s)
  {
  }

  // ---------- bytes.Compare ----------

  predicate Leq(a: Bytes, b: Bytes) {
    a == [] || (b != [] && (a[0] < b[0] || (a[0] == b[0] && Leq(a[1..], b[1..]))))
  }

  predicate Less(a: Bytes, b: Bytes) {
    a != b && Leq(a, b)
  }

  lemma {:induction false} LeqReflexive(a: Bytes)
    ensures Leq(a, a)
  {
    if a != [] { LeqReflexive(a[1..]); }
  }

  lemma {:induction false} LeqTotal(a: Bytes, b: Bytes)
    ensures Leq(a, b) || Leq(b, a)
  {
    if a != [] && b != [] { LeqTotal(a[1..], b[1..]); }
  }

  lemma {:induction false} LeqAntisymmetric(a: Bytes, b: Bytes)
    requires Leq(a, b) && Leq(b, a)
    ensures a == b
  {
    if a != [] {
      LeqAntisymmetric(a[1..], b[1..]);
      SameHeadAndTail(a, b);
    }
  }

  lemma {:induction false} LeqTransitive(a: Bytes, b: Bytes, c: Bytes)
    requires Leq(a, b) && Leq(b, c)
    ensures Leq(a, c)
  {
    if a != [] && a[0] == b[0] == c[0] { LeqTransitive(a[1..], b[1..], c[1..]); }
  }

  /** Which way byte order runs: a prefix comes first, and otherwise the first differing byte decides. */
  lemma {:induction false} LeqExactly(a: Bytes, b: Bytes)
    ensures Leq(a, b) <==> a <= b || exists i :: 0 <= i < |a| && i < |b| && a[..i] == b[..i] && a[i] < b[i]
  {
    if a != [] && b != [] {
      if a[0] == b[0] {
        LeqExactly(a[1..], b[1..]);
        SameFirstByte(a, b);
      } else if a[0] < b[0] {
        assert a[..0] == b[..0];
      } else {
        forall i | 0 < i < |a| && i < |b| ensures a[..i] != b[..i] { assert a[..i][0] != b[..i][0]; }
      }
    }
  }

  lemma {:induction false} SameFirstByte(a: Bytes, b: Bytes)
    requires a != [] && b != [] && a[0] == b[0]
    ensures a <= b <==> a[1..] <= b[1..]
    ensures (exists i :: 0 <= i < |a| && i < |b| && a[..i] == b[..i] && a[i] < b[i]) <==>
            exists i :: 0 <= i < |a[1..]| && i < |b[1..]| && a[1..][..i] == b[1..][..i] && a[1..][i] < b[1..][i]
  {
    var s, t := a[1..], b[1..];
    assert a == [a[0]] + s && b == [b[0]] + t;
    if i :| 0 <= i < |a| && i < |b| && a[..i] == b[..i] && a[i] < b[i] {
      assert s[..i - 1] == a[..i][1..] && t[..i - 1] == b[..i][1..];
      assert s[i - 1] < t[i - 1];
    }
    if i :| 0 <= i < |s| && i < |t| && s[..i] == t[..i] && s[i] < t[i] {
      assert a[..i + 1] == [a[0]] + s[..i] && b[..i + 1] == [b[0]] + t[..i];
      assert a[i + 1] < b[i + 1];
    }
  }

  // ---------- binary.BigEndian ----------

  function BigEndian(v: nat, n: nat): (r: Bytes)
    ensures |r| == n
  {
    if n == 0 then [] else BigEndian(v / 256, n - 1) + [v % 256]
  }

  function FromBigEndian(s: Bytes): nat {
    if s == [] then 0 else FromBigEndian(s[..|s| - 1]) * 256 + s[|s| - 1]
  }

  function Pow256(n: nat): (p: nat)
    ensures p >= 1
  {
    if n == 0 then 1 else 256 * Pow256(n - 1)
  }

  lemma {:induction false} Pow256Of8()
    ensures Pow256(8) == TWO64
  {
    assert Pow256(4) == 0x1_0000_0000;
  }

  lemma {:induction false} BigEndianRoundTrip(v: nat, n: nat)
    requires v < Pow256(n)
    ensures FromBigEndian(BigEndian(v, n)) == v
  {
    if n > 0 {
      BigEndianRoundTrip(v / 256, n - 1);
      assert BigEndian(v, n)[..n - 1] == BigEndian(v / 256, n - 1);
    }
  }

  lemma {:induction false} FromBigEndianRoundTrip(s: Bytes)
    ensures FromBigEndian(s) < Pow256(|s|)
    ensures BigEndian(FromBigEndian(s), |s|) == s
  {
    if s != [] {
      FromBigEndianRoundTrip(s[..|s| - 1]);
      assert s == s[..|s| - 1] + [s[|s| - 1]];
    }
  }

  /** The first byte is the most significant one. */
  lemma {:induction false} MostSignificantFirst(s: Bytes)
    requires s != []
    ensures FromBigEndian(s) == s[0] * Pow256(|s| - 1) + FromBigEndian(s[1..])
  {
    var n := |s| - 1;
    if n > 0 {
      MostSignificantFirst(s[..n]);
      assert s[1..][..n - 1] == s[..n][1..];
      assert (s[0] * Pow256(n - 1)) * 256 == s[0] * Pow256(n);
    } else {
      assert s[..0] == [] && s[1..] == [];
    }
  }

  /** Between strings of one length, byte order is the order of the numbers they spell. */
  lemma {:induction false} ByteOrderIsNumeric(a: Bytes, b: Bytes)
    requires |a| == |b|
    ensures Leq(a, b) <==> FromBigEndian(a) <= FromBigEndian(b)
  {
    if a != [] {
      ByteOrderIsNumeric(a[1..], b[1..]);
      MostSignificantFirst(a);
      MostSignificantFirst(b);
      FromBigEndianRoundTrip(a[1..]);
      FromBigEndianRoundTrip(b[1..]);
      FirstByteDecides(a[0], b[0], Pow256(|a| - 1), FromBigEndian(a[1..]), FromBigEndian(b[1..]));
    }
  }

  lemma {:induction false} FirstByteDecides(x: int, y: int, p: int, u: int, v: int)
    requires 0 <= u < p && 0 <= v < p
    ensures x < y ==> x * p + u < y * p + v
    ensures x > y ==> x * p + u > y * p + v
  {
    assert x < y ==> (y - x - 1) * p >= 0;
    assert x > y ==> (x - y - 1) * p >= 0;
  }

  /** PutUint64(uint64(v)): a signed argument is converted modulo 2^64. */
  function U64(v: int): (r: Bytes)
    ensures |r| == 8
  {
    BigEndian(v % TWO64, 8)
  }

  lemma {:induction false} U64Value(v: int)
    ensures FromBigEndian(U64(v)) == v % TWO64
  {
    Pow256Of8();
    BigEndianRoundTrip(v % TWO64, 8);
  }

  lemma {:induction false} U64Injective(v: int, w: int)
    requires U64(v) == U64(w)
    ensures v % TWO64 == w % TWO64
  {
    U64Value(v);
    U64Value(w);
  }

  /** Fixed-width words, one after the other. */
  function U64All(values: seq<int>): (r: Bytes)
    ensures |r| == 8 * |values|
  {
    if values == [] then [] else U64(values[0]) + U64All(values[1..])
  }

  /** The k-th 64-bit word of a byte string. */
  function Word(s: Bytes, k: nat): nat
    requires 8 * k + 8 <= |s|
  {
    FromBigEndian(s[8 * k..8 * k + 8])
  }

  lemma {:induction false} WordsRead(values: seq<int>, k: nat, rest: Bytes)
    requires k < |values|
    ensures Word(U64All(values) + rest, k) == values[k] % TWO64
  {
    var s := U64All(values) + rest;
    var tail := U64All(values[1..]) + rest;
    assert s == U64(values[0]) + tail;
    if k == 0 {
      assert s[0..8] == U64(values[0]);
      U64Value(values[0]);
    } else {
      WordsRead(values[1..], k - 1, rest);
      assert s[8 * k..8 * k + 8] == tail[8 * (k - 1)..8 * (k - 1) + 8];
    }
  }

  // ---------- length framing ----------

  function Framed(v: Bytes): Bytes {
    U64(|v|) + v
  }

  function FrameAll(vs: seq<Bytes>): Bytes {
    if vs == [] then [] else Framed(vs[0]) + FrameAll(vs[1..])
  }

  /** oracleReadCanonicalString: the first framed field and the rest. */
  function ReadFramed(s: Bytes): Option<(Bytes, Bytes)> {
    if |s| < 8 then None
    else
      var length := FromBigEndian(s[..8]);
      if length > |s| - 8 then None
      else Some((s[8..8 + length], s[8 + length..]))
  }

  lemma {:induction false} ReadInvertsWrite(v: Bytes, rest: Bytes)
    requires Fits(v)
    ensures ReadFramed(Framed(v) + rest) == Some((v, rest))
  {
    U64Value(|v|);
    ReadParts(U64(|v|), v, rest);
  }

  lemma {:induction false} ReadParts(prefix: Bytes, v: Bytes, rest: Bytes)
    requires |prefix| == 8 && FromBigEndian(prefix) == |v|
    ensures ReadFramed(prefix + v + rest) == Some((v, rest))
  {
    var s := prefix + v + rest;
    assert s[..8] == prefix;
    assert s[8..8 + |v|] == v;
    assert s[8 + |v|..] == rest;
  }

  lemma {:induction false} PrefixIsLength(prefix: Bytes)
    requires |prefix| == 8
    ensures U64(FromBigEndian(prefix)) == prefix
  {
    Pow256Of8();
    FromBigEndianRoundTrip(prefix);
    assert FromBigEndian(prefix) % TWO64 == FromBigEndian(prefix);
  }

  /** A successful read leaves exactly what writing the field and the rest gives; a failed one means
      that no writing begins the input. */
  lemma {:induction false} WriteInvertsRead(s: Bytes)
    ensures ReadFramed(s).Some? ==> s == Framed(ReadFramed(s).value.0) + ReadFramed(s).value.1
    ensures ReadFramed(s).None? ==> forall v, rest :: Fits(v) ==> s != Framed(v) + rest
  {
    forall v, rest | Fits(v) ensures ReadFramed(Framed(v) + rest).Some? {
      ReadInvertsWrite(v, rest);
    }
    if ReadFramed(s).Some? { ReadKeepsAll(s); }
  }

  lemma {:induction false} ReadKeepsAll(s: Bytes)
    requires ReadFramed(s).Some?
    ensures s == Framed(ReadFramed(s).value.0) + ReadFramed(s).value.1
  {
    PrefixIsLength(s[..8]);
    var length := FromBigEndian(s[..8]);
    assert s == s[..8] + s[8..8 + length] + s[8 + length..];
  }

  lemma {:induction false} FramedCancel(v: Bytes, x: Bytes, w: Bytes, y: Bytes)
    requires Fits(v) && Fits(w)
    requires Framed(v) + x == Framed(w) + y
    ensures v == w && x == y
  {
    ReadInvertsWrite(v, x);
    ReadInvertsWrite(w, y);
  }

  /** A framed field followed by a fixed-width count and more data. */
  lemma {:induction false} FramedThenCount(v: Bytes, n: Bytes, x: Bytes, w: Bytes, m: Bytes, y: Bytes)
    requires Fits(v) && Fits(w) && |n| == |m|
    requires Framed(v) + n + x == Framed(w) + m + y
    ensures v == w && n == m && x == y
  {
    assert Framed(v) + n + x == Framed(v) + (n + x);
    assert Framed(w) + m + y == Framed(w) + (m + y);
    FramedCancel(v, n + x, w, m + y);
    assert n == (n + x)[..|n|] && m == (m + y)[..|m|];
    assert x == (n + x)[|n|..] && y == (m + y)[|m|..];
  }

  lemma {:induction false} FrameAllFirst(vs: seq<Bytes>, x: Bytes)
    requires vs != []
    ensures FrameAll(vs) + x == Framed(vs[0]) + (FrameAll(vs[1..]) + x)
  {
  }

  /** A stream of frames determines its fields, whatever follows it. */
  lemma {:induction false} FrameAllCancel(vs: seq<Bytes>, x: Bytes, ws: seq<Bytes>, y: Bytes)
    requires AllFit(vs) && AllFit(ws) && |vs| == |ws|
    requires FrameAll(vs) + x == FrameAll(ws) + y
    ensures vs == ws && x == y
  {
    if vs == [] {
      assert FrameAll(vs) + x == x && FrameAll(ws) + y == y;
    } else {
      FrameAllFirst(vs, x);
      FrameAllFirst(ws, y);
      FramedCancel(vs[0], FrameAll(vs[1..]) + x, ws[0], FrameAll(ws[1..]) + y);
      FrameAllCancel(vs[1..], x, ws[1..], y);
      SameHeadAndTail(vs, ws);
    }
  }

  /** Without a suffix not even the number of fields needs to be known in advance. */
  lemma {:induction false} FrameAllInjective(vs: seq<Bytes>, ws: seq<Bytes>)
    requires AllFit(vs) && AllFit(ws)
    requires FrameAll(vs) == FrameAll(ws)
    ensures vs == ws
  {
    if vs != [] && ws != [] {
      FramedCancel(vs[0], FrameAll(vs[1..]), ws[0], FrameAll(ws[1..]));
      FrameAllInjective(vs[1..], ws[1..]);
      SameHeadAndTail(vs, ws);
    }
  }

  lemma {:induction false} Assoc<T>(a: seq<T>, b: seq<T>, c: seq<T>)
    ensures a + b + c == a + (b + c)
  {
  }

  lemma {:induction false} FrameAllAppend(vs: seq<Bytes>, ws: seq<Bytes>)
    ensures FrameAll(vs + ws) == FrameAll(vs) + FrameAll(ws)
  {
    if vs == [] {
      assert vs + ws == ws;
    } else {
      FrameAllAppend(vs[1..], ws);
      assert (vs + ws)[1..] == vs[1..] + ws && (vs + ws)[0] == vs[0];
      Assoc(Framed(vs[0]), FrameAll(vs[1..]), FrameAll(ws));
    }
  }

  lemma {:induction false} FrameAllSnoc(vs: seq<Bytes>, v: Bytes)
    ensures FrameAll(vs + [v]) == FrameAll(vs) + Framed(v)
  {
    FrameAllAppend(vs, [v]);
    assert FrameAll([v]) == Framed(v) + FrameAll([v][1..]);
  }

  lemma {:induction false} PrefixCancel(d: Bytes, x: Bytes, e: Bytes, y: Bytes)
    requires |d| == |e| && d + x == e + y
    ensures d == e && x == y
  {
    assert d == (d + x)[..|d|] && e == (e + y)[..|e|];
    assert x == (d + x)[|d|..] && y == (e + y)[|e|..];
  }

  lemma {:induction false} CountCancel(n: int, x: Bytes, m: int, y: Bytes)
    requires 0 <= n < TWO63 && 0 <= m < TWO63 && U64(n) + x == U64(m) + y
    ensures n == m && x == y
  {
    PrefixCancel(U64(n), x, U64(m), y);
    U64Injective(n, m);
  }

  // ---------- encoding/hex ----------

  function HexDigit(n: int): byte
    requires 0 <= n < 16
  {
    if n < 10 then '0' as int + n else 'a' as int + n - 10
  }

  function FromHexDigit(c: byte): Option<int> {
    if '0' as int <= c <= '9' as int then Some(c - '0' as int)
    else if 'a' as int <= c <= 'f' as int then Some(c - 'a' as int + 10)
    else if 'A' as int <= c <= 'F' as int then Some(c - 'A' as int + 10)
    else None
  }

  function HexEncode(d: Bytes): (r: Bytes)
    ensures |r| == 2 * |d|
  {
    if d == [] then [] else [HexDigit(d[0] / 16), HexDigit(d[0] % 16)] + HexEncode(d[1..])
  }

  /** hex.DecodeString: accepts either case, rejects odd lengths and other characters. */
  function HexDecode(s: Bytes): Option<Bytes> {
    if s == [] then Some([])
    else if |s| == 1 then None
    else match (FromHexDigit(s[0]), FromHexDigit(s[1]), HexDecode(s[2..]))
      case (Some(hi), Some(lo), Some(rest)) => Some([hi * 16 + lo] + rest)
      case _ => None
  }

  /** validSHA256: exactly the lowercase hexadecimal spelling of 32 bytes. */
  predicate ValidSha256(v: Bytes) {
    match HexDecode(v)
    case Some(d) => |d| == 32 && v == HexEncode(d)
    case None => false
  }

  lemma {:induction false} HexRoundTrip(d: Bytes)
    ensures HexDecode(HexEncode(d)) == Some(d)
  {
    if d != [] {
      HexRoundTrip(d[1..]);
      assert HexEncode(d)[2..] == HexEncode(d[1..]);
      assert d == [d[0]] + d[1..];
    }
  }

  lemma {:induction false} ValidSha256Exactly(v: Bytes)
    ensures ValidSha256(v) <==> exists d: Digest :: v == HexEncode(d)
  {
    if d: Digest :| v == HexEncode(d) {
      HexRoundTrip(d);
    }
  }

  predicate HexLetter(c: byte) {
    '0' as int <= c <= '9' as int || 'a' as int <= c <= 'f' as int || 'A' as int <= c <= 'F' as int
  }

  /** Decoded are exactly the even numbers of hexadecimal digits of either case. */
  lemma {:induction false} HexDecodeExactly(s: Bytes)
    ensures HexDecode(s).Some? <==> |s| % 2 == 0 && forall i :: 0 <= i < |s| ==> HexLetter(s[i])
    ensures HexDecode(s).Some? ==> 2 * |HexDecode(s).value| == |s|
  {
    if |s| >= 2 {
      HexDecodeExactly(s[2..]);
      if |s| % 2 == 0 && HexDecode(s).Some? {
        forall i | 0 <= i < |s| ensures HexLetter(s[i]) { if i >= 2 { assert HexLetter(s[2..][i - 2]); } }
      }
    }
  }

  ghost const HEX_DIGITS: string := "0123456789abcdef"

  /** Each byte is spelled by two lowercase digits, the high half first. */
  lemma {:induction false} HexSpelling(d: Bytes, i: nat)
    requires i < |d|
    ensures HexEncode(d)[2 * i] == HEX_DIGITS[d[i] / 16] as int
    ensures HexEncode(d)[2 * i + 1] == HEX_DIGITS[d[i] % 16] as int
  {
    if i > 0 {
      HexSpelling(d[1..], i - 1);
      assert HexEncode(d)[2..] == HexEncode(d[1..]);
      assert HexEncode(d)[2 * i] == HexEncode(d)[2..][2 * (i - 1)];
      assert HexEncode(d)[2 * i + 1] == HexEncode(d)[2..][2 * (i - 1) + 1];
    }
  }

  ghost predicate LowerHex(s: Bytes) {
    forall i :: 0 <= i < |s| ==> '0' as int <= s[i] <= '9' as int || 'a' as int <= s[i] <= 'f' as int
  }

  lemma {:induction false} EncodingIsLowerHex(d: Bytes)
    ensures LowerHex(HexEncode(d))
  {
    if d != [] {
      EncodingIsLowerHex(d[1..]);
      var s := HexEncode(d);
      forall i | 2 <= i < |s| ensures s[i] == HexEncode(d[1..])[i - 2] { }
    }
  }

  /** Every even number of lowercase hexadecimal digits spells bytes. */
  lemma {:induction false} LowerHexDecodes(s: Bytes) returns (d: Bytes)
    requires |s| % 2 == 0 && LowerHex(s)
    ensures |d| == |s| / 2 && HexEncode(d) == s
  {
    d := [];
    if s != [] {
      var rest := LowerHexDecodes(s[2..]);
      var first: byte := FromHexDigit(s[0]).value * 16 + FromHexDigit(s[1]).value;
      d := [first] + rest;
      assert d[1..] == rest;
      assert s == [s[0], s[1]] + s[2..];
    }
  }

  /** Valid are exactly the strings of 64 lowercase hexadecimal digits. */
  lemma {:induction false} ValidSha256IsLowerHex(v: Bytes)
    ensures ValidSha256(v) <==> |v| == 64 && LowerHex(v)
  {
    ValidSha256Exactly(v);
    if |v| == 64 && LowerHex(v) {
      var d := LowerHexDecodes(v);
      var digest: Digest := d;
      assert v == HexEncode(digest);
    }
    if d: Digest :| v == HexEncode(d) { EncodingIsLowerHex(d); }
  }

  /** Lowercase hexadecimal preserves and reflects the byte order. */
  lemma {:induction false} HexOrder(a: Bytes, b: Bytes)
    ensures Leq(HexEncode(a), HexEncode(b)) <==> Leq(a, b)
  {
    if a != [] && b != [] {
      HexOrder(a[1..], b[1..]);
      var x, y := HexEncode(a), HexEncode(b);
      assert x[1..][1..] == HexEncode(a[1..]) && y[1..][1..] == HexEncode(b[1..]);
      assert Leq(x[1..], y[1..]) <==> x[1] < y[1] || (x[1] == y[1] && Leq(x[1..][1..], y[1..][1..]));
    }
  }

  /** The decoded bytes of a canonical member. */
  function Raw(member: Bytes): (r: Bytes) {
    match HexDecode(member)
    case Some(d) => d
    case None => []
  }

  lemma {:induction false} RawOfValid(v: Bytes)
    requires ValidSha256(v)
    ensures |Raw(v)| == 32 && HexEncode(Raw(v)) == v
  {
  }
}
