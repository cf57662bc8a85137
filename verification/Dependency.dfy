/** The exposure-scale dependency generator (evaluation/finalv5oracle/dependency.go): five canonical
    facts per dataset row, contiguous fact ranges for candidate and history, and the summaries of
    their set algebra. */
module Dependency {
  import opened GoBytes
  import opened Sorting
  import opened Facts
  import Euclid
  import Numerals
  import Printers
  import SetAlgebra
  import opened SqlValues
  import opened SetStream

  const NAMESPACE: Bytes := Ascii("final_v5.exposure_scale")
  const SNAPSHOT: Bytes := Ascii("final-v5-exposure-scale-2026-v1")
  const BASE_ENTITY: Bytes := Ascii("base-entity")
  const STABLE_ROLE: Bytes := Ascii("final_v5_exposure_scale.")
  const MEMBER_RANK: Bytes := Ascii("member_rank")
  const BIGINT: Bytes := Ascii("bigint")
  const NUMERIC: Bytes := Ascii("numeric")
  const INTEGER: Bytes := Ascii("integer")
  const MAX_CANDIDATE: int := 1_035_000
  const MAX_DATASET: int := 2_070_000

  // ---------- one row's facts ----------

  ghost function RankValue(rank: int): Bytes {
    Ascii("i:") + Numerals.FormatInt(rank)
  }

  ghost function Cents(rank: int): int {
    rank * 13 % 100_000 + 100
  }

  /** What ComposeOracleCanonicalKeyV2 hashes for a member rank. */
  ghost function KeyPreimage(rank: int): Bytes {
    Composed(BASE_ENTITY, [NAMESPACE, MEMBER_RANK, BIGINT, RankValue(rank)])
  }

  ghost function EntityKey(h: HashFunction, rank: int): Bytes {
    HexEncode(h(KeyPreimage(rank)))
  }

  ghost function Field(slot: int): Bytes {
    if slot == 1 then STABLE_ROLE + Ascii("member_rank")
    else if slot == 2 then STABLE_ROLE + Ascii("metric")
    else if slot == 3 then STABLE_ROLE + Ascii("family_id")
    else STABLE_ROLE + Ascii("partition_key")
  }

  ghost function CellOf(key: Bytes, slot: int, sqlType: Bytes, value: Bytes): Input {
    BaseCellInput(NAMESPACE, SNAPSHOT, key, Field(slot), sqlType, value)
  }

  /** The fact tuple in one of the five slots of a row. */
  ghost function RowInput(h: HashFunction, rank: int, slot: int): Input {
    var key := EntityKey(h, rank);
    if slot == 0 then BaseRowInput(NAMESPACE, SNAPSHOT, key)
    else if slot == 1 then CellOf(key, 1, BIGINT, RankValue(rank))
    else if slot == 2 then CellOf(key, 2, NUMERIC, Printers.CentsText(Cents(rank)))
    else CellOf(key, if slot == 3 then 3 else 4, INTEGER, Ascii("i:1"))
  }

  /** The cents of a row of the published dataset, which counts its rows from zero. */
  ghost function DatasetCents(rowIndex: nat): int {
    var rank := rowIndex + 1;
    (rank * 13) % 100_000 + 100
  }

  /** In every row the dataset's decimal and the metric fact's fraction denote the same number p / q. */
  lemma {:induction false} MetricAgrees(h: HashFunction, rowIndex: nat) returns (p: int, q: int)
    ensures RowInput(h, rowIndex + 1, 2).value == Ascii("n:") + Printers.RatText(p, q)
    ensures q > 0 && Euclid.Gcd(p, q) == 1
    ensures Printers.Denotes(Printers.ArtifactText(DatasetCents(rowIndex), 2), p as real / q as real)
  {
    p, q := Printers.DatasetAndFactAgree(DatasetCents(rowIndex));
    SameFraction(p, q, DatasetCents(rowIndex));
  }

  lemma {:induction false} SameFraction(p: int, q: int, cents: int)
    requires q > 0 && p * 100 == cents * q
    ensures p as real / q as real == cents as real / 100.0
  {
    assert (p * 100) as real == p as real * 100.0 && (cents * q) as real == cents as real * q as real;
  }

  /** The fact at an index: its row is index / 5, its slot index % 5. */
  ghost function InputAt(h: HashFunction, index: nat): Input {
    RowInput(h, index / 5 + 1, index % 5)
  }

  ghost function MemberAt(h: HashFunction, index: nat): Bytes {
    FactOf(h, InputAt(h, index)).sha256
  }

  ghost function SlotMember(h: HashFunction): (int, int) -> Bytes {
    (rank, slot) => FactOf(h, RowInput(h, rank, slot)).sha256
  }

  /** Five slots per rank, laid out one after the other. */
  ghost function Flatten(g: (int, int) -> Bytes): nat -> Bytes {
    i => g(i / 5 + 1, i % 5)
  }

  ghost function MembersOf(h: HashFunction): nat -> Bytes {
    Flatten(SlotMember(h))
  }

  ghost function Range(member: nat -> Bytes, first: nat, last: nat): (r: seq<Bytes>)
    requires first <= last
    ensures |r| == last - first && forall i :: 0 <= i < |r| ==> r[i] == member(first + i)
  {
    seq(last - first, i requires 0 <= i < last - first => member(first + i))
  }

  ghost function MemberRange(h: HashFunction, first: nat, last: nat): (r: seq<Bytes>)
    requires first <= last
  {
    Range(MembersOf(h), first, last)
  }

  // ---------- distinct facts ----------

  lemma {:induction false} FieldsDiffer(i: int, j: int)
    requires 1 <= i <= 4 && 1 <= j <= 4 && Field(i) == Field(j)
    ensures i == j
  {
    assert |Field(i)| == |Field(j)|;
  }

  lemma {:induction false} KeyPreimageInjective(a: int, b: int)
    requires KeyPreimage(a) == KeyPreimage(b)
    requires |Numerals.FormatInt(a)| < 100 && |Numerals.FormatInt(b)| < 100
    ensures a == b
  {
    var s, t := [NAMESPACE, MEMBER_RANK, BIGINT, RankValue(a)], [NAMESPACE, MEMBER_RANK, BIGINT, RankValue(b)];
    ComposedInjective(BASE_ENTITY, s, t);
    assert s[3] == t[3];
    PrefixCancel(Ascii("i:"), Numerals.FormatInt(a), Ascii("i:"), Numerals.FormatInt(b));
    Numerals.FormatIntInjective(a, b);
  }

  /** Everything hashed for the facts below an index: key preimages and fact preimages. */
  ghost function Hashed(h: HashFunction, total: nat): set<Bytes> {
    Keys(total) + FactPreimages(h, total)
  }

  ghost function Keys(total: nat): set<Bytes> {
    set i | 0 <= i < total :: KeyPreimage(i / 5 + 1)
  }

  ghost function FactPreimages(h: HashFunction, total: nat): set<Bytes> {
    set i | 0 <= i < total :: FactPreimage(InputAt(h, i))
  }

  lemma {:induction false} ShortRank(rank: int)
    requires 0 < rank <= MAX_DATASET
    ensures |Numerals.FormatInt(rank)| <= 7
  {
    Numerals.ItoaLength(rank, 7);
  }

  lemma {:induction false} HashedHas(h: HashFunction, total: nat, i: nat)
    requires i < total
    ensures FactPreimage(InputAt(h, i)) in Hashed(h, total) && KeyPreimage(i / 5 + 1) in Hashed(h, total)
  {
    KeyListed(total, i);
    FactListed(h, total, i);
  }

  lemma {:induction false} KeyListed(total: nat, i: nat)
    requires i < total
    ensures KeyPreimage(i / 5 + 1) in Keys(total)
  {
  }

  lemma {:induction false} FactListed(h: HashFunction, total: nat, i: nat)
    requires i < total
    ensures FactPreimage(InputAt(h, i)) in FactPreimages(h, total)
  {
  }

  lemma {:induction false} PairFree(h: HashFunction, all: set<Bytes>, a: Bytes, b: Bytes)
    requires CollisionFree(h, all) && a in all && b in all
    ensures CollisionFree(h, {a, b})
  {
  }

  /** Rows have different entity keys. */
  lemma {:induction false} KeysDiffer(h: HashFunction, total: nat, i: nat, j: nat)
    requires total <= MAX_DATASET && CollisionFree(h, Hashed(h, total)) && i < total && j < total
    requires EntityKey(h, i / 5 + 1) == EntityKey(h, j / 5 + 1)
    ensures i / 5 == j / 5
  {
    var a, b := i / 5 + 1, j / 5 + 1;
    HexRoundTrip(h(KeyPreimage(a)));
    HexRoundTrip(h(KeyPreimage(b)));
    HashedHas(h, total, i);
    HashedHas(h, total, j);
    ShortRank(a);
    ShortRank(b);
    KeyPreimageInjective(a, b);
  }

  lemma {:induction false} SmallText(p: int, q: int)
    requires 0 <= p < 10_000_000 && 0 <= q < 10_000_000
    ensures |Printers.RatText(p, q)| < 20
  {
    Numerals.ItoaLength(p, 7);
    Numerals.ItoaLength(q, 7);
  }

  lemma {:induction false} CentsFit(rank: int)
    requires rank >= 0
    ensures |Printers.CentsText(Cents(rank))| < 30
  {
    var c := Cents(rank);
    var g := Euclid.Gcd(c, 100);
    Euclid.GcdZero(c, 100);
    QuotientBelow(c, g);
    QuotientBelow(100, g);
    SmallText(Euclid.GoDiv(c, g), Euclid.GoDiv(100, g));
  }

  lemma {:induction false} QuotientBelow(c: nat, g: int)
    requires g > 0
    ensures 0 <= Euclid.GoDiv(c, g) <= c
  {
    var q := c / g;
    Product(q, g - 1);
    assert q * (g - 1) == q * g - q;
    assert c == q * g + c % g;
  }

  lemma {:induction false} Product(x: int, y: int)
    requires x >= 0 && y >= 0
    ensures x * y >= 0
  {
  }

  lemma {:induction false} InputFits(h: HashFunction, rank: int, slot: int)
    requires 0 < rank <= MAX_DATASET
    ensures Representable(RowInput(h, rank, slot))
  {
    ShortRank(rank);
    CentsFit(rank);
  }

  lemma {:induction false} SameSlot(h: HashFunction, a: int, i: int, b: int, j: int)
    requires 0 <= i < 5 && 0 <= j < 5 && SameFact(RowInput(h, a, i), RowInput(h, b, j))
    ensures i == j && EntityKey(h, a) == EntityKey(h, b)
  {
    assert RowInput(h, a, i).entityKey == EntityKey(h, a) && RowInput(h, b, j).entityKey == EntityKey(h, b);
    if i > 0 && j > 0 { FieldsDiffer(i, j); }
  }

  lemma {:induction false} SameMemberSameFact(h: HashFunction, total: nat, i: nat, j: nat)
    requires CollisionFree(h, Hashed(h, total)) && i < total && j < total
    requires Representable(InputAt(h, i)) && Representable(InputAt(h, j)) && MemberAt(h, i) == MemberAt(h, j)
    ensures SameFact(InputAt(h, i), InputAt(h, j))
  {
    HashedHas(h, total, i);
    HashedHas(h, total, j);
    PairFree(h, Hashed(h, total), FactPreimage(InputAt(h, i)), FactPreimage(InputAt(h, j)));
    HashIdentifiesFact(h, InputAt(h, i), InputAt(h, j));
  }

  /** Under collision freedom different fact indexes name different members. */
  lemma {:induction false} MemberInjective(h: HashFunction, total: nat, i: nat, j: nat)
    requires total <= MAX_DATASET && CollisionFree(h, Hashed(h, total)) && i < total && j < total
    ensures MemberAt(h, i) == MemberAt(h, j) ==> i == j
  {
    if MemberAt(h, i) == MemberAt(h, j) { SameMemberSameIndex(h, total, i, j); }
  }

  lemma {:induction false} SameMemberSameIndex(h: HashFunction, total: nat, i: nat, j: nat)
    requires total <= MAX_DATASET && CollisionFree(h, Hashed(h, total)) && i < total && j < total
    requires MemberAt(h, i) == MemberAt(h, j)
    ensures i == j
  {
    IndexFits(h, i);
    IndexFits(h, j);
    SameMemberSameFact(h, total, i, j);
    SameIndex(h, i, j);
    KeysDiffer(h, total, i, j);
    SameParts(i, j);
  }

  lemma {:induction false} SameParts(i: nat, j: nat)
    requires i / 5 == j / 5 && i % 5 == j % 5
    ensures i == j
  {
  }

  lemma {:induction false} IndexFits(h: HashFunction, i: nat)
    requires i < MAX_DATASET
    ensures Representable(InputAt(h, i))
  {
    InputFits(h, i / 5 + 1, i % 5);
  }

  lemma {:induction false} SameIndex(h: HashFunction, i: nat, j: nat)
    requires SameFact(InputAt(h, i), InputAt(h, j))
    ensures i % 5 == j % 5 && EntityKey(h, i / 5 + 1) == EntityKey(h, j / 5 + 1)
  {
    SameSlot(h, i / 5 + 1, i % 5, j / 5 + 1, j % 5);
  }

  // ---------- the algebra of ranges ----------

  ghost function RangeSet(f: nat -> Bytes, first: nat, last: nat): set<Bytes>
    requires first <= last
  {
    Elements(Range(f, first, last))
  }

  lemma {:induction false} RangeConcat(f: nat -> Bytes, a: nat, b: nat, c: nat)
    requires a <= b <= c
    ensures Range(f, a, b) + Range(f, b, c) == Range(f, a, c)
    ensures RangeSet(f, a, b) + RangeSet(f, b, c) == RangeSet(f, a, c)
  {
    var s, t, u := Range(f, a, b), Range(f, b, c), Range(f, a, c);
    assert forall i :: 0 <= i < |t| ==> u[|s| + i] == f(a + (|s| + i)) == f(b + i) == t[i];
    SplitSequence(s, t, u);
    ElementsConcat(s, t);
  }

  lemma {:induction false} SplitSequence(s: seq<Bytes>, t: seq<Bytes>, u: seq<Bytes>)
    requires |u| == |s| + |t|
    requires forall i :: 0 <= i < |s| ==> u[i] == s[i]
    requires forall i :: 0 <= i < |t| ==> u[|s| + i] == t[i]
    ensures s + t == u
  {
  }

  lemma {:induction false} ElementsConcat(s: seq<Bytes>, t: seq<Bytes>)
    ensures Elements(s + t) == Elements(s) + Elements(t)
  {
  }

  lemma {:induction false} DistinctHalves(s: seq<Bytes>, t: seq<Bytes>)
    requires Distinct(s + t)
    ensures Distinct(s) && Distinct(t) && Elements(s) !! Elements(t)
  {
    var u := s + t;
    assert forall i :: 0 <= i < |s| ==> u[i] == s[i];
    forall i, j | 0 <= i < j < |t| ensures t[i] != t[j] {
      assert u[|s| + i] == t[i] && u[|s| + j] == t[j];
    }
    forall x | x in s ensures x !in t {
      var i :| 0 <= i < |s| && s[i] == x;
      forall j | 0 <= j < |t| ensures t[j] != x {
        assert u[i] == x && u[|s| + j] == t[j];
      }
    }
  }

  lemma {:induction false} AllDistinct(h: HashFunction, total: nat)
    requires total <= MAX_DATASET && CollisionFree(h, Hashed(h, total))
    ensures Separate(MembersOf(h), total)
  {
    forall i: nat, j: nat | i < j < total ensures MembersOf(h)(i) != MembersOf(h)(j) {
      MembersApart(h, total, i, j);
    }
  }

  lemma {:induction false} MembersApart(h: HashFunction, total: nat, i: nat, j: nat)
    requires total <= MAX_DATASET && CollisionFree(h, Hashed(h, total)) && i < j < total
    ensures MembersOf(h)(i) != MembersOf(h)(j)
  {
    MemberIs(h, i);
    MemberIs(h, j);
    MemberInjective(h, total, i, j);
  }

  lemma {:induction false} MemberIs(h: HashFunction, i: nat)
    ensures MembersOf(h)(i) == MemberAt(h, i)
  {
  }

  ghost predicate Separate(f: nat -> Bytes, total: nat) {
    forall i: nat, j: nat :: i < j < total ==> f(i) != f(j)
  }

  lemma {:induction false} DistinctImages(f: nat -> Bytes, total: nat)
    requires Separate(f, total)
    ensures Distinct(Range(f, 0, total))
  {
    var r := Range(f, 0, total);
    assert forall i :: 0 <= i < total ==> r[i] == f(0 + i);
  }

  /** Part of a duplicate-free range. */
  lemma {:induction false} PartDistinct(f: nat -> Bytes, a: nat, b: nat, c: nat, d: nat)
    requires a <= b <= c <= d && Distinct(Range(f, a, d))
    ensures Distinct(Range(f, b, c)) && |RangeSet(f, b, c)| == c - b
  {
    RangeConcat(f, a, b, d);
    DistinctHalves(Range(f, a, b), Range(f, b, d));
    RangeConcat(f, b, c, d);
    DistinctHalves(Range(f, b, c), Range(f, c, d));
    DistinctSize(Range(f, b, c));
  }

  lemma {:induction false} RangesDisjoint(f: nat -> Bytes, a: nat, b: nat, c: nat)
    requires a <= b <= c && Distinct(Range(f, a, c))
    ensures RangeSet(f, a, b) !! RangeSet(f, b, c)
  {
    RangeConcat(f, a, b, c);
    DistinctHalves(Range(f, a, b), Range(f, b, c));
  }

  lemma {:induction false} ThreeParts(
    u: set<Bytes>, o: set<Bytes>, e: set<Bytes>, c: set<Bytes>, x: set<Bytes>, t: set<Bytes>)
    requires c == u + o && x == o + e && t == u + x && u !! x && c !! e
    ensures c * x == o && c - x == u && c + x == t
  {
  }

  /** Two overlapping index ranges: their members overlap, differ and join as the ranges do. */
  lemma {:induction false} RangeAlgebra(f: nat -> Bytes, n: nat, first: nat, last: nat)
    requires first <= n <= last && Distinct(Range(f, 0, last))
    ensures RangeSet(f, 0, n) * RangeSet(f, first, last) == RangeSet(f, first, n)
    ensures RangeSet(f, 0, n) - RangeSet(f, first, last) == RangeSet(f, 0, first)
    ensures RangeSet(f, 0, n) + RangeSet(f, first, last) == RangeSet(f, 0, last)
  {
    var u, o, e := RangeSet(f, 0, first), RangeSet(f, first, n), RangeSet(f, n, last);
    RangeConcat(f, 0, first, n);
    RangeConcat(f, first, n, last);
    RangeConcat(f, 0, first, last);
    RangesDisjoint(f, 0, first, last);
    RangesDisjoint(f, 0, n, last);
    ThreeParts(u, o, e, RangeSet(f, 0, n), RangeSet(f, first, last), RangeSet(f, 0, last));
  }

  // ---------- the report ----------

  datatype Request = Request(candidateFacts: int, existingFacts: int, overlapFacts: int, options: StreamSetOptions)

  datatype GenerationStats = GenerationStats(factEmissions: int, peakBufferedMembers: int, spillRuns: int,
      peakMergeHeads: int)

  datatype Summaries = Summaries(
    candidate: StreamSetSummary, existing: StreamSetSummary, overlap: StreamSetSummary,
    novel: StreamSetSummary, union: StreamSetSummary)

  datatype Report = Report(candidateRows: int, existingRows: int, formalScale: bool, sets: Summaries,
      stats: GenerationStats)

  datatype DependencyError = InvalidRequest | SummaryFailed | AlgebraViolated

  ghost predicate ValidRequest(q: Request) {
    && 0 < q.candidateFacts <= MAX_CANDIDATE && q.candidateFacts % 5 == 0
    && q.existingFacts == q.candidateFacts
    && 0 <= q.overlapFacts <= q.candidateFacts && q.overlapFacts % 5 == 0
  }

  ghost function RangeSummary(
    h: HashFunction, f: nat -> Bytes, role: Bytes, first: nat, last: nat, options: StreamSetOptions)
    : StreamSetSummary
    requires first <= last && OptionsOk(options)
  {
    SummaryOf(h, role, Range(f, first, last), EffectiveLimit(options), options.captureMembers)
  }

  /** The five sets of a candidate (0, n] and a history (first, last]. */
  ghost function SummariesAt(
    h: HashFunction, f: nat -> Bytes, n: nat, first: nat, last: nat, options: StreamSetOptions): Summaries
    requires first <= n <= last && OptionsOk(options)
  {
    Summaries(
      RangeSummary(h, f, SetAlgebra.CANDIDATE, 0, n, options),
      RangeSummary(h, f, SetAlgebra.EXISTING, first, last, options),
      RangeSummary(h, f, SetAlgebra.OVERLAP, first, n, options),
      RangeSummary(h, f, SetAlgebra.NOVEL, 0, first, options),
      RangeSummary(h, f, SetAlgebra.UNION, 0, last, options))
  }

  ghost predicate CardinalitiesExact(n: int, k: int, s: Summaries) {
    && s.candidate.cardinality == n && s.existing.cardinality == n && s.overlap.cardinality == k
    && s.novel.cardinality == n - k && s.union.cardinality == 2 * n - k
  }

  ghost function AlgebraIn(s: Summaries): SetAlgebra.SetAlgebraResult {
    SetAlgebra.SetAlgebraResult(
      IdentityOf(s.candidate), IdentityOf(s.existing), IdentityOf(s.overlap), IdentityOf(s.novel), IdentityOf(s.union))
  }

  lemma {:induction false} RangeIdentity(
    h: HashFunction, f: nat -> Bytes, role: Bytes, first: nat, last: nat, options: StreamSetOptions)
    requires first <= last && OptionsOk(options)
    ensures Identified(h, role, RangeSummary(h, f, role, first, last, options), RangeSet(f, first, last))
  {
    SummaryIdentifiesSet(h, role, Range(f, first, last), EffectiveLimit(options), options.captureMembers);
  }

  lemma {:induction false} AlgebraOfRanges(
    h: HashFunction, f: nat -> Bytes, n: nat, first: nat, last: nat, options: StreamSetOptions)
    requires first <= n <= last && OptionsOk(options) && Distinct(Range(f, 0, last))
    ensures AlgebraIn(SummariesAt(h, f, n, first, last, options))
            == SetAlgebra.AlgebraOf(h, RangeSet(f, 0, n), RangeSet(f, first, last))
  {
    var c, e := RangeSet(f, 0, n), RangeSet(f, first, last);
    var o, v, u := RangeSet(f, first, n), RangeSet(f, 0, first), RangeSet(f, 0, last);
    var s := SummariesAt(h, f, n, first, last, options);
    RangeAlgebra(f, n, first, last);
    RangeIdentities(h, f, n, first, last, options, s);
    AlgebraFrom(h, s, c, e, o, v, u);
  }

  ghost predicate Identified(h: HashFunction, role: Bytes, summary: StreamSetSummary, s: set<Bytes>) {
    IdentityOf(summary) == SetAlgebra.Identify(h, role, s)
  }

  lemma {:induction false} RangeIdentities(
    h: HashFunction, f: nat -> Bytes, n: nat, first: nat, last: nat, options: StreamSetOptions, s: Summaries)
    requires first <= n <= last && OptionsOk(options) && s == SummariesAt(h, f, n, first, last, options)
    ensures Identified(h, SetAlgebra.CANDIDATE, s.candidate, RangeSet(f, 0, n))
    ensures Identified(h, SetAlgebra.EXISTING, s.existing, RangeSet(f, first, last))
    ensures Identified(h, SetAlgebra.OVERLAP, s.overlap, RangeSet(f, first, n))
    ensures Identified(h, SetAlgebra.NOVEL, s.novel, RangeSet(f, 0, first))
    ensures Identified(h, SetAlgebra.UNION, s.union, RangeSet(f, 0, last))
  {
    RangeIdentity(h, f, SetAlgebra.CANDIDATE, 0, n, options);
    RangeIdentity(h, f, SetAlgebra.EXISTING, first, last, options);
    RangeIdentity(h, f, SetAlgebra.OVERLAP, first, n, options);
    RangeIdentity(h, f, SetAlgebra.NOVEL, 0, first, options);
    RangeIdentity(h, f, SetAlgebra.UNION, 0, last, options);
  }

  lemma {:induction false} AlgebraFrom(
    h: HashFunction, s: Summaries, c: set<Bytes>, e: set<Bytes>, o: set<Bytes>, v: set<Bytes>, u: set<Bytes>)
    requires o == c * e && v == c - e && u == c + e
    requires Identified(h, SetAlgebra.CANDIDATE, s.candidate, c) && Identified(h, SetAlgebra.EXISTING, s.existing, e)
    requires Identified(h, SetAlgebra.OVERLAP, s.overlap, o) && Identified(h, SetAlgebra.NOVEL, s.novel, v)
    requires Identified(h, SetAlgebra.UNION, s.union, u)
    ensures AlgebraIn(s) == SetAlgebra.AlgebraOf(h, c, e)
  {
  }

  lemma {:induction false} AlgebraCardinalities(
    h: HashFunction, f: nat -> Bytes, n: nat, k: nat, first: nat, last: nat, s: Summaries)
    requires n == first + k && last == first + n && Distinct(Range(f, 0, last))
    requires AlgebraIn(s) == SetAlgebra.AlgebraOf(h, RangeSet(f, 0, n), RangeSet(f, first, last))
    ensures CardinalitiesExact(n, k, s)
  {
    RangeAlgebra(f, n, first, last);
    RangeSizes(f, n, first, last);
  }

  lemma {:induction false} ExactRanges(f: nat -> Bytes, n: nat, first: nat, last: nat)
    requires first <= n <= last && Distinct(Range(f, 0, last)) && AllHashes(f)
    ensures SetAlgebra.ExactInput(Range(f, 0, n)) && SetAlgebra.ExactInput(Range(f, first, last))
  {
    PartDistinct(f, 0, 0, n, last);
    PartDistinct(f, 0, first, last, last);
    RangeValid(f, 0, n);
    RangeValid(f, first, last);
  }

  /** The cardinalities are n, n, k, n-k and 2n-k for an overlap of k = n - first, and the identities
      are those EvaluateSetAlgebra computes from the explicit member lists, which it accepts. */
  ghost predicate ReportIsExact(h: HashFunction, f: nat -> Bytes, n: nat, first: nat, last: nat, s: Summaries)
    requires first <= n <= last
  {
    && CardinalitiesExact(n, n - first, s)
    && SetAlgebra.ExactInput(Range(f, 0, n)) && SetAlgebra.ExactInput(Range(f, first, last))
    && AlgebraIn(s) == SetAlgebra.AlgebraOf(h, RangeSet(f, 0, n), RangeSet(f, first, last))
  }

  lemma {:induction false} RangesAreExact(
    h: HashFunction, f: nat -> Bytes, n: nat, first: nat, last: nat, options: StreamSetOptions)
    requires first <= n && last == first + n && OptionsOk(options) && Separate(f, last) && AllHashes(f)
    ensures ReportIsExact(h, f, n, first, last, SummariesAt(h, f, n, first, last, options))
  {
    DistinctImages(f, last);
    AlgebraOfRanges(h, f, n, first, last, options);
    AlgebraCardinalities(h, f, n, n - first, first, last, SummariesAt(h, f, n, first, last, options));
    ExactRanges(f, n, first, last);
  }

  lemma {:induction false} DependencyAlgebraIsExact(
    h: HashFunction, n: nat, first: nat, last: nat, options: StreamSetOptions)
    requires first <= n && last == first + n && last <= MAX_DATASET && OptionsOk(options)
    requires CollisionFree(h, Hashed(h, last))
    ensures ReportIsExact(h, MembersOf(h), n, first, last, SummariesAt(h, MembersOf(h), n, first, last, options))
  {
    AllDistinct(h, last);
    MembersAreHashes(h);
    RangesAreExact(h, MembersOf(h), n, first, last, options);
  }

  lemma {:induction false} RangeSizes(f: nat -> Bytes, n: nat, first: nat, last: nat)
    requires first <= n <= last && Distinct(Range(f, 0, last))
    ensures |RangeSet(f, 0, n)| == n && |RangeSet(f, first, last)| == last - first
            && |RangeSet(f, first, n)| == n - first
    ensures |RangeSet(f, 0, first)| == first && |RangeSet(f, 0, last)| == last
  {
    PartDistinct(f, 0, 0, n, last);
    PartDistinct(f, 0, first, last, last);
    PartDistinct(f, 0, first, n, last);
    PartDistinct(f, 0, 0, first, last);
    PartDistinct(f, 0, 0, last, last);
  }

  lemma {:induction false} MembersAreHashes(h: HashFunction)
    ensures AllHashes(MembersOf(h))
  {
    forall i: nat ensures IsHash(MembersOf(h)(i)) {
      MemberIsHash(h, i);
    }
  }

  ghost predicate IsHash(v: Bytes) {
    exists d: Digest :: v == HexEncode(d)
  }

  ghost predicate AllHashes(f: nat -> Bytes) {
    forall i: nat :: IsHash(f(i))
  }

  lemma {:induction false} MemberIsHash(h: HashFunction, i: nat)
    ensures IsHash(MembersOf(h)(i))
  {
    var digest := h(FactPreimage(InputAt(h, i)));
    assert MembersOf(h)(i) == HexEncode(digest);
  }

  lemma {:induction false} HashIsValid(v: Bytes)
    requires IsHash(v)
    ensures ValidSha256(v)
  {
    var d: Digest :| v == HexEncode(d);
    HexRoundTrip(d);
  }

  lemma {:induction false} RangeValid(f: nat -> Bytes, first: nat, last: nat)
    requires first <= last && AllHashes(f)
    ensures SetAlgebra.ValidMembers(Range(f, first, last))
  {
    var r := Range(f, first, last);
    forall i | 0 <= i < |r| ensures ValidSha256(r[i]) {
      assert r[i] == f(first + i);
      HashIsValid(r[i]);
    }
  }

  // ---------- every row's facts are accepted ----------

  lemma {:induction false} HexPrintable(d: Bytes)
    ensures forall i :: 0 <= i < 2 * |d| ==> 32 < HexEncode(d)[i] < 128
  {
    if d != [] {
      HexPrintable(d[1..]);
      var r := HexEncode(d);
      forall i | 0 <= i < |r| ensures 32 < r[i] < 128 {
        if i >= 2 { assert r[i] == HexEncode(d[1..])[i - 2]; }
      }
    }
  }

  lemma {:induction false} KeyIsToken(h: HashFunction, rank: int)
    ensures Token(EntityKey(h, rank))
  {
    HexPrintable(h(KeyPreimage(rank)));
    PrintableBoundary(EntityKey(h, rank));
  }

  lemma {:induction false} SourceTokens()
    ensures Token(NAMESPACE) && Token(SNAPSHOT)
  {
    PrintableBoundary(NAMESPACE);
    PrintableBoundary(SNAPSHOT);
  }

  lemma {:induction false} FieldToken(slot: int)
    ensures Token(Field(slot))
  {
    PrintableBoundary(Field(slot));
  }

  lemma {:induction false} TypeTokens()
    ensures Token(BIGINT) && Token(NUMERIC) && Token(INTEGER)
  {
    PrintableBoundary(BIGINT);
    PrintableBoundary(NUMERIC);
    PrintableBoundary(INTEGER);
  }

  lemma {:induction false} CanonicalTypes()
    ensures CanonicalSqlType(BIGINT) && CanonicalSqlType(NUMERIC) && CanonicalSqlType(INTEGER)
  {
  }

  lemma {:induction false} OneIsRank()
    ensures Ascii("i:1") == RankValue(1)
  {
    assert Numerals.FormatInt(1) == ['1' as int];
  }

  lemma {:induction false} ValueAccepted(other: ValueCheck, rank: int, slot: int)
    requires 0 < rank <= MAX_DATASET && 1 <= slot <= 4
    ensures slot == 1 ==> TypedValueOk(ValueRules(other), BIGINT, RankValue(rank))
    ensures slot == 2 ==> TypedValueOk(ValueRules(other), NUMERIC, Printers.CentsText(Cents(rank)))
    ensures slot >= 3 ==> TypedValueOk(ValueRules(other), INTEGER, Ascii("i:1"))
  {
    TypeTokens();
    CanonicalTypes();
    OneIsRank();
    BigintAccepted(other, rank);
    IntegerAccepted(other, 1);
    var p, q := Printers.CentsInLowestTerms(Cents(rank));
    NumericAccepted(other, p, q);
  }

  /** Every fact of every row of the dataset is accepted. */
  lemma {:induction false} RowAccepted(h: HashFunction, other: ValueCheck, rank: int, slot: int)
    requires 0 < rank <= MAX_DATASET && 0 <= slot < 5
    ensures Accepted(ValueRules(other), RowInput(h, rank, slot))
  {
    SourceTokens();
    KeyIsToken(h, rank);
    if slot > 0 {
      FieldToken(slot);
      ValueAccepted(other, rank, slot);
    }
  }

  // ---------- streaming ----------

  method ComposeCanonicalKey(h: HashFunction, domain: Bytes, values: seq<Bytes>) returns (r: Option<Bytes>)
    ensures r == if Token(domain) && values != []
                 then Some(HexEncode(h(Composed(domain, values)))) else None
  {
    if !Token(domain) || values == [] { return None; }
    var payload := Framed(domain) + U64(|values|);
    payload := WriteFields(payload, values);
    Assoc(Framed(domain), U64(|values|), FrameAll(values));
    return Some(HexEncode(h(payload)));
  }

  method KeyOf(h: HashFunction, rank: int) returns (r: Option<Bytes>)
    ensures r == Some(EntityKey(h, rank))
  {
    PrintableBoundary(BASE_ENTITY);
    var rankValue := Ascii("i:") + Numerals.FormatInt(rank);
    r := ComposeCanonicalKey(h, BASE_ENTITY, [NAMESPACE, MEMBER_RANK, BIGINT, rankValue]);
  }

  ghost function RowFacts(h: HashFunction, rank: int): (r: seq<CanonicalFact>)
    ensures |r| == 5 && forall slot :: 0 <= slot < 5 ==> r[slot] == FactOf(h, RowInput(h, rank, slot))
  {
    seq(5, slot => FactOf(h, RowInput(h, rank, slot)))
  }

  method BuildSlot(
    h: HashFunction, other: ValueCheck, ghost rank: int, ghost slot: int, key: Bytes, field: Bytes, sqlType: Bytes,
    value: Bytes)
    returns (r: Option<CanonicalFact>)
    requires 0 < rank <= MAX_DATASET && 0 < slot < 5
    requires BaseCellInput(NAMESPACE, SNAPSHOT, key, STABLE_ROLE + field, sqlType, value) == RowInput(h, rank, slot)
    ensures r == Some(FactOf(h, RowInput(h, rank, slot)))
  {
    RowAccepted(h, other, rank, slot);
    r := BuildBaseCellFact(h, ValueRules(other),
      BaseCellInput(NAMESPACE, SNAPSHOT, key, STABLE_ROLE + field, sqlType, value));
  }

  function AllFive(a: Option<CanonicalFact>, b: Option<CanonicalFact>, c: Option<CanonicalFact>,
                   d: Option<CanonicalFact>, e: Option<CanonicalFact>): Option<seq<CanonicalFact>> {
    if a.Some? && b.Some? && c.Some? && d.Some? && e.Some?
    then Some([a.value, b.value, c.value, d.value, e.value]) else None
  }

  lemma {:induction false} FiveFacts(h: HashFunction, rank: int)
    ensures RowFacts(h, rank) == [FactOf(h, RowInput(h, rank, 0)), FactOf(h, RowInput(h, rank, 1)),
              FactOf(h, RowInput(h, rank, 2)), FactOf(h, RowInput(h, rank, 3)), FactOf(h, RowInput(h, rank, 4))]
  {
    FiveOf(RowFacts(h, rank));
  }

  lemma {:induction false} FiveOf<T>(s: seq<T>)
    requires |s| == 5
    ensures s == [s[0], s[1], s[2], s[3], s[4]]
  {
  }

  method BuildFive(h: HashFunction, other: ValueCheck, rank: int, key: Bytes) returns (r: Option<seq<CanonicalFact>>)
    requires 0 < rank <= MAX_DATASET && key == EntityKey(h, rank)
    ensures r == Some(RowFacts(h, rank))
  {
    RowAccepted(h, other, rank, 0);
    var rankValue := Ascii("i:") + Numerals.FormatInt(rank);
    var cents := rank * 13 % 100_000 + 100;
    var metricValue := Printers.CanonicalCents(cents);
    var row := BuildBaseRowFact(h, ValueRules(other), BaseRowInput(NAMESPACE, SNAPSHOT, key));
    var one := BuildSlot(h, other, rank, 1, key, Ascii("member_rank"), BIGINT, rankValue);
    var metric := BuildSlot(h, other, rank, 2, key, Ascii("metric"), NUMERIC, metricValue);
    var family := BuildSlot(h, other, rank, 3, key, Ascii("family_id"), INTEGER, Ascii("i:1"));
    var partition := BuildSlot(h, other, rank, 4, key, Ascii("partition_key"), INTEGER, Ascii("i:1"));
    r := AllFive(row, one, metric, family, partition);
    FiveFacts(h, rank);
  }

  method BuildRowFacts(h: HashFunction, other: ValueCheck, rowIndex: nat) returns (r: Option<seq<CanonicalFact>>)
    ensures r == if rowIndex < MAX_DATASET / 5 then Some(RowFacts(h, rowIndex + 1)) else None
  {
    var rank := rowIndex + 1;
    if rank > MAX_DATASET / 5 { return None; }
    var key := KeyOf(h, rank);
    match key
    case None => return None;
    case Some(k) => r := BuildFive(h, other, rank, k);
  }

  function HashesOf(facts: seq<CanonicalFact>): (r: seq<Bytes>)
    ensures |r| == |facts| && forall i :: 0 <= i < |r| ==> r[i] == facts[i].sha256
  {
    seq(|facts|, i requires 0 <= i < |facts| => facts[i].sha256)
  }

  method AppendFacts(members: seq<Bytes>, facts: seq<CanonicalFact>) returns (r: seq<Bytes>)
    ensures r == members + HashesOf(facts)
  {
    r := members;
    for i := 0 to |facts|
      invariant r == members + HashesOf(facts)[..i]
    {
      r := r + [facts[i].sha256];
    }
  }

  lemma {:induction false} RowExtends(h: HashFunction, first: nat, row: nat)
    requires first <= 5 * row
    ensures MemberRange(h, first, 5 * row) + HashesOf(RowFacts(h, row + 1)) == MemberRange(h, first, 5 * row + 5)
  {
    RangeConcat(MembersOf(h), first, 5 * row, 5 * row + 5);
    RowMembers(h, row);
  }

  ghost function RowSlots(g: (int, int) -> Bytes, rank: int): seq<Bytes> {
    [g(rank, 0), g(rank, 1), g(rank, 2), g(rank, 3), g(rank, 4)]
  }

  lemma {:induction false} RowOfRange(g: (int, int) -> Bytes, row: nat)
    ensures RowSlots(g, row + 1) == Range(Flatten(g), 5 * row, 5 * row + 5)
  {
    var s, t := RowSlots(g, row + 1), Range(Flatten(g), 5 * row, 5 * row + 5);
    forall i | 0 <= i < 5 ensures s[i] == t[i] {
      assert t[i] == Flatten(g)(5 * row + i);
      SlotOf(row, i);
    }
  }

  lemma {:induction false} SlotOf(row: nat, slot: nat)
    requires slot < 5
    ensures (5 * row + slot) / 5 == row && (5 * row + slot) % 5 == slot
  {
  }

  lemma {:induction false} RowMembers(h: HashFunction, row: nat)
    ensures HashesOf(RowFacts(h, row + 1)) == MemberRange(h, 5 * row, 5 * row + 5)
  {
    RowOfRange(SlotMember(h), row);
    FiveFacts(h, row + 1);
    FiveOf(HashesOf(RowFacts(h, row + 1)));
  }

  ghost predicate RangeOk(first: int, last: int) {
    0 <= first <= last <= MAX_DATASET && first % 5 == 0 && last % 5 == 0
  }

  /** Emits a row-aligned range of facts in rank order; fails exactly on a range that is not row
      aligned or not inside the dataset. */
  method StreamExposureScaleFacts(
    h: HashFunction, other: ValueCheck, first: int, last: int) returns (r: Option<seq<Bytes>>)
    ensures r == if RangeOk(first, last) then Some(MemberRange(h, first, last)) else None
  {
    if first < 0 || last < first || last > MAX_DATASET || first % 5 != 0 || last % 5 != 0 { return None; }
    var members: seq<Bytes> := [];
    for rowIndex := first / 5 to last / 5
      invariant members == MemberRange(h, first, 5 * rowIndex)
    {
      var facts := BuildRowFacts(h, other, rowIndex);
      RowExtends(h, first, rowIndex);
      members := AppendFacts(members, if facts.Some? then facts.value else []);
    }
    return Some(members);
  }

  // ---------- the generator ----------

  ghost function RunsOf(n: nat, limit: int): int {
    if n <= limit || limit < 2 then 0 else Chunks(n, limit)
  }

  /** The summarize closure's accounting for one range of n facts. */
  ghost function AddCall(stats: GenerationStats, n: nat, limit: int): GenerationStats {
    GenerationStats(stats.factEmissions + n, Max(stats.peakBufferedMembers, Min(n, limit)),
                    stats.spillRuns + RunsOf(n, limit), Max(stats.peakMergeHeads, RunsOf(n, limit)))
  }

  const NO_STATS: GenerationStats := GenerationStats(0, 0, 0, 0)

  /** The statistics after summarising ranges of these sizes. */
  ghost function StatsAfter(sizes: seq<nat>, limit: int): GenerationStats {
    if sizes == [] then NO_STATS else AddCall(StatsAfter(sizes[..|sizes| - 1], limit), sizes[|sizes| - 1], limit)
  }

  /** The summariser's own statistics for a range of n facts. */
  ghost predicate IsCallStats(s: StreamSetStats, n: nat, limit: int) {
    limit >= 2 && s.(duplicateMembers := 0) == StatsOf(n, n, limit)
  }

  lemma {:induction false} RangeStats(
    h: HashFunction, f: nat -> Bytes, role: Bytes, first: nat, last: nat, options: StreamSetOptions, size: nat)
    requires first <= last && OptionsOk(options) && size == last - first
    ensures IsCallStats(RangeSummary(h, f, role, first, last, options).stats, size, EffectiveLimit(options))
  {
    SummaryStats(h, role, Range(f, first, last), EffectiveLimit(options), options.captureMembers);
  }

  lemma {:induction false} SummaryStats(h: HashFunction, role: Bytes, members: seq<Bytes>, limit: int, capture: nat)
    requires limit >= 2
    ensures IsCallStats(SummaryOf(h, role, members, limit, capture).stats, |members|, limit)
  {
  }

  /** Every summarised range updates the report's statistics, in the order of the calls. */
  method Accumulate(
    calls: seq<StreamSetStats>, ghost sizes: seq<nat>, ghost limit: int) returns (stats: GenerationStats)
    requires CallsMatch(calls, sizes, limit)
    ensures stats == StatsAfter(sizes, limit)
  {
    stats := NO_STATS;
    for i := 0 to |calls|
      invariant stats == StatsAfter(sizes[..i], limit)
    {
      stats := UpdateStats(stats, calls[i], sizes[..i], sizes[i], limit);
      assert sizes[..i + 1] == sizes[..i] + [sizes[i]];
    }
    assert sizes[..|sizes|] == sizes;
  }

  ghost predicate CallsMatch(calls: seq<StreamSetStats>, sizes: seq<nat>, limit: int) {
    |calls| == |sizes| && forall i :: 0 <= i < |calls| ==> IsCallStats(calls[i], sizes[i], limit)
  }

  method UpdateStats(stats: GenerationStats, s: StreamSetStats, ghost sizes: seq<nat>, ghost n: nat, ghost limit: int)
    returns (next: GenerationStats)
    requires IsCallStats(s, n, limit) && stats == StatsAfter(sizes, limit)
    ensures next == StatsAfter(sizes + [n], limit)
  {
    next := stats.(factEmissions := stats.factEmissions + s.inputMembers);
    if s.peakBufferedMembers > next.peakBufferedMembers {
      next := next.(peakBufferedMembers := s.peakBufferedMembers);
    }
    if s.peakMergeHeads > next.peakMergeHeads {
      next := next.(peakMergeHeads := s.peakMergeHeads);
    }
    next := next.(spillRuns := next.spillRuns + s.spillRuns);
    assert (sizes + [n])[..|sizes|] == sizes;
  }

  /** The sizes of the ranges each case of the switch summarises. */
  ghost function Calls(n: nat, k: nat, first: nat, last: nat): seq<nat> {
    if k == 0 then [n, n, last] else if k == n then [n] else [n, n, k, first, last]
  }

  /** The statistics the calls of each case report; shared passes and empty sets count once or not at all. */
  function CallsOf(s: Summaries, n: nat, k: nat): seq<StreamSetStats> {
    if k == 0 then [s.candidate.stats, s.existing.stats, s.union.stats]
    else if k == n then [s.candidate.stats]
    else [s.candidate.stats, s.existing.stats, s.overlap.stats, s.novel.stats, s.union.stats]
  }

  lemma {:induction false} InputStats(
    h: HashFunction, f: nat -> Bytes, n: nat, first: nat, last: nat, options: StreamSetOptions, s: Summaries)
    requires first <= n <= last && last == first + n && OptionsOk(options)
             && s == SummariesAt(h, f, n, first, last, options)
    ensures IsCallStats(s.candidate.stats, n, EffectiveLimit(options))
    ensures IsCallStats(s.existing.stats, n, EffectiveLimit(options))
  {
    RangeStats(h, f, SetAlgebra.CANDIDATE, 0, n, options, n);
    RangeStats(h, f, SetAlgebra.EXISTING, first, last, options, n);
  }

  lemma {:induction false} PartStats(
    h: HashFunction, f: nat -> Bytes, n: nat, k: nat, first: nat, last: nat, options: StreamSetOptions, s: Summaries)
    requires first <= n <= last && n == first + k && OptionsOk(options)
             && s == SummariesAt(h, f, n, first, last, options)
    ensures IsCallStats(s.overlap.stats, k, EffectiveLimit(options))
    ensures IsCallStats(s.novel.stats, first, EffectiveLimit(options))
  {
    RangeStats(h, f, SetAlgebra.OVERLAP, first, n, options, k);
    RangeStats(h, f, SetAlgebra.NOVEL, 0, first, options, first);
  }

  lemma {:induction false} UnionStats(
    h: HashFunction, f: nat -> Bytes, n: nat, first: nat, last: nat, options: StreamSetOptions, s: Summaries)
    requires first <= n <= last && OptionsOk(options) && s == SummariesAt(h, f, n, first, last, options)
    ensures IsCallStats(s.union.stats, last, EffectiveLimit(options))
  {
    RangeStats(h, f, SetAlgebra.UNION, 0, last, options, last);
  }

  /** The report's statistics are those of the case's calls. */
  method ReportStats(h: HashFunction, n: nat, k: nat, first: nat, last: nat, options: StreamSetOptions, s: Summaries)
    returns (stats: GenerationStats)
    requires n == first + k && last == first + n && OptionsOk(options)
    requires s == SummariesAt(h, MembersOf(h), n, first, last, options)
    ensures stats == StatsAfter(Calls(n, k, first, last), EffectiveLimit(options))
  {
    InputStats(h, MembersOf(h), n, first, last, options, s);
    PartStats(h, MembersOf(h), n, k, first, last, options, s);
    UnionStats(h, MembersOf(h), n, first, last, options, s);
    stats := CountCalls(s, n, k, first, last, EffectiveLimit(options));
  }

  method CountCalls(
    s: Summaries, n: nat, k: nat, ghost first: nat, ghost last: nat, ghost limit: int)
    returns (stats: GenerationStats)
    requires IsCallStats(s.candidate.stats, n, limit) && IsCallStats(s.existing.stats, n, limit)
    requires IsCallStats(s.overlap.stats, k, limit) && IsCallStats(s.novel.stats, first, limit)
    requires IsCallStats(s.union.stats, last, limit)
    ensures stats == StatsAfter(Calls(n, k, first, last), limit)
  {
    stats := Accumulate(CallsOf(s, n, k), Calls(n, k, first, last), limit);
  }

  ghost function CaseStats(n: nat, k: nat, limit: int): GenerationStats
    requires k <= n
  {
    StatsAfter(Calls(n, k, n - k, 2 * n - k), limit)
  }

  lemma {:induction false} RunsMonotone(a: nat, b: nat, limit: int)
    requires a <= b && limit >= 2
    ensures 0 <= RunsOf(a, limit) <= RunsOf(b, limit)
  {
    ChunksMonotone(a, b, limit);
  }

  /** Facts emitted: 4n, n or 5n-k; the spill runs are those of the ranges summarised, and the peaks
      those of the largest set, the union. */
  lemma {:induction false} CaseStatsClosedForm(n: nat, k: nat, limit: int)
    requires k <= n && n > 0 && limit >= 2
    ensures CaseStats(n, k, limit).factEmissions == (if k == 0 then 4 * n else if k == n then n else 5 * n - k)
    ensures CaseStats(n, k, limit).spillRuns
            == (if k == 0 then 2 * RunsOf(n, limit) + RunsOf(2 * n, limit)
                else if k == n then RunsOf(n, limit)
                else 2 * RunsOf(n, limit) + RunsOf(k, limit) + RunsOf(n - k, limit) + RunsOf(2 * n - k, limit))
    ensures PeaksAre(CaseStats(n, k, limit), 2 * n - k, limit)
  {
    if k == 0 {
      ThreeCalls(n, n, 2 * n, limit);
      GrowingPeaks(NO_STATS, n, n, limit);
      GrowingPeaks(AddCall(NO_STATS, n, limit), n, n, limit);
      GrowingPeaks(AddCall(AddCall(NO_STATS, n, limit), n, limit), n, 2 * n, limit);
    } else if k == n {
      OneCall(n, limit);
      GrowingPeaks(NO_STATS, n, n, limit);
    } else {
      PartialStats(n, k, limit);
    }
  }

  ghost predicate PeaksAre(s: GenerationStats, n: nat, limit: int) {
    s.peakBufferedMembers == Min(n, limit) && s.peakMergeHeads == RunsOf(n, limit)
  }

  /** The peaks are those of the largest range so far. */
  ghost predicate PeaksWithin(s: GenerationStats, n: nat, limit: int) {
    0 <= s.peakBufferedMembers <= Min(n, limit) && 0 <= s.peakMergeHeads <= RunsOf(n, limit)
  }

  lemma {:induction false} GrowingPeaks(s: GenerationStats, m: nat, n: nat, limit: int)
    requires limit >= 2 && m <= n && PeaksWithin(s, m, limit)
    ensures PeaksAre(AddCall(s, n, limit), n, limit) && PeaksWithin(AddCall(s, n, limit), n, limit)
  {
    RunsMonotone(m, n, limit);
  }

  lemma {:induction false} SmallerCall(s: GenerationStats, m: nat, n: nat, limit: int)
    requires limit >= 2 && n <= m && PeaksWithin(s, m, limit)
    ensures PeaksWithin(AddCall(s, n, limit), m, limit)
  {
    RunsMonotone(n, m, limit);
  }

  lemma {:induction false} PartialStats(n: nat, k: nat, limit: int)
    requires limit >= 2 && 0 < k < n
    ensures var s := StatsAfter([n, n, k, n - k, 2 * n - k], limit);
            && s.factEmissions == 5 * n - k && PeaksAre(s, 2 * n - k, limit)
            && s.spillRuns == 2 * RunsOf(n, limit) + RunsOf(k, limit) + RunsOf(n - k, limit) + RunsOf(2 * n - k, limit)
  {
    var one := AddCall(NO_STATS, n, limit);
    var two := AddCall(one, n, limit);
    var three := AddCall(two, k, limit);
    var four := AddCall(three, n - k, limit);
    FiveCalls(n, n, k, n - k, 2 * n - k, limit);
    GrowingPeaks(NO_STATS, 0, n, limit);
    SmallerCall(one, n, n, limit);
    SmallerCall(two, n, k, limit);
    SmallerCall(three, n, n - k, limit);
    GrowingPeaks(four, n, 2 * n - k, limit);
  }

  lemma {:induction false} OneCall(a: nat, limit: int)
    ensures StatsAfter([a], limit) == AddCall(NO_STATS, a, limit)
  {
    assert [a][..0] == [];
  }

  lemma {:induction false} ThreeCalls(a: nat, b: nat, c: nat, limit: int)
    ensures StatsAfter([a, b, c], limit) == AddCall(AddCall(AddCall(NO_STATS, a, limit), b, limit), c, limit)
  {
    assert [a, b, c][..2] == [a, b] && [a, b][..1] == [a];
    OneCall(a, limit);
  }

  lemma {:induction false} FiveCalls(a: nat, b: nat, c: nat, d: nat, e: nat, limit: int)
    ensures StatsAfter([a, b, c, d, e], limit) == AddCall(AddCall(StatsAfter([a, b, c], limit), d, limit), e, limit)
    ensures StatsAfter([a, b, c], limit) == AddCall(AddCall(AddCall(NO_STATS, a, limit), b, limit), c, limit)
  {
    assert [a, b, c, d, e][..4] == [a, b, c, d] && [a, b, c, d][..3] == [a, b, c];
    ThreeCalls(a, b, c, limit);
  }

  ghost predicate RowAligned(n: int) {
    0 < n <= MAX_CANDIDATE && n % 5 == 0
  }

  lemma {:induction false} RolesValid()
    ensures ValidRoles([SetAlgebra.CANDIDATE, SetAlgebra.NOVEL])
    ensures ValidRoles([SetAlgebra.CANDIDATE, SetAlgebra.EXISTING, SetAlgebra.OVERLAP, SetAlgebra.UNION])
    ensures forall role :: SetAlgebra.ValidRole(role) ==> ValidRoles([role])
  {
    assert |SetAlgebra.CANDIDATE| == 9 && |SetAlgebra.EXISTING| == 8 && |SetAlgebra.OVERLAP| == 7
        && |SetAlgebra.NOVEL| == 5 && |SetAlgebra.UNION| == 5;
  }

  method SummarizeMembers(h: HashFunction, roles: seq<Bytes>, members: seq<Bytes>, options: StreamSetOptions,
                          ghost f: nat -> Bytes, ghost first: nat, ghost last: nat)
    returns (r: Option<map<Bytes, StreamSetSummary>>)
    requires first <= last && members == Range(f, first, last) && AllHashes(f) && roles != [] && ValidRoles(roles)
    ensures r.Some? <==> OptionsOk(options)
    ensures r.Some? ==> forall role :: role in roles ==>
                          role in r.value && r.value[role] == RangeSummary(h, f, role, first, last, options)
  {
    RangeValid(f, first, last);
    var summaries := SummarizeSemanticSetRoles(h, roles, members, options);
    if summaries.Err? { return None; }
    r := Some(summaries.value);
  }

  method SummarizeRange(
    h: HashFunction, other: ValueCheck, roles: seq<Bytes>, first: int, last: int, options: StreamSetOptions)
    returns (r: Option<map<Bytes, StreamSetSummary>>)
    requires RangeOk(first, last) && roles != [] && ValidRoles(roles)
    ensures r.Some? <==> OptionsOk(options)
    ensures r.Some? ==> forall role :: role in roles ==>
                          role in r.value && r.value[role] == RangeSummary(h, MembersOf(h), role, first, last, options)
  {
    var members := StreamExposureScaleFacts(h, other, first, last);
    MembersAreHashes(h);
    r := SummarizeMembers(h, roles, if members.Some? then members.value else [], options, MembersOf(h), first, last);
  }

  method SummarizeOne(h: HashFunction, other: ValueCheck, role: Bytes, first: int, last: int, options: StreamSetOptions)
    returns (r: Option<StreamSetSummary>)
    requires RangeOk(first, last) && SetAlgebra.ValidRole(role)
    ensures r.Some? <==> OptionsOk(options)
    ensures r.Some? ==> r.value == RangeSummary(h, MembersOf(h), role, first, last, options)
  {
    RolesValid();
    var all := SummarizeRange(h, other, [role], first, last, options);
    if all.None? { return None; }
    assert role in [role];
    r := Some(all.value[role]);
  }

  method SummarizeEmpty(h: HashFunction, role: Bytes, options: StreamSetOptions) returns (r: Option<StreamSetSummary>)
    requires SetAlgebra.ValidRole(role)
    ensures r.Some? <==> OptionsOk(options)
    ensures r.Some? ==> forall f: nat -> Bytes, at: nat :: r.value == RangeSummary(h, f, role, at, at, options)
  {
    RolesValid();
    var summaries := SummarizeSemanticSetRoles(h, [role], [], options);
    if summaries.Err? { return None; }
    assert role in [role];
    r := Some(summaries.value[role]);
    forall f: nat -> Bytes, at: nat ensures Range(f, at, at) == [] { }
  }

  /** The report's five sets, unless a summary failed. */
  method AllSets(
    candidate: Option<StreamSetSummary>, existing: Option<StreamSetSummary>, overlap: Option<StreamSetSummary>,
    novel: Option<StreamSetSummary>, union: Option<StreamSetSummary>, ghost ok: bool, ghost want: Summaries)
    returns (r: Option<Summaries>)
    requires candidate.Some? == ok && existing.Some? == ok && overlap.Some? == ok
    requires novel.Some? == ok && union.Some? == ok
    requires ok ==> candidate.value == want.candidate && existing.value == want.existing
    requires ok ==> overlap.value == want.overlap && novel.value == want.novel && union.value == want.union
    ensures r.Some? == ok && (ok ==> r.value == want)
  {
    r := if candidate.Some? && existing.Some? && overlap.Some? && novel.Some? && union.Some?
         then Some(Summaries(candidate.value, existing.value, overlap.value, novel.value, union.value)) else None;
  }

  /** case 0: candidate and novel share one pass, the overlap is empty. */
  method NoOverlap(h: HashFunction, other: ValueCheck, n: int, first: int, last: int, options: StreamSetOptions)
    returns (r: Option<Summaries>)
    requires 0 <= n <= last <= MAX_DATASET && n % 5 == 0 && last % 5 == 0 && first == n
    ensures r.Some? <==> OptionsOk(options)
    ensures r.Some? ==> r.value == SummariesAt(h, MembersOf(h), n, first, last, options)
  {
    RolesValid();
    var roles := [SetAlgebra.CANDIDATE, SetAlgebra.NOVEL];
    var candidate := SummarizeRange(h, other, roles, 0, n, options);
    if candidate.None? { return None; }
    var existing := SummarizeOne(h, other, SetAlgebra.EXISTING, n, last, options);
    var union := SummarizeOne(h, other, SetAlgebra.UNION, 0, last, options);
    var zero := SummarizeEmpty(h, SetAlgebra.OVERLAP, options);
    assert roles[0] in roles && roles[1] in roles;
    r := AllSets(Some(candidate.value[roles[0]]), existing, zero, Some(candidate.value[roles[1]]), union,
                 true, SummariesAt(h, MembersOf(h), n, first, last, options));
  }

  /** case n: one pass serves four roles, nothing is novel. */
  method FullOverlap(h: HashFunction, other: ValueCheck, n: int, first: int, last: int, options: StreamSetOptions)
    returns (r: Option<Summaries>)
    requires 0 <= n <= MAX_DATASET && n % 5 == 0 && first == 0 && last == n
    ensures r.Some? <==> OptionsOk(options)
    ensures r.Some? ==> r.value == SummariesAt(h, MembersOf(h), n, first, last, options)
  {
    RolesValid();
    var roles := [SetAlgebra.CANDIDATE, SetAlgebra.EXISTING, SetAlgebra.OVERLAP, SetAlgebra.UNION];
    var full := SummarizeRange(h, other, roles, 0, n, options);
    if full.None? { return None; }
    var zero := SummarizeEmpty(h, SetAlgebra.NOVEL, options);
    assert roles[0] in roles && roles[1] in roles && roles[2] in roles && roles[3] in roles;
    r := AllSets(Some(full.value[roles[0]]), Some(full.value[roles[1]]), Some(full.value[roles[2]]), zero,
        Some(full.value[roles[3]]),
                 true, SummariesAt(h, MembersOf(h), n, first, last, options));
  }

  /** default: five passes over five ranges. */
  method PartialOverlap(h: HashFunction, other: ValueCheck, n: int, first: int, last: int, options: StreamSetOptions)
    returns (r: Option<Summaries>)
    requires 0 <= first <= n <= last <= MAX_DATASET && n % 5 == 0 && first % 5 == 0 && last % 5 == 0
    ensures r.Some? <==> OptionsOk(options)
    ensures r.Some? ==> r.value == SummariesAt(h, MembersOf(h), n, first, last, options)
  {
    var candidate := SummarizeOne(h, other, SetAlgebra.CANDIDATE, 0, n, options);
    if candidate.None? { return None; }
    var existing := SummarizeOne(h, other, SetAlgebra.EXISTING, first, last, options);
    var overlap := SummarizeOne(h, other, SetAlgebra.OVERLAP, first, n, options);
    var novel := SummarizeOne(h, other, SetAlgebra.NOVEL, 0, first, options);
    var union := SummarizeOne(h, other, SetAlgebra.UNION, 0, last, options);
    r := AllSets(candidate, existing, overlap, novel, union, true,
        SummariesAt(h, MembersOf(h), n, first, last, options));
  }

  /** Every range the generator streams is row aligned and inside the dataset. */
  lemma {:induction false} HistoryAligned(n: int, k: int)
    requires RowAligned(n) && 0 <= k <= n && k % 5 == 0
    ensures 2 * n - k <= MAX_DATASET && (n - k) % 5 == 0 && (2 * n - k) % 5 == 0
  {
  }

  /** The three cases describe the same five sets: candidate (0, n] and history (first, last]. */
  method SwitchOnOverlap(
    h: HashFunction, other: ValueCheck, n: int, k: int, first: int, last: int, options: StreamSetOptions)
    returns (r: Option<Summaries>)
    requires first == n - k && last == first + n && 0 <= first <= n <= last <= MAX_DATASET
    requires n % 5 == 0 && first % 5 == 0 && last % 5 == 0
    ensures r.Some? <==> OptionsOk(options)
    ensures r.Some? ==> r.value == SummariesAt(h, MembersOf(h), n, first, last, options)
  {
    if k == 0 {
      r := NoOverlap(h, other, n, first, last, options);
    } else if k == n {
      r := FullOverlap(h, other, n, first, last, options);
    } else {
      r := PartialOverlap(h, other, n, first, last, options);
    }
  }

  ghost predicate FormalScale(n: int) {
    n == 10_000 || n == 100_000 || n == 1_035_000
  }

  /** The report for a candidate (0, n] and a history (first, last]. */
  ghost function ReportAt(h: HashFunction, q: Request, first: nat, last: nat): Report
    requires 0 <= q.overlapFacts && first <= q.candidateFacts <= last && OptionsOk(q.options)
  {
    Report(q.candidateFacts / 5, q.existingFacts / 5, FormalScale(q.candidateFacts),
           SummariesAt(h, MembersOf(h), q.candidateFacts, first, last, q.options),
           StatsAfter(Calls(q.candidateFacts, q.overlapFacts, first, last), EffectiveLimit(q.options)))
  }

  ghost function OutcomeAt(h: HashFunction, q: Request, first: nat, last: nat): Result<Report, DependencyError>
    requires 0 <= q.overlapFacts && first <= q.candidateFacts <= last
  {
    if !OptionsOk(q.options) then Err(SummaryFailed)
    else if CardinalitiesExact(q.candidateFacts, q.overlapFacts, ReportAt(h, q, first, last).sets)
    then Ok(ReportAt(h, q, first, last)) else Err(AlgebraViolated)
  }

  method CheckCardinalities(n: int, k: int, s: Summaries) returns (ok: bool)
    ensures ok == CardinalitiesExact(n, k, s)
  {
    if s.candidate.cardinality != n || s.existing.cardinality != n || s.overlap.cardinality != k ||
       s.novel.cardinality != n - k || s.union.cardinality != 2 * n - k {
      return false;
    }
    return true;
  }

  method BuildReport(
    h: HashFunction, other: ValueCheck, q: Request, first: nat, last: nat)
    returns (r: Result<Report, DependencyError>)
    requires q.candidateFacts == first + q.overlapFacts && last == first + q.candidateFacts && 0 <= q.overlapFacts
    requires last <= MAX_DATASET && q.candidateFacts % 5 == 0 && first % 5 == 0 && last % 5 == 0
    ensures r == OutcomeAt(h, q, first, last)
  {
    var n, k := q.candidateFacts, q.overlapFacts;
    var sets := SwitchOnOverlap(h, other, n, k, first, last, q.options);
    if sets.None? { return Err(SummaryFailed); }
    var stats := ReportStats(h, n, k, first, last, q.options, sets.value);
    var checked := CheckCardinalities(n, k, sets.value);
    if !checked { return Err(AlgebraViolated); }
    var formal := n == 10_000 || n == 100_000 || n == 1_035_000;
    return Ok(Report(n / 5, q.existingFacts / 5, formal, sets.value, stats));
  }

  /** The three cases of the switch produce one and the same report, for the history (n-k, 2n-k]. */
  method GenerateExposureScaleDependency(h: HashFunction, other: ValueCheck, q: Request)
    returns (r: Result<Report, DependencyError>, first: int, last: int)
    ensures first == q.candidateFacts - q.overlapFacts && last == first + q.candidateFacts
    ensures r == if ValidRequest(q) then OutcomeAt(h, q, first, last) else Err(InvalidRequest)
  {
    first, last := q.candidateFacts - q.overlapFacts, 2 * q.candidateFacts - q.overlapFacts;
    if q.candidateFacts <= 0 || q.candidateFacts > MAX_CANDIDATE || q.candidateFacts % 5 != 0 ||
       q.existingFacts != q.candidateFacts ||
       q.overlapFacts < 0 || q.overlapFacts > q.candidateFacts || q.overlapFacts % 5 != 0 {
      r := Err(InvalidRequest);
      return;
    }
    HistoryAligned(q.candidateFacts, q.overlapFacts);
    r := BuildReport(h, other, q, first, last);
  }

  /** Without a hash collision the closing cardinality check cannot fire, and the report is exact. */
  lemma {:induction false} GeneratorSucceeds(h: HashFunction, q: Request, first: nat, last: nat)
    requires ValidRequest(q) && OptionsOk(q.options) && first == q.candidateFacts - q.overlapFacts
             && last == first + q.candidateFacts
    requires CollisionFree(h, Hashed(h, last))
    ensures OutcomeAt(h, q, first, last) == Ok(ReportAt(h, q, first, last))
    ensures ReportIsExact(h, MembersOf(h), q.candidateFacts, first, last, ReportAt(h, q, first, last).sets)
  {
    DependencyAlgebraIsExact(h, q.candidateFacts, first, last, q.options);
  }

  /** Five facts are one row, and the formal scales are the three published sizes. */
  lemma {:induction false} ReportCounts(h: HashFunction, q: Request, first: nat, last: nat)
    requires ValidRequest(q) && OptionsOk(q.options) && first <= q.candidateFacts <= last
    ensures var r := ReportAt(h, q, first, last);
            && 5 * r.candidateRows == q.candidateFacts && 5 * r.existingRows == q.existingFacts
            && (r.formalScale <==> r.candidateRows in {2_000, 20_000, 207_000})
  {
  }
}
