/** The frozen overlap schedule (evaluation/finalv5oracle/schedule.go): the target total is realised
    exactly by a common base plus one extra unit for the lowest-ranked samples. */
module Schedule {
  import opened GoBytes
  import opened Sorting

  const SAMPLES: int := 30
  const VERSION: Bytes := Ascii("taskgate-final-v5-outcome-overlap-schedule-v1")
  const SCHEDULE_DOMAIN: Bytes := Ascii("TASKGATE-FINAL-V5-OUTCOME-SCHEDULE-V1") + [0]
  const RANK_DOMAIN: Bytes := Ascii("TASKGATE-FINAL-V5-OUTCOME-SCHEDULE-RANK-V1") + [0]

  // ---------- ranks ----------

  datatype Rank = Rank(score: Bytes, sample: int)

  predicate RankLeq(a: Rank, b: Rank) {
    if a.score == b.score then a.sample <= b.sample else Leq(a.score, b.score)
  }

  lemma {:induction false} RankTotalOrder()
    ensures TotalOrder(RankLeq)
  {
    BytesTotalOrder();
  }

  /** One rank per sample, in sample order. */
  function RanksOf(scores: seq<Bytes>): (r: seq<Rank>)
    ensures |r| == |scores| && forall i :: 0 <= i < |r| ==> r[i] == Rank(scores[i], i)
  {
    seq(|scores|, i requires 0 <= i < |scores| => Rank(scores[i], i))
  }

  /** Sample j ranks before sample i: a lower score, or the same score and a lower index. */
  ghost predicate Precedes(scores: seq<Bytes>, j: int, i: int)
    requires 0 <= i < |scores| && 0 <= j < |scores|
  {
    Less(scores[j], scores[i]) || (scores[j] == scores[i] && j < i)
  }

  /** The samples that rank before sample i. */
  ghost function Before(scores: seq<Bytes>, i: int): set<int>
    requires 0 <= i < |scores|
  {
    set j | 0 <= j < |scores| && Precedes(scores, j, i)
  }

  /** For scores of one length the order is that of the numbers they spell. */
  lemma {:induction false} RanksAreNumeric(scores: seq<Bytes>, j: nat, i: nat)
    requires i < |scores| && j < |scores| && |scores[i]| == |scores[j]|
    ensures Precedes(scores, j, i) <==>
            FromBigEndian(scores[j]) < FromBigEndian(scores[i]) ||
            (FromBigEndian(scores[j]) == FromBigEndian(scores[i]) && j < i)
  {
    ByteOrderIsNumeric(scores[j], scores[i]);
    FromBigEndianRoundTrip(scores[j]);
    FromBigEndianRoundTrip(scores[i]);
  }

  /** The sorted ranks enumerate the samples without repetition. */
  lemma {:induction false} SortedRanks(scores: seq<Bytes>)
    ensures var s := Sort(RankLeq, RanksOf(scores));
            && |s| == |scores| && SortedBy(RankLeq, s)
            && (forall p :: 0 <= p < |s| ==>
                  0 <= s[p].sample < |scores| && s[p] == Rank(scores[s[p].sample], s[p].sample))
            && (forall i :: 0 <= i < |scores| ==> Rank(scores[i], i) in s)
            && (forall p, q :: 0 <= p < q < |s| ==> s[p].sample != s[q].sample)
  {
    var r := RanksOf(scores);
    var s := Sort(RankLeq, r);
    RankTotalOrder();
    SortIsSortedPermutation(RankLeq, r);
    forall p | 0 <= p < |s| ensures 0 <= s[p].sample < |scores| && s[p] == Rank(scores[s[p].sample], s[p].sample) {
      assert s[p] in multiset(s);
      assert s[p] in r;
    }
    forall i | 0 <= i < |scores| ensures Rank(scores[i], i) in s {
      assert r[i] in multiset(r);
    }
    forall p, q | 0 <= p < q < |s| ensures s[p].sample != s[q].sample {
      OnceOnly(r, s[p]);
      if s[p] == s[q] { OccursTwice(s, p, q); }
    }
  }

  lemma {:induction false} OnceOnly(r: seq<Rank>, x: Rank)
    requires forall i :: 0 <= i < |r| ==> r[i].sample == i
    ensures multiset(r)[x] <= 1
  {
    if r != [] {
      var n := |r| - 1;
      OnceOnly(r[..n], x);
      assert r == r[..n] + [r[n]];
      if x == r[n] { assert x !in r[..n]; }
    }
  }

  ghost function FirstSamples(s: seq<Rank>, p: nat): set<int>
    requires p <= |s|
  {
    set k | 0 <= k < p :: s[k].sample
  }

  lemma {:induction false} FirstSamplesCount(s: seq<Rank>, p: nat)
    requires p <= |s| && forall a, b :: 0 <= a < b < |s| ==> s[a].sample != s[b].sample
    ensures |FirstSamples(s, p)| == p
  {
    if p > 0 {
      FirstSamplesCount(s, p - 1);
      assert FirstSamples(s, p) == FirstSamples(s, p - 1) + {s[p - 1].sample};
      assert s[p - 1].sample !in FirstSamples(s, p - 1);
    }
  }

  /** A sample's position in the sorted ranks is the number of samples before it. */
  lemma {:induction false} PositionIsCount(scores: seq<Bytes>, p: nat)
    requires p < |scores|
    ensures var s := Sort(RankLeq, RanksOf(scores));
            0 <= s[p].sample < |scores| && |Before(scores, s[p].sample)| == p
  {
    var s := Sort(RankLeq, RanksOf(scores));
    SortedRanks(scores);
    FirstSamplesCount(s, p);
    FirstSamplesAreBefore(scores, s, p);
  }

  lemma {:induction false} FirstSamplesAreBefore(scores: seq<Bytes>, s: seq<Rank>, p: nat)
    requires |s| == |scores| && SortedBy(RankLeq, s) && p < |s|
    requires forall k :: 0 <= k < |s| ==> 0 <= s[k].sample < |scores| && s[k] == Rank(scores[s[k].sample], s[k].sample)
    requires forall i :: 0 <= i < |scores| ==> Rank(scores[i], i) in s
    requires forall a, b :: 0 <= a < b < |s| ==> s[a].sample != s[b].sample
    ensures FirstSamples(s, p) == Before(scores, s[p].sample)
  {
    var i := s[p].sample;
    RankTotalOrder();
    assert forall k :: p < k < |s| ==> RankLeq(s[p], s[k]);
    forall j ensures j in FirstSamples(s, p) <==> j in Before(scores, i) {
      if j in FirstSamples(s, p) {
        var k :| 0 <= k < p && s[k].sample == j;
        assert RankLeq(s[k], s[p]);
        PrecedesIsRank(scores, j, i);
      }
      if j in Before(scores, i) {
        PrecedesIsRank(scores, j, i);
        var k :| 0 <= k < |s| && s[k] == Rank(scores[j], j);
      }
    }
  }

  lemma {:induction false} PrecedesIsRank(scores: seq<Bytes>, j: nat, i: nat)
    requires i < |scores| && j < |scores|
    ensures Precedes(scores, j, i) <==> j != i && RankLeq(Rank(scores[j], j), Rank(scores[i], i))
  {
  }

  // ---------- the schedule ----------

  datatype OverlapSchedule = OverlapSchedule(
    version: Bytes, seed: int, candidateCardinality: int, targetPercent: int, measuredSamples: int,
    perSample: seq<int>, totalCandidates: int, totalOverlap: int, sha256: Bytes)

  datatype ScheduleError = BadCardinality | BadPercent | Inexact | ExceedsCandidate

  predicate ValidCell(cardinality: int, percent: int) {
    cardinality in {1, 100, 10_000} && percent in {0, 50, 90, 100}
  }

  ghost function TotalOverlap(cardinality: nat, percent: nat): nat {
    SAMPLES * cardinality * percent / 100
  }

  /** The numbers a schedule commits to, in the order they are written. */
  ghost function Words(s: OverlapSchedule): seq<int> {
    [s.seed, s.candidateCardinality, s.targetPercent, s.measuredSamples, |s.perSample|] + s.perSample
    + [s.totalCandidates, s.totalOverlap]
  }

  ghost function SchedulePreimage(s: OverlapSchedule): Bytes {
    SCHEDULE_DOMAIN + (Framed(s.version) + U64All(Words(s)))
  }

  ghost function ScheduleDigest(h: HashFunction, s: OverlapSchedule): Bytes {
    HexEncode(h(SchedulePreimage(s)))
  }

  ghost function ScorePreimage(seed: int, cardinality: int, percent: int, sample: int): Bytes {
    RANK_DOMAIN + U64All([seed, cardinality, percent, sample])
  }

  /** The scores of the samples, which count from one. */
  ghost function ScoresOf(h: HashFunction, seed: int, cardinality: int, percent: int): (r: seq<Bytes>)
    ensures |r| == SAMPLES
  {
    seq(SAMPLES, i => h(ScorePreimage(seed, cardinality, percent, i + 1)))
  }

  lemma {:induction false} U64AllSnoc(values: seq<int>, v: int)
    ensures U64All(values + [v]) == U64All(values) + U64(v)
  {
    if values == [] {
      assert U64All([v]) == U64(v) + U64All([v][1..]);
    } else {
      U64AllSnoc(values[1..], v);
      assert (values + [v])[1..] == values[1..] + [v] && (values + [v])[0] == values[0];
      Assoc(U64(values[0]), U64All(values[1..]), U64(v));
    }
  }

  method WriteWords(before: Bytes, values: seq<int>) returns (stream: Bytes)
    ensures stream == before + U64All(values)
  {
    stream := before;
    for i := 0 to |values|
      invariant stream == before + U64All(values[..i])
    {
      U64AllSnoc(values[..i], values[i]);
      assert values[..i + 1] == values[..i] + [values[i]];
      Assoc(before, U64All(values[..i]), U64(values[i]));
      stream := stream + U64(values[i]);
    }
    assert values[..|values|] == values;
  }

  /** hashOutcomeOverlapSchedule. */
  method HashSchedule(h: HashFunction, s: OverlapSchedule) returns (digest: Bytes)
    ensures digest == ScheduleDigest(h, s)
  {
    var head := [s.seed, s.candidateCardinality, s.targetPercent, s.measuredSamples, |s.perSample|];
    var stream := WriteWords(SCHEDULE_DOMAIN + Framed(s.version), head + s.perSample);
    stream := WriteWords(stream, [s.totalCandidates, s.totalOverlap]);
    U64AllConcat(head + s.perSample, [s.totalCandidates, s.totalOverlap]);
    Assoc(SCHEDULE_DOMAIN + Framed(s.version), U64All(head + s.perSample), U64All([s.totalCandidates, s.totalOverlap]));
    Assoc(SCHEDULE_DOMAIN, Framed(s.version), U64All(Words(s)));
    digest := HexEncode(h(stream));
  }

  lemma {:induction false} U64AllConcat(a: seq<int>, b: seq<int>)
    ensures U64All(a + b) == U64All(a) + U64All(b)
  {
    if a == [] {
      assert a + b == b;
    } else {
      U64AllConcat(a[1..], b);
      assert (a + b)[1..] == a[1..] + b && (a + b)[0] == a[0];
      Assoc(U64(a[0]), U64All(a[1..]), U64All(b));
    }
  }

  method Scores(h: HashFunction, seed: int, cardinality: int, percent: int) returns (scores: seq<Bytes>)
    ensures scores == ScoresOf(h, seed, cardinality, percent)
  {
    scores := [];
    for index := 0 to SAMPLES
      invariant scores == ScoresOf(h, seed, cardinality, percent)[..index]
    {
      var stream := RANK_DOMAIN + U64(seed) + U64(cardinality) + U64(percent) + U64(index + 1);
      FourWords(seed, cardinality, percent, index + 1);
      scores := scores + [h(stream)];
    }
  }

  lemma {:induction false} FourWords(a: int, b: int, c: int, d: int)
    ensures RANK_DOMAIN + U64(a) + U64(b) + U64(c) + U64(d) == ScorePreimage(a, b, c, d)
  {
    U64AllSnoc([], a);
    U64AllSnoc([a], b);
    U64AllSnoc([a, b], c);
    U64AllSnoc([a, b, c], d);
    assert [] + [a] == [a] && [a] + [b] == [a, b] && [a, b] + [c] == [a, b, c] && [a, b, c] + [d] == [a, b, c, d];
    assert U64All([]) + U64(a) == U64(a);
    Assoc(RANK_DOMAIN, U64(a), U64(b));
    Assoc(RANK_DOMAIN, U64(a) + U64(b), U64(c));
    Assoc(RANK_DOMAIN, U64(a) + U64(b) + U64(c), U64(d));
  }

  /** Everything an int64 can hold. */
  ghost predicate Int64Fields(s: OverlapSchedule) {
    Fits(s.version) && |s.perSample| < TWO63 && AllInt64(Words(s))
  }

  ghost predicate AllInt64(values: seq<int>) {
    forall i :: 0 <= i < |values| ==> -TWO63 <= values[i] < TWO63
  }

  /** The digest binds the whole schedule: without a collision, two schedules share it exactly when they
      differ in nothing but the digest field. */
  lemma {:induction false} DigestBindsSchedule(h: HashFunction, a: OverlapSchedule, b: OverlapSchedule)
    requires Int64Fields(a) && Int64Fields(b) && CollisionFree(h, {SchedulePreimage(a), SchedulePreimage(b)})
    ensures ScheduleDigest(h, a) == ScheduleDigest(h, b) <==> a.(sha256 := []) == b.(sha256 := [])
  {
    if ScheduleDigest(h, a) == ScheduleDigest(h, b) {
      HexRoundTrip(h(SchedulePreimage(a)));
      HexRoundTrip(h(SchedulePreimage(b)));
      PrefixCancel(SCHEDULE_DOMAIN, Framed(a.version) + U64All(Words(a)), SCHEDULE_DOMAIN,
                   Framed(b.version) + U64All(Words(b)));
      FramedCancel(a.version, U64All(Words(a)), b.version, U64All(Words(b)));
      U64AllInjective(Words(a), Words(b));
      SameWords(a, b);
    }
  }

  lemma {:induction false} U64AllInjective(a: seq<int>, b: seq<int>)
    requires U64All(a) == U64All(b) && AllInt64(a) && AllInt64(b)
    ensures a == b
  {
    assert 8 * |a| == 8 * |b|;
    forall k | 0 <= k < |a| ensures a[k] == b[k] {
      WordsRead(a, k, []);
      WordsRead(b, k, []);
      assert U64All(a) + [] == U64All(b) + [];
      SameResidue(a[k], b[k]);
    }
  }

  lemma {:induction false} SameResidue(v: int64, w: int64)
    requires v % TWO64 == w % TWO64
    ensures v == w
  {
    assert v % TWO64 == if v >= 0 then v as int else v as int + TWO64;
    assert w % TWO64 == if w >= 0 then w as int else w as int + TWO64;
  }

  lemma {:induction false} SameWords(a: OverlapSchedule, b: OverlapSchedule)
    requires a.version == b.version && Words(a) == Words(b)
    ensures a.(sha256 := []) == b.(sha256 := [])
  {
    var v, w := Words(a), Words(b);
    assert v[0] == w[0] && v[1] == w[1] && v[2] == w[2] && v[3] == w[3] && v[4] == w[4];
    assert v[5..5 + |a.perSample|] == a.perSample && w[5..5 + |b.perSample|] == b.perSample;
    assert v[|v| - 2] == a.totalCandidates && v[|v| - 1] == a.totalOverlap;
    assert w[|w| - 2] == b.totalCandidates && w[|w| - 1] == b.totalOverlap;
  }

  /** base for everyone, and one more for the samples with fewer than `remainder` samples before them. */
  ghost function Shares(scores: seq<Bytes>, total: nat): (r: seq<int>)
    requires |scores| > 0
    ensures |r| == |scores|
    ensures forall i :: 0 <= i < |r| ==>
              r[i] == total / |scores| + if |Before(scores, i)| < total % |scores| then 1 else 0
  {
    seq(|scores|, i requires 0 <= i < |scores| =>
      total / |scores| + if |Before(scores, i)| < total % |scores| then 1 else 0)
  }

  ghost function Expected(h: HashFunction, seed: int, cardinality: nat, percent: nat): OverlapSchedule {
    var total := TotalOverlap(cardinality, percent);
    var s := OverlapSchedule(VERSION, seed, cardinality, percent, SAMPLES,
                             Shares(ScoresOf(h, seed, cardinality, percent), total), SAMPLES * cardinality, total, []);
    Sealed(h, s)
  }

  ghost function Sealed(h: HashFunction, s: OverlapSchedule): OverlapSchedule {
    s.(sha256 := ScheduleDigest(h, s))
  }

  function Sum(s: seq<int>): int {
    if s == [] then 0 else Sum(s[..|s| - 1]) + s[|s| - 1]
  }

  lemma {:induction false} SumUpdate(s: seq<int>, i: nat, v: int)
    requires i < |s|
    ensures Sum(s[i := v]) == Sum(s) - s[i] + v
  {
    var n := |s| - 1;
    if i == n {
      assert s[i := v][..n] == s[..n];
    } else {
      assert s[i := v][..n] == s[..n][i := v];
      SumUpdate(s[..n], i, v);
    }
  }

  lemma {:induction false} SumConstant(s: seq<int>, c: int)
    requires forall i :: 0 <= i < |s| ==> s[i] == c
    ensures Sum(s) == |s| * c
  {
    if s != [] { SumConstant(s[..|s| - 1], c); }
  }

  /** Fill with the base, then walk the sorted ranks and increment the first `remainder` samples. */
  method Distribute(scores: seq<Bytes>, base: int, remainder: nat) returns (perSample: seq<int>)
    requires |scores| > 0 && remainder < |scores|
    ensures |perSample| == |scores|
    ensures Sum(perSample) == |scores| * base + remainder
    ensures forall i :: 0 <= i < |perSample| ==> perSample[i] == base + if |Before(scores, i)| < remainder then 1 else 0
  {
    var shares := new int[|scores|](_ => base);
    SumConstant(shares[..], base);
    var ranks := Sort(RankLeq, RanksOf(scores));
    SortedRanks(scores);
    Increment(shares, ranks, base, remainder);
    perSample := shares[..];
    forall i | 0 <= i < |perSample| ensures perSample[i] == base + if |Before(scores, i)| < remainder then 1 else 0 {
      var k :| 0 <= k < |ranks| && ranks[k] == Rank(scores[i], i);
      PositionIsCount(scores, k);
      assert shares[ranks[k].sample] == base + if k < remainder then 1 else 0;
    }
  }

  method Increment(shares: array<int>, ranks: seq<Rank>, base: int, remainder: nat)
    requires remainder <= |ranks|
    requires forall k :: 0 <= k < |ranks| ==> 0 <= ranks[k].sample < shares.Length && shares[ranks[k].sample] == base
    requires forall p, q :: 0 <= p < q < |ranks| ==> ranks[p].sample != ranks[q].sample
    modifies shares
    ensures Sum(shares[..]) == old(Sum(shares[..])) + remainder
    ensures forall k :: 0 <= k < |ranks| ==> shares[ranks[k].sample] == base + if k < remainder then 1 else 0
  {
    for index := 0 to remainder
      invariant Sum(shares[..]) == old(Sum(shares[..])) + index
      invariant forall k :: 0 <= k < |ranks| ==> shares[ranks[k].sample] == base + if k < index then 1 else 0
    {
      var sample := ranks[index].sample;
      ghost var was := shares[..];
      SumUpdate(was, sample, was[sample] + 1);
      shares[sample] := shares[sample] + 1;
      assert shares[..] == was[sample := was[sample] + 1];
    }
  }

  /** What the cell arithmetic gives for the twelve admitted cells. */
  lemma {:induction false} CellArithmetic(cardinality: int, percent: int)
    requires ValidCell(cardinality, percent)
    ensures var total := TotalOverlap(cardinality, percent);
            && (SAMPLES * cardinality * percent) % 100 == 0
            && 0 <= total / SAMPLES && 100 * total == SAMPLES * cardinality * percent
            && total / SAMPLES + (if total % SAMPLES > 0 then 1 else 0) <= cardinality
  {
  }

  // ---------- the shares, for any scores and any total ----------

  ghost function Extra(scores: seq<Bytes>, m: nat): set<int> {
    set i | 0 <= i < |scores| && |Before(scores, i)| < m
  }

  /** Exactly m samples have fewer than m samples before them: the first m in rank order. */
  lemma {:induction false} ExtraSamples(scores: seq<Bytes>, m: nat)
    requires m <= |scores|
    ensures |Extra(scores, m)| == m
  {
    var s := Sort(RankLeq, RanksOf(scores));
    SortedRanks(scores);
    FirstSamplesCount(s, m);
    forall i ensures i in Extra(scores, m) <==> i in FirstSamples(s, m) {
      if i in FirstSamples(s, m) {
        var k :| 0 <= k < m && s[k].sample == i;
        PositionIsCount(scores, k);
      }
      if i in Extra(scores, m) {
        var k :| 0 <= k < |s| && s[k] == Rank(scores[i], i);
        PositionIsCount(scores, k);
      }
    }
    assert Extra(scores, m) == FirstSamples(s, m);
  }

  ghost function Below(extra: set<int>, n: nat): set<int> {
    set i | 0 <= i < n && i in extra
  }

  lemma {:induction false} BelowStep(extra: set<int>, n: nat)
    ensures |Below(extra, n + 1)| == |Below(extra, n)| + if n in extra then 1 else 0
  {
    assert Below(extra, n + 1) == Below(extra, n) + if n in extra then {n} else {};
  }

  lemma {:induction false} SumIndicator(r: seq<int>, base: int, extra: set<int>)
    requires forall i :: 0 <= i < |r| ==> r[i] == base + if i in extra then 1 else 0
    ensures Sum(r) == |r| * base + |Below(extra, |r|)|
  {
    if r != [] {
      var n := |r| - 1;
      SumIndicator(r[..n], base, extra);
      BelowStep(extra, n);
      assert |r| * base == n * base + base;
    }
  }

  lemma {:induction false} Quotient(total: nat, n: nat)
    requires n > 0
    ensures total == n * (total / n) + total % n && total % n < n
  {
  }

  /** The shares sum exactly to the total, whatever the scores. */
  lemma {:induction false} SharesSum(scores: seq<Bytes>, total: nat)
    requires |scores| > 0
    ensures Sum(Shares(scores, total)) == total
  {
    Quotient(total, |scores|);
    SumOfShares(scores, Shares(scores, total), total / |scores|, total % |scores|);
  }

  lemma {:induction false} SumOfShares(scores: seq<Bytes>, r: seq<int>, base: int, m: nat)
    requires m <= |scores| == |r|
    requires forall i :: 0 <= i < |r| ==> r[i] == base + if |Before(scores, i)| < m then 1 else 0
    ensures Sum(r) == |scores| * base + m
  {
    var extra := Extra(scores, m);
    assert forall i :: 0 <= i < |r| ==> (i in extra <==> |Before(scores, i)| < m);
    SumIndicator(r, base, extra);
    ExtraSamples(scores, m);
    assert Below(extra, |r|) == extra;
  }

  /** For every seed, and whatever the scores: the shares sum exactly to the target, differ by at most
      one, never exceed the candidate, and the extra units go to the lowest-ranked samples. */
  lemma {:induction false} SharesAreFair(scores: seq<Bytes>, cardinality: nat, percent: nat)
    requires ValidCell(cardinality, percent) && |scores| == SAMPLES
    ensures var r := Shares(scores, TotalOverlap(cardinality, percent));
            && Sum(r) == TotalOverlap(cardinality, percent)
            && 100 * Sum(r) == SAMPLES * cardinality * percent
            && (forall i :: 0 <= i < SAMPLES ==> 0 <= r[i] <= cardinality)
            && (forall i, j :: 0 <= i < SAMPLES && 0 <= j < SAMPLES ==> r[i] - r[j] <= 1)
            && (forall i, j :: 0 <= i < SAMPLES && 0 <= j < SAMPLES && r[i] < r[j] ==>
                  |Before(scores, j)| < |Before(scores, i)|)
  {
    CellArithmetic(cardinality, percent);
    SharesSum(scores, TotalOverlap(cardinality, percent));
  }

  // ---------- the builder ----------

  ghost predicate WithinCandidate(shares: seq<int>, cardinality: int) {
    forall i :: 0 <= i < |shares| ==> 0 <= shares[i] <= cardinality
  }

  /** The guard loop at the end. */
  method CheckShares(shares: seq<int>, cardinality: int) returns (ok: bool)
    ensures ok == WithinCandidate(shares, cardinality)
  {
    for i := 0 to |shares|
      invariant WithinCandidate(shares[..i], cardinality)
    {
      if shares[i] < 0 || shares[i] > cardinality { return false; }
      assert shares[..i + 1] == shares[..i] + [shares[i]];
    }
    assert shares[..|shares|] == shares;
    return true;
  }

  /** The cell for any cardinality and percentage, with the source's two guards on the arithmetic. */
  method BuildCell(
    h: HashFunction, seed: int, cardinality: nat, percent: nat) returns (r: Result<OverlapSchedule, ScheduleError>)
    ensures r == if SAMPLES * cardinality * percent % 100 != 0 then Err(Inexact)
                 else if !WithinCandidate(Expected(h, seed, cardinality, percent).perSample, cardinality)
                     then Err(ExceedsCandidate)
                 else Ok(Expected(h, seed, cardinality, percent))
  {
    var totalCandidates := SAMPLES * cardinality;
    if totalCandidates * percent % 100 != 0 { return Err(Inexact); }
    var totalOverlap := totalCandidates * percent / 100;
    var scores := Scores(h, seed, cardinality, percent);
    var perSample := PerSample(scores, totalOverlap);
    var ok := CheckShares(perSample, cardinality);
    if !ok { return Err(ExceedsCandidate); }
    var s := OverlapSchedule(VERSION, seed, cardinality, percent, SAMPLES, perSample, totalCandidates, totalOverlap,
        []);
    var digest := HashSchedule(h, s);
    r := Ok(s.(sha256 := digest));
  }

  method PerSample(scores: seq<Bytes>, totalOverlap: nat) returns (perSample: seq<int>)
    requires |scores| == SAMPLES
    ensures perSample == Shares(scores, totalOverlap)
  {
    var base, remainder := totalOverlap / SAMPLES, totalOverlap % SAMPLES;
    perSample := Distribute(scores, base, remainder);
  }

  /** Of the twelve admitted cells none is inexact and none exceeds its candidate. */
  method BuildOutcomeOverlapSchedule(h: HashFunction, seed: int, cardinality: int, percent: int)
    returns (r: Result<OverlapSchedule, ScheduleError>)
    ensures r.Err? ==> r.error == BadCardinality || r.error == BadPercent
    ensures r.Ok? <==> ValidCell(cardinality, percent)
    ensures r.Ok? ==> r.value == Expected(h, seed, cardinality, percent)
    ensures r.Ok? ==> Sum(r.value.perSample) == r.value.totalOverlap
  {
    if cardinality != 1 && cardinality != 100 && cardinality != 10_000 { return Err(BadCardinality); }
    if percent != 0 && percent != 50 && percent != 90 && percent != 100 { return Err(BadPercent); }
    GuardsHold(h, seed, cardinality, percent);
    r := BuildCell(h, seed, cardinality, percent);
  }

  lemma {:induction false} GuardsHold(h: HashFunction, seed: int, cardinality: nat, percent: nat)
    requires ValidCell(cardinality, percent)
    ensures SAMPLES * cardinality * percent % 100 == 0
    ensures var s := Expected(h, seed, cardinality, percent);
            WithinCandidate(s.perSample, cardinality) && Sum(s.perSample) == s.totalOverlap
  {
    CellArithmetic(cardinality, percent);
    SharesAreFair(ScoresOf(h, seed, cardinality, percent), cardinality, percent);
  }

  /** The validator rebuilds the schedule and accepts exactly that one. */
  method ValidateOutcomeOverlapSchedule(h: HashFunction, s: OverlapSchedule) returns (ok: bool)
    ensures ok <==> ValidCell(s.candidateCardinality, s.targetPercent) &&
                    s == Expected(h, s.seed, s.candidateCardinality, s.targetPercent)
  {
    if s.version != VERSION || s.measuredSamples != SAMPLES || |s.perSample| != SAMPLES || !ValidSha256(s.sha256) {
      ExpectedMetadata(h, s.seed, s.candidateCardinality, s.targetPercent);
      return false;
    }
    var rebuilt := BuildOutcomeOverlapSchedule(h, s.seed, s.candidateCardinality, s.targetPercent);
    if rebuilt.Err? { return false; }
    var expected := rebuilt.value;
    if expected.totalCandidates != s.totalCandidates || expected.totalOverlap != s.totalOverlap ||
       expected.sha256 != s.sha256 {
      return false;
    }
    for index := 0 to |expected.perSample|
      invariant forall i :: 0 <= i < index ==> expected.perSample[i] == s.perSample[i]
    {
      if expected.perSample[index] != s.perSample[index] { return false; }
    }
    assert expected.perSample == s.perSample;
    return true;
  }

  lemma {:induction false} ExpectedMetadata(h: HashFunction, seed: int, cardinality: int, percent: int)
    ensures ValidCell(cardinality, percent) ==> ValidSha256(Expected(h, seed, cardinality, percent).sha256)
  {
    if ValidCell(cardinality, percent) {
      var s := Expected(h, seed, cardinality, percent);
      DigestIsValid(h, s.(sha256 := []));
    }
  }

  lemma {:induction false} DigestIsValid(h: HashFunction, s: OverlapSchedule)
    ensures ValidSha256(ScheduleDigest(h, s))
  {
    ValidSha256Exactly(ScheduleDigest(h, s));
    assert exists d: Digest :: ScheduleDigest(h, s) == HexEncode(d);
  }
}
