/** The deterministic ordinal generator and the bitmap-set cell it drives
    (evaluation/v4distribution/distribution.go). Bitmaps are mathematical sets of ordinals. */
module Ordinals {
  import opened GoBytes
  import Euclid

  const TWO32: int := 0x1_0000_0000
  const MAX_UINT32: int := 0xFFFF_FFFF
  const MAXIMUM_CARDINALITY: int := 1_035_000
  const MULTIPLIER: int := 0x9e37_79b1

  type uint32 = n: int | 0 <= n < TWO32
  type uint64 = n: int | 0 <= n < TWO64

  datatype Config = Config(
    cardinality: uint64, runs: int, clusterCount: uint32, randomSeed: uint32,
    replayLookupsPerRun: int, maxPeakHeapBytes: uint64)

  datatype Mode = Dense | Clustered | RandomSparse

  function ClusterStride(c: Config): int {
    MAX_UINT32 / (c.clusterCount + 1)
  }

  ghost predicate Validate(c: Config) {
    && 0 < c.cardinality <= MAXIMUM_CARDINALITY && c.cardinality % 100 == 0
    && 1 <= c.runs <= 100
    && 2 <= c.clusterCount <= c.cardinality && c.clusterCount <= 4096
    && (c.cardinality + c.clusterCount - 1) / c.clusterCount < ClusterStride(c)
    && 1 <= c.replayLookupsPerRun <= 1_000_000
    && c.maxPeakHeapBytes > 0
  }

  /** Config.Validate, check by check. */
  method CheckConfig(c: Config) returns (ok: bool)
    ensures ok == Validate(c)
  {
    if c.cardinality == 0 || c.cardinality > MAXIMUM_CARDINALITY || c.cardinality % 100 != 0 { return false; }
    if c.runs < 1 || c.runs > 100 { return false; }
    if c.clusterCount < 2 || c.clusterCount > c.cardinality || c.clusterCount > 4096 { return false; }
    var width := (c.cardinality + c.clusterCount - 1) / c.clusterCount;
    if width >= MAX_UINT32 / (c.clusterCount + 1) { return false; }
    return 1 <= c.replayLookupsPerRun <= 1_000_000 && c.maxPeakHeapBytes != 0;
  }

  /** The check that the clusters are disjoint never decides: the bounds on cardinality and cluster count
      already leave more than twice the room a cluster needs. */
  lemma {:induction false} ValidExactly(c: Config)
    ensures Validate(c) <==>
            && 100 <= c.cardinality <= 1_035_000 && c.cardinality == 100 * (c.cardinality / 100)
            && 1 <= c.runs <= 100 && 2 <= c.clusterCount <= 4096 && c.clusterCount <= c.cardinality
            && 1 <= c.replayLookupsPerRun <= 1_000_000 && c.maxPeakHeapBytes > 0
  {
    if 0 < c.cardinality <= MAXIMUM_CARDINALITY && 2 <= c.clusterCount <= 4096 {
      WideStride(c.clusterCount + 1);
      NarrowWidth(c.cardinality, c.clusterCount);
    }
  }

  lemma {:induction false} WideStride(d: int)
    requires 0 < d <= 4097
    ensures MAX_UINT32 / d >= 1_048_319
  {
    var q := MAX_UINT32 / d;
    assert MAX_UINT32 == q * d + MAX_UINT32 % d;
    assert q <= 1_048_318 ==> (1_048_318 - q) * d >= 0;
    assert 1_048_318 * d <= 1_048_318 * 4097;
  }

  lemma {:induction false} NarrowWidth(n: int, k: int)
    requires 0 < n <= 1_035_000 && k >= 2
    ensures (n + k - 1) / k <= 517_500
  {
    var q := (n + k - 1) / k;
    assert n + k - 1 == q * k + (n + k - 1) % k;
    assert q >= 517_501 ==> (q - 1) * (k - 2) >= 0;
    assert q * k - k == (q - 1) * 2 + (q - 1) * (k - 2);
  }

  /** Every conversion to uint32 truncates. */
  function GeneratedOrdinal(c: Config, mode: Mode, index: nat): uint32
    requires c.clusterCount > 0
  {
    match mode
    case Dense => index % TWO32
    case Clustered => ((index % c.clusterCount) * ClusterStride(c) + index / c.clusterCount) % TWO32
    case RandomSparse => ((index % TWO32) * MULTIPLIER + c.randomSeed) % TWO64 % TWO32
  }

  // ---------- injectivity ----------

  /** What the validated bound on the cluster width gives: no row overruns its stride, no sum wraps. */
  lemma {:induction false} ClusterFits(
    cardinality: int, clusters: int, stride: int, cluster: int, within: int, index: int)
    requires clusters > 0 && 0 <= index < cardinality
    requires index == within * clusters + cluster && 0 <= cluster < clusters
    requires (cardinality + clusters - 1) / clusters < stride && stride * (clusters + 1) <= MAX_UINT32
    ensures 0 <= within < stride
    ensures 0 <= cluster * stride + within < TWO32
  {
    var width := (cardinality + clusters - 1) / clusters;
    assert width * clusters >= cardinality by { Ceiling(cardinality, clusters); }
    WithinBelow(within, width, clusters);
    assert within <= -1 ==> (-1 - within) * clusters >= 0;
    RowBelow(cluster, clusters, stride);
  }

  lemma {:induction false} Ceiling(n: int, d: int)
    requires d > 0
    ensures (n + d - 1) / d * d >= n
  {
    var m := n + d - 1;
    assert m == m / d * d + m % d;
  }

  lemma {:induction false} WithinBelow(within: int, width: int, clusters: int)
    requires clusters > 0
    ensures within * clusters < width * clusters ==> within < width
  {
    assert within >= width ==> (within - width) * clusters >= 0;
  }

  lemma {:induction false} RowBelow(cluster: int, clusters: int, stride: int)
    requires 0 <= cluster < clusters && stride >= 0
    ensures 0 <= cluster * stride && cluster * stride + stride <= stride * (clusters + 1)
  {
    assert (clusters - cluster) * stride >= 0;
    assert stride * (clusters + 1) == cluster * stride + (clusters - cluster) * stride + stride;
  }

  /** The stride is the largest that leaves room for one cluster more than there are. */
  lemma {:induction false} StrideBound(c: Config)
    requires c.clusterCount > 0
    ensures ClusterStride(c) * (c.clusterCount + 1) <= MAX_UINT32 < (ClusterStride(c) + 1) * (c.clusterCount + 1)
  {
    var d := c.clusterCount + 1;
    assert MAX_UINT32 == MAX_UINT32 / d * d + MAX_UINT32 % d;
    assert (MAX_UINT32 / d + 1) * d == MAX_UINT32 / d * d + d;
  }

  lemma {:induction false} ClusteredOrdinal(c: Config, index: nat)
    requires Validate(c) && index < c.cardinality
    ensures var cluster, within := index % c.clusterCount, index / c.clusterCount;
            && 0 <= within < ClusterStride(c)
            && GeneratedOrdinal(c, Clustered, index) == cluster * ClusterStride(c) + within
  {
    var k, stride := c.clusterCount, ClusterStride(c);
    var cluster, within := index % k, index / k;
    assert index == within * k + cluster;
    StrideBound(c);
    ClusterFits(c.cardinality, k, stride, cluster, within, index);
    Reduced(cluster * stride + within);
  }

  lemma {:induction false} Reduced(v: int)
    requires 0 <= v < TWO32
    ensures v % TWO32 == v
  {
  }

  lemma {:induction false} ClusteredInjective(c: Config, i: nat, j: nat)
    requires Validate(c) && i < c.cardinality && j < c.cardinality
    requires GeneratedOrdinal(c, Clustered, i) == GeneratedOrdinal(c, Clustered, j)
    ensures i == j
  {
    ClusteredOrdinal(c, i);
    ClusteredOrdinal(c, j);
    var k := c.clusterCount;
    Euclid.QuotientUnique(i % k, i / k, j % k, j / k, ClusterStride(c));
    assert i == i / k * k + i % k && j == j / k * k + j % k;
  }

  /** The multiplier is odd, so it has an inverse modulo 2^32: MULTIPLIER * INVERSE == 1 + 150801925 * 2^32. */
  const INVERSE: int := 0x0e8b_2f51

  lemma {:induction false} InverseCancels(d: int, t: int)
    requires d * MULTIPLIER == t * TWO32 && -TWO32 < d < TWO32
    ensures d == 0
  {
    assert d * MULTIPLIER * INVERSE == t * TWO32 * INVERSE;
    assert d == TWO32 * (t * INVERSE - d * 150_801_925);
  }

  lemma {:induction false} SparseUnique(i: nat, j: nat, seed: nat)
    requires i < TWO32 && j < TWO32 && (i * MULTIPLIER + seed) % TWO32 == (j * MULTIPLIER + seed) % TWO32
    ensures i == j
  {
    var a, b := i * MULTIPLIER + seed, j * MULTIPLIER + seed;
    InverseCancels(i - j, a / TWO32 - b / TWO32);
  }

  lemma {:induction false} SparseOrdinal(c: Config, i: nat)
    requires c.clusterCount > 0 && i < TWO32
    ensures GeneratedOrdinal(c, RandomSparse, i) == (i * MULTIPLIER + c.randomSeed) % TWO32
  {
    assert i % TWO32 == i;
    assert i * MULTIPLIER + c.randomSeed < TWO64;
  }

  lemma {:induction false} RandomSparseInjective(c: Config, i: nat, j: nat)
    requires c.clusterCount > 0 && i < TWO32 && j < TWO32
    requires GeneratedOrdinal(c, RandomSparse, i) == GeneratedOrdinal(c, RandomSparse, j)
    ensures i == j
  {
    SparseOrdinal(c, i);
    SparseOrdinal(c, j);
    SparseUnique(i, j, c.randomSeed);
  }

  lemma {:induction false} DenseInjective(c: Config, i: nat, j: nat)
    requires c.clusterCount > 0 && i < TWO32 && j < TWO32
    requires GeneratedOrdinal(c, Dense, i) == GeneratedOrdinal(c, Dense, j)
    ensures i == j
  {
    Reduced(i);
    Reduced(j);
  }

  /** In all three modes distinct indices of a valid configuration get distinct ordinals. */
  lemma {:induction false} OrdinalInjective(c: Config, mode: Mode, i: nat, j: nat)
    requires Validate(c) && i < c.cardinality && j < c.cardinality
    requires GeneratedOrdinal(c, mode, i) == GeneratedOrdinal(c, mode, j)
    ensures i == j
  {
    match mode
    case Dense => DenseInjective(c, i, j);
    case Clustered => ClusteredInjective(c, i, j);
    case RandomSparse => RandomSparseInjective(c, i, j);
  }

  // ---------- what the ordinals are ----------

  /** Dense ordinals are the indexes themselves. */
  lemma {:induction false} DenseIsInterval(c: Config, n: nat, x: uint32)
    requires c.clusterCount > 0 && n <= TWO32
    ensures x in OrdinalsBelow(c, Dense, n) <==> x < n
  {
    forall i | 0 <= i < n ensures GeneratedOrdinal(c, Dense, i) == i { Reduced(i); }
    if x < n { assert GeneratedOrdinal(c, Dense, x) in OrdinalsBelow(c, Dense, n); }
  }

  /** The first indexes start the clusters, a full stride apart and clear of the end of uint32. */
  lemma {:induction false} ClustersStart(c: Config, k: nat)
    requires Validate(c) && k < c.clusterCount
    ensures GeneratedOrdinal(c, Clustered, k) == k * ClusterStride(c)
    ensures k * ClusterStride(c) + ClusterStride(c) <= MAX_UINT32
  {
    ClusteredOrdinal(c, k);
    Euclid.DivisionIs(k, 0, k, c.clusterCount);
    StrideBound(c);
    RowBelow(k, c.clusterCount, ClusterStride(c));
  }

  /** A round later the same cluster continues with the next ordinal. */
  lemma {:induction false} ClustersContinue(c: Config, i: nat)
    requires Validate(c) && i + c.clusterCount < c.cardinality
    ensures GeneratedOrdinal(c, Clustered, i + c.clusterCount) == GeneratedOrdinal(c, Clustered, i) + 1
  {
    ClusteredOrdinal(c, i);
    ClusteredOrdinal(c, i + c.clusterCount);
    NextRound(i, c.clusterCount);
  }

  lemma {:induction false} NextRound(i: nat, k: nat)
    requires k > 0
    ensures (i + k) / k == i / k + 1 && (i + k) % k == i % k
  {
    assert (i / k + 1) * k == i / k * k + k;
    Euclid.DivisionIs(i + k, i / k + 1, i % k, k);
  }

  /** Sparse ordinals start at the seed and advance by the multiplier modulo 2^32. */
  lemma {:induction false} SparseAdvances(c: Config, i: nat)
    requires c.clusterCount > 0 && i + 1 < TWO32
    ensures GeneratedOrdinal(c, RandomSparse, 0) == c.randomSeed
    ensures GeneratedOrdinal(c, RandomSparse, i + 1) == (GeneratedOrdinal(c, RandomSparse, i) + 0x9e37_79b1) % TWO32
  {
    SparseOrdinal(c, 0);
    SparseOrdinal(c, i);
    SparseOrdinal(c, i + 1);
    Reduced(c.randomSeed);
    AddModulo(i * MULTIPLIER + c.randomSeed, MULTIPLIER, TWO32);
  }

  lemma {:induction false} AddModulo(v: int, m: int, n: int)
    requires n > 0
    ensures (v + m) % n == (v % n + m) % n
  {
    var w := v % n + m;
    assert v + m == (v / n + w / n) * n + w % n;
    Euclid.DivisionIs(v + m, v / n + w / n, w % n, n);
  }

  // ---------- one cell ----------

  datatype Cell = Cell(effect: set<uint32>, prior: set<uint32>, novel: set<uint32>, updated: set<uint32>,
      replay: set<uint32>)

  ghost function OrdinalsBelow(c: Config, mode: Mode, n: nat): set<uint32>
    requires c.clusterCount > 0
  {
    set i | 0 <= i < n :: GeneratedOrdinal(c, mode, i)
  }

  lemma {:induction false} OneMoreOrdinal(c: Config, mode: Mode, n: nat)
    requires Validate(c) && n < c.cardinality
    ensures OrdinalsBelow(c, mode, n + 1) == OrdinalsBelow(c, mode, n) + {GeneratedOrdinal(c, mode, n)}
    ensures GeneratedOrdinal(c, mode, n) !in OrdinalsBelow(c, mode, n)
  {
    forall i | 0 <= i < n ensures GeneratedOrdinal(c, mode, i) != GeneratedOrdinal(c, mode, n) {
      if GeneratedOrdinal(c, mode, i) == GeneratedOrdinal(c, mode, n) { OrdinalInjective(c, mode, i, n); }
    }
  }

  /** The builder loop: the effect takes every ordinal, the prior ledger the first `overlap` of them. */
  method BuildSets(c: Config, mode: Mode, overlap: nat) returns (effect: set<uint32>, prior: set<uint32>)
    requires Validate(c) && overlap <= c.cardinality
    ensures effect == OrdinalsBelow(c, mode, c.cardinality) && |effect| == c.cardinality
    ensures prior == OrdinalsBelow(c, mode, overlap) && |prior| == overlap && prior <= effect
  {
    effect, prior := {}, {};
    for index := 0 to c.cardinality
      invariant effect == OrdinalsBelow(c, mode, index) && |effect| == index
      invariant prior == OrdinalsBelow(c, mode, if index < overlap then index else overlap)
      invariant |prior| == (if index < overlap then index else overlap) && prior <= effect
    {
      OneMoreOrdinal(c, mode, index);
      var ref := GeneratedOrdinal(c, mode, index);
      effect := effect + {ref};
      if index < overlap { prior := prior + {ref}; }
    }
  }

  /** Effect and prior ledger are the ordinals of all and of the first `target` percent of the indexes; the
      novelty is the rest, the new ledger the effect, and replaying the effect finds nothing new. */
  ghost predicate CellIs(c: Config, mode: Mode, target: nat, cell: Cell)
    requires c.clusterCount > 0
  {
    && cell.effect == OrdinalsBelow(c, mode, c.cardinality) && |cell.effect| == c.cardinality
    && cell.prior == OrdinalsBelow(c, mode, |cell.prior|) && cell.prior <= cell.effect
    && 100 * |cell.prior| == target * |cell.effect|
    && cell.novel == cell.effect - cell.prior && |cell.novel| == c.cardinality - |cell.prior|
    && cell.updated == cell.prior + cell.effect == cell.effect && cell.replay == {}
  }

  /** For every valid configuration the measured loop's cardinality check passes on every run. */
  method RunCell(c: Config, mode: Mode, target: nat) returns (r: Option<Cell>)
    requires Validate(c) && target <= 100
    ensures r.Some? && CellIs(c, mode, target, r.value)
  {
    var overlap := c.cardinality * target / 100;
    OverlapBounds(c.cardinality, target);
    var effect, prior := BuildSets(c, mode, overlap);
    var invariantHolds := true;
    for run := 0 to c.runs
      invariant invariantHolds
    {
      var delta, updated := effect - prior, prior + effect;
      DifferenceCount(effect, prior);
      assert updated == effect;
      invariantHolds := invariantHolds && |delta| == c.cardinality - overlap && |updated| == c.cardinality;
    }
    var updated := prior + effect;
    DifferenceCount(effect, prior);
    assert updated == effect;
    r := if invariantHolds then Some(Cell(effect, prior, effect - prior, updated, effect - updated)) else None;
  }

  const TARGETS: seq<nat> := [0, 50, 90, 100]
  const MODES: seq<Mode> := [Dense, Clustered, RandomSparse]

  /** The whole matrix: refused exactly for an invalid configuration, and otherwise one cell for each mode
      and, within a mode, for each target. */
  method RunMatrix(c: Config) returns (r: Option<seq<Cell>>)
    ensures r.Some? <==> Validate(c)
    ensures r.Some? ==> |r.value| == 12
    ensures r.Some? ==> forall i :: 0 <= i < 12 ==> CellIs(c, MODES[i / 4], TARGETS[i % 4], r.value[i])
  {
    var ok := CheckConfig(c);
    if !ok { return None; }
    var cells: seq<Cell> := [];
    for i := 0 to 12
      invariant |cells| == i && forall j :: 0 <= j < i ==> CellIs(c, MODES[j / 4], TARGETS[j % 4], cells[j])
    {
      var cell := RunCell(c, MODES[i / 4], TARGETS[i % 4]);
      cells := cells + [cell.value];
    }
    r := Some(cells);
  }

  lemma {:induction false} DifferenceCount<T>(a: set<T>, b: set<T>)
    requires b <= a
    ensures |a - b| == |a| - |b|
  {
    assert a == b + (a - b);
  }

  lemma {:induction false} OverlapBounds(cardinality: nat, target: nat)
    requires cardinality % 100 == 0 && target <= 100
    ensures 0 <= cardinality * target / 100 <= cardinality
    ensures 100 * (cardinality * target / 100) == target * cardinality
  {
    var h := cardinality / 100;
    assert cardinality * target == 100 * (h * target);
    assert (100 - target) * h >= 0;
  }
}
