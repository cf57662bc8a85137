/** The independent trace-union oracle with its floor-70% budgets (evaluation/finalv5oracle/oracle.go). */
module TraceUnion {
  import opened GoBytes
  import opened Sorting
  import opened SetAlgebra

  datatype Dim = Release | Dependency | Outcome

  datatype Observation = Observation(release: seq<Bytes>, dependency: seq<Bytes>, outcome: seq<Bytes>) {
    function Facts(d: Dim): seq<Bytes> {
      match d
      case Release => release
      case Dependency => dependency
      case Outcome => outcome
    }
  }

  datatype Dimension = Dimension(cardinality: int, sha256: Bytes, budget: int)

  datatype Union = Union(queries: int, release: Dimension, dependency: Dimension, outcome: Dimension) {
    function Of(d: Dim): Dimension {
      match d
      case Release => release
      case Dependency => dependency
      case Outcome => outcome
    }
  }

  datatype TraceError = EmptyTrace | InvalidFact(query: nat)

  // ---------- the specification ----------

  /** Everything the queries of a trace reveal in one dimension. */
  ghost function Exposed(trace: seq<Observation>, d: Dim): set<Bytes> {
    if trace == [] then {} else Exposed(trace[..|trace| - 1], d) + Elements(trace[|trace| - 1].Facts(d))
  }

  ghost predicate ValidObservation(o: Observation) {
    ValidMembers(o.release) && ValidMembers(o.dependency) && ValidMembers(o.outcome)
  }

  ghost predicate ValidUpTo(trace: seq<Observation>, n: nat)
    requires n <= |trace|
  {
    forall i :: 0 <= i < n ==> ValidObservation(trace[i])
  }

  ghost predicate ValidTrace(trace: seq<Observation>) {
    ValidUpTo(trace, |trace|)
  }

  ghost function Budget(cardinality: nat): nat {
    var floor := cardinality * 70 / 100;
    if cardinality > 0 && floor == 0 then 1 else floor
  }

  const DIMENSION_DOMAIN: Bytes := Ascii("TASKGATE-FINAL-V5-ORACLE-SET-V1") + [0]

  function Terminated(values: seq<Bytes>): Bytes {
    if values == [] then [] else values[0] + [0] + Terminated(values[1..])
  }

  ghost function DimensionOf(h: HashFunction, s: set<Bytes>): Dimension {
    Dimension(|s|, HexEncode(h(DIMENSION_DOMAIN + Terminated(Listing(s)))), Budget(|s|))
  }

  ghost function UnionAt(h: HashFunction, trace: seq<Observation>): Union {
    Union(|trace|, DimensionOf(h, Exposed(trace, Release)), DimensionOf(h, Exposed(trace, Dependency)),
          DimensionOf(h, Exposed(trace, Outcome)))
  }

  // ---------- facts about it ----------

  lemma {:induction false} ExposedGrows(trace: seq<Observation>, i: nat, j: nat, d: Dim)
    requires i <= j <= |trace|
    ensures Exposed(trace[..i], d) <= Exposed(trace[..j], d)
    decreases j
  {
    if i < j {
      assert trace[..j][..j - 1] == trace[..j - 1];
      ExposedGrows(trace, i, j - 1, d);
    }
  }

  lemma {:induction false} SmallerSubset<T>(a: set<T>, b: set<T>)
    requires a <= b
    ensures |a| <= |b|
  {
    assert b == a + (b - a);
  }

  /** From two facts on the budget is 70% rounded down; one fact has the budget one. */
  lemma {:induction false} BudgetExactly(n: nat)
    ensures n >= 2 ==> 100 * Budget(n) <= 70 * n < 100 * (Budget(n) + 1)
    ensures Budget(1) == 1 && Budget(0) == 0
    ensures Budget(n) < n <==> n >= 2
  {
  }

  /** Equal dimension preimages come from equal sets of members. */
  lemma {:induction false} TerminatedInjective(a: seq<Bytes>, b: seq<Bytes>)
    requires (forall v <- a :: |v| == 64) && (forall v <- b :: |v| == 64)
    requires Terminated(a) == Terminated(b)
    ensures a == b
  {
    if a != [] && b != [] {
      FirstValue(a);
      FirstValue(b);
      TerminatedInjective(a[1..], b[1..]);
      SameHeadAndTail(a, b);
    }
  }

  lemma {:induction false} FirstValue(a: seq<Bytes>)
    requires a != [] && |a[0]| == 64
    ensures |Terminated(a)| >= 65 && Terminated(a)[..64] == a[0] && Terminated(a)[65..] == Terminated(a[1..])
  {
  }

  lemma {:induction false} DimensionDeterminesSet(s: set<Bytes>, t: set<Bytes>)
    requires forall m :: m in s || m in t ==> ValidSha256(m)
    ensures Terminated(Listing(s)) == Terminated(Listing(t)) <==> s == t
  {
    var a, b := Listing(s), Listing(t);
    if Terminated(a) == Terminated(b) {
      forall v | v in a ensures |v| == 64 { assert v in Elements(a); RawOfValid(v); }
      forall v | v in b ensures |v| == 64 { assert v in Elements(b); RawOfValid(v); }
      TerminatedInjective(a, b);
    }
  }

  // ---------- the oracle ----------

  method AddFacts(known: set<Bytes>, values: seq<Bytes>) returns (ok: bool, all: set<Bytes>)
    ensures ok <==> ValidMembers(values)
    ensures ok ==> all == known + Elements(values)
  {
    all := known;
    for index := 0 to |values|
      invariant ValidMembers(values[..index]) && all == known + Elements(values[..index])
    {
      assert values[..index + 1] == values[..index] + [values[index]];
      if !ValidSha256(values[index]) { return false, all; }
      all := all + {values[index]};
    }
    assert values[..|values|] == values;
    ok := true;
  }

  method MakeDimension(h: HashFunction, s: set<Bytes>) returns (r: Dimension)
    ensures r == DimensionOf(h, s)
  {
    var values := SortedSetValues(s);
    var digest := DIMENSION_DOMAIN;
    for index := 0 to |values|
      invariant digest + Terminated(values[index..]) == DIMENSION_DOMAIN + Terminated(values)
    {
      TerminatedStep(digest, values, index);
      digest := digest + values[index] + [0];
    }
    assert digest + [] == digest;
    var budget := |values| * 70 / 100;
    if |values| > 0 && budget == 0 { budget := 1; }
    r := Dimension(|values|, HexEncode(h(digest)), budget);
  }

  lemma {:induction false} TerminatedStep(digest: Bytes, values: seq<Bytes>, index: nat)
    requires index < |values|
    ensures digest + Terminated(values[index..]) == digest + values[index] + [0] + Terminated(values[index + 1..])
  {
    assert values[index..][1..] == values[index + 1..];
  }

  /** One query: three fact lists into three sets. */
  method AddObservation(known: map<Dim, set<Bytes>>, o: Observation) returns (ok: bool, all: map<Dim, set<Bytes>>)
    requires known.Keys == {Release, Dependency, Outcome}
    ensures all.Keys == {Release, Dependency, Outcome}
    ensures ok <==> ValidObservation(o)
    ensures ok ==> forall d :: d in known ==> all[d] == known[d] + Elements(o.Facts(d))
  {
    var ok1, release := AddFacts(known[Release], o.release);
    var ok2, dependency := AddFacts(known[Dependency], o.dependency);
    var ok3, outcome := AddFacts(known[Outcome], o.outcome);
    ok := ok1 && ok2 && ok3;
    all := map[Release := release, Dependency := dependency, Outcome := outcome];
  }

  method Collect(trace: seq<Observation>) returns (invalid: Option<nat>, all: map<Dim, set<Bytes>>)
    ensures all.Keys == {Release, Dependency, Outcome}
    ensures invalid.None? ==> ValidTrace(trace) && forall d :: d in all ==> all[d] == Exposed(trace, d)
    ensures invalid.Some?
            ==> invalid.value < |trace| && ValidUpTo(trace, invalid.value) && !ValidObservation(trace[invalid.value])
  {
    all := map[Release := {}, Dependency := {}, Outcome := {}];
    for query := 0 to |trace|
      invariant all.Keys == {Release, Dependency, Outcome} && ValidUpTo(trace, query)
      invariant forall d :: d in all ==> all[d] == Exposed(trace[..query], d)
    {
      var ok, next := AddObservation(all, trace[query]);
      if !ok { return Some(query), all; }
      forall d | d in next ensures next[d] == Exposed(trace[..query + 1], d) { ExposedSnoc(trace, query, d); }
      all := next;
    }
    assert trace[..|trace|] == trace;
    invalid := None;
  }

  lemma {:induction false} ExposedSnoc(trace: seq<Observation>, n: nat, d: Dim)
    requires n < |trace|
    ensures Exposed(trace[..n + 1], d) == Exposed(trace[..n], d) + Elements(trace[n].Facts(d))
  {
    assert trace[..n + 1][..n] == trace[..n];
  }

  method Evaluate(h: HashFunction, trace: seq<Observation>) returns (r: Result<Union, TraceError>)
    ensures r.Ok? <==> trace != [] && ValidTrace(trace)
    ensures r.Ok? ==> r.value == UnionAt(h, trace)
    ensures r.Err? && trace != [] ==>
              && r.error.InvalidFact? && 0 < r.error.query <= |trace|
              && ValidUpTo(trace, r.error.query - 1) && !ValidObservation(trace[r.error.query - 1])
  {
    if trace == [] { return Err(EmptyTrace); }
    var invalid, all := Collect(trace);
    if invalid.Some? { return Err(InvalidFact(invalid.value + 1)); }
    var release := MakeDimension(h, all[Release]);
    var dependency := MakeDimension(h, all[Dependency]);
    var outcome := MakeDimension(h, all[Outcome]);
    r := Ok(Union(|trace|, release, dependency, outcome));
  }

  /** The union has the cardinality and budget of the trace in every dimension. */
  ghost predicate Measures(u: Union, trace: seq<Observation>) {
    forall d :: u.Of(d).cardinality == |Exposed(trace, d)| && u.Of(d).budget == Budget(|Exposed(trace, d)|)
  }

  lemma {:induction false} UnionMeasures(h: HashFunction, trace: seq<Observation>)
    ensures Measures(UnionAt(h, trace), trace)
  {
    var u := UnionAt(h, trace);
    forall d ensures u.Of(d).cardinality == |Exposed(trace, d)| && u.Of(d).budget == Budget(|Exposed(trace, d)|) {
      assert u.Of(d) == DimensionOf(h, Exposed(trace, d)) by {
        match d
        case Release =>
        case Dependency =>
        case Outcome =>
      }
    }
  }

  ghost predicate PrefixUnions(h: HashFunction, trace: seq<Observation>, prefixes: seq<Union>, n: nat)
    requires n <= |trace|
  {
    |prefixes| == n && forall i :: 0 <= i < n ==> prefixes[i] == UnionAt(h, trace[..i + 1])
  }

  method EvaluatePrefixes(h: HashFunction, trace: seq<Observation>) returns (r: Result<seq<Union>, TraceError>)
    ensures r.Ok? <==> trace != [] && ValidTrace(trace)
    ensures r.Ok? ==> PrefixUnions(h, trace, r.value, |trace|)
  {
    if trace == [] { return Err(EmptyTrace); }
    var result := [];
    for index := 0 to |trace|
      invariant ValidUpTo(trace, index) && PrefixUnions(h, trace, result, index)
    {
      var prefix := Evaluate(h, trace[..index + 1]);
      ValidPrefix(trace, index + 1);
      if prefix.Err? { return Err(prefix.error); }
      AppendPrefix(h, trace, result, index, prefix.value);
      result := result + [prefix.value];
    }
    r := Ok(result);
  }

  lemma {:induction false} AppendPrefix(
    h: HashFunction, trace: seq<Observation>, prefixes: seq<Union>, n: nat, u: Union)
    requires n < |trace| && PrefixUnions(h, trace, prefixes, n) && u == UnionAt(h, trace[..n + 1])
    ensures PrefixUnions(h, trace, prefixes + [u], n + 1)
  {
    forall i | 0 <= i <= n ensures (prefixes + [u])[i] == UnionAt(h, trace[..i + 1]) {
      OnePrefix(h, trace, prefixes, n, u, i);
    }
  }

  lemma {:induction false} OnePrefix(
    h: HashFunction, trace: seq<Observation>, prefixes: seq<Union>, n: nat, u: Union, i: nat)
    requires i <= n < |trace| && PrefixUnions(h, trace, prefixes, n) && u == UnionAt(h, trace[..n + 1])
    ensures (prefixes + [u])[i] == UnionAt(h, trace[..i + 1])
  {
    assert (prefixes + [u])[i] == if i < n then prefixes[i] else u;
  }

  lemma {:induction false} ValidPrefix(trace: seq<Observation>, n: nat)
    requires n <= |trace|
    ensures ValidTrace(trace[..n]) <==> ValidUpTo(trace, n)
  {
    assert forall i :: 0 <= i < n ==> trace[..n][i] == trace[i];
  }
}
