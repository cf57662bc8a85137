/** The first strict budget crossing of the frozen trace (evaluation/finalv5rls/corpus.go,
    ComputeBoundedStop). */
module BoundedStop {
  import opened GoBytes
  import opened TraceUnion

  const TRACE_LENGTH: int := 100
  const MAX_RELEASE: int := 7
  const MAX_DEPENDENCY: int := 12
  const MAX_OUTCOME: int := 18

  datatype Stop = Stop(index: int, successfulQueries: int, dimension: Dim, before: Union, candidate: Union, full: Union)

  datatype StopError = WrongLength | BadTrace(error: TraceError) | BudgetsDiffer | Ambiguous | NeverCrosses

  /** The dimensions in which a prefix exceeds the full trace's budgets, in the source's order. */
  function Crossed(candidate: Union, full: Union): seq<Dim> {
    (if candidate.release.cardinality > full.release.budget then [Release] else []) +
    (if candidate.dependency.cardinality > full.dependency.budget then [Dependency] else []) +
    (if candidate.outcome.cardinality > full.outcome.budget then [Outcome] else [])
  }

  lemma {:induction false} CrossedExactly(candidate: Union, full: Union, d: Dim)
    ensures d in Crossed(candidate, full) <==> candidate.Of(d).cardinality > full.Of(d).budget
  {
  }

  /** The first n queries already exceed the full trace's budget in dimension d. */
  ghost predicate Exceeds(trace: seq<Observation>, n: nat, d: Dim)
    requires n <= |trace|
  {
    |Exposed(trace[..n], d)| > Budget(|Exposed(trace, d)|)
  }

  /** Once exceeded, a budget stays exceeded. */
  lemma {:induction false} StaysExceeded(trace: seq<Observation>, i: nat, j: nat, d: Dim)
    requires i <= j <= |trace| && Exceeds(trace, i, d)
    ensures Exceeds(trace, j, d)
  {
    ExposedGrows(trace, i, j, d);
    SmallerSubset(Exposed(trace[..i], d), Exposed(trace[..j], d));
  }

  lemma {:induction false} CrossedIsExceeds(trace: seq<Observation>, n: nat, candidate: Union, full: Union, d: Dim)
    requires n <= |trace| && Measures(candidate, trace[..n]) && Measures(full, trace)
    ensures d in Crossed(candidate, full) <==> Exceeds(trace, n, d)
  {
    CrossedExactly(candidate, full, d);
  }

  /** The position of the first prefix that crosses, or the number of prefixes. */
  method FirstCrossing(prefixes: seq<Union>, full: Union) returns (index: nat)
    ensures index <= |prefixes|
    ensures forall i :: 0 <= i < index ==> Crossed(prefixes[i], full) == []
    ensures index < |prefixes| ==> Crossed(prefixes[index], full) != []
  {
    index := 0;
    while index < |prefixes| && Crossed(prefixes[index], full) == []
      invariant index <= |prefixes|
      invariant forall i :: 0 <= i < index ==> Crossed(prefixes[i], full) == []
    {
      index := index + 1;
    }
  }

  /** A trace whose budget in some dimension is at least two exceeds it in the end. */
  lemma {:induction false} FullTraceExceeds(trace: seq<Observation>, d: Dim)
    requires Budget(|Exposed(trace, d)|) >= 2
    ensures Exceeds(trace, |trace|, d)
  {
    BudgetExactly(|Exposed(trace, d)|);
    assert trace[..|trace|] == trace;
  }

  // ---------- the same in numbers ----------

  /** The first n queries reveal more than 70% of what the whole trace reveals. */
  ghost predicate Above(trace: seq<Observation>, n: nat, d: Dim)
    requires n <= |trace|
  {
    100 * |Exposed(trace[..n], d)| > 70 * |Exposed(trace, d)|
  }

  /** From two facts on, exceeding the budget is revealing more than 70%. */
  lemma {:induction false} ExceedsExactly(trace: seq<Observation>, n: nat, d: Dim)
    requires n <= |trace| && |Exposed(trace, d)| >= 2
    ensures Exceeds(trace, n, d) <==> Above(trace, n, d)
  {
    BudgetExactly(|Exposed(trace, d)|);
  }

  /** The sizes of the three unions whose budgets are the frozen ones. */
  ghost predicate SizesMatch(trace: seq<Observation>) {
    && 10 <= |Exposed(trace, Release)| <= 11
    && |Exposed(trace, Dependency)| == 18
    && 26 <= |Exposed(trace, Outcome)| <= 27
  }

  lemma {:induction false} BudgetsMatchExactly(trace: seq<Observation>)
    ensures BudgetsMatch(trace) <==> SizesMatch(trace)
  {
    BudgetExactly(|Exposed(trace, Release)|);
    BudgetExactly(|Exposed(trace, Dependency)|);
    BudgetExactly(|Exposed(trace, Outcome)|);
  }

  /** Query n is the first at which some dimension is above 70%, and there only one is. */
  ghost predicate FirstAbove(trace: seq<Observation>, n: nat, cause: Dim)
    requires n <= |trace|
  {
    && (forall i, d :: 0 <= i < n ==> !Above(trace, i, d))
    && forall d :: Above(trace, n, d) <==> d == cause
  }

  lemma {:induction false} UniqueCauseExactly(trace: seq<Observation>, n: nat, cause: Dim)
    requires n <= |trace| && SizesMatch(trace)
    ensures UniqueCause(trace, n, cause) <==> FirstAbove(trace, n, cause)
  {
    forall i, d | 0 <= i <= n ensures Exceeds(trace, i, d) <==> Above(trace, i, d) {
      match d
      case Release => ExceedsExactly(trace, i, Release);
      case Dependency => ExceedsExactly(trace, i, Dependency);
      case Outcome => ExceedsExactly(trace, i, Outcome);
    }
  }

  /** No query before position n exceeds any budget. */
  ghost predicate LegalBefore(trace: seq<Observation>, n: nat)
    requires n <= |trace| + 1
  {
    forall i, d :: 0 <= i < n ==> !Exceeds(trace, i, d)
  }

  ghost predicate BudgetsMatch(trace: seq<Observation>) {
    && Budget(|Exposed(trace, Release)|) == MAX_RELEASE
    && Budget(|Exposed(trace, Dependency)|) == MAX_DEPENDENCY
    && Budget(|Exposed(trace, Outcome)|) == MAX_OUTCOME
  }

  /** Position n is the first crossing and has exactly one cause. */
  ghost predicate UniqueCause(trace: seq<Observation>, n: nat, cause: Dim)
    requires n <= |trace|
  {
    LegalBefore(trace, n) && forall d :: Exceeds(trace, n, d) <==> d == cause
  }

  /** Each prefix measures the trace up to it. */
  ghost predicate MeasuresPrefixes(trace: seq<Observation>, prefixes: seq<Union>) {
    |prefixes| == |trace| && forall i :: 0 <= i < |trace| ==> Measures(prefixes[i], trace[..i + 1])
  }

  lemma {:induction false} PrefixesMeasure(h: HashFunction, trace: seq<Observation>, prefixes: seq<Union>)
    requires PrefixUnions(h, trace, prefixes, |trace|)
    ensures MeasuresPrefixes(trace, prefixes)
  {
    forall i | 0 <= i < |trace| ensures Measures(prefixes[i], trace[..i + 1]) { UnionMeasures(h, trace[..i + 1]); }
  }

  lemma {:induction false} LegalPrefixes(trace: seq<Observation>, prefixes: seq<Union>, full: Union, n: nat)
    requires n <= |trace| && MeasuresPrefixes(trace, prefixes) && Measures(full, trace)
    requires forall i :: 0 <= i < n ==> Crossed(prefixes[i], full) == []
    ensures LegalBefore(trace, n + 1)
  {
    forall i, d | 0 <= i < n + 1 ensures !Exceeds(trace, i, d) {
      if i == 0 {
        assert trace[..0] == [];
      } else {
        assert Crossed(prefixes[i - 1], full) == [];
        CrossedIsExceeds(trace, i, prefixes[i - 1], full, d);
      }
    }
  }

  lemma {:induction false} SingleCause(candidate: Union, full: Union)
    requires |Crossed(candidate, full)| == 1
    ensures forall d :: d in Crossed(candidate, full) <==> d == Crossed(candidate, full)[0]
  {
  }

  /** The stop reports the first crossing, its only cause, and the unions around it. */
  ghost predicate Reports(h: HashFunction, trace: seq<Observation>, stop: Stop) {
    && 1 < stop.index <= |trace| && stop.successfulQueries == stop.index - 1
    && UniqueCause(trace, stop.index, stop.dimension)
    && stop.full == UnionAt(h, trace)
    && stop.candidate == UnionAt(h, trace[..stop.index]) && stop.before == UnionAt(h, trace[..stop.index - 1])
  }

  /** The first crossing is the very first query or has several causes. */
  ghost predicate AmbiguousAt(trace: seq<Observation>, n: nat) {
    && 1 <= n <= |trace| && LegalBefore(trace, n)
    && (exists d :: Exceeds(trace, n, d))
    && (n == 1 || !exists d :: UniqueCause(trace, n, d))
  }

  method ComputeBoundedStop(h: HashFunction, trace: seq<Observation>) returns (r: Result<Stop, StopError>)
    ensures r == Err(WrongLength) <==> |trace| != TRACE_LENGTH
    ensures r.Err? && r.error.BadTrace? <==> |trace| == TRACE_LENGTH && !ValidTrace(trace)
    ensures r == Err(BudgetsDiffer) <==> |trace| == TRACE_LENGTH && ValidTrace(trace) && !SizesMatch(trace)
    ensures r != Err(NeverCrosses)
    ensures r.Ok? ==> Reports(h, trace, r.value) && FirstAbove(trace, r.value.index, r.value.dimension)
    ensures |trace| == TRACE_LENGTH && ValidTrace(trace) && SizesMatch(trace) ==>
              (r == Err(Ambiguous) <==> exists n: nat :: AmbiguousAt(trace, n))
  {
    if |trace| != TRACE_LENGTH { return Err(WrongLength); }
    var evaluated := Evaluate(h, trace);
    if evaluated.Err? { return Err(BadTrace(evaluated.error)); }
    var full := evaluated.value;
    BudgetsMatchExactly(trace);
    if full.release.budget != MAX_RELEASE || full.dependency.budget != MAX_DEPENDENCY ||
       full.outcome.budget != MAX_OUTCOME {
      return Err(BudgetsDiffer);
    }
    var prefixes := EvaluatePrefixes(h, trace);
    r := Search(h, trace, prefixes.value, full);
    SomePrefixCrosses(trace);
    if r.Ok? {
      ReportedIsUnambiguous(h, trace, r.value);
      UniqueCauseExactly(trace, r.value.index, r.value.dimension);
    }
  }

  /** There is only one first crossing, so a reported one rules out an ambiguous one. */
  lemma {:induction false} ReportedIsUnambiguous(h: HashFunction, trace: seq<Observation>, stop: Stop)
    requires Reports(h, trace, stop)
    ensures !exists n: nat :: AmbiguousAt(trace, n)
  {
    forall n: nat ensures !AmbiguousAt(trace, n) {
      NoOtherCrossing(trace, stop.index, stop.dimension, n);
    }
  }

  lemma {:induction false} NoOtherCrossing(trace: seq<Observation>, m: nat, cause: Dim, n: nat)
    requires 1 < m <= |trace| && UniqueCause(trace, m, cause)
    ensures !AmbiguousAt(trace, n)
  {
    if n <= |trace| { FirstCrossingIsUnique(trace, m, cause, n); }
  }

  lemma {:induction false} FirstCrossingIsUnique(trace: seq<Observation>, m: nat, cause: Dim, n: nat)
    requires m <= |trace| && n <= |trace| && LegalBefore(trace, m) && Exceeds(trace, m, cause)
    ensures LegalBefore(trace, n) && (exists d :: Exceeds(trace, n, d)) ==> n == m
  {
    if m < n { assert !LegalBefore(trace, n); }
    if n < m { assert forall d :: !Exceeds(trace, n, d); }
  }

  /** The loop over the prefixes, for any budgets: the first crossing, its only cause, or why not. */
  method Search(h: HashFunction, trace: seq<Observation>, prefixes: seq<Union>, full: Union)
    returns (r: Result<Stop, StopError>)
    requires PrefixUnions(h, trace, prefixes, |trace|) && full == UnionAt(h, trace)
    ensures r.Err? ==> r.error == Ambiguous || r.error == NeverCrosses
    ensures r.Ok? ==> Reports(h, trace, r.value)
    ensures r == Err(Ambiguous) ==> exists n: nat :: AmbiguousAt(trace, n)
    ensures r == Err(NeverCrosses) ==> LegalBefore(trace, |trace| + 1)
  {
    PrefixesMeasure(h, trace, prefixes);
    UnionMeasures(h, trace);
    var cause := FindCause(trace, prefixes, full);
    if cause.Err? { return Err(cause.error); }
    var (index, dimension) := cause.value;
    r := Ok(Stop(index + 1, index, dimension, prefixes[index - 1], prefixes[index], full));
  }

  /** The position and the cause of the first crossing, if it is not the first query and has only one. */
  method FindCause(
    trace: seq<Observation>, prefixes: seq<Union>, full: Union) returns (r: Result<(nat, Dim), StopError>)
    requires MeasuresPrefixes(trace, prefixes) && Measures(full, trace)
    ensures r.Ok? ==> 0 < r.value.0 < |trace| && UniqueCause(trace, r.value.0 + 1, r.value.1)
    ensures r.Err? ==> r.error == Ambiguous || r.error == NeverCrosses
    ensures r == Err(Ambiguous) ==> exists n: nat :: AmbiguousAt(trace, n)
    ensures r == Err(NeverCrosses) ==> LegalBefore(trace, |trace| + 1)
  {
    var index := FirstCrossing(prefixes, full);
    LegalPrefixes(trace, prefixes, full, index);
    if index == |prefixes| { return Err(NeverCrosses); }
    var crossed := Crossed(prefixes[index], full);
    CausesOf(trace, index + 1, prefixes[index], full);
    if index == 0 || |crossed| != 1 {
      AmbiguousCause(trace, index + 1, prefixes[index], full);
      return Err(Ambiguous);
    }
    SingleCause(prefixes[index], full);
    r := Ok((index, crossed[0]));
  }

  /** A trace whose budgets are the frozen ones crosses: the full trace exceeds its own 70% floor. */
  lemma {:induction false} SomePrefixCrosses(trace: seq<Observation>)
    requires BudgetsMatch(trace)
    ensures !LegalBefore(trace, |trace| + 1)
  {
    FullTraceExceeds(trace, Release);
  }

  lemma {:induction false} CausesOf(trace: seq<Observation>, n: nat, candidate: Union, full: Union)
    requires n <= |trace| && Measures(candidate, trace[..n]) && Measures(full, trace)
    ensures forall d :: d in Crossed(candidate, full) <==> Exceeds(trace, n, d)
  {
    forall d ensures d in Crossed(candidate, full) <==> Exceeds(trace, n, d) {
      CrossedIsExceeds(trace, n, candidate, full, d);
    }
  }

  lemma {:induction false} AmbiguousCause(trace: seq<Observation>, n: nat, candidate: Union, full: Union)
    requires 1 <= n <= |trace| && LegalBefore(trace, n)
    requires Crossed(candidate, full) != [] && (n == 1 || |Crossed(candidate, full)| != 1)
    requires forall d :: d in Crossed(candidate, full) <==> Exceeds(trace, n, d)
    ensures AmbiguousAt(trace, n)
  {
    var crossed := Crossed(candidate, full);
    assert crossed[0] in crossed;
    assert Exceeds(trace, n, crossed[0]);
    if n != 1 {
      assert crossed[1] in crossed && crossed[0] != crossed[1];
      assert Exceeds(trace, n, crossed[1]);
    }
  }
}
