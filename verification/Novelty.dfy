/** Charging a fact only when it is novel (evaluation/exposure/model.go, addNovelFacts) and the paging
    of the relational oracle (evaluation/exposureoracle/oracle.go, page and project). */
module Novelty {
  import opened GoBytes
  import opened Sorting
  import opened TraceUnion

  /** The hashes of the facts that have one; facts that cannot be hashed are skipped. */
  ghost function Hashes<T>(hash: T -> Option<Bytes>, facts: seq<T>): set<Bytes> {
    set fact | fact in facts && hash(fact).Some? :: hash(fact).value
  }

  ghost function HashSet<T>(hash: T -> Option<Bytes>, fact: T): set<Bytes> {
    if hash(fact).Some? then {hash(fact).value} else {}
  }

  /** Everything a sequence of observations would charge. */
  ghost function TraceHashes<T>(hash: T -> Option<Bytes>, trace: seq<seq<T>>): set<Bytes> {
    if trace == [] then {} else TraceHashes(hash, trace[..|trace| - 1]) + Hashes(hash, trace[|trace| - 1])
  }

  /** No recorded fact is lost or replaced. */
  ghost predicate Extends<T>(before: map<Bytes, T>, after: map<Bytes, T>) {
    forall k :: k in before ==> k in after && after[k] == before[k]
  }

  lemma {:induction false} SameKeys<T>(before: map<Bytes, T>, after: map<Bytes, T>)
    requires Extends(before, after)
    ensures before.Keys == after.Keys ==> before == after
  {
  }

  class FactLedger<T> {
    const hash: T -> Option<Bytes>
    var known: map<Bytes, T>

    constructor (hash: T -> Option<Bytes>)
      ensures known == map[] && this.hash == hash
    {
      this.hash := hash;
      known := map[];
    }

    /** The charge is exactly the growth of the ledger; a replay grows nothing. */
    method AddNovelFacts(facts: seq<T>) returns (novel: nat)
      modifies this
      ensures known.Keys == old(known.Keys) + Hashes(hash, facts)
      ensures novel == |known.Keys| - |old(known.Keys)|
      ensures Extends(old(known), known)
      ensures Hashes(hash, facts) <= old(known.Keys) ==> novel == 0 && known == old(known)
    {
      novel := 0;
      for index := 0 to |facts|
        invariant known.Keys == old(known.Keys) + Hashes(hash, facts[..index])
        invariant novel == |known.Keys| - |old(known.Keys)|
        invariant Extends(old(known), known)
      {
        HashesSnoc(hash, facts, index);
        var one := AddFact(facts[index]);
        novel := novel + one;
      }
      assert facts[..|facts|] == facts;
      Growth(old(known.Keys), Hashes(hash, facts));
      SameKeys(old(known), known);
    }

    /** The loop body: skip a fact without a hash or already present, charge any other. */
    method AddFact(fact: T) returns (charged: nat)
      modifies this
      ensures known.Keys == old(known.Keys) + HashSet(hash, fact)
      ensures charged == |known.Keys| - |old(known.Keys)|
      ensures Extends(old(known), known)
    {
      charged := 0;
      var hashed := hash(fact);
      if hashed.Some? && hashed.value !in known {
        known := known[hashed.value := fact];
        charged := 1;
      }
    }

    /** Over a whole trace the charges add up to the growth, however reads repeat or overlap. */
    method ChargeTrace(trace: seq<seq<T>>) returns (total: nat)
      modifies this
      ensures known.Keys == old(known.Keys) + TraceHashes(hash, trace)
      ensures total == |known.Keys| - |old(known.Keys)|
      ensures old(known) == map[] ==> total == |TraceHashes(hash, trace)|
      ensures TraceHashes(hash, trace) <= old(known.Keys) ==> total == 0
    {
      total := 0;
      for index := 0 to |trace|
        invariant known.Keys == old(known.Keys) + TraceHashes(hash, trace[..index])
        invariant total == |known.Keys| - |old(known.Keys)|
      {
        var novel := AddNovelFacts(trace[index]);
        assert trace[..index + 1][..index] == trace[..index];
        total := total + novel;
      }
      assert trace[..|trace|] == trace;
      Growth(old(known.Keys), TraceHashes(hash, trace));
    }
  }

  lemma {:induction false} Growth(before: set<Bytes>, added: set<Bytes>)
    ensures before == {} ==> |before + added| - |before| == |added|
    ensures added <= before ==> before + added == before
  {
    if before == {} { assert before + added == added; }
  }

  lemma {:induction false} HashesSnoc<T>(hash: T -> Option<Bytes>, facts: seq<T>, n: nat)
    requires n < |facts|
    ensures Hashes(hash, facts[..n + 1])
            == Hashes(hash, facts[..n]) + HashSet(hash, facts[n])
  {
    assert facts[..n + 1] == facts[..n] + [facts[n]];
    forall x ensures x in Hashes(hash, facts[..n + 1]) <==>
                     x in Hashes(hash, facts[..n]) || (hash(facts[n]).Some? && x == hash(facts[n]).value) {
      if x in Hashes(hash, facts[..n]) {
        var f :| f in facts[..n] && hash(f).Some? && hash(f).value == x;
        assert f in facts[..n + 1];
      }
      if hash(facts[n]).Some? && x == hash(facts[n]).value { assert facts[n] in facts[..n + 1]; }
    }
  }

  /** A hash is charged by a trace exactly when some observation contains a fact with that hash. */
  lemma {:induction false} TraceHashesExactly<T>(hash: T -> Option<Bytes>, trace: seq<seq<T>>, x: Bytes)
    ensures x in TraceHashes(hash, trace) <==> exists i :: 0 <= i < |trace| && x in Hashes(hash, trace[i])
  {
    if trace != [] {
      var n := |trace| - 1;
      TraceHashesExactly(hash, trace[..n], x);
      if x in TraceHashes(hash, trace[..n]) {
        var i :| 0 <= i < n && x in Hashes(hash, trace[..n][i]);
        assert trace[i] == trace[..n][i];
      }
      if i :| 0 <= i < |trace| && x in Hashes(hash, trace[i]) {
        if i < n { assert trace[..n][i] == trace[i]; }
      }
    }
  }

  /** Order and repetition of the reads do not matter: only which observations occur. */
  lemma {:induction false} ChargeIgnoresOrder<T>(hash: T -> Option<Bytes>, a: seq<seq<T>>, b: seq<seq<T>>)
    requires Elements(a) == Elements(b)
    ensures TraceHashes(hash, a) == TraceHashes(hash, b)
  {
    forall x ensures x in TraceHashes(hash, a) <==> x in TraceHashes(hash, b) {
      TraceHashesExactly(hash, a, x);
      TraceHashesExactly(hash, b, x);
      if i :| 0 <= i < |a| && x in Hashes(hash, a[i]) {
        assert a[i] in Elements(b);
        var j :| 0 <= j < |b| && b[j] == a[i];
      }
      if i :| 0 <= i < |b| && x in Hashes(hash, b[i]) {
        assert b[i] in Elements(a);
        var j :| 0 <= j < |a| && a[j] == b[i];
      }
    }
  }

  // ---------- paging ----------

  /** page(rows, offset, limit): past the end it is empty, and it never runs over the end. */
  function Page<R>(rows: seq<R>, offset: nat, limit: nat): seq<R> {
    if offset >= |rows| then []
    else rows[offset..if offset + limit > |rows| then |rows| else offset + limit]
  }

  /** The facts of the rows, row by row. */
  function Concatenated<R, T>(factsOf: R -> seq<T>, rows: seq<R>): seq<T> {
    if rows == [] then [] else factsOf(rows[0]) + Concatenated(factsOf, rows[1..])
  }

  lemma {:induction false} ConcatenatedExactly<R, T>(factsOf: R -> seq<T>, rows: seq<R>, fact: T)
    ensures fact in Concatenated(factsOf, rows) <==> exists i :: 0 <= i < |rows| && fact in factsOf(rows[i])
  {
    if rows != [] {
      ConcatenatedExactly(factsOf, rows[1..], fact);
      if i :| 0 <= i < |rows[1..]| && fact in factsOf(rows[1..][i]) { assert rows[i + 1] == rows[1..][i]; }
      if i :| 0 <= i < |rows| && fact in factsOf(rows[i]) {
        if i > 0 { assert rows[1..][i - 1] == rows[i]; }
      }
    }
  }

  predicate OnPage(n: nat, i: nat, page: (nat, nat)) {
    i < n && page.0 <= i < page.0 + page.1
  }

  ghost predicate OnSomePage(n: nat, i: nat, pages: seq<(nat, nat)>) {
    exists p :: 0 <= p < |pages| && OnPage(n, i, pages[p])
  }

  ghost predicate Covered(n: nat, pages: seq<(nat, nat)>) {
    forall i: nat :: i < n ==> OnSomePage(n, i, pages)
  }

  function ReadPages<R, T>(factsOf: R -> seq<T>, rows: seq<R>, pages: seq<(nat, nat)>): (r: seq<seq<T>>)
    ensures |r| == |pages|
    ensures forall p :: 0 <= p < |pages| ==> r[p] == Concatenated(factsOf, Page(rows, pages[p].0, pages[p].1))
  {
    if pages == [] then []
    else [Concatenated(factsOf, Page(rows, pages[0].0, pages[0].1))] + ReadPages(factsOf, rows, pages[1..])
  }

  /** A page reveals exactly the facts of the rows on it. */
  lemma {:induction false} PageReveals<R, T>(factsOf: R -> seq<T>, rows: seq<R>, page: (nat, nat), fact: T)
    ensures fact in Concatenated(factsOf, Page(rows, page.0, page.1)) <==>
            exists i: nat :: OnPage(|rows|, i, page) && fact in factsOf(rows[i])
  {
    var on := Page(rows, page.0, page.1);
    ConcatenatedExactly(factsOf, on, fact);
    if j :| 0 <= j < |on| && fact in factsOf(on[j]) {
      assert on[j] == rows[page.0 + j] && OnPage(|rows|, page.0 + j, page);
    }
    if i: nat :| OnPage(|rows|, i, page) && fact in factsOf(rows[i]) {
      assert on[i - page.0] == rows[i];
    }
  }

  /** Pages that cover all rows reveal, in total, exactly what all rows reveal. */
  lemma {:induction false} CoveredRowsCharged<R, T>(
    hash: T -> Option<Bytes>, factsOf: R -> seq<T>, rows: seq<R>, pages: seq<(nat, nat)>)
    requires Covered(|rows|, pages)
    ensures TraceHashes(hash, ReadPages(factsOf, rows, pages)) == Hashes(hash, Concatenated(factsOf, rows))
  {
    var views, all := ReadPages(factsOf, rows, pages), Concatenated(factsOf, rows);
    forall x ensures x in TraceHashes(hash, views) <==> x in Hashes(hash, all) {
      TraceHashesExactly(hash, views, x);
      if p :| 0 <= p < |views| && x in Hashes(hash, views[p]) {
        var fact :| fact in views[p] && hash(fact).Some? && hash(fact).value == x;
        PageReveals(factsOf, rows, pages[p], fact);
        ConcatenatedExactly(factsOf, rows, fact);
      }
      if x in Hashes(hash, all) {
        var fact :| fact in all && hash(fact).Some? && hash(fact).value == x;
        FactOnSomePage(factsOf, rows, pages, fact);
        var p :| 0 <= p < |pages| && fact in views[p];
        assert x in Hashes(hash, views[p]);
      }
    }
  }

  lemma {:induction false} FactOnSomePage<R, T>(factsOf: R -> seq<T>, rows: seq<R>, pages: seq<(nat, nat)>, fact: T)
    requires Covered(|rows|, pages) && fact in Concatenated(factsOf, rows)
    ensures exists p :: 0 <= p < |pages| && fact in ReadPages(factsOf, rows, pages)[p]
  {
    ConcatenatedExactly(factsOf, rows, fact);
    var i: nat :| 0 <= i < |rows| && fact in factsOf(rows[i]);
    assert OnSomePage(|rows|, i, pages);
    var p :| 0 <= p < |pages| && OnPage(|rows|, i, pages[p]);
    PageReveals(factsOf, rows, pages[p], fact);
    assert OnPage(|rows|, i, pages[p]) && fact in factsOf(rows[i]);
    assert fact in ReadPages(factsOf, rows, pages)[p];
  }

  // ---------- projections that can fail ----------

  /** project: a missing or malformed cell in any row fails the whole projection. */
  function Project<R, T>(factsOf: R -> Option<seq<T>>, rows: seq<R>): Option<seq<T>> {
    if rows == [] then Some([])
    else match (factsOf(rows[0]), Project(factsOf, rows[1..]))
      case (Some(first), Some(rest)) => Some(first + rest)
      case _ => None
  }

  function OrNothing<R, T>(factsOf: R -> Option<seq<T>>): R -> seq<T> {
    row => match factsOf(row) case Some(facts) => facts case None => []
  }

  ghost predicate Readable<R, T>(factsOf: R -> Option<seq<T>>, rows: seq<R>) {
    forall i :: 0 <= i < |rows| ==> factsOf(rows[i]).Some?
  }

  lemma {:induction false} ProjectIs<R, T>(factsOf: R -> Option<seq<T>>, rows: seq<R>)
    ensures Project(factsOf, rows)
            == if Readable(factsOf, rows) then Some(Concatenated(OrNothing(factsOf), rows)) else None
  {
    if rows != [] {
      ProjectIs(factsOf, rows[1..]);
      assert Readable(factsOf, rows) <==> factsOf(rows[0]).Some? && Readable(factsOf, rows[1..]) by {
        if factsOf(rows[0]).Some? && Readable(factsOf, rows[1..]) {
          forall i | 0 <= i < |rows| ensures factsOf(rows[i]).Some? {
            if i > 0 { assert factsOf(rows[1..][i - 1]).Some?; }
          }
        }
      }
    }
  }

  /** What the pages project, one after the other. */
  function ProjectPages<R, T>(
    factsOf: R -> Option<seq<T>>, rows: seq<R>, pages: seq<(nat, nat)>): (r: seq<Option<seq<T>>>)
    ensures |r| == |pages|
    ensures forall p :: 0 <= p < |pages| ==> r[p] == Project(factsOf, Page(rows, pages[p].0, pages[p].1))
  {
    if pages == [] then []
    else [Project(factsOf, Page(rows, pages[0].0, pages[0].1))] + ProjectPages(factsOf, rows, pages[1..])
  }

  /** A page is readable exactly when all its rows are. */
  lemma {:induction false} PageReadable<R, T>(factsOf: R -> Option<seq<T>>, rows: seq<R>, page: (nat, nat))
    ensures Readable(factsOf, Page(rows, page.0, page.1)) <==>
            forall i: nat :: OnPage(|rows|, i, page) ==> factsOf(rows[i]).Some?
  {
    var on := Page(rows, page.0, page.1);
    if Readable(factsOf, on) {
      forall i: nat | OnPage(|rows|, i, page) ensures factsOf(rows[i]).Some? { assert on[i - page.0] == rows[i]; }
    }
    if forall i: nat :: OnPage(|rows|, i, page) ==> factsOf(rows[i]).Some? {
      forall j | 0 <= j < |on| ensures factsOf(on[j]).Some? {
        assert on[j] == rows[page.0 + j] && OnPage(|rows|, page.0 + j, page);
      }
    }
  }

  lemma {:induction false} CoveringPagesReadable<R, T>(
    factsOf: R -> Option<seq<T>>, rows: seq<R>, pages: seq<(nat, nat)>)
    requires Covered(|rows|, pages)
    ensures Readable(factsOf, rows) <==> forall p: nat :: p < |pages| ==> ReadablePage(factsOf, rows, pages, p)
  {
    forall p: nat | p < |pages|
      ensures ReadablePage(factsOf, rows, pages, p) <==>
              forall i: nat :: OnPage(|rows|, i, pages[p]) ==> factsOf(rows[i]).Some?
    {
      PageReadable(factsOf, rows, pages[p]);
    }
    if forall p: nat :: p < |pages| ==> ReadablePage(factsOf, rows, pages, p) {
      forall i: nat | i < |rows| ensures factsOf(rows[i]).Some? {
        assert OnSomePage(|rows|, i, pages);
        var p: nat :| p < |pages| && OnPage(|rows|, i, pages[p]);
        assert ReadablePage(factsOf, rows, pages, p);
      }
    }
  }

  ghost predicate ReadablePage<R, T>(factsOf: R -> Option<seq<T>>, rows: seq<R>, pages: seq<(nat, nat)>, p: nat)
    requires p < |pages|
  {
    Readable(factsOf, Page(rows, pages[p].0, pages[p].1))
  }

  lemma {:induction false} PageProjects<R, T>(
    factsOf: R -> Option<seq<T>>, rows: seq<R>, pages: seq<(nat, nat)>, p: nat)
    requires p < |pages|
    ensures var page := Page(rows, pages[p].0, pages[p].1);
            ProjectPages(factsOf, rows, pages)[p]
            == if Readable(factsOf, page) then Some(Concatenated(OrNothing(factsOf), page)) else None
  {
    ProjectIs(factsOf, Page(rows, pages[p].0, pages[p].1));
  }

  ghost predicate AllSucceeded<T>(projected: seq<Option<seq<T>>>) {
    forall p :: 0 <= p < |projected| ==> projected[p].Some?
  }

  lemma {:induction false} PagesThenWhole<R, T>(factsOf: R -> Option<seq<T>>, rows: seq<R>, pages: seq<(nat, nat)>)
    requires Covered(|rows|, pages) && AllSucceeded(ProjectPages(factsOf, rows, pages))
    ensures Readable(factsOf, rows)
  {
    var projected := ProjectPages(factsOf, rows, pages);
    forall p: nat | p < |pages| ensures ReadablePage(factsOf, rows, pages, p) {
      assert projected[p].Some?;
      PageProjects(factsOf, rows, pages, p);
    }
    CoveringPagesReadable(factsOf, rows, pages);
  }

  lemma {:induction false} WholeThenPages<R, T>(factsOf: R -> Option<seq<T>>, rows: seq<R>, pages: seq<(nat, nat)>)
    requires Readable(factsOf, rows)
    ensures AllSucceeded(ProjectPages(factsOf, rows, pages))
  {
    var projected := ProjectPages(factsOf, rows, pages);
    forall p | 0 <= p < |projected| ensures projected[p].Some? {
      PageReadable(factsOf, rows, pages[p]);
      PageProjects(factsOf, rows, pages, p);
    }
  }

  /** Pages that cover all rows, overlapping or not, all succeed exactly when the full projection does. */
  lemma {:induction false} PagesSucceed<R, T>(factsOf: R -> Option<seq<T>>, rows: seq<R>, pages: seq<(nat, nat)>)
    requires Covered(|rows|, pages)
    ensures AllSucceeded(ProjectPages(factsOf, rows, pages)) == Project(factsOf, rows).Some?
  {
    ProjectIs(factsOf, rows);
    if AllSucceeded(ProjectPages(factsOf, rows, pages)) { PagesThenWhole(factsOf, rows, pages); }
    if Readable(factsOf, rows) { WholeThenPages(factsOf, rows, pages); }
  }

  /** Then they charge, in total, exactly what the full projection charges. */
  lemma {:induction false} PagesChargeOnce<R, T>(
    hash: T -> Option<Bytes>, factsOf: R -> Option<seq<T>>, rows: seq<R>, pages: seq<(nat, nat)>, read: seq<seq<T>>)
    requires Covered(|rows|, pages) && |read| == |pages|
    requires forall p :: 0 <= p < |pages| ==> ProjectPages(factsOf, rows, pages)[p] == Some(read[p])
    ensures Project(factsOf, rows).Some?
    ensures TraceHashes(hash, read) == Hashes(hash, Project(factsOf, rows).value)
  {
    PagesSucceed(factsOf, rows, pages);
    ProjectIs(factsOf, rows);
    forall p | 0 <= p < |pages| ensures read[p] == ReadPages(OrNothing(factsOf), rows, pages)[p] {
      PageProjects(factsOf, rows, pages, p);
    }
    assert read == ReadPages(OrNothing(factsOf), rows, pages);
    CoveredRowsCharged(hash, OrNothing(factsOf), rows, pages);
  }

  // ---------- agreement with the trace-union oracle ----------

  function FactLists(trace: seq<Observation>, d: Dim): (r: seq<seq<Bytes>>)
    ensures |r| == |trace|
  {
    if trace == [] then [] else FactLists(trace[..|trace| - 1], d) + [trace[|trace| - 1].Facts(d)]
  }

  /** Charging every observation of a trace charges exactly the oracle's union. */
  lemma {:induction false} ChargeIsUnion(trace: seq<Observation>, d: Dim)
    ensures TraceHashes((fact: Bytes) => Some(fact), FactLists(trace, d)) == Exposed(trace, d)
  {
    if trace != [] {
      var n := |trace| - 1;
      var lists := FactLists(trace, d);
      ChargeIsUnion(trace[..n], d);
      assert lists[..n] == FactLists(trace[..n], d);
      IdentityHashes(trace[n].Facts(d));
    }
  }

  lemma {:induction false} IdentityHashes(facts: seq<Bytes>)
    ensures Hashes((fact: Bytes) => Some(fact), facts) == Elements(facts)
  {
  }
}
