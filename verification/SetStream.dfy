/** The bounded-memory set summariser (evaluation/finalv5oracle/setstream.go): buffer, sort and
    deduplicate chunks, spill them as runs, merge the runs through a heap, and commit to the result
    once per role. A spill file is the sequence of raw members written to it. */
module SetStream {
  import opened GoBytes
  import opened Sorting
  import opened MergeHeap
  import opened SetAlgebra
  import Euclid

  const DEFAULT_BUFFER: int := 65536

  datatype StreamSetOptions = StreamSetOptions(maxInMemoryMembers: int, captureMembers: int)

  datatype StreamSetStats = StreamSetStats(
    inputMembers: int, duplicateMembers: int, peakBufferedMembers: int, spillRuns: int, peakMergeHeads: int)

  datatype StreamSetSummary = StreamSetSummary(
    role: Bytes, cardinality: int, sha256: Bytes, members: seq<Bytes>, membersComplete: bool,
    sample: seq<Bytes>, stats: StreamSetStats)

  datatype StreamError = NoRoles | InvalidRole | MemoryBound | CaptureBound | MalformedMember(position: int)

  function Min(a: int, b: int): int {
    if a < b then a else b
  }

  function Max(a: int, b: int): int {
    if a < b then b else a
  }

  /** How many chunks of at most `limit` members hold n members. */
  function Chunks(n: nat, limit: nat): nat
    requires limit > 0
  {
    if n == 0 then 0 else if n <= limit then 1 else 1 + Chunks(n - limit, limit)
  }

  /** Chunks is n / limit rounded up. */
  lemma {:induction false} ChunksIsCeiling(n: nat, limit: nat)
    requires limit > 0
    ensures Chunks(n, limit) == (n + limit - 1) / limit
    decreases n
  {
    if n > limit {
      ChunksIsCeiling(n - limit, limit);
      var q, r := (n - 1) / limit, (n - 1) % limit;
      assert n + limit - 1 == (q + 1) * limit + r;
      Euclid.DivisionIs(n + limit - 1, q + 1, r, limit);
    } else if n > 0 {
      Euclid.DivisionIs(n + limit - 1, 1, n - 1, limit);
    } else {
      Euclid.DivisionIs(limit - 1, 0, limit - 1, limit);
    }
  }

  lemma {:induction false} ChunksMonotone(a: nat, b: nat, limit: nat)
    requires a <= b && limit > 0
    ensures Chunks(a, limit) <= Chunks(b, limit)
    decreases b
  {
    if a > limit { ChunksMonotone(a - limit, b - limit, limit); }
  }

  // ---------- the specification: one plain set ----------

  /** Exact resource accounting for n members with the given number of distinct ones. */
  function StatsOf(n: nat, distinct: int, limit: int): StreamSetStats
    requires limit >= 2
  {
    var runs := if n <= limit then 0 else Chunks(n, limit);
    StreamSetStats(n, n - distinct, Min(n, limit), runs, runs)
  }

  ghost function SummaryOf(
    h: HashFunction, role: Bytes, members: seq<Bytes>, limit: int, capture: nat): StreamSetSummary
    requires limit >= 2
  {
    var all := Listing(Elements(members));
    var complete := |all| <= capture;
    StreamSetSummary(role, |all|, DigestSetRole(h, role, all), if complete then all else [], complete,
                     all[..Min(|all|, capture)], StatsOf(|members|, |all|, limit))
  }

  function EffectiveLimit(options: StreamSetOptions): int {
    if options.maxInMemoryMembers == 0 then DEFAULT_BUFFER else options.maxInMemoryMembers
  }

  predicate OptionsOk(options: StreamSetOptions) {
    EffectiveLimit(options) >= 2 && options.captureMembers >= 0
  }

  function IdentityOf(s: StreamSetSummary): SetIdentity {
    SetIdentity(s.cardinality, s.sha256)
  }

  ghost predicate ValidRoles(roles: seq<Bytes>) {
    Distinct(roles) && forall i :: 0 <= i < |roles| ==> ValidRole(roles[i])
  }

  ghost function FirstMalformed(members: seq<Bytes>): (n: nat)
    ensures n <= |members| && ValidMembers(members[..n])
    ensures n < |members| ==> !ValidSha256(members[n])
  {
    if members == [] || !ValidSha256(members[0]) then 0
    else
      var n := 1 + FirstMalformed(members[1..]);
      assert members[..n] == [members[0]] + members[1..][..n - 1];
      n
  }

  ghost function Expected(h: HashFunction, roles: seq<Bytes>, members: seq<Bytes>, options: StreamSetOptions)
    : Result<map<Bytes, StreamSetSummary>, StreamError>
  {
    var limit := EffectiveLimit(options);
    if roles == [] then Err(NoRoles)
    else if !ValidRoles(roles) then Err(InvalidRole)
    else if limit < 2 then Err(MemoryBound)
    else if options.captureMembers < 0 then Err(CaptureBound)
    else if !ValidMembers(members) then Err(MalformedMember(FirstMalformed(members) + 1))
    else Ok(map role | role in roles :: SummaryOf(h, role, members, limit, options.captureMembers))
  }

  // ---------- raw and hexadecimal members ----------

  function HexAll(raws: seq<Bytes>): (r: seq<Bytes>)
    ensures |r| == |raws|
    ensures forall i :: 0 <= i < |r| ==> r[i] == HexEncode(raws[i])
  {
    if raws == [] then [] else [HexEncode(raws[0])] + HexAll(raws[1..])
  }

  function RawSet(members: seq<Bytes>): set<Bytes> {
    set m | m in members :: Raw(m)
  }

  lemma {:induction false} RawHexAll(raws: seq<Bytes>)
    ensures RawAll(HexAll(raws)) == raws
  {
    forall i | 0 <= i < |raws| ensures RawAll(HexAll(raws))[i] == raws[i] { HexRoundTrip(raws[i]); }
  }

  lemma {:induction false} RawAllAscending(members: seq<Bytes>)
    requires ValidMembers(members) && Ascending(members)
    ensures Ascending(RawAll(members)) && Elements(RawAll(members)) == RawSet(members)
  {
    var r := RawAll(members);
    forall i, j | 0 <= i < j < |r| ensures Less(r[i], r[j]) {
      RawOfValid(members[i]);
      RawOfValid(members[j]);
      HexOrder(r[i], r[j]);
    }
    forall x ensures x in r <==> x in RawSet(members) {
      if x in RawSet(members) {
        var m :| m in members && x == Raw(m);
        var i :| 0 <= i < |members| && members[i] == m;
        assert r[i] == x;
      }
    }
  }

  /** Hexadecimal order is byte order, so the merged raw members spell the listing of the input. */
  lemma {:induction false} MergedIsListing(out: seq<Bytes>, members: seq<Bytes>)
    requires ValidMembers(members)
    requires Ascending(out) && Elements(out) == RawSet(members)
    ensures HexAll(out) == Listing(Elements(members))
  {
    var u := HexAll(out);
    forall i, j | 0 <= i < j < |u| ensures Less(u[i], u[j]) {
      HexOrder(out[i], out[j]);
      HexRoundTrip(out[i]);
      HexRoundTrip(out[j]);
      assert Less(out[i], out[j]);
    }
    forall x ensures x in u <==> x in members {
      if x in u {
        var i :| 0 <= i < |u| && u[i] == x;
        assert out[i] in Elements(out);
        var m :| m in members && out[i] == Raw(m);
        RawOfValid(m);
      }
      if x in members {
        assert Raw(x) in RawSet(members);
        var i :| 0 <= i < |out| && out[i] == Raw(x);
        RawOfValid(x);
        assert u[i] == x;
      }
    }
    assert Elements(u) == Elements(members);
    AscendingUnique(u, Listing(Elements(members)));
  }

  // ---------- the merge ----------

  datatype Head = Head(member: Bytes, run: int)

  predicate HeadLeq(a: Head, b: Head) {
    if a.member == b.member then a.run <= b.run else Leq(a.member, b.member)
  }

  lemma {:induction false} HeadTotalOrder()
    ensures TotalOrder(HeadLeq)
  {
    BytesTotalOrder();
  }

  ghost predicate Runs(runs: seq<seq<Bytes>>) {
    forall i :: 0 <= i < |runs| ==> runs[i] != [] && Ascending(runs[i])
  }

  ghost predicate Positions(runs: seq<seq<Bytes>>, next: seq<nat>) {
    |next| == |runs| && forall i :: 0 <= i < |runs| ==> next[i] <= |runs[i]|
  }

  /** The heads of the first n runs that still have unread members. */
  ghost function Live(runs: seq<seq<Bytes>>, next: seq<nat>, n: nat): set<Head>
    requires Positions(runs, next) && n <= |runs|
  {
    set i | 0 <= i < n && next[i] < |runs[i]| :: Head(runs[i][next[i]], i)
  }

  ghost function Consumed(runs: seq<seq<Bytes>>, next: seq<nat>): set<Bytes>
    requires Positions(runs, next)
  {
    set i, j | 0 <= i < |runs| && 0 <= j < next[i] :: runs[i][j]
  }

  ghost function UnionOf(runs: seq<seq<Bytes>>): set<Bytes> {
    set run, x | run in runs && x in run :: x
  }

  /** What the merge loop keeps: the output lists exactly what was read, and nothing unread is smaller. */
  ghost predicate Merging(runs: seq<seq<Bytes>>, next: seq<nat>, out: seq<Bytes>) {
    && Positions(runs, next)
    && Ascending(out) && Elements(out) == Consumed(runs, next)
    && (out != [] ==>
          forall i, j :: 0 <= i < |runs| && next[i] <= j < |runs[i]| ==> Leq(out[|out| - 1], runs[i][j]))
  }

  function Emit(out: seq<Bytes>, member: Bytes): seq<Bytes> {
    if out == [] || member != out[|out| - 1] then out + [member] else out
  }

  lemma {:induction false} LeastHeadIsLeastUnread(runs: seq<seq<Bytes>>, next: seq<nat>, head: Head, i: nat, j: nat)
    requires Runs(runs) && Positions(runs, next)
    requires forall y :: y in Live(runs, next, |runs|) ==> HeadLeq(head, y)
    requires i < |runs| && next[i] <= j < |runs[i]|
    ensures Leq(head.member, runs[i][j])
  {
    assert Head(runs[i][next[i]], i) in Live(runs, next, |runs|);
    var first := runs[i][next[i]];
    if head.member == first { LeqReflexive(first); }
    if next[i] < j {
      assert Less(first, runs[i][j]);
      LeqTransitive(head.member, first, runs[i][j]);
    }
  }

  lemma {:induction false} ConsumedStep(runs: seq<seq<Bytes>>, next: seq<nat>, r: nat)
    requires Positions(runs, next) && r < |runs| && next[r] < |runs[r]|
    ensures Positions(runs, next[r := next[r] + 1])
    ensures Consumed(runs, next[r := next[r] + 1]) == Consumed(runs, next) + {runs[r][next[r]]}
  {
    var next2 := next[r := next[r] + 1];
    forall x ensures x in Consumed(runs, next2) <==> x in Consumed(runs, next) + {runs[r][next[r]]} {
      if x in Consumed(runs, next2) {
        var i, j :| 0 <= i < |runs| && 0 <= j < next2[i] && x == runs[i][j];
        if i != r || j < next[r] { assert 0 <= j < next[i]; }
      }
      if x in Consumed(runs, next) {
        var i, j :| 0 <= i < |runs| && 0 <= j < next[i] && x == runs[i][j];
        assert 0 <= j < next2[i];
      }
      if x == runs[r][next[r]] { assert 0 <= next[r] < next2[r]; }
    }
  }

  lemma {:induction false} MergeStep(runs: seq<seq<Bytes>>, next: seq<nat>, out: seq<Bytes>, head: Head)
    requires Runs(runs) && Merging(runs, next, out)
    requires head in Live(runs, next, |runs|)
    requires forall y :: y in Live(runs, next, |runs|) ==> HeadLeq(head, y)
    ensures Merging(runs, next[head.run := next[head.run] + 1], Emit(out, head.member))
  {
    var r, m := head.run, head.member;
    var next2, out2 := next[r := next[r] + 1], Emit(out, m);
    ConsumedStep(runs, next, r);
    assert m == runs[r][next[r]];
    assert Elements(out2) == Elements(out) + {m} by {
      if out2 == out { assert m in Elements(out); }
    }
    if out != [] && m != out[|out| - 1] {
      assert Leq(out[|out| - 1], m);
      forall i | 0 <= i < |out| ensures Less(out[i], m) {
        BelowNewLast(out, i, m);
      }
    }
    forall i, j | 0 <= i < |runs| && next2[i] <= j < |runs[i]| ensures Leq(out2[|out2| - 1], runs[i][j]) {
      LeastHeadIsLeastUnread(runs, next, head, i, j);
    }
  }

  lemma {:induction false} BelowNewLast(out: seq<Bytes>, i: nat, m: Bytes)
    requires Ascending(out) && i < |out|
    requires Less(out[|out| - 1], m)
    ensures Less(out[i], m)
  {
    var last := out[|out| - 1];
    if i < |out| - 1 {
      assert Less(out[i], last);
      LeqTransitive(out[i], last, m);
      if out[i] == m { LeqAntisymmetric(last, m); }
    }
  }

  lemma {:induction false} LiveStep(runs: seq<seq<Bytes>>, next: seq<nat>, r: nat)
    requires Positions(runs, next) && r < |runs| && next[r] < |runs[r]|
    ensures var next2 := next[r := next[r] + 1];
            var others := Live(runs, next, |runs|) - {Head(runs[r][next[r]], r)};
            && Positions(runs, next2)
            && (if next2[r] < |runs[r]|
                then multiset(Live(runs, next2, |runs|)) == multiset(others) + multiset{Head(runs[r][next2[r]], r)}
                else Live(runs, next2, |runs|) == others)
  {
    var next2 := next[r := next[r] + 1];
    var others := Live(runs, next, |runs|) - {Head(runs[r][next[r]], r)};
    if next2[r] < |runs[r]| {
      var head := Head(runs[r][next2[r]], r);
      assert Live(runs, next2, |runs|) == others + {head};
      assert head !in others;
    }
  }

  lemma {:induction false} RemoveHead(items: seq<Head>, live: set<Head>, head: Head)
    requires head in live && multiset(items) + multiset{head} == multiset(live)
    ensures multiset(items) == multiset(live - {head})
  {
    forall x ensures multiset(items)[x] == multiset(live - {head})[x] {
      assert (multiset(items) + multiset{head})[x] == multiset(live)[x];
    }
  }

  /** How many members remain in the spill files. */
  ghost function Unread(runs: seq<seq<Bytes>>, next: seq<nat>): int
    requires |next| == |runs|
  {
    if runs == [] then 0 else |runs[0]| - next[0] + Unread(runs[1..], next[1..])
  }

  lemma {:induction false} UnreadStep(runs: seq<seq<Bytes>>, next: seq<nat>, r: nat)
    requires Positions(runs, next) && r < |runs| && next[r] < |runs[r]|
    ensures 0 <= Unread(runs, next[r := next[r] + 1]) == Unread(runs, next) - 1
  {
    var next2 := next[r := next[r] + 1];
    if r == 0 {
      assert next2[1..] == next[1..];
      UnreadNonNegative(runs[1..], next[1..]);
    } else {
      assert next2[1..] == next[1..][r - 1 := next[r] + 1];
      UnreadStep(runs[1..], next[1..], r - 1);
    }
  }

  lemma {:induction false} UnreadNonNegative(runs: seq<seq<Bytes>>, next: seq<nat>)
    requires Positions(runs, next)
    ensures Unread(runs, next) >= 0
  {
    if runs != [] { UnreadNonNegative(runs[1..], next[1..]); }
  }

  lemma {:induction false} AllRead(runs: seq<seq<Bytes>>, next: seq<nat>)
    requires Positions(runs, next) && Live(runs, next, |runs|) == {}
    ensures Consumed(runs, next) == UnionOf(runs)
  {
    assert forall i :: 0 <= i < |runs| && next[i] < |runs[i]| ==> Head(runs[i][next[i]], i) in Live(runs, next, |runs|);
    forall x ensures x in Consumed(runs, next) <==> x in UnionOf(runs) {
      if x in UnionOf(runs) {
        var run :| run in runs && x in run;
        var i :| 0 <= i < |runs| && runs[i] == run;
        var j :| 0 <= j < |run| && run[j] == x;
        assert next[i] == |runs[i]|;
        assert 0 <= j < next[i] && x == runs[i][j];
      }
      if x in Consumed(runs, next) {
        var i, j :| 0 <= i < |runs| && 0 <= j < next[i] && x == runs[i][j];
        assert runs[i] in runs && x in runs[i];
      }
    }
  }

  lemma {:induction false} NothingRead(runs: seq<seq<Bytes>>, next: seq<nat>)
    requires Positions(runs, next) && forall i :: 0 <= i < |next| ==> next[i] == 0
    ensures Merging(runs, next, [])
  {
  }

  /** One head per run, in run order. */
  method OpenRuns(runs: seq<seq<Bytes>>, ghost next: seq<nat>) returns (heads: Heap<Head>)
    requires Runs(runs) && Positions(runs, next) && forall i :: 0 <= i < |next| ==> next[i] == 0
    ensures fresh(heads) && heads.Valid() && heads.leq == HeadLeq
    ensures multiset(heads.items) == multiset(Live(runs, next, |runs|)) && |heads.items| == |runs|
  {
    HeadTotalOrder();
    heads := new Heap(HeadLeq);
    for index := 0 to |runs|
      invariant fresh(heads) && heads.Valid() && heads.leq == HeadLeq
      invariant multiset(heads.items) == multiset(Live(runs, next, index)) && |heads.items| == index
    {
      var head := Head(runs[index][0], index);
      assert Live(runs, next, index + 1) == Live(runs, next, index) + {head};
      assert head !in Live(runs, next, index);
      heads.Push(head);
    }
  }

  /** Pop the least head and replace it by the next member of its run, if there is one. */
  method Advance(heads: Heap<Head>, runs: seq<seq<Bytes>>, next: seq<nat>) returns (head: Head)
    requires heads.Valid() && heads.leq == HeadLeq && heads.items != []
    requires Positions(runs, next) && multiset(heads.items) == multiset(Live(runs, next, |runs|))
    modifies heads
    ensures heads.Valid()
    ensures head in Live(runs, next, |runs|) && forall y :: y in Live(runs, next, |runs|) ==> HeadLeq(head, y)
    ensures 0 <= head.run < |runs| && next[head.run] < |runs[head.run]|
    ensures Positions(runs, next[head.run := next[head.run] + 1])
    ensures multiset(heads.items) == multiset(Live(runs, next[head.run := next[head.run] + 1], |runs|))
    ensures |heads.items| <= old(|heads.items|)
  {
    head := PopLeast(heads, Live(runs, next, |runs|));
    PushFollowing(heads, runs, next, head);
  }

  method PushFollowing(heads: Heap<Head>, runs: seq<seq<Bytes>>, next: seq<nat>, head: Head)
    requires heads.Valid() && heads.leq == HeadLeq && Positions(runs, next) && head in Live(runs, next, |runs|)
    requires multiset(heads.items) == multiset(Live(runs, next, |runs|) - {head})
    modifies heads
    ensures heads.Valid() && |heads.items| <= old(|heads.items|) + 1
    ensures Positions(runs, next[head.run := next[head.run] + 1])
    ensures multiset(heads.items) == multiset(Live(runs, next[head.run := next[head.run] + 1], |runs|))
  {
    LiveStep(runs, next, head.run);
    var following := next[head.run] + 1;
    if following < |runs[head.run]| {
      heads.Push(Head(runs[head.run][following], head.run));
    }
  }

  method PopLeast(heads: Heap<Head>, ghost live: set<Head>) returns (head: Head)
    requires heads.Valid() && heads.leq == HeadLeq && heads.items != []
    requires multiset(heads.items) == multiset(live)
    modifies heads
    ensures heads.Valid()
    ensures head in live && forall y :: y in live ==> HeadLeq(head, y)
    ensures multiset(heads.items) == multiset(live - {head}) && |heads.items| == old(|heads.items|) - 1
  {
    assert forall y :: y in live <==> y in multiset(heads.items);
    head := heads.Pop();
    RemoveHead(heads.items, live, head);
  }

  /** The first members of the output, up to the capture limit, in hexadecimal. */
  ghost predicate IsSample(sample: seq<Bytes>, out: seq<Bytes>, captureLimit: nat) {
    |sample| == Min(|out|, captureLimit) && forall i :: 0 <= i < |sample| ==> sample[i] == HexEncode(out[i])
  }

  /** Write a popped member unless it repeats the previous one. */
  method WriteMember(out: seq<Bytes>, cardinality: nat, sample: seq<Bytes>, member: Bytes, captureLimit: nat)
    returns (out2: seq<Bytes>, cardinality2: nat, sample2: seq<Bytes>)
    requires cardinality == |out| && IsSample(sample, out, captureLimit)
    ensures out2 == Emit(out, member)
    ensures cardinality2 == |out2| && IsSample(sample2, out2, captureLimit)
  {
    out2, cardinality2, sample2 := out, cardinality, sample;
    if out == [] || member != out[|out| - 1] {
      out2 := out + [member];
      cardinality2 := cardinality + 1;
      if |sample| < captureLimit { sample2 := sample + [HexEncode(member)]; }
    }
  }

  /** One turn of the merge loop, up to the write. */
  method MergeOne(heads: Heap<Head>, runs: seq<seq<Bytes>>, next: seq<nat>, ghost out: seq<Bytes>) returns (head: Head)
    requires heads.Valid() && heads.leq == HeadLeq && heads.items != []
    requires Runs(runs) && Merging(runs, next, out) && multiset(heads.items) == multiset(Live(runs, next, |runs|))
    modifies heads
    ensures heads.Valid() && 0 <= head.run < |runs| && |heads.items| <= old(|heads.items|)
    ensures Merging(runs, next[head.run := next[head.run] + 1], Emit(out, head.member))
    ensures multiset(heads.items) == multiset(Live(runs, next[head.run := next[head.run] + 1], |runs|))
    ensures 0 <= Unread(runs, next[head.run := next[head.run] + 1]) == Unread(runs, next) - 1
  {
    head := Advance(heads, runs, next);
    UnreadStep(runs, next, head.run);
    MergeStep(runs, next, out, head);
  }

  method MergeRuns(runs: seq<seq<Bytes>>, captureLimit: nat)
    returns (out: seq<Bytes>, cardinality: nat, sample: seq<Bytes>, peakHeads: nat)
    requires Runs(runs)
    ensures Ascending(out) && Elements(out) == UnionOf(runs)
    ensures cardinality == |out| && peakHeads == |runs|
    ensures IsSample(sample, out, captureLimit)
  {
    var next: seq<nat> := seq(|runs|, _ => 0);
    NothingRead(runs, next);
    UnreadNonNegative(runs, next);
    var heads := OpenRuns(runs, next);
    peakHeads := |heads.items|;
    out, cardinality, sample := [], 0, [];
    ghost var unread := Unread(runs, next);
    while heads.items != []
      invariant fresh(heads) && heads.Valid() && heads.leq == HeadLeq
      invariant Merging(runs, next, out)
      invariant multiset(heads.items) == multiset(Live(runs, next, |runs|)) && |heads.items| <= |runs|
      invariant cardinality == |out| && peakHeads == |runs| && IsSample(sample, out, captureLimit)
      invariant unread == Unread(runs, next)
      decreases unread
    {
      var head := MergeOne(heads, runs, next, out);
      out, cardinality, sample := WriteMember(out, cardinality, sample, head.member, captureLimit);
      next := next[head.run := next[head.run] + 1];
      unread := unread - 1;
      peakHeads := Max(peakHeads, |heads.items|);
    }
    assert |multiset(Live(runs, next, |runs|))| == 0;
    AllRead(runs, next);
  }

  // ---------- chunks ----------

  /** Write one sorted chunk as a run: repetitions of the previous member are skipped. */
  method WriteRun(sorted: seq<Bytes>) returns (run: seq<Bytes>)
    ensures run == RawAll(Dedup(sorted))
  {
    run := [];
    var previous: Bytes := [];
    for index := 0 to |sorted|
      invariant run == RawAll(Dedup(sorted[..index]))
      invariant index > 0 ==> previous == sorted[index - 1]
    {
      var member := sorted[index];
      assert sorted[..index + 1] == sorted[..index] + [member];
      DedupSnoc(sorted[..index], member);
      if !(index > 0 && member == previous) {
        RawAllSnoc(Dedup(sorted[..index]), member);
        run := run + [Raw(member)];
        previous := member;
      }
    }
    assert sorted[..|sorted|] == sorted;
  }

  lemma {:induction false} RawAllSnoc(members: seq<Bytes>, m: Bytes)
    ensures RawAll(members + [m]) == RawAll(members) + [Raw(m)]
  {
  }

  lemma {:induction false} SameRawSet(a: seq<Bytes>, b: seq<Bytes>)
    requires Elements(a) == Elements(b)
    ensures RawSet(a) == RawSet(b)
  {
    forall m ensures m in a <==> m in b { assert m in Elements(a) <==> m in Elements(b); }
  }

  lemma {:induction false} ChunkRun(chunk: seq<Bytes>)
    requires ValidMembers(chunk) && chunk != []
    ensures var run := RawAll(Dedup(Sort(Leq, chunk)));
            run != [] && Ascending(run) && Elements(run) == RawSet(chunk)
  {
    SortDedupIsListing(chunk);
    ListingOfChunk(chunk, Dedup(Sort(Leq, chunk)));
  }

  lemma {:induction false} ListingOfChunk(chunk: seq<Bytes>, unique: seq<Bytes>)
    requires ValidMembers(chunk) && chunk != [] && unique == Listing(Elements(chunk))
    ensures RawAll(unique) != [] && Ascending(RawAll(unique)) && Elements(RawAll(unique)) == RawSet(chunk)
  {
    assert chunk[0] in Elements(unique);
    assert forall i :: 0 <= i < |unique| ==> unique[i] in Elements(unique);
    RawAllAscending(unique);
    SameRawSet(unique, chunk);
  }

  lemma {:induction false} UnionOfSnoc(runs: seq<seq<Bytes>>, run: seq<Bytes>)
    ensures UnionOf(runs + [run]) == UnionOf(runs) + Elements(run)
  {
    forall x ensures x in UnionOf(runs + [run]) <==> x in UnionOf(runs) + Elements(run) {
      if x in UnionOf(runs) {
        var r :| r in runs && x in r;
        assert r in runs + [run];
      }
      if x in run { assert run in runs + [run]; }
    }
  }

  /** What buffer, runs and counters say about the input so far. */
  ghost predicate Holds(
    limit: int, buffer: seq<Bytes>, runs: seq<seq<Bytes>>, input: seq<Bytes>, count: int, peak: int) {
    && limit >= 2 && |buffer| <= limit
    && ValidMembers(input) && ValidMembers(buffer) && Runs(runs)
    && UnionOf(runs) + RawSet(buffer) == RawSet(input)
    && (runs == [] ==> buffer == input)
    && count == |input| && peak == Min(|input|, limit)
  }

  lemma {:induction false} RawSetSnoc(members: seq<Bytes>, m: Bytes)
    ensures RawSet(members + [m]) == RawSet(members) + {Raw(m)}
  {
  }

  lemma {:induction false} AppendKeeps(
    limit: int, buffer: seq<Bytes>, runs: seq<seq<Bytes>>, input: seq<Bytes>, count: int, peak: int, m: Bytes)
    requires Holds(limit, buffer, runs, input, count, peak) && |buffer| < limit && ValidSha256(m)
    requires runs != [] ==> |input| >= limit
    ensures Holds(limit, buffer + [m], runs, input + [m], count + 1, Max(peak, |buffer| + 1))
  {
    RawSetSnoc(buffer, m);
    RawSetSnoc(input, m);
  }

  lemma {:induction false} FlushKeeps(
    limit: int, buffer: seq<Bytes>, runs: seq<seq<Bytes>>, input: seq<Bytes>, count: int, peak: int, run: seq<Bytes>)
    requires Holds(limit, buffer, runs, input, count, peak)
    requires run != [] && Ascending(run) && Elements(run) == RawSet(buffer)
    ensures Holds(limit, [], runs + [run], input, count, peak)
  {
    UnionOfSnoc(runs, run);
    assert RawSet([]) == {};
  }

  /** While the stream runs, every spilled chunk was full and the newest member is still buffered. */
  ghost predicate FullChunks(limit: int, buffer: seq<Bytes>, runs: seq<seq<Bytes>>, input: seq<Bytes>) {
    |input| == |runs| * limit + |buffer| && (runs != [] ==> buffer != [])
  }

  lemma {:induction false} ChunkSpilled(runs: nat, limit: int)
    ensures (runs + 1) * limit == runs * limit + limit
  {
  }

  /** The state shared by the stream callback and `flush`. */
  class StreamSorter {
    const limit: int
    var buffer: seq<Bytes>
    var runs: seq<seq<Bytes>>
    var inputMembers: int
    var peakBuffered: int
    ghost var input: seq<Bytes>

    ghost predicate Valid()
      reads this
    {
      Holds(limit, buffer, runs, input, inputMembers, peakBuffered)
    }

    ghost predicate Filling()
      reads this
    {
      FullChunks(limit, buffer, runs, input)
    }

    constructor (limit: int)
      requires limit >= 2
      ensures Valid() && Filling() && input == [] && this.limit == limit
    {
      this.limit := limit;
      buffer, runs, inputMembers, peakBuffered, input := [], [], 0, 0, [];
    }

    method Flush()
      requires Valid()
      modifies this
      ensures Valid() && input == old(input) && buffer == []
      ensures |runs| == old(|runs|) + if old(buffer) == [] then 0 else 1
    {
      if |buffer| == 0 { return; }
      var run := WriteRun(Sort(Leq, buffer));
      ChunkRun(buffer);
      FlushKeeps(limit, buffer, runs, input, inputMembers, peakBuffered, run);
      runs := runs + [run];
      buffer := [];
    }

    /** The stream callback: rejects a malformed member without touching the state. */
    method Yield(member: Bytes) returns (ok: bool)
      requires Valid() && Filling()
      modifies this
      ensures Valid() && Filling()
      ensures ok == ValidSha256(member)
      ensures input == if ok then old(input) + [member] else old(input)
      ensures !ok ==> unchanged(this)
    {
      ok := ValidSha256(member);
      if !ok { return; }
      SpilledAtLeastOneChunk(|runs|, limit);
      ChunkSpilled(|runs|, limit);
      if |buffer| == limit { Flush(); }
      Append(member);
    }

    method Append(member: Bytes)
      requires Valid() && |buffer| < limit && ValidSha256(member)
      requires runs != [] ==> |input| >= limit
      modifies this
      ensures Valid() && runs == old(runs)
      ensures buffer == old(buffer) + [member] && input == old(input) + [member]
    {
      AppendKeeps(limit, buffer, runs, input, inputMembers, peakBuffered, member);
      buffer := buffer + [member];
      input := input + [member];
      inputMembers := inputMembers + 1;
      peakBuffered := Max(peakBuffered, |buffer|);
    }
  }

  lemma {:induction false} SpilledAtLeastOneChunk(runs: nat, limit: nat)
    ensures runs > 0 ==> runs * limit >= limit
  {
    if runs > 0 { assert runs * limit == (runs - 1) * limit + limit; }
  }

  // ---------- commitments ----------

  function StreamPreimage(role: Bytes, raws: seq<Bytes>): Bytes {
    Framed(VERSION + role) + U64(|raws|) + FrameAll(raws)
  }

  /** One hasher per role, all fed in a single pass over the members. */
  method RoleDigests(h: HashFunction, roles: seq<Bytes>, raws: seq<Bytes>) returns (digests: map<Bytes, Bytes>)
    ensures digests.Keys == Elements(roles)
    ensures forall role :: role in roles ==> digests[role] == HexEncode(h(StreamPreimage(role, raws)))
  {
    var hashers := map role | role in roles :: Framed(VERSION + role) + U64(|raws|);
    for index := 0 to |raws|
      invariant hashers.Keys == Elements(roles)
      invariant forall role :: role in hashers ==>
                  hashers[role] == Framed(VERSION + role) + U64(|raws|) + FrameAll(raws[..index])
    {
      ghost var before := hashers;
      hashers := map role | role in hashers :: hashers[role] + Framed(raws[index]);
      FramedPrefix(raws, index);
      forall role | role in hashers
        ensures hashers[role] == Framed(VERSION + role) + U64(|raws|) + FrameAll(raws[..index + 1])
      {
        Assoc(Framed(VERSION + role) + U64(|raws|), FrameAll(raws[..index]), Framed(raws[index]));
      }
    }
    assert raws[..|raws|] == raws;
    digests := map role | role in hashers :: HexEncode(h(hashers[role]));
  }

  lemma {:induction false} FramedPrefix(raws: seq<Bytes>, index: nat)
    requires index < |raws|
    ensures FrameAll(raws[..index + 1]) == FrameAll(raws[..index]) + Framed(raws[index])
  {
    assert raws[..index + 1] == raws[..index] + [raws[index]];
    FrameAllSnoc(raws[..index], raws[index]);
  }

  function Assemble(
    digests: map<Bytes, Bytes>, cardinality: int, sample: seq<Bytes>, capture: int, stats: StreamSetStats)
    : map<Bytes, StreamSetSummary>
  {
    var complete := cardinality <= capture;
    map role | role in digests ::
      StreamSetSummary(role, cardinality, digests[role], if complete then sample else [], complete, sample, stats)
  }

  lemma {:induction false} DigestsAreSetDigests(
    h: HashFunction, roles: seq<Bytes>, raws: seq<Bytes>, digests: map<Bytes, Bytes>)
    requires digests.Keys == Elements(roles)
    requires forall role :: role in roles ==> digests[role] == HexEncode(h(StreamPreimage(role, raws)))
    ensures forall role :: role in roles <==> role in digests
    ensures forall role :: role in digests ==> digests[role] == DigestSetRole(h, role, HexAll(raws))
  {
    assert forall role :: role in roles <==> role in Elements(roles);
    forall role | role in digests ensures digests[role] == DigestSetRole(h, role, HexAll(raws)) {
      assert role in roles;
      SamePreimage(role, raws);
    }
  }

  method SetRoleDigests(h: HashFunction, roles: seq<Bytes>, raws: seq<Bytes>) returns (digests: map<Bytes, Bytes>)
    ensures forall role :: role in roles <==> role in digests
    ensures forall role :: role in digests ==> digests[role] == DigestSetRole(h, role, HexAll(raws))
  {
    digests := RoleDigests(h, roles, raws);
    DigestsAreSetDigests(h, roles, raws, digests);
  }

  /** Either path ends here: the listing of the input gives the expected summaries. */
  lemma {:induction false} SummariesAreExpected(
    h: HashFunction, roles: seq<Bytes>, members: seq<Bytes>, limit: int, capture: nat,
    all: seq<Bytes>, digests: map<Bytes, Bytes>, sample: seq<Bytes>, stats: StreamSetStats)
    requires limit >= 2 && all == Listing(Elements(members))
    requires forall role :: role in roles <==> role in digests
    requires forall role :: role in digests ==> digests[role] == DigestSetRole(h, role, all)
    requires sample == all[..Min(|all|, capture)] && stats == StatsOf(|members|, |all|, limit)
    ensures Assemble(digests, |all|, sample, capture, stats)
            == map role | role in roles :: SummaryOf(h, role, members, limit, capture)
  {
    var built := Assemble(digests, |all|, sample, capture, stats);
    var summaries := map role | role in roles :: SummaryOf(h, role, members, limit, capture);
    forall role | role in digests ensures built[role] == summaries[role] {
      SummaryAssembled(h, role, members, limit, capture, all, digests, sample, stats);
    }
    SameMap(built, summaries);
  }

  lemma {:induction false} SameMap<K, V>(a: map<K, V>, b: map<K, V>)
    requires a.Keys == b.Keys && forall k :: k in a ==> a[k] == b[k]
    ensures a == b
  {
  }

  lemma {:induction false} SummaryAssembled(
    h: HashFunction, role: Bytes, members: seq<Bytes>, limit: int, capture: nat,
    all: seq<Bytes>, digests: map<Bytes, Bytes>, sample: seq<Bytes>, stats: StreamSetStats)
    requires limit >= 2 && all == Listing(Elements(members))
    requires role in digests && digests[role] == DigestSetRole(h, role, all)
    requires sample == all[..Min(|all|, capture)] && stats == StatsOf(|members|, |all|, limit)
    ensures Assemble(digests, |all|, sample, capture, stats)[role] == SummaryOf(h, role, members, limit, capture)
  {
    assert |all| <= capture ==> sample == all;
  }

  /** The streaming and the in-memory commitment hash the same bytes. */
  lemma {:induction false} SamePreimage(role: Bytes, raws: seq<Bytes>)
    ensures StreamPreimage(role, raws) == SetPreimage(role, HexAll(raws))
  {
    RawHexAll(raws);
  }

  lemma {:induction false} CeilingOfChunks(n: nat, full: nat, rest: nat, limit: nat)
    requires n == full * limit + rest && 0 < rest <= limit
    ensures Chunks(n, limit) == full + 1 && (full > 0 ==> n > limit)
    decreases full
  {
    if full > 0 {
      assert full * limit == (full - 1) * limit + limit;
      Multiple(full - 1, limit);
      CeilingOfChunks(n - limit, full - 1, rest, limit);
    }
  }

  lemma {:induction false} Multiple(k: nat, limit: nat)
    ensures k * limit >= 0
  {
  }

  method CheckRoles(roles: seq<Bytes>) returns (ok: bool)
    ensures ok == ValidRoles(roles)
  {
    var seen: set<Bytes> := {};
    for index := 0 to |roles|
      invariant ValidRoles(roles[..index]) && seen == Elements(roles[..index])
    {
      assert roles[..index + 1] == roles[..index] + [roles[index]];
      if !ValidRole(roles[index]) || roles[index] in seen {
        return false;
      }
      seen := seen + {roles[index]};
    }
    assert roles[..|roles|] == roles;
    return true;
  }

  /** The in-memory path: sort the buffer and deduplicate it in place. */
  method UniqueInMemory(buffer: seq<Bytes>) returns (unique: seq<Bytes>)
    ensures unique == Listing(Elements(buffer))
  {
    var sorted := Sort(Leq, buffer);
    var slice := new Bytes[|sorted|](i requires 0 <= i < |sorted| => sorted[i]);
    assert slice[..] == sorted;
    var k := DedupInPlace(slice);
    unique := slice[..k];
    SortDedupIsListing(buffer);
  }

  method Feed(sorter: StreamSorter, members: seq<Bytes>) returns (position: Option<int>)
    requires sorter.Valid() && sorter.Filling() && sorter.input == []
    modifies sorter
    ensures sorter.Valid() && sorter.Filling()
    ensures position == if ValidMembers(members) then None else Some(FirstMalformed(members) + 1)
    ensures ValidMembers(members) ==> sorter.input == members
  {
    var index := 0;
    var ok := true;
    while ok && index < |members|
      invariant 0 <= index <= |members| && sorter.Valid() && sorter.Filling()
      invariant sorter.input == members[..index]
      invariant !ok ==> index < |members| && !ValidSha256(members[index])
    {
      ok := sorter.Yield(members[index]);
      if ok {
        assert members[..index + 1] == members[..index] + [members[index]];
        index := index + 1;
      }
    }
    if ok {
      assert members[..|members|] == members;
      return None;
    }
    FirstMalformedIs(members, index);
    return Some(sorter.inputMembers + 1);
  }

  lemma {:induction false} FirstMalformedIs(members: seq<Bytes>, index: nat)
    requires index < |members| && ValidMembers(members[..index]) && !ValidSha256(members[index])
    ensures FirstMalformed(members) == index && !ValidMembers(members)
  {
    var n := FirstMalformed(members);
    assert forall i :: 0 <= i < index ==> members[..index][i] == members[i];
    assert forall i :: 0 <= i < n ==> members[..n][i] == members[i];
  }

  /** For every member stream, every memory limit and every capture bound, the result is the one
      computed from the plain set of members. */
  method SummarizeSemanticSetRoles(h: HashFunction, roles: seq<Bytes>, members: seq<Bytes>, options: StreamSetOptions)
    returns (r: Result<map<Bytes, StreamSetSummary>, StreamError>)
    ensures r == Expected(h, roles, members, options)
  {
    if roles == [] { return Err(NoRoles); }
    var rolesOk := CheckRoles(roles);
    if !rolesOk { return Err(InvalidRole); }
    var limit := options.maxInMemoryMembers;
    if limit == 0 { limit := DEFAULT_BUFFER; }
    if limit < 2 { return Err(MemoryBound); }
    if options.captureMembers < 0 { return Err(CaptureBound); }
    var sorter := new StreamSorter(limit);
    var position := Feed(sorter, members);
    if position.Some? { return Err(MalformedMember(position.value)); }
    var summaries := Summarize(h, roles, sorter, options.captureMembers);
    return Ok(summaries);
  }

  /** After the stream: the in-memory path if nothing was spilled, the merge otherwise. */
  method Summarize(h: HashFunction, roles: seq<Bytes>, sorter: StreamSorter, capture: nat)
    returns (r: map<Bytes, StreamSetSummary>)
    requires sorter.Valid() && sorter.Filling()
    modifies sorter
    ensures r == map role | role in roles :: SummaryOf(h, role, old(sorter.input), sorter.limit, capture)
  {
    if |sorter.runs| == 0 {
      r := SummarizeInMemory(h, roles, sorter.buffer, sorter.limit, capture);
    } else {
      ghost var chunks, rest := |sorter.runs|, |sorter.buffer|;
      CeilingOfChunks(|sorter.input|, chunks, rest, sorter.limit);
      sorter.Flush();
      var stats := StreamSetStats(sorter.inputMembers, 0, sorter.peakBuffered, |sorter.runs|, 0);
      r := SummarizeSpilled(h, roles, sorter.runs, stats, sorter.limit, capture, sorter.input);
    }
  }

  method SummarizeInMemory(h: HashFunction, roles: seq<Bytes>, buffer: seq<Bytes>, limit: int, capture: nat)
    returns (r: map<Bytes, StreamSetSummary>)
    requires ValidMembers(buffer) && 2 <= limit && |buffer| <= limit
    ensures r == map role | role in roles :: SummaryOf(h, role, buffer, limit, capture)
  {
    var unique := UniqueInMemory(buffer);
    var stats := StreamSetStats(|buffer|, |buffer| - |unique|, |buffer|, 0, 0);
    assert forall i :: 0 <= i < |unique| ==> unique[i] in Elements(unique);
    HexRawAll(unique);
    var raws := RawAll(unique);
    var digests := SetRoleDigests(h, roles, raws);
    var sample := unique[..Min(|unique|, capture)];
    r := Assemble(digests, |unique|, sample, capture, stats);
    SummariesAreExpected(h, roles, buffer, limit, capture, unique, digests, sample, stats);
  }

  method MergeMembers(runs: seq<seq<Bytes>>, capture: nat, ghost members: seq<Bytes>)
    returns (out: seq<Bytes>, cardinality: nat, sample: seq<Bytes>, heads: nat)
    requires ValidMembers(members) && Runs(runs) && UnionOf(runs) == RawSet(members)
    ensures HexAll(out) == Listing(Elements(members)) && cardinality == |out| && heads == |runs|
    ensures sample == HexAll(out)[..Min(|out|, capture)]
  {
    out, cardinality, sample, heads := MergeRuns(runs, capture);
    MergedIsListing(out, members);
    SampleOfMerged(sample, out, capture);
  }

  method SummarizeSpilled(
    h: HashFunction, roles: seq<Bytes>, runs: seq<seq<Bytes>>, counted: StreamSetStats, limit: int, capture: nat,
    ghost members: seq<Bytes>)
    returns (r: map<Bytes, StreamSetSummary>)
    requires 2 <= limit && ValidMembers(members) && Runs(runs) && UnionOf(runs) == RawSet(members)
    requires counted == StatsOf(|members|, |members|, limit).(peakMergeHeads := 0)
    requires |runs| == counted.spillRuns
    ensures r == map role | role in roles :: SummaryOf(h, role, members, limit, capture)
  {
    var out, cardinality, sample, heads := MergeMembers(runs, capture, members);
    var stats := counted.(duplicateMembers := counted.inputMembers - cardinality, peakMergeHeads := heads);
    r := CommitMerged(h, roles, out, sample, stats, limit, capture, members);
  }

  method CommitMerged(
    h: HashFunction, roles: seq<Bytes>, out: seq<Bytes>, sample: seq<Bytes>, stats: StreamSetStats, limit: int,
    capture: nat, ghost members: seq<Bytes>)
    returns (r: map<Bytes, StreamSetSummary>)
    requires 2 <= limit && HexAll(out) == Listing(Elements(members))
    requires sample == HexAll(out)[..Min(|out|, capture)] && stats == StatsOf(|members|, |out|, limit)
    ensures r == map role | role in roles :: SummaryOf(h, role, members, limit, capture)
  {
    var digests := SetRoleDigests(h, roles, out);
    r := Assemble(digests, |out|, sample, capture, stats);
    SummariesAreExpected(h, roles, members, limit, capture, HexAll(out), digests, sample, stats);
  }

  lemma {:induction false} SampleOfMerged(sample: seq<Bytes>, out: seq<Bytes>, capture: nat)
    requires IsSample(sample, out, capture)
    ensures sample == HexAll(out)[..Min(|out|, capture)]
  {
  }

  lemma {:induction false} HexRawAll(members: seq<Bytes>)
    requires ValidMembers(members)
    ensures HexAll(RawAll(members)) == members
  {
    forall i | 0 <= i < |members| ensures HexAll(RawAll(members))[i] == members[i] { RawOfValid(members[i]); }
  }

  /** The listed members run upwards, and every member that is not listed is above all of them. */
  ghost predicate ListsLeast(listed: seq<Bytes>, members: seq<Bytes>) {
    && Increasing(listed) && (forall m :: m in listed ==> m in members)
    && forall m, n :: m in listed && n in members && n !in listed ==> Number(m) < Number(n)
  }

  lemma {:induction false} PartListsLeast(all: seq<Bytes>, n: nat, members: seq<Bytes>)
    requires Increasing(all) && Elements(all) == Elements(members) && n <= |all|
    ensures ListsLeast(all[..n], members)
  {
    forall m | m in all[..n] ensures m in members { assert m in Elements(all); }
    assert forall t :: 0 <= t < n ==> all[t] in all[..n];
    forall m, k | m in all[..n] && k in members && k !in all[..n] ensures Number(m) < Number(k) {
      assert k in Elements(all);
      var i :| 0 <= i < n && all[..n][i] == m;
      var j :| 0 <= j < |all| && all[j] == k;
    }
  }

  /** What a run over these members costs: the buffer never exceeds the limit, and it is spilled only if
      the members do not fit, in runs of `limit` members and one rest. */
  ghost predicate AccountsFor(stats: StreamSetStats, members: seq<Bytes>, limit: int)
    requires limit >= 2
  {
    && stats.inputMembers == |members| && stats.duplicateMembers == |members| - |Elements(members)|
    && stats.peakBufferedMembers <= limit && stats.peakBufferedMembers <= |members|
    && (stats.peakBufferedMembers == limit || stats.peakBufferedMembers == |members|)
    && stats.spillRuns == (if |members| <= limit then 0 else (|members| + limit - 1) / limit)
    && stats.peakMergeHeads == stats.spillRuns
  }

  /** The streaming summary in terms of the plain set: the identity the set algebra publishes, the
      members upwards, in full or the least ones up to the capture bound. */
  lemma {:induction false} SummaryIdentifiesSet(
    h: HashFunction, role: Bytes, members: seq<Bytes>, limit: int, capture: nat)
    requires limit >= 2
    ensures var s := SummaryOf(h, role, members, limit, capture);
            && s.role == role && SetIdentity(s.cardinality, s.sha256) == Identify(h, role, Elements(members))
            && (s.membersComplete <==> |Elements(members)| <= capture)
            && (s.membersComplete ==> s.members == Listing(Elements(members)) == s.sample)
            && (!s.membersComplete ==> s.members == [] && |s.sample| == capture)
    ensures ValidMembers(members) ==> ListsLeast(SummaryOf(h, role, members, limit, capture).sample, members)
  {
    if ValidMembers(members) { SampleListsLeast(members, capture); }
  }

  lemma {:induction false} SampleListsLeast(members: seq<Bytes>, capture: nat)
    requires ValidMembers(members)
    ensures var all := Listing(Elements(members)); ListsLeast(all[..Min(|all|, capture)], members)
  {
    var all := Listing(Elements(members));
    ListingIncreases(Elements(members));
    PartListsLeast(all, Min(|all|, capture), members);
  }

  /** The reported resources are those of the input size. */
  lemma {:induction false} StatsAccount(members: seq<Bytes>, limit: int)
    requires limit >= 2
    ensures AccountsFor(StatsOf(|members|, |Elements(members)|, limit), members, limit)
  {
    ChunksIsCeiling(|members|, limit);
  }

  ghost const ROLES: set<string> := {"candidate", "existing", "overlap", "novel", "union"}

  ghost predicate KnownRole(role: Bytes) {
    exists name :: name in ROLES && role == Ascii(name)
  }

  lemma {:induction false} KnownRoleExactly(role: Bytes)
    ensures ValidRole(role) <==> KnownRole(role)
  {
  }

  /** Accepted are exactly distinct known roles, a memory bound of at least two (zero standing for
      65536), a capture bound that is not negative, and members of 64 lowercase hexadecimal digits. */
  lemma {:induction false} AcceptedExactly(
    h: HashFunction, roles: seq<Bytes>, members: seq<Bytes>, options: StreamSetOptions)
    ensures Expected(h, roles, members, options).Ok? <==>
            && roles != [] && Distinct(roles) && (forall i :: 0 <= i < |roles| ==> KnownRole(roles[i]))
            && (options.maxInMemoryMembers == 0 || options.maxInMemoryMembers >= 2) && options.captureMembers >= 0
            && forall i :: 0 <= i < |members| ==> |members[i]| == 64 && LowerHex(members[i])
  {
    forall i | 0 <= i < |members| ensures ValidSha256(members[i]) <==> |members[i]| == 64 && LowerHex(members[i]) {
      ValidSha256IsLowerHex(members[i]);
    }
    forall i | 0 <= i < |roles| ensures ValidRole(roles[i]) <==> KnownRole(roles[i]) { KnownRoleExactly(roles[i]); }
  }

  /** A malformed member is reported by its position, counted from one, and it is the first. */
  lemma {:induction false} MalformedPosition(
    h: HashFunction, roles: seq<Bytes>, members: seq<Bytes>, options: StreamSetOptions)
    ensures var r := Expected(h, roles, members, options);
            r.Err? && r.error.MalformedMember? ==>
              && 1 <= r.error.position <= |members| && ValidMembers(members[..r.error.position - 1])
              && !ValidSha256(members[r.error.position - 1])
  {
    var n := FirstMalformed(members);
    if n == |members| { assert members[..n] == members; }
  }

  /** Every requested role gets a summary, computed within the requested memory. */
  lemma {:induction false} EveryRoleWithinMemory(
    h: HashFunction, roles: seq<Bytes>, members: seq<Bytes>, options: StreamSetOptions, role: Bytes)
    requires Expected(h, roles, members, options).Ok?
    ensures var all := Expected(h, roles, members, options).value;
            var bound := if options.maxInMemoryMembers == 0 then 65536 else options.maxInMemoryMembers;
            && (role in all <==> role in roles)
            && (role in roles ==> all[role].role == role && AccountsFor(all[role].stats, members, bound))
  {
    StatsAccount(members, EffectiveLimit(options));
  }
}
