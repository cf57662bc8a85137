/** The lock-free maximum shared by the heap samplers (evaluation/v4distribution/distribution.go,
    storeMaximum), as a state machine: any number of calls, interleaved load by load and
    compare-and-swap by compare-and-swap. */
module PeakMaximum {

  /** Where a call to storeMaximum stands: about to load, about to compare-and-swap against the value
      it loaded, or finished. */
  datatype Phase = Loading | Swapping(prior: nat) | Returned

  datatype Call = Call(value: nat, phase: Phase)

  datatype State = State(shared: nat, calls: seq<Call>)

  predicate Enabled(s: State, i: int) {
    0 <= i < |s.calls| && !s.calls[i].phase.Returned?
  }

  /** The next atomic step of call i. After a load the loop condition decides locally; after a failed
      swap the loop loads again. */
  function Step(s: State, i: nat): State
    requires Enabled(s, i)
  {
    var call := s.calls[i];
    match call.phase
    case Loading =>
      s.(calls := s.calls[i := call.(phase := if call.value > s.shared then Swapping(s.shared) else Returned)])
    case Swapping(prior) =>
      if s.shared == prior then State(call.value, s.calls[i := call.(phase := Returned)])
      else s.(calls := s.calls[i := call.(phase := Loading)])
  }

  /** A schedule picks an unfinished call at every step. */
  ghost predicate Schedulable(s: State, schedule: seq<nat>)
    decreases schedule
  {
    schedule != [] ==> Enabled(s, schedule[0]) && Schedulable(Step(s, schedule[0]), schedule[1..])
  }

  function Run(s: State, schedule: seq<nat>): State
    requires Schedulable(s, schedule)
    decreases schedule
  {
    if schedule == [] then s else Run(Step(s, schedule[0]), schedule[1..])
  }

  ghost predicate Initial(s: State) {
    forall i :: 0 <= i < |s.calls| ==> s.calls[i].phase == Loading
  }

  /** The shared value was there at the start or was submitted by some call. */
  ghost predicate Submitted(start: State, v: nat) {
    v == start.shared || exists i :: 0 <= i < |start.calls| && start.calls[i].value == v
  }

  ghost predicate Inv(start: State, s: State) {
    && |s.calls| == |start.calls|
    && (forall i :: 0 <= i < |s.calls| ==> s.calls[i].value == start.calls[i].value)
    && start.shared <= s.shared && Submitted(start, s.shared)
    && (forall i :: 0 <= i < |s.calls| && s.calls[i].phase.Returned? ==> s.calls[i].value <= s.shared)
    && (forall i :: 0 <= i < |s.calls| && s.calls[i].phase.Swapping? ==>
          s.calls[i].phase.prior <= s.shared && s.calls[i].phase.prior < s.calls[i].value)
  }

  lemma {:induction false} StepKeepsInv(start: State, s: State, i: nat)
    requires Inv(start, s) && Enabled(s, i)
    ensures Inv(start, Step(s, i)) && s.shared <= Step(s, i).shared
  {
    var t := Step(s, i);
    if s.calls[i].phase.Swapping? && s.shared == s.calls[i].phase.prior {
      assert t.shared == start.calls[i].value;
    }
  }

  /** Under every interleaving the maximum only grows, is always a submitted value, and is at least v
      once a call with v has returned. */
  lemma {:induction false} EveryRunKeepsInv(start: State, s: State, schedule: seq<nat>)
    requires Inv(start, s) && Schedulable(s, schedule)
    ensures Inv(start, Run(s, schedule)) && s.shared <= Run(s, schedule).shared
    decreases schedule
  {
    if schedule != [] {
      StepKeepsInv(start, s, schedule[0]);
      EveryRunKeepsInv(start, Step(s, schedule[0]), schedule[1..]);
    }
  }

  /** Once all calls have returned, the shared value is exactly the maximum. */
  lemma {:induction false} FinalValueIsMaximum(start: State, schedule: seq<nat>)
    requires Initial(start) && Schedulable(start, schedule)
    requires forall i :: !Enabled(Run(start, schedule), i)
    ensures var m := Run(start, schedule).shared;
            && Submitted(start, m) && start.shared <= m
            && forall i :: 0 <= i < |start.calls| ==> start.calls[i].value <= m
  {
    EveryRunKeepsInv(start, start, schedule);
    var s := Run(start, schedule);
    forall i | 0 <= i < |start.calls| ensures start.calls[i].value <= s.shared {
      assert !Enabled(s, i);
    }
  }

  // ---------- every schedule ends ----------

  /** A stale swap still has to fail, reload and retry. */
  function Weight(call: Call, shared: nat): nat {
    match call.phase
    case Returned => 0
    case Loading => 2
    case Swapping(prior) => if prior == shared then 1 else 3
  }

  function TotalWeight(calls: seq<Call>, shared: nat): nat {
    if calls == [] then 0 else Weight(calls[0], shared) + TotalWeight(calls[1..], shared)
  }

  function OpenCalls(calls: seq<Call>): nat {
    if calls == [] then 0 else (if calls[0].phase.Returned? then 0 else 1) + OpenCalls(calls[1..])
  }

  function Rank(s: State): nat {
    OpenCalls(s.calls) * (3 * |s.calls| + 1) + TotalWeight(s.calls, s.shared)
  }

  lemma {:induction false} WeightUpdate(calls: seq<Call>, i: nat, call: Call, shared: nat)
    requires i < |calls|
    ensures TotalWeight(calls[i := call], shared)
            == TotalWeight(calls, shared) - Weight(calls[i], shared) + Weight(call, shared)
  {
    if i == 0 {
      assert calls[0 := call][1..] == calls[1..];
    } else {
      assert calls[i := call][1..] == calls[1..][i - 1 := call];
      WeightUpdate(calls[1..], i - 1, call, shared);
    }
  }

  lemma {:induction false} OpenUpdate(calls: seq<Call>, i: nat, call: Call)
    requires i < |calls| && !calls[i].phase.Returned?
    ensures OpenCalls(calls[i := call]) == OpenCalls(calls) - if call.phase.Returned? then 1 else 0
  {
    if i == 0 {
      assert calls[0 := call][1..] == calls[1..];
    } else {
      assert calls[i := call][1..] == calls[1..][i - 1 := call];
      OpenUpdate(calls[1..], i - 1, call);
    }
  }

  lemma {:induction false} WeightBound(calls: seq<Call>, shared: nat)
    ensures TotalWeight(calls, shared) <= 3 * |calls|
  {
    if calls != [] { WeightBound(calls[1..], shared); }
  }

  lemma {:induction false} StepLowersRank(s: State, i: nat)
    requires Enabled(s, i)
    ensures Rank(Step(s, i)) < Rank(s)
  {
    var t := Step(s, i);
    OpenUpdate(s.calls, i, t.calls[i]);
    WeightUpdate(s.calls, i, t.calls[i], s.shared);
    WeightBound(t.calls, t.shared);
    var n := 3 * |s.calls| + 1;
    if t.calls[i].phase.Returned? {
      assert OpenCalls(t.calls) * n == OpenCalls(s.calls) * n - n;
    }
  }

  lemma {:induction false} RankBound(s: State)
    ensures Rank(s) <= |s.calls| * (3 * |s.calls| + 1) + 3 * |s.calls|
  {
    OpenBound(s.calls);
    WeightBound(s.calls, s.shared);
    assert (|s.calls| - OpenCalls(s.calls)) * (3 * |s.calls| + 1) >= 0;
  }

  lemma {:induction false} OpenBound(calls: seq<Call>)
    ensures OpenCalls(calls) <= |calls|
  {
    if calls != [] { OpenBound(calls[1..]); }
  }

  lemma {:induction false} ScheduleWithinRank(s: State, schedule: seq<nat>)
    requires Schedulable(s, schedule)
    ensures |schedule| <= Rank(s)
    decreases schedule
  {
    if schedule != [] {
      StepLowersRank(s, schedule[0]);
      ScheduleWithinRank(Step(s, schedule[0]), schedule[1..]);
    }
  }

  /** However the scheduler chooses, n calls take at most 3 n^2 + 4 n atomic steps: retries are bounded by
      other calls' successes, so storeMaximum always terminates. */
  lemma {:induction false} EveryScheduleEnds(s: State, schedule: seq<nat>)
    requires Schedulable(s, schedule)
    ensures |schedule| <= Rank(s) <= 3 * |s.calls| * |s.calls| + 4 * |s.calls|
  {
    ScheduleWithinRank(s, schedule);
    RankBound(s);
  }
}
