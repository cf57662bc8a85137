/** The coprime-step walk over the root members (evaluation/finalv5oracle/outcome.go,
    opaqueRootPermutation and streamOpaqueOverlapMembers), in int64 arithmetic. */
module RootWalk {
  import opened GoBytes
  import opened Sorting
  import opened Euclid

  const TWO62: int := 0x4000_0000_0000_0000

  /** The k-th value after `from` in the cycle 1, 2, ..., root - 1. */
  function Cyclic(root: int, from: int, k: nat): int
    requires root >= 1
  {
    if root == 1 then 1 else (from - 1 + k) % (root - 1) + 1
  }

  /** The first value coprime to root in cyclic order from the seed step, zero standing for one. */
  ghost predicate FirstCoprime(root: int, seedStep: int, step: int)
    requires root >= 1
  {
    var from := if seedStep == 0 then 1 else seedStep;
    exists k: nat :: FoundAfter(root, from, k, step)
  }

  /** The k values before it in the cycle are skipped, because none of them is coprime to root. */
  ghost predicate FoundAfter(root: int, from: int, k: nat, step: int)
    requires root >= 1
  {
    step == Cyclic(root, from, k) && FirstCoprimeAt(root, from, k)
  }

  ghost predicate FirstCoprimeAt(root: int, from: int, k: nat)
    requires root >= 1
  {
    CoprimeAt(root, from, k) && forall j: nat :: j < k ==> !CoprimeAt(root, from, j)
  }

  ghost predicate CoprimeAt(root: int, from: int, k: nat)
    requires root >= 1
  {
    Gcd(Cyclic(root, from, k), root) == 1
  }

  lemma {:induction false} FirstPositionUnique(root: int, from: int, k: nat, s: int, l: nat, t: int)
    requires root >= 1 && FoundAfter(root, from, k, s) && FoundAfter(root, from, l, t)
    ensures k <= l
  {
    assert CoprimeAt(root, from, l);
  }

  /** Root and seed step determine the step. */
  lemma {:induction false} FirstCoprimeUnique(root: int, seedStep: int, s: int, t: int)
    requires root >= 1 && FirstCoprime(root, seedStep, s) && FirstCoprime(root, seedStep, t)
    ensures s == t
  {
    var from := if seedStep == 0 then 1 else seedStep;
    var k: nat :| FoundAfter(root, from, k, s);
    var l: nat :| FoundAfter(root, from, l, t);
    FirstPositionUnique(root, from, k, s, l, t);
    FirstPositionUnique(root, from, l, t, k, s);
  }

  lemma {:induction false} CyclicStart(root: int, from: int)
    requires 1 <= from <= root && (root > 1 ==> from < root)
    ensures Cyclic(root, from, 0) == from
  {
    if root > 1 { InRange(from - 1, root - 1); }
  }

  lemma {:induction false} CyclicNext(root: int, from: int, k: nat)
    requires root > 1
    ensures var step := Cyclic(root, from, k);
            1 <= step < root && Cyclic(root, from, k + 1) == if step + 1 == root then 1 else step + 1
  {
    var n, v := root - 1, from - 1 + k;
    assert v == v / n * n + v % n;
    if v % n + 1 == n {
      DivisionIs(v + 1, v / n + 1, 0, n) by { assert (v / n + 1) * n == v / n * n + n; }
    } else {
      DivisionIs(v + 1, v / n, v % n + 1, n);
    }
  }

  /** From a seed step to the next step coprime to root, wrapping from root back to 1. */
  method CoprimeStep(root: int64, seedStep: int64) returns (step: int64)
    requires root >= 1 && 0 <= seedStep < root
    ensures 1 <= step <= root && Gcd(step, root) == 1
    ensures root > 1 ==> step < root
    ensures FirstCoprime(root, seedStep, step)
    ensures seedStep > 0 && Gcd(seedStep, root) == 1 ==> step == seedStep
  {
    step := if seedStep == 0 then 1 else seedStep;
    GcdOfOne(root);
    var common := DependencyGcd(step, root);
    ghost var from, k := step as int, 0;
    CyclicStart(root, from);
    while common != 1
      invariant 1 <= step <= root && (root > 1 ==> step < root)
      invariant common == Gcd(step, root)
      invariant seedStep > 0 && Gcd(seedStep, root) == 1 ==> step == seedStep
      invariant step == Cyclic(root, from, k) && forall j: nat :: j < k ==> !CoprimeAt(root, from, j)
      decreases if step == 1 then 0 else root - step + 1
    {
      CyclicNext(root, from, k);
      k := k + 1;
      step := step + 1;
      if step == root { step := 1; }
      common := DependencyGcd(step, root);
    }
    assert FoundAfter(root, from, k, step);
  }

  /** The positions streamed by the loop, starting from `position`. */
  function Walk(position: int, step: int, root: int, count: nat): (r: seq<int>)
    requires root > 0
    ensures |r| == count
    decreases count
  {
    if count == 0 then []
    else [position] + Walk(GoRem(Wrap64(position + step), root), step, root, count - 1)
  }

  method StreamPositions(start: int, step: int, root: int, count: nat) returns (r: seq<int>)
    requires root > 0
    ensures r == Walk(start, step, root, count)
  {
    r := [];
    var position := start;
    for done := 0 to count
      invariant r + Walk(position, step, root, count - done) == Walk(start, step, root, count)
    {
      r := r + [position];
      position := GoRem(Wrap64(position + step), root);
    }
  }

  lemma {:induction false} WalkAt(position: int, step: int, root: int, count: nat, i: nat)
    requires 0 <= position < root <= TWO62 && 1 <= step <= root && i < count
    ensures Walk(position, step, root, count)[i] == (position + i * step) % root
    decreases i
  {
    if i == 0 {
      InRange(position, root);
    } else {
      var next := GoRem(Wrap64(position + step), root);
      assert next == (position + step) % root;
      WalkAt(next, step, root, count - 1, i - 1);
      ModStep(position, step, root, i);
    }
  }

  lemma {:induction false} InRange(v: int, n: int)
    requires 0 <= v < n
    ensures v % n == v
  {
  }

  lemma {:induction false} ModShift(a: int, k: int, n: int)
    requires n > 0
    ensures (a + k * n) % n == a % n
  {
    var q, r := a / n, a % n;
    assert a + k * n == (q + k) * n + r;
    DivisionIs(a + k * n, q + k, r, n);
  }

  lemma {:induction false} ModStep(position: int, step: int, root: int, i: int)
    requires root > 0
    ensures ((position + step) % root + (i - 1) * step) % root == (position + i * step) % root
  {
    var q, r := (position + step) / root, (position + step) % root;
    assert position + step == q * root + r;
    assert position + i * step == r + (i - 1) * step + q * root;
    ModShift(r + (i - 1) * step, q, root);
  }

  /** The first `count` positions are in range and pairwise distinct. */
  lemma {:induction false} WalkIsInjective(start: int, step: int, root: int, count: nat)
    requires 0 <= start < root <= TWO62 && 1 <= step <= root && Gcd(step, root) == 1 && count <= root
    ensures Distinct(Walk(start, step, root, count))
    ensures forall i :: 0 <= i < count ==> 0 <= Walk(start, step, root, count)[i] < root
  {
    var w := Walk(start, step, root, count);
    forall i | 0 <= i < count ensures 0 <= w[i] < root { WalkAt(start, step, root, count, i); }
    forall i, j | 0 <= i < j < count ensures w[i] != w[j] {
      WalkAt(start, step, root, count, i);
      WalkAt(start, step, root, count, j);
      Apart(start, step, root, i, j);
    }
  }

  lemma {:induction false} Apart(start: int, step: int, root: int, i: int, j: int)
    requires root > 0 && Gcd(step, root) == 1 && 0 < j - i < root
    ensures (start + i * step) % root != (start + j * step) % root
  {
    var a, b := start + i * step, start + j * step;
    assert b - a == (j - i) * step;
    NoSmallMultiple(j - i, root);
    if a % root == b % root {
      Congruent(a, b, root);
      CoprimeCancels(j - i, step, root);
    }
  }

  lemma {:induction false} Congruent(a: int, b: int, n: int)
    requires n > 0 && a % n == b % n
    ensures Divides(n, b - a)
  {
    assert b - a == n * (b / n - a / n);
  }

  lemma {:induction false} NoSmallMultiple(d: int, n: int)
    requires 0 < d < n
    ensures !Divides(n, d)
  {
    forall k: int ensures d != n * k {
      if k >= 1 { AtLeastOnce(n, k); } else { AtLeastOnce(n, 1 - k); }
    }
  }

  lemma {:induction false} AtLeastOnce(n: int, k: int)
    requires n > 0 && k >= 1
    ensures n * k >= n && n * (1 - k) <= 0
  {
    assert n * (k - 1) >= 0;
  }

  lemma {:induction false} GcdOfPredecessor(n: int)
    requires n > 1
    ensures Gcd(n - 1, n) == 1
  {
    GcdDivides(n - 1, n);
    var g := Gcd(n - 1, n);
    DividesCombination(g, n, n - 1, 1, -1);
    var k :| 1 == g * k;
    UnitFactor(g, k);
  }

  /** The position streamed after one step is the one an unbounded addition gives. */
  ghost predicate StepRight(start: int, step: int, root: int)
    requires root > 0
  {
    Walk(start, step, root, 2)[1] == (start + step) % root
  }

  /** The int64 sum is safe for every start and coprime step exactly when root <= 2^62. */
  lemma {:induction false} WalkSafeExactly(root: int)
    requires 1 <= root < TWO63
    ensures root <= TWO62 <==>
            forall start, step :: 0 <= start < root && 1 <= step <= root && Gcd(step, root) == 1 ==>
              StepRight(start, step, root)
  {
    if root <= TWO62 {
      forall start, step | 0 <= start < root && 1 <= step <= root && Gcd(step, root) == 1
        ensures StepRight(start, step, root)
      {
        StepExactly(start, step, root);
      }
    } else {
      GcdOfPredecessor(root);
      StepExactly(root - 1, root - 1, root);
      assert !StepRight(root - 1, root - 1, root);
    }
  }

  // ---------- the exact condition for one step and for a whole walk ----------

  lemma {:induction false} WrapOfSum(sum: int)
    requires 0 <= sum < TWO64
    ensures Wrap64(sum) == if sum < TWO63 then sum else sum - TWO64
  {
  }

  lemma {:induction false} NegativeRemainder(missing: int, root: int)
    requires missing > 0 && root > 0
    ensures GoRem(-missing, root) == -(missing % root)
  {
  }

  /** One step is right exactly when its own sum does not overflow. */
  lemma {:induction false} StepExactly(position: int, step: int, root: int)
    requires 0 <= position < root < TWO63 && 1 <= step <= root
    ensures GoRem(Wrap64(position + step), root) == (position + step) % root <==> position + step < TWO63
    ensures StepRight(position, step, root) <==> position + step < TWO63
  {
    var sum := position + step;
    WrapOfSum(sum);
    if sum >= TWO63 {
      NegativeRemainder(TWO64 - sum, root);
      NoCommonMultiple(sum, TWO64 - sum, root);
    }
    assert Walk(position, step, root, 2)[1] == GoRem(Wrap64(sum), root);
  }

  /** The negative remainder and the true one are both zero only if the root divides 2^64. */
  lemma {:induction false} NoCommonMultiple(sum: int, missing: int, root: int)
    requires TWO62 < root < TWO63 && sum + missing == TWO64
    ensures !(sum % root == 0 && missing % root == 0)
  {
    var i, j := sum / root, missing / root;
    assert sum == i * root + sum % root && missing == j * root + missing % root;
    assert (i + j) * root == i * root + j * root;
    NotADivisor(i + j, root);
  }

  /** No number strictly between 2^62 and 2^63 divides 2^64: the quotient would be 3. */
  lemma {:induction false} NotADivisor(k: int, root: int)
    requires TWO62 < root < TWO63
    ensures k * root != TWO64
  {
    assert k <= 0 ==> (-k) * root >= 0;
    assert k >= 4 ==> (k - 4) * root >= 0;
  }

  /** The position an unbounded addition would give. */
  function Ideal(start: int, step: int, root: int, i: nat): int
    requires root > 0
  {
    (start + i * step) % root
  }

  lemma {:induction false} IdealNext(start: int, step: int, root: int, i: nat)
    requires root > 0
    ensures Ideal(start, step, root, i + 1) == (Ideal(start, step, root, i) + step) % root
    ensures 0 <= Ideal(start, step, root, i) < root
  {
    var v := start + i * step;
    assert v == v / root * root + v % root;
    assert start + (i + 1) * step == v % root + step + v / root * root;
    ModShift(v % root + step, v / root, root);
  }

  lemma {:induction false} WalkNext(start: int, step: int, root: int, count: nat, i: nat)
    requires root > 0 && i + 1 < count
    ensures Walk(start, step, root, count)[i + 1] == GoRem(Wrap64(Walk(start, step, root, count)[i] + step), root)
    decreases i
  {
    if i > 0 { WalkNext(GoRem(Wrap64(start + step), root), step, root, count - 1, i - 1); }
  }

  /** Every position up to n is the ideal one. */
  ghost predicate IdealUpTo(start: int, step: int, root: int, count: nat, n: nat)
    requires root > 0 && n < count
  {
    forall i :: 0 <= i <= n ==> Walk(start, step, root, count)[i] == Ideal(start, step, root, i)
  }

  /** For every int64 root, start and step: the streamed walk is the ideal one exactly when none of its
      additions overflows. */
  lemma {:induction false} WalkExactly(start: int, step: int, root: int, count: nat, n: nat)
    requires 0 <= start < root < TWO63 && 1 <= step <= root && n < count
    ensures IdealUpTo(start, step, root, count, n) <==>
            forall i :: 0 <= i < n ==> Ideal(start, step, root, i) + step < TWO63
    decreases n
  {
    if n == 0 {
      InRange(start, root);
    } else {
      WalkExactly(start, step, root, count, n - 1);
      OneMoreStep(start, step, root, count, n - 1);
      assert IdealUpTo(start, step, root, count, n) ==> IdealUpTo(start, step, root, count, n - 1);
    }
  }

  lemma {:induction false} OneMoreStep(start: int, step: int, root: int, count: nat, i: nat)
    requires 0 <= start < root < TWO63 && 1 <= step <= root && i + 1 < count
    ensures Walk(start, step, root, count)[i] == Ideal(start, step, root, i) ==>
              (Walk(start, step, root, count)[i + 1] == Ideal(start, step, root, i + 1) <==>
               Ideal(start, step, root, i) + step < TWO63)
  {
    WalkNext(start, step, root, count, i);
    IdealNext(start, step, root, i);
    var w := Walk(start, step, root, count);
    NextAgrees(w[i], w[i + 1], Ideal(start, step, root, i), Ideal(start, step, root, i + 1), step, root);
  }

  lemma {:induction false} NextAgrees(w: int, v: int, p: int, q: int, step: int, root: int)
    requires 0 <= p < root < TWO63 && 1 <= step <= root
    requires v == GoRem(Wrap64(w + step), root) && q == (p + step) % root
    ensures w == p ==> (v == q <==> p + step < TWO63)
  {
    StepExactly(p, step, root);
  }
}
