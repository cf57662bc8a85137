/** The binary min-heap of container/heap, as the k-way merge uses it
    (evaluation/finalv5oracle/setstream.go, streamSetHeap). */
module MergeHeap {
  import opened Sorting

  function Parent(k: int): int {
    (k - 1) / 2
  }

  /** Position k, if it is one and not the root, holds at least what its parent holds. */
  ghost predicate Above<T(!new)>(leq: (T, T) -> bool, s: seq<T>, k: int) {
    0 < k < |s| ==> leq(s[Parent(k)], s[k])
  }

  ghost predicate IsHeap<T(!new)>(leq: (T, T) -> bool, s: seq<T>) {
    forall k :: Above(leq, s, k)
  }

  function Swap<T>(s: seq<T>, i: nat, j: nat): seq<T>
    requires i < |s| && j < |s|
  {
    s[i := s[j]][j := s[i]]
  }

  lemma {:induction false} SwapMultiset<T>(s: seq<T>, i: nat, j: nat)
    requires i < |s| && j < |s|
    ensures multiset(Swap(s, i, j)) == multiset(s)
  {
  }

  lemma {:induction false} RootIsLeast<T(!new)>(leq: (T, T) -> bool, s: seq<T>, j: nat)
    requires TotalOrder(leq) && IsHeap(leq, s) && j < |s|
    ensures leq(s[0], s[j])
  {
    if j > 0 {
      assert Above(leq, s, j);
      RootIsLeast(leq, s, Parent(j));
    }
  }

  /** The state of `up`: only j may be smaller than its parent, and the elements below j already
      respect j's parent. */
  ghost predicate HeapExceptUp<T(!new)>(leq: (T, T) -> bool, s: seq<T>, j: int) {
    && (forall k :: k != j ==> Above(leq, s, k))
    && (0 < j < |s| ==> forall k :: 0 < k < |s| && Parent(k) == j ==> leq(s[Parent(j)], s[k]))
  }

  /** The state of `down` on the first n elements: only the children of i may be smaller than i,
      and they already respect i's parent. */
  ghost predicate HeapExceptDown<T(!new)>(leq: (T, T) -> bool, s: seq<T>, i: int) {
    && (forall k :: Parent(k) != i ==> Above(leq, s, k))
    && (0 < i < |s| ==> forall k :: 0 < k < |s| && Parent(k) == i ==> leq(s[Parent(i)], s[k]))
  }

  lemma {:induction false} UpStep<T(!new)>(leq: (T, T) -> bool, s: seq<T>, j: nat)
    requires TotalOrder(leq) && 0 < j < |s| && HeapExceptUp(leq, s, j)
    requires !leq(s[Parent(j)], s[j])
    ensures HeapExceptUp(leq, Swap(s, Parent(j), j), Parent(j))
  {
    var i := Parent(j);
    var t := Swap(s, i, j);
    assert leq(s[j], s[i]);
    forall k | k != i ensures Above(leq, t, k) {
      if k != j { assert Above(leq, s, k); }
    }
    assert Above(leq, s, i);
    forall k | 0 < k < |t| && Parent(k) == i && i > 0 ensures leq(t[Parent(i)], t[k]) {
      if k != j { assert Above(leq, s, k); }
    }
  }

  lemma {:induction false} DownStep<T(!new)>(leq: (T, T) -> bool, s: seq<T>, i: nat, j: nat)
    requires TotalOrder(leq) && i < j < |s| && Parent(j) == i
    requires HeapExceptDown(leq, s, i)
    requires forall k :: 0 < k < |s| && Parent(k) == i ==> leq(s[j], s[k])
    requires !leq(s[i], s[j])
    ensures HeapExceptDown(leq, Swap(s, i, j), j)
  {
    var t := Swap(s, i, j);
    assert leq(s[j], s[i]);
    forall k | Parent(k) != j ensures Above(leq, t, k) {
      if Parent(k) != i { assert Above(leq, s, k); }
    }
    forall k | 0 < k < |t| && Parent(k) == j ensures leq(t[Parent(j)], t[k]) {
      assert Above(leq, s, k);
    }
  }

  lemma {:induction false} ChildrenOf(i: nat, k: nat)
    requires k > 0 && Parent(k) == i
    ensures k == 2 * i + 1 || k == 2 * i + 2
  {
  }

  class Heap<T(!new)> {
    const leq: (T, T) -> bool
    var items: seq<T>

    ghost predicate Valid()
      reads this
    {
      TotalOrder(leq) && IsHeap(leq, items)
    }

    constructor (leq: (T, T) -> bool)
      requires TotalOrder(leq)
      ensures Valid() && items == [] && this.leq == leq
    {
      this.leq := leq;
      items := [];
    }

    /** heap.Push: append, then sift up. */
    method Push(x: T)
      requires Valid()
      modifies this
      ensures Valid()
      ensures multiset(items) == old(multiset(items)) + multiset{x}
      ensures |items| == old(|items|) + 1
    {
      AppendLeaf(leq, items, x);
      items := items + [x];
      var j := |items| - 1;
      while j > 0 && !leq(items[Parent(j)], items[j])
        invariant 0 <= j < |items| == old(|items|) + 1
        invariant HeapExceptUp(leq, items, j)
        invariant multiset(items) == old(multiset(items)) + multiset{x}
      {
        UpStep(leq, items, j);
        SwapMultiset(items, Parent(j), j);
        items := Swap(items, Parent(j), j);
        j := Parent(j);
      }
      assert Above(leq, items, j);
    }

    /** heap.Pop: swap the root with the last element, sift down what remains, remove the last. */
    method Pop() returns (x: T)
      requires Valid() && items != []
      modifies this
      ensures Valid()
      ensures x in old(items) && forall y :: y in old(items) ==> leq(x, y)
      ensures multiset(items) + multiset{x} == old(multiset(items))
      ensures |items| == old(|items|) - 1
    {
      x := items[0];
      forall k | 0 <= k < |items| ensures leq(x, items[k]) { RootIsLeast(leq, items, k); }
      var n := |items| - 1;
      RootReplaced(leq, items);
      items := Swap(items, 0, n)[..n];
      Down();
    }

    method Down()
      requires TotalOrder(leq) && HeapExceptDown(leq, items, 0)
      modifies this
      ensures Valid()
      ensures |items| == old(|items|) && multiset(items) == old(multiset(items))
    {
      var i := 0;
      while 2 * i + 1 < |items| && !leq(items[i], items[SmallerChild(leq, items, i)])
        invariant 0 <= i && |items| == old(|items|)
        invariant HeapExceptDown(leq, items, i)
        invariant multiset(items) == old(multiset(items))
        decreases |items| - i
      {
        var j := SmallerChild(leq, items, i);
        SmallerChildIsLeast(leq, items, i);
        DownStep(leq, items, i, j);
        SwapMultiset(items, i, j);
        items := Swap(items, i, j);
        i := j;
      }
      Settled(leq, items, i);
    }
  }

  function SmallerChild<T>(leq: (T, T) -> bool, s: seq<T>, i: nat): (j: nat)
    requires 2 * i + 1 < |s|
    ensures i < j < |s| && Parent(j) == i
  {
    if 2 * i + 2 < |s| && !leq(s[2 * i + 1], s[2 * i + 2]) then 2 * i + 2 else 2 * i + 1
  }

  lemma {:induction false} SmallerChildIsLeast<T(!new)>(leq: (T, T) -> bool, s: seq<T>, i: nat)
    requires TotalOrder(leq) && 2 * i + 1 < |s|
    ensures forall k :: 0 < k < |s| && Parent(k) == i ==> leq(s[SmallerChild(leq, s, i)], s[k])
  {
    forall k | 0 < k < |s| && Parent(k) == i ensures leq(s[SmallerChild(leq, s, i)], s[k]) { ChildrenOf(i, k); }
  }

  lemma {:induction false} Settled<T(!new)>(leq: (T, T) -> bool, s: seq<T>, i: nat)
    requires TotalOrder(leq) && HeapExceptDown(leq, s, i)
    requires 2 * i + 1 < |s| ==> leq(s[i], s[SmallerChild(leq, s, i)])
    ensures IsHeap(leq, s)
  {
    if 2 * i + 1 < |s| { SmallerChildIsLeast(leq, s, i); }
    forall k ensures Above(leq, s, k) {
      if 0 < k < |s| && Parent(k) == i {
        ChildrenOf(i, k);
        assert leq(s[SmallerChild(leq, s, i)], s[k]);
      }
    }
  }

  lemma {:induction false} AppendLeaf<T(!new)>(leq: (T, T) -> bool, s: seq<T>, x: T)
    requires IsHeap(leq, s)
    ensures HeapExceptUp(leq, s + [x], |s|)
  {
    forall k | k != |s| ensures Above(leq, s + [x], k) { assert Above(leq, s, k); }
  }

  lemma {:induction false} RootReplaced<T(!new)>(leq: (T, T) -> bool, s: seq<T>)
    requires IsHeap(leq, s) && s != []
    ensures var t := Swap(s, 0, |s| - 1)[..|s| - 1];
            HeapExceptDown(leq, t, 0) && multiset(t) + multiset{s[0]} == multiset(s)
  {
    var n := |s| - 1;
    var u := Swap(s, 0, n);
    forall k | Parent(k) != 0 ensures Above(leq, u[..n], k) { assert Above(leq, s, k); }
    SwapMultiset(s, 0, n);
    assert u == u[..n] + [s[0]];
  }
}
