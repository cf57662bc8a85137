/** Sorting with respect to a total order. The library sorts the source calls (sort.Strings,
    sort.Slice) are modelled by `Sort`: by `SortedUnique` every correct sort of elements under a
    total antisymmetric order returns the same sequence. */
module Sorting {
  import opened GoBytes

  ghost predicate TotalOrder<T(!new)>(leq: (T, T) -> bool) {
    && (forall a :: leq(a, a))
    && (forall a, b :: leq(a, b) || leq(b, a))
    && (forall a, b :: leq(a, b) && leq(b, a) ==> a == b)
    && (forall a, b, c :: leq(a, b) && leq(b, c) ==> leq(a, c))
  }

  ghost predicate SortedBy<T(!new)>(leq: (T, T) -> bool, s: seq<T>) {
    forall i, j :: 0 <= i < j < |s| ==> leq(s[i], s[j])
  }

  function Insert<T>(leq: (T, T) -> bool, x: T, s: seq<T>): (r: seq<T>)
    ensures |r| == |s| + 1
  {
    if s == [] then [x]
    else if leq(x, s[0]) then [x] + s
    else [s[0]] + Insert(leq, x, s[1..])
  }

  function Sort<T>(leq: (T, T) -> bool, s: seq<T>): (r: seq<T>)
    ensures |r| == |s|
  {
    if s == [] then [] else Insert(leq, s[0], Sort(leq, s[1..]))
  }

  lemma {:induction false} InsertMultiset<T>(leq: (T, T) -> bool, x: T, s: seq<T>)
    ensures multiset(Insert(leq, x, s)) == multiset{x} + multiset(s)
  {
    if s != [] && !leq(x, s[0]) {
      InsertMultiset(leq, x, s[1..]);
      assert s == [s[0]] + s[1..];
    }
  }

  lemma {:induction false} InsertSorted<T(!new)>(leq: (T, T) -> bool, x: T, s: seq<T>)
    requires TotalOrder(leq) && SortedBy(leq, s)
    ensures SortedBy(leq, Insert(leq, x, s))
  {
    if s != [] && !leq(x, s[0]) {
      var tail := Insert(leq, x, s[1..]);
      InsertSorted(leq, x, s[1..]);
      InsertMultiset(leq, x, s[1..]);
      forall j | 0 <= j < |tail| ensures leq(s[0], tail[j]) {
        assert tail[j] in multiset(tail);
        assert tail[j] == x || tail[j] in s[1..];
      }
    }
  }

  lemma {:induction false} SortIsSortedPermutation<T(!new)>(leq: (T, T) -> bool, s: seq<T>)
    requires TotalOrder(leq)
    ensures SortedBy(leq, Sort(leq, s))
    ensures multiset(Sort(leq, s)) == multiset(s)
  {
    if s != [] {
      SortIsSortedPermutation(leq, s[1..]);
      InsertSorted(leq, s[0], Sort(leq, s[1..]));
      InsertMultiset(leq, s[0], Sort(leq, s[1..]));
      assert s == [s[0]] + s[1..];
    }
  }

  lemma {:induction false} WithoutHead<T>(s: seq<T>)
    requires s != []
    ensures s == [s[0]] + s[1..] && multiset(s[1..]) == multiset(s) - multiset{s[0]}
  {
    assert s == [s[0]] + s[1..];
  }

  lemma {:induction false} OccursTwice<T>(s: seq<T>, i: nat, j: nat)
    requires i < j < |s| && s[i] == s[j]
    ensures multiset(s)[s[i]] >= 2
  {
    assert s == s[..i] + [s[i]] + s[i + 1..j] + [s[j]] + s[j + 1..];
  }

  /** An image counts an element as often as the sequence does, if nothing else is mapped to it. */
  lemma {:induction false} ImageCount<T, U>(s: seq<T>, image: seq<U>, x: T, y: U)
    requires |image| == |s| && forall i :: 0 <= i < |s| ==> (image[i] == y <==> s[i] == x)
    ensures multiset(image)[y] == multiset(s)[x]
  {
    if s != [] {
      ImageCount(s[1..], image[1..], x, y);
      WithoutHead(s);
      WithoutHead(image);
    }
  }

  /** fa[i] and fb[j] are equal exactly when a[i] and b[j] are. */
  ghost predicate Faithful<T, U>(a: seq<T>, fa: seq<U>, b: seq<T>, fb: seq<U>) {
    && |fa| == |a| && |fb| == |b|
    && forall i, j :: 0 <= i < |a| && 0 <= j < |b| ==> (fa[i] == fb[j] <==> a[i] == b[j])
  }

  lemma {:induction false} FaithfulCount<T, U>(a: seq<T>, fa: seq<U>, b: seq<T>, fb: seq<U>, j: nat)
    requires Faithful(a, fa, b, fb) && j < |b|
    ensures multiset(fa)[fb[j]] == multiset(a)[b[j]]
  {
    ImageCount(a, fa, b[j], fb[j]);
  }

  /** An injective image preserves and reflects equality of multisets. */
  lemma {:induction false} SameImages<T, U>(a: seq<T>, fa: seq<U>, b: seq<T>, fb: seq<U>)
    requires Faithful(a, fa, a, fa) && Faithful(a, fa, b, fb) && Faithful(b, fb, a, fa) && Faithful(b, fb, b, fb)
    ensures multiset(fa) == multiset(fb) <==> multiset(a) == multiset(b)
  {
    if multiset(fa) == multiset(fb) { ImagesReflect(a, fa, b, fb); }
    if multiset(a) == multiset(b) { ImagesReflect(fa, a, fb, b); }
  }

  lemma {:induction false} ImagesReflect<T, U>(a: seq<T>, fa: seq<U>, b: seq<T>, fb: seq<U>)
    requires Faithful(a, fa, a, fa) && Faithful(a, fa, b, fb) && Faithful(b, fb, a, fa) && Faithful(b, fb, b, fb)
    requires multiset(fa) == multiset(fb)
    ensures multiset(a) == multiset(b)
  {
    forall x ensures multiset(a)[x] == multiset(b)[x] {
      if x in a {
        var i :| 0 <= i < |a| && a[i] == x;
        FaithfulCount(a, fa, a, fa, i);
        FaithfulCount(b, fb, a, fa, i);
      } else if x in b {
        var j :| 0 <= j < |b| && b[j] == x;
        FaithfulCount(a, fa, b, fb, j);
        FaithfulCount(b, fb, b, fb, j);
      }
    }
  }

  lemma {:induction false} SortedUnique<T(!new)>(leq: (T, T) -> bool, a: seq<T>, b: seq<T>)
    requires TotalOrder(leq) && SortedBy(leq, a) && SortedBy(leq, b)
    requires multiset(a) == multiset(b)
    ensures a == b
  {
    assert |a| == |multiset(a)| == |multiset(b)| == |b|;
    if a != [] {
      assert a[0] in multiset(b) && b[0] in multiset(a);
      assert leq(a[0], b[0]) && leq(b[0], a[0]);
      WithoutHead(a);
      WithoutHead(b);
      SortedUnique(leq, a[1..], b[1..]);
    }
  }

  /** Sorting depends only on the elements and how often each occurs. */
  lemma {:induction false} SortOfPermutation<T(!new)>(leq: (T, T) -> bool, a: seq<T>, b: seq<T>)
    requires TotalOrder(leq)
    ensures Sort(leq, a) == Sort(leq, b) <==> multiset(a) == multiset(b)
  {
    SortIsSortedPermutation(leq, a);
    SortIsSortedPermutation(leq, b);
    if multiset(a) == multiset(b) { SortedUnique(leq, Sort(leq, a), Sort(leq, b)); }
  }

  lemma {:induction false} BytesTotalOrder()
    ensures TotalOrder(Leq)
  {
    forall a: Bytes ensures Leq(a, a) { LeqReflexive(a); }
    forall a: Bytes, b: Bytes ensures Leq(a, b) || Leq(b, a) { LeqTotal(a, b); }
    forall a: Bytes, b: Bytes | Leq(a, b) && Leq(b, a) ensures a == b { LeqAntisymmetric(a, b); }
    forall a: Bytes, b: Bytes, c: Bytes | Leq(a, b) && Leq(b, c) ensures Leq(a, c) { LeqTransitive(a, b, c); }
  }

  // ---------- duplicate-free ascending listings of byte strings ----------

  function Elements<T>(s: seq<T>): set<T> {
    set x | x in s
  }

  ghost function Image<T, U>(g: T -> U, s: seq<T>): set<U> {
    set i | 0 <= i < |s| :: g(s[i])
  }

  lemma {:induction false} ImagePrefix<T, U>(g: T -> U, s: seq<T>, n: nat)
    requires n < |s|
    ensures Image(g, s[..n + 1]) == Image(g, s[..n]) + {g(s[n])} && Image(g, s[..n + 1]) <= Image(g, s)
  {
    var a, b := s[..n], s[..n + 1];
    assert forall i :: 0 <= i < n ==> b[i] == a[i] == s[i];
    assert b[n] == s[n];
  }

  /** An injective image of a set has as many elements. */
  lemma {:induction false} ImageSize<T(!new), U>(g: T -> U, s: set<T>, image: set<U>)
    requires image == set x | x in s :: g(x)
    requires forall x, y :: x in s && y in s && g(x) == g(y) ==> x == y
    ensures |image| == |s|
  {
    if s != {} {
      var x :| x in s;
      var rest := set y | y in s - {x} :: g(y);
      ImageSize(g, s - {x}, rest);
      assert image == rest + {g(x)};
      assert g(x) !in rest;
    }
  }

  ghost predicate Ascending(s: seq<Bytes>) {
    forall i, j :: 0 <= i < j < |s| ==> Less(s[i], s[j])
  }

  ghost predicate Distinct<T>(s: seq<T>) {
    forall i, j :: 0 <= i < j < |s| ==> s[i] != s[j]
  }

  /** The ascending duplicate-free listing of a finite set: what collecting a Go map's keys in any
      order and sorting them gives. */
  ghost function Listing(s: set<Bytes>): (r: seq<Bytes>)
    ensures Ascending(r) && Elements(r) == s && |r| == |s|
  {
    if s == {} then []
    else
      var x :| x in s;
      var rest := Listing(s - {x});
      InsertAscending(x, rest);
      Insert(Leq, x, rest)
  }

  lemma {:induction false} InsertAscending(x: Bytes, s: seq<Bytes>)
    requires Ascending(s) && x !in s
    ensures Ascending(Insert(Leq, x, s)) && Elements(Insert(Leq, x, s)) == Elements(s) + {x}
  {
    var r := Insert(Leq, x, s);
    BytesTotalOrder();
    InsertSorted(Leq, x, s);
    InsertMultiset(Leq, x, s);
    InsertDistinct(x, s);
    assert forall y :: y in r <==> y in multiset(r);
  }

  lemma {:induction false} InsertDistinct(x: Bytes, s: seq<Bytes>)
    requires Distinct(s) && x !in s
    ensures Distinct(Insert(Leq, x, s))
  {
    if s != [] && !Leq(x, s[0]) {
      InsertDistinct(x, s[1..]);
      InsertMultiset(Leq, x, s[1..]);
      var r := Insert(Leq, x, s[1..]);
      forall j | 0 <= j < |r| ensures r[j] != s[0] {
        assert r[j] in multiset(r);
      }
    }
  }

  lemma {:induction false} AscendingUnique(a: seq<Bytes>, b: seq<Bytes>)
    requires Ascending(a) && Ascending(b) && Elements(a) == Elements(b)
    ensures a == b
  {
    NoElements(a);
    NoElements(b);
    if a != [] {
      assert a[0] in Elements(a) && b[0] in Elements(b);
      SameLeast(a, b);
      forall x ensures x in a[1..] <==> x in b[1..] {
        assert x in Elements(a) <==> x in Elements(b);
        assert x in a <==> x == a[0] || x in a[1..];
        assert x in b <==> x == b[0] || x in b[1..];
      }
      AscendingUnique(a[1..], b[1..]);
      SameHeadAndTail(a, b);
    }
  }

  lemma {:induction false} NoElements<T>(s: seq<T>)
    ensures Elements(s) == {} <==> s == []
  {
    if s != [] { assert s[0] in Elements(s); }
  }

  lemma {:induction false} SameLeast(a: seq<Bytes>, b: seq<Bytes>)
    requires Ascending(a) && Ascending(b) && a != [] && b != []
    requires a[0] in b && b[0] in a
    ensures a[0] == b[0]
  {
    var i :| 0 <= i < |b| && b[i] == a[0];
    var j :| 0 <= j < |a| && a[j] == b[0];
    if i > 0 && j > 0 { LeqAntisymmetric(a[0], b[0]); }
  }

  /** Dropping adjacent repetitions: the source's loop over a sorted slice. */
  function Dedup<T(==)>(s: seq<T>): (r: seq<T>)
    ensures |r| <= |s|
    ensures (s == []) == (r == [])
    ensures s != [] ==> r[|r| - 1] == s[|s| - 1]
  {
    if s == [] then []
    else
      var r := Dedup(s[..|s| - 1]);
      if r != [] && r[|r| - 1] == s[|s| - 1] then r else r + [s[|s| - 1]]
  }

  lemma {:induction false} DedupSnoc<T>(s: seq<T>, x: T)
    ensures Dedup(s + [x]) == if s != [] && x == s[|s| - 1] then Dedup(s) else Dedup(s) + [x]
  {
    assert (s + [x])[..|s|] == s;
  }

  lemma {:induction false} AscendingSnoc(r: seq<Bytes>, x: Bytes)
    requires Ascending(r) && (r != [] ==> Less(r[|r| - 1], x))
    ensures Ascending(r + [x])
  {
    forall i | 0 <= i < |r| ensures Less(r[i], x) {
      if i < |r| - 1 {
        LeqTransitive(r[i], r[|r| - 1], x);
        if r[i] == x { LeqAntisymmetric(r[i], r[|r| - 1]); }
      }
    }
  }

  lemma {:induction false} ElementsSnoc<T>(s: seq<T>, x: T)
    ensures Elements(s + [x]) == Elements(s) + {x}
  {
  }

  lemma {:induction false} DistinctSize<T>(s: seq<T>)
    requires Distinct(s)
    ensures |Elements(s)| == |s|
  {
    if s != [] {
      var n := |s| - 1;
      DistinctSize(s[..n]);
      assert s == s[..n] + [s[n]];
      ElementsSnoc(s[..n], s[n]);
    }
  }

  lemma {:induction false} DedupOfSorted(s: seq<Bytes>)
    requires SortedBy(Leq, s)
    ensures Ascending(Dedup(s)) && Elements(Dedup(s)) == Elements(s)
  {
    if s != [] {
      var n := |s| - 1;
      DedupOfSorted(s[..n]);
      DedupExtended(s[..n], s[n]);
      assert s == s[..n] + [s[n]];
    }
  }

  lemma {:induction false} DedupExtended(t: seq<Bytes>, x: Bytes)
    requires t != [] ==> Leq(t[|t| - 1], x)
    requires Ascending(Dedup(t)) && Elements(Dedup(t)) == Elements(t)
    ensures Ascending(Dedup(t + [x])) && Elements(Dedup(t + [x])) == Elements(t + [x])
  {
    DedupSnoc(t, x);
    ElementsSnoc(t, x);
    if t != [] && x == t[|t| - 1] {
      assert x in Elements(t);
    } else {
      AscendingSnoc(Dedup(t), x);
      ElementsSnoc(Dedup(t), x);
    }
  }

  lemma {:induction false} SortDedupIsListing(s: seq<Bytes>)
    ensures Dedup(Sort(Leq, s)) == Listing(Elements(s))
  {
    BytesTotalOrder();
    SortIsSortedPermutation(Leq, s);
    var t := Sort(Leq, s);
    DedupOfSorted(t);
    assert forall x :: x in t <==> x in multiset(t);
    assert forall x :: x in s <==> x in multiset(s);
    assert Elements(t) == Elements(s);
    AscendingUnique(Dedup(t), Listing(Elements(s)));
  }

  lemma {:induction false} SortedKeysAreListing(keys: seq<Bytes>)
    requires |keys| == |Elements(keys)|
    ensures Sort(Leq, keys) == Listing(Elements(keys))
  {
    var t := Sort(Leq, keys);
    BytesTotalOrder();
    SortIsSortedPermutation(Leq, keys);
    SortDedupIsListing(keys);
    DedupKeepingLength(t);
  }

  lemma {:induction false} DedupKeepingLength<T>(s: seq<T>)
    requires |Dedup(s)| == |s|
    ensures Dedup(s) == s
  {
    if s != [] {
      DedupKeepingLength(s[..|s| - 1]);
      assert s == s[..|s| - 1] + [s[|s| - 1]];
    }
  }

  /** Ranging over a Go map or set: each key once, in an order nothing may depend on. */
  method AnyOrder<T(==)>(keys: set<T>) returns (r: seq<T>)
    ensures Elements(r) == keys && |r| == |keys|
  {
    r := [];
    var rest := keys;
    while rest != {}
      invariant rest <= keys
      invariant Elements(r) == keys - rest && |r| + |rest| == |keys|
      decreases rest
    {
      var key :| key in rest;
      ElementsSnoc(r, key);
      rest := rest - {key};
      r := r + [key];
    }
  }

  /** The loop over `values[:0]`: the kept elements overwrite the front of the slice being read. */
  method DedupInPlace<T(==)>(a: array<T>) returns (k: nat)
    modifies a
    ensures k <= a.Length && a[..k] == Dedup(old(a[..]))
  {
    k := 0;
    ghost var was, kept := a[..], [];
    for i := 0 to a.Length
      invariant k <= i
      invariant kept == Dedup(was[..i]) && k == |kept|
      invariant forall j :: 0 <= j < k ==> a[j] == kept[j]
      invariant forall j :: i <= j < a.Length ==> a[j] == was[j]
    {
      DedupStep(was, i);
      kept := Dedup(was[..i + 1]);
      if k == 0 || a[i] != a[k - 1] {
        a[k] := a[i];
        k := k + 1;
      }
    }
    assert was[..a.Length] == was;
  }

  lemma {:induction false} DedupStep<T>(s: seq<T>, i: nat)
    requires i < |s|
    ensures Dedup(s[..i + 1]) == if i > 0 && s[i] == Dedup(s[..i])[|Dedup(s[..i])| - 1] then Dedup(s[..i])
            else Dedup(s[..i]) + [s[i]]
  {
    DedupSnoc(s[..i], s[i]);
    assert s[..i + 1] == s[..i] + [s[i]];
  }
}
