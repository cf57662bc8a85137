/** Role-bound commitments to ordinary sets, and the plain in-memory set algebra
    (evaluation/finalv5oracle/set_algebra.go). This is the simple form that the bounded-memory
    summariser, the dependency generator and the outcome generator have to agree with. */
module SetAlgebra {
  import opened GoBytes
  import opened Sorting

  const VERSION: Bytes := Ascii("TASKGATE-FINAL-V5-SET-ALGEBRA-V1/")

  const CANDIDATE: Bytes := Ascii("candidate")
  const EXISTING: Bytes := Ascii("existing")
  const OVERLAP: Bytes := Ascii("overlap")
  const NOVEL: Bytes := Ascii("novel")
  const UNION: Bytes := Ascii("union")

  predicate ValidRole(role: Bytes) {
    role == CANDIDATE || role == EXISTING || role == OVERLAP || role == NOVEL || role == UNION
  }

  function RawAll(members: seq<Bytes>): (r: seq<Bytes>)
    ensures |r| == |members|
    ensures forall i :: 0 <= i < |r| ==> r[i] == Raw(members[i])
  {
    if members == [] then [] else [Raw(members[0])] + RawAll(members[1..])
  }

  /** What digestSetRole feeds to its hash: framed domain and role, count, framed raw members. */
  function SetPreimage(role: Bytes, members: seq<Bytes>): Bytes {
    Framed(VERSION + role) + U64(|members|) + FrameAll(RawAll(members))
  }

  function DigestSetRole(h: HashFunction, role: Bytes, members: seq<Bytes>): Bytes {
    HexEncode(h(SetPreimage(role, members)))
  }

  /** The cardinality and digest published for one role. */
  datatype SetIdentity = SetIdentity(cardinality: int, sha256: Bytes)

  ghost function Identify(h: HashFunction, role: Bytes, s: set<Bytes>): SetIdentity {
    SetIdentity(|s|, DigestSetRole(h, role, Listing(s)))
  }

  ghost predicate ValidMembers(members: seq<Bytes>) {
    forall i :: 0 <= i < |members| ==> ValidSha256(members[i])
  }

  /** The 256-bit number a canonical member spells. */
  ghost function Number(member: Bytes): nat {
    FromBigEndian(Raw(member))
  }

  ghost predicate Increasing(members: seq<Bytes>) {
    forall i, j :: 0 <= i < j < |members| ==> Number(members[i]) < Number(members[j])
  }

  /** Among canonical members, string order is the order of the numbers they spell. */
  lemma {:induction false} MemberOrder(a: Bytes, b: Bytes)
    requires ValidSha256(a) && ValidSha256(b)
    ensures Less(a, b) <==> Number(a) < Number(b)
  {
    RawOfValid(a);
    RawOfValid(b);
    HexOrder(Raw(a), Raw(b));
    ByteOrderIsNumeric(Raw(a), Raw(b));
    FromBigEndianRoundTrip(Raw(a));
    FromBigEndianRoundTrip(Raw(b));
  }

  /** The listing of a set of canonical members runs upwards. */
  lemma {:induction false} ListingIncreases(s: set<Bytes>)
    requires forall m :: m in s ==> ValidSha256(m)
    ensures ValidMembers(Listing(s)) && Increasing(Listing(s))
  {
    var r := Listing(s);
    forall i | 0 <= i < |r| ensures ValidSha256(r[i]) { assert r[i] in Elements(r); }
    forall i, j | 0 <= i < j < |r| ensures Number(r[i]) < Number(r[j]) { MemberOrder(r[i], r[j]); }
  }

  lemma {:induction false} RawAllInjective(a: seq<Bytes>, b: seq<Bytes>)
    requires ValidMembers(a) && ValidMembers(b) && RawAll(a) == RawAll(b)
    ensures a == b
  {
    forall i | 0 <= i < |a| ensures a[i] == b[i] {
      RawOfValid(a[i]);
      RawOfValid(b[i]);
      assert RawAll(a)[i] == RawAll(b)[i];
    }
  }

  /** The preimage binds the role and the exact set: neither can be substituted for another. */
  lemma {:induction false} PreimageDeterminesRoleAndSet(role1: Bytes, s1: set<Bytes>, role2: Bytes, s2: set<Bytes>)
    requires ValidRole(role1) && ValidRole(role2)
    requires forall m :: m in s1 || m in s2 ==> ValidSha256(m)
    requires |s1| < TWO63 && |s2| < TWO63
    ensures SetPreimage(role1, Listing(s1)) == SetPreimage(role2, Listing(s2)) <==> role1 == role2 && s1 == s2
  {
    var a, b := Listing(s1), Listing(s2);
    if SetPreimage(role1, a) == SetPreimage(role2, b) {
      assert forall i :: 0 <= i < |a| ==> a[i] in Elements(a);
      assert forall i :: 0 <= i < |b| ==> b[i] in Elements(b);
      SetPreimageInjective(role1, a, role2, b);
    }
  }

  lemma {:induction false} SetPreimageInjective(role1: Bytes, a: seq<Bytes>, role2: Bytes, b: seq<Bytes>)
    requires ValidRole(role1) && ValidRole(role2)
    requires ValidMembers(a) && ValidMembers(b) && |a| < TWO63 && |b| < TWO63
    requires SetPreimage(role1, a) == SetPreimage(role2, b)
    ensures role1 == role2 && a == b
  {
    RawsFit(a);
    RawsFit(b);
    PreimageParts(VERSION + role1, RawAll(a), VERSION + role2, RawAll(b));
    assert (VERSION + role1)[|VERSION|..] == role1 && (VERSION + role2)[|VERSION|..] == role2;
    RawAllInjective(a, b);
  }

  lemma {:induction false} PreimageParts(domain1: Bytes, raws1: seq<Bytes>, domain2: Bytes, raws2: seq<Bytes>)
    requires Fits(domain1) && Fits(domain2) && AllFit(raws1) && AllFit(raws2)
    requires Framed(domain1) + U64(|raws1|) + FrameAll(raws1) == Framed(domain2) + U64(|raws2|) + FrameAll(raws2)
    ensures domain1 == domain2 && raws1 == raws2
  {
    FramedThenCount(domain1, U64(|raws1|), FrameAll(raws1), domain2, U64(|raws2|), FrameAll(raws2));
    FrameAllInjective(raws1, raws2);
  }

  lemma {:induction false} RawsFit(members: seq<Bytes>)
    requires ValidMembers(members)
    ensures AllFit(RawAll(members))
  {
    forall v | v in RawAll(members) ensures Fits(v) {
      var i :| 0 <= i < |members| && RawAll(members)[i] == v;
      RawOfValid(members[i]);
    }
  }

  // ---------- EvaluateSetAlgebra ----------

  datatype SetAlgebraResult = SetAlgebraResult(
    candidate: SetIdentity, existing: SetIdentity, overlap: SetIdentity, novel: SetIdentity, union: SetIdentity)

  datatype AlgebraError = Malformed(role: Bytes, position: nat) | Duplicate(role: Bytes, member: Bytes)

  /** The exact algebra of two plain sets, identified role by role. */
  ghost function AlgebraOf(h: HashFunction, candidate: set<Bytes>, existing: set<Bytes>): SetAlgebraResult {
    SetAlgebraResult(
      Identify(h, CANDIDATE, candidate), Identify(h, EXISTING, existing),
      Identify(h, OVERLAP, candidate * existing), Identify(h, NOVEL, candidate - existing),
      Identify(h, UNION, candidate + existing))
  }

  lemma {:induction false} AlgebraConserves(h: HashFunction, candidate: set<Bytes>, existing: set<Bytes>)
    ensures var r := AlgebraOf(h, candidate, existing);
            && r.overlap.cardinality + r.novel.cardinality == r.candidate.cardinality
            && r.union.cardinality == r.existing.cardinality + r.novel.cardinality
            && r.union.cardinality == r.candidate.cardinality + r.existing.cardinality - r.overlap.cardinality
  {
    assert candidate == candidate * existing + (candidate - existing);
    assert candidate + existing == existing + (candidate - existing);
  }

  ghost predicate ExactInput(values: seq<Bytes>) {
    ValidMembers(values) && Distinct(values)
  }

  method ExactDigestSet(role: Bytes, values: seq<Bytes>) returns (r: Result<set<Bytes>, AlgebraError>)
    ensures r.Ok? <==> ExactInput(values)
    ensures r.Ok? ==> r.value == Elements(values) && |r.value| == |values|
    ensures r.Err? ==>
              exists n :: 0 <= n < |values| && ExactInput(values[..n]) && !ExactInput(values[..n + 1]) &&
                r.error == if ValidSha256(values[n]) then Duplicate(role, values[n]) else Malformed(role, n + 1)
  {
    var result: set<Bytes> := {};
    for index := 0 to |values|
      invariant ExactInput(values[..index])
      invariant result == Elements(values[..index]) && |result| == index
    {
      var value := values[index];
      assert values[..index + 1] == values[..index] + [value];
      if !ValidSha256(value) {
        assert !ValidSha256(values[..index + 1][index]);
        return Err(Malformed(role, index + 1));
      }
      if value in result {
        var j :| 0 <= j < index && values[..index][j] == value;
        assert values[..index + 1][j] == values[..index + 1][index];
        return Err(Duplicate(role, value));
      }
      result := result + {value};
    }
    assert values[..|values|] == values;
    return Ok(result);
  }

  /** sortedSetValues: range over the map in an arbitrary order, then sort. */
  method SortedSetValues(values: set<Bytes>) returns (r: seq<Bytes>)
    ensures r == Listing(values) && Elements(r) == values && |r| == |values|
    ensures (forall m :: m in values ==> ValidSha256(m)) ==> Increasing(r)
  {
    r := AnyOrder(values);
    SortedKeysAreListing(r);
    r := Sort(Leq, r);
    if forall m :: m in values ==> ValidSha256(m) { ListingIncreases(values); }
  }

  method IdentifySet(h: HashFunction, role: Bytes, s: set<Bytes>) returns (r: SetIdentity)
    ensures r == Identify(h, role, s)
  {
    var values := SortedSetValues(s);
    r := SetIdentity(|values|, DigestSetRole(h, role, values));
  }

  /** The single pass over the candidate map. */
  method SplitCandidate(candidate: set<Bytes>, existing: set<Bytes>)
    returns (overlap: set<Bytes>, novel: set<Bytes>, union: set<Bytes>)
    ensures overlap == candidate * existing && novel == candidate - existing && union == candidate + existing
  {
    overlap, novel, union := {}, {}, existing;
    var rest := candidate;
    while rest != {}
      invariant rest <= candidate
      invariant overlap == (candidate - rest) * existing
      invariant novel == (candidate - rest) - existing
      invariant union == existing + (candidate - rest)
      decreases rest
    {
      var value :| value in rest;
      rest := rest - {value};
      union := union + {value};
      if value in existing { overlap := overlap + {value}; } else { novel := novel + {value}; }
    }
  }

  method EvaluateSetAlgebra(h: HashFunction, candidate: seq<Bytes>, existing: seq<Bytes>)
    returns (r: Result<SetAlgebraResult, AlgebraError>)
    ensures r.Ok? <==> ExactInput(candidate) && ExactInput(existing)
    ensures r.Ok? ==> r.value == AlgebraOf(h, Elements(candidate), Elements(existing))
  {
    var left := ExactDigestSet(CANDIDATE, candidate);
    if left.Err? { return Err(left.error); }
    var right := ExactDigestSet(EXISTING, existing);
    if right.Err? { return Err(right.error); }
    var overlap, novel, union := SplitCandidate(left.value, right.value);
    var c := IdentifySet(h, CANDIDATE, left.value);
    var e := IdentifySet(h, EXISTING, right.value);
    var o := IdentifySet(h, OVERLAP, overlap);
    var n := IdentifySet(h, NOVEL, novel);
    var u := IdentifySet(h, UNION, union);
    r := Ok(SetAlgebraResult(c, e, o, n, u));
  }
}
