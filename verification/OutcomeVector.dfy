/** The V5 outcome vector (evaluation/finalv5oracle/outcome.go) and the predicate-set commitment it
    binds (evaluation/finalv5oracle/facts.go): exact atoms are deduplicated by hash, the composite
    carries their number and the digest of their set, and the order or repetition of the input atoms
    leaves no trace. */
module OutcomeVector {
  import opened GoBytes
  import opened Sorting
  import opened Facts
  import SetAlgebra
  import SetStream

  const SET_DOMAIN: Bytes := Ascii("TASKGATE-PREDICATE-SET-V1") + [0]

  // ---------- sortOracleHashes ----------

  ghost predicate SortedBut(a: seq<Bytes>, n: int, j: int) {
    && (forall p, q :: 0 <= p < q < n <= |a| && p != j && q != j ==> Leq(a[p], a[q]))
    && (forall q :: 0 <= j < q < n <= |a| ==> Leq(a[j], a[q]))
  }

  function Swapped(s: seq<Bytes>, j: int): (r: seq<Bytes>)
    requires 0 < j < |s|
    ensures |r| == |s|
  {
    s[j - 1 := s[j]][j := s[j - 1]]
  }

  lemma {:induction false} SwapKeeps(s: seq<Bytes>, j: int)
    requires 0 < j < |s|
    ensures multiset(Swapped(s, j)) == multiset(s)
  {
    assert s == s[..j - 1] + [s[j - 1]] + [s[j]] + s[j + 1..];
    assert Swapped(s, j) == s[..j - 1] + [s[j]] + [s[j - 1]] + s[j + 1..];
  }

  lemma {:induction false} SwapStep(s: seq<Bytes>, n: int, j: int)
    requires 0 < j < n <= |s| && SortedBut(s, n, j) && Leq(s[j], s[j - 1])
    ensures SortedBut(Swapped(s, j), n, j - 1)
  {
  }

  method SwapDown(a: array<Bytes>, j: int)
    requires 0 < j < a.Length
    modifies a
    ensures a[..] == Swapped(old(a[..]), j)
  {
    a[j], a[j - 1] := a[j - 1], a[j];
  }

  lemma {:induction false} InsertDone(s: seq<Bytes>, n: int, j: int)
    requires 0 <= j < n <= |s| && SortedBut(s, n, j) && (j > 0 ==> Leq(s[j - 1], s[j]))
    ensures SortedBy(Leq, s[..n])
  {
    forall p | 0 <= p < j ensures Leq(s[p], s[j]) {
      if p < j - 1 { LeqTransitive(s[p], s[j - 1], s[j]); }
    }
  }

  lemma {:induction false} SortedPrefix(s: seq<Bytes>, i: nat)
    requires i < |s|
    ensures SortedBy(Leq, s[..i]) ==> SortedBut(s, i + 1, i)
  {
    assert forall p :: 0 <= p < i ==> s[..i][p] == s[p];
  }

  lemma {:induction false} NotLess(x: Bytes, y: Bytes)
    requires !Less(x, y)
    ensures Leq(y, x)
  {
    LeqTotal(x, y);
    LeqReflexive(x);
  }

  /** One outer iteration: the element at i sinks into the sorted prefix. */
  method SinkLast(a: array<Bytes>, i: nat)
    requires i < a.Length && SortedBy(Leq, a[..i])
    modifies a
    ensures SortedBy(Leq, a[..i + 1]) && multiset(a[..]) == multiset(old(a[..]))
  {
    var j := i;
    SortedPrefix(a[..], i);
    assert a[..][..i] == a[..i];
    while j > 0 && Less(a[j], a[j - 1])
      invariant 0 <= j <= i
      invariant SortedBut(a[..], i + 1, j)
      invariant multiset(a[..]) == multiset(old(a[..]))
    {
      SwapStep(a[..], i + 1, j);
      SwapKeeps(a[..], j);
      SwapDown(a, j);
      j := j - 1;
    }
    if j > 0 { NotLess(a[j], a[j - 1]); }
    InsertDone(a[..], i + 1, j);
    assert a[..][..i + 1] == a[..i + 1];
  }

  method SortOracleHashes(a: array<Bytes>)
    modifies a
    ensures a[..] == Sort(Leq, old(a[..]))
  {
    var i := 1;
    while i < a.Length
      invariant 1 <= i && (i <= a.Length || a.Length == 0)
      invariant i <= a.Length ==> SortedBy(Leq, a[..i])
      invariant multiset(a[..]) == multiset(old(a[..]))
    {
      SinkLast(a, i);
      i := i + 1;
    }
    assert a.Length > 0 ==> a[..] == a[..i];
    BytesTotalOrder();
    SortIsSortedPermutation(Leq, old(a[..]));
    SortedUnique(Leq, a[..], Sort(Leq, old(a[..])));
  }

  // ---------- HashV5PredicateSet ----------

  function Concat(raws: seq<Bytes>): Bytes {
    if raws == [] then [] else raws[0] + Concat(raws[1..])
  }

  function PredicatePreimage(ordered: seq<Bytes>): Bytes {
    SET_DOMAIN + U64(|ordered|) + Concat(ordered)
  }

  /** The digest of a set of raw atom hashes. */
  ghost function PredicateDigest(h: HashFunction, raws: set<Bytes>): Bytes {
    HexEncode(h(PredicatePreimage(Listing(raws))))
  }

  lemma {:induction false} ConcatInjective(a: seq<Bytes>, b: seq<Bytes>)
    requires |a| == |b| && Concat(a) == Concat(b)
    requires forall i :: 0 <= i < |a| ==> |a[i]| == 32 && |b[i]| == 32
    ensures a == b
  {
    if a != [] {
      assert a[0] == Concat(a)[..32] == Concat(b)[..32] == b[0];
      assert Concat(a[1..]) == Concat(a)[32..] == Concat(b)[32..] == Concat(b[1..]);
      ConcatInjective(a[1..], b[1..]);
      SameHeadAndTail(a, b);
    }
  }

  lemma {:induction false} PreimageParts(d: Bytes, a: seq<Bytes>, b: seq<Bytes>)
    requires |a| < TWO63 && |b| < TWO63 && d + U64(|a|) + Concat(a) == d + U64(|b|) + Concat(b)
    ensures |a| == |b| && Concat(a) == Concat(b)
  {
    Assoc(d, U64(|a|), Concat(a));
    Assoc(d, U64(|b|), Concat(b));
    PrefixCancel(d, U64(|a|) + Concat(a), d, U64(|b|) + Concat(b));
    CountCancel(|a|, Concat(a), |b|, Concat(b));
  }

  /** The committed preimage determines the set of atom hashes, and depends on nothing else. */
  lemma {:induction false} PredicatePreimageIdentifiesSet(a: set<Bytes>, b: set<Bytes>)
    requires |a| < TWO63 && |b| < TWO63 && forall x :: x in a || x in b ==> |x| == 32
    ensures PredicatePreimage(Listing(a)) == PredicatePreimage(Listing(b)) <==> a == b
  {
    var s, t := Listing(a), Listing(b);
    assert forall i :: 0 <= i < |s| ==> s[i] in Elements(s);
    assert forall i :: 0 <= i < |t| ==> t[i] in Elements(t);
    if PredicatePreimage(s) == PredicatePreimage(t) {
      PreimageParts(SET_DOMAIN, s, t);
      ConcatInjective(s, t);
    }
  }

  ghost predicate IsAtom(h: HashFunction, fact: CanonicalFact) {
    fact.profile == PROFILE_V5 && fact.kind == KindName(PredicateAtom) && ValidFact(h, fact)
  }

  ghost predicate NoCollision(facts: set<CanonicalFact>) {
    forall f, g :: f in facts && g in facts && f.sha256 == g.sha256 ==> f == g
  }

  ghost function Hashes(facts: set<CanonicalFact>): set<Bytes> {
    set f | f in facts :: f.sha256
  }

  ghost function RawHashes(facts: set<CanonicalFact>): set<Bytes> {
    set f | f in facts :: Raw(f.sha256)
  }

  /** The map built by the source: raw hash to payload. */
  ghost predicate Indexed(h: HashFunction, members: map<Bytes, Bytes>, facts: set<CanonicalFact>) {
    PayloadsByHash(members, facts) && forall f :: f in facts ==> IsAtom(h, f)
  }

  ghost predicate PayloadsByHash(members: map<Bytes, Bytes>, facts: set<CanonicalFact>) {
    members.Keys == RawHashes(facts) && forall f :: f in facts ==> members[Raw(f.sha256)] == f.payload
  }

  lemma {:induction false} AtomByHash(h: HashFunction, f: CanonicalFact, g: CanonicalFact)
    requires IsAtom(h, f) && IsAtom(h, g) && f.payload == g.payload
    ensures f == g
  {
  }

  lemma {:induction false} IndexedHasNoCollision(h: HashFunction, members: map<Bytes, Bytes>, facts: set<CanonicalFact>)
    requires Indexed(h, members, facts)
    ensures NoCollision(facts)
  {
    forall f, g | f in facts && g in facts && f.sha256 == g.sha256 ensures f == g {
      assert members[Raw(f.sha256)] == f.payload && members[Raw(g.sha256)] == g.payload;
      AtomByHash(h, f, g);
    }
  }

  lemma {:induction false} CollisionFound(
    h: HashFunction, members: map<Bytes, Bytes>, facts: set<CanonicalFact>, atom: CanonicalFact)
    requires Indexed(h, members, facts) && IsAtom(h, atom)
    requires Raw(atom.sha256) in members && members[Raw(atom.sha256)] != atom.payload
    ensures !NoCollision(facts + {atom})
  {
    assert Raw(atom.sha256) in RawHashes(facts);
    var f :| f in facts && Raw(f.sha256) == Raw(atom.sha256);
    RawOfValid(f.sha256);
    RawOfValid(atom.sha256);
    assert f in facts + {atom} && atom in facts + {atom} && f.sha256 == atom.sha256 && f != atom;
  }

  lemma {:induction false} IndexOne(members: map<Bytes, Bytes>, facts: set<CanonicalFact>, atom: CanonicalFact)
    requires PayloadsByHash(members, facts)
    requires Raw(atom.sha256) in members ==> members[Raw(atom.sha256)] == atom.payload
    ensures PayloadsByHash(members[Raw(atom.sha256) := atom.payload], facts + {atom})
  {
    assert RawHashes(facts + {atom}) == RawHashes(facts) + {Raw(atom.sha256)};
  }

  /** Validates and indexes the atoms; fails exactly on a fact that is not a valid V5 atom or on two
      payloads under one hash. */
  method IndexAtoms(h: HashFunction, atoms: seq<CanonicalFact>) returns (r: Option<map<Bytes, Bytes>>)
    ensures r.Some? <==> (forall f :: f in atoms ==> IsAtom(h, f)) && NoCollision(Elements(atoms))
    ensures r.Some? ==> Indexed(h, r.value, Elements(atoms))
  {
    var members: map<Bytes, Bytes> := map[];
    for index := 0 to |atoms|
      invariant Indexed(h, members, Elements(atoms[..index]))
    {
      var atom := atoms[index];
      assert atom in atoms;
      if atom.profile != PROFILE_V5 || atom.kind != KindName(PredicateAtom) { return None; }
      var valid := ValidateFact(h, atom);
      if !valid { return None; }
      ghost var facts := Elements(atoms[..index]);
      assert Elements(atoms[..index + 1]) == facts + {atom} by {
        assert atoms[..index + 1] == atoms[..index] + [atom];
        ElementsSnoc(atoms[..index], atom);
      }
      if Raw(atom.sha256) in members && members[Raw(atom.sha256)] != atom.payload {
        CollisionFound(h, members, facts, atom);
        assert facts + {atom} <= Elements(atoms);
        return None;
      }
      IndexOne(members, facts, atom);
      members := members[Raw(atom.sha256) := atom.payload];
    }
    assert atoms[..|atoms|] == atoms;
    IndexedHasNoCollision(h, members, Elements(atoms));
    return Some(members);
  }

  /** The keys in any order, sorted in place: the set's listing. */
  method OrderedKeys(keys: set<Bytes>) returns (ordered: seq<Bytes>)
    ensures ordered == Listing(keys)
  {
    var unsorted := AnyOrder(keys);
    var slice := new Bytes[|unsorted|](i requires 0 <= i < |unsorted| => unsorted[i]);
    assert slice[..] == unsorted;
    SortOracleHashes(slice);
    ordered := slice[..];
    SortedKeysAreListing(unsorted);
  }

  method HashV5PredicateSet(h: HashFunction, atoms: seq<CanonicalFact>) returns (r: Option<Bytes>)
    ensures r == if (forall f :: f in atoms ==> IsAtom(h, f)) && NoCollision(Elements(atoms))
                 then Some(PredicateDigest(h, RawHashes(Elements(atoms)))) else None
  {
    var members := IndexAtoms(h, atoms);
    if members.None? { return None; }
    var ordered := OrderedKeys(members.value.Keys);
    var stream := WriteRaws(SET_DOMAIN + U64(|ordered|), ordered);
    return Some(HexEncode(h(stream)));
  }

  method WriteRaws(prefix: Bytes, ordered: seq<Bytes>) returns (stream: Bytes)
    ensures stream == prefix + Concat(ordered)
  {
    stream := prefix;
    for i := 0 to |ordered|
      invariant stream == prefix + Concat(ordered[..i])
    {
      ConcatSnoc(prefix, ordered, i);
      stream := stream + ordered[i];
    }
    assert ordered[..|ordered|] == ordered;
  }

  lemma {:induction false} ConcatSnoc(prefix: Bytes, s: seq<Bytes>, i: nat)
    requires i < |s|
    ensures prefix + Concat(s[..i]) + s[i] == prefix + Concat(s[..i + 1])
  {
    assert s[..i + 1] == s[..i] + [s[i]];
    ConcatAppend(s[..i], s[i]);
    Assoc(prefix, Concat(s[..i]), s[i]);
  }

  lemma {:induction false} ConcatAppend(s: seq<Bytes>, x: Bytes)
    ensures Concat(s + [x]) == Concat(s) + x
  {
    if s == [] {
      assert Concat([x]) == x + Concat([x][1..]);
    } else {
      ConcatAppend(s[1..], x);
      assert (s + [x])[1..] == s[1..] + [x] && (s + [x])[0] == s[0];
      Assoc(s[0], Concat(s[1..]), x);
    }
  }

  // ---------- BuildV5OutcomeVector ----------

  datatype Query = Query(
    atoms: seq<Input>, normalFormVersion: Bytes, normalForm: Bytes, result: Bytes, visibleRows: int, context: Bytes)

  datatype Vector = Vector(
    atoms: seq<CanonicalFact>, composite: CanonicalFact, predicateSet: Bytes, members: seq<Bytes>, outcomeSet: Bytes)

  /** An atom without a context of its own takes the query's. */
  ghost function Bound(context: Bytes, atom: Input): Input {
    if atom.AtomInput? && atom.context == [] then atom.(context := context) else atom
  }

  ghost function BoundFact(h: HashFunction, context: Bytes): Input -> CanonicalFact {
    atom => FactOf(h, Bound(context, atom))
  }

  ghost predicate AtomOk(ok: ValueCheck, context: Bytes, atom: Input)
    requires atom.AtomInput?
  {
    Bound(context, atom).context == context && Accepted(ok, Bound(context, atom))
  }

  ghost predicate OnlyAtoms(atoms: seq<Input>) {
    forall i :: 0 <= i < |atoms| ==> atoms[i].AtomInput?
  }

  ghost function FactSet(h: HashFunction, context: Bytes, atoms: seq<Input>): set<CanonicalFact> {
    Image(BoundFact(h, context), atoms)
  }

  ghost predicate AtomsOk(h: HashFunction, ok: ValueCheck, context: Bytes, atoms: seq<Input>)
    requires OnlyAtoms(atoms)
  {
    EachOk(ok, context, atoms) && NoCollision(FactSet(h, context, atoms))
  }

  ghost predicate EachOk(ok: ValueCheck, context: Bytes, atoms: seq<Input>)
    requires OnlyAtoms(atoms)
  {
    atoms == [] || (EachOk(ok, context, atoms[..|atoms| - 1]) && AtomOk(ok, context, atoms[|atoms| - 1]))
  }

  lemma {:induction false} EachOkAt(ok: ValueCheck, context: Bytes, atoms: seq<Input>, i: nat)
    requires OnlyAtoms(atoms) && i < |atoms| && EachOk(ok, context, atoms)
    ensures AtomOk(ok, context, atoms[i])
  {
    var n := |atoms| - 1;
    if i < n {
      assert atoms[..n][i] == atoms[i];
      EachOkAt(ok, context, atoms[..n], i);
    }
  }

  lemma {:induction false} EachOkFrom(ok: ValueCheck, context: Bytes, atoms: seq<Input>)
    requires OnlyAtoms(atoms) && forall i :: 0 <= i < |atoms| ==> AtomOk(ok, context, atoms[i])
    ensures EachOk(ok, context, atoms)
  {
    if atoms != [] {
      var shorter := atoms[..|atoms| - 1];
      assert forall i :: 0 <= i < |shorter| ==> shorter[i] == atoms[i];
      EachOkFrom(ok, context, shorter);
    }
  }

  ghost function CompositeOf(q: Query, predicateSet: Bytes, count: int): Input {
    CompositeInput(q.normalFormVersion, q.normalForm, q.result, q.visibleRows, [], q.context, predicateSet, count)
  }

  ghost function ByHash(facts: set<CanonicalFact>, hash: Bytes): (f: CanonicalFact)
    requires hash in Hashes(facts)
    ensures f in facts && f.sha256 == hash
  {
    var f :| f in facts && f.sha256 == hash;
    f
  }

  ghost function AtomsByHash(facts: set<CanonicalFact>, hashes: seq<Bytes>): seq<CanonicalFact>
    requires forall i :: 0 <= i < |hashes| ==> hashes[i] in Hashes(facts)
  {
    seq(|hashes|, i requires 0 <= i < |hashes| => ByHash(facts, hashes[i]))
  }

  /** The vector of a set of atom facts: everything in it is determined by the set. */
  ghost function VectorOf(h: HashFunction, q: Query, facts: set<CanonicalFact>): Vector {
    var hashes := Listing(Hashes(facts));
    var predicateSet := PredicateDigest(h, RawHashes(facts));
    var composite := FactOf(h, CompositeOf(q, predicateSet, |facts|));
    var members: seq<Bytes> := Sort(Leq, hashes + [composite.sha256]);
    assert forall i :: 0 <= i < |hashes| ==> hashes[i] in Elements(hashes);
    Vector(AtomsByHash(facts, hashes), composite, predicateSet, members,
           SetAlgebra.DigestSetRole(h, SetAlgebra.CANDIDATE, Listing(Elements(members))))
  }

  ghost predicate QueryOk(h: HashFunction, ok: ValueCheck, q: Query)
    requires OnlyAtoms(q.atoms)
  {
    ValidSha256(q.context) && AtomsOk(h, ok, q.context, q.atoms) && CompositeOk(q)
  }

  // ---------- permuted and repeated atoms ----------

  ghost predicate SameAtom(context: Bytes, a: Input, b: Input)
    requires a.AtomInput? && b.AtomInput?
  {
    SameFact(Bound(context, a), Bound(context, b))
  }

  /** Each atom of one list states the same fact as some atom of the other, once contexts are bound. */
  ghost predicate Covered(context: Bytes, a: seq<Input>, b: seq<Input>)
    requires OnlyAtoms(a) && OnlyAtoms(b)
  {
    forall i :: 0 <= i < |a| ==> HasSame(context, a[i], b)
  }

  ghost predicate HasSame(context: Bytes, x: Input, b: seq<Input>)
    requires x.AtomInput? && OnlyAtoms(b)
  {
    exists j :: 0 <= j < |b| && SameAtom(context, x, b[j])
  }

  lemma {:induction false} SameAtomSameBuild(h: HashFunction, ok: ValueCheck, context: Bytes, a: Input, b: Input)
    requires a.AtomInput? && b.AtomInput? && SameAtom(context, a, b)
    ensures FactOf(h, Bound(context, a)) == FactOf(h, Bound(context, b))
    ensures AtomOk(ok, context, a) <==> AtomOk(ok, context, b)
  {
    SameFactIffSameNormal(Bound(context, a), Bound(context, b));
  }

  lemma {:induction false} CoveredFacts(h: HashFunction, context: Bytes, a: seq<Input>, b: seq<Input>)
    requires OnlyAtoms(a) && OnlyAtoms(b) && Covered(context, a, b)
    ensures FactSet(h, context, a) <= FactSet(h, context, b)
  {
    forall i | 0 <= i < |a| ensures FactOf(h, Bound(context, a[i])) in FactSet(h, context, b) {
      assert HasSame(context, a[i], b);
      var j :| 0 <= j < |b| && SameAtom(context, a[i], b[j]);
      SameAtomSameBuild(h, (_, _) => true, context, a[i], b[j]);
    }
  }

  lemma {:induction false} CoveredAccepted(
    h: HashFunction, ok: ValueCheck, context: Bytes, a: seq<Input>, b: seq<Input>)
    requires OnlyAtoms(a) && OnlyAtoms(b) && Covered(context, a, b)
    ensures EachOk(ok, context, b) ==> EachOk(ok, context, a)
  {
    if EachOk(ok, context, b) {
      forall i | 0 <= i < |a| ensures AtomOk(ok, context, a[i]) {
        assert HasSame(context, a[i], b);
        var j :| 0 <= j < |b| && SameAtom(context, a[i], b[j]);
        EachOkAt(ok, context, b, j);
        SameAtomSameBuild(h, ok, context, a[i], b[j]);
      }
      EachOkFrom(ok, context, a);
    }
  }

  lemma {:induction false} SameFactSet(h: HashFunction, context: Bytes, a: seq<Input>, b: seq<Input>)
    requires OnlyAtoms(a) && OnlyAtoms(b) && Covered(context, a, b) && Covered(context, b, a)
    ensures FactSet(h, context, a) == FactSet(h, context, b)
  {
    CoveredFacts(h, context, a, b);
    CoveredFacts(h, context, b, a);
  }

  lemma {:induction false} SameAtomsOk(h: HashFunction, ok: ValueCheck, context: Bytes, a: seq<Input>, b: seq<Input>)
    requires OnlyAtoms(a) && OnlyAtoms(b) && Covered(context, a, b) && Covered(context, b, a)
    ensures FactSet(h, context, a) == FactSet(h, context, b)
    ensures AtomsOk(h, ok, context, a) == AtomsOk(h, ok, context, b)
  {
    SameFactSet(h, context, a, b);
    CoveredAccepted(h, ok, context, b, a);
    CoveredAccepted(h, ok, context, a, b);
  }

  /** Permuting or duplicating atoms, naming the context or leaving it out, spelling the default
      version or leaving it out: acceptance and the whole vector stay the same. */
  lemma {:induction false} VectorIgnoresOrderAndRepetition(h: HashFunction, ok: ValueCheck, p: Query, atoms: seq<Input>)
    requires OnlyAtoms(p.atoms) && OnlyAtoms(atoms)
    requires Covered(p.context, p.atoms, atoms) && Covered(p.context, atoms, p.atoms)
    ensures Outcome(h, ok, p) == Outcome(h, ok, p.(atoms := atoms))
  {
    SameAtomsOk(h, ok, p.context, p.atoms, atoms);
  }

  ghost function Outcome(h: HashFunction, ok: ValueCheck, q: Query): Option<Vector>
    requires OnlyAtoms(q.atoms)
  {
    if QueryOk(h, ok, q) then Some(VectorOf(h, q, FactSet(h, q.context, q.atoms))) else None
  }

  lemma {:induction false} SameElementsCover(context: Bytes, a: seq<Input>, b: seq<Input>)
    requires OnlyAtoms(a) && OnlyAtoms(b) && Elements(a) <= Elements(b)
    ensures Covered(context, a, b)
  {
    forall i | 0 <= i < |a| ensures HasSame(context, a[i], b) {
      assert a[i] in Elements(a) && a[i] in Elements(b);
      var j :| 0 <= j < |b| && b[j] == a[i];
      SameFactReflexive(Bound(context, a[i]));
      assert SameAtom(context, a[i], b[j]);
    }
  }

  lemma {:induction false} SameFactReflexive(a: Input)
    ensures SameFact(a, a)
  {
    SameFactIffSameNormal(a, a);
  }

  /** In particular for lists with the same elements. */
  lemma {:induction false} PermutedOrRepeated(h: HashFunction, ok: ValueCheck, p: Query, atoms: seq<Input>)
    requires OnlyAtoms(p.atoms) && OnlyAtoms(atoms) && Elements(p.atoms) == Elements(atoms)
    ensures Outcome(h, ok, p) == Outcome(h, ok, p.(atoms := atoms))
  {
    SameElementsCover(p.context, p.atoms, atoms);
    SameElementsCover(p.context, atoms, p.atoms);
    VectorIgnoresOrderAndRepetition(h, ok, p, atoms);
  }

  // ---------- what the composite binds ----------

  /** The tuples the atoms stand for. */
  ghost function Tuples(context: Bytes, atoms: seq<Input>): set<Input>
    requires OnlyAtoms(atoms)
  {
    set i | 0 <= i < |atoms| :: Normal(Bound(context, atoms[i]))
  }

  lemma {:induction false} FactOfNormal(h: HashFunction, a: Input)
    requires a.AtomInput?
    ensures Normal(Normal(a)) == Normal(a) && FactOf(h, Normal(a)) == FactOf(h, a)
  {
  }

  ghost function FactFn(h: HashFunction): Input -> CanonicalFact {
    input => FactOf(h, input)
  }

  /** There are as many atom facts as distinct atom tuples; no assumption about the hash is needed, because the
      payload is part of the fact. */
  lemma {:induction false} AtomFactsCountTuples(h: HashFunction, context: Bytes, atoms: seq<Input>)
    requires OnlyAtoms(atoms)
    requires forall i :: 0 <= i < |atoms| ==> Representable(Bound(context, atoms[i]))
    ensures |FactSet(h, context, atoms)| == |Tuples(context, atoms)|
  {
    var bound := seq(|atoms|, i requires 0 <= i < |atoms| => Bound(context, atoms[i]));
    assert forall i :: 0 <= i < |atoms| ==> bound[i] == Bound(context, atoms[i]);
    FactsOfTuples(h, bound);
    ImageSize(FactFn(h), NormalSet(bound), FactsOf(h, bound));
    assert FactsOf(h, bound) == FactSet(h, context, atoms);
    assert NormalSet(bound) == Tuples(context, atoms);
  }

  ghost function NormalSet(inputs: seq<Input>): set<Input> {
    set i | 0 <= i < |inputs| :: Normal(inputs[i])
  }

  ghost function FactsOf(h: HashFunction, inputs: seq<Input>): set<CanonicalFact> {
    set i | 0 <= i < |inputs| :: FactOf(h, inputs[i])
  }

  lemma {:induction false} FactsOfTuples(h: HashFunction, inputs: seq<Input>)
    requires OnlyAtoms(inputs) && forall i :: 0 <= i < |inputs| ==> Representable(inputs[i])
    ensures FactsOf(h, inputs) == set t | t in NormalSet(inputs) :: FactOf(h, t)
    ensures forall s, t :: s in NormalSet(inputs) && t in NormalSet(inputs) && FactOf(h, s) == FactOf(h, t) ==> s == t
  {
    forall i | 0 <= i < |inputs| ensures FactOf(h, Normal(inputs[i])) == FactOf(h, inputs[i]) {
      FactOfNormal(h, inputs[i]);
    }
    forall s, t | s in NormalSet(inputs) && t in NormalSet(inputs) && FactOf(h, s) == FactOf(h, t) ensures s == t {
      var i :| 0 <= i < |inputs| && s == Normal(inputs[i]);
      var j :| 0 <= j < |inputs| && t == Normal(inputs[j]);
      TuplesApart(h, inputs[i], inputs[j]);
    }
    ImageOfTuples(h, inputs);
  }

  lemma {:induction false} ImageOfTuples(h: HashFunction, inputs: seq<Input>)
    requires forall i :: 0 <= i < |inputs| ==> FactOf(h, Normal(inputs[i])) == FactOf(h, inputs[i])
    ensures FactsOf(h, inputs) == set t | t in NormalSet(inputs) :: FactOf(h, t)
  {
    var image := set t | t in NormalSet(inputs) :: FactOf(h, t);
    forall i | 0 <= i < |inputs| ensures FactOf(h, inputs[i]) in image {
      assert Normal(inputs[i]) in NormalSet(inputs);
    }
  }

  lemma {:induction false} TuplesApart(h: HashFunction, a: Input, b: Input)
    requires a.AtomInput? && b.AtomInput? && Representable(a) && Representable(b)
    requires FactOf(h, Normal(a)) == FactOf(h, Normal(b))
    ensures Normal(a) == Normal(b)
  {
    FactOfNormal(h, a);
    FactOfNormal(h, b);
    assert Payload(a) == Payload(b);
    PayloadIdentifiesFact(a, b);
    SameFactIffSameNormal(a, b);
  }

  // ---------- what the vector says ----------

  /** The tuple an accepted atom states: its own fields, the query's context and the one version. */
  ghost function AtomTuple(q: Query, atom: Input): Input
    requires atom.AtomInput?
  {
    atom.(context := q.context, atomizer := PREDICATE_PROFILE)
  }

  ghost function AtomTuples(q: Query): set<Input>
    requires OnlyAtoms(q.atoms)
  {
    set i | 0 <= i < |q.atoms| :: AtomTuple(q, q.atoms[i])
  }

  /** An accepted atom names the query's context or none, and the known version or none. */
  ghost predicate Names(q: Query, atom: Input)
    requires atom.AtomInput?
  {
    (atom.context == [] || atom.context == q.context) && (atom.atomizer == [] || atom.atomizer == PREDICATE_PROFILE)
  }

  lemma {:induction false} AcceptedAtom(h: HashFunction, ok: ValueCheck, q: Query, i: nat)
    requires OnlyAtoms(q.atoms) && QueryOk(h, ok, q) && i < |q.atoms|
    ensures Names(q, q.atoms[i]) && Normal(Bound(q.context, q.atoms[i])) == AtomTuple(q, q.atoms[i])
    ensures FactOf(h, Bound(q.context, q.atoms[i])) == FactOf(h, AtomTuple(q, q.atoms[i]))
  {
    EachOkAt(ok, q.context, q.atoms, i);
    FactOfNormal(h, Bound(q.context, q.atoms[i]));
  }

  /** Each fact once, upwards by hash. */
  ghost predicate ListsAtoms(atoms: seq<CanonicalFact>, facts: set<CanonicalFact>) {
    && Elements(atoms) == facts && |atoms| == |facts|
    && forall i, j :: 0 <= i < j < |atoms| ==> Less(atoms[i].sha256, atoms[j].sha256)
  }

  lemma {:induction false} ListedAtoms(facts: set<CanonicalFact>, hashes: seq<Bytes>)
    requires NoCollision(facts) && Elements(hashes) == Hashes(facts) && Ascending(hashes)
    requires forall i :: 0 <= i < |hashes| ==> hashes[i] in Hashes(facts)
    ensures ListsAtoms(AtomsByHash(facts, hashes), facts)
  {
    var atoms := AtomsByHash(facts, hashes);
    AllAtomsListed(facts, hashes, atoms);
    DistinctSize(atoms);
  }

  lemma {:induction false} VectorListsAtoms(h: HashFunction, q: Query, facts: set<CanonicalFact>)
    requires NoCollision(facts)
    ensures ListsAtoms(VectorOf(h, q, facts).atoms, facts)
  {
    var hashes := Listing(Hashes(facts));
    assert forall i :: 0 <= i < |hashes| ==> hashes[i] in Elements(hashes);
    ListedAtoms(facts, hashes);
  }

  /** The atoms of a vector are the facts of the query's atom tuples, each once, upwards by hash. */
  lemma {:induction false} VectorAtoms(h: HashFunction, ok: ValueCheck, q: Query)
    requires OnlyAtoms(q.atoms) && Outcome(h, ok, q).Some?
    ensures forall i :: 0 <= i < |q.atoms| ==> Names(q, q.atoms[i])
    ensures ListsAtoms(Outcome(h, ok, q).value.atoms, set t | t in AtomTuples(q) :: FactOf(h, t))
  {
    var facts := FactSet(h, q.context, q.atoms);
    forall i | 0 <= i < |q.atoms|
      ensures Names(q, q.atoms[i])
      ensures FactOf(h, Bound(q.context, q.atoms[i])) == FactOf(h, AtomTuple(q, q.atoms[i]))
    {
      AcceptedAtom(h, ok, q, i);
    }
    FactsOfAtomTuples(h, q, facts);
    VectorListsAtoms(h, q, facts);
  }

  lemma {:induction false} FactsOfAtomTuples(h: HashFunction, q: Query, facts: set<CanonicalFact>)
    requires OnlyAtoms(q.atoms) && facts == FactSet(h, q.context, q.atoms)
    requires forall i :: 0 <= i < |q.atoms| ==>
               FactOf(h, Bound(q.context, q.atoms[i])) == FactOf(h, AtomTuple(q, q.atoms[i]))
    ensures facts == set t | t in AtomTuples(q) :: FactOf(h, t)
  {
    var image := set t | t in AtomTuples(q) :: FactOf(h, t);
    forall i | 0 <= i < |q.atoms| ensures BoundFact(h, q.context)(q.atoms[i]) in image {
      assert AtomTuple(q, q.atoms[i]) in AtomTuples(q);
    }
    forall t | t in AtomTuples(q) ensures FactOf(h, t) in facts {
      var i :| 0 <= i < |q.atoms| && t == AtomTuple(q, q.atoms[i]);
      assert BoundFact(h, q.context)(q.atoms[i]) in facts;
    }
  }

  /** The fact is a composite stating the query's own fields, this predicate set and this many atoms. */
  ghost predicate StatesComposite(h: HashFunction, q: Query, v: Vector, c: Input) {
    && c.CompositeInput? && v.composite == FactOf(h, c)
    && c.normalFormVersion == q.normalFormVersion && c.normalForm == q.normalForm && c.result == q.result
    && c.visibleRows == q.visibleRows && c.outcomeContext == q.context && Defaulted(c.profile) == PREDICATE_PROFILE
    && c.predicateSet == v.predicateSet && c.atomCount == |v.atoms|
  }

  lemma {:induction false} VectorStates(h: HashFunction, q: Query, facts: set<CanonicalFact>)
    requires NoCollision(facts)
    ensures var v := VectorOf(h, q, facts); StatesComposite(h, q, v, CompositeOf(q, v.predicateSet, |facts|))
  {
    VectorListsAtoms(h, q, facts);
  }

  lemma {:induction false} TuplesOfAtoms(h: HashFunction, ok: ValueCheck, q: Query)
    requires OnlyAtoms(q.atoms) && QueryOk(h, ok, q)
    ensures Tuples(q.context, q.atoms) == AtomTuples(q)
  {
    forall i | 0 <= i < |q.atoms| ensures Normal(Bound(q.context, q.atoms[i])) == AtomTuple(q, q.atoms[i]) {
      AcceptedAtom(h, ok, q, i);
    }
  }

  /** The composite of a vector states the query's fields, the vector's predicate set and the number of
      distinct atom tuples. */
  lemma {:induction false} VectorComposite(h: HashFunction, ok: ValueCheck, q: Query)
    requires OnlyAtoms(q.atoms) && Outcome(h, ok, q).Some?
    ensures exists c :: StatesComposite(h, q, Outcome(h, ok, q).value, c)
    ensures (forall i :: 0 <= i < |q.atoms| ==> Representable(Bound(q.context, q.atoms[i]))) ==>
              |Outcome(h, ok, q).value.atoms| == |AtomTuples(q)|
  {
    var facts := FactSet(h, q.context, q.atoms);
    VectorStates(h, q, facts);
    VectorListsAtoms(h, q, facts);
    TuplesOfAtoms(h, ok, q);
    if forall i :: 0 <= i < |q.atoms| ==> Representable(Bound(q.context, q.atoms[i])) {
      AtomFactsCountTuples(h, q.context, q.atoms);
    }
  }

  /** The hashes in ascending order, the candidate role's digest of their set, and the digest of the
      atoms' raw hashes. */
  ghost predicate CommitsHashes(h: HashFunction, v: Vector, hashes: set<Bytes>, raws: set<Bytes>) {
    var all := hashes + {v.composite.sha256};
    && SortedBy(Leq, v.members) && Elements(v.members) == all && |v.members| == |hashes| + 1
    && v.outcomeSet == SetAlgebra.Identify(h, SetAlgebra.CANDIDATE, all).sha256
    && v.predicateSet == HexEncode(h(SET_DOMAIN + U64(|raws|) + Concat(Listing(raws))))
  }

  lemma {:induction false} VectorCommits(h: HashFunction, q: Query, facts: set<CanonicalFact>)
    ensures CommitsHashes(h, VectorOf(h, q, facts), Hashes(facts), RawHashes(facts))
  {
    SortedWithLast(Listing(Hashes(facts)), VectorOf(h, q, facts).composite.sha256);
  }

  lemma {:induction false} SortedWithLast(hashes: seq<Bytes>, last: Bytes)
    ensures var members := Sort(Leq, hashes + [last]);
            SortedBy(Leq, members) && Elements(members) == Elements(hashes) + {last} && |members| == |hashes| + 1
  {
    BytesTotalOrder();
    SortIsSortedPermutation(Leq, hashes + [last]);
    SameElements(Sort(Leq, hashes + [last]), hashes + [last]);
    ElementsSnoc(hashes, last);
  }

  lemma {:induction false} SameElements(a: seq<Bytes>, b: seq<Bytes>)
    requires multiset(a) == multiset(b)
    ensures Elements(a) == Elements(b)
  {
    assert forall x :: x in a <==> x in multiset(a);
    assert forall x :: x in b <==> x in multiset(b);
  }

  /** The members of a vector are the hashes of its atoms and of its composite; predicate set and outcome
      set commit to the first and to all of them. */
  lemma {:induction false} VectorMembers(h: HashFunction, ok: ValueCheck, q: Query)
    requires OnlyAtoms(q.atoms) && Outcome(h, ok, q).Some?
    ensures var v := Outcome(h, ok, q).value;
            var atoms := Elements(v.atoms);
            CommitsHashes(h, v, (set f | f in atoms :: f.sha256), (set f | f in atoms :: Raw(f.sha256)))
  {
    var facts := FactSet(h, q.context, q.atoms);
    VectorListsAtoms(h, q, facts);
    VectorCommits(h, q, facts);
  }

  // ---------- the builder ----------

  ghost predicate CollectedBy(byHash: map<Bytes, CanonicalFact>, facts: set<CanonicalFact>) {
    byHash.Keys == Hashes(facts) && forall f :: f in facts ==> byHash[f.sha256] == f
  }

  lemma {:induction false} CollectOne(byHash: map<Bytes, CanonicalFact>, facts: set<CanonicalFact>, atom: CanonicalFact)
    requires CollectedBy(byHash, facts)
    requires atom.sha256 in byHash ==> byHash[atom.sha256] == atom
    ensures CollectedBy(byHash[atom.sha256 := atom], facts + {atom})
  {
    assert Hashes(facts + {atom}) == Hashes(facts) + {atom.sha256};
  }

  lemma {:induction false} CollectedHasNoCollision(byHash: map<Bytes, CanonicalFact>, facts: set<CanonicalFact>)
    requires CollectedBy(byHash, facts)
    ensures NoCollision(facts) && |facts| == |byHash|
  {
    ImageSize((f: CanonicalFact) => f.sha256, facts, Hashes(facts));
    assert |byHash| == |byHash.Keys|;
  }

  lemma {:induction false} CollectCollision(
    byHash: map<Bytes, CanonicalFact>, facts: set<CanonicalFact>, atom: CanonicalFact)
    requires CollectedBy(byHash, facts)
    requires atom.sha256 in byHash && byHash[atom.sha256].payload != atom.payload
    ensures !NoCollision(facts + {atom})
  {
    assert atom.sha256 in Hashes(facts);
    var f :| f in facts && f.sha256 == atom.sha256;
    assert f in facts + {atom} && atom in facts + {atom};
  }

  lemma {:induction false} FactSetSnoc(h: HashFunction, context: Bytes, atoms: seq<Input>, n: nat)
    requires n < |atoms|
    ensures FactSet(h, context, atoms[..n + 1]) == FactSet(h, context, atoms[..n]) + {BoundFact(h, context)(atoms[n])}
    ensures FactSet(h, context, atoms[..n + 1]) <= FactSet(h, context, atoms)
  {
    ImagePrefix(BoundFact(h, context), atoms, n);
  }

  /** One atom of the loop: fails exactly when its hash is taken by another payload. */
  method AddAtom(byHash: map<Bytes, CanonicalFact>, atom: CanonicalFact, ghost facts: set<CanonicalFact>)
    returns (r: Option<map<Bytes, CanonicalFact>>)
    requires CollectedBy(byHash, facts)
    requires forall f :: f in facts && f.payload == atom.payload ==> f == atom
    ensures r.Some? <==> NoCollision(facts + {atom})
    ensures r.Some? ==> CollectedBy(r.value, facts + {atom})
  {
    if atom.sha256 in byHash && byHash[atom.sha256].payload != atom.payload {
      CollectCollision(byHash, facts, atom);
      return None;
    }
    assert atom.sha256 in byHash ==> atom.sha256 in Hashes(facts);
    CollectOne(byHash, facts, atom);
    CollectedHasNoCollision(byHash[atom.sha256 := atom], facts + {atom});
    return Some(byHash[atom.sha256 := atom]);
  }

  /** The body of the loop over the input atoms. */
  method CollectNext(
    h: HashFunction, ok: ValueCheck, context: Bytes, atoms: seq<Input>, n: nat, byHash: map<Bytes, CanonicalFact>)
    returns (r: Option<map<Bytes, CanonicalFact>>)
    requires OnlyAtoms(atoms) && n < |atoms|
    requires CollectedBy(byHash, FactSet(h, context, atoms[..n])) && EachOk(ok, context, atoms[..n])
    ensures r.Some? <==> EachOk(ok, context, atoms[..n + 1]) && NoCollision(FactSet(h, context, atoms[..n + 1]))
    ensures r.Some? ==> CollectedBy(r.value, FactSet(h, context, atoms[..n + 1]))
  {
    FactSetSnoc(h, context, atoms, n);
    EachOkSnoc(ok, context, atoms, n);
    var atom := BuildBound(h, ok, context, atoms[n]);
    if atom.None? { return None; }
    PayloadNamesFact(h, context, atoms[..n], atoms[n]);
    r := AddAtom(byHash, atom.value, FactSet(h, context, atoms[..n]));
  }

  method CollectAtoms(h: HashFunction, ok: ValueCheck, context: Bytes, atoms: seq<Input>)
    returns (r: Option<map<Bytes, CanonicalFact>>)
    requires OnlyAtoms(atoms)
    ensures r.Some? <==> AtomsOk(h, ok, context, atoms)
    ensures r.Some? ==> CollectedBy(r.value, FactSet(h, context, atoms))
  {
    var byHash: map<Bytes, CanonicalFact> := map[];
    for index := 0 to |atoms|
      invariant CollectedBy(byHash, FactSet(h, context, atoms[..index])) && EachOk(ok, context, atoms[..index])
      invariant NoCollision(FactSet(h, context, atoms[..index]))
    {
      AtomsOkPrefix(h, ok, context, atoms, index);
      var next := CollectNext(h, ok, context, atoms, index, byHash);
      if next.None? { return None; }
      byHash := next.value;
    }
    assert atoms[..|atoms|] == atoms;
    return Some(byHash);
  }

  lemma {:induction false} AtomsOkPrefix(h: HashFunction, ok: ValueCheck, context: Bytes, atoms: seq<Input>, n: nat)
    requires OnlyAtoms(atoms) && n < |atoms|
    ensures AtomsOk(h, ok, context, atoms)
            ==> EachOk(ok, context, atoms[..n + 1]) && NoCollision(FactSet(h, context, atoms[..n + 1]))
  {
    FactSetSnoc(h, context, atoms, n);
    EachOkSnoc(ok, context, atoms, n);
  }

  lemma {:induction false} EachOkSnoc(ok: ValueCheck, context: Bytes, atoms: seq<Input>, n: nat)
    requires OnlyAtoms(atoms) && n < |atoms|
    ensures EachOk(ok, context, atoms[..n + 1]) == (EachOk(ok, context, atoms[..n]) && AtomOk(ok, context, atoms[n]))
    ensures EachOk(ok, context, atoms) ==> EachOk(ok, context, atoms[..n + 1])
  {
    assert atoms[..n + 1][..n] == atoms[..n];
    if EachOk(ok, context, atoms) { EachOkShorter(ok, context, atoms, n + 1); }
  }

  lemma {:induction false} EachOkShorter(ok: ValueCheck, context: Bytes, atoms: seq<Input>, n: nat)
    requires OnlyAtoms(atoms) && n <= |atoms| && EachOk(ok, context, atoms)
    ensures EachOk(ok, context, atoms[..n])
  {
    if n < |atoms| {
      EachOkShorter(ok, context, atoms[..|atoms| - 1], n);
      assert atoms[..|atoms| - 1][..n] == atoms[..n];
    } else {
      assert atoms[..n] == atoms;
    }
  }

  lemma {:induction false} PayloadNamesFact(h: HashFunction, context: Bytes, atoms: seq<Input>, atom: Input)
    requires OnlyAtoms(atoms) && atom.AtomInput?
    ensures forall f :: f in FactSet(h, context, atoms) && f.payload == Payload(Bound(context, atom)) ==>
                          f == FactOf(h, Bound(context, atom))
  {
  }

  method BuildBound(h: HashFunction, ok: ValueCheck, context: Bytes, atom: Input) returns (r: Option<CanonicalFact>)
    requires atom.AtomInput?
    ensures r == if AtomOk(ok, context, atom) then Some(FactOf(h, Bound(context, atom))) else None
  {
    var bound := atom;
    if |bound.context| == 0 { bound := atom.(context := context); }
    if bound.context != context { return None; }
    r := BuildPredicateAtomFact(h, ok, bound);
  }

  lemma {:induction false} SortedFacts(byHash: map<Bytes, CanonicalFact>, facts: set<CanonicalFact>)
    requires CollectedBy(byHash, facts)
    ensures var keys := Listing(Hashes(facts));
            && (forall i :: 0 <= i < |keys| ==> keys[i] in Hashes(facts) && keys[i] in byHash)
            && forall i :: 0 <= i < |keys| ==> byHash[keys[i]] == ByHash(facts, keys[i])
  {
    var keys := Listing(Hashes(facts));
    forall i | 0 <= i < |keys| ensures keys[i] in Hashes(facts) && keys[i] in byHash {
      assert keys[i] in Elements(keys);
    }
    forall i | 0 <= i < |keys| ensures byHash[keys[i]] == ByHash(facts, keys[i]) {
      assert ByHash(facts, keys[i]) in facts;
    }
  }

  /** The map's values sorted by hash: each key once, ascending. */
  method SortedAtoms(
    byHash: map<Bytes, CanonicalFact>, ghost facts: set<CanonicalFact>)
    returns (atoms: seq<CanonicalFact>, hashes: seq<Bytes>)
    requires CollectedBy(byHash, facts)
    ensures hashes == Listing(Hashes(facts)) && |hashes| == |facts| == |atoms|
    ensures (forall i :: 0 <= i < |hashes| ==> hashes[i] in Hashes(facts)) && atoms == AtomsByHash(facts, hashes)
    ensures Elements(atoms) == facts
  {
    hashes := SetAlgebra.SortedSetValues(byHash.Keys);
    SortedFacts(byHash, facts);
    atoms := seq(|hashes|, i requires 0 <= i < |hashes| && hashes[i] in byHash => byHash[hashes[i]]);
    AtomsAreSorted(byHash, facts, hashes, atoms);
  }

  lemma {:induction false} AtomsAreSorted(
    byHash: map<Bytes, CanonicalFact>, facts: set<CanonicalFact>, hashes: seq<Bytes>, atoms: seq<CanonicalFact>)
    requires CollectedBy(byHash, facts) && hashes == Listing(Hashes(facts)) && |atoms| == |hashes|
    requires forall i :: 0 <= i < |hashes| ==> hashes[i] in Hashes(facts) && hashes[i] in byHash
    requires forall i :: 0 <= i < |hashes| ==> atoms[i] == byHash[hashes[i]] == ByHash(facts, hashes[i])
    ensures |hashes| == |facts| && atoms == AtomsByHash(facts, hashes) && Elements(atoms) == facts
  {
    CollectedHasNoCollision(byHash, facts);
    assert |byHash.Keys| == |byHash|;
    AllAtomsListed(facts, hashes, atoms);
  }

  lemma {:induction false} AllAtomsListed(facts: set<CanonicalFact>, hashes: seq<Bytes>, atoms: seq<CanonicalFact>)
    requires NoCollision(facts) && Elements(hashes) == Hashes(facts) && |atoms| == |hashes|
    requires forall i :: 0 <= i < |hashes| ==> hashes[i] in Hashes(facts) && atoms[i] == ByHash(facts, hashes[i])
    ensures Elements(atoms) == facts
  {
    forall f | f in facts ensures f in atoms {
      assert f.sha256 in Elements(hashes);
      var i :| 0 <= i < |hashes| && hashes[i] == f.sha256;
      assert atoms[i] == f;
    }
  }

  lemma {:induction false} BuiltAtoms(h: HashFunction, context: Bytes, atoms: seq<Input>)
    requires OnlyAtoms(atoms)
    ensures forall f :: f in FactSet(h, context, atoms) ==> IsAtom(h, f)
  {
    forall i | 0 <= i < |atoms| ensures IsAtom(h, FactOf(h, Bound(context, atoms[i]))) {
      BuiltFactValidates(h, Bound(context, atoms[i]));
    }
  }

  /** The candidate-role digest of the sorted members, through the bounded-memory summariser. */
  method OutcomeDigest(h: HashFunction, members: seq<Bytes>) returns (r: Option<Bytes>)
    requires SetAlgebra.ValidMembers(members)
    ensures r == Some(SetAlgebra.DigestSetRole(h, SetAlgebra.CANDIDATE, Listing(Elements(members))))
  {
    var buffer := if |members| < 2 then 2 else |members|;
    var role := SetAlgebra.CANDIDATE;
    var s := SetStream.SummarizeSemanticSetRoles(h, [role], members, SetStream.StreamSetOptions(buffer, |members|));
    SetStream.SummaryIdentifiesSet(h, role, members, buffer, |members|);
    assert role in [role] && SetStream.ValidRoles([role]);
    r := if s.Ok? && role in s.value then Some(s.value[role].sha256) else None;
  }

  lemma {:induction false} SortedMembersValid(hashes: seq<Bytes>, last: Bytes)
    requires SetAlgebra.ValidMembers(hashes) && ValidSha256(last)
    ensures SetAlgebra.ValidMembers(Sort(Leq, hashes + [last]))
  {
    var s, t := hashes + [last], Sort(Leq, hashes + [last]);
    BytesTotalOrder();
    SortIsSortedPermutation(Leq, s);
    forall i | 0 <= i < |t| ensures ValidSha256(t[i]) {
      assert t[i] in multiset(t) && t[i] in multiset(s);
      assert t[i] in s;
    }
  }

  ghost predicate CompositeOk(q: Query) {
    Token(q.normalFormVersion) && ValidSha256(q.normalForm) && ValidSha256(q.result) && q.visibleRows >= 0
  }

  lemma {:induction false} CompositeAccepted(ok: ValueCheck, q: Query, predicateSet: Bytes, count: nat)
    requires ValidSha256(q.context) && ValidSha256(predicateSet)
    ensures Accepted(ok, CompositeOf(q, predicateSet, count)) <==> CompositeOk(q)
  {
  }

  lemma {:induction false} ValidHashes(h: HashFunction, facts: set<CanonicalFact>, hashes: seq<Bytes>)
    requires (forall f :: f in facts ==> IsAtom(h, f)) && Elements(hashes) == Hashes(facts)
    ensures SetAlgebra.ValidMembers(hashes)
  {
    forall i | 0 <= i < |hashes| ensures ValidSha256(hashes[i]) {
      assert hashes[i] in Elements(hashes);
      var f :| f in facts && f.sha256 == hashes[i];
      assert IsAtom(h, f);
    }
  }

  /** Composite, members and set digest of the sorted atoms. */
  method FinishVector(
    h: HashFunction, ok: ValueCheck, q: Query, atoms: seq<CanonicalFact>, hashes: seq<Bytes>, predicateSet: Bytes)
    returns (r: Option<Vector>)
    requires SetAlgebra.ValidMembers(hashes) && ValidSha256(q.context) && ValidSha256(predicateSet)
    ensures r.Some? <==> CompositeOk(q)
    ensures r.Some? ==>
              && r.value.composite == FactOf(h, CompositeOf(q, predicateSet, |atoms|))
              && r.value.members == Sort(Leq, hashes + [r.value.composite.sha256])
              && r.value.outcomeSet
                  == SetAlgebra.DigestSetRole(h, SetAlgebra.CANDIDATE, Listing(Elements(r.value.members)))
              && r.value.atoms == atoms && r.value.predicateSet == predicateSet
  {
    CompositeAccepted(ok, q, predicateSet, |atoms|);
    var input := CompositeInput(q.normalFormVersion, q.normalForm, q.result, q.visibleRows, [], q.context, predicateSet,
                                |atoms|);
    var built := BuildCompositeFact(h, ok, input);
    if built.None? { return None; }
    var composite := built.value;
    HashIsValidSha256(h, FactPreimage(CompositeOf(q, predicateSet, |atoms|)));
    SortedMembersValid(hashes, composite.sha256);
    var members: seq<Bytes> := Sort(Leq, hashes + [composite.sha256]);
    var digest := OutcomeDigest(h, members);
    r := match digest
      case Some(d) => Some(Vector(atoms, composite, predicateSet, members, d))
      case None => None;
  }

  method CommitAtoms(
    h: HashFunction, ok: ValueCheck, q: Query, byHash: map<Bytes, CanonicalFact>, ghost facts: set<CanonicalFact>)
    returns (r: Option<Vector>)
    requires CollectedBy(byHash, facts) && ValidSha256(q.context) && forall f :: f in facts ==> IsAtom(h, f)
    ensures r == if CompositeOk(q) then Some(VectorOf(h, q, facts)) else None
  {
    var atoms, hashes := SortedAtoms(byHash, facts);
    CollectedHasNoCollision(byHash, facts);
    ValidHashes(h, facts, hashes);
    var predicateSet := HashV5PredicateSet(h, atoms);
    HashIsValidSha256(h, PredicatePreimage(Listing(RawHashes(facts))));
    match predicateSet
    case None => return None;
    case Some(digest) => r := FinishVector(h, ok, q, atoms, hashes, digest);
  }

  method BuildV5OutcomeVector(h: HashFunction, ok: ValueCheck, q: Query) returns (r: Option<Vector>)
    requires OnlyAtoms(q.atoms)
    ensures r == Outcome(h, ok, q)
  {
    if !ValidSha256(q.context) { return None; }
    var byHash := CollectAtoms(h, ok, q.context, q.atoms);
    if byHash.None? { return None; }
    BuiltAtoms(h, q.context, q.atoms);
    r := CommitAtoms(h, ok, q, byHash.value, FactSet(h, q.context, q.atoms));
  }
}
