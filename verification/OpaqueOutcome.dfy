/** The opaque outcome-control sets (evaluation/finalv5oracle/outcome.go, GenerateOpaqueOutcomeSets):
    root members, a walk over them as overlap, and novel members in a disjoint hash domain. */
module OpaqueOutcome {
  import opened GoBytes
  import opened Sorting
  import opened Euclid
  import opened RootWalk
  import opened SetAlgebra
  import opened SetStream

  const MEMBER_DOMAIN: Bytes := Ascii("TASKGATE-FINAL-V5-OPAQUE-OUTCOME-MEMBER-V1") + [0]
  const PERMUTATION_DOMAIN: Bytes := Ascii("TASKGATE-FINAL-V5-OPAQUE-ROOT-PERMUTATION-V1") + [0]

  datatype Kind = Root | Novel

  function KindName(kind: Kind): Bytes {
    match kind
    case Root => Ascii("root")
    case Novel => Ascii("novel")
  }

  function MemberPreimage(kind: Kind, seed: int, sample: int, index: int): Bytes {
    MEMBER_DOMAIN + (Framed(KindName(kind)) + U64(seed) + (U64(sample) + U64(index)))
  }

  function Member(h: HashFunction, preimage: Bytes): Bytes {
    HexEncode(h(preimage))
  }

  /** The preimage is the domain, the framed kind and the three words seed, sample and index. */
  ghost predicate Reads(preimage: Bytes, kind: Bytes, seed: int, sample: int, index: int) {
    && MEMBER_DOMAIN <= preimage
    && match ReadFramed(preimage[|MEMBER_DOMAIN|..])
       case None => false
       case Some((name, words)) =>
         && name == kind && |words| == 24
         && Word(words, 0) == seed % TWO64 && Word(words, 1) == sample % TWO64 && Word(words, 2) == index % TWO64
  }

  lemma {:induction false} MemberPreimageReads(kind: Kind, seed: int, sample: int, index: int)
    ensures Reads(MemberPreimage(kind, seed, sample, index), if kind == Root then Ascii("root") else Ascii("novel"),
                  seed, sample, index)
  {
    var words := U64(sample) + U64(index);
    var body := Framed(KindName(kind)) + U64(seed) + words;
    assert (MEMBER_DOMAIN + body)[|MEMBER_DOMAIN|..] == body;
    Assoc(Framed(KindName(kind)), U64(seed), words);
    ReadInvertsWrite(KindName(kind), U64(seed) + words);
    ThreeWords(seed, sample, index);
  }

  lemma {:induction false} ThreeWords(a: int, b: int, c: int)
    ensures var s := U64(a) + (U64(b) + U64(c));
            |s| == 24 && Word(s, 0) == a % TWO64 && Word(s, 1) == b % TWO64 && Word(s, 2) == c % TWO64
  {
    var s := U64(a) + (U64(b) + U64(c));
    assert s[0..8] == U64(a) && s[8..16] == U64(b) && s[16..24] == U64(c);
    U64Value(a);
    U64Value(b);
    U64Value(c);
  }

  /** Equal preimages mean the same kind, seed, sample and index. */
  lemma {:induction false} MemberPreimageInjective(
    kind1: Kind, seed1: int64, sample1: int64, i: int64, kind2: Kind, seed2: int64, sample2: int64, j: int64)
    ensures MemberPreimage(kind1, seed1, sample1, i) == MemberPreimage(kind2, seed2, sample2, j) <==>
            kind1 == kind2 && seed1 == seed2 && sample1 == sample2 && i == j
  {
    MemberPreimageReads(kind1, seed1, sample1, i);
    MemberPreimageReads(kind2, seed2, sample2, j);
    assert |Ascii("root")| == 4 && |Ascii("novel")| == 5;
    SameWord(seed1, seed2);
    SameWord(sample1, sample2);
    SameWord(i, j);
  }

  lemma {:induction false} SameWord(v: int64, w: int64)
    ensures v % TWO64 == w % TWO64 <==> v == w
  {
    assert v % TWO64 == if v >= 0 then v as int else v as int + TWO64;
    assert w % TWO64 == if w >= 0 then w as int else w as int + TWO64;
  }

  // ---------- the streams ----------

  datatype Request = Request(
    rootCardinality: int64, candidateCardinality: int64, overlapCardinality: int64,
    sampleIndex: int64, seed: int64, options: StreamSetOptions)

  predicate ValidRequest(q: Request) {
    && q.rootCardinality >= 0 && q.candidateCardinality >= 0 && q.overlapCardinality >= 0
    && q.overlapCardinality <= q.rootCardinality && q.overlapCardinality <= q.candidateCardinality
    && q.sampleIndex >= 1
  }

  /** A request is valid exactly when its sample counts from one and two sets of the requested sizes
      exist at all. */
  lemma {:induction false} ValidRequestExactly(q: Request)
    ensures ValidRequest(q) <==>
            q.sampleIndex >= 1 && exists existing: set<int>, candidate: set<int> :: HaveSizes(q, existing, candidate)
  {
    if ValidRequest(q) {
      var root, shared, size := q.rootCardinality as int, q.overlapCardinality as int, q.candidateCardinality as int;
      var existing, candidate := Interval(0, root), Interval(root - shared, root - shared + size);
      assert candidate * existing == Interval(root - shared, root);
      assert HaveSizes(q, existing, candidate);
    }
    if existing: set<int>, candidate: set<int> :| HaveSizes(q, existing, candidate) {
      assert candidate == candidate * existing + (candidate - existing);
      assert existing == candidate * existing + (existing - candidate);
    }
  }

  ghost predicate HaveSizes(q: Request, existing: set<int>, candidate: set<int>) {
    && |existing| == q.rootCardinality && |candidate| == q.candidateCardinality
    && |candidate * existing| == q.overlapCardinality
  }

  ghost function Interval(first: int, last: int): (r: set<int>)
    requires first <= last
    ensures |r| == last - first && forall x :: x in r <==> first <= x < last
    decreases last - first
  {
    if first == last then {} else Interval(first, last - 1) + {last - 1}
  }

  function RootPreimages(n: nat): (r: seq<Bytes>)
    ensures |r| == n && forall i :: 0 <= i < n ==> r[i] == MemberPreimage(Root, 0, 0, i)
  {
    seq(n, i => MemberPreimage(Root, 0, 0, i))
  }

  function NovelPreimages(q: Request, n: nat): (r: seq<Bytes>)
    ensures |r| == n && forall i :: 0 <= i < n ==> r[i] == MemberPreimage(Novel, q.seed, q.sampleIndex, i)
  {
    seq(n, i => MemberPreimage(Novel, q.seed, q.sampleIndex, i))
  }

  function PositionPreimages(positions: seq<int>): (r: seq<Bytes>)
    ensures |r| == |positions| && forall i :: 0 <= i < |r| ==> r[i] == MemberPreimage(Root, 0, 0, positions[i])
  {
    seq(|positions|, i requires 0 <= i < |positions| => MemberPreimage(Root, 0, 0, positions[i]))
  }

  function Members(h: HashFunction, preimages: seq<Bytes>): (r: seq<Bytes>)
    ensures |r| == |preimages| && forall i :: 0 <= i < |r| ==> r[i] == Member(h, preimages[i])
  {
    seq(|preimages|, i requires 0 <= i < |preimages| => Member(h, preimages[i]))
  }

  /** The start and seed step the permutation hash selects. */
  function PermutationSeed(h: HashFunction, q: Request): (int, int)
    requires q.rootCardinality > 0
  {
    var digest := h(PERMUTATION_DOMAIN + U64(q.seed) + U64(q.sampleIndex));
    (FromBigEndian(digest[..8]) % q.rootCardinality, FromBigEndian(digest[8..16]) % q.rootCardinality)
  }

  /** What the permutation hash of seed and sample selects: the start, and the first step from the seed
      step on that is coprime to the root. */
  ghost predicate Seeded(h: HashFunction, q: Request, start: int, step: int)
    requires q.rootCardinality > 0
  {
    var d := h(PERMUTATION_DOMAIN + U64(q.seed) + U64(q.sampleIndex));
    && start == FromBigEndian(d[..8]) % q.rootCardinality
    && FirstCoprime(q.rootCardinality, FromBigEndian(d[8..16]) % q.rootCardinality, step)
    && 1 <= step <= q.rootCardinality
  }

  /** The positions visited by the seeded walk: in int64 arithmetic for any root, and up to a root of
      2^62 the residues start, start + step, start + 2 * step, ... */
  ghost predicate SeededWalk(h: HashFunction, q: Request, positions: seq<int>)
    requires q.rootCardinality > 0
  {
    exists start, step :: Seeded(h, q, start, step) && Visits(q, start, step, positions)
  }

  ghost predicate Visits(q: Request, start: int, step: int, positions: seq<int>)
    requires q.rootCardinality > 0
  {
    && positions == Walk(start, step, q.rootCardinality, |positions|)
    && (q.rootCardinality <= TWO62 ==>
          forall i :: 0 <= i < |positions| ==> positions[i] == (start + i * step) % q.rootCardinality)
  }

  /** Only one list of a given length is seeded by a request. */
  lemma {:induction false} SeededWalkUnique(h: HashFunction, q: Request, a: seq<int>, b: seq<int>)
    requires q.rootCardinality > 0 && |a| == |b| && SeededWalk(h, q, a) && SeededWalk(h, q, b)
    ensures a == b
  {
    var start, s :| Seeded(h, q, start, s) && Visits(q, start, s, a);
    var origin, t :| Seeded(h, q, origin, t) && Visits(q, origin, t, b);
    var d := h(PERMUTATION_DOMAIN + U64(q.seed) + U64(q.sampleIndex));
    FirstCoprimeUnique(q.rootCardinality, FromBigEndian(d[8..16]) % q.rootCardinality, s, t);
  }

  lemma {:induction false} WalkVisits(q: Request, start: int, step: int, n: nat)
    requires 0 <= start < q.rootCardinality && 1 <= step <= q.rootCardinality
    ensures Visits(q, start, step, Walk(start, step, q.rootCardinality, n))
  {
    if q.rootCardinality <= TWO62 {
      forall i | 0 <= i < n
        ensures Walk(start, step, q.rootCardinality, n)[i] == (start + i * step) % q.rootCardinality
      {
        WalkAt(start, step, q.rootCardinality, n, i);
      }
    }
  }

  method OverlapPositions(h: HashFunction, q: Request) returns (positions: seq<int>)
    requires ValidRequest(q)
    ensures |positions| == q.overlapCardinality
    ensures q.overlapCardinality > 0 ==> SeededWalk(h, q, positions)
    ensures q.rootCardinality <= TWO62 ==>
              Distinct(positions) && forall i :: 0 <= i < |positions| ==> 0 <= positions[i] < q.rootCardinality
  {
    if q.overlapCardinality == 0 { return []; }
    var (start, seedStep) := PermutationSeed(h, q);
    var step := CoprimeStep(q.rootCardinality, seedStep);
    positions := StreamPositions(start, step, q.rootCardinality, q.overlapCardinality);
    WalkVisits(q, start, step, q.overlapCardinality);
    assert Seeded(h, q, start, step);
    if q.rootCardinality <= TWO62 { WalkIsInjective(start, step, q.rootCardinality, q.overlapCardinality); }
  }

  // ---------- distinct preimages give distinct members ----------

  lemma {:induction false} MembersValid(h: HashFunction, preimages: seq<Bytes>)
    ensures ValidMembers(Members(h, preimages))
  {
    forall i | 0 <= i < |preimages| ensures ValidSha256(Members(h, preimages)[i]) {
      ValidSha256Exactly(Member(h, preimages[i]));
      assert exists d: Digest :: Member(h, preimages[i]) == HexEncode(d);
    }
  }

  lemma {:induction false} SameMember(h: HashFunction, a: Bytes, b: Bytes, S: set<Bytes>)
    requires CollisionFree(h, S) && a in S && b in S && Member(h, a) == Member(h, b)
    ensures a == b
  {
    HexRoundTrip(h(a));
    HexRoundTrip(h(b));
  }

  lemma {:induction false} MembersDistinct(h: HashFunction, preimages: seq<Bytes>, S: set<Bytes>)
    requires CollisionFree(h, S) && Elements(preimages) <= S && Distinct(preimages)
    ensures Distinct(Members(h, preimages))
    ensures |Elements(Members(h, preimages))| == |preimages|
  {
    var m := Members(h, preimages);
    forall i, j | 0 <= i < j < |m| ensures m[i] != m[j] {
      assert preimages[i] in Elements(preimages) && preimages[j] in Elements(preimages);
      if m[i] == m[j] { SameMember(h, preimages[i], preimages[j], S); }
    }
    DistinctSize(m);
  }

  lemma {:induction false} MembersOfConcat(h: HashFunction, a: seq<Bytes>, b: seq<Bytes>)
    ensures Members(h, a + b) == Members(h, a) + Members(h, b)
  {
  }

  // ---------- the report ----------

  datatype Report = Report(
    sampleIndex: int, seed: int, existing: StreamSetSummary, candidate: StreamSetSummary,
    overlap: StreamSetSummary, novel: StreamSetSummary, union: StreamSetSummary)

  datatype OutcomeError = InvalidRequest | SummaryFailed(error: StreamError) | AlgebraViolated

  /** Each member is the hash of what it is named by: root index, novel index of this seed and sample,
      and the root indexes the walk visits. */
  lemma {:induction false} StreamsRead(h: HashFunction, q: Request, positions: seq<int>)
    requires ValidRequest(q)
    ensures var s := StreamsOf(q, positions);
            && |s.root| == q.rootCardinality && |s.overlap| == |positions|
            && |s.novel| == q.candidateCardinality - q.overlapCardinality
            && (forall i :: 0 <= i < |s.root| ==> Reads(s.root[i], Ascii("root"), 0, 0, i))
            && (forall i :: 0 <= i < |s.overlap| ==> Reads(s.overlap[i], Ascii("root"), 0, 0, positions[i]))
            && (forall i :: 0 <= i < |s.novel| ==> Reads(s.novel[i], Ascii("novel"), q.seed, q.sampleIndex, i))
            && (forall p :: p in s.root + s.overlap + s.novel ==> Members(h, [p]) == [HexEncode(h(p))])
  {
    var s := StreamsOf(q, positions);
    forall i | 0 <= i < |s.root| ensures Reads(s.root[i], Ascii("root"), 0, 0, i) {
      MemberPreimageReads(Root, 0, 0, i);
    }
    forall i | 0 <= i < |s.overlap| ensures Reads(s.overlap[i], Ascii("root"), 0, 0, positions[i]) {
      MemberPreimageReads(Root, 0, 0, positions[i]);
    }
    forall i | 0 <= i < |s.novel| ensures Reads(s.novel[i], Ascii("novel"), q.seed, q.sampleIndex, i) {
      MemberPreimageReads(Novel, q.seed, q.sampleIndex, i);
    }
  }

  function NovelCount(q: Request): nat
    requires ValidRequest(q)
  {
    q.candidateCardinality - q.overlapCardinality
  }

  /** The five streams, as preimages, for the overlap positions the walk visits. */
  datatype Streams = Streams(root: seq<Bytes>, overlap: seq<Bytes>, novel: seq<Bytes>) {
    function Candidate(): seq<Bytes> { overlap + novel }
    function Union(): seq<Bytes> { root + novel }
  }

  function StreamsOf(q: Request, positions: seq<int>): Streams
    requires ValidRequest(q)
  {
    Streams(RootPreimages(q.rootCardinality), PositionPreimages(positions), NovelPreimages(q, NovelCount(q)))
  }

  ghost function Summarized(
    h: HashFunction, role: Bytes, preimages: seq<Bytes>, options: StreamSetOptions): StreamSetSummary
    requires OptionsOk(options)
  {
    SummaryOf(h, role, Members(h, preimages), EffectiveLimit(options), options.captureMembers)
  }

  ghost function FullReport(h: HashFunction, q: Request, s: Streams): Report
    requires OptionsOk(q.options)
  {
    Report(q.sampleIndex, q.seed, Summarized(h, EXISTING, s.root, q.options),
           Summarized(h, CANDIDATE, s.Candidate(), q.options), Summarized(h, OVERLAP, s.overlap, q.options),
           Summarized(h, NOVEL, s.novel, q.options), Summarized(h, UNION, s.Union(), q.options))
  }

  /** The five cardinalities of a report are the requested ones. */
  ghost predicate CardinalitiesExact(q: Request, r: Report) {
    && r.existing.cardinality == q.rootCardinality
    && r.candidate.cardinality == q.candidateCardinality
    && r.overlap.cardinality == q.overlapCardinality
    && r.novel.cardinality == q.candidateCardinality - q.overlapCardinality
    && r.union.cardinality == q.rootCardinality + q.candidateCardinality - q.overlapCardinality
  }

  /** The members of the streams are as many as requested: no two of a stream coincide. */
  ghost predicate SizesExact(h: HashFunction, q: Request, s: Streams) {
    && |Elements(Members(h, s.root))| == q.rootCardinality
    && |Elements(Members(h, s.Candidate()))| == q.candidateCardinality
    && |Elements(Members(h, s.overlap))| == q.overlapCardinality
    && |Elements(Members(h, s.novel))| == q.candidateCardinality - q.overlapCardinality
    && |Elements(Members(h, s.Union()))| == q.rootCardinality + q.candidateCardinality - q.overlapCardinality
  }

  function AlgebraIn(r: Report): SetAlgebraResult {
    SetAlgebraResult(IdentityOf(r.candidate), IdentityOf(r.existing), IdentityOf(r.overlap), IdentityOf(r.novel),
        IdentityOf(r.union))
  }

  /** Every preimage one sample can hash as a member. */
  ghost function Preimages(q: Request): set<Bytes>
    requires ValidRequest(q)
  {
    Elements(RootPreimages(q.rootCardinality)) + Elements(NovelPreimages(q, NovelCount(q)))
  }

  ghost predicate GoodPositions(q: Request, positions: seq<int>) {
    && |positions| == q.overlapCardinality && Distinct(positions)
    && forall i :: 0 <= i < |positions| ==> 0 <= positions[i] < q.rootCardinality
  }

  lemma {:induction false} StreamsSeparate(q: Request, positions: seq<int>)
    requires ValidRequest(q) && GoodPositions(q, positions)
    ensures var s := StreamsOf(q, positions);
            && Distinct(s.root) && Distinct(s.overlap) && Distinct(s.novel)
            && Elements(s.overlap) <= Elements(s.root) && Elements(s.root) !! Elements(s.novel)
  {
    var s := StreamsOf(q, positions);
    RootAndNovelApart(q, s.root, s.novel);
    forall i, j | 0 <= i < j < |s.overlap| ensures s.overlap[i] != s.overlap[j] {
      MemberPreimageInjective(Root, 0, 0, positions[i], Root, 0, 0, positions[j]);
    }
    forall x | x in s.overlap ensures x in s.root {
      var i :| 0 <= i < |s.overlap| && s.overlap[i] == x;
      assert s.root[positions[i]] == x;
    }
  }

  lemma {:induction false} RootAndNovelApart(q: Request, root: seq<Bytes>, novel: seq<Bytes>)
    requires |root| < TWO63 && |novel| < TWO63
    requires forall i :: 0 <= i < |root| ==> root[i] == MemberPreimage(Root, 0, 0, i)
    requires forall i :: 0 <= i < |novel| ==> novel[i] == MemberPreimage(Novel, q.seed, q.sampleIndex, i)
    ensures Distinct(root) && Distinct(novel) && Elements(root) !! Elements(novel)
  {
    forall i, j | 0 <= i < j < |root| ensures root[i] != root[j] {
      MemberPreimageInjective(Root, 0, 0, i, Root, 0, 0, j);
    }
    forall i, j | 0 <= i < j < |novel| ensures novel[i] != novel[j] {
      MemberPreimageInjective(Novel, q.seed, q.sampleIndex, i, Novel, q.seed, q.sampleIndex, j);
    }
    forall i, j | 0 <= i < |root| && 0 <= j < |novel| ensures root[i] != novel[j] {
      MemberPreimageInjective(Root, 0, 0, i, Novel, q.seed, q.sampleIndex, j);
    }
  }

  lemma {:induction false} MemberSets(h: HashFunction, s: Streams, S: set<Bytes>)
    requires CollisionFree(h, S) && Elements(s.root) <= S && Elements(s.novel) <= S
    requires Elements(s.overlap) <= Elements(s.root) && Elements(s.root) !! Elements(s.novel)
    ensures var candidate, root := Elements(Members(h, s.Candidate())), Elements(Members(h, s.root));
            && candidate * root == Elements(Members(h, s.overlap))
            && candidate - root == Elements(Members(h, s.novel))
            && candidate + root == Elements(Members(h, s.Union()))
  {
    var candidate, root := Elements(Members(h, s.Candidate())), Elements(Members(h, s.root));
    var overlap, novel := Elements(Members(h, s.overlap)), Elements(Members(h, s.novel));
    MembersOfConcat(h, s.overlap, s.novel);
    MembersOfConcat(h, s.root, s.novel);
    assert candidate == overlap + novel;
    assert Elements(Members(h, s.Union())) == root + novel;
    forall x | x in overlap ensures x in root {
      var i :| 0 <= i < |s.overlap| && Member(h, s.overlap[i]) == x;
      assert s.overlap[i] in Elements(s.overlap);
      var j :| 0 <= j < |s.root| && s.root[j] == s.overlap[i];
      assert Members(h, s.root)[j] == x;
    }
    forall x | x in novel ensures x !in root {
      var i :| 0 <= i < |s.novel| && Member(h, s.novel[i]) == x;
      NovelNotRoot(h, s, S, i);
    }
  }

  lemma {:induction false} NovelNotRoot(h: HashFunction, s: Streams, S: set<Bytes>, i: nat)
    requires CollisionFree(h, S) && Elements(s.root) <= S && Elements(s.novel) <= S
    requires Elements(s.root) !! Elements(s.novel) && i < |s.novel|
    ensures Member(h, s.novel[i]) !in Elements(Members(h, s.root))
  {
    assert s.novel[i] in Elements(s.novel);
    forall j | 0 <= j < |s.root| ensures Members(h, s.root)[j] != Member(h, s.novel[i]) {
      assert s.root[j] in Elements(s.root);
      if Member(h, s.root[j]) == Member(h, s.novel[i]) { SameMember(h, s.root[j], s.novel[i], S); }
    }
  }

  /** Under collision-freedom of the hashed preimages the five summaries are exactly the set algebra of
      the root and candidate sets, with the requested cardinalities. */
  lemma {:induction false} OutcomeAlgebraIsExact(h: HashFunction, q: Request, positions: seq<int>)
    requires ValidRequest(q) && GoodPositions(q, positions) && OptionsOk(q.options)
    requires CollisionFree(h, Preimages(q))
    ensures var s := StreamsOf(q, positions);
            var r := FullReport(h, q, s);
            && CardinalitiesExact(q, r)
            && AlgebraIn(r) == AlgebraOf(h, Elements(Members(h, s.Candidate())), Elements(Members(h, s.root)))
  {
    var s := StreamsOf(q, positions);
    StreamsSeparate(q, positions);
    MemberSets(h, s, Preimages(q));
    MembersDistinct(h, s.root, Preimages(q));
    MembersDistinct(h, s.overlap, Preimages(q));
    MembersDistinct(h, s.novel, Preimages(q));
    AlgebraConserves(h, Elements(Members(h, s.Candidate())), Elements(Members(h, s.root)));
  }

  method SummarizeOne(h: HashFunction, role: Bytes, preimages: seq<Bytes>, options: StreamSetOptions)
    returns (r: Result<StreamSetSummary, StreamError>)
    requires ValidRole(role)
    ensures r.Ok? <==> OptionsOk(options)
    ensures r.Ok? ==> r.value == Summarized(h, role, preimages, options)
  {
    var members := Members(h, preimages);
    MembersValid(h, preimages);
    var all := SummarizeSemanticSetRoles(h, [role], members, options);
    if all.Err? { return Err(all.error); }
    assert role in [role];
    return Ok(all.value[role]);
  }

  method SummarizeTwo(h: HashFunction, role1: Bytes, role2: Bytes, preimages: seq<Bytes>, options: StreamSetOptions)
    returns (r1: Result<StreamSetSummary, StreamError>, r2: Result<StreamSetSummary, StreamError>)
    requires ValidRole(role1) && ValidRole(role2) && role1 != role2
    ensures (r1.Ok? <==> OptionsOk(options)) && (r2.Ok? <==> OptionsOk(options))
    ensures r1.Ok? ==> r1.value == Summarized(h, role1, preimages, options)
    ensures r2.Ok? ==> r2.value == Summarized(h, role2, preimages, options)
  {
    var members := Members(h, preimages);
    MembersValid(h, preimages);
    var all := SummarizeSemanticSetRoles(h, [role1, role2], members, options);
    if all.Err? { return Err(all.error), Err(all.error); }
    assert role1 in [role1, role2] && role2 in [role1, role2];
    return Ok(all.value[role1]), Ok(all.value[role2]);
  }

  /** The first failing summary decides; otherwise the five summaries form the report. */
  function Combine(
    q: Request, candidate: Result<StreamSetSummary, StreamError>, overlap: Result<StreamSetSummary, StreamError>,
    existing: Result<StreamSetSummary, StreamError>, union: Result<StreamSetSummary, StreamError>,
    novel: Result<StreamSetSummary, StreamError>): Result<Report, StreamError>
  {
    if candidate.Err? then Err(candidate.error)
    else if overlap.Err? then Err(overlap.error)
    else if existing.Err? then Err(existing.error)
    else if union.Err? then Err(union.error)
    else if novel.Err? then Err(novel.error)
    else Ok(Report(q.sampleIndex, q.seed, existing.value, candidate.value, overlap.value, novel.value, union.value))
  }

  method BuildReport(h: HashFunction, q: Request, s: Streams) returns (r: Result<Report, StreamError>)
    requires ValidRequest(q) && |s.novel| == NovelCount(q)
    ensures r.Ok? <==> OptionsOk(q.options)
    ensures r.Ok? ==> r.value == FullReport(h, q, s)
  {
    var candidate, overlap, existing, union;
    if q.overlapCardinality == q.candidateCardinality {
      assert s.Candidate() == s.overlap && s.Union() == s.root;
      candidate, overlap := SummarizeTwo(h, CANDIDATE, OVERLAP, s.Candidate(), q.options);
      existing, union := SummarizeTwo(h, EXISTING, UNION, s.root, q.options);
    } else {
      candidate := SummarizeOne(h, CANDIDATE, s.Candidate(), q.options);
      overlap := SummarizeOne(h, OVERLAP, s.overlap, q.options);
      existing := SummarizeOne(h, EXISTING, s.root, q.options);
      union := SummarizeOne(h, UNION, s.Union(), q.options);
    }
    var novel := SummarizeOne(h, NOVEL, s.novel, q.options);
    r := Combine(q, candidate, overlap, existing, union, novel);
  }

  /** An acceptable request whose walk cannot overflow and whose member preimages do not collide. */
  ghost predicate NoCollision(h: HashFunction, q: Request) {
    && ValidRequest(q) && OptionsOk(q.options)
    && q.rootCardinality <= TWO62
    && CollisionFree(h, Preimages(q))
  }

  /** GenerateOpaqueOutcomeSets shares one summary between two roles when the candidate is all overlap.
      `positions` are the root positions the walk visits. */
  method GenerateOpaqueOutcomeSets(h: HashFunction, q: Request)
    returns (r: Result<Report, OutcomeError>, ghost positions: seq<int>)
    ensures !ValidRequest(q) <==> r == Err(InvalidRequest)
    ensures ValidRequest(q) && !OptionsOk(q.options) ==> r.Err? && r.error.SummaryFailed?
    ensures ValidRequest(q) ==> |positions| == q.overlapCardinality
    ensures ValidRequest(q) && q.overlapCardinality > 0 ==> SeededWalk(h, q, positions)
    ensures ValidRequest(q) && q.rootCardinality <= TWO62 ==> GoodPositions(q, positions)
    ensures ValidRequest(q) && OptionsOk(q.options) ==>
              var s := StreamsOf(q, positions);
              r == if SizesExact(h, q, s) then Ok(FullReport(h, q, s)) else Err(AlgebraViolated)
    ensures r.Ok? ==> CardinalitiesExact(q, r.value) && r.value.seed == q.seed && r.value.sampleIndex == q.sampleIndex
    ensures NoCollision(h, q) ==> r.Ok?
  {
    if q.rootCardinality < 0 || q.candidateCardinality < 0 || q.overlapCardinality < 0 ||
       q.overlapCardinality > q.rootCardinality || q.overlapCardinality > q.candidateCardinality ||
       q.sampleIndex < 1 {
      return Err(InvalidRequest), [];
    }
    var walk := OverlapPositions(h, q);
    positions := walk;
    if NoCollision(h, q) { OutcomeAlgebraIsExact(h, q, walk); }
    var report := BuildReport(h, q, StreamsOf(q, walk));
    if report.Err? { r := Err(SummaryFailed(report.error)); return; }
    var checked := CheckCardinalities(q, report.value);
    if !checked { r := Err(AlgebraViolated); return; }
    r := Ok(report.value);
  }

  method CheckCardinalities(q: Request, report: Report) returns (ok: bool)
    ensures ok <==> CardinalitiesExact(q, report)
  {
    var novel := q.candidateCardinality - q.overlapCardinality;
    if report.existing.cardinality != q.rootCardinality || report.candidate.cardinality != q.candidateCardinality ||
       report.overlap.cardinality != q.overlapCardinality || report.novel.cardinality != novel ||
       report.union.cardinality != q.rootCardinality + novel {
      return false;
    }
    return true;
  }
}
