/** Canonical fact payloads (evaluation/finalv5oracle/facts.go): five kinds of fact tuples, their
    length-framed payloads, the domain-bound hash and the validator. What counts as a canonical value
    of a SQL type is a parameter, so the statements hold for validateOracleCanonicalValue. */
module Facts {
  import opened GoBytes
  import opened Sorting

  type ValueCheck = (Bytes, Bytes) -> bool

  datatype Kind = BaseRow | BaseCell | Derived | PredicateAtom | CompositeOutcome

  const PROFILE_V2: Bytes := Ascii("taskgate-exposure-v2")
  const PROFILE_V5: Bytes := Ascii("taskgate-exposure-v5")
  const PREDICATE_PROFILE: Bytes := Ascii("taskgate-predicate-footprint-v1")
  const DOMAIN_V2: Bytes := Ascii("TASKGATE-FACT-V2") + [0]
  const DOMAIN_V5: Bytes := Ascii("TASKGATE-FACT-V5") + [0]

  function KindName(kind: Kind): Bytes {
    match kind
    case BaseRow => Ascii("base-row")
    case BaseCell => Ascii("base-cell")
    case Derived => Ascii("derived")
    case PredicateAtom => Ascii("predicate-atom")
    case CompositeOutcome => Ascii("composite-outcome")
  }

  predicate IsV5(kind: Kind) {
    kind == PredicateAtom || kind == CompositeOutcome
  }

  function ProfileOf(kind: Kind): Bytes {
    if IsV5(kind) then PROFILE_V5 else PROFILE_V2
  }

  // ---------- inputs ----------

  datatype Binding = Binding(ns: Bytes, snapshot: Bytes)

  datatype Input =
    | BaseRowInput(ns: Bytes, snapshot: Bytes, entityKey: Bytes)
    | BaseCellInput(ns: Bytes, snapshot: Bytes, entityKey: Bytes, field: Bytes, sqlType: Bytes, value: Bytes)
    | DerivedInput(bundle: seq<Binding>, outputRowKey: Bytes, expression: Bytes, sqlType: Bytes, value: Bytes,
        commitment: Bytes)
    | AtomInput(atomizer: Bytes, context: Bytes, product: Bytes, role: Bytes, publicField: Bytes, resolved: Bytes,
                sqlType: Bytes, collation: Bytes, collationVersion: Bytes, operator: Bytes, literal: Bytes)
    | CompositeInput(normalFormVersion: Bytes, normalForm: Bytes, result: Bytes, visibleRows: int,
                     profile: Bytes, outcomeContext: Bytes, predicateSet: Bytes, atomCount: int)

  function KindOf(input: Input): Kind {
    match input
    case BaseRowInput(_, _, _) => BaseRow
    case BaseCellInput(_, _, _, _, _, _) => BaseCell
    case DerivedInput(_, _, _, _, _, _) => Derived
    case AtomInput(_, _, _, _, _, _, _, _, _, _, _) => PredicateAtom
    case CompositeInput(_, _, _, _, _, _, _, _) => CompositeOutcome
  }

  /** oracleToken: not empty and without boundary space. */
  predicate Token(v: Bytes) {
    v != [] && !HasBoundarySpace(v)
  }

  ghost predicate AtAnEnd(v: Bytes, rune: Bytes) {
    |rune| <= |v| && (v[..|rune|] == rune || v[|v| - |rune|..] == rune)
  }

  lemma {:induction false} RuneAtEnd(v: Bytes, rune: Bytes)
    requires SpaceRune(rune) && AtAnEnd(v, rune)
    ensures HasBoundarySpace(v)
  {
    var n := |rune|;
    assert 1 <= n <= 3 && n <= |v| && (SpaceRune(v[..n]) || SpaceRune(v[|v| - n..]));
  }

  lemma {:induction false} BoundaryRune(v: Bytes) returns (rune: Bytes)
    requires HasBoundarySpace(v)
    ensures SpaceRune(rune) && AtAnEnd(v, rune)
  {
    var n :| 1 <= n <= 3 && n <= |v| && (SpaceRune(v[..n]) || SpaceRune(v[|v| - n..]));
    rune := if SpaceRune(v[..n]) then v[..n] else v[|v| - n..];
  }

  ghost predicate SpaceAtAnEnd(v: Bytes) {
    exists rune :: SpaceRune(rune) && AtAnEnd(v, rune)
  }

  /** A token is not empty, and no white-space rune stands at either end of it. */
  lemma {:induction false} TokenExactly(v: Bytes)
    ensures Token(v) <==> v != [] && !SpaceAtAnEnd(v)
  {
    if HasBoundarySpace(v) { var rune := BoundaryRune(v); }
    if rune :| SpaceRune(rune) && AtAnEnd(v, rune) { RuneAtEnd(v, rune); }
  }

  predicate CanonicalSqlType(v: Bytes) {
    || v == Ascii("smallint") || v == Ascii("integer") || v == Ascii("bigint") || v == Ascii("numeric")
    || v == Ascii("real") || v == Ascii("double precision") || v == Ascii("boolean") || v == Ascii("bytea")
    || v == Ascii("date") || v == Ascii("time without time zone") || v == Ascii("timestamp with time zone")
    || v == Ascii("timestamp without time zone") || v == Ascii("jsonb") || v == Ascii("uuid")
    || Collatable(v)
  }

  predicate Collatable(v: Bytes) {
    v == Ascii("text") || v == Ascii("character") || v == Ascii("character varying")
  }

  predicate Operator(v: Bytes) {
    || v == Ascii("EQ") || v == Ascii("NE") || v == Ascii("LT") || v == Ascii("LE")
    || v == Ascii("GT") || v == Ascii("GE") || v == Ascii("LIKE")
  }

  ghost const SQL_TYPES: set<string> :=
    {"smallint", "integer", "bigint", "numeric", "real", "double precision", "boolean", "bytea", "date",
     "time without time zone", "timestamp with time zone", "timestamp without time zone", "jsonb", "uuid",
     "text", "character", "character varying"}
  ghost const COLLATABLE: set<string> := {"text", "character", "character varying"}
  ghost const OPERATORS: set<string> := {"EQ", "NE", "LT", "LE", "GT", "GE", "LIKE"}

  /** The names the switches know. */
  lemma {:induction false} KnownNames(v: Bytes)
    ensures CanonicalSqlType(v) <==> exists name :: name in SQL_TYPES && v == Ascii(name)
    ensures Collatable(v) <==> exists name :: name in COLLATABLE && v == Ascii(name)
    ensures Operator(v) <==> exists name :: name in OPERATORS && v == Ascii(name)
  {
  }

  function Defaulted(version: Bytes): Bytes {
    if version == [] then PREDICATE_PROFILE else version
  }

  predicate BindingLeq(a: Binding, b: Binding) {
    if a.ns != b.ns then Leq(a.ns, b.ns) else Leq(a.snapshot, b.snapshot)
  }

  /** Version defaults filled in, bundle sorted: the tuple the payload stands for. */
  function Normal(input: Input): Input {
    match input
    case DerivedInput(_, _, _, _, _, _) => input.(bundle := Sort(BindingLeq, input.bundle))
    case AtomInput(_, _, _, _, _, _, _, _, _, _, _) => input.(atomizer := Defaulted(input.atomizer))
    case CompositeInput(_, _, _, _, _, _, _, _) => input.(profile := Defaulted(input.profile))
    case BaseRowInput(_, _, _) => input
    case BaseCellInput(_, _, _, _, _, _) => input
  }

  ghost predicate DistinctNamespaces(bundle: seq<Binding>) {
    forall i, j :: 0 <= i < j < |bundle| ==> bundle[i].ns != bundle[j].ns
  }

  ghost predicate BundleOk(bundle: seq<Binding>) {
    && bundle != [] && DistinctNamespaces(bundle)
    && forall i :: 0 <= i < |bundle| ==> Complete(bundle[i])
  }

  ghost predicate Complete(b: Binding) {
    Token(b.ns) && Token(b.snapshot)
  }

  ghost predicate TypedValueOk(ok: ValueCheck, sqlType: Bytes, value: Bytes) {
    Token(sqlType) && value != [] && CanonicalSqlType(sqlType) && ok(sqlType, value)
  }

  /** Every check but the bundle's. */
  ghost predicate FieldsOk(ok: ValueCheck, input: Input) {
    match input
    case BaseRowInput(ns, snapshot, key) => Token(ns) && Token(snapshot) && Token(key)
    case BaseCellInput(ns, snapshot, key, field, sqlType, value) =>
      Token(ns) && Token(snapshot) && Token(key) && Token(field) && TypedValueOk(ok, sqlType, value)
    case DerivedInput(bundle, rowKey, expression, sqlType, value, commitment) =>
      bundle != [] && Token(rowKey) && Token(expression) && TypedValueOk(ok, sqlType, value) && ValidSha256(commitment)
    case AtomInput(atomizer, context, product, role, field, resolved, sqlType, collation, version, operator, literal) =>
      && Defaulted(atomizer) == PREDICATE_PROFILE && ValidSha256(context)
      && Token(product) && Token(role) && Token(field) && Token(operator)
      && (resolved != [] ==> ValidSha256(resolved))
      && TypedValueOk(ok, sqlType, literal)
      && (if Collatable(sqlType) then Token(collation) && Token(version) else collation == [] && version == [])
      && Operator(operator)
    case CompositeInput(version, normalForm, result, rows, profile, context, predicates, atoms) =>
      && Token(version) && ValidSha256(normalForm) && ValidSha256(result) && rows >= 0
      && Defaulted(profile) == PREDICATE_PROFILE && ValidSha256(context) && ValidSha256(predicates) && atoms >= 0
  }

  ghost predicate Accepted(ok: ValueCheck, input: Input) {
    FieldsOk(ok, input) && (input.DerivedInput? ==> BundleOk(input.bundle))
  }

  // ---------- the snapshot bundle ----------

  lemma {:induction false} BindingTotalOrder()
    ensures TotalOrder(BindingLeq)
  {
    BytesTotalOrder();
  }

  /** In a sorted bundle, equal namespaces are adjacent. */
  lemma {:induction false} AdjacentSuffices(s: seq<Binding>)
    requires SortedBy(BindingLeq, s)
    requires forall i :: 0 < i < |s| ==> s[i].ns != s[i - 1].ns
    ensures DistinctNamespaces(s)
  {
    forall i, j | 0 <= i < j < |s| ensures s[i].ns != s[j].ns {
      if j > i + 1 {
        assert BindingLeq(s[i], s[i + 1]) && BindingLeq(s[i + 1], s[j]);
        assert s[i + 1].ns != s[i].ns;
        if s[i].ns == s[j].ns { LeqAntisymmetric(s[i].ns, s[i + 1].ns); }
      }
    }
  }

  /** Any bundle is sorted by namespace and then by snapshot, in byte order. */
  lemma {:induction false} BundleSorted(bundle: seq<Binding>)
    ensures var sorted := Sort(BindingLeq, bundle);
            forall i, j :: 0 <= i < j < |sorted| ==>
              Less(sorted[i].ns, sorted[j].ns) ||
              (sorted[i].ns == sorted[j].ns && Leq(sorted[i].snapshot, sorted[j].snapshot))
  {
    var sorted := Sort(BindingLeq, bundle);
    BindingTotalOrder();
    SortIsSortedPermutation(BindingLeq, bundle);
    forall i, j | 0 <= i < j < |sorted|
      ensures Less(sorted[i].ns, sorted[j].ns) ||
              (sorted[i].ns == sorted[j].ns && Leq(sorted[i].snapshot, sorted[j].snapshot))
    {
      assert BindingLeq(sorted[i], sorted[j]);
    }
  }

  /** An accepted bundle is written with its namespaces strictly upwards in byte order. */
  lemma {:induction false} BundleAscends(bundle: seq<Binding>)
    requires BundleOk(bundle)
    ensures var sorted := Sort(BindingLeq, bundle);
            && multiset(sorted) == multiset(bundle)
            && forall i, j :: 0 <= i < j < |sorted| ==> Less(sorted[i].ns, sorted[j].ns)
  {
    var sorted := Sort(BindingLeq, bundle);
    BindingTotalOrder();
    SortIsSortedPermutation(BindingLeq, bundle);
    PermutedNamespaces(bundle, sorted);
    forall i, j | 0 <= i < j < |sorted| ensures Less(sorted[i].ns, sorted[j].ns) {
      assert BindingLeq(sorted[i], sorted[j]);
    }
  }

  lemma {:induction false} PermutedNamespaces(a: seq<Binding>, b: seq<Binding>)
    requires multiset(a) == multiset(b) && DistinctNamespaces(a)
    ensures DistinctNamespaces(b)
  {
    forall i, j | 0 <= i < j < |b| ensures b[i].ns != b[j].ns {
      assert b[i] in multiset(a) && b[j] in multiset(a);
      var p :| 0 <= p < |a| && a[p] == b[i];
      var q :| 0 <= q < |a| && a[q] == b[j];
      if b[i].ns == b[j].ns {
        assert p == q;
        OccursTwice(b, i, j);
        OccursOnce(a, p);
      }
    }
  }

  lemma {:induction false} OccursOnce(a: seq<Binding>, p: nat)
    requires p < |a| && DistinctNamespaces(a)
    ensures multiset(a)[a[p]] == 1
  {
    assert a == a[..p] + [a[p]] + a[p + 1..];
    assert a[p] !in a[..p] && a[p] !in a[p + 1..];
  }

  /** The sort-then-adjacent check rejects exactly the bundles with an incomplete binding or a
      repeated namespace. */
  method CheckBundle(bundle: seq<Binding>) returns (r: Option<seq<Binding>>)
    ensures r == if bundle == [] || BundleOk(bundle) then Some(Sort(BindingLeq, bundle)) else None
  {
    var sorted := Sort(BindingLeq, bundle);
    SortedCheck(bundle);
    for index := 0 to |sorted|
      invariant forall i :: 0 <= i < index ==> Complete(sorted[i])
      invariant forall i :: 0 < i < index ==> sorted[i].ns != sorted[i - 1].ns
    {
      if !Token(sorted[index].ns) || !Token(sorted[index].snapshot) {
        return None;
      }
      if index > 0 && sorted[index].ns == sorted[index - 1].ns {
        return None;
      }
    }
    return Some(sorted);
  }

  /** What the loop decides on the sorted bundle is BundleOk of the bundle. */
  lemma {:induction false} SortedCheck(bundle: seq<Binding>)
    ensures var sorted := Sort(BindingLeq, bundle);
            bundle != [] ==>
              (BundleOk(bundle) <==>
               && (forall i :: 0 <= i < |sorted| ==> Complete(sorted[i]))
               && (forall i :: 0 < i < |sorted| ==> sorted[i].ns != sorted[i - 1].ns))
  {
    var sorted := Sort(BindingLeq, bundle);
    BindingTotalOrder();
    SortIsSortedPermutation(BindingLeq, bundle);
    SameComplete(bundle, sorted);
    if DistinctNamespaces(bundle) { PermutedNamespaces(bundle, sorted); }
    if forall i :: 0 < i < |sorted| ==> sorted[i].ns != sorted[i - 1].ns {
      AdjacentSuffices(sorted);
      PermutedNamespaces(sorted, bundle);
    }
  }

  lemma {:induction false} SameComplete(a: seq<Binding>, b: seq<Binding>)
    requires multiset(a) == multiset(b)
    ensures (forall i :: 0 <= i < |a| ==> Complete(a[i])) <==> (forall i :: 0 <= i < |b| ==> Complete(b[i]))
  {
    CompleteMembers(a, b);
    CompleteMembers(b, a);
  }

  lemma {:induction false} CompleteMembers(a: seq<Binding>, b: seq<Binding>)
    requires multiset(a) == multiset(b)
    ensures (forall i :: 0 <= i < |a| ==> Complete(a[i])) ==> forall i :: 0 <= i < |b| ==> Complete(b[i])
  {
    forall i | 0 <= i < |b| ensures b[i] in a {
      assert b[i] in multiset(b);
      assert b[i] in multiset(a);
    }
  }

  // ---------- payloads ----------

  function Flat(bundle: seq<Binding>): (r: seq<Bytes>)
    ensures |r| == 2 * |bundle|
  {
    if bundle == [] then [] else [bundle[0].ns, bundle[0].snapshot] + Flat(bundle[1..])
  }

  function Body(input: Input): Bytes {
    match input
    case BaseRowInput(ns, snapshot, key) => FrameAll([ns, snapshot, key])
    case BaseCellInput(ns, snapshot, key, field, sqlType, value) =>
      FrameAll([ns, snapshot, key, field, sqlType, value])
    case DerivedInput(bundle, rowKey, expression, sqlType, value, commitment) =>
      U64(|bundle|) + (FrameAll(Flat(bundle)) + FrameAll([rowKey, expression, sqlType, value, commitment]))
    case AtomInput(atomizer, context, product, role, field, resolved, sqlType, collation, version, operator, literal) =>
      FrameAll([atomizer, context, product, role, field, resolved, sqlType, collation, version, operator, literal])
    case CompositeInput(version, normalForm, result, rows, profile, context, predicates, atoms) =>
      FrameAll([version, normalForm, result]) + (U64(rows) + (FrameAll([profile, context, predicates]) + U64(atoms)))
  }

  function Head(kind: Kind): seq<Bytes> {
    [KindName(kind), ProfileOf(kind)]
  }

  function Payload(input: Input): Bytes {
    FrameAll(Head(KindOf(input))) + Body(Normal(input))
  }

  /** Lengths and counts that Go's int and int64 can hold. */
  ghost predicate Representable(input: Input) {
    match input
    case BaseRowInput(ns, snapshot, key) => AllFit([ns, snapshot, key])
    case BaseCellInput(ns, snapshot, key, field, sqlType, value) =>
      AllFit([ns, snapshot, key, field, sqlType, value])
    case DerivedInput(bundle, rowKey, expression, sqlType, value, commitment) =>
      && |bundle| < TWO63 && AllFit([rowKey, expression, sqlType, value, commitment])
      && forall b <- bundle :: Fits(b.ns) && Fits(b.snapshot)
    case AtomInput(atomizer, context, product, role, field, resolved, sqlType, collation, version, operator, literal) =>
      AllFit([atomizer, context, product, role, field, resolved, sqlType, collation, version, operator, literal])
    case CompositeInput(version, normalForm, result, rows, profile, context, predicates, atoms) =>
      && AllFit([version, normalForm, result]) && AllFit([profile, context, predicates])
      && 0 <= rows < TWO63 && 0 <= atoms < TWO63
  }

  lemma {:induction false} FlatInjective(a: seq<Binding>, b: seq<Binding>)
    requires Flat(a) == Flat(b)
    ensures a == b
  {
    assert |a| == |b|;
    if a != [] {
      assert Flat(a)[0] == a[0].ns && Flat(a)[1] == a[0].snapshot && Flat(a)[2..] == Flat(a[1..]);
      assert Flat(b)[0] == b[0].ns && Flat(b)[1] == b[0].snapshot && Flat(b)[2..] == Flat(b[1..]);
      FlatInjective(a[1..], b[1..]);
      SameHeadAndTail(a, b);
    }
  }

  lemma {:induction false} FlatFits(bundle: seq<Binding>)
    requires forall b <- bundle :: Fits(b.ns) && Fits(b.snapshot)
    ensures AllFit(Flat(bundle))
  {
    if bundle != [] {
      assert bundle[0] in bundle;
      FlatFits(bundle[1..]);
    }
  }

  lemma {:induction false} FlatSnoc(s: seq<Binding>, b: Binding)
    ensures Flat(s + [b]) == Flat(s) + [b.ns, b.snapshot]
  {
    if s != [] {
      FlatSnoc(s[1..], b);
      assert (s + [b])[1..] == s[1..] + [b];
    } else {
      assert Flat([b]) == [b.ns, b.snapshot] + Flat([b][1..]);
    }
  }

  lemma {:induction false} HeadFits(kind: Kind)
    ensures AllFit(Head(kind))
  {
  }

  lemma {:induction false} NameDeterminesKind(a: Kind, b: Kind)
    requires KindName(a) == KindName(b)
    ensures a == b
  {
    assert |KindName(a)| == |KindName(b)|;
  }

  lemma {:induction false} DerivedBodyInjective(a: Input, b: Input)
    requires a.DerivedInput? && b.DerivedInput? && Representable(a) && Representable(b)
    requires Body(a) == Body(b)
    ensures a == b
  {
    var s := [a.outputRowKey, a.expression, a.sqlType, a.value, a.commitment];
    var t := [b.outputRowKey, b.expression, b.sqlType, b.value, b.commitment];
    CountCancel(|a.bundle|, FrameAll(Flat(a.bundle)) + FrameAll(s), |b.bundle|, FrameAll(Flat(b.bundle)) + FrameAll(t));
    FlatFits(a.bundle);
    FlatFits(b.bundle);
    FrameAllCancel(Flat(a.bundle), FrameAll(s), Flat(b.bundle), FrameAll(t));
    FlatInjective(a.bundle, b.bundle);
    FrameAllInjective(s, t);
    assert s[0] == t[0] && s[1] == t[1] && s[2] == t[2] && s[3] == t[3] && s[4] == t[4];
  }

  lemma {:induction false} AtomBodyInjective(a: Input, b: Input)
    requires a.AtomInput? && b.AtomInput? && Representable(a) && Representable(b)
    requires Body(a) == Body(b)
    ensures a == b
  {
    var s := [a.atomizer, a.context, a.product, a.role, a.publicField, a.resolved, a.sqlType, a.collation,
              a.collationVersion, a.operator, a.literal];
    var t := [b.atomizer, b.context, b.product, b.role, b.publicField, b.resolved, b.sqlType, b.collation,
              b.collationVersion, b.operator, b.literal];
    FrameAllInjective(s, t);
    assert s[0] == t[0] && s[1] == t[1] && s[2] == t[2] && s[3] == t[3] && s[4] == t[4] && s[5] == t[5];
    assert s[6] == t[6] && s[7] == t[7] && s[8] == t[8] && s[9] == t[9] && s[10] == t[10];
  }

  lemma {:induction false} CompositeCancel(s: seq<Bytes>, n: int, u: seq<Bytes>, k: int,
                                           t: seq<Bytes>, m: int, v: seq<Bytes>, l: int)
    requires AllFit(s) && AllFit(t) && AllFit(u) && AllFit(v) && |s| == |t| && |u| == |v|
    requires 0 <= n < TWO63 && 0 <= m < TWO63 && 0 <= k < TWO63 && 0 <= l < TWO63
    requires FrameAll(s) + (U64(n) + (FrameAll(u) + U64(k))) == FrameAll(t) + (U64(m) + (FrameAll(v) + U64(l)))
    ensures s == t && n == m && u == v && k == l
  {
    var x, y := FrameAll(u) + U64(k), FrameAll(v) + U64(l);
    FrameAllCancel(s, U64(n) + x, t, U64(m) + y);
    CountCancel(n, x, m, y);
    FramesThenCount(u, k, v, l);
  }

  lemma {:induction false} FramesThenCount(u: seq<Bytes>, k: int, v: seq<Bytes>, l: int)
    requires AllFit(u) && AllFit(v) && |u| == |v| && 0 <= k < TWO63 && 0 <= l < TWO63
    requires FrameAll(u) + U64(k) == FrameAll(v) + U64(l)
    ensures u == v && k == l
  {
    FrameAllCancel(u, U64(k), v, U64(l));
    U64Injective(k, l);
  }

  lemma {:induction false} CompositeBodyInjective(a: Input, b: Input)
    requires a.CompositeInput? && b.CompositeInput? && Representable(a) && Representable(b)
    requires Body(a) == Body(b)
    ensures a == b
  {
    var s, t := [a.normalFormVersion, a.normalForm, a.result], [b.normalFormVersion, b.normalForm, b.result];
    var u, v := [a.profile, a.outcomeContext, a.predicateSet], [b.profile, b.outcomeContext, b.predicateSet];
    CompositeCancel(s, a.visibleRows, u, a.atomCount, t, b.visibleRows, v, b.atomCount);
    assert s[0] == t[0] && s[1] == t[1] && s[2] == t[2] && u[0] == v[0] && u[1] == v[1] && u[2] == v[2];
  }

  lemma {:induction false} BaseBodyInjective(a: Input, b: Input)
    requires (a.BaseRowInput? && b.BaseRowInput?) || (a.BaseCellInput? && b.BaseCellInput?)
    requires Representable(a) && Representable(b) && Body(a) == Body(b)
    ensures a == b
  {
    if a.BaseRowInput? {
      var s, t := [a.ns, a.snapshot, a.entityKey], [b.ns, b.snapshot, b.entityKey];
      FrameAllInjective(s, t);
      assert s[0] == t[0] && s[1] == t[1] && s[2] == t[2];
    } else {
      var s := [a.ns, a.snapshot, a.entityKey, a.field, a.sqlType, a.value];
      var t := [b.ns, b.snapshot, b.entityKey, b.field, b.sqlType, b.value];
      FrameAllInjective(s, t);
      assert s[0] == t[0] && s[1] == t[1] && s[2] == t[2] && s[3] == t[3] && s[4] == t[4] && s[5] == t[5];
    }
  }

  lemma {:induction false} BodyInjective(a: Input, b: Input)
    requires KindOf(a) == KindOf(b) && Representable(a) && Representable(b) && Body(a) == Body(b)
    ensures a == b
  {
    match KindOf(a)
    case BaseRow => BaseBodyInjective(a, b);
    case BaseCell => BaseBodyInjective(a, b);
    case Derived => DerivedBodyInjective(a, b);
    case PredicateAtom => AtomBodyInjective(a, b);
    case CompositeOutcome => CompositeBodyInjective(a, b);
  }

  lemma {:induction false} NormalRepresentable(input: Input)
    requires Representable(input)
    ensures Representable(Normal(input)) && KindOf(Normal(input)) == KindOf(input)
  {
    if input.DerivedInput? {
      BindingTotalOrder();
      SortIsSortedPermutation(BindingLeq, input.bundle);
      var sorted := Sort(BindingLeq, input.bundle);
      forall b | b in sorted ensures Fits(b.ns) && Fits(b.snapshot) {
        assert b in multiset(sorted) && b in multiset(input.bundle);
      }
    }
  }

  /** Same kind and tuple, up to the order of the bundle and the spelling of a default version. */
  ghost predicate SameFact(a: Input, b: Input) {
    match (a, b)
    case (DerivedInput(x, _, _, _, _, _), DerivedInput(y, _, _, _, _, _)) =>
      multiset(x) == multiset(y) && a.(bundle := y) == b
    case (AtomInput(x, _, _, _, _, _, _, _, _, _, _), AtomInput(y, _, _, _, _, _, _, _, _, _, _)) =>
      Defaulted(x) == Defaulted(y) && a.(atomizer := y) == b
    case (CompositeInput(_, _, _, _, x, _, _, _), CompositeInput(_, _, _, _, y, _, _, _)) =>
      Defaulted(x) == Defaulted(y) && a.(profile := y) == b
    case _ => a == b
  }

  lemma {:induction false} SameFactIffSameNormal(a: Input, b: Input)
    ensures SameFact(a, b) <==> Normal(a) == Normal(b)
  {
    if a.DerivedInput? && b.DerivedInput? {
      BindingTotalOrder();
      SortOfPermutation(BindingLeq, a.bundle, b.bundle);
      var x, y := a.bundle, b.bundle;
      assert Normal(a).bundle == Sort(BindingLeq, x) && Normal(b).bundle == Sort(BindingLeq, y);
    }
  }

  /** Fact payloads are unambiguous across all five kinds. */
  lemma {:induction false} PayloadIdentifiesFact(a: Input, b: Input)
    requires Representable(a) && Representable(b)
    ensures Payload(a) == Payload(b) <==> SameFact(a, b)
  {
    SameFactIffSameNormal(a, b);
    NormalRepresentable(a);
    NormalRepresentable(b);
    if Payload(a) == Payload(b) {
      HeadFits(KindOf(a));
      HeadFits(KindOf(b));
      FrameAllCancel(Head(KindOf(a)), Body(Normal(a)), Head(KindOf(b)), Body(Normal(b)));
      assert Head(KindOf(a))[0] == Head(KindOf(b))[0];
      NameDeterminesKind(KindOf(a), KindOf(b));
      BodyInjective(Normal(a), Normal(b));
    }
  }

  // ---------- facts ----------

  datatype CanonicalFact = CanonicalFact(profile: Bytes, kind: Bytes, payload: Bytes, sha256: Bytes)

  function DomainOf(profile: Bytes): Bytes {
    if profile == PROFILE_V5 then DOMAIN_V5 else DOMAIN_V2
  }

  function Finish(h: HashFunction, profile: Bytes, kind: Bytes, payload: Bytes): CanonicalFact {
    CanonicalFact(profile, kind, payload, HexEncode(h(DomainOf(profile) + payload)))
  }

  function FactOf(h: HashFunction, input: Input): CanonicalFact {
    Finish(h, ProfileOf(KindOf(input)), KindName(KindOf(input)), Payload(input))
  }

  ghost predicate SupportedKind(profile: Bytes, kind: Bytes) {
    || (profile == PROFILE_V2 && (kind == KindName(BaseRow) || kind == KindName(BaseCell) || kind == KindName(Derived)))
    || (profile == PROFILE_V5 && (kind == KindName(PredicateAtom) || kind == KindName(CompositeOutcome)))
  }

  /** ValidateCanonicalFact. */
  ghost predicate ValidFact(h: HashFunction, fact: CanonicalFact) {
    && Token(fact.profile) && Token(fact.kind) && fact.payload != [] && ValidSha256(fact.sha256)
    && SupportedKind(fact.profile, fact.kind)
    && (match ReadFramed(fact.payload)
        case None => false
        case Some((first, rest)) =>
          first == fact.kind &&
          match ReadFramed(rest)
          case None => false
          case Some((second, _)) => second == fact.profile)
    && HexEncode(h(DomainOf(fact.profile) + fact.payload)) == fact.sha256
  }

  /** ValidateCanonicalFact, check by check. */
  method ValidateFact(h: HashFunction, fact: CanonicalFact) returns (ok: bool)
    ensures ok == ValidFact(h, fact)
  {
    if !Token(fact.profile) || !Token(fact.kind) || |fact.payload| == 0 || !ValidSha256(fact.sha256) { return false; }
    var domain: Bytes;
    if fact.profile == PROFILE_V2 {
      domain := DOMAIN_V2;
      if fact.kind != KindName(BaseRow) && fact.kind != KindName(BaseCell) && fact.kind != KindName(Derived) {
        DifferentProfiles();
        return false;
      }
    } else if fact.profile == PROFILE_V5 {
      domain := DOMAIN_V5;
      if fact.kind != KindName(PredicateAtom) && fact.kind != KindName(CompositeOutcome) { return false; }
    } else {
      return false;
    }
    var first := ReadFramed(fact.payload);
    if first.None? || first.value.0 != fact.kind { return false; }
    var second := ReadFramed(first.value.1);
    if second.None? || second.value.0 != fact.profile { return false; }
    DifferentProfiles();
    return HexEncode(h(domain + fact.payload)) == fact.sha256;
  }

  lemma {:induction false} DifferentProfiles()
    ensures PROFILE_V2 != PROFILE_V5
  {
    assert PROFILE_V2[19] == '2' as int && PROFILE_V5[19] == '5' as int;
  }

  /** The payload starts with the framed kind and the framed profile. */
  ghost predicate StartsWith(payload: Bytes, kind: Bytes, profile: Bytes, rest: Bytes) {
    payload == Framed(kind) + (Framed(profile) + rest)
  }

  /** Valid are exactly the facts of a known kind whose payload names its kind and profile and whose
      hash is that of the profile's domain and the payload. */
  lemma {:induction false} ValidFactExactly(h: HashFunction, fact: CanonicalFact)
    ensures ValidFact(h, fact) <==>
            && (exists kind: Kind :: fact.kind == KindName(kind) && fact.profile == ProfileOf(kind))
            && (exists rest :: StartsWith(fact.payload, fact.kind, fact.profile, rest))
            && fact.sha256 == HexEncode(h((if fact.profile == PROFILE_V5 then DOMAIN_V5 else DOMAIN_V2) + fact.payload))
  {
    if ValidFact(h, fact) {
      KindOfNames(fact.profile, fact.kind);
      var (first, tail) := ReadFramed(fact.payload).value;
      var (second, rest) := ReadFramed(tail).value;
      WriteInvertsRead(fact.payload);
      WriteInvertsRead(tail);
      assert StartsWith(fact.payload, fact.kind, fact.profile, rest);
    }
    if kind: Kind, rest: Bytes :| fact.kind == KindName(kind) && fact.profile == ProfileOf(kind) &&
                                  StartsWith(fact.payload, fact.kind, fact.profile, rest) {
      NamesAreTokens(kind);
      ReadInvertsWrite(fact.kind, Framed(fact.profile) + rest);
      ReadInvertsWrite(fact.profile, rest);
      HashIsValidSha256(h, DomainOf(fact.profile) + fact.payload);
    }
  }

  lemma {:induction false} KindOfNames(profile: Bytes, kind: Bytes)
    requires SupportedKind(profile, kind)
    ensures exists k: Kind :: kind == KindName(k) && profile == ProfileOf(k)
  {
    assert PROFILE_V2 == ProfileOf(BaseRow) == ProfileOf(BaseCell) == ProfileOf(Derived);
    assert PROFILE_V5 == ProfileOf(PredicateAtom) == ProfileOf(CompositeOutcome);
  }

  lemma {:induction false} HashIsValidSha256(h: HashFunction, preimage: Bytes)
    ensures ValidSha256(HexEncode(h(preimage)))
  {
    HexRoundTrip(h(preimage));
  }

  lemma {:induction false} NamesAreTokens(kind: Kind)
    ensures Token(KindName(kind)) && Token(ProfileOf(kind)) && SupportedKind(ProfileOf(kind), KindName(kind))
  {
    PrintableBoundary(KindName(kind));
    PrintableBoundary(ProfileOf(kind));
  }

  lemma {:induction false} HeadReads(kind: Kind, body: Bytes)
    ensures ReadFramed(FrameAll(Head(kind)) + body) == Some((KindName(kind), Framed(ProfileOf(kind)) + body))
    ensures ReadFramed(Framed(ProfileOf(kind)) + body) == Some((ProfileOf(kind), body))
  {
    var p := ProfileOf(kind);
    assert FrameAll([p]) == Framed(p) + FrameAll([]);
    assert Head(kind)[1..] == [p];
    assert FrameAll(Head(kind)) + body == Framed(KindName(kind)) + (Framed(p) + body);
    ReadInvertsWrite(KindName(kind), Framed(p) + body);
    ReadInvertsWrite(p, body);
  }

  /** Every fact a builder returns passes the validator. */
  lemma {:induction false} BuiltFactValidates(h: HashFunction, input: Input)
    ensures ValidFact(h, FactOf(h, input))
  {
    var kind := KindOf(input);
    NamesAreTokens(kind);
    HeadReads(kind, Body(Normal(input)));
    HashIsValidSha256(h, DomainOf(ProfileOf(kind)) + Payload(input));
  }

  /** The hash names the fact: under collision freedom two built facts share a hash exactly when
      they are the same tuple. */
  lemma {:induction false} HashIdentifiesFact(h: HashFunction, a: Input, b: Input)
    requires Representable(a) && Representable(b)
    requires CollisionFree(h, {FactPreimage(a), FactPreimage(b)})
    ensures FactOf(h, a).sha256 == FactOf(h, b).sha256 <==> SameFact(a, b)
    ensures FactOf(h, a) == FactOf(h, b) <==> SameFact(a, b)
  {
    PayloadIdentifiesFact(a, b);
    HexRoundTrip(h(FactPreimage(a)));
    HexRoundTrip(h(FactPreimage(b)));
    if FactOf(h, a).sha256 == FactOf(h, b).sha256 {
      assert FactPreimage(a) == FactPreimage(b);
      var m, n := DomainOf(ProfileOf(KindOf(a))), DomainOf(ProfileOf(KindOf(b)));
      assert Payload(a) == FactPreimage(a)[|m|..] && Payload(b) == FactPreimage(b)[|n|..];
    }
    if SameFact(a, b) { assert KindOf(a) == KindOf(b); }
  }

  function FactPreimage(input: Input): Bytes {
    DomainOf(ProfileOf(KindOf(input))) + Payload(input)
  }

  /** A changed payload or kind is caught: under collision freedom the only valid fact with a
      builder's profile and hash is that builder's fact. */
  lemma {:induction false} MutationIsCaught(h: HashFunction, fact: CanonicalFact, input: Input)
    requires ValidFact(h, fact)
    requires fact.profile == ProfileOf(KindOf(input)) && fact.sha256 == FactOf(h, input).sha256
    requires CollisionFree(h, {FactPreimage(input), DomainOf(fact.profile) + fact.payload})
    ensures fact == FactOf(h, input)
  {
    var d := DomainOf(fact.profile);
    SameDigestSamePayload(h, d, fact.payload, Payload(input));
    HeadReads(KindOf(input), Body(Normal(input)));
  }

  lemma {:induction false} SameDigestSamePayload(h: HashFunction, d: Bytes, x: Bytes, y: Bytes)
    requires CollisionFree(h, {d + y, d + x}) && HexEncode(h(d + x)) == HexEncode(h(d + y))
    ensures x == y
  {
    HexRoundTrip(h(d + x));
    HexRoundTrip(h(d + y));
    assert x == (d + x)[|d|..] && y == (d + y)[|d|..];
  }

  // ---------- composed keys ----------

  /** What an ordered, length-delimited semantic key hashes. */
  function Composed(domain: Bytes, values: seq<Bytes>): Bytes {
    Framed(domain) + (U64(|values|) + FrameAll(values))
  }

  lemma {:induction false} ComposedInjective(domain: Bytes, a: seq<Bytes>, b: seq<Bytes>)
    requires AllFit(a) && AllFit(b) && Composed(domain, a) == Composed(domain, b)
    ensures a == b
  {
    PrefixCancel(Framed(domain), U64(|a|) + FrameAll(a), Framed(domain), U64(|b|) + FrameAll(b));
    PrefixCancel(U64(|a|), FrameAll(a), U64(|b|), FrameAll(b));
    FrameAllInjective(a, b);
  }

  // ---------- the builders ----------

  /** canonicalFactPayload's loop: fields appended to a buffer. */
  method WriteFields(buffer: Bytes, fields: seq<Bytes>) returns (payload: Bytes)
    ensures payload == buffer + FrameAll(fields)
  {
    payload := buffer;
    for i := 0 to |fields|
      invariant payload == buffer + FrameAll(fields[..i])
    {
      FieldWritten(buffer, fields, i);
      payload := payload + Framed(fields[i]);
    }
    assert fields[..|fields|] == fields;
  }

  lemma {:induction false} FieldWritten(buffer: Bytes, fields: seq<Bytes>, i: nat)
    requires i < |fields|
    ensures buffer + FrameAll(fields[..i]) + Framed(fields[i]) == buffer + FrameAll(fields[..i + 1])
  {
    FrameAllSnoc(fields[..i], fields[i]);
    assert fields[..i + 1] == fields[..i] + [fields[i]];
    Assoc(buffer, FrameAll(fields[..i]), Framed(fields[i]));
  }

  method WriteBindings(buffer: Bytes, bindings: seq<Binding>) returns (payload: Bytes)
    ensures payload == buffer + FrameAll(Flat(bindings))
  {
    payload := buffer;
    for i := 0 to |bindings|
      invariant payload == buffer + FrameAll(Flat(bindings[..i]))
    {
      BindingWritten(buffer, bindings, i);
      payload := payload + Framed(bindings[i].ns) + Framed(bindings[i].snapshot);
    }
    assert bindings[..|bindings|] == bindings;
  }

  lemma {:induction false} BindingWritten(buffer: Bytes, bindings: seq<Binding>, i: nat)
    requires i < |bindings|
    ensures buffer + FrameAll(Flat(bindings[..i])) + Framed(bindings[i].ns) + Framed(bindings[i].snapshot)
            == buffer + FrameAll(Flat(bindings[..i + 1]))
  {
    var b, done := bindings[i], Flat(bindings[..i]);
    FlatSnoc(bindings[..i], b);
    assert bindings[..i + 1] == bindings[..i] + [b];
    FrameAllSnoc(done, b.ns);
    FrameAllSnoc(done + [b.ns], b.snapshot);
    assert done + [b.ns] + [b.snapshot] == done + [b.ns, b.snapshot];
    Assoc(buffer, FrameAll(done), Framed(b.ns));
    Assoc(buffer, FrameAll(done) + Framed(b.ns), Framed(b.snapshot));
  }

  method WriteDerived(bindings: seq<Binding>, tail: seq<Bytes>) returns (payload: Bytes)
    ensures payload == FrameAll(Head(Derived)) + (U64(|bindings|) + (FrameAll(Flat(bindings)) + FrameAll(tail)))
  {
    payload := WriteFields([], Head(Derived));
    payload := payload + U64(|bindings|);
    payload := WriteBindings(payload, bindings);
    payload := WriteFields(payload, tail);
    Regroup(FrameAll(Head(Derived)), U64(|bindings|), FrameAll(Flat(bindings)), FrameAll(tail), []);
  }

  lemma {:induction false} Regroup(a: Bytes, b: Bytes, c: Bytes, d: Bytes, e: Bytes)
    ensures [] + a == a
    ensures [] + a + b + c + d == a + (b + (c + d))
    ensures [] + a + b + c + d + e == a + (b + (c + (d + e)))
  {
  }

  method WriteComposite(head: seq<Bytes>, rows: int, middle: seq<Bytes>, atoms: int) returns (payload: Bytes)
    ensures payload == FrameAll(Head(CompositeOutcome))
                       + (FrameAll(head) + (U64(rows) + (FrameAll(middle) + U64(atoms))))
  {
    payload := WriteFields([], Head(CompositeOutcome));
    payload := WriteFields(payload, head);
    payload := payload + U64(rows);
    payload := WriteFields(payload, middle);
    payload := payload + U64(atoms);
    Regroup(FrameAll(Head(CompositeOutcome)), FrameAll(head), U64(rows), FrameAll(middle), U64(atoms));
  }

  method BuildDerivedFact(h: HashFunction, ok: ValueCheck, input: Input) returns (r: Option<CanonicalFact>)
    requires input.DerivedInput?
    ensures r == if Accepted(ok, input) then Some(FactOf(h, input)) else None
  {
    if |input.bundle| == 0 || !Token(input.outputRowKey) || !Token(input.expression) || !Token(input.sqlType) ||
       |input.value| == 0 || !ValidSha256(input.commitment) {
      return None;
    }
    if !CanonicalSqlType(input.sqlType) || !ok(input.sqlType, input.value) { return None; }
    var bindings := CheckBundle(input.bundle);
    if bindings.None? { return None; }
    var payload := WriteDerived(bindings.value,
      [input.outputRowKey, input.expression, input.sqlType, input.value, input.commitment]);
    return Some(Finish(h, PROFILE_V2, KindName(Derived), payload));
  }

  method BuildCompositeFact(h: HashFunction, ok: ValueCheck, input: Input) returns (r: Option<CanonicalFact>)
    requires input.CompositeInput?
    ensures r == if Accepted(ok, input) then Some(FactOf(h, input)) else None
  {
    var profile := input.profile;
    if |profile| == 0 { profile := PREDICATE_PROFILE; }
    if !Token(input.normalFormVersion) || !ValidSha256(input.normalForm) || !ValidSha256(input.result) ||
       input.visibleRows < 0 || profile != PREDICATE_PROFILE || !ValidSha256(input.outcomeContext) ||
       !ValidSha256(input.predicateSet) || input.atomCount < 0 {
      return None;
    }
    var payload := WriteComposite([input.normalFormVersion, input.normalForm, input.result], input.visibleRows,
      [profile, input.outcomeContext, input.predicateSet], input.atomCount);
    return Some(Finish(h, PROFILE_V5, KindName(CompositeOutcome), payload));
  }

  /** The other three builders frame a fixed list of fields. */
  method WriteFact(kind: Kind, fields: seq<Bytes>) returns (payload: Bytes)
    ensures payload == FrameAll(Head(kind)) + FrameAll(fields)
  {
    payload := WriteFields([], Head(kind));
    Regroup(FrameAll(Head(kind)), [], [], [], []);
    payload := WriteFields(payload, fields);
  }

  method BuildBaseRowFact(h: HashFunction, ok: ValueCheck, input: Input) returns (r: Option<CanonicalFact>)
    requires input.BaseRowInput?
    ensures r == if Accepted(ok, input) then Some(FactOf(h, input)) else None
  {
    if !Token(input.ns) || !Token(input.snapshot) || !Token(input.entityKey) { return None; }
    var payload := WriteFact(BaseRow, [input.ns, input.snapshot, input.entityKey]);
    return Some(Finish(h, PROFILE_V2, KindName(BaseRow), payload));
  }

  method BuildBaseCellFact(h: HashFunction, ok: ValueCheck, input: Input) returns (r: Option<CanonicalFact>)
    requires input.BaseCellInput?
    ensures r == if Accepted(ok, input) then Some(FactOf(h, input)) else None
  {
    if !Token(input.ns) || !Token(input.snapshot) || !Token(input.entityKey) || !Token(input.field) ||
       !Token(input.sqlType) || |input.value| == 0 {
      return None;
    }
    if !CanonicalSqlType(input.sqlType) || !ok(input.sqlType, input.value) { return None; }
    var payload := WriteFact(BaseCell,
      [input.ns, input.snapshot, input.entityKey, input.field, input.sqlType, input.value]);
    return Some(Finish(h, PROFILE_V2, KindName(BaseCell), payload));
  }

  method BuildPredicateAtomFact(h: HashFunction, ok: ValueCheck, input: Input) returns (r: Option<CanonicalFact>)
    requires input.AtomInput?
    ensures r == if Accepted(ok, input) then Some(FactOf(h, input)) else None
  {
    var atomizer := input.atomizer;
    if |atomizer| == 0 { atomizer := PREDICATE_PROFILE; }
    var complete := CheckAtom(ok, input, atomizer);
    if !complete { return None; }
    var payload := WriteFact(PredicateAtom,
      [atomizer, input.context, input.product, input.role, input.publicField, input.resolved,
       input.sqlType, input.collation, input.collationVersion, input.operator, input.literal]);
    return Some(Finish(h, PROFILE_V5, KindName(PredicateAtom), payload));
  }

  /** The atom's checks, in the source's order. */
  method CheckAtom(ok: ValueCheck, input: Input, atomizer: Bytes) returns (complete: bool)
    requires input.AtomInput? && atomizer == Defaulted(input.atomizer)
    ensures complete == Accepted(ok, input)
  {
    if atomizer != PREDICATE_PROFILE || !ValidSha256(input.context) || !Token(input.product) || !Token(input.role) ||
       !Token(input.publicField) || !Token(input.sqlType) || !Token(input.operator) || |input.literal| == 0 {
      return false;
    }
    if |input.resolved| != 0 && !ValidSha256(input.resolved) { return false; }
    if !CanonicalSqlType(input.sqlType) || !ok(input.sqlType, input.literal) { return false; }
    if Collatable(input.sqlType) {
      if !Token(input.collation) || !Token(input.collationVersion) { return false; }
    } else if |input.collation| != 0 || |input.collationVersion| != 0 {
      return false;
    }
    return Operator(input.operator);
  }
}
