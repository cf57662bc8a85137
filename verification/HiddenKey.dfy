/** The grouped sum that does not return its group key (evaluation/exposureoracle/oracle.go,
    groupHiddenKeySum): a loop nest of its own, described here by its own folds, and compared with the
    full query of `Grouping`. */
module HiddenKey {
  import opened GoBytes
  import opened Sorting
  import opened Facts
  import opened Grouping

  // ---------- one group, member by member ----------

  /** The inner loop meets no missing or malformed cell. */
  ghost predicate Readable(rat: Rationals, source: Source, members: seq<Row>) {
    members == [] ||
    (Readable(rat, source, members[..|members| - 1]) && RowOk(rat, source, members[|members| - 1]))
  }

  /** The only witness list this query collects. */
  ghost function AmountWitness(rat: Rationals, source: Source, members: seq<Row>): seq<Input>
    requires Readable(rat, source, members)
  {
    if members == [] then []
    else
      var n := |members| - 1;
      AmountWitness(rat, source, members[..n]) + [AmountFact(rat, source, members[n]).value]
  }

  /** What the inner loop adds to the influence set. */
  ghost function AddedFacts(rat: Rationals, source: Source, members: seq<Row>): set<Input>
    requires Readable(rat, source, members)
  {
    if members == [] then {}
    else
      var n := |members| - 1;
      AddedFacts(rat, source, members[..n])
      + {BaseRowFact(source, members[n])}
      + {DepartmentFact(rat, source, members[n]).value}
      + {AmountFact(rat, source, members[n]).value}
  }

  lemma {:induction false} ReadableSnoc(rat: Rationals, source: Source, members: seq<Row>, i: nat)
    requires i < |members|
    ensures Readable(rat, source, members[..i + 1])
            == (Readable(rat, source, members[..i]) && RowOk(rat, source, members[i]))
  {
    assert members[..i + 1][..i] == members[..i];
  }

  lemma {:induction false} ReadableMember(rat: Rationals, source: Source, members: seq<Row>, i: nat)
    requires i < |members| && Readable(rat, source, members)
    ensures RowOk(rat, source, members[i])
  {
    var n := |members| - 1;
    if i < n {
      assert members[..n][i] == members[i];
      ReadableMember(rat, source, members[..n], i);
    }
  }

  lemma {:induction false} AddedTogether(facts: set<Input>, x: Input, y: Input, z: Input)
    ensures facts + {x} + {y} + {z} == facts + {x, y, z}
  {
  }

  /** Adding a row's three facts one by one adds what the row contributes. */
  lemma {:induction false} LastAdded(rat: Rationals, source: Source, members: seq<Row>)
    requires members != [] && Readable(rat, source, members)
    ensures AddedFacts(rat, source, members)
            == AddedFacts(rat, source, members[..|members| - 1]) + RowInfluence(rat, source, members[|members| - 1])
  {
    var n := |members| - 1;
    AddedTogether(AddedFacts(rat, source, members[..n]), BaseRowFact(source, members[n]),
                  DepartmentFact(rat, source, members[n]).value, AmountFact(rat, source, members[n]).value);
  }

  lemma {:induction false} WitnessSnoc(rat: Rationals, source: Source, members: seq<Row>, i: nat)
    requires i < |members| && Readable(rat, source, members[..i + 1]) && Readable(rat, source, members[..i])
    requires RowOk(rat, source, members[i])
    ensures AmountWitness(rat, source, members[..i + 1])
            == AmountWitness(rat, source, members[..i]) + [AmountFact(rat, source, members[i]).value]
    ensures AddedFacts(rat, source, members[..i + 1])
            == AddedFacts(rat, source, members[..i]) + RowInfluence(rat, source, members[i])
  {
    assert members[..i + 1][..i] == members[..i];
    LastAdded(rat, source, members[..i + 1]);
  }

  /** The inner loop: amount witnesses only, but every row's three facts influence the result. */
  method ReadAmounts(rat: Rationals, source: Source, members: seq<Row>, influence: set<Input>)
    returns (r: Option<seq<Input>>, next: set<Input>)
    ensures r.Some? <==> Readable(rat, source, members)
    ensures r.Some? ==> r.value == AmountWitness(rat, source, members)
    ensures r.Some? ==> next == influence + AddedFacts(rat, source, members)
  {
    var amounts: seq<Input> := [];
    next := influence;
    for i := 0 to |members|
      invariant Readable(rat, source, members[..i]) && amounts == AmountWitness(rat, source, members[..i])
      invariant next == influence + AddedFacts(rat, source, members[..i])
    {
      ReadableSnoc(rat, source, members, i);
      if Readable(rat, source, members) { ReadableMember(rat, source, members, i); }
      var department := DepartmentFact(rat, source, members[i]);
      if department.None? { return None, next; }
      var amount := AmountFact(rat, source, members[i]);
      if amount.None? { return None, next; }
      WitnessSnoc(rat, source, members, i);
      amounts := amounts + [amount.value];
      next := next + {BaseRowFact(source, members[i]), department.value, amount.value};
    }
    assert members[..|members|] == members;
    r := Some(amounts);
  }

  // ---------- one group ----------

  ghost predicate HiddenGroupOk(rat: Rationals, source: Source, key: Bytes) {
    var members := Members(rat, source.rows, key);
    Readable(rat, source, members) && SumValue(rat, members).Some?
  }

  /** The one fact a group releases. */
  ghost function HiddenSum(h: HashFunction, rat: Rationals, source: Source, key: Bytes): Input
    requires HiddenGroupOk(rat, source, key)
  {
    var members := Members(rat, source.rows, key);
    DerivedFact(source, GroupRowKey(h, source, key), SumExpression(source), NUMERIC,
                SumValue(rat, members).value, WitnessOf(h, AmountWitness(rat, source, members)))
  }

  ghost function HiddenReleaseBy(h: HashFunction, rat: Rationals, source: Source): Bytes -> set<Input> {
    key => if HiddenGroupOk(rat, source, key) then {HiddenSum(h, rat, source, key)} else {}
  }

  ghost function HiddenInfluenceBy(rat: Rationals, source: Source): Bytes -> set<Input> {
    key => var members := Members(rat, source.rows, key);
           if Readable(rat, source, members) then AddedFacts(rat, source, members) else {}
  }

  method SumGroup(h: HashFunction, rat: Rationals, source: Source, key: Bytes, members: seq<Row>, amounts: seq<Input>)
    returns (r: Option<Input>)
    requires members == Members(rat, source.rows, key) && Readable(rat, source, members)
    requires amounts == AmountWitness(rat, source, members)
    ensures r.Some? <==> HiddenGroupOk(rat, source, key)
    ensures r.Some? ==> r.value == HiddenSum(h, rat, source, key)
  {
    var text := SumRows(rat, members);
    var value := CanonicalValue(rat, NUMERIC, Text(text));
    if value.None? { return None; }
    var commitment := WitnessCommitment(h, amounts);
    var rowKey := ComposeRowKey(h, source, key);
    r := Some(DerivedFact(source, rowKey, SumExpression(source), NUMERIC, value.value, commitment));
  }

  method ReadGroup(rat: Rationals, source: Source, key: Bytes, members: seq<Row>, influence: set<Input>)
    returns (r: Option<seq<Input>>, next: set<Input>)
    requires members == Members(rat, source.rows, key)
    ensures r.Some? <==> Readable(rat, source, members)
    ensures r.Some? ==> r.value == AmountWitness(rat, source, members)
    ensures r.Some? ==> next == influence + HiddenInfluenceBy(rat, source)(key)
  {
    r, next := ReadAmounts(rat, source, members, influence);
  }

  /** One iteration of the outer loop. */
  method ObserveHiddenGroup(
    h: HashFunction, rat: Rationals, source: Source, key: Bytes, members: seq<Row>, o: Observation)
    returns (r: Option<Observation>)
    requires members == Members(rat, source.rows, key)
    ensures r.Some? <==> HiddenGroupOk(rat, source, key)
    ensures r.Some? ==> r.value.release == o.release + HiddenReleaseBy(h, rat, source)(key)
    ensures r.Some? ==> r.value.influence == o.influence + HiddenInfluenceBy(rat, source)(key)
  {
    var amounts, influence := ReadGroup(rat, source, key, members, o.influence);
    if amounts.None? { return None; }
    var sum := SumGroup(h, rat, source, key, members, amounts.value);
    if sum.None? { return None; }
    return Some(Observation(o.release + {sum.value}, influence));
  }

  // ---------- all groups ----------

  ghost predicate HiddenGroupsOk(rat: Rationals, source: Source, keys: seq<Bytes>) {
    keys == [] ||
    (HiddenGroupsOk(rat, source, keys[..|keys| - 1]) && HiddenGroupOk(rat, source, keys[|keys| - 1]))
  }

  lemma {:induction false} HiddenGroupsSnoc(rat: Rationals, source: Source, keys: seq<Bytes>, i: nat)
    requires i < |keys|
    ensures HiddenGroupsOk(rat, source, keys[..i + 1])
            == (HiddenGroupsOk(rat, source, keys[..i]) && HiddenGroupOk(rat, source, keys[i]))
    ensures HiddenGroupsOk(rat, source, keys) ==> HiddenGroupOk(rat, source, keys[i])
  {
    assert keys[..i + 1][..i] == keys[..i];
    if HiddenGroupsOk(rat, source, keys) { HiddenGroupsAt(rat, source, keys, i); }
  }

  lemma {:induction false} HiddenGroupsAt(rat: Rationals, source: Source, keys: seq<Bytes>, i: nat)
    requires i < |keys| && HiddenGroupsOk(rat, source, keys)
    ensures HiddenGroupOk(rat, source, keys[i])
  {
    var n := |keys| - 1;
    if i < n {
      assert keys[..n][i] == keys[i];
      HiddenGroupsAt(rat, source, keys[..n], i);
    }
  }

  /** Acceptance and observation of the query, group by group over the ascending keys. */
  ghost predicate HiddenOk(rat: Rationals, source: Source) {
    Keyed(rat, source.rows) && HiddenGroupsOk(rat, source, Listing(KeysOf(rat, source.rows)))
  }

  ghost function HiddenObservation(h: HashFunction, rat: Rationals, source: Source): Observation
    requires HiddenOk(rat, source)
  {
    var keys := Listing(KeysOf(rat, source.rows));
    Observation(UnionOver(HiddenReleaseBy(h, rat, source), keys), UnionOver(HiddenInfluenceBy(rat, source), keys))
  }

  method EnumerateHidden(
    h: HashFunction, rat: Rationals, source: Source, groups: map<Bytes, seq<Row>>, keys: seq<Bytes>)
    returns (r: Option<Observation>)
    requires Keyed(rat, source.rows) && IsGrouping(rat, source.rows, groups)
             && Elements(keys) == KeysOf(rat, source.rows)
    ensures r.Some? <==> HiddenGroupsOk(rat, source, keys)
    ensures r.Some? ==> r.value.release == UnionOver(HiddenReleaseBy(h, rat, source), keys)
    ensures r.Some? ==> r.value.influence == UnionOver(HiddenInfluenceBy(rat, source), keys)
  {
    var o := Observation({}, {});
    for i := 0 to |keys|
      invariant HiddenGroupsOk(rat, source, keys[..i])
      invariant o.release == UnionOver(HiddenReleaseBy(h, rat, source), keys[..i])
      invariant o.influence == UnionOver(HiddenInfluenceBy(rat, source), keys[..i])
    {
      assert keys[i] in Elements(keys);
      HiddenGroupsSnoc(rat, source, keys, i);
      var next := ObserveHiddenGroup(h, rat, source, keys[i], groups[keys[i]], o);
      if next.None? { return None; }
      UnionSnoc(HiddenReleaseBy(h, rat, source), keys, i);
      UnionSnoc(HiddenInfluenceBy(rat, source), keys, i);
      o := next.value;
    }
    assert keys[..|keys|] == keys;
    return Some(o);
  }

  lemma {:induction false} HiddenGroupsMean(rat: Rationals, source: Source, keys: seq<Bytes>)
    requires forall key :: key in keys ==> HiddenGroupOk(rat, source, key)
    ensures HiddenGroupsOk(rat, source, keys)
  {
    if keys != [] {
      HiddenGroupsMean(rat, source, keys[..|keys| - 1]);
    }
  }

  lemma {:induction false} HiddenGroupsAnyOrder(rat: Rationals, source: Source, a: seq<Bytes>, b: seq<Bytes>)
    requires Elements(a) == Elements(b) && HiddenGroupsOk(rat, source, a)
    ensures HiddenGroupsOk(rat, source, b)
  {
    forall key | key in b ensures HiddenGroupOk(rat, source, key) {
      assert key in Elements(b) && key in Elements(a);
      var i :| 0 <= i < |a| && a[i] == key;
      HiddenGroupsAt(rat, source, a, i);
    }
    HiddenGroupsMean(rat, source, b);
  }

  method GroupHiddenKeySum(h: HashFunction, rat: Rationals, source: Source) returns (r: Option<Observation>)
    ensures r == if HiddenOk(rat, source) then Some(HiddenObservation(h, rat, source)) else None
  {
    var groups := GroupRows(rat, source.rows);
    if groups.None? { return None; }
    var keys := AnyOrder(groups.value.Keys);
    ghost var listed := Listing(KeysOf(rat, source.rows));
    r := EnumerateHidden(h, rat, source, groups.value, keys);
    if HiddenGroupsOk(rat, source, listed) { HiddenGroupsAnyOrder(rat, source, listed, keys); }
    if HiddenGroupsOk(rat, source, keys) { HiddenGroupsAnyOrder(rat, source, keys, listed); }
    UnionIgnoresOrder(HiddenReleaseBy(h, rat, source), keys, listed);
    UnionIgnoresOrder(HiddenInfluenceBy(rat, source), keys, listed);
  }

  // ---------- the two queries compared ----------

  lemma {:induction false} ReadableIsAllOk(rat: Rationals, source: Source, members: seq<Row>)
    ensures Readable(rat, source, members) <==> AllOk(rat, source, members)
  {
    if members != [] {
      var n := |members| - 1;
      ReadableIsAllOk(rat, source, members[..n]);
      assert members == members[..n] + [members[n]];
    }
  }

  /** The two inner loops collect the same amount witnesses. */
  lemma {:induction false} SameAmounts(rat: Rationals, source: Source, members: seq<Row>, w: Witnesses)
    requires Readable(rat, source, members) && WitnessesAre(rat, source, members, w)
    ensures AmountWitness(rat, source, members) == w.amounts
  {
    if members != [] {
      var n := |members| - 1;
      var shorter := Witnesses(w.rows[..n], w.departments[..n], w.amounts[..n]);
      assert WitnessesAre(rat, source, members[..n], shorter);
      SameAmounts(rat, source, members[..n], shorter);
      assert AmountFact(rat, source, members[n]) == Some(w.amounts[n]);
      assert w.amounts == w.amounts[..n] + [w.amounts[n]];
    }
  }

  /** And they add the same facts to the influence set. */
  lemma {:induction false} SameInfluence(rat: Rationals, source: Source, members: seq<Row>)
    requires Readable(rat, source, members) && AllOk(rat, source, members)
    ensures AddedFacts(rat, source, members) == InfluenceOf(rat, source, members)
  {
    if members != [] {
      var n := |members| - 1;
      ReadableIsAllOk(rat, source, members[..n]);
      SameInfluence(rat, source, members[..n]);
      assert members == members[..n] + [members[n]];
      LastAdded(rat, source, members);
      InfluenceSnoc(rat, source, members[..n], members[n]);
    }
  }

  /** A group is readable for one query exactly when it is for the other. */
  lemma {:induction false} SameGroupOk(rat: Rationals, source: Source, key: Bytes)
    ensures HiddenGroupOk(rat, source, key) == GroupOk(rat, source, key)
  {
    ReadableIsAllOk(rat, source, Members(rat, source.rows, key));
  }

  lemma {:induction false} SameAcceptance(rat: Rationals, source: Source)
    ensures HiddenOk(rat, source) == SourceOk(rat, source)
  {
    if Keyed(rat, source.rows) {
      var keys := Listing(KeysOf(rat, source.rows));
      KeysDecide(rat, source, keys);
      SameGroupsOk(rat, source, keys);
    }
  }

  lemma {:induction false} SameGroupsOk(rat: Rationals, source: Source, keys: seq<Bytes>)
    ensures HiddenGroupsOk(rat, source, keys) == GroupsOk(rat, source, keys)
  {
    if keys != [] {
      SameGroupsOk(rat, source, keys[..|keys| - 1]);
      SameGroupOk(rat, source, keys[|keys| - 1]);
    }
  }

  /** A released fact that carries the sum of the amounts. */
  ghost predicate IsSum(source: Source, f: Input) {
    f.DerivedInput? && f.expression == SumExpression(source)
  }

  lemma {:induction false} ExpressionsDiffer(source: Source)
    ensures GroupExpression(source) != SumExpression(source) && CountExpression() != SumExpression(source)
  {
    assert GroupExpression(source)[0] == 'g' as int && SumExpression(source)[0] == 's' as int;
    assert CountExpression()[0] == 'c' as int;
  }

  /** In every group both queries derive the same sum fact: row key, sum and witness commitment agree,
      and it is the only one of the full query's facts that carries the sum. */
  lemma {:induction false} SameSumFact(h: HashFunction, rat: Rationals, source: Source, key: Bytes, f: Input)
    requires HiddenGroupOk(rat, source, key) && GroupOk(rat, source, key)
    ensures f == HiddenSum(h, rat, source, key) <==> f in GroupReleases(h, rat, source, key) && IsSum(source, f)
  {
    var members := Members(rat, source.rows, key);
    var w := WitnessesOf(rat, source, members);
    SameAmounts(rat, source, members, w);
    ExpressionsDiffer(source);
    SumAmongReleases(h, rat, source, key, members, w, HiddenSum(h, rat, source, key), f);
  }

  lemma {:induction false} SumAmongReleases(
    h: HashFunction, rat: Rationals, source: Source, key: Bytes, members: seq<Row>, w: Witnesses, sum: Input, f: Input)
    requires SumValue(rat, members).Some?
    requires GroupExpression(source) != SumExpression(source) && CountExpression() != SumExpression(source)
    requires sum == DerivedFact(source, GroupRowKey(h, source, key), SumExpression(source), NUMERIC,
                                SumValue(rat, members).value, WitnessOf(h, w.amounts))
    ensures f == sum <==> f in Releases(h, rat, source, key, members, w) && IsSum(source, f)
  {
    var rowKey := GroupRowKey(h, source, key);
    var group := DerivedFact(source, rowKey, GroupExpression(source), TEXT, key, WitnessOf(h, w.departments));
    var count := DerivedFact(source, rowKey, CountExpression(), BIGINT, CountValue(members), WitnessOf(h, w.rows));
    OnlySum(source, f, Releases(h, rat, source, key, members, w), group, sum, count);
  }

  lemma {:induction false} OnlySum(
    source: Source, f: Input, releases: set<Input>, group: Input, sum: Input, count: Input)
    requires releases == {group, sum, count}
    requires IsSum(source, sum) && !IsSum(source, group) && !IsSum(source, count)
    ensures f == sum <==> f in releases && IsSum(source, f)
  {
  }

  lemma {:induction false} SumReleasesOf(h: HashFunction, rat: Rationals, source: Source, keys: seq<Bytes>, f: Input)
    requires forall key :: key in keys ==> HiddenGroupOk(rat, source, key) && GroupOk(rat, source, key)
    ensures f in UnionOver(HiddenReleaseBy(h, rat, source), keys) <==>
            f in UnionOver(ReleaseBy(h, rat, source), keys) && IsSum(source, f)
  {
    if keys != [] {
      var n := |keys| - 1;
      SumReleasesOf(h, rat, source, keys[..n], f);
      SameSumFact(h, rat, source, keys[n], f);
    }
  }

  lemma {:induction false} SameInfluenceOf(rat: Rationals, source: Source, keys: seq<Bytes>)
    requires forall key :: key in keys ==> Readable(rat, source, Members(rat, source.rows, key))
    ensures UnionOver(HiddenInfluenceBy(rat, source), keys) == UnionOver(InfluenceBy(rat, source), keys)
  {
    if keys != [] {
      var n := |keys| - 1;
      SameInfluenceOf(rat, source, keys[..n]);
      SameInfluenceAt(rat, source, keys[n]);
    }
  }

  lemma {:induction false} SameInfluenceAt(rat: Rationals, source: Source, key: Bytes)
    requires Readable(rat, source, Members(rat, source.rows, key))
    ensures HiddenInfluenceBy(rat, source)(key) == InfluenceBy(rat, source)(key)
  {
    ReadableIsAllOk(rat, source, Members(rat, source.rows, key));
    SameInfluence(rat, source, Members(rat, source.rows, key));
  }

  lemma {:induction false} BothReadable(rat: Rationals, source: Source, keys: seq<Bytes>)
    requires HiddenGroupsOk(rat, source, keys)
    ensures forall key :: key in keys ==> HiddenGroupOk(rat, source, key) && GroupOk(rat, source, key)
  {
    forall key | key in keys ensures HiddenGroupOk(rat, source, key) && GroupOk(rat, source, key) {
      var i :| 0 <= i < |keys| && keys[i] == key;
      HiddenGroupsAt(rat, source, keys, i);
      SameGroupOk(rat, source, key);
    }
  }

  /** The two loop nests accept the same sources; hiding the group key leaves the influence set as it
      is, and what is released is exactly the part of the full query's release that carries sums. */
  lemma {:induction false} HiddenKeyReleasesLess(h: HashFunction, rat: Rationals, source: Source)
    ensures HiddenOk(rat, source) <==> SourceOk(rat, source)
    ensures SourceOk(rat, source) ==>
              HiddenObservation(h, rat, source).influence == ObservationOf(h, rat, source).influence
    ensures SourceOk(rat, source) ==>
              forall f :: f in HiddenObservation(h, rat, source).release <==>
                          f in ObservationOf(h, rat, source).release && IsSum(source, f)
    ensures SourceOk(rat, source) ==>
              HiddenObservation(h, rat, source).release <= ObservationOf(h, rat, source).release
  {
    SameAcceptance(rat, source);
    if SourceOk(rat, source) {
      var keys := Listing(KeysOf(rat, source.rows));
      BothReadable(rat, source, keys);
      SameInfluenceOf(rat, source, keys);
      InfluenceByGroups(rat, source, keys);
      forall f ensures f in UnionOver(HiddenReleaseBy(h, rat, source), keys) <==>
                       f in UnionOver(ReleaseBy(h, rat, source), keys) && IsSum(source, f) {
        SumReleasesOf(h, rat, source, keys, f);
      }
    }
  }
}
