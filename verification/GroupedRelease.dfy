/** What the grouped queries release and influence, read off the facts themselves: which rows form a group,
    what number a count fact spells, and that the numbers over all groups are the rows
    (evaluation/exposureoracle/oracle.go, groupSumCount). */
module GroupedRelease {
  import opened GoBytes
  import opened Sorting
  import opened Facts
  import opened Grouping
  import Numerals
  import SqlValues

  // ---------- which rows form a group ----------

  predicate Missing(cell: Cell) {
    cell.Absent? || cell.Null?
  }

  /** Rows can be grouped exactly when each department is missing or a text, and two rows share a group
      exactly when both are missing or both are the same text. */
  lemma {:induction false} SameGroupExactly(rat: Rationals, a: Row, b: Row)
    ensures GroupKey(rat, a).Some? <==> Missing(a.department) || a.department.Text?
    ensures GroupKey(rat, a).Some? && GroupKey(rat, b).Some? ==>
              (GroupKey(rat, a) == GroupKey(rat, b) <==>
               (Missing(a.department) && Missing(b.department)) ||
               (a.department.Text? && b.department.Text? && a.department.text == b.department.text))
  {
    assert Ascii("null")[0] == 'n' as int && Ascii("s:")[0] == 's' as int;
    if a.department.Text? && b.department.Text? { SamePrefixed(Ascii("s:"), a.department.text, b.department.text); }
  }

  lemma {:induction false} SamePrefixed(prefix: Bytes, x: Bytes, y: Bytes)
    ensures prefix + x == prefix + y <==> x == y
  {
    assert (prefix + x)[|prefix|..] == x && (prefix + y)[|prefix|..] == y;
  }

  /** What a cell holds as a text, if it is a text or a number. */
  function TextOf(cell: Cell): Bytes {
    match cell
    case Text(t) => t
    case Number(t) => t
    case _ => []
  }

  /** The relational oracle's canonical values, judged by the fact validator's rules: a missing cell and a
      text always pass, a bigint passes if its text is a canonical integer in range, and a numeric if what
      its number prints as is a canonical rational. */
  lemma {:induction false} CanonicalValueAccepted(rat: Rationals, other: ValueCheck, sqlType: Bytes, cell: Cell)
    requires CanonicalValue(rat, sqlType, cell).Some?
    ensures var value := CanonicalValue(rat, sqlType, cell).value;
            && (Missing(cell) ==> value == Ascii("null") && SqlValues.ValueOk(other, sqlType, value))
            && (!Missing(cell) ==> sqlType == TEXT || sqlType == BIGINT || sqlType == NUMERIC)
            && (!Missing(cell) && sqlType == TEXT ==> cell.Text? && SqlValues.ValueOk(other, sqlType, value))
            && (!Missing(cell) && sqlType == BIGINT ==>
                  (SqlValues.ValueOk(other, sqlType, value) <==> SqlValues.IntegerIn(TextOf(cell), -TWO63, TWO63 - 1)))
            && (!Missing(cell) && sqlType == NUMERIC ==>
                  rat.parse(TextOf(cell)).Some? &&
                  (SqlValues.CanonicalRational(rat.text(rat.parse(TextOf(cell)).value)) ==>
                     SqlValues.ValueOk(other, sqlType, value)))
  {
    DistinctTypes();
    if !Missing(cell) {
      if sqlType == TEXT {
        SqlValues.AfterPrefix(Ascii("s:"), TextOf(cell));
      } else if sqlType == BIGINT {
        SqlValues.AfterPrefix(Ascii("i:"), TextOf(cell));
        NotNull(Ascii("i:"), TextOf(cell));
      } else {
        var text := rat.text(rat.parse(TextOf(cell)).value);
        if SqlValues.CanonicalRational(text) { PrintedNumber(other, text); }
      }
    }
  }

  lemma {:induction false} PrintedNumber(other: ValueCheck, text: Bytes)
    requires SqlValues.CanonicalRational(text)
    ensures SqlValues.ValueOk(other, NUMERIC, Ascii("n:") + text)
  {
    SqlValues.AfterPrefix(Ascii("n:"), text);
    SqlValues.TypeNames();
  }

  lemma {:induction false} NotNull(prefix: Bytes, text: Bytes)
    requires |prefix| == 2 && prefix[0] == 'i' as int
    ensures prefix + text != Ascii("null")
  {
    assert (prefix + text)[0] != Ascii("null")[0];
  }

  lemma {:induction false} DistinctTypes()
    ensures TEXT != BIGINT && TEXT != NUMERIC && BIGINT != NUMERIC && Collatable(TEXT)
  {
    SqlValues.TypeNames();
    SqlValues.LongTypeNames();
  }

  /** The positions of the rows of a group. */
  ghost function Positions(rat: Rationals, rows: seq<Row>, key: Bytes): set<int> {
    set i | 0 <= i < |rows| && GroupKey(rat, rows[i]) == Some(key)
  }

  lemma {:induction false} MembersCounted(rat: Rationals, rows: seq<Row>, key: Bytes)
    ensures |Members(rat, rows, key)| == |Positions(rat, rows, key)|
  {
    if rows != [] {
      var n := |rows| - 1;
      MembersCounted(rat, rows[..n], key);
      var before := Positions(rat, rows[..n], key);
      assert forall i :: 0 <= i < n ==> rows[..n][i] == rows[i];
      assert Positions(rat, rows, key) == if InGroup(rat, rows[n], key) then before + {n} else before;
      assert n !in before;
    }
  }

  // ---------- the count fact ----------

  /** The fact states, in the group's output row, a count whose text spells n. */
  ghost predicate StatesCount(h: HashFunction, source: Source, key: Bytes, f: Input, n: int) {
    && IsCount(h, source, key, f) && f.bundle == [Binding(source.ns, source.snapshot)] && f.sqlType == Ascii("bigint")
    && SqlValues.HasPrefix(f.value, Ascii("i:"))
    && SqlValues.ParseCanonicalInt(SqlValues.After(f.value, Ascii("i:"))) == Some(n)
  }

  ghost predicate IsCount(h: HashFunction, source: Source, key: Bytes, f: Input) {
    f.DerivedInput? && f.outputRowKey == GroupRowKey(h, source, key) && f.expression == Ascii("count(*)")
  }

  ghost function CountFact(h: HashFunction, rat: Rationals, source: Source, key: Bytes): Input
    requires GroupOk(rat, source, key)
  {
    var members := Members(rat, source.rows, key);
    DerivedFact(source, GroupRowKey(h, source, key), CountExpression(), BIGINT, CountValue(members),
                WitnessOf(h, WitnessesOf(rat, source, members).rows))
  }

  lemma {:induction false} CountSpells(h: HashFunction, rat: Rationals, source: Source, key: Bytes)
    requires GroupOk(rat, source, key)
    ensures StatesCount(h, source, key, CountFact(h, rat, source, key), |Positions(rat, source.rows, key)|)
    ensures CountFact(h, rat, source, key) in GroupReleases(h, rat, source, key)
  {
    var members := Members(rat, source.rows, key);
    MembersCounted(rat, source.rows, key);
    SqlValues.AfterPrefix(Ascii("i:"), Numerals.FormatInt(|members|));
    SqlValues.ParseFormat(|members|);
  }

  lemma {:induction false} ExpressionsDiffer(source: Source)
    ensures GroupExpression(source) != CountExpression() && SumExpression(source) != CountExpression()
    ensures GroupExpression(source) != SumExpression(source)
  {
    assert GroupExpression(source)[0] == 'g' as int && SumExpression(source)[0] == 's' as int;
    assert CountExpression()[0] == 'c' as int;
  }

  ghost predicate InRow(f: Input, rowKey: Bytes) {
    f.DerivedInput? && f.outputRowKey == rowKey
  }

  lemma {:induction false} OnlyCount(
    rowKey: Bytes, f: Input, releases: set<Input>, group: Input, sum: Input, count: Input)
    requires releases == {group, sum, count} && f in releases
    requires InRow(group, rowKey) && InRow(sum, rowKey) && InRow(count, rowKey)
    requires group.expression != count.expression && sum.expression != count.expression
    ensures InRow(f, rowKey) && (f.expression == count.expression <==> f == count)
  {
  }

  lemma {:induction false} OneCountPerGroup(h: HashFunction, rat: Rationals, source: Source, key: Bytes, f: Input)
    requires GroupOk(rat, source, key) && f in GroupReleases(h, rat, source, key)
    ensures InRow(f, GroupRowKey(h, source, key))
    ensures f.expression == Ascii("count(*)") <==> f == CountFact(h, rat, source, key)
  {
    var members := Members(rat, source.rows, key);
    var w := WitnessesOf(rat, source, members);
    var rowKey := GroupRowKey(h, source, key);
    var group := DerivedFact(source, rowKey, GroupExpression(source), TEXT, key, WitnessOf(h, w.departments));
    var sum := DerivedFact(source, rowKey, SumExpression(source), NUMERIC, SumValue(rat, members).value,
        WitnessOf(h, w.amounts));
    ExpressionsDiffer(source);
    assert GroupReleases(h, rat, source, key) == Releases(h, rat, source, key, members, w);
    OnlyCount(rowKey, f, Releases(h, rat, source, key, members, w), group, sum, CountFact(h, rat, source, key));
  }

  // ---------- output rows of different groups ----------

  ghost function Component(source: Source, key: Bytes): Bytes {
    source.ns + Ascii(".expense.department") + [0] + Ascii("text") + [0] + key
  }

  ghost function RowKeyPreimage(source: Source, key: Bytes): Bytes {
    Composed(Ascii("group-row"), [Component(source, key)])
  }

  /** No two of the groups' output row keys collide, and the hashed names fit. */
  ghost predicate RowKeysApart(h: HashFunction, rat: Rationals, source: Source)
    requires Keyed(rat, source.rows)
  {
    && CollisionFree(h, set key | key in KeysOf(rat, source.rows) :: RowKeyPreimage(source, key))
    && forall key :: key in KeysOf(rat, source.rows) ==> Fits(Component(source, key))
  }

  lemma {:induction false} RowKeyNamesGroup(h: HashFunction, rat: Rationals, source: Source, a: Bytes, b: Bytes)
    requires Keyed(rat, source.rows) && RowKeysApart(h, rat, source)
    requires a in KeysOf(rat, source.rows) && b in KeysOf(rat, source.rows)
    ensures GroupRowKey(h, source, a) == GroupRowKey(h, source, b) <==> a == b
  {
    HexRoundTrip(h(RowKeyPreimage(source, a)));
    HexRoundTrip(h(RowKeyPreimage(source, b)));
    if GroupRowKey(h, source, a) == GroupRowKey(h, source, b) {
      ComposedInjective(Ascii("group-row"), [Component(source, a)], [Component(source, b)]);
      assert [Component(source, a)][0] == [Component(source, b)][0];
      SamePrefixed(source.ns + Ascii(".expense.department") + [0] + Ascii("text") + [0], a, b);
    }
  }

  // ---------- the whole release ----------

  lemma {:induction false} ReleasedByGroup(h: HashFunction, rat: Rationals, source: Source, f: Input)
    requires SourceOk(rat, source)
    ensures f in ObservationOf(h, rat, source).release <==>
            exists key :: key in KeysOf(rat, source.rows) && f in GroupReleases(h, rat, source, key)
  {
    var keys := Listing(KeysOf(rat, source.rows));
    InUnion(ReleaseBy(h, rat, source), keys, f);
    assert forall key :: key in keys <==> key in Elements(keys);
    if key :| key in keys && f in ReleaseBy(h, rat, source)(key) {
      assert key in KeysOf(rat, source.rows) && f in GroupReleases(h, rat, source, key);
    }
    if key :| key in KeysOf(rat, source.rows) && f in GroupReleases(h, rat, source, key) {
      assert key in keys && f in ReleaseBy(h, rat, source)(key);
    }
  }

  ghost predicate AtMostOneCount(h: HashFunction, source: Source, key: Bytes, release: set<Input>) {
    forall f, g :: f in release && g in release && IsCount(h, source, key, f) && IsCount(h, source, key, g) ==> f == g
  }

  /** For each group the release holds exactly one count in that group's output row, and it spells the
      number of the group's rows. */
  lemma {:induction false} CountReleased(h: HashFunction, rat: Rationals, source: Source, key: Bytes)
    requires SourceOk(rat, source) && RowKeysApart(h, rat, source) && key in KeysOf(rat, source.rows)
    ensures exists f :: f in ObservationOf(h, rat, source).release &&
                        StatesCount(h, source, key, f, |Positions(rat, source.rows, key)|)
    ensures AtMostOneCount(h, source, key, ObservationOf(h, rat, source).release)
  {
    GroupsDecide(rat, source);
    CountSpells(h, rat, source, key);
    var count := CountFact(h, rat, source, key);
    ReleasedByGroup(h, rat, source, count);
    assert count in ObservationOf(h, rat, source).release;
    forall f | f in ObservationOf(h, rat, source).release && IsCount(h, source, key, f) ensures f == count {
      ReleasedByGroup(h, rat, source, f);
      var k :| k in KeysOf(rat, source.rows) && f in GroupReleases(h, rat, source, k);
      OneCountPerGroup(h, rat, source, k, f);
      RowKeyNamesGroup(h, rat, source, k, key);
    }
  }

  // ---------- the counts add up ----------

  function SumOf(counts: seq<int>): int {
    if counts == [] then 0 else counts[0] + SumOf(counts[1..])
  }

  ghost function GroupSizes(rat: Rationals, rows: seq<Row>, keys: seq<Bytes>): (r: seq<int>)
    ensures |r| == |keys| && forall i :: 0 <= i < |r| ==> r[i] == |Positions(rat, rows, keys[i])|
  {
    seq(|keys|, i requires 0 <= i < |keys| => |Positions(rat, rows, keys[i])|)
  }

  lemma {:induction false} SizesTotal(rat: Rationals, rows: seq<Row>, keys: seq<Bytes>)
    ensures SumOf(GroupSizes(rat, rows, keys)) as real == GroupTotal(rat, One(), keys, rows)
  {
    if keys != [] {
      SizesTotal(rat, rows, keys[1..]);
      assert GroupSizes(rat, rows, keys)[1..] == GroupSizes(rat, rows, keys[1..]);
      MembersCounted(rat, rows, keys[0]);
      CountIsTotal(Members(rat, rows, keys[0]));
    }
  }

  /** Whatever the order in which the groups are enumerated, the numbers their released counts spell sum
      to the number of rows. */
  lemma {:induction false} ReleasedCountsSum(
    h: HashFunction, rat: Rationals, source: Source, keys: seq<Bytes>, facts: seq<Input>, counts: seq<int>)
    requires SourceOk(rat, source) && RowKeysApart(h, rat, source)
    requires Distinct(keys) && Elements(keys) == KeysOf(rat, source.rows) && |facts| == |counts| == |keys|
    requires forall i :: 0 <= i < |keys| ==> facts[i] in ObservationOf(h, rat, source).release
    requires forall i :: 0 <= i < |keys| ==> StatesCount(h, source, keys[i], facts[i], counts[i])
    ensures SumOf(counts) == |source.rows|
  {
    forall i | 0 <= i < |keys| ensures counts[i] == |Positions(rat, source.rows, keys[i])| {
      assert keys[i] in Elements(keys);
      CountReleased(h, rat, source, keys[i]);
      var f :| f in ObservationOf(h, rat, source).release &&
               StatesCount(h, source, keys[i], f, |Positions(rat, source.rows, keys[i])|);
      assert IsCount(h, source, keys[i], facts[i]) && IsCount(h, source, keys[i], f);
    }
    assert counts == GroupSizes(rat, source.rows, keys);
    SizesTotal(rat, source.rows, keys);
    CountsAndSumsConserved(rat, keys, source.rows);
  }

  // ---------- the other two facts of a group ----------

  /** The fact states the group's canonical department in the group's output row. */
  ghost predicate StatesGroup(h: HashFunction, source: Source, key: Bytes, f: Input) {
    && f.DerivedInput? && f.bundle == [Binding(source.ns, source.snapshot)]
    && f.outputRowKey == GroupRowKey(h, source, key)
    && f.expression == Ascii("group(") + source.ns + Ascii(".expense.department)")
    && f.sqlType == Ascii("text") && f.value == key
  }

  /** The fact states the sum of the amounts of the group's rows, if the printed sum reads back as itself. */
  ghost predicate StatesSum(h: HashFunction, rat: Rationals, source: Source, key: Bytes, f: Input) {
    var total := Total(AmountOf(rat), Members(rat, source.rows, key));
    && f.DerivedInput? && f.bundle == [Binding(source.ns, source.snapshot)]
    && f.outputRowKey == GroupRowKey(h, source, key)
    && f.expression == Ascii("sum(") + source.ns + Ascii(".expense.amount)")
    && f.sqlType == Ascii("numeric")
    && (rat.parse(rat.text(total)) == Some(total) ==> f.value == Ascii("n:") + rat.text(total))
  }

  lemma {:induction false} SumIsPrinted(rat: Rationals, members: seq<Row>)
    requires SumValue(rat, members).Some?
    ensures var total := Total(AmountOf(rat), members);
            rat.parse(rat.text(total)) == Some(total) ==> SumValue(rat, members).value == Ascii("n:") + rat.text(total)
  {
    assert |NUMERIC| == 7 && |TEXT| == 4 && |BIGINT| == 6;
  }

  /** The witnesses of a group, row by row: the row's existence, its department and its amount. */
  ghost predicate OfRows(rat: Rationals, source: Source, members: seq<Row>, w: Witnesses) {
    && |w.rows| == |members| && |w.departments| == |members| && |w.amounts| == |members|
    && (forall i :: 0 <= i < |members| ==> w.rows[i] == BaseRowInput(source.ns, source.snapshot, members[i].entityKey))
    && (forall i :: 0 <= i < |members| ==>
          IsCell(rat, source, members[i], Ascii("expense.department"), source.departmentType, members[i].department,
                 w.departments[i]))
    && (forall i :: 0 <= i < |members| ==>
          IsCell(rat, source, members[i], Ascii("expense.amount"), source.amountType, members[i].amount, w.amounts[i]))
  }

  lemma {:induction false} WitnessesSpelled(rat: Rationals, source: Source, members: seq<Row>, w: Witnesses)
    requires WitnessesAre(rat, source, members, w)
    ensures OfRows(rat, source, members, w)
  {
    forall i | 0 <= i < |members|
      ensures IsCell(rat, source, members[i], Ascii("expense.department"), source.departmentType,
                     members[i].department, w.departments[i])
      ensures IsCell(rat, source, members[i], Ascii("expense.amount"), source.amountType, members[i].amount,
                     w.amounts[i])
    {
      assert DepartmentFact(rat, source, members[i]) == Some(w.departments[i]);
      assert AmountFact(rat, source, members[i]) == Some(w.amounts[i]);
    }
  }

  /** Besides its count each group releases its department and its sum, and nothing else; the three commit
      to the group's departments, amounts and rows. */
  lemma {:induction false} GroupAndSumReleased(h: HashFunction, rat: Rationals, source: Source, key: Bytes)
    returns (group: Input, sum: Input, w: Witnesses)
    requires GroupOk(rat, source, key)
    ensures GroupReleases(h, rat, source, key) == {group, sum, CountFact(h, rat, source, key)}
    ensures StatesGroup(h, source, key, group) && StatesSum(h, rat, source, key, sum)
    ensures OfRows(rat, source, Members(rat, source.rows, key), w)
    ensures group.commitment == WitnessOf(h, w.departments) && sum.commitment == WitnessOf(h, w.amounts)
    ensures CountFact(h, rat, source, key).commitment == WitnessOf(h, w.rows)
  {
    var members := Members(rat, source.rows, key);
    w := WitnessesOf(rat, source, members);
    WitnessesSpelled(rat, source, members, w);
    var rowKey := GroupRowKey(h, source, key);
    group := DerivedFact(source, rowKey, GroupExpression(source), TEXT, key, WitnessOf(h, w.departments));
    sum := DerivedFact(source, rowKey, SumExpression(source), NUMERIC, SumValue(rat, members).value,
      WitnessOf(h, w.amounts));
    SumIsPrinted(rat, members);
    assert GroupReleases(h, rat, source, key) == Releases(h, rat, source, key, members, w);
  }

  // ---------- the influence ----------

  /** The fact is the existence of the row or one of its two cells, under the source's name and snapshot. */
  ghost predicate OfRow(rat: Rationals, source: Source, row: Row, f: Input) {
    || f == BaseRowInput(source.ns, source.snapshot, row.entityKey)
    || IsCell(rat, source, row, Ascii("expense.department"), source.departmentType, row.department, f)
    || IsCell(rat, source, row, Ascii("expense.amount"), source.amountType, row.amount, f)
  }

  ghost predicate IsCell(
    rat: Rationals, source: Source, row: Row, field: Bytes, sqlType: Option<Bytes>, cell: Cell, f: Input) {
    && f.BaseCellInput? && f.ns == source.ns && f.snapshot == source.snapshot && f.entityKey == row.entityKey
    && f.field == field && sqlType == Some(f.sqlType) && f.sqlType != [] && !cell.Absent?
    && CanonicalValue(rat, f.sqlType, cell) == Some(f.value)
  }

  /** Influence is exactly the existence, the department and the amount of every row. */
  lemma {:induction false} InfluenceExactly(h: HashFunction, rat: Rationals, source: Source, f: Input)
    requires SourceOk(rat, source)
    ensures f in ObservationOf(h, rat, source).influence <==>
            exists row :: row in source.rows && OfRow(rat, source, row, f)
  {
    RowInfluences(rat, source, source.rows, f);
    forall row | row in source.rows ensures f in RowInfluence(rat, source, row) <==> OfRow(rat, source, row, f) {
      InfluenceOfRow(rat, source, row, f);
    }
  }

  lemma {:induction false} InfluenceOfRow(rat: Rationals, source: Source, row: Row, f: Input)
    requires RowOk(rat, source, row)
    ensures f in RowInfluence(rat, source, row) <==> OfRow(rat, source, row, f)
  {
  }
}
