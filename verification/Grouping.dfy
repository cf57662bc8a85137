/** Grouped aggregates of the relational oracle (evaluation/exposureoracle/oracle.go): rows are
    collected in a map by canonical department, every group yields derived facts, every row yields
    influence. A map from fact keys to facts is the set of its facts; big.Rat is a parser and a printer
    of exact numbers. */
module Grouping {
  import opened GoBytes
  import opened Sorting
  import opened Facts
  import Numerals

  datatype Cell = Absent | Null | Text(text: Bytes) | Number(text: Bytes) | Other

  datatype Row = Row(entityKey: Bytes, department: Cell, amount: Cell)

  /** The two types are those of the first matching declared field, already in canonical spelling. */
  datatype Source = Source(
    ns: Bytes, snapshot: Bytes, departmentType: Option<Bytes>, amountType: Option<Bytes>, rows: seq<Row>)

  datatype Rationals = Rationals(parse: Bytes -> Option<real>, text: real -> Bytes)

  datatype Observation = Observation(release: set<Input>, influence: set<Input>)

  const TEXT: Bytes := Ascii("text")
  const BIGINT: Bytes := Ascii("bigint")
  const NUMERIC: Bytes := Ascii("numeric")
  const DEPARTMENT: Bytes := Ascii("expense.department")
  const WITNESS: Bytes := Ascii("witness-multiset")
  const AMOUNT: Bytes := Ascii("expense.amount")

  function CanonicalValue(rat: Rationals, sqlType: Bytes, cell: Cell): Option<Bytes> {
    match cell
    case Absent => Some(Ascii("null"))
    case Null => Some(Ascii("null"))
    case Text(t) =>
      if sqlType == TEXT then Some(Ascii("s:") + t)
      else if sqlType == BIGINT then Some(Ascii("i:") + t)
      else if sqlType == NUMERIC then CanonicalNumber(rat, t)
      else None
    case Number(t) =>
      if sqlType == BIGINT then Some(Ascii("i:") + t)
      else if sqlType == NUMERIC then CanonicalNumber(rat, t)
      else None
    case Other => None
  }

  function CanonicalNumber(rat: Rationals, text: Bytes): Option<Bytes> {
    match rat.parse(text)
    case Some(value) => Some(Ascii("n:") + rat.text(value))
    case None => None
  }

  function BaseRowFact(source: Source, row: Row): Input {
    BaseRowInput(source.ns, source.snapshot, row.entityKey)
  }

  function BaseCellFact(
    rat: Rationals, source: Source, row: Row, field: Bytes, sqlType: Option<Bytes>, cell: Cell): Option<Input> {
    if sqlType.None? || sqlType.value == [] || cell.Absent? then None
    else match CanonicalValue(rat, sqlType.value, cell)
      case Some(value) => Some(BaseCellInput(source.ns, source.snapshot, row.entityKey, field, sqlType.value, value))
      case None => None
  }

  function DepartmentFact(rat: Rationals, source: Source, row: Row): Option<Input> {
    BaseCellFact(rat, source, row, DEPARTMENT, source.departmentType, row.department)
  }

  function AmountFact(rat: Rationals, source: Source, row: Row): Option<Input> {
    BaseCellFact(rat, source, row, AMOUNT, source.amountType, row.amount)
  }

  // ---------- grouping ----------

  /** The canonical department, absent and null departments falling in one group. */
  function GroupKey(rat: Rationals, row: Row): Option<Bytes> {
    CanonicalValue(rat, TEXT, row.department)
  }

  predicate InGroup(rat: Rationals, row: Row, key: Bytes) {
    GroupKey(rat, row) == Some(key)
  }

  /** The rows of one group, in source order. */
  function Members(rat: Rationals, rows: seq<Row>, key: Bytes): seq<Row> {
    if rows == [] then []
    else
      var last := rows[|rows| - 1];
      var before := Members(rat, rows[..|rows| - 1], key);
      if InGroup(rat, last, key) then before + [last] else before
  }

  ghost predicate Keyed(rat: Rationals, rows: seq<Row>) {
    forall i :: 0 <= i < |rows| ==> GroupKey(rat, rows[i]).Some?
  }

  ghost function KeysOf(rat: Rationals, rows: seq<Row>): set<Bytes>
    requires Keyed(rat, rows)
  {
    set i | 0 <= i < |rows| :: GroupKey(rat, rows[i]).value
  }

  ghost predicate IsGrouping(rat: Rationals, rows: seq<Row>, groups: map<Bytes, seq<Row>>)
    requires Keyed(rat, rows)
  {
    groups.Keys == KeysOf(rat, rows) && forall key :: key in groups ==> groups[key] == Members(rat, rows, key)
  }

  lemma {:induction false} MembersSnoc(rat: Rationals, rows: seq<Row>, row: Row, key: Bytes)
    ensures Members(rat, rows + [row], key) == if InGroup(rat, row, key) then Members(rat, rows, key) + [row]
            else Members(rat, rows, key)
  {
    assert (rows + [row])[..|rows|] == rows;
  }

  lemma {:induction false} NoMembers(rat: Rationals, rows: seq<Row>, key: Bytes)
    requires Keyed(rat, rows) && key !in KeysOf(rat, rows)
    ensures Members(rat, rows, key) == []
  {
    if rows != [] {
      var n := |rows| - 1;
      assert GroupKey(rat, rows[n]).value in KeysOf(rat, rows);
      assert KeysOf(rat, rows[..n]) <= KeysOf(rat, rows) by {
        forall i | 0 <= i < n ensures GroupKey(rat, rows[..n][i]).value in KeysOf(rat, rows) { assert rows[..n][i]
            == rows[i]; }
      }
      NoMembers(rat, rows[..n], key);
    }
  }

  lemma {:induction false} KeysSnoc(rat: Rationals, rows: seq<Row>, row: Row)
    requires Keyed(rat, rows) && GroupKey(rat, row).Some?
    ensures Keyed(rat, rows + [row]) && KeysOf(rat, rows + [row]) == KeysOf(rat, rows) + {GroupKey(rat, row).value}
  {
    var all := rows + [row];
    assert all[|rows|] == row && forall i :: 0 <= i < |rows| ==> all[i] == rows[i];
  }

  lemma {:induction false} GroupOne(rat: Rationals, rows: seq<Row>, groups: map<Bytes, seq<Row>>, row: Row, key: Bytes)
    requires Keyed(rat, rows) && IsGrouping(rat, rows, groups) && GroupKey(rat, row) == Some(key)
    ensures Keyed(rat, rows + [row])
    ensures IsGrouping(rat, rows + [row], groups[key := (if key in groups then groups[key] else []) + [row]])
  {
    KeysSnoc(rat, rows, row);
    var next := groups[key := (if key in groups then groups[key] else []) + [row]];
    forall k | k in next ensures next[k] == Members(rat, rows + [row], k) {
      MembersSnoc(rat, rows, row, k);
      if k == key && key !in groups { NoMembers(rat, rows, key); }
    }
  }

  /** groups[canonical] = append(groups[canonical], current): fails exactly when some department has no
      canonical text. */
  method GroupRows(rat: Rationals, rows: seq<Row>) returns (r: Option<map<Bytes, seq<Row>>>)
    ensures r.Some? <==> Keyed(rat, rows)
    ensures r.Some? ==> IsGrouping(rat, rows, r.value)
  {
    var groups: map<Bytes, seq<Row>> := map[];
    for i := 0 to |rows|
      invariant Keyed(rat, rows[..i]) && IsGrouping(rat, rows[..i], groups)
    {
      var canonical := GroupKey(rat, rows[i]);
      if canonical.None? { return None; }
      GroupOne(rat, rows[..i], groups, rows[i], canonical.value);
      assert rows[..i + 1] == rows[..i] + [rows[i]];
      groups := groups[canonical.value := (if canonical.value in groups then groups[canonical.value] else [])
          + [rows[i]]];
    }
    assert rows[..|rows|] == rows;
    return Some(groups);
  }

  /** Every group has a stored department whose canonical text is the group's key. */
  ghost predicate HoldsValues(rat: Rationals, groups: map<Bytes, seq<Row>>, values: map<Bytes, Cell>) {
    forall key :: key in groups ==> key in values && CanonicalValue(rat, TEXT, values[key]) == Some(key)
  }

  /** The same loop, also storing each group's department. */
  method GroupRowsAndValues(
    rat: Rationals, rows: seq<Row>) returns (r: Option<map<Bytes, seq<Row>>>, values: map<Bytes, Cell>)
    ensures r.Some? <==> Keyed(rat, rows)
    ensures r.Some? ==> IsGrouping(rat, rows, r.value) && HoldsValues(rat, r.value, values)
  {
    var groups: map<Bytes, seq<Row>> := map[];
    values := map[];
    for i := 0 to |rows|
      invariant Keyed(rat, rows[..i]) && IsGrouping(rat, rows[..i], groups) && HoldsValues(rat, groups, values)
    {
      var canonical := GroupKey(rat, rows[i]);
      if canonical.None? { return None, values; }
      GroupOne(rat, rows[..i], groups, rows[i], canonical.value);
      assert rows[..i + 1] == rows[..i] + [rows[i]];
      groups := groups[canonical.value := (if canonical.value in groups then groups[canonical.value] else [])
          + [rows[i]]];
      values := values[canonical.value := rows[i].department];
    }
    assert rows[..|rows|] == rows;
    r := Some(groups);
  }

  // ---------- conservation ----------

  /** The total of a per-row quantity. */
  function Total(w: Row -> real, rows: seq<Row>): real {
    if rows == [] then 0.0 else Total(w, rows[..|rows| - 1]) + w(rows[|rows| - 1])
  }

  /** The same, group by group, in the order the keys are enumerated. */
  function GroupTotal(rat: Rationals, w: Row -> real, keys: seq<Bytes>, rows: seq<Row>): real {
    if keys == [] then 0.0
    else Total(w, Members(rat, rows, keys[0])) + GroupTotal(rat, w, keys[1..], rows)
  }

  lemma {:induction false} TotalSnoc(w: Row -> real, rows: seq<Row>, row: Row)
    ensures Total(w, rows + [row]) == Total(w, rows) + w(row)
  {
    assert (rows + [row])[..|rows|] == rows;
  }

  lemma {:induction false} NoRowsNoTotal(rat: Rationals, w: Row -> real, keys: seq<Bytes>)
    ensures GroupTotal(rat, w, keys, []) == 0.0
  {
    if keys != [] { NoRowsNoTotal(rat, w, keys[1..]); }
  }

  /** One more row raises exactly one group's total. */
  lemma {:induction false} OneGroupGrows(rat: Rationals, w: Row -> real, keys: seq<Bytes>, rows: seq<Row>, row: Row)
    requires Distinct(keys) && GroupKey(rat, row).Some?
    ensures GroupTotal(rat, w, keys, rows + [row])
            == GroupTotal(rat, w, keys, rows) + if GroupKey(rat, row).value in keys then w(row) else 0.0
  {
    if keys != [] {
      OneGroupGrows(rat, w, keys[1..], rows, row);
      GroupGrowth(rat, w, rows, row, keys[0]);
      assert keys[0] !in keys[1..];
      assert keys == [keys[0]] + keys[1..];
    }
  }

  lemma {:induction false} GroupGrowth(rat: Rationals, w: Row -> real, rows: seq<Row>, row: Row, key: Bytes)
    ensures Total(w, Members(rat, rows + [row], key))
            == Total(w, Members(rat, rows, key)) + if InGroup(rat, row, key) then w(row) else 0.0
  {
    MembersSnoc(rat, rows, row, key);
    TotalSnoc(w, Members(rat, rows, key), row);
  }

  /** Grouping conserves every per-row quantity, whatever the enumeration order of the groups. */
  lemma {:induction false} GroupingConserves(rat: Rationals, w: Row -> real, keys: seq<Bytes>, rows: seq<Row>)
    requires Keyed(rat, rows) && Distinct(keys) && KeysOf(rat, rows) <= Elements(keys)
    ensures GroupTotal(rat, w, keys, rows) == Total(w, rows)
  {
    if rows == [] {
      NoRowsNoTotal(rat, w, keys);
    } else {
      var n := |rows| - 1;
      assert rows == rows[..n] + [rows[n]];
      KeysSnoc(rat, rows[..n], rows[n]);
      GroupingConserves(rat, w, keys, rows[..n]);
      OneGroupGrows(rat, w, keys, rows[..n], rows[n]);
      assert GroupKey(rat, rows[n]).value in Elements(keys);
    }
  }

  function One(): Row -> real {
    _ => 1.0
  }

  lemma {:induction false} CountIsTotal(rows: seq<Row>)
    ensures Total(One(), rows) == |rows| as real
  {
    if rows != [] { CountIsTotal(rows[..|rows| - 1]); }
  }

  /** Group counts sum to the row count and group sums to the global sum, for any enumeration of the groups. */
  lemma {:induction false} CountsAndSumsConserved(rat: Rationals, keys: seq<Bytes>, rows: seq<Row>)
    requires Keyed(rat, rows) && Distinct(keys) && Elements(keys) == KeysOf(rat, rows)
    ensures GroupTotal(rat, One(), keys, rows) == |rows| as real
    ensures GroupTotal(rat, AmountOf(rat), keys, rows) == Total(AmountOf(rat), rows)
  {
    GroupingConserves(rat, One(), keys, rows);
    CountIsTotal(rows);
    GroupingConserves(rat, AmountOf(rat), keys, rows);
  }

  /** Every row falls in exactly one group. */
  lemma {:induction false} ExactlyOneGroup(rat: Rationals, rows: seq<Row>, i: nat, key: Bytes)
    requires Keyed(rat, rows) && i < |rows|
    ensures GroupKey(rat, rows[i]).value in KeysOf(rat, rows)
    ensures rows[i] in Members(rat, rows, key) <==> key == GroupKey(rat, rows[i]).value
  {
    MembersAre(rat, rows, key, rows[i]);
  }

  lemma {:induction false} MembersAre(rat: Rationals, rows: seq<Row>, key: Bytes, row: Row)
    ensures row in Members(rat, rows, key) <==> row in rows && InGroup(rat, row, key)
  {
    if rows != [] {
      var n := |rows| - 1;
      assert rows == rows[..n] + [rows[n]];
      MembersAre(rat, rows[..n], key, row);
    }
  }

  // ---------- sumRows ----------

  function Contribution(rat: Rationals, cell: Cell): real {
    match cell
    case Text(t) => Parsed(rat, t)
    case Number(t) => Parsed(rat, t)
    case _ => 0.0
  }

  function Parsed(rat: Rationals, text: Bytes): real {
    match rat.parse(text)
    case Some(value) => value
    case None => 0.0
  }

  function AmountOf(rat: Rationals): Row -> real {
    (row: Row) => Contribution(rat, row.amount)
  }

  method SumRows(rat: Rationals, rows: seq<Row>) returns (text: Bytes)
    ensures text == rat.text(Total(AmountOf(rat), rows))
  {
    var total := 0.0;
    for i := 0 to |rows|
      invariant total == Total(AmountOf(rat), rows[..i])
    {
      TotalSnoc(AmountOf(rat), rows[..i], rows[i]);
      assert rows[..i + 1] == rows[..i] + [rows[i]];
      var cell := rows[i].amount;
      if cell.Text? || cell.Number? {
        var number := rat.parse(cell.text);
        if number.Some? { total := total + number.value; }
      }
    }
    assert rows[..|rows|] == rows;
    text := rat.text(total);
  }

  // ---------- witness commitments ----------

  ghost function Commitment(h: HashFunction, values: seq<Bytes>): Bytes {
    HexEncode(h(Composed(WITNESS, values)))
  }

  /** Hash and zero-padded count of each distinct hash, ascending. */
  ghost function Counted(keys: seq<Bytes>, counts: multiset<Bytes>): (r: seq<Bytes>)
    ensures |r| == 2 * |keys|
  {
    if keys == [] then [] else [keys[0], Numerals.Padded(counts[keys[0]], 20)] + Counted(keys[1..], counts)
  }

  ghost function WitnessValues(hashes: multiset<Bytes>): seq<Bytes> {
    var listed := Counted(Listing(Support(hashes)), hashes);
    if listed == [] then [Ascii("empty")] else listed
  }

  function Support(hashes: multiset<Bytes>): set<Bytes> {
    set x | x in hashes
  }

  lemma {:induction false} CountedSame(s: seq<Bytes>, a: multiset<Bytes>, t: seq<Bytes>, b: multiset<Bytes>)
    requires Counted(s, a) == Counted(t, b)
    ensures s == t && forall x :: x in s ==> a[x] == b[x]
  {
    assert |s| == |t|;
    if s != [] {
      var u, v := Counted(s, a), Counted(t, b);
      assert u[0] == s[0] && v[0] == t[0] && u[1] == Numerals.Padded(a[s[0]], 20)
          && v[1] == Numerals.Padded(b[t[0]], 20);
      assert u[2..] == Counted(s[1..], a) && v[2..] == Counted(t[1..], b);
      CountedSame(s[1..], a, t[1..], b);
      Numerals.PaddedValue(a[s[0]], 20);
      Numerals.PaddedValue(b[t[0]], 20);
      SameHeadAndTail(s, t);
      assert s == [s[0]] + s[1..];
    }
  }

  /** The committed values determine the multiset of fact hashes and depend on nothing else. */
  lemma {:induction false} WitnessIsMultiset(a: multiset<Bytes>, b: multiset<Bytes>)
    ensures WitnessValues(a) == WitnessValues(b) <==> a == b
  {
    if WitnessValues(a) == WitnessValues(b) {
      var s, t := Listing(Support(a)), Listing(Support(b));
      CountedSame(s, a, t, b);
      forall x ensures a[x] == b[x] {
        assert x in a <==> x in Elements(s);
        assert x in b <==> x in Elements(t);
      }
    }
  }

  function FactHashes(h: HashFunction, facts: seq<Input>): (r: seq<Bytes>)
    ensures |r| == |facts| && forall i :: 0 <= i < |r| ==> r[i] == FactOf(h, facts[i]).sha256
  {
    seq(|facts|, i requires 0 <= i < |facts| => FactOf(h, facts[i]).sha256)
  }

  ghost function WitnessOf(h: HashFunction, facts: seq<Input>): Bytes {
    Commitment(h, WitnessValues(multiset(FactHashes(h, facts))))
  }

  ghost predicate CountsAre(counts: map<Bytes, nat>, hashes: multiset<Bytes>) {
    counts.Keys == Support(hashes) && forall x :: x in counts ==> counts[x] == hashes[x]
  }

  method CountHashes(hashes: seq<Bytes>) returns (counts: map<Bytes, nat>)
    ensures CountsAre(counts, multiset(hashes))
  {
    counts := map[];
    for i := 0 to |hashes|
      invariant CountsAre(counts, multiset(hashes[..i]))
    {
      var x := hashes[i];
      assert hashes[..i + 1] == hashes[..i] + [x];
      CountOne(counts, multiset(hashes[..i]), x);
      counts := counts[x := (if x in counts then counts[x] else 0) + 1];
    }
    assert hashes[..|hashes|] == hashes;
  }

  lemma {:induction false} CountOne(counts: map<Bytes, nat>, hashes: multiset<Bytes>, x: Bytes)
    requires CountsAre(counts, hashes)
    ensures CountsAre(counts[x := (if x in counts then counts[x] else 0) + 1], hashes + multiset{x})
  {
    assert x in counts <==> x in Support(hashes);
    assert Support(hashes + multiset{x}) == Support(hashes) + {x};
  }

  /** The sorted hashes, each followed by its twenty-digit count. */
  method ListCounts(
    keys: seq<Bytes>, counts: map<Bytes, nat>, ghost hashes: multiset<Bytes>) returns (values: seq<Bytes>)
    requires CountsAre(counts, hashes) && forall i :: 0 <= i < |keys| ==> keys[i] in counts
    ensures values == Counted(keys, hashes)
  {
    values := [];
    for i := 0 to |keys|
      invariant values == Counted(keys[..i], hashes)
    {
      CountedSnoc(keys[..i], keys[i], hashes);
      assert keys[..i + 1] == keys[..i] + [keys[i]];
      values := values + [keys[i], Numerals.Padded(counts[keys[i]], 20)];
    }
    assert keys[..|keys|] == keys;
  }

  lemma {:induction false} CountedSnoc(keys: seq<Bytes>, x: Bytes, counts: multiset<Bytes>)
    ensures Counted(keys + [x], counts) == Counted(keys, counts) + [x, Numerals.Padded(counts[x], 20)]
  {
    if keys == [] {
      assert Counted([x], counts) == [x, Numerals.Padded(counts[x], 20)] + Counted([x][1..], counts);
    } else {
      CountedSnoc(keys[1..], x, counts);
      assert (keys + [x])[1..] == keys[1..] + [x] && (keys + [x])[0] == keys[0];
      Assoc([keys[0], Numerals.Padded(counts[keys[0]], 20)], Counted(keys[1..], counts),
          [x, Numerals.Padded(counts[x], 20)]);
    }
  }

  method WitnessList(hashes: seq<Bytes>) returns (values: seq<Bytes>)
    ensures values == WitnessValues(multiset(hashes))
  {
    var counts := CountHashes(hashes);
    var unsorted := AnyOrder(counts.Keys);
    SortedKeysAreListing(unsorted);
    var keys := Sort(Leq, unsorted);
    assert forall i :: 0 <= i < |keys| ==> keys[i] in Elements(keys);
    values := ListCounts(keys, counts, multiset(hashes));
    if |values| == 0 { values := [Ascii("empty")]; }
  }

  method WitnessCommitment(h: HashFunction, facts: seq<Input>) returns (r: Bytes)
    ensures r == WitnessOf(h, facts)
  {
    var values := WitnessList(FactHashes(h, facts));
    r := ComposeKey(h, Ascii("witness-multiset"), values);
  }

  /** composeKey: the framed domain, the number of values, and the framed values. */
  method ComposeKey(h: HashFunction, domain: Bytes, values: seq<Bytes>) returns (r: Bytes)
    ensures r == HexEncode(h(Composed(domain, values)))
  {
    var payload := Framed(domain) + U64(|values|);
    payload := WriteFields(payload, values);
    Assoc(Framed(domain), U64(|values|), FrameAll(values));
    r := HexEncode(h(payload));
  }

  // ---------- what the commitment binds ----------

  lemma {:induction false} CountedFits(keys: seq<Bytes>, counts: multiset<Bytes>)
    requires forall x :: x in keys ==> Fits(x) && counts[x] < TWO63
    ensures AllFit(Counted(keys, counts))
  {
    if keys != [] {
      CountedFits(keys[1..], counts);
      assert keys[0] in keys;
      Numerals.PaddedValue(counts[keys[0]], 20);
      TwentyDigits();
    }
  }

  lemma {:induction false} TwentyDigits()
    ensures TWO63 <= Numerals.Ten(20)
  {
    Numerals.TenAdd(10, 10);
    assert Numerals.Ten(5) == 100_000;
    Numerals.TenAdd(5, 5);
  }

  ghost predicate BaseFacts(facts: seq<Input>) {
    && |facts| < TWO63
    && (forall i :: 0 <= i < |facts| ==> facts[i].BaseRowInput? || facts[i].BaseCellInput?)
    && (forall i :: 0 <= i < |facts| ==> Representable(facts[i]))
  }

  /** The preimages hashed for the facts of a witness. */
  ghost function Preimages(facts: seq<Input>): set<Bytes> {
    set i | 0 <= i < |facts| :: FactPreimage(facts[i])
  }

  lemma {:induction false} HashNamesFact(h: HashFunction, all: set<Bytes>, a: Input, b: Input)
    requires (a.BaseRowInput? || a.BaseCellInput?) && Representable(a) && (b.BaseRowInput? || b.BaseCellInput?)
             && Representable(b)
    requires CollisionFree(h, all) && FactPreimage(a) in all && FactPreimage(b) in all
    ensures FactOf(h, a).sha256 == FactOf(h, b).sha256 <==> a == b
  {
    assert CollisionFree(h, {FactPreimage(a), FactPreimage(b)});
    HashIdentifiesFact(h, a, b);
  }

  lemma {:induction false} HashesFaithful(h: HashFunction, all: set<Bytes>, a: seq<Input>, b: seq<Input>)
    requires BaseFacts(a) && BaseFacts(b) && CollisionFree(h, all) && Preimages(a) <= all && Preimages(b) <= all
    ensures Faithful(a, FactHashes(h, a), b, FactHashes(h, b))
  {
    var s, t := FactHashes(h, a), FactHashes(h, b);
    forall i, j | 0 <= i < |a| && 0 <= j < |b| ensures s[i] == t[j] <==> a[i] == b[j] {
      assert FactPreimage(a[i]) in Preimages(a) && FactPreimage(b[j]) in Preimages(b);
      HashNamesFact(h, all, a[i], b[j]);
    }
  }

  lemma {:induction false} SameHashes(h: HashFunction, all: set<Bytes>, a: seq<Input>, b: seq<Input>)
    requires BaseFacts(a) && BaseFacts(b) && CollisionFree(h, all) && Preimages(a) <= all && Preimages(b) <= all
    ensures multiset(FactHashes(h, a)) == multiset(FactHashes(h, b)) <==> multiset(a) == multiset(b)
  {
    HashesFaithful(h, all, a, a);
    HashesFaithful(h, all, a, b);
    HashesFaithful(h, all, b, a);
    HashesFaithful(h, all, b, b);
    SameImages(a, FactHashes(h, a), b, FactHashes(h, b));
  }

  lemma {:induction false} ValuesFit(hashes: seq<Bytes>)
    requires |hashes| < TWO63 && forall x :: x in hashes ==> Fits(x)
    ensures AllFit(WitnessValues(multiset(hashes))) && |WitnessValues(multiset(hashes))| < TWO64
  {
    var m := multiset(hashes);
    var keys := Listing(Support(m));
    assert |m| == |hashes|;
    forall x | x in keys ensures Fits(x) && m[x] < TWO63 {
      assert x in Elements(keys);
      CountBound(hashes, x);
    }
    CountedFits(keys, m);
    SupportBound(hashes);
  }

  lemma {:induction false} CountBound(s: seq<Bytes>, x: Bytes)
    ensures multiset(s)[x] <= |s|
  {
    if s != [] {
      WithoutHead(s);
      CountBound(s[1..], x);
    }
  }

  lemma {:induction false} SupportBound(s: seq<Bytes>)
    ensures |Support(multiset(s))| <= |s|
  {
    if s != [] {
      WithoutHead(s);
      SupportBound(s[1..]);
      assert multiset(s) == multiset(s[1..]) + multiset{s[0]};
      assert Support(multiset(s)) == Support(multiset(s[1..])) + {s[0]};
    }
  }

  ghost function WitnessPreimage(h: HashFunction, facts: seq<Input>): Bytes {
    Composed(WITNESS, WitnessValues(multiset(FactHashes(h, facts))))
  }

  lemma {:induction false} CommittedValues(h: HashFunction, x: seq<Bytes>, y: seq<Bytes>)
    requires |x| < TWO63 && |y| < TWO63 && (forall v :: v in x ==> Fits(v)) && (forall v :: v in y ==> Fits(v))
    requires CollisionFree(h,
             {Composed(WITNESS, WitnessValues(multiset(x))), Composed(WITNESS, WitnessValues(multiset(y)))})
    ensures Commitment(h, WitnessValues(multiset(x))) == Commitment(h, WitnessValues(multiset(y)))
            <==> multiset(x) == multiset(y)
  {
    ValuesFit(x);
    ValuesFit(y);
    WitnessIsMultiset(multiset(x), multiset(y));
    SameCommitment(h, WitnessValues(multiset(x)), WitnessValues(multiset(y)));
  }

  lemma {:induction false} SameCommitment(h: HashFunction, a: seq<Bytes>, b: seq<Bytes>)
    requires AllFit(a) && AllFit(b) && CollisionFree(h, {Composed(WITNESS, a), Composed(WITNESS, b)})
    ensures Commitment(h, a) == Commitment(h, b) <==> a == b
  {
    HexRoundTrip(h(Composed(WITNESS, a)));
    HexRoundTrip(h(Composed(WITNESS, b)));
    if Composed(WITNESS, a) == Composed(WITNESS, b) { ComposedInjective(WITNESS, a, b); }
  }

  lemma {:induction false} HashesFit(h: HashFunction, facts: seq<Input>)
    ensures forall v :: v in FactHashes(h, facts) ==> Fits(v)
  {
  }

  lemma {:induction false} SameWitnessSameValues(h: HashFunction, a: seq<Input>, b: seq<Input>)
    requires |a| < TWO63 && |b| < TWO63 && CollisionFree(h, {WitnessPreimage(h, a), WitnessPreimage(h, b)})
    ensures WitnessOf(h, a) == WitnessOf(h, b) <==> multiset(FactHashes(h, a)) == multiset(FactHashes(h, b))
  {
    HashesFit(h, a);
    HashesFit(h, b);
    CommittedValues(h, FactHashes(h, a), FactHashes(h, b));
  }

  /** A witness commitment depends exactly on the multiset of witness facts: neither on their order nor
      on anything less than how often each occurs. */
  lemma {:induction false} WitnessBindsMultiset(h: HashFunction, a: seq<Input>, b: seq<Input>)
    requires BaseFacts(a) && BaseFacts(b)
    requires CollisionFree(h, Preimages(a) + Preimages(b))
             && CollisionFree(h, {WitnessPreimage(h, a), WitnessPreimage(h, b)})
    ensures WitnessOf(h, a) == WitnessOf(h, b) <==> multiset(a) == multiset(b)
  {
    SameWitnessSameValues(h, a, b);
    SameHashes(h, Preimages(a) + Preimages(b), a, b);
  }

  // ---------- observations ----------

  predicate RowOk(rat: Rationals, source: Source, row: Row) {
    DepartmentFact(rat, source, row).Some? && AmountFact(rat, source, row).Some?
  }

  ghost predicate AllOk(rat: Rationals, source: Source, rows: seq<Row>) {
    forall row :: row in rows ==> RowOk(rat, source, row)
  }

  /** What one row puts into the influence set. */
  function RowInfluence(rat: Rationals, source: Source, row: Row): set<Input>
    requires RowOk(rat, source, row)
  {
    {BaseRowFact(source, row), DepartmentFact(rat, source, row).value, AmountFact(rat, source, row).value}
  }

  ghost function InfluenceOf(rat: Rationals, source: Source, rows: seq<Row>): set<Input>
    requires AllOk(rat, source, rows)
  {
    set row, f | row in rows && f in RowInfluence(rat, source, row) :: f
  }

  /** The three witness lists of a group, in row order. */
  datatype Witnesses = Witnesses(rows: seq<Input>, departments: seq<Input>, amounts: seq<Input>)

  ghost predicate WitnessesAre(rat: Rationals, source: Source, members: seq<Row>, w: Witnesses) {
    && |w.rows| == |members| && |w.departments| == |members| && |w.amounts| == |members|
    && (forall i :: 0 <= i < |members| ==> w.rows[i] == BaseRowFact(source, members[i]))
    && (forall i :: 0 <= i < |members| ==> DepartmentFact(rat, source, members[i]) == Some(w.departments[i]))
    && (forall i :: 0 <= i < |members| ==> AmountFact(rat, source, members[i]) == Some(w.amounts[i]))
  }

  lemma {:induction false} WitnessesUnique(
    rat: Rationals, source: Source, members: seq<Row>, v: Witnesses, w: Witnesses)
    requires WitnessesAre(rat, source, members, v) && WitnessesAre(rat, source, members, w)
    ensures v == w
  {
    assert v.rows == w.rows;
    forall i | 0 <= i < |members| ensures v.departments[i] == w.departments[i] && v.amounts[i] == w.amounts[i] {
      assert Some(v.departments[i]) == Some(w.departments[i]) && Some(v.amounts[i]) == Some(w.amounts[i]);
    }
    assert v.departments == w.departments;
    assert v.amounts == w.amounts;
  }

  function WitnessesOf(rat: Rationals, source: Source, members: seq<Row>): (w: Witnesses)
    requires forall i :: 0 <= i < |members| ==> RowOk(rat, source, members[i])
    ensures WitnessesAre(rat, source, members, w)
  {
    Witnesses(
      seq(|members|, i requires 0 <= i < |members| => BaseRowFact(source, members[i])),
      seq(|members|, i requires 0 <= i < |members|
          && RowOk(rat, source, members[i]) => DepartmentFact(rat, source, members[i]).value),
      seq(|members|, i requires 0 <= i < |members|
          && RowOk(rat, source, members[i]) => AmountFact(rat, source, members[i]).value))
  }

  lemma {:induction false} InfluenceSnoc(rat: Rationals, source: Source, rows: seq<Row>, row: Row)
    requires AllOk(rat, source, rows) && RowOk(rat, source, row)
    ensures AllOk(rat, source, rows + [row])
    ensures InfluenceOf(rat, source, rows + [row]) == InfluenceOf(rat, source, rows) + RowInfluence(rat, source, row)
  {
  }

  function Extended(source: Source, w: Witnesses, member: Row, department: Input, amount: Input): Witnesses {
    Witnesses(w.rows + [BaseRowFact(source, member)], w.departments + [department], w.amounts + [amount])
  }

  lemma {:induction false} WitnessesSnoc(
    rat: Rationals, source: Source, members: seq<Row>, w: Witnesses, member: Row, department: Input, amount: Input)
    requires WitnessesAre(rat, source, members, w)
    requires DepartmentFact(rat, source, member) == Some(department) && AmountFact(rat, source, member) == Some(amount)
    ensures WitnessesAre(rat, source, members + [member], Extended(source, w, member, department, amount))
  {
  }

  lemma {:induction false} MemberObserved(
    rat: Rationals, source: Source, members: seq<Row>, i: nat, w: Witnesses, department: Input, amount: Input)
    requires i < |members| && AllOk(rat, source, members[..i]) && WitnessesAre(rat, source, members[..i], w)
    requires DepartmentFact(rat, source, members[i]) == Some(department)
             && AmountFact(rat, source, members[i]) == Some(amount)
    ensures AllOk(rat, source, members[..i + 1])
    ensures WitnessesAre(rat, source, members[..i + 1], Extended(source, w, members[i], department, amount))
    ensures InfluenceOf(rat, source, members[..i + 1])
            == InfluenceOf(rat, source, members[..i]) + {BaseRowFact(source, members[i]), department, amount}
  {
    InfluenceSnoc(rat, source, members[..i], members[i]);
    WitnessesSnoc(rat, source, members[..i], w, members[i], department, amount);
    assert members[..i + 1] == members[..i] + [members[i]];
  }

  /** The inner loop: collects witnesses and adds each row's facts to the influence set. */
  method ObserveMembers(rat: Rationals, source: Source, members: seq<Row>, influence: set<Input>)
    returns (r: Option<Witnesses>, next: set<Input>)
    ensures r.Some? <==> AllOk(rat, source, members)
    ensures r.Some? ==> WitnessesAre(rat, source, members, r.value)
    ensures r.Some? ==> next == influence + InfluenceOf(rat, source, members)
  {
    var w := Witnesses([], [], []);
    next := influence;
    for i := 0 to |members|
      invariant AllOk(rat, source, members[..i]) && WitnessesAre(rat, source, members[..i], w)
      invariant next == influence + InfluenceOf(rat, source, members[..i])
    {
      assert members[i] in members;
      var department := DepartmentFact(rat, source, members[i]);
      if department.None? { return None, next; }
      var amount := AmountFact(rat, source, members[i]);
      if amount.None? { return None, next; }
      MemberObserved(rat, source, members, i, w, department.value, amount.value);
      w := Extended(source, w, members[i], department.value, amount.value);
      next := next + {BaseRowFact(source, members[i]), department.value, amount.value};
    }
    assert members[..|members|] == members;
    r := Some(w);
  }

  ghost function GroupRowKey(h: HashFunction, source: Source, key: Bytes): Bytes {
    HexEncode(h(Composed(Ascii("group-row"), [source.ns + Ascii(".expense.department") + [0] + TEXT + [0] + key])))
  }

  function DerivedFact(
    source: Source, rowKey: Bytes, expression: Bytes, sqlType: Bytes, value: Bytes, commitment: Bytes): Input {
    DerivedInput([Binding(source.ns, source.snapshot)], rowKey, expression, sqlType, value, commitment)
  }

  function SumExpression(source: Source): Bytes {
    Ascii("sum(") + source.ns + Ascii(".expense.amount)")
  }

  function GroupExpression(source: Source): Bytes {
    Ascii("group(") + source.ns + Ascii(".expense.department)")
  }

  function CountExpression(): Bytes {
    Ascii("count(*)")
  }

  /** The canonical sum of a group's amounts. */
  function SumValue(rat: Rationals, members: seq<Row>): Option<Bytes> {
    CanonicalValue(rat, NUMERIC, Text(rat.text(Total(AmountOf(rat), members))))
  }

  function CountValue(members: seq<Row>): Bytes {
    Ascii("i:") + Numerals.FormatInt(|members|)
  }

  /** What one group releases: its key, the sum of its amounts and its row count. */
  ghost function Releases(
    h: HashFunction, rat: Rationals, source: Source, key: Bytes, members: seq<Row>, w: Witnesses): set<Input>
    requires SumValue(rat, members).Some?
  {
    var rowKey := GroupRowKey(h, source, key);
    var sum := DerivedFact(source, rowKey, SumExpression(source), NUMERIC, SumValue(rat, members).value,
        WitnessOf(h, w.amounts));
    {DerivedFact(source, rowKey, GroupExpression(source), TEXT, key, WitnessOf(h, w.departments)), sum,
     DerivedFact(source, rowKey, CountExpression(), BIGINT, CountValue(members), WitnessOf(h, w.rows))}
  }

  method ComposeRowKey(h: HashFunction, source: Source, key: Bytes) returns (rowKey: Bytes)
    ensures rowKey == GroupRowKey(h, source, key)
  {
    var component := source.ns + Ascii(".expense.department") + [0] + Ascii("text") + [0] + key;
    rowKey := ComposeKey(h, Ascii("group-row"), [component]);
  }

  /** The facts of one group, computed; `groupValue` is the department last stored for it. */
  method GroupFacts(
    h: HashFunction, rat: Rationals, source: Source, key: Bytes, groupValue: Cell, members: seq<Row>, w: Witnesses)
    returns (r: Option<set<Input>>)
    requires CanonicalValue(rat, TEXT, groupValue) == Some(key)
    ensures r.Some? <==> SumValue(rat, members).Some?
    ensures r.Some? ==> r.value == Releases(h, rat, source, key, members, w)
  {
    var rowKey := ComposeRowKey(h, source, key);
    var departments := WitnessCommitment(h, w.departments);
    var group := DerivedFact(source, rowKey, GroupExpression(source), TEXT,
        CanonicalValue(rat, TEXT, groupValue).value, departments);
    var text := SumRows(rat, members);
    var value := CanonicalValue(rat, NUMERIC, Text(text));
    if value.None? { return None; }
    var amounts := WitnessCommitment(h, w.amounts);
    var sum := DerivedFact(source, rowKey, SumExpression(source), NUMERIC, value.value, amounts);
    var rows := WitnessCommitment(h, w.rows);
    var count := DerivedFact(source, rowKey, CountExpression(), BIGINT, CountValue(members), rows);
    return Some({group, sum, count});
  }

  ghost predicate GroupOk(rat: Rationals, source: Source, key: Bytes) {
    var members := Members(rat, source.rows, key);
    AllOk(rat, source, members) && SumValue(rat, members).Some?
  }

  /** What the group of a key releases and what its rows influence. */
  ghost function GroupReleases(h: HashFunction, rat: Rationals, source: Source, key: Bytes): set<Input> {
    var members := Members(rat, source.rows, key);
    if GroupOk(rat, source, key) then Releases(h, rat, source, key, members, WitnessesOf(rat, source, members)) else {}
  }

  ghost function GroupInfluence(rat: Rationals, source: Source, key: Bytes): set<Input> {
    var members := Members(rat, source.rows, key);
    if AllOk(rat, source, members) then InfluenceOf(rat, source, members) else {}
  }

  // ---------- unions over groups ----------

  ghost function UnionOver(g: Bytes -> set<Input>, keys: seq<Bytes>): set<Input> {
    if keys == [] then {} else UnionOver(g, keys[..|keys| - 1]) + g(keys[|keys| - 1])
  }

  lemma {:induction false} UnionSnoc(g: Bytes -> set<Input>, keys: seq<Bytes>, i: nat)
    requires i < |keys|
    ensures UnionOver(g, keys[..i + 1]) == UnionOver(g, keys[..i]) + g(keys[i])
  {
    assert keys[..i + 1][..i] == keys[..i];
  }

  lemma {:induction false} InUnion(g: Bytes -> set<Input>, keys: seq<Bytes>, f: Input)
    ensures f in UnionOver(g, keys) <==> exists key :: key in keys && f in g(key)
  {
    if keys != [] {
      var n := |keys| - 1;
      InUnion(g, keys[..n], f);
      assert keys == keys[..n] + [keys[n]];
      assert forall key :: key in keys <==> key in keys[..n] || key == keys[n];
    }
  }

  /** The order in which the keys are enumerated does not matter. */
  lemma {:induction false} UnionIgnoresOrder(g: Bytes -> set<Input>, a: seq<Bytes>, b: seq<Bytes>)
    requires Elements(a) == Elements(b)
    ensures UnionOver(g, a) == UnionOver(g, b)
  {
    assert forall key :: key in a <==> key in Elements(a);
    assert forall key :: key in b <==> key in Elements(b);
    forall f ensures f in UnionOver(g, a) <==> f in UnionOver(g, b) {
      InUnion(g, a, f);
      InUnion(g, b, f);
    }
  }

  // ---------- the observation ----------

  ghost function ReleaseBy(h: HashFunction, rat: Rationals, source: Source): Bytes -> set<Input> {
    key => GroupReleases(h, rat, source, key)
  }

  ghost function InfluenceBy(rat: Rationals, source: Source): Bytes -> set<Input> {
    key => GroupInfluence(rat, source, key)
  }

  ghost predicate SourceOk(rat: Rationals, source: Source) {
    && Keyed(rat, source.rows) && AllOk(rat, source, source.rows)
    && forall key :: key in KeysOf(rat, source.rows) ==> SumValue(rat, Members(rat, source.rows, key)).Some?
  }

  /** The observation, stated over the ascending listing of the group keys and over the rows. */
  ghost function ObservationOf(h: HashFunction, rat: Rationals, source: Source): Observation
    requires SourceOk(rat, source)
  {
    Observation(UnionOver(ReleaseBy(h, rat, source), Listing(KeysOf(rat, source.rows))),
                InfluenceOf(rat, source, source.rows))
  }

  lemma {:induction false} GroupMembersOk(rat: Rationals, source: Source, key: Bytes)
    requires AllOk(rat, source, source.rows)
    ensures AllOk(rat, source, Members(rat, source.rows, key))
  {
    forall row | row in Members(rat, source.rows, key) ensures RowOk(rat, source, row) {
      MembersAre(rat, source.rows, key, row);
    }
  }

  lemma {:induction false} RowInfluences(rat: Rationals, source: Source, rows: seq<Row>, f: Input)
    requires AllOk(rat, source, rows)
    ensures f in InfluenceOf(rat, source, rows) <==> exists row :: row in rows && f in RowInfluence(rat, source, row)
  {
  }

  lemma {:induction false} InfluenceInGroup(rat: Rationals, source: Source, f: Input)
    requires Keyed(rat, source.rows) && AllOk(rat, source, source.rows)
    ensures f in InfluenceOf(rat, source, source.rows)
            <==> exists key :: key in KeysOf(rat, source.rows) && f in GroupInfluence(rat, source, key)
  {
    var rows := source.rows;
    RowInfluences(rat, source, rows, f);
    if f in InfluenceOf(rat, source, rows) {
      var row :| row in rows && f in RowInfluence(rat, source, row);
      var i :| 0 <= i < |rows| && rows[i] == row;
      var key := GroupKey(rat, rows[i]).value;
      MembersAre(rat, rows, key, row);
      GroupMembersOk(rat, source, key);
      RowInfluences(rat, source, Members(rat, rows, key), f);
      assert key in KeysOf(rat, rows) && f in GroupInfluence(rat, source, key);
    }
    if key :| key in KeysOf(rat, rows) && f in GroupInfluence(rat, source, key) {
      RowInfluences(rat, source, Members(rat, rows, key), f);
      var row :| row in Members(rat, rows, key) && f in RowInfluence(rat, source, row);
      MembersAre(rat, rows, key, row);
    }
  }

  /** Whatever the order of the groups, exactly the rows' facts have been added in the end. */
  lemma {:induction false} InfluenceByGroups(rat: Rationals, source: Source, keys: seq<Bytes>)
    requires Keyed(rat, source.rows) && AllOk(rat, source, source.rows) && Elements(keys) == KeysOf(rat, source.rows)
    ensures UnionOver(InfluenceBy(rat, source), keys) == InfluenceOf(rat, source, source.rows)
  {
    assert forall key :: key in keys <==> key in Elements(keys);
    forall f ensures f in UnionOver(InfluenceBy(rat, source), keys) <==> f in InfluenceOf(rat, source, source.rows) {
      InUnion(InfluenceBy(rat, source), keys, f);
      InfluenceInGroup(rat, source, f);
    }
  }

  lemma {:induction false} GroupsDecide(rat: Rationals, source: Source)
    requires Keyed(rat, source.rows)
    ensures SourceOk(rat, source) <==> forall key :: key in KeysOf(rat, source.rows) ==> GroupOk(rat, source, key)
  {
    var rows, keys := source.rows, KeysOf(rat, source.rows);
    if SourceOk(rat, source) {
      forall key | key in keys ensures GroupOk(rat, source, key) { GroupMembersOk(rat, source, key); }
    }
    if forall key :: key in keys ==> GroupOk(rat, source, key) {
      forall row | row in rows ensures RowOk(rat, source, row) {
        var i :| 0 <= i < |rows| && rows[i] == row;
        var key := GroupKey(rat, rows[i]).value;
        assert key in keys;
        MembersAre(rat, rows, key, row);
      }
    }
  }

  // ---------- the enumeration of the groups ----------

  lemma {:induction false} ReleasesAre(
    h: HashFunction, rat: Rationals, source: Source, key: Bytes, members: seq<Row>, w: Witnesses)
    requires members == Members(rat, source.rows, key) && GroupOk(rat, source, key)
             && WitnessesAre(rat, source, members, w)
    ensures Releases(h, rat, source, key, members, w) == GroupReleases(h, rat, source, key)
  {
    WitnessesUnique(rat, source, members, w, WitnessesOf(rat, source, members));
  }

  method ReleaseGroup(
    h: HashFunction, rat: Rationals, source: Source, key: Bytes, groupValue: Cell, members: seq<Row>, w: Witnesses)
    returns (r: Option<set<Input>>)
    requires members == Members(rat, source.rows, key) && CanonicalValue(rat, TEXT, groupValue) == Some(key)
    requires AllOk(rat, source, members) && WitnessesAre(rat, source, members, w)
    ensures r.Some? <==> GroupOk(rat, source, key)
    ensures r.Some? ==> r.value == GroupReleases(h, rat, source, key)
  {
    r := GroupFacts(h, rat, source, key, groupValue, members, w);
    if r.Some? { ReleasesAre(h, rat, source, key, members, w); }
  }

  method ObserveGroupRows(rat: Rationals, source: Source, key: Bytes, members: seq<Row>, influence: set<Input>)
    returns (r: Option<Witnesses>, next: set<Input>)
    requires members == Members(rat, source.rows, key)
    ensures r.Some? <==> AllOk(rat, source, members)
    ensures r.Some? ==> WitnessesAre(rat, source, members, r.value)
    ensures r.Some? ==> next == influence + InfluenceBy(rat, source)(key)
  {
    r, next := ObserveMembers(rat, source, members, influence);
    assert r.Some? ==> InfluenceBy(rat, source)(key) == InfluenceOf(rat, source, members);
  }

  /** One iteration over the map of groups. */
  method ObserveGroup(
    h: HashFunction, rat: Rationals, source: Source, key: Bytes, groupValue: Cell, members: seq<Row>, o: Observation)
    returns (r: Option<Observation>)
    requires members == Members(rat, source.rows, key) && CanonicalValue(rat, TEXT, groupValue) == Some(key)
    ensures r.Some? <==> GroupOk(rat, source, key)
    ensures r.Some? ==> r.value.release == o.release + ReleaseBy(h, rat, source)(key)
    ensures r.Some? ==> r.value.influence == o.influence + InfluenceBy(rat, source)(key)
  {
    var w, influence := ObserveGroupRows(rat, source, key, members, o.influence);
    if w.None? { return None; }
    var facts := ReleaseGroup(h, rat, source, key, groupValue, members, w.value);
    if facts.None? { return None; }
    return Some(Observation(o.release + facts.value, influence));
  }

  ghost predicate GroupsOk(rat: Rationals, source: Source, keys: seq<Bytes>) {
    keys == [] || (GroupsOk(rat, source, keys[..|keys| - 1]) && GroupOk(rat, source, keys[|keys| - 1]))
  }

  lemma {:induction false} GroupsOkMeans(rat: Rationals, source: Source, keys: seq<Bytes>)
    ensures GroupsOk(rat, source, keys) <==> forall key :: key in keys ==> GroupOk(rat, source, key)
  {
    if keys != [] {
      var n := |keys| - 1;
      GroupsOkMeans(rat, source, keys[..n]);
      assert forall key :: key in keys <==> key in keys[..n] || key == keys[n];
    }
  }

  lemma {:induction false} GroupsOkPrefix(rat: Rationals, source: Source, keys: seq<Bytes>, i: nat)
    requires i < |keys|
    ensures GroupsOk(rat, source, keys[..i + 1]) <==> GroupsOk(rat, source, keys[..i]) && GroupOk(rat, source, keys[i])
    ensures GroupsOk(rat, source, keys) ==> GroupOk(rat, source, keys[i])
  {
    assert keys[..i + 1][..i] == keys[..i];
    GroupsOkMeans(rat, source, keys);
  }

  method Enumerate(
    h: HashFunction, rat: Rationals, source: Source, groups: map<Bytes, seq<Row>>, values: map<Bytes, Cell>,
    keys: seq<Bytes>)
    returns (r: Option<Observation>)
    requires Keyed(rat, source.rows) && IsGrouping(rat, source.rows, groups)
             && Elements(keys) == KeysOf(rat, source.rows)
    requires HoldsValues(rat, groups, values)
    ensures r.Some? <==> GroupsOk(rat, source, keys)
    ensures r.Some? ==> r.value.release == UnionOver(ReleaseBy(h, rat, source), keys)
    ensures r.Some? ==> r.value.influence == UnionOver(InfluenceBy(rat, source), keys)
  {
    var o := Observation({}, {});
    for i := 0 to |keys|
      invariant GroupsOk(rat, source, keys[..i])
      invariant o.release == UnionOver(ReleaseBy(h, rat, source), keys[..i])
      invariant o.influence == UnionOver(InfluenceBy(rat, source), keys[..i])
    {
      assert keys[i] in Elements(keys);
      GroupsOkPrefix(rat, source, keys, i);
      var next := ObserveGroup(h, rat, source, keys[i], values[keys[i]], groups[keys[i]], o);
      if next.None? { return None; }
      UnionSnoc(ReleaseBy(h, rat, source), keys, i);
      UnionSnoc(InfluenceBy(rat, source), keys, i);
      o := next.value;
    }
    assert keys[..|keys|] == keys;
    return Some(o);
  }

  lemma {:induction false} KeysDecide(rat: Rationals, source: Source, keys: seq<Bytes>)
    requires Keyed(rat, source.rows) && Elements(keys) == KeysOf(rat, source.rows)
    ensures SourceOk(rat, source) <==> GroupsOk(rat, source, keys)
  {
    GroupsDecide(rat, source);
    GroupsOkMeans(rat, source, keys);
    forall i | 0 <= i < |keys| ensures keys[i] in KeysOf(rat, source.rows) { assert keys[i] in Elements(keys); }
    forall key | key in KeysOf(rat, source.rows) ensures key in keys { assert key in Elements(keys); }
  }

  lemma {:induction false} EnumerationIsObservation(h: HashFunction, rat: Rationals, source: Source, keys: seq<Bytes>)
    requires SourceOk(rat, source) && Elements(keys) == KeysOf(rat, source.rows)
    ensures Observation(UnionOver(ReleaseBy(h, rat, source), keys), UnionOver(InfluenceBy(rat, source), keys))
            == ObservationOf(h, rat, source)
  {
    InfluenceByGroups(rat, source, keys);
    UnionIgnoresOrder(ReleaseBy(h, rat, source), keys, Listing(KeysOf(rat, source.rows)));
  }

  method ObserveGroups(
    h: HashFunction, rat: Rationals, source: Source, groups: map<Bytes, seq<Row>>, values: map<Bytes, Cell>)
    returns (r: Option<Observation>)
    requires Keyed(rat, source.rows) && IsGrouping(rat, source.rows, groups) && HoldsValues(rat, groups, values)
    ensures r == if SourceOk(rat, source) then Some(ObservationOf(h, rat, source)) else None
  {
    var keys := AnyOrder(groups.Keys);
    KeysDecide(rat, source, keys);
    r := Enumerate(h, rat, source, groups, values, keys);
    if r.Some? { EnumerationIsObservation(h, rat, source, keys); }
  }

  method GroupSumCount(h: HashFunction, rat: Rationals, source: Source) returns (r: Option<Observation>)
    ensures r == if SourceOk(rat, source) then Some(ObservationOf(h, rat, source)) else None
  {
    var groups, values := GroupRowsAndValues(rat, source.rows);
    if groups.None? { return None; }
    r := ObserveGroups(h, rat, source, groups.value, values);
  }
}
