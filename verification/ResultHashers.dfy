/** The streaming result hashers (evaluation/finalv5oracle/result.go): one commits typed rows in the
    order they are written, the other sorts complete row encodings first. A running hash.Hash is the
    sequence of bytes written to it. */
module ResultHashers {
  import opened GoBytes
  import opened Sorting

  const SCHEMA_DOMAIN: Bytes := Ascii("TASKGATE-FINAL-V5-RESULT-SCHEMA-V1") + [0]
  const ROWS_DOMAIN: Bytes := Ascii("TASKGATE-FINAL-V5-RESULT-ROWS-V1") + [0]
  const DIGEST_DOMAIN: Bytes := Ascii("TASKGATE-FINAL-V5-CANONICAL-RESULT-V1") + [0]
  const MAX_ROWS: int := 200_000
  const MAX_BYTES: int := 0x1000_0000
  const MAX_INT64: int := TWO63 - 1

  /** A column of a schema whose names and types are already normalised. */
  datatype Column = Column(name: Bytes, sqlType: Bytes)

  datatype TypedValue = Null(sqlType: Bytes) | Value(sqlType: Bytes, canonical: Bytes)

  type Row = seq<TypedValue>

  datatype ResultSummary = ResultSummary(rowCount: int, columnCount: int, schemaSha256: Bytes, resultSha256: Bytes)

  // ---------- encodings ----------

  ghost function Cell(value: TypedValue): Bytes {
    match value
    case Null(t) => Framed(t) + ([0] + Framed([]))
    case Value(t, canonical) => Framed(t) + ([1] + Framed(canonical))
  }

  ghost function Cells(row: Row): Bytes {
    if row == [] then [] else Cell(row[0]) + Cells(row[1..])
  }

  ghost function RowPayload(row: Row): Bytes {
    U64(|row|) + Cells(row)
  }

  ghost function Payloads(rows: seq<Row>): (r: seq<Bytes>)
    ensures |r| == |rows| && forall i :: 0 <= i < |r| ==> r[i] == RowPayload(rows[i])
  {
    seq(|rows|, i requires 0 <= i < |rows| => RowPayload(rows[i]))
  }

  ghost predicate Conforms(columns: seq<Column>, row: Row) {
    |row| == |columns| && Matches(columns, row, |row|)
  }

  ghost predicate Matches(columns: seq<Column>, row: Row, n: int)
    requires |row| == |columns| && 0 <= n <= |row|
  {
    forall i :: 0 <= i < n ==> row[i].sqlType == columns[i].sqlType
  }

  ghost function FlatSchema(columns: seq<Column>): (r: seq<Bytes>)
    ensures |r| == 2 * |columns|
  {
    if columns == [] then [] else [columns[0].name, columns[0].sqlType] + FlatSchema(columns[1..])
  }

  ghost function SchemaPayload(columns: seq<Column>): Bytes {
    U64(|columns|) + FrameAll(FlatSchema(columns))
  }

  ghost function RowStream(encoded: seq<Bytes>): Bytes {
    ROWS_DOMAIN + FrameAll(encoded)
  }

  ghost function ResultPreimage(schemaDigest: Bytes, rowCount: int, columnCount: int, rowDigest: Bytes): Bytes {
    DIGEST_DOMAIN + (Framed(schemaDigest) + (U64(rowCount) + (U64(columnCount) + Framed(rowDigest))))
  }

  ghost function SummaryOf(h: HashFunction, columns: seq<Column>, encoded: seq<Bytes>): ResultSummary {
    var schemaDigest := h(SCHEMA_DOMAIN + SchemaPayload(columns));
    ResultSummary(|encoded|, |columns|, HexEncode(schemaDigest),
                  HexEncode(h(ResultPreimage(schemaDigest, |encoded|, |columns|, h(RowStream(encoded))))))
  }

  /** Sizes that fit Go's int. */
  ghost predicate SizedValue(value: TypedValue) {
    Fits(value.sqlType) && (value.Value? ==> Fits(value.canonical))
  }

  ghost predicate Sized(row: Row) {
    |row| < TWO63 && Fits(RowPayload(row)) && forall i :: 0 <= i < |row| ==> SizedValue(row[i])
  }

  ghost predicate AllSized(rows: seq<Row>) {
    |rows| < TWO63 && forall i :: 0 <= i < |rows| ==> Sized(rows[i])
  }

  ghost function Tag(value: TypedValue): Bytes {
    if value.Null? then [0] else [1]
  }

  ghost function Content(value: TypedValue): Bytes {
    if value.Null? then [] else value.canonical
  }

  lemma {:induction false} CellCancel(v: TypedValue, x: Bytes, w: TypedValue, y: Bytes)
    requires SizedValue(v) && SizedValue(w) && Cell(v) + x == Cell(w) + y
    ensures v == w && x == y
  {
    CellParts(v, x);
    CellParts(w, y);
    FramedCancel(v.sqlType, Tag(v) + (Framed(Content(v)) + x), w.sqlType, Tag(w) + (Framed(Content(w)) + y));
    PrefixCancel(Tag(v), Framed(Content(v)) + x, Tag(w), Framed(Content(w)) + y);
    FramedCancel(Content(v), x, Content(w), y);
  }

  lemma {:induction false} CellParts(v: TypedValue, x: Bytes)
    ensures Cell(v) + x == Framed(v.sqlType) + (Tag(v) + (Framed(Content(v)) + x))
  {
    Assoc(Framed(v.sqlType), Tag(v) + Framed(Content(v)), x);
    Assoc(Tag(v), Framed(Content(v)), x);
  }

  lemma {:induction false} CellsInjective(a: Row, b: Row)
    requires |a| == |b| && Cells(a) == Cells(b)
    requires forall i :: 0 <= i < |a| ==> SizedValue(a[i]) && SizedValue(b[i])
    ensures a == b
  {
    if a != [] {
      FirstCell(a, b);
      CellsInjective(a[1..], b[1..]);
      SameHeadAndTail(a, b);
    }
  }

  lemma {:induction false} FirstCell(a: Row, b: Row)
    requires a != [] && b != [] && SizedValue(a[0]) && SizedValue(b[0]) && Cells(a) == Cells(b)
    ensures a[0] == b[0] && Cells(a[1..]) == Cells(b[1..])
  {
    CellCancel(a[0], Cells(a[1..]), b[0], Cells(b[1..]));
  }

  /** An encoded value reads back as its type, a flag that is zero exactly for null, and its content. */
  lemma {:induction false} CellReads(v: TypedValue, x: Bytes)
    requires SizedValue(v)
    ensures var first := ReadFramed(Cell(v) + x);
            && first.Some? && first.value.0 == v.sqlType && |first.value.1| > 0
            && (first.value.1[0] == 0 <==> v.Null?)
            && ReadFramed(first.value.1[1..]) == Some((if v.Null? then [] else v.canonical, x))
  {
    CellParts(v, x);
    ReadInvertsWrite(v.sqlType, Tag(v) + (Framed(Content(v)) + x));
    ReadInvertsWrite(Content(v), x);
    assert (Tag(v) + (Framed(Content(v)) + x))[1..] == Framed(Content(v)) + x;
  }

  /** A row encoding determines every type, null flag and value. */
  lemma {:induction false} RowPayloadInjective(a: Row, b: Row)
    requires Sized(a) && Sized(b)
    ensures RowPayload(a) == RowPayload(b) <==> a == b
  {
    if RowPayload(a) == RowPayload(b) {
      CountCancel(|a|, Cells(a), |b|, Cells(b));
      CellsInjective(a, b);
    }
  }

  lemma {:induction false} PayloadsInjective(a: seq<Row>, b: seq<Row>)
    requires AllSized(a) && AllSized(b) && Payloads(a) == Payloads(b)
    ensures a == b
  {
    assert |a| == |Payloads(a)| == |Payloads(b)| == |b|;
    forall i | 0 <= i < |a| ensures a[i] == b[i] {
      assert Payloads(a)[i] == Payloads(b)[i];
      RowPayloadInjective(a[i], b[i]);
    }
  }

  lemma {:induction false} PayloadsFit(rows: seq<Row>)
    requires AllSized(rows)
    ensures AllFit(Payloads(rows))
  {
  }

  /** The ordered row stream determines the exact ordered list of typed rows. */
  lemma {:induction false} OrderedStreamDeterminesRows(a: seq<Row>, b: seq<Row>)
    requires AllSized(a) && AllSized(b)
    ensures RowStream(Payloads(a)) == RowStream(Payloads(b)) <==> a == b
  {
    if RowStream(Payloads(a)) == RowStream(Payloads(b)) {
      PrefixCancel(ROWS_DOMAIN, FrameAll(Payloads(a)), ROWS_DOMAIN, FrameAll(Payloads(b)));
      PayloadsFit(a);
      PayloadsFit(b);
      FrameAllInjective(Payloads(a), Payloads(b));
      PayloadsInjective(a, b);
    }
  }

  // ---------- the sorted stream and multisets ----------

  lemma {:induction false} PayloadsFaithful(a: seq<Row>, b: seq<Row>)
    requires AllSized(a) && AllSized(b)
    ensures Faithful(a, Payloads(a), b, Payloads(b))
  {
    var s, t := Payloads(a), Payloads(b);
    forall i, j | 0 <= i < |a| && 0 <= j < |b| ensures s[i] == t[j] <==> a[i] == b[j] {
      RowPayloadInjective(a[i], b[j]);
    }
  }

  lemma {:induction false} SameCounts(a: seq<Row>, b: seq<Row>)
    requires AllSized(a) && AllSized(b)
    ensures multiset(Payloads(a)) == multiset(Payloads(b)) <==> multiset(a) == multiset(b)
  {
    PayloadsFaithful(a, a);
    PayloadsFaithful(a, b);
    PayloadsFaithful(b, a);
    PayloadsFaithful(b, b);
    SameImages(a, Payloads(a), b, Payloads(b));
  }

  /** The sorted row stream is the same for two runs exactly when their rows are equal as multisets. */
  lemma {:induction false} SortedStreamDeterminesMultiset(a: seq<Row>, b: seq<Row>)
    requires AllSized(a) && AllSized(b)
    ensures RowStream(Sort(Leq, Payloads(a))) == RowStream(Sort(Leq, Payloads(b))) <==> multiset(a) == multiset(b)
  {
    var s, t := Sort(Leq, Payloads(a)), Sort(Leq, Payloads(b));
    BytesTotalOrder();
    SortOfPermutation(Leq, Payloads(a), Payloads(b));
    SameCounts(a, b);
    if RowStream(s) == RowStream(t) {
      PrefixCancel(ROWS_DOMAIN, FrameAll(s), ROWS_DOMAIN, FrameAll(t));
      SortedFit(a);
      SortedFit(b);
      FrameAllInjective(s, t);
    }
  }

  lemma {:induction false} SortedFit(rows: seq<Row>)
    requires AllSized(rows)
    ensures AllFit(Sort(Leq, Payloads(rows)))
  {
    var s := Sort(Leq, Payloads(rows));
    BytesTotalOrder();
    SortIsSortedPermutation(Leq, Payloads(rows));
    PayloadsFit(rows);
    forall v | v in s ensures Fits(v) {
      assert v in multiset(s) && v in multiset(Payloads(rows));
    }
  }

  // ---------- the published digest ----------

  lemma {:induction false} FlatSchemaInjective(a: seq<Column>, b: seq<Column>)
    requires FlatSchema(a) == FlatSchema(b)
    ensures a == b
  {
    assert |a| == |b|;
    if a != [] {
      var s, t := FlatSchema(a), FlatSchema(b);
      assert s[0] == a[0].name && s[1] == a[0].sqlType && s[2..] == FlatSchema(a[1..]);
      assert t[0] == b[0].name && t[1] == b[0].sqlType && t[2..] == FlatSchema(b[1..]);
      FlatSchemaInjective(a[1..], b[1..]);
      SameHeadAndTail(a, b);
    }
  }

  ghost predicate SizedSchema(columns: seq<Column>) {
    |columns| < TWO63 && AllFit(FlatSchema(columns))
  }

  lemma {:induction false} SchemaPayloadInjective(a: seq<Column>, b: seq<Column>)
    requires SizedSchema(a) && SizedSchema(b) && SchemaPayload(a) == SchemaPayload(b)
    ensures a == b
  {
    CountCancel(|a|, FrameAll(FlatSchema(a)), |b|, FrameAll(FlatSchema(b)));
    FrameAllInjective(FlatSchema(a), FlatSchema(b));
    FlatSchemaInjective(a, b);
  }

  lemma {:induction false} ResultPreimageInjective(
    s: Digest, n: int, c: int, r: Digest, t: Digest, m: int, d: int, q: Digest)
    requires ResultPreimage(s, n, c, r) == ResultPreimage(t, m, d, q)
    requires 0 <= n < TWO63 && 0 <= m < TWO63 && 0 <= c < TWO63 && 0 <= d < TWO63
    ensures s == t && n == m && c == d && r == q
  {
    var u, v := U64(c) + Framed(r), U64(d) + Framed(q);
    PrefixCancel(DIGEST_DOMAIN, Framed(s) + (U64(n) + u), DIGEST_DOMAIN, Framed(t) + (U64(m) + v));
    FramedCancel(s, U64(n) + u, t, U64(m) + v);
    CountCancel(n, u, m, v);
    CountCancel(c, Framed(r), d, Framed(q));
    FramedCancel(r, [], q, []);
  }

  /** The published schema digest identifies the schema. */
  lemma {:induction false} SchemaDigestIdentifiesSchema(
    h: HashFunction, a: seq<Column>, x: seq<Bytes>, b: seq<Column>, y: seq<Bytes>)
    requires SizedSchema(a) && SizedSchema(b)
    requires CollisionFree(h, {SCHEMA_DOMAIN + SchemaPayload(a), SCHEMA_DOMAIN + SchemaPayload(b)})
    ensures SummaryOf(h, a, x).schemaSha256 == SummaryOf(h, b, y).schemaSha256 <==> a == b
  {
    var s, t := SCHEMA_DOMAIN + SchemaPayload(a), SCHEMA_DOMAIN + SchemaPayload(b);
    HexRoundTrip(h(s));
    HexRoundTrip(h(t));
    if SummaryOf(h, a, x).schemaSha256 == SummaryOf(h, b, y).schemaSha256 {
      PrefixCancel(SCHEMA_DOMAIN, SchemaPayload(a), SCHEMA_DOMAIN, SchemaPayload(b));
      SchemaPayloadInjective(a, b);
    }
  }

  /** The three byte strings hashed for one result. */
  ghost function Hashed(h: HashFunction, columns: seq<Column>, encoded: seq<Bytes>): set<Bytes> {
    {SCHEMA_DOMAIN + SchemaPayload(columns), RowStream(encoded),
     ResultPreimage(h(SCHEMA_DOMAIN + SchemaPayload(columns)), |encoded|, |columns|, h(RowStream(encoded)))}
  }

  /** Under collision freedom the published result digest determines the schema and the row stream. */
  lemma {:induction false} DigestDeterminesStream(
    h: HashFunction, a: seq<Column>, x: seq<Bytes>, b: seq<Column>, y: seq<Bytes>)
    requires SizedSchema(a) && SizedSchema(b) && |x| < TWO63 && |y| < TWO63
    requires CollisionFree(h, Hashed(h, a, x) + Hashed(h, b, y))
    requires SummaryOf(h, a, x).resultSha256 == SummaryOf(h, b, y).resultSha256
    ensures a == b && RowStream(x) == RowStream(y)
  {
    var s, t := SCHEMA_DOMAIN + SchemaPayload(a), SCHEMA_DOMAIN + SchemaPayload(b);
    var p := ResultPreimage(h(s), |x|, |a|, h(RowStream(x)));
    var q := ResultPreimage(h(t), |y|, |b|, h(RowStream(y)));
    HexRoundTrip(h(p));
    HexRoundTrip(h(q));
    assert p in Hashed(h, a, x) && q in Hashed(h, b, y);
    ResultPreimageInjective(h(s), |x|, |a|, h(RowStream(x)), h(t), |y|, |b|, h(RowStream(y)));
    assert s in Hashed(h, a, x) && t in Hashed(h, b, y);
    assert RowStream(x) in Hashed(h, a, x) && RowStream(y) in Hashed(h, b, y);
    PrefixCancel(SCHEMA_DOMAIN, SchemaPayload(a), SCHEMA_DOMAIN, SchemaPayload(b));
    SchemaPayloadInjective(a, b);
  }

  /** Ordered results: equal digests exactly for equal schemas and equal lists of typed rows. */
  lemma {:induction false} OrderedDigestIdentifiesResult(
    h: HashFunction, a: seq<Column>, r: seq<Row>, b: seq<Column>, q: seq<Row>)
    requires SizedSchema(a) && SizedSchema(b) && AllSized(r) && AllSized(q)
    requires CollisionFree(h, Hashed(h, a, Payloads(r)) + Hashed(h, b, Payloads(q)))
    ensures SummaryOf(h, a, Payloads(r)).resultSha256 == SummaryOf(h, b, Payloads(q)).resultSha256 <==> a == b && r == q
  {
    if SummaryOf(h, a, Payloads(r)).resultSha256 == SummaryOf(h, b, Payloads(q)).resultSha256 {
      DigestDeterminesStream(h, a, Payloads(r), b, Payloads(q));
      OrderedStreamDeterminesRows(r, q);
    }
  }

  /** Sorted results: equal digests exactly for equal schemas and equal multisets of typed rows. */
  lemma {:induction false} SortedDigestIdentifiesResult(
    h: HashFunction, a: seq<Column>, r: seq<Row>, b: seq<Column>, q: seq<Row>)
    requires SizedSchema(a) && SizedSchema(b) && AllSized(r) && AllSized(q)
    requires CollisionFree(h, Hashed(h, a, Sort(Leq, Payloads(r))) + Hashed(h, b, Sort(Leq, Payloads(q))))
    ensures SummaryOf(h, a, Sort(Leq, Payloads(r))).resultSha256 == SummaryOf(h, b, Sort(Leq, Payloads(q))).resultSha256
            <==> a == b && multiset(r) == multiset(q)
  {
    var s, t := Sort(Leq, Payloads(r)), Sort(Leq, Payloads(q));
    SortedStreamDeterminesMultiset(r, q);
    BytesTotalOrder();
    SortOfPermutation(Leq, Payloads(r), Payloads(q));
    SameCounts(r, q);
    if SummaryOf(h, a, s).resultSha256 == SummaryOf(h, b, t).resultSha256 {
      DigestDeterminesStream(h, a, s, b, t);
    }
  }

  // ---------- canonicalTypedRowPayload ----------

  method CanonicalTypedRowPayload(columns: seq<Column>, row: Row) returns (r: Option<Bytes>)
    ensures r.Some? <==> Conforms(columns, row)
    ensures r.Some? ==> r.value == RowPayload(row)
  {
    if |row| != |columns| { return None; }
    var encoded := U64(|row|);
    for index := 0 to |row|
      invariant encoded == U64(|row|) + Cells(row[..index])
      invariant Matches(columns, row, index)
    {
      if row[index].sqlType != columns[index].sqlType { return None; }
      assert Matches(columns, row, index + 1);
      CellWritten(U64(|row|), row, index);
      encoded := AppendValue(encoded, row[index]);
    }
    assert row[..|row|] == row;
    return Some(encoded);
  }

  /** Type, null flag and content of one value. */
  method AppendValue(before: Bytes, value: TypedValue) returns (encoded: Bytes)
    ensures encoded == before + Cell(value)
  {
    encoded := before + Framed(value.sqlType);
    match value
    case Null(_) => encoded := encoded + [0] + Framed([]);
    case Value(_, canonical) => encoded := encoded + [1] + Framed(canonical);
    CellAppended(before, value);
  }

  lemma {:induction false} CellAppended(before: Bytes, value: TypedValue)
    ensures before + Framed(value.sqlType) + Tag(value) + Framed(Content(value)) == before + Cell(value)
  {
    Assoc(before, Framed(value.sqlType), Tag(value) + Framed(Content(value)));
    Assoc(before + Framed(value.sqlType), Tag(value), Framed(Content(value)));
  }

  lemma {:induction false} CellWritten(prefix: Bytes, row: Row, i: nat)
    requires i < |row|
    ensures prefix + Cells(row[..i]) + Cell(row[i]) == prefix + Cells(row[..i + 1])
  {
    assert row[..i + 1] == row[..i] + [row[i]];
    CellsSnoc(row[..i], row[i]);
    Assoc(prefix, Cells(row[..i]), Cell(row[i]));
  }

  lemma {:induction false} CellsSnoc(row: Row, value: TypedValue)
    ensures Cells(row + [value]) == Cells(row) + Cell(value)
  {
    if row == [] {
      assert Cells([value]) == Cell(value) + Cells([value][1..]);
    } else {
      CellsSnoc(row[1..], value);
      assert (row + [value])[1..] == row[1..] + [value] && (row + [value])[0] == row[0];
      Assoc(Cell(row[0]), Cells(row[1..]), Cell(value));
    }
  }

  /** canonicalResultSchemaPayload after its domain: the number of columns, then name and type of each. */
  method WriteSchema(domain: Bytes, columns: seq<Column>) returns (payload: Bytes)
    ensures payload == domain + SchemaPayload(columns)
  {
    payload := domain + U64(|columns|);
    for i := 0 to |columns|
      invariant payload == domain + U64(|columns|) + FrameAll(FlatSchema(columns[..i]))
    {
      ColumnWritten(domain + U64(|columns|), columns, i);
      payload := payload + Framed(columns[i].name) + Framed(columns[i].sqlType);
    }
    assert columns[..|columns|] == columns;
    Assoc(domain, U64(|columns|), FrameAll(FlatSchema(columns)));
  }

  lemma {:induction false} FlatSchemaSnoc(s: seq<Column>, c: Column)
    ensures FlatSchema(s + [c]) == FlatSchema(s) + [c.name, c.sqlType]
  {
    if s != [] {
      FlatSchemaSnoc(s[1..], c);
      assert (s + [c])[1..] == s[1..] + [c];
    } else {
      assert FlatSchema([c]) == [c.name, c.sqlType] + FlatSchema([c][1..]);
    }
  }

  lemma {:induction false} ColumnWritten(before: Bytes, columns: seq<Column>, i: nat)
    requires i < |columns|
    ensures before + FrameAll(FlatSchema(columns[..i])) + Framed(columns[i].name) + Framed(columns[i].sqlType)
            == before + FrameAll(FlatSchema(columns[..i + 1]))
  {
    var c, done := columns[i], FlatSchema(columns[..i]);
    FlatSchemaSnoc(columns[..i], c);
    assert columns[..i + 1] == columns[..i] + [c];
    FrameAllSnoc(done, c.name);
    FrameAllSnoc(done + [c.name], c.sqlType);
    assert done + [c.name] + [c.sqlType] == done + [c.name, c.sqlType];
    Assoc(before, FrameAll(done), Framed(c.name));
    Assoc(before, FrameAll(done) + Framed(c.name), Framed(c.sqlType));
  }

  lemma {:induction false} ResultWritten(s: Bytes, n: int, c: int, r: Bytes)
    ensures DIGEST_DOMAIN + Framed(s) + U64(n) + U64(c) + Framed(r) == ResultPreimage(s, n, c, r)
  {
    Assoc(U64(n), U64(c), Framed(r));
    Assoc(Framed(s), U64(n), U64(c) + Framed(r));
    Assoc(DIGEST_DOMAIN, Framed(s), U64(n) + (U64(c) + Framed(r)));
    Assoc(DIGEST_DOMAIN + Framed(s), U64(n), U64(c) + Framed(r));
    Assoc(DIGEST_DOMAIN + Framed(s) + U64(n), U64(c), Framed(r));
  }

  // ---------- ResultHasher ----------

  /** `written` is the history of accepted row encodings; the source keeps only their hash. */
  class ResultHasher {
    const h: HashFunction
    const columns: seq<Column>
    const schemaDigest: Bytes
    var stream: Bytes
    var rowCount: int
    var closed: bool
    var summary: ResultSummary
    ghost var written: seq<Bytes>

    ghost predicate Valid()
      reads this
    {
      && schemaDigest == h(SCHEMA_DOMAIN + SchemaPayload(columns))
      && stream == RowStream(written) && rowCount == |written| <= MAX_INT64
      && (closed ==> summary == SummaryOf(h, columns, written))
    }

    constructor (h: HashFunction, columns: seq<Column>)
      ensures Valid() && !closed && written == [] && this.h == h && this.columns == columns
    {
      var schema := WriteSchema(SCHEMA_DOMAIN, columns);
      this.h := h;
      this.columns := columns;
      schemaDigest := h(schema);
      stream := ROWS_DOMAIN;
      rowCount := 0;
      closed := false;
      summary := ResultSummary(0, 0, [], []);
      written := [];
    }

    method WriteEncodedRow(encoded: Bytes) returns (ok: bool)
      requires Valid()
      modifies this
      ensures Valid() && ok == (!old(closed) && old(rowCount) < MAX_INT64)
      ensures closed == old(closed) && summary == old(summary)
      ensures written == if ok then old(written) + [encoded] else old(written)
    {
      if closed || rowCount == MAX_INT64 { return false; }
      FrameAllSnoc(written, encoded);
      Assoc(ROWS_DOMAIN, FrameAll(written), Framed(encoded));
      stream := stream + Framed(encoded);
      rowCount := rowCount + 1;
      written := written + [encoded];
      return true;
    }

    /** A refused row leaves the stream as it was. */
    method WriteTypedRow(row: Row) returns (ok: bool)
      requires Valid()
      modifies this
      ensures Valid() && ok == (!old(closed) && Conforms(columns, row) && old(rowCount) < MAX_INT64)
      ensures closed == old(closed) && summary == old(summary)
      ensures written == if ok then old(written) + [RowPayload(row)] else old(written)
    {
      if closed { return false; }
      var encoded := CanonicalTypedRowPayload(columns, row);
      if encoded.None? { return false; }
      ok := WriteEncodedRow(encoded.value);
    }

    /** Closes the stream; a second call changes nothing and returns the same summary. */
    method Finalize() returns (r: ResultSummary)
      requires Valid()
      modifies this
      ensures Valid() && closed && written == old(written) && r == summary == SummaryOf(h, columns, written)
      ensures r.rowCount == |written| && r.columnCount == |columns|
      ensures old(closed) ==> unchanged(this) && r == old(summary)
    {
      if closed { return summary; }
      var rowDigest := h(stream);
      var result := DIGEST_DOMAIN + Framed(schemaDigest) + U64(rowCount) + U64(|columns|) + Framed(rowDigest);
      ResultWritten(schemaDigest, rowCount, |columns|, rowDigest);
      summary := ResultSummary(rowCount, |columns|, HexEncode(schemaDigest), HexEncode(h(result)));
      closed := true;
      return summary;
    }
  }

  // ---------- SortedResultHasher ----------

  ghost function TotalBytes(rows: seq<Bytes>): nat {
    if rows == [] then 0 else TotalBytes(rows[..|rows| - 1]) + |rows[|rows| - 1]|
  }

  class SortedResultHasher {
    const h: HashFunction
    const columns: seq<Column>
    var rows: seq<Bytes>
    var encodedBytes: int
    var closed: bool
    var summary: ResultSummary
    ghost var written: seq<Bytes>

    ghost predicate Valid()
      reads this
    {
      && |written| <= MAX_ROWS && encodedBytes == TotalBytes(written) <= MAX_BYTES
      && rows == (if closed then [] else written)
      && (closed ==> summary == SummaryOf(h, columns, Sort(Leq, written)))
    }

    constructor (h: HashFunction, columns: seq<Column>)
      ensures Valid() && !closed && written == [] && this.h == h && this.columns == columns
    {
      this.h := h;
      this.columns := columns;
      rows := [];
      encodedBytes := 0;
      closed := false;
      summary := ResultSummary(0, 0, [], []);
      written := [];
    }

    ghost predicate Admits(row: Row)
      reads this
    {
      !closed && AdmitsAt(columns, row, |written|, TotalBytes(written))
    }

    method WriteTypedRow(row: Row) returns (ok: bool)
      requires Valid()
      modifies this
      ensures Valid() && ok == old(Admits(row))
      ensures closed == old(closed) && summary == old(summary)
      ensures written == if ok then old(written) + [RowPayload(row)] else old(written)
      ensures !ok ==> rows == old(rows) && encodedBytes == old(encodedBytes)
    {
      if closed || |rows| >= MAX_ROWS { return false; }
      var encoded := CanonicalTypedRowPayload(columns, row);
      if encoded.None? { return false; }
      if |encoded.value| > MAX_BYTES - encodedBytes { return false; }
      encodedBytes := encodedBytes + |encoded.value|;
      assert (written + [encoded.value])[..|written|] == written;
      rows := rows + [encoded.value];
      written := written + [encoded.value];
      return true;
    }

    method Finalize() returns (r: ResultSummary)
      requires Valid()
      modifies this
      ensures Valid() && closed && written == old(written)
      ensures r == summary == SummaryOf(h, columns, Sort(Leq, written))
      ensures r.rowCount == |written| && r.columnCount == |columns|
      ensures old(closed) ==> unchanged(this) && r == old(summary)
    {
      if closed { return summary; }
      rows := Sort(Leq, rows);
      var ordered := HashRows(h, columns, rows);
      summary := ordered;
      rows := [];
      closed := true;
      return summary;
    }
  }

  method HashRows(h: HashFunction, columns: seq<Column>, rows: seq<Bytes>) returns (r: ResultSummary)
    requires |rows| <= MAX_ROWS
    ensures r == SummaryOf(h, columns, rows)
  {
    var ordered := new ResultHasher(h, columns);
    for i := 0 to |rows|
      invariant ordered.Valid() && !ordered.closed && ordered.written == rows[..i]
      invariant ordered.h == h && ordered.columns == columns
    {
      var ok := ordered.WriteEncodedRow(rows[i]);
      assert rows[..i + 1] == rows[..i] + [rows[i]];
    }
    assert rows[..|rows|] == rows;
    r := ordered.Finalize();
  }

  // ---------- whole runs ----------

  datatype Call = Write(row: Row) | Finalize

  /** The rows a run of calls commits, stated without the hasher: the conforming rows written before
      the first Finalize, in order, as long as the row count fits int64. */
  ghost function Committed(columns: seq<Column>, calls: seq<Call>, count: nat): seq<Row> {
    if calls == [] || calls[0].Finalize? then []
    else if Conforms(columns, calls[0].row) && count < MAX_INT64
    then [calls[0].row] + Committed(columns, calls[1..], count + 1)
    else Committed(columns, calls[1..], count)
  }

  /** What is committed in the end: what is written already, and what the calls still add. */
  ghost predicate Ends(all: seq<Bytes>, written: seq<Bytes>, closed: bool, rest: seq<Row>) {
    all == if closed then written else written + Payloads(rest)
  }

  lemma {:induction false} EndsAfterWrite(
    all: seq<Bytes>, was: seq<Bytes>, closed: bool, row: Row, accepted: bool, rest: seq<Row>)
    requires Ends(all, was, closed, if accepted then [row] + rest else rest)
    ensures Ends(all, if accepted && !closed then was + [RowPayload(row)] else was, closed, rest)
  {
    PayloadsCons(row, rest);
    Assoc(was, [RowPayload(row)], Payloads(rest));
  }

  lemma {:induction false} PayloadsCons(row: Row, rest: seq<Row>)
    ensures Payloads([row] + rest) == [RowPayload(row)] + Payloads(rest)
  {
  }

  lemma {:induction false} NothingLeft(all: seq<Bytes>, written: seq<Bytes>, closed: bool)
    requires Ends(all, written, closed, [])
    ensures all == written
  {
  }

  /** The abstract effect of one call on the ordered hasher. */
  ghost predicate OrderedCall(
    columns: seq<Column>, call: Call, was: seq<Bytes>, wasClosed: bool, written: seq<Bytes>, closed: bool) {
    match call
    case Finalize => closed && written == was
    case Write(row) =>
      && closed == wasClosed
      && written == if !closed && Conforms(columns, row) && |was| < MAX_INT64 then was + [RowPayload(row)] else was
  }

  lemma {:induction false} OrderedCallEnds(columns: seq<Column>, calls: seq<Call>, all: seq<Bytes>,
                                           was: seq<Bytes>, wasClosed: bool, written: seq<Bytes>, closed: bool)
    requires calls != [] && OrderedCall(columns, calls[0], was, wasClosed, written, closed)
    requires Ends(all, was, wasClosed, Committed(columns, calls, |was|))
    ensures Ends(all, written, closed, Committed(columns, calls[1..], |written|))
  {
    match calls[0]
    case Finalize => NothingLeft(all, was, wasClosed);
    case Write(row) =>
      var accepted := Conforms(columns, row) && |was| < MAX_INT64;
      EndsAfterWrite(all, was, closed, row, accepted,
          Committed(columns, calls[1..], if accepted then |was| + 1 else |was|));
  }

  method CallOrdered(hasher: ResultHasher, call: Call)
    requires hasher.Valid()
    modifies hasher
    ensures hasher.Valid()
    ensures OrderedCall(hasher.columns, call, old(hasher.written), old(hasher.closed), hasher.written, hasher.closed)
  {
    match call
    case Write(row) => var ok := hasher.WriteTypedRow(row);
    case Finalize => var early := hasher.Finalize();
  }

  /** Any run of calls on a fresh ordered hasher, then Finalize: the summary is that of the committed
      rows; calls after the first Finalize leave no trace. */
  method RunOrdered(h: HashFunction, columns: seq<Column>, calls: seq<Call>) returns (r: ResultSummary)
    ensures r == SummaryOf(h, columns, Payloads(Committed(columns, calls, 0)))
    ensures r.rowCount == |Committed(columns, calls, 0)| && r.columnCount == |columns|
  {
    var hasher := new ResultHasher(h, columns);
    ghost var all := Payloads(Committed(columns, calls, 0));
    assert calls[0..] == calls;
    for i := 0 to |calls|
      invariant hasher.Valid()
      invariant Ends(all, hasher.written, hasher.closed, Committed(columns, calls[i..], |hasher.written|))
    {
      ghost var was, wasClosed := hasher.written, hasher.closed;
      CallOrdered(hasher, calls[i]);
      OrderedCallEnds(columns, calls[i..], all, was, wasClosed, hasher.written, hasher.closed);
      assert calls[i..][1..] == calls[i + 1..];
    }
    NothingLeft(all, hasher.written, hasher.closed);
    r := hasher.Finalize();
  }

  ghost predicate AdmitsAt(columns: seq<Column>, row: Row, count: nat, bytes: nat) {
    count < MAX_ROWS && Conforms(columns, row) && bytes + |RowPayload(row)| <= MAX_BYTES
  }

  /** The same for the sorting hasher, whose two ceilings also refuse rows. */
  ghost function Admitted(columns: seq<Column>, calls: seq<Call>, count: nat, bytes: nat): seq<Row> {
    if calls == [] || calls[0].Finalize? then []
    else
      var row := calls[0].row;
      if AdmitsAt(columns, row, count, bytes)
      then [row] + Admitted(columns, calls[1..], count + 1, bytes + |RowPayload(row)|)
      else Admitted(columns, calls[1..], count, bytes)
  }

  lemma {:induction false} TotalSnoc(rows: seq<Bytes>, x: Bytes)
    ensures TotalBytes(rows + [x]) == TotalBytes(rows) + |x|
  {
    assert (rows + [x])[..|rows|] == rows;
  }

  /** The abstract effect of one call on the sorting hasher. */
  ghost predicate SortedCall(
    columns: seq<Column>, call: Call, was: seq<Bytes>, wasClosed: bool, written: seq<Bytes>, closed: bool) {
    match call
    case Finalize => closed && written == was
    case Write(row) =>
      && closed == wasClosed
      && written == if !closed && AdmitsAt(columns, row, |was|, TotalBytes(was)) then was + [RowPayload(row)] else was
  }

  lemma {:induction false} SortedCallEnds(columns: seq<Column>, calls: seq<Call>, all: seq<Bytes>,
                                          was: seq<Bytes>, wasClosed: bool, written: seq<Bytes>, closed: bool)
    requires calls != [] && SortedCall(columns, calls[0], was, wasClosed, written, closed)
    requires Ends(all, was, wasClosed, Admitted(columns, calls, |was|, TotalBytes(was)))
    ensures Ends(all, written, closed, Admitted(columns, calls[1..], |written|, TotalBytes(written)))
  {
    match calls[0]
    case Finalize => NothingLeft(all, was, wasClosed);
    case Write(row) =>
      TotalSnoc(was, RowPayload(row));
      AdmittedWrite(columns, calls, all, was, closed, |was|, TotalBytes(was));
  }

  lemma {:induction false} AdmittedWrite(columns: seq<Column>, calls: seq<Call>, all: seq<Bytes>,
                                         was: seq<Bytes>, closed: bool, count: nat, bytes: nat)
    requires calls != [] && calls[0].Write? && Ends(all, was, closed, Admitted(columns, calls, count, bytes))
    ensures var encoded := RowPayload(calls[0].row);
            if AdmitsAt(columns, calls[0].row, count, bytes)
            then Ends(all, if closed then was else was + [encoded], closed,
                      Admitted(columns, calls[1..], count + 1, bytes + |encoded|))
            else Ends(all, was, closed, Admitted(columns, calls[1..], count, bytes))
  {
    var row := calls[0].row;
    if AdmitsAt(columns, row, count, bytes) {
      var rest := Admitted(columns, calls[1..], count + 1, bytes + |RowPayload(row)|);
      assert Admitted(columns, calls, count, bytes) == [row] + rest;
      EndsAfterWrite(all, was, closed, row, true, rest);
    }
  }

  method CallSorted(hasher: SortedResultHasher, call: Call)
    requires hasher.Valid()
    modifies hasher
    ensures hasher.Valid()
    ensures SortedCall(hasher.columns, call, old(hasher.written), old(hasher.closed), hasher.written, hasher.closed)
  {
    match call
    case Write(row) => var ok := hasher.WriteTypedRow(row);
    case Finalize => var early := hasher.Finalize();
  }

  method StepSorted(hasher: SortedResultHasher, columns: seq<Column>, calls: seq<Call>, i: nat, ghost all: seq<Bytes>)
    requires hasher.Valid() && hasher.columns == columns && i < |calls|
    requires Ends(all, hasher.written, hasher.closed,
                  Admitted(columns, calls[i..], |hasher.written|, TotalBytes(hasher.written)))
    modifies hasher
    ensures hasher.Valid()
    ensures Ends(all, hasher.written, hasher.closed,
                 Admitted(columns, calls[i + 1..], |hasher.written|, TotalBytes(hasher.written)))
  {
    ghost var was, wasClosed := hasher.written, hasher.closed;
    CallSorted(hasher, calls[i]);
    SortedCallEnds(columns, calls[i..], all, was, wasClosed, hasher.written, hasher.closed);
    assert calls[i..][1..] == calls[i + 1..];
  }

  method RunSorted(h: HashFunction, columns: seq<Column>, calls: seq<Call>) returns (r: ResultSummary)
    ensures r == SummaryOf(h, columns, Sort(Leq, Payloads(Admitted(columns, calls, 0, 0))))
    ensures r.rowCount == |Admitted(columns, calls, 0, 0)| && r.columnCount == |columns|
  {
    var hasher := new SortedResultHasher(h, columns);
    ghost var all := Payloads(Admitted(columns, calls, 0, 0));
    assert calls[0..] == calls;
    for i := 0 to |calls|
      invariant hasher.Valid()
      invariant Ends(all, hasher.written, hasher.closed,
                     Admitted(columns, calls[i..], |hasher.written|, TotalBytes(hasher.written)))
    {
      StepSorted(hasher, columns, calls, i, all);
    }
    NothingLeft(all, hasher.written, hasher.closed);
    r := hasher.Finalize();
  }

  ghost function Size(rows: seq<Row>): nat {
    if rows == [] then 0 else |RowPayload(rows[0])| + Size(rows[1..])
  }

  /** Within both ceilings the sorting hasher admits exactly the rows the ordered one commits. */
  lemma {:induction false} CeilingsOnlyRefuse(columns: seq<Column>, calls: seq<Call>, count: nat, bytes: nat)
    requires count + |Committed(columns, calls, count)| <= MAX_ROWS
    requires bytes + Size(Committed(columns, calls, count)) <= MAX_BYTES
    ensures Admitted(columns, calls, count, bytes) == Committed(columns, calls, count)
  {
    if calls != [] && calls[0].Write? {
      var row := calls[0].row;
      if Conforms(columns, row) {
        var rest := Committed(columns, calls[1..], count + 1);
        assert ([row] + rest)[1..] == rest;
        assert AdmitsAt(columns, row, count, bytes);
        CeilingsOnlyRefuse(columns, calls[1..], count + 1, bytes + |RowPayload(row)|);
      } else {
        CeilingsOnlyRefuse(columns, calls[1..], count, bytes);
      }
    }
  }

  // ---------- two runs compared ----------

  ghost predicate CallsSized(calls: seq<Call>) {
    |calls| < TWO63 && forall i :: 0 <= i < |calls| && calls[i].Write? ==> Sized(calls[i].row)
  }

  lemma {:induction false} SizedCons(row: Row, rest: seq<Row>, n: nat)
    requires Sized(row) && AllSized(rest) && |rest| + 1 <= n < TWO63
    ensures |[row] + rest| <= n && AllSized([row] + rest)
  {
  }

  lemma {:induction false} CommittedSized(columns: seq<Column>, calls: seq<Call>, count: nat)
    requires CallsSized(calls)
    ensures |Committed(columns, calls, count)| <= |calls| && AllSized(Committed(columns, calls, count))
  {
    if calls != [] && calls[0].Write? {
      if Conforms(columns, calls[0].row) && count < MAX_INT64 {
        CommittedSized(columns, calls[1..], count + 1);
        SizedCons(calls[0].row, Committed(columns, calls[1..], count + 1), |calls|);
      } else {
        CommittedSized(columns, calls[1..], count);
      }
    }
  }

  lemma {:induction false} AdmittedSized(columns: seq<Column>, calls: seq<Call>, count: nat, bytes: nat)
    requires CallsSized(calls)
    ensures |Admitted(columns, calls, count, bytes)| <= |calls| && AllSized(Admitted(columns, calls, count, bytes))
  {
    if calls != [] && calls[0].Write? {
      var row := calls[0].row;
      if AdmitsAt(columns, row, count, bytes) {
        AdmittedSized(columns, calls[1..], count + 1, bytes + |RowPayload(row)|);
        SizedCons(row, Admitted(columns, calls[1..], count + 1, bytes + |RowPayload(row)|), |calls|);
      } else {
        AdmittedSized(columns, calls[1..], count, bytes);
      }
    }
  }

  /** Two runs of the ordered hasher publish the same digest exactly when schema and committed rows,
      in order, are the same. */
  method CompareOrdered(
    h: HashFunction, a: seq<Column>, x: seq<Call>, b: seq<Column>, y: seq<Call>) returns (same: bool)
    requires SizedSchema(a) && SizedSchema(b) && CallsSized(x) && CallsSized(y)
    requires CollisionFree(h, Hashed(h, a, Payloads(Committed(a, x, 0))) + Hashed(h, b, Payloads(Committed(b, y, 0))))
    ensures same <==> a == b && Committed(a, x, 0) == Committed(b, y, 0)
  {
    var one := RunOrdered(h, a, x);
    var two := RunOrdered(h, b, y);
    CommittedSized(a, x, 0);
    CommittedSized(b, y, 0);
    OrderedDigestIdentifiesResult(h, a, Committed(a, x, 0), b, Committed(b, y, 0));
    same := one.resultSha256 == two.resultSha256;
  }

  /** For the sorting hasher: the same digest exactly for the same schema and the same rows up to order. */
  method CompareSorted(h: HashFunction, a: seq<Column>, x: seq<Call>, b: seq<Column>, y: seq<Call>) returns (same: bool)
    requires SizedSchema(a) && SizedSchema(b) && CallsSized(x) && CallsSized(y)
    requires CollisionFree(h, Hashed(h, a, Sort(Leq, Payloads(Admitted(a, x, 0, 0))))
                              + Hashed(h, b, Sort(Leq, Payloads(Admitted(b, y, 0, 0)))))
    ensures same <==> a == b && multiset(Admitted(a, x, 0, 0)) == multiset(Admitted(b, y, 0, 0))
  {
    var one := RunSorted(h, a, x);
    var two := RunSorted(h, b, y);
    AdmittedSized(a, x, 0, 0);
    AdmittedSized(b, y, 0, 0);
    SortedDigestIdentifiesResult(h, a, Admitted(a, x, 0, 0), b, Admitted(b, y, 0, 0));
    same := one.resultSha256 == two.resultSha256;
  }
}
