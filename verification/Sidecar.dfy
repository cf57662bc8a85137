/** The sidecar copy source (cmd/snapshot-sidecar-install/main.go, sidecarCopySource): a scanner over
    JSON lines that yields densely numbered rows and must end in a matching footer. */
module Sidecar {
  import opened GoBytes

  const MAX_INT64: int := TWO63 - 1

  /** A decoded row; its key values may fail to encode again. */
  datatype SidecarRow = SidecarRow(handle: nat, entityKey: Bytes, keyValues: Option<Bytes>)

  /** A scanned line by its record type; a row or footer whose body does not decode carries None. */
  datatype Line = Malformed | Header | Row(row: Option<SidecarRow>) | Footer(rowCount: Option<nat>) | Unknown

  datatype CopyRow = CopyRow(handle: int, entityKey: Bytes, keyValues: Bytes)

  datatype SidecarError =
    | BadJson | HeaderOutOfOrder | BadRow | NotDense | EncodeFailed | FooterDiffers | UnknownRecord
    | ReadFailed | MissingFooter

  /** The line is a row numbered n that can be copied. */
  predicate DenseRow(line: Line, n: nat) {
    line.Row? && line.row.Some? && line.row.value.handle == n <= MAX_INT64 && line.row.value.keyValues.Some?
  }

  function CopyOf(line: Line, n: nat): CopyRow
    requires DenseRow(line, n)
  {
    CopyRow(n, line.row.value.entityKey, line.row.value.keyValues.value)
  }

  /** Scanning these lines after `rows` rows reaches a matching footer without an error. */
  ghost predicate Completes(lines: seq<Line>, rows: nat, expected: nat) {
    lines != [] &&
    match lines[0]
    case Header => rows == 0 && Completes(lines[1..], 0, expected)
    case Row(_) => DenseRow(lines[0], rows + 1) && Completes(lines[1..], rows + 1, expected)
    case Footer(count) => count == Some(rows) && rows == expected
    case Malformed => false
    case Unknown => false
  }

  /** Headers, then the rows 1, 2, ..., expected, then a footer counting them. What follows is not read. */
  ghost predicate WellFormedAt(lines: seq<Line>, headers: nat, expected: nat) {
    && headers + expected < |lines|
    && (forall i :: 0 <= i < headers ==> lines[i].Header?)
    && (forall i :: headers <= i < headers + expected ==> DenseRow(lines[i], i - headers + 1))
    && lines[headers + expected] == Footer(Some(expected))
  }

  lemma {:induction false} RowsComplete(lines: seq<Line>, rows: nat, expected: nat)
    requires rows > 0
    ensures Completes(lines, rows, expected) <==>
            && rows <= expected && expected - rows < |lines|
            && (forall i :: 0 <= i < expected - rows ==> DenseRow(lines[i], rows + i + 1))
            && lines[expected - rows] == Footer(Some(expected))
    decreases lines
  {
    if lines != [] && lines[0].Row? {
      RowsComplete(lines[1..], rows + 1, expected);
      if rows < expected && expected - rows < |lines| {
        assert forall i :: 0 <= i < expected - rows - 1 ==> lines[1..][i] == lines[i + 1];
        assert lines[1..][expected - rows - 1] == lines[expected - rows];
        if && DenseRow(lines[0], rows + 1)
           && (forall i :: 0 <= i < expected - rows - 1 ==> DenseRow(lines[1..][i], rows + 1 + i + 1)) {
          forall i | 0 <= i < expected - rows ensures DenseRow(lines[i], rows + i + 1) {
            if i > 0 { assert DenseRow(lines[1..][i - 1], rows + 1 + (i - 1) + 1); }
          }
        }
      }
    }
  }

  lemma {:induction false} WellFormedTail(lines: seq<Line>, headers: nat, expected: nat)
    requires lines != [] && lines[0].Header?
    ensures WellFormedAt(lines[1..], headers, expected) <==> WellFormedAt(lines, headers + 1, expected)
  {
    var tail := lines[1..];
    assert forall i :: 0 <= i < |tail| ==> tail[i] == lines[i + 1];
    if WellFormedAt(tail, headers, expected) {
      forall i | 0 <= i < headers + 1 ensures lines[i].Header? { if i > 0 { assert tail[i - 1].Header?; } }
      forall i | headers + 1 <= i < headers + 1 + expected ensures DenseRow(lines[i], i - (headers + 1) + 1) {
        assert DenseRow(tail[i - 1], i - 1 - headers + 1);
      }
    }
  }

  lemma {:induction false} RowsFirst(lines: seq<Line>, expected: nat)
    requires lines != [] && lines[0].Row?
    ensures Completes(lines, 0, expected) <==> WellFormedAt(lines, 0, expected)
  {
    var tail := lines[1..];
    RowsComplete(tail, 1, expected);
    assert forall i :: 0 <= i < |tail| ==> tail[i] == lines[i + 1];
    if WellFormedAt(lines, 0, expected) {
      forall i | 0 <= i < expected - 1 ensures DenseRow(tail[i], 1 + i
          + 1) { assert DenseRow(lines[i + 1], i + 1 + 1); }
      assert DenseRow(lines[0], 1);
    }
    if Completes(lines, 0, expected) {
      forall i | 0 <= i < expected ensures DenseRow(lines[i], i + 1) {
        if i > 0 { assert DenseRow(tail[i - 1], 1 + (i - 1) + 1); }
      }
    }
  }

  /** A source completes exactly on files of the documented shape. */
  lemma {:induction false} CompletesExactly(lines: seq<Line>, expected: nat)
    ensures Completes(lines, 0, expected) <==> exists headers: nat :: WellFormedAt(lines, headers, expected)
    decreases lines
  {
    if lines != [] {
      if lines[0].Header? {
        CompletesExactly(lines[1..], expected);
        if h: nat :| WellFormedAt(lines[1..], h, expected) { WellFormedTail(lines, h, expected); }
        if h: nat :| WellFormedAt(lines, h, expected) {
          assert h == 0 && expected > 0 ==> DenseRow(lines[0], 1);
          WellFormedTail(lines, h - 1, expected);
        }
      } else if lines[0].Row? {
        RowsFirst(lines, expected);
        forall h: nat | WellFormedAt(lines, h, expected) ensures h == 0 { }
      } else {
        forall h: nat | WellFormedAt(lines, h, expected) ensures h == 0 && expected == 0 {
          assert h == 0 && expected > 0 ==> DenseRow(lines[0], 1);
        }
        assert Completes(lines, 0, expected) ==> WellFormedAt(lines, 0, 0);
      }
    }
  }

  // ---------- what is copied ----------

  /** The rows a prefix of the lines yields: each dense row in turn, nothing else. */
  function Copied(lines: seq<Line>): seq<CopyRow> {
    if lines == [] then []
    else
      var before, last := Copied(lines[..|lines| - 1]), lines[|lines| - 1];
      if DenseRow(last, |before| + 1) then before + [CopyOf(last, |before| + 1)] else before
  }

  lemma {:induction false} CopiedSnoc(lines: seq<Line>, at: nat)
    requires at < |lines|
    ensures var before := Copied(lines[..at]);
            Copied(lines[..at + 1]) ==
              if DenseRow(lines[at], |before| + 1) then before + [CopyOf(lines[at], |before| + 1)] else before
  {
    assert lines[..at + 1][..at] == lines[..at];
  }

  lemma {:induction false} CopiedHandles(lines: seq<Line>, i: nat)
    requires i < |Copied(lines)|
    ensures Copied(lines)[i].handle == i + 1
  {
    var n := |lines| - 1;
    if i < |Copied(lines[..n])| { CopiedHandles(lines[..n], i); }
  }

  lemma {:induction false} HeadersCopyNothing(lines: seq<Line>, n: nat)
    requires n <= |lines| && forall i :: 0 <= i < n ==> lines[i].Header?
    ensures Copied(lines[..n]) == []
  {
    if n > 0 {
      HeadersCopyNothing(lines, n - 1);
      CopiedSnoc(lines, n - 1);
    }
  }

  /** The n lines after the headers are dense rows, and these are their copies in order. */
  ghost predicate CopiesRows(lines: seq<Line>, headers: nat, n: nat, copied: seq<CopyRow>) {
    && |copied| == n && headers + n <= |lines|
    && forall i :: 0 <= i < |copied| ==>
         DenseRow(lines[headers + i], i + 1) && copied[i] == CopyOf(lines[headers + i], i + 1)
  }

  /** A file of the documented shape copies its rows, one by one. */
  lemma {:induction false} RowsCopied(lines: seq<Line>, headers: nat, expected: nat, n: nat)
    requires WellFormedAt(lines, headers, expected) && n <= expected
    ensures CopiesRows(lines, headers, n, Copied(lines[..headers + n]))
  {
    if n == 0 {
      HeadersCopyNothing(lines, headers);
    } else {
      RowsCopied(lines, headers, expected, n - 1);
      assert DenseRow(lines[headers + n - 1], n);
      CopiedSnoc(lines, headers + n - 1);
    }
  }

  ghost predicate NoFooter(lines: seq<Line>, n: nat)
    requires n <= |lines|
  {
    forall i :: 0 <= i < n ==> !lines[i].Footer?
  }

  /** The scan is under way: what is left decides the whole file, and no footer was read. */
  ghost predicate UnderWay(lines: seq<Line>, at: nat, rows: nat, yielded: seq<CopyRow>, expected: nat)
    requires at <= |lines|
  {
    && rows == |yielded| <= MAX_INT64 && NoFooter(lines, at)
    && (Completes(lines, 0, expected) <==> Completes(lines[at..], rows, expected))
  }

  /** What reading one more line decides. */
  lemma {:induction false} LineRead(lines: seq<Line>, at: nat, rows: nat, yielded: seq<CopyRow>, expected: nat)
    requires at < |lines| && UnderWay(lines, at, rows, yielded, expected) && yielded == Copied(lines[..at])
    ensures !lines[at].Footer? ==> NoFooter(lines, at + 1)
    ensures lines[at].Malformed? || lines[at].Unknown? ==> !Completes(lines, 0, expected)
    ensures lines[at].Header? && rows != 0 ==> !Completes(lines, 0, expected)
    ensures lines[at].Header? && rows == 0 ==> UnderWay(lines, at + 1, 0, yielded, expected)
    ensures lines[at].Footer?
            ==> (Completes(lines, 0, expected) <==> lines[at].rowCount == Some(rows) && rows == expected)
    ensures lines[at].Row? ==>
              (Completes(lines, 0, expected) <==>
               DenseRow(lines[at], rows + 1) && Completes(lines[at + 1..], rows + 1, expected))
    ensures Copied(lines[..at + 1]) ==
              if DenseRow(lines[at], rows + 1) then yielded + [CopyOf(lines[at], rows + 1)] else yielded
  {
    assert lines[at..][0] == lines[at] && lines[at..][1..] == lines[at + 1..];
    CopiedSnoc(lines, at);
  }

  class SidecarCopySource {
    const lines: seq<Line>
    const readFails: bool
    const expectedRows: nat
    var at: nat
    var rows: nat
    var values: Option<CopyRow>
    var err: Option<SidecarError>
    var done: bool
    ghost var yielded: seq<CopyRow>

    /** What was yielded is what the lines read so far copy. Open: what is left decides the whole file,
        and no footer was read. Closed: the verdict is the file's own, after the first footer. */
    ghost predicate Valid()
      reads this
    {
      && at <= |lines| && yielded == Copied(lines[..at])
      && (err.None? && !done ==> UnderWay(lines, at, rows, yielded, expectedRows))
      && (done ==>
            && err.None? && Completes(lines, 0, expectedRows) && |yielded| == expectedRows
            && at > 0 && NoFooter(lines, at - 1) && lines[at - 1].Footer?)
      && (err.Some? ==> !Completes(lines, 0, expectedRows))
    }

    constructor (lines: seq<Line>, readFails: bool, expectedRows: nat)
      ensures Valid() && yielded == [] && err.None? && !done
      ensures this.lines == lines && this.readFails == readFails && this.expectedRows == expectedRows
    {
      this.lines, this.readFails, this.expectedRows := lines, readFails, expectedRows;
      at, rows, values, err, done, yielded := 0, 0, None, None, false, [];
    }

    method Next() returns (ok: bool)
      requires Valid()
      modifies this
      ensures Valid()
      ensures ok ==> values.Some? && yielded == old(yielded) + [values.value] && err.None? && !done
      ensures ok ==> at > old(at) && DenseRow(lines[at - 1], |yielded|)
      ensures ok ==> values.value == CopyOf(lines[at - 1], |yielded|)
      ensures !ok ==> yielded == old(yielded) && (err.Some? || done)
      ensures old(err.Some? || done) ==> !ok && err == old(err) && done == old(done)
    {
      if err.Some? || done { return false; }
      ok := false;
      var more := true;
      while more && at < |lines|
        invariant Valid() && (more ==> !ok && err.None? && !done) && at >= old(at)
        invariant !more && !ok ==> err.Some? || done
        invariant !ok ==> yielded == old(yielded)
        invariant ok ==> !more && values.Some? && yielded == old(yielded) + [values.value] && err.None? && !done
        invariant ok ==> at > old(at) && DenseRow(lines[at - 1], |yielded|)
        invariant ok ==> values.value == CopyOf(lines[at - 1], |yielded|)
        decreases more, |lines| - at
      {
        ok, more := ReadLine();
      }
      if more {
        assert lines[at..] == [];
        err := Some(if readFails then ReadFailed else MissingFooter);
      }
    }

    /** One turn of the scan loop; `more` says whether it continues. */
    method ReadLine() returns (ok: bool, more: bool)
      requires Valid() && err.None? && !done && at < |lines|
      modifies this
      ensures Valid() && at == old(at) + 1
      ensures more ==> !ok && err.None? && !done
      ensures !more && !ok ==> err.Some? || done
      ensures !ok ==> yielded == old(yielded)
      ensures ok ==> !more && values.Some? && yielded == old(yielded) + [values.value] && err.None? && !done
      ensures ok ==> DenseRow(lines[at - 1], |yielded|) && values.value == CopyOf(lines[at - 1], |yielded|)
    {
      var line := lines[at];
      LineRead(lines, at, rows, yielded, expectedRows);
      at := at + 1;
      ok, more := false, false;
      match line
      case Malformed => err := Some(BadJson);
      case Header => if rows != 0 { err := Some(HeaderOutOfOrder); } else { more := true; }
      case Row(decoded) => ok := TakeRow(line);
      case Footer(count) =>
        if count != Some(rows) || rows != expectedRows { err := Some(FooterDiffers); } else { done := true; }
      case Unknown => err := Some(UnknownRecord);
    }

    /** The row branch, after the line has been consumed. */
    method TakeRow(line: Line) returns (ok: bool)
      requires line.Row? && 0 < at <= |lines| && err.None? && !done && rows == |yielded| <= MAX_INT64
      requires NoFooter(lines, at) && lines[at - 1] == line
      requires Copied(lines[..at]) == if DenseRow(line, rows + 1) then yielded + [CopyOf(line, rows + 1)] else yielded
      requires Completes(lines, 0, expectedRows) <==>
               DenseRow(line, rows + 1) && Completes(lines[at..], rows + 1, expectedRows)
      modifies this
      ensures Valid() && at == old(at)
      ensures ok <==> DenseRow(line, old(rows) + 1)
      ensures ok ==> values == Some(CopyOf(line, old(rows) + 1)) && yielded == old(yielded) + [values.value]
      ensures ok ==> err.None? && !done
      ensures !ok ==> yielded == old(yielded) && err.Some? && !done
    {
      if line.row.None? { err := Some(BadRow); return false; }
      var row := line.row.value;
      rows := rows + 1;
      if row.handle != rows || row.handle > MAX_INT64 { err := Some(NotDense); return false; }
      if row.keyValues.None? { err := Some(EncodeFailed); return false; }
      values := Some(CopyRow(row.handle, row.entityKey, row.keyValues.value));
      yielded := yielded + [values.value];
      return true;
    }
  }

  lemma {:induction false} FooterPosition(lines: seq<Line>, headers: nat, expected: nat, at: nat)
    requires WellFormedAt(lines, headers, expected) && 0 < at <= |lines|
    requires NoFooter(lines, at - 1) && lines[at - 1].Footer?
    ensures at == headers + expected + 1
  {
    assert forall i :: headers <= i < headers + expected ==> DenseRow(lines[i], i - headers + 1);
  }

  lemma {:induction false} FileCopied(lines: seq<Line>, headers: nat, expected: nat, at: nat)
    requires WellFormedAt(lines, headers, expected) && at == headers + expected + 1
    ensures CopiesRows(lines, headers, expected, Copied(lines[..at]))
  {
    RowsCopied(lines, headers, expected, expected);
    CopiedSnoc(lines, headers + expected);
  }

  /** A whole run: it ends without an error exactly on a file of the documented shape; then the copied
      rows are exactly the file's rows with the handles 1, 2, 3, ... Otherwise they are the dense rows
      of the lines read before the error. */
  method Drain(source: SidecarCopySource) returns (copied: seq<CopyRow>)
    requires source.Valid() && source.yielded == [] && source.err.None? && !source.done
    modifies source
    ensures forall i :: 0 <= i < |copied| ==> copied[i].handle == i + 1
    ensures source.err.None? <==> exists headers: nat :: WellFormedAt(source.lines, headers, source.expectedRows)
    ensures source.err.None? ==> source.done
    ensures source.err.None? ==>
              forall headers: nat :: WellFormedAt(source.lines, headers, source.expectedRows) ==>
                CopiesRows(source.lines, headers, source.expectedRows, copied)
    ensures source.at <= |source.lines| && copied == Copied(source.lines[..source.at])
  {
    copied := [];
    var more := true;
    while more
      invariant source.Valid() && copied == source.yielded
      invariant more ==> source.err.None? && !source.done
      invariant !more ==> source.err.Some? || source.done
      decreases more, |source.lines| - source.at
    {
      more := source.Next();
      if more { copied := copied + [source.values.value]; }
    }
    CompletesExactly(source.lines, source.expectedRows);
    forall i | 0 <= i < |copied| ensures copied[i].handle == i + 1 { CopiedHandles(source.lines[..source.at], i); }
    if source.done {
      forall headers: nat | WellFormedAt(source.lines, headers, source.expectedRows)
        ensures CopiesRows(source.lines, headers, source.expectedRows, copied)
      {
        FooterPosition(source.lines, headers, source.expectedRows, source.at);
        FileCopied(source.lines, headers, source.expectedRows, source.at);
      }
    }
  }
}
