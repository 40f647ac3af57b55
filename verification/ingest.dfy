/** Record ingestion: the pure row filter of the CSV reader. Rows arrive
    already tokenised; the reader keeps rows with the expected number of
    fields and a known action label, parses their date, and preserves their
    (reverse-chronological) order. */
module Ingest {
  import opened Wrappers
  import opened Records

  /** A row the reader turns into a record: exactly `NUM_FIELDS` fields and
      "Added" or "Removed" in the last one. */
  predicate Kept(row: seq<string>) {
    |row| == NUM_FIELDS && IsKnownLabel(row[|row| - 1])
  }

  /** `i` is the first kept row whose date does not parse. */
  predicate FirstBadRow(rows: seq<seq<string>>, parse: string -> Option<int>, i: int) {
    && 0 <= i < |rows|
    && Kept(rows[i])
    && parse(rows[i][0]).None?
    && forall j :: 0 <= j < i && Kept(rows[j]) ==> parse(rows[j][0]).Some?
  }

  /** The positions of the kept rows, in input order. */
  function KeptIndices(rows: seq<seq<string>>): (idx: seq<nat>)
    ensures forall k :: 0 <= k < |idx| ==> idx[k] < |rows| && Kept(rows[idx[k]])
    ensures forall i :: 0 <= i < |rows| && Kept(rows[i]) ==> i in idx
    ensures forall k, l :: 0 <= k < l < |idx| ==> idx[k] < idx[l]
    decreases |rows|
  {
    if rows == [] then []
    else
      var n := |rows| - 1;
      var prefix := KeptIndices(rows[..n]);
      assert forall k :: 0 <= k < |prefix| ==> rows[..n][prefix[k]] == rows[prefix[k]];
      prefix + (if Kept(rows[n]) then [n] else [])
  }

  /** Reading fails exactly when some kept row's date does not parse, and
      then reports the first such row. */
  ghost predicate FailsAsSpecified(rows: seq<seq<string>>, parse: string -> Option<int>, r: Result<seq<Record>, ParseError>) {
    && (r.Failure? <==> exists i :: 0 <= i < |rows| && Kept(rows[i]) && parse(rows[i][0]).None?)
    && (r.Failure? ==> exists i :: FirstBadRow(rows, parse, i) && r.error == BadDate(rows[i][0]))
  }

  /** A successful read yields one record per kept row, in input order, whose
      time is the parsed date of field 0 and whose action is the (known) label
      of the last field. */
  ghost predicate RecordsAsSpecified(rows: seq<seq<string>>, parse: string -> Option<int>, r: Result<seq<Record>, ParseError>) {
    r.Success? ==>
      && |r.value| == |KeptIndices(rows)|
      && forall k :: 0 <= k < |r.value| ==>
           var row := rows[KeptIndices(rows)[k]];
           && parse(row[0]) == Some(r.value[k].time)
           && r.value[k].action == ActionOf(row[|row| - 1])
           && !r.value[k].action.Other?
  }

  /** One step of the reader loop: the outcome after row `row`, given the
      outcome `prefix` of the rows before it. */
  function ReadNext(prefix: Result<seq<Record>, ParseError>, row: seq<string>, parse: string -> Option<int>): (r: Result<seq<Record>, ParseError>)
    ensures prefix.Failure? || !Kept(row) ==> r == prefix
    ensures r.Success? ==> prefix.Success? && prefix.value <= r.value && |r.value| <= |prefix.value| + 1
  {
    if prefix.Failure? || !Kept(row) then prefix
    else
      match parse(row[0])
      case None => Failure(BadDate(row[0]))
      case Some(t) => Success(prefix.value + [Record(t, ActionOf(row[NUM_FIELDS - 1]))])
  }

  /** The reader loop over the rows, in input order. Its meaning is stated by
      `ReadRecordsFails` and `ReadRecordsKeeps`. */
  function ReadRecords(rows: seq<seq<string>>, parse: string -> Option<int>): (r: Result<seq<Record>, ParseError>)
    ensures r.Success? ==> |r.value| <= |rows|
    decreases |rows|
  {
    if rows == [] then Success([])
    else ReadNext(ReadRecords(rows[..|rows| - 1], parse), rows[|rows| - 1], parse)
  }

  /** Reading fails exactly when some kept row's date does not parse, and
      reports the first such row; dropped rows are never parsed. */
  lemma {:induction false} ReadRecordsFails(rows: seq<seq<string>>, parse: string -> Option<int>)
    ensures FailsAsSpecified(rows, parse, ReadRecords(rows, parse))
    decreases |rows|
  {
    if rows != [] {
      var p, row := rows[..|rows| - 1], rows[|rows| - 1];
      assert rows == p + [row];
      ReadRecordsFails(p, parse);
      ReadNextFails(p, row, parse, ReadRecords(p, parse));
    }
  }

  /** A successful read yields one record per kept row, in input order, with
      the parsed date of field 0 and the known action of the last field. */
  lemma {:induction false} ReadRecordsKeeps(rows: seq<seq<string>>, parse: string -> Option<int>)
    ensures RecordsAsSpecified(rows, parse, ReadRecords(rows, parse))
    decreases |rows|
  {
    if rows != [] {
      var p, row := rows[..|rows| - 1], rows[|rows| - 1];
      assert rows == p + [row];
      ReadRecordsKeeps(p, parse);
      ReadNextRecords(p, row, parse, ReadRecords(p, parse));
    }
  }

  lemma ReadNextFails(p: seq<seq<string>>, row: seq<string>, parse: string -> Option<int>, prefix: Result<seq<Record>, ParseError>)
    requires FailsAsSpecified(p, parse, prefix)
    ensures FailsAsSpecified(p + [row], parse, ReadNext(prefix, row, parse))
  {
    var rows := p + [row];
    var n := |p|;
    assert forall i :: 0 <= i < n ==> rows[i] == p[i];
    if prefix.Failure? {
      var i :| FirstBadRow(p, parse, i) && prefix.error == BadDate(p[i][0]);
      assert FirstBadRow(rows, parse, i);
    } else if Kept(row) && parse(row[0]).None? {
      assert FirstBadRow(rows, parse, n);
    }
  }

  lemma ReadNextRecords(p: seq<seq<string>>, row: seq<string>, parse: string -> Option<int>, prefix: Result<seq<Record>, ParseError>)
    requires RecordsAsSpecified(p, parse, prefix)
    ensures RecordsAsSpecified(p + [row], parse, ReadNext(prefix, row, parse))
  {
    var rows := p + [row];
    var n := |p|;
    assert rows[..n] == p;
    var idx := KeptIndices(p);
    assert KeptIndices(rows) == idx + (if Kept(row) then [n] else []);
    assert forall k :: 0 <= k < |idx| ==> rows[idx[k]] == p[idx[k]];
  }

  /** Reading one more row is one more step of the reader loop. */
  lemma ReadRecordsSnoc(p: seq<seq<string>>, row: seq<string>, parse: string -> Option<int>)
    ensures ReadRecords(p + [row], parse) == ReadNext(ReadRecords(p, parse), row, parse)
  {
    assert (p + [row])[..|p|] == p;
  }

  /** Sequencing two reads: the first failure wins, otherwise the records concatenate. */
  function Then(x: Result<seq<Record>, ParseError>, y: Result<seq<Record>, ParseError>): Result<seq<Record>, ParseError> {
    if x.Failure? then x
    else if y.Failure? then y
    else Success(x.value + y.value)
  }

  /** Reading a file in two parts is reading each part in turn. */
  lemma {:induction false} ReadRecordsAppend(a: seq<seq<string>>, b: seq<seq<string>>, parse: string -> Option<int>)
    ensures ReadRecords(a + b, parse) == Then(ReadRecords(a, parse), ReadRecords(b, parse))
    decreases |b|
  {
    if b == [] {
      assert a + b == a;
      var x := ReadRecords(a, parse);
      if x.Success? {
        assert x.value + [] == x.value;
      }
    } else {
      var n := |b| - 1;
      assert (a + b)[..|a + b| - 1] == a + b[..n];
      ReadRecordsAppend(a, b[..n], parse);
      var x := ReadRecords(a, parse);
      var y := ReadRecords(b[..n], parse);
      if x.Success? && y.Success? && Kept(b[n]) && parse(b[n][0]).Some? {
        assert x.value + (y.value + [Record(parse(b[n][0]).value, ActionOf(b[n][NUM_FIELDS - 1]))])
            == (x.value + y.value) + [Record(parse(b[n][0]).value, ActionOf(b[n][NUM_FIELDS - 1]))];
      }
    }
  }

  /** A row that is not kept (wrong field count or unrecognised action) is
      invisible: it neither adds a record nor disturbs the ones around it. */
  lemma DroppedRowIsInvisible(a: seq<seq<string>>, row: seq<string>, b: seq<seq<string>>, parse: string -> Option<int>)
    requires !Kept(row)
    ensures ReadRecords(a + [row] + b, parse) == ReadRecords(a + b, parse)
  {
    ReadRecordsAppend(a + [row], b, parse);
    ReadRecordsAppend(a, [row], parse);
    ReadRecordsAppend(a, b, parse);
    assert [row][..0] == [];
    var x := ReadRecords(a, parse);
    if x.Success? {
      assert x.value + [] == x.value;
    }
  }

}
