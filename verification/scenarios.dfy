/** Worked examples of the pipeline on a small export, with the epoch day
    starting at an arbitrary instant `dayStart` (so the results do not depend on
    where the parser places 28-Jul-2014 on its time line). */
module Scenarios {
  import opened Wrappers
  import opened Records
  import opened DayOffset
  import opened Epoch
  import opened Ingest
  import opened TallyEngine
  import opened SeriesBuilder
  import opened Plot
  import opened Pipeline

  /** A date parser that knows the three instants of the example: 29-Jul 09:00,
      27-Jul 10:00 and the epoch 28-Jul 23:59; every other text fails. */
  function ExampleParse(dayStart: int): string -> Option<int> {
    s =>
      if s == "29-Jul-2014 09:00" then Some(MinuteOf(dayStart, 1, 9 * 60))
      else if s == "27-Jul-2014 10:00" then Some(MinuteOf(dayStart, -1, 10 * 60))
      else if s == "28-Jul-2014 23:59" then Some(EpochOfDay(dayStart))
      else None
  }

  /** The export, most recent first: a removal, an unrecognised action, a
      short row, and an addition; the name fields are arbitrary. */
  function ExampleRows(surname: string, username: string): seq<seq<string>> {
    [ ["29-Jul-2014 09:00", surname, "Jo", "100", username, "Removed"],
      ["28-Jul-2014 12:00", surname, "Al", "101", username, "Transferred"],
      ["28-Jul-2014 12:30", "Added"],
      ["27-Jul-2014 10:00", surname, "Jo", "100", username, "Added"] ]
  }

  /** Reading the example export keeps the removal and the addition only. */
  lemma ExampleRecords(dayStart: int, surname: string, username: string)
    ensures ReadRecords(ExampleRows(surname, username), ExampleParse(dayStart))
         == Success([Record(MinuteOf(dayStart, 1, 9 * 60), Removed), Record(MinuteOf(dayStart, -1, 10 * 60), Added)])
  {
    ExampleFirstRow(dayStart, surname, username);
    ExampleDroppedRows(dayStart, surname, username);
    ExampleLastRow(dayStart, surname, username);
  }

  lemma ExampleFirstRow(dayStart: int, surname: string, username: string)
    ensures ReadRecords([ExampleRows(surname, username)[0]], ExampleParse(dayStart)) == Success([Record(MinuteOf(dayStart, 1, 9 * 60), Removed)])
  {
    var row := ExampleRows(surname, username)[0];
    var parse := ExampleParse(dayStart);
    var removal := Record(MinuteOf(dayStart, 1, 9 * 60), Removed);
    assert parse(row[0]) == Some(removal.time);
    assert ActionOf(row[NUM_FIELDS - 1]) == Removed;
    var empty: seq<Record> := [];
    assert empty + [removal] == [removal];
    assert ReadNext(Success(empty), row, parse) == Success([removal]);
    ReadRecordsSnoc([], row, parse);
    assert [] + [row] == [row];
  }

  lemma ExampleDroppedRows(dayStart: int, surname: string, username: string)
    ensures ReadRecords(ExampleRows(surname, username)[..3], ExampleParse(dayStart)) == ReadRecords([ExampleRows(surname, username)[0]], ExampleParse(dayStart))
  {
    var rows := ExampleRows(surname, username);
    assert !Kept(rows[1]) && !Kept(rows[2]);
    SkipTwo([rows[0]], rows[1], rows[2], ExampleParse(dayStart));
    assert [rows[0]] + [rows[1]] + [rows[2]] == rows[..3];
  }

  lemma SkipTwo(p: seq<seq<string>>, a: seq<string>, b: seq<string>, parse: string -> Option<int>)
    requires !Kept(a) && !Kept(b)
    ensures ReadRecords(p + [a] + [b], parse) == ReadRecords(p, parse)
  {
    ReadRecordsSnoc(p, a, parse);
    ReadRecordsSnoc(p + [a], b, parse);
  }

  lemma ExampleLastRow(dayStart: int, surname: string, username: string)
    requires ReadRecords(ExampleRows(surname, username)[..3], ExampleParse(dayStart)) == Success([Record(MinuteOf(dayStart, 1, 9 * 60), Removed)])
    ensures ReadRecords(ExampleRows(surname, username), ExampleParse(dayStart))
         == Success([Record(MinuteOf(dayStart, 1, 9 * 60), Removed), Record(MinuteOf(dayStart, -1, 10 * 60), Added)])
  {
    var rows := ExampleRows(surname, username);
    var parse := ExampleParse(dayStart);
    var row := rows[3];
    var removal := Record(MinuteOf(dayStart, 1, 9 * 60), Removed);
    var addition := Record(MinuteOf(dayStart, -1, 10 * 60), Added);
    assert parse(row[0]) == Some(addition.time);
    assert ActionOf(row[NUM_FIELDS - 1]) == Added;
    assert [removal] + [addition] == [removal, addition];
    assert ReadNext(Success([removal]), row, parse) == Success([removal, addition]);
    ReadRecordsSnoc(rows[..3], row, parse);
    assert rows[..3] + [row] == rows;
  }

  /** The example end to end: the 27-Jul addition lands on day -1 and the
      29-Jul 09:00 removal, less than a day after the 23:59 epoch, on day 0;
      the unrecognised and short rows change nothing. */
  lemma WorkedExample(dayStart: int, surname: string, username: string)
    ensures Run(ExampleRows(surname, username), ExampleParse(dayStart), "28-Jul-2014", 28, 100, true)
         == Success(Some(Figure(Series([-1, 0], [1, 0]), Some(Summary(1, 0)))))
  {
    var removal := Record(MinuteOf(dayStart, 1, 9 * 60), Removed);
    var addition := Record(MinuteOf(dayStart, -1, 10 * 60), Added);
    var parse := ExampleParse(dayStart);
    var figure := Figure(Series([-1, 0], [1, 0]), Some(Summary(1, 0)));
    ExampleRecords(dayStart, surname, username);
    ExampleReverse(removal, addition);
    ExampleProcess(dayStart);
    RunAfterRead(ExampleRows(surname, username), parse, "28-Jul-2014", 28, 100, true, [removal, addition], figure);
  }

  lemma ExampleReverse(removal: Record, addition: Record)
    ensures Reverse([removal, addition]) == [addition, removal]
  {
    assert [removal, addition][..1] == [removal];
  }

  /** Processing the example's records in chronological order. */
  lemma ExampleProcess(dayStart: int)
    ensures ProcessRecords([Record(MinuteOf(dayStart, -1, 10 * 60), Added), Record(MinuteOf(dayStart, 1, 9 * 60), Removed)],
                           ExampleParse(dayStart), "28-Jul-2014", 28, 100, true)
         == Success(Figure(Series([-1, 0], [1, 0]), Some(Summary(1, 0))))
  {
    var parse := ExampleParse(dayStart);
    var records := [Record(MinuteOf(dayStart, -1, 10 * 60), Added), Record(MinuteOf(dayStart, 1, 9 * 60), Removed)];
    ExampleEpochText();
    assert parse(EpochText("28-Jul-2014")) == Some(EpochOfDay(dayStart));
    ProcessWithEpoch(records, parse, "28-Jul-2014", EpochOfDay(dayStart), 28, 100, true);
    ExampleHistogram(dayStart);
    ExampleSeries();
    assert MaxOf([1, 0]) == 1;
  }

  /** Processing once the epoch text is known to parse to `epoch`. */
  lemma ProcessWithEpoch(records: seq<Record>, parse: string -> Option<int>, epochDate: string, epoch: int,
                         low: int, high: int, wantLabel: bool)
    requires parse(EpochText(epochDate)) == Some(epoch)
    ensures ProcessRecords(records, parse, epochDate, low, high, wantLabel)
         == Success(Figure(BuildSeries(Histogram(records, epoch), low, high),
                           Annotation(wantLabel, BuildSeries(Histogram(records, epoch), low, high).counts)))
  {
  }

  lemma ExampleEpochText()
    ensures EpochText("28-Jul-2014") == "28-Jul-2014 23:59"
  {
    TrimLeftNoop("28-Jul-2014");
    TrimRightNoop("28-Jul-2014");
  }

  /** In chronological order the addition (day -1) comes first and the
      removal (day 0) second. */
  lemma ExampleHistogram(dayStart: int)
    ensures Histogram([Record(MinuteOf(dayStart, -1, 10 * 60), Added), Record(MinuteOf(dayStart, 1, 9 * 60), Removed)],
                      EpochOfDay(dayStart))
         == map[-1 := 1, 0 := 0]
  {
    var removal := Record(MinuteOf(dayStart, 1, 9 * 60), Removed);
    var addition := Record(MinuteOf(dayStart, -1, 10 * 60), Added);
    CalendarDayOffset(dayStart, -1, 10 * 60);
    CalendarDayOffset(dayStart, 1, 9 * 60);
    var e := EpochOfDay(dayStart);
    assert Offset(removal, e) == 0 && Offset(addition, e) == -1;
    assert [addition, removal][..1] == [addition];
    assert [addition][..0] == [];
    assert Tally([addition]) == 1;
    assert Tally([addition, removal]) == 0;
    assert Histogram([addition], e) == map[-1 := 1];
    assert Histogram([addition, removal], e) == Histogram([addition], e)[0 := 0];
  }

  lemma ExampleSeries()
    ensures BuildSeries(map[-1 := 1, 0 := 0], 28, 100) == Series([-1, 0], [1, 0])
  {
    var h := map[-1 := 1, 0 := 0];
    var expected := Series([-1, 0], [1, 0]);
    assert IsSeriesOf(expected, h, 28, 100);
    SeriesUnique(BuildSeries(h, 28, 100), expected, h, 28, 100);
  }

  /** Without the reversal the running count would be wrong: tallying the
      export as listed gives day 0 a count of -1 and day -1 a count of 0. */
  lemma ReversalMatters(dayStart: int)
    ensures Histogram([Record(MinuteOf(dayStart, 1, 9 * 60), Removed), Record(MinuteOf(dayStart, -1, 10 * 60), Added)],
                      EpochOfDay(dayStart))
         == map[0 := -1, -1 := 0]
  {
    var removal := Record(MinuteOf(dayStart, 1, 9 * 60), Removed);
    var addition := Record(MinuteOf(dayStart, -1, 10 * 60), Added);
    CalendarDayOffset(dayStart, -1, 10 * 60);
    CalendarDayOffset(dayStart, 1, 9 * 60);
    var e := EpochOfDay(dayStart);
    assert Offset(removal, e) == 0 && Offset(addition, e) == -1;
    assert [removal, addition][..1] == [removal];
    assert [removal][..0] == [];
    assert Tally([removal]) == -1;
    assert Tally([removal, addition]) == 0;
    assert Histogram([removal], e) == map[0 := -1];
    assert Histogram([removal, addition], e) == Histogram([removal], e)[-1 := 0];
  }

  /** Two additions on the same day give one entry holding the count after the
      later one. */
  lemma SameDayLastWriteWins(dayStart: int)
    ensures Histogram([Record(MinuteOf(dayStart, -1, 8 * 60), Added), Record(MinuteOf(dayStart, -1, 20 * 60), Added)],
                      EpochOfDay(dayStart))
         == map[-1 := 2]
  {
    var first := Record(MinuteOf(dayStart, -1, 8 * 60), Added);
    var second := Record(MinuteOf(dayStart, -1, 20 * 60), Added);
    CalendarDayOffset(dayStart, -1, 8 * 60);
    CalendarDayOffset(dayStart, -1, 20 * 60);
    var e := EpochOfDay(dayStart);
    assert Offset(first, e) == -1 && Offset(second, e) == -1;
    assert [first, second][..1] == [first];
    assert [first][..0] == [];
    assert Tally([first]) == 1;
    assert Tally([first, second]) == 2;
    assert Histogram([first], e) == map[-1 := 1];
    assert Histogram([first, second], e) == Histogram([first], e)[-1 := 2];
  }

}
