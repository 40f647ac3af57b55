/** The whole pipeline as the script runs it: read the records, and only if
    there are any, reverse them into chronological order, normalise the epoch,
    build the histogram and the windowed series, and compute the annotation. */
module Pipeline {
  import opened Wrappers
  import opened Records
  import opened DayOffset
  import opened Epoch
  import opened Ingest
  import opened TallyEngine
  import opened SeriesBuilder
  import opened Plot

  /** What reaches the plotting step: the series and the optional annotation. */
  datatype Figure = Figure(series: Series, annotation: Option<Summary>)

  /** `list(reversed(s))`. */
  function Reverse<T>(s: seq<T>): (r: seq<T>)
    ensures |r| == |s|
    ensures forall i :: 0 <= i < |s| ==> r[i] == s[|s| - 1 - i]
    decreases |s|
  {
    if s == [] then [] else [s[|s| - 1]] + Reverse(s[..|s| - 1])
  }

  /** Reversing twice restores the original order. */
  lemma ReverseInvolution<T>(s: seq<T>)
    ensures Reverse(Reverse(s)) == s
  {
  }

  /** Records in the order the export lists them: most recent first. */
  predicate ReverseChronological(rs: seq<Record>) {
    forall i, j :: 0 <= i < j < |rs| ==> rs[j].time <= rs[i].time
  }

  predicate Chronological(rs: seq<Record>) {
    forall i, j :: 0 <= i < j < |rs| ==> rs[i].time <= rs[j].time
  }

  /** Reversing an export puts its records in chronological order, and then
      their day offsets never decrease. */
  lemma ReversedExportIsChronological(rs: seq<Record>, epoch: int)
    requires ReverseChronological(rs)
    ensures Chronological(Reverse(rs))
    ensures forall i, j :: 0 <= i < j < |rs| ==> Offset(Reverse(rs)[i], epoch) <= Offset(Reverse(rs)[j], epoch)
  {
    var r := Reverse(rs);
    forall i, j | 0 <= i < j < |rs| ensures Offset(r[i], epoch) <= Offset(r[j], epoch) {
      DaysDifferenceMonotone(r[i].time, r[j].time, epoch);
    }
  }

  /** `process_records`: a date that does not parse as the epoch aborts with
      that text; otherwise the series is the windowed histogram of the records
      relative to the epoch, and the annotation is the one `plot_data` computes
      from the plotted counts: present exactly when it is asked for and the
      series is non-empty, holding their maximum and last value. */
  function ProcessRecords(records: seq<Record>, parse: string -> Option<int>, epochDate: string,
                          low: int, high: int, wantLabel: bool): (r: Result<Figure, ParseError>)
    ensures r.Failure? <==> parse(EpochText(epochDate)).None?
    ensures r.Failure? ==> r.error == BadDate(EpochText(epochDate))
    ensures r.Success? ==> IsSeriesOf(r.value.series, Histogram(records, parse(EpochText(epochDate)).value), low, high)
    ensures r.Success? ==> r.value.annotation == Annotation(wantLabel, r.value.series.counts)
  {
    match parse(EpochText(epochDate))
    case None => Failure(BadDate(EpochText(epochDate)))
    case Some(epoch) =>
      var series := BuildSeries(Histogram(records, epoch), low, high);
      Success(Figure(series, Annotation(wantLabel, series.counts)))
  }

  /** `main`: a failed read aborts; an empty read plots nothing and never
      touches the epoch; otherwise the records are processed in reversed
      (chronological) order, which fails only on an epoch that does not parse
      and otherwise always yields a figure. */
  function Run(rows: seq<seq<string>>, parse: string -> Option<int>, epochDate: string,
               low: int, high: int, wantLabel: bool): (r: Result<Option<Figure>, ParseError>)
    ensures ReadRecords(rows, parse).Failure? ==> r == Failure(ReadRecords(rows, parse).error)
    ensures r == Success(None) <==> ReadRecords(rows, parse) == Success([])
    ensures r.Failure? && ReadRecords(rows, parse).Success? ==>
              && ReadRecords(rows, parse).value != []
              && parse(EpochText(epochDate)).None?
              && r.error == BadDate(EpochText(epochDate))
    ensures ReadRecords(rows, parse).Success? && ReadRecords(rows, parse).value != [] && parse(EpochText(epochDate)).Some? ==>
              r.Success? && r.value.Some?
    ensures r.Success? && r.value.Some? ==>
              && ReadRecords(rows, parse).Success?
              && parse(EpochText(epochDate)).Some?
              && IsSeriesOf(r.value.value.series,
                            Histogram(Reverse(ReadRecords(rows, parse).value), parse(EpochText(epochDate)).value),
                            low, high)
              && r.value.value.annotation == Annotation(wantLabel, r.value.value.series.counts)
  {
    match ReadRecords(rows, parse)
    case Failure(e) => Failure(e)
    case Success(records) =>
      if records == [] then Success(None)
      else
        match ProcessRecords(Reverse(records), parse, epochDate, low, high, wantLabel)
        case Failure(e) => Failure(e)
        case Success(figure) => Success(Some(figure))
  }

  /** Once the read has produced a non-empty list, the run's outcome is that
      of processing the reversed list. */
  lemma RunAfterRead(rows: seq<seq<string>>, parse: string -> Option<int>, epochDate: string,
                     low: int, high: int, wantLabel: bool, records: seq<Record>, figure: Figure)
    requires ReadRecords(rows, parse) == Success(records) && records != []
    requires ProcessRecords(Reverse(records), parse, epochDate, low, high, wantLabel) == Success(figure)
    ensures Run(rows, parse, epochDate, low, high, wantLabel) == Success(Some(figure))
  {
  }

}
