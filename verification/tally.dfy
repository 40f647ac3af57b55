/** The tally engine: a running net count over the chronological records,
    written into a day-offset histogram where the last write of a day wins. */
module TallyEngine {
  import opened Records
  import opened DayOffset

  /** The change an action makes to the running count; unrecognised
      actions leave it unchanged. */
  function Delta(a: Action): (d: int)
    ensures d > 0 <==> a == Added
    ensures d < 0 <==> a == Removed
    ensures -1 <= d <= 1
  {
    match a
    case Added => 1
    case Removed => -1
    case Other(_) => 0
  }

  /** The running count after processing every record of `rs` in order,
      starting from 0. */
  function Tally(rs: seq<Record>): (t: int)
    decreases |rs|
  {
    if rs == [] then 0 else Tally(rs[..|rs| - 1]) + Delta(rs[|rs| - 1].action)
  }

  /** How many records of `rs` carry action `a`. */
  function Occurrences(rs: seq<Record>, a: Action): nat
    decreases |rs|
  {
    if rs == [] then 0
    else Occurrences(rs[1..], a) + (if rs[0].action == a then 1 else 0)
  }

  lemma {:induction false} OccurrencesSnoc(rs: seq<Record>, r: Record, a: Action)
    ensures Occurrences(rs + [r], a) == Occurrences(rs, a) + (if r.action == a then 1 else 0)
    decreases |rs|
  {
    if rs == [] {
      assert ([r])[1..] == [];
    } else {
      assert (rs + [r])[1..] == rs[1..] + [r];
      OccurrencesSnoc(rs[1..], r, a);
    }
  }

  /** The running count is the number of "Added" events minus the number of
      "Removed" events; every other action contributes nothing. */
  lemma {:induction false} TallyIsNetCount(rs: seq<Record>)
    ensures Tally(rs) == Occurrences(rs, Added) - Occurrences(rs, Removed)
    decreases |rs|
  {
    if rs != [] {
      var n := |rs| - 1;
      TallyIsNetCount(rs[..n]);
      assert rs == rs[..n] + [rs[n]];
      OccurrencesSnoc(rs[..n], rs[n], Added);
      OccurrencesSnoc(rs[..n], rs[n], Removed);
    }
  }

  /** The day offset of a record relative to the epoch instant. */
  function Offset(r: Record, epoch: int): int {
    DaysDifference(r.time, epoch)
  }

  /** The day offsets at which some record of `rs` falls. */
  function Offsets(rs: seq<Record>, epoch: int): set<int> {
    set i | 0 <= i < |rs| :: Offset(rs[i], epoch)
  }

  /** Record `j` is the last record of `rs` on its day. */
  predicate LastOnItsDay(rs: seq<Record>, epoch: int, j: int) {
    0 <= j < |rs| && forall k :: j < k < |rs| ==> Offset(rs[k], epoch) != Offset(rs[j], epoch)
  }

  /** The histogram after processing `rs` in order: for each record, its day
      is (over)written with the running count after that record. Its keys are
      exactly the days on which some record falls, and each day holds the count
      as of the last record of that day. */
  function Histogram(rs: seq<Record>, epoch: int): (h: map<int, int>)
    ensures h.Keys == Offsets(rs, epoch)
    ensures forall j :: LastOnItsDay(rs, epoch, j) ==> h[Offset(rs[j], epoch)] == Tally(rs[..j + 1])
    decreases |rs|
  {
    if rs == [] then map[]
    else
      var p, r := rs[..|rs| - 1], rs[|rs| - 1];
      assert rs == p + [r];
      var h := Histogram(p, epoch);
      HistogramStep(p, r, epoch, h);
      h[Offset(r, epoch) := Tally(rs)]
  }

  /** One step of the histogram loop keeps its characterisation. */
  lemma HistogramStep(p: seq<Record>, r: Record, epoch: int, h: map<int, int>)
    requires h.Keys == Offsets(p, epoch)
    requires forall j :: LastOnItsDay(p, epoch, j) ==> h[Offset(p[j], epoch)] == Tally(p[..j + 1])
    ensures var rs := p + [r];
            var h' := h[Offset(r, epoch) := Tally(rs)];
            && h'.Keys == Offsets(rs, epoch)
            && forall j :: LastOnItsDay(rs, epoch, j) ==> h'[Offset(rs[j], epoch)] == Tally(rs[..j + 1])
  {
    var rs := p + [r];
    var n := |p|;
    assert rs[..n] == p;
    var h' := h[Offset(r, epoch) := Tally(rs)];
    OffsetsSnoc(rs, epoch);
    forall j | LastOnItsDay(rs, epoch, j)
      ensures h'[Offset(rs[j], epoch)] == Tally(rs[..j + 1])
    {
      if j == n {
        assert rs[..j + 1] == rs;
      } else {
        assert rs[j] == p[j];
        assert p[..j + 1] == rs[..j + 1];
        assert LastOnItsDay(p, epoch, j) by {
          forall k | j < k < n ensures Offset(p[k], epoch) != Offset(p[j], epoch) {
            assert rs[k] == p[k];
          }
        }
        assert Offset(rs[n], epoch) != Offset(rs[j], epoch);
      }
    }
  }

  /** Adding one record adds exactly its day to the set of days. */
  lemma OffsetsSnoc(rs: seq<Record>, epoch: int)
    requires rs != []
    ensures Offsets(rs, epoch) == Offsets(rs[..|rs| - 1], epoch) + {Offset(rs[|rs| - 1], epoch)}
  {
    var n := |rs| - 1;
    forall d | d in Offsets(rs, epoch) ensures d in Offsets(rs[..n], epoch) + {Offset(rs[n], epoch)} {
      var i :| 0 <= i < |rs| && Offset(rs[i], epoch) == d;
      if i < n {
        assert rs[..n][i] == rs[i];
      }
    }
    forall d | d in Offsets(rs[..n], epoch) ensures d in Offsets(rs, epoch) {
      var i :| 0 <= i < n && Offset(rs[..n][i], epoch) == d;
      assert rs[i] == rs[..n][i];
    }
  }

  /** The index of the last record of `rs` that falls on day `d`. */
  function LastIndexOn(rs: seq<Record>, epoch: int, d: int): (j: nat)
    requires d in Offsets(rs, epoch)
    ensures LastOnItsDay(rs, epoch, j) && Offset(rs[j], epoch) == d
    decreases |rs|
  {
    var n := |rs| - 1;
    if Offset(rs[n], epoch) == d then n
    else
      assert d in Offsets(rs[..n], epoch) by {
        var i :| 0 <= i < |rs| && Offset(rs[i], epoch) == d;
        assert rs[..n][i] == rs[i];
      }
      var j := LastIndexOn(rs[..n], epoch, d);
      assert rs[..n][j] == rs[j];
      j
  }

  /** The entry of the day of a record that is last on its day is the net
      count (#Added - #Removed) over the records up to and including it; by
      `LastIndexOn`, every histogram key has such a record. */
  lemma HistogramValue(rs: seq<Record>, epoch: int, j: int)
    requires LastOnItsDay(rs, epoch, j)
    ensures Histogram(rs, epoch)[Offset(rs[j], epoch)] == Occurrences(rs[..j + 1], Added) - Occurrences(rs[..j + 1], Removed)
  {
    TallyIsNetCount(rs[..j + 1]);
  }

}
