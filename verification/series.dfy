/** The range filter and series builder: histogram entries are taken in
    ascending day order, those inside the window [-low, high] are kept, and
    the result is a pair of index-aligned lists (days, counts). */
module SeriesBuilder {

  /** Two aligned lists: `counts[i]` is the enrolment as of day `days[i]`. */
  datatype Series = Series(days: seq<int>, counts: seq<int>)

  predicate StrictlyAscending(s: seq<int>) {
    forall i, j :: 0 <= i < j < |s| ==> s[i] < s[j]
  }

  /** The window test of the filter loop, both ends inclusive. */
  predicate InWindow(d: int, low: int, high: int) {
    -low <= d <= high
  }

  /** What the series for histogram `h` and window [-low, high] must be:
      aligned lists, days strictly ascending, each count the histogram entry of
      its day, and the days exactly the histogram keys inside the window. */
  ghost predicate IsSeriesOf(s: Series, h: map<int, int>, low: int, high: int) {
    && |s.days| == |s.counts|
    && StrictlyAscending(s.days)
    && (forall i :: 0 <= i < |s.days| ==> s.days[i] in h && s.counts[i] == h[s.days[i]])
    && (forall i :: 0 <= i < |s.days| ==> InWindow(s.days[i], low, high))
    && (forall d :: d in h && InWindow(d, low, high) ==> d in s.days)
  }

  lemma {:induction false} LeastExists(s: set<int>)
    requires s != {}
    ensures exists m :: m in s && forall k :: k in s ==> m <= k
    decreases |s|
  {
    assert (forall y :: y !in s) ==> s == {};
    var x :| x in s;
    if s == {x} {
      assert forall k :: k in s ==> x <= k;
    } else {
      var rest := s - {x};
      LeastExists(rest);
      var m :| m in rest && forall k :: k in rest ==> m <= k;
      var least := if x < m then x else m;
      forall k | k in s ensures least <= k {
        if k != x {
          assert k in rest;
        }
      }
      assert least in s;
    }
  }

  /** The least element of a non-empty set of days. */
  function Least(s: set<int>): (m: int)
    requires s != {}
    ensures m in s && forall k :: k in s ==> m <= k
  {
    LeastExists(s);
    var m :| m in s && forall k :: k in s ==> m <= k;
    m
  }

  /** The days of a set in ascending order, as `sorted` yields a dict's keys:
      strictly ascending and holding exactly the elements of the set. */
  function SortedKeys(s: set<int>): (ks: seq<int>)
    ensures StrictlyAscending(ks)
    ensures forall k :: k in ks <==> k in s
    decreases |s|
  {
    if s == {} then []
    else
      var m := Least(s);
      [m] + SortedKeys(s - {m})
  }

  /** The filter loop over the sorted keys `ks`: each key inside the window is
      appended to the days and its histogram entry to the counts. */
  function WindowFilter(ks: seq<int>, h: map<int, int>, low: int, high: int): (s: Series)
    requires forall i :: 0 <= i < |ks| ==> ks[i] in h
    ensures |s.days| == |s.counts|
    ensures forall i :: 0 <= i < |s.days| ==> s.days[i] in h && s.counts[i] == h[s.days[i]]
    ensures forall d :: d in s.days <==> d in ks && InWindow(d, low, high)
    ensures StrictlyAscending(ks) ==> StrictlyAscending(s.days)
    decreases |ks|
  {
    if ks == [] then Series([], [])
    else
      var n := |ks| - 1;
      assert forall i :: 0 <= i < n ==> ks[..n][i] == ks[i];
      var s := WindowFilter(ks[..n], h, low, high);
      assert forall d :: d in ks <==> d in ks[..n] || d == ks[n] by {
        assert ks == ks[..n] + [ks[n]];
      }
      if InWindow(ks[n], low, high) then
        assert StrictlyAscending(ks) ==> forall d :: d in s.days ==> d < ks[n] by {
          if StrictlyAscending(ks) {
            forall d | d in s.days ensures d < ks[n] {
              var i :| 0 <= i < n && ks[..n][i] == d;
            }
          }
        }
        var days := s.days + [ks[n]];
        assert StrictlyAscending(ks) ==> StrictlyAscending(days) by {
          if StrictlyAscending(ks) {
            forall i, j | 0 <= i < j < |days| ensures days[i] < days[j] {
              assert days[i] == s.days[i] && days[i] in s.days;
            }
          }
        }
        Series(days, s.counts + [h[ks[n]]])
      else s
  }

  /** The series built from a histogram: its keys sorted ascending, then
      filtered to the window. */
  function BuildSeries(h: map<int, int>, low: int, high: int): (s: Series)
    ensures IsSeriesOf(s, h, low, high)
  {
    WindowFilter(SortedKeys(h.Keys), h, low, high)
  }

  /** Two strictly ascending lists with the same elements are the same list. */
  lemma {:induction false} AscendingUnique(a: seq<int>, b: seq<int>)
    requires StrictlyAscending(a) && StrictlyAscending(b)
    requires forall x :: x in a <==> x in b
    ensures a == b
    decreases |a|
  {
    assert |b| > 0 ==> b[0] in b;
    if a != [] {
      assert a[0] in a;
      assert b != [] && a[0] in b;
      assert b[0] in b;
      assert b[0] in a;
      assert a[0] == b[0];
      forall x ensures x in a[1..] <==> x in b[1..] {
        if x in a[1..] {
          assert x in a && x != a[0];
        }
        if x in b[1..] {
          assert x in b && x != b[0];
        }
      }
      AscendingUnique(a[1..], b[1..]);
      assert a == [a[0]] + a[1..];
      assert b == [b[0]] + b[1..];
    }
  }

  /** The window filter's description determines the series completely, so
      `BuildSeries` is the only series meeting it. */
  lemma SeriesUnique(s: Series, t: Series, h: map<int, int>, low: int, high: int)
    requires IsSeriesOf(s, h, low, high) && IsSeriesOf(t, h, low, high)
    ensures s == t
  {
    AscendingUnique(s.days, t.days);
    assert s.counts == t.counts;
  }

  /** With an empty window around the epoch (low = high = 0) the series is day
      0 alone when day 0 has an entry, and empty otherwise. */
  lemma EpochOnlyWindow(h: map<int, int>)
    ensures BuildSeries(h, 0, 0) == if 0 in h then Series([0], [h[0]]) else Series([], [])
  {
    var t := if 0 in h then Series([0], [h[0]]) else Series([], []);
    assert IsSeriesOf(t, h, 0, 0);
    SeriesUnique(BuildSeries(h, 0, 0), t, h, 0, 0);
  }

}
