/** The part of the plotting step that computes something: the optional
    "max = ..., current = ..." annotation over the plotted counts. */
module Plot {
  import opened Wrappers

  /** The two numbers of the annotation. */
  datatype Summary = Summary(maximum: int, current: int)

  /** The largest element of a non-empty list. */
  function MaxOf(s: seq<int>): (m: int)
    requires |s| > 0
    ensures m in s
    ensures forall i :: 0 <= i < |s| ==> s[i] <= m
    decreases |s|
  {
    if |s| == 1 then s[0]
    else
      var m := MaxOf(s[1..]);
      assert forall i :: 1 <= i < |s| ==> s[i] == s[1..][i - 1];
      if s[0] < m then m else s[0]
  }

  /** The annotation is computed only when it is asked for and there is at
      least one count; it then holds the largest count, which is one of the
      counts, and the last (current) count. */
  function Annotation(wantLabel: bool, counts: seq<int>): (a: Option<Summary>)
    ensures a.Some? <==> wantLabel && |counts| > 0
    ensures a.Some? ==> a.value.maximum in counts
    ensures a.Some? ==> forall i :: 0 <= i < |counts| ==> counts[i] <= a.value.maximum
    ensures a.Some? ==> a.value.current == counts[|counts| - 1]
  {
    if wantLabel && |counts| > 0 then Some(Summary(MaxOf(counts), counts[|counts| - 1])) else None
  }

}
