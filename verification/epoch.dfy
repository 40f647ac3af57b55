/** Normalisation of the epoch argument: the date text is stripped of
    surrounding whitespace and suffixed with the last minute of the day, so
    that the parsed epoch is that calendar day at 23:59. */
module Epoch {

  const LAST_MINUTE_OF_DAY: string := "23:59"

  /** The ASCII characters that `str.strip()` removes: space, tab, newline,
      vertical tab, form feed, carriage return, and the four separators
      28 to 31. */
  predicate IsSpace(c: char) {
    c == ' ' || 9 <= c as int <= 13 || 28 <= c as int <= 31
  }

  /** Every character of `s` in positions [lo, hi) is whitespace. */
  predicate SpaceBetween(s: string, lo: int, hi: int)
    requires 0 <= lo <= hi <= |s|
  {
    forall k :: lo <= k < hi ==> IsSpace(s[k])
  }

  /** `s` without its leading whitespace. */
  function TrimLeft(s: string): (t: string)
    ensures |t| <= |s| && t == s[|s| - |t|..]
    ensures SpaceBetween(s, 0, |s| - |t|)
    ensures |t| > 0 ==> !IsSpace(t[0])
    decreases |s|
  {
    if |s| > 0 && IsSpace(s[0]) then
      var t := TrimLeft(s[1..]);
      assert forall k :: 1 <= k < |s| - |t| ==> s[k] == s[1..][k - 1];
      t
    else s
  }

  /** `s` without its trailing whitespace. */
  function TrimRight(s: string): (t: string)
    ensures |t| <= |s| && t == s[..|t|]
    ensures SpaceBetween(s, |t|, |s|)
    ensures |t| > 0 ==> !IsSpace(t[|t| - 1])
    decreases |s|
  {
    if |s| > 0 && IsSpace(s[|s| - 1]) then
      var t := TrimRight(s[..|s| - 1]);
      assert forall k :: |t| <= k < |s| - 1 ==> s[k] == s[..|s| - 1][k];
      t
    else s
  }

  /** `str.strip()`: the result is the slice of `s` starting at some `i`
      obtained by cutting only whitespace off either end, and it neither
      starts nor ends with whitespace. */
  function Strip(s: string): (t: string)
    ensures exists i :: 0 <= i <= i + |t| <= |s| && t == s[i..i + |t|]
              && SpaceBetween(s, 0, i) && SpaceBetween(s, i + |t|, |s|)
    ensures |t| > 0 ==> !IsSpace(t[0]) && !IsSpace(t[|t| - 1])
  {
    var l := TrimLeft(s);
    var t := TrimRight(l);
    var i := |s| - |l|;
    StripSlice(s, l, t, i);
    assert t == s[i..i + |t|] && SpaceBetween(s, 0, i) && SpaceBetween(s, i + |t|, |s|);
    t
  }

  /** A left trim `l` of `s` followed by a right trim `t` of `l` cuts `s`
      down to the slice that starts at `i`. */
  lemma StripSlice(s: string, l: string, t: string, i: int)
    requires |l| <= |s| && i == |s| - |l| && l == s[i..] && SpaceBetween(s, 0, i)
    requires |t| <= |l| && t == l[..|t|] && SpaceBetween(l, |t|, |l|)
    ensures 0 <= i <= i + |t| <= |s| && t == s[i..i + |t|]
    ensures SpaceBetween(s, 0, i) && SpaceBetween(s, i + |t|, |s|)
  {
    assert forall k :: 0 <= k < |l| ==> l[k] == s[i + k];
    assert forall k :: i + |t| <= k < |s| ==> s[k] == l[k - i];
  }

  /** The text handed to the date parser for the epoch: the stripped date,
      one space, and the last minute of the day. */
  function EpochText(date: string): (t: string)
    ensures Strip(date) <= t && |t| == |Strip(date)| + 6
    ensures t[|t| - 6..] == " " + LAST_MINUTE_OF_DAY
  {
    var d := Strip(date);
    SplitConcat(d, " " + LAST_MINUTE_OF_DAY);
    d + (" " + LAST_MINUTE_OF_DAY)
  }

  lemma SplitConcat(a: string, b: string)
    ensures (a + b)[..|a|] == a && (a + b)[|a|..] == b
  {
  }

  /** Trimming text that has no leading whitespace changes nothing. */
  lemma {:induction false} TrimLeftNoop(s: string)
    requires |s| == 0 || !IsSpace(s[0])
    ensures TrimLeft(s) == s
  {
  }

  lemma {:induction false} TrimRightNoop(s: string)
    requires |s| == 0 || !IsSpace(s[|s| - 1])
    ensures TrimRight(s) == s
  {
  }

  /** Stripping twice is stripping once. */
  lemma StripIdempotent(s: string)
    ensures Strip(Strip(s)) == Strip(s)
  {
    var t := Strip(s);
    TrimLeftNoop(t);
    TrimRightNoop(t);
  }

  /** Leading whitespace never reaches the parser. */
  lemma {:induction false} TrimLeftPadded(c: char, s: string)
    requires IsSpace(c)
    ensures TrimLeft([c] + s) == TrimLeft(s)
  {
    assert ([c] + s)[1..] == s;
  }

  /** Appending whitespace survives the left trim, unless the text is all
      whitespace and the trim consumes everything. */
  lemma {:induction false} TrimLeftAppendSpace(s: string, c: char)
    requires IsSpace(c)
    ensures TrimLeft(s + [c]) == TrimLeft(s) + [c] || (TrimLeft(s) == [] && TrimLeft(s + [c]) == [])
    decreases |s|
  {
    if |s| == 0 {
      assert TrimLeft([c]) == TrimLeft([c][1..]);
    } else if IsSpace(s[0]) {
      assert (s + [c])[1..] == s[1..] + [c];
      TrimLeftAppendSpace(s[1..], c);
    }
  }

  /** Padding the epoch argument with whitespace on either side does not
      change the instant text the parser sees. */
  lemma EpochTextIgnoresPadding(c: char, date: string)
    requires IsSpace(c)
    ensures EpochText([c] + date) == EpochText(date)
    ensures EpochText(date + [c]) == EpochText(date)
  {
    TrimLeftPadded(c, date);
    TrimLeftAppendSpace(date, c);
    var l := TrimLeft(date);
    if TrimLeft(date + [c]) == l + [c] {
      assert (l + [c])[..|l + [c]| - 1] == l;
      assert TrimRight(l + [c]) == TrimRight(l);
    }
  }

}
