/**
 * The fixed regular expressions of the client, read as
 *
 *     open ( X*? ) close
 *
 * where `open` and `close` are literals and `X` matches any character except
 * `stop` (Go's `.` excludes the newline; the class `[^"]` excludes the quote).
 * Go's `FindStringSubmatch` is leftmost-first: the match that starts as early
 * as possible, and for a lazy group the shortest one at that start. The
 * three patterns of utils/utils.go have lazy groups. The `Content-Disposition`
 * pattern of webservice/http.go has the greedy group `([^"]*){1}`; its
 * closing literal is its stop character, so a match can close at one index
 * only (`StopClosedMatchUnique`) and the greedy and the lazy reading agree.
 * No general regular-expression engine is modelled.
 */
module Regexp {
  import opened Wrappers
  import opened Text

  datatype Delimited = Delimited(open: string, close: string, stop: char)

  /** The pattern matches `s` from index `a`, with the closing literal at `b`. */
  ghost predicate MatchAt(s: string, d: Delimited, a: nat, b: nat)
  {
    && HasAt(s, d.open, a)
    && a + |d.open| <= b
    && HasAt(s, d.close, b)
    && d.stop !in s[a + |d.open|..b]
  }

  /** (a, b) is the match Go reports: no match starts earlier, none at `a` closes earlier. */
  ghost predicate FirstMatch(s: string, d: Delimited, a: nat, b: nat)
  {
    && MatchAt(s, d, a, b)
    && (forall a': nat, b': nat :: a' < a ==> !MatchAt(s, d, a', b'))
    && (forall b': nat :: b' < b ==> !MatchAt(s, d, a, b'))
  }

  /** The first index `j >= k` where `close` occurs, unless `stop` is met before it. */
  function CloseFrom(s: string, d: Delimited, k: nat): (r: Option<nat>)
    requires k <= |s|
    ensures r.Some? ==> k <= r.value && HasAt(s, d.close, r.value) && d.stop !in s[k..r.value]
    ensures r.Some? ==> forall j: nat :: k <= j < r.value ==> !HasAt(s, d.close, j)
    ensures r.None? ==> forall j: nat :: k <= j && HasAt(s, d.close, j) ==> d.stop in s[k..j]
    decreases |s| - k
  {
    if HasAt(s, d.close, k) then Some(k)
    else if k == |s| || s[k] == d.stop then None
    else CloseFrom(s, d, k + 1)
  }

  /** The leftmost-first match among those starting at or after `i`. */
  function FindFrom(s: string, d: Delimited, i: nat): (r: Option<(nat, nat)>)
    requires i <= |s|
    ensures r.Some? ==> i <= r.value.0 && MatchAt(s, d, r.value.0, r.value.1)
    ensures r.Some? ==> forall a: nat, b: nat :: i <= a < r.value.0 ==> !MatchAt(s, d, a, b)
    ensures r.Some? ==> forall b: nat :: b < r.value.1 ==> !MatchAt(s, d, r.value.0, b)
    ensures r.None? ==> forall a: nat, b: nat :: i <= a ==> !MatchAt(s, d, a, b)
    decreases |s| - i
  {
    var close := if HasAt(s, d.open, i) then CloseFrom(s, d, i + |d.open|) else None;
    if close.Some? then Some((i, close.value))
    else if i == |s| then None
    else FindFrom(s, d, i + 1)
  }

  /** regexp.FindStringSubmatch: the span of Go's match, if any. */
  function Find(s: string, d: Delimited): (r: Option<(nat, nat)>)
    ensures r.Some? ==> FirstMatch(s, d, r.value.0, r.value.1)
    ensures r.None? <==> forall a: nat, b: nat :: !MatchAt(s, d, a, b)
  {
    FindFrom(s, d, 0)
  }

  /** Capture group 1 of Go's match, if any. */
  function Capture(s: string, d: Delimited): (r: Option<string>)
    ensures r.None? <==> forall a: nat, b: nat :: !MatchAt(s, d, a, b)
    ensures forall a: nat, b: nat :: FirstMatch(s, d, a, b) ==> r == Some(s[a + |d.open|..b])
    ensures r.Some? ==> exists a: nat, b: nat :: FirstMatch(s, d, a, b) && r.value == s[a + |d.open|..b]
  {
    match Find(s, d)
    case None => None
    case Some((a, b)) =>
      FirstMatchUnique(s, d, a, b);
      Some(s[a + |d.open|..b])
  }

  /** Go reports at most one match. */
  lemma FirstMatchUnique(s: string, d: Delimited, a: nat, b: nat)
    requires FirstMatch(s, d, a, b)
    ensures forall a': nat, b': nat :: FirstMatch(s, d, a', b') ==> a' == a && b' == b
  {
  }

  /** The captured text never contains the stop character. */
  lemma CaptureAvoidsStop(s: string, d: Delimited)
    requires Capture(s, d).Some?
    ensures d.stop !in Capture(s, d).value
  {
  }

  /**
   * When the closing literal is the stop character itself (`"([^"]*)"`), a
   * match that starts at `a` can close in one place only, so the greedy and
   * the lazy reading of the group agree.
   */
  lemma {:induction false} StopClosedMatchUnique(s: string, d: Delimited, a: nat, b: nat, b': nat)
    requires d.close == [d.stop]
    requires MatchAt(s, d, a, b) && MatchAt(s, d, a, b')
    ensures b == b'
  {
    StopClosesAtFirstStop(s, d, a, b);
    StopClosesAtFirstStop(s, d, a, b');
  }

  /** With such a pattern the group ends at the first stop character after `open`. */
  lemma StopClosesAtFirstStop(s: string, d: Delimited, a: nat, b: nat)
    requires d.close == [d.stop]
    requires MatchAt(s, d, a, b)
    ensures b < |s| && s[b] == d.stop
    ensures forall j :: a + |d.open| <= j < b ==> s[j] != d.stop
  {
  }

  /**
   * A match whose opening literal has no earlier occurrence and whose group
   * meets no earlier closing literal is the one Go reports.
   */
  lemma CaptureAt(s: string, d: Delimited, a: nat, b: nat)
    requires MatchAt(s, d, a, b)
    requires forall a': nat :: a' < a ==> !HasAt(s, d.open, a')
    requires forall j: nat :: a + |d.open| <= j < b ==> !HasAt(s, d.close, j)
    ensures Capture(s, d) == Some(s[a + |d.open|..b])
  {
  }

  /**
   * Round trip: wrapping `v` in the pattern's literals, behind a prefix in
   * which the opening literal cannot start, captures exactly `v`. The prefix
   * condition: some character `d.open[k]` of the opening literal occurs
   * neither in `pre` nor earlier in the literal itself. The group condition:
   * `v` holds no stop character, and the closing literal does not occur in
   * `v` followed by all but the last character of that literal.
   */
  lemma {:induction false} CaptureEnvelope(pre: string, v: string, post: string, d: Delimited, k: nat)
    requires k < |d.open| && d.open[k] !in pre && d.open[k] !in d.open[..k]
    requires d.close != [] && d.stop !in v && !Contains(v + d.close[..|d.close| - 1], d.close)
    ensures Capture(pre + d.open + v + d.close + post, d) == Some(v)
  {
    var s := pre + d.open + v + d.close + post;
    var a, b := |pre|, |pre| + |d.open| + |v|;
    assert s[a..a + |d.open|] == d.open;
    assert s[b..b + |d.close|] == d.close;
    assert s[a + |d.open|..b] == v;
    forall a': nat | a' < a ensures !HasAt(s, d.open, a') {
      if a' + k < |pre| {
        assert s[a' + k] == pre[a' + k];
      } else {
        assert s[a' + k] == d.open[..k][a' + k - |pre|];
      }
      MismatchBreaksOccurrence(s, d.open, a', k);
    }
    var t := v + d.close[..|d.close| - 1];
    assert s[a + |d.open|..a + |d.open| + |t|] == t;
    forall j: nat | a + |d.open| <= j < b ensures !HasAt(s, d.close, j) {
      OccurrenceInWindow(s, t, a + |d.open|, d.close, j - a - |d.open|);
    }
    CaptureAt(s, d, a, b);
  }
}
