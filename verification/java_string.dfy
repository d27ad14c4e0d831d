/**
 * The piece of java.lang.String that the occurrence search is built on:
 * `String.indexOf(String str, int fromIndex)`, with the JDK's exact treatment
 * of a negative `fromIndex`, a `fromIndex` past the end and the empty needle.
 * A `string` here stands for Java's sequence of UTF-16 code units; offsets
 * agree with Java on text without supplementary characters.
 */
module JavaString {
  import opened Offsets

  /** `needle` occurs in `s` at offset `k`. The empty needle occurs at every offset `0..|s|`. */
  predicate MatchesAt(s: string, needle: string, k: int) {
    0 <= k && k + |needle| <= |s| && s[k..k + |needle|] == needle
  }

  /** No occurrence of `needle` starts at an offset in `lo..hi-1`. */
  ghost predicate NoMatchIn(s: string, needle: string, lo: int, hi: int) {
    forall k :: lo <= k < hi ==> !MatchesAt(s, needle, k)
  }

  /** No occurrence of `needle` starts at or after `lo`. */
  ghost predicate NoMatchFrom(s: string, needle: string, lo: int) {
    forall k :: lo <= k ==> !MatchesAt(s, needle, k)
  }

  /** The left-to-right scan for a non-empty needle, starting at offset `k`. */
  function Scan(s: string, needle: string, k: int): (r: int)
    requires 0 <= k <= |s|
    requires |needle| > 0
    ensures r == -1 || (k <= r && r + |needle| <= |s|)
    decreases |s| - k
  {
    if k + |needle| > |s| then -1
    else if s[k..k + |needle|] == needle then k
    else Scan(s, needle, k + 1)
  }

  /** The scan answers the leftmost match at or after `k`, or -1 when there is none. */
  lemma {:induction false} ScanIsLeftmost(s: string, needle: string, k: int)
    requires 0 <= k <= |s|
    requires |needle| > 0
    ensures var r := Scan(s, needle, k);
            && (r >= 0 ==> MatchesAt(s, needle, r) && NoMatchIn(s, needle, k, r))
            && (r == -1 <==> NoMatchFrom(s, needle, k))
    decreases |s| - k
  {
    if k + |needle| > |s| {
    } else if s[k..k + |needle|] == needle {
      assert MatchesAt(s, needle, k);
    } else {
      ScanIsLeftmost(s, needle, k + 1);
    }
  }

  /**
   * `s.indexOf(needle, fromIndex)`: the first occurrence at or after
   * `max(fromIndex, 0)`, or -1. A `fromIndex` at or past the end answers
   * `|s|` for the empty needle and -1 otherwise; a negative one counts as 0.
   */
  function IndexOf(s: string, needle: string, fromIndex: int): (r: int)
    ensures -1 <= r <= |s|
    ensures r >= 0 ==> r + |needle| <= |s|
    ensures |needle| > 0 && r >= 0 ==> Max(fromIndex, 0) <= r
    ensures |needle| == 0 ==> r == Min(Max(fromIndex, 0), |s|)
  {
    if fromIndex >= |s| then
      if |needle| == 0 then |s| else -1
    else
      var from := if fromIndex < 0 then 0 else fromIndex;
      if |needle| == 0 then from else Scan(s, needle, from)
  }

  /**
   * The answer of `IndexOf` is a match and no match lies between the start
   * offset and it; -1 means, for a non-empty needle, that nothing matches.
   */
  lemma IndexOfIsLeftmost(s: string, needle: string, fromIndex: int)
    ensures var r := IndexOf(s, needle, fromIndex);
            && (r >= 0 ==> MatchesAt(s, needle, r))
            && (r >= 0 && (|needle| > 0 || fromIndex <= |s|) ==> NoMatchIn(s, needle, Max(fromIndex, 0), r))
            && (|needle| > 0 ==> (r == -1 <==> NoMatchFrom(s, needle, Max(fromIndex, 0))))
  {
    if fromIndex < |s| && |needle| > 0 {
      ScanIsLeftmost(s, needle, Max(fromIndex, 0));
    }
  }
}
