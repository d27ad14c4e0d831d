/**
 * The occurrence search of JTextComponentDriver: `occurence(n).of(text)`
 * describes which numbered occurrence of a literal to find, and
 * `TextSearch.manipulate` computes the `[start, end)` span of it in the
 * component's text.
 */
module TextSearch {
  import opened Wrappers
  import opened Offsets
  import opened JavaString

  /** The exceptions the search can raise. */
  datatype Fault = NullPointer

  /** `occurence(count)`, optionally completed by `.of(text)`; the text is null until then. */
  datatype TextOccurence = TextOccurence(count: int, text: Option<string>)

  /** A `[start, end)` offset pair as computed by the search (start may be -1). */
  datatype Span = Span(start: int, end: int)

  /** `JTextComponentDriver.occurence(count)`: the count is kept and the text is still null. */
  function Occurence(count: int): (o: TextOccurence)
    ensures o.count == count
    ensures o.text.None?
  {
    TextOccurence(count, None)
  }

  /** `TextOccurence.of(text)`: sets the text, keeps the count and hands back the descriptor. */
  function Of(o: TextOccurence, text: string): (r: TextOccurence)
    ensures r.count == o.count
    ensures r.text == Some(text)
  {
    o.(text := Some(text))
  }

  lemma OccurenceOf(count: int, text: string)
    ensures Of(Occurence(count), text).count == count
    ensures Of(Occurence(count), text).text == Some(text)
  {
  }

  /** A second `of` replaces the first, because `of` overwrites the field. */
  lemma OfLastWins(o: TextOccurence, a: string, b: string)
    ensures Of(Of(o, a), b) == Of(o, b)
    ensures Of(o, a).count == o.count
  {
  }

  /* ---------------------------------------------------------------------
   * The loop of `manipulate`, as written
   * --------------------------------------------------------------------- */

  /**
   * The `for` loop from iteration `i` with the current `lastIndex`: every
   * iteration searches from `lastIndex`; the last one keeps the index found,
   * the others move past it by the needle's length (even after a miss).
   */
  function SearchLoop(s: string, needle: string, occurence: int, i: int, lastIndex: int): (r: int)
    ensures i < occurence ==> -1 <= r <= |s|
    ensures i < occurence && r >= 0 ==> r + |needle| <= |s|
    decreases occurence - i
  {
    if i < occurence then
      var index := IndexOf(s, needle, lastIndex);
      SearchLoop(s, needle, occurence, i + 1, if i == occurence - 1 then index else index + |needle|)
    else
      lastIndex
  }

  /** `lastIndex` after `k` non-final iterations started from `lastIndex`. */
  function Advance(s: string, needle: string, k: nat, lastIndex: int): int
    decreases k
  {
    if k == 0 then lastIndex
    else Advance(s, needle, k - 1, IndexOf(s, needle, lastIndex) + |needle|)
  }

  /** The loop's answer is the search made by its final iteration. */
  lemma {:induction false} SearchLoopIsFinalSearch(s: string, needle: string, occurence: int, i: int, lastIndex: int)
    requires i < occurence
    ensures SearchLoop(s, needle, occurence, i, lastIndex)
            == IndexOf(s, needle, Advance(s, needle, occurence - 1 - i, lastIndex))
    decreases occurence - i
  {
    if i < occurence - 1 {
      SearchLoopIsFinalSearch(s, needle, occurence, i + 1, IndexOf(s, needle, lastIndex) + |needle|);
    }
  }

  /**
   * `TextSearch.manipulate`: the span of the `count`-th occurrence, searched
   * as the source does. A null text raises a NullPointerException.
   */
  function Manipulate(s: string, o: TextOccurence): (r: Result<Span, Fault>)
    ensures r.Failure? <==> o.text.None?
    ensures r.Success? ==> r.value.end - r.value.start == |o.text.value|
    ensures r.Success? && o.count <= 0 ==> r.value == Span(0, |o.text.value|)
    ensures r.Success? && o.count >= 1 ==>
              -1 <= r.value.start <= |s| &&
              (r.value.start == -1 || MatchesAt(s, o.text.value, r.value.start))
  {
    match o.text
    case None => Failure(NullPointer)
    case Some(t) =>
      var start := SearchLoop(s, t, o.count, 0, 0);
      if o.count >= 1 then
        SearchLoopIsFinalSearch(s, t, o.count, 0, 0);
        IndexOfIsLeftmost(s, t, Advance(s, t, o.count - 1, 0));
        Success(Span(start, start + |t|))
      else Success(Span(start, start + |t|))
  }

  /** With the text set, the span is the loop's result and the needle's length after it. */
  lemma ManipulateOf(s: string, t: string, count: int)
    ensures Manipulate(s, Of(Occurence(count), t))
            == Success(Span(SearchLoop(s, t, count, 0, 0), SearchLoop(s, t, count, 0, 0) + |t|))
  {
  }

  /** With `count == 1` the span starts at the first occurrence, or at -1 when there is none. */
  lemma FirstOccurrence(s: string, t: string)
    ensures Manipulate(s, Of(Occurence(1), t)).value.start == IndexOf(s, t, 0)
    ensures var start := Manipulate(s, Of(Occurence(1), t)).value.start;
            (start == -1 <==> NoMatchFrom(s, t, 0)) &&
            (start >= 0 ==> MatchesAt(s, t, start) && NoMatchIn(s, t, 0, start))
  {
    SearchLoopIsFinalSearch(s, t, 1, 0, 0);
    IndexOfIsLeftmost(s, t, 0);
  }

  /** With the empty needle every search answers 0, so `lastIndex` stays at 0. */
  lemma {:induction false} AdvanceEmptyNeedle(s: string, k: nat)
    ensures Advance(s, "", k, 0) == 0
  {
    if k > 0 {
      AdvanceEmptyNeedle(s, k - 1);
    }
  }

  /** The empty needle is found at offset 0 for every positive count. */
  lemma EmptyNeedle(s: string, count: int)
    requires count >= 1
    ensures Manipulate(s, Of(Occurence(count), "")).value == Span(0, 0)
  {
    SearchLoopIsFinalSearch(s, "", count, 0, 0);
    AdvanceEmptyNeedle(s, count - 1);
  }

  /* ---------------------------------------------------------------------
   * Reference: the left-to-right, non-overlapping occurrences
   * --------------------------------------------------------------------- */

  /** The offsets of the non-overlapping occurrences of a non-empty needle, scanning from `from`. */
  function Occurrences(s: string, needle: string, from: int): (ps: seq<int>)
    requires |needle| > 0
    requires 0 <= from <= |s|
    decreases |s| - from
  {
    var k := IndexOf(s, needle, from);
    if k < 0 then [] else [k] + Occurrences(s, needle, k + |needle|)
  }

  /** One step of the scan: the first occurrence, then the occurrences after it. */
  lemma OccurrencesUnfold(s: string, needle: string, from: int)
    requires |needle| > 0
    requires 0 <= from <= |s|
    ensures var k := IndexOf(s, needle, from);
            && (k < 0 ==> Occurrences(s, needle, from) == [])
            && (k >= 0 ==> Occurrences(s, needle, from) == [k] + Occurrences(s, needle, k + |needle|))
  {
  }

  /** Every listed occurrence lies inside the text, at or after `from`. */
  lemma {:induction false} OccurrencesInBounds(s: string, needle: string, from: int, i: int)
    requires |needle| > 0
    requires 0 <= from <= |s|
    requires 0 <= i < |Occurrences(s, needle, from)|
    ensures from <= Occurrences(s, needle, from)[i]
    ensures Occurrences(s, needle, from)[i] + |needle| <= |s|
    decreases |s| - from
  {
    var k := IndexOf(s, needle, from);
    var rest := Occurrences(s, needle, k + |needle|);
    assert Occurrences(s, needle, from) == [k] + rest;
    if i > 0 {
      OccurrencesInBounds(s, needle, k + |needle|, i - 1);
      assert Occurrences(s, needle, from)[i] == rest[i - 1];
    } else {
      assert Occurrences(s, needle, from)[0] == k;
    }
  }

  /**
   * `ps` lists, from `from`, each leftmost occurrence that starts after the
   * previous one ends, and nothing matches after the last.
   */
  ghost predicate LeftmostChain(s: string, needle: string, from: int, ps: seq<int>)
    decreases |ps|
  {
    if |ps| == 0 then NoMatchFrom(s, needle, from)
    else
      && from <= ps[0]
      && MatchesAt(s, needle, ps[0])
      && NoMatchIn(s, needle, from, ps[0])
      && LeftmostChain(s, needle, ps[0] + |needle|, ps[1..])
  }

  lemma {:induction false} OccurrencesAreLeftmostChain(s: string, needle: string, from: int)
    requires |needle| > 0
    requires 0 <= from <= |s|
    ensures LeftmostChain(s, needle, from, Occurrences(s, needle, from))
    decreases |s| - from
  {
    var k := IndexOf(s, needle, from);
    IndexOfIsLeftmost(s, needle, from);
    if k >= 0 {
      var rest := Occurrences(s, needle, k + |needle|);
      assert Occurrences(s, needle, from) == [k] + rest;
      assert Occurrences(s, needle, from)[1..] == rest;
      OccurrencesAreLeftmostChain(s, needle, k + |needle|);
    }
  }

  /** The chain is unique: any leftmost chain is the list of occurrences. */
  lemma {:induction false} LeftmostChainIsOccurrences(s: string, needle: string, from: int, ps: seq<int>)
    requires |needle| > 0
    requires 0 <= from <= |s|
    requires LeftmostChain(s, needle, from, ps)
    ensures ps == Occurrences(s, needle, from)
    decreases |ps|
  {
    var k := IndexOf(s, needle, from);
    IndexOfIsLeftmost(s, needle, from);
    if |ps| == 0 {
      assert k == -1;
    } else {
      assert MatchesAt(s, needle, ps[0]);
      assert k == ps[0];
      LeftmostChainIsOccurrences(s, needle, ps[0] + |needle|, ps[1..]);
      assert ps == [ps[0]] + ps[1..];
    }
  }

  /** Consecutive occurrences do not overlap, so they strictly increase. */
  lemma {:induction false} OccurrencesIncrease(s: string, needle: string, from: int, j: int)
    requires |needle| > 0
    requires 0 <= from <= |s|
    requires 0 <= j < |Occurrences(s, needle, from)| - 1
    ensures Occurrences(s, needle, from)[j] + |needle| <= Occurrences(s, needle, from)[j + 1]
    decreases |s| - from
  {
    var k := IndexOf(s, needle, from);
    var rest := Occurrences(s, needle, k + |needle|);
    assert Occurrences(s, needle, from) == [k] + rest;
    if j > 0 {
      OccurrencesIncrease(s, needle, k + |needle|, j - 1);
    } else {
      assert k + |needle| <= rest[0];
    }
  }

  /* ---------------------------------------------------------------------
   * How the loop walks the occurrences
   * --------------------------------------------------------------------- */

  /** While occurrences remain, the k-th iteration finds the k-th of them. */
  lemma {:induction false} AdvanceAlongOccurrences(s: string, needle: string, k: nat, from: int)
    requires |needle| > 0
    requires 0 <= from <= |s|
    requires k < |Occurrences(s, needle, from)|
    ensures IndexOf(s, needle, Advance(s, needle, k, from)) == Occurrences(s, needle, from)[k]
    decreases k
  {
    var first := IndexOf(s, needle, from);
    OccurrencesUnfold(s, needle, from);
    assert first >= 0;
    var rest := Occurrences(s, needle, first + |needle|);
    if k > 0 {
      var here := Advance(s, needle, k, from);
      var there := Advance(s, needle, k - 1, first + |needle|);
      assert here == there;
      AdvanceAlongOccurrences(s, needle, k - 1, first + |needle|);
      calc {
        IndexOf(s, needle, here);
        IndexOf(s, needle, there);
        rest[k - 1];
        Occurrences(s, needle, from)[k];
      }
    } else {
      assert Occurrences(s, needle, from)[0] == first;
    }
  }

  /** Once the occurrences are used up, the next search misses. */
  lemma {:induction false} AdvancePastOccurrences(s: string, needle: string, from: int)
    requires |needle| > 0
    requires 0 <= from <= |s|
    ensures IndexOf(s, needle, Advance(s, needle, |Occurrences(s, needle, from)|, from)) == -1
    decreases |s| - from
  {
    var k := IndexOf(s, needle, from);
    OccurrencesUnfold(s, needle, from);
    var m := |Occurrences(s, needle, from)|;
    if k >= 0 {
      var rest := Occurrences(s, needle, k + |needle|);
      assert m == |rest| + 1;
      var here := Advance(s, needle, m, from);
      var there := Advance(s, needle, |rest|, k + |needle|);
      assert here == there;
      AdvancePastOccurrences(s, needle, k + |needle|);
      assert IndexOf(s, needle, there) == -1;
      assert IndexOf(s, needle, here) == -1;
    } else {
      assert m == 0;
      assert Advance(s, needle, m, from) == from;
      assert IndexOf(s, needle, Advance(s, needle, m, from)) == -1;
    }
  }

  lemma {:induction false} AdvanceSplit(s: string, needle: string, a: nat, b: nat, lastIndex: int)
    ensures Advance(s, needle, a + b, lastIndex) == Advance(s, needle, b, Advance(s, needle, a, lastIndex))
    decreases a
  {
    if a > 0 {
      var next := IndexOf(s, needle, lastIndex) + |needle|;
      assert Advance(s, needle, a + b, lastIndex) == Advance(s, needle, a - 1 + b, next);
      assert Advance(s, needle, a, lastIndex) == Advance(s, needle, a - 1, next);
      AdvanceSplit(s, needle, a - 1, b, next);
    }
  }

  /** For a count within the number of occurrences, the search finds that occurrence. */
  lemma NthOccurrence(s: string, t: string, count: int)
    requires |t| > 0
    requires 1 <= count <= |Occurrences(s, t, 0)|
    ensures var p := Occurrences(s, t, 0)[count - 1];
            Manipulate(s, Of(Occurence(count), t)) == Success(Span(p, p + |t|))
  {
    assert SearchLoop(s, t, count, 0, 0) == Occurrences(s, t, 0)[count - 1] by {
      SearchLoopIsFinalSearch(s, t, count, 0, 0);
      AdvanceAlongOccurrences(s, t, count - 1, 0);
    }
    ManipulateOf(s, t, count);
  }

  /** One past the number of occurrences, the final search misses and the span starts at -1. */
  lemma OneTooMany(s: string, t: string)
    requires |t| > 0
    ensures Manipulate(s, Of(Occurence(|Occurrences(s, t, 0)| + 1), t)) == Success(Span(-1, |t| - 1))
  {
    var count := |Occurrences(s, t, 0)| + 1;
    assert SearchLoop(s, t, count, 0, 0) == -1 by {
      SearchLoopIsFinalSearch(s, t, count, 0, 0);
      AdvancePastOccurrences(s, t, 0);
    }
    ManipulateOf(s, t, count);
  }

  /** After the miss at `m + 1` iterations, `lastIndex` is `|t| - 1` and the walk starts over from there. */
  lemma AdvanceAfterMiss(s: string, t: string, j: int)
    requires |t| > 0 && |t| - 1 <= |s|
    requires 1 <= j
    ensures Advance(s, t, |Occurrences(s, t, 0)| + j, 0) == Advance(s, t, j - 1, |t| - 1)
  {
    var m := |Occurrences(s, t, 0)|;
    var missAt := Advance(s, t, m, 0);
    AdvancePastOccurrences(s, t, 0);
    AdvanceSplit(s, t, m, j, 0);
    assert Advance(s, t, j, missAt) == Advance(s, t, j - 1, IndexOf(s, t, missAt) + |t|);
  }

  /**
   * Further past the number of occurrences, a miss leaves `lastIndex` at
   * `|t| - 1` and the search starts over from there: the span lands on an
   * occurrence again instead of reporting -1.
   */
  lemma RestartAfterMiss(s: string, t: string, j: int)
    requires |t| > 0 && |t| - 1 <= |s|
    requires 1 <= j <= |Occurrences(s, t, |t| - 1)|
    ensures var p := Occurrences(s, t, |t| - 1)[j - 1];
            Manipulate(s, Of(Occurence(|Occurrences(s, t, 0)| + 1 + j), t)) == Success(Span(p, p + |t|))
  {
    var count := |Occurrences(s, t, 0)| + 1 + j;
    var p := Occurrences(s, t, |t| - 1)[j - 1];
    assert SearchLoop(s, t, count, 0, 0) == p by {
      SearchLoopIsFinalSearch(s, t, count, 0, 0);
      AdvanceAfterMiss(s, t, j);
      AdvanceAlongOccurrences(s, t, j - 1, |t| - 1);
    }
    ManipulateOf(s, t, count);
  }

  /**
   * The restarted walk misses again one count later, so the span starts at
   * -1 once more.
   */
  lemma MissAgainAfterRestart(s: string, t: string)
    requires |t| > 0 && |t| - 1 <= |s|
    ensures var count := |Occurrences(s, t, 0)| + 2 + |Occurrences(s, t, |t| - 1)|;
            Manipulate(s, Of(Occurence(count), t)) == Success(Span(-1, |t| - 1))
  {
    var j := |Occurrences(s, t, |t| - 1)| + 1;
    var count := |Occurrences(s, t, 0)| + 1 + j;
    assert SearchLoop(s, t, count, 0, 0) == -1 by {
      SearchLoopIsFinalSearch(s, t, count, 0, 0);
      AdvanceAfterMiss(s, t, j);
      AdvancePastOccurrences(s, t, |t| - 1);
    }
    ManipulateOf(s, t, count);
  }

  /** `"ababab"`, `"ab"`, occurrence 2 is the span `[2, 4)`. */
  lemma SecondOfThree()
    ensures Manipulate("ababab", Of(Occurence(2), "ab")) == Success(Span(2, 4))
  {
  }

  /** `"abab"` holds two occurrences of `"ab"`, yet occurrence 4 is reported at `[2, 4)`. */
  lemma FourthOfTwo()
    ensures Manipulate("abab", Of(Occurence(4), "ab")) == Success(Span(2, 4))
  {
    assert IndexOf("abab", "ab", 0) == 0;
    assert IndexOf("abab", "ab", 2) == 2;
    assert IndexOf("abab", "ab", 4) == -1;
    assert "abab"[1..3][0] == 'b';
    assert Scan("abab", "ab", 2) == 2;
    assert IndexOf("abab", "ab", 1) == 2;
    SearchLoopIsFinalSearch("abab", "ab", 4, 0, 0);
  }
}
