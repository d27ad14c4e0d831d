# JTextComponentDriver: occurrence search and caret gestures

A Dafny model of the text-location and caret logic of windowlicker's
`JTextComponentDriver`, the test driver for Swing text components.

- `JavaString` models `String.indexOf(String, int)` with the JDK's edge cases:
  a negative `fromIndex` counts as 0, a `fromIndex` at or past the end answers
  `|s|` for the empty needle and -1 otherwise, and the empty needle is found at
  `fromIndex` itself. Its own contract only bounds the answer. The lemma
  `IndexOfIsLeftmost` states that the answer is the leftmost match, and that -1
  means there is no match.
- `TextSearch` models `occurence(n).of(text)` (`TextOccurence`) and
  `TextSearch.manipulate`, the loop that finds the `n`-th occurrence and yields
  the span `[start, end)`. The loop is kept exactly as written. After a miss
  that is not the last iteration, `lastIndex` becomes `-1 + |text|`, and the
  next search starts again near the front of the text. A text that was never
  set (`occurence(n)` without `.of`) is null, and the search then throws a
  NullPointerException, modelled as `Failure(NullPointer)`. The reference
  `Occurrences` lists the non-overlapping occurrences from left to right.
  `LeftmostChain` characterises that list without `indexOf`, and the lemmas
  connect the loop to it.
- `TextEditor` is an abstract text component. It holds the text, the caret
  and the selection anchor. RIGHT and LEFT move the caret one place and stop
  at either end of the text. With shift held the anchor stays where it is;
  without shift the selection collapses onto the caret. A typed character
  replaces the selection. A click puts the caret at an offset and clears the
  selection.
- `TextComponentDriver` models `moveCaretTo` as the list of arrow presses it
  performs. `selectText` is modelled as: click, search, move the caret to the
  start, then press shift+RIGHT `end - start` times. `replaceText` is
  `selectText` followed by typing the replacement.

For a count larger than the number of occurrences, the code still gives a
defined result, and the model follows it. The span starts at -1 only when the
final search misses (`OneTooMany`). Otherwise the search starts over from
`|text| - 1` and lands on an occurrence again (`RestartAfterMiss`,
`FourthOfTwo`). One count after the restarted walk runs out, the search misses
again (`MissAgainAfterRestart`). In the driver, a miss selects the first
`|text|` characters (`MissSelectsPrefix`).

## Model

| member | source | states |
|---|---|---|
| JavaString.IndexOf | java/com/objogate/wl/driver/JTextComponentDriver.java:188 | the answer is -1 or an offset whose match fits inside the text; for a non-empty needle it is at or after `max(fromIndex, 0)`; for the empty needle it is `min(max(fromIndex, 0), |s|)`, never -1 |
| JavaString.IndexOfIsLeftmost | java/com/objogate/wl/driver/JTextComponentDriver.java:188 | a non-negative answer is a match with no match between the start offset and it; for a non-empty needle, -1 is returned exactly when nothing matches at or after `max(fromIndex, 0)` |
| TextSearch.Occurence | java/com/objogate/wl/driver/JTextComponentDriver.java:161-163 | `occurence(n)` keeps the count `n` and leaves the text null |
| TextSearch.Of | java/com/objogate/wl/driver/JTextComponentDriver.java:216-219 | `of(t)` sets the text to `t` and keeps the count |
| TextSearch.SearchLoop | java/com/objogate/wl/driver/JTextComponentDriver.java:187-193 | when the loop runs at least once, its result is -1 or an offset whose needle fits inside the text |
| TextSearch.OccurenceOf | java/com/objogate/wl/driver/JTextComponentDriver.java:161-163 | `occurence(n).of(t)` has count `n` and text `t` |
| TextSearch.OfLastWins | java/com/objogate/wl/driver/JTextComponentDriver.java:216-219 | `of` overwrites the text and keeps the count, so a second `of` replaces the first |
| TextSearch.Manipulate | java/com/objogate/wl/driver/JTextComponentDriver.java:184-197 | a null text fails and nothing else does; `end - start == |text|` always; a count of 0 or less gives `[0, |text|)`; with a positive count, the span either starts at -1 or covers a copy of the needle inside the text |
| TextSearch.SearchLoopIsFinalSearch | java/com/objogate/wl/driver/JTextComponentDriver.java:186-193 | the loop's result is the `indexOf` of its last iteration, started from where the non-final iterations left `lastIndex` |
| TextSearch.FirstOccurrence | java/com/objogate/wl/driver/JTextComponentDriver.java:186-190 | with count 1 the start is the first index of the needle, and it is -1 exactly when the needle does not occur |
| TextSearch.EmptyNeedle | java/com/objogate/wl/driver/JTextComponentDriver.java:186-196 | an empty needle gives the span `[0, 0)` for every positive count |
| TextSearch.OccurrencesAreLeftmostChain | java/com/objogate/wl/driver/JTextComponentDriver.java:187-192 | the occurrence list is a leftmost chain: each entry is a match, nothing matches between the previous entry's end and it, and nothing matches after the last one |
| TextSearch.LeftmostChainIsOccurrences | java/com/objogate/wl/driver/JTextComponentDriver.java:187-192 | every leftmost chain equals the occurrence list, so the list is uniquely determined |
| TextSearch.OccurrencesIncrease | java/com/objogate/wl/driver/JTextComponentDriver.java:191-192 | consecutive occurrences do not overlap: each starts at or after the previous one's end |
| TextSearch.OccurrencesInBounds | java/com/objogate/wl/driver/JTextComponentDriver.java:187-192 | every listed occurrence starts at or after the scan's start and ends inside the text |
| TextSearch.AdvanceAlongOccurrences | java/com/objogate/wl/driver/JTextComponentDriver.java:187-192 | while occurrences remain, the k-th search of the loop finds the k-th occurrence |
| TextSearch.AdvancePastOccurrences | java/com/objogate/wl/driver/JTextComponentDriver.java:187-192 | once the occurrences are used up, the next search misses |
| TextSearch.AdvanceSplit | java/com/objogate/wl/driver/JTextComponentDriver.java:187-192 | `a + b` non-final iterations are `a` iterations followed by `b` more |
| TextSearch.AdvanceAfterMiss | java/com/objogate/wl/driver/JTextComponentDriver.java:188-192 | after the miss, `lastIndex` is `|t| - 1` and the remaining iterations continue from there |
| TextSearch.NthOccurrence | java/com/objogate/wl/driver/JTextComponentDriver.java:184-197 | for a non-empty needle and `1 <= count <= ` the number of occurrences, the span is the `count`-th non-overlapping occurrence |
| TextSearch.OneTooMany | java/com/objogate/wl/driver/JTextComponentDriver.java:188-196 | one occurrence past the last gives the span `[-1, |t| - 1)` |
| TextSearch.RestartAfterMiss | java/com/objogate/wl/driver/JTextComponentDriver.java:187-196 | for counts `m + 1 + j`, with `m` the number of occurrences and `j` from 1 up to the number of occurrences found from offset `|t| - 1`, the span is the `j`-th occurrence found from `|t| - 1` |
| TextSearch.MissAgainAfterRestart | java/com/objogate/wl/driver/JTextComponentDriver.java:187-196 | the count one past that range gives the span `[-1, |t| - 1)` again |
| TextSearch.SecondOfThree | java/com/objogate/wl/driver/JTextComponentDriver.java:184-197 | `"ababab"`, `"ab"`, occurrence 2 is `[2, 4)` |
| TextSearch.FourthOfTwo | java/com/objogate/wl/driver/JTextComponentDriver.java:184-197 | `"abab"`, `"ab"`, occurrence 4 is `[2, 4)` although only two occurrences exist |
| TextEditor.Click | java/com/objogate/wl/driver/JTextComponentDriver.java:126-127 | a click leaves the text alone and puts both caret and anchor at the clicked offset |
| TextEditor.RepeatRight | java/com/objogate/wl/driver/JTextComponentDriver.java:137-139 | `n` RIGHT presses move the caret to `min(caret + n, |text|)` without changing the text; with shift the anchor stays put |
| TextEditor.RepeatLeft | java/com/objogate/wl/driver/JTextComponentDriver.java:151 | `n` LEFT presses move the caret to `max(caret - n, 0)` without changing the text |
| TextEditor.TypingReplacesSelection | java/com/objogate/wl/driver/JTextComponentDriver.java:99-101 | typing a non-empty string replaces the selection with it and puts the caret right after it; typing nothing changes nothing |
| TextComponentDriver.MoveCaretTo | java/com/objogate/wl/driver/JTextComponentDriver.java:144-153 | RIGHT is pressed exactly `target - current` times when `current < target`; otherwise LEFT is pressed exactly `current - target` times, which is none when they are equal |
| TextComponentDriver.MoveCaretToReachesTarget | java/com/objogate/wl/driver/JTextComponentDriver.java:144-153 | the caret ends at `target` when it lies within the text, and at the nearer end otherwise; the text is unchanged |
| TextComponentDriver.SelectText | java/com/objogate/wl/driver/JTextComponentDriver.java:125-142 | fails exactly when the text is null; otherwise the text is unchanged and the selection runs from the span's start to `|text|` places further, kept inside the text; when the search hits, the selection is `[start, end)` and the selected text is the needle |
| TextComponentDriver.ReplaceText | java/com/objogate/wl/driver/JTextComponentDriver.java:119-123 | the selected span is replaced by the replacement and the caret is left after it; an empty replacement leaves the selection in place |
| TextComponentDriver.SelectNthOccurrence | java/com/objogate/wl/driver/JTextComponentDriver.java:125-142 | selecting occurrence `count` selects exactly the `count`-th non-overlapping occurrence |
| TextComponentDriver.ReplaceNthOccurrence | java/com/objogate/wl/driver/JTextComponentDriver.java:119-142 | replacing occurrence `count` splices the replacement into the text in place of the `count`-th occurrence |
| TextComponentDriver.MissSelectsPrefix | java/com/objogate/wl/driver/JTextComponentDriver.java:131-139 | one occurrence too many does not fail: it selects the first `min(|t|, |text|)` characters |
| TextComponentDriver.NullTextFails | java/com/objogate/wl/driver/JTextComponentDriver.java:184-196 | without `.of(text)`, selecting and replacing fail with a NullPointerException |
| TextComponentDriver.MoveTwoToFive | java/com/objogate/wl/driver/JTextComponentDriver.java:146-149 | moving the caret from 2 to 5 presses RIGHT three times |

## Left out

- The Swing property queries and matcher assertions (`text`, `hasText`, `hasSelectedText`, `selectionStartsAt`, `selectionEndsAt`, lines 46-88) are thin pass-throughs to the prober and Hamcrest.
- `replaceAllText`, `selectAll`, `cut`, `copy` and `paste` (lines 90-117) only delegate to the gesture framework and the superclass, which is not part of this model.
- `moveMouseToCenter` and `waitUntilGesturesCompleted`: event injection and event-queue synchronisation. The click is modelled by the offset it lands on, which is an input.
- `getCaretPosition` and `CarentPositionManipulation` (lines 155-159, 247-257) only read the caret. The model reads the caret field of the editor state.
- `TextWidthManipulation` (lines 222-245) needs font metrics and wraps `BadLocationException`; both are calls into the toolkit.
- The constructors and the `ComponentDriver` / `JTextFieldDriver` type relationships: those classes are not part of this model.
- TextComponentDriver.MoveCaretTo: offsets are unbounded integers here, not 32-bit Java `int`s. `currentPosition - targetPosition` at lines 148-151 wraps in Java when the target lies within `currentPosition` of `Integer.MIN_VALUE`. For such a target the contract promises `current - target` LEFT presses, which Java would not compute. `selectText` only passes targets `>= -1`, where nothing wraps.
- JavaString.IndexOf: `string` stands for a sequence of UTF-16 code units. Dafny's `char` is a Unicode scalar value, so offsets, lengths and press counts agree with Java only on text without supplementary characters, and a lone surrogate cannot be written.
- TextSearch.Of: Java's `of` changes the receiver in place and returns `this`. The model returns an updated copy, so a caller that ignores the result and reuses the old descriptor sees a null text here, where Java would see the new one.
- TextComponentDriver.SelectText: a failed search returns only the exception. The click that already happened before it is not reported.
- TextEditor.Press: Swing's own keymap is abstracted. Its visual-position rules, bidirectional text, and actions bound to particular characters (such as Enter in a text field) are not modelled. An unshifted arrow collapses the selection onto the moved caret.
