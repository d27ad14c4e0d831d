/**
 * The gestures of JTextComponentDriver that place the caret and select or
 * replace an occurrence of a literal, composed over the abstract editor.
 * The caret position the driver reads back from the component and the
 * offset the mouse click lands on are inputs.
 */
module TextComponentDriver {
  import opened Wrappers
  import opened Offsets
  import opened JavaString
  import opened TextSearch
  import opened TextEditor

  /** `moveCaretTo(target)` with the caret at `current`: the arrow presses it performs. */
  function MoveCaretTo(current: int, target: int): (ks: seq<Stroke>)
    ensures current < target ==>
              |ks| == target - current && forall i :: 0 <= i < |ks| ==> ks[i] == Arrow(Right, false)
    ensures target <= current ==>
              |ks| == current - target && forall i :: 0 <= i < |ks| ==> ks[i] == Arrow(Left, false)
  {
    if current < target then Repeat(target - current, Arrow(Right, false))
    else Repeat(current - target, Arrow(Left, false))
  }

  /**
   * After `moveCaretTo(target)` the caret is at `target`, or at the nearer
   * end of the text when `target` lies outside it; the text is untouched and
   * any key pressed collapses the selection.
   */
  lemma MoveCaretToReachesTarget(e: Editor, target: int)
    requires e.Valid()
    ensures var r := PressAll(e, MoveCaretTo(e.caret, target));
            && r.text == e.text
            && r.caret == Clamp(target, 0, |e.text|)
            && (target != e.caret || e.anchor == e.caret ==> r.anchor == r.caret)
  {
    var r := PressAll(e, MoveCaretTo(e.caret, target));
    if e.caret < target {
      assert r.text == e.text && r.caret == Min(target, |e.text|) && r.anchor == r.caret by {
        assert MoveCaretTo(e.caret, target) == Repeat(target - e.caret, Arrow(Right, false));
        RepeatRight(e, target - e.caret, false);
      }
    } else {
      assert r.text == e.text && r.caret == Max(target, 0) by {
        assert MoveCaretTo(e.caret, target) == Repeat(e.caret - target, Arrow(Left, false));
        RepeatLeft(e, e.caret - target, false);
      }
      assert target != e.caret || e.anchor == e.caret ==> r.anchor == r.caret by {
        assert MoveCaretTo(e.caret, target) == Repeat(e.caret - target, Arrow(Left, false));
        RepeatLeft(e, e.caret - target, false);
      }
    }
  }

  /**
   * `selectText(occurrence)`: click at `clickOffset`, locate the span, move
   * the caret to its start, then press shift+RIGHT once per character of the
   * span. The anchor ends at the span's start and the caret `|text|` places
   * further on, both kept inside the text.
   */
  function SelectText(e: Editor, clickOffset: int, o: TextOccurence): (r: Result<Editor, Fault>)
    requires e.Valid()
    requires 0 <= clickOffset <= |e.text|
    ensures r.Failure? <==> o.text.None?
    ensures r.Success? ==>
              var a := Clamp(Manipulate(e.text, o).value.start, 0, |e.text|);
              && r.value.Valid()
              && r.value.text == e.text
              && r.value.anchor == a
              && r.value.caret == Min(a + |o.text.value|, |e.text|)
    ensures r.Success? && o.count >= 1 && Manipulate(e.text, o).value.start >= 0 ==>
              var span := Manipulate(e.text, o).value;
              && r.value.anchor == span.start
              && r.value.caret == span.end
              && r.value.Selected() == o.text.value
  {
    var clicked := Click(e, clickOffset);
    match Manipulate(clicked.text, o)
    case Failure(f) => Failure(f)
    case Success(span) =>
      var moved := PressAll(clicked, MoveCaretTo(clicked.caret, span.start));
      MoveCaretToReachesTarget(clicked, span.start);
      RepeatRight(moved, span.end - span.start, true);
      Success(PressAll(moved, Repeat(span.end - span.start, Arrow(Right, true))))
  }

  /**
   * `replaceText(occurrence, replacement)`: select the occurrence, then type
   * the replacement over the selection.
   */
  function ReplaceText(e: Editor, clickOffset: int, o: TextOccurence, replacement: string): (r: Result<Editor, Fault>)
    requires e.Valid()
    requires 0 <= clickOffset <= |e.text|
    ensures r.Failure? <==> o.text.None?
    ensures r.Success? && |replacement| > 0 ==>
              var a := Clamp(Manipulate(e.text, o).value.start, 0, |e.text|);
              var b := Min(a + |o.text.value|, |e.text|);
              && r.value.text == e.text[..a] + replacement + e.text[b..]
              && r.value.caret == r.value.anchor == a + |replacement|
    ensures r.Success? && |replacement| == 0 ==> r == SelectText(e, clickOffset, o)
  {
    match SelectText(e, clickOffset, o)
    case Failure(f) => Failure(f)
    case Success(selected) =>
      TypingReplacesSelection(selected, replacement);
      Success(PressAll(selected, Typing(replacement)))
  }

  /** Selecting occurrence `count` of `t` selects exactly the `count`-th non-overlapping occurrence. */
  lemma SelectNthOccurrence(e: Editor, clickOffset: int, t: string, count: int)
    requires e.Valid()
    requires 0 <= clickOffset <= |e.text|
    requires |t| > 0
    requires 1 <= count <= |Occurrences(e.text, t, 0)|
    ensures var p := Occurrences(e.text, t, 0)[count - 1];
            var r := SelectText(e, clickOffset, Of(Occurence(count), t));
            && r.Success?
            && r.value.anchor == p
            && r.value.caret == p + |t|
            && r.value.Selected() == t
  {
    OccurrencesInBounds(e.text, t, 0, count - 1);
    NthOccurrence(e.text, t, count);
  }

  /** Replacing occurrence `count` of `t` splices the replacement in place of that occurrence. */
  lemma ReplaceNthOccurrence(e: Editor, clickOffset: int, t: string, count: int, replacement: string)
    requires e.Valid()
    requires 0 <= clickOffset <= |e.text|
    requires |t| > 0 && |replacement| > 0
    requires 1 <= count <= |Occurrences(e.text, t, 0)|
    ensures 0 <= Occurrences(e.text, t, 0)[count - 1] <= Occurrences(e.text, t, 0)[count - 1] + |t| <= |e.text|
    ensures var p := Occurrences(e.text, t, 0)[count - 1];
            var r := ReplaceText(e, clickOffset, Of(Occurence(count), t), replacement);
            && r.Success?
            && r.value.text == e.text[..p] + replacement + e.text[p + |t|..]
            && r.value.caret == p + |replacement|
  {
    OccurrencesInBounds(e.text, t, 0, count - 1);
    NthOccurrence(e.text, t, count);
  }

  /**
   * Asking for one occurrence more than the text holds does not fail: the
   * caret is driven to offset 0 and the first `|t|` characters (or the whole
   * text, if shorter) are selected.
   */
  lemma MissSelectsPrefix(e: Editor, clickOffset: int, t: string)
    requires e.Valid()
    requires 0 <= clickOffset <= |e.text|
    requires |t| > 0
    ensures var r := SelectText(e, clickOffset, Of(Occurence(|Occurrences(e.text, t, 0)| + 1), t));
            && r.Success?
            && r.value.anchor == 0
            && r.value.caret == Min(|t|, |e.text|)
            && r.value.Selected() == e.text[..Min(|t|, |e.text|)]
  {
    OneTooMany(e.text, t);
  }

  /** A null text fails after the click and before any arrow press, whatever the count. */
  lemma NullTextFails(e: Editor, clickOffset: int, count: int, replacement: string)
    requires e.Valid()
    requires 0 <= clickOffset <= |e.text|
    ensures SelectText(e, clickOffset, Occurence(count)) == Failure(NullPointer)
    ensures ReplaceText(e, clickOffset, Occurence(count), replacement) == Failure(NullPointer)
  {
  }

  /** Moving the caret from 2 to 5 presses RIGHT three times. */
  lemma MoveTwoToFive()
    ensures MoveCaretTo(2, 5) == [Arrow(Right, false), Arrow(Right, false), Arrow(Right, false)]
  {
  }
}
