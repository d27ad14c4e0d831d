/**
 * An abstract text component as the driver's key gestures see it: the text,
 * the caret and the selection anchor (Swing's dot and mark). Arrow keys move
 * the caret one place and stop at either end; with shift held the anchor
 * stays, without it the selection collapses onto the caret. A typed
 * character replaces the selection.
 */
module TextEditor {
  import opened Offsets

  datatype Direction = Left | Right

  /** One key gesture: an arrow key, possibly with shift held, or a typed character. */
  datatype Stroke = Arrow(dir: Direction, shift: bool) | Key(c: char)

  datatype Editor = Editor(text: string, caret: int, anchor: int) {

    ghost predicate Valid() {
      0 <= caret <= |text| && 0 <= anchor <= |text|
    }

    function SelStart(): int {
      Min(caret, anchor)
    }

    function SelEnd(): int {
      Max(caret, anchor)
    }

    function Selected(): string
      requires Valid()
    {
      text[SelStart()..SelEnd()]
    }
  }

  /** A left mouse click at `offset`: the caret goes there and the selection is cleared. */
  function Click(e: Editor, offset: int): (r: Editor)
    requires 0 <= offset <= |e.text|
    ensures r.Valid() && r.text == e.text
    ensures r.caret == r.anchor == offset
  {
    Editor(e.text, offset, offset)
  }

  /** The component's response to one stroke. */
  function Press(e: Editor, k: Stroke): (r: Editor)
    requires e.Valid()
    ensures r.Valid()
  {
    match k
    case Arrow(Left, shift) =>
      var c := Max(e.caret - 1, 0);
      Editor(e.text, c, if shift then e.anchor else c)
    case Arrow(Right, shift) =>
      var c := Min(e.caret + 1, |e.text|);
      Editor(e.text, c, if shift then e.anchor else c)
    case Key(ch) =>
      var lo := e.SelStart();
      Editor(e.text[..lo] + [ch] + e.text[e.SelEnd()..], lo + 1, lo + 1)
  }

  /** The strokes of a gesture, in order. */
  function PressAll(e: Editor, ks: seq<Stroke>): (r: Editor)
    requires e.Valid()
    ensures r.Valid()
    decreases |ks|
  {
    if |ks| == 0 then e else PressAll(Press(e, ks[0]), ks[1..])
  }

  /** `Gestures.repeat(n, gesture)`. */
  function Repeat(n: nat, k: Stroke): (ks: seq<Stroke>)
    ensures |ks| == n
    ensures forall i :: 0 <= i < n ==> ks[i] == k
  {
    seq(n, _ => k)
  }

  /** `Gestures.type(text)`: one typed key per character. */
  function Typing(t: string): (ks: seq<Stroke>)
    ensures |ks| == |t|
    ensures forall i :: 0 <= i < |t| ==> ks[i] == Key(t[i])
  {
    seq(|t|, i requires 0 <= i < |t| => Key(t[i]))
  }

  /** `n` right arrows move the caret `n` places, stopping at the end; the text is untouched. */
  lemma {:induction false} RepeatRight(e: Editor, n: nat, shift: bool)
    requires e.Valid()
    ensures var r := PressAll(e, Repeat(n, Arrow(Right, shift)));
            && r.text == e.text
            && r.caret == Min(e.caret + n, |e.text|)
            && r.anchor == (if shift || n == 0 then e.anchor else r.caret)
    decreases n
  {
    if n > 0 {
      var e1 := Press(e, Arrow(Right, shift));
      assert Repeat(n, Arrow(Right, shift))[1..] == Repeat(n - 1, Arrow(Right, shift));
      RepeatRight(e1, n - 1, shift);
    }
  }

  /** `n` left arrows move the caret `n` places back, stopping at 0; the text is untouched. */
  lemma {:induction false} RepeatLeft(e: Editor, n: nat, shift: bool)
    requires e.Valid()
    ensures var r := PressAll(e, Repeat(n, Arrow(Left, shift)));
            && r.text == e.text
            && r.caret == Max(e.caret - n, 0)
            && r.anchor == (if shift || n == 0 then e.anchor else r.caret)
    decreases n
  {
    if n > 0 {
      var e1 := Press(e, Arrow(Left, shift));
      assert Repeat(n, Arrow(Left, shift))[1..] == Repeat(n - 1, Arrow(Left, shift));
      RepeatLeft(e1, n - 1, shift);
    }
  }

  /**
   * Typing a non-empty `t` replaces the selection with `t` and leaves the
   * caret just after it; typing nothing changes nothing.
   */
  lemma {:induction false} TypingReplacesSelection(e: Editor, t: string)
    requires e.Valid()
    ensures var r := PressAll(e, Typing(t));
            (|t| > 0 || e.SelStart() == e.SelEnd()) ==>
              && r.text == e.text[..e.SelStart()] + t + e.text[e.SelEnd()..]
              && r.caret == r.anchor == e.SelStart() + |t|
    ensures |t| == 0 ==> PressAll(e, Typing(t)) == e
    decreases |t|
  {
    if |t| == 0 {
      assert e.text[..e.SelStart()] + e.text[e.SelStart()..] == e.text;
    } else {
      var e1 := Press(e, Key(t[0]));
      assert Typing(t)[1..] == Typing(t[1..]);
      TypingReplacesSelection(e1, t[1..]);
      var lo := e.SelStart();
      assert e1.text[..lo + 1] == e.text[..lo] + [t[0]];
      assert e1.text[lo + 1..] == e.text[e.SelEnd()..];
      assert e.text[..lo] + [t[0]] + t[1..] == e.text[..lo] + t;
    }
  }
}
