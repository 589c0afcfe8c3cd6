/** keyProcessing: what a keydown on the text input does to the children and
    to the input's text. Enter turns the text into a tag; Delete, Backspace,
    Left and Right act on the input's neighbours, but only while the text
    would not make a valid tag. */
module Keyboard {
  import opened Nodes
  import opened Edits

  const ENTER := 13
  const DELETE := 46
  const BACK_SPACE := 8
  const LEFT := 37
  const RIGHT := 39

  /** runIfValEmpty: the edited children when the text fails the validity
      check (so a text such as " x" counts as empty), the old ones otherwise.
      The edits are pure, so passing the edit's result stands for passing
      the callback. */
  function RunIfValEmpty(val: string, cs: seq<Node>, edited: seq<Node>): seq<Node> {
    if !IsValValid(Str(val)) then edited else cs
  }

  /** The children and the input's text after a keydown with the given key
      code, from the children and the text before it. */
  function KeyTransition(cs: seq<Node>, val: string, key: int): (seq<Node>, string) {
    if key == ENTER then (AddItem(cs, Str(val)), "")
    else if key == DELETE then (RunIfValEmpty(val, cs, RemoveAfterInput(cs)), val)
    else if key == BACK_SPACE then (RunIfValEmpty(val, cs, RemoveBeforeInput(cs)), val)
    else if key == LEFT then (RunIfValEmpty(val, cs, MoveInputLeft(cs)), val)
    else if key == RIGHT then (RunIfValEmpty(val, cs, MoveInputRight(cs)), val)
    else (cs, val)
  }

  /** What each handled key does, one key at a time. */
  lemma KeyCase(cs: seq<Node>, val: string)
    ensures KeyTransition(cs, val, ENTER) == (AddItem(cs, Str(val)), "")
    ensures KeyTransition(cs, val, DELETE) == (RunIfValEmpty(val, cs, RemoveAfterInput(cs)), val)
    ensures KeyTransition(cs, val, BACK_SPACE) == (RunIfValEmpty(val, cs, RemoveBeforeInput(cs)), val)
    ensures KeyTransition(cs, val, LEFT) == (RunIfValEmpty(val, cs, MoveInputLeft(cs)), val)
    ensures KeyTransition(cs, val, RIGHT) == (RunIfValEmpty(val, cs, MoveInputRight(cs)), val)
  {
  }

  /** Enter offers the text to addItem and always clears the text. */
  lemma EnterAddsAndClears(cs: seq<Node>, val: string)
    requires Input in cs
    ensures var after, c := KeyTransition(cs, val, ENTER), InputIndex(cs);
            && after.1 == ""
            && after.0 == if IsValValid(Str(val)) && val !in Labels(cs) then cs[..c] + [Tag(val, false)] + cs[c..] else cs
  {
    KeyCase(cs, val);
    AddItemAt(cs, Str(val));
  }

  /** Delete with an "empty" text drops the child right after the input. */
  lemma DeleteRemovesNext(cs: seq<Node>, val: string)
    requires Input in cs && !IsValValid(Str(val))
    ensures var after, c := KeyTransition(cs, val, DELETE), InputIndex(cs);
            after.1 == val && after.0 == if c + 1 < |cs| then cs[..c + 1] + cs[c + 2..] else cs
  {
    KeyCase(cs, val);
    RemoveAfterInputAt(cs);
  }

  /** Backspace with an "empty" text drops the child right before the input. */
  lemma BackspaceRemovesPrevious(cs: seq<Node>, val: string)
    requires Input in cs && !IsValValid(Str(val))
    ensures var after, c := KeyTransition(cs, val, BACK_SPACE), InputIndex(cs);
            after.1 == val && after.0 == if c > 0 then cs[..c - 1] + cs[c..] else cs
  {
    KeyCase(cs, val);
    RemoveBeforeInputAt(cs);
  }

  /** Left with an "empty" text swaps the input with its previous sibling,
      keeping the tags (labels and flags) in order. */
  lemma LeftSwapsWithPrevious(cs: seq<Node>, val: string)
    requires Input in cs && InputCount(cs) == 1 && !IsValValid(Str(val))
    ensures var after, c := KeyTransition(cs, val, LEFT), InputIndex(cs);
            && after.1 == val && Tags(after.0) == Tags(cs)
            && after.0 == if c > 0 then cs[..c - 1] + [Input, cs[c - 1]] + cs[c + 1..] else cs
  {
    KeyCase(cs, val);
    MoveInputLeftAt(cs);
    MoveInputLeftKeepsTags(cs);
  }

  /** Right with an "empty" text swaps the input with its next sibling,
      keeping the tags (labels and flags) in order. */
  lemma RightSwapsWithNext(cs: seq<Node>, val: string)
    requires Input in cs && InputCount(cs) == 1 && !IsValValid(Str(val))
    ensures var after, c := KeyTransition(cs, val, RIGHT), InputIndex(cs);
            && after.1 == val && Tags(after.0) == Tags(cs)
            && after.0 == if c + 1 < |cs| then cs[..c] + [cs[c + 1], Input] + cs[c + 2..] else cs
  {
    KeyCase(cs, val);
    MoveInputRightAt(cs);
    MoveInputRightKeepsTags(cs);
  }

  /** While the text would make a valid tag, only Enter does anything, and
      keys other than the five handled ones never do anything. */
  lemma OnlyEnterWhileTyping(cs: seq<Node>, val: string, key: int)
    requires key != ENTER
    requires IsValValid(Str(val)) || key !in {DELETE, BACK_SPACE, LEFT, RIGHT}
    ensures KeyTransition(cs, val, key) == (cs, val)
  {
  }

  /** Every keydown keeps the container invariant. */
  lemma KeyTransitionKeepsWellFormed(cs: seq<Node>, val: string, key: int)
    requires WellFormed(cs)
    ensures WellFormed(KeyTransition(cs, val, key).0)
  {
    KeyCase(cs, val);
    if !IsValValid(Str(val)) {
      if key == DELETE {
        RemoveAfterInputKeepsWellFormed(cs);
      } else if key == BACK_SPACE {
        RemoveBeforeInputKeepsWellFormed(cs);
      } else if key == LEFT {
        MoveInputLeftKeepsTags(cs);
        MoveInputLeftIndex(cs);
      } else if key == RIGHT {
        MoveInputRightKeepsTags(cs);
        MoveInputRightIndex(cs);
      }
    }
    if key == ENTER {
      AddItemKeepsWellFormed(cs, Str(val));
    }
  }

  /** Left then Right with an "empty" text leaves the children as they were
      when the input had a previous sibling. */
  lemma LeftThenRight(cs: seq<Node>, val: string)
    requires Input in cs && !IsValValid(Str(val)) && InputIndex(cs) > 0
    ensures var after := KeyTransition(cs, val, LEFT); KeyTransition(after.0, after.1, RIGHT) == (cs, val)
  {
    KeyCase(cs, val);
    KeyCase(MoveInputLeft(cs), val);
    MoveLeftThenRight(cs);
  }

  /** Right then Left with an "empty" text leaves the children as they were
      when the input had a next sibling. */
  lemma RightThenLeft(cs: seq<Node>, val: string)
    requires Input in cs && InputCount(cs) == 1 && !IsValValid(Str(val)) && InputIndex(cs) + 1 < |cs|
    ensures var after := KeyTransition(cs, val, RIGHT); KeyTransition(after.0, after.1, LEFT) == (cs, val)
  {
    KeyCase(cs, val);
    KeyCase(MoveInputRight(cs), val);
    MoveRightThenLeft(cs);
  }
}
