/** The edits the widget makes to its container's children: the DOM calls
    `before`, `remove`, `insertBefore`/`insertAfter` and `addClass`/
    `removeClass` as the widget's operations use them, each as a function of
    the old child sequence, with lemmas that say where each edit acts and
    that it keeps the container invariant. */
module Edits {
  import opened Nodes

  /** `$(input).before(tag)`: the new node goes immediately before the input. */
  function InsertBeforeInput(cs: seq<Node>, t: Node): seq<Node> {
    if cs == [] then []
    else if cs[0] == Input then [t] + cs
    else [cs[0]] + InsertBeforeInput(cs[1..], t)
  }

  /** `$(input).next().remove()`: drop the sibling after the input, if any. */
  function RemoveAfterInput(cs: seq<Node>): seq<Node> {
    if cs == [] then []
    else if cs[0] == Input then (if |cs| >= 2 then [Input] + cs[2..] else cs)
    else [cs[0]] + RemoveAfterInput(cs[1..])
  }

  /** `$(input).prev().remove()`: drop the sibling before the input, if any. */
  function RemoveBeforeInput(cs: seq<Node>): seq<Node> {
    if cs == [] then []
    else if cs[0] == Input then cs
    else if |cs| >= 2 && cs[1] == Input then cs[1..]
    else [cs[0]] + RemoveBeforeInput(cs[1..])
  }

  /** `input.insertBefore(input.prev())`: swap the input with its previous
      sibling; nothing happens when it has none. */
  function MoveInputLeft(cs: seq<Node>): seq<Node> {
    if cs == [] then []
    else if cs[0] == Input then cs
    else if |cs| >= 2 && cs[1] == Input then [Input, cs[0]] + cs[2..]
    else [cs[0]] + MoveInputLeft(cs[1..])
  }

  /** `input.insertAfter(input.next())`: swap the input with its next
      sibling; nothing happens when it has none. */
  function MoveInputRight(cs: seq<Node>): seq<Node> {
    if cs == [] then []
    else if cs[0] == Input then (if |cs| >= 2 then [cs[1], Input] + cs[2..] else cs)
    else [cs[0]] + MoveInputRight(cs[1..])
  }

  /** Drop the n-th tag, counting tags only; nothing is dropped when there
      are at most n tags. */
  function RemoveNthTag(cs: seq<Node>, n: nat): seq<Node> {
    if cs == [] then []
    else if cs[0].Tag? && n == 0 then cs[1..]
    else [cs[0]] + RemoveNthTag(cs[1..], if cs[0].Tag? then n - 1 else n)
  }

  /** The tag position the jQuery selector `span:eq(i)` picks: i itself
      when i >= 0, and otherwise counted back from the last tag, so -1 is
      the last tag. A negative result picks nothing. */
  function EqPosition(cs: seq<Node>, i: int): int {
    if i >= 0 then i else |Labels(cs)| + i
  }

  /** `children('span:eq(i)').remove()`: drop the tag `:eq(i)` picks, if any. */
  function RemoveEq(cs: seq<Node>, i: int): seq<Node> {
    var p := EqPosition(cs, i);
    if p >= 0 then RemoveNthTag(cs, p) else cs
  }

  /** `children('span').remove()`: drop every tag. */
  function RemoveAllTags(cs: seq<Node>): seq<Node> {
    if cs == [] then [] else (if cs[0].Tag? then [] else [cs[0]]) + RemoveAllTags(cs[1..])
  }

  /** Where the n-th tag (counting tags only) sits among the children. */
  function NthTagIndex(cs: seq<Node>, n: nat): (k: nat)
    requires n < |Labels(cs)|
    ensures k < |cs| && cs[k].Tag? && |Labels(cs[..k])| == n
  {
    if cs[0].Tag? && n == 0 then 0
    else
      var k := 1 + NthTagIndex(cs[1..], if cs[0].Tag? then n - 1 else n);
      assert cs[..k] == [cs[0]] + cs[1..][..k - 1];
      SelectedAppend([cs[0]], cs[1..][..k - 1], AllTags);
      k
  }

  /** deleteItem: a click on a tag's remove affordance drops that tag. */
  function DeleteItem(cs: seq<Node>, k: nat): seq<Node>
    requires k < |cs| && cs[k].Tag?
  {
    cs[..k] + cs[k + 1..]
  }

  /** tagChangeState: a click on a tag flips its `active` class. */
  function TagChangeState(cs: seq<Node>, k: nat): seq<Node>
    requires k < |cs| && cs[k].Tag?
  {
    cs[k := Tag(cs[k].value, !cs[k].active)]
  }

  /** addItem: a valid value that no tag carries yet becomes a new, not
      highlighted tag immediately before the input. */
  function AddItem(cs: seq<Node>, v: Value): seq<Node> {
    if IsValValid(v) && v.s !in Labels(cs) then InsertBeforeInput(cs, Tag(v.s, false)) else cs
  }

  // ---------------------------------------------------------------------
  // Where each edit acts
  //
  // Each edit is first described on the shape a + [Input] + b with no input
  // in a, then at the position InputIndex gives.

  lemma {:induction false} IndexOver(a: seq<Node>, b: seq<Node>)
    requires InputCount(a) == 0
    ensures Input in a + [Input] + b && InputIndex(a + [Input] + b) == |a|
  {
    var cs := a + [Input] + b;
    assert cs[|a|] == Input;
    if a != [] {
      assert cs[0] == a[0] && cs[1..] == a[1..] + [Input] + b;
      IndexOver(a[1..], b);
    }
  }

  lemma {:induction false} InsertOver(a: seq<Node>, t: Node, b: seq<Node>)
    requires InputCount(a) == 0
    ensures InsertBeforeInput(a + [Input] + b, t) == a + [t, Input] + b
  {
    var cs := a + [Input] + b;
    if a == [] {
      assert cs == [Input] + b;
    } else {
      assert cs[0] == a[0] && cs[1..] == a[1..] + [Input] + b;
      InsertOver(a[1..], t, b);
      assert [a[0]] + (a[1..] + [t, Input] + b) == a + [t, Input] + b;
    }
  }

  lemma {:induction false} RemoveAfterOver(a: seq<Node>, y: Node, b: seq<Node>)
    requires InputCount(a) == 0
    ensures RemoveAfterInput(a + [Input, y] + b) == a + [Input] + b
  {
    var cs := a + [Input, y] + b;
    if a == [] {
      assert cs == [Input, y] + b && cs[2..] == b;
    } else {
      assert cs[0] == a[0] && cs[1..] == a[1..] + [Input, y] + b;
      RemoveAfterOver(a[1..], y, b);
      assert [a[0]] + (a[1..] + [Input] + b) == a + [Input] + b;
    }
  }

  lemma {:induction false} RemoveAfterAtEnd(a: seq<Node>)
    requires InputCount(a) == 0
    ensures RemoveAfterInput(a + [Input]) == a + [Input]
  {
    var cs := a + [Input];
    if a != [] {
      assert cs[0] == a[0] && cs[1..] == a[1..] + [Input];
      RemoveAfterAtEnd(a[1..]);
      assert [a[0]] + (a[1..] + [Input]) == cs;
    }
  }

  lemma {:induction false} RemoveBeforeOver(a: seq<Node>, y: Node, b: seq<Node>)
    requires InputCount(a) == 0 && y != Input
    ensures RemoveBeforeInput(a + [y, Input] + b) == a + [Input] + b
  {
    var cs := a + [y, Input] + b;
    if a == [] {
      assert cs == [y, Input] + b && cs[1..] == [Input] + b;
    } else {
      assert cs[0] == a[0] && cs[1..] == a[1..] + [y, Input] + b;
      assert cs[1] != Input by {
        if |a| == 1 {
          assert cs[1] == y;
        } else {
          assert cs[1] == a[1..][0];
        }
      }
      RemoveBeforeOver(a[1..], y, b);
      assert [a[0]] + (a[1..] + [Input] + b) == a + [Input] + b;
    }
  }

  lemma {:induction false} MoveLeftOver(a: seq<Node>, y: Node, b: seq<Node>)
    requires InputCount(a) == 0 && y != Input
    ensures MoveInputLeft(a + [y, Input] + b) == a + [Input, y] + b
  {
    var cs := a + [y, Input] + b;
    if a == [] {
      assert cs == [y, Input] + b && cs[2..] == b;
    } else {
      assert cs[0] == a[0] && cs[1..] == a[1..] + [y, Input] + b;
      assert cs[1] != Input by {
        if |a| == 1 {
          assert cs[1] == y;
        } else {
          assert cs[1] == a[1..][0];
        }
      }
      MoveLeftOver(a[1..], y, b);
      assert [a[0]] + (a[1..] + [Input, y] + b) == a + [Input, y] + b;
    }
  }

  lemma {:induction false} MoveRightOver(a: seq<Node>, y: Node, b: seq<Node>)
    requires InputCount(a) == 0
    ensures MoveInputRight(a + [Input, y] + b) == a + [y, Input] + b
  {
    var cs := a + [Input, y] + b;
    if a == [] {
      assert cs == [Input, y] + b && cs[2..] == b;
    } else {
      assert cs[0] == a[0] && cs[1..] == a[1..] + [Input, y] + b;
      MoveRightOver(a[1..], y, b);
      assert [a[0]] + (a[1..] + [y, Input] + b) == a + [y, Input] + b;
    }
  }

  lemma {:induction false} MoveRightAtEnd(a: seq<Node>)
    requires InputCount(a) == 0
    ensures MoveInputRight(a + [Input]) == a + [Input]
  {
    var cs := a + [Input];
    if a != [] {
      assert cs[0] == a[0] && cs[1..] == a[1..] + [Input];
      MoveRightAtEnd(a[1..]);
      assert [a[0]] + (a[1..] + [Input]) == cs;
    }
  }

  /** No input comes before the (first) input. */
  lemma InputSplit(cs: seq<Node>)
    requires Input in cs
    ensures InputCount(cs[..InputIndex(cs)]) == 0
  {
    InputCountZero(cs[..InputIndex(cs)]);
  }

  /** No input comes before the sibling in front of the (first) input. */
  lemma InputSplitBefore(cs: seq<Node>)
    requires Input in cs && InputIndex(cs) > 0
    ensures var c := InputIndex(cs); InputCount(cs[..c - 1]) == 0 && cs[c - 1] != Input
  {
    var c := InputIndex(cs);
    var a, y := cs[..c - 1], cs[c - 1];
    InputSplit(cs);
    assert cs[..c] == a + [y];
    InputCountAppend(a, [y]);
    OneNode(y);
  }

  /** `before` puts the new node at exactly the input's position. */
  lemma InsertBeforeInputAt(cs: seq<Node>, t: Node)
    requires Input in cs
    ensures InsertBeforeInput(cs, t) == cs[..InputIndex(cs)] + [t] + cs[InputIndex(cs)..]
  {
    var c := InputIndex(cs);
    InputSplit(cs);
    Around(cs, c);
    InsertOver(cs[..c], t, cs[c + 1..]);
  }

  /** Without an input there is nowhere to insert. */
  lemma {:induction false} InsertWithoutInput(cs: seq<Node>, t: Node)
    requires Input !in cs
    ensures InsertBeforeInput(cs, t) == cs
  {
    if cs != [] {
      InsertWithoutInput(cs[1..], t);
    }
  }

  lemma RemoveAfterInputAt(cs: seq<Node>)
    requires Input in cs
    ensures var c := InputIndex(cs);
            RemoveAfterInput(cs) == if c + 1 < |cs| then cs[..c + 1] + cs[c + 2..] else cs
  {
    var c := InputIndex(cs);
    InputSplit(cs);
    if c + 1 < |cs| {
      Around2(cs, c);
      RemoveAfterOver(cs[..c], cs[c + 1], cs[c + 2..]);
    } else {
      AtEnd(cs);
      RemoveAfterAtEnd(cs[..c]);
    }
  }

  lemma RemoveBeforeInputAt(cs: seq<Node>)
    requires Input in cs
    ensures var c := InputIndex(cs);
            RemoveBeforeInput(cs) == if c > 0 then cs[..c - 1] + cs[c..] else cs
  {
    var c := InputIndex(cs);
    if c > 0 {
      InputSplitBefore(cs);
      Around2(cs, c - 1);
      Around(cs, c);
      RemoveBeforeOver(cs[..c - 1], cs[c - 1], cs[c + 1..]);
    }
  }

  lemma MoveInputLeftAt(cs: seq<Node>)
    requires Input in cs
    ensures var c := InputIndex(cs);
            MoveInputLeft(cs) == if c > 0 then cs[..c - 1] + [Input, cs[c - 1]] + cs[c + 1..] else cs
  {
    var c := InputIndex(cs);
    if c > 0 {
      InputSplitBefore(cs);
      Around2(cs, c - 1);
      MoveLeftOver(cs[..c - 1], cs[c - 1], cs[c + 1..]);
    }
  }

  lemma MoveInputRightAt(cs: seq<Node>)
    requires Input in cs
    ensures var c := InputIndex(cs);
            MoveInputRight(cs) == if c + 1 < |cs| then cs[..c] + [cs[c + 1], Input] + cs[c + 2..] else cs
  {
    var c := InputIndex(cs);
    InputSplit(cs);
    if c + 1 < |cs| {
      Around2(cs, c);
      MoveRightOver(cs[..c], cs[c + 1], cs[c + 2..]);
    } else {
      AtEnd(cs);
      MoveRightAtEnd(cs[..c]);
    }
  }

  /** removeTag drops exactly the tag that has n tags before it. */
  lemma {:induction false} RemoveNthTagAt(cs: seq<Node>, n: nat, k: nat)
    requires k < |cs| && cs[k].Tag? && |Labels(cs[..k])| == n
    ensures RemoveNthTag(cs, n) == cs[..k] + cs[k + 1..]
  {
    if k > 0 {
      assert cs[..k] == [cs[0]] + cs[1..][..k - 1];
      SelectedAppend([cs[0]], cs[1..][..k - 1], AllTags);
      RemoveNthTagAt(cs[1..], if cs[0].Tag? then n - 1 else n, k - 1);
      assert cs[k + 1..] == cs[1..][k..];
    }
  }

  /** removeTag with an index past the last tag removes nothing. */
  lemma {:induction false} RemoveNthTagOutOfRange(cs: seq<Node>, n: nat)
    requires n >= |Labels(cs)|
    ensures RemoveNthTag(cs, n) == cs
  {
    if cs != [] {
      RemoveNthTagOutOfRange(cs[1..], if cs[0].Tag? then n - 1 else n);
    }
  }

  /** On the tag labels, removeTag(n) deletes the n-th label. */
  lemma RemoveNthTagLabels(cs: seq<Node>, n: nat)
    requires n < |Labels(cs)|
    ensures Labels(RemoveNthTag(cs, n)) == Labels(cs)[..n] + Labels(cs)[n + 1..]
  {
    var k := NthTagIndex(cs, n);
    RemoveNthTagAt(cs, n, k);
    SplitAt(cs, k);
    SelectedAppend(cs[..k], cs[k + 1..], AllTags);
  }

  /** On the tag labels, `span:eq(i)` removal deletes the label at the
      picked position when there is one, and changes nothing otherwise. */
  lemma RemoveEqLabels(cs: seq<Node>, i: int)
    ensures var p := EqPosition(cs, i);
            if 0 <= p < |Labels(cs)| then Labels(RemoveEq(cs, i)) == Labels(cs)[..p] + Labels(cs)[p + 1..]
            else RemoveEq(cs, i) == cs
  {
    var p := EqPosition(cs, i);
    if 0 <= p < |Labels(cs)| {
      RemoveNthTagLabels(cs, p);
    } else if p >= 0 {
      RemoveNthTagOutOfRange(cs, p);
    }
  }

  /** A negative index i >= -(number of tags) picks the (-i)-th tag from
      the end; in particular -1 would pick the last one. */
  lemma RemoveEqFromEnd(cs: seq<Node>, i: int)
    requires -|Labels(cs)| <= i < 0
    ensures var m := |Labels(cs)| + i;
            Labels(RemoveEq(cs, i)) == Labels(cs)[..m] + Labels(cs)[m + 1..]
  {
    RemoveEqLabels(cs, i);
  }

  /** Deleting a tag by a click is removeTag with that tag's ordinal. */
  lemma DeleteItemIsRemoveTag(cs: seq<Node>, k: nat)
    requires k < |cs| && cs[k].Tag?
    ensures DeleteItem(cs, k) == RemoveNthTag(cs, |Labels(cs[..k])|)
  {
    RemoveNthTagAt(cs, |Labels(cs[..k])|, k);
  }

  /** removeAll leaves the inputs and nothing else. */
  lemma {:induction false} RemoveAllTagsLeavesInput(cs: seq<Node>)
    ensures InputCount(cs) == 0 ==> RemoveAllTags(cs) == []
    ensures InputCount(cs) == 1 ==> RemoveAllTags(cs) == [Input]
  {
    if cs != [] {
      RemoveAllTagsLeavesInput(cs[1..]);
    }
  }

  // ---------------------------------------------------------------------
  // addItem

  /** addItem inserts Tag(v, false) right before the input when v is valid
      and new, and otherwise changes nothing. */
  lemma AddItemAt(cs: seq<Node>, v: Value)
    requires Input in cs
    ensures var c := InputIndex(cs);
            AddItem(cs, v) ==
              if IsValValid(v) && v.s !in Labels(cs) then cs[..c] + [Tag(v.s, false)] + cs[c..] else cs
  {
    if IsValValid(v) {
      InsertBeforeInputAt(cs, Tag(v.s, false));
    }
  }

  /** After addItem with a valid value, a tag with that label exists. */
  lemma AddItemMakesPresent(cs: seq<Node>, v: Value)
    requires Input in cs && IsValValid(v)
    ensures v.s in Labels(AddItem(cs, v))
  {
    if v.s !in Labels(cs) {
      var c := InputIndex(cs);
      AddItemAt(cs, v);
      SplitAt(AddItem(cs, v), c);
    }
  }

  /** A second addItem with the same value is a no-op. */
  lemma AddItemIdempotent(cs: seq<Node>, v: Value)
    ensures AddItem(AddItem(cs, v), v) == AddItem(cs, v)
  {
    if Input in cs {
      if IsValValid(v) {
        AddItemMakesPresent(cs, v);
      }
    } else if IsValValid(v) {
      InsertWithoutInput(cs, Tag(v.s, false));
    }
  }

  /** Inserting before an input that ends the children: the tag lands at the
      end of the labels. */
  lemma InsertAtEnd(a: seq<Node>, t: Node)
    requires InputCount(a) == 0 && t.Tag?
    ensures InsertBeforeInput(a + [Input], t) == (a + [t]) + [Input]
    ensures Labels(a + [Input]) == Labels(a)
    ensures Labels((a + [t]) + [Input]) == Labels(a) + [t.value]
  {
    InsertOver(a, t, []);
    assert a + [Input] + [] == a + [Input];
    assert a + [t, Input] + [] == (a + [t]) + [Input];
    OneNode(t);
    OneNode(Input);
    SelectedAppend(a, [Input], AllTags);
    SelectedAppend(a + [t], [Input], AllTags);
    SelectedAppend(a, [t], AllTags);
  }

  /** When the input is the last child, addItem appends to the labels. */
  lemma AddItemAppendsWhenInputLast(cs: seq<Node>, v: Value)
    requires Input in cs && InputIndex(cs) == |cs| - 1
    requires IsValValid(v) && v.s !in Labels(cs)
    ensures Labels(AddItem(cs, v)) == Labels(cs) + [v.s]
  {
    AtEnd(cs);
    InputSplit(cs);
    InsertAtEnd(cs[..|cs| - 1], Tag(v.s, false));
  }


  // ---------------------------------------------------------------------
  // The container invariant

  /** With a single input, every other child is a tag. */
  lemma {:induction false} NoInputAt(a: seq<Node>, j: nat)
    requires InputCount(a) == 0 && j < |a|
    ensures a[j] != Input
  {
    if j > 0 {
      assert a[1..][j - 1] == a[j];
      NoInputAt(a[1..], j - 1);
    }
  }

  lemma OnlyOneInput(cs: seq<Node>, j: nat)
    requires Input in cs && InputCount(cs) == 1 && j < |cs| && j != InputIndex(cs)
    ensures cs[j].Tag?
  {
    var c := InputIndex(cs);
    TagsSplitAt(cs, c);
    OneNode(Input);
    if j < c {
      NoInputAt(cs[..c], j);
    } else {
      NoInputAt(cs[c + 1..], j - c - 1);
    }
  }

  /** Removing one tag keeps the invariant. */
  lemma RemoveBetweenKeepsWellFormed(a: seq<Node>, t: Node, b: seq<Node>)
    requires WellFormed(a + [t] + b) && t.Tag?
    ensures WellFormed(a + b)
  {
    SelectedSplit(a, t, b, AllTags);
    InputCountAppend(a + [t], b);
    InputCountAppend(a, [t]);
    OneNode(t);
    SelectedAppend(a, b, AllTags);
    InputCountAppend(a, b);
    DistinctRemove(Labels(a), t.value, Labels(b));
  }

  lemma RemoveTagKeepsWellFormed(cs: seq<Node>, k: nat)
    requires WellFormed(cs) && k < |cs| && cs[k].Tag?
    ensures WellFormed(cs[..k] + cs[k + 1..])
  {
    Around(cs, k);
    RemoveBetweenKeepsWellFormed(cs[..k], cs[k], cs[k + 1..]);
  }


  /** Inserting a tag with a valid label that is not yet present keeps the
      invariant. */
  lemma InsertBetweenKeepsWellFormed(a: seq<Node>, t: Node, b: seq<Node>)
    requires WellFormed(a + b) && t.Tag?
    requires IsValValid(Str(t.value)) && t.value !in Labels(a + b)
    ensures WellFormed(a + [t] + b)
  {
    SelectedAppend(a, b, AllTags);
    InputCountAppend(a, b);
    SelectedSplit(a, t, b, AllTags);
    InputCountAppend(a + [t], b);
    InputCountAppend(a, [t]);
    OneNode(t);
    DistinctInsert(Labels(a), t.value, Labels(b));
  }

  lemma InsertTagKeepsWellFormed(cs: seq<Node>, c: nat, t: Node)
    requires WellFormed(cs) && c <= |cs| && t.Tag?
    requires IsValValid(Str(t.value)) && t.value !in Labels(cs)
    ensures WellFormed(cs[..c] + [t] + cs[c..])
  {
    assert cs == cs[..c] + cs[c..];
    InsertBetweenKeepsWellFormed(cs[..c], t, cs[c..]);
  }


  lemma TagsPair(p: Node, q: Node, y: seq<Node>)
    ensures Tags([p, q] + y) == Tags([p]) + Tags([q]) + Tags(y)
    ensures InputCount([p, q] + y) == InputCount([p]) + InputCount([q]) + InputCount(y)
  {
    var s := [p, q] + y;
    assert s[0] == p && s[1..] == [q] + y;
    assert ([q] + y)[0] == q && ([q] + y)[1..] == y;
    OneNode(p);
    OneNode(q);
  }

  /** Swapping the input with a neighbour changes neither the tag
      subsequence nor the number of inputs. */
  lemma SwapTags(a: seq<Node>, y: Node, b: seq<Node>)
    ensures Tags(a + [Input, y] + b) == Tags(a + [y, Input] + b)
    ensures InputCount(a + [Input, y] + b) == InputCount(a + [y, Input] + b)
  {
    assert a + [Input, y] + b == a + ([Input, y] + b);
    assert a + [y, Input] + b == a + ([y, Input] + b);
    TagsAppend(a, [Input, y] + b);
    TagsAppend(a, [y, Input] + b);
    InputCountAppend(a, [Input, y] + b);
    InputCountAppend(a, [y, Input] + b);
    TagsPair(Input, y, b);
    TagsPair(y, Input, b);
  }

  /** ... nor what any selector picks. */
  lemma SwapSelected(a: seq<Node>, y: Node, b: seq<Node>, sel: Selector)
    ensures Selected(a + [Input, y] + b, sel) == Selected(a + [y, Input] + b, sel)
  {
    SwapTags(a, y, b);
    SelectedOfTags(a + [Input, y] + b, sel);
    SelectedOfTags(a + [y, Input] + b, sel);
  }

  /** Where the input sits when it is followed by y. */
  lemma IndexOverPair(a: seq<Node>, y: Node, b: seq<Node>)
    requires InputCount(a) == 0
    ensures Input in a + [Input, y] + b && InputIndex(a + [Input, y] + b) == |a|
  {
    assert a + [Input, y] + b == a + [Input] + ([y] + b);
    IndexOver(a, [y] + b);
  }

  /** Where the input sits when it is preceded by y. */
  lemma IndexOverAfter(a: seq<Node>, y: Node, b: seq<Node>)
    requires InputCount(a) == 0 && y != Input
    ensures Input in a + [y, Input] + b && InputIndex(a + [y, Input] + b) == |a| + 1
  {
    assert a + [y, Input] + b == (a + [y]) + [Input] + b;
    InputCountAppend(a, [y]);
    OneNode(y);
    IndexOver(a + [y], b);
  }

  lemma AddItemKeepsWellFormed(cs: seq<Node>, v: Value)
    requires WellFormed(cs)
    ensures WellFormed(AddItem(cs, v))
  {
    InputCountZero(cs);
    AddItemAt(cs, v);
    if IsValValid(v) && v.s !in Labels(cs) {
      InsertTagKeepsWellFormed(cs, InputIndex(cs), Tag(v.s, false));
    }
  }

  lemma {:induction false} InputCountZero(cs: seq<Node>)
    ensures InputCount(cs) == 0 <==> Input !in cs
  {
    if cs != [] {
      InputCountZero(cs[1..]);
      assert cs == [cs[0]] + cs[1..];
    }
  }

  /** The input's position is determined by where it first occurs. */
  lemma InputIndexAt(cs: seq<Node>, c: nat)
    requires c < |cs| && cs[c] == Input && Input !in cs[..c]
    ensures InputIndex(cs) == c
  {
    InputCountZero(cs[..c]);
    Around(cs, c);
    IndexOver(cs[..c], cs[c + 1..]);
  }

  lemma RemoveAfterInputKeepsWellFormed(cs: seq<Node>)
    requires WellFormed(cs)
    ensures WellFormed(RemoveAfterInput(cs))
  {
    InputCountZero(cs);
    RemoveAfterInputAt(cs);
    var c := InputIndex(cs);
    if c + 1 < |cs| {
      OnlyOneInput(cs, c + 1);
      assert cs[..c + 1] + cs[c + 2..] == cs[..c + 1] + cs[c + 1 + 1..];
      RemoveTagKeepsWellFormed(cs, c + 1);
    }
  }

  lemma RemoveBeforeInputKeepsWellFormed(cs: seq<Node>)
    requires WellFormed(cs)
    ensures WellFormed(RemoveBeforeInput(cs))
  {
    InputCountZero(cs);
    RemoveBeforeInputAt(cs);
    var c := InputIndex(cs);
    if c > 0 {
      OnlyOneInput(cs, c - 1);
      assert cs[..c - 1] + cs[c..] == cs[..c - 1] + cs[c - 1 + 1..];
      RemoveTagKeepsWellFormed(cs, c - 1);
    }
  }

  /** Moving the input left keeps the tag subsequence (labels and flags, in
      order); MoveInputLeftIndex says where the cursor goes. */
  lemma MoveInputLeftKeepsTags(cs: seq<Node>)
    requires Input in cs && InputCount(cs) == 1
    ensures var r := MoveInputLeft(cs); Tags(r) == Tags(cs) && Labels(r) == Labels(cs) && InputCount(r) == 1
  {
    MoveInputLeftAt(cs);
    var c := InputIndex(cs);
    if c > 0 {
      InputSplitBefore(cs);
      Around2(cs, c - 1);
      SwapTags(cs[..c - 1], cs[c - 1], cs[c + 1..]);
      SwapSelected(cs[..c - 1], cs[c - 1], cs[c + 1..], AllTags);
    }
  }

  /** Left moves the cursor one place left, unless it is first. */
  lemma MoveInputLeftIndex(cs: seq<Node>)
    requires Input in cs
    ensures var r := MoveInputLeft(cs);
            && Input in r
            && InputIndex(r) == if InputIndex(cs) > 0 then InputIndex(cs) - 1 else 0
  {
    MoveInputLeftAt(cs);
    var c := InputIndex(cs);
    if c > 0 {
      InputSplitBefore(cs);
      IndexOverPair(cs[..c - 1], cs[c - 1], cs[c + 1..]);
    }
  }

  /** Moving the input right keeps the tag subsequence (labels and flags, in
      order); MoveInputRightIndex says where the cursor goes. */
  lemma MoveInputRightKeepsTags(cs: seq<Node>)
    requires Input in cs && InputCount(cs) == 1
    ensures var r := MoveInputRight(cs); Tags(r) == Tags(cs) && Labels(r) == Labels(cs) && InputCount(r) == 1
  {
    MoveInputRightAt(cs);
    var c := InputIndex(cs);
    if c + 1 < |cs| {
      Around2(cs, c);
      SwapTags(cs[..c], cs[c + 1], cs[c + 2..]);
      SwapSelected(cs[..c], cs[c + 1], cs[c + 2..], AllTags);
    }
  }

  /** Right moves the cursor one place right, unless it is last. */
  lemma MoveInputRightIndex(cs: seq<Node>)
    requires Input in cs && InputCount(cs) == 1
    ensures var r := MoveInputRight(cs);
            && Input in r
            && InputIndex(r) == if InputIndex(cs) + 1 < |cs| then InputIndex(cs) + 1 else InputIndex(cs)
  {
    MoveInputRightAt(cs);
    var c := InputIndex(cs);
    if c + 1 < |cs| {
      InputSplit(cs);
      OnlyOneInput(cs, c + 1);
      IndexOverAfter(cs[..c], cs[c + 1], cs[c + 2..]);
    }
  }

  lemma RemoveNthTagKeepsWellFormed(cs: seq<Node>, n: nat)
    requires WellFormed(cs)
    ensures WellFormed(RemoveNthTag(cs, n))
  {
    if n < |Labels(cs)| {
      var k := NthTagIndex(cs, n);
      RemoveNthTagAt(cs, n, k);
      RemoveTagKeepsWellFormed(cs, k);
    } else {
      RemoveNthTagOutOfRange(cs, n);
    }
  }

  lemma RemoveEqKeepsWellFormed(cs: seq<Node>, i: int)
    requires WellFormed(cs)
    ensures WellFormed(RemoveEq(cs, i))
  {
    var p := EqPosition(cs, i);
    if p >= 0 {
      RemoveNthTagKeepsWellFormed(cs, p);
    }
  }

  // ---------------------------------------------------------------------
  // tagChangeState

  /** Toggling a tag twice restores the children. */
  lemma TagChangeStateTwice(cs: seq<Node>, k: nat)
    requires k < |cs| && cs[k].Tag?
    ensures TagChangeState(TagChangeState(cs, k), k) == cs
  {
  }

  /** Toggling changes no label, no position and no other flag. */
  lemma TagChangeStateKeepsLabels(cs: seq<Node>, k: nat)
    requires k < |cs| && cs[k].Tag?
    ensures var r := TagChangeState(cs, k);
            |r| == |cs| && r[k] == Tag(cs[k].value, !cs[k].active) &&
            (forall j | 0 <= j < |cs| && j != k :: r[j] == cs[j]) &&
            Labels(r) == Labels(cs) && InputCount(r) == InputCount(cs)
  {
    var r := TagChangeState(cs, k);
    SplitAt(cs, k);
    SplitAt(r, k);
    assert r[..k] == cs[..k] && r[k + 1..] == cs[k + 1..];
    OneNode(cs[k]);
    OneNode(r[k]);
  }

  /** After a toggle, the toggled label is highlighted exactly when it was not
      before, and every other label keeps its highlight. */
  lemma TagChangeStateHighlight(cs: seq<Node>, k: nat, l: string)
    requires WellFormed(cs) && k < |cs| && cs[k].Tag?
    ensures l in Selected(TagChangeState(cs, k), ActiveTags) <==>
            if l == cs[k].value then !cs[k].active else l in Selected(cs, ActiveTags)
  {
    var r := TagChangeState(cs, k);
    InSelected(r, ActiveTags, l);
    InSelected(cs, ActiveTags, l);
    if l == cs[k].value {
      forall i | 0 <= i < |cs| && i != k && cs[i].Tag?
        ensures cs[i].value != l
      {
        if i < k {
          DistinctLabelsDiffer(cs, i, k);
        } else {
          DistinctLabelsDiffer(cs, k, i);
        }
      }
      if !cs[k].active {
        assert Matches(r[k], ActiveTags);
      }
    } else if l in Selected(cs, ActiveTags) {
      var i :| 0 <= i < |cs| && Matches(cs[i], ActiveTags) && cs[i].value == l;
      assert r[i] == cs[i];
    }
  }

  /** Moving the input left and then right again restores the children,
      unless the input was already first. */
  lemma MoveLeftThenRight(cs: seq<Node>)
    requires Input in cs && InputIndex(cs) > 0
    ensures MoveInputRight(MoveInputLeft(cs)) == cs
  {
    var c := InputIndex(cs);
    InputSplitBefore(cs);
    var a, y, b := cs[..c - 1], cs[c - 1], cs[c + 1..];
    Around2(cs, c - 1);
    MoveLeftOver(a, y, b);
    MoveRightOver(a, y, b);
  }

  /** Moving the input right and then left again restores the children,
      unless the input was already last. */
  lemma MoveRightThenLeft(cs: seq<Node>)
    requires Input in cs && InputCount(cs) == 1 && InputIndex(cs) + 1 < |cs|
    ensures MoveInputLeft(MoveInputRight(cs)) == cs
  {
    var c := InputIndex(cs);
    InputSplit(cs);
    var a, y, b := cs[..c], cs[c + 1], cs[c + 2..];
    Around2(cs, c);
    MoveRightOver(a, y, b);
    OnlyOneInput(cs, c + 1);
    MoveLeftOver(a, y, b);
  }
}
