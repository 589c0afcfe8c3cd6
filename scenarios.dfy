/** Small clients of the widget whose outcomes the verifier checks: the
    duplicate-suppression, seeding, removal and keyboard behaviours on
    concrete labels. Each step comes with a small lemma that works out the
    concrete children on values; the clients then only follow the calls. */
module Scenarios {
  import opened Nodes
  import opened Edits
  import opened Seeding
  import opened Keyboard
  import opened Plugin

  lemma AddFirst(x: string)
    requires IsValValid(Str(x))
    ensures AddItem([] + [Input], Str(x)) == FreshTags([x]) + [Input]
  {
    AddItemAfterFresh([], Str(x));
    assert FreshTags([]) == [];
    assert [] + [x] == [x];
  }

  lemma AddSecond(x: string, y: string)
    requires IsValValid(Str(y)) && x != y
    ensures AddItem(FreshTags([x]) + [Input], Str(y)) == FreshTags([x, y]) + [Input]
  {
    AddItemAfterFresh([x], Str(y));
    assert [x] + [y] == [x, y];
  }

  lemma AddAgain(x: string, y: string)
    ensures AddItem(FreshTags([x, y]) + [Input], Str(x)) == FreshTags([x, y]) + [Input]
  {
    AddItemAfterFresh([x, y], Str(x));
  }

  /** A widget holding alpha and beta, added through addTag. */
  method AlphaBeta() returns (w: TagsInput)
    ensures fresh(w) && w.Valid() && w.config.hasAfterAdd
    ensures w.children == FreshTags(["alpha", "beta"]) + [Input] && w.afterAddCalls == 2
  {
    w := new TagsInput(Config(None, true, true, true));
    AddFirst("alpha");
    w.AddTag(TagString("alpha"));
    AddSecond("alpha", "beta");
    w.AddTag(TagObject(Some("beta")));
  }

  /** Adding alpha, beta, alpha keeps two tags but fires afterAdd three times. */
  method DuplicateAddStillFires() {
    var w := AlphaBeta();
    AddAgain("alpha", "beta");
    w.AddTag(TagString("alpha"));
    FreshThenInput(["alpha", "beta"]);
    var tags := w.GetTags();
    assert tags == ["alpha", "beta"];
    assert w.afterAddCalls == 3;
  }

  /** Invalid values are dropped without any callback. */
  method InvalidAddIsIgnored() {
    var w := new TagsInput(Config(None, true, true, true));
    w.AddTag(TagString(" lead"));
    w.AddTag(TagString(""));
    w.AddTag(TagObject(None));
    assert w.children == [Input];
    assert w.afterAddCalls == 0;
  }

  lemma SeedOne(a: string)
    requires IsValValid(Str(a))
    ensures FirstOccurrences([Str(a), NonString]) == [a]
  {
    FirstOccurrencesSnoc([], Str(a));
    assert [] + [Str(a)] == [Str(a)];
    FirstOccurrencesSnoc([Str(a)], NonString);
    assert [Str(a)] + [NonString] == [Str(a), NonString];
  }

  lemma SeedTwo(a: string, b: string)
    requires IsValValid(Str(a)) && IsValValid(Str(b)) && a != b
    ensures FirstOccurrences([Str(a), NonString, Str(b)]) == [a, b]
  {
    SeedOne(a);
    FirstOccurrencesSnoc([Str(a), NonString], Str(b));
    assert [Str(a), NonString] + [Str(b)] == [Str(a), NonString, Str(b)];
    assert [a] + [b] == [a, b];
  }

  lemma SeedRepeat(a: string, b: string)
    requires IsValValid(Str(a)) && IsValValid(Str(b)) && a != b
    ensures FirstOccurrences([Str(a), NonString, Str(b), Str(a)]) == [a, b]
  {
    SeedTwo(a, b);
    FirstOccurrencesSnoc([Str(a), NonString, Str(b)], Str(a));
    assert [Str(a), NonString, Str(b)] + [Str(a)] == [Str(a), NonString, Str(b), Str(a)];
  }

  /** Seeding from a source with repeats and an invalid entry. */
  method SeedingDropsRepeats() {
    var src := [Str("a"), NonString, Str("b"), Str("a")];
    SeedRepeat("a", "b");
    FreshThenInput(["a", "b"]);
    var w := new TagsInput(Config(Some(src), false, false, false));
    var tags := w.GetTags();
    assert tags == ["a", "b"];
  }

  lemma OutOfRangeOne(x: string)
    ensures RemoveEq(FreshTags([x]) + [Input], 5) == FreshTags([x]) + [Input]
  {
    FreshThenInput([x]);
    RemoveEqLabels(FreshTags([x]) + [Input], 5);
  }

  /** An out-of-range index removes nothing but still fires afterRemove;
      a missing index does neither. */
  method RemoveOutOfRange() {
    var w := new TagsInput(Config(None, true, true, true));
    AddFirst("x");
    OutOfRangeOne("x");
    w.AddTag(TagString("x"));
    w.RemoveTag(IndexNumber(5));
    assert w.children == FreshTags(["x"]) + [Input] && w.afterRemoveCalls == 1;
    w.RemoveTag(IndexObject(None));
    assert w.children == FreshTags(["x"]) + [Input] && w.afterRemoveCalls == 1;
  }

  lemma SeedPair(a: string, b: string)
    requires IsValValid(Str(a)) && IsValValid(Str(b)) && a != b
    ensures FirstOccurrences([Str(a), Str(b)]) == [a, b]
  {
    FirstOccurrencesSnoc([], Str(a));
    assert [] + [Str(a)] == [Str(a)];
    FirstOccurrencesSnoc([Str(a)], Str(b));
    assert [Str(a)] + [Str(b)] == [Str(a), Str(b)];
  }

  lemma RemoveFirstOfTwo(a: string, b: string)
    ensures RemoveEq([Tag(a, false), Tag(b, false), Input], 0) == [Tag(b, false), Input]
  {
    RemoveNthTagAt([Tag(a, false), Tag(b, false), Input], 0, 0);
  }

  lemma FreshOne(a: string)
    ensures FreshTags([a]) == [Tag(a, false)]
  {
    assert [a][1..] == [];
    assert FreshTags([]) == [];
  }

  lemma FreshPair(a: string, b: string)
    ensures FreshTags([a, b]) + [Input] == [Tag(a, false), Tag(b, false), Input]
  {
    assert [a, b][1..] == [b];
    FreshOne(b);
  }

  /** Index 0 removes the first tag, counting tags only. */
  method RemoveFirstTag() {
    var src := [Str("x"), Str("y")];
    SeedPair("x", "y");
    FreshPair("x", "y");
    RemoveFirstOfTwo("x", "y");
    var w := new TagsInput(Config(Some(src), true, true, true));
    w.RemoveTag(IndexObject(Some(0)));
    assert w.children == [Tag("y", false), Input] && w.afterRemoveCalls == 1;
  }

  /** removeAll clears the tags and fires afterRemoveAll even when there
      were none. */
  method RemoveAllFires() {
    var w := new TagsInput(Config(None, true, true, true));
    w.AddTag(TagString("x"));
    w.RemoveAll();
    w.RemoveAll();
    assert w.children == [Input] && w.afterRemoveAllCalls == 2;
  }

  lemma EnterOnEmpty(x: string)
    requires IsValValid(Str(x))
    ensures KeyTransition([Input], x, ENTER) == ([Tag(x, false), Input], "")
  {
    KeyCase([Input], x);
    AddFirst(x);
    FreshOne(x);
    assert [] + [Input] == [Input];
    assert [Tag(x, false)] + [Input] == [Tag(x, false), Input];
  }

  lemma LeftOverOne(x: string)
    ensures KeyTransition([Tag(x, false), Input], "", LEFT) == ([Input, Tag(x, false)], "")
  {
    KeyCase([Tag(x, false), Input], "");
    InvalidValues("");
    MoveLeftOver([], Tag(x, false), []);
    assert [] + [Tag(x, false), Input] + [] == [Tag(x, false), Input];
    assert [] + [Input, Tag(x, false)] + [] == [Input, Tag(x, false)];
  }

  lemma DeleteOne(x: string)
    ensures KeyTransition([Input, Tag(x, false)], "", DELETE) == ([Input], "")
  {
    KeyCase([Input, Tag(x, false)], "");
    InvalidValues("");
    RemoveAfterOver([], Tag(x, false), []);
    assert [] + [Input, Tag(x, false)] + [] == [Input, Tag(x, false)];
    assert [] + [Input] + [] == [Input];
  }

  /** Typing and Enter add a tag; Left with an empty input moves the cursor
      before it, and Delete then removes it. */
  method KeyboardEditing() {
    var w := new TagsInput(Config(None, false, false, false));
    EnterOnEmpty("go");
    LeftOverOne("go");
    DeleteOne("go");
    w.SetInputText("go");
    w.KeyProcessing(ENTER);
    w.KeyProcessing(LEFT);
    w.KeyProcessing(DELETE);
    assert w.children == [Input];
  }
}
