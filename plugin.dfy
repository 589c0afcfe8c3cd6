/** The plugin instance attached to one container: its children, the text of
    its input, its options, and how often each after-callback has fired.
    Every method corresponds to one operation of the widget and changes the
    children as the pure edits of the Edits module say. */
module Plugin {
  import opened Nodes
  import opened Edits
  import opened Seeding
  import opened Keyboard

  datatype Option<T> = None | Some(value: T)

  /** The options the plugin reads: the `typeAhead.source` array if one is
      given (None when typeAhead is absent, has no source, or the source is
      no array), and which of the three after-callbacks are configured. */
  datatype Config = Config(
    typeAheadSource: Option<seq<Value>>,
    hasAfterAdd: bool,
    hasAfterRemove: bool,
    hasAfterRemoveAll: bool)

  /** The argument of addTag: a string, or an object whose `val` field holds
      a string (Some) or is missing or no string (None). */
  datatype AddTagArg = TagString(s: string) | TagObject(val: Option<string>)

  /** The argument of removeTag: a number, or an object whose `index` field
      holds a number (Some) or is missing or no number (None). */
  datatype RemoveTagArg = IndexNumber(n: int) | IndexObject(index: Option<int>)

  /** The `valueTag` addTag computes: the string given, or "" when there is none. */
  function AddTagValue(p: AddTagArg): string {
    match p
    case TagString(s) => s
    case TagObject(Some(s)) => s
    case TagObject(None) => ""
  }

  /** The index removeTag computes: the number given, or -1 when there is none. */
  function RemoveTagIndex(p: RemoveTagArg): int {
    match p
    case IndexNumber(n) => n
    case IndexObject(Some(n)) => n
    case IndexObject(None) => -1
  }

  /** addTag reaches its callback exactly when its value passes the validity
      check, whether or not addItem then inserted anything. */
  predicate AddTagFires(p: AddTagArg) {
    IsValValid(Str(AddTagValue(p)))
  }

  /** removeTag reaches its callback exactly when an index other than -1
      was given, whether or not a tag sits at that index. */
  predicate RemoveTagFires(p: RemoveTagArg) {
    RemoveTagIndex(p) != -1
  }

  /** addTag with a label that is already present inserts nothing but still
      fires afterAdd. */
  lemma AddTagFiresOnDuplicate(cs: seq<Node>, s: string)
    requires WellFormed(cs) && s in Labels(cs)
    ensures AddTagFires(TagString(s)) && AddItem(cs, Str(s)) == cs
  {
  }

  /** removeTag with an index other than -1 that picks no tag (past the
      last tag, or counted back past the first) removes nothing but still
      fires afterRemove. */
  lemma RemoveTagFiresOutOfRange(cs: seq<Node>, i: int)
    requires i != -1 && (i >= |Labels(cs)| || i < -|Labels(cs)|)
    ensures RemoveTagFires(IndexNumber(i)) && RemoveEq(cs, i) == cs
  {
    RemoveEqLabels(cs, i);
  }

  /** addTag with an invalid value neither inserts nor fires. */
  lemma AddTagInvalidIsNoOp(cs: seq<Node>, p: AddTagArg)
    requires !IsValValid(Str(AddTagValue(p)))
    ensures !AddTagFires(p) && AddItem(cs, Str(AddTagValue(p))) == cs
  {
  }

  class TagsInput {
    /** The container's children, in document order. */
    var children: seq<Node>
    /** The current value of the text input. */
    var text: string
    /** How often afterAdd, afterRemove and afterRemoveAll have been called. */
    var afterAddCalls: nat
    var afterRemoveCalls: nat
    var afterRemoveAllCalls: nat
    const config: Config

    ghost predicate Valid()
      reads this
    {
      WellFormed(children)
    }

    /** init: the container starts with its input alone, then every entry of
        `typeAhead.source` goes through addItem, in order. */
    constructor (config: Config)
      ensures Valid() && this.config == config && text == ""
      ensures afterAddCalls == 0 && afterRemoveCalls == 0 && afterRemoveAllCalls == 0
      ensures children ==
              (if config.typeAheadSource.Some? then FreshTags(FirstOccurrences(config.typeAheadSource.value))
               else []) + [Input]
    {
      this.config := config;
      children := [Input];
      text := "";
      afterAddCalls, afterRemoveCalls, afterRemoveAllCalls := 0, 0, 0;
      new;
      OneNode(Input);
      if config.typeAheadSource.Some? {
        SeedFrom(config.typeAheadSource.value);
      }
    }

    /** The seeding loop of init: every entry of the source goes through
        addItem, in order, starting from the input alone. */
    method SeedFrom(source: seq<Value>)
      requires Valid() && children == [Input]
      modifies this`children
      ensures Valid() && children == FreshTags(FirstOccurrences(source)) + [Input]
    {
      assert children == FreshTags(FirstOccurrences(source[..0])) + [Input];
      for i := 0 to |source|
        invariant Valid()
        invariant children == FreshTags(FirstOccurrences(source[..i])) + [Input]
      {
        assert source[..i + 1] == source[..i] + [source[i]];
        SeedStep(source[..i], source[i]);
        AddItem(source[i]);
      }
      assert source[..|source|] == source;
    }

    /** getItems: collect the labels of the children the selector picks. */
    method GetItems(sel: Selector) returns (re: seq<string>)
      ensures re == Selected(children, sel)
    {
      re := [];
      var i := 0;
      while i < |children|
        invariant 0 <= i <= |children|
        invariant re == Selected(children[..i], sel)
      {
        var n := children[i];
        assert children[..i + 1] == children[..i] + [n];
        SelectedAppend(children[..i], [n], sel);
        OneNode(n);
        if Matches(n, sel) {
          re := re + [n.value];
        }
        i := i + 1;
      }
      assert children[..i] == children;
    }

    /** addItem: insert Tag(v, false) right before the input when v is valid
        and no tag carries it yet; otherwise nothing changes. */
    method AddItem(v: Value)
      requires Valid()
      modifies this`children
      ensures Valid()
      ensures children == Edits.AddItem(old(children), v)
      ensures var cs, c := old(children), InputIndex(old(children));
              children == if IsValValid(v) && v.s !in Labels(cs) then cs[..c] + [Tag(v.s, false)] + cs[c..] else cs
    {
      AddItemKeepsWellFormed(children, v);
      AddItemAt(children, v);
      if IsValValid(v) {
        var items := GetItems(AllTags);
        if v.s !in items {
          children := InsertBeforeInput(children, Tag(v.s, false));
        }
      }
    }

    /** The user edits the input's text (the browser's part, not the widget's). */
    method SetInputText(s: string)
      modifies this`text
      ensures text == s
    {
      text := s;
    }

    /** keyProcessing: the keydown handler on the input. */
    method KeyProcessing(key: int)
      requires Valid()
      modifies this`children, this`text
      ensures Valid()
      ensures (children, text) == KeyTransition(old(children), old(text), key)
    {
      KeyTransitionKeepsWellFormed(children, text, key);
      var val := text;
      if key == ENTER {
        AddItem(Str(val));
        text := "";
      } else if key == DELETE {
        children := RunIfValEmpty(val, children, RemoveAfterInput(children));
      } else if key == BACK_SPACE {
        children := RunIfValEmpty(val, children, RemoveBeforeInput(children));
      } else if key == LEFT {
        children := RunIfValEmpty(val, children, MoveInputLeft(children));
      } else if key == RIGHT {
        children := RunIfValEmpty(val, children, MoveInputRight(children));
      }
    }

    /** deleteItem: a click on the remove affordance of the tag at k. */
    method DeleteItem(k: nat)
      requires Valid() && k < |children| && children[k].Tag?
      modifies this`children
      ensures Valid()
      ensures children == old(children[..k] + children[k + 1..])
    {
      RemoveTagKeepsWellFormed(children, k);
      children := Edits.DeleteItem(children, k);
    }

    /** tagChangeState: a click on the tag at k flips its highlight. */
    method TagChangeState(k: nat)
      requires Valid() && k < |children| && children[k].Tag?
      modifies this`children
      ensures Valid()
      ensures children == old(children[k := Tag(children[k].value, !children[k].active)])
    {
      TagChangeStateKeepsLabels(children, k);
      children := Edits.TagChangeState(children, k);
    }

    /** addTag: offer the value to addItem and fire afterAdd when the value
        is valid, even if addItem dropped it as a duplicate. */
    method AddTag(p: AddTagArg)
      requires Valid()
      modifies this`children, this`afterAddCalls
      ensures Valid()
      ensures children == Edits.AddItem(old(children), Str(AddTagValue(p)))
      ensures afterAddCalls == old(afterAddCalls) + if AddTagFires(p) && config.hasAfterAdd then 1 else 0
    {
      var valueTag := "";
      match p {
        case TagString(s) => valueTag := s;
        case TagObject(val) =>
          if val.Some? {
            valueTag := val.value;
          }
      }
      if IsValValid(Str(valueTag)) {
        AddItem(Str(valueTag));
        if config.hasAfterAdd {
          afterAddCalls := afterAddCalls + 1;
        }
      }
    }

    /** removeTag: remove the tag `span:eq(i)` picks (tags only, from 0,
        negative from the end) and fire afterRemove whenever an index other
        than -1 was given, even one that picks no tag. */
    method RemoveTag(p: RemoveTagArg)
      requires Valid()
      modifies this`children, this`afterRemoveCalls
      ensures Valid()
      ensures children == if RemoveTagFires(p) then RemoveEq(old(children), RemoveTagIndex(p)) else old(children)
      ensures afterRemoveCalls == old(afterRemoveCalls) + if RemoveTagFires(p) && config.hasAfterRemove then 1 else 0
    {
      var i := -1;
      match p {
        case IndexNumber(n) => i := n;
        case IndexObject(index) =>
          if index.Some? {
            i := index.value;
          }
      }
      if i != -1 {
        RemoveEqKeepsWellFormed(children, i);
        var position := EqPosition(children, i);
        if position >= 0 {
          children := RemoveNthTag(children, position);
        }
        if config.hasAfterRemove {
          afterRemoveCalls := afterRemoveCalls + 1;
        }
      }
    }

    /** removeAll: drop every tag and always fire afterRemoveAll. */
    method RemoveAll()
      requires Valid()
      modifies this`children, this`afterRemoveAllCalls
      ensures Valid() && children == [Input]
      ensures afterRemoveAllCalls == old(afterRemoveAllCalls) + if config.hasAfterRemoveAll then 1 else 0
    {
      RemoveAllTagsLeavesInput(children);
      children := RemoveAllTags(children);
      OneNode(Input);
      if config.hasAfterRemoveAll {
        afterRemoveAllCalls := afterRemoveAllCalls + 1;
      }
    }

    /** getTags: the labels of all tags, in document order. */
    method GetTags() returns (tags: seq<string>)
      ensures tags == Labels(children)
    {
      tags := GetItems(AllTags);
    }

    /** getHighlightTags: the labels of the highlighted tags, in document order. */
    method GetHighlightTags() returns (tags: seq<string>)
      ensures tags == Selected(children, ActiveTags)
    {
      tags := GetItems(ActiveTags);
    }

    /** destroy: every child, the input included, is removed. */
    method Destroy()
      modifies this`children
      ensures children == []
    {
      children := [];
    }
  }
}
