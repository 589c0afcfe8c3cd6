/** The children of a tags-input container and the queries over them.

    A container holds an ordered sequence of children: tag nodes (a label and
    an `active` highlight flag) and the single text input, whose position is
    the cursor. Everything the widget does is an edit of this sequence. */
module Nodes {

  /** A child of the container: a tag token (its label and highlight flag), or the text input. */
  datatype Node = Tag(value: string, active: bool) | Input

  /** A JavaScript value handed over where a tag value is expected: a string,
      or anything else (a number, an object, undefined, ...). */
  datatype Value = Str(s: string) | NonString

  /** Which span children `getItems` reads: every tag, or only the tags that
      carry the `active` class. */
  datatype Selector = AllTags | ActiveTags

  /** A value may become a tag label when it is a non-empty string whose
      first character is neither a space nor a newline. */
  predicate IsValValid(v: Value) {
    v.Str? && v.s != [] && v.s[0] != ' ' && v.s[0] != '\n'
  }

  /** The values that fail the validity check: the empty string, a string
      led by a space or a newline (whatever follows), and every non-string. */
  lemma InvalidValues(s: string)
    ensures !IsValValid(Str("")) && !IsValValid(NonString)
    ensures !IsValValid(Str([' '] + s)) && !IsValValid(Str(['\n'] + s))
    ensures s != [] && s[0] != ' ' && s[0] != '\n' ==> IsValValid(Str(s))
  {
  }

  /** Whether a child is picked by the selector. */
  predicate Matches(n: Node, sel: Selector) {
    n.Tag? && (sel == ActiveTags ==> n.active)
  }

  /** The labels of the children the selector picks, in document order. */
  function Selected(cs: seq<Node>, sel: Selector): seq<string> {
    if cs == [] then []
    else (if Matches(cs[0], sel) then [cs[0].value] else []) + Selected(cs[1..], sel)
  }

  /** The labels of all tags, in document order. */
  function Labels(cs: seq<Node>): seq<string> {
    Selected(cs, AllTags)
  }

  /** The tag nodes (label and flag), in document order. */
  function Tags(cs: seq<Node>): seq<Node> {
    if cs == [] then [] else (if cs[0].Tag? then [cs[0]] else []) + Tags(cs[1..])
  }

  /** How many children are the text input. */
  function InputCount(cs: seq<Node>): nat {
    if cs == [] then 0 else (if cs[0] == Input then 1 else 0) + InputCount(cs[1..])
  }

  /** The position of the (first) text input among the children. */
  function InputIndex(cs: seq<Node>): (c: nat)
    requires Input in cs
    ensures c < |cs| && cs[c] == Input && Input !in cs[..c]
  {
    if cs[0] == Input then 0
    else
      var c := 1 + InputIndex(cs[1..]);
      assert cs[..c] == [cs[0]] + cs[1..][..c - 1];
      c
  }

  ghost predicate Distinct(s: seq<string>) {
    forall i, j | 0 <= i < j < |s| :: s[i] != s[j]
  }

  /** The container invariant kept by every operation but `destroy`:
      exactly one input, pairwise distinct tag labels, and every label one
      that passes the validity check. */
  ghost predicate WellFormed(cs: seq<Node>) {
    && Input in cs
    && InputCount(cs) == 1
    && Distinct(Labels(cs))
    && forall l | l in Labels(cs) :: IsValValid(Str(l))
  }

  lemma {:induction false} SelectedAppend(a: seq<Node>, b: seq<Node>, sel: Selector)
    ensures Selected(a + b, sel) == Selected(a, sel) + Selected(b, sel)
  {
    if a != [] {
      assert (a + b)[0] == a[0] && (a + b)[1..] == a[1..] + b;
      SelectedAppend(a[1..], b, sel);
    } else {
      assert a + b == b;
    }
  }

  lemma {:induction false} TagsAppend(a: seq<Node>, b: seq<Node>)
    ensures Tags(a + b) == Tags(a) + Tags(b)
  {
    if a != [] {
      assert (a + b)[0] == a[0] && (a + b)[1..] == a[1..] + b;
      TagsAppend(a[1..], b);
    } else {
      assert a + b == b;
    }
  }

  lemma {:induction false} InputCountAppend(a: seq<Node>, b: seq<Node>)
    ensures InputCount(a + b) == InputCount(a) + InputCount(b)
  {
    if a != [] {
      assert (a + b)[0] == a[0] && (a + b)[1..] == a[1..] + b;
      InputCountAppend(a[1..], b);
    } else {
      assert a + b == b;
    }
  }

  /** The queries on a single child. */
  lemma OneNode(n: Node)
    ensures Labels([n]) == if n.Tag? then [n.value] else []
    ensures Selected([n], ActiveTags) == if Matches(n, ActiveTags) then [n.value] else []
    ensures Tags([n]) == if n.Tag? then [n] else []
    ensures InputCount([n]) == if n == Input then 1 else 0
  {
    assert [n][0] == n && [n][1..] == [];
    assert Selected([n], AllTags) == (if Matches(n, AllTags) then [n.value] else []) + Selected([], AllTags);
  }

  /** A sequence split around the element at c. */
  lemma Around<T>(s: seq<T>, c: nat)
    requires c < |s|
    ensures s == s[..c] + [s[c]] + s[c + 1..] && s[c..] == [s[c]] + s[c + 1..]
  {
  }

  /** A non-empty sequence is its front followed by its last element. */
  lemma AtEnd<T>(s: seq<T>)
    requires |s| > 0
    ensures s == s[..|s| - 1] + [s[|s| - 1]]
  {
  }

  /** A sequence split around the elements at c and c + 1. */
  lemma Around2<T>(s: seq<T>, c: nat)
    requires c + 1 < |s|
    ensures s == s[..c] + [s[c], s[c + 1]] + s[c + 2..] && s[..c + 1] == s[..c] + [s[c]]
  {
    assert s == s[..c] + [s[c]] + s[c + 1..];
    assert s[c + 1..] == [s[c + 1]] + s[c + 2..];
  }

  /** The labels a selector picks from a + [n] + b split into the parts. */
  lemma SelectedSplit(a: seq<Node>, n: Node, b: seq<Node>, sel: Selector)
    ensures Selected(a + [n] + b, sel) == Selected(a, sel) + Selected([n], sel) + Selected(b, sel)
  {
    SelectedAppend(a + [n], b, sel);
    SelectedAppend(a, [n], sel);
  }

  /** The labels a selector picks split around the child at k. */
  lemma SelectedSplitAt(cs: seq<Node>, k: nat, sel: Selector)
    requires k < |cs|
    ensures Selected(cs, sel) == Selected(cs[..k], sel) + Selected([cs[k]], sel) + Selected(cs[k + 1..], sel)
  {
    var a, n, b := cs[..k], cs[k], cs[k + 1..];
    assert cs == a + [n] + b;
    SelectedSplit(a, n, b, sel);
  }

  /** The tag subsequence and the input count split around the child at k. */
  lemma TagsSplitAt(cs: seq<Node>, k: nat)
    requires k < |cs|
    ensures Tags(cs) == Tags(cs[..k]) + Tags([cs[k]]) + Tags(cs[k + 1..])
    ensures InputCount(cs) == InputCount(cs[..k]) + InputCount([cs[k]]) + InputCount(cs[k + 1..])
  {
    var a, n, b := cs[..k], cs[k], cs[k + 1..];
    assert cs == a + [n] + b;
    TagsAppend(a + [n], b);
    TagsAppend(a, [n]);
    InputCountAppend(a + [n], b);
    InputCountAppend(a, [n]);
  }

  /** Splitting a sequence around one node splits every query accordingly. */
  lemma SplitAt(cs: seq<Node>, k: nat)
    requires k < |cs|
    ensures cs == cs[..k] + [cs[k]] + cs[k + 1..]
    ensures Labels(cs) == Labels(cs[..k]) + Labels([cs[k]]) + Labels(cs[k + 1..])
    ensures Selected(cs, ActiveTags) ==
            Selected(cs[..k], ActiveTags) + Selected([cs[k]], ActiveTags) + Selected(cs[k + 1..], ActiveTags)
    ensures Tags(cs) == Tags(cs[..k]) + Tags([cs[k]]) + Tags(cs[k + 1..])
    ensures InputCount(cs) == InputCount(cs[..k]) + InputCount([cs[k]]) + InputCount(cs[k + 1..])
  {
    Around(cs, k);
    SelectedSplitAt(cs, k, AllTags);
    SelectedSplitAt(cs, k, ActiveTags);
    TagsSplitAt(cs, k);
  }

  /** The selectors only look at tag nodes: the queries are determined by the
      tag subsequence alone. */
  lemma {:induction false} SelectedOfTags(cs: seq<Node>, sel: Selector)
    ensures Selected(Tags(cs), sel) == Selected(cs, sel)
  {
    if cs != [] {
      SelectedOfTags(cs[1..], sel);
      var head := if cs[0].Tag? then [cs[0]] else [];
      SelectedAppend(head, Tags(cs[1..]), sel);
    }
  }

  /** A label is selected exactly when some child picked by the selector
      carries it. */
  lemma {:induction false} InSelected(cs: seq<Node>, sel: Selector, l: string)
    ensures l in Selected(cs, sel) <==>
            exists i | 0 <= i < |cs| :: Matches(cs[i], sel) && cs[i].value == l
  {
    if cs != [] {
      InSelected(cs[1..], sel, l);
      if l in Selected(cs[1..], sel) {
        var i :| 0 <= i < |cs[1..]| && Matches(cs[1..][i], sel) && cs[1..][i].value == l;
        assert Matches(cs[i + 1], sel) && cs[i + 1].value == l;
      }
      if exists i | 0 <= i < |cs| :: Matches(cs[i], sel) && cs[i].value == l {
        var i :| 0 <= i < |cs| && Matches(cs[i], sel) && cs[i].value == l;
        if i > 0 {
          assert Matches(cs[1..][i - 1], sel) && cs[1..][i - 1].value == l;
        }
      }
    }
  }

  /** Every highlighted label is a tag label. */
  lemma HighlightedAreTags(cs: seq<Node>, l: string)
    requires l in Selected(cs, ActiveTags)
    ensures l in Labels(cs)
  {
    InSelected(cs, ActiveTags, l);
    InSelected(cs, AllTags, l);
  }

  /** With distinct labels, two different tag nodes carry different labels. */
  lemma DistinctLabelsDiffer(cs: seq<Node>, i: nat, j: nat)
    requires Distinct(Labels(cs))
    requires i < j < |cs| && cs[i].Tag? && cs[j].Tag?
    ensures cs[i].value != cs[j].value
  {
    var a, b := cs[..j], cs[j..];
    assert cs == a + b;
    SelectedAppend(a, b, AllTags);
    assert b == [cs[j]] + b[1..];
    SelectedAppend([cs[j]], b[1..], AllTags);
    assert Labels(cs) == Labels(a) + [cs[j].value] + Labels(b[1..]);
    InSelected(a, AllTags, cs[i].value);
    assert Matches(a[i], AllTags) && a[i].value == cs[i].value;
    var k :| 0 <= k < |Labels(a)| && Labels(a)[k] == cs[i].value;
    assert Labels(cs)[k] == cs[i].value;
    assert Labels(cs)[|Labels(a)|] == cs[j].value;
  }

  lemma DistinctRemove(a: seq<string>, x: string, b: seq<string>)
    requires Distinct(a + [x] + b)
    ensures Distinct(a + b) && x !in a + b
  {
    var s := a + [x] + b;
    forall i, j | 0 <= i < j < |a + b| ensures (a + b)[i] != (a + b)[j] {
      var i', j' := if i < |a| then i else i + 1, if j < |a| then j else j + 1;
      assert (a + b)[i] == s[i'] && (a + b)[j] == s[j'];
    }
    forall i | 0 <= i < |a + b| ensures (a + b)[i] != x {
      var i' := if i < |a| then i else i + 1;
      assert (a + b)[i] == s[i'] && s[|a|] == x;
    }
  }

  lemma DistinctInsert(a: seq<string>, x: string, b: seq<string>)
    requires Distinct(a + b) && x !in a + b
    ensures Distinct(a + [x] + b)
  {
    var s := a + [x] + b;
    forall i, j | 0 <= i < j < |s| ensures s[i] != s[j] {
      if i != |a| && j != |a| {
        var i', j' := if i < |a| then i else i - 1, if j < |a| then j else j - 1;
        assert s[i] == (a + b)[i'] && s[j] == (a + b)[j'];
      } else if i == |a| {
        assert s[j] == (a + b)[j - 1];
      } else {
        assert s[i] == (a + b)[i];
      }
    }
  }
}
