/** The `typeAhead.source` seeding done by `init`: every entry of the source
    array goes through addItem, in order. The tags this produces are the
    valid entries with repeats dropped and the first occurrence kept. */
module Seeding {
  import opened Nodes
  import opened Edits

  /** The tags addItem creates for the given labels, none highlighted. */
  function FreshTags(ls: seq<string>): seq<Node> {
    if ls == [] then [] else [Tag(ls[0], false)] + FreshTags(ls[1..])
  }

  /** s with every occurrence of x dropped. */
  function Without(s: seq<string>, x: string): (r: seq<string>)
    ensures forall y :: y in r <==> y in s && y != x
  {
    if s == [] then [] else (if s[0] == x then [] else [s[0]]) + Without(s[1..], x)
  }

  /** The valid entries of src in order of first occurrence, each once: the
      first valid entry, then the rest with that value removed. */
  function FirstOccurrences(src: seq<Value>): (r: seq<string>)
    ensures forall x :: x in r <==> Str(x) in src && IsValValid(Str(x))
  {
    if src == [] then []
    else if IsValValid(src[0]) then [src[0].s] + Without(FirstOccurrences(src[1..]), src[0].s)
    else FirstOccurrences(src[1..])
  }

  lemma {:induction false} WithoutAppend(a: seq<string>, b: seq<string>, x: string)
    ensures Without(a + b, x) == Without(a, x) + Without(b, x)
  {
    if a == [] {
      assert a + b == b;
    } else {
      assert (a + b)[0] == a[0] && (a + b)[1..] == a[1..] + b;
      WithoutAppend(a[1..], b, x);
    }
  }

  /** The step of FirstOccurrencesSnoc where the head x of the source is
      valid: keeping x in front of the rest with x dropped commutes with
      appending y when y is valid and new. */
  lemma WithoutSnoc(fr: seq<string>, x: string, y: string, valid: bool)
    ensures var frv := if valid && y !in fr then fr + [y] else fr;
            [x] + Without(frv, x) ==
              if valid && y !in [x] + Without(fr, x) then [x] + Without(fr, x) + [y] else [x] + Without(fr, x)
  {
    if valid && y !in fr {
      WithoutAppend(fr, [y], x);
      assert [y][1..] == [];
      assert Without([y], x) == if y == x then [] else [y];
    }
  }

  /** Feeding one more entry to the seeding adds it at the end exactly when
      it is valid and not yet present: the reference definition agrees with
      the loop of addItem calls. */
  lemma {:induction false} FirstOccurrencesSnoc(src: seq<Value>, v: Value)
    ensures FirstOccurrences(src + [v]) ==
            if IsValValid(v) && v.s !in FirstOccurrences(src) then FirstOccurrences(src) + [v.s]
            else FirstOccurrences(src)
  {
    if src == [] {
      assert src + [v] == [v] && [v][1..] == [];
    } else {
      var u, rest := src[0], src[1..];
      assert (src + [v])[0] == u && (src + [v])[1..] == rest + [v];
      FirstOccurrencesSnoc(rest, v);
      if IsValValid(u) {
        WithoutSnoc(FirstOccurrences(rest), u.s, if v.Str? then v.s else "", IsValValid(v));
      }
    }
  }


  lemma {:induction false} FreshTagsLabels(ls: seq<string>)
    ensures Labels(FreshTags(ls)) == ls && Input !in FreshTags(ls) && |FreshTags(ls)| == |ls|
  {
    if ls != [] {
      FreshTagsLabels(ls[1..]);
      SelectedAppend([Tag(ls[0], false)], FreshTags(ls[1..]), AllTags);
      OneNode(Tag(ls[0], false));
    }
  }

  lemma {:induction false} FreshTagsSnoc(ls: seq<string>, x: string)
    ensures FreshTags(ls + [x]) == FreshTags(ls) + [Tag(x, false)]
  {
    if ls == [] {
      assert ls + [x] == [x] && [x][1..] == [];
    } else {
      assert (ls + [x])[0] == ls[0] && (ls + [x])[1..] == ls[1..] + [x];
      FreshTagsSnoc(ls[1..], x);
    }
  }

  /** The children made of fresh tags followed by the input: their labels
      and the cursor position. */
  lemma FreshThenInput(ls: seq<string>)
    ensures Input in FreshTags(ls) + [Input]
    ensures Labels(FreshTags(ls) + [Input]) == ls
    ensures InputIndex(FreshTags(ls) + [Input]) == |ls|
  {
    FreshTagsLabels(ls);
    SelectedAppend(FreshTags(ls), [Input], AllTags);
    OneNode(Input);
    assert (FreshTags(ls) + [Input])[..|ls|] == FreshTags(ls);
    InputIndexAt(FreshTags(ls) + [Input], |ls|);
  }

  /** addItem on fresh tags followed by the input appends the new label
      exactly when it is valid and not yet present. */
  lemma AddItemAfterFresh(ls: seq<string>, v: Value)
    ensures AddItem(FreshTags(ls) + [Input], v) ==
            if IsValValid(v) && v.s !in ls then FreshTags(ls + [v.s]) + [Input] else FreshTags(ls) + [Input]
  {
    var cs := FreshTags(ls) + [Input];
    FreshThenInput(ls);
    FreshTagsLabels(ls);
    if IsValValid(v) && v.s !in ls {
      InsertBeforeInputAt(cs, Tag(v.s, false));
      FreshTagsSnoc(ls, v.s);
      assert cs[..|ls|] == FreshTags(ls) && cs[|ls|..] == [Input];
    }
  }

  /** One step of the seeding loop: addItem on the children seeded so far
      gives the children seeded from one more entry. */
  lemma SeedStep(src: seq<Value>, v: Value)
    ensures AddItem(FreshTags(FirstOccurrences(src)) + [Input], v) ==
            FreshTags(FirstOccurrences(src + [v])) + [Input]
  {
    AddItemAfterFresh(FirstOccurrences(src), v);
    FirstOccurrencesSnoc(src, v);
  }
}
