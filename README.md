# tags-input in Dafny

A model of the jQuery plugin `tags-input`. The plugin turns a `div` holding one
text `input` into a tag editor. The container's children are tag `span`s,
each with a label and an optional `active` highlight class, plus the input.
The input's position among them acts as a cursor:

- new tags go immediately before it;
- Delete/Backspace remove its next/previous sibling;
- Left/Right swap it with a neighbour.

No two tags carry the same label at the same time. addItem only checks the labels currently present, so a label whose tag was removed can be added again.

The model views every DOM operation of the plugin as an edit of a sequence of
children, `seq<Node>` with `Node = Tag(value, active) | Input`. A tag's label
is called `value` because `label` is a Dafny keyword.

- `nodes.dfy` (module `Nodes`) holds the following:
  - the node, value and selector types;
  - the validity check `isValValid`;
  - the queries over the children: labels picked by a selector (`getItems`),
    the tag subsequence, and the position and count of inputs;
  - the container invariant `WellFormed`: exactly one input, pairwise distinct
    labels, and only valid labels.
- `edits.dfy` (module `Edits`) holds the edits the plugin makes, as pure
  functions of the old children:
  - insert before the input;
  - remove the next or previous sibling;
  - move the input left or right;
  - remove the tag `span:eq(i)` picks;
  - remove all tags;
  - delete a clicked tag;
  - toggle a tag;
  - `addItem`.

  Lemmas say where each edit acts, and that each keeps `WellFormed`.
- `seeding.dfy` (module `Seeding`) holds the reference definition of the
  `typeAhead.source` seeding done by `init`: the valid entries, in order of
  first occurrence. It also proves that the `forEach` loop of `addItem` calls
  computes exactly this.
- `keyboard.dfy` (module `Keyboard`) holds `keyProcessing` as a transition on
  (children, input text), with one lemma per key.
- `plugin.dfy` (module `Plugin`) holds the class `TagsInput`, the plugin
  instance. Its fields are the children, the input text, the options, and
  three counters recording how often `afterAdd`, `afterRemove` and
  `afterRemoveAll` were called. Each method changes the fields as the pure
  edit of its operation says. The invariant `Valid()` is `WellFormed` of
  the children. Every method that edits the children, except `Destroy`,
  requires and keeps it. `SetInputText` and the queries leave the children
  untouched. `getItems` and the `init` seeding are loops, as in the source.
- `scenarios.dfy` (module `Scenarios`) holds short clients whose concrete
  outcomes the verifier establishes:
  - adding `alpha`, `beta`, `alpha` leaves two tags but calls `afterAdd` three
    times;
  - seeding from `["a", 5, "b", "a"]` gives tags `a`, `b`;
  - `removeTag(5)` with one tag removes nothing but calls `afterRemove`;
  - Enter, then Left, then Delete on typed text.

Notes on the code as written:

- `addTag` calls `afterAdd` whenever the value is valid, even when `addItem`
  then drops it as a duplicate (tags-input.js:169-172). The model keeps this.
- `addItem`, and therefore `addTag` and the seeding, inserts before the input,
  not at the end of the tags. After Left moves the cursor, a new tag lands in
  the middle. `Edits.AddItemAppendsWhenInputLast` states when it is an append.
- `removeTag(i)` removes the tag jQuery's `span:eq(i)` picks. The model assumes
  jQuery 1.8 or later, where a negative index counts back from the last tag
  (`-2` is the second to last); the file names no jQuery version, and older
  jQuery versions pick nothing for a negative index. The index
  `-1`, which would pick the last tag, is the "no index" value and removes
  nothing.
- The callbacks fire only when they are configured: `this.options.afterX && ...`.
  In the model this is the `Config` flags.

## Model

| member | source | states |
|---|---|---|
| Nodes.InvalidValues | tags-input.js:38-40 | the empty string, any non-string, and any string starting with a space or a newline are invalid; a non-empty string starting with any other character is valid |
| Nodes.InSelected | tags-input.js:54-60 | a label is among those getItems collects exactly when some child the selector picks carries it |
| Nodes.SelectedOfTags | tags-input.js:54-60 | getItems reads span children only: the input's position does not affect the result, and the result depends on the tag subsequence alone |
| Nodes.HighlightedAreTags | tags-input.js:200-208 | every label getHighlightTags returns also comes from getTags |
| Edits.InsertBeforeInputAt | tags-input.js:32-33 | `$(input).before(tag)` puts the new node at exactly the input's position; all other children stay, in order |
| Edits.AddItemAt | tags-input.js:29-36 | addItem inserts Tag(v, false) immediately before the input iff v is valid and no tag carries v; otherwise the children are unchanged |
| Edits.AddItemMakesPresent | tags-input.js:29-36 | after addItem with a valid value, a tag with that label exists |
| Edits.AddItemIdempotent | tags-input.js:29-36 | a second addItem with the same value changes nothing |
| Edits.AddItemAppendsWhenInputLast | tags-input.js:29-36 | when the input is the last child, a new valid label is appended to the tag labels |
| Edits.AddItemKeepsWellFormed | tags-input.js:29-36 | addItem keeps one input, pairwise distinct labels and only valid labels |
| Edits.RemoveAfterInputAt | tags-input.js:92-96 | `input.next().remove()` drops exactly the child after the input, and nothing when the input is last |
| Edits.RemoveBeforeInputAt | tags-input.js:97-101 | `input.prev().remove()` drops exactly the child before the input, and nothing when the input is first |
| Edits.MoveInputLeftAt | tags-input.js:102-106 | `insertBefore(prev())` swaps the input with its previous sibling, and does nothing when it is first |
| Edits.MoveInputRightAt | tags-input.js:107-111 | `insertAfter(next())` swaps the input with its next sibling, and does nothing when it is last |
| Edits.MoveInputLeftKeepsTags | tags-input.js:102-106 | moving left preserves the tag subsequence (labels and flags, in order) and the single input |
| Edits.MoveInputRightKeepsTags | tags-input.js:107-111 | moving right preserves the tag subsequence (labels and flags, in order) and the single input |
| Edits.MoveInputLeftIndex | tags-input.js:102-106 | the cursor moves one place left, or stays at position 0 |
| Edits.MoveInputRightIndex | tags-input.js:107-111 | the cursor moves one place right, or stays when it is last |
| Edits.MoveLeftThenRight | tags-input.js:102-111 | moving the input left and then right restores the children when it had a previous sibling |
| Edits.MoveRightThenLeft | tags-input.js:102-111 | moving the input right and then left restores the children when it had a next sibling |
| Edits.RemoveAfterInputKeepsWellFormed | tags-input.js:92-96 | Delete's edit keeps the container invariant |
| Edits.RemoveBeforeInputKeepsWellFormed | tags-input.js:97-101 | Backspace's edit keeps the container invariant |
| Edits.NthTagIndex | tags-input.js:184 | for n below the number of tags, the position of the n-th tag counting tags only: a tag with exactly n tags before it |
| Edits.RemoveNthTagAt | tags-input.js:184 | removing the n-th tag drops exactly the child that is a tag with n tags before it |
| Edits.RemoveNthTagOutOfRange | tags-input.js:184 | removing the n-th tag when there are at most n tags changes nothing |
| Edits.RemoveNthTagLabels | tags-input.js:184 | on the labels, removing the n-th tag deletes exactly the n-th label |
| Edits.RemoveEqLabels | tags-input.js:184 | `span:eq(i)` removal deletes the label at the picked position (i, or counted back from the end for negative i) when that position exists, and otherwise changes nothing |
| Edits.RemoveEqFromEnd | tags-input.js:184 | a negative index -k, for k up to the number of tags, removes the k-th label from the end |
| Edits.RemoveEqKeepsWellFormed | tags-input.js:184 | removeTag's edit keeps the container invariant |
| Edits.RemoveNthTagKeepsWellFormed | tags-input.js:184 | removing the n-th tag keeps the container invariant |
| Edits.RemoveTagKeepsWellFormed | tags-input.js:50-52 | removing any one tag keeps the container invariant |
| Edits.DeleteItemIsRemoveTag | tags-input.js:50-52 | deleting the clicked tag equals removing the tag whose ordinal (counting tags only) is the number of tags before it |
| Edits.RemoveAllTagsLeavesInput | tags-input.js:189 | removing all spans leaves exactly the input when there was one input, and nothing when there were none |
| Edits.TagChangeStateTwice | tags-input.js:62-69 | toggling a tag twice restores the children |
| Edits.TagChangeStateKeepsLabels | tags-input.js:62-69 | a toggle flips only that tag's flag; every other child, the length and every label are unchanged |
| Edits.TagChangeStateHighlight | tags-input.js:62-69 | after a toggle, the toggled label is highlighted iff it was not; every other label keeps its highlight |
| Seeding.FirstOccurrences | tags-input.js:152-158 | a label is seeded iff it occurs as a valid string entry of the source array |
| Seeding.FirstOccurrencesSnoc | tags-input.js:155-157 | one more source entry extends the seeded labels by that entry exactly when it is valid and not yet present |
| Seeding.AddItemAfterFresh | tags-input.js:29-36 | on fresh tags followed by the input, addItem appends the label exactly when it is valid and new |
| Seeding.SeedStep | tags-input.js:155-157 | one addItem call of the seeding loop takes the children seeded from a prefix to those seeded from the prefix plus one entry |
| Keyboard.EnterAddsAndClears | tags-input.js:88-91 | Enter inserts the text as a tag before the input iff it is valid and new, and always clears the text |
| Keyboard.DeleteRemovesNext | tags-input.js:92-96 | Delete with an invalid text (such as " x") drops the child after the input, if any, and keeps the text |
| Keyboard.BackspaceRemovesPrevious | tags-input.js:97-101 | Backspace with an invalid text drops the child before the input, if any, and keeps the text |
| Keyboard.LeftSwapsWithPrevious | tags-input.js:102-106 | Left with an invalid text swaps the input with its previous sibling; the tag subsequence is unchanged |
| Keyboard.RightSwapsWithNext | tags-input.js:107-111 | Right with an invalid text swaps the input with its next sibling; the tag subsequence is unchanged |
| Keyboard.OnlyEnterWhileTyping | tags-input.js:42-48 | with a valid text every key but Enter changes nothing, and keys other than the five handled codes never change anything |
| Keyboard.KeyTransitionKeepsWellFormed | tags-input.js:79-115 | every keydown keeps the container invariant |
| Keyboard.LeftThenRight | tags-input.js:102-111 | Left then Right with an invalid text restores children and text when the input had a previous sibling |
| Keyboard.RightThenLeft | tags-input.js:102-111 | Right then Left with an invalid text restores children and text when the input had a next sibling |
| Plugin.AddTagFiresOnDuplicate | tags-input.js:169-172 | addTag with an existing label inserts nothing, yet its value passes the check that gates afterAdd |
| Plugin.AddTagInvalidIsNoOp | tags-input.js:160-172 | addTag with no valid value (none given, or an invalid one) neither inserts nor fires |
| Plugin.RemoveTagFiresOutOfRange | tags-input.js:183-186 | removeTag with any index other than -1 that picks no tag (at or past the number of tags, or below minus that number) removes nothing, yet reaches afterRemove |
| Plugin.TagsInput.constructor | tags-input.js:152-158 | after init the children are the first occurrences of the valid source entries as fresh tags, followed by the input; the text is empty; no callback has fired |
| Plugin.TagsInput.SeedFrom | tags-input.js:155-157 | the `forEach` loop of addItem calls, started from the input alone, leaves the first occurrences of the valid source entries as fresh tags, in order, followed by the input |
| Plugin.TagsInput.GetItems | tags-input.js:54-60 | the loop returns the labels of the picked children, in document order |
| Plugin.TagsInput.AddItem | tags-input.js:29-36 | the new children are addItem of the old ones (inserted before the input iff valid and new), and the invariant holds |
| Plugin.TagsInput.KeyProcessing | tags-input.js:79-115 | the new children and text are the key's transition of the old ones, and the invariant holds |
| Plugin.TagsInput.DeleteItem | tags-input.js:50-52 | the clicked tag is removed, all else stays in order, and the invariant holds |
| Plugin.TagsInput.TagChangeState | tags-input.js:62-69 | only the clicked tag's flag flips, and the invariant holds |
| Plugin.TagsInput.AddTag | tags-input.js:160-173 | the children are addItem of the given value, and afterAdd's count rises by one iff the value is valid and the callback is set |
| Plugin.TagsInput.RemoveTag | tags-input.js:174-187 | with an index other than -1, the tag `span:eq(i)` picks is removed, and afterRemove's count rises by one if set, even when no tag was picked; otherwise nothing changes |
| Plugin.TagsInput.RemoveAll | tags-input.js:188-191 | only the input remains, and afterRemoveAll's count rises by one if set |
| Plugin.TagsInput.GetTags | tags-input.js:192-199 | returns all tag labels in document order |
| Plugin.TagsInput.GetHighlightTags | tags-input.js:200-208 | returns the labels of the active tags in document order |
| Plugin.TagsInput.Destroy | tags-input.js:209-213 | no child remains |

## Left out

- Event wiring (tags-input.js:117-134, 146-150): the click and keydown bindings, `preventDefault` and `focus`. The methods model the operations the handlers call: `KeyProcessing`, `DeleteItem` and `TagChangeState`.
- Browser default actions of a key, such as Backspace deleting a character of the text. The user's typing is the helper `SetInputText`.
- The plugin registry and method dispatch in `$.fn[pluginName]` (tags-input.js:216-227). This includes `$.data`/`$.removeData` (tags-input.js:210) and the `console.log` message for an unknown method; these are library glue.
- The page-ready auto-initialisation (tags-input.js:231-246), which is demo configuration.
- Options merging with `$.extend` over defaults and `data-` attributes (tags-input.js:138). `Config` is the merged result, reduced to the source array and which callbacks are set.
- `isArray` and its fallback (tags-input.js:71-77). `Config.typeAheadSource` is `None` exactly when the source is absent or not an array.
- Markup interpretation of labels (tags-input.js:32-33). The label is assumed to equal the string that was added, even when it contains markup.
- The `closest('div')` lookup (tags-input.js:31): it is assumed to resolve to the container.
- The `tagsinput` CSS class added by `init` and removed by `destroy`: it is presentation only.
- Tags present in the markup before `init`. The container starts as the input alone.
- Arguments to `addTag`/`removeTag` that are neither a string/number nor an object. On such values `'val' in params` or `'index' in params` throws at tags-input.js:165 and 179.
- Fractional indices, NaN and ±Infinity as removeTag's index. The index is an `int`; each of these is a number other than -1, so the source fires afterRemove while picking no tag.
- A truthy non-object `typeAhead`, on which `'source' in` throws.
- The callback form of `getTags`/`getHighlightTags` (tags-input.js:194-195, 203-204): the model returns the labels.
- The callbacks' own effects. Only how often each is called is recorded.
- Editing an instance after `destroy`. `Destroy` does not keep `Valid()`, so no method that edits the children (`AddItem`, `KeyProcessing`, `DeleteItem`, `TagChangeState`, `AddTag`, `RemoveTag`, `RemoveAll`) can be called afterwards. The queries `GetItems`, `GetTags` and `GetHighlightTags` still can, and return `[]`, which is what `getItems` returns on the emptied container; `SetInputText` also still can.
