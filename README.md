# Structural navigation over a forest of syntax layers (helix)

This project models four pieces of the helix editor in Dafny and proves properties about them.

1. **The cross-layer tree cursor** (`helix-core/src/syntax/tree_cursor.rs`). A document's syntax is a forest: one tree-sitter tree per language layer, linked by injections. The cursor holds a current layer and a current node, and moves so that the forest reads as one tree:
   - `goto_parent` climbs out of an injected layer into the layer that encloses it;
   - `goto_first_child` enters an injected layer when the node's exact byte range is an injection key;
   - the two sibling moves stay inside one tree;
   - `reset_to_byte_range` lands on the deepest layer that contains a byte range.
2. **Structural selection** (`helix-core/src/object.rs`): expand, shrink, next sibling and previous sibling. Each operation maps every range of a selection from chars to bytes, resets the cursor, moves it, and maps the final node back to a char range with the original direction.
3. **The completion picker's cycling index** (`helix-term/src/ui/copilot_picker.rs`).
4. **The file explorer's bookkeeping** (`helix-term/src/ui/explorer.rs`). This covers:
   - the entry order;
   - the bounded stack of earlier roots;
   - the column width;
   - the focus/open and help/preview flags.

Files and modules:

- `wrappers.dfy` (`Wrappers`): `Option`, `Result` and `Outcome`.
- `layers.dfy` (`Layers`): byte ranges, tree nodes, trees, layers, and the `Forest`. The `Forest` bundles everything `TreeCursor::new` receives: the layer store with its iteration order, the root layer id and the injection map. It also carries tree-sitter's `descendant_for_byte_range` as an oracle. `Forest.Valid` has three parts. First, what the cursor needs in order not to panic: every layer id it looks up is in the store, every tree's node links resolve, and every non-root layer has a parent. Second, `Forest.OrderComplete`: the iteration order visits every layer of the store, as `HopSlotMap::iter` does; `reset_to_byte_range`'s choice of the deepest layer depends on it. Third, two assumptions. An enclosing layer is less deep than the layers it encloses; this is a fact about how `syntax.rs` builds layers, and it is what makes `expand_selection`'s loop terminate. A node that `descendant_for_byte_range` returns covers the range; this is the property assumed of tree-sitter. `Forest.Nested` states the geometry of a well-formed forest: trees nest, each injected layer's root node lies inside the root node of the layer that encloses it, and each injection key contains the root node of the layer it names. It does not relate a root node to its layer's coverage: a tree-sitter root starts after leading whitespace.
- `tree_cursor.dfy` (`TreeCursor`): one pure step function per move. The class `Cursor` mutates `current` and `cursor` and is proved to follow the step functions. The lemmas state what each move does.
- `object.dfy` (`Object`): the selection operations. Each has a per-range closure (a method on the shared cursor, with `expand_selection`'s loop) and a driver that creates the cursor and maps every range. Both are proved equal to pure specifications. `select_node_impl`'s closure parameter becomes the closed datatype `Motion`.
- `copilot_picker.dfy` (`CopilotPicker`): the class `CompletionPicker` with the index `cur` over an opaque transaction type.
- `explorer.dfy` (`Explorer`): the `FileInfo` order over paths modelled as component sequences, and the class `Explorer` over an opaque tree-view type.

Modelling choices:

- A layer's tree is immutable while the cursor borrows it, so it is a `seq<Node>`, an immutable array. Node 0 is the root. The only ordering the model requires is that a parent's index is below its children's, which pre-order numbering satisfies. Layer depth followed by node index is the measure that proves `expand_selection`'s loop terminates.
- `HopSlotMap` becomes a `map` from layer id to layer, plus the sequence in which iteration visits the ids. `reset_to_byte_range` depends on that order: among equally deep layers that contain the range, the first one visited wins, because the comparison is a strict `>`.
- `LanguageLayer::contains_byte_range` is modelled over one coverage range, from the start of the layer's first included range to the end of its last.
- The text's `char_to_byte` and `byte_to_char` are total monotone functions carried in `Text`.
- Helix's `Range` is modelled from its documented behaviour. It is backward exactly when the head is before the anchor, and `with_direction` flips it when the direction differs. So an output range that is empty is always forward.
- `Selection::transform` is modelled as a map that keeps the order and the number of ranges.

Behaviour of the code worth noting:

- When `goto_parent` leaves an injected layer, it looks up the enclosing tree's descendant for the current node's byte range (tree_cursor.rs:51-58), not for the layer's coverage.
- `reset_to_byte_range` starts from the root layer, so it keeps the root layer even when the root layer does not contain the range.
- The injection lookup is one global map keyed by exact byte range. On the root of an injected layer whose range is its own key, `goto_first_child` re-enters that root and reports success, so it never reaches that root's children (`FirstChildReentersInjectedRoot`).
- A selection that starts in the leading whitespace of an injected layer's included range is expanded away from itself. The reset picks that layer, because its coverage contains the selection. The lookup then falls back to the layer's root node, which starts after the whitespace and does not contain the selection (`ExpandLeavesPaddedSelection`).
- `go_to_previous_root` restores the tree view but leaves `state.current_root` on the root that was left (`ChangeRootThenGoBack`).
- `push_history` truncates after pushing, so once the history is full the newest entry is the one that is dropped (`PushOntoFullHistory`).
- `FileInfo::cmp` answers Less for a root against itself, so it is not reflexive on roots (`CmpRoot`). Across folders it is not transitive (`CmpCycleAcrossFolders`). Within one folder it is a proper order.

## Model

| member | source | states |
|---|---|---|
| `TreeCursor.RangeOf` | helix-core/src/syntax/tree_cursor.rs:51 | a node's byte range, never reversed |
| `TreeCursor.DescendantOrRoot` | helix-core/src/syntax/tree_cursor.rs:111-112 | `descendant_for_byte_range(..).unwrap_or(root)` is a node of the tree; unless it is the root, it covers the range |
| `TreeCursor.ParentStep` | helix-core/src/syntax/tree_cursor.rs:39-62 | `goto_parent` keeps the position valid, stays put exactly when it fails, and otherwise strictly decreases (layer depth, node index) |
| `TreeCursor.FirstChildStep` | helix-core/src/syntax/tree_cursor.rs:64-79 | `goto_first_child` keeps the position valid and stays put when it fails |
| `TreeCursor.NextSiblingStep` | helix-core/src/syntax/tree_cursor.rs:81-88 | `goto_next_sibling` never changes the layer and stays put when it fails |
| `TreeCursor.PrevSiblingStep` | helix-core/src/syntax/tree_cursor.rs:90-97 | `goto_prev_sibling` never changes the layer and stays put when it fails |
| `TreeCursor.Container` | helix-core/src/syntax/tree_cursor.rs:100-108 | the layer the scan has chosen after a prefix of the iteration order is a layer of the store |
| `TreeCursor.ResetTarget` | helix-core/src/syntax/tree_cursor.rs:99-113 | the reset position is valid and is a function of the range alone |
| `TreeCursor.ParentInTree` | helix-core/src/syntax/tree_cursor.rs:40-43 | with an in-tree parent, `goto_parent` moves to it in the same layer and returns true |
| `TreeCursor.ParentAtTop` | helix-core/src/syntax/tree_cursor.rs:46-48 | on the root layer with no in-tree parent, it returns false and changes nothing |
| `TreeCursor.ParentCrossesLayer` | helix-core/src/syntax/tree_cursor.rs:51-61 | on another layer with no in-tree parent: the layer becomes its `parent` link, the node becomes that tree's descendant for the old node's range (or its root), and it returns true |
| `TreeCursor.RootCoversNode` | helix-core/src/syntax/tree_cursor.rs:56-59 | in a nested tree, the root node (the fallback) covers every node |
| `TreeCursor.ParentCovers` | helix-core/src/syntax/tree_cursor.rs:39-62 | in a nested forest, the node `goto_parent` reaches covers the node it left, also across layers |
| `TreeCursor.FirstChildCases` | helix-core/src/syntax/tree_cursor.rs:64-79 | an exact injection key enters that layer's root; otherwise child 0 of the same tree; otherwise false and no change |
| `TreeCursor.FirstChildThenParent` | helix-core/src/syntax/tree_cursor.rs:72-75 | after descending to child 0 of the same tree, `goto_parent` returns to the node it started from |
| `TreeCursor.FirstChildNarrows` | helix-core/src/syntax/tree_cursor.rs:64-79 | in a nested forest the node reached, child 0 or the injected layer's root, lies inside the node left |
| `TreeCursor.FirstChildReentersInjectedRoot` | helix-core/src/syntax/tree_cursor.rs:66-71 | on an injected root whose range is its own key, `goto_first_child` returns true without moving |
| `TreeCursor.SiblingRoundTrip` | helix-core/src/syntax/tree_cursor.rs:81-97 | a successful next-sibling step is undone by a previous-sibling step, and the other way round |
| `TreeCursor.ContainerIsRootOrContains` | helix-core/src/syntax/tree_cursor.rs:100-108 | after each prefix of the scan, the choice is the root or contains the range, and it is at least as deep as the root |
| `TreeCursor.ContainerIsDeepest` | helix-core/src/syntax/tree_cursor.rs:100-108 | after each prefix of the scan, the choice is at least as deep as every visited layer that contains the range |
| `TreeCursor.ResetPicksDeepestLayer` | helix-core/src/syntax/tree_cursor.rs:99-113 | the reset layer is the root or contains `[start, end)`, no containing layer is deeper, and the node is the root or covers the range |
| `TreeCursor.ResetCovers` | helix-core/src/syntax/tree_cursor.rs:110-112 | in a nested forest, when the root node of the chosen layer covers the range, the reset node covers the range |
| `TreeCursor.Cursor.constructor` | helix-core/src/syntax/tree_cursor.rs:19-33 | a new cursor is on the root layer, at that tree's root node |
| `TreeCursor.Cursor.CurrentNode` | helix-core/src/syntax/tree_cursor.rs:35-37 | `node` returns the current node; its byte range is not reversed |
| `TreeCursor.Cursor.GotoParent` | helix-core/src/syntax/tree_cursor.rs:39-62 | the new position and the result are `ParentStep` of the old position |
| `TreeCursor.Cursor.GotoFirstChild` | helix-core/src/syntax/tree_cursor.rs:64-79 | the new position and the result are `FirstChildStep` of the old position |
| `TreeCursor.Cursor.GotoNextSibling` | helix-core/src/syntax/tree_cursor.rs:81-88 | the layer is unchanged; the new position and the result are `NextSiblingStep` of the old position |
| `TreeCursor.Cursor.GotoPrevSibling` | helix-core/src/syntax/tree_cursor.rs:90-97 | the layer is unchanged; the new position and the result are `PrevSiblingStep` of the old position |
| `TreeCursor.Cursor.ResetToByteRange` | helix-core/src/syntax/tree_cursor.rs:99-113 | the `for` loop over the store's iteration order leaves the cursor at `ResetTarget`, whatever it was on before |
| `TreeCursor.ResetTwice` | helix-core/src/syntax/tree_cursor.rs:99-113 | resetting twice to a range gives the same cursor as resetting once |
| `Object.Range.From` | helix-core/src/object.rs:7 | `from()` is the smaller of anchor and head |
| `Object.Range.To` | helix-core/src/object.rs:8 | `to()` is the larger of anchor and head |
| `Object.Range.Direction` | helix-core/src/object.rs:27 | backward exactly when the head is before the anchor |
| `Object.Range.WithDirection` | helix-core/src/object.rs:27 | keeps the span and points the requested way, except that an empty range stays forward |
| `Object.ByteSpan` | helix-core/src/object.rs:7-8 | the byte range of a char range is not reversed |
| `Object.SpanToRange` | helix-core/src/object.rs:68-72 | the output range spans the node's bounds converted to chars and carries the input direction (an empty range is forward) |
| `Object.Climb` | helix-core/src/object.rs:13-21 | the loop's final position is valid; it terminates on the (layer depth, node index) measure |
| `Object.ExpandNode` | helix-core/src/object.rs:7-21 | the node expand ends on is a valid position |
| `Object.ExpandRange` | helix-core/src/object.rs:6-28 | the range expand returns spans the final node's bounds converted to chars and keeps the input's direction unless it is empty |
| `Object.MotionTarget` | helix-core/src/object.rs:31-47 | the position each motion ends on is valid |
| `Object.MotionNode` | helix-core/src/object.rs:60-66 | the node `select_node_impl` ends on is a valid position |
| `Object.MotionRange` | helix-core/src/object.rs:60-73 | the range `select_node_impl` returns spans the final node's bounds converted to chars and keeps the input's direction unless it is empty |
| `Object.ClimbStops` | helix-core/src/object.rs:13-21 | expand stops with the node's range different from the original, or where `goto_parent` has just failed |
| `Object.ClimbCovers` | helix-core/src/object.rs:13-21 | in a nested forest, climbing from a covering node ends on a covering node |
| `Object.ExpandCoversSelection` | helix-core/src/object.rs:3-29 | in a nested forest where the root node of the layer the reset picks covers the byte span, the expanded node covers it, and it differs from it unless the climb hit the top |
| `Object.PaddedInjection` | helix-core/src/syntax/tree_cursor.rs:99-113 | a concrete forest satisfying `Valid` and `Nested`: an injected layer with coverage 10..20 whose root node is 12..20 |
| `Object.ExpandLeavesPaddedSelection` | helix-core/src/object.rs:7-27 | in that forest, expanding bytes 10..11 lands on the injected root 12..20, which does not contain the selection |
| `Object.ShrinkIsOneStep` | helix-core/src/object.rs:31-35 | shrink is exactly one `goto_first_child` after the reset; when that fails, the result is the reset node |
| `Object.ShrinkNarrows` | helix-core/src/object.rs:31-35 | in a nested forest the shrunk node lies inside the node the reset found, in bytes and in chars |
| `Object.SiblingFallback` | helix-core/src/object.rs:37-47 | the sibling if there is one; else no move if `goto_parent` fails; else the parent's sibling, or the parent itself when it has none |
| `Object.NextThenPrevSibling` | helix-core/src/object.rs:37-47 | a next-sibling motion that found a sibling is undone by a previous-sibling motion |
| `Object.ExpandOne` | helix-core/src/object.rs:6-28 | the closure's `loop` over `goto_parent` yields `ExpandRange` of the input range |
| `Object.ExpandSelection` | helix-core/src/object.rs:3-29 | same number of ranges, and range i is the expansion of input range i |
| `Object.RunMotion` | helix-core/src/object.rs:32-46 | the motion closures' short-circuit sequences move the cursor to `MotionTarget` |
| `Object.SelectNodeOne` | helix-core/src/object.rs:60-73 | the closure yields `MotionRange` of the input range |
| `Object.SelectNodeImpl` | helix-core/src/object.rs:49-74 | same number of ranges, and range i is the motion's result for input range i |
| `Object.ShrinkSelection` | helix-core/src/object.rs:31-35 | same number of ranges; each is the first-child motion's result |
| `Object.SelectNextSibling` | helix-core/src/object.rs:37-41 | same number of ranges; each is the next-sibling motion's result |
| `Object.SelectPrevSibling` | helix-core/src/object.rs:43-47 | same number of ranges; each is the previous-sibling motion's result |
| `CopilotPicker.CompletionPicker.constructor` | helix-term/src/ui/copilot_picker.rs:24-33 | a picker on a non-empty list starts at `cur = 0` |
| `CopilotPicker.CompletionPicker.New` | helix-term/src/ui/copilot_picker.rs:17-34 | None exactly for an empty list; otherwise a valid picker at 0 together with `transactions[0]` |
| `CopilotPicker.CompletionPicker.Next` | helix-term/src/ui/copilot_picker.rs:36-45 | at the last index: None and `cur` unchanged; otherwise `cur + 1` and `(transactions[cur-1], transactions[cur])`; `cur < len` is kept |
| `CopilotPicker.CompletionPicker.Prev` | helix-term/src/ui/copilot_picker.rs:47-56 | at 0: None and `cur` unchanged; otherwise `cur - 1` and `(transactions[cur+1], transactions[cur])`; `cur < len` is kept |
| `CopilotPicker.NextThenPrev` | helix-term/src/ui/copilot_picker.rs:36-56 | a successful `next` then `prev` restores `cur`, and the second swap is the first reversed |
| `Explorer.NameCmp` | helix-term/src/ui/explorer.rs:91 | file names compare Equal exactly when they are equal, and a proper prefix sorts first |
| `Explorer.ComponentCmp` | helix-term/src/ui/explorer.rs:91 | path components compare Equal exactly when they are equal |
| `Explorer.PathCmp` | helix-term/src/ui/explorer.rs:91 | `Path::cmp`: Equal exactly for equal paths, and a proper prefix sorts first |
| `Explorer.ParentPath` | helix-term/src/ui/explorer.rs:82 | `Path::parent`: the path without its last component, and none exactly for an empty path or one ending at the root |
| `Explorer.NameCmpReverse` | helix-term/src/ui/explorer.rs:91 | name order is antisymmetric, and Equal exactly for equal names |
| `Explorer.NameCmpTransitive` | helix-term/src/ui/explorer.rs:91 | name order is transitive |
| `Explorer.ComponentCmpReverse` | helix-term/src/ui/explorer.rs:91 | component order is antisymmetric, and Equal exactly for equal components |
| `Explorer.ComponentCmpTransitive` | helix-term/src/ui/explorer.rs:91 | component order is transitive |
| `Explorer.PathCmpReverse` | helix-term/src/ui/explorer.rs:91 | path order is antisymmetric, and Equal exactly for equal paths |
| `Explorer.PathCmpTransitive` | helix-term/src/ui/explorer.rs:91 | path order is transitive |
| `Explorer.Cmp` | helix-term/src/ui/explorer.rs:73-93 | a root entry sorts first; a non-root entry is Equal to itself; Equal only between non-root entries with equal paths |
| `Explorer.IsParent` | helix-term/src/ui/explorer.rs:114-116 | exactly folders and the root can have children |
| `Explorer.CmpRoot` | helix-term/src/ui/explorer.rs:76-79 | Less whenever the left entry is the root (root against root included); Greater when only the right one is |
| `Explorer.CmpFoldersFirst` | helix-term/src/ui/explorer.rs:82-89 | for two non-root entries with the same parent, a folder sorts before a file |
| `Explorer.CmpByPath` | helix-term/src/ui/explorer.rs:91 | in every other case the result is the path order |
| `Explorer.CmpAntisymmetric` | helix-term/src/ui/explorer.rs:73-93 | on non-root entries: antisymmetric, Equal on equal entries, and Equal only for equal paths |
| `Explorer.CmpTransitiveInFolder` | helix-term/src/ui/explorer.rs:73-93 | among the entries of one folder, the order is transitive |
| `Explorer.CmpCycleAcrossFolders` | helix-term/src/ui/explorer.rs:82-91 | three entries in two folders that the order puts in a cycle |
| `Explorer.SaturatingSub` | helix-term/src/ui/explorer.rs:725 | `u16::saturating_sub`: the exact difference when it is not negative, else 0 |
| `Explorer.SaturatingAdd` | helix-term/src/ui/explorer.rs:726 | `u16::saturating_add`: the exact sum when it fits in 16 bits, else 65535 |
| `Explorer.IncreasedWidth` | helix-term/src/ui/explorer.rs:722-728 | the new width is `min(width + 1, area - 10)` in unbounded arithmetic (0 when the area is narrower than 10); the saturating add never shows |
| `Explorer.DecreasedWidth` | helix-term/src/ui/explorer.rs:730-732 | one less, and 0 stays 0 |
| `Explorer.Truncate` | helix-term/src/ui/explorer.rs:211 | `Vec::truncate`: no change with at most n items, otherwise exactly the first n |
| `Explorer.PushOntoFullHistory` | helix-term/src/ui/explorer.rs:208-212 | pushing onto a full history of 20 leaves it unchanged, so the new entry is lost |
| `Explorer.Explorer.constructor` | helix-term/src/ui/explorer.rs:175-187 | a new explorer is focused and open, has an empty history, has help and preview off, and takes the width it is given |
| `Explorer.Explorer.PushHistory` | helix-term/src/ui/explorer.rs:208-212 | the history becomes the first 20 items of the old history plus the new view; nothing else changes |
| `Explorer.Explorer.ChangeRoot` | helix-term/src/ui/explorer.rs:214-223 | no-op on the current root; a failed build changes nothing and returns the error; otherwise the new view replaces the tree, the old one is pushed, and `current_root` is set |
| `Explorer.Explorer.GoToPreviousRoot` | helix-term/src/ui/explorer.rs:695-699 | pops the last history entry into `tree`; no change on an empty history; `state` is never touched |
| `Explorer.ChangeRootThenGoBack` | helix-term/src/ui/explorer.rs:695-699 | after a root change and a step back, the old tree and history return but `current_root` still names the root that was left |
| `Explorer.Explorer.IncreaseSize` | helix-term/src/ui/explorer.rs:722-728 | the column width becomes `IncreasedWidth` of the old width and the area width |
| `Explorer.Explorer.DecreaseSize` | helix-term/src/ui/explorer.rs:730-732 | the column width becomes `DecreasedWidth` of the old width |
| `Explorer.Explorer.Focus` | helix-term/src/ui/explorer.rs:274-277 | sets focus and open; the rest of the state is unchanged |
| `Explorer.Explorer.Unfocus` | helix-term/src/ui/explorer.rs:279-281 | clears focus only |
| `Explorer.Explorer.Close` | helix-term/src/ui/explorer.rs:283-286 | clears focus and open |
| `Explorer.Explorer.ToggleHelp` | helix-term/src/ui/explorer.rs:691-693 | negates `show_help` |
| `Explorer.Explorer.TogglePreview` | helix-term/src/ui/explorer.rs:757-759 | negates `show_preview` |
| `Explorer.ToggleTwice` | helix-term/src/ui/explorer.rs:691-693 | toggling help twice, or preview twice, restores it |

## Left out

- `helix-core/src/syntax.rs` is not part of this model. That file defines `LanguageLayer`, `Syntax::walk` and the way the injection map is derived from the layers, so the injection map is an input to the cursor, as it is to `TreeCursor::new`.
- Two clauses of `Forest.Valid` are assumptions, not derived facts. One is the depth order of `Forest.ParentOk`, which comes from how `syntax.rs` builds layers. The other is the covering property of `Forest.DescendantOk`, which comes from tree-sitter. Together with the clauses of `Forest.Nested` beyond tree nesting, they are what the model takes on trust.
- Tree-sitter itself is not modelled: parsing, `Node`, and `descendant_for_byte_range`. The lookup is an oracle. Its result, when present, is a node of the tree that covers the range.
- `HopSlotMap` and `HashMap` internals are not modelled. A map plus an iteration order stands in for them.
- Rope `char_to_byte` and `byte_to_char` are modelled as total monotone functions. Their panic on an out-of-bounds offset is not modelled.
- Selection details are not modelled: the primary index, `Range`'s visual-position field, and any normalisation performed by the selection type after `transform`.
- Object.SpanToRange: for an empty output range the direction is always forward, so the contract states direction preservation only for non-empty results.
- Object.ExpandCoversSelection: the monotonicity is proved only under `Forest.Nested`, and only when the root node of the layer the reset picks covers the selection. Tree-sitter guarantees only that children lie inside their parents. The other clauses of `Forest.Nested` are assumptions about how `syntax.rs` builds layers and injections, which are not modelled. The source really does break monotonicity when the precondition fails. One case is a selection past the end of the document. The other is a selection in leading whitespace, of the document or of an injected layer's included range, since that padding belongs to no node. `ExpandLeavesPaddedSelection` exhibits the injected case.
- Object.ShrinkNarrows: proved under the same assumptions of `Forest.Nested`. It relates the result to the node the reset found, not to the original selection.
- Shrinking then expanding is not proved to give back a range that contains the original. The descendant lookup is an oracle that is only known to return some covering node, not the smallest one. Char and byte offsets are modelled as monotone conversions that need not be inverses.
- The next-then-previous sibling round trip is proved on cursor positions (`NextThenPrevSibling`), not on whole selections. The reset from the char range of the next sibling need not land on that sibling, for the same two reasons.
- TreeCursor.SiblingRoundTrip: proved within one tree only. The sibling moves never cross layers, so no cross-layer round trip exists to prove.
- The following parts of copilot_picker.rs: `Transaction::invert`, `doc.apply`, the compositor callbacks, `handle_event` key dispatch and `id`. They are editor plumbing and calls into code not shown. Transactions are an opaque type parameter.
- The following parts of explorer.rs:
  - all rendering, prompts and event handling;
  - the filesystem operations (`get_children`, `dir_entry_to_file_info`, `new_file`, `new_folder`, `rename_current`, `remove_*`, `get_preview`, `toggle_current`, `close_documents`);
  - `reveal_file`, `reveal_current_file`, `change_root_to_current_folder` and `change_root_parent_folder`, which need operating-system path strings and `TreeView` calls not shown;
  - the trivial getters `is_focus`, `is_opened` and `column_width`;
  - the tests, which need a real filesystem.
- Explorer.Explorer.constructor: `Explorer::new` can fail when building the first tree view (explorer.rs:178), and it casts the configured width with `as u16`, which truncates (explorer.rs:185). The constructor takes an already built tree view and a width that is already a `u16`, so it models neither.
- `new_tree_view` reads the filesystem, so `ChangeRoot` receives its result, success or error, as the argument `built`.
- Explorer file names are compared as Dafny character sequences. `OsStr` compares bytes, and for UTF-8 names the two orders agree.
- Explorer.CmpTransitiveInFolder: transitivity is stated only for entries of one folder, because across folders the source's order is not transitive (`CmpCycleAcrossFolders`).
