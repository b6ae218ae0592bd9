# locker core, modelled in Dafny

locker is a terminal viewer for large JSON documents. It never builds the
whole tree: only the page of siblings under the cursor is loaded, and the
cursor is a path of global indices from the root. This project models the
sequential core of the viewer and proves properties of it:

- the span tokenizer and the structural extractor of `src/lexer.rs`, a
  byte-level lexer over an inclusive window of a buffer (modules `Quoting`,
  `Lexing`, `Extract`, `Relexing`);
- the page windowing of `src/paginated_vec.rs` and `src/paginated_map.rs`,
  which reads a stream page by page and keeps the page holding a target
  index (module `Paging`);
- the lazily expanded node tree of `src/node.rs` (module `Tree`);
- the path navigator of `src/utils.rs` (modules `Navigation` and `Walks`);
- the application logic of `src/app.rs`: the columns of the left table,
  the dispatcher of cursor moves, the selection list and the width
  adjustment (module `AppModel`);
- the column row of `src/table_model.rs` (module `Table`), the width
  preferences of `src/preferences.rs` (module `Prefs`), the clipped text
  line of `src/textline_model.rs` (module `TextLine`) and the `--path`
  argument parser of `src/main.rs` (module `Cli`).

Shared value types live in `Types`. Rust's `usize` is `nat` bounded by
`STEP_MAX` (2^64 - 1) where the source checks or saturates; every
`anyhow` failure is the single `Err(Fail)` except in the lexer, whose
errors keep the 1-based row and column. Code that mutates state in place
is imperative Dafny: the lexer and the two paginated containers are
classes, as are `TableModel`, `Preferences`, `TextLineModel` and `App`.
Each of their methods is proved against a specification function, and the
promised properties are lemmas about those functions. The node tree is a
value (`Tree.Node`); the walks of `src/utils.rs` that change it through
`&mut` are functions that return the new root.

## Model

| member | source | states |
|---|---|---|
| Types.SaturatingInc | src/utils.rs:311-318 | the step grows by one, except at `usize::MAX` where it stays |
| Types.SaturatingDec | src/utils.rs:311-318 | the step drops by one, except at 0 where it stays |
| Types.Slice | src/utils.rs:48-52 | the slice is exactly the inclusive range `start..=finish`, element by element |
| Quoting.Memchr | src/lexer.rs:10-13 | the first occurrence of the byte, with no earlier one; none only when the byte is absent |
| Quoting.CountBackslashesBefore | src/lexer.rs:14-24 | the loop walking back over backslashes computes the length of the backslash run ending before the quote |
| Quoting.CountQuotes | src/lexer.rs:9-32 | the loop counts exactly the quotes preceded by an even run of backslashes inside the haystack |
| Quoting.CountNeedles | src/lexer.rs:34-68 | counts the needles standing at an even running quote count, and returns the running count advanced by the live quotes of the haystack |
| Quoting.NeedleSplit | src/lexer.rs:34-68 | splitting the haystack at its first needle adds up the counts of the two parts, the needle counting when the quotes before it are even |
| Quoting.LiveQuotesConcat | src/lexer.rs:34-68 | live quotes of two segments add up when the first does not end in a backslash, so the recursion may count segment by segment |
| Quoting.EvenNeedlesConcat | src/lexer.rs:34-68 | the needle count of two segments is the first's count plus the second's, started from the first's quotes |
| Quoting.RowColPosition | src/lexer.rs:70-84 | the row is one more than the line feeds, the column the number of bytes after the last line feed |
| Quoting.LineStartIsLastLine | src/lexer.rs:70-84 | no line feed follows the position the column is counted from |
| Lexing.PositionOf | src/lexer.rs:94-102 | an error position has row at least 1 and a column within the prefix |
| Lexing.Get | src/lexer.rs:219-233 | the byte at an index is present exactly inside the buffer, and is that byte |
| Lexing.Init | src/lexer.rs:209-217 | a new lexer sits on the window's first byte, absent only at the end of the buffer |
| Lexing.Advance | src/lexer.rs:219-233 | reading steps one byte past a present byte; the byte stays present only inside the window and the buffer; the remaining input shrinks |
| Lexing.Peek | src/lexer.rs:235-244 | the next byte is seen exactly when it lies inside the window |
| Lexing.SkipSpacesSpec | src/lexer.rs:246-261 | stops on the first byte that is not JSON whitespace, having passed only whitespace; a lexer not on whitespace is unchanged |
| Lexing.FirstCloseIsFirst | src/lexer.rs:107-140 | the block search finds the least position whose closer brings the opener count to zero outside strings, and finds none only when none exists |
| Lexing.FindBlockSpec | src/lexer.rs:86-141 | a block starts at the opener and ends on a closer inside the window; it fails exactly when the opener is the window's last byte or no closer balances it, reporting the opener's row and column |
| Lexing.BlockSearchStep | src/lexer.rs:107-140 | one iteration of the block loop keeps the quote and opener counters equal to those of the window read so far, and either stops at the first balancing closer or continues to the same answer |
| Lexing.BlockSearchMiss | src/lexer.rs:132-139 | with no closer left the block has no end |
| Lexing.ScanBlock | src/lexer.rs:107-140 | the search loop returns the first balancing closer of the window |
| Lexing.SearchBlock | src/lexer.rs:86-141 | `find_block` on values agrees with its specification, error position included |
| Lexing.ErrorAt | src/lexer.rs:94-102 | the error carries the row and column of the given offset |
| Lexing.FirstLiveQuote | src/lexer.rs:310-326 | the first quote after the start preceded by an even run of backslashes, and no live quote before it |
| Lexing.StringSearchStep | src/lexer.rs:310-326 | one iteration of the string loop stops at a live quote or continues to the same answer past an escaped one |
| Lexing.StringSearchMiss | src/lexer.rs:336-341 | with no quote left the string has no end |
| Lexing.StringSpec | src/lexer.rs:290-345 | a string runs from its opening quote to the first later quote whose backslash run, counted through the whole buffer, is even; it fails exactly when the quote is the window's last byte or no such quote exists |
| Lexing.ScanString | src/lexer.rs:310-326 | the quote loop returns the first live quote before the bound |
| Lexing.SearchString | src/lexer.rs:290-345 | the string scan on values agrees with its specification |
| Lexing.SequenceEnd | src/lexer.rs:346-368 | a bare sequence grows while the next byte is inside the window and not one of `: , space LF TAB CR`; braces and brackets do not end it |
| Lexing.Lexeme | src/lexer.rs:274-368 | the token kind is decided by the first byte; colon and comma are one byte; blocks end on their closer and strings on a live quote inside the window; only blocks and strings can fail |
| Lexing.NextTokenSpec | src/lexer.rs:263-374 | a token starts after whitespace; past the window it is `LastChar` at the previous position; any other token is followed by the cursor one past its last byte |
| Lexing.ExpectSpec | src/lexer.rs:376-388 | succeeds exactly with a next token of an expected kind, and fails when lexing fails or the kind is unexpected |
| Lexing.FirstLiveQuoteSkip | src/lexer.rs:310-326 | a stretch without quotes does not move the first live quote |
| Lexing.Lexer.constructor | src/lexer.rs:209-217 | the lexer's state is the initial state over its buffer and window |
| Lexing.Lexer.ReadNextChar | src/lexer.rs:219-233 | the state moves as `Advance` says |
| Lexing.Lexer.PeekNextChar | src/lexer.rs:235-244 | returns the byte `Peek` gives, changing nothing |
| Lexing.Lexer.SkipSpaces | src/lexer.rs:246-261 | the state moves as `SkipSpacesSpec` says |
| Lexing.Lexer.FindBlock | src/lexer.rs:86-141 | returns the block of `FindBlockSpec` and leaves the cursor on the closer; on failure the cursor does not move |
| Lexing.Lexer.ScanString | src/lexer.rs:290-345 | returns the string of `StringSpec` and leaves the cursor on the closing quote |
| Lexing.Lexer.ScanSequence | src/lexer.rs:346-368 | the cursor ends on the sequence's last byte |
| Lexing.Lexer.NextToken | src/lexer.rs:263-374 | returns the token of `NextTokenSpec` and takes its new state |
| Lexing.Lexer.ExpectKinds | src/lexer.rs:376-388 | returns what `ExpectSpec` gives, with the error position in the lexer's buffer |
| Extract.ObjectItemsInOrder | src/lexer.rs:391-432 | the object spans are non-empty, lie in the buffer and follow each other in source order |
| Extract.ArrayItemsInOrder | src/lexer.rs:434-469 | the array spans are non-empty, lie in the buffer and follow each other in source order |
| Extract.ReadObjectItem | src/lexer.rs:391-432 | one round reads key, colon, value and separator, and its result is the head of the item list from this state: a failure, the end, the last item, or an item followed by the rest |
| Extract.ReadArrayItem | src/lexer.rs:434-469 | one round reads a value and a separator, and its result is the head of the item list from this state |
| Extract.GetObjectItems | src/lexer.rs:391-432 | the loop lists the items of the object specification from the window's start; a trailing comma is accepted |
| Extract.GetArrayItems | src/lexer.rs:434-469 | the loop lists the items of the array specification from the window's start |
| Extract.NameBytes | src/lexer.rs:501-512 | the name is the inclusive slice when the slice is valid, and empty otherwise |
| Extract.SingleEntry | src/lexer.rs:485-520 | a one-token item succeeds for blocks and bare sequences, and for strings whose finish is not offset 0 (every lexed string); only a block gets a child location, namely its own span |
| Extract.PairEntry | src/lexer.rs:521-556 | an item of several tokens is named by a string or bare sequence key and its child location is the third token's span, whatever its kind |
| Extract.LexItem | src/lexer.rs:474-558 | the loop body lexes the item's own window and yields its entry |
| Extract.ItemEntriesStep | src/lexer.rs:471-562 | a failing item fails the whole conversion; any other item is pushed in front of the entries of the rest |
| Extract.ItemsToVec | src/lexer.rs:471-562 | the loop yields one entry per item, in order, or the first failure |
| Relexing.BlockRelex | src/lexer.rs:86-141 | a block found in a window is found again, unchanged, in the window that is its own span |
| Relexing.StringRelex | src/lexer.rs:290-345 | a string found in a window is found again in its own span |
| Relexing.LexemeRelex | src/lexer.rs:274-368 | any token read in a window is read again, unchanged, in its own span |
| Relexing.NextTokenLexeme | src/lexer.rs:263-374 | a value token starts at a byte that is not whitespace and is the lexeme of that byte |
| Relexing.TokenRelex | src/lexer.rs:485-520 | lexing a value token's own span gives that token and then the end, so `items_to_vec` takes its single-token branch |
| Relexing.ArrayItemsRelex | src/lexer.rs:434-469 | every item the array loop lists lexes to itself as a single token |
| Relexing.ArrayItemsToVec | src/lexer.rs:471-562 | the items of an array never fail `items_to_vec`, and each block item's child location is its own span |
| Paging.AlignedIsMultiple | src/paginated_vec.rs:58-83 | a page start reached by whole pages from 0 is a multiple of the page size |
| Paging.SkipPages | src/paginated_vec.rs:61-83 | the skip phase only moves forward and keeps the start a whole number of pages |
| Paging.SkipToTargetPage | src/paginated_vec.rs:61-83 | without `Step::MAX`, skipping stops at the page holding the target |
| Paging.SkipToLastPage | src/paginated_vec.rs:61-83 | with `Step::MAX` and a known total, skipping stops at the first page start at or past `total - size`, below the total |
| Paging.PageAt | src/paginated_vec.rs:86-95 | a page is at most `size` consecutive elements from the page start |
| Paging.VecLoop | src/paginated_vec.rs:85-119 | the page loop keeps page starts aligned and keeps at most a page |
| Paging.FirstStart | src/paginated_vec.rs:61-83 | the loop starts at an aligned page start |
| Paging.Clamp | src/paginated_vec.rs:126-128 | the target is only lowered, and only on the first page when it lies past the data |
| Paging.VisitSeqSpec | src/paginated_vec.rs:54-135 | a visit keeps the size, an aligned start and at most a page, and records the number of elements read as total only when the total was unknown |
| Paging.AlignedGap | src/paginated_vec.rs:81 | two different aligned starts are at least a page apart |
| Paging.VecLoopReaches | src/paginated_vec.rs:97-102 | reading reaches the target's page, stops there, keeps that page and keeps the target |
| Paging.VecLoopContiguous | src/paginated_vec.rs:86-95 | the kept data is a run of consecutive elements starting at the kept page start |
| Paging.VisitSeqContiguous | src/paginated_vec.rs:54-135 | a visit keeps a run of at most a page of consecutive elements starting at the page start |
| Paging.VecLoopPastEnd | src/paginated_vec.rs:104-113 | a target past the stream keeps the last non-empty page and moves the target to the last index; an empty stream is a failure |
| Paging.VisitSeqReachesTarget | src/paginated_vec.rs:97-102 | when the target's page is reached the visit keeps that page at its start and the target, clamped only on the first page |
| Paging.VisitSeqPastEnd | src/paginated_vec.rs:104-113 | with an unknown total and a target past the stream, the last non-empty page is kept and the target becomes the last index |
| Paging.VisitSeqLastPage | src/paginated_vec.rs:61-83 | `Step::MAX` with a known total loads the final page and makes the target the last index |
| Paging.AlignedAbove | src/paginated_vec.rs:61-83 | above any count there is a page start, reached by whole pages, at most one page past it |
| Paging.VisitSeqToLast | src/paginated_vec.rs:54-135 | `Step::MAX` over a non-empty stream whose total is unknown or accurate makes the target the last index, records the accurate total and keeps the final page, which ends at that index |
| Paging.SkipToStart | src/paginated_vec.rs:61-83 | the skip loop stops at the page start `SkipPages` gives, having consumed up to it |
| Paging.ReadPage | src/paginated_vec.rs:86-95 | the inner loop reads exactly the page at the current start |
| Paging.PaginatedVec.constructor | src/paginated_vec.rs:16-19 | a new window holds no data and the given paginator |
| Paging.PaginatedVec.KeepTargetPage | src/paginated_vec.rs:85-119 | the page loop ends in the state `VecLoop` gives |
| Paging.PaginatedVec.VisitSeq | src/paginated_vec.rs:54-135 | the visit ends with the paginator, data and target of `VisitSeqSpec` |
| Paging.KeyIndexFrom | src/paginated_map.rs:100 | the position of the first entry with the key, or none when no entry has it |
| Paging.IndexInsert | src/paginated_map.rs:100 | an insertion adds at most one entry |
| Paging.IndexInsertSpec | src/paginated_map.rs:100 | a new key is appended; a present key keeps its position and takes the new value, all other entries unchanged; distinct keys stay distinct |
| Paging.BuildKeysDistinct | src/paginated_map.rs:95-105 | a page built by insertions never holds a key twice |
| Paging.BuildDistinct | src/paginated_map.rs:95-105 | entries with distinct keys are kept all, in order |
| Paging.BuildShrinks | src/paginated_map.rs:95-105 | a repeated key makes the page hold fewer entries than were read |
| Paging.MapLoop | src/paginated_map.rs:94-129 | the map page loop keeps page starts aligned |
| Paging.VisitMapSpec | src/paginated_map.rs:61-145 | a visit keeps the size and an aligned start, and records every entry read, duplicates included, as total only when it was unknown |
| Paging.MapLoopDistinct | src/paginated_map.rs:94-129 | with distinct keys the map loop keeps exactly the page of the sequence loop |
| Paging.VisitMapDistinct | src/paginated_map.rs:61-145 | with distinct keys `visit_map` is `visit_seq`, so every windowing property carries over |
| Paging.VisitMapFromZero | src/paginated_map.rs:61-145 | reading from 0 keeps the first page at start 0 with target 0 |
| Paging.DuplicateKeyEndsPaging | src/paginated_map.rs:119-123 | a full page with a repeated key looks short and ends the loop there, even when entries follow |
| Paging.ReadMapPage | src/paginated_map.rs:95-105 | the inner loop builds the page at the current start as an insertion-ordered map |
| Paging.PaginatedMap.constructor | src/paginated_map.rs:17-21 | a new window holds no data and the given paginator |
| Paging.PaginatedMap.KeepTargetPage | src/paginated_map.rs:94-129 | the page loop ends in the state `MapLoop` gives |
| Paging.PaginatedMap.VisitMap | src/paginated_map.rs:61-145 | the visit ends with the paginator, data and target of `VisitMapSpec` |
| Tree.NewNode | src/node.rs:73-80 | a new node has no children and keeps its value, entry and paginator |
| Tree.KillChildren | src/node.rs:82-84 | the children are dropped; value, entry and paginator are kept |
| Tree.SizedChild | src/node.rs:86-206 | loaded children of a tree with positive page sizes have positive page sizes |
| Tree.ScalarName | src/node.rs:134-141 | a non-string's name is its text; a string's is its text without the first and last character, empty for two characters or fewer |
| Tree.MemberChildren | src/node.rs:105-112 | one unloaded child per member, each with the parent's page size |
| Tree.ElementChildren | src/node.rs:131-161 | one unloaded child per element, each with the parent's page size |
| Tree.MakeChildrenSpec | src/node.rs:86-206 | expanding keeps the value, the entry and the page size |
| Tree.NumberMembers | src/node.rs:107-117 | the loop numbers the members' children from the page start, failing exactly when `checked_add` overflows |
| Tree.NumberElements | src/node.rs:130-169 | the loop numbers the elements' children from the page start, failing exactly when `checked_add` overflows |
| Tree.MakeChildren | src/node.rs:86-206 | the method yields the node and result of `MakeChildrenSpec` |
| Tree.MakeChildrenNoValue | src/node.rs:92 | without a value the children are dropped and the target comes back unchanged |
| Tree.MakeChildrenMembers | src/node.rs:94-118 | child `k` of an object is named by key `start + k`, keeps its value, has path parent path + `[start + k]` and a fresh paginator; the window's paginator is copied into the node |
| Tree.MakeChildrenElements | src/node.rs:119-170 | child `k` of an array is element `start + k`: containers keep their value under `{...}` or `[...]`, scalars become leaves with total 0 |
| Tree.MakeChildrenScalar | src/node.rs:171-199 | a scalar yields one leaf at the page start, total becomes one and the target 0 |
| Tree.MakeChildrenReplaces | src/node.rs:203 | the old children make no difference to the result: the list is replaced, never appended to |
| Tree.MakeChildrenSized | src/node.rs:105 | children inherit the parent's page size, so page sizes stay positive |
| Tree.FreshChild | src/node.rs:105 | a child built by expansion is unloaded and sized like its parent |
| Tree.MakeChildrenFromZero | src/node.rs:86-206 | expanding from index 0 cannot fail, returns 0 and shows the first page |
| Tree.MakeChildrenToLast | src/node.rs:86-206 | expanding a countable node for `Step::MAX`, when its total is unknown or accurate, succeeds with an accurate total; whenever the total comes out accurate, the target is the last index and selects the last loaded child |
| Tree.ElementsToLast | src/node.rs:119-170 | `MakeChildrenToLast` for an array |
| Tree.MembersToLast | src/node.rs:94-118 | `MakeChildrenToLast` for an object with distinct keys, through `visit_map` agreeing with `visit_seq` |
| Tree.MakeChildrenKeepsStart | src/node.rs:86-206 | a node reloaded from 0 whose page start is 0 keeps start 0 |
| Navigation.ClipString | src/utils.rs:12-27 | empty at length 0; unchanged when it fits; otherwise its first `length - |ending|` characters (saturating) and the ending |
| Navigation.ClipStringFits | src/utils.rs:12-27 | a clipped string fits the length whenever the ending does, and starts with a prefix of the original |
| Navigation.NodeAtConcat | src/utils.rs:73-92 | following two paths in turn is following their concatenation |
| Navigation.NodeByPath | src/utils.rs:73-92 | the loop follows `children[step - start]` at each level and fails on a step outside the loaded page |
| Navigation.NodesInPath | src/utils.rs:100-117 | one node per step, and collecting succeeds exactly when the path leads to a node |
| Navigation.NodesInPathAt | src/utils.rs:100-117 | node `i` is the node the first `i` steps lead to, and it holds the child step `i` selects |
| Navigation.ScanLevels | src/utils.rs:119-147 | Up gives `PrevPage` at a page start and `Up` above it at the deepest non-zero step, Prohibited only when all steps are 0; Down gives `Down` before the last loaded child or `NextPage` when more pages follow; a wrong variant for the key is impossible |
| Navigation.ChangeLocation | src/utils.rs:94-148 | a decision is only made for a path that leads to a node |
| Navigation.ChangeDownDeeperAtEnd | src/utils.rs:130-140 | below the level of a Down move every level is on its last loaded child and its last page |
| Navigation.ScanDownProhibited | src/utils.rs:119-147 | the Down scan finds no move exactly when every level is on its last loaded child, on its last page, with a known total |
| Navigation.ScanDownFails | src/utils.rs:130-140 | the Down scan fails exactly when some level has its step before the page or on its last loaded child with no total known, and every deeper level is on its last entry |
| Navigation.ScanUpOutcome | src/utils.rs:119-129 | the Up scan never fails and finds no move exactly when every step is 0 |
| Navigation.ChangeDownOutcome | src/utils.rs:94-148 | a path that does not lead to a node fails; for one that does, Down finds no move exactly when every level is on its last entry, and fails exactly when some level is on its last loaded child with no total known and every deeper level is on its last entry |
| Navigation.ChangeUpOutcome | src/utils.rs:94-129 | for a path that leads to a node, Up never fails and finds no move exactly when every step is 0 |
| Navigation.CollectNodes | src/utils.rs:100-117 | the collection loop yields the nodes of `NodesInPath` |
| Navigation.PathChangeLocationOf | src/utils.rs:94-148 | the method decides as `ChangeLocation` says |
| Navigation.Graft | src/utils.rs:266-365 | a rebuilt parent differs from the old one only in the replaced child |
| Navigation.NodeAtGraft | src/utils.rs:266-365 | a path through the replaced child leads where the rest of it leads in that child |
| Navigation.Expand | src/utils.rs:320-331 | expansion succeeds exactly when `make_children` does, and keeps page sizes positive |
| Navigation.ExpandFromZero | src/utils.rs:320-331 | expanding from 0 succeeds and returns 0 |
| Navigation.KillAt | src/utils.rs:367-403 | clearing a subtree keeps the root's entry and paginator and positive page sizes |
| Navigation.KillAtOk | src/utils.rs:367-403 | clearing succeeds exactly when the index is within the path and its first `index` steps lead to a node |
| Navigation.KillAtKills | src/utils.rs:367-403 | after clearing, those steps lead to the same node with no children |
| Navigation.Load | src/utils.rs:228-264 | an unloaded node is expanded at the step; a loaded one is kept with the step |
| Navigation.Preview | src/utils.rs:320-331 | an unloaded node is expanded from 0; a loaded one is kept |
| Navigation.PreviewOk | src/utils.rs:320-331 | the preview never fails |
| Navigation.Validate | src/utils.rs:228-264 | validation keeps page sizes positive and never lengthens the path |
| Navigation.ValidateResolves | src/utils.rs:228-264 | the validated path leads to a node of the new tree |
| Navigation.ValidateKeepsLoaded | src/utils.rs:228-264 | a path that already leads to a node is kept as it is |
| Walks.DropIfPaged | src/utils.rs:160-165 | a node with more items than a page loses its children, any other is kept |
| Walks.MinWalk | src/utils.rs:150-187 | the walk keeps page sizes positive and never lengthens the path |
| Walks.SetPathStepsToMin | src/utils.rs:150-187 | an empty path fails; otherwise the new path is no longer than the old |
| Walks.MinWalkZeros | src/utils.rs:150-187 | every level reloads from 0, so the walk never fails and every kept step is 0 |
| Walks.SetPathStepsToMinZeros | src/utils.rs:150-187 | it fails exactly on the empty path and otherwise yields a path of zeros |
| Walks.MaxWalk | src/utils.rs:189-226 | the walk keeps page sizes positive, never lengthens the path, and every step it keeps selects a loaded child and is the last index of its level whenever that level's total is accurate |
| Walks.MaxDescend | src/utils.rs:207-218 | after the reload the kept node keeps its value and paginator, its first step is the reloaded target and selects a loaded child, and a target that is the last index leads to a path of last indices |
| Walks.SetPathStepsToMax | src/utils.rs:189-226 | an empty path is kept; otherwise the new path leads to a node of the new tree |
| Walks.LastAlongAt | src/utils.rs:189-226 | a path of last indices read level by level: the prefix before each step leads to a node, and the step is that node's last index when its total is accurate |
| Walks.LastAlongResolves | src/utils.rs:189-226 | a path of last indices leads to a node |
| Walks.MaxWalkResolves | src/utils.rs:189-226 | the path the walk keeps leads to a node of the new tree |
| Walks.SetPathStepsToMaxLast | src/utils.rs:189-226 | every step kept is the last index of its level whenever that level's total is accurate, as `Step::MAX` asks |
| Walks.UpdatePathSpec | src/utils.rs:266-365 | an empty path changes nothing, and page sizes stay positive |
| Walks.Reposition | src/utils.rs:281-309 | levels above the move are kept; below a Down move every level is reloaded from 0; below an Up move a countable level whose total is unknown or accurate gets an accurate total, and with an accurate total the step is the last index and selects the last loaded child |
| Walks.VerticalWalk | src/utils.rs:280-331 | steps above the moved level are kept, steps below a Down move are 0, steps below an Up move are the last index of their level whenever its total is accurate, and the new path is no longer than the old |
| Walks.VerticalDescend | src/utils.rs:311-331 | after repositioning the kept node keeps its value and paginator, its first step is the repositioned one and selects a loaded child, and the rest of the path carries the walk's guarantees |
| Walks.UpdatePathUpLast | src/utils.rs:266-331 | Up at level `c` leaves every kept step below `c` on the last index of its level whenever its total is accurate |
| Walks.LeftWalk | src/utils.rs:333-342 | the walk keeps page sizes positive and never lengthens the path |
| Walks.RightWalk | src/utils.rs:343-353 | the walk keeps page sizes positive and adds at most one step |
| Walks.VerticalWalkAbove | src/utils.rs:280-318 | above the moved level the walk keeps the step and continues in the child it selects |
| Walks.VerticalPassesThrough | src/utils.rs:280-318 | the step at the moved level is the one the child's walk chose |
| Walks.VerticalMoved | src/utils.rs:311-318 | the step at the moved level moves by one, saturating, whenever it stays on that level's loaded page |
| Walks.UpdatePathMoved | src/utils.rs:280-318 | Up or Down at level `c` keeps the steps before `c` and moves step `c` by one when it stays on the loaded page |
| Walks.LeftWalkDrops | src/utils.rs:333-342 | Left drops exactly the last step, and the node reached shows its first page |
| Walks.UpdatePathLeft | src/utils.rs:333-362 | Left on two steps or more drops the last step and the focused node's page start returns to 0 |
| Walks.UpdatePathLeftShort | src/utils.rs:333-362 | Left on a path of one step changes neither the tree nor the path |
| Walks.RightWalkExtends | src/utils.rs:343-353 | Right keeps the path and appends 0 exactly when the focused node has a loaded child |
| Walks.UpdatePathRight | src/utils.rs:343-362 | Right keeps the path and appends 0 exactly when the focused node has a loaded child |
| AppModel.PathNodes | src/app.rs:43-75 | one node per step plus the start node, succeeding exactly when the path leads to a node |
| AppModel.PathNodesLinked | src/app.rs:43-75 | each node on the path holds the next as the child its step selects, ending at the node the path leads to |
| AppModel.Entries | src/app.rs:77-101 | a column lists the entries of the node's loaded children, in order |
| AppModel.ColumnsSpec | src/app.rs:33-104 | the columns exist exactly when the path is non-empty and leads to a node |
| AppModel.NodesInPathToColumns | src/app.rs:33-104 | the method yields the columns of `ColumnsSpec` |
| AppModel.NodesFrom | src/app.rs:43-75 | the walk succeeds exactly when the path leads to a node, and yields the path's nodes from the offset on |
| AppModel.PathNodesStep | src/app.rs:43-75 | a step outside the node's loaded page ends the walk in an error; any other moves on to the selected child |
| AppModel.MakeColumns | src/app.rs:77-101 | the column loop yields one column for each node with loaded children, in order |
| AppModel.ColumnsWellFormed | src/app.rs:77-101 | every column lists a non-empty page, carries the selection and highlights a row inside its entries |
| AppModel.ColumnsInactive | src/app.rs:77-82 | columns of nodes above the cursor's parent are not active |
| AppModel.ColumnsActive | src/app.rs:77-82 | exactly one column is active when the nodes reach the cursor's parent, it is among the last two, and it highlights the entry of the node under the cursor |
| AppModel.NodesInPathToColumnsFacts | src/app.rs:33-104 | the columns are well formed; one is active exactly when the offset is above the cursor's level, and it highlights the entry under the cursor |
| AppModel.ColumnsNewActive | src/table_model.rs:166-192 | the new columns bring the active column exactly when they start above the cursor's level |
| AppModel.InitialPath | src/app.rs:155-158 | the start path is never empty |
| AppModel.InitialPathResolves | src/app.rs:155-158 | the start path leads to a node of the new tree and is never longer than the one given |
| AppModel.InitialPathKeeps | src/app.rs:155-158 | a non-empty path that already leads to a node is taken as it is |
| AppModel.HighlightAt | src/app.rs:273-278 | the highlight plus the parent's page start is the step at that level |
| AppModel.StepWithin | src/app.rs:260-279 | a move within a page drains from level `i + 1` and highlights the moved step |
| AppModel.TurnPage | src/app.rs:280-294 | a page turn drains from level `i` and highlights nothing |
| AppModel.Wrap | src/app.rs:295-301 | a wrap drains every column and highlights nothing |
| AppModel.UpdateDataSpec | src/app.rs:244-380 | Up and Down drain from the offset they report; Right drains nothing and highlights row 0; Left drains from the old length less one |
| AppModel.UpdateDataClears | src/app.rs:254-358 | before an Up or Down move the clearing never fails and leaves the node above the cleared depth without children |
| AppModel.UpdateDataLeft | src/app.rs:366-371 | Left on two steps or more drops the last step, drains from the new length and shows the first page of the node returned to |
| AppModel.UpdateDataRight | src/app.rs:360-365 | Right drains nothing and extends the path by 0 exactly when the focused node has a loaded child |
| AppModel.Remove | src/app.rs:718-723 | every copy of the entry is removed and the rest kept, as multisets |
| AppModel.ToggledFlips | src/app.rs:718-728 | toggling flips the entry's membership and leaves every other entry's alone |
| AppModel.ToggledTwice | src/app.rs:718-728 | selecting an absent entry and unselecting it restores the list |
| AppModel.ToggleAll | src/app.rs:748-782 | every column's selected list gets the same toggle |
| AppModel.EmptyAll | src/app.rs:805-826 | every column is emptied |
| AppModel.ToggleEach | src/app.rs:748-782 | the loops toggle every column |
| AppModel.EmptyEach | src/app.rs:805-826 | the loops empty every column |
| AppModel.SelectedSynced | src/app.rs:713-782 | after a toggle every column of both tables carries the right table's list, and the entry's membership there has flipped |
| AppModel.ClearedSynced | src/app.rs:803-832 | after clearing the selection is empty in every column |
| AppModel.SelectResizes | src/app.rs:740-746 | a list that becomes non-empty opens the right table at the preferred width, one that becomes empty closes it, any other change asks for nothing |
| AppModel.IncLeftSpec | src/app.rs:418-460 | widening the left table keeps both widths at or above their floors and within `u16` |
| AppModel.IncLeftFits | src/app.rs:418-460 | widening never makes visible tables outgrow a terminal they fit, and never narrows the left table |
| AppModel.IncLeftTrades | src/app.rs:418-460 | with both tables filling the terminal, the left grows by one and the right shrinks by one |
| AppModel.App.constructor | src/app.rs:145-242 | the application starts on the given tree and path with both widths at their floors and empty tables |
| AppModel.App.UpdateData | src/app.rs:244-380 | the tree and the reported path, drain, offset and highlight are those of `UpdateDataSpec` |
| AppModel.App.MoveWithin | src/app.rs:260-279 | the new state is that of `StepWithin` |
| AppModel.App.Highlight | src/app.rs:273-278 | returns the row of `HighlightAt` |
| AppModel.App.MovePage | src/app.rs:280-294 | the new state is that of `TurnPage` |
| AppModel.App.MoveWrap | src/app.rs:295-301 | the new state is that of `Wrap` |
| AppModel.App.CursorSelect | src/app.rs:690-788 | the widths are fitted to the terminal; a missing hovered node or right column fails; otherwise every selected list gets the toggle and the width requests follow the list's emptiness |
| AppModel.App.ClearSelected | src/app.rs:803-832 | every selected list is emptied, and the right table's entries too |
| AppModel.App.IncLeftTableColumnWidth | src/app.rs:418-460 | the widths and requests are those of `IncLeftSpec` |
| Table.VisibleCount | src/table_model.rs:12-37 | the count never exceeds the number of columns |
| Table.AmountOfVisibleColumns | src/table_model.rs:12-37 | the loop counts as `VisibleCount` |
| Table.VisibleCountFits | src/table_model.rs:12-37 | the count is the largest number of rightmost columns whose lengths fit the width |
| Table.VisibleCountFails | src/table_model.rs:12-37 | counting fails exactly at a column without a fixed length whose right-hand neighbours all fit |
| Table.WidthFromMonotone | src/table_model.rs:19-34 | dropping columns on the left never widens the sum |
| Table.SplitHorizontally | src/table_model.rs:40-54 | a split exists exactly when the width holds the cut; the two parts sit side by side, keep `y` and height, and glue back into the area |
| Table.Tile | src/table_model.rs:121-140 | no more areas than columns are placed |
| Table.TileLayout | src/table_model.rs:121-140 | placed areas sit side by side from the left edge, each as wide as its column asks, together inside the area |
| Table.TilePlacesAll | src/table_model.rs:121-140 | columns that fit the area are all placed |
| Table.TileLengthsOk | src/table_model.rs:121-140 | columns that all ask for a length are never an error to place |
| Table.Placed | src/table_model.rs:142-148 | placing areas keeps the number of columns |
| Table.ShownRange | src/table_model.rs:89-119 | the shown range lies in the columns and holds exactly the visible count |
| Table.SplitAreaSpec | src/table_model.rs:81-151 | splitting keeps the number of columns |
| Table.SplitAreaOk | src/table_model.rs:81-151 | the split succeeds exactly when counting does |
| Table.SplitAreaShows | src/table_model.rs:89-148 | the shown columns are the picked range of all columns, with their areas; columns only change their area |
| Table.SplitAreaPlacesShown | src/table_model.rs:89-148 | when several columns fit, or the one shown is the last, the shown columns are laid out from the left edge, each as wide as it asks |
| Table.NewActive | src/table_model.rs:166-192 | the new columns are active exactly when one of their last two is |
| Table.RetouchedKeeps | src/table_model.rs:196-240 | the move keeps the number of columns, touches only the last two, and fails only on Right with no column left |
| Table.RetouchedLast | src/table_model.rs:196-240 | Up or Down give the last column the highlight and make it active exactly when the new columns are not; Right makes the last active and the one before inactive; Left makes the last active |
| Table.Drained | src/table_model.rs:160-162 | a drain keeps the columns before its index |
| Table.TableModel.constructor | src/table_model.rs:56-72 | a new table has the default area and no columns |
| Table.TableModel.SplitArea | src/table_model.rs:81-151 | the result and both column lists are those of `SplitAreaSpec` |
| Table.TableModel.AssignAreas | src/table_model.rs:142-148 | the shown columns take their areas in both lists |
| Table.TableModel.AreaUpdate | src/table_model.rs:75-80 | the area is stored and the columns split over it |
| Table.TableModel.Update | src/table_model.rs:153-245 | the columns are drained, retouched for the move, extended with the new ones in order, and split again |
| Table.PlaceShown | src/table_model.rs:121-140 | the area loop places the areas of `Tile` |
| Prefs.ShrinkTo | src/preferences.rs:33-51 | the shrunk width is the difference when that reaches the floor, and the floor otherwise |
| Prefs.ApplyTermWidthSpec | src/preferences.rs:26-52 | widths that fit are left alone with nothing reported; otherwise left is lowered first, right only if the pair still overflows, and exactly the widths written are reported |
| Prefs.ApplyTermWidthFits | src/preferences.rs:26-52 | a terminal that holds both floors is filled exactly by widths that overflowed it |
| Prefs.ApplyTermWidthShrinks | src/preferences.rs:26-52 | widths are only lowered, and right only once left is at its floor |
| Prefs.ApplyTermWidthIdempotent | src/preferences.rs:26-52 | applying the same terminal width twice changes nothing the second time |
| Prefs.Preferences.constructor | src/preferences.rs:16-23 | both widths start at their floor of 15 |
| Prefs.Preferences.LeftWidthUpdate | src/preferences.rs:54-61 | a width below 15 is refused and nothing changes; any other is stored |
| Prefs.Preferences.RghtWidthUpdate | src/preferences.rs:83-90 | a width below 15 is refused and nothing changes; any other is stored |
| Prefs.Preferences.LeftInc | src/preferences.rs:63-69 | one wider and the new width returned, except at `u16::MAX` where nothing changes |
| Prefs.Preferences.RghtInc | src/preferences.rs:92-98 | one wider and the new width returned, except at `u16::MAX` where nothing changes |
| Prefs.Preferences.LeftDec | src/preferences.rs:71-81 | one narrower only above the floor, and nothing changes at it |
| Prefs.Preferences.RghtDec | src/preferences.rs:100-110 | one narrower only above the floor, and nothing changes at it |
| Prefs.Preferences.ApplyTermWidth | src/preferences.rs:26-52 | the widths and reported writes are those of `ApplyTermWidthSpec`, and both stay at or above the floor |
| TextLine.Shown | src/textline_model.rs:36-41 | the shown spans have the same length and styles, each text clipped to the width |
| TextLine.ShownFits | src/textline_model.rs:36-41 | every shown text fits the width; a fitting text is shown as it is, a longer one keeps `width - 3` characters and the ending |
| TextLine.ShownIdempotent | src/textline_model.rs:36-41 | clipping the shown spans again changes nothing |
| TextLine.TextLineModel.constructor | src/textline_model.rs:11-34 | a new line has the default area and no spans |
| TextLine.TextLineModel.MakeShowSpans | src/textline_model.rs:36-41 | the shown spans become the given spans clipped to the width |
| TextLine.TextLineModel.AreaUpdate | src/textline_model.rs:43-54 | the area is stored and the shown spans clipped to it |
| TextLine.TextLineModel.HideSpansUpdate | src/textline_model.rs:56-67 | the spans are stored and shown clipped to the current width |
| Cli.TrimStartMatches | src/main.rs:53 | every leading bracket is removed and nothing else |
| Cli.TrimEndMatches | src/main.rs:53 | every trailing bracket is removed and nothing else |
| Cli.Trim | src/main.rs:57 | leading and trailing whitespace is removed; a string without either is unchanged |
| Cli.Split | src/main.rs:56 | at least one piece, none containing the separator |
| Cli.JoinSplit | src/main.rs:56 | joining the pieces with commas gives the string back |
| Cli.SplitJoin | src/main.rs:56 | splitting a join of comma-free pieces gives the pieces back |
| Cli.ParseStep | src/main.rs:57 | a parsed step fits `usize`, an empty string fails, and a success starts with a digit or `+` and ends with a digit |
| Cli.DecimalValue | src/main.rs:57 | the decimal form of a number reads back as the number |
| Cli.ParseDecimal | src/main.rs:57 | a step written in decimal and trimmed parses back to itself |
| Cli.ParseDigits | src/main.rs:57 | digits with a value within `usize` parse as that value |
| Cli.ParsePieces | src/main.rs:57 | each piece is trimmed and parsed on its own |
| Cli.CollectStep | src/main.rs:58 | collected steps are the results' own values, in order |
| Cli.CollectFails | src/main.rs:58 | collecting fails exactly when some result is a failure |
| Cli.ParseAllStep | src/main.rs:55-58 | each step is its piece parsed, in piece order |
| Cli.ParseAllFails | src/main.rs:55-58 | the parse fails exactly when some piece does not parse |
| Cli.PathParser | src/main.rs:52-61 | a path has one step per comma-separated piece of the argument without its brackets |
| Cli.PathParserPieces | src/main.rs:53-56 | the pieces are the text between commas after every leading `[` and trailing `]` is removed |
| Cli.ParseAllDecimals | src/main.rs:55-58 | decimal pieces parse back to their steps |
| Cli.PathParserRoundTrip | src/main.rs:52-61 | a non-empty path written as comma-separated decimals, with or without brackets, parses back to itself |
| Cli.PathParserDefault | src/main.rs:44 | the default `[0]` reads as the first top-level item |
| Cli.PathParserBracketedExample | src/main.rs:43 | `[3,0,1]` reads as `[3, 0, 1]` |
| Cli.PathParserBareExample | src/main.rs:43 | `4,1,1,0` reads as `[4, 1, 1, 0]` |
| Cli.PathParserEmptyPiece | src/main.rs:55-58 | any empty piece fails the whole parse |
| Cli.PathParserEmptyArgument | src/main.rs:52-61 | an empty argument fails |
| Cli.PathParserBareBrackets | src/main.rs:52-61 | `[]` fails |
| Cli.PathParserDoubledComma | src/main.rs:52-61 | `1,,2` fails |

## Left out

- Terminal rendering, key handling, the event loop (`App::run`), `print`,
  `cursor_move`, `set_terminal_size` and `main()`: these are I/O and
  terminal plumbing.
- The page layout (`src/page_model.rs`) solves constraints with a foreign
  layout library. `App` keeps a log of the width requests it would send
  (`App.requests`) in its place. The `App` constructor starts with both
  tables empty, because their columns come from that layout.
- serde and serde_json are replaced by an abstract `Json` value, in which
  scalars keep their serialised text. `SeqAccess` and `MapAccess` streams
  become sequences read left to right. `IndexMap` is a sequence of
  key/value pairs.
- Names are byte sequences: the `from_utf8` conversion in `items_to_vec`
  and its failure are not modelled.
- The lexer-based extractor and the serde-based `make_children` are
  modelled separately. `src/node.rs` imports `raw_value_type`, and
  `src/utils.rs` does not define it.
- Every `anyhow` failure is one `Err(Fail)`, apart from the lexer's
  positions. Context messages are not modelled.
- `Rc<RefCell<…>>` sharing is modelled by value. `try_borrow` failures are
  not modelled. The shown columns of a table are copies, so
  `App.CursorSelect` and `App.ClearSelected` change `hideColumns` only.
  In the source, the shown columns share those objects.
- The tree is a value. The walks of `src/utils.rs` that change it through
  `&mut` are modelled as functions that rebuild the nodes along the path
  and return the new root. In-place update is not captured.
- The builders `area_set` and `hide_spans_set` are covered by the
  `AreaUpdate` and `HideSpansUpdate` methods that they share code with.
  `dec_left_table_column_width`, `inc_rght_table_column_width` and
  `dec_rght_table_column_width` of `src/app.rs` are not modelled;
  `inc_left_table_column_width` is.
- Integer overflow panics become preconditions:
  - the `u16` sum `left + rght` in `apply_term_width`;
  - the visible-width sum in `inc_left_table_column_width`;
  - `self.path.len() - 1` for Left on an empty path.
- `current_start -= size` in `visit_seq` and `visit_map` underflows on an
  empty stream. It is modelled as an error.
- Page sizes must be positive: this is the `Sized` precondition. With a
  page size of 0 and a known total, the skip loop of `visit_seq` never
  advances (src/paginated_vec.rs:61-83); with an unknown total the first
  page reads nothing and `current_start + size - 1` underflows at 0
  (src/paginated_vec.rs:105-107). The root's page size is the page area's
  height (src/app.rs:153), so the model assumes at least one row.
- `Rect` fields are unbounded naturals; the `u16` arithmetic of the layout
  is not modelled.
- Lexing.Lexer.NextToken: the lexer state after a failure is unspecified,
  because every caller discards the lexer then.
- AppModel.HighlightAt: the `usize` subtraction at src/app.rs:273-278 is
  modelled as an error. It is not proved unreachable.
- AppModel.UpdateDataSpec: the tree after a failed move is not specified
  beyond positive page sizes.
- Table.TableModel.Update: a drain index past the end panics in the source
  and is excluded by a precondition.
