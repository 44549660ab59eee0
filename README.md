# node_modules cleaner: the directory tree, verified

The cleaner is a terminal program. It scans a directory for `node_modules`
folders and shows them as a tree under the directories that contain them.
The user moves a cursor over the visible rows, selects subtrees (a selection
cascades down and settles up), expands or collapses nodes, and deletes what
is selected. This project models the in-memory part of that program in Dafny
and proves what its operations promise:

- the tree of `TreeNode`s with parent back-links;
- `insertPath`, which adds a scanned path one segment at a time and re-sorts
  a parent's children whenever it adds one;
- the recursive total size and the tri-state ("partial") selection;
- the flat list of visible rows and the last-child flags;
- the key handlers of the update loop;
- the statistics of the status line and the state change of a delete;
- the integer arithmetic of the visible window and of the byte formatter.

The tree is an arena: a sequence of node records whose index is the node's
id. The virtual root is id 0, and every child is created after its parent,
so a child's id is larger than its parent's. A pointer becomes an id, and the
parent pointer becomes an `Option` of an id. `Tree.Valid` is the tree
invariant:

- the links agree in both directions;
- every node's path is its parent's path plus its own name;
- siblings have distinct names.

The program's state is the class `Cleaner.Model`. Its fields are the arena,
the flat list of row ids, the cursor, the scroll offset, the scanning and
quitting flags, and the terminal size. `Model.Valid()` says four things:

- the arena is a tree;
- the flat list is exactly the pre-order flattening of the tree
  (`Flattening.FlatList`);
- every last-child flag holds the value the rebuild gives it;
- the cursor is not negative.

Every handler keeps `Model.Valid()`. `Model.State()` gathers the fields into
one `ModelState` value, so each handler can say in one equation which fields
it changes and that the others keep their values.

The modules follow the parts of the program:

- `Tree`: records, the invariant, ancestry, paths, depth and total size;
- `NameOrder`: Go's string `<`;
- `ChildOrder`: insertPath's comparator and the sort;
- `Insertion`: what one insertion does to the tree;
- `Selection`: the cascade and the partial state;
- `Flattening`: the rows and the last-child flags;
- `VisibleList`: the status line, toggle-all and delete over the rows;
- `Format`: window and unit arithmetic;
- `Cleaner`: the class and its methods.

Every loop of the modelled code (the tree, selection, flattening, key and
status-line code) is a method with a loop and its invariants. The loops of
`View` and the directory walk of `calculateDirSize` are not modelled (see
"Left out"). Each method is proved against a specification function or
predicate, and the properties are proved as lemmas about those functions.

## Model

| member | source | states |
|---|---|---|
| Cleaner.NewRootArena | main.go:288-297 | The initial tree is the virtual root made by newTreeNode with empty path and size 0, alone. It is a valid tree, its flat list is empty and its flags are up to date. |
| Cleaner.Model.constructor | main.go:288-297 | initialModel: the tree is the virtual root alone, there are no rows, the cursor is 0, scanning is on, not quitting, and the model is valid. |
| Tree.NewTreeNode | main.go:122-130 | Definition of newTreeNode: a node with the given path, name and size, expanded, unselected, not deleted, with no children and no parent. |
| Tree.PathUnique | main.go:146-152 | In a valid tree two nodes with the same path are the same node, so a path names at most one node (the lookup by name finds the only candidate). |
| Tree.PathPrefix | main.go:140-176 | Every prefix of a node's path is the path of one of its ancestors: the path was built segment by segment from the root. |
| Tree.DepthIsPathLength | main.go:211-219 | The depth getDepth computes (ancestors, virtual root excluded) is one less than the number of path segments. |
| Tree.Depth | main.go:211-219 | Definition of getDepth: the number of ancestors below the virtual root, given by AncestorCount of the parent. |
| Tree.AncestorCount | main.go:213-217 | The loop of getDepth as recursion: one for each parent link followed until a node without a parent, the virtual root, is next. |
| Cleaner.Model.GetDepth | main.go:211-219 | The loop up the parent links returns `Depth`, the number of ancestors other than the virtual root. For a real node this is its number of segments minus one. |
| Cleaner.Model.NodeTotalSize | main.go:276-282 | getTotalSize's loop returns `TotalSize`: the node's size plus the totals of its children, summed child by child. |
| Tree.TotalSize | main.go:276-282 | Definition of getTotalSize: a node's own size plus the totals of its children. |
| Tree.ChildrenTotal | main.go:278-280 | The totals of a list of children, summed in list order. |
| Tree.TotalSizeFrame | main.go:276-282 | A node's total depends only on the sizes and children of the nodes after it, so changes elsewhere leave it unchanged. |
| VisibleList.FlattenTotal | main.go:276-282 | With every node expanded and none deleted or negative, the row sizes of a node's flattening add up to its recursive total (the virtual root's own size excepted). |
| VisibleList.ExpandedTotal | main.go:665-673 | Before any deletion and with everything expanded, the model's total over the rows equals the virtual root's recursive total less its own size. |
| NameOrder.NameLessTotal | main.go:169 | Go's string `<` orders any two different names one way or the other. |
| NameOrder.NameLessTransitive | main.go:169 | Go's string `<` is transitive. |
| NameOrder.NameLessAsymmetric | main.go:169 | Go's string `<` is asymmetric. |
| NameOrder.NameNotLessTransitive | main.go:169 | "Not smaller" is transitive, so the tie-break is a strict weak order. |
| NameOrder.NameLess | main.go:169 | Definition of Go's string `<`: the first differing character decides, and a proper prefix comes before its extensions. |
| ChildOrder.ChildLess | main.go:163-170 | Definition of insertPath's comparator: a larger total goes first, and among equal totals the smaller name by `NameLess`. |
| ChildOrder.ChildLessAsymmetric | main.go:163-170 | The comparator (larger total first, then smaller name) never puts both of two nodes before the other. |
| ChildOrder.ChildLessNegTransitive | main.go:163-170 | "Does not go before" under the comparator is transitive, so the comparator is a valid sort order. |
| ChildOrder.Insert | main.go:163-170 | Inserting one child into a sorted list yields a sorted list with exactly one more occurrence of that child. |
| ChildOrder.SortChildren | main.go:163-170 | The sort with insertPath's comparator returns a permutation of its input that is sorted. |
| ChildOrder.SortedStrict | main.go:163-170 | Among siblings with distinct names a sorted list is strictly ordered: a larger total first, or an equal total and a smaller name. |
| ChildOrder.SortedFrame | main.go:160-170 | The children sorted in the grown tree stay sorted once the sorted list is stored in the parent: sortedness survives any change that keeps the totals and names of the listed nodes. |
| ChildOrder.PermNames | main.go:161-170 | Reordering siblings keeps their names pairwise distinct. |
| Cleaner.Model.FindChild | main.go:146-152 | The lookup returns a child of `current` with that name, or reports that no child has it. |
| Cleaner.Model.AttachChild | main.go:154-170 | A missing segment becomes a new node after all others: expanded, unselected, no children, parent `current`, path extended by the segment. It joins the children of `current`, which are then sorted by the comparator. Nothing else changes and the tree stays valid. |
| Insertion.AttachValid | main.go:154-162 | Appending a new child under a node that has no child of that name keeps the tree valid. |
| Insertion.AttachOutcome | main.go:154-170 | After the sort the new node is attached, the tree is valid, and the parent's children are sorted. |
| Cleaner.Model.WalkSegment | main.go:141-175 | One round of the loop moves to the child named after the segment, creating it if missing. Only the node of the full path, when its last segment is `node_modules`, gets the reported size; other created nodes get 0. |
| Insertion.FoundTarget | main.go:171-173 | On an existing node of the full target path, overwriting its size keeps the loop invariant and settles that node's size. |
| Insertion.FoundStep | main.go:146-152 | Moving to an existing child keeps the loop invariant. |
| Insertion.CreateStep | main.go:154-170 | Creating and attaching the missing child keeps the loop invariant: old nodes unchanged except children and size, and every new node fresh on a prefix of the path. |
| Cleaner.Model.WalkSegments | main.go:140-176 | After the loop, old nodes keep everything but their children (only ever added to) and sizes. The node of the full path has the reported size if it is a target, every other old size is unchanged, every new node is a fresh node on a prefix of the path, and the full path exists. |
| Insertion.WalkDone | main.go:140-176 | The loop invariant at the last segment gives the final growth and that a node with the full path exists. |
| Cleaner.Model.InsertPath | main.go:133-179 | insertPath keeps the model valid. The tree grows only as the walk says (at most one node per segment, old nodes changed only in children, size and last-child flag), and the full path is present. |
| Cleaner.Model.RebuildAfterWalk | main.go:178 | The rebuild that ends insertPath makes the model valid again and keeps what the walk achieved. |
| Insertion.InsertOutcome | main.go:178 | The final rebuild changes only last-child flags, so what the walk achieved still holds. |
| Insertion.ReinsertCreatesNothing | main.go:140-176 | Inserting a path already in the tree creates no node and changes no links. The node of the path takes the reported size exactly when the path ends in `node_modules`; every other node keeps its size. |
| Cleaner.Model.FlattenNode | main.go:198-209 | flattenNode appends the pre-order flattening of the node (itself unless it is the root, then each child's flattening if expanded). |
| Flattening.Flatten | main.go:198-209 | Definition of flattenNode: the node unless it is the virtual root, then, when it is expanded, the flattening of each child in order; every id in it is a real node of the subtree. |
| Flattening.FlattenAll | main.go:204-208 | The flattenings of a list of children, concatenated in list order; every id in it is a node after the parent. |
| Flattening.FlatList | main.go:182-184 | The rows: the flattening of the virtual root. |
| Flattening.FlattenMembers | main.go:198-209 | A node is in a subtree's flattening exactly when it is not the root and every node from the subtree's top down to its parent is expanded. |
| Flattening.FlatListMembers | main.go:182-209 | A node is a row exactly when it is not the virtual root and all its proper ancestors are expanded. |
| Flattening.CollapsedHides | main.go:204-208 | A collapsed node hides every node below it. |
| Flattening.FlattenFrame | main.go:198-209 | The flattening depends only on the children and expanded flags. |
| Cleaner.Model.UpdateIsLastFlags | main.go:191-196 | Every node strictly below the given node learns whether it is the last of its parent's children; nothing else changes. |
| Cleaner.Model.RebuildFlatList | main.go:182-189 | The flat list becomes the flattening of the tree and the flags below the top-level nodes are recomputed. Nothing else changes, and the flags hold their rebuilt value. |
| Flattening.LastFlag | main.go:185-196 | The flag a rebuild leaves on a node: the virtual root and the top-level nodes keep theirs, and a deeper node is last exactly when it ends its parent's children. |
| Flattening.Relabelled | main.go:185-196 | The tree after a rebuild: every node carries its `LastFlag`. |
| Flattening.RebuiltFlags | main.go:182-196 | The relabelled tree is valid, has up-to-date flags, and has the same rows as before. |
| Flattening.RebuildIdle | main.go:182-196 | Rebuilding a tree whose flags are already up to date changes nothing. |
| Flattening.TopsMarkDone | main.go:185-188 | After the loop over the top-level nodes every flag holds its rebuilt value. |
| Flattening.LastMarkStep | main.go:192-195 | One round of updateIsLastFlags' loop extends the set of subtrees whose flags are recomputed by one child. |
| Cleaner.Model.PropagateSelectionDown | main.go:228-235 | The node and every node reachable through children that are not deleted take the value; deleted children and their subtrees, and all other nodes, are untouched. |
| Cleaner.Model.ChildrenValue | main.go:242-253 | The loop over a parent's children returns true exactly when some child is not deleted and all children that are not deleted are selected. |
| Selection.ChildrenAllSelected | main.go:242-253 | Definition of the settling test: some child is not deleted, and every child that is not deleted is selected. |
| Cleaner.Model.UpdateParentSelection | main.go:237-255 | Each proper ancestor other than the virtual root becomes selected exactly when its final children have a live child and all live children are selected; nothing else changes. |
| Selection.SettledAtTop | main.go:238-240 | On the root and on a top-level node the climb stops at once and changes nothing. |
| Selection.SettleStep | main.go:250-254 | Settling the parent, then everything above it, settles every ancestor of the node. |
| Cleaner.Model.ToggleSelect | main.go:222-226 | toggleSelect flips the node, carries the new value to every node reachable through live children, and settles every ancestor below the virtual root. Nothing else changes. |
| Selection.ToggleCompose | main.go:222-226 | The flip, the downward cascade and the upward settling compose into `Toggled`. |
| Selection.ToggleConsistent | main.go:222-273 | After a toggle the tree is valid, the toggled node shows no partial state, and no selected ancestor shows as partial. The virtual root is untouched. |
| Cleaner.Model.HasPartialSelection | main.go:258-273 | hasPartialSelection's counting loop returns `HasPartial`, with the same short-circuit on `Selected`. |
| Selection.HasPartial | main.go:258-273 | Definition of hasPartialSelection: the node has children, and the number of live children that are selected or partial is positive and below the number of live children. |
| Selection.MarkedCount | main.go:264-270 | The number of live children that are selected or partial. |
| Selection.LiveCount | main.go:264-267 | The number of live children. |
| Selection.CountsMeaning | main.go:262-272 | The selected count is at most the live count. It is positive exactly when some live child is selected or partial, and below the live count exactly when some live child is neither. |
| Selection.HasPartialMeaning | main.go:258-273 | A node is partially selected exactly when among its live children one is selected or partial and another is neither. |
| Selection.AllDeletedNotPartial | main.go:258-261 | A node without children, or whose children are all deleted, is never partial. |
| Selection.UniformNotPartial | main.go:258-273 | A subtree whose live part is uniformly selected or unselected shows no partial state at its top. |
| Selection.SelectedParentNotPartial | main.go:237-273 | A parent selected by the settling rule is never partial. |
| Cleaner.Model.MoveUp | main.go:325-329 | "up"/"k" moves the cursor up one row unless it is on the first, resetting the scroll offset when it moves. A cursor on a row stays on a row. |
| Cleaner.Model.MoveDown | main.go:331-335 | "down"/"j" moves the cursor down one row unless it is on the last, resetting the scroll offset when it moves. A cursor on a row stays on a row. |
| Cleaner.Model.ToggleAtCursor | main.go:337-343 | Space toggles the row under the cursor unless it is deleted or there is no row, and leaves the rows unchanged. |
| Cleaner.Model.AllRowsSelected | main.go:347-353 | The first loop of "a" returns whether every row that is not deleted is selected. |
| Cleaner.Model.MarkRows | main.go:354-358 | The second loop of "a" gives the value to every row that is not deleted and to nothing else. |
| Cleaner.Model.ToggleAll | main.go:345-358 | "a" marks all live rows unselected when all of them were selected, and selected otherwise. Deleted rows and other nodes keep their state, and the rows stay the same. |
| VisibleList.ToggleAllEffect | main.go:345-358 | After toggle-all either every live row is selected, or (when all were) none is and nothing is counted for deletion. |
| Cleaner.Model.ToggleExpand | main.go:360-372 | "e"/tab on a row with children flips its expanded flag, rebuilds, and clamps the cursor onto the last row if it fell off the end. Otherwise nothing changes. |
| Cleaner.Model.ClampCursor | main.go:367-370 | A cursor past the end of a non-empty list is moved to the last row; a cursor on a row stays put. |
| Cleaner.Model.ExpandRow | main.go:362-370 | The expanding branch leaves the cursor on a row. |
| Cleaner.Model.FlipExpanded | main.go:365-366 | Flipping the expanded flag of a row and rebuilding changes only that flag in the tree, keeps the model consistent, and the row stays visible. |
| Flattening.ExpandKeepsRow | main.go:363-365 | Flipping a row's expanded flag keeps it a row and keeps the tree and its flags valid. |
| Cleaner.Model.DeleteSelected | main.go:402-419 | Every row that is selected, not deleted and of positive size becomes deleted and unselected (the removal's outcome is ignored). Every other node and the rows are unchanged. |
| VisibleList.Deletable | main.go:406 | Definition of the filter of deleteSelected and getSelectionStats: selected, not deleted, and of positive size. |
| VisibleList.Removed | main.go:410-411 | What a finished removal does to a node: it becomes deleted and unselected. |
| VisibleList.DeleteEffect | main.go:402-419 | After a delete nothing visible counts as selected, and the visible total drops by exactly the selected size. |
| VisibleList.RemovedIsDeleted | main.go:405-413 | The loop's outcome, stated per node, is the per-row statement of a delete. |
| Cleaner.Model.GetSelectionStats | main.go:653-663 | Returns the number and total size of the rows that are selected, not deleted and of positive size. |
| Cleaner.Model.GetTotalSize | main.go:665-673 | Returns the total size of the rows that are not deleted and of positive size. |
| VisibleList.SelectedCount | main.go:653-663 | The number of rows that pass the delete filter. |
| VisibleList.SelectedSize | main.go:653-663 | The sizes of the rows that pass the delete filter, summed. |
| VisibleList.VisibleTotal | main.go:665-673 | The sizes of the rows that are not deleted and of positive size, summed. |
| VisibleList.SelectionWithinTotal | main.go:653-673 | The selected size is between 0 and the total size, the count is at most the number of rows, and the count is 0 exactly when the size is. |
| Cleaner.Model.PressQuit | main.go:321-323 | `QuitHandled`: "q"/ctrl+c sets `quitting`, returns the quit command, and every other field keeps its value. |
| Cleaner.Model.PressUp | main.go:325-329 | `UpHandled`: the cursor moves up one row unless it is on the first, the scroll offset resets when it moves, and every other field keeps its value. |
| Cleaner.Model.PressDown | main.go:331-335 | `DownHandled`: the cursor moves down one row unless it is on the last, the scroll offset resets when it moves, and every other field keeps its value. |
| Cleaner.Model.PressSpace | main.go:337-343 | `SpaceHandled`: the row under the cursor is toggled (`Toggled`) unless it is deleted or there is no row; only the tree changes. |
| Cleaner.Model.PressAll | main.go:345-358 | `AllHandled`: every live row takes the negation of "all live rows are selected" (`MarkedAll`); only the tree changes. |
| Cleaner.Model.PressExpand | main.go:360-372 | `ExpandHandled`: a row with children under the cursor is flipped and the cursor clamped onto the rebuilt rows; otherwise nothing changes. The scroll offset, the flags and the terminal size keep their values. |
| Cleaner.Model.HandleKey | main.go:320-376 | After the scan each key has the effect `KeyHandled` gives it: the per-key effects above, enter returns the delete command over the current rows, and an unknown key returns nothing; neither changes any field. Every key keeps the model valid. |
| Cleaner.Model.OnKey | main.go:311-376 | While scanning only the quit keys act (as `KeyHandled` says) and every other key changes no field and returns no command; after the scan every key acts as `KeyHandled` says. |
| Cleaner.Model.OnFound | main.go:382-383 | A found path is inserted as insertPath does; only the tree and the rows change. |
| Cleaner.Model.FinishScan | main.go:385-387 | The end of the scan stops scanning and rebuilds the rows and flags; no other field changes. |
| Cleaner.Model.Resize | main.go:378-380 | A resize records the new width and height and no other field changes. |
| Cleaner.Model.AdvanceScroll | main.go:392-394 | A tick advances the scroll offset by one, asks for the next tick, and no other field changes. |
| Cleaner.Model.Update | main.go:309-398 | Update keeps the model valid. A key acts as `OnKey` says. A found path grows the tree as insertPath does and changes only the tree and the rows. The end of the scan stops scanning and rebuilds. A finished deletion changes nothing. A tick advances the scroll offset and asks for the next tick. A resize records the size. Each message's other fields keep their values, and only keys and ticks return a command. |
| Format.WindowHeight | main.go:476-479 | The list window is the terminal height less 14 rows, but never fewer than 5. |
| Format.VisibleWindow | main.go:481-489 | The rows drawn form a window within the list of the window's height (or the whole list when shorter) that contains the cursor whenever it is on a row. |
| Format.UnitScale | main.go:675-686 | Below 1024 bytes the count is printed as is. Otherwise the divisor is the largest power of 1024 not above the count, and for any int64 the unit letter index is within "KMGTPE". |

## Left out

- Terminal styling and rendering (`View`, `renderNode`, `formatSizeColored`), and the float formatting of `formatBytes`. These are presentation over a library this model does not see.
- The timers (`Init`, `tickCmd`), the spinner frames and the scrolling text. A tick only advances `scrollOffset` and returns `TickCmd`; a resize only records the width and height.
- The filesystem scan, `calculateDirSize` and the message sending in `main`: these are I/O and concurrency. Their results reach the model as `Found` messages carrying the path already split into segments relative to the scan root.
- `filepath.Rel`, `filepath.Join` and `strings.Split`. A node's `path` is its sequence of segments from the scan root rather than the joined absolute path.
- The goroutines, the wait group and `os.RemoveAll` in `deleteSelected`. `Cleaner.Model.DeleteSelected` runs the per-row state change after all removals have finished, and ignores their outcome as the source does. The enter key returns `DeleteCmd(rows)`; running that command later is left to the caller.
- Cleaner.Model.InsertPath: a node's children are claimed sorted only right after `AttachChild` sorts them. The source sorts a newly created intermediate node while its total is still 0, and does not re-sort after a size is overwritten or a deeper node is added, so sortedness is not an invariant of the whole tree.
- Names are Dafny strings (sequences of characters), while Go's names are byte strings. Ordering characters agrees with Go's byte order only for valid UTF-8, and a Linux file name that is not valid UTF-8 has no counterpart here, so `NameOrder.NameLess` covers only names that decode as UTF-8.
- Sizes are unbounded integers: int64 overflow in `getTotalSize`, `getSelectionStats` and the model's `getTotalSize` is not modelled. `Format.UnitScale` does assume an int64 input, as the source's type guarantees.
- Cleaner.Model.GetSelectionStats and Cleaner.Model.GetTotalSize require the rows to be ids of the tree, which `Model.Valid()` guarantees for the flat list.
- The model's `getTotalSize` sums the visible rows only. `VisibleList.ExpandedTotal` relates it to the recursive total only when every node is expanded and none is deleted.
- Go's `sort.Slice` is left to the library. `ChildOrder.SortChildren` stands for it as an insertion sort, and only what every correct sort returns is claimed of it: a sorted permutation. Because sibling names are distinct, the comparator orders any two siblings strictly (`ChildOrder.SortedStrict`).
