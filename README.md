# fishmark core in Dafny

fishmark is a browser bookmark organizer that shows a bookmark forest as side-by-side columns. This project models its in-memory logic:

- **Tree helpers** of the `BookmarkManager` component:
  - `addBookmarkToTree`, `updateBookmarkInTree`, `findBookmarkListById`, `updateBookmarkListById`, `findBookmarkById` and `findPathToBookmark`, as recursive functions over the nested `Bookmark` record.
  - The optional `children` field is modelled with absent and empty kept apart.
- **Column state**: the column list, with the `handleHover` update and the column building of `handleSelectSearchResult`.
- **Undo and redo**:
  - the `historyIndex` cursor over the transaction log;
  - the mapping from a logged record to the store call that `applyReverseTransaction` and `applyTransaction` replay;
  - the record that a reorder by drag logs.
- **Search** in the `SearchBar` component:
  - `searchBookmarks`, a depth-first pre-order filter written with loops and an accumulating result list;
  - the search-term effect;
  - the keyboard selection rules and `handleClearSearch`.

Each function is specified against a reference view of the forest: `Bookmarks.Preorder`, the depth-first pre-order of every node, and `Bookmarks.Ids`, its ids. `Bookmarks.UniqueIds` says no id occurs twice. Most properties need that assumption; those that hold without it are stated without it.

The files:

- `bookmarks.dfy`: the record, the `Partial<Bookmark>` patch, the pre-order view and lemmas about it.
- `tree.dfy`: the tree helpers.
- `columns.dfy`: the column list, `handleHover` and the column-building loop.
- `history.dfy`: the transaction records, the replay mapping and the cursor guards.
- `manager.dfy`: the `BookmarkManager` state as a class whose handlers update its fields.
- `text.dfy`: `toLowerCase`, `includes` and `trim`.
- `search.dfy`: the search, and the `SearchBar` state as a class.

JavaScript details modelled explicitly:

- Both `null` and `""` are falsy parent ids.
- `children ?` is true for an empty array.
- `x || 0` maps a missing index to 0.
- Assigning past the end of an array leaves holes (`Columns.Column.Hole`).
- Object spread is `Bookmarks.Apply`, over a patch that tells a missing key apart from a key set to `undefined`.
- `trim` removes ECMAScript's WhiteSpace and LineTerminator code points.

The asynchronous store calls of undo and redo become parameters: whether the store accepts the replayed call, and `Manager.Reload`, which says whether reloading the forest was rejected or which forest it produced. A record of an unknown action makes no store call, so its replay always resolves (`Manager.ReplayResolves`). The `.then`/`.catch` chain of components/BookmarkManager.tsx:138-150 is followed step by step.

The persistence routines the manager imports are `reorderBookmark`, `moveBookmarkToParent`, `logTransaction`, `getTransactionHistory` and `deleteBookmark` (components/BookmarkManager.tsx:18-28). None of them is defined in lib/db.ts, which only opens IndexedDB and bulk-stores or reads records. A replay is therefore modelled as the store call it makes (`History.Command`), not as its effect on stored data.

## Model

| member | source | states |
|---|---|---|
| Bookmarks.Kids | components/BookmarkManager.tsx:380 | `children \|\| []`: the pre-order of a bookmark is the bookmark followed by the pre-order of these children |
| Bookmarks.Apply | components/BookmarkManager.tsx:302 | the spread keeps `id` and `children` unless the patch has those keys, and takes the patch's value when it does |
| BookmarkTree.AddBookmarkToTree | components/BookmarkManager.tsx:267-293 | with a falsy parent id, the result is the old roots followed by the new bookmark as the last root; otherwise the root-level length is kept and every root is mapped by the item callback |
| BookmarkTree.AddToItem | components/BookmarkManager.tsx:276-292 | only `children` may change; a matching item gets its old children (none if absent) followed by the new bookmark, and is not searched further; a childless non-match is returned as it was |
| BookmarkTree.AddToAbsentParent | components/BookmarkManager.tsx:276-292 | a parent id occurring nowhere leaves the forest equal to the input |
| BookmarkTree.AddGrowth | components/BookmarkManager.tsx:276-292 | the node count grows by the new bookmark's subtree size once per outermost match, so a duplicated parent id receives the bookmark once per match |
| BookmarkTree.AddUnderSoleParent | components/BookmarkManager.tsx:276-292 | with unique ids and a present parent, the node count grows by exactly the new bookmark's subtree |
| BookmarkTree.AddThenRestore | components/BookmarkManager.tsx:276-292 | with unique ids, adding under a parent id and then setting that parent's `children` back to its old value gives the input forest; this also holds when the parent id occurs nowhere |
| BookmarkTree.AddUnderParentRestores | components/BookmarkManager.tsx:267-293 | with unique ids and a present parent, `updateBookmarkInTree` with the parent's old `children` undoes `addBookmarkToTree`, so the addition touched only that field |
| BookmarkTree.AddThenFindList | components/BookmarkManager.tsx:267-293 | after adding under a parent, that parent's column lists its old list with the new bookmark appended; it stays null if the parent id occurs nowhere |
| BookmarkTree.UpdateBookmarkInTree | components/BookmarkManager.tsx:295-312 | the root-level length is kept and every root is mapped by the item callback |
| BookmarkTree.UpdateItem | components/BookmarkManager.tsx:300-311 | a matching item becomes the spread of the patch over it; any other item changes at most its `children`, and a childless non-match is returned as it was |
| BookmarkTree.UpdateAbsentUnchanged | components/BookmarkManager.tsx:300-311 | an id occurring nowhere leaves the forest equal to the input |
| BookmarkTree.UpdateKeepsIds | components/BookmarkManager.tsx:300-311 | a patch without `id` and `children` keys keeps the pre-order id sequence; the shape is stated by `UpdateKeepsShape` |
| BookmarkTree.UpdateKeepsShape | components/BookmarkManager.tsx:300-311 | a patch without `id` and `children` keys keeps the shape: the pre-order sequence of each node's id with its number of children |
| BookmarkTree.UpdateThenFind | components/BookmarkManager.tsx:295-312 | after the update, looking the id up finds the patched version of the node found before, and finds nothing if there was none |
| BookmarkTree.UpdateChangesOnlyTarget | components/BookmarkManager.tsx:300-311 | with unique ids and a patch without `children`, the pre-order outline (each node's own fields with its child count) changes exactly at the target's entries, to the patched record, and every other entry is identical |
| BookmarkTree.FindBookmarkListById | components/BookmarkManager.tsx:373-387 | "root" gives the whole forest; the result is null exactly when the column id is not "root" and occurs nowhere in the forest |
| BookmarkTree.FindListIsFirstInPreorder | components/BookmarkManager.tsx:377-386 | outside "root", the list found is the children (or the empty list when the field is absent) of the first node in pre-order with that id |
| BookmarkTree.UpdateBookmarkListById | components/BookmarkManager.tsx:389-408 | "root" gives the new list itself; outside "root", the root-level length is kept and every root is mapped by the item callback |
| BookmarkTree.UpdateListItem | components/BookmarkManager.tsx:396-407 | only `children` may change; a matching item gets the new list and is not searched further; a childless non-match is returned as it was |
| BookmarkTree.UpdateListAbsentUnchanged | components/BookmarkManager.tsx:396-407 | a column id that is not "root" and occurs nowhere leaves the forest equal to the input |
| BookmarkTree.UpdateListThenFind | components/BookmarkManager.tsx:389-408 | replacing a column's list and then looking the column up returns the new list, for "root" or any id that occurs, and null otherwise; no uniqueness needed |
| BookmarkTree.UpdateListThenRestore | components/BookmarkManager.tsx:389-408 | with unique ids and a column id other than "root", putting the bookmark's old `children` back after the replacement gives the input forest, so nothing else changed; this also holds when the id occurs nowhere |
| BookmarkTree.FindBookmarkById | components/BookmarkManager.tsx:491-507 | a found node has the id asked for, and nothing is found exactly when the id occurs nowhere |
| BookmarkTree.FindByIdIsFirstInPreorder | components/BookmarkManager.tsx:491-507 | the node found is the first in pre-order with that id |
| BookmarkTree.FindRootLevelItem | components/BookmarkManager.tsx:495-498 | with unique ids, looking up a root-level item's id finds that very item |
| BookmarkTree.FindPathToBookmark | components/BookmarkManager.tsx:568-590 | a non-empty result extends the starting path and ends with the target id; the result is empty exactly when the id occurs nowhere |
| BookmarkTree.FindPathPrefix | components/BookmarkManager.tsx:568-590 | the starting path only prefixes the result: the search does not depend on it |
| BookmarkTree.PathIsChain | components/BookmarkManager.tsx:568-590 | a non-empty path starts with a root-level id, each later id is a child of the one before, and the chain ends at the node `findBookmarkById` returns |
| Columns.Assign | components/BookmarkManager.tsx:262 | JavaScript index assignment: the entry is set, earlier entries are kept, and positions past the old end become holes |
| Columns.Hovered | components/BookmarkManager.tsx:259-265 | without a `children` field the columns are unchanged; otherwise columns 0 to depth are kept (holes where none existed), column depth+1 is the children and the length is depth+2 |
| Columns.HoverKeepsDense | components/BookmarkManager.tsx:259-265 | hovering in a shown column never leaves a hole |
| Columns.HoverDiscardsDeeperColumns | components/BookmarkManager.tsx:259-265 | hovering a folder at a shallower depth gives the same columns whether or not a deeper hover came first |
| Columns.Walk | components/BookmarkManager.tsx:550-558 | the columns a walk opens have no holes, and there are at most as many as ids walked |
| Columns.BuildColumns | components/BookmarkManager.tsx:545-558 | the loop's columns are the whole forest followed by one column per ancestor id that names a bookmark with children, walking down from the current list |
| Columns.WalkAlongChain | components/BookmarkManager.tsx:550-558 | with unique ids, walking a parent-child chain opens one column per step; column k lists the k-th id and the last column lists the node the chain reaches |
| Columns.ColumnsFollowPath | components/BookmarkManager.tsx:539-565 | with unique ids and a present id, the rebuilt columns number the path's length, column k lists the k-th path id, and the last column lists the bookmark itself |
| History.ReverseCommand | components/BookmarkManager.tsx:178-201 | a move or reorder record gives a store call on its bookmark id, and any other action gives none |
| History.ForwardCommand | components/BookmarkManager.tsx:204-227 | a move or reorder record gives a store call on its bookmark id, and any other action gives none |
| History.ReverseIsForwardOfSwapped | components/BookmarkManager.tsx:178-227 | undoing a record is redoing the record with old and new exchanged: the move goes to the old parent at the old index (missing index 0) and the reorder to the old index in the same parent, and vice versa |
| History.ContainerParent | components/BookmarkManager.tsx:444-448 | the logged parent id is null exactly for the root column, and is the container id otherwise |
| History.ReorderRecord | components/BookmarkManager.tsx:444-459 | redoing the record a drag logs issues the drag's own reorder call (new index, null parent for the root column), and undoing it asks for the old index in the same container |
| History.LogEntry | components/BookmarkManager.tsx:133-135 | a record is found only at a position inside the log, and it is the entry there |
| History.UndoSlot | components/BookmarkManager.tsx:129-135 | undo replays something exactly when the log is non-empty, the cursor is below the last position and the next entry exists; the entry replayed is the one after the cursor |
| History.RedoSlot | components/BookmarkManager.tsx:154-159 | redo replays something exactly when the log is non-empty, the cursor is not negative and the entry at the cursor exists; the entry replayed is the one at the cursor |
| History.CursorStaysInRange | components/BookmarkManager.tsx:129-175 | inside -1 to the last position, the guards (also the buttons' `disabled` conditions at 669-694) mean "something left to undo" and "something undone", and each step keeps the cursor in range |
| History.UndoRedoAgree | components/BookmarkManager.tsx:129-175 | redo after undo is allowed and touches the same record, and undo after redo is allowed and touches the same record |
| Manager.BookmarkManager.constructor | components/BookmarkManager.tsx:35-49 | the initial state: no bookmarks, one empty column, empty log, cursor -1, no search results, selection -1 |
| Manager.BookmarkManager.LoadHistory | components/BookmarkManager.tsx:93-101 | the refreshed log replaces the old one and the cursor is kept; it stays in range when the log still covers it |
| Manager.BookmarkManager.UpdateActiveColumns | components/BookmarkManager.tsx:369-371 | the columns become a single column with the given forest |
| Manager.BookmarkManager.Settle | components/BookmarkManager.tsx:139-147 | after an accepted replay the cursor moves; a successful reload replaces the forest and shows it as the only column; a failed reload changes nothing else |
| Manager.BookmarkManager.Undo | components/BookmarkManager.tsx:129-151 | returns early (changing nothing) unless `UndoSlot` names an entry; otherwise replays its reverse; the cursor advances by one exactly when the replay resolves, which an unknown action always does and a store call does when accepted; the forest and columns follow the reload's outcome; callable in any state, it keeps the cursor in range if it was, and never touches the log or the search state |
| Manager.BookmarkManager.Redo | components/BookmarkManager.tsx:154-175 | returns early (changing nothing) unless `RedoSlot` names an entry; otherwise replays it forward; the cursor moves back by one exactly when the replay resolves, which an unknown action always does and a store call does when accepted; the forest and columns follow the reload's outcome; callable in any state (a refreshed log may leave the cursor past its end), it keeps the cursor in range if it was, and never touches the log or the search state |
| Manager.BookmarkManager.Hover | components/BookmarkManager.tsx:259-265 | the columns become `Hovered` of the old columns, and nothing else changes |
| Manager.BookmarkManager.HandleSearchResults | components/BookmarkManager.tsx:529-533 | stores the results; the search is active and the first result selected exactly when there are results, otherwise the selection is -1 |
| Manager.BookmarkManager.SelectedIndexChange | components/BookmarkManager.tsx:535-537 | the selection becomes the reported index, and nothing else changes |
| Manager.BookmarkManager.ClickOutside | components/BookmarkManager.tsx:510-520 | a press outside the search container while results are listed empties them, closes the search and sets the selection to -1; any other press changes nothing |
| Manager.BookmarkManager.SelectSearchResult | components/BookmarkManager.tsx:539-565 | a bookmark whose id is on no path changes nothing; otherwise the columns are rebuilt along its path and the search is closed with selection -1; with unique ids and a present id there is one column per path id, column k lists the k-th id and the last column lists the bookmark |
| Text.LowerChar | components/SearchBar.tsx:37 | the result is never an upper-case letter, a letter A-Z moves by 32 code points, and any other character is kept |
| Text.LowerAscii | components/SearchBar.tsx:37 | the result has the same length and is lower-cased character by character |
| Text.LowerAsciiIdempotent | components/SearchBar.tsx:37-43 | lower-casing twice equals lower-casing once, so lower-casing the fields and the term agree |
| Text.Contains | components/SearchBar.tsx:41-43 | `includes` is true exactly when the needle occurs at some position of the string |
| Text.TrimStart | components/SearchBar.tsx:63 | the result is a suffix, what was dropped is whitespace, and the result is empty or starts with a non-whitespace character |
| Text.TrimEnd | components/SearchBar.tsx:63 | the result is a prefix, what was dropped is whitespace, and the result is empty or ends with a non-whitespace character |
| Text.Trim | components/SearchBar.tsx:63 | the result is a slice of the input with only whitespace cut at either end, and it is empty or begins and ends with a non-whitespace character |
| Text.TrimEmptyIffBlank | components/SearchBar.tsx:63 | a term trims to "" exactly when every character is whitespace |
| Search.MatchesTerm | components/SearchBar.tsx:41-45 | a bookmark matches exactly when the term occurs in its lower-cased title, or in its lower-cased url or description when present |
| Search.ArrowDown | components/SearchBar.tsx:108 | the index moves one on exactly when it is below the last position, otherwise it stays, and from an index at most the last position it never passes it |
| Search.ArrowUp | components/SearchBar.tsx:114 | the index moves one back exactly when it is above 0, otherwise it stays, and it never drops below 0 from a non-negative index |
| Search.Select | components/SearchBar.tsx:41-47 | no more results than candidates, and a bookmark is a result exactly when it is a candidate that matches |
| Search.SelectCount | components/SearchBar.tsx:45-47 | a matching bookmark is kept as often as it occurs, and any other is dropped |
| Search.SearchBookmarks | components/SearchBar.tsx:34-59 | the loop's result is the matching nodes of the forest's pre-order, in pre-order |
| Search.SearchInBookmark | components/SearchBar.tsx:39-53 | the recursion appends to the accumulated results the matching nodes of the bookmark's subtree, in pre-order |
| Search.SearchSoundAndComplete | components/SearchBar.tsx:34-58 | every result matches the lower-cased term and is a node of the forest; every matching node at any depth is a result; there are no more results than nodes; an empty forest gives no results |
| Search.SearchReportsOnce | components/SearchBar.tsx:45-56 | with unique ids every matching node is reported exactly once |
| Search.SearchOrder | components/SearchBar.tsx:50-56 | the results are those of earlier roots, then the root itself if it matches, then its descendants', then later roots', so a parent precedes its children and siblings keep their order |
| Search.InitialSelection | components/SearchBar.tsx:73 | the selection after a search is -1 exactly when there are no results, and a position among them otherwise |
| Search.ArrowKeysKeepSelection | components/SearchBar.tsx:106-115 | ArrowDown moves one on but never past the last result, ArrowUp moves one back but never below 0 and leaves -1 alone, and both keep the selection valid |
| Search.ArrowKeysInverse | components/SearchBar.tsx:106-115 | inside the list, ArrowDown then ArrowUp, and ArrowUp then ArrowDown, return to the same index |
| Search.SearchBar.constructor | components/SearchBar.tsx:20-23 | the initial state: empty term, search closed, selection -1, no results |
| Search.SearchBar.RunSearch | components/SearchBar.tsx:62-74 | a blank term gives no results and selection -1; any other term gives the pre-order matches of the untrimmed term, with selection 0 if there are any and -1 if not; the list reported is the stored one |
| Search.SearchBar.ChangeTerm | components/SearchBar.tsx:62-74 | typing a term, followed by the effect, stores the term and gives the results and selection `RunSearch` describes |
| Search.SearchBar.ClearSearch | components/SearchBar.tsx:128-133 | the term and results are emptied, the selection is -1 and an empty list is reported |
| Search.SearchBar.Open | components/SearchBar.tsx:86-89 | Ctrl+K opens the search and changes nothing else |
| Search.SearchBar.Escape | components/SearchBar.tsx:62-94 | Escape closes an open search and empties its term; if the term was not empty, the effect then clears the results, sets the selection to -1 and reports an empty list; with the search closed nothing changes |
| Search.SearchBar.KeyDown | components/SearchBar.tsx:102-126 | without results nothing happens; the arrows move the selection by `ArrowDown`/`ArrowUp`, keep the term and the open flag and report nothing; Enter hands the selected result over, clears and closes the search; other keys change nothing; the selection stays valid |

## Left out

- The persistence layer is not part of this model: lib/db.ts (IndexedDB opening, upgrade, bulk put and get) and the imported store routines whose bodies are absent (`reorderBookmark`, `moveBookmarkToParent`, `logTransaction`, `getTransactionHistory`, `deleteBookmark`). A replay is the `History.Command` it issues. Sibling renumbering, cascade deletion and a bounded log are not modelled, because no shown code defines them.
- The store's promises become the `storeAccepts` and `Manager.Reload` parameters. Their timing and interleaving with other handlers (React state updates are asynchronous) are not modelled.
- The rest of `handleDragEnd` (components/BookmarkManager.tsx:410-488) is not modelled: `arrayMove` is a library call and the container ids come from the drag library. Only the record it logs (`History.ReorderRecord`) and its replay are modelled. `handleSaveBookmark`, `handleDeleteBookmark`, `handleDeleteAllBookmarks`, import and export are left out for the same reason: they are built from store calls, `getFaviconUrl` (the WHATWG URL parser) and random ids.
- React plumbing is left out: effects that load and save bookmarks, the Ctrl+Z and Ctrl+Y listeners, the scroll interval, focus and JSX rendering. Of the handlers these listeners call, `handleUndo` and `handleRedo` (Ctrl+Z, Ctrl+Y) are modelled as `Manager.BookmarkManager.Undo` and `Redo`, and `handleClickOutside` as `Manager.BookmarkManager.ClickOutside`, with the DOM containment test as its `outside` parameter. The mount-time load (components/BookmarkManager.tsx:60-81) and `handleScroll`/`stopScroll` (components/BookmarkManager.tsx:229-249) are not modelled: they are store reads, DOM scrolling and interval timers.
- lib/utils.ts (`throttle` over `Date.now` and `setTimeout`, `cn` over class-name libraries) is left out.
- Text.LowerAscii: lower-cases only the letters A to Z, not the full Unicode `toLowerCase` (case folding, length-changing mappings). `includes` is modelled on code points.
- Search.SearchBar.RunSearch: the `onSearchResults` callback is modelled as the returned `reported` list, not as a call into the manager. The `onSelectedIndexChange` effect is modelled on the manager side as `Manager.BookmarkManager.SelectedIndexChange`.
- Search.SearchBar.KeyDown: `onSelectBookmark` is modelled as the returned `selected` value. The Enter branch uses the selection before the key is handled, as the source does. Only one key per call is modelled.
- Manager.BookmarkManager.Hover: `depth` is a `nat`; a negative or fractional depth, which JavaScript would accept, is not modelled.
- History.ReverseCommand: `index || 0` is modelled for a missing index only. Other falsy values of an untyped record (0 gives 0 anyway; NaN, "" or false) are not modelled, because the record fields are typed as optional integers.
- BookmarkTree.UpdateChangesOnlyTarget: stated for forests with unique ids only. With a duplicated id, a match nested below another match is not updated, because the callback does not recurse into a matched node. `BookmarkTree.UpdateItem` states that per item.
- Columns.Walk: its own contract states only density and the length bound. What the columns contain is stated by `Columns.WalkAlongChain` for forests with unique ids.
