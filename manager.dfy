/**
 * The state of the `BookmarkManager` component that the modelled handlers
 * update: the forest, the shown columns, the transaction log with its undo
 * cursor, and the search results with their selection.
 */
module Manager {
  import opened Bookmarks
  import opened BookmarkTree
  import opened Columns
  import opened History

  /** What reloading the forest after a replay comes to: rejected, or the
      reloaded forest. */
  datatype Reload = ReloadFailed | Reloaded(tree: seq<Bookmark>)

  /** Whether the replay step resolves: a record of an unknown action makes
      no store call and only warns, so it always resolves; a move or reorder
      resolves exactly when the store accepts the call. */
  predicate ReplayResolves(c: Command, storeAccepts: bool)
  {
    c.NoOp? || storeAccepts
  }

  class BookmarkManager {
    var bookmarks: seq<Bookmark>
    var activeColumns: seq<Column>
    var history: seq<Option<Transaction>>
    var historyIndex: int
    var searchResults: seq<Bookmark>
    var isSearchActive: bool
    var selectedSearchIndex: int

    /** The undo cursor lies within the log. */
    ghost predicate Valid()
      reads this
    {
      CursorInRange(|history|, historyIndex)
    }

    constructor ()
      ensures bookmarks == [] && activeColumns == [Items([])]
      ensures history == [] && historyIndex == -1
      ensures searchResults == [] && !isSearchActive && selectedSearchIndex == -1
      ensures Valid()
    {
      bookmarks := [];
      activeColumns := [Items([])];
      history := [];
      historyIndex := -1;
      searchResults := [];
      isSearchActive := false;
      selectedSearchIndex := -1;
    }

    /** The effect that refreshes the log from the store. The cursor is not
        reset, so it stays in range only if the log did not shrink below
        it. */
    method LoadHistory(log: seq<Option<Transaction>>)
      modifies this
      ensures history == log && historyIndex == old(historyIndex)
      ensures old(historyIndex) < |log| ==> (old(Valid()) ==> Valid())
      ensures bookmarks == old(bookmarks) && activeColumns == old(activeColumns)
      ensures searchResults == old(searchResults) && isSearchActive == old(isSearchActive)
      ensures selectedSearchIndex == old(selectedSearchIndex)
    {
      history := log;
    }

    /** `handleUpdateActiveColumns`: a single column with the whole forest. */
    method UpdateActiveColumns(loaded: seq<Bookmark>)
      modifies this
      ensures activeColumns == [Items(loaded)]
      ensures bookmarks == old(bookmarks) && history == old(history) && historyIndex == old(historyIndex)
      ensures searchResults == old(searchResults) && isSearchActive == old(isSearchActive)
      ensures selectedSearchIndex == old(selectedSearchIndex)
    {
      activeColumns := [Items(loaded)];
    }

    /** After a replay succeeds: move the cursor, then reload the forest and
        show it as the only column if reloading succeeds. */
    method Settle(nextIndex: int, outcome: Reload)
      modifies this
      ensures historyIndex == nextIndex
      ensures outcome.Reloaded? ==> bookmarks == outcome.tree && activeColumns == [Items(outcome.tree)]
      ensures outcome.ReloadFailed? ==> bookmarks == old(bookmarks) && activeColumns == old(activeColumns)
      ensures history == old(history)
      ensures searchResults == old(searchResults) && isSearchActive == old(isSearchActive)
      ensures selectedSearchIndex == old(selectedSearchIndex)
    {
      historyIndex := nextIndex;
      if outcome.Reloaded? {
        bookmarks := outcome.tree;
        UpdateActiveColumns(outcome.tree);
      }
    }

    /** `handleUndo`: replays the record after the cursor in reverse and,
        once that resolves (always for an unknown action, which makes no
        store call), advances the cursor by one. */
    method Undo(storeAccepts: bool, outcome: Reload) returns (replayed: Option<Command>)
      modifies this
      ensures old(Valid()) ==> Valid()
      ensures var slot := UndoSlot(old(history), old(historyIndex));
        (slot.None? ==> replayed.None? && unchanged(this)) &&
        (slot.Some? ==> replayed == Some(ReverseCommand(old(history)[slot.value].value)))
      ensures replayed.Some? && ReplayResolves(replayed.value, storeAccepts) ==> historyIndex == old(historyIndex) + 1
      ensures replayed.Some? && replayed.value.NoOp? ==> historyIndex == old(historyIndex) + 1
      ensures replayed.Some? && !ReplayResolves(replayed.value, storeAccepts) ==> unchanged(this)
      ensures replayed.Some? && ReplayResolves(replayed.value, storeAccepts) && outcome.Reloaded? ==>
        bookmarks == outcome.tree && activeColumns == [Items(outcome.tree)]
      ensures replayed.Some? && outcome.ReloadFailed? ==> bookmarks == old(bookmarks) && activeColumns == old(activeColumns)
      ensures history == old(history)
      ensures searchResults == old(searchResults) && isSearchActive == old(isSearchActive)
      ensures selectedSearchIndex == old(selectedSearchIndex)
    {
      replayed := None;
      if |history| == 0 || historyIndex >= |history| - 1 {
        return;
      }
      var nextIndex := historyIndex + 1;
      var transaction := LogEntry(history, nextIndex);
      if transaction.None? {
        return;
      }
      replayed := Some(ReverseCommand(transaction.value));
      if !ReplayResolves(replayed.value, storeAccepts) {
        return;
      }
      Settle(nextIndex, outcome);
    }

    /** `handleRedo`: replays the record at the cursor forward and, once
        that resolves (always for an unknown action, which makes no store
        call), moves the cursor back by one. */
    method Redo(storeAccepts: bool, outcome: Reload) returns (replayed: Option<Command>)
      modifies this
      ensures old(Valid()) ==> Valid()
      ensures var slot := RedoSlot(old(history), old(historyIndex));
        (slot.None? ==> replayed.None? && unchanged(this)) &&
        (slot.Some? ==> replayed == Some(ForwardCommand(old(history)[slot.value].value)))
      ensures replayed.Some? && ReplayResolves(replayed.value, storeAccepts) ==> historyIndex == old(historyIndex) - 1
      ensures replayed.Some? && replayed.value.NoOp? ==> historyIndex == old(historyIndex) - 1
      ensures replayed.Some? && !ReplayResolves(replayed.value, storeAccepts) ==> unchanged(this)
      ensures replayed.Some? && ReplayResolves(replayed.value, storeAccepts) && outcome.Reloaded? ==>
        bookmarks == outcome.tree && activeColumns == [Items(outcome.tree)]
      ensures replayed.Some? && outcome.ReloadFailed? ==> bookmarks == old(bookmarks) && activeColumns == old(activeColumns)
      ensures history == old(history)
      ensures searchResults == old(searchResults) && isSearchActive == old(isSearchActive)
      ensures selectedSearchIndex == old(selectedSearchIndex)
    {
      replayed := None;
      if |history| == 0 || historyIndex < 0 {
        return;
      }
      var transaction := LogEntry(history, historyIndex);
      if transaction.None? {
        return;
      }
      replayed := Some(ForwardCommand(transaction.value));
      if !ReplayResolves(replayed.value, storeAccepts) {
        return;
      }
      Settle(historyIndex - 1, outcome);
    }

    /** The mousedown listener's `handleClickOutside`: a press outside the
        search container (`outside`: the container is mounted and does not
        hold the target) while results are listed closes the results. */
    method ClickOutside(outside: bool)
      modifies this
      ensures outside && old(searchResults) != [] ==>
        searchResults == [] && !isSearchActive && selectedSearchIndex == -1
      ensures !(outside && old(searchResults) != []) ==> unchanged(this)
      ensures bookmarks == old(bookmarks) && activeColumns == old(activeColumns)
      ensures history == old(history) && historyIndex == old(historyIndex)
    {
      if outside && |searchResults| > 0 {
        searchResults := [];
        isSearchActive := false;
        selectedSearchIndex := -1;
      }
    }

    /** `handleHover`: slice the columns after `depth`, then assign the
        bookmark's children to the next entry. */
    method Hover(bookmark: Bookmark, depth: nat)
      modifies this
      ensures activeColumns == Hovered(old(activeColumns), bookmark, depth)
      ensures bookmarks == old(bookmarks) && history == old(history) && historyIndex == old(historyIndex)
      ensures searchResults == old(searchResults) && isSearchActive == old(isSearchActive)
      ensures selectedSearchIndex == old(selectedSearchIndex)
    {
      if bookmark.children.Present? {
        var newColumns := activeColumns[..Min(depth + 1, |activeColumns|)];
        newColumns := Assign(newColumns, depth + 1, Items(bookmark.children.list));
        activeColumns := newColumns;
      }
    }

    /** `handleSearchResults`: store the results; the first one is selected
        when there is one. */
    method HandleSearchResults(results: seq<Bookmark>)
      modifies this
      ensures searchResults == results && isSearchActive == (|results| > 0)
      ensures selectedSearchIndex == (if |results| > 0 then 0 else -1)
      ensures bookmarks == old(bookmarks) && activeColumns == old(activeColumns)
      ensures history == old(history) && historyIndex == old(historyIndex)
    {
      searchResults := results;
      isSearchActive := |results| > 0;
      selectedSearchIndex := if |results| > 0 then 0 else -1;
    }

    /** `handleSelectedIndexChange`: the search bar reports its selection. */
    method SelectedIndexChange(index: int)
      modifies this
      ensures selectedSearchIndex == index
      ensures searchResults == old(searchResults) && isSearchActive == old(isSearchActive)
      ensures bookmarks == old(bookmarks) && activeColumns == old(activeColumns)
      ensures history == old(history) && historyIndex == old(historyIndex)
    {
      selectedSearchIndex := index;
    }

    /** `handleSelectSearchResult`: a bookmark on no path changes nothing;
        otherwise the columns are rebuilt along its path and the search
        closes. In a forest with unique ids, a bookmark that occurs gets one
        column per id of its path, column k lists the k-th id, and the last
        column lists the bookmark that the id names. */
    method SelectSearchResult(bookmark: Bookmark)
      modifies this
      ensures var path := FindPathToBookmark(old(bookmarks), bookmark.id, []);
        (path == [] ==> unchanged(this)) &&
        (path != [] ==>
          activeColumns == [Items(old(bookmarks))] + Walk(old(bookmarks), Ancestors(path)) &&
          searchResults == [] && !isSearchActive && selectedSearchIndex == -1)
      ensures var path := FindPathToBookmark(old(bookmarks), bookmark.id, []);
        UniqueIds(old(bookmarks)) && bookmark.id in Ids(old(bookmarks)) ==>
          |activeColumns| == |path| &&
          (forall k :: 0 <= k < |path| ==> Shows(activeColumns[k], path[k])) &&
          FindBookmarkById(old(bookmarks), bookmark.id).value in activeColumns[|path| - 1].list
      ensures bookmarks == old(bookmarks) && history == old(history) && historyIndex == old(historyIndex)
    {
      var path := FindPathToBookmark(bookmarks, bookmark.id, []);
      if |path| > 0 {
        var newActiveColumns := BuildColumns(bookmarks, path);
        ghost var known := UniqueIds(bookmarks) && bookmark.id in Ids(bookmarks);
        if known {
          ColumnsFollowPath(bookmarks, bookmark.id);
        }
        activeColumns := newActiveColumns;
        searchResults := [];
        isSearchActive := false;
        selectedSearchIndex := -1;
      }
    }
  }
}
