/**
 * The search of components/SearchBar.tsx: a depth-first pre-order filter of
 * the forest by a lower-cased term, the reset of the selection when the term
 * changes, and the keyboard rules that move and confirm the selection.
 */
module Search {
  import opened Bookmarks
  import opened Text

  /** An optional field matches when it is present and its lower-cased text
      contains the needle. */
  predicate FieldMatches(field: Option<string>, needle: string)
  {
    field.Some? && Contains(LowerAscii(field.value), needle)
  }

  /** The test of `searchInBookmark`: title, url or description contains the
      (already lower-cased) needle once lower-cased itself. */
  function MatchesTerm(b: Bookmark, needle: string): (r: bool)
    ensures r <==> Occurs(LowerAscii(b.title), needle)
                   || (b.url.Some? && Occurs(LowerAscii(b.url.value), needle))
                   || (b.description.Some? && Occurs(LowerAscii(b.description.value), needle))
  {
    Contains(LowerAscii(b.title), needle) || FieldMatches(b.url, needle) || FieldMatches(b.description, needle)
  }

  /** The members of `s` that match, in their order in `s`. */
  function Select(s: seq<Bookmark>, needle: string): (r: seq<Bookmark>)
    ensures |r| <= |s|
    ensures forall b :: b in r <==> b in s && MatchesTerm(b, needle)
  {
    if s == [] then []
    else (if MatchesTerm(s[0], needle) then [s[0]] else []) + Select(s[1..], needle)
  }

  lemma {:induction false} SelectAppend(a: seq<Bookmark>, b: seq<Bookmark>, needle: string)
    ensures Select(a + b, needle) == Select(a, needle) + Select(b, needle)
  {
    if a == [] {
      assert a + b == b;
    } else {
      assert (a + b)[0] == a[0];
      assert (a + b)[1..] == a[1..] + b;
      SelectAppend(a[1..], b, needle);
    }
  }

  /** A matching bookmark is kept as often as it occurs; any other is
      dropped. */
  lemma {:induction false} SelectCount(s: seq<Bookmark>, needle: string, b: Bookmark)
    ensures multiset(Select(s, needle))[b] == if MatchesTerm(b, needle) then multiset(s)[b] else 0
  {
    if s != [] {
      assert s == [s[0]] + s[1..];
      SelectCount(s[1..], needle, b);
    }
  }

  /** The specification of `searchBookmarks`: the matching nodes of the
      pre-order. */
  function SearchSpec(items: seq<Bookmark>, term: string): seq<Bookmark>
  {
    Select(Preorder(items), LowerAscii(term))
  }

  /** `searchBookmarks`: the term is lower-cased once, then every root is
      searched in turn, appending to one result list. */
  method SearchBookmarks(items: seq<Bookmark>, term: string) returns (results: seq<Bookmark>)
    ensures results == SearchSpec(items, term)
  {
    results := [];
    var searchTerm := LowerAscii(term);
    var i := 0;
    while i < |items|
      invariant 0 <= i <= |items|
      invariant results == Select(Preorder(items[..i]), searchTerm)
    {
      SearchStep(items, i, searchTerm);
      results := SearchInBookmark(items[i], searchTerm, results);
      i := i + 1;
    }
    assert items[..i] == items;
  }

  /** `searchInBookmark`: push the bookmark if it matches, then search its
      children (only when there are some) in order. */
  method SearchInBookmark(bookmark: Bookmark, searchTerm: string, acc: seq<Bookmark>) returns (results: seq<Bookmark>)
    ensures results == acc + Select(Preorder([bookmark]), searchTerm)
    decreases bookmark
  {
    results := acc;
    if MatchesTerm(bookmark, searchTerm) {
      results := results + [bookmark];
    }
    assert results == acc + Select([bookmark], searchTerm);
    if bookmark.children.Present? && |bookmark.children.list| > 0 {
      var children := bookmark.children.list;
      var j := 0;
      while j < |children|
        invariant 0 <= j <= |children|
        invariant results == acc + Select([bookmark], searchTerm) + Select(Preorder(children[..j]), searchTerm)
      {
        SearchStep(children, j, searchTerm);
        Assoc(acc + Select([bookmark], searchTerm), Select(Preorder(children[..j]), searchTerm), Select(Preorder([children[j]]), searchTerm));
        results := SearchInBookmark(children[j], searchTerm, results);
        j := j + 1;
      }
      assert children[..j] == children;
    } else {
      assert Preorder(Kids(bookmark)) == [];
      assert results == acc + Select([bookmark], searchTerm) + Select(Preorder(Kids(bookmark)), searchTerm);
    }
    SearchOne(bookmark, searchTerm);
    Assoc(acc, Select([bookmark], searchTerm), Select(Preorder(Kids(bookmark)), searchTerm));
  }

  /** Searching one more root appends the results of its subtree. */
  lemma SearchStep(s: seq<Bookmark>, j: int, needle: string)
    requires 0 <= j < |s|
    ensures Select(Preorder(s[..j + 1]), needle) == Select(Preorder(s[..j]), needle) + Select(Preorder([s[j]]), needle)
  {
    assert s[..j + 1] == s[..j] + [s[j]];
    PreorderAppend(s[..j], [s[j]]);
    SelectAppend(Preorder(s[..j]), Preorder([s[j]]), needle);
  }

  /** The results in one subtree: its root if it matches, then those among
      the descendants. */
  lemma SearchOne(b: Bookmark, needle: string)
    ensures Select(Preorder([b]), needle) == Select([b], needle) + Select(Preorder(Kids(b)), needle)
  {
    PreorderCons([b]);
    assert [b][1..] == [];
    SelectAppend([b], Preorder(Kids(b)), needle);
    SelectAppend([b] + Preorder(Kids(b)), [], needle);
    assert [b] + Preorder(Kids(b)) + [] == [b] + Preorder(Kids(b));
  }

  /** Every result matches, every matching node at any depth is a result,
      and there are no more results than nodes. */
  lemma SearchSoundAndComplete(items: seq<Bookmark>, term: string)
    ensures forall b :: b in SearchSpec(items, term) <==> b in Preorder(items) && MatchesTerm(b, LowerAscii(term))
    ensures |SearchSpec(items, term)| <= |Preorder(items)|
    ensures items == [] ==> SearchSpec(items, term) == []
  {
  }

  /** With unique ids each matching node is reported exactly once. */
  lemma SearchReportsOnce(items: seq<Bookmark>, term: string, b: Bookmark)
    requires UniqueIds(items) && b in Preorder(items) && MatchesTerm(b, LowerAscii(term))
    ensures multiset(SearchSpec(items, term))[b] == 1
  {
    PreorderOnce(items, b);
    SelectCount(Preorder(items), LowerAscii(term), b);
  }

  /** The results around any root-level item: the results of the earlier
      roots, then the item itself if it matches, then the results among its
      descendants, then those of the later roots. So a parent comes before
      its children and siblings keep their order. */
  lemma SearchOrder(items: seq<Bookmark>, term: string, j: int)
    requires 0 <= j < |items|
    ensures SearchSpec(items, term)
         == SearchSpec(items[..j], term) + Select([items[j]], LowerAscii(term))
          + SearchSpec(Kids(items[j]), term) + SearchSpec(items[j + 1..], term)
  {
    var n := LowerAscii(term);
    var a, b, c, d := Preorder(items[..j]), [items[j]], Preorder(Kids(items[j])), Preorder(items[j + 1..]);
    PreorderAround(items, j);
    SelectAppend(a + b + c, d, n);
    SelectAppend(a + b, c, n);
    SelectAppend(a, b, n);
  }

  // ---------------------------------------------------------------------
  // The selection index
  // ---------------------------------------------------------------------

  /** ArrowDown: one further, unless already at the last result. */
  function ArrowDown(prev: int, count: nat): (r: int)
    ensures prev <= r <= prev + 1
    ensures r == prev + 1 <==> prev < count - 1
    ensures prev <= count - 1 ==> r <= count - 1
  {
    if prev < count - 1 then prev + 1 else prev
  }

  /** ArrowUp: one back, unless already at 0 (or at -1). */
  function ArrowUp(prev: int): (r: int)
    ensures prev - 1 <= r <= prev
    ensures r == prev - 1 <==> prev > 0
    ensures prev >= 0 ==> r >= 0
  {
    if prev > 0 then prev - 1 else prev
  }

  /** The selection is nothing (-1) exactly when there are no results, and
      otherwise a position among them. */
  predicate SelectionValid(index: int, count: nat)
  {
    if count == 0 then index == -1 else 0 <= index < count
  }

  /** The selection a search leaves behind. */
  function InitialSelection(count: nat): (r: int)
    ensures SelectionValid(r, count)
  {
    if count > 0 then 0 else -1
  }

  /** The arrow keys keep the selection valid; ArrowDown never passes the
      last result, ArrowUp never goes below 0 and leaves -1 alone. */
  lemma ArrowKeysKeepSelection(prev: int, count: nat)
    requires count > 0 && SelectionValid(prev, count)
    ensures SelectionValid(ArrowDown(prev, count), count) && SelectionValid(ArrowUp(prev), count)
    ensures ArrowDown(prev, count) == if prev < count - 1 then prev + 1 else count - 1
    ensures ArrowUp(prev) == if prev > 0 then prev - 1 else 0
    ensures ArrowUp(-1) == -1
  {
  }

  /** Inside the list the two arrows undo each other. */
  lemma ArrowKeysInverse(i: int, count: nat)
    ensures 0 <= i < count - 1 ==> ArrowUp(ArrowDown(i, count)) == i
    ensures 0 < i < count ==> ArrowDown(ArrowUp(i), count) == i
  {
  }

  /** The state of the search bar. */
  class SearchBar {
    var searchTerm: string
    var isSearching: bool
    var selectedIndex: int
    var results: seq<Bookmark>

    ghost predicate Valid()
      reads this
    {
      SelectionValid(selectedIndex, |results|)
    }

    constructor ()
      ensures searchTerm == "" && !isSearching && selectedIndex == -1 && results == []
      ensures Valid()
    {
      searchTerm := "";
      isSearching := false;
      selectedIndex := -1;
      results := [];
    }

    /** The effect that runs when the term or the bookmarks change; it
        returns the list it reports to the manager. A blank term clears the
        results, any other term is searched as typed (without trimming). */
    method RunSearch(bookmarks: seq<Bookmark>) returns (reported: seq<Bookmark>)
      modifies this
      ensures Valid()
      ensures Blank(searchTerm) ==> results == [] && selectedIndex == -1
      ensures !Blank(searchTerm) ==> results == SearchSpec(bookmarks, searchTerm) && selectedIndex == InitialSelection(|results|)
      ensures reported == results
      ensures searchTerm == old(searchTerm) && isSearching == old(isSearching)
    {
      TrimEmptyIffBlank(searchTerm);
      if Trim(searchTerm) == "" {
        results := [];
        reported := [];
        selectedIndex := -1;
        return;
      }
      var searchResults := SearchBookmarks(bookmarks, searchTerm);
      results := searchResults;
      reported := searchResults;
      selectedIndex := if |searchResults| > 0 then 0 else -1;
    }

    /** Typing into the input, followed by the effect. */
    method ChangeTerm(term: string, bookmarks: seq<Bookmark>) returns (reported: seq<Bookmark>)
      modifies this
      ensures Valid() && searchTerm == term && isSearching == old(isSearching)
      ensures Blank(term) ==> results == [] && selectedIndex == -1
      ensures !Blank(term) ==> results == SearchSpec(bookmarks, term) && selectedIndex == InitialSelection(|results|)
      ensures reported == results
    {
      searchTerm := term;
      reported := RunSearch(bookmarks);
    }

    /** `handleClearSearch`; it reports an empty list to the manager. */
    method ClearSearch() returns (reported: seq<Bookmark>)
      modifies this
      ensures searchTerm == "" && results == [] && selectedIndex == -1 && reported == []
      ensures isSearching == old(isSearching)
      ensures Valid()
    {
      searchTerm := "";
      results := [];
      reported := [];
      selectedIndex := -1;
    }

    /** Ctrl+K (or Cmd+K) opens the search. */
    method Open()
      modifies this
      ensures isSearching
      ensures searchTerm == old(searchTerm) && results == old(results) && selectedIndex == old(selectedIndex)
    {
      isSearching := true;
    }

    /** Escape closes an open search and empties the term. A term that was
        not already empty changes, so the search-term effect follows: it
        clears the results and reports the empty list to the manager. */
    method Escape(bookmarks: seq<Bookmark>) returns (reported: Option<seq<Bookmark>>)
      modifies this
      ensures old(Valid()) ==> Valid()
      ensures old(isSearching) ==> !isSearching && searchTerm == ""
      ensures old(isSearching) && old(searchTerm) != "" ==> results == [] && selectedIndex == -1 && reported == Some([])
      ensures old(isSearching) && old(searchTerm) == "" ==> results == old(results) && selectedIndex == old(selectedIndex) && reported.None?
      ensures !old(isSearching) ==> unchanged(this) && reported.None?
    {
      reported := None;
      if isSearching {
        isSearching := false;
        var changed := searchTerm != "";
        searchTerm := "";
        if changed {
          var effect := RunSearch(bookmarks);
          reported := Some(effect);
        }
      }
    }

    /** `handleKeyDown`: nothing happens without results; the arrows move the
        selection; Enter hands the selected result to the manager (when the
        index is in range), clears the search and closes it. */
    method KeyDown(key: string) returns (selected: Option<Bookmark>, reported: Option<seq<Bookmark>>)
      requires Valid()
      modifies this
      ensures Valid()
      ensures old(results) == [] ==> selected.None? && reported.None? && unchanged(this)
      ensures old(results) != [] && key == "ArrowDown" ==>
        selectedIndex == ArrowDown(old(selectedIndex), |old(results)|) && results == old(results) && selected.None?
      ensures old(results) != [] && key == "ArrowUp" ==>
        selectedIndex == ArrowUp(old(selectedIndex)) && results == old(results) && selected.None?
      ensures old(results) != [] && key == "Enter" ==>
        selected == Some(old(results)[old(selectedIndex)]) && reported == Some([]) &&
        searchTerm == "" && results == [] && selectedIndex == -1 && !isSearching
      ensures key == "ArrowDown" || key == "ArrowUp" ==>
        searchTerm == old(searchTerm) && isSearching == old(isSearching) && reported.None?
      ensures key != "ArrowDown" && key != "ArrowUp" && key != "Enter" ==> unchanged(this) && selected.None? && reported.None?
    {
      selected, reported := None, None;
      if |results| == 0 {
        return;
      }
      if key == "ArrowDown" {
        selectedIndex := ArrowDown(selectedIndex, |results|);
      }
      if key == "ArrowUp" {
        selectedIndex := ArrowUp(selectedIndex);
      }
      if key == "Enter" && selectedIndex >= 0 && selectedIndex < |results| {
        selected := Some(results[selectedIndex]);
        var cleared := ClearSearch();
        reported := Some(cleared);
        isSearching := false;
      }
    }
  }
}
