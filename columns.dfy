/**
 * The list of columns the manager shows side by side: column 0 is the
 * top-level list and column k + 1 the children of a bookmark in column k.
 * Hovering a folder replaces the columns to its right, and selecting a
 * search result rebuilds the columns along the path to the result.
 */
module Columns {
  import opened Bookmarks
  import opened BookmarkTree

  /** One entry of the `activeColumns` array. Assigning past the end of a
      JavaScript array leaves holes, so an entry is either a hole or a list
      of bookmarks. */
  datatype Column = Hole | Items(list: seq<Bookmark>)

  function Min(a: int, b: int): int
  {
    if a <= b then a else b
  }

  /** `a[i] = v` on a JavaScript array: inside the array it overwrites an
      entry, past the end it leaves holes up to `i`. */
  function Assign(a: seq<Column>, i: nat, v: Column): (r: seq<Column>)
    ensures |r| == if i < |a| then |a| else i + 1
    ensures r[i] == v
    ensures forall k :: 0 <= k < |r| && k != i ==> r[k] == if k < |a| then a[k] else Hole
  {
    if i < |a| then a[i := v] else a + seq(i - |a|, _ => Hole) + [v]
  }

  /** The columns after hovering `bookmark` in column `depth`: a bookmark
      with a `children` field (even an empty one) keeps the columns up to
      `depth` and shows its children right after them. */
  function Hovered(columns: seq<Column>, bookmark: Bookmark, depth: nat): (r: seq<Column>)
    ensures bookmark.children.Absent? ==> r == columns
    ensures bookmark.children.Present? ==>
      |r| == depth + 2 && r[depth + 1] == Items(bookmark.children.list) &&
      forall k :: 0 <= k <= depth ==> r[k] == if k < |columns| then columns[k] else Hole
  {
    if bookmark.children.Present? then
      Assign(columns[..Min(depth + 1, |columns|)], depth + 1, Items(bookmark.children.list))
    else columns
  }

  /** No entry is a hole. */
  predicate Dense(columns: seq<Column>)
  {
    forall k :: 0 <= k < |columns| ==> columns[k].Items?
  }

  /** Hovering inside the shown columns never leaves a hole. */
  lemma HoverKeepsDense(columns: seq<Column>, bookmark: Bookmark, depth: nat)
    requires Dense(columns) && depth < |columns|
    ensures Dense(Hovered(columns, bookmark, depth))
  {
  }

  /** Hovering a folder at a shallower depth discards whatever a deeper hover
      opened: the result is as if the deeper hover had not happened. */
  lemma HoverDiscardsDeeperColumns(columns: seq<Column>, deep: Bookmark, d1: nat, shallow: Bookmark, d2: nat)
    requires d2 <= d1 && shallow.children.Present?
    ensures Hovered(Hovered(columns, deep, d1), shallow, d2) == Hovered(columns, shallow, d2)
  {
    var once := Hovered(columns, deep, d1);
    var twice := Hovered(once, shallow, d2);
    var direct := Hovered(columns, shallow, d2);
    assert |twice| == |direct|;
    forall k | 0 <= k < |twice| ensures twice[k] == direct[k] {
      if k <= d2 && deep.children.Present? {
        assert k <= d1;
      }
    }
  }

  /** The ids of the path to a bookmark whose children are opened as
      columns: all but the bookmark's own id. */
  function Ancestors(path: seq<string>): (r: seq<string>)
    ensures |r| == if path == [] then 0 else |path| - 1
    ensures forall k :: 0 <= k < |r| ==> r[k] == path[k]
  {
    if path == [] then [] else path[..|path| - 1]
  }

  /** The columns opened past the first one when walking `ids` from
      `current`: each id found below the current list (with a `children`
      field) opens its children and the walk continues from there; an id
      that is not found, or names a bookmark without children, opens
      nothing and the walk stays where it is. */
  function Walk(current: seq<Bookmark>, ids: seq<string>): (r: seq<Column>)
    ensures Dense(r) && |r| <= |ids|
    decreases |ids|
  {
    if ids == [] then []
    else
      var bookmark := FindBookmarkById(current, ids[0]);
      if bookmark.Some? && bookmark.value.children.Present? then
        [Items(bookmark.value.children.list)] + Walk(bookmark.value.children.list, ids[1..])
      else Walk(current, ids[1..])
  }

  /** The loop of `handleSelectSearchResult` that builds the new columns
      from a path. */
  method BuildColumns(bookmarks: seq<Bookmark>, path: seq<string>) returns (columns: seq<Column>)
    ensures columns == [Items(bookmarks)] + Walk(bookmarks, Ancestors(path))
  {
    columns := [Items(bookmarks)];
    var currentItems := bookmarks;
    var i := 0;
    ghost var ancestors := Ancestors(path);
    while i < |path| - 1
      invariant 0 <= i <= |ancestors|
      invariant columns + Walk(currentItems, ancestors[i..]) == [Items(bookmarks)] + Walk(bookmarks, ancestors)
    {
      assert ancestors[i..][0] == path[i];
      assert ancestors[i..][1..] == ancestors[i + 1..];
      var bookmark := FindBookmarkById(currentItems, path[i]);
      if bookmark.Some? && bookmark.value.children.Present? {
        columns := columns + [Items(bookmark.value.children.list)];
        currentItems := bookmark.value.children.list;
      }
      i := i + 1;
    }
    assert ancestors[i..] == [];
  }

  /** Column `c` lists a bookmark with id `x`. */
  predicate Shows(c: Column, x: string)
  {
    c.Items? && exists b :: b in c.list && b.id == x
  }

  /** Walking a chain of ids in a forest with unique ids opens one column per
      step; column k lists the k-th id of the chain and the last column lists
      the bookmark the chain leads to. */
  lemma {:induction false} WalkAlongChain(items: seq<Bookmark>, p: seq<string>, node: Bookmark)
    requires UniqueIds(items) && Reaches(items, p, node)
    ensures |Walk(items, Ancestors(p))| == |p| - 1
    ensures var cols := [Items(items)] + Walk(items, Ancestors(p));
      (forall k :: 0 <= k < |p| ==> Shows(cols[k], p[k])) && node in cols[|p| - 1].list
    decreases |p|
  {
    var j :| 0 <= j < |items| && items[j].id == p[0] &&
      (if |p| == 1 then items[j] == node else Reaches(Kids(items[j]), p[1..], node));
    var cols := [Items(items)] + Walk(items, Ancestors(p));
    assert Shows(cols[0], p[0]) by {
      assert items[j] in items;
    }
    if |p| > 1 {
      var kids := Kids(items[j]);
      var q := p[1..];
      assert kids != [] && items[j].children.Present?;
      FindRootLevelItem(items, j);
      UniqueSubtree(items, j);
      assert Ancestors(p)[0] == p[0];
      assert Ancestors(p)[1..] == Ancestors(q);
      assert Walk(items, Ancestors(p)) == [Items(kids)] + Walk(kids, Ancestors(q));
      WalkAlongChain(kids, q, node);
      PrependColumn(cols[0], [Items(kids)] + Walk(kids, Ancestors(q)), p, node);
    }
  }

  /** Putting a column that shows the first id in front of columns that
      follow the rest of the chain gives columns that follow the whole
      chain. */
  lemma PrependColumn(first: Column, sub: seq<Column>, p: seq<string>, node: Bookmark)
    requires |p| > 1 && |sub| == |p| - 1
    requires Shows(first, p[0])
    requires forall k :: 0 <= k < |p[1..]| ==> Shows(sub[k], p[1..][k])
    requires sub[|p| - 2].Items? && node in sub[|p| - 2].list
    ensures var cols := [first] + sub;
      (forall k :: 0 <= k < |p| ==> Shows(cols[k], p[k])) && node in cols[|p| - 1].list
  {
    var cols := [first] + sub;
    forall k | 1 <= k < |p| ensures Shows(cols[k], p[k]) {
      assert cols[k] == sub[k - 1] && p[1..][k - 1] == p[k];
    }
    assert cols[|p| - 1] == sub[|p| - 2];
  }

  /** Selecting a bookmark that occurs in a forest with unique ids opens one
      column per id of its path, column k lists the k-th id of the path, and
      the last column lists the bookmark itself. */
  lemma ColumnsFollowPath(bookmarks: seq<Bookmark>, id: string)
    requires UniqueIds(bookmarks) && id in Ids(bookmarks)
    ensures var path := FindPathToBookmark(bookmarks, id, []);
      var cols := [Items(bookmarks)] + Walk(bookmarks, Ancestors(path));
      |cols| == |path| && (forall k :: 0 <= k < |path| ==> Shows(cols[k], path[k])) &&
      FindBookmarkById(bookmarks, id).value in cols[|path| - 1].list
  {
    var path := FindPathToBookmark(bookmarks, id, []);
    PathIsChain(bookmarks, id, []);
    assert path[0..] == path;
    WalkAlongChain(bookmarks, path, FindBookmarkById(bookmarks, id).value);
  }
}
