/**
 * The recursive tree helpers of components/BookmarkManager.tsx: adding a
 * bookmark under a parent, spreading an update over a bookmark, finding and
 * replacing the list a column shows, finding a bookmark and the path of ids
 * that leads to it. Each one is a function over the nested forest, and each
 * is related to the pre-order view of that forest.
 */
module BookmarkTree {
  import opened Bookmarks

  /** The column id that stands for the top-level list. */
  const RootColumn: string := "root"

  /** `!parentId` for a `string | null`: both null and "" are falsy. */
  predicate IsFalsy(parentId: Option<string>)
  {
    parentId.None? || parentId.value == ""
  }

  // ---------------------------------------------------------------------
  // addBookmarkToTree
  // ---------------------------------------------------------------------

  /** With a falsy parent the new bookmark becomes the last root; otherwise
      every root-level item is mapped by `AddToItem`. */
  function AddBookmarkToTree(items: seq<Bookmark>, parentId: Option<string>, newBookmark: Bookmark): (r: seq<Bookmark>)
    ensures IsFalsy(parentId) ==> |r| == |items| + 1 && r[..|items|] == items && r[|items|] == newBookmark
    ensures !IsFalsy(parentId) ==> |r| == |items|
    ensures !IsFalsy(parentId) ==> forall k :: 0 <= k < |items| ==> r[k] == AddToItem(items[k], parentId, newBookmark)
    decreases items
  {
    if IsFalsy(parentId) then items + [newBookmark]
    else if items == [] then []
    else [AddToItem(items[0], parentId, newBookmark)] + AddBookmarkToTree(items[1..], parentId, newBookmark)
  }

  /** The callback of the `map`: a matching item gets the new bookmark as its
      last child and is not searched further; another item with a `children`
      field has the addition applied to its children. */
  function AddToItem(item: Bookmark, parentId: Option<string>, newBookmark: Bookmark): (r: Bookmark)
    requires !IsFalsy(parentId)
    ensures r == item.(children := r.children)
    ensures item.id == parentId.value ==> r.children == Present(Kids(item) + [newBookmark])
    ensures item.id != parentId.value && item.children.Absent? ==> r == item
    decreases item
  {
    if item.id == parentId.value then item.(children := Present(Kids(item) + [newBookmark]))
    else if item.children.Present? then item.(children := Present(AddBookmarkToTree(item.children.list, parentId, newBookmark)))
    else item
  }

  /** The number of items with the given id that are not inside another item
      with that id: the places where `AddBookmarkToTree` inserts. */
  function OuterMatches(items: seq<Bookmark>, id: string): nat
    decreases items
  {
    if items == [] then 0
    else
      ItemMatches(items[0], id) + OuterMatches(items[1..], id)
  }

  /** A parent id that occurs nowhere leaves the tree as it was. */
  lemma {:induction false} AddToAbsentParent(items: seq<Bookmark>, parentId: Option<string>, newBookmark: Bookmark)
    requires !IsFalsy(parentId) && parentId.value !in Ids(items)
    ensures AddBookmarkToTree(items, parentId, newBookmark) == items
  {
    if items != [] {
      var r := AddBookmarkToTree(items, parentId, newBookmark);
      if items[0].children.Present? {
        AddToAbsentParent(items[0].children.list, parentId, newBookmark);
      }
      assert r[0] == items[0];
      AddToAbsentParent(items[1..], parentId, newBookmark);
      assert r == [r[0]] + AddBookmarkToTree(items[1..], parentId, newBookmark);
    }
  }

  /** The node count grows by the size of the new bookmark's subtree once for
      every outer match of the parent id. */
  lemma {:induction false} AddGrowth(items: seq<Bookmark>, parentId: Option<string>, newBookmark: Bookmark)
    requires !IsFalsy(parentId)
    ensures |Preorder(AddBookmarkToTree(items, parentId, newBookmark))|
         == |Preorder(items)| + OuterMatches(items, parentId.value) * |Preorder([newBookmark])|
    decreases items
  {
    if items != [] {
      var r := AddBookmarkToTree(items, parentId, newBookmark);
      var n := |Preorder([newBookmark])|;
      var here := ItemMatches(items[0], parentId.value);
      var m := OuterMatches(items[1..], parentId.value);
      var first := Kids(AddToItem(items[0], parentId, newBookmark));
      var rest := AddBookmarkToTree(items[1..], parentId, newBookmark);
      assert |Preorder(r)| == 1 + |Preorder(first)| + |Preorder(rest)| by {
        assert r[0] == AddToItem(items[0], parentId, newBookmark);
        assert r[1..] == rest;
        PreorderCons(r);
      }
      assert |Preorder(items)| == 1 + |Preorder(Kids(items[0]))| + |Preorder(items[1..])| by {
        PreorderCons(items);
      }
      assert OuterMatches(items, parentId.value) == here + m;
      AddItemGrowth(items[0], parentId, newBookmark);
      AddGrowth(items[1..], parentId, newBookmark);
      Distribute(here, m, n);
    }
  }

  lemma Distribute(a: int, b: int, n: int)
    ensures (a + b) * n == a * n + b * n
  {
  }

  /** The outer matches contributed by one item and its descendants. */
  function ItemMatches(item: Bookmark, id: string): nat
    decreases item
  {
    if item.id == id then 1
    else if item.children.Present? then OuterMatches(item.children.list, id)
    else 0
  }

  lemma {:induction false} AddItemGrowth(item: Bookmark, parentId: Option<string>, newBookmark: Bookmark)
    requires !IsFalsy(parentId)
    ensures |Preorder(Kids(AddToItem(item, parentId, newBookmark)))|
         == |Preorder(Kids(item))| + ItemMatches(item, parentId.value) * |Preorder([newBookmark])|
    decreases item
  {
    if item.id == parentId.value {
      PreorderAppend(Kids(item), [newBookmark]);
    } else if item.children.Present? {
      AddGrowth(item.children.list, parentId, newBookmark);
    }
  }

  /** With unique ids an id has one outer match if it occurs and none
      otherwise. */
  lemma {:induction false} OuterMatchesUnique(items: seq<Bookmark>, id: string)
    requires UniqueIds(items)
    ensures OuterMatches(items, id) == if id in Ids(items) then 1 else 0
  {
    if items != [] {
      UniqueParts(items);
      PreorderCons(items);
      OuterMatchesUnique(items[1..], id);
      assert OuterMatches(items, id) == ItemMatches(items[0], id) + OuterMatches(items[1..], id);
      if items[0].children.Present? {
        OuterMatchesUnique(items[0].children.list, id);
      }
    }
  }

  /** Adding under a parent present exactly once adds exactly the new
      bookmark's subtree to the node count. */
  lemma AddUnderSoleParent(items: seq<Bookmark>, parentId: Option<string>, newBookmark: Bookmark)
    requires !IsFalsy(parentId) && UniqueIds(items) && parentId.value in Ids(items)
    ensures |Preorder(AddBookmarkToTree(items, parentId, newBookmark))| == |Preorder(items)| + |Preorder([newBookmark])|
  {
    AddGrowth(items, parentId, newBookmark);
    OuterMatchesUnique(items, parentId.value);
  }

  /** After an addition, the column of the parent shows its old list with the
      new bookmark at the end; a parent that is nowhere still has no column. */
  lemma {:induction false} AddThenFindList(items: seq<Bookmark>, parentId: Option<string>, newBookmark: Bookmark)
    requires !IsFalsy(parentId) && parentId.value != RootColumn
    ensures FindBookmarkListById(AddBookmarkToTree(items, parentId, newBookmark), parentId.value)
         == (var l := FindBookmarkListById(items, parentId.value); if l.Some? then Some(l.value + [newBookmark]) else None)
  {
    if items != [] {
      var r := AddBookmarkToTree(items, parentId, newBookmark);
      assert r[1..] == AddBookmarkToTree(items[1..], parentId, newBookmark);
      AddThenFindList(items[1..], parentId, newBookmark);
      if items[0].id != parentId.value && items[0].children.Present? {
        AddThenFindList(items[0].children.list, parentId, newBookmark);
      }
    }
  }

  // ---------------------------------------------------------------------
  // updateBookmarkInTree
  // ---------------------------------------------------------------------

  /** Every root-level item is mapped by `UpdateItem`. */
  function UpdateBookmarkInTree(items: seq<Bookmark>, bookmarkId: string, updates: Patch): (r: seq<Bookmark>)
    ensures |r| == |items|
    ensures forall k :: 0 <= k < |items| ==> r[k] == UpdateItem(items[k], bookmarkId, updates)
    decreases items
  {
    if items == [] then []
    else [UpdateItem(items[0], bookmarkId, updates)] + UpdateBookmarkInTree(items[1..], bookmarkId, updates)
  }

  /** The callback of the `map`: the matching item becomes `{...item,
      ...updates}` and is not searched further; another item with a
      `children` field has the update applied to its children. */
  function UpdateItem(item: Bookmark, bookmarkId: string, updates: Patch): (r: Bookmark)
    ensures item.id == bookmarkId ==> r == Apply(item, updates)
    ensures item.id != bookmarkId ==> r == item.(children := r.children)
    ensures item.id != bookmarkId && item.children.Absent? ==> r == item
    decreases item
  {
    if item.id == bookmarkId then Apply(item, updates)
    else if item.children.Present? then item.(children := Present(UpdateBookmarkInTree(item.children.list, bookmarkId, updates)))
    else item
  }

  /** An id that occurs nowhere leaves the tree as it was. */
  lemma {:induction false} UpdateAbsentUnchanged(items: seq<Bookmark>, bookmarkId: string, updates: Patch)
    requires bookmarkId !in Ids(items)
    ensures UpdateBookmarkInTree(items, bookmarkId, updates) == items
  {
    if items != [] {
      var r := UpdateBookmarkInTree(items, bookmarkId, updates);
      if items[0].children.Present? {
        UpdateAbsentUnchanged(items[0].children.list, bookmarkId, updates);
      }
      assert r[0] == items[0];
      UpdateAbsentUnchanged(items[1..], bookmarkId, updates);
      assert r == [r[0]] + UpdateBookmarkInTree(items[1..], bookmarkId, updates);
    }
  }

  /** An update that touches neither `id` nor `children` keeps every id in
      its pre-order place. */
  lemma {:induction false} UpdateKeepsIds(items: seq<Bookmark>, bookmarkId: string, updates: Patch)
    requires updates.id.None? && updates.children.None?
    ensures Ids(UpdateBookmarkInTree(items, bookmarkId, updates)) == Ids(items)
  {
    if items != [] {
      var r := UpdateBookmarkInTree(items, bookmarkId, updates);
      assert r[1..] == UpdateBookmarkInTree(items[1..], bookmarkId, updates);
      PreorderCons(items);
      PreorderCons(r);
      UpdateKeepsIds(items[1..], bookmarkId, updates);
      if items[0].id != bookmarkId && items[0].children.Present? {
        UpdateKeepsIds(items[0].children.list, bookmarkId, updates);
      }
    }
  }

  /** Looking the bookmark up after the update finds the updated record. */
  lemma {:induction false} UpdateThenFind(items: seq<Bookmark>, bookmarkId: string, updates: Patch)
    requires updates.id.None?
    ensures FindBookmarkById(UpdateBookmarkInTree(items, bookmarkId, updates), bookmarkId)
         == (var f := FindBookmarkById(items, bookmarkId); if f.Some? then Some(Apply(f.value, updates)) else None)
  {
    if items != [] {
      var r := UpdateBookmarkInTree(items, bookmarkId, updates);
      assert r[1..] == UpdateBookmarkInTree(items[1..], bookmarkId, updates);
      UpdateThenFind(items[1..], bookmarkId, updates);
      if items[0].id != bookmarkId && items[0].children.Present? {
        UpdateThenFind(items[0].children.list, bookmarkId, updates);
      }
    }
  }

  /** The pre-order sequence of ids, each with the number of children of
      its node. It determines the shape of the forest. */
  function Shape(items: seq<Bookmark>): seq<(string, nat)>
  {
    if items == [] then []
    else
      [(items[0].id, |Kids(items[0])|)]
      + (if items[0].children.Present? then Shape(items[0].children.list) else [])
      + Shape(items[1..])
  }

  /** An update that touches neither `id` nor `children` keeps the shape:
      every id in its pre-order place with the same number of children. No
      uniqueness is needed. */
  lemma {:induction false} UpdateKeepsShape(items: seq<Bookmark>, bookmarkId: string, updates: Patch)
    requires updates.id.None? && updates.children.None?
    ensures Shape(UpdateBookmarkInTree(items, bookmarkId, updates)) == Shape(items)
  {
    if items != [] {
      var r := UpdateBookmarkInTree(items, bookmarkId, updates);
      assert r[1..] == UpdateBookmarkInTree(items[1..], bookmarkId, updates);
      UpdateKeepsShape(items[1..], bookmarkId, updates);
      if items[0].id != bookmarkId && items[0].children.Present? {
        UpdateKeepsShape(items[0].children.list, bookmarkId, updates);
        assert |Kids(r[0])| == |Kids(items[0])|;
      } else {
        assert r[0].children == items[0].children;
      }
    }
  }

  /** The patch that sets only the `children` field. */
  function ChildrenPatch(c: Children): (u: Patch)
    ensures u.id.None? && u.children == Some(c)
  {
    Patch(None, None, None, None, None, Some(c), None, None)
  }

  /** With unique ids, adding under a parent and then putting back the
      parent's old `children` field (`c`, when the parent occurs) gives the
      forest back: the addition changed that one field and nothing else. */
  lemma {:induction false} AddThenRestore(items: seq<Bookmark>, p: string, newBookmark: Bookmark, c: Children)
    requires p != "" && UniqueIds(items)
    requires p in Ids(items) ==> FindBookmarkById(items, p).value.children == c
    ensures UpdateBookmarkInTree(AddBookmarkToTree(items, Some(p), newBookmark), p, ChildrenPatch(c)) == items
  {
    if items != [] {
      var x, rest := items[0], items[1..];
      var u := ChildrenPatch(c);
      var head := AddToItem(x, Some(p), newBookmark);
      var tail := AddBookmarkToTree(rest, Some(p), newBookmark);
      UniqueParts(items);
      assert Ids(items) == [x.id] + Ids(Kids(x)) + Ids(rest) by {
        PreorderCons(items);
      }
      assert UpdateItem(head, p, u) == x by {
        if x.id == p {
        } else if x.children.Present? {
          assert p in Ids(x.children.list) ==> FindBookmarkById(x.children.list, p) == FindBookmarkById(items, p);
          AddThenRestore(x.children.list, p, newBookmark, c);
        }
      }
      assert UpdateBookmarkInTree(tail, p, u) == rest by {
        assert p in Ids(rest) ==> FindBookmarkById(rest, p) == FindBookmarkById(items, p);
        AddThenRestore(rest, p, newBookmark, c);
      }
      assert AddBookmarkToTree(items, Some(p), newBookmark) == [head] + tail;
      assert ([head] + tail)[1..] == tail;
    }
  }

  /** With unique ids and a parent that occurs, restoring the parent's
      original `children` field after the addition gives the forest back. */
  lemma AddUnderParentRestores(items: seq<Bookmark>, p: string, newBookmark: Bookmark)
    requires p != "" && UniqueIds(items) && p in Ids(items)
    ensures var c := FindBookmarkById(items, p).value.children;
      UpdateBookmarkInTree(AddBookmarkToTree(items, Some(p), newBookmark), p, ChildrenPatch(c)) == items
  {
    AddThenRestore(items, p, newBookmark, FindBookmarkById(items, p).value.children);
  }

  /** A node seen without its descendants: its record with the children
      emptied (absent stays absent) and the number of its children. */
  datatype Entry = Entry(header: Bookmark, arity: nat)

  function Label(b: Bookmark): Bookmark
  {
    b.(children := if b.children.Present? then Present([]) else Absent)
  }

  /** The pre-order sequence of entries; it determines the forest. */
  function Outline(items: seq<Bookmark>): seq<Entry>
  {
    if items == [] then []
    else
      [Entry(Label(items[0]), |Kids(items[0])|)]
      + (if items[0].children.Present? then Outline(items[0].children.list) else [])
      + Outline(items[1..])
  }

  /** The entries with the given id updated, every other entry as it was. */
  function PatchEntries(es: seq<Entry>, id: string, updates: Patch): (r: seq<Entry>)
    ensures |r| == |es|
  {
    if es == [] then []
    else
      [if es[0].header.id == id then es[0].(header := Apply(es[0].header, updates)) else es[0]]
      + PatchEntries(es[1..], id, updates)
  }

  lemma {:induction false} PatchEntriesAppend(a: seq<Entry>, b: seq<Entry>, id: string, updates: Patch)
    ensures PatchEntries(a + b, id, updates) == PatchEntries(a, id, updates) + PatchEntries(b, id, updates)
  {
    if a == [] {
      assert a + b == b;
    } else {
      assert (a + b)[0] == a[0];
      assert (a + b)[1..] == a[1..] + b;
      PatchEntriesAppend(a[1..], b, id, updates);
    }
  }

  lemma {:induction false} OutlineCons(items: seq<Bookmark>)
    requires items != []
    ensures Outline(items) == [Entry(Label(items[0]), |Kids(items[0])|)] + Outline(Kids(items[0])) + Outline(items[1..])
  {
    if items[0].children.Absent? {
      assert Outline(Kids(items[0])) == [];
    }
  }

  /** Patching an id that occurs nowhere changes no entry. */
  lemma {:induction false} PatchAbsent(items: seq<Bookmark>, id: string, updates: Patch)
    requires id !in Ids(items)
    ensures PatchEntries(Outline(items), id, updates) == Outline(items)
  {
    if items != [] {
      OutlineCons(items);
      PreorderCons(items);
      var head := [Entry(Label(items[0]), |Kids(items[0])|)];
      PatchEntriesAppend(head + Outline(Kids(items[0])), Outline(items[1..]), id, updates);
      PatchEntriesAppend(head, Outline(Kids(items[0])), id, updates);
      if items[0].children.Present? {
        PatchAbsent(items[0].children.list, id, updates);
      }
      PatchAbsent(items[1..], id, updates);
    }
  }

  /** With unique ids, an update that leaves `children` alone changes the
      entry of the target and no other entry: every other node keeps its
      record and its number of children, in the same pre-order place. */
  lemma {:induction false} UpdateChangesOnlyTarget(items: seq<Bookmark>, bookmarkId: string, updates: Patch)
    requires UniqueIds(items) && updates.children.None?
    ensures Outline(UpdateBookmarkInTree(items, bookmarkId, updates)) == PatchEntries(Outline(items), bookmarkId, updates)
  {
    if items != [] {
      var r := UpdateBookmarkInTree(items, bookmarkId, updates);
      var it := items[0];
      assert r[1..] == UpdateBookmarkInTree(items[1..], bookmarkId, updates);
      UniqueParts(items);
      OutlineCons(items);
      OutlineCons(r);
      var head := [Entry(Label(it), |Kids(it)|)];
      PatchEntriesAppend(head + Outline(Kids(it)), Outline(items[1..]), bookmarkId, updates);
      PatchEntriesAppend(head, Outline(Kids(it)), bookmarkId, updates);
      UpdateChangesOnlyTarget(items[1..], bookmarkId, updates);
      if it.id == bookmarkId {
        PatchAbsent(Kids(it), bookmarkId, updates);
        assert Label(r[0]) == Apply(Label(it), updates);
      } else if it.children.Present? {
        UpdateChangesOnlyTarget(it.children.list, bookmarkId, updates);
      }
    }
  }

  // ---------------------------------------------------------------------
  // findBookmarkListById and updateBookmarkListById
  // ---------------------------------------------------------------------

  /** The list a column shows: the whole forest for "root", otherwise the
      children (or []) of the first item with that id; None when there is
      none. */
  function FindBookmarkListById(items: seq<Bookmark>, columnId: string): (r: Option<seq<Bookmark>>)
    ensures columnId == RootColumn ==> r == Some(items)
    ensures r.None? <==> columnId != RootColumn && columnId !in Ids(items)
  {
    if columnId == RootColumn then Some(items)
    else if items == [] then None
    else if items[0].id == columnId then Some(Kids(items[0]))
    else
      var result := if items[0].children.Present? then FindBookmarkListById(items[0].children.list, columnId) else None;
      if result.Some? then result else FindBookmarkListById(items[1..], columnId)
  }

  /** Outside the root column, the list found is the children of the first
      node with that id in pre-order. */
  lemma {:induction false} FindListIsFirstInPreorder(items: seq<Bookmark>, columnId: string)
    requires columnId != RootColumn
    ensures FindBookmarkListById(items, columnId)
         == (var f := FirstWithId(Preorder(items), columnId); if f.Some? then Some(Kids(f.value)) else None)
  {
    if items != [] {
      PreorderCons(items);
      FirstWithIdAppend([items[0]] + Preorder(Kids(items[0])), Preorder(items[1..]), columnId);
      FirstWithIdAppend([items[0]], Preorder(Kids(items[0])), columnId);
      FindListIsFirstInPreorder(items[1..], columnId);
      if items[0].children.Present? {
        FindListIsFirstInPreorder(items[0].children.list, columnId);
      } else {
        assert Preorder(Kids(items[0])) == [];
      }
    }
  }

  /** Every root-level item is mapped by `UpdateListItem`, except that the
      root column replaces the whole forest. */
  function UpdateBookmarkListById(items: seq<Bookmark>, columnId: string, newList: seq<Bookmark>): (r: seq<Bookmark>)
    ensures columnId == RootColumn ==> r == newList
    ensures columnId != RootColumn ==> |r| == |items|
    ensures columnId != RootColumn ==> forall k :: 0 <= k < |items| ==> r[k] == UpdateListItem(items[k], columnId, newList)
    decreases items
  {
    if columnId == RootColumn then newList
    else if items == [] then []
    else [UpdateListItem(items[0], columnId, newList)] + UpdateBookmarkListById(items[1..], columnId, newList)
  }

  /** The callback of the `map`: the matching item gets `newList` as its
      children; another item with a `children` field has the replacement
      applied to its children. */
  function UpdateListItem(item: Bookmark, columnId: string, newList: seq<Bookmark>): (r: Bookmark)
    ensures r == item.(children := r.children)
    ensures item.id == columnId ==> r.children == Present(newList)
    ensures item.id != columnId && item.children.Absent? ==> r == item
    decreases item
  {
    if item.id == columnId then item.(children := Present(newList))
    else if item.children.Present? then item.(children := Present(UpdateBookmarkListById(item.children.list, columnId, newList)))
    else item
  }

  /** A column id that occurs nowhere (and is not "root") leaves the tree as
      it was. */
  lemma {:induction false} UpdateListAbsentUnchanged(items: seq<Bookmark>, columnId: string, newList: seq<Bookmark>)
    requires columnId != RootColumn && columnId !in Ids(items)
    ensures UpdateBookmarkListById(items, columnId, newList) == items
  {
    if items != [] {
      var r := UpdateBookmarkListById(items, columnId, newList);
      if items[0].children.Present? {
        UpdateListAbsentUnchanged(items[0].children.list, columnId, newList);
      }
      assert r[0] == items[0];
      UpdateListAbsentUnchanged(items[1..], columnId, newList);
      assert r == [r[0]] + UpdateBookmarkListById(items[1..], columnId, newList);
    }
  }

  /** Replacing a column's list and then looking the column up gives the new
      list back, for "root" and for every id that occurs. */
  lemma {:induction false} UpdateListThenFind(items: seq<Bookmark>, columnId: string, newList: seq<Bookmark>)
    ensures FindBookmarkListById(UpdateBookmarkListById(items, columnId, newList), columnId)
         == if columnId == RootColumn || columnId in Ids(items) then Some(newList) else None
  {
    if columnId != RootColumn && items != [] {
      var r := UpdateBookmarkListById(items, columnId, newList);
      assert r[1..] == UpdateBookmarkListById(items[1..], columnId, newList);
      UpdateListThenFind(items[1..], columnId, newList);
      if items[0].id != columnId && items[0].children.Present? {
        UpdateListThenFind(items[0].children.list, columnId, newList);
      }
    }
  }

  /** With unique ids, replacing a column's list and then putting back that
      bookmark's old `children` field (`prev`, when the id occurs) gives the
      forest back: the replacement changed that one field and nothing else. */
  lemma {:induction false} UpdateListThenRestore(items: seq<Bookmark>, columnId: string, newList: seq<Bookmark>, prev: Children)
    requires columnId != RootColumn && UniqueIds(items)
    requires columnId in Ids(items) ==> FindBookmarkById(items, columnId).value.children == prev
    ensures UpdateBookmarkInTree(UpdateBookmarkListById(items, columnId, newList), columnId, ChildrenPatch(prev)) == items
  {
    if items != [] {
      var x, rest := items[0], items[1..];
      var u := ChildrenPatch(prev);
      var head := UpdateListItem(x, columnId, newList);
      var tail := UpdateBookmarkListById(rest, columnId, newList);
      UniqueParts(items);
      assert Ids(items) == [x.id] + Ids(Kids(x)) + Ids(rest) by {
        PreorderCons(items);
      }
      assert UpdateItem(head, columnId, u) == x by {
        if x.id == columnId {
        } else if x.children.Present? {
          assert columnId in Ids(x.children.list) ==> FindBookmarkById(x.children.list, columnId) == FindBookmarkById(items, columnId);
          UpdateListThenRestore(x.children.list, columnId, newList, prev);
        }
      }
      assert UpdateBookmarkInTree(tail, columnId, u) == rest by {
        assert columnId in Ids(rest) ==> FindBookmarkById(rest, columnId) == FindBookmarkById(items, columnId);
        UpdateListThenRestore(rest, columnId, newList, prev);
      }
      assert UpdateBookmarkListById(items, columnId, newList) == [head] + tail;
      assert ([head] + tail)[1..] == tail;
    }
  }

  // ---------------------------------------------------------------------
  // findBookmarkById and findPathToBookmark
  // ---------------------------------------------------------------------

  /** A scan that descends only into non-empty `children`. */
  function FindBookmarkById(items: seq<Bookmark>, id: string): (r: Option<Bookmark>)
    ensures r.Some? ==> r.value.id == id
    ensures r.None? <==> id !in Ids(items)
  {
    if items == [] then None
    else if items[0].id == id then Some(items[0])
    else
      var found := if items[0].children.Present? && |items[0].children.list| > 0
                   then FindBookmarkById(items[0].children.list, id) else None;
      if found.Some? then found else FindBookmarkById(items[1..], id)
  }

  /** The bookmark found is the first one with that id in pre-order. */
  lemma {:induction false} FindByIdIsFirstInPreorder(items: seq<Bookmark>, id: string)
    ensures FindBookmarkById(items, id) == FirstWithId(Preorder(items), id)
  {
    if items != [] {
      PreorderCons(items);
      FirstWithIdAppend([items[0]] + Preorder(Kids(items[0])), Preorder(items[1..]), id);
      FirstWithIdAppend([items[0]], Preorder(Kids(items[0])), id);
      FindByIdIsFirstInPreorder(items[1..], id);
      if items[0].children.Present? && |items[0].children.list| > 0 {
        FindByIdIsFirstInPreorder(items[0].children.list, id);
      } else {
        assert Preorder(Kids(items[0])) == [];
      }
    }
  }

  /** With unique ids, looking up the id of a root-level item finds that very
      item. */
  lemma {:induction false} FindRootLevelItem(items: seq<Bookmark>, j: int)
    requires 0 <= j < |items| && UniqueIds(items)
    ensures FindBookmarkById(items, items[j].id) == Some(items[j])
  {
    if j > 0 {
      UniqueParts(items);
      assert items[1..][j - 1] == items[j];
      RootIdInIds(items[1..], j - 1);
      PreorderCons(items);
      FindRootLevelItem(items[1..], j - 1);
    }
  }

  /** The scan for the path, extending `path` with the id of every item it
      descends into. */
  function FindPathToBookmark(items: seq<Bookmark>, id: string, path: seq<string>): (r: seq<string>)
    ensures r != [] ==> |path| < |r| && r[..|path|] == path && r[|r| - 1] == id
    ensures r == [] <==> id !in Ids(items)
  {
    if items == [] then []
    else if items[0].id == id then path + [items[0].id]
    else
      var childPath := if items[0].children.Present? && |items[0].children.list| > 0
                       then FindPathToBookmark(items[0].children.list, id, path + [items[0].id]) else [];
      if |childPath| > 0 then childPath
      else FindPathToBookmark(items[1..], id, path)
  }

  /** The starting path is only a prefix: the search itself does not depend
      on it. */
  lemma {:induction false} FindPathPrefix(items: seq<Bookmark>, id: string, path: seq<string>)
    ensures FindPathToBookmark(items, id, path)
         == (var q := FindPathToBookmark(items, id, []); if q == [] then [] else path + q)
    decreases items, 0
  {
    if items != [] && items[0].id != id {
      assert [] + [items[0].id] == [items[0].id];
      if items[0].children.Present? && |items[0].children.list| > 0 {
        FindPathPrefixBelow(items[0].children.list, items[0].id, id, path);
      }
      FindPathPrefix(items[1..], id, path);
    }
  }

  /** The same, for the search inside the children of an item `x`. */
  lemma {:induction false} FindPathPrefixBelow(list: seq<Bookmark>, x: string, id: string, path: seq<string>)
    ensures var q := FindPathToBookmark(list, id, []);
      FindPathToBookmark(list, id, path + [x]) == (if q == [] then [] else path + ([x] + q)) &&
      FindPathToBookmark(list, id, [x]) == (if q == [] then [] else [x] + q)
    decreases list, 1
  {
    var q := FindPathToBookmark(list, id, []);
    FindPathPrefix(list, id, path + [x]);
    FindPathPrefix(list, id, [x]);
    Assoc(path, [x], q);
  }

  /** `p` leads from the forest `items` to `node`: its first id is that of a
      root-level item, each later id is that of a child of the item named
      before it, and the item named last is `node`. */
  ghost predicate Reaches(items: seq<Bookmark>, p: seq<string>, node: Bookmark)
    decreases |p|
  {
    |p| > 0 &&
    exists j :: 0 <= j < |items| && items[j].id == p[0] &&
      (if |p| == 1 then items[j] == node else Reaches(Kids(items[j]), p[1..], node))
  }

  lemma ReachesLater(items: seq<Bookmark>, p: seq<string>, node: Bookmark)
    requires items != [] && Reaches(items[1..], p, node)
    ensures Reaches(items, p, node)
  {
    var j :| 0 <= j < |items[1..]| && items[1..][j].id == p[0] &&
      (if |p| == 1 then items[1..][j] == node else Reaches(Kids(items[1..][j]), p[1..], node));
    assert items[j + 1] == items[1..][j];
  }

  /** A non-empty path is a chain of parent and child ids from a root-level
      item down to the bookmark that `FindBookmarkById` finds. */
  lemma {:induction false} PathIsChain(items: seq<Bookmark>, id: string, path: seq<string>)
    requires FindPathToBookmark(items, id, path) != []
    ensures Reaches(items, FindPathToBookmark(items, id, path)[|path|..], FindBookmarkById(items, id).value)
  {
    var r := FindPathToBookmark(items, id, path);
    if items[0].id == id {
      assert r[|path|..] == [id];
      assert Reaches(items, r[|path|..], items[0]);
    } else {
      var childPath := if items[0].children.Present? && |items[0].children.list| > 0
                       then FindPathToBookmark(items[0].children.list, id, path + [items[0].id]) else [];
      if |childPath| > 0 {
        var kids := items[0].children.list;
        var q := path + [items[0].id];
        PathIsChain(kids, id, q);
        var node := FindBookmarkById(kids, id).value;
        assert FindBookmarkById(items, id).value == node;
        var p := r[|path|..];
        assert r == childPath;
        assert p[0] == items[0].id && p[1..] == r[|q|..] && |p| > 1 by {
          assert r[..|q|] == q;
          assert r[|path|] == r[..|q|][|path|];
        }
        assert Reaches(Kids(items[0]), p[1..], node);
        assert Reaches(items, p, node) by {
          assert 0 <= 0 < |items| && items[0].id == p[0];
        }
      } else {
        PathIsChain(items[1..], id, path);
        ReachesLater(items, r[|path|..], FindBookmarkById(items, id).value);
      }
    }
  }
}
