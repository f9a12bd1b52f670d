/**
 * The bookmark record of types/bookmark.ts, the `Partial<Bookmark>` update
 * that the manager spreads over a record, and the depth-first pre-order view
 * of a bookmark forest against which the tree helpers and the search are
 * specified.
 */
module Bookmarks {

  datatype Option<+T> = None | Some(value: T)

  /** The optional `children` field. `Absent` and `Present([])` differ: only a
      present field (even an empty one) makes a bookmark open a column. */
  datatype Children = Absent | Present(list: seq<Bookmark>)

  /** `interface Bookmark`. `parentId` is absent (None), null (Some(None)) or
      the id of a parent (Some(Some(p))). */
  datatype Bookmark = Bookmark(
    id: string,
    title: string,
    url: Option<string>,
    description: Option<string>,
    icon: Option<string>,
    children: Children,
    parentId: Option<Option<string>>,
    isHovered: Option<bool>)

  /** `Partial<Bookmark>`: a field is None when the key is missing and Some(v)
      when the key is present with value v; for an optional field Some(None)
      is a key present with the value `undefined`, which clears the field. */
  datatype Patch = Patch(
    id: Option<string>,
    title: Option<string>,
    url: Option<Option<string>>,
    description: Option<Option<string>>,
    icon: Option<Option<string>>,
    children: Option<Children>,
    parentId: Option<Option<Option<string>>>,
    isHovered: Option<Option<bool>>)

  function Override<T>(current: T, update: Option<T>): T
  {
    if update.Some? then update.value else current
  }

  /** The object spread `{ ...b, ...u }`. */
  function Apply(b: Bookmark, u: Patch): (r: Bookmark)
    ensures u.id.None? ==> r.id == b.id
    ensures u.id.Some? ==> r.id == u.id.value
    ensures u.children.None? ==> r.children == b.children
    ensures u.children.Some? ==> r.children == u.children.value
  {
    Bookmark(
      Override(b.id, u.id),
      Override(b.title, u.title),
      Override(b.url, u.url),
      Override(b.description, u.description),
      Override(b.icon, u.icon),
      Override(b.children, u.children),
      Override(b.parentId, u.parentId),
      Override(b.isHovered, u.isHovered))
  }

  /** `b.children || []`: the subtree of `b` is `b` followed by the
      pre-order of these. */
  function Kids(b: Bookmark): (r: seq<Bookmark>)
    ensures Preorder([b]) == [b] + Preorder(r)
  {
    if b.children.Present? then b.children.list else []
  }

  /** Every bookmark of a forest in depth-first pre-order: a node, then all
      its descendants, then its later siblings. */
  function Preorder(items: seq<Bookmark>): seq<Bookmark>
  {
    if items == [] then []
    else
      [items[0]]
      + (if items[0].children.Present? then Preorder(items[0].children.list) else [])
      + Preorder(items[1..])
  }

  /** The ids of `Preorder(items)`, in the same order. */
  function Ids(items: seq<Bookmark>): seq<string>
  {
    if items == [] then []
    else
      [items[0].id]
      + (if items[0].children.Present? then Ids(items[0].children.list) else [])
      + Ids(items[1..])
  }

  predicate Distinct(s: seq<string>)
  {
    forall i, j :: 0 <= i < j < |s| ==> s[i] != s[j]
  }

  /** No id occurs twice anywhere in the forest. */
  predicate UniqueIds(items: seq<Bookmark>)
  {
    Distinct(Ids(items))
  }

  /** `k` is the position of the first element of `s` with the given id. */
  predicate IsFirstAt(s: seq<Bookmark>, id: string, k: int)
  {
    0 <= k < |s| && s[k].id == id && forall j :: 0 <= j < k ==> s[j].id != id
  }

  /** A linear scan for the first element with the given id. */
  function FirstWithId(s: seq<Bookmark>, id: string): (r: Option<Bookmark>)
    ensures r.None? <==> forall k :: 0 <= k < |s| ==> s[k].id != id
    ensures r.Some? ==> exists k :: IsFirstAt(s, id, k) && s[k] == r.value
  {
    if s == [] then None
    else if s[0].id == id then (assert IsFirstAt(s, id, 0); Some(s[0]))
    else
      var r := FirstWithId(s[1..], id);
      assert r.Some? ==> exists k :: IsFirstAt(s, id, k) && s[k] == r.value by {
        if r.Some? {
          var k' :| IsFirstAt(s[1..], id, k') && s[1..][k'] == r.value;
          forall j | 0 < j < k' + 1 ensures s[j].id != id {
            assert s[j] == s[1..][j - 1];
          }
          assert IsFirstAt(s, id, k' + 1);
        }
      }
      assert r.None? ==> forall k :: 0 <= k < |s| ==> s[k].id != id by {
        if r.None? {
          forall k | 0 < k < |s| ensures s[k].id != id {
            assert s[k] == s[1..][k - 1];
          }
        }
      }
      r
  }

  lemma {:induction false} FirstWithIdAppend(a: seq<Bookmark>, b: seq<Bookmark>, id: string)
    ensures FirstWithId(a + b, id) == if FirstWithId(a, id).Some? then FirstWithId(a, id) else FirstWithId(b, id)
  {
    if a == [] {
      assert a + b == b;
    } else {
      assert (a + b)[0] == a[0];
      assert (a + b)[1..] == a[1..] + b;
      FirstWithIdAppend(a[1..], b, id);
    }
  }

  lemma {:induction false} PreorderAppend(a: seq<Bookmark>, b: seq<Bookmark>)
    ensures Preorder(a + b) == Preorder(a) + Preorder(b)
  {
    if a == [] {
      assert a + b == b;
    } else {
      var ab := a + b;
      assert ab[0] == a[0];
      assert ab[1..] == a[1..] + b;
      var below := if a[0].children.Present? then Preorder(a[0].children.list) else [];
      calc {
        Preorder(ab);
        [a[0]] + below + Preorder(a[1..] + b);
        { PreorderAppend(a[1..], b); }
        [a[0]] + below + (Preorder(a[1..]) + Preorder(b));
        ([a[0]] + below + Preorder(a[1..])) + Preorder(b);
      }
    }
  }

  lemma {:induction false} IdsAppend(a: seq<Bookmark>, b: seq<Bookmark>)
    ensures Ids(a + b) == Ids(a) + Ids(b)
  {
    if a == [] {
      assert a + b == b;
    } else {
      var ab := a + b;
      assert ab[0] == a[0];
      assert ab[1..] == a[1..] + b;
      var below := if a[0].children.Present? then Ids(a[0].children.list) else [];
      calc {
        Ids(ab);
        [a[0].id] + below + Ids(a[1..] + b);
        { IdsAppend(a[1..], b); }
        [a[0].id] + below + (Ids(a[1..]) + Ids(b));
        ([a[0].id] + below + Ids(a[1..])) + Ids(b);
      }
    }
  }

  /** One step of the traversal, with the children written as `Kids`. */
  lemma PreorderCons(items: seq<Bookmark>)
    requires items != []
    ensures Preorder(items) == [items[0]] + Preorder(Kids(items[0])) + Preorder(items[1..])
    ensures Ids(items) == [items[0].id] + Ids(Kids(items[0])) + Ids(items[1..])
  {
    if items[0].children.Absent? {
      assert Preorder(Kids(items[0])) == [];
      assert Ids(Kids(items[0])) == [];
    }
  }

  lemma Assoc<T>(a: seq<T>, b: seq<T>, c: seq<T>)
    ensures a + (b + c) == a + b + c
  {
  }

  lemma Regroup<T>(a: seq<T>, b: seq<T>, c: seq<T>, d: seq<T>)
    ensures a + (b + c + d) == a + b + c + d
  {
  }

  /** Pre-order at any root-level position `j`: the traversal of the earlier
      siblings, then `items[j]`, then its descendants, then the later
      siblings. */
  lemma PreorderAround(items: seq<Bookmark>, j: int)
    requires 0 <= j < |items|
    ensures Preorder(items) == Preorder(items[..j]) + [items[j]] + Preorder(Kids(items[j])) + Preorder(items[j + 1..])
  {
    var head, tail := items[..j], items[j..];
    assert Preorder(items) == Preorder(head) + Preorder(tail) by {
      assert items == head + tail;
      PreorderAppend(head, tail);
    }
    assert Preorder(tail) == [items[j]] + Preorder(Kids(items[j])) + Preorder(items[j + 1..]) by {
      assert tail[0] == items[j] && tail[1..] == items[j + 1..];
      PreorderCons(tail);
    }
    Regroup(Preorder(head), [items[j]], Preorder(Kids(items[j])), Preorder(items[j + 1..]));
  }

  lemma IdsAround(items: seq<Bookmark>, j: int)
    requires 0 <= j < |items|
    ensures Ids(items) == Ids(items[..j]) + [items[j].id] + Ids(Kids(items[j])) + Ids(items[j + 1..])
  {
    var head, tail := items[..j], items[j..];
    assert Ids(items) == Ids(head) + Ids(tail) by {
      assert items == head + tail;
      IdsAppend(head, tail);
    }
    assert Ids(tail) == [items[j].id] + Ids(Kids(items[j])) + Ids(items[j + 1..]) by {
      assert tail[0] == items[j] && tail[1..] == items[j + 1..];
      PreorderCons(tail);
    }
    Regroup(Ids(head), [items[j].id], Ids(Kids(items[j])), Ids(items[j + 1..]));
  }

  /** The ids of a sequence of bookmarks, position by position. */
  function IdsOf(s: seq<Bookmark>): (r: seq<string>)
    ensures |r| == |s| && forall k :: 0 <= k < |s| ==> r[k] == s[k].id
  {
    seq(|s|, k requires 0 <= k < |s| => s[k].id)
  }

  lemma IdsOfAppend(a: seq<Bookmark>, b: seq<Bookmark>)
    ensures IdsOf(a + b) == IdsOf(a) + IdsOf(b)
  {
  }

  /** `Ids` lists the ids of `Preorder`, in the same order. */
  lemma {:induction false} IdsOfPreorder(items: seq<Bookmark>)
    ensures Ids(items) == IdsOf(Preorder(items))
  {
    if items != [] {
      var below := Preorder(Kids(items[0]));
      var rest := Preorder(items[1..]);
      assert Ids(Kids(items[0])) == IdsOf(below) by {
        if items[0].children.Present? {
          IdsOfPreorder(items[0].children.list);
        }
      }
      assert Ids(items[1..]) == IdsOf(rest) by {
        IdsOfPreorder(items[1..]);
      }
      assert IdsOf([items[0]]) == [items[0].id];
      calc {
        IdsOf(Preorder(items));
        { PreorderCons(items); }
        IdsOf([items[0]] + below + rest);
        { IdsOfAppend([items[0]] + below, rest); IdsOfAppend([items[0]], below); }
        IdsOf([items[0]]) + IdsOf(below) + IdsOf(rest);
        { PreorderCons(items); }
        Ids(items);
      }
    }
  }

  /** In a sequence with distinct ids, each member occurs exactly once. */
  lemma {:induction false} DistinctOnce(s: seq<Bookmark>, b: Bookmark)
    requires Distinct(IdsOf(s)) && b in s
    ensures multiset(s)[b] == 1
  {
    assert s == [s[0]] + s[1..];
    assert IdsOf(s[1..]) == IdsOf(s)[1..];
    if s[0] != b {
      DistinctOnce(s[1..], b);
    }
  }

  /** With unique ids, every node occurs exactly once in the pre-order. */
  lemma PreorderOnce(items: seq<Bookmark>, b: Bookmark)
    requires UniqueIds(items) && b in Preorder(items)
    ensures multiset(Preorder(items))[b] == 1
  {
    IdsOfPreorder(items);
    DistinctOnce(Preorder(items), b);
  }

  lemma DistinctSplit(a: seq<string>, b: seq<string>)
    requires Distinct(a + b)
    ensures Distinct(a) && Distinct(b)
    ensures forall x :: x in a ==> x !in b
  {
    var ab := a + b;
    forall i, j | 0 <= i < |a| && 0 <= j < |b| ensures a[i] != b[j] {
      assert ab[i] == a[i];
      assert ab[|a| + j] == b[j];
    }
    forall i, j | 0 <= i < j < |b| ensures b[i] != b[j] {
      assert ab[|a| + i] == b[i];
      assert ab[|a| + j] == b[j];
    }
    forall i, j | 0 <= i < j < |a| ensures a[i] != a[j] {
      assert ab[i] == a[i];
      assert ab[j] == a[j];
    }
  }

  /** Uniqueness of a forest passes to the first tree's children and to the
      later siblings, which share no id with each other or with the first
      root. */
  lemma UniqueParts(items: seq<Bookmark>)
    requires items != [] && UniqueIds(items)
    ensures UniqueIds(Kids(items[0])) && UniqueIds(items[1..])
    ensures items[0].id !in Ids(Kids(items[0])) && items[0].id !in Ids(items[1..])
    ensures forall x :: x in Ids(Kids(items[0])) ==> x !in Ids(items[1..])
  {
    var k := Ids(Kids(items[0]));
    var rest := Ids(items[1..]);
    assert Ids(items) == [items[0].id] + k + rest by {
      PreorderCons(items);
    }
    Assoc([items[0].id], k, rest);
    DistinctSplit([items[0].id], k + rest);
    DistinctSplit(k, rest);
  }

  /** Uniqueness passes to the children of any root-level item. */
  lemma UniqueSubtree(items: seq<Bookmark>, j: int)
    requires 0 <= j < |items| && UniqueIds(items)
    ensures UniqueIds(Kids(items[j]))
  {
    IdsAround(items, j);
    var left := Ids(items[..j]) + [items[j].id];
    var below := Ids(Kids(items[j]));
    var right := Ids(items[j + 1..]);
    Assoc(left, below, right);
    DistinctSplit(left, below + right);
    DistinctSplit(below, right);
  }

  lemma RootIdInIds(items: seq<Bookmark>, j: int)
    requires 0 <= j < |items|
    ensures items[j].id in Ids(items)
  {
    IdsAround(items, j);
  }
}
