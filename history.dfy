/**
 * Undo and redo in components/BookmarkManager.tsx: the transaction log
 * records, the store call each record replays in either direction, and the
 * linear cursor `historyIndex` over the log.
 */
module History {
  import opened Bookmarks
  import opened BookmarkTree

  /** The `data` of a logged transaction. Missing fields are None. */
  datatype TxData = TxData(
    bookmarkId: string,
    parentId: Option<string>,
    oldParentId: Option<string>,
    newParentId: Option<string>,
    oldIndex: Option<int>,
    newIndex: Option<int>)

  datatype Transaction = Transaction(action: string, data: TxData)

  /** The store call a replay makes: `moveBookmarkToParent(id, parent,
      index)`, `reorderBookmark(id, index, parent)`, or none. */
  datatype Command =
    | Move(id: string, parent: Option<string>, index: int)
    | Reorder(id: string, newPosition: Option<int>, container: Option<string>)
    | NoOp

  const MoveAction: string := "moveBookmark"
  const ReorderAction: string := "reorderBookmark"

  /** `index || 0` for a number that may be missing. */
  function OrZero(index: Option<int>): int
  {
    if index.Some? then index.value else 0
  }

  /** `applyReverseTransaction`. */
  function ReverseCommand(t: Transaction): (c: Command)
    ensures c.NoOp? <==> t.action != MoveAction && t.action != ReorderAction
    ensures !c.NoOp? ==> c.id == t.data.bookmarkId
  {
    if t.action == MoveAction then Move(t.data.bookmarkId, t.data.oldParentId, OrZero(t.data.oldIndex))
    else if t.action == ReorderAction then Reorder(t.data.bookmarkId, t.data.oldIndex, t.data.parentId)
    else NoOp
  }

  /** `applyTransaction`. */
  function ForwardCommand(t: Transaction): (c: Command)
    ensures c.NoOp? <==> t.action != MoveAction && t.action != ReorderAction
    ensures !c.NoOp? ==> c.id == t.data.bookmarkId
  {
    if t.action == MoveAction then Move(t.data.bookmarkId, t.data.newParentId, OrZero(t.data.newIndex))
    else if t.action == ReorderAction then Reorder(t.data.bookmarkId, t.data.newIndex, t.data.parentId)
    else NoOp
  }

  /** The record of the opposite change: old and new exchanged. */
  function Swapped(t: Transaction): Transaction
  {
    t.(data := t.data.(oldParentId := t.data.newParentId, newParentId := t.data.oldParentId,
                       oldIndex := t.data.newIndex, newIndex := t.data.oldIndex))
  }

  /** Undoing a record is redoing the opposite record, and the opposite of
      the opposite is the record itself. */
  lemma ReverseIsForwardOfSwapped(t: Transaction)
    ensures ReverseCommand(t) == ForwardCommand(Swapped(t))
    ensures ForwardCommand(t) == ReverseCommand(Swapped(t))
    ensures Swapped(Swapped(t)) == t
  {
  }

  /** The parent id a drag inside a column logs: null for the root column,
      otherwise the column id itself. */
  function ContainerParent(container: string): (r: Option<string>)
    ensures r.None? <==> container == RootColumn
  {
    if container != RootColumn then Some(container) else None
  }

  /** The record `handleDragEnd` logs after a reorder inside `container`.
      Redoing it repeats the store call of the drag itself, and undoing it
      asks for the old position in the same container. */
  function ReorderRecord(bookmarkId: string, container: string, oldIndex: int, newIndex: int): (t: Transaction)
    ensures ForwardCommand(t) == Reorder(bookmarkId, Some(newIndex), ContainerParent(container))
    ensures ReverseCommand(t) == Reorder(bookmarkId, Some(oldIndex), ContainerParent(container))
  {
    Transaction(ReorderAction, TxData(bookmarkId, ContainerParent(container), None, None, Some(oldIndex), Some(newIndex)))
  }

  /** The entry at position `k`: None for a falsy entry or a position
      outside the log, where JavaScript reads `undefined`. */
  function LogEntry(history: seq<Option<Transaction>>, k: int): (r: Option<Transaction>)
    ensures r.Some? ==> 0 <= k < |history| && history[k] == r
  {
    if 0 <= k < |history| then history[k] else None
  }

  /** The cursor ranges over -1 (nothing undone) to the last position. */
  predicate CursorInRange(length: int, index: int)
  {
    -1 <= index <= length - 1
  }

  /** The guard of the undo button and of `handleUndo`. */
  predicate CanUndo(length: int, index: int)
  {
    !(length == 0 || index >= length - 1)
  }

  /** The guard of the redo button and of `handleRedo`. */
  predicate CanRedo(length: int, index: int)
  {
    !(length == 0 || index < 0)
  }

  /** The position `handleUndo` replays, or None when it returns early. */
  function UndoSlot(history: seq<Option<Transaction>>, index: int): (r: Option<nat>)
    ensures r.Some? <==> CanUndo(|history|, index) && LogEntry(history, index + 1).Some?
    ensures r.Some? ==> r.value == index + 1 && r.value < |history| && history[r.value].Some?
  {
    if !CanUndo(|history|, index) then None
    else if LogEntry(history, index + 1).None? then None
    else Some(index + 1)
  }

  /** The position `handleRedo` replays, or None when it returns early. */
  function RedoSlot(history: seq<Option<Transaction>>, index: int): (r: Option<nat>)
    ensures r.Some? <==> CanRedo(|history|, index) && LogEntry(history, index).Some?
    ensures r.Some? ==> r.value == index && r.value < |history| && history[r.value].Some?
  {
    if !CanRedo(|history|, index) then None
    else if LogEntry(history, index).None? then None
    else Some(index)
  }

  /** Inside the range, the guards are exactly "something left to undo" and
      "something undone", and a successful step keeps the cursor in range. */
  lemma CursorStaysInRange(history: seq<Option<Transaction>>, index: int)
    requires CursorInRange(|history|, index)
    ensures CanUndo(|history|, index) <==> index < |history| - 1
    ensures CanRedo(|history|, index) <==> index >= 0
    ensures UndoSlot(history, index).Some? ==> CursorInRange(|history|, UndoSlot(history, index).value)
    ensures RedoSlot(history, index).Some? ==> CursorInRange(|history|, RedoSlot(history, index).value - 1)
  {
  }

  /** After a successful undo, redo is allowed and replays the same record;
      after a successful redo, undo is allowed and replays the same record. */
  lemma UndoRedoAgree(history: seq<Option<Transaction>>, index: int)
    ensures UndoSlot(history, index).Some? ==> RedoSlot(history, index + 1) == UndoSlot(history, index)
    ensures RedoSlot(history, index).Some? ==> UndoSlot(history, index - 1) == RedoSlot(history, index)
  {
  }
}
