/**
 * The undo/redo history of the example `Ember.Memento` mixin. The history
 * list `_memento` holds opaque items; `_mementoIndex` is the cursor: the item
 * at the cursor and everything left of it is the past, everything right of it
 * the future. An item's `undo`/`redo` closures are foreign code: the model
 * records that they were invoked, and on which item.
 */
module History {

  /** A closure of a history item that the history ran. */
  datatype Invocation<T> = Undid(item: T) | Redid(item: T)

  /** The history list and its cursor. */
  datatype Timeline<T> = Timeline(entries: seq<T>, cursor: int)

  /** The cursor is -1 (no past) or the index of an entry. */
  predicate Sound<T>(t: Timeline<T>)
  {
    -1 <= t.cursor < |t.entries|
  }

  /** The entries up to and including the cursor. */
  function Past<T>(t: Timeline<T>): (p: seq<T>)
    requires Sound(t)
    ensures |p| == t.cursor + 1
  {
    t.entries[..t.cursor + 1]
  }

  /** The entries after the cursor. */
  function Future<T>(t: Timeline<T>): (f: seq<T>)
    requires Sound(t)
    ensures |f| == |t.entries| - t.cursor - 1
    ensures Past(t) + f == t.entries
  {
    t.entries[t.cursor + 1..]
  }

  function Min(a: int, b: int): (m: int)
    ensures m <= a && m <= b && (m == a || m == b)
  {
    if a <= b then a else b
  }

  // ---------------------------------------------------------------------
  // The transitions, stated on values
  // ---------------------------------------------------------------------

  /** `_clearFuture`: the past alone, the cursor where it was. */
  function WithoutFuture<T>(t: Timeline<T>): (r: Timeline<T>)
    requires Sound(t)
    ensures Sound(r)
  {
    Timeline(Past(t), t.cursor)
  }

  /** The future dropped, `item` appended and the cursor on it. */
  function Appended<T>(t: Timeline<T>, item: T): (r: Timeline<T>)
    requires Sound(t)
    ensures Sound(r)
  {
    Timeline(Past(t) + [item], t.cursor + 1)
  }

  /** `clearHistory(count)`: 0 (no count) empties the history, a negative count changes nothing,
      a positive one keeps the last `count` entries of the past. */
  function Trimmed<T>(t: Timeline<T>, count: int): (r: Timeline<T>)
    requires Sound(t)
    ensures Sound(r)
  {
    if count == 0 then Timeline([], -1)
    else if count < 0 then t
    else
      var keep := Min(count, |Past(t)|);
      Timeline(Past(t)[|Past(t)| - keep..], keep - 1)
  }

  /** `_updateMemento`: a positive `mementoSize` trims the history to that size;
      0 stands for an unset size. */
  function Bounded<T>(t: Timeline<T>, size: int): (r: Timeline<T>)
    requires Sound(t)
    ensures Sound(r)
  {
    if size > 0 then Trimmed(t, size) else t
  }

  /** `_addHistory` outside an undo or redo. */
  function AddedTo<T>(t: Timeline<T>, item: T, size: int): (r: Timeline<T>)
    requires Sound(t)
    ensures Sound(r)
  {
    Bounded(Appended(t, item), size)
  }

  /** `undo`: one step back when there is a past. */
  function Back<T>(t: Timeline<T>): (r: Timeline<T>)
    requires Sound(t)
    ensures Sound(r) && r.entries == t.entries
  {
    if t.cursor >= 0 then Timeline(t.entries, t.cursor - 1) else t
  }

  /** `redo`: one step forward when there is a future. */
  function Forward<T>(t: Timeline<T>): (r: Timeline<T>)
    requires Sound(t)
    ensures Sound(r) && r.entries == t.entries
  {
    if t.cursor < |t.entries| - 1 then Timeline(t.entries, t.cursor + 1) else t
  }

  // ---------------------------------------------------------------------
  // What the transitions promise
  // ---------------------------------------------------------------------

  /** After `_clearFuture` the past is unchanged and there is no future. */
  lemma WithoutFutureKeepsPast<T>(t: Timeline<T>)
    requires Sound(t)
    ensures Past(WithoutFuture(t)) == Past(t) && Future(WithoutFuture(t)) == []
    ensures |WithoutFuture(t).entries| == t.cursor + 1
  {
  }

  /** A positive count keeps a suffix of the past, in order, of length `min(count, |past|)`,
      and nothing of the future. */
  lemma TrimmedKeepsLast<T>(t: Timeline<T>, count: int)
    requires Sound(t) && count > 0
    ensures var r := Trimmed(t, count);
      |r.entries| == Min(count, t.cursor + 1) && Future(r) == []
      && forall i :: 0 <= i < |r.entries| ==> r.entries[i] == t.entries[t.cursor + 1 - |r.entries| + i]
  {
    var keep := Min(count, |Past(t)|);
    var r := Trimmed(t, count);
    assert r.entries == Past(t)[|Past(t)| - keep..];
    forall i | 0 <= i < |r.entries| ensures r.entries[i] == t.entries[t.cursor + 1 - |r.entries| + i] {
      assert r.entries[i] == Past(t)[|Past(t)| - keep + i];
    }
  }

  /** `clearHistory` without a count forgets everything; a negative count is ignored. */
  lemma TrimmedEdgeCases<T>(t: Timeline<T>, count: int)
    requires Sound(t) && count <= 0
    ensures count == 0 ==> Trimmed(t, count).entries == [] && Trimmed(t, count).cursor == -1
    ensures count < 0 ==> Trimmed(t, count) == t
  {
  }

  /** With a positive `mementoSize` the history never grows past it. */
  lemma AddedWithinSize<T>(t: Timeline<T>, item: T, size: int)
    requires Sound(t) && size > 0
    ensures |AddedTo(t, item, size).entries| <= size
  {
    TrimmedKeepsLast(Appended(t, item), size);
  }

  /** A new item becomes the current entry and leaves no future, whatever the size bound. */
  lemma AddedIsCurrent<T>(t: Timeline<T>, item: T, size: int)
    requires Sound(t)
    ensures var r := AddedTo(t, item, size);
      r.cursor == |r.entries| - 1 && Future(r) == [] && r.entries[r.cursor] == item
  {
    var a := Appended(t, item);
    assert a.entries[a.cursor] == item;
    if size > 0 {
      TrimmedKeepsLast(a, size);
      var r := AddedTo(t, item, size);
      assert r.cursor == |r.entries| - 1;
      assert r.entries[r.cursor] == a.entries[a.cursor + 1 - |r.entries| + r.cursor];
    }
  }

  /** Without a size bound an add keeps the whole past and appends the item. */
  lemma AddedUnboundedAppends<T>(t: Timeline<T>, item: T, size: int)
    requires Sound(t) && size <= 0
    ensures AddedTo(t, item, size).entries == Past(t) + [item]
    ensures |Past(AddedTo(t, item, size))| == |Past(t)| + 1
  {
  }

  /** An undo followed by a redo returns to the same history and cursor. */
  lemma ForwardUndoesBack<T>(t: Timeline<T>)
    requires Sound(t) && t.cursor >= 0
    ensures Forward(Back(t)) == t
  {
  }

  /** A redo followed by an undo returns to the same history and cursor. */
  lemma BackUndoesForward<T>(t: Timeline<T>)
    requires Sound(t) && t.cursor < |t.entries| - 1
    ensures Back(Forward(t)) == t
  {
  }

  /** Undo moves exactly one entry from the past to the future. */
  lemma BackMovesOne<T>(t: Timeline<T>)
    requires Sound(t) && t.cursor >= 0
    ensures Past(Back(t)) + [t.entries[t.cursor]] == Past(t)
    ensures Future(Back(t)) == [t.entries[t.cursor]] + Future(t)
  {
    assert Past(t) == Past(Back(t)) + [t.entries[t.cursor]];
  }

  // ---------------------------------------------------------------------
  // The mixin's state
  // ---------------------------------------------------------------------

  class Memento<T> {
    /** `_memento`. */
    var memento: seq<T>
    /** `_mementoIndex`. */
    var index: int
    /** `_isUndo`: set while an item's closure runs, so that the changes it makes add no history. */
    var isUndo: bool
    /** `mementoSize`; 0 stands for no size. */
    var mementoSize: int
    /** The closures run so far, oldest first. */
    var invoked: seq<Invocation<T>>

    function Log(): Timeline<T>
      reads this
    {
      Timeline(memento, index)
    }

    ghost predicate Valid()
      reads this
    {
      Sound(Log())
    }

    /** `init`: an empty history with the cursor before it. */
    constructor (size: int)
      ensures Valid() && memento == [] && index == -1
      ensures !isUndo && mementoSize == size && invoked == []
    {
      memento, index, isUndo, mementoSize, invoked := [], -1, false, size, [];
    }

    /** `undoCount`: the number of past entries. */
    function UndoCount(): (c: int)
      reads this
      ensures Valid() ==> c == |Past(Log())| && 0 <= c <= |memento|
    {
      index + 1
    }

    /** `redoCount`: the number of future entries; with `undoCount` they make up the list. */
    function RedoCount(): (c: int)
      reads this
      ensures Valid() ==> c == |Future(Log())| && c + UndoCount() == |memento|
    {
      |memento| - index - 1
    }

    /** `canUndo`: there is a past entry to undo. */
    function CanUndo(): (b: bool)
      reads this
      ensures Valid() ==> (b <==> Past(Log()) != [])
    {
      UndoCount() > 0
    }

    /** `canRedo`: there is a future entry to redo. */
    function CanRedo(): (b: bool)
      reads this
      ensures Valid() ==> (b <==> Future(Log()) != [])
    {
      RedoCount() > 0
    }

    /** `_clearFuture`: removes the `diff` entries after the cursor when there are any. */
    method ClearFuture()
      requires Valid()
      modifies this`memento
      ensures Valid() && Log() == WithoutFuture(old(Log()))
    {
      var lastIndex := |memento| - 1;
      var diff := lastIndex - index;
      if index != lastIndex && diff >= 0 {
        memento := memento[..index + 1] + memento[index + 1 + diff..];
      }
    }

    /** `clearHistory(count)`. */
    method ClearHistory(count: int)
      requires Valid()
      modifies this`memento, this`index
      ensures Valid() && Log() == Trimmed(old(Log()), count)
    {
      if count == 0 {
        memento, index := [], -1;
        return;
      }
      if count <= 0 {
        return;
      }
      ClearFuture();
      var keep := Min(count, index + 1);
      var removeCount := index - keep + 1;
      memento := memento[removeCount..];
      index := keep - 1;
    }

    /** `_updateMemento`: trims the history to a positive `mementoSize`. */
    method UpdateMemento()
      requires Valid()
      modifies this`memento, this`index
      ensures Valid() && Log() == Bounded(old(Log()), mementoSize)
    {
      if mementoSize > 0 {
        ClearHistory(mementoSize);
      }
    }

    /** `_mementoSizeChanged`: setting `mementoSize` trims the history at once. */
    method SetMementoSize(size: int)
      requires Valid()
      modifies this`mementoSize, this`memento, this`index
      ensures Valid() && mementoSize == size && Log() == Bounded(old(Log()), size)
    {
      mementoSize := size;
      UpdateMemento();
    }

    /** `_addHistory(history)`: ignored inside an undo or redo; otherwise drops the future,
        appends the item, moves the cursor onto it and applies the size bound. */
    method AddHistory(item: T)
      requires Valid()
      modifies this`memento, this`index
      ensures Valid()
      ensures Log() == if isUndo then old(Log()) else AddedTo(old(Log()), item, mementoSize)
    {
      if !isUndo {
        ClearFuture();
        memento := memento + [item];
        index := index + 1;
        UpdateMemento();
      }
    }

    /** `undo`: runs the current entry's `undo` and moves the cursor back, if there is a past. */
    method Undo()
      requires Valid()
      modifies this`isUndo, this`index, this`invoked
      ensures Valid() && !isUndo && Log() == Back(old(Log()))
      ensures invoked == old(invoked) + if old(index) >= 0 then [Undid(old(memento[index]))] else []
    {
      isUndo := true;
      var mementoIndex := index;
      if mementoIndex >= 0 {
        var historyItem := memento[mementoIndex];
        invoked := invoked + [Undid(historyItem)];
        index := index - 1;
      }
      isUndo := false;
    }

    /** `redo`: moves the cursor forward and runs that entry's `redo`, if there is a future. */
    method Redo()
      requires Valid()
      modifies this`isUndo, this`index, this`invoked
      ensures Valid() && !isUndo && Log() == Forward(old(Log()))
      ensures invoked == old(invoked) + if old(index) < |memento| - 1 then [Redid(memento[index])] else []
    {
      isUndo := true;
      var mementoIndex := index;
      var historyLength := |memento|;
      if mementoIndex < historyLength - 1 {
        index := index + 1;
        mementoIndex := index;
        var historyItem := memento[mementoIndex];
        invoked := invoked + [Redid(historyItem)];
      }
      isUndo := false;
    }
  }
}
