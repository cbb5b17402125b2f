/**
 * `UndoStack<T>`: a list of states and a cursor `position` at the current one, `-1`
 * when there is none. Undo and redo move the cursor; adding a state drops every state
 * above the cursor and puts the new one on top. The peek methods return the default
 * value of `T` when there is nothing to undo or redo, written here as `None`.
 */
module UndoStacks {
  import opened Wrappers

  /** The contents of an undo stack: its states and its cursor. */
  datatype History<T> = History(items: seq<T>, position: int)

  /** The cursor is `-1` or the index of a state. */
  predicate Valid<T>(h: History<T>) {
    -1 <= h.position < |h.items|
  }

  /** A new stack: no states, cursor at `-1`. */
  function Empty<T>(): (h: History<T>)
    ensures Valid(h) && StateToUndo(h) == None && StateToRedo(h) == None
  {
    History([], -1)
  }

  /** `PeekUndo`: the state at the cursor, if there is one. */
  function StateToUndo<T>(h: History<T>): (r: Option<T>)
    requires Valid(h)
    ensures r.Some? <==> h.position >= 0
    ensures r.Some? ==> r.value in h.items
  {
    if h.position >= 0 then Some(h.items[h.position]) else None
  }

  /** `PeekRedo`: the state just above the cursor, if there is one. */
  function StateToRedo<T>(h: History<T>): (r: Option<T>)
    requires Valid(h)
    ensures r.Some? <==> h.position < |h.items| - 1
    ensures r.Some? ==> r.value in h.items
  {
    if h.position + 1 <= |h.items| - 1 then Some(h.items[h.position + 1]) else None
  }

  /** `Add`: the states up to the cursor are kept, every state above it is dropped, and
      the new state becomes the one to undo, with nothing left to redo. */
  function Added<T>(h: History<T>, current: T): (r: History<T>)
    requires Valid(h)
    ensures Valid(r)
    ensures |r.items| == h.position + 2
    ensures forall i :: 0 <= i <= h.position ==> r.items[i] == h.items[i]
    ensures StateToUndo(r) == Some(current) && StateToRedo(r) == None
  {
    History(h.items[..h.position + 1] + [current], h.position + 1)
  }

  /** `Undo`: the cursor moves down one state, unless there is none to undo; the states
      are left alone. */
  function Undone<T>(h: History<T>): (r: History<T>)
    requires Valid(h)
    ensures Valid(r) && r.items == h.items
    ensures h.position == -1 ==> r == h
    ensures h.position >= 0 ==> StateToRedo(r) == StateToUndo(h)
  {
    if h.position >= 0 then History(h.items, h.position - 1) else h
  }

  /** `Redo`: the cursor moves up one state, unless there is none to redo; the states are
      left alone. */
  function Redone<T>(h: History<T>): (r: History<T>)
    requires Valid(h)
    ensures Valid(r) && r.items == h.items
    ensures h.position == |h.items| - 1 ==> r == h
    ensures StateToRedo(h).Some? ==> StateToUndo(r) == StateToRedo(h)
  {
    if h.position + 1 <= |h.items| - 1 then History(h.items, h.position + 1) else h
  }

  /** Undoing and then redoing a step comes back to the same stack. */
  lemma UndoThenRedo<T>(h: History<T>)
    requires Valid(h) && h.position >= 0
    ensures Redone(Undone(h)) == h
  {
  }

  /** Redoing and then undoing a step comes back to the same stack. */
  lemma RedoThenUndo<T>(h: History<T>)
    requires Valid(h) && StateToRedo(h).Some?
    ensures Undone(Redone(h)) == h
  {
  }

  /** `k` steps of undo stop at `-1`. */
  function Undos<T>(h: History<T>, k: nat): (r: History<T>)
    requires Valid(h)
    ensures Valid(r) && r.items == h.items
    ensures r.position == if h.position - k < -1 then -1 else h.position - k
    decreases k
  {
    if k == 0 then h else Undos(Undone(h), k - 1)
  }

  /** `k` steps of redo stop at the top. */
  function Redos<T>(h: History<T>, k: nat): (r: History<T>)
    requires Valid(h)
    ensures Valid(r) && r.items == h.items
    ensures r.position == if h.position + k > |h.items| - 1 then |h.items| - 1 else h.position + k
    decreases k
  {
    if k == 0 then h else Redos(Redone(h), k - 1)
  }

  /** As many redos as there were undos come back to the same stack, as long as the undos
      did not run into the bottom. */
  lemma UndosThenRedos<T>(h: History<T>, k: nat)
    requires Valid(h) && k <= h.position + 1
    ensures Redos(Undos(h, k), k) == h
  {
  }

  /** The stack as the class stores it. */
  class UndoStack<T> {
    var items: seq<T>
    var position: int

    ghost predicate Inv()
      reads this
    {
      Valid(Model())
    }

    function Model(): History<T>
      reads this
    {
      History(items, position)
    }

    constructor ()
      ensures Inv() && Model() == Empty()
    {
      items := [];
      position := -1;
    }

    method Add(current: T)
      requires Inv()
      modifies this
      ensures Inv() && Model() == Added(old(Model()), current)
    {
      items := items[..position + 1];
      items := items + [current];
      position := |items| - 1;
    }

    method PeekUndo() returns (r: Option<T>)
      requires Inv()
      ensures r == StateToUndo(Model())
    {
      if position >= 0 {
        r := Some(items[position]);
      } else {
        r := None;
      }
    }

    method Undo()
      requires Inv()
      modifies this
      ensures Inv() && Model() == Undone(old(Model()))
    {
      if position >= 0 {
        position := position - 1;
      }
    }

    method PeekRedo() returns (r: Option<T>)
      requires Inv()
      ensures r == StateToRedo(Model())
    {
      if position + 1 <= |items| - 1 {
        r := Some(items[position + 1]);
      } else {
        r := None;
      }
    }

    method Redo()
      requires Inv()
      modifies this
      ensures Inv() && Model() == Redone(old(Model()))
    {
      if position + 1 <= |items| - 1 {
        position := position + 1;
      }
    }
  }
}
