/**
 * The snapshot-based undo/redo history of App.tsx: a linear log of opaque
 * snapshots plus a cursor, where -1 stands for the implicit empty canvas.
 */
module App {
  import opened Wrappers

  /** The abstract history: the snapshot stack and the cursor into it. */
  datatype Log<S> = Log(stack: seq<S>, index: int) {
    /** The cursor is -1 (nothing shown) or the index of a stack entry. */
    predicate Valid() {
      -1 <= index < |stack|
    }
  }

  /** The state the history starts in: no snapshots, cursor at -1. */
  function Initial<S>(): (h: Log<S>)
    ensures h.Valid() && h.stack == [] && h.index == -1
  {
    Log([], -1)
  }

  /**
   * Recording a snapshot keeps the entries up to the cursor, drops every
   * redo entry, appends the snapshot and moves the cursor onto it.
   */
  function Recorded<S>(h: Log<S>, s: S): (r: Log<S>)
    requires h.Valid()
    ensures r.Valid()
    ensures |r.stack| == h.index + 2
    ensures r.stack[..h.index + 1] == h.stack[..h.index + 1]
    ensures r.stack[h.index + 1] == s
    ensures r.index == |r.stack| - 1
  {
    var next := h.stack[..h.index + 1] + [s];
    Log(next, |next| - 1)
  }

  /** Undo steps the cursor back by one, from 0 to the empty state, and is a no-op at -1. */
  function Undone<S>(h: Log<S>): (r: Log<S>)
    requires h.Valid()
    ensures r.Valid() && r.stack == h.stack
    ensures h.index >= 0 ==> r.index == h.index - 1
    ensures h.index == -1 ==> r == h
  {
    if h.index > 0 then h.(index := h.index - 1)
    else if h.index == 0 then h.(index := -1)
    else h
  }

  /** Redo steps the cursor forward while a later entry exists, and is a no-op otherwise. */
  function Redone<S>(h: Log<S>): (r: Log<S>)
    requires h.Valid()
    ensures r.Valid() && r.stack == h.stack
    ensures h.index < |h.stack| - 1 ==> r.index == h.index + 1
    ensures h.index == |h.stack| - 1 ==> r == h
  {
    if h.index < |h.stack| - 1 then h.(index := h.index + 1) else h
  }

  /** The toolbar's canUndo flag: it reduces to "the stack is non-empty". */
  function CanUndo<S>(h: Log<S>): (r: bool)
    requires h.Valid()
    ensures r <==> h.stack != []
  {
    h.index >= -1 && |h.stack| > 0
  }

  /** The toolbar's canRedo flag: exactly when redo would move the cursor. */
  function CanRedo<S>(h: Log<S>): (r: bool)
    requires h.Valid()
    ensures r <==> Redone(h) != h
  {
    h.index < |h.stack| - 1
  }

  /** The evidently intended canUndo: exactly when undo would move the cursor. */
  function CanUndoCorrected<S>(h: Log<S>): (r: bool)
    requires h.Valid()
    ensures r <==> Undone(h) != h
  {
    h.index >= 0
  }

  /** canUndo as written is enabled at the empty state of a non-empty stack, where undo does nothing. */
  lemma CanUndoAtStartIsNoOp<S>(h: Log<S>)
    requires h.Valid() && h.index == -1 && h.stack != []
    ensures CanUndo(h) && Undone(h) == h && !CanUndoCorrected(h)
  {
  }

  /** Undo followed by redo returns to the same state from any non-empty cursor. */
  lemma UndoThenRedo<S>(h: Log<S>)
    requires h.Valid() && h.index >= 0
    ensures Redone(Undone(h)) == h
  {
  }

  /** Right after a record there is nothing to redo. */
  lemma RecordClearsRedo<S>(h: Log<S>, s: S)
    requires h.Valid()
    ensures !CanRedo(Recorded(h, s)) && Redone(Recorded(h, s)) == Recorded(h, s)
  {
  }

  /** Records the snapshots one after another. */
  function RecordAll<S>(h: Log<S>, ss: seq<S>): (r: Log<S>)
    requires h.Valid()
    ensures r.Valid()
    decreases |ss|
  {
    if ss == [] then h else RecordAll(Recorded(h, ss[0]), ss[1..])
  }

  /** Undoes n times. */
  function UndoTimes<S>(h: Log<S>, n: nat): (r: Log<S>)
    requires h.Valid()
    ensures r.Valid()
    decreases n
  {
    if n == 0 then h else UndoTimes(Undone(h), n - 1)
  }

  /** Redoes n times. */
  function RedoTimes<S>(h: Log<S>, n: nat): (r: Log<S>)
    requires h.Valid()
    ensures r.Valid()
    decreases n
  {
    if n == 0 then h else RedoTimes(Redone(h), n - 1)
  }

  /** A non-empty run of records keeps the entries up to the cursor and appends the run. */
  lemma {:induction false} RecordAllAppends<S>(h: Log<S>, ss: seq<S>)
    requires h.Valid()
    ensures RecordAll(h, ss).Valid()
    ensures RecordAll(h, ss).stack == if ss == [] then h.stack else h.stack[..h.index + 1] + ss
    ensures RecordAll(h, ss).index == h.index + |ss|
    decreases |ss|
  {
    if ss != [] {
      var h' := Recorded(h, ss[0]);
      RecordAllAppends(h', ss[1..]);
      assert h'.stack == h.stack[..h.index + 1] + [ss[0]];
      assert h'.stack[..h'.index + 1] == h'.stack;
      assert [ss[0]] + ss[1..] == ss;
    }
  }

  /** n undos keep the stack and move the cursor back n steps, stopping at -1. */
  lemma {:induction false} UndoTimesIndex<S>(h: Log<S>, n: nat)
    requires h.Valid()
    ensures UndoTimes(h, n).Valid() && UndoTimes(h, n).stack == h.stack
    ensures UndoTimes(h, n).index == if h.index - n < -1 then -1 else h.index - n
    decreases n
  {
    if n > 0 {
      UndoTimesIndex(Undone(h), n - 1);
    }
  }

  /** n redos keep the stack and move the cursor forward n steps, stopping at the top. */
  lemma {:induction false} RedoTimesIndex<S>(h: Log<S>, n: nat)
    requires h.Valid()
    ensures RedoTimes(h, n).Valid() && RedoTimes(h, n).stack == h.stack
    ensures RedoTimes(h, n).index ==
      if h.index + n > |h.stack| - 1 then |h.stack| - 1 else h.index + n
    decreases n
  {
    if n > 0 {
      RedoTimesIndex(Redone(h), n - 1);
    }
  }

  /**
   * The undo/redo inverse law: after n records, n undos bring the cursor
   * back to where it was, and n redos then reproduce the final state.
   */
  lemma UndoRedoInverse<S>(h: Log<S>, ss: seq<S>)
    requires h.Valid()
    ensures var f := RecordAll(h, ss);
      && UndoTimes(f, |ss|).index == h.index
      && UndoTimes(f, |ss|).stack == f.stack
      && RedoTimes(UndoTimes(f, |ss|), |ss|) == f
  {
    var f := RecordAll(h, ss);
    RecordAllAppends(h, ss);
    UndoTimesIndex(f, |ss|);
    var u := UndoTimes(f, |ss|);
    RedoTimesIndex(u, |ss|);
  }

  /** From the initial state, n records followed by n undos reach the empty state -1. */
  lemma RecordsThenUndosReachEmpty<S>(ss: seq<S>)
    ensures UndoTimes(RecordAll(Initial(), ss), |ss|).index == -1
  {
    UndoRedoInverse(Initial<S>(), ss);
  }

  /** After undoing at least once, a new record leaves nothing to redo. */
  lemma {:induction false} RecordAfterUndoTruncates<S>(h: Log<S>, n: nat, s: S)
    requires h.Valid() && n >= 1 && h.index >= 0
    ensures var r := Recorded(UndoTimes(h, n), s);
      && |r.stack| <= |h.stack|
      && r.stack == h.stack[..UndoTimes(h, n).index + 1] + [s]
      && !CanRedo(r)
  {
    UndoTimesIndex(h, n);
    var u := UndoTimes(h, n);
    var r := Recorded(u, s);
    assert r.stack == u.stack[..u.index + 1] + [s];
  }

  /**
   * The history state of App: the snapshot stack, the cursor and the
   * background image, which Clear resets along with the history.
   */
  class History<Snap, Img> {
    var stack: seq<Snap>
    var index: int
    var bg: Option<Img>

    ghost predicate Valid()
      reads this
    {
      State().Valid()
    }

    /** The abstract history the fields hold. */
    function State(): Log<Snap>
      reads this
    {
      Log(stack, index)
    }

    constructor ()
      ensures Valid()
      ensures stack == [] && index == -1 && bg == None
    {
      stack := [];
      index := -1;
      bg := None;
    }

    /** handleSnapshotUpdate: copy the entries up to the cursor, push, move the cursor to the end. */
    method Record(s: Snap)
      requires Valid()
      modifies this
      ensures Valid()
      ensures stack == old(stack[..index + 1]) + [s]
      ensures index == |stack| - 1
      ensures bg == old(bg)
      ensures State() == Recorded(old(State()), s)
    {
      var next := stack[..index + 1];
      next := next + [s];
      stack := next;
      index := |next| - 1;
    }

    /** handleUndo. */
    method Undo()
      requires Valid()
      modifies this
      ensures Valid()
      ensures stack == old(stack) && bg == old(bg)
      ensures old(index) >= 0 ==> index == old(index) - 1
      ensures old(index) == -1 ==> index == -1
      ensures State() == Undone(old(State()))
    {
      if index > 0 {
        index := index - 1;
      } else if index == 0 {
        index := -1;
      }
    }

    /** handleRedo. */
    method Redo()
      requires Valid()
      modifies this
      ensures Valid()
      ensures stack == old(stack) && bg == old(bg)
      ensures index == if old(index) < |stack| - 1 then old(index) + 1 else old(index)
      ensures State() == Redone(old(State()))
    {
      if index < |stack| - 1 {
        index := index + 1;
      }
    }

    /** handleClear: empty history, cursor at -1, no background image. */
    method Clear()
      modifies this
      ensures Valid()
      ensures stack == [] && index == -1 && bg == None
    {
      stack := [];
      index := -1;
      bg := None;
    }

    /** setBackgroundImage, as the paste handler and the image generator call it. */
    method SetBackground(img: Option<Img>)
      modifies this
      ensures bg == img
      ensures stack == old(stack) && index == old(index)
    {
      bg := img;
    }
  }
}
