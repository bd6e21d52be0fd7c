/**
 * The undo and redo stacks: every entry is a full copy of the byte buffer,
 * and the top of a stack is its last element.
 */
module History {
  import opened Pixels

  /** The buffer in use and the two stacks of saved buffers. */
  datatype History = History(present: seq<Byte>, undo: seq<seq<Byte>>, redo: seq<seq<Byte>>)

  predicate Undoable(h: History)
  {
    |h.undo| > 0
  }

  predicate Redoable(h: History)
  {
    |h.redo| > 0
  }

  /** The buffer and every saved copy have `n` bytes. */
  predicate SameSize(h: History, n: nat)
  {
    |h.present| == n && (forall e :: e in h.undo ==> |e| == n) && (forall e :: e in h.redo ==> |e| == n)
  }

  /** `snapshot`: save a copy of the buffer on the undo stack and forget everything redoable. */
  function Snapshot(h: History): (r: History)
    ensures r.present == h.present && Undoable(r) && !Redoable(r)
    ensures |r.undo| == |h.undo| + 1 && r.undo[..|h.undo|] == h.undo && r.undo[|h.undo|] == h.present
    ensures forall n: nat :: SameSize(h, n) ==> SameSize(r, n)
  {
    History(h.present, h.undo + [h.present], [])
  }

  /**
   * `undo`: with an empty undo stack, report false and change nothing;
   * otherwise save the buffer on the redo stack and bring back the top of
   * the undo stack.
   */
  function Undo(h: History): (r: (bool, History))
    ensures r.0 <==> Undoable(h)
    ensures !r.0 ==> r.1 == h
    ensures r.0 ==> Redoable(r.1) && r.1.present == h.undo[|h.undo| - 1]
    ensures |r.1.undo| + |r.1.redo| == |h.undo| + |h.redo|
    ensures forall n: nat :: SameSize(h, n) ==> SameSize(r.1, n)
  {
    if |h.undo| < 1 then (false, h)
    else
      var top := |h.undo| - 1;
      (true, History(h.undo[top], h.undo[..top], h.redo + [h.present]))
  }

  /** `redo`: the mirror image of `undo`, with the two stacks exchanged. */
  function Redo(h: History): (r: (bool, History))
    ensures r.0 <==> Redoable(h)
    ensures !r.0 ==> r.1 == h
    ensures r.0 ==> Undoable(r.1) && r.1.present == h.redo[|h.redo| - 1]
    ensures |r.1.undo| + |r.1.redo| == |h.undo| + |h.redo|
    ensures forall n: nat :: SameSize(h, n) ==> SameSize(r.1, n)
  {
    if |h.redo| < 1 then (false, h)
    else
      var top := |h.redo| - 1;
      (true, History(h.redo[top], h.undo + [h.present], h.redo[..top]))
  }

  /** An undo that succeeds is taken back exactly by a redo. */
  lemma RedoUndoes(h: History)
    requires Undoable(h)
    ensures Redo(Undo(h).1) == (true, h)
  {
    var top := |h.undo| - 1;
    assert h.undo[..top] + [h.undo[top]] == h.undo;
  }

  /** A redo that succeeds is taken back exactly by an undo. */
  lemma UndoRedoes(h: History)
    requires Redoable(h)
    ensures Undo(Redo(h).1) == (true, h)
  {
    var top := |h.redo| - 1;
    assert h.redo[..top] + [h.redo[top]] == h.redo;
  }

  /**
   * The editing cycle of the user interface: a snapshot, then a change of
   * the buffer to `edited`. Undo brings back the buffer as it was before,
   * and redo the edited one.
   */
  lemma UndoRestoresEdit(h: History, edited: seq<Byte>)
    ensures Undo(Snapshot(h).(present := edited)) == (true, History(h.present, h.undo, [edited]))
    ensures Redo(Undo(Snapshot(h).(present := edited)).1) == (true, History(edited, h.undo + [h.present], []))
  {
    var s := Snapshot(h).(present := edited);
    assert s.undo[..|s.undo| - 1] == h.undo;
    assert s.redo + [s.present] == [edited];
  }

  /** The number of undos that succeed in a row is the height of the undo stack. */
  function UndoAll(h: History, k: nat): (r: (nat, History))
    ensures r.0 == (if k <= |h.undo| then k else |h.undo|)
    decreases k
  {
    if k == 0 then (0, h)
    else
      var (ok, h') := Undo(h);
      if !ok then (0, h)
      else
        var (n, h'') := UndoAll(h', k - 1);
        (n + 1, h'')
  }

  /** Undoing as many times as there are snapshots goes back to the oldest buffer. */
  lemma {:induction false} UndoAllReachesOldest(h: History)
    requires Undoable(h)
    ensures UndoAll(h, |h.undo|).1.present == h.undo[0]
    ensures !Undoable(UndoAll(h, |h.undo|).1)
    decreases |h.undo|
  {
    var h' := Undo(h).1;
    if |h.undo| > 1 {
      assert h'.undo == h.undo[..|h.undo| - 1];
      UndoAllReachesOldest(h');
    }
  }
}
