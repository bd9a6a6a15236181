/**
 * The editor's undo history: a bounded list of snapshots of the forest and the index
 * of the snapshot currently shown. Snapshots are forests compared by value (the
 * editor stores and compares their JSON text, which identifies the same values).
 */
module History {
  import opened Diagram

  /** The most snapshots the history keeps. */
  const Capacity := 30

  datatype Timeline = Timeline(snapshots: seq<Forest>, at: int)

  /** The index points at a snapshot and there are at most `Capacity` of them. */
  predicate Bounded(t: Timeline) {
    0 <= t.at < |t.snapshots| <= Capacity
  }

  /**
   * Recording snapshot `s`: nothing happens when it equals the current snapshot;
   * otherwise everything after the current snapshot is discarded, `s` is appended,
   * the oldest snapshot is dropped once there are more than `Capacity`, and the
   * index moves to the last snapshot.
   */
  function Push(t: Timeline, s: Forest): Timeline
    requires Bounded(t)
  {
    if s == t.snapshots[t.at] then t
    else
      var kept := t.snapshots[..t.at + 1] + [s];
      var h := if |kept| > Capacity then kept[1..] else kept;
      Timeline(h, |h| - 1)
  }

  /** Stepping back one snapshot, when there is an earlier one. */
  function Undo(t: Timeline): Timeline {
    if t.at > 0 then Timeline(t.snapshots, t.at - 1) else t
  }

  /** Stepping forward one snapshot, when there is a later one. */
  function Redo(t: Timeline): Timeline {
    if t.at < |t.snapshots| - 1 then Timeline(t.snapshots, t.at + 1) else t
  }

  /**
   * Recording keeps the history bounded and makes `s` the current snapshot, with
   * nothing left to redo. A new snapshot keeps the snapshots up to the old current
   * one, the oldest of them dropped when the history was full.
   */
  lemma {:induction false} PushSpec(t: Timeline, s: Forest)
    requires Bounded(t)
    ensures Bounded(Push(t, s))
    ensures Push(t, s).snapshots[Push(t, s).at] == s
    ensures s == t.snapshots[t.at] ==> Push(t, s) == t
    ensures s != t.snapshots[t.at] ==>
      && Push(t, s).at == |Push(t, s).snapshots| - 1
      && Push(t, s).at == (if t.at + 1 < Capacity then t.at + 1 else Capacity - 1)
      && Push(t, s).snapshots[..Push(t, s).at] == t.snapshots[t.at + 1 - Push(t, s).at..t.at + 1]
  {
    if s != t.snapshots[t.at] {
      var kept := t.snapshots[..t.at + 1] + [s];
      var u := Push(t, s);
      if |kept| > Capacity {
        assert u.snapshots == kept[1..];
        assert u.snapshots[..u.at] == kept[1..|kept| - 1];
      } else {
        assert u.snapshots[..u.at] == kept[..|kept| - 1];
      }
    }
  }

  /** Recording the same snapshot twice is the same as recording it once. */
  lemma {:induction false} PushIdempotent(t: Timeline, s: Forest)
    requires Bounded(t)
    ensures Bounded(Push(t, s)) && Push(Push(t, s), s) == Push(t, s)
  {
    PushSpec(t, s);
  }

  /** Undo right after recording a new snapshot shows the snapshot that was current before. */
  lemma {:induction false} PushThenUndo(t: Timeline, s: Forest)
    requires Bounded(t) && s != t.snapshots[t.at]
    ensures Undo(Push(t, s)).snapshots[Undo(Push(t, s)).at] == t.snapshots[t.at]
    ensures Undo(Push(t, s)).at == Push(t, s).at - 1
  {
    PushSpec(t, s);
  }

  /**
   * Undo and redo keep the snapshots and the bounds, move the index by at most one,
   * and each moves exactly when it can.
   */
  lemma {:induction false} UndoRedoSpec(t: Timeline)
    requires Bounded(t)
    ensures Bounded(Undo(t)) && Undo(t).snapshots == t.snapshots
    ensures Bounded(Redo(t)) && Redo(t).snapshots == t.snapshots
    ensures Undo(t).at == (if t.at > 0 then t.at - 1 else t.at)
    ensures Redo(t).at == (if t.at < |t.snapshots| - 1 then t.at + 1 else t.at)
  {
  }

  /** Redo undoes an undo that moved, and undo undoes a redo that moved. */
  lemma {:induction false} UndoRedoInverse(t: Timeline)
    requires Bounded(t)
    ensures t.at > 0 ==> Redo(Undo(t)) == t
    ensures t.at < |t.snapshots| - 1 ==> Undo(Redo(t)) == t
  {
  }
}
