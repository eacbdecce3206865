// The alternative synchroniser: an outbound queue of deltas waiting to be
// sent to the server. Recording a change queues its forward delta; an undo or
// redo either queues the delta it applies or, when that delta reverses one
// already queued, drops the queued one instead. The queue is flushed as one
// batch when enough changes are waiting or enough time has passed.

module DeltaQueue {
  import opened LinkedList
  import opened Deltas
  import opened Wrappers
  import RemoteSync

  const MAX_NEW_LOCAL_CHANGES := 3
  const MAX_SECONDS_SINCE_LAST_UPLOAD := 3

  // ---- The queue as a sequence of deltas ----

  /**
   * `push` on the queue's list as written: an empty queue gets `d` as its
   * head and tail; otherwise `d` goes right after the tail, which a list
   * filled by this `push` never moves off its first node.
   */
  function QueuePushAsWritten(q: seq<SetPointPositions>, d: SetPointPositions): (r: seq<SetPointPositions>)
    ensures |r| == |q| + 1
    ensures q == [] ==> r == [d]
    ensures q != [] ==> r[0] == q[0] && r[1] == d && r[2..] == q[1..]
  {
    if q == [] then [d] else q[..1] + [d] + q[1..]
  }

  /** `setCurrent` as written: the new change's forward delta is pushed. */
  function RecordQueueAsWritten(q: seq<SetPointPositions>, change: Change): (r: seq<SetPointPositions>)
    ensures multiset(r) == multiset(q) + multiset{change.forward}
    ensures q != [] ==> r[0] == q[0] && r[1] == change.forward
  {
    assert q != [] ==> q == q[..1] + q[1..];
    QueuePushAsWritten(q, change.forward)
  }

  /** `setCurrent` with the appending push: the forward delta joins the end of the queue. */
  function RecordQueue(q: seq<SetPointPositions>, change: Change): (r: seq<SetPointPositions>)
    ensures |r| == |q| + 1 && r[..|q|] == q && r[|q|] == change.forward
  {
    q + [change.forward]
  }

  /**
   * `undo` exactly as written: when the delta at the HEAD of the queue is
   * the change's forward delta, the delta at the TAIL end is dropped;
   * otherwise the backward delta is pushed as written.
   */
  function UndoQueueAsWritten(q: seq<SetPointPositions>, change: Change): (r: seq<SetPointPositions>)
    ensures q != [] && q[0] == change.forward ==> r == q[..|q| - 1]
    ensures !(q != [] && q[0] == change.forward) ==> r == QueuePushAsWritten(q, change.backward)
  {
    if q != [] && q[0] == change.forward then q[..|q| - 1] else QueuePushAsWritten(q, change.backward)
  }

  /**
   * `redo` exactly as written: when the delta at the head is the change's
   * backward delta it is dropped; otherwise the forward delta is pushed as
   * written.
   */
  function RedoQueueAsWritten(q: seq<SetPointPositions>, change: Change): (r: seq<SetPointPositions>)
    ensures q != [] && q[0] == change.backward ==> r == q[1..]
    ensures !(q != [] && q[0] == change.backward) ==> r == QueuePushAsWritten(q, change.forward)
  {
    if q != [] && q[0] == change.backward then q[1..] else QueuePushAsWritten(q, change.forward)
  }

  /**
   * `undo` as intended: the undo cancels the delta queued last when that
   * delta is the change's forward delta; otherwise the backward delta is
   * appended.
   */
  function UndoQueue(q: seq<SetPointPositions>, change: Change): (r: seq<SetPointPositions>)
    ensures q != [] && q[|q| - 1] == change.forward ==> r == q[..|q| - 1]
    ensures !(q != [] && q[|q| - 1] == change.forward) ==> r == q + [change.backward]
  {
    if q != [] && q[|q| - 1] == change.forward then q[..|q| - 1] else q + [change.backward]
  }

  /** `redo` as intended: the mirror image of `UndoQueue`. */
  function RedoQueue(q: seq<SetPointPositions>, change: Change): (r: seq<SetPointPositions>)
    ensures q != [] && q[|q| - 1] == change.backward ==> r == q[..|q| - 1]
    ensures !(q != [] && q[|q| - 1] == change.backward) ==> r == q + [change.forward]
  {
    if q != [] && q[|q| - 1] == change.backward then q[..|q| - 1] else q + [change.forward]
  }

  /** The queue after recording `cs` one by one, starting from an empty queue, as written. */
  function RecordedAsWritten(cs: seq<Change>): (q: seq<SetPointPositions>)
    ensures |q| == |cs|
  {
    if cs == [] then [] else RecordQueueAsWritten(RecordedAsWritten(cs[..|cs| - 1]), cs[|cs| - 1])
  }

  /** The queue after recording `cs` one by one, starting from an empty queue, with the appending push. */
  function Recorded(cs: seq<Change>): (q: seq<SetPointPositions>)
    ensures |q| == |cs|
  {
    if cs == [] then [] else RecordQueue(Recorded(cs[..|cs| - 1]), cs[|cs| - 1])
  }

  // ---- What recording leaves queued ----

  /**
   * As written, recorded changes queue their forward deltas in the order
   * `PushedAsWritten` gives: the first change's, then the others newest
   * first. That is the order `upload` sends them in.
   */
  lemma {:induction false} RecordedAsWrittenOrder(cs: seq<Change>)
    ensures RecordedAsWritten(cs) == PushedAsWritten(RemoteSync.Forwards(cs))
  {
    if cs != [] {
      var init, d := cs[..|cs| - 1], cs[|cs| - 1].forward;
      RecordedAsWrittenOrder(init);
      QueuePushIsPushedAsWritten(RemoteSync.Forwards(init), d);
      ForwardsSnoc(cs);
    }
  }

  /** The forward deltas of a non-empty list are those of all but its last change, then the last one's. */
  lemma ForwardsSnoc(cs: seq<Change>)
    requires cs != []
    ensures RemoteSync.Forwards(cs) == RemoteSync.Forwards(cs[..|cs| - 1]) + [cs[|cs| - 1].forward]
  {
  }

  /** Pushing `d` as written onto a queue in `PushedAsWritten` order keeps that order. */
  lemma QueuePushIsPushedAsWritten(s: seq<SetPointPositions>, d: SetPointPositions)
    ensures QueuePushAsWritten(PushedAsWritten(s), d) == PushedAsWritten(s + [d])
  {
    PushedAsWrittenSnoc(s, d);
  }

  /** With the appending push, recorded changes queue their forward deltas in the order they were made. */
  lemma {:induction false} RecordedOrder(cs: seq<Change>)
    ensures Recorded(cs) == RemoteSync.Forwards(cs)
  {
    if cs != [] {
      var init := cs[..|cs| - 1];
      RecordedOrder(init);
      assert RemoteSync.Forwards(init) == RemoteSync.Forwards(cs)[..|cs| - 1];
    }
  }

  /** Three changes recorded as written are queued, and uploaded, as `[a, c, b]`. */
  lemma RecordThreeAsWritten(a: Change, b: Change, c: Change)
    ensures RecordedAsWritten([a, b, c]) == [a.forward, c.forward, b.forward]
  {
    RecordedAsWrittenOrder([a, b, c]);
  }

  // ---- Properties of the intended queue operations ----

  /** Undoing the change just recorded takes its delta back out of the queue. */
  lemma UndoCancelsRecord(q: seq<SetPointPositions>, change: Change)
    ensures UndoQueue(RecordQueue(q, change), change) == q
  {
    assert RecordQueue(q, change)[..|q|] == q;
  }

  /** Redoing the change just undone restores the queue, whichever way the undo went. */
  lemma RedoCancelsUndo(q: seq<SetPointPositions>, change: Change)
    requires q == [] || q[|q| - 1] != change.forward
    ensures RedoQueue(UndoQueue(q, change), change) == q
  {
    assert (q + [change.backward])[..|q|] == q;
  }

  /** Undoing the change just redone restores the queue. */
  lemma UndoCancelsRedo(q: seq<SetPointPositions>, change: Change)
    requires q == [] || q[|q| - 1] != change.backward
    ensures UndoQueue(RedoQueue(q, change), change) == q
  {
    assert (q + [change.forward])[..|q|] == q;
  }

  /**
   * Record `a`, record `b`, undo `b`, undo `a`: the intended queue ends
   * empty, as the two undos reverse the two edits.
   */
  lemma RecordTwoUndoTwo(a: Change, b: Change)
    ensures UndoQueue(UndoQueue(RecordQueue(RecordQueue([], a), b), b), a) == []
  {
    UndoCancelsRecord([a.forward], b);
    UndoCancelsRecord([], a);
  }

  /**
   * The same four steps as written. `b`'s forward delta is pushed behind
   * `a`'s, which stays at the head, so the first undo does not see it and
   * pushes `b`'s backward delta right after the head; the second undo sees
   * `a`'s forward delta at the head and drops the delta at the end, `b`'s
   * forward one. What stays queued applies `a` and takes back `b`, which
   * the server never received.
   */
  lemma RecordTwoUndoTwoAsWritten(a: Change, b: Change)
    requires a.forward != b.forward
    ensures UndoQueueAsWritten(UndoQueueAsWritten(RecordQueueAsWritten(RecordQueueAsWritten([], a), b), b), a)
         == [a.forward, b.backward]
  {
    var q := RecordQueueAsWritten(RecordQueueAsWritten([], a), b);
    assert q == [a.forward, b.forward];
    assert UndoQueueAsWritten(q, b) == [a.forward, b.backward, b.forward];
  }

  // ---- The queue object ----

  class RemoteDeltaQueue {
    const deltas: DoublyLinkedList<SetPointPositions>
    var newLocalChangesCount: int
    /** Milliseconds since the epoch. */
    var lastUploadedAt: int
    /** Every batch handed to `client.patchWorld`, oldest first. */
    var uploads: seq<seq<SetPointPositions>>

    /** The queue is a linked list, and the counter is its length. */
    ghost predicate Valid()
      reads this, deltas
    {
      deltas.Linked() && newLocalChangesCount == |deltas.order|
    }

    /**
     * The list's `tail` is its first node: the state `push` as written
     * keeps a list in once it has pushed onto an empty one.
     */
    ghost predicate TailAtHead()
      reads this, deltas
    {
      Valid() && (deltas.order == [] || deltas.tail == Some(deltas.order[0]))
    }

    /** The list's `tail` is its last node: the state the appending push keeps. */
    ghost predicate TailAtEnd()
      reads this, deltas
    {
      Valid() && deltas.Valid()
    }

    /** The queued deltas in the order they will be uploaded. */
    ghost function Queued(): (q: seq<SetPointPositions>)
      reads this, deltas
      requires Valid()
      ensures |q| == newLocalChangesCount
    {
      deltas.Contents()
    }

    constructor ()
      ensures TailAtHead() && TailAtEnd() && fresh(deltas)
      ensures Queued() == [] && newLocalChangesCount == 0
      ensures lastUploadedAt == 0 && uploads == []
    {
      deltas := new DoublyLinkedList<SetPointPositions>();
      newLocalChangesCount := 0;
      lastUploadedAt := 0;
      uploads := [];
    }

    /** `setCurrent` as written: pushes the change's forward delta right after the first one. */
    method SetCurrentAsWritten(change: Change)
      requires TailAtHead()
      modifies this, deltas
      ensures TailAtHead()
      ensures Queued() == RecordQueueAsWritten(old(Queued()), change)
      ensures lastUploadedAt == old(lastUploadedAt) && uploads == old(uploads)
    {
      PushAsWritten(change.forward);
    }

    /** `push` as written onto the queue, counted. */
    method PushAsWritten(d: SetPointPositions)
      requires TailAtHead()
      modifies this, deltas
      ensures TailAtHead()
      ensures Queued() == QueuePushAsWritten(old(Queued()), d)
      ensures lastUploadedAt == old(lastUploadedAt) && uploads == old(uploads)
    {
      if deltas.order != [] {
        deltas.PositionOf(deltas.tail.value, 0);
      }
      var _ := deltas.PushAsWritten(d);
      newLocalChangesCount := newLocalChangesCount + 1;
    }

    /** `setCurrent` with the appending push: queues the change's forward delta last. */
    method SetCurrent(change: Change)
      requires TailAtEnd()
      modifies this, deltas
      ensures TailAtEnd()
      ensures Queued() == RecordQueue(old(Queued()), change)
      ensures newLocalChangesCount == old(newLocalChangesCount) + 1
      ensures lastUploadedAt == old(lastUploadedAt) && uploads == old(uploads)
    {
      var _ := deltas.Push(change.forward);
      newLocalChangesCount := newLocalChangesCount + 1;
    }

    /** `isUndoingPrevious`: the head of the queue is the change's forward delta. */
    function IsUndoingPrevious(change: Change): (b: bool)
      reads this, deltas
      requires Valid() && !deltas.IsEmpty()
      ensures b <==> Queued()[0] == change.forward
    {
      deltas.values[deltas.head.value] == change.forward
    }

    /** `isRedoingPrevious`: the head of the queue is the change's backward delta. */
    function IsRedoingPrevious(change: Change): (b: bool)
      reads this, deltas
      requires Valid() && !deltas.IsEmpty()
      ensures b <==> Queued()[0] == change.backward
    {
      deltas.values[deltas.head.value] == change.backward
    }

    /** The delta queued last is `d`: the test both cancellations are meant to make. */
    function IsLastQueued(d: SetPointPositions): (b: bool)
      reads this, deltas
      requires TailAtEnd() && !deltas.IsEmpty()
      ensures b <==> Queued()[|Queued()| - 1] == d
    {
      deltas.values[deltas.tail.value] == d
    }

    /** `undo` exactly as written: tests the head, removes the last delta, pushes as written. */
    method UndoAsWritten(change: Change)
      requires TailAtHead()
      modifies this, deltas
      ensures TailAtHead()
      ensures Queued() == UndoQueueAsWritten(old(Queued()), change)
      ensures lastUploadedAt == old(lastUploadedAt) && uploads == old(uploads)
    {
      if deltas.IsEmpty() || !IsUndoingPrevious(change) {
        PushAsWritten(change.backward);
      } else {
        ghost var o := deltas.order;
        if |o| > 1 {
          deltas.PositionOf(o[0], 0);
        }
        var _ := deltas.PopTail();
        newLocalChangesCount := newLocalChangesCount - 1;
      }
    }

    /** `redo` exactly as written: tests the head, removes the head, pushes as written. */
    method RedoAsWritten(change: Change)
      requires TailAtHead()
      modifies this, deltas
      ensures TailAtHead()
      ensures Queued() == RedoQueueAsWritten(old(Queued()), change)
      ensures lastUploadedAt == old(lastUploadedAt) && uploads == old(uploads)
    {
      if deltas.IsEmpty() || !IsRedoingPrevious(change) {
        PushAsWritten(change.forward);
      } else {
        var _ := deltas.PopHead();
        newLocalChangesCount := newLocalChangesCount - 1;
      }
    }

    /** `undo` with the appending push and the cancellation test moved to the tail it removes. */
    method Undo(change: Change)
      requires TailAtEnd()
      modifies this, deltas
      ensures TailAtEnd()
      ensures Queued() == UndoQueue(old(Queued()), change)
      ensures lastUploadedAt == old(lastUploadedAt) && uploads == old(uploads)
    {
      if deltas.IsEmpty() || !IsLastQueued(change.forward) {
        var _ := deltas.Push(change.backward);
        newLocalChangesCount := newLocalChangesCount + 1;
      } else {
        var _ := deltas.PopTail();
        newLocalChangesCount := newLocalChangesCount - 1;
      }
    }

    /** `redo` cancelling at the tail, the mirror image of `Undo`. */
    method Redo(change: Change)
      requires TailAtEnd()
      modifies this, deltas
      ensures TailAtEnd()
      ensures Queued() == RedoQueue(old(Queued()), change)
      ensures lastUploadedAt == old(lastUploadedAt) && uploads == old(uploads)
    {
      if deltas.IsEmpty() || !IsLastQueued(change.backward) {
        var _ := deltas.Push(change.forward);
        newLocalChangesCount := newLocalChangesCount + 1;
      } else {
        var _ := deltas.PopTail();
        newLocalChangesCount := newLocalChangesCount - 1;
      }
    }

    /**
     * `shouldUpload` at time `now`: more than three changes wait, or more
     * than three seconds have passed since the last upload.
     */
    function ShouldUpload(now: int): (b: bool)
      reads this
      ensures b <==> newLocalChangesCount > 3 || now - lastUploadedAt > 3000
    {
      || newLocalChangesCount > MAX_NEW_LOCAL_CHANGES
      || (now - lastUploadedAt) as real / 1000.0 > MAX_SECONDS_SINCE_LAST_UPLOAD as real
    }

    /** `upload`: hands the whole queue over, then starts an empty one. */
    method Upload(now: int)
      requires Valid()
      modifies this, deltas
      ensures TailAtHead() && TailAtEnd() && Queued() == [] && newLocalChangesCount == 0
      ensures uploads == old(uploads) + [old(Queued())] && lastUploadedAt == now
    {
      lastUploadedAt := now;
      newLocalChangesCount := 0;
      var batch := deltas.Values();
      uploads := uploads + [batch];
      deltas.Clear();
    }

    /** `maybeUpload`: uploads exactly when `ShouldUpload` holds, and otherwise changes nothing. */
    method MaybeUpload(now: int)
      requires Valid()
      modifies this, deltas
      ensures Valid()
      ensures old(TailAtHead()) ==> TailAtHead()
      ensures old(TailAtEnd()) ==> TailAtEnd()
      ensures old(ShouldUpload(now)) ==>
        Queued() == [] && uploads == old(uploads) + [old(Queued())] && lastUploadedAt == now
      ensures !old(ShouldUpload(now)) ==>
        Queued() == old(Queued()) && uploads == old(uploads) && lastUploadedAt == old(lastUploadedAt)
    {
      if ShouldUpload(now) {
        Upload(now);
      }
    }
  }
}
