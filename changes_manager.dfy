// The earlier undo/redo cursor: it writes the shared record
// `{list, current, isCurrentApplied}` and tells the synchroniser about every
// cursor move, so that each successful edit, undo or redo reaches the
// remote copy as one delta.

module Changes {
  import opened Wrappers
  import opened LinkedList
  import opened Deltas
  import opened RemoteSync
  import History

  class ChangesManager {
    const world: EditorWorld
    const changes: ChangeManagerData
    const remote: RemoteChangesManager

    /** The synchroniser observes this manager's record, and both are well formed. */
    ghost predicate Valid()
      reads this, changes, changes.list, remote
    {
      remote.changes == changes && remote.Valid()
    }

    /** Well formed, and the remote copy has applied exactly the locally applied changes. */
    ghost predicate Synced()
      reads this, changes, changes.list, remote
    {
      remote.changes == changes && remote.Synced()
    }

    constructor (world: EditorWorld)
      ensures Synced() && this.world == world
      ensures fresh(changes) && fresh(changes.list) && fresh(remote)
      ensures changes.list.Contents() == [] && changes.current == None && !changes.isCurrentApplied
      ensures remote.remote == None && remote.remotePosition == AtCurrent
      ensures remote.lastUploadedAt == 0 && remote.uploads == []
    {
      this.world := world;
      var data := new ChangeManagerData();
      changes := data;
      remote := new RemoteChangesManager(data);
    }

    /**
     * `setCurrent`: drops the undone changes, appends `change` as the
     * applied current change, and uploads its forward delta.
     */
    method SetCurrent(change: Change, now: int)
      requires Synced()
      modifies changes, changes.list, remote
      ensures Synced()
      ensures changes.list.Contents() == old(changes.list.Contents())[..old(changes.Applied())] + [change]
      ensures changes.current == NodeAt(changes.list.order, |changes.list.order| - 1) && changes.isCurrentApplied
      ensures changes.Applied() == |changes.list.order|
      ensures changes.list.tail == Some(changes.list.order[if |changes.list.order| == 1 then 0 else |changes.list.order| - 2])
      ensures remote.uploads == old(remote.uploads) + [[change.forward]] && remote.lastUploadedAt == now
    {
      ghost var k: int, before, o := changes.Applied(), changes.list.Contents(), changes.list.order;
      assert remote.remote == NodeAt(o, k - 1);
      RemoveUndoneChanges();
      ghost var pruned := changes.list.Contents();
      assert pruned == before[..k] by {
        forall j | 0 <= j < k ensures pruned[j] == before[j] {
        }
      }
      assert remote.remote == NodeAt(changes.list.order, k - 1) by {
        assert k > 0 ==> changes.list.order[k - 1] == o[k - 1];
      }
      AppendAndUpload(change, now);
    }

    /**
     * `setCurrent` on a list with nothing undone: the new change goes last,
     * the tail stays one node behind it, and the remote, at the last node,
     * receives the new change's forward delta alone.
     */
    method AppendAndUpload(change: Change, now: int)
      requires remote.changes == changes && changes.list.Valid()
      requires remote.remote == NodeAt(changes.list.order, |changes.list.order| - 1)
      modifies changes, changes.list, remote
      ensures Synced() && changes.current.Some? && changes.isCurrentApplied
      ensures changes.list.order == old(changes.list.order) + [changes.current.value]
      ensures changes.list.Contents() == old(changes.list.Contents()) + [change]
      ensures changes.list.tail == Some(changes.list.order[if |changes.list.order| == 1 then 0 else |changes.list.order| - 2])
      ensures remote.uploads == old(remote.uploads) + [[change.forward]] && remote.lastUploadedAt == now
    {
      ghost var k, o, c := |changes.list.order|, changes.list.order, changes.list.Contents();
      changes.list.TailCountOfValid();
      PushAndUpload(change, now, k);
      assert o[..k] == o && o[k..] == [] && c[..k] == c && c[k..] == [];
      assert c[k..k] + [change] == [change] && Forwards([change]) == [change.forward];
      assert k > 0 ==> changes.list.order[k - 1] == o[k - 1];
    }

    /**
     * The rest of `setCurrent` once the undone changes are handled: push,
     * notify, upload. The new change goes right after the list's `tail`, at
     * position `p`; the remote has applied the first `s` nodes, no later
     * than the tail, so the batch replays the nodes from position `s` up to
     * the tail, then the new change.
     */
    method PushAndUpload(change: Change, now: int, ghost s: nat)
      requires remote.changes == changes && changes.list.Linked()
      requires s <= changes.list.TailCount() && remote.remote == NodeAt(changes.list.order, s - 1)
      modifies changes, changes.list, remote
      ensures Synced() && changes.current.Some? && changes.isCurrentApplied
      ensures var p := old(changes.list.TailCount());
        && changes.Index() == p
        && changes.list.order == old(changes.list.order)[..p] + [changes.current.value] + old(changes.list.order)[p..]
        && changes.list.Contents() == old(changes.list.Contents())[..p] + [change] + old(changes.list.Contents())[p..]
        && remote.uploads == old(remote.uploads) + [Forwards(old(changes.list.Contents())[s..p] + [change])]
      ensures changes.list.tail == if old(changes.list.order) == [] then changes.current else old(changes.list.tail)
      ensures remote.lastUploadedAt == now
    {
      ghost var before, o, p := changes.list.Contents(), changes.list.order, changes.list.TailCount();
      Push(change);
      ghost var after := changes.list.Contents();
      assert remote.remote == NodeAt(changes.list.order, s - 1) by {
        assert s > 0 ==> changes.list.order[s - 1] == o[s - 1];
      }
      assert after[s..p + 1] == before[s..p] + [change] by {
        assert after == before[..p] + [change] + before[p..];
      }
      remote.AfterMovingCurrentForward();
      UploadMade(now, s);
    }

    /**
     * The upload after the current change is made: the remote, behind with
     * the first `s` nodes applied, receives the forward deltas from position
     * `s` up to and including the current change.
     */
    method UploadMade(now: int, ghost s: nat)
      requires Valid() && changes.current.Some? && changes.isCurrentApplied
      requires remote.remotePosition == Behind
      requires s <= changes.Index() && remote.remote == NodeAt(changes.list.order, s - 1)
      modifies remote
      ensures Synced()
      ensures remote.uploads == old(remote.uploads) + [Forwards(changes.list.Contents()[s..changes.Index() + 1])]
      ensures remote.lastUploadedAt == now
    {
      if s > 0 {
        changes.list.PositionOf(changes.list.order[s - 1], s - 1);
      }
      remote.AheadBatchReachesCursor();
      remote.MaybeUpload(now);
    }

    /**
     * The upload after the current change is taken back: the remote, at
     * that change, receives its backward delta.
     */
    method UploadTakenBack(now: int)
      requires Valid() && changes.current.Some? && !changes.isCurrentApplied
      requires remote.remotePosition == AtCurrent && remote.remote == changes.current
      modifies remote
      ensures Synced()
      ensures remote.uploads == old(remote.uploads) + [[changes.list.Contents()[changes.Index()].backward]]
      ensures remote.lastUploadedAt == now
    {
      remote.AtCurrentBatchReachesCursor();
      remote.MaybeUpload(now);
    }

    /**
     * `undo`: with an applied current change, takes it back; with an
     * unapplied one, first steps one node back. Returns false when there is
     * nothing to undo; a throwing delta leaves the flag and the remote as
     * they were.
     */
    method Undo(now: int) returns (r: Result<bool>)
      requires Synced()
      modifies changes, remote, world
      ensures old(changes.UndoTarget()).None? ==>
        && r == Ok(false) && changes.current == old(changes.current)
        && changes.isCurrentApplied == old(changes.isCurrentApplied)
        && remote.remote == old(remote.remote) && remote.remotePosition == old(remote.remotePosition)
        && remote.uploads == old(remote.uploads) && world.points == old(world.points)
      ensures old(changes.UndoTarget()).Some? ==> var t := old(changes.UndoTarget()).value;
        var c := changes.list.Contents()[t];
        && changes.current == Some(changes.list.order[t])
        && world.points == ApplyItems(old(world.points), c.backward.data).0
        && (r.Ok? <==> ApplyItems(old(world.points), c.backward.data).1.None?)
        && (r.Ok? ==> r.value && !changes.isCurrentApplied && Synced()
                      && remote.uploads == old(remote.uploads) + [[c.backward]] && remote.lastUploadedAt == now)
        && (r.Err? ==> changes.isCurrentApplied == old(changes.isCurrentApplied) && remote.uploads == old(remote.uploads))
    {
      if changes.current.None? {
        return Ok(false);
      }
      if !changes.isCurrentApplied {
        var previous := changes.Previous();
        if previous.None? {
          return Ok(false);
        }
        remote.BeforeMovingCurrentBack();
        changes.current := previous;
        remote.AfterMovingCurrent();
      }
      r := UndoCurrent(now);
    }

    /**
     * `redo`: the mirror image of `undo`. With an unapplied current change,
     * makes it again; with an applied one, first steps one node forward.
     * Returns false at the end of the list.
     */
    method Redo(now: int) returns (r: Result<bool>)
      requires Synced()
      modifies changes, remote, world
      ensures old(changes.RedoTarget()).None? ==>
        && r == Ok(false) && changes.current == old(changes.current)
        && changes.isCurrentApplied == old(changes.isCurrentApplied)
        && remote.remote == old(remote.remote) && remote.remotePosition == old(remote.remotePosition)
        && remote.uploads == old(remote.uploads) && world.points == old(world.points)
      ensures old(changes.RedoTarget()).Some? ==> var t := old(changes.RedoTarget()).value;
        var c := changes.list.Contents()[t];
        && changes.current == Some(changes.list.order[t])
        && world.points == ApplyItems(old(world.points), c.forward.data).0
        && (r.Ok? <==> ApplyItems(old(world.points), c.forward.data).1.None?)
        && (r.Ok? ==> r.value && changes.isCurrentApplied && Synced()
                      && remote.uploads == old(remote.uploads) + [[c.forward]] && remote.lastUploadedAt == now)
        && (r.Err? ==> changes.isCurrentApplied == old(changes.isCurrentApplied) && remote.uploads == old(remote.uploads))
    {
      if changes.current.None? {
        return Ok(false);
      }
      if changes.isCurrentApplied {
        var next := changes.Next();
        if next.None? {
          return Ok(false);
        }
        ghost var i := changes.Index();
        remote.BeforeMovingCurrentForward();
        changes.current := next;
        remote.AfterMovingCurrent();
        changes.list.PositionOf(changes.list.order[i + 1], i + 1);
      }
      r := RedoCurrent(now);
    }

    /**
     * `removeUndoneChanges`, corrected: the unapplied current node's
     * predecessor is read before the node is removed, and the list is
     * cleared when no current node is left, so every undone change goes.
     */
    method RemoveUndoneChanges()
      requires changes.Valid()
      modifies changes, changes.list
      ensures changes.Valid() && changes.list.Valid() && changes.isCurrentApplied == old(changes.isCurrentApplied)
      ensures changes.list.order == old(changes.list.order)[..old(changes.Applied())]
      ensures changes.current == NodeAt(changes.list.order, |changes.list.order| - 1)
      ensures changes.list.values == old(changes.list.values) && changes.list.nextFree == old(changes.list.nextFree)
    {
      if changes.current.Some? {
        ghost var o, k := changes.list.order, changes.Applied();
        if !changes.isCurrentApplied {
          DropUndoneCurrent();
        }
        assert changes.current.Some? ==> IndexOf(changes.list.order, changes.current.value) + 1 == k;
        assert changes.list.order[..k] == o[..k];
        TruncateAfterCurrent();
      }
    }

    /** Clears the list when there is no current node, and otherwise removes every node after it. */
    method TruncateAfterCurrent()
      requires changes.list.Linked() && (changes.current.Some? ==> changes.current.value in changes.list.order)
      modifies changes.list
      ensures changes.list.Valid() && changes.current == NodeAt(changes.list.order, |changes.list.order| - 1)
      ensures changes.list.order == old(changes.list.order)[..if changes.current.None? then 0 else IndexOf(old(changes.list.order), changes.current.value) + 1]
      ensures changes.list.values == old(changes.list.values) && changes.list.nextFree == old(changes.list.nextFree)
    {
      if changes.current.None? {
        changes.list.Clear();
      } else {
        var _ := changes.list.RemoveAfter(changes.current.value);
      }
    }

    /**
     * `removeUndoneChanges` as written: `previous` is read after the removal
     * has cleared the node's own links, so it is null, `removeAfter` is
     * skipped, and the undone changes after the removed node stay; the
     * list's `tail` is wherever the removal left it.
     */
    method RemoveUndoneChangesAsWritten()
      requires changes.Valid()
      modifies changes, changes.list
      ensures changes.list.Linked() && changes.isCurrentApplied == old(changes.isCurrentApplied)
      ensures var k, o, c := old(changes.Applied()), old(changes.list.order), old(changes.list.Contents());
        var pruned := old(changes.current.None? || changes.isCurrentApplied);
        && changes.list.order == o[..k] + (if pruned then [] else o[k + 1..])
        && changes.list.Contents() == c[..k] + (if pruned then [] else c[k + 1..])
        && changes.current == (if pruned then NodeAt(changes.list.order, k - 1) else None)
        && (pruned ==> changes.list.Valid() && changes.list.TailCount() == k)
        && (!pruned ==> changes.list.tail == TailAfterRemove(o, old(changes.list.tail), k))
        && (!pruned ==> changes.list.TailCount() == CountAfterRemove(old(changes.list.TailCount()), k, |o|))
      ensures changes.list.values == old(changes.list.values) && changes.list.nextFree == old(changes.list.nextFree)
    {
      if changes.current.Some? {
        if !changes.isCurrentApplied {
          DropUndoneCurrentAsWritten();
        }
        if changes.current.Some? {
          ghost var k, o, c := changes.Applied(), changes.list.order, changes.list.Contents();
          var _ := changes.list.RemoveAfter(changes.current.value);
          assert changes.list.order == o[..k] + [];
          assert changes.list.Contents() == c[..k] + [];
          changes.list.TailCountOfValid();
        }
      }
    }

    /** Unlinks the unapplied current node, then reads its (now null) predecessor. */
    method DropUndoneCurrentAsWritten()
      requires changes.Valid() && changes.current.Some? && !changes.isCurrentApplied
      modifies changes, changes.list
      ensures changes.list.Linked() && !changes.isCurrentApplied && changes.current == None
      ensures var i := old(changes.Index());
        && changes.list.order == old(changes.list.order)[..i] + old(changes.list.order)[i + 1..]
        && changes.list.Contents() == old(changes.list.Contents())[..i] + old(changes.list.Contents())[i + 1..]
        && changes.list.tail == TailAfterRemove(old(changes.list.order), old(changes.list.tail), i)
      ensures changes.list.TailCount() == CountAfterRemove(old(changes.list.TailCount()), old(changes.Index()), |old(changes.list.order)|)
      ensures changes.list.values == old(changes.list.values) && changes.list.nextFree == old(changes.list.nextFree)
    {
      ghost var o, k, tc := changes.list.order, changes.Index(), changes.list.TailCount();
      changes.list.PositionOf(o[k], k);
      changes.list.Remove(changes.current.value);
      changes.current := Get(changes.list.prev, changes.current.value);
      changes.list.TailCountAfterRemove(o, old(changes.list.tail), tc, k);
    }

    /**
     * `setCurrent` with the pruning and the list's `push` as written. An
     * unapplied current change goes, but the undone changes after it stay,
     * and the new change is put right after wherever the removal left the
     * list's `tail`, which need not be the end. The batch uploaded replays
     * the kept changes from the remote node up to the new one.
     */
    method SetCurrentAsWritten(change: Change, now: int)
      requires Synced()
      requires changes.current.Some? && !changes.isCurrentApplied ==> changes.list.TailCount() >= changes.Applied()
      modifies changes, changes.list, remote
      ensures Synced() && changes.current.Some? && changes.isCurrentApplied
      ensures var c, k := old(changes.list.Contents()), old(changes.Applied());
        var kept := c[..k] + (if old(changes.current.None? || changes.isCurrentApplied) then [] else c[k + 1..]);
        var p := changes.Index();
        && k <= p <= |kept|
        && changes.list.Contents() == kept[..p] + [change] + kept[p..]
        && remote.uploads == old(remote.uploads) + [Forwards(kept[k..p] + [change])]
      ensures changes.Index() ==
        if old(changes.current.None? || changes.isCurrentApplied) then old(changes.Applied())
        else CountAfterRemove(old(changes.list.TailCount()), old(changes.Applied()), |old(changes.list.order)|)
      ensures remote.lastUploadedAt == now
    {
      ghost var k: int, o := changes.Applied(), changes.list.order;
      assert remote.remote == NodeAt(o, k - 1);
      RemoveUndoneChangesAsWritten();
      ghost var o' := changes.list.order;
      assert remote.remote == NodeAt(o', k - 1) by {
        assert k > 0 ==> o'[k - 1] == o[k - 1];
      }
      PushAndUpload(change, now, k);
    }

    /** Unlinks the unapplied current node and makes its predecessor, read first, current. */
    method DropUndoneCurrent()
      requires changes.Valid() && changes.current.Some? && !changes.isCurrentApplied
      modifies changes, changes.list
      ensures changes.list.Linked() && !changes.isCurrentApplied
      ensures var i := old(changes.Index());
        && changes.list.order == old(changes.list.order)[..i] + old(changes.list.order)[i + 1..]
        && changes.current == NodeAt(old(changes.list.order), i - 1)
        && (i > 0 ==> IndexOf(changes.list.order, changes.current.value) == i - 1)
      ensures changes.list.values == old(changes.list.values) && changes.list.nextFree == old(changes.list.nextFree)
    {
      ghost var i, o := changes.Index(), changes.list.order;
      var previous := changes.Previous();
      changes.list.Remove(changes.current.value);
      changes.current := previous;
      if i > 0 {
        assert changes.list.order[i - 1] == o[i - 1];
        changes.list.PositionOf(o[i - 1], i - 1);
      }
    }

    /**
     * `push`: the list's `push`, as written, puts the change right after the
     * list's `tail`, which it does not move, and the change becomes the
     * applied current node.
     */
    method Push(change: Change)
      requires changes.list.Linked()
      modifies changes, changes.list
      ensures changes.Valid() && changes.current.Some? && changes.isCurrentApplied
      ensures var p := old(changes.list.TailCount());
        && changes.Index() == p
        && changes.list.order == old(changes.list.order)[..p] + [changes.current.value] + old(changes.list.order)[p..]
        && changes.list.Contents() == old(changes.list.Contents())[..p] + [change] + old(changes.list.Contents())[p..]
      ensures changes.list.tail == if old(changes.list.order) == [] then changes.current else old(changes.list.tail)
      ensures old(changes.list.tail) == if changes.Index() == 0 then None else Some(changes.list.order[changes.Index() - 1])
    {
      ghost var p := changes.list.TailCount();
      var h := changes.list.PushAsWritten(change);
      changes.current := Some(h);
      changes.isCurrentApplied := true;
      changes.list.PositionOf(h, p);
    }

    /**
     * `undoCurrent`, from the state `undo` reaches it in when the remote is
     * in sync (the remote node is the current one): a successful undo
     * clears the flag and uploads the change's backward delta.
     */
    method UndoCurrent(now: int) returns (r: Result<bool>)
      requires Valid() && changes.current.Some?
      requires remote.remote == changes.current && remote.remotePosition == AtCurrent
      modifies changes, remote, world
      ensures changes.current == old(changes.current)
      ensures var c := changes.list.Contents()[changes.Index()];
        && world.points == ApplyItems(old(world.points), c.backward.data).0
        && (r.Ok? <==> ApplyItems(old(world.points), c.backward.data).1.None?)
        && (r.Ok? ==> r.value && !changes.isCurrentApplied && Synced()
                      && remote.uploads == old(remote.uploads) + [[c.backward]] && remote.lastUploadedAt == now)
        && (r.Err? ==> changes.isCurrentApplied == old(changes.isCurrentApplied)
                       && remote.remote == old(remote.remote) && remote.remotePosition == old(remote.remotePosition)
                       && remote.uploads == old(remote.uploads))
    {
      var change := changes.list.values[changes.current.value];
      var ok := change.Undo(world);
      if ok.Err? {
        return Err(ok.message);
      }
      if ok.value {
        changes.isCurrentApplied := false;
        UploadTakenBack(now);
      }
      r := Ok(ok.value);
    }

    /**
     * `redoCurrent`, from the state `redo` reaches it in when the remote is
     * in sync (the remote is behind, at the node before the current one):
     * a successful redo sets the flag and uploads the change's forward delta.
     */
    method RedoCurrent(now: int) returns (r: Result<bool>)
      requires Valid() && changes.current.Some?
      requires remote.remote == NodeAt(changes.list.order, changes.Index() - 1) && remote.remotePosition == Behind
      modifies changes, remote, world
      ensures changes.current == old(changes.current)
      ensures var c := changes.list.Contents()[changes.Index()];
        && world.points == ApplyItems(old(world.points), c.forward.data).0
        && (r.Ok? <==> ApplyItems(old(world.points), c.forward.data).1.None?)
        && (r.Ok? ==> r.value && changes.isCurrentApplied && Synced()
                      && remote.uploads == old(remote.uploads) + [[c.forward]] && remote.lastUploadedAt == now)
        && (r.Err? ==> changes.isCurrentApplied == old(changes.isCurrentApplied)
                       && remote.remote == old(remote.remote) && remote.remotePosition == old(remote.remotePosition)
                       && remote.uploads == old(remote.uploads))
    {
      var change := changes.list.values[changes.current.value];
      var ok := change.Redo(world);
      if ok.Err? {
        return Err(ok.message);
      }
      if ok.value {
        changes.isCurrentApplied := true;
        ghost var i := changes.Index();
        assert changes.list.Contents()[i..i + 1] == [change];
        assert Forwards([change]) == [change.forward];
        UploadMade(now, i);
      }
      r := Ok(ok.value);
    }
  }

  /** Three changes on a new manager: each one is uploaded as it is made. */
  method RecordThree(m: ChangesManager, c1: Change, c2: Change, c3: Change, now: int)
    requires m.Synced() && m.changes.list.order == [] && m.remote.uploads == []
    modifies m.changes, m.changes.list, m.remote
    ensures m.Synced() && m.changes.list.Contents() == [c1, c2, c3] && m.changes.Applied() == 3
    ensures m.changes.list.tail == Some(m.changes.list.order[1])
    ensures m.remote.uploads == [[c1.forward], [c2.forward], [c3.forward]]
  {
    m.SetCurrent(c1, now);
    m.SetCurrent(c2, now);
    m.SetCurrent(c3, now);
  }

  /** Undoes the last two of three applied changes whose undo moves nothing. */
  method UndoTwice(m: ChangesManager, c1: Change, c2: Change, c3: Change, now: int)
    requires m.Synced() && m.changes.list.Contents() == [c1, c2, c3] && m.changes.Applied() == 3
    requires c2.backward.data == [] && c3.backward.data == []
    modifies m.changes, m.remote, m.world
    ensures m.Synced() && m.changes.list.Contents() == [c1, c2, c3]
    ensures m.changes.Applied() == 1 && m.changes.current == Some(m.changes.list.order[1])
    ensures m.changes.list.order == old(m.changes.list.order) && m.changes.list.tail == old(m.changes.list.tail)
    ensures m.remote.uploads == old(m.remote.uploads) + [[c3.backward], [c2.backward]]
  {
    var _ := m.Undo(now);
    var _ := m.Undo(now);
  }

  /** A new manager holding three changes whose deltas move nothing. */
  method ThreeRecorded(now: int) returns (m: ChangesManager, c1: Change, c2: Change, c3: Change)
    ensures fresh(m) && fresh(m.changes) && fresh(m.changes.list) && fresh(m.remote) && fresh(m.world)
    ensures m.Synced() && m.changes.list.Contents() == [c1, c2, c3] && m.changes.Applied() == 3
    ensures m.changes.list.tail == Some(m.changes.list.order[1])
    ensures m.remote.uploads == [[c1.forward], [c2.forward], [c3.forward]]
    ensures c2.backward.data == [] && c3.backward.data == [] && c3.forward.data == []
  {
    var world := new EditorWorld(map[]);
    m := new ChangesManager(world);
    c1 := History.EmptyChange();
    c2 := History.EmptyChange();
    c3 := History.EmptyChange();
    RecordThree(m, c1, c2, c3, now);
  }

  /** A new manager after three changes and two undos: `c2` is current and undone. */
  method TwoUndone(now: int) returns (m: ChangesManager, c1: Change, c2: Change, c3: Change)
    ensures fresh(m) && fresh(m.changes) && fresh(m.changes.list) && fresh(m.remote) && fresh(m.world)
    ensures m.Synced() && m.changes.list.Contents() == [c1, c2, c3]
    ensures m.changes.Applied() == 1 && !m.changes.isCurrentApplied
    ensures m.changes.current == Some(m.changes.list.order[1]) && m.changes.list.tail == m.changes.current
    ensures m.remote.uploads == [[c1.forward], [c2.forward], [c3.forward], [c3.backward], [c2.backward]]
    ensures c3.forward.data == []
  {
    m, c1, c2, c3 := ThreeRecorded(now);
    UndoTwice(m, c1, c2, c3, now);
  }

  /**
   * Three changes, two undos, then a fourth change: the undone changes are
   * pruned, leaving `[c1, c4]`, and the remote has received one delta per
   * step.
   */
  method PruneOnNewChange(now: int) returns (vs: seq<Change>, uploads: seq<seq<SetPointPositions>>,
                                             c1: Change, c2: Change, c3: Change, c4: Change)
    ensures vs == [c1, c4]
    ensures uploads == [[c1.forward], [c2.forward], [c3.forward], [c3.backward], [c2.backward], [c4.forward]]
  {
    var m;
    m, c1, c2, c3 := TwoUndone(now);
    c4 := History.EmptyChange();
    m.SetCurrent(c4, now);
    vs := m.changes.list.Values();
    uploads := m.remote.uploads;
  }

  /**
   * The same steps with the pruning and `push` as written: `c3` survives,
   * the list's `tail` had stayed on `c2`, so removing `c2` moves it back to
   * `c1`, and `c4` goes in between, giving `[c1, c4, c3]`; only `c4`'s
   * forward delta is uploaded.
   */
  method NewChangeAfterTwoUndosAsWritten(now: int) returns (m: ChangesManager, c1: Change, c3: Change, c4: Change)
    ensures fresh(m) && fresh(m.changes) && fresh(m.changes.list) && fresh(m.remote) && fresh(m.world)
    ensures m.Synced() && m.changes.list.Contents() == [c1, c4, c3] && m.changes.Applied() == 2
    ensures |m.remote.uploads| > 0 && m.remote.uploads[|m.remote.uploads| - 1] == [c4.forward]
    ensures c3.forward.data == []
  {
    var c2;
    m, c1, c2, c3 := TwoUndone(now);
    c4 := History.EmptyChange();
    m.SetCurrentAsWritten(c4, now);
  }

  /**
   * After the new change, `c3` is left after it as a redo target: a redo
   * applies it again and uploads its forward delta once more.
   */
  method PruneOnNewChangeAsWritten(now: int)
    returns (vs: seq<Change>, last: seq<SetPointPositions>, redone: seq<SetPointPositions>,
             c1: Change, c3: Change, c4: Change)
    ensures vs == [c1, c4, c3]
    ensures last == [c4.forward]
    ensures redone == [c3.forward]
  {
    var m;
    m, c1, c3, c4 := NewChangeAfterTwoUndosAsWritten(now);
    vs := m.changes.list.Values();
    last := m.remote.uploads[|m.remote.uploads| - 1];
    redone := RedoNext(m, c3, now);
  }

  /** Redoes the change after the applied current one, whose forward delta moves nothing. */
  method RedoNext(m: ChangesManager, c: Change, now: int) returns (uploaded: seq<SetPointPositions>)
    requires m.Synced() && m.changes.Applied() < |m.changes.list.order|
    requires m.changes.list.Contents()[m.changes.Applied()] == c && c.forward.data == []
    modifies m.changes, m.remote, m.world
    ensures m.Synced() && m.changes.current == Some(m.changes.list.order[old(m.changes.Applied())])
    ensures uploaded == [c.forward]
  {
    var _ := m.Redo(now);
    uploaded := m.remote.uploads[|m.remote.uploads| - 1];
  }
}
