// The local undo/redo history: a cursor `{current, isCurrentApplied}` over a
// doubly linked list of changes.

module History {
  import opened Wrappers
  import opened LinkedList
  import opened Deltas

  class ChangeHistory {
    const changes: DoublyLinkedList<Change>
    var current: Option<Handle>
    var isCurrentApplied: bool

    /**
     * The cursor invariant: the list is linked, there is a current node
     * exactly when the list is non-empty, and it is one of its nodes. The
     * list's `tail` may lag behind its last node, since `push` does not
     * move it.
     */
    ghost predicate Valid()
      reads this, changes
    {
      && changes.Linked()
      && (current.None? <==> changes.order == [])
      && (current.Some? ==> current.value in changes.order)
      && (current.None? ==> !isCurrentApplied)
    }

    /** The position of the current node in the list. */
    ghost function Index(): (i: nat)
      reads this, changes
      requires Valid() && current.Some?
      ensures i < |changes.order| && changes.order[i] == current.value
    {
      IndexOf(changes.order, current.value)
    }

    /**
     * How many changes stay when the undone ones are pruned: those up to
     * and including the current node if it is applied, before it if not.
     */
    ghost function Kept(): (n: nat)
      reads this, changes
      requires Valid()
      ensures n <= |changes.order|
    {
      if current.None? then 0 else if isCurrentApplied then Index() + 1 else Index()
    }

    /** The position of the change `undo` takes back, if any. */
    ghost function UndoTarget(): (t: Option<nat>)
      reads this, changes
      requires Valid()
      ensures t.Some? ==> t.value < |changes.order|
    {
      if current.None? then None
      else if isCurrentApplied then Some(Index())
      else if Index() == 0 then None
      else Some(Index() - 1)
    }

    /** The position of the change `redo` makes again, if any. */
    ghost function RedoTarget(): (t: Option<nat>)
      reads this, changes
      requires Valid()
      ensures t.Some? ==> t.value < |changes.order|
    {
      if current.None? then None
      else if !isCurrentApplied then Some(Index())
      else if Index() == |changes.order| - 1 then None
      else Some(Index() + 1)
    }

    constructor ()
      ensures Valid() && fresh(changes)
      ensures changes.Contents() == [] && current == None && !isCurrentApplied
    {
      changes := new DoublyLinkedList<Change>();
      current := None;
      isCurrentApplied := false;
    }

    /** The node before the current one (`current?.previous ?? null`). */
    function Previous(): (p: Option<Handle>)
      reads this, changes
      requires Valid()
      ensures current.None? ==> p.None?
      ensures current.Some? ==> p == if Index() == 0 then None else Some(changes.order[Index() - 1])
    {
      if current.None? then None
      else
        var i := Index();
        assert i > 0 ==> Get(changes.prev, changes.order[i]) == Some(changes.order[i - 1]);
        Get(changes.prev, current.value)
    }

    /** The node after the current one (`current?.next ?? null`). */
    function Next(): (n: Option<Handle>)
      reads this, changes
      requires Valid()
      ensures current.None? ==> n.None?
      ensures current.Some? ==> n == if Index() == |changes.order| - 1 then None else Some(changes.order[Index() + 1])
    {
      if current.None? then None
      else
        var i := Index();
        assert i < |changes.order| - 1 ==> Get(changes.next, changes.order[i]) == Some(changes.order[i + 1]);
        Get(changes.next, current.value)
    }

    /**
     * `setCurrent`: drops the undone changes, appends `change` and makes it
     * the applied current change.
     */
    method SetCurrent(change: Change)
      requires Valid()
      modifies this, changes
      ensures Valid()
      ensures changes.Contents() == old(changes.Contents())[..old(Kept())] + [change]
      ensures current == Some(changes.order[|changes.order| - 1]) && isCurrentApplied
    {
      ghost var before, k := changes.Contents(), Kept();
      PruneUndoneChanges();
      assert changes.Contents() == before[..k] by {
        forall j | 0 <= j < k ensures changes.Contents()[j] == before[j] {
        }
      }
      Push(change);
    }

    /**
     * `undo`: with an applied current change, takes that change back; with
     * an unapplied one, first steps one node back. Returns null when there
     * is nothing to undo. A throwing delta leaves the step taken and the
     * applied flag as it was.
     */
    method Undo(world: EditorWorld) returns (r: Result<Option<Change>>)
      requires Valid()
      modifies this, world
      ensures Valid() && changes.order == old(changes.order) && changes.Contents() == old(changes.Contents())
      ensures old(UndoTarget()).None? ==>
        r == Ok(None) && current == old(current) && isCurrentApplied == old(isCurrentApplied)
        && world.points == old(world.points)
      ensures old(UndoTarget()).Some? ==> var t := old(UndoTarget()).value;
        var c := changes.Contents()[t];
        && current == Some(changes.order[t])
        && world.points == ApplyItems(old(world.points), c.backward.data).0
        && (r.Ok? <==> ApplyItems(old(world.points), c.backward.data).1.None?)
        && (r.Ok? ==> r.value == Some(c) && !isCurrentApplied)
        && (r.Err? ==> isCurrentApplied == old(isCurrentApplied))
    {
      if current.None? {
        return Ok(None);
      }
      if !isCurrentApplied {
        var p := Previous();
        if p.None? {
          return Ok(None);
        }
        current := p;
      }
      r := UndoCurrent(world);
    }

    /**
     * `redo`: the mirror image of `undo`. With an unapplied current change,
     * makes it again; with an applied one, first steps one node forward.
     * Returns null at the end of the list.
     */
    method Redo(world: EditorWorld) returns (r: Result<Option<Change>>)
      requires Valid()
      modifies this, world
      ensures Valid() && changes.order == old(changes.order) && changes.Contents() == old(changes.Contents())
      ensures old(RedoTarget()).None? ==>
        r == Ok(None) && current == old(current) && isCurrentApplied == old(isCurrentApplied)
        && world.points == old(world.points)
      ensures old(RedoTarget()).Some? ==> var t := old(RedoTarget()).value;
        var c := changes.Contents()[t];
        && current == Some(changes.order[t])
        && world.points == ApplyItems(old(world.points), c.forward.data).0
        && (r.Ok? <==> ApplyItems(old(world.points), c.forward.data).1.None?)
        && (r.Ok? ==> r.value == Some(c) && isCurrentApplied)
        && (r.Err? ==> isCurrentApplied == old(isCurrentApplied))
    {
      if current.None? {
        return Ok(None);
      }
      if isCurrentApplied {
        var n := Next();
        if n.None? {
          return Ok(None);
        }
        current := n;
      }
      r := RedoCurrent(world);
    }

    /**
     * `pruneUndoneChanges`: an unapplied current node is removed and its
     * predecessor becomes current; then everything after the current node
     * goes, or the whole list when no current node is left.
     */
    method PruneUndoneChanges()
      requires Valid()
      modifies this, changes
      ensures Valid() && changes.Valid() && isCurrentApplied == old(isCurrentApplied)
      ensures changes.order == old(changes.order)[..old(Kept())]
      ensures current == if changes.order == [] then None else Some(changes.order[|changes.order| - 1])
      ensures changes.values == old(changes.values) && changes.nextFree == old(changes.nextFree)
    {
      if current.Some? {
        ghost var o, k := changes.order, Kept();
        if !isCurrentApplied {
          DropUndoneCurrent();
          assert k > 0 ==> changes.order[..k] == o[..k];
        }
        assert current.Some? ==> IndexOf(changes.order, current.value) + 1 == k;
        assert changes.order[..k] == o[..k];
        TruncateAfterCurrent();
      }
    }

    /** Clears the list when there is no current node, and otherwise removes every node after it. */
    method TruncateAfterCurrent()
      requires changes.Linked() && (current.Some? ==> current.value in changes.order)
      modifies changes
      ensures changes.Valid() && current == Last(changes.order)
      ensures changes.order == old(changes.order)[..if current.None? then 0 else IndexOf(old(changes.order), current.value) + 1]
      ensures changes.values == old(changes.values) && changes.nextFree == old(changes.nextFree)
    {
      if current.None? {
        changes.Clear();
      } else {
        var _ := changes.RemoveAfter(current.value);
      }
    }

    /**
     * The first half of pruning: unlinks the unapplied current node and
     * makes its predecessor (or nothing) current.
     */
    method DropUndoneCurrent()
      requires Valid() && current.Some? && !isCurrentApplied
      modifies this, changes
      ensures changes.Linked() && !isCurrentApplied
      ensures var i := old(Index());
        && changes.order == old(changes.order)[..i] + old(changes.order)[i + 1..]
        && current == (if i == 0 then None else Some(old(changes.order)[i - 1]))
        && (i > 0 ==> IndexOf(changes.order, current.value) == i - 1)
      ensures changes.values == old(changes.values) && changes.nextFree == old(changes.nextFree)
    {
      ghost var i, o := Index(), changes.order;
      var previous := Previous();
      changes.Remove(current.value);
      current := previous;
      if i > 0 {
        assert changes.order[i - 1] == o[i - 1];
        changes.PositionOf(o[i - 1], i - 1);
      }
    }

    /**
     * `push`: the list's `push`, as written, makes the change the applied
     * current node. Pruning has just made the tail the last node, so the
     * change is appended.
     */
    method Push(change: Change)
      requires changes.Valid()
      modifies this, changes
      ensures Valid() && current.Some?
      ensures changes.order == old(changes.order) + [current.value]
      ensures changes.Contents() == old(changes.Contents()) + [change]
      ensures isCurrentApplied
    {
      var h := changes.PushAsWritten(change);
      current := Some(h);
      isCurrentApplied := true;
    }

    /**
     * `undoCurrent`: takes back the current change; only a change that
     * reports success clears the applied flag.
     */
    method UndoCurrent(world: EditorWorld) returns (r: Result<Option<Change>>)
      requires Valid() && current.Some?
      modifies this, world
      ensures Valid() && current == old(current)
      ensures var c := changes.Contents()[Index()];
        && world.points == ApplyItems(old(world.points), c.backward.data).0
        && (r.Ok? <==> ApplyItems(old(world.points), c.backward.data).1.None?)
        && (r.Ok? ==> r.value == Some(c) && !isCurrentApplied)
        && (r.Err? ==> isCurrentApplied == old(isCurrentApplied))
    {
      var change := changes.values[current.value];
      var ok := change.Undo(world);
      if ok.Err? {
        return Err(ok.message);
      }
      isCurrentApplied := if ok.value then false else isCurrentApplied;
      r := Ok(if ok.value then Some(change) else None);
    }

    /**
     * `redoCurrent`: makes the current change again; only a change that
     * reports success sets the applied flag.
     */
    method RedoCurrent(world: EditorWorld) returns (r: Result<Option<Change>>)
      requires Valid() && current.Some?
      modifies this, world
      ensures Valid() && current == old(current)
      ensures var c := changes.Contents()[Index()];
        && world.points == ApplyItems(old(world.points), c.forward.data).0
        && (r.Ok? <==> ApplyItems(old(world.points), c.forward.data).1.None?)
        && (r.Ok? ==> r.value == Some(c) && isCurrentApplied)
        && (r.Err? ==> isCurrentApplied == old(isCurrentApplied))
    {
      var change := changes.values[current.value];
      var ok := change.Redo(world);
      if ok.Err? {
        return Err(ok.message);
      }
      isCurrentApplied := if ok.value then true else isCurrentApplied;
      r := Ok(if ok.value then Some(change) else None);
    }
  }
  /** A change whose deltas move no point, so applying it always succeeds. */
  method EmptyChange() returns (c: Change)
    ensures fresh(c) && c.forward.data == [] && c.backward.data == []
  {
    c := MakeSetPointPositions(BaseDeltaData("", 0, "World.Points.positions.SET"), []);
  }

  /** Records three changes on a new history. */
  method RecordThree(history: ChangeHistory, c0: Change, c1: Change, c2: Change)
    requires history.Valid() && history.changes.order == []
    modifies history, history.changes
    ensures history.Valid() && history.changes.Contents() == [c0, c1, c2]
    ensures history.Index() == 2 && history.isCurrentApplied
  {
    history.SetCurrent(c0);
    history.SetCurrent(c1);
    history.SetCurrent(c2);
  }

  /** Undoes twice from the applied last of three changes whose undo moves nothing. */
  method UndoTwice(history: ChangeHistory, world: EditorWorld, c0: Change, c1: Change, c2: Change)
    requires history.Valid() && history.changes.Contents() == [c0, c1, c2]
    requires history.Index() == 2 && history.isCurrentApplied
    requires c1.backward.data == [] && c2.backward.data == []
    modifies history, world
    ensures history.Valid() && history.changes.Contents() == [c0, c1, c2]
    ensures history.Index() == 1 && !history.isCurrentApplied
  {
    var _ := history.Undo(world);
    assert history.Index() == 2 && !history.isCurrentApplied;
    var _ := history.Undo(world);
  }

  /** A new history holding `[c0, c1, c2]` after two undos: `c1` is current and undone. */
  method TwoUndone() returns (history: ChangeHistory, world: EditorWorld, c0: Change, c1: Change, c2: Change)
    ensures fresh(history) && fresh(history.changes) && fresh(world)
    ensures history.Valid() && history.changes.Contents() == [c0, c1, c2]
    ensures history.Index() == 1 && !history.isCurrentApplied
    ensures c1.forward.data == []
  {
    world := new EditorWorld(map[]);
    history := new ChangeHistory();
    c0 := EmptyChange();
    c1 := EmptyChange();
    c2 := EmptyChange();
    RecordThree(history, c0, c1, c2);
    UndoTwice(history, world, c0, c1, c2);
  }

  /**
   * Three changes, two undos, then a new change: the undone current change
   * and everything after it are pruned, leaving `[c0, n]`.
   */
  method SetCurrentAfterTwoUndos() returns (vs: seq<Change>, c0: Change, n: Change)
    ensures vs == [c0, n]
  {
    var history, world, c1, c2;
    history, world, c0, c1, c2 := TwoUndone();
    n := EmptyChange();
    history.SetCurrent(n);
    vs := history.changes.Values();
  }

  /**
   * Three changes, two undos and a redo, then a new change: only the node
   * after the applied current change is pruned, leaving `[c0, c1, n]`.
   */
  method SetCurrentAfterUndosAndRedo() returns (vs: seq<Change>, c0: Change, c1: Change, n: Change)
    ensures vs == [c0, c1, n]
  {
    var history, world, c2;
    history, world, c0, c1, c2 := TwoUndone();
    var _ := history.Redo(world);
    assert history.Index() == 1 && history.isCurrentApplied;
    n := EmptyChange();
    history.SetCurrent(n);
    vs := history.changes.Values();
  }

  /** On a new history both undo and redo return null. */
  method UndoRedoOnEmptyHistory() returns (u: Result<Option<Change>>, r: Result<Option<Change>>)
    ensures u == Ok(None) && r == Ok(None)
  {
    var world := new EditorWorld(map[]);
    var history := new ChangeHistory();
    u := history.Undo(world);
    r := history.Redo(world);
  }

  /** Records two changes on a new history; redo then has nothing to make again. */
  method RecordTwo(history: ChangeHistory, world: EditorWorld, c0: Change, c1: Change)
    returns (atTail: Result<Option<Change>>)
    requires history.Valid() && history.changes.order == []
    modifies history, history.changes, world
    ensures atTail == Ok(None)
    ensures history.Valid() && history.changes.Contents() == [c0, c1]
    ensures history.Index() == 1 && history.isCurrentApplied
  {
    history.SetCurrent(c0);
    history.SetCurrent(c1);
    assert history.Index() == 1;
    atTail := history.Redo(world);
  }

  /** Undoes both of two applied changes whose undo moves nothing. */
  method UndoTwo(history: ChangeHistory, world: EditorWorld, c0: Change, c1: Change)
    requires history.Valid() && history.changes.Contents() == [c0, c1]
    requires history.Index() == 1 && history.isCurrentApplied
    requires c0.backward.data == [] && c1.backward.data == []
    modifies history, world
    ensures history.Valid() && history.Index() == 0 && !history.isCurrentApplied
  {
    var _ := history.Undo(world);
    var _ := history.Undo(world);
  }

  /**
   * At the ends of the history: redo with the last change applied, and
   * undo with the first change undone, both return null.
   */
  method UndoRedoAtBoundaries() returns (atTail: Result<Option<Change>>, atHead: Result<Option<Change>>)
    ensures atTail == Ok(None) && atHead == Ok(None)
  {
    var world := new EditorWorld(map[]);
    var history := new ChangeHistory();
    var c0 := EmptyChange();
    var c1 := EmptyChange();
    atTail := RecordTwo(history, world, c0, c1);
    UndoTwo(history, world, c0, c1);
    atHead := history.Undo(world);
  }
}
