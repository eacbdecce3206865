// The cursor record shared by the changes manager and its synchroniser, and
// the synchroniser itself: it remembers which node the remote copy has
// reached and computes the batch of deltas that brings the remote copy to
// the local cursor.

module RemoteSync {
  import opened Wrappers
  import opened LinkedList
  import opened Deltas

  /** A batch is uploaded as soon as it holds more deltas than this. */
  const MAX_NEW_LOCAL_CHANGES := 0
  /** A batch is uploaded, even an empty one, once this many seconds have passed. */
  const MAX_SECONDS_SINCE_LAST_UPLOAD := 300

  /** Where the remote node stands relative to the local cursor. */
  datatype RemotePosition = Behind | AtCurrent | Ahead

  /** What `getDeltas` hands back: the batch and the bookkeeping to commit with it. */
  datatype DeltasResult = DeltasResult(deltas: seq<SetPointPositions>, newRemote: Option<Handle>, newRemotePosition: RemotePosition)

  /** The node at position `k` of a list order, or null outside it. */
  function NodeAt(order: seq<Handle>, k: int): (r: Option<Handle>)
    ensures r.Some? <==> 0 <= k < |order|
    ensures r.Some? ==> r.value == order[k]
  {
    if 0 <= k < |order| then Some(order[k]) else None
  }

  /** `changes.map(change => change.forward)` */
  function Forwards(cs: seq<Change>): (ds: seq<SetPointPositions>)
    ensures |ds| == |cs| && forall i :: 0 <= i < |cs| ==> ds[i] == cs[i].forward
  {
    seq(|cs|, i requires 0 <= i < |cs| => cs[i].forward)
  }

  /** `changes.map(change => change.backward)` */
  function Backwards(cs: seq<Change>): (ds: seq<SetPointPositions>)
    ensures |ds| == |cs| && forall i :: 0 <= i < |cs| ==> ds[i] == cs[i].backward
  {
    seq(|cs|, i requires 0 <= i < |cs| => cs[i].backward)
  }

  function Reversed<T>(s: seq<T>): (r: seq<T>)
    ensures |r| == |s| && forall k :: 0 <= k < |s| ==> r[k] == s[|s| - 1 - k]
  {
    seq(|s|, k requires 0 <= k < |s| => s[|s| - 1 - k])
  }

  /**
   * The record `{list, current, isCurrentApplied}` that the changes manager
   * writes and its synchroniser reads.
   */
  class ChangeManagerData {
    const list: DoublyLinkedList<Change>
    var current: Option<Handle>
    var isCurrentApplied: bool

    /**
     * The list is linked and `current` is one of its nodes, null only when
     * it is empty. The list's `tail` may lag behind its last node.
     */
    ghost predicate Valid()
      reads this, list
    {
      && list.Linked()
      && (current.None? <==> list.order == [])
      && (current.Some? ==> current.value in list.order)
      && (current.None? ==> !isCurrentApplied)
    }

    /** The position of the current node in the list. */
    ghost function Index(): (i: nat)
      reads this, list
      requires Valid() && current.Some?
      ensures i < |list.order| && list.order[i] == current.value
    {
      IndexOf(list.order, current.value)
    }

    /**
     * How many changes are applied locally: the changes up to and including
     * the current one if it is applied, before it if not.
     */
    ghost function Applied(): (n: nat)
      reads this, list
      requires Valid()
      ensures n <= |list.order|
      ensures current.Some? ==> n == if isCurrentApplied then Index() + 1 else Index()
    {
      if current.None? then 0 else if isCurrentApplied then Index() + 1 else Index()
    }

    /** The position of the change `undo` takes back, if any. */
    ghost function UndoTarget(): (t: Option<nat>)
      reads this, list
      requires Valid()
      ensures t == if Applied() == 0 then None else Some(Applied() - 1)
    {
      if current.None? then None
      else if isCurrentApplied then Some(Index())
      else if Index() == 0 then None
      else Some(Index() - 1)
    }

    /** The position of the change `redo` makes again, if any. */
    ghost function RedoTarget(): (t: Option<nat>)
      reads this, list
      requires Valid()
      ensures t == if Applied() == |list.order| then None else Some(Applied())
    {
      if current.None? then None
      else if !isCurrentApplied then Some(Index())
      else if Index() == |list.order| - 1 then None
      else Some(Index() + 1)
    }

    /** The record the changes manager starts with: an empty list and no current node. */
    constructor ()
      ensures Valid() && fresh(list)
      ensures list.Contents() == [] && list.values == map[] && list.nextFree == 0
      ensures current == None && !isCurrentApplied
    {
      list := new DoublyLinkedList<Change>();
      current := None;
      isCurrentApplied := false;
    }

    /** `current?.previous ?? null` */
    function Previous(): (p: Option<Handle>)
      reads this, list
      requires Valid()
      ensures p == if current.None? then None else NodeAt(list.order, Index() - 1)
    {
      if current.None? then None
      else
        var i := Index();
        assert i > 0 ==> Get(list.prev, list.order[i]) == Some(list.order[i - 1]);
        Get(list.prev, current.value)
    }

    /** `current?.next ?? null` */
    function Next(): (n: Option<Handle>)
      reads this, list
      requires Valid()
      ensures n == if current.None? then None else NodeAt(list.order, Index() + 1)
    {
      if current.None? then None
      else
        var i := Index();
        ChainStep(list.order, list.next, list.prev, i);
        Get(list.next, current.value)
    }
  }

  /**
   * The synchroniser. `remote` is the last node the remote copy has applied
   * (null when it has applied none), `uploads` records every batch handed
   * to the server, and the clock is an integer number of milliseconds.
   */
  class RemoteChangesManager {
    const changes: ChangeManagerData
    var remote: Option<Handle>
    var remotePosition: RemotePosition
    var lastUploadedAt: int
    var uploads: seq<seq<SetPointPositions>>

    /** The shared record is valid and the remote node, if any, is one of its nodes. */
    ghost predicate Valid()
      reads this, changes, changes.list
    {
      changes.Valid() && (remote.Some? ==> remote.value in changes.list.order)
    }

    /** How many nodes there are up to and including `h` (none for null). */
    ghost function CountTo(h: Option<Handle>): (n: nat)
      reads this, changes, changes.list
      requires changes.Valid() && (h.Some? ==> h.value in changes.list.order)
      ensures n <= |changes.list.order|
      ensures h == NodeAt(changes.list.order, n - 1)
    {
      if h.None? then 0 else IndexOf(changes.list.order, h.value) + 1
    }

    /** How many changes the remote copy has applied: those up to and including the remote node. */
    ghost function RemoteCount(): (n: nat)
      reads this, changes, changes.list
      requires Valid()
      ensures n <= |changes.list.order|
      ensures remote == NodeAt(changes.list.order, n - 1)
    {
      if remote.None? then 0 else IndexOf(changes.list.order, remote.value) + 1
    }

    /**
     * The remote copy has applied exactly the locally applied changes, and
     * the position says so: at the current node when it is applied (or
     * there is none), behind it when it is not.
     */
    ghost predicate Synced()
      reads this, changes, changes.list
    {
      && Valid()
      && RemoteCount() == changes.Applied()
      && remotePosition == if changes.isCurrentApplied || changes.current.None? then AtCurrent else Behind
    }

    constructor (changes: ChangeManagerData)
      ensures this.changes == changes
      ensures remote == None && remotePosition == AtCurrent && lastUploadedAt == 0 && uploads == []
    {
      this.changes := changes;
      remote := None;
      remotePosition := AtCurrent;
      lastUploadedAt := 0;
      uploads := [];
    }

    /** `beforeMovingCurrentBack`: a remote node at the cursor is about to be ahead of it. */
    method BeforeMovingCurrentBack()
      modifies this
      ensures remotePosition == if old(remote == changes.current) then Ahead else old(remotePosition)
      ensures remote == old(remote) && lastUploadedAt == old(lastUploadedAt) && uploads == old(uploads)
    {
      if remote == changes.current {
        remotePosition := Ahead;
      }
    }

    /** `beforeMovingCurrentForward`: a remote node at the cursor is about to be behind it. */
    method BeforeMovingCurrentForward()
      modifies this
      ensures remotePosition == if old(remote == changes.current) then Behind else old(remotePosition)
      ensures remote == old(remote) && lastUploadedAt == old(lastUploadedAt) && uploads == old(uploads)
    {
      if remote == changes.current {
        remotePosition := Behind;
      }
    }

    /** `afterMovingCurrent`: the cursor has arrived at the remote node. */
    method AfterMovingCurrent()
      modifies this
      ensures remotePosition == if old(remote == changes.current) then AtCurrent else old(remotePosition)
      ensures remote == old(remote) && lastUploadedAt == old(lastUploadedAt) && uploads == old(uploads)
    {
      if remote == changes.current {
        remotePosition := AtCurrent;
      }
    }

    /** `afterMovingCurrentForward`: after a new change the remote is behind, wherever it was. */
    method AfterMovingCurrentForward()
      modifies this
      ensures remotePosition == Behind
      ensures remote == old(remote) && lastUploadedAt == old(lastUploadedAt) && uploads == old(uploads)
    {
      remotePosition := Behind;
    }

    /**
     * `shouldUpload`: more new deltas than the threshold, or more than five
     * minutes since the last upload. The source divides milliseconds by
     * 1000 as a float; the comparison comes down to whole milliseconds.
     */
    function ShouldUpload(newLocalChangesCount: nat, now: int): (b: bool)
      reads this
      ensures b <==> newLocalChangesCount > 0 || now - lastUploadedAt > 300000
    {
      || newLocalChangesCount > MAX_NEW_LOCAL_CHANGES
      || (now - lastUploadedAt) as real / 1000.0 > MAX_SECONDS_SINCE_LAST_UPLOAD as real
    }

    // ---- The batch the remote copy needs, stated on list positions ----

    /**
     * The position where `getDeltasAhead` starts: the node after the remote
     * one, or the head when there is no remote node or it is the last one.
     */
    ghost function AheadStart(): (i: nat)
      reads this, changes, changes.list
      requires Valid()
      ensures i <= |changes.list.order|
    {
      if RemoteCount() == |changes.list.order| then 0 else RemoteCount()
    }

    /** Nothing to send when the start node is the current one and it is undone. */
    ghost predicate AheadIdle()
      reads this, changes, changes.list
      requires Valid()
    {
      changes.current == NodeAt(changes.list.order, AheadStart()) && !changes.isCurrentApplied
    }

    /** The forward walk reaches its end node (the source's non-null assertion and `getNext`'s demand). */
    ghost predicate AheadDefined()
      reads this, changes, changes.list
      requires Valid()
    {
      AheadStart() < |changes.list.order| && !AheadIdle() ==> AheadStart() < changes.Applied()
    }

    /**
     * Behind: the forward deltas of the changes applied locally but not
     * remotely, in list order; the remote then reaches the last applied node.
     */
    ghost function AheadBatch(): (r: DeltasResult)
      reads this, changes, changes.list
      requires Valid()
    {
      var f, l := AheadStart(), changes.Applied();
      if AheadIdle() then DeltasResult([], remote, remotePosition)
      else DeltasResult(if f < l then Forwards(changes.list.Contents()[f..l]) else [],
                        NodeAt(changes.list.order, l - 1), AtCurrent)
    }

    /**
     * Where `getDeltasBehind` starts, plus one: the position of the node
     * before the remote one, or of the list's `tail` when there is no remote
     * node or it is the head.
     */
    ghost function BehindStart(): (i: nat)
      reads this, changes, changes.list
      requires Valid()
      ensures i <= |changes.list.order|
    {
      if RemoteCount() <= 1 then changes.list.TailCount() else RemoteCount() - 1
    }

    /** The backward walk reaches the first locally unapplied node. */
    ghost predicate BehindDefined()
      reads this, changes, changes.list
      requires Valid()
    {
      BehindStart() > 0 ==> changes.Applied() < BehindStart()
    }

    /**
     * Ahead: the backward deltas from the node before the remote one back
     * to the first locally unapplied change, newest first; the remote then
     * reaches the node before that change.
     */
    ghost function BehindBatch(): (r: DeltasResult)
      reads this, changes, changes.list
      requires Valid()
    {
      var f, l, o := BehindStart(), changes.Applied(), changes.list.order;
      DeltasResult(if l < f then Backwards(Reversed(changes.list.Contents()[l..f])) else [],
                   if l < |o| then NodeAt(o, l - 1) else None,
                   if changes.isCurrentApplied then AtCurrent else Behind)
    }

    /** At the current node, which is undone: the remote node's backward delta. */
    ghost function AtCurrentBatch(): (r: DeltasResult)
      reads this, changes, changes.list
      requires Valid() && remote.Some?
    {
      DeltasResult([changes.list.Contents()[RemoteCount() - 1].backward], changes.Previous(), Behind)
    }

    /** The state admits the batch `getDeltas` computes. */
    ghost predicate PendingDefined()
      reads this, changes, changes.list
      requires Valid()
    {
      match remotePosition
      case Behind => AheadDefined()
      case Ahead => BehindDefined()
      case AtCurrent => !changes.isCurrentApplied ==> remote.Some?
    }

    /** The batch `getDeltas` computes, by position. */
    ghost function PendingBatch(): (r: DeltasResult)
      reads this, changes, changes.list
      requires Valid() && PendingDefined()
    {
      match remotePosition
      case Behind => AheadBatch()
      case Ahead => BehindBatch()
      case AtCurrent => if !changes.isCurrentApplied then AtCurrentBatch() else DeltasResult([], remote, AtCurrent)
    }

    /** In sync, `getDeltas` finds nothing to send and nothing to move. */
    lemma SyncedIsIdle()
      requires Synced() && changes.current.Some?
      ensures PendingDefined() && PendingBatch() == DeltasResult([], remote, remotePosition)
    {
      if remotePosition == Behind {
        assert changes.current == NodeAt(changes.list.order, changes.Index());
      }
    }

    /**
     * Unless there is nothing to send, the forward batch holds one delta
     * per change the remote copy lacks, and the new remote node is the
     * last applied one.
     */
    lemma AheadBatchReachesCursor()
      requires Valid() && AheadDefined() && !AheadIdle() && RemoteCount() <= changes.Applied()
      requires RemoteCount() < |changes.list.order|
      ensures |AheadBatch().deltas| == changes.Applied() - RemoteCount()
      ensures CountTo(AheadBatch().newRemote) == changes.Applied()
    {
      var l := changes.Applied();
      if l > 0 {
        changes.list.PositionOf(changes.list.order[l - 1], l - 1);
      }
    }

    /**
     * Behind with the remote node last and the current node applied, the
     * forward walk falls back on the head: the batch replays every applied
     * change from the first one, although the remote copy holds them all.
     */
    lemma AheadFallsBackToHead()
      requires Valid() && remote.Some? && RemoteCount() == |changes.list.order| && changes.isCurrentApplied
      ensures AheadStart() == 0 && AheadDefined()
      ensures AheadBatch().deltas == Forwards(changes.list.Contents()[..changes.Applied()])
      ensures AheadBatch().newRemote == NodeAt(changes.list.order, changes.Applied() - 1)
    {
    }

    /**
     * Ahead with the remote node at the head, the backward walk falls back
     * on the list's `tail`: the batch takes back the locally unapplied
     * changes up to the tail, newest first, the remote node's own change
     * included. With the tail last that is every unapplied change.
     */
    lemma BehindFallsBackToTail()
      requires Valid() && RemoteCount() == 1
      ensures BehindStart() == changes.list.TailCount()
      ensures BehindDefined() <==> changes.Applied() < changes.list.TailCount()
      ensures BehindDefined() ==>
        BehindBatch().deltas == Backwards(Reversed(changes.list.Contents()[changes.Applied()..changes.list.TailCount()]))
      ensures changes.list.Valid() ==> changes.list.TailCount() == |changes.list.order|
    {
      if changes.list.Valid() {
        changes.list.PositionOf(changes.list.tail.value, |changes.list.order| - 1);
      }
    }

    /**
     * With the remote node at an undone current node, the batch undoes
     * exactly that change and the new remote node is the last applied one.
     */
    lemma AtCurrentBatchReachesCursor()
      requires Valid() && remote.Some? && remote == changes.current && !changes.isCurrentApplied
      ensures AtCurrentBatch().deltas == [changes.list.Contents()[changes.Applied()].backward]
      ensures CountTo(AtCurrentBatch().newRemote) == changes.Applied()
    {
      var i := changes.Index();
      if i > 0 {
        changes.list.PositionOf(changes.list.order[i - 1], i - 1);
      }
    }

    // ---- The methods computing the batch by walking the list ----

    /** `getDeltasResult(overrides)` with no overrides: nothing to send, nothing to move. */
    function GetDeltasResult(): (r: DeltasResult)
      reads this
      ensures r.deltas == [] && r.newRemote == remote && r.newRemotePosition == remotePosition
    {
      DeltasResult([], remote, remotePosition)
    }

    /**
     * `remote?.next ?? list.head`: the node after the remote one, falling
     * back on the head both without a remote node and when the remote node
     * is the last one.
     */
    function AheadFrom(): (n: Option<Handle>)
      reads this, changes, changes.list
      requires Valid()
      ensures n == NodeAt(changes.list.order, AheadStart())
    {
      var after := if remote.Some? then Get(changes.list.next, remote.value) else None;
      var o, k := changes.list.order, RemoteCount();
      assert remote.Some? && k < |o| ==> Get(changes.list.next, o[k - 1]) == Some(o[k]);
      assert remote.Some? && k == |o| ==> Get(changes.list.next, o[k - 1]) == None;
      if after.Some? then after else changes.list.head
    }

    /**
     * `remote?.previous ?? list.tail`: the node before the remote one,
     * falling back on the tail both without a remote node and when the
     * remote node is the head.
     */
    function BehindFrom(): (n: Option<Handle>)
      reads this, changes, changes.list
      requires Valid()
      ensures n == NodeAt(changes.list.order, BehindStart() - 1)
    {
      var before := if remote.Some? then Get(changes.list.prev, remote.value) else None;
      var o := changes.list.order;
      assert remote.Some? && RemoteCount() > 1 ==> Get(changes.list.prev, o[RemoteCount() - 1]) == Some(o[RemoteCount() - 2]);
      assert remote.Some? && RemoteCount() == 1 ==> Get(changes.list.prev, o[0]) == None;
      assert changes.list.TailCount() > 0 ==> changes.list.tail == Some(o[changes.list.TailCount() - 1]);
      if before.Some? then before else changes.list.tail
    }

    /** The forward walk ends at the last applied node: the current one if applied, else the one before it. */
    lemma AheadEnd()
      requires Valid()
      ensures (if changes.isCurrentApplied then changes.current else changes.Previous())
              == NodeAt(changes.list.order, changes.Applied() - 1)
    {
    }

    /** `getDeltasAhead`, used when the remote is behind the cursor. */
    method GetDeltasAhead() returns (r: DeltasResult)
      requires Valid() && AheadDefined()
      ensures r == AheadBatch()
    {
      var list := changes.list;
      var from := AheadFrom();
      if from == changes.current && !changes.isCurrentApplied {
        return GetDeltasResult().(deltas := []);
      }
      var to := if changes.isCurrentApplied then changes.current else changes.Previous();
      AheadEnd();
      var deltas: seq<SetPointPositions> := [];
      if from.Some? {
        assert AheadStart() < changes.Applied();
        var cs := list.GetNext(from.value, to.value, AheadStart(), changes.Applied() - 1);
        deltas := Forwards(cs);
      }
      r := DeltasResult(deltas, to, AtCurrent);
    }

    /**
     * The end of the backward walk: it stops at the first locally unapplied
     * node, and the node before that one is where the remote copy arrives.
     */
    lemma BehindEnds()
      requires Valid()
      ensures (if changes.isCurrentApplied then changes.Next() else changes.current)
              == NodeAt(changes.list.order, changes.Applied())
      ensures 0 < changes.Applied() < |changes.list.order| ==>
              Get(changes.list.prev, changes.list.order[changes.Applied()]) == Some(changes.list.order[changes.Applied() - 1])
    {
    }

    /** `getDeltasBehind`, used when the remote is ahead of the cursor. */
    method GetDeltasBehind() returns (r: DeltasResult)
      requires Valid() && BehindDefined()
      ensures r == BehindBatch()
    {
      var list := changes.list;
      ghost var f, l := BehindStart(), changes.Applied();
      BehindEnds();
      var to, position;
      if changes.isCurrentApplied {
        to, position := changes.Next(), AtCurrent;
      } else {
        to, position := changes.current, Behind;
      }
      var from := BehindFrom();
      var deltas: seq<SetPointPositions> := [];
      if from.Some? {
        var cs := list.GetPrevious(from.value, to.value, f - 1, l);
        assert cs == Reversed(list.Contents()[l..f]);
        deltas := Backwards(cs);
      }
      var newRemote := if to.Some? then Get(list.prev, to.value) else None;
      r := DeltasResult(deltas, newRemote, position);
    }

    /** `getDeltasAtCurrent`, used when the remote is at the cursor and it is undone. */
    method GetDeltasAtCurrent() returns (r: DeltasResult)
      requires Valid() && remote.Some?
      ensures r == AtCurrentBatch()
    {
      var delta := changes.list.values[remote.value].backward;
      r := DeltasResult([delta], changes.Previous(), Behind);
    }

    /** `getDeltas`: dispatches on the remote position. */
    method GetDeltas() returns (r: DeltasResult)
      requires Valid() && PendingDefined()
      ensures r == PendingBatch()
    {
      if remotePosition == Behind {
        r := GetDeltasAhead();
      } else if remotePosition == Ahead {
        r := GetDeltasBehind();
      } else if remotePosition == AtCurrent && !changes.isCurrentApplied {
        r := GetDeltasAtCurrent();
      } else {
        r := GetDeltasResult();
      }
    }

    /** `upload`: hands the batch over and stamps the time. */
    method Upload(deltas: seq<SetPointPositions>, now: int)
      modifies this
      ensures uploads == old(uploads) + [deltas] && lastUploadedAt == now
      ensures remote == old(remote) && remotePosition == old(remotePosition)
    {
      lastUploadedAt := now;
      uploads := uploads + [deltas];
    }

    /**
     * `maybeUpload`: computes the batch and, when it is due, uploads it and
     * commits the new remote node and position; otherwise changes nothing.
     */
    method MaybeUpload(now: int)
      requires Valid() && PendingDefined()
      modifies this
      ensures var b := old(PendingBatch());
        if old(ShouldUpload(|b.deltas|, now)) then
          && remote == b.newRemote && remotePosition == b.newRemotePosition
          && uploads == old(uploads) + [b.deltas] && lastUploadedAt == now
        else
          && remote == old(remote) && remotePosition == old(remotePosition)
          && uploads == old(uploads) && lastUploadedAt == old(lastUploadedAt)
    {
      var b := GetDeltas();
      if ShouldUpload(|b.deltas|, now) {
        Upload(b.deltas, now);
        remote := b.newRemote;
        remotePosition := b.newRemotePosition;
      }
    }
  }
}
