// Reversible edits: a `Change` pairs a forward and a backward delta, and the
// only delta kind, `SetPointPositions`, writes point positions into the
// editor's world.

module Deltas {
  import opened Wrappers

  /**
   * How a delta names a point: by its database id, or by the temporary CUID
   * of a point that has not been saved yet.
   */
  datatype Identifier = Id(id: int) | Temporary(cuid: string)

  /** A point position; coordinates are kept opaque as integers. */
  datatype Position = Position(x: int, y: int)

  /** One entry of a `SetPointPositions` delta: where the point goes. */
  datatype Item = Item(pos: Position, ident: Identifier)

  /** The record shared by both deltas of a change: CUID, creation time, type. */
  datatype BaseDeltaData = BaseDeltaData(cuid: string, createdAt: int, kind: string)

  /** The identifying part of a point row. */
  datatype PointRecord = PointRecord(id: int, temporaryCuid: Option<string>)

  /** One requested move: the point, where it was and where it goes. */
  datatype PositionChange = PositionChange(point: PointRecord, oldPosition: Position, newPosition: Position)

  /**
   * `getIdentifier`: a point with a temporary CUID is named by it, any other
   * point by its id. The test is JavaScript truthiness, so an empty CUID
   * counts as absent.
   */
  function GetIdentifier(p: PointRecord): (r: Identifier)
    ensures r.Temporary? <==> p.temporaryCuid.Some? && p.temporaryCuid.value != ""
    ensures r.Temporary? ==> r.cuid == p.temporaryCuid.value
    ensures r.Id? ==> r.id == p.id
  {
    if p.temporaryCuid.Some? && p.temporaryCuid.value != "" then Temporary(p.temporaryCuid.value) else Id(p.id)
  }

  /** The editor's world, reduced to what deltas touch: the point positions. */
  class EditorWorld {
    var points: map<Identifier, Position>

    constructor (points: map<Identifier, Position>)
      ensures this.points == points
    {
      this.points := points;
    }
  }

  /**
   * Writing `items` into `points` one after the other, stopping at the first
   * identifier that names no point. The result holds the positions written
   * so far and the identifier that was not found, if any.
   */
  function ApplyItems(points: map<Identifier, Position>, items: seq<Item>): (r: (map<Identifier, Position>, Option<Identifier>))
    ensures r.0.Keys == points.Keys
    decreases |items|
  {
    if items == [] then (points, None)
    else if items[0].ident !in points then (points, Some(items[0].ident))
    else ApplyItems(points[items[0].ident := items[0].pos], items[1..])
  }

  /**
   * The lookup `getPointOrThrow` performs as written. The property it
   * compares is `id` for an id and `temporaryCuid` otherwise, but a
   * temporary identifier holds its CUID under `temporaryCUID`, so the value
   * compared is `undefined`, which no point's `temporaryCuid` (a string or
   * null) equals. Only ids are ever found.
   */
  predicate FoundAsWritten(points: map<Identifier, Position>, ident: Identifier)
  {
    ident.Id? && ident in points
  }

  /**
   * `ApplyItems` with the lookup as written: the writes stop at the first
   * item whose identifier is temporary or names no point.
   */
  function ApplyItemsAsWritten(points: map<Identifier, Position>, items: seq<Item>): (r: (map<Identifier, Position>, Option<Identifier>))
    ensures r.0.Keys == points.Keys
    ensures r.1.Some? ==> exists f :: 0 <= f < |items| && items[f].ident == r.1.value && !FoundAsWritten(points, r.1.value)
    decreases |items|
  {
    if items == [] then (points, None)
    else if !FoundAsWritten(points, items[0].ident) then (points, Some(items[0].ident))
    else
      var r := ApplyItemsAsWritten(points[items[0].ident := items[0].pos], items[1..]);
      assert r.1.Some? ==> exists f :: 0 <= f < |items| && items[f].ident == r.1.value by {
        if r.1.Some? {
          var f :| 0 <= f < |items[1..]| && items[1..][f].ident == r.1.value;
          assert items[f + 1] == items[1..][f];
        }
      }
      r
  }

  /** No item before `f` is temporary, and item `f`, if there is one, is. */
  ghost predicate FirstTemporaryAt(items: seq<Item>, f: int)
  {
    && 0 <= f <= |items|
    && (forall i :: 0 <= i < f ==> items[i].ident.Id?)
    && (f < |items| ==> items[f].ident.Temporary?)
  }

  /**
   * The apply as written is the corrected apply of the items before the
   * first temporary identifier, then a failure at that identifier if the
   * prefix went through. On items without a temporary identifier the two
   * agree.
   */
  lemma {:induction false} ApplyAsWrittenStopsAtFirstTemporary(points: map<Identifier, Position>, items: seq<Item>, f: int)
    requires FirstTemporaryAt(items, f)
    ensures ApplyItems(points, items[..f]).1.Some? ==> ApplyItemsAsWritten(points, items) == ApplyItems(points, items[..f])
    ensures ApplyItems(points, items[..f]).1.None? ==>
      ApplyItemsAsWritten(points, items) == (ApplyItems(points, items[..f]).0, if f < |items| then Some(items[f].ident) else None)
    decreases |items|
  {
    if items != [] && f > 0 {
      var p' := points[items[0].ident := items[0].pos];
      assert FirstTemporaryAt(items[1..], f - 1) by {
        forall i | 0 <= i < f - 1 ensures items[1..][i].ident.Id? {
          assert items[1..][i] == items[i + 1];
        }
      }
      ApplyAsWrittenStopsAtFirstTemporary(p', items[1..], f - 1);
      assert items[..f][1..] == items[1..][..f - 1];
      if f - 1 < |items[1..]| {
        assert items[1..][f - 1] == items[f];
      }
    }
  }

  /**
   * A point the editor has just made, with id -1 and a temporary CUID, is
   * named by its CUID. Moving it fails as written but succeeds with the
   * corrected lookup.
   */
  lemma TemporaryPointNotFoundAsWritten(p0: Position, p1: Position)
    ensures GetIdentifier(PointRecord(-1, Some("abc"))) == Temporary("abc")
    ensures ApplyItemsAsWritten(map[Temporary("abc") := p0], [Item(p1, Temporary("abc"))]) ==
            (map[Temporary("abc") := p0], Some(Temporary("abc")))
    ensures ApplyItems(map[Temporary("abc") := p0], [Item(p1, Temporary("abc"))]) == (map[Temporary("abc") := p1], None)
  {
    var items := [Item(p1, Temporary("abc"))];
    assert items[1..] == [];
    assert map[Temporary("abc") := p0][Temporary("abc") := p1] == map[Temporary("abc") := p1];
  }

  /** Every item names a point of the world. */
  ghost predicate AllFound(points: map<Identifier, Position>, items: seq<Item>)
  {
    forall i :: 0 <= i < |items| ==> items[i].ident in points
  }

  /** Item `i` is the last one naming its point. */
  ghost predicate LastFor(items: seq<Item>, i: int)
    requires 0 <= i < |items|
  {
    forall j :: i < j < |items| ==> items[j].ident != items[i].ident
  }

  /** No item names `k`. */
  ghost predicate Untouched(items: seq<Item>, k: Identifier)
  {
    forall i :: 0 <= i < |items| ==> items[i].ident != k
  }

  /**
   * `apply` fails exactly when some item names no point, and then it names
   * the first such item; the writes of the items before it are kept.
   */
  lemma {:induction false} ApplyFailsAtFirstMissing(points: map<Identifier, Position>, items: seq<Item>)
    ensures ApplyItems(points, items).1.None? <==> AllFound(points, items)
    ensures ApplyItems(points, items).1.Some? ==>
      exists f :: 0 <= f < |items| && items[f].ident == ApplyItems(points, items).1.value
        && items[f].ident !in points && AllFound(points, items[..f])
        && ApplyItems(points, items).0 == ApplyItems(points, items[..f]).0
    decreases |items|
  {
    if items == [] {
    } else if items[0].ident !in points {
      assert items[..0] == [];
    } else {
      var rest := items[1..];
      var p' := points[items[0].ident := items[0].pos];
      ApplyFailsAtFirstMissing(p', rest);
      if AllFound(points, items) {
        assert AllFound(p', rest) by {
          forall i | 0 <= i < |rest| ensures rest[i].ident in p' {
            assert rest[i] == items[i + 1];
          }
        }
      }
      if AllFound(p', rest) {
        forall i | 0 <= i < |items| ensures items[i].ident in points {
          if i > 0 {
            assert items[i] == rest[i - 1];
          }
        }
      }
      if ApplyItems(p', rest).1.Some? {
        var f :| 0 <= f < |rest| && rest[f].ident == ApplyItems(p', rest).1.value
          && rest[f].ident !in p' && AllFound(p', rest[..f])
          && ApplyItems(p', rest).0 == ApplyItems(p', rest[..f]).0;
        assert items[f + 1] == rest[f];
        var pre := items[..f + 1];
        assert pre[1..] == rest[..f];
        assert AllFound(points, pre) by {
          forall i | 0 <= i < |pre| ensures pre[i].ident in points {
            if i > 0 {
              assert pre[i] == rest[..f][i - 1];
            }
          }
        }
      }
    }
  }

  /**
   * When every item names a point, the last item naming a point decides its
   * new position, and points no item names keep theirs.
   */
  lemma {:induction false} ApplyLastWins(points: map<Identifier, Position>, items: seq<Item>)
    requires AllFound(points, items)
    ensures forall i :: 0 <= i < |items| && LastFor(items, i) ==> ApplyItems(points, items).0[items[i].ident] == items[i].pos
    ensures forall k :: k in points && Untouched(items, k) ==> ApplyItems(points, items).0[k] == points[k]
    decreases |items|
  {
    if items != [] {
      var rest := items[1..];
      var p' := points[items[0].ident := items[0].pos];
      assert AllFound(p', rest) by {
        forall i | 0 <= i < |rest| ensures rest[i].ident in p' {
          assert rest[i] == items[i + 1];
        }
      }
      ApplyLastWins(p', rest);
      var r := ApplyItems(points, items).0;
      assert r == ApplyItems(p', rest).0;
      forall i | 0 <= i < |items| && LastFor(items, i) ensures r[items[i].ident] == items[i].pos {
        if i == 0 {
          assert Untouched(rest, items[0].ident) by {
            forall j | 0 <= j < |rest| ensures rest[j].ident != items[0].ident {
              assert rest[j] == items[j + 1];
            }
          }
        } else {
          assert rest[i - 1] == items[i];
          assert LastFor(rest, i - 1) by {
            forall j | i - 1 < j < |rest| ensures rest[j].ident != rest[i - 1].ident {
              assert rest[j] == items[j + 1];
            }
          }
        }
      }
      forall k | k in points && Untouched(items, k) ensures r[k] == points[k] {
        assert items[0].ident != k;
        assert Untouched(rest, k) by {
          forall j | 0 <= j < |rest| ensures rest[j].ident != k {
            assert rest[j] == items[j + 1];
          }
        }
      }
    }
  }

  /**
   * A `SetPointPositions` delta: its base record and the positions it
   * writes. Both are fixed at construction.
   */
  class SetPointPositions {
    const delta: BaseDeltaData
    const data: seq<Item>

    constructor (baseData: BaseDeltaData, data: seq<Item>)
      ensures delta == baseData && this.data == data
    {
      delta := baseData;
      this.data := data;
    }

    /**
     * `apply`: writes each item's position into the point it names, in item
     * order, and returns true; an item naming no point throws, and the
     * items before it stay written.
     */
    method Apply(world: EditorWorld) returns (r: Result<bool>)
      modifies world
      ensures world.points == ApplyItems(old(world.points), data).0
      ensures r.Ok? <==> ApplyItems(old(world.points), data).1.None?
      ensures r.Ok? ==> r.value
      ensures r.Err? ==> r.message == "Point was not found"
    {
      for i := 0 to |data|
        invariant ApplyItems(old(world.points), data) == ApplyItems(world.points, data[i..])
      {
        var item := data[i];
        if item.ident !in world.points {
          return Err("Point was not found");
        }
        assert data[i..][1..] == data[i + 1..];
        world.points := world.points[item.ident := item.pos];
      }
      return Ok(true);
    }

    /**
     * `apply` with `getPointOrThrow` as written: an item whose identifier is
     * temporary throws like a missing point, naming `temporaryCuid` and
     * `undefined` in the message.
     */
    method ApplyAsWritten(world: EditorWorld) returns (r: Result<bool>)
      modifies world
      ensures world.points == ApplyItemsAsWritten(old(world.points), data).0
      ensures r.Ok? <==> ApplyItemsAsWritten(old(world.points), data).1.None?
      ensures r.Ok? ==> r.value
      ensures r.Err? && ApplyItemsAsWritten(old(world.points), data).1.value.Temporary? ==>
        r.message == "Point with temporaryCuid undefined was not found"
      ensures r.Err? && ApplyItemsAsWritten(old(world.points), data).1.value.Id? ==> r.message == "Point was not found"
    {
      for i := 0 to |data|
        invariant ApplyItemsAsWritten(old(world.points), data) == ApplyItemsAsWritten(world.points, data[i..])
      {
        var item := data[i];
        if item.ident.Temporary? {
          return Err("Point with temporaryCuid undefined was not found");
        }
        if item.ident !in world.points {
          return Err("Point was not found");
        }
        assert data[i..][1..] == data[i + 1..];
        world.points := world.points[item.ident := item.pos];
      }
      return Ok(true);
    }
  }

  /**
   * A reversible edit: `forward` makes it, `backward` takes it back. Both
   * deltas are fixed at construction.
   */
  class Change {
    const forward: SetPointPositions
    const backward: SetPointPositions

    constructor (forward: SetPointPositions, backward: SetPointPositions)
      ensures this.forward == forward && this.backward == backward
    {
      this.forward := forward;
      this.backward := backward;
    }

    /** `undo`: applies the backward delta and passes its result on. */
    method Undo(world: EditorWorld) returns (r: Result<bool>)
      modifies world
      ensures world.points == ApplyItems(old(world.points), backward.data).0
      ensures r.Ok? <==> ApplyItems(old(world.points), backward.data).1.None?
      ensures r.Ok? ==> r.value
    {
      r := backward.Apply(world);
    }

    /** `redo`: applies the forward delta and passes its result on. */
    method Redo(world: EditorWorld) returns (r: Result<bool>)
      modifies world
      ensures world.points == ApplyItems(old(world.points), forward.data).0
      ensures r.Ok? <==> ApplyItems(old(world.points), forward.data).1.None?
      ensures r.Ok? ==> r.value
    {
      r := forward.Apply(world);
    }
  }

  /** The items of the forward delta: each point goes to its new position. */
  function ForwardItems(arg: seq<PositionChange>): (r: seq<Item>)
    ensures |r| == |arg|
  {
    seq(|arg|, i requires 0 <= i < |arg| => Item(arg[i].newPosition, GetIdentifier(arg[i].point)))
  }

  /** The items of the backward delta: each point goes back to its old position. */
  function BackwardItems(arg: seq<PositionChange>): (r: seq<Item>)
    ensures |r| == |arg|
  {
    seq(|arg|, i requires 0 <= i < |arg| => Item(arg[i].oldPosition, GetIdentifier(arg[i].point)))
  }

  /**
   * The two item lists of a change name the same points in the same order;
   * forward carries the new positions and backward the old ones.
   */
  lemma ForwardBackwardAgree(arg: seq<PositionChange>)
    ensures |ForwardItems(arg)| == |BackwardItems(arg)| == |arg|
    ensures forall i :: 0 <= i < |arg| ==>
      && ForwardItems(arg)[i].ident == BackwardItems(arg)[i].ident == GetIdentifier(arg[i].point)
      && ForwardItems(arg)[i].pos == arg[i].newPosition
      && BackwardItems(arg)[i].pos == arg[i].oldPosition
  {
  }

  /**
   * `setPointPositions`: builds the change for a set of moves. The base
   * record, made by `createDelta` in the application, is passed in.
   */
  method MakeSetPointPositions(base: BaseDeltaData, arg: seq<PositionChange>) returns (c: Change)
    ensures fresh(c) && fresh(c.forward) && fresh(c.backward)
    ensures c.forward.delta == base && c.backward.delta == base
    ensures c.forward.data == ForwardItems(arg) && c.backward.data == BackwardItems(arg)
  {
    var forward := new SetPointPositions(base, ForwardItems(arg));
    var backward := new SetPointPositions(base, BackwardItems(arg));
    c := new Change(forward, backward);
  }

  /** The moves name pairwise distinct points. */
  ghost predicate DistinctPoints(arg: seq<PositionChange>)
  {
    forall i, j :: 0 <= i < j < |arg| ==> GetIdentifier(arg[i].point) != GetIdentifier(arg[j].point)
  }

  /** Every moved point exists and currently sits at its recorded old position. */
  ghost predicate StartsAtOld(points: map<Identifier, Position>, arg: seq<PositionChange>)
  {
    forall i :: 0 <= i < |arg| ==>
      GetIdentifier(arg[i].point) in points && points[GetIdentifier(arg[i].point)] == arg[i].oldPosition
  }

  /**
   * With distinct points that start at their old positions, applying the
   * forward delta and then the backward delta succeeds and restores every
   * point of the world.
   */
  lemma {:induction false} RedoThenUndoRestores(points: map<Identifier, Position>, arg: seq<PositionChange>)
    requires DistinctPoints(arg) && StartsAtOld(points, arg)
    ensures ApplyItems(points, ForwardItems(arg)).1.None?
    ensures ApplyItems(ApplyItems(points, ForwardItems(arg)).0, BackwardItems(arg)) == (points, None)
  {
    var fwd, bwd := ForwardItems(arg), BackwardItems(arg);
    ForwardBackwardAgree(arg);
    assert AllFound(points, fwd);
    ApplyFailsAtFirstMissing(points, fwd);
    var mid := ApplyItems(points, fwd).0;
    assert AllFound(mid, bwd);
    ApplyFailsAtFirstMissing(mid, bwd);
    ApplyLastWins(points, fwd);
    ApplyLastWins(mid, bwd);
    var end := ApplyItems(mid, bwd).0;
    forall k | k in points ensures end[k] == points[k] {
      if i :| 0 <= i < |arg| && GetIdentifier(arg[i].point) == k {
        assert LastFor(bwd, i);
      } else {
        assert Untouched(fwd, k) && Untouched(bwd, k);
      }
    }
    assert end == points;
  }
}
