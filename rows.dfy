/**
 * Database rows the loaders read, with only the columns they use, and the
 * outcome of a loader: it returns, throws one of the errors below, or (for
 * the point walk of a polygon, src/lib/orm/polygon-loader.ts) never stops.
 */
module Rows {
  import opened Wrappers

  datatype PolygonRow = PolygonRow(id: int, startPointId: int)

  /** A row of `PointsInPolygons`: the point's successor on the ring, `None` for the last point. */
  datatype PointsInPolygonsRow = PointsInPolygonsRow(polygonId: int, pointId: int, nextPointId: Option<int>)

  datatype NetworkRow = NetworkRow(id: int)
  datatype NetworkNodeRow = NetworkNodeRow(id: int, networkId: int, pointId: int)
  datatype NetworkEdgeRow = NetworkEdgeRow(fromNodeId: int, toNodeId: int)

  /** The errors the loaders throw, one per message. */
  datatype LoadError =
    | PolygonNotFound(key: int)
    | PointNotFound(key: int)
    | NodeNotFound(key: int)
    | NetworkNotFound(key: int)
      /** The walk reached a point with no row in the polygon. */
    | NoNextPointRow(pointId: int, polygonId: int)
      /** The walk ended before it had visited every row. */
    | ChainEndsEarly(pointId: int)
      /** A row other than the last has no next point. */
    | NextPointMissing(pointId: int, polygonId: int)
      /** The last row has a next point. */
    | NextPointPresent(pointId: int, polygonId: int)
      /** A `TypeError`: a property was read from `undefined`. */
    | ReadOfUndefined

  datatype Outcome<+T> = Returns(value: T) | Throws(error: LoadError) | RunsForever

  /** The `getOrThrow` lookups: the stored value, or `missing` when the key is absent. */
  function GetOrThrow<T>(m: map<int, T>, key: int, missing: LoadError): (r: Outcome<T>)
    ensures r.Returns? <==> key in m
    ensures r.Returns? ==> r.value == m[key]
    ensures !r.Returns? ==> r == Throws(missing)
  {
    if key in m then Returns(m[key]) else Throws(missing)
  }

  /**
   * `new Map(rows.map(row => [row.id, construct(row)]))`: every row is
   * constructed in order, so the first failure is the outcome; otherwise the
   * map holds one entry per id, a later row winning a repeated id.
   */
  function CollectById<T>(ids: seq<int>, outcomes: seq<Outcome<T>>): (r: Outcome<map<int, T>>)
    requires |ids| == |outcomes|
    ensures r.Returns? <==> forall k :: 0 <= k < |outcomes| ==> outcomes[k].Returns?
    ensures r.Returns? ==> forall id :: id in r.value <==> exists k :: 0 <= k < |ids| && ids[k] == id
    ensures r.Throws? ==>
      exists k :: 0 <= k < |outcomes| && (forall j :: 0 <= j < k ==> outcomes[j].Returns?) && outcomes[k] == Throws(r.error)
    ensures r.RunsForever? ==>
      exists k :: 0 <= k < |outcomes| && (forall j :: 0 <= j < k ==> outcomes[j].Returns?) && outcomes[k].RunsForever?
  {
    if ids == [] then Returns(map[])
    else
      var rest := CollectById(ids[1..], outcomes[1..]);
      assert forall k :: 1 <= k < |ids| ==> ids[1..][k - 1] == ids[k] && outcomes[1..][k - 1] == outcomes[k];
      match outcomes[0]
      case Throws(e) => Throws(e)
      case RunsForever => RunsForever
      case Returns(v) =>
        match rest
        case Returns(m) => Returns(if ids[0] in m then m else m[ids[0] := v])
        case Throws(e) => Throws(e)
        case RunsForever => RunsForever
  }

  /** In a returned map, each id maps to the value built from the last row with that id. */
  lemma {:induction false} CollectByIdLastWins<T>(ids: seq<int>, outcomes: seq<Outcome<T>>, k: int)
    requires |ids| == |outcomes| && CollectById(ids, outcomes).Returns?
    requires 0 <= k < |ids| && forall j :: k < j < |ids| ==> ids[j] != ids[k]
    ensures ids[k] in CollectById(ids, outcomes).value
    ensures CollectById(ids, outcomes).value[ids[k]] == outcomes[k].value
  {
    var m := CollectById(ids[1..], outcomes[1..]).value;
    if k > 0 {
      assert ids[1..][k - 1] == ids[k] && outcomes[1..][k - 1] == outcomes[k];
      assert forall j :: k - 1 < j < |ids| - 1 ==> ids[1..][j] == ids[j + 1];
      CollectByIdLastWins(ids[1..], outcomes[1..], k - 1);
    } else {
      assert forall j :: 0 <= j < |ids| - 1 ==> ids[1..][j] == ids[j + 1];
      assert ids[0] !in m;
    }
  }
}
