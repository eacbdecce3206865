// The superseded polygon reconstruction (src/lib/io/polygon-loader.ts). Its
// loop looks up the start point on every pass and throws on any row without
// a next point, and the check after the loop throws when the last row has
// one: no input gets through both, so the constructor never returns.

module IoPolygons {
  import opened Wrappers
  import opened Rows

  /** A polygon with its point records (of type `P`) in ring order. */
  datatype Polygon<P> = Polygon(id: int, points: seq<P>)

  /** The rows of `pointsInPolygons` that belong to the polygon, in their order. */
  function RowsOf(pointsInPolygons: seq<PointsInPolygonsRow>, polygonId: int): (rows: seq<PointsInPolygonsRow>)
    ensures |rows| <= |pointsInPolygons|
    ensures forall k :: 0 <= k < |rows| ==> rows[k].polygonId == polygonId && rows[k] in pointsInPolygons
    ensures forall row :: row in pointsInPolygons && row.polygonId == polygonId ==> row in rows
  {
    if pointsInPolygons == [] then []
    else
      var rest := RowsOf(pointsInPolygons[1..], polygonId);
      if pointsInPolygons[0].polygonId == polygonId then [pointsInPolygons[0]] + rest else rest
  }

  /**
   * The error `constructPolygon` throws: reading past an empty row list, a
   * missing start point, a row without a next point, or else a last row with
   * a next point.
   */
  function PolygonFailure<P>(polygonRow: PolygonRow, pointsInPolygons: seq<PointsInPolygonsRow>, pointsMap: map<int, P>)
    : (e: LoadError)
    ensures var rows, start := RowsOf(pointsInPolygons, polygonRow.id), polygonRow.startPointId;
      && (e == ReadOfUndefined <==> rows == [])
      && (e == PointNotFound(start) <==> rows != [] && start !in pointsMap)
      && (e == NextPointMissing(start, polygonRow.id) <==>
            rows != [] && start in pointsMap && exists k :: 0 <= k < |rows| && rows[k].nextPointId.None?)
      && (e == NextPointPresent(start, polygonRow.id) <==>
            rows != [] && start in pointsMap && forall k :: 0 <= k < |rows| ==> rows[k].nextPointId.Some?)
  {
    var rows, start := RowsOf(pointsInPolygons, polygonRow.id), polygonRow.startPointId;
    if rows == [] then ReadOfUndefined
    else if start !in pointsMap then PointNotFound(start)
    else if exists k :: 0 <= k < |rows| && rows[k].nextPointId.None? then NextPointMissing(start, polygonRow.id)
    else NextPointPresent(start, polygonRow.id)
  }

  /**
   * `constructPolygon`: fills one slot per row with the start point (the
   * loop never advances `pointId`), throwing as `PolygonFailure` says. It
   * never returns normally.
   */
  method ConstructPolygon<P>(polygonRow: PolygonRow, pointsInPolygons: seq<PointsInPolygonsRow>, pointsMap: map<int, P>)
    returns (r: Outcome<Polygon<P>>)
    ensures r.Throws?
    ensures r.error == PolygonFailure(polygonRow, pointsInPolygons, pointsMap)
  {
    var polygonId := polygonRow.id;
    var pointsInPolygon := RowsOf(pointsInPolygons, polygonId);
    var polygonPoints: seq<P> := [];
    var pointId := polygonRow.startPointId;
    for i := 0 to |pointsInPolygon|
      invariant |polygonPoints| == i
      invariant i > 0 ==> pointId in pointsMap
      invariant forall k :: 0 <= k < i ==> polygonPoints[k] == pointsMap[pointId]
      invariant forall k :: 0 <= k < i ==> pointsInPolygon[k].nextPointId.Some?
    {
      var point := GetOrThrow(pointsMap, pointId, PointNotFound(pointId));
      if point.Throws? {
        return Throws(point.error);
      }
      polygonPoints := polygonPoints + [point.value];
      if pointsInPolygon[i].nextPointId.None? {
        return Throws(NextPointMissing(pointId, polygonId));
      }
    }
    r := if |pointsInPolygon| == 0 then Throws(ReadOfUndefined)
         else if pointsInPolygon[|pointsInPolygon| - 1].nextPointId.Some? then Throws(NextPointPresent(pointId, polygonId))
         else Returns(Polygon(polygonId, polygonPoints));
  }

  /** What `constructPolygon` does for one row, as a value. */
  function PolygonOutcome<P>(polygonRow: PolygonRow, pointsInPolygons: seq<PointsInPolygonsRow>, pointsMap: map<int, P>)
    : (r: Outcome<Polygon<P>>)
    ensures r.Throws?
  {
    Throws(PolygonFailure(polygonRow, pointsInPolygons, pointsMap))
  }

  /**
   * `constructPolygons`: one entry per polygon row. Since every polygon
   * fails, it returns only for an empty row list, and otherwise throws the
   * first row's error.
   */
  function ConstructPolygons<P>(polygonRows: seq<PolygonRow>, pointsInPolygons: seq<PointsInPolygonsRow>, pointsMap: map<int, P>)
    : (r: Outcome<map<int, Polygon<P>>>)
    ensures r.Returns? <==> polygonRows == []
    ensures r.Returns? ==> r.value == map[]
    ensures polygonRows != [] ==> r == Throws(PolygonFailure(polygonRows[0], pointsInPolygons, pointsMap))
  {
    var ids := seq(|polygonRows|, k requires 0 <= k < |polygonRows| => polygonRows[k].id);
    var outcomes := seq(|polygonRows|, k requires 0 <= k < |polygonRows| => PolygonOutcome(polygonRows[k], pointsInPolygons, pointsMap));
    var r := CollectById(ids, outcomes);
    if polygonRows == [] then
      assert r == Returns(map[]);
      r
    else
      assert !outcomes[0].Returns?;
      assert forall k :: 0 <= k < |outcomes| ==> outcomes[k].Throws?;
      assert r.Throws? && outcomes[0] == Throws(r.error);
      r
  }
}
