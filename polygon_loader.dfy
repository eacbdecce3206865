// Polygon reconstruction from `PointsInPolygons` rows (src/lib/orm/polygon-loader.ts).
// Each row links a point of a polygon to its successor; the polygon's point
// ids are read by walking those links from the polygon's start point.

module OrmPolygons {
  import opened Wrappers
  import opened Rows

  /** A polygon as the API sends it: its id and its point ids in ring order. */
  datatype ApiPolygon = ApiPolygon(id: int, pointIds: seq<int>)

  /**
   * The `edges` map of one polygon: each of its rows maps `pointId` to
   * `nextPointId`, a later row winning a repeated `pointId` (`EdgesOfKeys`,
   * `EdgesOfLastRow`).
   */
  function EdgesOf(rows: seq<PointsInPolygonsRow>, polygonId: int): (edges: map<int, Option<int>>)
    ensures rows == [] ==> edges == map[]
  {
    if rows == [] then map[]
    else
      var edges := EdgesOf(rows[..|rows| - 1], polygonId);
      var last := rows[|rows| - 1];
      if last.polygonId == polygonId then edges[last.pointId := last.nextPointId] else edges
  }

  /** The keys of `edges` are the point ids of the polygon's rows. */
  lemma {:induction false} EdgesOfKeys(rows: seq<PointsInPolygonsRow>, polygonId: int)
    ensures forall p :: p in EdgesOf(rows, polygonId) <==>
      exists k :: 0 <= k < |rows| && rows[k].polygonId == polygonId && rows[k].pointId == p
  {
    if rows != [] {
      var init := rows[..|rows| - 1];
      EdgesOfKeys(init, polygonId);
      assert forall k :: 0 <= k < |rows| - 1 ==> init[k] == rows[k];
    }
  }

  /** A point id maps to the next point id of the last of the polygon's rows holding it. */
  lemma {:induction false} EdgesOfLastRow(rows: seq<PointsInPolygonsRow>, polygonId: int, k: int)
    requires 0 <= k < |rows| && rows[k].polygonId == polygonId
    requires forall j :: k < j < |rows| && rows[j].polygonId == polygonId ==> rows[j].pointId != rows[k].pointId
    ensures rows[k].pointId in EdgesOf(rows, polygonId)
    ensures EdgesOf(rows, polygonId)[rows[k].pointId] == rows[k].nextPointId
  {
    if k < |rows| - 1 {
      var init := rows[..|rows| - 1];
      assert forall j :: 0 <= j < |init| ==> init[j] == rows[j];
      EdgesOfLastRow(init, polygonId, k);
    }
  }

  /**
   * The point ids the loop records from `from` on, at most `fuel` of them:
   * each id is recorded and then its row is looked up; the walk stops after
   * an id without a row, after an id whose next point is null, or when the
   * fuel runs out.
   */
  function Walk(edges: map<int, Option<int>>, from: int, fuel: nat): (w: seq<int>)
    ensures |w| <= fuel
    ensures fuel > 0 ==> |w| > 0 && w[0] == from
    decreases fuel
  {
    if fuel == 0 then []
    else if from !in edges || edges[from].None? then [from]
    else [from] + Walk(edges, edges[from].value, fuel - 1)
  }

  /**
   * One step of the walk, seen from position `i` of a longer walk: `from` is
   * recorded there, and the walk goes on from its next point if it has one.
   */
  lemma WalkStep(edges: map<int, Option<int>>, walk: seq<int>, i: nat, from: int, fuel: nat)
    requires fuel > 0 && i <= |walk| && walk[i..] == Walk(edges, from, fuel)
    ensures i < |walk| && walk[i] == from
    ensures from in edges && edges[from].Some? ==> walk[i + 1..] == Walk(edges, edges[from].value, fuel - 1)
    ensures from !in edges || edges[from].None? ==> |walk| == i + 1
  {
    assert walk[i + 1..] == walk[i..][1..];
  }

  /**
   * Each recorded point but the last has a row whose next point is the
   * following one; a walk shorter than its fuel stopped at a point without
   * a row or with a null next point.
   */
  lemma {:induction false} WalkLinks(edges: map<int, Option<int>>, from: int, fuel: nat)
    ensures var w := Walk(edges, from, fuel);
      && (forall k :: 0 <= k < |w| - 1 ==> w[k] in edges && edges[w[k]] == Some(w[k + 1]))
      && (|w| < fuel ==> |w| > 0 && (w[|w| - 1] !in edges || edges[w[|w| - 1]].None?))
    decreases fuel
  {
    if fuel > 0 && from in edges && edges[from].Some? {
      var w, rest := Walk(edges, from, fuel), Walk(edges, edges[from].value, fuel - 1);
      WalkLinks(edges, edges[from].value, fuel - 1);
      assert w == [from] + rest;
      assert forall k :: 1 <= k < |w| ==> w[k] == rest[k - 1];
    }
  }

  /**
   * What `constructPolygonWithIdReferences` does for one polygon row. The
   * walk gets one step more than there are rows: a walk that long without
   * reaching a null next point has revisited a point, so the source's loop
   * never stops (`WalkRunsForever`).
   */
  function PolygonOutcome(polygonRow: PolygonRow, pointsInPolygons: seq<PointsInPolygonsRow>): (r: Outcome<ApiPolygon>)
    ensures r.Returns? ==> r.value.id == polygonRow.id
  {
    var edges := EdgesOf(pointsInPolygons, polygonRow.id);
    WalkOutcome(edges, polygonRow.id, Walk(edges, polygonRow.startPointId, |edges| + 1))
  }

  /** The outcome decided by where the recorded walk `w` stopped. */
  function WalkOutcome(edges: map<int, Option<int>>, polygonId: int, w: seq<int>): (r: Outcome<ApiPolygon>)
    requires |w| > 0
    ensures r.Returns? ==> r.value == ApiPolygon(polygonId, w)
  {
    var last := w[|w| - 1];
    if last !in edges then Throws(NoNextPointRow(last, polygonId))
    else if edges[last].Some? then RunsForever
    else if |w| < |edges| then Throws(ChainEndsEarly(last))
    else Returns(ApiPolygon(polygonId, w))
  }

  /**
   * `constructPolygonWithIdReferences`: builds the `edges` map of the
   * polygon and walks it from the start point.
   */
  method ConstructPolygonWithIdReferences(polygonRow: PolygonRow, pointsInPolygons: seq<PointsInPolygonsRow>)
    returns (r: Outcome<ApiPolygon>)
    ensures r == PolygonOutcome(polygonRow, pointsInPolygons)
  {
    var edges := EdgesOf(pointsInPolygons, polygonRow.id);
    r := WalkPoints(edges, polygonRow.id, polygonRow.startPointId, |edges| + 1);
  }

  /**
   * The point-walking loop of `constructPolygonWithIdReferences` and its
   * final size check. Where the source's loop would go on forever (more
   * than `bound - 1` steps) the method stops and reports `RunsForever`.
   */
  method WalkPoints(edges: map<int, Option<int>>, polygonId: int, start: int, bound: nat) returns (r: Outcome<ApiPolygon>)
    requires bound > |edges|
    ensures r == WalkOutcome(edges, polygonId, Walk(edges, start, bound))
  {
    ghost var walk := Walk(edges, start, bound);
    var pointIds: seq<int> := [];
    var i := 0;
    var pointId: Option<int> := Some(start);
    while pointId.Some?
      invariant i <= |walk| && pointIds == walk[..i]
      invariant pointId.Some? ==> walk[i..] == Walk(edges, pointId.value, bound - i)
      invariant i > 0 ==> pointIds[i - 1] in edges && edges[pointIds[i - 1]] == pointId
      invariant pointId.None? ==> i == |walk| > 0
      decreases bound - i
    {
      if i == bound {
        return RunsForever;
      }
      WalkStep(edges, walk, i, pointId.value, bound - i);
      pointIds := pointIds + [pointId.value];
      i := i + 1;
      if pointId.value !in edges {
        return Throws(NoNextPointRow(pointId.value, polygonId));
      }
      pointId := edges[pointId.value];
    }
    assert pointIds == walk;
    if i < |edges| {
      return Throws(ChainEndsEarly(pointIds[i - 1]));
    }
    return Returns(ApiPolygon(polygonId, pointIds));
  }

  /**
   * `constructPolygonsWithIdReferences`: one entry per polygon row, keyed by
   * the row id (a later row wins a repeated id). The first row whose
   * polygon cannot be built decides the outcome.
   */
  function ConstructPolygonsWithIdReferences(polygonRows: seq<PolygonRow>, pointsInPolygons: seq<PointsInPolygonsRow>)
    : (r: Outcome<map<int, ApiPolygon>>)
    ensures r.Returns? <==> forall k :: 0 <= k < |polygonRows| ==> PolygonOutcome(polygonRows[k], pointsInPolygons).Returns?
    ensures r.Returns? ==> forall id :: id in r.value <==> exists k :: 0 <= k < |polygonRows| && polygonRows[k].id == id
    ensures r.Throws? ==>
      exists k :: 0 <= k < |polygonRows| && (forall j :: 0 <= j < k ==> PolygonOutcome(polygonRows[j], pointsInPolygons).Returns?)
               && PolygonOutcome(polygonRows[k], pointsInPolygons) == Throws(r.error)
  {
    CollectById(RowIds(polygonRows), Outcomes(polygonRows, pointsInPolygons))
  }

  /** The ids of the polygon rows, in order. */
  function RowIds(polygonRows: seq<PolygonRow>): (ids: seq<int>)
    ensures |ids| == |polygonRows| && forall k :: 0 <= k < |polygonRows| ==> ids[k] == polygonRows[k].id
  {
    seq(|polygonRows|, k requires 0 <= k < |polygonRows| => polygonRows[k].id)
  }

  /** The outcome of building each row's polygon, in order. */
  function Outcomes(polygonRows: seq<PolygonRow>, pointsInPolygons: seq<PointsInPolygonsRow>): (outcomes: seq<Outcome<ApiPolygon>>)
    ensures |outcomes| == |polygonRows|
    ensures forall k :: 0 <= k < |polygonRows| ==> outcomes[k] == PolygonOutcome(polygonRows[k], pointsInPolygons)
  {
    seq(|polygonRows|, k requires 0 <= k < |polygonRows| => PolygonOutcome(polygonRows[k], pointsInPolygons))
  }

  /** Each id maps to the polygon built from the last row with that id. */
  lemma PolygonsKeyedById(polygonRows: seq<PolygonRow>, pointsInPolygons: seq<PointsInPolygonsRow>, k: int)
    requires ConstructPolygonsWithIdReferences(polygonRows, pointsInPolygons).Returns?
    requires 0 <= k < |polygonRows| && forall j :: k < j < |polygonRows| ==> polygonRows[j].id != polygonRows[k].id
    ensures Outcomes(polygonRows, pointsInPolygons)[k].Returns?
    ensures polygonRows[k].id in ConstructPolygonsWithIdReferences(polygonRows, pointsInPolygons).value
    ensures ConstructPolygonsWithIdReferences(polygonRows, pointsInPolygons).value[polygonRows[k].id] ==
            Outcomes(polygonRows, pointsInPolygons)[k].value
  {
    var ids := RowIds(polygonRows);
    assert forall j :: k < j < |ids| ==> ids[j] != ids[k];
    CollectByIdLastWins(ids, Outcomes(polygonRows, pointsInPolygons), k);
  }

  // ---- What a returned polygon is ----

  /** A sequence without repeated elements. */
  ghost predicate NoRepeats(s: seq<int>)
  {
    forall i, j :: 0 <= i < j < |s| ==> s[i] != s[j]
  }

  /** In a walk that ends at a point whose next point is null, a point is never met again later. */
  lemma {:induction false} LaterPointsDiffer(edges: map<int, Option<int>>, w: seq<int>, i: nat, j: nat)
    requires 0 <= i < j < |w|
    requires forall k :: 0 <= k < |w| - 1 ==> w[k] in edges && edges[w[k]] == Some(w[k + 1])
    requires w[|w| - 1] in edges && edges[w[|w| - 1]].None?
    ensures w[i] != w[j]
    decreases |w| - j
  {
    assert edges[w[i]] == Some(w[i + 1]);
    if j < |w| - 1 {
      LaterPointsDiffer(edges, w, i + 1, j + 1);
      assert edges[w[j]] == Some(w[j + 1]);
    }
  }

  /** A walk that ends at a point whose next point is null never repeats a point. */
  lemma EndedWalkHasNoRepeats(edges: map<int, Option<int>>, w: seq<int>)
    requires |w| > 0
    requires forall k :: 0 <= k < |w| - 1 ==> w[k] in edges && edges[w[k]] == Some(w[k + 1])
    requires w[|w| - 1] in edges && edges[w[|w| - 1]].None?
    ensures NoRepeats(w)
  {
    forall i, j | 0 <= i < j < |w|
      ensures w[i] != w[j]
    {
      LaterPointsDiffer(edges, w, i, j);
    }
  }

  /** A sequence without repeats has as many distinct elements as it is long. */
  lemma {:induction false} NoRepeatsCardinality(s: seq<int>)
    requires NoRepeats(s)
    ensures |set x | x in s| == |s|
  {
    if s != [] {
      var t := s[..|s| - 1];
      assert NoRepeats(t);
      NoRepeatsCardinality(t);
      assert (set x | x in s) == (set x | x in t) + {s[|s| - 1]};
      assert s[|s| - 1] !in (set x | x in t);
    }
  }

  /**
   * A returned polygon lists the start point first, follows the rows'
   * next links, ends at the point whose next is null, and holds every
   * point id of the polygon's rows exactly once.
   */
  lemma ReturnedPolygonIsRing(polygonRow: PolygonRow, pointsInPolygons: seq<PointsInPolygonsRow>)
    requires PolygonOutcome(polygonRow, pointsInPolygons).Returns?
    ensures var ids, edges := PolygonOutcome(polygonRow, pointsInPolygons).value.pointIds, EdgesOf(pointsInPolygons, polygonRow.id);
      && |ids| > 0 && ids[0] == polygonRow.startPointId
      && (forall k :: 0 <= k < |ids| - 1 ==> ids[k] in edges && edges[ids[k]] == Some(ids[k + 1]))
      && ids[|ids| - 1] in edges && edges[ids[|ids| - 1]] == None
      && NoRepeats(ids)
      && (set x | x in ids) == edges.Keys
      && |ids| == |edges|
  {
    var edges := EdgesOf(pointsInPolygons, polygonRow.id);
    WalkLinks(edges, polygonRow.startPointId, |edges| + 1);
    EndedWalkCoversRows(edges, Walk(edges, polygonRow.startPointId, |edges| + 1));
  }

  /** A walk as long as the rows that ends at a null next point visits every row exactly once. */
  lemma EndedWalkCoversRows(edges: map<int, Option<int>>, w: seq<int>)
    requires |w| >= |edges| && |w| > 0
    requires forall k :: 0 <= k < |w| - 1 ==> w[k] in edges && edges[w[k]] == Some(w[k + 1])
    requires w[|w| - 1] in edges && edges[w[|w| - 1]].None?
    ensures NoRepeats(w) && (set x | x in w) == edges.Keys && |w| == |edges|
  {
    EndedWalkHasNoRepeats(edges, w);
    NoRepeatsCardinality(w);
    var visited := set x | x in w;
    assert visited <= edges.Keys;
    assert |edges.Keys| == |edges|;
    assert edges.Keys == visited + (edges.Keys - visited);
    assert |edges.Keys - visited| == 0;
  }

  // ---- When the loop never stops ----

  /** A sequence without repeats that lives in a set is no longer than the set. */
  lemma NoRepeatsBound(s: seq<int>, keys: set<int>)
    requires forall k :: 0 <= k < |s| ==> s[k] in keys
    ensures NoRepeats(s) ==> |s| <= |keys|
  {
    var visited := set x | x in s;
    assert keys == visited + (keys - visited);
    if NoRepeats(s) {
      NoRepeatsCardinality(s);
    }
  }

  /** From a point of a set closed under next links, the walk never stops. */
  lemma {:induction false} ClosedWalkIsFull(edges: map<int, Option<int>>, closed: set<int>, from: int, fuel: nat)
    requires from in closed
    requires forall p :: p in closed ==> p in edges && edges[p].Some? && edges[p].value in closed
    ensures |Walk(edges, from, fuel)| == fuel
    decreases fuel
  {
    if fuel > 0 {
      ClosedWalkIsFull(edges, closed, edges[from].value, fuel - 1);
    }
  }

  /**
   * When the outcome is `RunsForever`, the source's loop indeed never stops:
   * however many steps it is given, the walk neither reaches a null next
   * point nor a point without a row.
   */
  lemma WalkRunsForever(polygonRow: PolygonRow, pointsInPolygons: seq<PointsInPolygonsRow>, steps: nat)
    requires PolygonOutcome(polygonRow, pointsInPolygons).RunsForever?
    ensures |Walk(EdgesOf(pointsInPolygons, polygonRow.id), polygonRow.startPointId, steps)| == steps
  {
    var edges := EdgesOf(pointsInPolygons, polygonRow.id);
    var w := Walk(edges, polygonRow.startPointId, |edges| + 1);
    WalkLinks(edges, polygonRow.startPointId, |edges| + 1);
    assert |w| == |edges| + 1;
    assert forall k :: 0 <= k < |w| ==> w[k] in edges;
    NoRepeatsBound(w, edges.Keys);
    var i, j :| 0 <= i < j < |w| && w[i] == w[j];
    var closed := set k | 0 <= k < j :: w[k];
    forall p | p in closed
      ensures p in edges && edges[p].Some? && edges[p].value in closed
    {
      var k :| 0 <= k < j && w[k] == p;
      assert edges[p] == Some(w[k + 1]);
      if k + 1 == j {
        assert w[j] == w[i];
      }
    }
    assert w[0] in closed;
    ClosedWalkIsFull(edges, closed, polygonRow.startPointId, steps);
  }
}
