// Network reconstruction with id references (src/lib/orm/network-loader.ts):
// each network row becomes a network holding its nodes, keyed by node id,
// and the edges that start at one of its nodes.

module OrmNetworks {
  import opened Rows

  datatype ApiNode = ApiNode(id: int, pointId: int)
  datatype ApiNetwork = ApiNetwork(id: int, nodes: map<int, ApiNode>, edges: seq<NetworkEdgeRow>)

  /** The elements of `s` that `keep` accepts, in their order. */
  function Filter<T(!new)>(s: seq<T>, keep: T -> bool): (r: seq<T>)
    ensures |r| <= |s|
    ensures forall x :: x in r <==> x in s && keep(x)
  {
    if s == [] then []
    else (if keep(s[0]) then [s[0]] else []) + Filter(s[1..], keep)
  }

  /** Filtering keeps the order: filtering two parts and joining them is filtering the whole. */
  lemma {:induction false} FilterConcat<T(!new)>(s: seq<T>, t: seq<T>, keep: T -> bool)
    ensures Filter(s + t, keep) == Filter(s, keep) + Filter(t, keep)
  {
    if s != [] {
      assert (s + t)[1..] == s[1..] + t;
      FilterConcat(s[1..], t, keep);
    } else {
      assert s + t == t;
    }
  }

  /** `nodeRows.filter(row => row.networkId == networkId)`. */
  function NodeRowsInNetwork(nodeRows: seq<NetworkNodeRow>, networkId: int): (r: seq<NetworkNodeRow>)
    ensures forall row :: row in r <==> row in nodeRows && row.networkId == networkId
  {
    Filter(nodeRows, (row: NetworkNodeRow) => row.networkId == networkId)
  }

  /** `constructNetworkNodeWithIdReferences`: the node keyed by its id, keeping its point. */
  function ConstructNetworkNodeWithIdReferences(row: NetworkNodeRow): (entry: (int, ApiNode))
    ensures entry.0 == entry.1.id == row.id && entry.1.pointId == row.pointId
  {
    (row.id, ApiNode(row.id, row.pointId))
  }

  /** `new Map(rows.map(constructNetworkNodeWithIdReferences))`: a later row wins a repeated id. */
  function NodesMap(rows: seq<NetworkNodeRow>): (m: map<int, ApiNode>)
    ensures forall id :: id in m <==> exists k :: 0 <= k < |rows| && rows[k].id == id
  {
    if rows == [] then map[]
    else
      var init := rows[..|rows| - 1];
      assert forall k :: 0 <= k < |rows| - 1 ==> init[k] == rows[k];
      var entry := ConstructNetworkNodeWithIdReferences(rows[|rows| - 1]);
      NodesMap(init)[entry.0 := entry.1]
  }

  /**
   * `x in array` in JavaScript: true when `x` names one of the array's
   * indices, whatever the elements are.
   */
  function InArrayIndices<T>(x: int, elements: seq<T>): (b: bool)
    ensures b <==> 0 <= x < |elements|
  {
    0 <= x < |elements|
  }

  /** The network's edges as written: `edge.fromNodeId in nodeRowsInNetwork`, an index test. */
  function EdgesInNetworkAsWritten(edgeRows: seq<NetworkEdgeRow>, nodeRowsInNetwork: seq<NetworkNodeRow>)
    : (r: seq<NetworkEdgeRow>)
    ensures forall e :: e in r <==> e in edgeRows && 0 <= e.fromNodeId < |nodeRowsInNetwork|
  {
    Filter(edgeRows, (e: NetworkEdgeRow) => InArrayIndices(e.fromNodeId, nodeRowsInNetwork))
  }

  /** The network's edges as the comment describes them: those leaving one of its nodes. */
  function EdgesInNetwork(edgeRows: seq<NetworkEdgeRow>, nodeRowsInNetwork: seq<NetworkNodeRow>)
    : (r: seq<NetworkEdgeRow>)
    ensures forall e :: e in r <==> e in edgeRows && exists node :: node in nodeRowsInNetwork && node.id == e.fromNodeId
  {
    Filter(edgeRows, (e: NetworkEdgeRow) => exists node :: node in nodeRowsInNetwork && node.id == e.fromNodeId)
  }

  /** `constructNetworkWithIdReferences` as written. */
  function ConstructNetworkWithIdReferencesAsWritten(networkRow: NetworkRow, nodeRows: seq<NetworkNodeRow>,
                                                     edgeRows: seq<NetworkEdgeRow>): (n: ApiNetwork)
    ensures n.id == networkRow.id
    ensures n.nodes == NodesMap(NodeRowsInNetwork(nodeRows, networkRow.id))
    ensures n.edges == EdgesInNetworkAsWritten(edgeRows, NodeRowsInNetwork(nodeRows, networkRow.id))
  {
    var nodeRowsInNetwork := NodeRowsInNetwork(nodeRows, networkRow.id);
    ApiNetwork(networkRow.id, NodesMap(nodeRowsInNetwork), EdgesInNetworkAsWritten(edgeRows, nodeRowsInNetwork))
  }

  /**
   * `constructNetworkWithIdReferences` keeping the edges that leave a node
   * of the network: the id, the network's nodes keyed by id, and those
   * edges in input order.
   */
  function ConstructNetworkWithIdReferences(networkRow: NetworkRow, nodeRows: seq<NetworkNodeRow>,
                                            edgeRows: seq<NetworkEdgeRow>): (n: ApiNetwork)
    ensures n.id == networkRow.id
    ensures forall id :: id in n.nodes <==> exists row :: row in nodeRows && row.networkId == networkRow.id && row.id == id
    ensures forall id :: id in n.nodes ==> n.nodes[id].id == id
    ensures forall e :: e in n.edges <==> e in edgeRows && e.fromNodeId in n.nodes
  {
    var nodeRowsInNetwork := NodeRowsInNetwork(nodeRows, networkRow.id);
    var nodes := NodesMap(nodeRowsInNetwork);
    assert forall id :: id in nodes <==> exists row :: row in nodeRowsInNetwork && row.id == id by {
      forall id | id in nodes
        ensures exists row :: row in nodeRowsInNetwork && row.id == id
      {
        var k :| 0 <= k < |nodeRowsInNetwork| && nodeRowsInNetwork[k].id == id;
        assert nodeRowsInNetwork[k] in nodeRowsInNetwork;
      }
    }
    assert forall id :: id in nodes ==> nodes[id].id == id by {
      forall id | id in nodes
        ensures nodes[id].id == id
      {
        NodesMapEntry(nodeRowsInNetwork, id);
      }
    }
    ApiNetwork(networkRow.id, nodes, EdgesInNetwork(edgeRows, nodeRowsInNetwork))
  }

  /** Each id maps to the node built from the last row with that id. */
  lemma {:induction false} NodesMapLastWins(rows: seq<NetworkNodeRow>, k: int)
    requires 0 <= k < |rows| && forall j :: k < j < |rows| ==> rows[j].id != rows[k].id
    ensures rows[k].id in NodesMap(rows)
    ensures NodesMap(rows)[rows[k].id] == ConstructNetworkNodeWithIdReferences(rows[k]).1
  {
    if k < |rows| - 1 {
      var init := rows[..|rows| - 1];
      assert forall j :: 0 <= j < |init| ==> init[j] == rows[j];
      NodesMapLastWins(init, k);
    }
  }

  /** Each entry of the node map is keyed by its own id. */
  lemma {:induction false} NodesMapEntry(rows: seq<NetworkNodeRow>, id: int)
    requires id in NodesMap(rows)
    ensures NodesMap(rows)[id].id == id
  {
    var init := rows[..|rows| - 1];
    if rows[|rows| - 1].id != id {
      NodesMapEntry(init, id);
    }
  }

  /**
   * `constructNetworksWithIdReferences` as written: one network per network
   * row, keyed by the row id, each built as written. A network row is
   * nothing but its id, so rows sharing an id build the same network.
   */
  function ConstructNetworksWithIdReferencesAsWritten(networkRows: seq<NetworkRow>, nodeRows: seq<NetworkNodeRow>,
                                                      edgeRows: seq<NetworkEdgeRow>): (m: map<int, ApiNetwork>)
    ensures forall id :: id in m <==> NetworkRow(id) in networkRows
    ensures forall id :: id in m ==> m[id] == ConstructNetworkWithIdReferencesAsWritten(NetworkRow(id), nodeRows, edgeRows)
  {
    if networkRows == [] then map[]
    else
      var init, last := networkRows[..|networkRows| - 1], networkRows[|networkRows| - 1];
      assert networkRows == init + [last];
      ConstructNetworksWithIdReferencesAsWritten(init, nodeRows, edgeRows)[last.id := ConstructNetworkWithIdReferencesAsWritten(last, nodeRows, edgeRows)]
  }

  /**
   * `constructNetworksWithIdReferences` with each network's edges chosen
   * by membership of their start node.
   */
  function ConstructNetworksWithIdReferences(networkRows: seq<NetworkRow>, nodeRows: seq<NetworkNodeRow>,
                                             edgeRows: seq<NetworkEdgeRow>): (m: map<int, ApiNetwork>)
    ensures forall id :: id in m <==> NetworkRow(id) in networkRows
    ensures forall id :: id in m ==> m[id] == ConstructNetworkWithIdReferences(NetworkRow(id), nodeRows, edgeRows)
  {
    if networkRows == [] then map[]
    else
      var init, last := networkRows[..|networkRows| - 1], networkRows[|networkRows| - 1];
      assert networkRows == init + [last];
      ConstructNetworksWithIdReferences(init, nodeRows, edgeRows)[last.id := ConstructNetworkWithIdReferences(last, nodeRows, edgeRows)]
  }

  /**
   * The two loaders build networks under the same ids with the same nodes;
   * they differ only in which edges each network keeps.
   */
  lemma NetworksDifferOnlyInEdges(networkRows: seq<NetworkRow>, nodeRows: seq<NetworkNodeRow>, edgeRows: seq<NetworkEdgeRow>)
    ensures var asWritten, corrected := ConstructNetworksWithIdReferencesAsWritten(networkRows, nodeRows, edgeRows),
                                        ConstructNetworksWithIdReferences(networkRows, nodeRows, edgeRows);
      && asWritten.Keys == corrected.Keys
      && forall id :: id in corrected ==>
           asWritten[id].id == corrected[id].id == id && asWritten[id].nodes == corrected[id].nodes
  {
  }

  // ---- The index test against the membership test ----

  /**
   * A network whose only node has id 10 and an edge leaving that node: as
   * written the edge is dropped, because 10 is not an index of a
   * one-element array.
   */
  lemma EdgeFromOwnNodeDroppedAsWritten()
    ensures var nodes, edge := [NetworkNodeRow(10, 1, 5)], NetworkEdgeRow(10, 10);
      && ConstructNetworkWithIdReferencesAsWritten(NetworkRow(1), nodes, [edge]).edges == []
      && ConstructNetworkWithIdReferences(NetworkRow(1), nodes, [edge]).edges == [edge]
  {
    var nodes, edge := [NetworkNodeRow(10, 1, 5)], NetworkEdgeRow(10, 10);
    assert NodeRowsInNetwork(nodes, 1) == nodes;
    assert nodes[0] in nodes;
  }

  /**
   * Conversely, as written an edge from another network is kept when its
   * start id happens to be an index: node id 0 belongs to network 2, yet
   * network 1 with one node keeps the edge leaving it.
   */
  lemma ForeignEdgeKeptAsWritten()
    ensures var nodes, edge := [NetworkNodeRow(10, 1, 5), NetworkNodeRow(0, 2, 6)], NetworkEdgeRow(0, 0);
      && ConstructNetworkWithIdReferencesAsWritten(NetworkRow(1), nodes, [edge]).edges == [edge]
      && ConstructNetworkWithIdReferences(NetworkRow(1), nodes, [edge]).edges == []
  {
    var nodes, edge := [NetworkNodeRow(10, 1, 5), NetworkNodeRow(0, 2, 6)], NetworkEdgeRow(0, 0);
    var inNetwork := NodeRowsInNetwork(nodes, 1);
    assert nodes[0] in inNetwork;
    assert |inNetwork| == 1 by {
      assert inNetwork == Filter(nodes, (row: NetworkNodeRow) => row.networkId == 1);
      assert inNetwork == [nodes[0]];
    }
  }
}
