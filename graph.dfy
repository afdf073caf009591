/**
 The graph of graph.js: an undirected adjacency list built from a stream of
 edges. Nodes are registered by name in first-seen order and get dense
 indices; every edge is kept, and appends each endpoint's index to the other
 endpoint's row.
 */
module GraphModel {
  import opened Elements
  import opened Adjacency

  class Graph<N(==)> {
    /** Number of registered nodes. */
    var cnt: nat
    /** Name of each registered node to its index. */
    var idxMap: map<N, nat>
    /** Registered nodes, by index: the first node seen with each name. */
    var nodeList: seq<Node<N>>
    /** Adjacency rows, by index. */
    var adj: seq<seq<nat>>
    /** Every edge added, in order, repeats and self-loops included. */
    var edgeList: seq<Edge<N>>

    /** The fields as a value. */
    ghost function Fields(): Snapshot<N>
      reads this
    {
      Snapshot(cnt, idxMap, nodeList, adj)
    }

    /** The fields are the graph that `edgeList` builds. */
    ghost predicate Valid()
      reads this
    {
      Represents(edgeList, Fields())
    }

    /** Builds the graph by adding the edges one by one, in order. */
    constructor (edges: seq<Edge<N>>)
      ensures Valid()
      ensures edgeList == edges
    {
      cnt := 0;
      adj := [];
      edgeList := [];
      nodeList := [];
      idxMap := map[];
      new;
      for k := 0 to |edges|
        invariant Valid()
        invariant edgeList == edges[..k]
      {
        assert edges[..k + 1] == edges[..k] + [edges[k]];
        AddEdge(edges[k]);
      }
      assert edges[..|edges|] == edges;
    }

    /** Registers `nd` under its name unless that name is already known; a
        new node takes the next index and gets an empty row. */
    method InsertNode(nd: Node<N>)
      requires Registry(Fields())
      modifies this
      ensures Fields() == Register(old(Fields()), nd)
      ensures Registry(Fields())
      ensures edgeList == old(edgeList)
    {
      RegisterKeeps(Fields(), nd);
      if nd.name !in idxMap {
        idxMap := idxMap[nd.name := cnt];
        adj := adj + [[]];
        nodeList := nodeList + [nd];
        cnt := cnt + 1;
      }
    }

    /** Adds `e`: keeps it, registers both endpoints, and appends the index of
        `u` to the row of `v` and then the index of `v` to the row of `u`. */
    method AddEdge(e: Edge<N>)
      requires Valid()
      modifies this
      ensures Valid()
      ensures edgeList == old(edgeList) + [e]
      ensures Fields() == AddedEdge(old(Fields()), e)
    {
      ghost var es, s0 := edgeList, Fields();
      ghost var s := Register(Register(s0, e.v), e.u);
      AddEdgeStep(es, e, s0);
      BothRegistered(s0, e);
      edgeList := edgeList + [e];
      InsertNode(e.v);
      InsertNode(e.u);
      assert Fields() == s;
      var v := idxMap[e.v.name];
      var u := idxMap[e.u.name];
      adj := adj[v := adj[v] + [u]];
      adj := adj[u := adj[u] + [v]];
      assert adj == LinkedRows(s, e);
    }
  }
}
