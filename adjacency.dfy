/**
 A declarative description of what a graph built from a stream of edges
 holds: which nodes it registers, at which index, and what each adjacency
 row contains. The class in module GraphModel builds the same thing step by
 step; its invariant says that its fields are exactly what is defined here
 for the edges it has seen, and the lemmas below are the properties of that
 description.
 */
module Adjacency {
  import opened Elements

  // ---------------------------------------------------------------------
  // Endpoints and names
  // ---------------------------------------------------------------------

  /** The endpoints of an edge stream in registration order: `v`, then `u`,
      edge after edge. */
  ghost function Endpoints<N>(es: seq<Edge<N>>): (r: seq<Node<N>>)
    ensures |r| == 2 * |es|
  {
    if es == [] then [] else Endpoints(es[..|es| - 1]) + [es[|es| - 1].v, es[|es| - 1].u]
  }

  /** One edge more adds its `v` and then its `u` to the endpoint stream. */
  lemma EndpointsAppend<N>(es: seq<Edge<N>>, e: Edge<N>)
    ensures Endpoints(es + [e]) == Endpoints(es) + [e.v, e.u] == Endpoints(es) + [e.v] + [e.u]
  {
  }

  /** The set of names carried by a sequence of nodes. */
  ghost function Names<N>(ns: seq<Node<N>>): set<N>
  {
    set n <- ns :: n.name
  }

  /** Appending a node adds exactly its name. */
  lemma NamesAppend<N>(ns: seq<Node<N>>, x: Node<N>)
    ensures Names(ns + [x]) == Names(ns) + {x.name}
  {
  }

  /** No two positions of `ns` hold nodes with the same name. */
  ghost predicate Distinct<N>(ns: seq<Node<N>>)
  {
    forall i, j :: 0 <= i < |ns| && 0 <= j < |ns| && ns[i].name == ns[j].name ==> i == j
  }

  /** Nodes with pairwise distinct names are as many as their names. */
  lemma {:induction false} DistinctNamesCount<N>(ns: seq<Node<N>>)
    requires Distinct(ns)
    ensures |Names(ns)| == |ns|
  {
    if ns != [] {
      var earlier, x := ns[..|ns| - 1], ns[|ns| - 1];
      assert ns == earlier + [x];
      assert Distinct(earlier) by {
        forall i, j | 0 <= i < |earlier| && 0 <= j < |earlier| && earlier[i].name == earlier[j].name
          ensures i == j
        {
          assert ns[i] == earlier[i] && ns[j] == earlier[j];
        }
      }
      DistinctNamesCount(earlier);
      NamesAppend(earlier, x);
      forall i | 0 <= i < |earlier| ensures earlier[i].name != x.name {
        assert ns[i] == earlier[i];
      }
    }
  }

  // ---------------------------------------------------------------------
  // First-seen registration
  // ---------------------------------------------------------------------

  /** The nodes a stream registers: a node is kept exactly when no earlier
      node of the stream carries its name. */
  ghost function FirstSeen<N>(ns: seq<Node<N>>): seq<Node<N>>
  {
    if ns == [] then []
    else
      var earlier, x := ns[..|ns| - 1], ns[|ns| - 1];
      if x.name in Names(earlier) then FirstSeen(earlier) else FirstSeen(earlier) + [x]
  }

  /** The position of the first node of `ns` named `nm`. */
  ghost function FirstIndex<N>(ns: seq<Node<N>>, nm: N): (k: nat)
    requires nm in Names(ns)
    ensures k < |ns| && ns[k].name == nm && nm !in Names(ns[..k])
  {
    var earlier, x := ns[..|ns| - 1], ns[|ns| - 1];
    NamesAppend(earlier, x);
    assert ns == earlier + [x];
    if nm in Names(earlier) then
      var k := FirstIndex(earlier, nm);
      assert ns[..k] == earlier[..k];
      k
    else
      |ns| - 1
  }

  /** Registration keeps every name of the stream and no other. */
  lemma {:induction false} FirstSeenNames<N>(ns: seq<Node<N>>)
    ensures Names(FirstSeen(ns)) == Names(ns)
  {
    if ns != [] {
      var earlier, x := ns[..|ns| - 1], ns[|ns| - 1];
      assert ns == earlier + [x];
      FirstSeenNames(earlier);
      NamesAppend(earlier, x);
      NamesAppend(FirstSeen(earlier), x);
    }
  }

  /** Registration keeps one node per name. */
  lemma {:induction false} FirstSeenDistinct<N>(ns: seq<Node<N>>)
    ensures Distinct(FirstSeen(ns))
  {
    if ns != [] {
      var earlier, x := ns[..|ns| - 1], ns[|ns| - 1];
      FirstSeenDistinct(earlier);
      FirstSeenNames(earlier);
      if x.name !in Names(earlier) {
        var kept := FirstSeen(earlier);
        forall i | 0 <= i < |kept| ensures kept[i].name != x.name {
          assert kept[i] in kept;
        }
      }
    }
  }

  /** The node kept for each name is the first node of the stream with that
      name, and kept nodes appear in the order their names were first seen. */
  lemma {:induction false} FirstSeenKeepsFirst<N>(ns: seq<Node<N>>)
    ensures Names(FirstSeen(ns)) == Names(ns)
    ensures forall i :: 0 <= i < |FirstSeen(ns)| ==>
      ns[FirstIndex(ns, FirstSeen(ns)[i].name)] == FirstSeen(ns)[i]
    ensures forall i, j :: 0 <= i < j < |FirstSeen(ns)| ==>
      FirstIndex(ns, FirstSeen(ns)[i].name) < FirstIndex(ns, FirstSeen(ns)[j].name)
  {
    FirstSeenNames(ns);
    if ns != [] {
      var earlier, x := ns[..|ns| - 1], ns[|ns| - 1];
      FirstSeenKeepsFirst(earlier);
      var kept := FirstSeen(earlier);
      forall i | 0 <= i < |kept|
        ensures FirstIndex(ns, kept[i].name) == FirstIndex(earlier, kept[i].name)
      {
        assert kept[i] in kept;
      }
      if x.name !in Names(earlier) {
        assert FirstIndex(ns, x.name) == |ns| - 1;
      }
    }
  }

  // ---------------------------------------------------------------------
  // The name-to-index registry
  // ---------------------------------------------------------------------

  /** The state of a graph: how many nodes it has, the index of each name,
      the registered nodes and the adjacency rows. */
  datatype Snapshot<N> = Snapshot(cnt: nat, idxMap: map<N, nat>, nodeList: seq<Node<N>>, adj: seq<seq<nat>>)

  /** The registry part of a graph: `cnt` nodes and `cnt` rows, and a map
      from exactly the registered names to their positions. */
  ghost predicate Registry<N>(s: Snapshot<N>)
  {
    && |s.nodeList| == s.cnt
    && |s.adj| == s.cnt
    && s.idxMap.Keys == Names(s.nodeList)
    && forall i :: 0 <= i < s.cnt ==> s.nodeList[i].name in s.idxMap && s.idxMap[s.nodeList[i].name] == i
  }

  /** A registry is dense: one node per name, as many map entries as nodes,
      the indices are exactly 0..cnt-1, and no two names share an index. */
  lemma RegistryIsDense<N>(s: Snapshot<N>)
    requires Registry(s)
    ensures Distinct(s.nodeList)
    ensures |s.nodeList| == |s.adj| == s.cnt == |s.idxMap|
    ensures forall nm :: nm in s.idxMap ==> s.idxMap[nm] < s.cnt
    ensures forall i :: 0 <= i < s.cnt ==> i in s.idxMap.Values
    ensures forall x, y :: x in s.idxMap && y in s.idxMap && s.idxMap[x] == s.idxMap[y] ==> x == y
  {
    forall nm | nm in s.idxMap
      ensures exists i :: 0 <= i < s.cnt && s.nodeList[i].name == nm
    {
      var n :| n in s.nodeList && n.name == nm;
      var i :| 0 <= i < |s.nodeList| && s.nodeList[i] == n;
    }
    DistinctNamesCount(s.nodeList);
    assert |s.idxMap| == |s.idxMap.Keys|;
    forall i | 0 <= i < s.cnt ensures i in s.idxMap.Values {
      assert s.idxMap[s.nodeList[i].name] == i;
    }
  }

  /** A registered name has the index of a row. */
  lemma RegistryIndexInRange<N>(s: Snapshot<N>, nm: N)
    requires Registry(s)
    requires nm in s.idxMap
    ensures s.idxMap[nm] < s.cnt == |s.adj|
  {
  }

  /** Registering a node: an unknown name takes the next index, and the node
      and an empty row are appended; a known name changes nothing. */
  ghost function Register<N>(s: Snapshot<N>, nd: Node<N>): Snapshot<N>
  {
    if nd.name in s.idxMap then s
    else Snapshot(s.cnt + 1, s.idxMap[nd.name := s.cnt], s.nodeList + [nd], s.adj + [[]])
  }

  /** Registration keeps the registry, leaves the name registered, and keeps
      every earlier index, node and row; the only row it can add is empty. */
  lemma RegisterKeeps<N>(s: Snapshot<N>, nd: Node<N>)
    requires Registry(s)
    ensures Registry(Register(s, nd))
    ensures nd.name in Register(s, nd).idxMap
    ensures forall nm :: nm in s.idxMap ==>
      nm in Register(s, nd).idxMap && Register(s, nd).idxMap[nm] == s.idxMap[nm]
    ensures s.cnt <= Register(s, nd).cnt <= s.cnt + 1
    ensures s.nodeList <= Register(s, nd).nodeList
    ensures forall i :: 0 <= i < Register(s, nd).cnt ==>
      Register(s, nd).adj[i] == if i < s.cnt then s.adj[i] else []
  {
  }

  /** Registering the next endpoint of the stream registers what first-seen
      order keeps. */
  lemma FirstSeenStep<N>(ps: seq<Node<N>>, x: Node<N>, s: Snapshot<N>)
    requires s.nodeList == FirstSeen(ps)
    requires Registry(s)
    ensures FirstSeen(ps + [x]) == Register(s, x).nodeList
  {
    assert (ps + [x])[..|ps|] == ps;
    FirstSeenNames(ps);
  }

  // ---------------------------------------------------------------------
  // Adjacency rows
  // ---------------------------------------------------------------------

  /** The adjacency row of the node named `nm`: edge after edge, the index of
      `u` if `v` is named `nm`, then the index of `v` if `u` is named `nm`. */
  ghost function RowOf<N>(es: seq<Edge<N>>, nm: N, idx: map<N, nat>): seq<nat>
    requires Names(Endpoints(es)) <= idx.Keys
  {
    if es == [] then []
    else
      var e := es[|es| - 1];
      assert e.v in Endpoints(es) && e.u in Endpoints(es);
      RowOf(es[..|es| - 1], nm, idx)
        + (if e.v.name == nm then [idx[e.u.name]] else [])
        + (if e.u.name == nm then [idx[e.v.name]] else [])
  }

  /** One edge more extends a row by that edge's contributions, in push order. */
  lemma RowOfAppend<N>(es: seq<Edge<N>>, e: Edge<N>, nm: N, idx: map<N, nat>)
    requires Names(Endpoints(es + [e])) <= idx.Keys
    ensures Names(Endpoints(es)) <= idx.Keys && e.v.name in idx && e.u.name in idx
    ensures RowOf(es + [e], nm, idx)
            == RowOf(es, nm, idx)
               + (if e.v.name == nm then [idx[e.u.name]] else [])
               + (if e.u.name == nm then [idx[e.v.name]] else [])
  {
  }

  /** A row is the same under any map that agrees with `idx` on all of
      its keys, for instance `idx` extended with entries for new names. */
  lemma {:induction false} RowOfFrame<N>(es: seq<Edge<N>>, nm: N, idx: map<N, nat>, idx': map<N, nat>)
    requires Names(Endpoints(es)) <= idx.Keys
    requires forall x :: x in idx ==> x in idx' && idx'[x] == idx[x]
    ensures Names(Endpoints(es)) <= idx'.Keys
    ensures RowOf(es, nm, idx') == RowOf(es, nm, idx)
  {
    if es != [] {
      RowOfFrame(es[..|es| - 1], nm, idx, idx');
    }
  }

  /** A name no edge mentions has an empty row. */
  lemma {:induction false} RowOfUnseen<N>(es: seq<Edge<N>>, nm: N, idx: map<N, nat>)
    requires Names(Endpoints(es)) <= idx.Keys
    requires nm !in Names(Endpoints(es))
    ensures RowOf(es, nm, idx) == []
  {
    if es != [] {
      var e := es[|es| - 1];
      assert e.v in Endpoints(es) && e.u in Endpoints(es);
      RowOfUnseen(es[..|es| - 1], nm, idx);
    }
  }

  /** Every entry of a row is below any bound on the map's values. */
  lemma {:induction false} RowOfBounded<N>(es: seq<Edge<N>>, nm: N, idx: map<N, nat>, bound: nat)
    requires Names(Endpoints(es)) <= idx.Keys
    requires forall x :: x in idx ==> idx[x] < bound
    ensures forall k :: 0 <= k < |RowOf(es, nm, idx)| ==> RowOf(es, nm, idx)[k] < bound
  {
    if es != [] {
      RowOfBounded(es[..|es| - 1], nm, idx, bound);
    }
  }

  /** The number of edge endpoints named `nm`; a self-loop counts twice. */
  ghost function Degree<N>(es: seq<Edge<N>>, nm: N): nat
  {
    if es == [] then 0
    else
      var e := es[|es| - 1];
      Degree(es[..|es| - 1], nm) + (if e.v.name == nm then 1 else 0) + (if e.u.name == nm then 1 else 0)
  }

  /** A row holds one entry per endpoint occurrence of its name. */
  lemma {:induction false} RowOfLength<N>(es: seq<Edge<N>>, nm: N, idx: map<N, nat>)
    requires Names(Endpoints(es)) <= idx.Keys
    ensures |RowOf(es, nm, idx)| == Degree(es, nm)
  {
    if es != [] {
      RowOfLength(es[..|es| - 1], nm, idx);
    }
  }

  /** The number of edges joining a node named `a` to a node named `b`,
      counted once per orientation that matches; a self-loop on `a` counts
      twice towards `Links(es, a, a)`. */
  ghost function Links<N>(es: seq<Edge<N>>, a: N, b: N): nat
  {
    if es == [] then 0
    else
      var e := es[|es| - 1];
      Links(es[..|es| - 1], a, b)
        + (if e.v.name == a && e.u.name == b then 1 else 0)
        + (if e.u.name == a && e.v.name == b then 1 else 0)
  }

  /** The link count does not depend on the order of its two names. */
  lemma {:induction false} LinksSymmetric<N>(es: seq<Edge<N>>, a: N, b: N)
    ensures Links(es, a, b) == Links(es, b, a)
  {
    if es != [] {
      LinksSymmetric(es[..|es| - 1], a, b);
    }
  }

  /** The index of `b` occurs in the row of `a` once per link between them. */
  lemma {:induction false} RowOfMultiplicity<N>(es: seq<Edge<N>>, a: N, b: N, idx: map<N, nat>)
    requires Names(Endpoints(es)) <= idx.Keys
    requires b in idx
    requires forall x, y :: x in idx && y in idx && idx[x] == idx[y] ==> x == y
    ensures multiset(RowOf(es, a, idx))[idx[b]] == Links(es, a, b)
  {
    if es != [] {
      var earlier, e := es[..|es| - 1], es[|es| - 1];
      RowOfMultiplicity(earlier, a, b, idx);
      var first := if e.v.name == a then [idx[e.u.name]] else [];
      var second := if e.u.name == a then [idx[e.v.name]] else [];
      assert RowOf(es, a, idx) == RowOf(earlier, a, idx) + first + second;
      assert multiset(RowOf(es, a, idx)) == multiset(RowOf(earlier, a, idx)) + multiset(first) + multiset(second);
    }
  }

  // ---------------------------------------------------------------------
  // The whole graph
  // ---------------------------------------------------------------------

  /** `s` is the graph that the edge stream `es` builds: the first-seen
      nodes, a dense registry of their names, and one row per node as
      `RowOf` describes it. */
  ghost predicate Represents<N>(es: seq<Edge<N>>, s: Snapshot<N>)
  {
    && s.nodeList == FirstSeen(Endpoints(es))
    && Registry(s)
    && Names(Endpoints(es)) <= s.idxMap.Keys
    && forall i :: 0 <= i < s.cnt ==> s.adj[i] == RowOf(es, s.nodeList[i].name, s.idxMap)
  }

  /** Appending `u` to row `v` and then `v` to row `u` of rows that extend
      `adj0` with empty rows. */
  lemma AppendBoth(adj0: seq<seq<nat>>, cnt0: nat, adj1: seq<seq<nat>>, v: nat, u: nat, adj: seq<seq<nat>>)
    requires cnt0 <= |adj0| && cnt0 <= |adj1| && v < |adj1| && u < |adj1|
    requires forall i :: 0 <= i < |adj1| ==> adj1[i] == if i < cnt0 then adj0[i] else []
    requires adj == var mid := adj1[v := adj1[v] + [u]]; mid[u := mid[u] + [v]]
    ensures |adj| == |adj1|
    ensures forall i :: 0 <= i < |adj| ==>
      adj[i] == (if i < cnt0 then adj0[i] else [])
                + (if i == v then [u] else [])
                + (if i == u then [v] else [])
  {
  }

  /** Both endpoints registered, one after the other. */
  lemma NodesAfterEdge<N>(es: seq<Edge<N>>, e: Edge<N>, s0: Snapshot<N>)
    requires s0.nodeList == FirstSeen(Endpoints(es))
    requires Registry(s0)
    ensures Register(Register(s0, e.v), e.u).nodeList == FirstSeen(Endpoints(es + [e]))
    ensures Registry(Register(Register(s0, e.v), e.u))
    ensures Names(Endpoints(es + [e])) <= Register(Register(s0, e.v), e.u).idxMap.Keys
  {
    var s1 := Register(s0, e.v);
    EndpointsAppend(es, e);
    FirstSeenStep(Endpoints(es), e.v, s0);
    RegisterKeeps(s0, e.v);
    FirstSeenStep(Endpoints(es) + [e.v], e.u, s1);
    RegisterKeeps(s1, e.u);
    FirstSeenNames(Endpoints(es + [e]));
  }

  /** The row of a node after one edge more: its row before (empty for a node
      the edge introduces) with the edge's contributions appended. */
  lemma RowAfterEdge<N>(es: seq<Edge<N>>, e: Edge<N>, idx0: map<N, nat>, idx: map<N, nat>, nm: N, before: seq<nat>)
    requires Names(Endpoints(es)) <= idx0.Keys
    requires Names(Endpoints(es + [e])) <= idx.Keys
    requires forall x :: x in idx0 ==> x in idx && idx[x] == idx0[x]
    requires before == if nm in idx0 then RowOf(es, nm, idx0) else []
    ensures RowOf(es + [e], nm, idx)
            == before
               + (if e.v.name == nm then [idx[e.u.name]] else [])
               + (if e.u.name == nm then [idx[e.v.name]] else [])
  {
    RowOfAppend(es, e, nm, idx);
    RowOfFrame(es, nm, idx0, idx);
    if nm !in idx0 {
      RowOfUnseen(es, nm, idx0);
    }
  }

  /** The rows after `e`: with both endpoints registered, the index of `u`
      appended to the row of `v`, then the index of `v` to the row of `u`. */
  ghost function LinkedRows<N>(s: Snapshot<N>, e: Edge<N>): seq<seq<nat>>
    requires e.v.name in s.idxMap && e.u.name in s.idxMap
    requires s.idxMap[e.v.name] < |s.adj| && s.idxMap[e.u.name] < |s.adj|
  {
    var v, u := s.idxMap[e.v.name], s.idxMap[e.u.name];
    var mid := s.adj[v := s.adj[v] + [u]];
    mid[u := mid[u] + [v]]
  }

  /** `adj` is `adj0` (rows of `cnt0` nodes) after linking `e` under `idx`:
      one row per index, earlier rows kept, new rows empty, the index of `u`
      appended to the row of `v` and the index of `v` to the row of `u`. */
  ghost predicate Linked<N>(adj0: seq<seq<nat>>, cnt0: nat, idx: map<N, nat>, e: Edge<N>, adj: seq<seq<nat>>)
  {
    && cnt0 <= |adj0|
    && e.v.name in idx && e.u.name in idx
    && forall i :: 0 <= i < |adj| ==>
         adj[i] == (if i < cnt0 then adj0[i] else [])
                   + (if i == idx[e.v.name] then [idx[e.u.name]] else [])
                   + (if i == idx[e.u.name] then [idx[e.v.name]] else [])
  }

  /** Registering both endpoints of `e` keeps the registry, leaves both names
      registered with indices of rows, and keeps every earlier index and node. */
  lemma BothRegistered<N>(s0: Snapshot<N>, e: Edge<N>)
    requires Registry(s0)
    ensures var s := Register(Register(s0, e.v), e.u);
      && Registry(s)
      && e.v.name in s.idxMap && e.u.name in s.idxMap
      && s.idxMap[e.v.name] < |s.adj| && s.idxMap[e.u.name] < |s.adj|
      && (forall nm :: nm in s0.idxMap ==> nm in s.idxMap && s.idxMap[nm] == s0.idxMap[nm])
      && s0.cnt <= s.cnt && s0.nodeList <= s.nodeList
  {
    var s1 := Register(s0, e.v);
    var s := Register(s1, e.u);
    RegisterKeeps(s0, e.v);
    RegisterKeeps(s1, e.u);
    RegistryIndexInRange(s, e.v.name);
    RegistryIndexInRange(s, e.u.name);
  }

  /** The graph after one edge more: both endpoints registered, then the two
      endpoints linked. */
  ghost function AddedEdge<N>(s0: Snapshot<N>, e: Edge<N>): Snapshot<N>
    requires Registry(s0)
  {
    BothRegistered(s0, e);
    var s := Register(Register(s0, e.v), e.u);
    s.(adj := LinkedRows(s, e))
  }

  /** The shape of one edge more, on any registry: both endpoints end up
      registered, every earlier index, node and row is kept, new nodes start
      empty, and only the rows of the two endpoints grow, by one entry each
      (a self-loop's row by two). */
  lemma AddedEdgeShape<N>(s0: Snapshot<N>, e: Edge<N>)
    requires Registry(s0)
    ensures var s := AddedEdge(s0, e);
      && Registry(s)
      && e.v.name in s.idxMap && e.u.name in s.idxMap
      && (forall nm :: nm in s0.idxMap ==> nm in s.idxMap && s.idxMap[nm] == s0.idxMap[nm])
      && s0.cnt <= s.cnt && s0.nodeList <= s.nodeList
      && Linked(s0.adj, s0.cnt, s.idxMap, e, s.adj)
  {
    var s := Register(Register(s0, e.v), e.u);
    BothRegistered(s0, e);
    AppendBoth(s0.adj, s0.cnt, s.adj, s.idxMap[e.v.name], s.idxMap[e.u.name], LinkedRows(s, e));
  }

  /** A self-loop appends its node's own index to its row twice. */
  lemma SelfLoopTwice<N>(s0: Snapshot<N>, e: Edge<N>)
    requires Registry(s0)
    requires e.v.name == e.u.name
    ensures var s := AddedEdge(s0, e);
      && e.v.name in s.idxMap && s.idxMap[e.v.name] < |s.adj|
      && var i := s.idxMap[e.v.name];
         s.adj[i] == (if i < s0.cnt then s0.adj[i] else []) + [i, i]
  {
  }

  /** One edge more: registering both endpoints of `e` and linking them
      gives the graph of the longer stream. */
  lemma AddEdgeStep<N>(es: seq<Edge<N>>, e: Edge<N>, s0: Snapshot<N>)
    requires Represents(es, s0)
    ensures Represents(es + [e], AddedEdge(s0, e))
  {
    var s := Register(Register(s0, e.v), e.u);
    BothRegistered(s0, e);
    AddedEdgeShape(s0, e);
    NodesAfterEdge(es, e, s0);
    var adj := LinkedRows(s, e);
    RegistryIsDense(s);
    RegistryIsDense(s0);
    forall i | 0 <= i < s.cnt
      ensures adj[i] == RowOf(es + [e], s.nodeList[i].name, s.idxMap)
    {
      var nm := s.nodeList[i].name;
      assert nm in s0.idxMap <==> i < s0.cnt by {
        if i < s0.cnt {
          assert s.idxMap[s0.nodeList[i].name] == i;
        }
      }
      RowAfterEdge(es, e, s0.idxMap, s.idxMap, nm, if i < s0.cnt then s0.adj[i] else []);
    }
  }

  /** Deduplication: the graph has exactly one node per distinct endpoint
      name, however often names repeat or edges loop. */
  lemma DistinctNamesRegistered<N>(es: seq<Edge<N>>, s: Snapshot<N>)
    requires Represents(es, s)
    ensures s.cnt == |Names(Endpoints(es))|
    ensures s.idxMap.Keys == Names(Endpoints(es))
  {
    FirstSeenNames(Endpoints(es));
    FirstSeenDistinct(Endpoints(es));
    DistinctNamesCount(s.nodeList);
  }

  /** Every adjacency entry is the index of a registered node. */
  lemma EntriesInRange<N>(es: seq<Edge<N>>, s: Snapshot<N>)
    requires Represents(es, s)
    ensures forall i, k :: 0 <= i < s.cnt && 0 <= k < |s.adj[i]| ==> s.adj[i][k] < s.cnt
  {
    RegistryIsDense(s);
    forall i | 0 <= i < s.cnt
      ensures forall k :: 0 <= k < |s.adj[i]| ==> s.adj[i][k] < s.cnt
    {
      RowOfBounded(es, s.nodeList[i].name, s.idxMap, s.cnt);
    }
  }

  /** Adjacency is symmetric: `j` occurs in row `i` as often as `i` occurs in
      row `j`, namely once per link between the two nodes. */
  lemma AdjacencySymmetric<N>(es: seq<Edge<N>>, s: Snapshot<N>)
    requires Represents(es, s)
    ensures forall i, j :: 0 <= i < s.cnt && 0 <= j < s.cnt ==>
      multiset(s.adj[i])[j] == Links(es, s.nodeList[i].name, s.nodeList[j].name) == multiset(s.adj[j])[i]
  {
    RegistryIsDense(s);
    forall i, j | 0 <= i < s.cnt && 0 <= j < s.cnt
      ensures multiset(s.adj[i])[j] == Links(es, s.nodeList[i].name, s.nodeList[j].name) == multiset(s.adj[j])[i]
    {
      RowOfMultiplicity(es, s.nodeList[i].name, s.nodeList[j].name, s.idxMap);
      RowOfMultiplicity(es, s.nodeList[j].name, s.nodeList[i].name, s.idxMap);
      LinksSymmetric(es, s.nodeList[i].name, s.nodeList[j].name);
    }
  }

  /** Both endpoints of every edge occur in the endpoint stream. */
  lemma {:induction false} EndpointsContain<N>(es: seq<Edge<N>>, k: nat)
    requires k < |es|
    ensures es[k].v in Endpoints(es) && es[k].u in Endpoints(es)
  {
    var earlier := es[..|es| - 1];
    if k < |es| - 1 {
      EndpointsContain(earlier, k);
      assert earlier[k] == es[k];
    }
  }

  /** Every edge is at least one link between its endpoints. */
  lemma {:induction false} LinksOfEdge<N>(es: seq<Edge<N>>, k: nat)
    requires k < |es|
    ensures Links(es, es[k].v.name, es[k].u.name) >= 1
  {
    var earlier := es[..|es| - 1];
    if k < |es| - 1 {
      LinksOfEdge(earlier, k);
      assert earlier[k] == es[k];
    }
  }

  /** Every edge added is in the adjacency list both ways: the index of `u`
      is in the row of `v`, and the index of `v` in the row of `u`. */
  lemma EdgePresent<N>(es: seq<Edge<N>>, s: Snapshot<N>, k: nat)
    requires Represents(es, s)
    requires k < |es|
    ensures var v, u := es[k].v.name, es[k].u.name;
      && v in s.idxMap && u in s.idxMap
      && s.idxMap[v] < |s.adj| && s.idxMap[u] < |s.adj|
      && s.idxMap[u] in s.adj[s.idxMap[v]]
      && s.idxMap[v] in s.adj[s.idxMap[u]]
  {
    var v, u := es[k].v.name, es[k].u.name;
    EndpointsContain(es, k);
    assert v in Names(Endpoints(es)) && u in Names(Endpoints(es));
    RegistryIndexInRange(s, v);
    RegistryIndexInRange(s, u);
    RegistryIsDense(s);
    var i, j := s.idxMap[v], s.idxMap[u];
    assert s.nodeList[i].name == v && s.nodeList[j].name == u;
    AdjacencySymmetric(es, s);
    LinksOfEdge(es, k);
    assert multiset(s.adj[i])[j] >= 1 && multiset(s.adj[j])[i] >= 1;
  }

  // ---------------------------------------------------------------------
  // Counting entries
  // ---------------------------------------------------------------------

  /** The number of entries over all rows. */
  function Total(adj: seq<seq<nat>>): nat
  {
    if adj == [] then 0 else Total(adj[..|adj| - 1]) + |adj[|adj| - 1]|
  }

  /** The number of nodes of `ns` named `nm`. */
  ghost function Hits<N>(ns: seq<Node<N>>, nm: N): nat
  {
    if ns == [] then 0 else Hits(ns[..|ns| - 1], nm) + (if ns[|ns| - 1].name == nm then 1 else 0)
  }

  /** The degrees of the names of `ns`, added up. */
  ghost function DegreeSum<N>(es: seq<Edge<N>>, ns: seq<Node<N>>): nat
  {
    if ns == [] then 0 else DegreeSum(es, ns[..|ns| - 1]) + Degree(es, ns[|ns| - 1].name)
  }

  /** In a list of distinct names, a name occurs once if present, else never. */
  lemma {:induction false} HitsOfDistinct<N>(ns: seq<Node<N>>, nm: N)
    requires Distinct(ns)
    ensures Hits(ns, nm) == if nm in Names(ns) then 1 else 0
  {
    if ns != [] {
      var earlier, x := ns[..|ns| - 1], ns[|ns| - 1];
      assert ns == earlier + [x];
      assert Distinct(earlier) by {
        forall i, j | 0 <= i < |earlier| && 0 <= j < |earlier| && earlier[i].name == earlier[j].name
          ensures i == j
        {
          assert ns[i] == earlier[i] && ns[j] == earlier[j];
        }
      }
      HitsOfDistinct(earlier, nm);
      NamesAppend(earlier, x);
      forall i | 0 <= i < |earlier| ensures earlier[i].name != x.name {
        assert ns[i] == earlier[i];
      }
    }
  }

  /** Without edges every degree is zero. */
  lemma {:induction false} DegreeSumEmpty<N>(ns: seq<Node<N>>)
    ensures DegreeSum([], ns) == 0
  {
    if ns != [] {
      DegreeSumEmpty(ns[..|ns| - 1]);
    }
  }

  /** One edge more adds the occurrences of its two endpoint names. */
  lemma {:induction false} DegreeSumStep<N>(es: seq<Edge<N>>, e: Edge<N>, ns: seq<Node<N>>)
    ensures DegreeSum(es + [e], ns) == DegreeSum(es, ns) + Hits(ns, e.v.name) + Hits(ns, e.u.name)
  {
    assert (es + [e])[..|es|] == es;
    if ns != [] {
      DegreeSumStep(es, e, ns[..|ns| - 1]);
    }
  }

  /** Each edge contributes two endpoint occurrences, so over a list of nodes
      that names every endpoint exactly once the degrees add up to twice the
      number of edges. */
  lemma {:induction false} DoubleCounting<N>(es: seq<Edge<N>>, ns: seq<Node<N>>)
    requires Distinct(ns)
    requires Names(Endpoints(es)) <= Names(ns)
    ensures DegreeSum(es, ns) == 2 * |es|
  {
    if es == [] {
      DegreeSumEmpty(ns);
    } else {
      var earlier, e := es[..|es| - 1], es[|es| - 1];
      assert es == earlier + [e];
      EndpointsAppend(earlier, e);
      assert e.v in Endpoints(es) && e.u in Endpoints(es);
      DoubleCounting(earlier, ns);
      DegreeSumStep(earlier, e, ns);
      HitsOfDistinct(ns, e.v.name);
      HitsOfDistinct(ns, e.u.name);
    }
  }

  /** Rows as long as their nodes' degrees hold the sum of the degrees. */
  lemma {:induction false} TotalOfRows<N>(adj: seq<seq<nat>>, es: seq<Edge<N>>, ns: seq<Node<N>>)
    requires |adj| == |ns|
    requires forall i :: 0 <= i < |ns| ==> |adj[i]| == Degree(es, ns[i].name)
    ensures Total(adj) == DegreeSum(es, ns)
  {
    if adj != [] {
      TotalOfRows(adj[..|adj| - 1], es, ns[..|ns| - 1]);
    }
  }

  /** The rows of a graph hold exactly two entries per edge. */
  lemma EntriesTwicePerEdge<N>(es: seq<Edge<N>>, s: Snapshot<N>)
    requires Represents(es, s)
    ensures Total(s.adj) == 2 * |es|
  {
    forall i | 0 <= i < s.cnt ensures |s.adj[i]| == Degree(es, s.nodeList[i].name) {
      RowOfLength(es, s.nodeList[i].name, s.idxMap);
    }
    TotalOfRows(s.adj, es, s.nodeList);
    FirstSeenNames(Endpoints(es));
    FirstSeenDistinct(Endpoints(es));
    DoubleCounting(es, s.nodeList);
  }

  // ---------------------------------------------------------------------
  // A worked case
  // ---------------------------------------------------------------------

  /** A node is kept exactly when its name has not been seen before. */
  lemma FirstSeenAppend<N>(ns: seq<Node<N>>, x: Node<N>)
    ensures FirstSeen(ns + [x]) == if x.name in Names(ns) then FirstSeen(ns) else FirstSeen(ns) + [x]
  {
  }

  /** Edges (A, B) and (B, C) register A, B and C, in that order. */
  lemma ChainOfThreeNodes<N>(a: Node<N>, b: Node<N>, c: Node<N>)
    requires a.name != b.name && b.name != c.name && a.name != c.name
    ensures Endpoints([Edge(a, b), Edge(b, c)]) == [a, b, b, c]
    ensures FirstSeen([a, b, b, c]) == [a, b, c]
  {
    var e1, e2 := Edge(a, b), Edge(b, c);
    EndpointsAppend([], e1);
    assert [] + [e1] == [e1];
    EndpointsAppend([e1], e2);
    assert [e1] + [e2] == [e1, e2];
    assert Endpoints([e1, e2]) == [a, b, b, c];
    ChainFirstSeen(a, b, c);
  }

  /** First-seen registration of A, B, B, C keeps A, B and C. */
  lemma ChainFirstSeen<N>(a: Node<N>, b: Node<N>, c: Node<N>)
    requires a.name != b.name && b.name != c.name && a.name != c.name
    ensures FirstSeen([a, b, b, c]) == [a, b, c]
  {
    var s0: seq<Node<N>> := [];
    var s1, s2, s3, s4 := [a], [a, b], [a, b, b], [a, b, b, c];
    assert s1 == s0 + [a];
    assert s2 == s1 + [b];
    assert s3 == s2 + [b];
    assert s4 == s3 + [c];
    assert Names(s0) == {};
    NamesAppend(s0, a);
    NamesAppend(s1, b);
    NamesAppend(s2, b);
    assert Names(s1) == {a.name};
    assert Names(s2) == {a.name, b.name};
    assert Names(s3) == {a.name, b.name};
    FirstSeenAppend(s0, a);
    assert FirstSeen(s1) == [a];
    FirstSeenAppend(s1, b);
    assert FirstSeen(s2) == [a, b];
    FirstSeenAppend(s2, b);
    assert FirstSeen(s3) == [a, b];
    FirstSeenAppend(s3, c);
    assert FirstSeen(s4) == [a, b, c];
  }

  /** With A, B and C at indices 0, 1 and 2, edges (A, B) and (B, C) give the
      rows [1], [0, 2] and [1]. */
  lemma ChainOfThreeRows<N>(a: Node<N>, b: Node<N>, c: Node<N>)
    requires a.name != b.name && b.name != c.name && a.name != c.name
    ensures var idx := map[a.name := 0, b.name := 1, c.name := 2];
      Names(Endpoints([Edge(a, b), Edge(b, c)])) <= idx.Keys
      && RowOf([Edge(a, b), Edge(b, c)], a.name, idx) == [1]
      && RowOf([Edge(a, b), Edge(b, c)], b.name, idx) == [0, 2]
      && RowOf([Edge(a, b), Edge(b, c)], c.name, idx) == [1]
  {
    var e1, e2 := Edge(a, b), Edge(b, c);
    var idx := map[a.name := 0, b.name := 1, c.name := 2];
    ChainOfThreeNodes(a, b, c);
    assert Names([a, b, b, c]) <= idx.Keys by {
      forall n | n in [a, b, b, c] ensures n.name in idx.Keys { }
    }
    assert [e1] + [e2] == [e1, e2] && [] + [e1] == [e1];
    RowOfAppend([e1], e2, a.name, idx);
    RowOfAppend([e1], e2, b.name, idx);
    RowOfAppend([e1], e2, c.name, idx);
    RowOfAppend([], e1, a.name, idx);
    RowOfAppend([], e1, b.name, idx);
    RowOfAppend([], e1, c.name, idx);
  }

  /** The names of the nodes A, B and C are exactly their three names. */
  lemma NamesOfThree<N>(a: Node<N>, b: Node<N>, c: Node<N>)
    ensures Names([a, b, c]) == {a.name, b.name, c.name}
  {
    assert forall n :: n in [a, b, c] <==> n == a || n == b || n == c;
  }

  /** A registry of the nodes A, B and C, in that order, maps their names to
      0, 1 and 2 and nothing else. */
  lemma RegistryOfThree<N>(a: Node<N>, b: Node<N>, c: Node<N>, s: Snapshot<N>)
    requires a.name != b.name && b.name != c.name && a.name != c.name
    requires Registry(s)
    requires s.nodeList == [a, b, c]
    ensures s.idxMap == map[a.name := 0, b.name := 1, c.name := 2]
  {
    NamesOfThree(a, b, c);
    var idx := map[a.name := 0, b.name := 1, c.name := 2];
    assert s.idxMap.Keys == idx.Keys;
    assert s.nodeList[0] == a && s.nodeList[1] == b && s.nodeList[2] == c;
    assert s.idxMap[a.name] == 0 && s.idxMap[b.name] == 1 && s.idxMap[c.name] == 2;
    forall k | k in s.idxMap ensures s.idxMap[k] == idx[k] {
      assert k == a.name || k == b.name || k == c.name;
    }
  }

  /** The graph of edges (A, B), (B, C) registers A, B and C in that order,
      and its rows are [1], [0, 2] and [1]. */
  lemma ChainOnGraph<N>(a: Node<N>, b: Node<N>, c: Node<N>, s: Snapshot<N>)
    requires a.name != b.name && b.name != c.name && a.name != c.name
    requires Represents([Edge(a, b), Edge(b, c)], s)
    ensures s.nodeList == [a, b, c]
    ensures s.idxMap == map[a.name := 0, b.name := 1, c.name := 2]
    ensures s.adj == [[1], [0, 2], [1]]
  {
    ChainOfThreeNodes(a, b, c);
    RegistryOfThree(a, b, c, s);
    ChainOfThreeRows(a, b, c);
    assert s.nodeList[0] == a && s.nodeList[1] == b && s.nodeList[2] == c;
  }
}
