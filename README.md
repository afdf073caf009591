# Graph bookkeeping of the graph visualizer

The graph visualizer draws a force-directed layout of an undirected graph.
Its `Graph` class (graph.js) turns a stream of edges into the structure the
layout works on:
- the registered nodes `nodeList`, one per distinct node name, in the order
  the names are first seen;
- the map `idxMap` from each name to its dense index `0..cnt-1`;
- one adjacency row per node in `adj`;
- the list of every edge added, `edgeList`.

`add_edge(e)` keeps `e` and registers `e.v` and then `e.u` (a name already
known changes nothing; a new name gets the next index and an empty row).
It then appends the index of `u` to the row of `v`, and the index of `v` to
the row of `u`. Repeated edges are kept, and a self-loop puts its node's
index into its own row twice. The constructor adds the given edges one by
one.

The project has three modules:
- `Elements` (elements.dfy): `Node`, a class whose only field is its
  immutable `name`, and `Edge`, the ordered pair `(v, u)` of node
  references.
- `Adjacency` (adjacency.dfy): a declarative description of what the graph
  of an edge stream `es` is, as a value `Snapshot(cnt, idxMap, nodeList,
  adj)`:
  - `FirstSeen(Endpoints(es))` is the node list;
  - `Registry` is the dense name-to-index map;
  - `RowOf` gives the adjacency row of a name;
  - `Represents(es, s)` says that all of these hold;
  - `Register` and `AddedEdge` are the one-step updates, on values.

  All the properties below are proved here, on values.
- `GraphModel` (graph.dfy): class `Graph`, with the five fields of the
  source updated in place. Its invariant is `Valid()`, that is, the fields
  are `Represents(edgeList, Fields())`. Its methods are proved against the
  value-level updates: `InsertNode` leaves `Register(old state, nd)`, and
  `AddEdge` leaves `AddedEdge(old state, e)`. The constructor and `AddEdge`
  keep `Valid()`. So every lemma of `Adjacency` about `Represents` or
  `AddedEdge` applies to the fields of a `Graph` after construction and
  after each `AddEdge`.

Node names have an abstract type `N` with equality. Nodes are registered by
name, not by object identity (graph.js:32). When two distinct `Node` objects
share a name, the first one seen stays in `nodeList`
(`FirstSeenKeepsFirst`), while `edgeList` keeps the edge that refers to the
second.

`#insertNode` is private in the source. Dafny has no private class members,
so `InsertNode` is public here. It requires and keeps only the registry
invariant (`Registry`), not `Valid()`. A call from outside with a name that
is already registered changes nothing (`Register` returns its input, as
graph.js:32 skips the update), so the graph stays valid. A call from outside
with a name not yet registered adds a node that no edge mentions. That breaks
`Valid()`, and `AddEdge` can then no longer be called. Only the constructor and `AddEdge`, which
calls `InsertNode` for both endpoints of the edge it has just kept, keep the
graph valid.

## Model

| member | source | states |
|---|---|---|
| Elements.Node.constructor | graph.js:4-5 | A node carries the name it was created with, and that name never changes. |
| GraphModel.Graph.constructor | graph.js:19-29 | Starts from the empty graph and adds the edges in order. Afterwards `edgeList` equals the input edges and the fields are the graph those edges build (`Valid()`). The loop keeps `Valid()` and `edgeList == edges[..k]`. |
| GraphModel.Graph.InsertNode | graph.js:31-38 | The new fields are `Register(old fields, nd)`: unchanged for a known name; otherwise the next index `cnt` is mapped, the node and an empty row are appended, and `cnt` grows by one. The registry invariant holds afterwards, and `edgeList` is untouched. |
| GraphModel.Graph.AddEdge | graph.js:40-48 | Appends `e` to `edgeList`. The new fields are `AddedEdge(old fields, e)`, and `Valid()` is kept, so the graph is the one `old(edgeList) + [e]` builds. |
| Adjacency.RegistryIsDense | graph.js:20-24 | In every registry: names are distinct, `|nodeList| == |adj| == cnt == |idxMap|`, every index is below `cnt`, every `i < cnt` is an index, and no two names share one. |
| Adjacency.RegistryIndexInRange | graph.js:44-47 | A registered name's index is below `cnt == |adj|`, so `adj[v]` and `adj[u]` are in bounds. |
| Adjacency.RegisterKeeps | graph.js:31-38 | Registering keeps the registry invariant and leaves the name registered. Every earlier map entry, the node-list prefix and every earlier row are kept. `cnt` grows by at most one, and a new row is empty. |
| Adjacency.FirstSeenStep | graph.js:31-38 | Registering the next endpoint appends exactly what first-seen order keeps. |
| Adjacency.FirstSeenNames | graph.js:31-38 | The registered nodes carry exactly the names of the endpoint stream. |
| Adjacency.FirstSeenDistinct | graph.js:32 | The registered nodes have pairwise distinct names. |
| Adjacency.FirstSeenKeepsFirst | graph.js:32-35 | The node kept for each name is the first node of the stream with that name. Kept nodes are in the order in which their names first occur. |
| Adjacency.FirstIndex | graph.js:32 | The first position of a name in a stream: it carries the name, and no earlier position does. |
| Adjacency.DistinctNamesCount | graph.js:32-36 | Nodes with pairwise distinct names are as many as their names. |
| Adjacency.DistinctNamesRegistered | graph.js:31-38 | Deduplication: `cnt` equals the number of distinct endpoint names, however names repeat or edges loop. The map's keys are exactly those names. |
| Adjacency.Endpoints | graph.js:42-43 | The endpoint stream has two entries per edge. |
| Adjacency.EndpointsAppend | graph.js:42-43 | One edge more adds its `v` and then its `u` to the endpoint stream. |
| Adjacency.NamesAppend | graph.js:32 | Appending a node adds exactly its name to the set of names. |
| Adjacency.RowOfAppend | graph.js:46-47 | One edge more extends a row by the index of `u` if the row's name is `v`'s, then by the index of `v` if it is `u`'s. |
| Adjacency.RowOfFrame | graph.js:33 | A row is the same under any map that agrees with the original on all of its keys, such as one extended with entries for new names. |
| Adjacency.RowOfUnseen | graph.js:34 | A name no edge mentions has an empty row. |
| Adjacency.RowOfBounded | graph.js:44-47 | Every entry of a row is below any bound on the map's values. |
| Adjacency.RowOfLength | graph.js:46-47 | A row has one entry per endpoint occurrence of its name (a self-loop counts twice). |
| Adjacency.LinksSymmetric | graph.js:46-47 | The number of links between two names does not depend on their order. |
| Adjacency.RowOfMultiplicity | graph.js:46-47 | Under an injective map, the index of `b` occurs in the row of `a` once per link between them. |
| Adjacency.AppendBoth | graph.js:46-47 | The two pushes, row by row: earlier rows are kept, new rows are empty, row `v` gets `u` and then row `u` gets `v`. |
| Adjacency.NodesAfterEdge | graph.js:42-43 | Registering `v` then `u` gives the first-seen nodes of the longer endpoint stream. The registry invariant holds, and every endpoint name is mapped. |
| Adjacency.RowAfterEdge | graph.js:46-47 | Each row of the longer stream is its old row (empty for a new node) plus the edge's contributions. |
| Adjacency.BothRegistered | graph.js:42-45 | After both registrations, both names are mapped to indices of rows. Earlier map entries and the node-list prefix are kept, and `cnt` only grows. |
| Adjacency.AddedEdgeShape | graph.js:40-48 | Nothing else changes. Earlier map entries and the node-list prefix are kept, and `cnt` only grows. Each row is its old row (new rows empty) with `idx(u)` appended if it is `v`'s row and then `idx(v)` if it is `u`'s row; all other rows stay as they were. |
| Adjacency.SelfLoopTwice | graph.js:46-47 | A self-loop appends its node's own index to its row twice. |
| Adjacency.AddEdgeStep | graph.js:40-48 | If a value is the graph of `es`, then after `add_edge(e)` it is the graph of `es + [e]`. |
| Adjacency.EntriesInRange | graph.js:42-47 | Every entry of every row is below `cnt`. |
| Adjacency.AdjacencySymmetric | graph.js:44-47 | Index `j` occurs in row `i` as often as `i` occurs in row `j`, namely once per link between the two nodes. |
| Adjacency.EndpointsContain | graph.js:42-43 | Both endpoints of every edge occur in the endpoint stream. |
| Adjacency.LinksOfEdge | graph.js:46-47 | Every edge is at least one link between its two endpoint names. |
| Adjacency.EdgePresent | graph.js:40-47 | For every edge `(v, u)` added, `idx(u)` is in the row of `v` and `idx(v)` is in the row of `u`; both indices are rows of the graph. |
| Adjacency.HitsOfDistinct | graph.js:32 | In a list of distinct names, a name occurs once if present, otherwise not at all. |
| Adjacency.DegreeSumEmpty | graph.js:20-24 | With no edges, every degree is zero. |
| Adjacency.DegreeSumStep | graph.js:42-47 | One edge more raises the sum of degrees by the number of occurrences of its two endpoint names. |
| Adjacency.DoubleCounting | graph.js:41-47 | Over a list naming every endpoint exactly once, the degrees add up to twice the number of edges. |
| Adjacency.TotalOfRows | graph.js:46-47 | If each row is as long as its node's degree, the rows hold the sum of the degrees. |
| Adjacency.EntriesTwicePerEdge | graph.js:41-47 | Over all rows there are always exactly `2 * |edgeList|` entries. |
| Adjacency.FirstSeenAppend | graph.js:32-35 | A node is kept exactly when its name has not been seen before. |
| Adjacency.ChainOfThreeNodes | graph.js:26-43 | Edges (A, B), (B, C) give the endpoint stream A, B, B, C and register A, B and C, in that order. |
| Adjacency.ChainFirstSeen | graph.js:31-38 | First-seen registration of A, B, B, C keeps A, B and C. |
| Adjacency.ChainOfThreeRows | graph.js:44-47 | Worked case: with A, B and C at 0, 1 and 2, edges (A, B), (B, C) give the rows [1], [0, 2] and [1]. |
| Adjacency.NamesOfThree | graph.js:32 | The names of the nodes A, B and C are exactly their three names. |
| Adjacency.RegistryOfThree | graph.js:33-36 | A registry of A, B and C, in that order, maps their names to 0, 1 and 2 and nothing else. |
| Adjacency.ChainOnGraph | graph.js:19-47 | Insertion order on a graph: the graph of edges (A, B), (B, C) has nodes A, B, C, indices 0, 1, 2 and rows [1], [0, 2], [1]. |
| Adjacency.Register | graph.js:31-38 | The value-level `#insertNode`: a known name leaves the graph as it is; a new name is mapped to `cnt`, and the node and an empty row are appended. |
| Adjacency.AddedEdge | graph.js:40-48 | The value-level `add_edge` on the registry and rows: register `v`, then `u`, then apply `LinkedRows` (graph.js:44-47 on values), which pushes `idx(u)` onto row `v` and then `idx(v)` onto row `u`. |
| Adjacency.LinkedRows | graph.js:44-47 | The two pushes on values: with both endpoints registered, `idx(u)` is appended to row `v`, then `idx(v)` to row `u`. |
| Adjacency.FirstSeen | graph.js:31-38 | The reference definition of the node list: the endpoint stream with every node dropped whose name occurred earlier. |
| Adjacency.RowOf | graph.js:44-47 | The reference definition of a row: edge after edge, `idx(u)` when `v` carries the name, then `idx(v)` when `u` does. |
| Adjacency.Represents | graph.js:19-48 | What the graph of an edge stream is: its first-seen nodes, a dense registry of their names, and one row per node as `RowOf` gives it. |

## Left out

- script.js: canvas and DOM access, drawing, the animation loop, mouse and
  resize handlers, and the sample edge list. These are user interface and
  I/O, not graph bookkeeping.
- physics.js: the force simulator runs floating-point arithmetic with
  square roots throughout, which the model has no exact counterpart for.
- math.js: the floating-point `Vector` type, needed only for node positions
  and velocities.
- Node positions and velocities (graph.js:6-7): the position is initialised
  from `Math.random` and the velocity to the zero vector. `Graph` reads
  neither, so a node is its name only.
- Name equality: JavaScript `Map` compares keys with SameValueZero. The
  model compares names with the equality of an abstract type `N`.
- Privacy of `#insertNode`: Dafny has no private members, so `InsertNode`
  is public. It keeps only the registry invariant. On a valid graph, a
  direct call with a registered name changes nothing, but one with a name
  not yet registered breaks `Valid()`. The model does not prevent such
  calls.
- Missing endpoints: in JavaScript, `add_edge` with a null or undefined
  endpoint throws at graph.js:32, after graph.js:41 has already pushed the
  edge, which leaves a partial update. The Dafny types require both
  endpoints to be nodes, so this path does not exist in the model.
- Reassignment: JavaScript lets `Node.name`, `Edge.v` and `Edge.u` be
  reassigned, which could detach a registered name from its node. The
  model makes the name an immutable field and an edge an immutable value.
- Number width: `cnt` and the indices are double-precision JavaScript
  numbers, exact only up to 2^53. The model uses unbounded natural numbers.
- Aliasing with the simulator: script.js:138 hands `g.nodeList` and
  `g.edgeList` to the simulator, whose `addNode` and `addEdge`
  (physics.js:34-41) push onto those same arrays without touching `idxMap`,
  `cnt` or `adj`. Such pushes can break the graph's invariant. In the model
  the fields are unaliased sequences that only `Graph`'s methods change, and
  `AddEdge` requires `Valid()`, so the model does not capture this sharing.
