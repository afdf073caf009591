/**
 The two value-level entities of the graph module: a node, known to the graph
 only by its name, and an edge, an ordered pair of node references.
 */
module Elements {

  /** A vertex. The graph reads nothing but its name; two distinct Node
      objects with the same name stand for the same vertex. */
  class Node<N> {
    const name: N

    constructor (name: N)
      ensures this.name == name
    {
      this.name := name;
    }
  }

  /** An edge from `v` to `u`, kept in that order. Self-loops (`v` and `u`
      with one name) and repeated edges are both allowed. */
  datatype Edge<N> = Edge(v: Node<N>, u: Node<N>)
}
