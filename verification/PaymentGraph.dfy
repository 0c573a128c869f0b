/** The payment-graph snapshot the discovery worker hands to its detectors, and
    what a directed cycle in it is. */
module PaymentGraph {
  import opened JsStrings

  datatype Edge = Edge(fromId: string, toId: string, amountXaf: int, isStateOrigin: bool)

  ghost predicate HasEdge(edges: seq<Edge>, u: string, v: string) {
    exists i :: 0 <= i < |edges| && edges[i].fromId == u && edges[i].toId == v
  }

  ghost predicate HasFlaggedEdge(edges: seq<Edge>, u: string, v: string, state: bool) {
    exists i :: 0 <= i < |edges| && edges[i].fromId == u && edges[i].toId == v
                && edges[i].isStateOrigin == state
  }

  /** A walk along edges that never repeats a vertex. */
  ghost predicate SimplePath(edges: seq<Edge>, p: seq<string>) {
    && p != []
    && Distinct(p)
    && forall i :: 0 <= i < |p| - 1 ==> HasEdge(edges, p[i], p[i + 1])
  }

  /** A simple directed cycle, written without repeating its first vertex. */
  ghost predicate SimpleCycle(edges: seq<Edge>, p: seq<string>) {
    SimplePath(edges, p) && HasEdge(edges, p[|p| - 1], p[0])
  }
}
