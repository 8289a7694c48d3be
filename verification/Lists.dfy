/** Singly linked lists of heap nodes. */
module Lists {

  class Node {
    var data: int
    var next: Node?

    constructor (data: int)
      ensures this.data == data && next == null
    {
      this.data := data;
      next := null;
    }
  }

  /** `nodes` are the nodes of an acyclic list, in order, and `d` their data. */
  ghost predicate IsList(nodes: seq<Node>, d: seq<int>)
    reads nodes
  {
    && |d| == |nodes|
    && (forall i, j :: 0 <= i < j < |nodes| ==> nodes[i] != nodes[j])
    && (forall i {:trigger nodes[i].next} :: 0 <= i < |nodes| ==> nodes[i].next == NodeAt(nodes, i + 1))
    && (forall i {:trigger nodes[i].data} :: 0 <= i < |nodes| ==> nodes[i].data == d[i])
  }

  /** The node at a position; null one past the end. */
  ghost function NodeAt(nodes: seq<Node>, i: nat): (n: Node?)
    requires i <= |nodes|
  {
    if i < |nodes| then nodes[i] else null
  }
}
