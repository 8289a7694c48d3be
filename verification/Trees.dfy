/** Binary trees of heap nodes, and the tree values that describe them. */
module Trees {

  class Node {
    var left: Node?
    var right: Node?
    var data: int

    constructor (data: int)
      ensures this.data == data && left == null && right == null
    {
      this.data := data;
      left, right := null, null;
    }
  }

  /** The shape of a tree, with the node and the data at every place. */
  datatype Tree = Nil | Bin(self: Node, data: int, left: Tree, right: Tree)

  ghost function Nodes(t: Tree): (s: set<Node>) {
    match t
    case Nil => {}
    case Bin(self, _, l, r) => {self} + Nodes(l) + Nodes(r)
  }

  /** Framing needs to know that a tree in hand has no nodes still to be allocated. */
  lemma {:induction false} NodesAllocated(t: Tree)
    ensures forall n :: n in Nodes(t) ==> allocated(n)
  {
    if t.Bin? {
      NodesAllocated(t.left);
      NodesAllocated(t.right);
    }
  }

  /** No node occurs at two places. */
  ghost predicate Distinct(t: Tree) {
    match t
    case Nil => true
    case Bin(self, _, l, r) =>
      self !in Nodes(l) && self !in Nodes(r) && Nodes(l) !! Nodes(r) && Distinct(l) && Distinct(r)
  }

  /** The heap holds the tree `t` at `n`. */
  ghost predicate Rep(n: Node?, t: Tree)
    reads Nodes(t)
  {
    match t
    case Nil => n == null
    case Bin(self, data, l, r) => n == self && self.data == data && Rep(self.left, l) && Rep(self.right, r)
  }

  ghost predicate Subtree(c: Tree, t: Tree) {
    c == t || (t.Bin? && (Subtree(c, t.left) || Subtree(c, t.right)))
  }

  lemma {:induction false} SubtreeRep(n: Node?, t: Tree, c: Tree)
    requires Rep(n, t) && Subtree(c, t) && c.Bin?
    ensures Rep(c.self, c)
  {
    if c != t {
      if Subtree(c, t.left) {
        SubtreeRep(t.self.left, t.left, c);
      } else {
        SubtreeRep(t.self.right, t.right, c);
      }
    }
  }

  function Root(t: Tree): (n: Node?) {
    if t == Nil then null else t.self
  }

  /** The tree is what the links say: every node's children are the roots of its left and its right subtree. */
  lemma RepLinks(n: Node?, t: Tree, c: Tree)
    requires Rep(n, t) && Subtree(c, t) && c.Bin?
    ensures n == Root(t)
    ensures c.self.left == Root(c.left) && c.self.right == Root(c.right) && c.self.data == c.data
  {
    SubtreeRep(n, t, c);
  }

  /** A node with its data, in its place: how deep it is. */
  datatype Place = Place(node: Node, data: int, depth: nat)

  /** The nodes from left to right, the root at depth `d`. */
  ghost function InOrder(t: Tree, d: nat): (ps: seq<Place>) {
    match t
    case Nil => []
    case Bin(self, data, l, r) => InOrder(l, d + 1) + [Place(self, data, d)] + InOrder(r, d + 1)
  }

  /** `a` lies to the left of `b`. */
  ghost predicate LeftOf(t: Tree, a: Node, b: Node) {
    match t
    case Nil => false
    case Bin(self, _, l, r) =>
      || (a in Nodes(l) && (b == self || b in Nodes(r)))
      || (a == self && b in Nodes(r))
      || LeftOf(l, a, b) || LeftOf(r, a, b)
  }

  function Size(t: Tree): nat {
    match t
    case Nil => 0
    case Bin(_, _, l, r) => 1 + Size(l) + Size(r)
  }

  function Height(t: Tree): nat {
    match t
    case Nil => 0
    case Bin(_, _, l, r) => 1 + if Height(l) > Height(r) then Height(l) else Height(r)
  }
}
