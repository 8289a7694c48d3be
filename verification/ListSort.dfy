/** The bubble sort of PS_3.c: node data is swapped along a singly linked list up to a shrinking right boundary. */
module ListSort {
  import opened Lists

  predicate Sorted(d: seq<int>) {
    forall i, j :: 0 <= i < j < |d| ==> d[i] <= d[j]
  }

  /** From `r` on the data is in its final place: sorted, and no smaller than anything before it. */
  ghost predicate Settled(d: seq<int>, r: nat)
    requires r <= |d|
  {
    forall i, j :: 0 <= i < j < |d| && r <= j ==> d[i] <= d[j]
  }

  /** Position `i` holds the largest of what the pass has seen. */
  ghost predicate Largest(d: seq<int>, i: nat)
    requires i < |d|
  {
    forall k :: 0 <= k <= i ==> d[k] <= d[i]
  }

  function Swapped(d: seq<int>, i: nat): (e: seq<int>)
    requires i + 1 < |d|
  {
    d[i := d[i + 1]][i + 1 := d[i]]
  }

  lemma SwapPermutes(d: seq<int>, i: nat)
    requires i + 1 < |d|
    ensures multiset(Swapped(d, i)) == multiset(d)
  {
    assert d == d[..i] + [d[i], d[i + 1]] + d[i + 2..];
    assert Swapped(d, i) == d[..i] + [d[i + 1], d[i]] + d[i + 2..];
  }

  /** One comparison of a pass on the data: what it leaves for the next. */
  function Compared(d: seq<int>, i: nat): (e: seq<int>)
    requires i + 1 < |d|
  {
    if d[i] > d[i + 1] then Swapped(d, i) else d
  }

  lemma CompareStep(d: seq<int>, i: nat, r: nat)
    requires i + 1 < r <= |d| && Largest(d, i) && Settled(d, r)
    ensures var e := Compared(d, i); Largest(e, i + 1) && Settled(e, r) && multiset(e) == multiset(d)
  {
    SwapPermutes(d, i);
  }

  lemma PassEnds(d: seq<int>, r: nat)
    requires 0 < r <= |d| && Largest(d, r - 1) && Settled(d, r)
    ensures Settled(d, r - 1)
  {
  }

  /** Swap the data of two neighbours. */
  method SwapData(ghost nodes: seq<Node>, ghost d: seq<int>, ghost i: nat, first: Node, second: Node)
    requires IsList(nodes, d) && i + 1 < |nodes| && nodes[i] == first && nodes[i + 1] == second
    modifies nodes
    ensures IsList(nodes, Swapped(d, i))
  {
    var temp := first.data;
    first.data := second.data;
    second.data := temp;
  }

  /** The data in front of `i` has been in order all along. */
  ghost predicate SortedTo(d: seq<int>, i: nat)
    requires i < |d|
  {
    forall k :: 0 <= k < i ==> d[k] <= d[k + 1]
  }

  lemma {:induction false} AdjacentSorted(d: seq<int>, i: nat, j: nat)
    requires i <= j < |d| && SortedTo(d, j)
    ensures d[i] <= d[j]
    decreases j - i
  {
    if i < j {
      AdjacentSorted(d, i, j - 1);
    }
  }

  /** A pass that finds nothing to swap has seen sorted data. */
  lemma QuietPassSorted(d: seq<int>, r: nat)
    requires 0 < r <= |d| && SortedTo(d, r - 1) && Settled(d, r)
    ensures Sorted(d)
  {
    forall i, j | 0 <= i < j < |d| ensures d[i] <= d[j] {
      if j < r {
        assert SortedTo(d, j);
        AdjacentSorted(d, i, j);
      }
    }
  }

  /** What a pass has achieved when it looks at position `i`. */
  ghost predicate Passing(was: seq<int>, d: seq<int>, i: nat, r: nat, swapped: bool) {
    && i < r <= |d| == |was|
    && Largest(d, i) && Settled(d, r) && multiset(d) == multiset(was)
    && (if swapped then r > 1 && !Sorted(was) else d == was && SortedTo(was, i))
  }

  lemma PassStep(was: seq<int>, d: seq<int>, i: nat, r: nat, swapped: bool)
    requires Passing(was, d, i, r, swapped) && i + 1 < r
    ensures Passing(was, Compared(d, i), i + 1, r, swapped || d[i] > d[i + 1])
  {
    CompareStep(d, i, r);
  }

  /** One pass, from the head up to the node in front of the boundary `rptr`. */
  method Pass(ghost nodes: seq<Node>, ghost was: seq<int>, head: Node, rptr: Node?, ghost r: nat)
      returns (swapped: bool, current: Node, ghost d: seq<int>)
    requires IsList(nodes, was) && nodes != [] && nodes[0] == head
    requires 0 < r <= |nodes| && rptr == NodeAt(nodes, r) && Settled(was, r)
    modifies nodes
    ensures IsList(nodes, d) && multiset(d) == multiset(was)
    ensures current == nodes[r - 1] && Settled(d, r - 1)
    ensures swapped <==> !Sorted(was)
    ensures !swapped ==> d == was
    ensures swapped ==> r > 1
  {
    swapped, current, d := false, head, was;
    ghost var i := 0;
    while current.next != rptr
      invariant 0 <= i < r && current == nodes[i]
      invariant IsList(nodes, d) && Passing(was, d, i, r, swapped)
      decreases r - i
    {
      assert i + 1 < r && current.next == nodes[i + 1];
      PassStep(was, d, i, r, swapped);
      if current.data > current.next.data {
        SwapData(nodes, d, i, current, current.next);
        swapped := true;
      }
      d := Compared(d, i);
      current := current.next;
      i := i + 1;
    }
    PassEnds(d, r);
    if !swapped {
      QuietPassSorted(was, r);
    }
  }

  /** The boundary moves one node towards the head with every pass and is never passed. */
  method Sort(ghost nodes: seq<Node>, ghost was: seq<int>, head: Node) returns (ghost d: seq<int>)
    requires IsList(nodes, was) && nodes != [] && nodes[0] == head
    modifies nodes
    ensures IsList(nodes, d) && Sorted(d) && multiset(d) == multiset(was)
    ensures forall i, j :: 0 <= i < j < |nodes| ==> nodes[i].data <= nodes[j].data
    ensures forall n :: n in nodes ==> n.next == old(n.next)
  {
    var rptr: Node? := null;
    ghost var r := |nodes|;
    var swapped := true;
    d := was;
    while swapped
      invariant 0 <= r <= |nodes| && rptr == NodeAt(nodes, r)
      invariant swapped ==> r > 0
      invariant IsList(nodes, d) && Settled(d, r) && multiset(d) == multiset(was)
      invariant !swapped ==> Sorted(d)
      decreases r
    {
      swapped, rptr, d := Pass(nodes, d, head, rptr, r);
      r := r - 1;
    }
    forall n | n in nodes ensures n.next == old(n.next) {
      var k :| 0 <= k < |nodes| && nodes[k] == n;
      assert nodes[k].next == NodeAt(nodes, k + 1) == old(nodes[k].next);
    }
  }
}
