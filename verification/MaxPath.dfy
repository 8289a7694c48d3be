/** The largest root-to-leaf sum of a tree and the path that attains it: PS_4.c. */
module MaxPath {
  import opened CIntegers
  import opened Trees

  /** A leaf and the sum of the data on its path. */
  datatype Leaf = Leaf(node: Node, sum: int)

  /** The leaves from left to right, with `curr` added above the root. */
  function Leaves(t: Tree, curr: int): (ls: seq<Leaf>)
    ensures t.Bin? <==> ls != []
  {
    match t
    case Nil => []
    case Bin(self, data, l, r) =>
      if l == Nil && r == Nil then [Leaf(self, curr + data)]
      else Leaves(l, curr + data) + Leaves(r, curr + data)
  }

  /** No path sum leaves the range of int. */
  predicate SumsFit(t: Tree, curr: int) {
    match t
    case Nil => true
    case Bin(_, data, l, r) =>
      INT_MIN <= curr + data <= INT_MAX && SumsFit(l, curr + data) && SumsFit(r, curr + data)
  }

  /** The leaf at `k` has the largest sum, and is the leftmost such leaf. */
  ghost predicate LeftmostMax(ls: seq<Leaf>, k: int) {
    && 0 <= k < |ls|
    && (forall j :: 0 <= j < |ls| ==> ls[j].sum <= ls[k].sum)
    && (forall j :: 0 <= j < k ==> ls[j].sum < ls[k].sum)
  }

  // ----- the search for the leaf -----

  /** The two variables that getTargetLeaf updates through pointers. */
  class Best {
    var maxSum: int
    var target: Node?

    constructor (maxSum: int, target: Node?)
      ensures this.maxSum == maxSum && this.target == target
    {
      this.maxSum := maxSum;
      this.target := target;
    }
  }

  /** A larger sum than any before replaces the candidate. */
  ghost function ScanMax(ls: seq<Leaf>, max: int): (m: int) {
    if ls == [] then max else ScanMax(ls[1..], if ls[0].sum > max then ls[0].sum else max)
  }

  ghost function ScanTarget(ls: seq<Leaf>, max: int, target: Node?): (n: Node?) {
    if ls == [] then target
    else if ls[0].sum > max then ScanTarget(ls[1..], ls[0].sum, ls[0].node)
    else ScanTarget(ls[1..], max, target)
  }

  lemma {:induction false} ScanConcat(a: seq<Leaf>, b: seq<Leaf>, max: int, target: Node?)
    ensures ScanMax(a + b, max) == ScanMax(b, ScanMax(a, max))
    ensures ScanTarget(a + b, max, target) == ScanTarget(b, ScanMax(a, max), ScanTarget(a, max, target))
  {
    if a == [] {
      assert a + b == b;
    } else {
      assert (a + b)[1..] == a[1..] + b;
      var better := a[0].sum > max;
      ScanConcat(a[1..], b, if better then a[0].sum else max, if better then a[0].node else target);
    }
  }

  method GetTargetLeaf(node: Node?, best: Best, currSum: int, ghost t: Tree)
    requires Rep(node, t) && SumsFit(t, currSum)
    modifies best
    ensures best.maxSum == ScanMax(Leaves(t, currSum), old(best.maxSum))
    ensures best.target == ScanTarget(Leaves(t, currSum), old(best.maxSum), old(best.target))
    decreases t
  {
    if node == null {
      return;
    }
    NodesAllocated(t.right);
    ghost var max, target := best.maxSum, best.target;
    var sum := currSum + node.data;
    if node.left == null && node.right == null {
      if sum > best.maxSum {
        best.maxSum := sum;
        best.target := node;
      }
      assert Leaves(t, currSum) == [Leaf(node, sum)];
    } else {
      ScanConcat(Leaves(t.left, sum), Leaves(t.right, sum), max, target);
    }
    GetTargetLeaf(node.left, best, sum, t.left);
    GetTargetLeaf(node.right, best, sum, t.right);
  }

  /** The scan finds the leftmost largest sum, if any sum beats the starting value; else it changes nothing. */
  lemma {:induction false} ScanFinds(ls: seq<Leaf>, max: int, target: Node?)
    ensures if exists k :: 0 <= k < |ls| && ls[k].sum > max then
              exists k ::
                && LeftmostMax(ls, k)
                && ScanMax(ls, max) == ls[k].sum
                && ScanTarget(ls, max, target) == ls[k].node
            else ScanMax(ls, max) == max && ScanTarget(ls, max, target) == target
  {
    if ls != [] {
      var better := ls[0].sum > max;
      var max', target' := if better then ls[0].sum else max, if better then ls[0].node else target;
      var rest := ls[1..];
      ScanFinds(rest, max', target');
      if j :| 0 <= j < |rest| && rest[j].sum > max' {
        var k :| LeftmostMax(rest, k) && ScanMax(rest, max') == rest[k].sum
                 && ScanTarget(rest, max', target') == rest[k].node;
        assert ls[j + 1].sum > max;
        assert ls[0].sum <= max' < rest[j].sum <= rest[k].sum;
        LaterIsMax(ls, k);
      } else {
        FirstIsMax(ls, max');
      }
    }
  }

  lemma LaterIsMax(ls: seq<Leaf>, k: int)
    requires ls != [] && LeftmostMax(ls[1..], k) && ls[0].sum < ls[k + 1].sum
    ensures LeftmostMax(ls, k + 1)
  {
    assert forall i {:trigger ls[i]} :: 0 < i < |ls| ==> ls[i] == ls[1..][i - 1];
  }

  lemma FirstIsMax(ls: seq<Leaf>, max: int)
    requires ls != [] && ls[0].sum <= max && forall j :: 0 <= j < |ls[1..]| ==> ls[1..][j].sum <= max
    ensures forall j :: 0 <= j < |ls| ==> ls[j].sum <= max
    ensures max == ls[0].sum ==> LeftmostMax(ls, 0)
  {
    assert forall i {:trigger ls[i]} :: 0 < i < |ls| ==> ls[i] == ls[1..][i - 1];
  }

  // ----- the path -----

  /** `path` lists the data from `target` up to the root of `t`. */
  ghost predicate IsPathUp(t: Tree, target: Node, path: seq<int>) {
    match t
    case Nil => false
    case Bin(self, data, l, r) =>
      && path != [] && path[|path| - 1] == data
      && ((|path| == 1 && self == target)
          || IsPathUp(l, target, path[..|path| - 1])
          || IsPathUp(r, target, path[..|path| - 1]))
  }

  lemma {:induction false} PathMeansMember(t: Tree, target: Node, path: seq<int>)
    requires IsPathUp(t, target, path)
    ensures target in Nodes(t)
  {
    var up := path[..|path| - 1];
    if IsPathUp(t.left, target, up) {
      PathMeansMember(t.left, target, up);
    } else if IsPathUp(t.right, target, up) {
      PathMeansMember(t.right, target, up);
    }
  }

  lemma WayLeft(t: Tree, target: Node, path: seq<int>)
    requires Distinct(t) && t.Bin? && target in Nodes(t.left) && IsPathUp(t, target, path)
    ensures IsPathUp(t.left, target, path[..|path| - 1])
  {
    if IsPathUp(t.right, target, path[..|path| - 1]) {
      PathMeansMember(t.right, target, path[..|path| - 1]);
    }
  }

  lemma WayRight(t: Tree, target: Node, path: seq<int>)
    requires Distinct(t) && t.Bin? && target in Nodes(t.right) && IsPathUp(t, target, path)
    ensures IsPathUp(t.right, target, path[..|path| - 1])
  {
    if IsPathUp(t.left, target, path[..|path| - 1]) {
      PathMeansMember(t.left, target, path[..|path| - 1]);
    }
  }

  lemma NoWay(t: Tree, path: seq<int>)
    requires Distinct(t) && t.Bin? && IsPathUp(t, t.self, path)
    ensures path == [t.data]
  {
    var up := path[..|path| - 1];
    if IsPathUp(t.left, t.self, up) {
      PathMeansMember(t.left, t.self, up);
    } else if IsPathUp(t.right, t.self, up) {
      PathMeansMember(t.right, t.self, up);
    }
  }

  /** When no node occurs twice there is only one way up. */
  lemma {:induction false} PathUnique(t: Tree, target: Node, p: seq<int>, q: seq<int>)
    requires Distinct(t) && IsPathUp(t, target, p) && IsPathUp(t, target, q)
    ensures p == q
  {
    PathMeansMember(t, target, p);
    if target == t.self {
      NoWay(t, p);
      NoWay(t, q);
    } else {
      if target in Nodes(t.left) {
        WayLeft(t, target, p);
        WayLeft(t, target, q);
        PathUnique(t.left, target, p[..|p| - 1], q[..|q| - 1]);
      } else {
        WayRight(t, target, p);
        WayRight(t, target, q);
        PathUnique(t.right, target, p[..|p| - 1], q[..|q| - 1]);
      }
      assert p == p[..|p| - 1] + [t.data] && q == q[..|q| - 1] + [t.data];
    }
  }

  /** Print the data from the target up, if the target is in the tree. */
  method PrintPath(root: Node?, target: Node?, ghost t: Tree) returns (found: bool, printed: seq<int>)
    requires Rep(root, t)
    ensures found <==> target in Nodes(t)
    ensures found ==> target != null && IsPathUp(t, target, printed)
    ensures !found ==> printed == []
    decreases t
  {
    if root == null {
      return false, [];
    }
    NodesAllocated(t.right);
    found, printed := root == target, [];
    if !found {
      found, printed := PrintPath(root.left, target, t.left);
    }
    if !found {
      found, printed := PrintPath(root.right, target, t.right);
    }
    if found {
      ghost var up := printed;
      printed := printed + [root.data];
      assert printed[..|printed| - 1] == up;
    }
  }

  /** `up` leads from a node to its parent and so on, each link a left or a right one. */
  ghost predicate Climbs(up: seq<Node>)
    reads up
  {
    forall k :: 0 < k < |up| ==> up[k].left == up[k - 1] || up[k].right == up[k - 1]
  }

  /** The data of a path stand on a chain of links from the target up to the root. */
  lemma {:induction false} PathClimbs(root: Node?, t: Tree, target: Node, path: seq<int>) returns (up: seq<Node>)
    requires Rep(root, t) && IsPathUp(t, target, path)
    ensures |up| == |path| > 0 && up[0] == target && up[|up| - 1] == root
    ensures (forall n :: n in up ==> n in Nodes(t)) && Climbs(up)
    ensures forall k :: 0 <= k < |up| ==> path[k] == up[k].data
  {
    var front := path[..|path| - 1];
    up := [];
    if !(|path| == 1 && root == target) {
      if IsPathUp(t.left, target, front) {
        up := PathClimbs(root.left, t.left, target, front);
      } else {
        up := PathClimbs(root.right, t.right, target, front);
      }
    }
    up := up + [root];
  }

  function SumOf(path: seq<int>): int {
    if path == [] then 0 else path[|path| - 1] + SumOf(path[..|path| - 1])
  }

  /** Every entry is a node of the tree without children. */
  lemma {:induction false} LeafInTree(root: Node?, t: Tree, curr: int, k: nat)
    requires Rep(root, t) && k < |Leaves(t, curr)|
    ensures var n := Leaves(t, curr)[k].node; n in Nodes(t) && n.left == null && n.right == null
  {
    if !(t.left == Nil && t.right == Nil) {
      var sum := curr + t.data;
      var n := |Leaves(t.left, sum)|;
      if k < n {
        LeafInTree(root.left, t.left, sum, k);
      } else {
        LeafInTree(root.right, t.right, sum, k - n);
      }
    }
  }

  /** Every node without children has its entry. */
  lemma {:induction false} LeafListed(root: Node?, t: Tree, curr: int, n: Node) returns (k: nat)
    requires Rep(root, t) && n in Nodes(t) && n.left == null && n.right == null
    ensures k < |Leaves(t, curr)| && Leaves(t, curr)[k].node == n
  {
    var sum := curr + t.data;
    if n == root {
      k := 0;
    } else if n in Nodes(t.left) {
      k := LeafListed(root.left, t.left, sum, n);
    } else {
      k := LeafListed(root.right, t.right, sum, n);
      k := |Leaves(t.left, sum)| + k;
    }
  }

  /** The entries stand in the order of the leaves from left to right. */
  lemma {:induction false} LeavesInOrder(root: Node?, t: Tree, curr: int, i: nat, j: nat)
    requires Rep(root, t) && i < j < |Leaves(t, curr)|
    ensures LeftOf(t, Leaves(t, curr)[i].node, Leaves(t, curr)[j].node)
  {
    var sum := curr + t.data;
    var n := |Leaves(t.left, sum)|;
    if j < n {
      LeavesInOrder(root.left, t.left, sum, i, j);
    } else if i < n {
      LeafInTree(root.left, t.left, sum, i);
      LeafInTree(root.right, t.right, sum, j - n);
    } else {
      LeavesInOrder(root.right, t.right, sum, i - n, j - n);
    }
  }

  /** The data on a leaf's path add up to the sum the search gave that leaf. */
  lemma {:induction false} PathSum(root: Node?, t: Tree, curr: int, k: nat, path: seq<int>)
    requires Rep(root, t) && Distinct(t) && k < |Leaves(t, curr)| && IsPathUp(t, Leaves(t, curr)[k].node, path)
    ensures curr + SumOf(path) == Leaves(t, curr)[k].sum
  {
    var target, up := Leaves(t, curr)[k].node, path[..|path| - 1];
    assert SumOf(path) == t.data + SumOf(up);
    if t.left == Nil && t.right == Nil {
      assert !IsPathUp(t.left, target, up) && !IsPathUp(t.right, target, up);
      assert up == [];
    } else {
      var sum := curr + t.data;
      var n := |Leaves(t.left, sum)|;
      if IsPathUp(t.left, target, up) {
        PathMeansMember(t.left, target, up);
      }
      if IsPathUp(t.right, target, up) {
        PathMeansMember(t.right, target, up);
      }
      if k < n {
        LeafInTree(root.left, t.left, sum, k);
        PathSum(root.left, t.left, sum, k, up);
      } else {
        LeafInTree(root.right, t.right, sum, k - n);
        PathSum(root.right, t.right, sum, k - n, up);
      }
    }
  }

  /** Every node of a tree has a path. */
  lemma {:induction false} PathExists(t: Tree, n: Node) returns (path: seq<int>)
    requires n in Nodes(t)
    ensures IsPathUp(t, n, path)
  {
    var up := [];
    if n == t.self {
    } else if n in Nodes(t.left) {
      up := PathExists(t.left, n);
    } else {
      up := PathExists(t.right, n);
    }
    path := up + [t.data];
    assert path[..|path| - 1] == up;
  }

  // ----- the largest sum of the tree -----

  /** `path` leads from `n`, which has no children, up to the root. */
  ghost predicate LeafPath(t: Tree, n: Node, path: seq<int>)
    reads n
  {
    n.left == null && n.right == null && IsPathUp(t, n, path)
  }

  /** Some leaf's path adds up to `sum`, and none to more. */
  ghost predicate IsMaximum(t: Tree, sum: int)
    reads Nodes(t)
  {
    && (exists n, path :: n in Nodes(t) && LeafPath(t, n, path) && SumOf(path) == sum)
    && (forall n, path :: n in Nodes(t) && LeafPath(t, n, path) ==> SumOf(path) <= sum)
  }

  /** `n` is a leaf with the sum, and every other such leaf lies to its right. */
  ghost predicate IsLeftmost(t: Tree, n: Node, sum: int)
    reads Nodes(t)
  {
    && n in Nodes(t)
    && (exists path :: LeafPath(t, n, path) && SumOf(path) == sum)
    && (forall m, path :: m in Nodes(t) && m != n && LeafPath(t, m, path) && SumOf(path) == sum ==> LeftOf(t, n, m))
  }

  /** The path of a leaf adds up to the sum in its entry. */
  lemma EntryOf(root: Node, t: Tree, n: Node, path: seq<int>) returns (k: nat)
    requires Rep(root, t) && Distinct(t) && n in Nodes(t) && LeafPath(t, n, path)
    ensures k < |Leaves(t, 0)| && Leaves(t, 0)[k] == Leaf(n, SumOf(path))
  {
    k := LeafListed(root, t, 0, n);
    PathSum(root, t, 0, k, path);
  }

  lemma PathOfEntry(root: Node, t: Tree, k: nat) returns (path: seq<int>)
    requires Rep(root, t) && Distinct(t) && k < |Leaves(t, 0)|
    ensures var leaf := Leaves(t, 0)[k];
            leaf.node in Nodes(t) && LeafPath(t, leaf.node, path) && SumOf(path) == leaf.sum
  {
    LeafInTree(root, t, 0, k);
    path := PathExists(t, Leaves(t, 0)[k].node);
    PathSum(root, t, 0, k, path);
  }

  /** The largest entry is the largest sum over the leaves of the tree. */
  lemma LargestEntry(root: Node, t: Tree, k: nat)
    requires Rep(root, t) && Distinct(t) && k < |Leaves(t, 0)|
    requires forall j :: 0 <= j < |Leaves(t, 0)| ==> Leaves(t, 0)[j].sum <= Leaves(t, 0)[k].sum
    ensures IsMaximum(t, Leaves(t, 0)[k].sum)
  {
    var own := PathOfEntry(root, t, k);
    forall n, path | n in Nodes(t) && LeafPath(t, n, path) ensures SumOf(path) <= Leaves(t, 0)[k].sum {
      var j := EntryOf(root, t, n, path);
    }
  }

  lemma LeftmostEntry(root: Node, t: Tree, k: nat)
    requires Rep(root, t) && Distinct(t) && LeftmostMax(Leaves(t, 0), k)
    ensures IsLeftmost(t, Leaves(t, 0)[k].node, Leaves(t, 0)[k].sum)
  {
    var n, sum := Leaves(t, 0)[k].node, Leaves(t, 0)[k].sum;
    var own := PathOfEntry(root, t, k);
    forall m, path | m in Nodes(t) && m != n && LeafPath(t, m, path) && SumOf(path) == sum ensures LeftOf(t, n, m) {
      var j := EntryOf(root, t, m, path);
      LeavesInOrder(root, t, 0, k, j);
    }
  }

  /**
   * The maximum sum, and its path printed from the leaf up. The target starts out uninitialised, and is set exactly
   * if some sum exceeds INT_MIN.
   */
  method MaxSumPath(root: Node?, ghost t: Tree, garbage: Node?)
      returns (sum: int, printed: seq<int>, target: Node?)
    requires Rep(root, t) && Distinct(t) && SumsFit(t, 0)
    ensures root == null ==> sum == 0 && printed == []
    ensures root != null ==> IsMaximum(t, sum)
    ensures root != null && sum > INT_MIN ==>
              && target != null && IsLeftmost(t, target, sum)
              && IsPathUp(t, target, printed) && SumOf(printed) == sum
    ensures root != null && sum == INT_MIN ==> target == garbage
  {
    if root == null {
      return 0, [], garbage;
    }
    NodesAllocated(t);
    var best := new Best(INT_MIN, garbage);
    GetTargetLeaf(root, best, 0, t);
    ghost var ls := Leaves(t, 0);
    ScanFinds(ls, INT_MIN, garbage);
    LeavesFit(t, 0);
    target, sum := best.target, best.maxSum;
    var found;
    found, printed := PrintPath(root, target, t);
    if exists k :: 0 <= k < |ls| && ls[k].sum > INT_MIN {
      ghost var k :| LeftmostMax(ls, k) && sum == ls[k].sum && target == ls[k].node;
      LargestEntry(root, t, k);
      LeftmostEntry(root, t, k);
      PathSum(root, t, 0, k, printed);
    } else {
      assert ls[0].sum == INT_MIN;
      LargestEntry(root, t, 0);
    }
  }

  lemma {:induction false} LeavesFit(t: Tree, curr: int)
    requires SumsFit(t, curr)
    ensures forall k :: 0 <= k < |Leaves(t, curr)| ==> INT_MIN <= Leaves(t, curr)[k].sum <= INT_MAX
  {
    if t.Bin? {
      LeavesFit(t.left, curr + t.data);
      LeavesFit(t.right, curr + t.data);
    }
  }
}
