/** Mirroring a tree and printing it level by level with an array queue: bst_mirror.c. */
module LevelOrder {
  import opened Sequences
  import opened Trees

  // ----- mirror -----

  function Mirrored(t: Tree): (m: Tree) {
    match t
    case Nil => Nil
    case Bin(self, data, l, r) => Bin(self, data, Mirrored(r), Mirrored(l))
  }

  lemma {:induction false} MirroredKeeps(t: Tree)
    ensures Nodes(Mirrored(t)) == Nodes(t) && Size(Mirrored(t)) == Size(t) && Height(Mirrored(t)) == Height(t)
    ensures Distinct(t) ==> Distinct(Mirrored(t))
  {
    if t.Bin? {
      MirroredKeeps(t.left);
      MirroredKeeps(t.right);
    }
  }

  /** Mirroring twice restores the tree, node by node. */
  lemma {:induction false} MirrorTwice(t: Tree)
    ensures Mirrored(Mirrored(t)) == t
  {
    if t.Bin? {
      MirrorTwice(t.left);
      MirrorTwice(t.right);
    }
  }

  method Mirror(root: Node?, ghost t: Tree)
    requires Rep(root, t) && Distinct(t)
    modifies Nodes(t)
    ensures Rep(root, Mirrored(t))
    ensures forall n :: n in Nodes(t) && old(allocated(n)) ==>
                          n.left == old(n.right) && n.right == old(n.left) && n.data == old(n.data)
    decreases t
  {
    if root == null {
      return;
    }
    ghost var l, r := t.left, t.right;
    MirroredKeeps(l);
    MirroredKeeps(r);
    assert root == t.self && root !in Nodes(l) && root !in Nodes(r) && Nodes(l) !! Nodes(r);
    NodesAllocated(l);
    NodesAllocated(r);
    Mirror(root.left, l);
    Mirror(root.right, r);
    var temp := root.left;
    root.left := root.right;
    root.right := temp;
  }

  /** Calling mirror twice puts every link back. */
  method MirrorAndBack(root: Node?, ghost t: Tree)
    requires Rep(root, t) && Distinct(t)
    modifies Nodes(t)
    ensures Rep(root, t)
  {
    Mirror(root, t);
    MirroredKeeps(t);
    Mirror(root, Mirrored(t));
    MirrorTwice(t);
  }

  // ----- the queue -----

  /** The global array Q and its two indices. Nothing wraps around. */
  class Queue {
    var slots: array<Node?>
    var front: nat
    var rear: nat

    constructor (capacity: nat)
      ensures fresh(slots) && slots.Length == capacity && Empty()
    {
      slots := new Node?[capacity](_ => null);
      front, rear := 0, 0;
    }

    /** Both indices at the start and nothing but null in the array. */
    ghost predicate Empty()
      reads this, slots
    {
      front == 0 && rear == 0 && forall k :: 0 <= k < slots.Length ==> slots[k] == null
    }

    method Enqueue(node: Node)
      requires rear < slots.Length
      modifies this`rear, slots
      ensures rear == old(rear) + 1
      ensures slots[..] == old(slots[..])[old(rear) := node]
    {
      slots[rear] := node;
      rear := rear + 1;
    }

    /** An exhausted queue yields the null behind its last entry. */
    method Dequeue() returns (node: Node?)
      requires front < slots.Length
      modifies this`front
      ensures front == old(front) + 1 && node == slots[old(front)]
    {
      front := front + 1;
      node := slots[front - 1];
    }

    method Reset()
      modifies this`front, this`rear, slots
      ensures Empty()
    {
      front, rear := 0, 0;
      for i := 0 to slots.Length
        invariant front == 0 && rear == 0
        invariant forall k :: 0 <= k < i ==> slots[k] == null
      {
        slots[i] := null;
      }
    }
  }

  // ----- breadth-first order on trees -----

  function Kids(t: Tree): (ks: seq<Tree>)
    requires t.Bin?
    ensures forall k :: k in ks ==> k.Bin?
  {
    (if t.left == Nil then [] else [t.left]) + (if t.right == Nil then [] else [t.right])
  }

  function ForestSize(ts: seq<Tree>): nat {
    if ts == [] then 0 else Size(ts[0]) + ForestSize(ts[1..])
  }

  lemma {:induction false} ForestSizeConcat(a: seq<Tree>, b: seq<Tree>)
    ensures ForestSize(a + b) == ForestSize(a) + ForestSize(b)
  {
    if a == [] {
      assert a + b == b;
    } else {
      assert (a + b)[1..] == a[1..] + b;
      ForestSizeConcat(a[1..], b);
    }
  }

  lemma {:induction false} ForestSizeAtLeast(ts: seq<Tree>)
    requires AllBin(ts)
    ensures ForestSize(ts) >= |ts|
  {
    if ts != [] {
      ForestSizeAtLeast(ts[1..]);
    }
  }

  lemma KidsSize(t: Tree, rest: seq<Tree>)
    requires t.Bin?
    ensures ForestSize(rest + Kids(t)) == ForestSize(rest) + Size(t) - 1
  {
    ForestSizeConcat(rest, Kids(t));
    var l, r := (if t.left == Nil then [] else [t.left]), (if t.right == Nil then [] else [t.right]);
    ForestSizeConcat(l, r);
    assert ForestSize(l) == Size(t.left) && ForestSize(r) == Size(t.right);
  }

  predicate AllBin(ts: seq<Tree>) {
    forall k :: 0 <= k < |ts| ==> ts[k].Bin?
  }

  /** What a queue of trees prints. */
  function Bfs(ts: seq<Tree>): (out: seq<int>)
    requires AllBin(ts)
    decreases ForestSize(ts)
  {
    if ts == [] then [] else
      KidsSize(ts[0], ts[1..]);
      [ts[0].data] + Bfs(ts[1..] + Kids(ts[0]))
  }

  lemma BfsStep(t: Tree, rest: seq<Tree>)
    requires t.Bin? && AllBin(rest)
    ensures AllBin([t] + rest) && AllBin(rest + Kids(t))
    ensures Bfs([t] + rest) == [t.data] + Bfs(rest + Kids(t))
  {
    assert ([t] + rest)[1..] == rest;
  }

  // ----- depth by depth -----

  /** The data at a depth, left to right. */
  function AtDepth(t: Tree, d: nat): (out: seq<int>) {
    match t
    case Nil => []
    case Bin(_, data, l, r) => if d == 0 then [data] else AtDepth(l, d - 1) + AtDepth(r, d - 1)
  }

  /** The depths from `d` on, one after the other. */
  function ByDepth(t: Tree, d: nat): (out: seq<int>)
    decreases Height(t) - d
  {
    if d >= Height(t) then [] else AtDepth(t, d) + ByDepth(t, d + 1)
  }

  function ForestAt(ts: seq<Tree>, d: nat): (out: seq<int>) {
    if ts == [] then [] else AtDepth(ts[0], d) + ForestAt(ts[1..], d)
  }

  function Children(ts: seq<Tree>): (cs: seq<Tree>)
    requires AllBin(ts)
    ensures AllBin(cs)
  {
    if ts == [] then [] else Kids(ts[0]) + Children(ts[1..])
  }

  lemma {:induction false} ForestAtConcat(a: seq<Tree>, b: seq<Tree>, d: nat)
    ensures ForestAt(a + b, d) == ForestAt(a, d) + ForestAt(b, d)
  {
    if a == [] {
      assert a + b == b;
    } else {
      assert (a + b)[1..] == a[1..] + b;
      ForestAtConcat(a[1..], b, d);
    }
  }

  lemma KidsAt(t: Tree, d: nat)
    requires t.Bin?
    ensures ForestAt(Kids(t), d) == AtDepth(t, d + 1)
  {
    var l, r := (if t.left == Nil then [] else [t.left]), (if t.right == Nil then [] else [t.right]);
    ForestAtConcat(l, r, d);
    assert ForestAt(l, d) == AtDepth(t.left, d) && ForestAt(r, d) == AtDepth(t.right, d);
  }

  lemma {:induction false} ChildrenAt(ts: seq<Tree>, d: nat)
    requires AllBin(ts)
    ensures ForestAt(Children(ts), d) == ForestAt(ts, d + 1)
  {
    if ts != [] {
      ChildrenAt(ts[1..], d);
      KidsAt(ts[0], d);
      ForestAtConcat(Kids(ts[0]), Children(ts[1..]), d);
    }
  }

  /** The queue after its first tree, split into the rest of the level and the next one. */
  lemma LevelSplit(level: seq<Tree>, next: seq<Tree>)
    requires AllBin(level) && AllBin(next) && level != []
    ensures var t, rest := level[0], level[1..];
            && level + next == [t] + (rest + next)
            && (rest + next) + Kids(t) == rest + (next + Kids(t))
            && (next + Kids(t)) + Children(rest) == next + Children(level)
  {
    var t, rest := level[0], level[1..];
    assert level == [t] + rest;
    ConcatAssociative([t], rest, next);
    ConcatAssociative(rest, next, Kids(t));
    ConcatAssociative(next, Kids(t), Children(rest));
  }

  /** A queue whose front is a whole level prints that level first, and the next level is then at its back. */
  lemma {:induction false} BfsLevel(level: seq<Tree>, next: seq<Tree>)
    requires AllBin(level) && AllBin(next)
    ensures AllBin(level + next) && AllBin(next + Children(level))
    ensures Bfs(level + next) == ForestAt(level, 0) + Bfs(next + Children(level))
    decreases |level|
  {
    if level == [] {
      assert level + next == next && next + Children(level) == next;
    } else {
      var t, rest := level[0], level[1..];
      LevelSplit(level, next);
      BfsStep(t, rest + next);
      BfsLevel(rest, next + Kids(t));
      ConcatAssociative([t.data], ForestAt(rest, 0), Bfs(next + Children(level)));
      assert ForestAt(level, 0) == [t.data] + ForestAt(rest, 0);
    }
  }

  function ForestHeight(ts: seq<Tree>): nat {
    if ts == [] then 0
    else if Height(ts[0]) > ForestHeight(ts[1..]) then Height(ts[0]) else ForestHeight(ts[1..])
  }

  function ForestByDepth(ts: seq<Tree>, d: nat, h: nat): (out: seq<int>)
    decreases h - d
  {
    if d >= h then [] else ForestAt(ts, d) + ForestByDepth(ts, d + 1, h)
  }

  lemma {:induction false} ForestHeightConcat(a: seq<Tree>, b: seq<Tree>)
    ensures ForestHeight(a + b) == if ForestHeight(a) > ForestHeight(b) then ForestHeight(a) else ForestHeight(b)
  {
    if a == [] {
      assert a + b == b;
    } else {
      assert (a + b)[1..] == a[1..] + b;
      ForestHeightConcat(a[1..], b);
    }
  }

  lemma {:induction false} ChildrenHeight(ts: seq<Tree>)
    requires AllBin(ts) && ts != []
    ensures ForestHeight(Children(ts)) == ForestHeight(ts) - 1
    decreases |ts|
  {
    var t := ts[0];
    var l, r := (if t.left == Nil then [] else [t.left]), (if t.right == Nil then [] else [t.right]);
    ForestHeightConcat(l, r);
    assert ForestHeight(l) == Height(t.left) && ForestHeight(r) == Height(t.right);
    ForestHeightConcat(Kids(t), Children(ts[1..]));
    if ts[1..] != [] {
      ChildrenHeight(ts[1..]);
    }
  }

  lemma {:induction false} ChildrenByDepth(ts: seq<Tree>, d: nat, h: nat)
    requires AllBin(ts)
    ensures ForestByDepth(Children(ts), d, h) == ForestByDepth(ts, d + 1, h + 1)
    decreases h - d
  {
    if d < h {
      ChildrenAt(ts, d);
      ChildrenByDepth(ts, d + 1, h);
    }
  }

  lemma {:induction false} BfsByDepth(ts: seq<Tree>)
    requires AllBin(ts)
    ensures Bfs(ts) == ForestByDepth(ts, 0, ForestHeight(ts))
    decreases ForestHeight(ts)
  {
    if ts != [] {
      BfsLevel(ts, []);
      assert ts + [] == ts && [] + Children(ts) == Children(ts);
      ChildrenHeight(ts);
      BfsByDepth(Children(ts));
      ChildrenByDepth(ts, 0, ForestHeight(ts) - 1);
    }
  }

  lemma {:induction false} OneTreeByDepth(t: Tree, d: nat)
    ensures ForestByDepth([t], d, Height(t)) == ByDepth(t, d)
    decreases Height(t) - d
  {
    if d < Height(t) {
      OneTreeByDepth(t, d + 1);
      assert ForestAt([t], d) == AtDepth(t, d);
    }
  }

  /** The queue prints the tree depth by depth, each depth from left to right. */
  lemma QueueOrderIsLevelOrder(t: Tree)
    requires t.Bin?
    ensures Bfs([t]) == ByDepth(t, 0)
  {
    BfsByDepth([t]);
    assert ForestHeight([t]) == Height(t);
    OneTreeByDepth(t, 0);
  }

  // ----- depths and the order from left to right -----

  /** The data found at a depth, in the order of the list. */
  ghost function DataAt(ps: seq<Place>, d: nat): (out: seq<int>) {
    if ps == [] then [] else (if ps[0].depth == d then [ps[0].data] else []) + DataAt(ps[1..], d)
  }

  lemma {:induction false} DataAtConcat(a: seq<Place>, b: seq<Place>, d: nat)
    ensures DataAt(a + b, d) == DataAt(a, d) + DataAt(b, d)
  {
    if a == [] {
      assert a + b == b;
    } else {
      assert (a + b)[1..] == a[1..] + b && (a + b)[0] == a[0];
      DataAtConcat(a[1..], b, d);
      ConcatAssociative(DataAt([a[0]], d), DataAt(a[1..], d), DataAt(b, d));
    }
  }

  /** Each depth holds the nodes that are that deep, in their order from left to right. */
  lemma {:induction false} LevelsInOrder(t: Tree, d: nat, k: nat)
    ensures DataAt(InOrder(t, d), k) == if k < d then [] else AtDepth(t, k - d)
  {
    if t.Bin? {
      LevelsInOrder(t.left, d + 1, k);
      LevelsInOrder(t.right, d + 1, k);
      var l, self, r := InOrder(t.left, d + 1), [Place(t.self, t.data, d)], InOrder(t.right, d + 1);
      DataAtConcat(l + self, r, k);
      DataAtConcat(l, self, k);
    }
  }

  /** The data of the places at depth `d`, then of those one deeper, and so on up to depth `h`. */
  ghost function LevelsOf(ps: seq<Place>, d: nat, h: nat): (out: seq<int>)
    decreases h - d
  {
    if d >= h then [] else DataAt(ps, d) + LevelsOf(ps, d + 1, h)
  }

  lemma {:induction false} ByDepthLevels(t: Tree, d: nat)
    ensures ByDepth(t, d) == LevelsOf(InOrder(t, 0), d, Height(t))
    decreases Height(t) - d
  {
    if d < Height(t) {
      LevelsInOrder(t, 0, d);
      ByDepthLevels(t, d + 1);
    }
  }

  lemma {:induction false} DepthsBelowHeight(t: Tree, d: nat)
    ensures forall k :: 0 <= k < |InOrder(t, d)| ==> InOrder(t, d)[k].depth < d + Height(t)
  {
    if t.Bin? {
      DepthsBelowHeight(t.left, d + 1);
      DepthsBelowHeight(t.right, d + 1);
    }
  }

  /** Level order is the order from left to right, sorted by depth: no place is missed. */
  lemma LevelOrderSorts(t: Tree)
    ensures ByDepth(t, 0) == LevelsOf(InOrder(t, 0), 0, Height(t))
    ensures forall k :: 0 <= k < |InOrder(t, 0)| ==> InOrder(t, 0)[k].depth < Height(t)
  {
    ByDepthLevels(t, 0);
    DepthsBelowHeight(t, 0);
  }

  // ----- the mirrored order -----

  function Reverse<T>(s: seq<T>): (r: seq<T>) {
    if s == [] then [] else Reverse(s[1..]) + [s[0]]
  }

  lemma {:induction false} ReverseConcat<T>(a: seq<T>, b: seq<T>)
    ensures Reverse(a + b) == Reverse(b) + Reverse(a)
  {
    if a == [] {
      assert a + b == b;
    } else {
      assert (a + b)[1..] == a[1..] + b;
      ReverseConcat(a[1..], b);
    }
  }

  /** Mirroring keeps every node with its data and its depth, and turns the order of all nodes round. */
  lemma {:induction false} MirroredInOrder(t: Tree, d: nat)
    ensures InOrder(Mirrored(t), d) == Reverse(InOrder(t, d))
  {
    if t.Bin? {
      var l, self, r := InOrder(t.left, d + 1), [Place(t.self, t.data, d)], InOrder(t.right, d + 1);
      MirroredInOrder(t.left, d + 1);
      MirroredInOrder(t.right, d + 1);
      ReverseConcat(l + self, r);
      ReverseConcat(l, self);
      ConcatAssociative(Reverse(r), self, Reverse(l));
    }
  }

  lemma {:induction false} MirroredDepth(t: Tree, d: nat)
    ensures AtDepth(Mirrored(t), d) == Reverse(AtDepth(t, d))
  {
    if t.Bin? && d > 0 {
      MirroredDepth(t.left, d - 1);
      MirroredDepth(t.right, d - 1);
      ReverseConcat(AtDepth(t.left, d - 1), AtDepth(t.right, d - 1));
    }
  }

  /** The depths one after the other, each from right to left. */
  function ByDepthReversed(t: Tree, d: nat): (out: seq<int>)
    decreases Height(t) - d
  {
    if d >= Height(t) then [] else Reverse(AtDepth(t, d)) + ByDepthReversed(t, d + 1)
  }

  /** Trees whose levels are each other's reverse print each other's levels reversed. */
  lemma {:induction false} ReversedLevels(m: Tree, t: Tree, d: nat)
    requires Height(m) == Height(t) && forall k: nat :: AtDepth(m, k) == Reverse(AtDepth(t, k))
    ensures ByDepth(m, d) == ByDepthReversed(t, d)
    decreases Height(t) - d
  {
    if d < Height(t) {
      ReversedLevels(m, t, d + 1);
    }
  }

  /** Mirroring reverses every level and nothing else. */
  lemma MirroredLevels(t: Tree)
    ensures ByDepth(Mirrored(t), 0) == ByDepthReversed(t, 0)
  {
    MirroredKeeps(t);
    forall k: nat ensures AtDepth(Mirrored(t), k) == Reverse(AtDepth(t, k)) {
      MirroredDepth(t, k);
    }
    ReversedLevels(Mirrored(t), t, 0);
  }

  // ----- each node once -----

  ghost function AllData(t: Tree): (m: multiset<int>) {
    match t
    case Nil => multiset{}
    case Bin(_, data, l, r) => multiset{data} + AllData(l) + AllData(r)
  }

  ghost function ForestData(ts: seq<Tree>): (m: multiset<int>) {
    if ts == [] then multiset{} else AllData(ts[0]) + ForestData(ts[1..])
  }

  lemma {:induction false} ForestDataConcat(a: seq<Tree>, b: seq<Tree>)
    ensures ForestData(a + b) == ForestData(a) + ForestData(b)
  {
    if a == [] {
      assert a + b == b;
    } else {
      assert (a + b)[1..] == a[1..] + b;
      ForestDataConcat(a[1..], b);
    }
  }

  /** The queue prints the data of every node exactly once. */
  lemma {:induction false} BfsPrintsAll(ts: seq<Tree>)
    requires AllBin(ts)
    ensures multiset(Bfs(ts)) == ForestData(ts) && |Bfs(ts)| == ForestSize(ts)
    decreases ForestSize(ts)
  {
    if ts != [] {
      var t, rest := ts[0], ts[1..];
      assert ts == [t] + rest;
      BfsStep(t, rest);
      KidsSize(t, rest);
      BfsPrintsAll(rest + Kids(t));
      ForestDataConcat(rest, Kids(t));
      KidsData(t);
    }
  }

  lemma KidsData(t: Tree)
    requires t.Bin?
    ensures multiset{t.data} + ForestData(Kids(t)) == AllData(t)
  {
    ForestDataConcat(if t.left == Nil then [] else [t.left], if t.right == Nil then [] else [t.right]);
    KidData(t.left);
    KidData(t.right);
  }

  lemma KidData(t: Tree)
    ensures ForestData(if t == Nil then [] else [t]) == AllData(t)
  {
  }

  // ----- the traversal -----

  lemma {:induction false} SubtreeKids(c: Tree, t: Tree)
    requires Subtree(c, t) && c.Bin?
    ensures Subtree(c.left, t) && Subtree(c.right, t)
  {
    if c != t {
      if Subtree(c, t.left) {
        SubtreeKids(c, t.left);
      } else {
        SubtreeKids(c, t.right);
      }
    }
  }

  /** The queue holds exactly the roots of `ts`, subtrees of `t`, and null behind them. */
  ghost predicate Queued(q: Queue, ts: seq<Tree>, t: Tree)
    reads q, q.slots
  {
    && q.front + |ts| == q.rear <= q.slots.Length
    && AllBin(ts)
    && (forall k {:trigger ts[k]} :: 0 <= k < |ts| ==> q.slots[q.front + k] == ts[k].self && Subtree(ts[k], t))
    && (forall k {:trigger q.slots[k]} :: q.rear <= k < q.slots.Length ==> q.slots[k] == null)
  }

  method EnqueueTree(q: Queue, node: Node?, ghost ts: seq<Tree>, ghost k: Tree, ghost t: Tree)
    requires Queued(q, ts, t) && Subtree(k, t) && node == if k == Nil then null else k.self
    requires k.Bin? ==> q.rear < q.slots.Length
    modifies q`rear, q.slots
    ensures Queued(q, ts + if k == Nil then [] else [k], t)
    ensures q.rear == old(q.rear) + if k == Nil then 0 else 1
  {
    if node != null {
      ghost var more := ts + [k];
      q.Enqueue(node);
      assert forall j {:trigger more[j]} :: 0 <= j < |ts| ==> more[j] == ts[j];
    } else {
      assert ts + [] == ts;
    }
  }

  method DequeueTree(q: Queue, ghost ts: seq<Tree>, ghost t: Tree) returns (node: Node?)
    requires Queued(q, ts, t) && q.front < q.slots.Length
    modifies q`front
    ensures q.front == old(q.front) + 1
    ensures ts == [] ==> node == null
    ensures ts != [] ==> node == ts[0].self && Subtree(ts[0], t) && Queued(q, ts[1..], t)
  {
    node := q.Dequeue();
    ghost var rest := if ts == [] then [] else ts[1..];
    assert forall k {:trigger rest[k]} :: 0 <= k < |rest| ==> rest[k] == ts[k + 1];
    assert ts != [] ==> ts[0].self == node;
  }

  /** One turn of the loop: the children go to the back of the queue and the next node comes from its front. */
  method Visit(node: Node, q: Queue, ghost cur: Tree, ghost pending: seq<Tree>, root: Node, ghost t: Tree)
      returns (next: Node?)
    requires Rep(root, t) && cur.Bin? && node == cur.self && Subtree(cur, t) && Queued(q, pending, t)
    requires q.front + Size(cur) + ForestSize(pending) == Size(t) <= q.slots.Length
    modifies q`front, q`rear, q.slots
    ensures Rep(root, t) && q.front == old(q.front) + 1
    ensures var more := pending + Kids(cur);
            && (more == [] ==> next == null && q.front == q.rear + 1)
            && (more != [] ==> next == more[0].self && Subtree(more[0], t) && Queued(q, more[1..], t))
  {
    NodesAllocated(t);
    SubtreeRep(root, t, cur);
    SubtreeKids(cur, t);
    KidsSize(cur, pending);
    ForestSizeAtLeast(pending + Kids(cur));
    ForestSizeAtLeast(pending);
    ghost var l, r := (if cur.left == Nil then [] else [cur.left]), (if cur.right == Nil then [] else [cur.right]);
    ConcatAssociative(pending, l, r);
    EnqueueTree(q, node.left, pending, cur.left, t);
    SubtreeRep(root, t, cur);
    EnqueueTree(q, node.right, pending + l, cur.right, t);
    next := DequeueTree(q, pending + Kids(cur), t);
  }

  /** Printing the first tree's root leaves its children behind the others still to print. */
  lemma PrintStep(printed: seq<int>, todo: seq<Tree>)
    requires AllBin(todo) && todo != []
    ensures var cur, rest := todo[0], todo[1..] + Kids(todo[0]);
            && AllBin(rest)
            && (printed + [cur.data]) + Bfs(rest) == printed + Bfs(todo)
            && ForestSize(rest) == ForestSize(todo) - 1
            && ForestSize(todo) == Size(cur) + ForestSize(todo[1..])
  {
    assert todo == [todo[0]] + todo[1..];
    BfsStep(todo[0], todo[1..]);
    KidsSize(todo[0], todo[1..]);
  }

  /**
   * Print the tree through an empty queue that has a slot for every node. The traversal ends because the slot
   * behind the last entry is null, and leaves the indices apart, so the queue must be reset before it is reused.
   */
  method LevelOrderTraversal(root: Node?, q: Queue, ghost t: Tree) returns (printed: seq<int>)
    requires Rep(root, t) && q.Empty() && Size(t) <= q.slots.Length
    modifies q`front, q`rear, q.slots
    ensures Rep(root, t) && printed == ByDepth(t, 0)
    ensures root != null ==> q.front == Size(t) && q.rear == Size(t) - 1
  {
    printed := [];
    NodesAllocated(t);
    if root == null {
      return;
    }
    QueueOrderIsLevelOrder(t);
    var temp := root;
    ghost var todo, total := [t], Bfs([t]);
    while temp != null
      invariant Rep(root, t) && AllBin(todo)
      invariant printed + Bfs(todo) == total && q.front + ForestSize(todo) == Size(t)
      invariant temp == null ==> todo == [] && q.front == q.rear + 1
      invariant temp != null ==> todo != [] && temp == todo[0].self && Subtree(todo[0], t) && Queued(q, todo[1..], t)
      decreases ForestSize(todo)
    {
      ghost var cur, pending := todo[0], todo[1..];
      PrintStep(printed, todo);
      SubtreeRep(root, t, cur);
      printed := printed + [temp.data];
      temp := Visit(temp, q, cur, pending, root, t);
      todo := pending + Kids(cur);
    }
  }

  /** The driver: print, mirror, reset the queue, print again. */
  method PrintMirrorPrint(root: Node?, q: Queue, ghost t: Tree) returns (before: seq<int>, after: seq<int>)
    requires Rep(root, t) && Distinct(t) && q.Empty() && Size(t) <= q.slots.Length
    modifies q`front, q`rear, q.slots, Nodes(t)
    ensures before == ByDepth(t, 0) && after == ByDepthReversed(t, 0)
    ensures Rep(root, Mirrored(t))
  {
    MirroredKeeps(t);
    NodesAllocated(t);
    before := LevelOrderTraversal(root, q, t);
    Mirror(root, t);
    q.Reset();
    after := LevelOrderTraversal(root, q, Mirrored(t));
    MirroredLevels(t);
  }
}
