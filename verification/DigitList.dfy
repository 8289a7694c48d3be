/** Adding numbers held as lists of decimal digits, least significant first: addList.c. */
module DigitList {
  import opened Lists

  /** The list at `head` has the nodes `nodes`, which hold `vals`. */
  ghost predicate ListAt(head: Node?, nodes: seq<Node>, vals: seq<int>)
    reads nodes
  {
    head == NodeAt(nodes, 0) && IsList(nodes, vals)
  }

  predicate Digits(d: seq<int>) {
    forall i :: 0 <= i < |d| ==> 0 <= d[i] <= 9
  }

  /** The number that the digits stand for. */
  function Value(d: seq<int>): (v: int) {
    if d == [] then 0 else d[0] + 10 * Value(d[1..])
  }

  /** No leading zero: the last digit, if there is one, is not 0. */
  predicate Canonical(d: seq<int>) {
    d != [] ==> d[|d| - 1] != 0
  }

  function Head(d: seq<int>): int {
    if d == [] then 0 else d[0]
  }

  function Tail(d: seq<int>): (t: seq<int>)
    ensures |t| == if d == [] then 0 else |d| - 1
  {
    if d == [] then [] else d[1..]
  }

  /** The schoolbook sum of two digit lists and a carry. */
  function Sum(a: seq<int>, b: seq<int>, c: int): (s: seq<int>)
    decreases |a| + |b|
  {
    if a == [] && b == [] then if c != 0 then [c] else []
    else
      var sum := Head(a) + Head(b) + c;
      [sum % 10] + Sum(Tail(a), Tail(b), sum / 10)
  }

  /** One turn of the loop on the digits: what is appended and what is carried make up what was left to add. */
  lemma SumStep(out: seq<int>, a: seq<int>, b: seq<int>, c: int)
    requires a != [] || b != []
    ensures var sum := Head(a) + Head(b) + c;
            (out + [sum % 10]) + Sum(Tail(a), Tail(b), sum / 10) == out + Sum(a, b, c)
  {
  }

  lemma CarrySmall(sum: int)
    requires 0 <= sum <= 19
    ensures 0 <= sum / 10 <= 1
  {
  }

  // ----- what the sum is -----

  lemma {:induction false} SumValue(a: seq<int>, b: seq<int>, c: int)
    requires Digits(a) && Digits(b) && 0 <= c <= 1
    ensures Digits(Sum(a, b, c))
    ensures Value(Sum(a, b, c)) == Value(a) + Value(b) + c
    decreases |a| + |b|
  {
    if a != [] || b != [] {
      var sum := Head(a) + Head(b) + c;
      SumValue(Tail(a), Tail(b), sum / 10);
      assert Sum(a, b, c)[1..] == Sum(Tail(a), Tail(b), sum / 10);
      assert sum == 10 * (sum / 10) + sum % 10;
    }
  }

  /** A sum of numbers without leading zeros has none either. */
  lemma {:induction false} SumCanonical(a: seq<int>, b: seq<int>, c: int)
    requires Digits(a) && Digits(b) && 0 <= c <= 1 && Canonical(a) && Canonical(b)
    ensures Canonical(Sum(a, b, c))
    ensures Sum(a, b, c) == [] <==> a == [] && b == [] && c == 0
    decreases |a| + |b|
  {
    if a != [] || b != [] {
      var sum := Head(a) + Head(b) + c;
      CarrySmall(sum);
      assert Canonical(Tail(a)) && Canonical(Tail(b));
      SumCanonical(Tail(a), Tail(b), sum / 10);
      if Tail(a) == [] && Tail(b) == [] {
        LastDigit(sum);
      }
      CanonicalCons(sum % 10, Sum(Tail(a), Tail(b), sum / 10));
    }
  }

  lemma LastDigit(sum: int)
    requires 0 < sum
    ensures sum / 10 == 0 ==> sum % 10 != 0
  {
  }

  lemma CanonicalCons(x: int, rest: seq<int>)
    requires Canonical(rest) && (rest == [] ==> x != 0)
    ensures Canonical([x] + rest)
  {
  }

  function Longer(a: seq<int>, b: seq<int>): nat {
    if |a| > |b| then |a| else |b|
  }

  function Pow10(n: nat): (p: nat)
    ensures p > 0
  {
    if n == 0 then 1 else 10 * Pow10(n - 1)
  }

  /** The sum is as long as the longer number, and one digit longer exactly if the value needs it. */
  lemma {:induction false} SumLength(a: seq<int>, b: seq<int>, c: int)
    requires Digits(a) && Digits(b) && 0 <= c <= 1
    ensures |Sum(a, b, c)| ==
            Longer(a, b) + if Value(a) + Value(b) + c >= Pow10(Longer(a, b)) then 1 else 0
    decreases |a| + |b|
  {
    if a != [] || b != [] {
      var sum := Head(a) + Head(b) + c;
      CarrySmall(sum);
      SumLength(Tail(a), Tail(b), sum / 10);
      CarriedValue(sum, Value(Tail(a)) + Value(Tail(b)), Pow10(Longer(Tail(a), Tail(b))));
      OneDigit(a, b);
    }
  }

  lemma OneDigit(a: seq<int>, b: seq<int>)
    requires a != [] || b != []
    ensures Longer(a, b) == Longer(Tail(a), Tail(b)) + 1
    ensures Value(a) == Head(a) + 10 * Value(Tail(a)) && Value(b) == Head(b) + 10 * Value(Tail(b))
  {
  }

  lemma CarriedValue(sum: int, rest: int, p: nat)
    ensures sum + 10 * rest >= 10 * p <==> sum / 10 + rest >= p
  {
  }

  /** Digits of a given length are determined by their value, so length and value make the sum the only answer. */
  lemma {:induction false} DigitsUnique(a: seq<int>, b: seq<int>)
    requires Digits(a) && Digits(b) && |a| == |b| && Value(a) == Value(b)
    ensures a == b
    decreases |a|
  {
    if a != [] {
      assert Value(a[1..]) == Value(b[1..]) && a[0] == b[0];
      DigitsUnique(a[1..], b[1..]);
      assert a == [a[0]] + a[1..] && b == [b[0]] + b[1..];
    }
  }

  /** Digits without leading zeros are determined by their value, so the sum is the only right answer. */
  lemma {:induction false} CanonicalUnique(a: seq<int>, b: seq<int>)
    requires Digits(a) && Digits(b) && Canonical(a) && Canonical(b) && Value(a) == Value(b)
    ensures a == b
    decreases |a|
  {
    if a == [] || b == [] {
      CanonicalPositive(a);
      CanonicalPositive(b);
    } else {
      assert Value(a[1..]) == Value(b[1..]) && a[0] == b[0];
      CanonicalUnique(a[1..], b[1..]);
      assert a == [a[0]] + a[1..] && b == [b[0]] + b[1..];
    }
  }

  lemma {:induction false} CanonicalPositive(a: seq<int>)
    requires Digits(a)
    ensures Value(a) >= 0
    ensures Canonical(a) && a != [] ==> Value(a) > 0
  {
    if a != [] {
      CanonicalPositive(a[1..]);
    }
  }

  /** A number as it is written in decimal, the last digit first; 0 has none. */
  function Decimal(n: nat): (d: seq<int>) {
    if n == 0 then [] else [n % 10] + Decimal(n / 10)
  }

  lemma {:induction false} DecimalValue(n: nat)
    ensures Digits(Decimal(n)) && Canonical(Decimal(n)) && Value(Decimal(n)) == n
    ensures Decimal(n) == [] <==> n == 0
  {
    if n > 0 {
      DecimalValue(n / 10);
      assert Decimal(n)[1..] == Decimal(n / 10);
      assert n == 10 * (n / 10) + n % 10;
    }
  }

  /** Among the numbers without leading zeros the sum is the only one with the right value. */
  lemma SumUnique(a: seq<int>, b: seq<int>, d: seq<int>)
    requires Digits(a) && Digits(b) && Digits(d) && Canonical(a) && Canonical(b) && Canonical(d)
    requires Value(d) == Value(a) + Value(b)
    ensures Sum(a, b, 0) == d
  {
    SumValue(a, b, 0);
    SumCanonical(a, b, 0);
    CanonicalUnique(Sum(a, b, 0), d);
  }

  /** So what is written for two numbers adds up to what is written for their sum. */
  lemma SumDecimal(m: nat, n: nat)
    ensures Sum(Decimal(m), Decimal(n), 0) == Decimal(m + n)
  {
    DecimalValue(m);
    DecimalValue(n);
    DecimalValue(m + n);
    SumUnique(Decimal(m), Decimal(n), Decimal(m + n));
  }

  // ----- the lists -----

  /** Walk to the tail and link a new node there. */
  method AddNode(head: Node?, val: int, ghost nodes: seq<Node>, ghost vals: seq<int>)
      returns (newHead: Node, ghost last: Node)
    requires ListAt(head, nodes, vals)
    modifies nodes
    ensures fresh(last) && ListAt(newHead, nodes + [last], vals + [val])
  {
    var temp := new Node(val);
    last := temp;
    if head == null {
      return temp, temp;
    }
    var tail: Node := head;
    ghost var i := 0;
    while tail.next != null
      invariant 0 <= i < |nodes| && tail == nodes[i]
      decreases |nodes| - i
    {
      tail := tail.next;
      i := i + 1;
    }
    tail.next := temp;
    newHead := head;
  }

  /** The digit an operand contributes from position `i`, if it has one left, and where it goes on. */
  method TakeDigit(p: Node?, ghost head: Node?, ghost nodes: seq<Node>, ghost vals: seq<int>, ghost i: nat)
      returns (digit: int, next: Node?, ghost j: nat)
    requires ListAt(head, nodes, vals) && i <= |nodes| && p == NodeAt(nodes, i)
    ensures j <= |nodes| && next == NodeAt(nodes, j)
    ensures digit == Head(vals[i..]) && vals[j..] == Tail(vals[i..])
  {
    digit, next, j := 0, p, i;
    if p != null {
      digit, next, j := p.data, p.next, i + 1;
    }
  }

  /** The end of a turn of the loop: the last decimal of the sum is appended, the rest is the new carry. */
  method AppendDigit(head: Node?, sum: int, ghost nodes: seq<Node>, ghost out: seq<int>,
                     ghost a: seq<int>, ghost b: seq<int>, ghost c: int)
      returns (newHead: Node, carry: int, ghost last: Node, ghost newOut: seq<int>)
    requires ListAt(head, nodes, out) && (a != [] || b != [])
    requires Digits(a) && Digits(b) && 0 <= c <= 1 && sum == Head(a) + Head(b) + c
    modifies nodes
    ensures fresh(last) && ListAt(newHead, nodes + [last], newOut)
    ensures 0 <= carry <= 1 && newOut + Sum(Tail(a), Tail(b), carry) == out + Sum(a, b, c)
  {
    carry := sum / 10;
    SumStep(out, a, b, c);
    CarrySmall(sum);
    var digit := sum % 10;
    newOut := out + [digit];
    newHead, last := AddNode(head, digit, nodes, out);
  }

  twostate lemma FreshAppend(new nodes: seq<Node>, new last: Node)
    requires fresh(nodes) && fresh(last)
    ensures fresh(nodes + [last])
  {
  }

  /** The loop of the addition: everything but the last carry. */
  method AddDigits(l1: Node?, l2: Node?,
                   ghost n1: seq<Node>, ghost v1: seq<int>, ghost n2: seq<Node>, ghost v2: seq<int>)
      returns (l3: Node?, c: int, ghost n3: seq<Node>, ghost out: seq<int>)
    requires ListAt(l1, n1, v1) && ListAt(l2, n2, v2)
    requires Digits(v1) && Digits(v2)
    ensures ListAt(l3, n3, out) && fresh(n3)
    ensures out + Sum([], [], c) == Sum(v1, v2, 0)
  {
    ghost var a, b, total := v1, v2, Sum(v1, v2, 0);
    l3, c, n3, out := null, 0, [], [];
    var p, q := l1, l2;
    ghost var i: nat, j: nat := 0, 0;
    while p != null || q != null
      invariant i <= |n1| && p == NodeAt(n1, i) && a == v1[i..]
      invariant j <= |n2| && q == NodeAt(n2, j) && b == v2[j..]
      invariant Digits(a) && Digits(b) && 0 <= c <= 1
      invariant ListAt(l3, n3, out) && fresh(n3)
      invariant out + Sum(a, b, c) == total
      decreases |a| + |b|
    {
      var digit, sum;
      digit, p, i := TakeDigit(p, l1, n1, v1, i);
      sum := digit;
      digit, q, j := TakeDigit(q, l2, n2, v2, j);
      sum := sum + digit + c;
      ghost var last;
      l3, c, last, out := AppendDigit(l3, sum, n3, out, a, b, c);
      FreshAppend(n3, last);
      n3 := n3 + [last];
      a, b := Tail(a), Tail(b);
    }
    assert a == [] && b == [];
  }

  /** Neither input is changed, and the result shares no node with them. */
  method AddTwoNumbers(l1: Node?, l2: Node?,
                       ghost n1: seq<Node>, ghost v1: seq<int>, ghost n2: seq<Node>, ghost v2: seq<int>)
      returns (l3: Node?, ghost n3: seq<Node>)
    requires ListAt(l1, n1, v1) && ListAt(l2, n2, v2)
    requires Digits(v1) && Digits(v2)
    ensures ListAt(l3, n3, Sum(v1, v2, 0)) && fresh(n3)
    ensures Digits(Sum(v1, v2, 0)) && Value(Sum(v1, v2, 0)) == Value(v1) + Value(v2)
  {
    var c;
    ghost var out;
    l3, c, n3, out := AddDigits(l1, l2, n1, v1, n2, v2);
    if c != 0 {
      ghost var last;
      l3, last := AddNode(l3, c, n3, out);
      n3, out := n3 + [last], out + [c];
    }
    assert out == Sum(v1, v2, 0);
    SumValue(v1, v2, 0);
  }
}
