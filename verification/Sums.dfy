/** Totals over sequences, for counting threads. */
module Sums {

  ghost function Total<T>(f: T -> int, s: seq<T>): (t: int) {
    if s == [] then 0 else f(s[0]) + Total(f, s[1..])
  }

  lemma {:induction false} TotalUpdate<T>(f: T -> int, s: seq<T>, i: nat, x: T)
    requires i < |s|
    ensures Total(f, s[i := x]) == Total(f, s) - f(s[i]) + f(x)
  {
    if i == 0 {
      assert s[i := x][1..] == s[1..];
    } else {
      assert s[i := x][1..] == s[1..][i - 1 := x];
      TotalUpdate(f, s[1..], i - 1, x);
    }
  }

  lemma {:induction false} TotalAtMost<T>(f: T -> int, s: seq<T>, hi: int)
    requires forall k :: 0 <= k < |s| ==> f(s[k]) <= hi
    ensures Total(f, s) <= |s| * hi
  {
    if s != [] {
      TotalAtMost(f, s[1..], hi);
    }
  }

  lemma {:induction false} TotalAtLeast<T>(f: T -> int, s: seq<T>, lo: int)
    requires forall k :: 0 <= k < |s| ==> f(s[k]) >= lo
    ensures Total(f, s) >= |s| * lo
  {
    if s != [] {
      TotalAtLeast(f, s[1..], lo);
    }
  }

  /** A total that reaches its upper bound reaches it everywhere. */
  lemma {:induction false} TotalFull<T>(f: T -> int, s: seq<T>, hi: int, i: nat)
    requires i < |s| && Total(f, s) == |s| * hi
    requires forall k :: 0 <= k < |s| ==> f(s[k]) <= hi
    ensures f(s[i]) == hi
  {
    TotalAtMost(f, s[1..], hi);
    if i > 0 {
      TotalFull(f, s[1..], hi, i - 1);
    }
  }
}
