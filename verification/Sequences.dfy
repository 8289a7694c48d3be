/** Facts about slices and concatenations. */
module Sequences {

  lemma ConcatAssociative<T>(a: seq<T>, b: seq<T>, c: seq<T>)
    ensures (a + b) + c == a + (b + c)
  {
  }

  lemma SliceHead<T>(s: seq<T>, i: nat, j: nat)
    requires i < j <= |s|
    ensures s[i..j] == [s[i]] + s[i + 1..j]
  {
  }

  lemma SliceParts<T>(s: seq<T>, i: nat, j: nat, k: nat)
    requires i <= j <= k <= |s|
    ensures s[i..k] == s[i..j] + s[j..k]
  {
  }

  lemma SplitTail<T>(s: seq<T>, at: nat, piece: seq<T>, rest: seq<T>)
    requires at <= |s| && s[at..] == piece + rest
    ensures at + |piece| <= |s|
    ensures s[at..at + |piece|] == piece && s[at + |piece|..] == rest
  {
    assert s[at..at + |piece|] == s[at..][..|piece|];
    assert s[at + |piece|..] == s[at..][|piece|..];
  }
}
