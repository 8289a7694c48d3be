/** Octets, C strings and big-endian fields, as the packet-handling code sees them. */
module Bytes {
  import opened Sequences

  type byte = x: int | 0 <= x < 256

  type word = x: int | 0 <= x < 0x1_0000

  /** The C string that starts a buffer: everything before its first NUL. */
  function CString(s: seq<byte>): (t: seq<byte>)
    requires 0 in s
    ensures HoldsString(s, t)
  {
    if s[0] == 0 then [] else [s[0]] + CString(s[1..])
  }

  /** `s` starts with the characters `t` followed by a NUL. */
  ghost predicate HoldsString(s: seq<byte>, t: seq<byte>) {
    && |t| < |s|
    && s[|t|] == 0
    && s[..|t|] == t
    && 0 !in t
  }

  /** A buffer holds exactly one C string. */
  lemma CStringUnique(s: seq<byte>, t: seq<byte>)
    requires HoldsString(s, t)
    ensures 0 in s && CString(s) == t
  {
    assert s[|t|] == 0;
    var u := CString(s);
    assert forall k :: 0 <= k < |t| ==> s[k] == t[k] && t[k] in t;
    assert forall k :: 0 <= k < |u| ==> s[k] == u[k] && u[k] in u;
  }

  /** ntohs of the two octets at `at`. */
  function U16(s: seq<byte>, at: nat): (v: nat)
    requires at + 2 <= |s|
    ensures v < 0x1_0000
  {
    (s[at] as int) * 256 + s[at + 1]
  }

  /** The octets `o` stand at `at`. */
  ghost predicate StandsAt(m: seq<byte>, at: nat, o: seq<byte>) {
    at + |o| <= |m| && m[at..at + |o|] == o
  }

  lemma StandsParts(m: seq<byte>, at: nat, a: seq<byte>, b: seq<byte>)
    ensures StandsAt(m, at, a + b) <==> StandsAt(m, at, a) && StandsAt(m, at + |a|, b)
  {
    var n := at + |a|;
    if StandsAt(m, at, a + b) {
      assert m[at..n] == m[at..n + |b|][..|a|] == a;
      assert m[n..n + |b|] == m[at..n + |b|][|a|..] == b;
    }
    if StandsAt(m, at, a) && StandsAt(m, n, b) {
      SliceParts(m, at, n, n + |b|);
    }
  }

  lemma StandsThree(m: seq<byte>, at: nat, a: seq<byte>, b: seq<byte>, c: seq<byte>)
    requires StandsAt(m, at, a + (b + c))
    ensures StandsAt(m, at, a) && StandsAt(m, at + |a|, b) && StandsAt(m, at + |a| + |b|, c)
  {
    StandsParts(m, at, a, b + c);
    StandsParts(m, at + |a|, b, c);
  }

  /** Blocks of octets one behind the other. */
  function Concat(bs: seq<seq<byte>>): (o: seq<byte>) {
    if bs == [] then [] else bs[0] + Concat(bs[1..])
  }

  /** Where each block starts, and where the last one ends. */
  function Places(at: nat, bs: seq<seq<byte>>): (ps: seq<nat>)
    ensures |ps| == |bs| + 1 && ps[0] == at
    decreases |bs|
  {
    [at] + if bs == [] then [] else Places(at + |bs[0]|, bs[1..])
  }

  /** Every block stands at its place, and the next place is behind it. */
  ghost predicate AllStand(m: seq<byte>, ps: seq<nat>, bs: seq<seq<byte>>) {
    && |ps| == |bs| + 1
    && forall i {:trigger bs[i]} :: 0 <= i < |bs| ==> StandsAt(m, ps[i], bs[i]) && ps[i + 1] == ps[i] + |bs[i]|
  }

  lemma AllStandCons(m: seq<byte>, at: nat, ps: seq<nat>, bs: seq<seq<byte>>)
    requires bs != [] && StandsAt(m, at, bs[0]) && ps != [] && ps[0] == at + |bs[0]|
    ensures AllStand(m, ps, bs[1..]) ==> AllStand(m, [at] + ps, bs)
  {
    if AllStand(m, ps, bs[1..]) {
      var qs := [at] + ps;
      forall i | 0 <= i < |bs| ensures StandsAt(m, qs[i], bs[i]) && qs[i + 1] == qs[i] + |bs[i]| {
        if i > 0 {
          assert StandsAt(m, ps[i - 1], bs[1..][i - 1]) && ps[i] == ps[i - 1] + |bs[1..][i - 1]|;
        }
      }
    }
  }

  lemma {:induction false} BlocksStand(m: seq<byte>, at: nat, bs: seq<seq<byte>>)
    requires StandsAt(m, at, Concat(bs))
    ensures AllStand(m, Places(at, bs), bs) && Places(at, bs)[|bs|] == at + |Concat(bs)|
    decreases |bs|
  {
    if bs != [] {
      StandsParts(m, at, bs[0], Concat(bs[1..]));
      BlocksStand(m, at + |bs[0]|, bs[1..]);
      AllStandCons(m, at, Places(at + |bs[0]|, bs[1..]), bs);
    }
  }

  /** A 16-bit field as section 2.3.2 of RFC 1035 lays it out: the high octet first. */
  function Be16(x: word): (f: seq<byte>)
    ensures |f| == 2
  {
    [x / 256, x % 256]
  }

  /** Fields one after the other. */
  function Fields(xs: seq<word>): (o: seq<byte>)
    ensures |o| == 2 * |xs|
  {
    if xs == [] then [] else Be16(xs[0]) + Fields(xs[1..])
  }

  lemma {:induction false} FieldsConcat(xs: seq<word>, ys: seq<word>)
    ensures Fields(xs + ys) == Fields(xs) + Fields(ys)
  {
    if xs == [] {
      assert xs + ys == ys;
    } else {
      assert (xs + ys)[1..] == xs[1..] + ys;
      FieldsConcat(xs[1..], ys);
      ConcatAssociative(Be16(xs[0]), Fields(xs[1..]), Fields(ys));
    }
  }

  lemma U16Reads(m: seq<byte>, at: nat, x: word)
    requires StandsAt(m, at, Be16(x))
    ensures at + 2 <= |m| && U16(m, at) == x
  {
    assert m[at] == m[at..at + 2][0] && m[at + 1] == m[at..at + 2][1];
  }

  /** Every field is read back from its place. */
  lemma {:induction false} FieldsRead(m: seq<byte>, at: nat, xs: seq<word>, k: nat)
    requires StandsAt(m, at, Fields(xs)) && k < |xs|
    ensures at + 2 * k + 2 <= |m| && U16(m, at + 2 * k) == xs[k]
    decreases k
  {
    StandsParts(m, at, Be16(xs[0]), Fields(xs[1..]));
    if k == 0 {
      U16Reads(m, at, xs[0]);
    } else {
      FieldsRead(m, at + 2, xs[1..], k - 1);
    }
  }

  function Zeros(n: nat): (z: seq<byte>)
    ensures |z| == n && forall k :: 0 <= k < n ==> z[k] == 0
  {
    seq(n, _ => 0)
  }

  /** A buffer with `w` written over it at `at`. */
  function Splice(s: seq<byte>, at: nat, w: seq<byte>): (r: seq<byte>)
    requires at + |w| <= |s|
    ensures |r| == |s|
  {
    s[..at] + w + s[at + |w|..]
  }

  lemma SpliceByOctets(s: seq<byte>, at: nat, w: seq<byte>, r: seq<byte>)
    requires at + |w| <= |s| == |r|
    requires forall k {:trigger w[k]} :: 0 <= k < |w| ==> r[at + k] == w[k]
    requires forall k {:trigger r[k]} :: 0 <= k < at || at + |w| <= k < |r| ==> r[k] == s[k]
    ensures r == Splice(s, at, w)
  {
    assert r[at..at + |w|] == w;
    assert r[..at] == s[..at] && r[at + |w|..] == s[at + |w|..];
  }

  lemma SpliceGap(front: seq<byte>, gap: seq<byte>, rest: seq<byte>, w: seq<byte>)
    requires |w| == |gap|
    ensures Splice(front + gap + rest, |front|, w) == front + w + rest
  {
    var s := front + gap + rest;
    assert s[..|front|] == front && s[|front| + |w|..] == rest;
  }

  lemma SpliceOne(s: seq<byte>, at: nat, x: byte)
    requires at < |s|
    ensures s[at := x] == Splice(s, at, [x])
  {
  }

  /** Writing twice in a row is writing once. */
  lemma SpliceAppend(s: seq<byte>, at: nat, w: seq<byte>, x: seq<byte>)
    requires at + |w| + |x| <= |s|
    ensures Splice(Splice(s, at, w), at + |w|, x) == Splice(s, at, w + x)
  {
    var t := Splice(s, at, w);
    assert t[..at + |w|] == s[..at] + w;
    assert t[at + |w| + |x|..] == s[at + |w| + |x|..];
  }
}
