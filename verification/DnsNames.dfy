/** Domain names in their two spellings: length-prefixed labels (section 3.1 of RFC 1035) and dotted text. */
module DnsNames {
  import opened Bytes

  type Label = seq<byte>

  const DOT: byte := '.' as int
  const MAX_LABEL := 63
  const MAX_WIRE_NAME := 255
  /** The size of every buffer that holds a name. */
  const MAX_NAME_LEN := 256

  /** A label behind its length, which a single octet has to hold. */
  function Prefixed(l: Label): (w: seq<byte>)
    ensures |w| == |l| + 1
  {
    [|l| % 256] + l
  }

  /** Length-prefixed labels, without the terminating zero octet. */
  function Wire(ls: seq<Label>): (w: seq<byte>) {
    if ls == [] then [] else Prefixed(ls[0]) + Wire(ls[1..])
  }

  /** Labels joined by dots. */
  function Dotted(ls: seq<Label>): (t: seq<byte>)
    requires ls != []
  {
    if |ls| == 1 then ls[0] else ls[0] + [DOT] + Dotted(ls[1..])
  }

  /** The pieces of a text between its dots. */
  function SplitDots(h: seq<byte>): (ls: seq<Label>)
    ensures ls != []
  {
    if h == [] then [[]]
    else
      var rest := SplitDots(h[1..]);
      if h[0] == DOT then [[]] + rest else [[h[0]] + rest[0]] + rest[1..]
  }

  /** The value of an octet held in a plain `char`, which may be signed: the octet modulo 256, in the type's range. */
  function CharValue(signedChar: bool, b: byte): (v: int)
    ensures v % 256 == b
    ensures if signedChar then -128 <= v < 128 else 0 <= v < 256
  {
    if signedChar && b >= 128 then b - 256 else b
  }

  /** The number of octets the decoders copy for a length octet: none for a negative value. */
  function LabelCount(signedChar: bool, b: byte): (n: nat)
    ensures n <= b
  {
    if CharValue(signedChar, b) < 0 then 0 else CharValue(signedChar, b)
  }

  /** The labels the decoders find in a C string; a length running past the end is cut off there. */
  function Segments(signedChar: bool, s: seq<byte>): (ls: seq<Label>)
    ensures ls == [] <==> s == []
  {
    if s == [] then [] else
    var n := LabelEnd(signedChar, s);
    [s[1..n]] + Segments(signedChar, s[n..])
  }

  /** One past the first label of `s`. */
  function LabelEnd(signedChar: bool, s: seq<byte>): (n: nat)
    requires s != []
    ensures 1 <= n <= |s|
  {
    var n := LabelCount(signedChar, s[0]);
    if n + 1 <= |s| then n + 1 else |s|
  }

  /** Where the decoders look for the label after the one at `i`. */
  function NextLabel(signedChar: bool, s: seq<byte>, i: nat): (n: nat)
    requires i < |s|
    ensures i < n <= i + 256
  {
    i + LabelCount(signedChar, s[i]) + 1
  }

  /** Where the decoders' index ends, starting at `i`: past the string when the last length is too large. */
  function Reach(signedChar: bool, s: seq<byte>, i: nat): (n: nat)
    ensures n >= |s| && n >= i
    decreases |s| - i
  {
    if i >= |s| then i else Reach(signedChar, s, NextLabel(signedChar, s, i))
  }

  /** The text the decoders produce. */
  function WireToText(signedChar: bool, s: seq<byte>): (t: seq<byte>)
    requires s != []
  {
    Dotted(Segments(signedChar, s))
  }

  /** The length-prefixed form the encoder produces, without the final zero octet. */
  function TextToWire(h: seq<byte>): (w: seq<byte>) {
    Wire(SplitDots(h))
  }

  /** Every length octet is read back as itself and fits, and no label holds a dot. */
  predicate Exact(signedChar: bool, s: seq<byte>) {
    s == [] ||
    (var n := LabelCount(signedChar, s[0]);
     && n == s[0]
     && n + 1 <= |s|
     && DOT !in s[1..n + 1]
     && Exact(signedChar, s[n + 1..]))
  }

  /** The size limits of section 2.3.4 of RFC 1035, for labels a C string and a dotted text can carry. */
  ghost predicate ValidName(ls: seq<Label>) {
    && ls != []
    && (forall k :: 0 <= k < |ls| ==> ValidLabel(ls[k]))
    && |Wire(ls)| + 1 <= MAX_WIRE_NAME
  }

  ghost predicate ValidLabel(l: Label) {
    1 <= |l| <= MAX_LABEL && 0 !in l && DOT !in l
  }

  // ----- concatenation and length -----

  lemma {:induction false} WireConcat(x: seq<Label>, y: seq<Label>)
    ensures Wire(x + y) == Wire(x) + Wire(y)
  {
    if x == [] {
      assert x + y == y;
    } else {
      assert (x + y)[1..] == x[1..] + y;
      WireConcat(x[1..], y);
    }
  }

  lemma WirePrepend(l: Label, rest: seq<Label>)
    requires |l| < 256
    ensures Wire([l] + rest) == ([|l|] + l) + Wire(rest)
  {
    assert ([l] + rest)[1..] == rest;
  }

  lemma {:induction false} SplitConcat(a: seq<byte>, b: seq<byte>)
    ensures SplitDots(a + [DOT] + b) == SplitDots(a) + SplitDots(b)
  {
    if a == [] {
      assert a + [DOT] + b == [DOT] + b;
      assert ([DOT] + b)[1..] == b;
    } else {
      var g := a + [DOT] + b;
      assert g[1..] == a[1..] + [DOT] + b;
      SplitConcat(a[1..], b);
    }
  }

  lemma {:induction false} SplitNoDot(a: seq<byte>)
    requires DOT !in a
    ensures SplitDots(a) == [a]
  {
    if a != [] {
      SplitNoDot(a[1..]);
      assert a == [a[0]] + a[1..];
    }
  }

  lemma {:induction false} DottedSplit(h: seq<byte>)
    ensures Dotted(SplitDots(h)) == h
  {
    if h != [] {
      DottedSplit(h[1..]);
      var rest := SplitDots(h[1..]);
      if h[0] == DOT {
        assert ([[]] + rest)[1..] == rest;
      } else {
        assert ([[h[0]] + rest[0]] + rest[1..])[1..] == rest[1..];
      }
    }
  }

  /** Encoding a dotted text costs exactly one octet, before the terminator. */
  lemma {:induction false} TextToWireLength(h: seq<byte>)
    ensures |TextToWire(h)| == |h| + 1
  {
    if h != [] {
      TextToWireLength(h[1..]);
      var rest := SplitDots(h[1..]);
      if h[0] == DOT {
        assert ([[]] + rest)[1..] == rest;
      } else {
        assert ([[h[0]] + rest[0]] + rest[1..])[1..] == rest[1..];
      }
    }
  }

  /** A text that ends in a dot gains a second zero octet: its last, empty, label. */
  lemma TextToWireTrailingDot(h: seq<byte>)
    ensures TextToWire(h + [DOT]) == TextToWire(h) + [0]
  {
    assert h + [DOT] == h + [DOT] + [];
    SplitConcat(h, []);
    WireConcat(SplitDots(h), [[]]);
    assert Wire([[]]) == [0];
  }

  /** The decoders work label by label. */
  lemma WireToTextStep(signedChar: bool, s: seq<byte>)
    requires s != []
    ensures var n := LabelEnd(signedChar, s);
            WireToText(signedChar, s) ==
            if n < |s| then s[1..n] + [DOT] + WireToText(signedChar, s[n..]) else s[1..]
  {
    var n := LabelEnd(signedChar, s);
    assert Segments(signedChar, s)[1..] == Segments(signedChar, s[n..]);
    assert n == |s| ==> s[1..n] == s[1..];
  }

  /** Decoding a wire string costs exactly one octet, and writes no NUL when it read none. */
  lemma {:induction false} WireToTextShape(signedChar: bool, s: seq<byte>)
    requires s != []
    ensures |WireToText(signedChar, s)| == |s| - 1
    ensures 0 !in s ==> 0 !in WireToText(signedChar, s)
  {
    var n := LabelEnd(signedChar, s);
    WireToTextStep(signedChar, s);
    if n < |s| {
      WireToTextShape(signedChar, s[n..]);
    }
  }

  // ----- round trips -----

  lemma {:induction false} SegmentsOfWire(signedChar: bool, ls: seq<Label>)
    requires forall k :: 0 <= k < |ls| ==> |ls[k]| < 128
    ensures Segments(signedChar, Wire(ls)) == ls
  {
    if ls != [] {
      var w, n := Wire(ls), |ls[0]| + 1;
      assert w[0] == |ls[0]|;
      assert LabelEnd(signedChar, w) == n;
      assert w[1..n] == ls[0];
      assert w[n..] == Wire(ls[1..]);
      SegmentsOfWire(signedChar, ls[1..]);
    }
  }

  lemma {:induction false} SplitOfDotted(ls: seq<Label>)
    requires ls != [] && forall k :: 0 <= k < |ls| ==> DOT !in ls[k]
    ensures SplitDots(Dotted(ls)) == ls
  {
    SplitNoDot(ls[0]);
    if |ls| > 1 {
      SplitOfDotted(ls[1..]);
      SplitConcat(ls[0], Dotted(ls[1..]));
      assert ls == [ls[0]] + ls[1..];
    }
  }

  /** On valid names the two spellings are inverse to each other, in both directions. */
  lemma SpellingsInverse(signedChar: bool, ls: seq<Label>)
    requires ValidName(ls)
    ensures WireToText(signedChar, Wire(ls)) == Dotted(ls)
    ensures TextToWire(Dotted(ls)) == Wire(ls)
    ensures |Wire(ls)| + 1 == |Dotted(ls)| + 2
  {
    SegmentsOfWire(signedChar, ls);
    SplitOfDotted(ls);
    TextToWireLength(Dotted(ls));
  }

  lemma {:induction false} NoZeroInWire(ls: seq<Label>)
    requires forall k :: 0 <= k < |ls| ==> ValidLabel(ls[k])
    ensures 0 !in Wire(ls)
  {
    if ls != [] {
      assert ValidLabel(ls[0]);
      NoZeroInWire(ls[1..]);
    }
  }

  lemma {:induction false} ExactWire(signedChar: bool, ls: seq<Label>)
    requires forall k :: 0 <= k < |ls| ==> ValidLabel(ls[k])
    ensures Exact(signedChar, Wire(ls))
  {
    if ls != [] {
      var w, n := Wire(ls), |ls[0]| + 1;
      assert ValidLabel(ls[0]);
      assert LabelCount(signedChar, w[0]) == w[0] == |ls[0]|;
      assert w[1..n] == ls[0];
      assert w[n..] == Wire(ls[1..]);
      ExactWire(signedChar, ls[1..]);
    }
  }

  /** Labels of ordinary length are decoded without reading past the terminator. */
  lemma {:induction false} WireReach(signedChar: bool, s: seq<byte>, i: nat, ls: seq<Label>)
    requires i <= |s| && s[i..] == Wire(ls) && forall k :: 0 <= k < |ls| ==> |ls[k]| < 128
    ensures Reach(signedChar, s, i) == |s|
    decreases |ls|
  {
    if ls != [] {
      var n := i + |ls[0]| + 1;
      assert s[i] == s[i..][0] == |ls[0]|;
      assert s[n..] == s[i..][|ls[0]| + 1..] == Wire(ls[1..]);
      WireReach(signedChar, s, n, ls[1..]);
    }
  }

  /** One label survives the trip through text exactly when its length octet is right and it holds no dot. */
  lemma HeadRoundTrip(signedChar: bool, s: seq<byte>)
    requires s != []
    ensures var n := LabelEnd(signedChar, s);
            TextToWire(s[1..n]) == s[..n] <==>
            LabelCount(signedChar, s[0]) == s[0] && s[0] + 1 <= |s| && DOT !in s[1..n]
  {
    var n := LabelEnd(signedChar, s);
    var l := s[1..n];
    if DOT in l {
      FirstDot(l);
      assert TextToWire(l)[0] < n - 1 <= s[0];
      assert TextToWire(l) != s[..n];
    } else {
      SplitNoDot(l);
      assert Wire([l][1..]) == [];
      assert TextToWire(l) == [|l| % 256] + l;
      assert s[..n] == [s[0]] + l;
      assert |l| <= s[0] < 256;
      assert TextToWire(l)[0] == |l|;
    }
  }

  /** The encoder's first length octet stops short of the first dot. */
  lemma {:induction false} FirstDot(l: seq<byte>)
    requires DOT in l && |l| < 256
    ensures |SplitDots(l)[0]| < |l| && TextToWire(l) != [] && TextToWire(l)[0] < |l|
  {
    if l[0] != DOT {
      FirstDot(l[1..]);
    }
  }

  /** For every C string, decoding and encoding again gives the string back if and only if it is exact. */
  lemma {:induction false} WireRoundTrip(signedChar: bool, s: seq<byte>)
    requires s != []
    ensures TextToWire(WireToText(signedChar, s)) == s <==> Exact(signedChar, s)
  {
    var n := LabelEnd(signedChar, s);
    var l, rest := s[1..n], s[n..];
    assert s == s[..n] + rest;
    HeadRoundTrip(signedChar, s);
    TextToWireLength(l);
    WireToTextStep(signedChar, s);
    if rest == [] {
      assert s[..n] == s;
    } else {
      WireRoundTrip(signedChar, rest);
      var t := WireToText(signedChar, rest);
      SplitConcat(l, t);
      WireConcat(SplitDots(l), SplitDots(t));
      var e := TextToWire(l) + TextToWire(t);
      assert TextToWire(WireToText(signedChar, s)) == e;
      assert e[..n] == TextToWire(l) && e[n..] == TextToWire(t);
    }
  }
}
