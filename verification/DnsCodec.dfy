/** The in-place name conversions of utils.c, over mutable buffers. */
module DnsCodec {
  import opened Sequences
  import opened Bytes
  import opened DnsNames

  /** The decoders' output from position `i` on, before the last dot is cut: every label followed by a dot. */
  function DotEach(signedChar: bool, s: seq<byte>, i: nat): (t: seq<byte>)
    requires i <= |s|
    ensures |t| == |s| - i
    decreases |s| - i
  {
    if i == |s| then []
    else
      var n := NextLabel(signedChar, s, i);
      if n <= |s| then s[i + 1..n] + [DOT] + DotEach(signedChar, s, n) else s[i + 1..] + [DOT]
  }

  lemma DotAtEnd(a: seq<byte>, b: seq<byte>)
    ensures (a + [DOT] + b) + [DOT] == a + [DOT] + (b + [DOT])
  {
  }

  lemma {:induction false} DotEachIsText(signedChar: bool, s: seq<byte>, i: nat)
    requires i < |s|
    ensures DotEach(signedChar, s, i) == WireToText(signedChar, s[i..]) + [DOT]
    decreases |s| - i
  {
    var n := NextLabel(signedChar, s, i);
    WireToTextStep(signedChar, s[i..]);
    if n < |s| {
      assert s[i..][n - i..] == s[n..];
      assert s[i..][1..n - i] == s[i + 1..n];
      DotEachIsText(signedChar, s, n);
      DotAtEnd(s[i + 1..n], WireToText(signedChar, s[n..]));
    } else {
      assert s[i..][1..] == s[i + 1..] == s[i + 1..|s|];
    }
  }

  lemma {:induction false} DotEachNoZero(signedChar: bool, s: seq<byte>, i: nat)
    requires i <= |s| && 0 !in s
    ensures 0 !in DotEach(signedChar, s, i)
    decreases |s| - i
  {
    if i < |s| && NextLabel(signedChar, s, i) <= |s| {
      DotEachNoZero(signedChar, s, NextLabel(signedChar, s, i));
    }
  }

  /** Where strlen stops. */
  lemma StringEndsAt(s: seq<byte>, n: nat)
    requires n < |s| && s[n] == 0 && forall k :: 0 <= k < n ==> s[k] != 0
    ensures 0 in s && CString(s) == s[..n]
  {
    CStringUnique(s, s[..n]);
  }

  /** A NUL after the octets of a C string is all strlen needs. */
  lemma StringAtFront(s: seq<byte>, q: seq<byte>)
    requires |q| < |s| && s[..|q| + 1] == q + [0] && 0 !in q
    ensures 0 in s && CString(s) == q
  {
    assert s[|q|] == (q + [0])[|q|] == 0;
    assert s[..|q|] == s[..|q| + 1][..|q|] == q;
    CStringUnique(s, q);
  }

  /** Starting from a label at `from`, the decoders reach a label at `i`. */
  ghost predicate Reaches(signedChar: bool, s: seq<byte>, from: nat, i: nat)
    decreases i - from
  {
    from == i || (from < i && from < |s| && Reaches(signedChar, s, NextLabel(signedChar, s, from), i))
  }

  /** From a label at `i`: one more label, what its text is, and where the decoding will end. */
  lemma {:induction false} LabelAt(signedChar: bool, s: seq<byte>, from: nat, i: nat)
    requires Reaches(signedChar, s, from, i) && i < |s|
    ensures Reaches(signedChar, s, from, NextLabel(signedChar, s, i))
    ensures Reach(signedChar, s, from) == Reach(signedChar, s, NextLabel(signedChar, s, i))
    ensures LabelText(s, DotEach(signedChar, s, from), from, i, LabelCount(signedChar, s[i]))
    decreases i - from
  {
    var n := NextLabel(signedChar, s, from);
    if from < i {
      LabelAt(signedChar, s, n, i);
      assert DotEach(signedChar, s, from)[n - from..] == DotEach(signedChar, s, n);
    }
  }

  /** `text`, which starts at `from`, spells the label of `p` octets at `i`. */
  ghost predicate LabelText(s: seq<byte>, text: seq<byte>, from: nat, i: nat, p: nat) {
    && from <= i < |s| == from + |text|
    && (forall k {:trigger text[k]} :: i - from <= k < i - from + p && k < |text| - 1 ==> text[k] == s[k + from + 1])
    && (i + p < |s| ==> text[i + p - from] == DOT)
  }

  /** Labels before `i` are text; the rest is untouched. */
  ghost predicate Decoded(was: seq<byte>, text: seq<byte>, cur: seq<byte>, i: nat) {
    && i <= |text| < |cur| == |was|
    && (forall k {:trigger cur[k]} :: 0 <= k < i ==> cur[k] == text[k])
    && (forall k {:trigger cur[k]} :: i <= k < |was| ==> cur[k] == was[k])
  }

  /** The last length has carried the terminator one place down and the index past the string. */
  ghost predicate Overrun(was: seq<byte>, text: seq<byte>, cur: seq<byte>, i: nat) {
    && 0 < |text| < i <= |cur| == |was|
    && (forall k {:trigger cur[k]} :: 0 <= k < |text| - 1 ==> cur[k] == text[k])
    && cur[|text| - 1] == 0
    && (forall k {:trigger cur[k]} :: i <= k < |was| ==> cur[k] == was[k])
  }

  /** One label of `p` octets at `i` moved down one place and dotted. */
  ghost predicate Moved(cur: seq<byte>, next: seq<byte>, i: nat, p: nat) {
    && |next| == |cur| > i + p
    && (forall k {:trigger next[k]} :: 0 <= k < i ==> next[k] == cur[k])
    && (forall k {:trigger next[k]} :: i <= k < i + p ==> next[k] == cur[k + 1])
    && next[i + p] == DOT
    && (forall k {:trigger next[k]} :: i + p < k < |cur| ==> next[k] == cur[k])
  }

  lemma StepBuffer(was: seq<byte>, s: seq<byte>, text: seq<byte>, cur: seq<byte>, next: seq<byte>, i: nat, p: nat)
    requires HoldsString(was, s) && Decoded(was, text, cur, i) && Moved(cur, next, i, p)
    requires LabelText(s, text, 0, i, p)
    ensures i + p < |text| ==> Decoded(was, text, next, i + p + 1)
    ensures i + p >= |text| ==> Overrun(was, text, next, i + p + 1)
  {
    assert forall k {:trigger s[k]} :: 0 <= k < |s| ==> was[k] == s[k];
  }

  method Strlen(name: array<byte>) returns (n: nat)
    requires 0 in name[..]
    ensures n == |CString(name[..])|
  {
    n := |CString(name[..])|;
  }

  /** The decoders' inner loop and the dot after it: move `p` octets, if any, one place towards the front. */
  method MoveLabel(name: array<byte>, start: nat, p: int, ghost n: nat) returns (i: nat)
    requires n == (if p < 0 then 0 else p) && start + n < name.Length
    modifies name
    ensures i == start + n + 1
    ensures Moved(old(name[..]), name[..], start, n)
  {
    i := start;
    var j := 0;
    while j < p
      invariant 0 <= j <= n && i == start + j
      invariant forall k :: 0 <= k < start ==> name[k] == old(name[k])
      invariant forall k :: start <= k < i ==> name[k] == old(name[k + 1])
      invariant forall k :: i <= k < name.Length ==> name[k] == old(name[k])
    {
      name[i] := name[i + 1];
      i := i + 1;
      j := j + 1;
    }
    name[i] := DOT;
    i := i + 1;
  }

  /** The decoders' loop invariant. */
  ghost predicate Decoding(signedChar: bool, was: seq<byte>, s: seq<byte>, text: seq<byte>, cur: seq<byte>, i: nat) {
    && Reaches(signedChar, s, 0, i)
    && Reach(signedChar, s, 0) == Reach(signedChar, s, i) <= |was|
    && (i <= |s| ==> Decoded(was, text, cur, i))
    && (i > |s| ==> Overrun(was, text, cur, i))
  }

  lemma DecodingStep(signedChar: bool, was: seq<byte>, s: seq<byte>, text: seq<byte>,
                     cur: seq<byte>, next: seq<byte>, i: nat)
    requires HoldsString(was, s) && text == DotEach(signedChar, s, 0)
    requires Decoding(signedChar, was, s, text, cur, i) && i < |s|
    requires Moved(cur, next, i, LabelCount(signedChar, cur[i]))
    ensures Decoding(signedChar, was, s, text, next, i + LabelCount(signedChar, cur[i]) + 1)
  {
    assert cur[i] == was[i] == s[i];
    LabelAt(signedChar, s, 0, i);
    LabelDecoded(signedChar, was, s, text, cur, next, i, LabelCount(signedChar, s[i]));
  }

  lemma LabelDecoded(signedChar: bool, was: seq<byte>, s: seq<byte>, text: seq<byte>,
                     cur: seq<byte>, next: seq<byte>, i: nat, p: nat)
    requires HoldsString(was, s) && Decoded(was, text, cur, i) && Moved(cur, next, i, p)
    requires LabelText(s, text, 0, i, p) && Reaches(signedChar, s, 0, i + p + 1)
    requires Reach(signedChar, s, 0) == Reach(signedChar, s, i + p + 1) <= |was|
    ensures Decoding(signedChar, was, s, text, next, i + p + 1)
  {
    StepBuffer(was, s, text, cur, next, i, p);
  }

  lemma DecodingStarts(signedChar: bool, was: seq<byte>, s: seq<byte>)
    requires HoldsString(was, s) && Reach(signedChar, s, 0) <= |was|
    ensures Decoding(signedChar, was, s, DotEach(signedChar, s, 0), was, 0)
  {
  }

  lemma DecodingRoom(signedChar: bool, was: seq<byte>, s: seq<byte>, text: seq<byte>, cur: seq<byte>, i: nat)
    requires HoldsString(was, s)
    requires Decoding(signedChar, was, s, text, cur, i) && i < |s|
    ensures i + LabelCount(signedChar, cur[i]) < |was|
  {
    assert cur[i] == was[i] == s[i];
  }

  /** strlen of the half-converted buffer: unchanged until a length runs past the end. */
  lemma DecodingStrlen(signedChar: bool, was: seq<byte>, s: seq<byte>, text: seq<byte>, cur: seq<byte>, i: nat)
    requires HoldsString(was, s) && s != [] && text == DotEach(signedChar, s, 0)
    requires Decoding(signedChar, was, s, text, cur, i)
    ensures 0 in cur && |CString(cur)| == if i <= |s| then |s| else |s| - 1
  {
    DotEachNoZero(signedChar, s, 0);
    assert forall k :: 0 <= k < |s| ==> text[k] in text;
    assert forall k :: 0 <= k < |s| ==> was[k] == s[k] && s[k] in s;
    StringEndsAt(cur, if i <= |s| then |s| else |s| - 1);
  }

  /** Cutting the last dot leaves the text and its terminator, and touches nothing past the index. */
  lemma DecodingEnds(signedChar: bool, was: seq<byte>, s: seq<byte>, text: seq<byte>, cur: seq<byte>, i: nat)
    requires HoldsString(was, s) && s != [] && text == DotEach(signedChar, s, 0)
    requires Decoding(signedChar, was, s, text, cur, i) && i >= |s|
    ensures 0 < i == Reach(signedChar, s, 0)
    ensures cur[i - 1 := 0][..|s|] == WireToText(signedChar, s) + [0]
    ensures cur[i - 1 := 0][i..] == was[i..]
  {
    DotEachIsText(signedChar, s, 0);
    assert s[0..] == s;
  }

  /**
   * Turn the length-prefixed string at the front of `name` into dotted text, in place.
   * Works on every nonempty string; the buffer must have room for the last length, right or wrong.
   */
  method LengthsToDots(name: array<byte>, signedChar: bool)
    requires 0 in name[..]
    requires CString(name[..]) != []
    requires Reach(signedChar, CString(name[..]), 0) <= name.Length
    modifies name
    ensures var s := old(CString(name[..]));
            && name[..|s|] == WireToText(signedChar, s) + [0]
            && name[Reach(signedChar, s, 0)..] == old(name[..])[Reach(signedChar, s, 0)..]
  {
    ghost var was := name[..];
    ghost var s, cur := CString(was), was;
    ghost var text := DotEach(signedChar, s, 0);
    DecodingStarts(signedChar, was, s);
    var i := 0;
    var n := Strlen(name);
    while i < n
      invariant 0 <= i && n == if i <= |s| then |s| else |s| - 1
      invariant name[..] == cur && Decoding(signedChar, was, s, text, cur, i)
      decreases name.Length - i
    {
      i, n := DecodeLabel(name, signedChar, i, was, s);
      cur := name[..];
    }
    DecodingEnds(signedChar, was, s, text, cur, i);
    name[i - 1] := 0;
    assert name[..] == cur[i - 1 := 0];
  }

  /** One turn of the decoders' loop: a label is moved and dotted, and strlen is taken again. */
  method DecodeLabel(name: array<byte>, signedChar: bool, i: nat, ghost was: seq<byte>, ghost s: seq<byte>)
      returns (next: nat, n: nat)
    requires HoldsString(was, s) && i < |s|
    requires Decoding(signedChar, was, s, DotEach(signedChar, s, 0), name[..], i)
    modifies name
    ensures i < next && n == if next <= |s| then |s| else |s| - 1
    ensures Decoding(signedChar, was, s, DotEach(signedChar, s, 0), name[..], next)
  {
    ghost var text, cur := DotEach(signedChar, s, 0), name[..];
    DecodingRoom(signedChar, was, s, text, cur, i);
    next := MoveLabel(name, i, CharValue(signedChar, name[i]), LabelCount(signedChar, name[i]));
    DecodingStep(signedChar, was, s, text, cur, name[..], i);
    DecodingStrlen(signedChar, was, s, text, name[..], next);
    n := Strlen(name);
  }

  // ----- ChangetoDnsNameFormat -----

  /** The rest of a text from `lock`, once its label without dots up to `i` is known. */
  lemma EncodeLabel(h: seq<byte>, lock: nat, i: nat)
    requires lock <= i <= |h| && DOT !in h[lock..i] && (i < |h| ==> h[i] == DOT)
    ensures TextToWire(h[lock..]) ==
            Prefixed(h[lock..i]) + if i < |h| then TextToWire(h[i + 1..]) else []
  {
    var l := h[lock..i];
    SplitNoDot(l);
    assert Wire([l]) == Prefixed(l) + Wire([]);
    if i < |h| {
      assert h[lock..] == l + [DOT] + h[i + 1..];
      SplitConcat(l, h[i + 1..]);
      WireConcat([l], SplitDots(h[i + 1..]));
    } else {
      assert h[lock..] == l;
    }
  }

  /** strcat(host, "."): the buffer must have room for the dot and the terminator. */
  method AppendDot(host: array<byte>)
    requires 0 in host[..] && |CString(host[..])| + 1 < host.Length
    modifies host
    ensures var h := old(CString(host[..]));
            && host[..] == h + [DOT, 0] + old(host[..])[|h| + 2..]
            && 0 in host[..] && CString(host[..]) == h + [DOT]
  {
    ghost var h := CString(host[..]);
    ghost var was := host[..];
    var n := |CString(host[..])|;
    assert forall k :: 0 <= k < |h| ==> was[k] == h[k] && h[k] in h;
    host[n] := DOT;
    host[n + 1] := 0;
    assert host[..] == was[..n] + [DOT, 0] + was[n + 2..];
    assert was[..n] == h;
    assert host[..n + 2] == (h + [DOT]) + [0];
    StringAtFront(host[..], h + [DOT]);
  }

  /** The encoding of a text continues at `lock` with the encoding of the rest. */
  ghost predicate EncodesFrom(h: seq<byte>, wire: seq<byte>, lock: nat) {
    && |wire| == |h| + 1
    && lock <= |wire|
    && (lock <= |h| ==> wire[lock..] == TextToWire(h[lock..]))
  }

  lemma EncodeStep(h: seq<byte>, wire: seq<byte>, lock: nat, i: nat)
    requires EncodesFrom(h, wire, lock) && lock <= i <= |h|
    requires (forall k :: lock <= k < i ==> h[k] != DOT) && (i < |h| ==> h[i] == DOT)
    ensures wire[lock..i + 1] == Prefixed(h[lock..i])
    ensures EncodesFrom(h, wire, i + 1)
  {
    EncodeLabel(h, lock, i);
    EncodedTail(h, wire, lock, i, Prefixed(h[lock..i]));
  }

  lemma EncodedTail(h: seq<byte>, wire: seq<byte>, lock: nat, i: nat, piece: seq<byte>)
    requires EncodesFrom(h, wire, lock) && lock <= i <= |h| && |piece| == i - lock + 1
    requires TextToWire(h[lock..]) == piece + if i < |h| then TextToWire(h[i + 1..]) else []
    ensures wire[lock..i + 1] == piece
    ensures EncodesFrom(h, wire, i + 1)
  {
    SplitTail(wire, lock, piece, if i < |h| then TextToWire(h[i + 1..]) else []);
  }

  /**
   * Write the text in `host` as length-prefixed labels at `at` in `dns`, followed by a zero octet.
   * The text gains a trailing dot, which the caller keeps.
   */
  method ChangeToDnsNameFormat(dns: array<byte>, at: nat, host: array<byte>)
    requires dns != host
    requires 0 in host[..] && |CString(host[..])| + 1 < host.Length
    requires at + |CString(host[..])| + 2 <= dns.Length
    modifies dns, host
    ensures var h := old(CString(host[..]));
            && host[..] == h + [DOT, 0] + old(host[..])[|h| + 2..]
            && 0 in host[..] && CString(host[..]) == h + [DOT]
            && |TextToWire(h)| == |h| + 1
            && dns[..] == Splice(old(dns[..]), at, TextToWire(h) + [0])
  {
    AppendDot(host);
    EncodeDotted(dns, at, host, old(CString(host[..])));
  }

  /** The encoder's loop invariant: the labels before `lock` are written, and none ends between `lock` and `i`. */
  ghost predicate Encoding(was: seq<byte>, at: nat, h: seq<byte>, cur: seq<byte>, lock: nat, i: nat) {
    && lock <= i <= |h| + 1
    && (i <= |h| ==> forall k :: lock <= k < i ==> h[k] != DOT)
    && (i == |h| + 1 ==> lock == i)
    && EncodesFrom(h, TextToWire(h), lock)
    && at + |h| + 2 <= |was|
    && cur == Splice(was, at, TextToWire(h)[..lock])
  }

  lemma EncodingStarts(was: seq<byte>, at: nat, h: seq<byte>)
    requires at + |h| + 2 <= |was|
    ensures Encoding(was, at, h, was, 0, 0)
  {
    TextToWireLength(h);
    assert h[0..] == h && TextToWire(h)[0..] == TextToWire(h);
    assert was == Splice(was, at, TextToWire(h)[..0]);
  }

  lemma EncodingStep(was: seq<byte>, at: nat, h: seq<byte>, cur: seq<byte>, next: seq<byte>, lock: nat, i: nat)
    requires Encoding(was, at, h, cur, lock, i) && i <= |h| && (h + [DOT])[i] == DOT
    requires next == Splice(cur, at + lock, Prefixed(h[lock..i]))
    ensures Encoding(was, at, h, next, i + 1, i + 1)
  {
    var wire := TextToWire(h);
    EncodeStep(h, wire, lock, i);
    SpliceAppend(was, at, wire[..lock], wire[lock..i + 1]);
    assert wire[..i + 1] == wire[..lock] + wire[lock..i + 1];
  }

  lemma EncodingSkips(was: seq<byte>, at: nat, h: seq<byte>, cur: seq<byte>, lock: nat, i: nat)
    requires Encoding(was, at, h, cur, lock, i) && i <= |h| && (h + [DOT])[i] != DOT
    ensures Encoding(was, at, h, cur, lock, i + 1)
  {
  }

  lemma EncodingEnds(was: seq<byte>, at: nat, h: seq<byte>, cur: seq<byte>, lock: nat)
    requires Encoding(was, at, h, cur, lock, |h| + 1)
    ensures lock == |h| + 1 == |TextToWire(h)|
    ensures cur[at + lock := 0] == Splice(was, at, TextToWire(h) + [0])
  {
    assert TextToWire(h)[..lock] == TextToWire(h);
    SpliceOne(cur, at + lock, 0);
    SpliceAppend(was, at, TextToWire(h), [0]);
  }

  lemma SameSlice(text: seq<byte>, h: seq<byte>, lock: nat, i: nat)
    requires 0 in text && CString(text) == h + [DOT] && lock <= i <= |h|
    ensures i < |text| && text[i] == (h + [DOT])[i] && text[lock..i] == h[lock..i]
  {
    var g := h + [DOT];
    assert forall k {:trigger g[k]} :: 0 <= k <= |h| ==> text[k] == text[..|g|][k] == g[k];
    assert forall k {:trigger text[k]} :: lock <= k < i ==> text[k] == g[k] == h[k];
  }

  /** The encoder's loop, over a text that already ends in its extra dot. */
  method EncodeDotted(dns: array<byte>, at: nat, host: array<byte>, ghost h: seq<byte>)
    requires dns != host
    requires 0 in host[..] && CString(host[..]) == h + [DOT]
    requires at + |h| + 2 <= dns.Length
    modifies dns
    ensures |TextToWire(h)| == |h| + 1
    ensures dns[..] == Splice(old(dns[..]), at, TextToWire(h) + [0])
  {
    ghost var was, cur := dns[..], dns[..];
    EncodingStarts(was, at, h);
    var lock, i, d := 0, 0, at;
    var n := Strlen(host);
    while i < n
      invariant 0 <= lock <= i <= n == |h| + 1 && d == at + lock
      invariant dns[..] == cur && Encoding(was, at, h, cur, lock, i)
    {
      lock, d := EncodeOctet(dns, d, host, lock, i, was, at, h);
      cur := dns[..];
      i := i + 1;
    }
    EncodingEnds(was, at, h, cur, lock);
    dns[d] := 0;
    assert dns[..] == cur[d := 0];
  }

  /** One turn of the encoder's loop: at a dot the label since `lock` is written. */
  method EncodeOctet(dns: array<byte>, d: nat, host: array<byte>, lock: nat, i: nat,
                     ghost was: seq<byte>, ghost at: nat, ghost h: seq<byte>) returns (newLock: nat, next: nat)
    requires dns != host
    requires 0 in host[..] && CString(host[..]) == h + [DOT]
    requires i <= |h| && d == at + lock && Encoding(was, at, h, dns[..], lock, i)
    modifies dns
    ensures next == at + newLock && newLock <= i + 1 && Encoding(was, at, h, dns[..], newLock, i + 1)
  {
    ghost var cur := dns[..];
    newLock, next := lock, d;
    SameSlice(host[..], h, lock, i);
    if host[i] == DOT {
      assert host[lock..i] == host[..][lock..i];
      next := WriteLabel(dns, d, host, lock, i);
      newLock := i + 1;
      EncodingStep(was, at, h, cur, dns[..], lock, i);
    } else {
      EncodingSkips(was, at, h, cur, lock, i);
    }
  }

  /** One length octet and its label, copied out of the text. */
  method WriteLabel(dns: array<byte>, at: nat, host: array<byte>, lock: nat, i: nat) returns (d: nat)
    requires dns != host && lock <= i < host.Length && at + (i - lock) + 1 <= dns.Length
    modifies dns
    ensures d == at + (i - lock) + 1
    ensures dns[..] == Splice(old(dns[..]), at, Prefixed(host[lock..i]))
  {
    ghost var was, piece := dns[..], Prefixed(host[lock..i]);
    d := at;
    dns[d] := (i - lock) % 256;
    d := d + 1;
    var from := lock;
    while from < i
      invariant lock <= from <= i && d == at + 1 + (from - lock)
      invariant forall k {:trigger dns[k]} :: at <= k < d ==> dns[k] == piece[k - at]
      invariant forall k {:trigger dns[k]} :: 0 <= k < at || d <= k < dns.Length ==> dns[k] == was[k]
    {
      assert host[from] == piece[d - at];
      dns[d] := host[from];
      d := d + 1;
      from := from + 1;
    }
    SpliceByOctets(was, at, piece, dns[..]);
  }

  // ----- verify_and_copy_qname -----

  /** The characters of the C string at `at`, one by one. */
  lemma StringOctets(s: seq<byte>, at: nat, q: seq<byte>)
    requires at <= |s| && 0 in s[at..] && q == CString(s[at..])
    ensures at + |q| < |s| && s[at + |q|] == 0
    ensures forall k {:trigger q[k]} :: 0 <= k < |q| ==> q[k] == s[at + k] && q[k] != 0
  {
    var t := s[at..];
    assert s[at + |q|] == t[|q|];
    forall k | 0 <= k < |q| ensures q[k] == s[at + k] && q[k] != 0 {
      assert q[k] == t[..|q|][k] == s[at + k] && q[k] in q;
    }
  }

  /** The copy is refused only once it is more than one octet past `buflen`. */
  method VerifyAndCopyQname(src: array<byte>, at: nat, name: array<byte>, buflen: nat) returns (ok: bool)
    requires src != name && at <= src.Length && 0 in src[at..]
    requires |CString(src[at..])| < name.Length || buflen + 1 < name.Length
    modifies name
    ensures var q := CString(src[at..]);
            && (ok <==> |q| <= buflen + 1)
            && (ok ==> name[..] == Splice(old(name[..]), 0, q + [0]))
            && (!ok ==> name[..] == Splice(old(name[..]), 0, q[..buflen + 2]))
  {
    ghost var q, was := CString(src[at..]), name[..];
    assert src[at..] == src[..][at..];
    StringOctets(src[..], at, q);
    var i := 0;
    while src[at + i] != 0
      invariant 0 <= i <= |q| && i <= buflen + 1
      invariant forall k {:trigger name[k]} :: 0 <= k < i ==> name[k] == q[k]
      invariant forall k {:trigger name[k]} :: i <= k < name.Length ==> name[k] == was[k]
      decreases |q| - i
    {
      name[i] := src[at + i];
      if i > buflen {
        SpliceByOctets(was, 0, q[..buflen + 2], name[..]);
        return false;
      }
      i := i + 1;
    }
    name[i] := 0;
    SpliceByOctets(was, 0, q + [0], name[..]);
    return true;
  }
}
