/** Compressed names (section 4.1.4 of RFC 1035): the octet walk of uncompress_name and the label-wise meaning. */
module DnsCompression {
  import opened Sequences
  import opened Bytes
  import opened DnsNames
  import opened DnsCodec

  const JUMP := 192
  const JUMP_BITS := 49152

  /** Where the pointer at `at` leads. */
  function Target(m: seq<byte>, at: nat): (t: nat)
    requires at + 1 < |m| && m[at] >= JUMP
    ensures t < 0x4000
  {
    (m[at] as int) * 256 + m[at + 1] - JUMP_BITS
  }

  // ----- the octet walk -----

  /** Reading on from `r`, the walk meets a NUL within `n` octets and pointers, without leaving the message. */
  ghost predicate Ends(m: seq<byte>, r: nat, n: nat)
    decreases n
  {
    && r < |m|
    && (m[r] != 0 ==>
          && n > 0
          && (if m[r] >= JUMP then r + 1 < |m| && Ends(m, Target(m, r), n - 1)
              else Ends(m, r + 1, n - 1)))
  }

  /** The octets the walk collects. */
  ghost function Gathered(m: seq<byte>, r: nat, n: nat): (g: seq<byte>)
    requires Ends(m, r, n)
    ensures PlainOctets(g)
    decreases n
  {
    if m[r] == 0 then []
    else if m[r] >= JUMP then Gathered(m, Target(m, r), n - 1)
    else [m[r]] + Gathered(m, r + 1, n - 1)
  }

  /** The octets the name takes up where it stands: to its NUL, or to the end of its first pointer. */
  ghost function Occupied(m: seq<byte>, r: nat, n: nat): (c: nat)
    requires Ends(m, r, n)
    ensures 1 <= c <= |m| - r
    decreases n
  {
    if m[r] == 0 then 1 else if m[r] >= JUMP then 2 else 1 + Occupied(m, r + 1, n - 1)
  }

  lemma {:induction false} EndsMonotone(m: seq<byte>, r: nat, n: nat, k: nat)
    requires Ends(m, r, n) && n <= k
    ensures Ends(m, r, k)
    decreases n
  {
    if m[r] != 0 {
      EndsMonotone(m, if m[r] >= JUMP then Target(m, r) else r + 1, n - 1, k - 1);
    }
  }

  /** The bound on the walk does not matter. */
  lemma {:induction false} WalkUnique(m: seq<byte>, r: nat, n: nat, k: nat)
    requires Ends(m, r, n) && Ends(m, r, k)
    ensures Gathered(m, r, n) == Gathered(m, r, k) && Occupied(m, r, n) == Occupied(m, r, k)
    decreases n
  {
    if m[r] != 0 {
      WalkUnique(m, if m[r] >= JUMP then Target(m, r) else r + 1, n - 1, k - 1);
    }
  }

  /** Whatever the walk takes for a pointer leads before the start of its run of octets. */
  ghost predicate Backward(m: seq<byte>, seg: nat, r: nat)
    decreases seg, |m| - r
  {
    && r < |m|
    && (m[r] != 0 ==>
          if m[r] >= JUMP then r + 1 < |m| && Target(m, r) < seg && Backward(m, Target(m, r), Target(m, r))
          else Backward(m, seg, r + 1))
  }

  /** Pointers that lead strictly backwards make the walk end. */
  lemma {:induction false} BackwardEnds(m: seq<byte>, seg: nat, r: nat) returns (n: nat)
    requires Backward(m, seg, r)
    ensures Ends(m, r, n)
    decreases seg, |m| - r
  {
    if m[r] == 0 {
      n := 0;
    } else if m[r] >= JUMP {
      n := BackwardEnds(m, Target(m, r), Target(m, r));
      n := n + 1;
    } else {
      n := BackwardEnds(m, seg, r + 1);
      n := n + 1;
    }
  }

  /** The walk from `reader` has come to `r` with `p` octets collected; the count stops at the first pointer. */
  ghost predicate Collecting(m: seq<byte>, reader: nat, n: nat, r: nat, left: nat, p: nat, jumped: bool, count: nat) {
    && Ends(m, reader, n) && Ends(m, r, left)
    && p <= |Gathered(m, reader, n)| && Gathered(m, r, left) == Gathered(m, reader, n)[p..]
    && Occupied(m, reader, n) + 1 == count + if jumped then 2 else Occupied(m, r, left)
  }

  /** One turn of the walk: a pointer is followed, or an octet is collected. */
  lemma CollectStep(m: seq<byte>, reader: nat, n: nat, r: nat, left: nat, p: nat, jumped: bool, count: nat)
    requires Collecting(m, reader, n, r, left, p, jumped, count) && m[r] != 0
    ensures left > 0
    ensures if m[r] >= JUMP then
              r + 1 < |m| && Collecting(m, reader, n, Target(m, r), left - 1, p, true, count)
            else
              && p < |Gathered(m, reader, n)| && Gathered(m, reader, n)[p] == m[r]
              && Collecting(m, reader, n, r + 1, left - 1, p + 1, jumped, if jumped then count else count + 1)
  {
    var g := Gathered(m, reader, n);
    if m[r] < JUMP {
      assert g[p] == g[p..][0];
      assert g[p + 1..] == g[p..][1..];
    }
  }

  /** The walk itself: the octets of the name at `reader` with a NUL behind them, and how many it takes up there. */
  method GatherOctets(reader: nat, message: array<byte>, name: array<byte>, ghost n: nat) returns (count: nat)
    requires name != message && Ends(message[..], reader, n)
    requires |Gathered(message[..], reader, n)| < name.Length
    modifies name
    ensures count == Occupied(message[..], reader, n)
    ensures var g := Gathered(message[..], reader, n); name[..|g| + 1] == g + [0]
  {
    ghost var m := message[..];
    ghost var g := Gathered(m, reader, n);
    count := 1;
    var p, jumped, r: int := 0, false, reader;
    ghost var left := n;
    while message[r] != 0
      invariant 0 <= r && 0 <= p <= |g| && Collecting(m, reader, n, r, left, p, jumped, count)
      invariant message[..] == m && forall k {:trigger name[k]} :: 0 <= k < p ==> name[k] == g[k]
      decreases left
    {
      CollectStep(m, reader, n, r, left, p, jumped, count);
      if message[r] >= JUMP {
        var offset := (message[r] as int) * MAX_NAME_LEN + message[r + 1] - JUMP_BITS;
        r := offset - 1;
        jumped := true;
      } else {
        name[p] := message[r];
        p := p + 1;
      }
      r := r + 1;
      if !jumped {
        count := count + 1;
      }
      left := left - 1;
    }
    name[p] := 0;
    if jumped {
      count := count + 1;
    }
  }

  /**
   * Expand the name at `reader` of the message and count the octets it takes up there.
   * The text is decoded in place in a fresh buffer, which must have room for it.
   */
  method UncompressName(reader: nat, message: array<byte>, ghost n: nat) returns (name: array<byte>, count: nat)
    requires Ends(message[..], reader, n)
    requires var g := Gathered(message[..], reader, n);
             g != [] && |g| < MAX_NAME_LEN && Reach(false, g, 0) <= MAX_NAME_LEN
    ensures fresh(name) && name.Length == MAX_NAME_LEN
    ensures count == Occupied(message[..], reader, n)
    ensures 0 in name[..] && CString(name[..]) == WireToText(false, Gathered(message[..], reader, n))
  {
    ghost var g := Gathered(message[..], reader, n);
    name := new byte[MAX_NAME_LEN](_ => 0);
    count := GatherOctets(reader, message, name, n);
    StringAtFront(name[..], g);
    LengthsToDots(name, false);
    WireToTextShape(false, g);
    StringAtFront(name[..], WireToText(false, g));
  }

  // ----- the meaning of section 4.1.4 -----

  /** A name at `pos`, in a run of labels that started at `seg`: every pointer leads before the start of its run. */
  ghost predicate WellFormed(m: seq<byte>, seg: nat, pos: nat)
    decreases seg, |m| - pos
  {
    && pos < |m|
    && (m[pos] != 0 ==>
          if m[pos] >= JUMP then
            pos + 1 < |m| && Target(m, pos) < seg && WellFormed(m, Target(m, pos), Target(m, pos))
          else
            m[pos] <= MAX_LABEL && pos + 1 + m[pos] <= |m| && WellFormed(m, seg, pos + 1 + m[pos]))
  }

  /** The labels a name stands for. */
  ghost function Expansion(m: seq<byte>, seg: nat, pos: nat): (ls: seq<Label>)
    requires WellFormed(m, seg, pos)
    ensures forall k :: 0 <= k < |ls| ==> 1 <= |ls[k]| <= MAX_LABEL
    decreases seg, |m| - pos
  {
    if m[pos] == 0 then []
    else if m[pos] >= JUMP then Expansion(m, Target(m, pos), Target(m, pos))
    else [m[pos + 1..pos + 1 + m[pos]]] + Expansion(m, seg, pos + 1 + m[pos])
  }

  /** The octets a name occupies at `pos`. */
  ghost function NameSize(m: seq<byte>, seg: nat, pos: nat): (n: nat)
    requires WellFormed(m, seg, pos)
    decreases seg, |m| - pos
  {
    if m[pos] == 0 then 1 else if m[pos] >= JUMP then 2
    else 1 + m[pos] + NameSize(m, seg, pos + 1 + m[pos])
  }

  /** The steps an octet walk needs for a name. */
  ghost function Steps(m: seq<byte>, seg: nat, pos: nat): (n: nat)
    requires WellFormed(m, seg, pos)
    decreases seg, |m| - pos
  {
    if m[pos] == 0 then 0
    else if m[pos] >= JUMP then 1 + Steps(m, Target(m, pos), Target(m, pos))
    else 1 + m[pos] + Steps(m, seg, pos + 1 + m[pos])
  }

  /** No octet looks like a terminator or a pointer. */
  ghost predicate PlainOctets(s: seq<byte>) {
    forall k :: 0 <= k < |s| ==> 0 < s[k] < JUMP
  }

  ghost predicate Plain(ls: seq<Label>) {
    forall k :: 0 <= k < |ls| ==> PlainOctets(ls[k])
  }

  lemma PlainConcat(a: seq<byte>, b: seq<byte>)
    ensures PlainOctets(a + b) <==> PlainOctets(a) && PlainOctets(b)
  {
    var c := a + b;
    assert forall k {:trigger a[k]} :: 0 <= k < |a| ==> c[k] == a[k];
    assert forall k {:trigger b[k]} :: 0 <= k < |b| ==> c[|a| + k] == b[k];
  }

  /** The walk passes over `k` plain octets one by one. */
  lemma {:induction false} WalkOver(m: seq<byte>, r: nat, k: nat, n: nat)
    requires r + k <= |m| && PlainOctets(m[r..r + k]) && Ends(m, r + k, n)
    ensures Ends(m, r, n + k)
    ensures Gathered(m, r, n + k) == m[r..r + k] + Gathered(m, r + k, n)
    ensures Occupied(m, r, n + k) == k + Occupied(m, r + k, n)
    decreases k
  {
    if k > 0 {
      var head, tail, g := [m[r]], m[r + 1..r + k], Gathered(m, r + k, n);
      SliceHead(m, r, r + k);
      PlainConcat(head, tail);
      assert 0 < head[0] < JUMP;
      WalkOver(m, r + 1, k - 1, n);
      WalkOne(m, r, n + k - 1);
      ConcatAssociative(head, tail, g);
    }
  }

  lemma WalkOne(m: seq<byte>, r: nat, n: nat)
    requires r < |m| && 0 < m[r] < JUMP && Ends(m, r + 1, n)
    ensures Ends(m, r, n + 1)
    ensures Gathered(m, r, n + 1) == [m[r]] + Gathered(m, r + 1, n)
    ensures Occupied(m, r, n + 1) == 1 + Occupied(m, r + 1, n)
  {
  }

  /** The bounded walk at `pos` collects the octets `g` and counts `c` of them there. */
  ghost predicate Walks(m: seq<byte>, pos: nat, n: nat, g: seq<byte>, c: nat) {
    Ends(m, pos, n) && Gathered(m, pos, n) == g && Occupied(m, pos, n) == c
  }

  /** With plain labels the octet walk reads exactly the section 4.1.4 name, and ends. */
  lemma {:induction false} WalkExpands(m: seq<byte>, seg: nat, pos: nat)
    requires WellFormed(m, seg, pos) && Plain(Expansion(m, seg, pos))
    ensures Walks(m, pos, Steps(m, seg, pos), Wire(Expansion(m, seg, pos)), NameSize(m, seg, pos))
    decreases seg, |m| - pos
  {
    if m[pos] == 0 {
    } else if m[pos] >= JUMP {
      WalkExpands(m, Target(m, pos), Target(m, pos));
    } else {
      var next := pos + 1 + m[pos];
      var rest := Expansion(m, seg, next);
      LabelPlain(m[pos + 1..next], rest);
      WalkExpands(m, seg, next);
      WalkLabel(m, pos, Steps(m, seg, next), rest, NameSize(m, seg, next));
    }
  }

  lemma LabelPlain(l: Label, rest: seq<Label>)
    requires Plain([l] + rest)
    ensures PlainOctets(l) && Plain(rest)
  {
    var ls := [l] + rest;
    assert ls[0] == l && ls[1..] == rest;
  }

  lemma WalkLabel(m: seq<byte>, pos: nat, n: nat, rest: seq<Label>, c: nat)
    requires pos < |m| && 0 < m[pos] <= MAX_LABEL && pos + 1 + m[pos] <= |m|
    requires PlainOctets(m[pos + 1..pos + 1 + m[pos]])
    requires Walks(m, pos + 1 + m[pos], n, Wire(rest), c)
    ensures Walks(m, pos, 1 + m[pos] + n, Wire([m[pos + 1..pos + 1 + m[pos]]] + rest), 1 + m[pos] + c)
  {
    LabelOctets(m, pos);
    WalkOver(m, pos, 1 + m[pos], n);
    WirePrepend(m[pos + 1..pos + 1 + m[pos]], rest);
  }

  lemma LabelOctets(m: seq<byte>, pos: nat)
    requires pos < |m| && 0 < m[pos] < JUMP && pos + 1 + m[pos] <= |m|
    requires PlainOctets(m[pos + 1..pos + 1 + m[pos]])
    ensures m[pos..pos + 1 + m[pos]] == [m[pos]] + m[pos + 1..pos + 1 + m[pos]]
    ensures PlainOctets(m[pos..pos + 1 + m[pos]])
  {
    SliceHead(m, pos, pos + 1 + m[pos]);
    PlainConcat([m[pos]], m[pos + 1..pos + 1 + m[pos]]);
  }

  lemma {:induction false} PlainDotted(ls: seq<Label>)
    requires ls != []
    ensures PlainOctets(Dotted(ls)) <==> Plain(ls)
  {
    if |ls| > 1 {
      PlainDotted(ls[1..]);
      PlainConcat(ls[0] + [DOT], Dotted(ls[1..]));
      PlainConcat(ls[0], [DOT]);
      assert ls == [ls[0]] + ls[1..];
    } else {
      assert ls == [ls[0]];
    }
  }

  /** A walk that ends at all gives the dotted form of a plain name and counts its octets. */
  lemma PlainNameRead(m: seq<byte>, pos: nat, n: nat)
    requires WellFormed(m, pos, pos) && Expansion(m, pos, pos) != [] && Plain(Expansion(m, pos, pos))
    requires Ends(m, pos, n)
    ensures Reads(m, pos, n, Dotted(Expansion(m, pos, pos))) && Occupied(m, pos, n) == NameSize(m, pos, pos)
  {
    WalkExpands(m, pos, pos);
    WalkUnique(m, pos, n, Steps(m, pos, pos));
    SegmentsOfWire(false, Expansion(m, pos, pos));
  }

  /** Within `n` steps the name at `pos` is read as the text `t`. */
  ghost predicate Reads(m: seq<byte>, pos: nat, n: nat, t: seq<byte>) {
    Ends(m, pos, n) && Gathered(m, pos, n) != [] && WireToText(false, Gathered(m, pos, n)) == t
  }

  /**
   * For every name whose pointers lead strictly backwards: the walk ends with the dotted form of the name's
   * expansion if and only if every label octet is neither 0 nor 192 or more, and then the count is right.
   */
  lemma UncompressMeetsRfc(m: seq<byte>, pos: nat)
    requires WellFormed(m, pos, pos) && Expansion(m, pos, pos) != []
    ensures (exists n :: Reads(m, pos, n, Dotted(Expansion(m, pos, pos)))) <==> Plain(Expansion(m, pos, pos))
    ensures Plain(Expansion(m, pos, pos)) ==>
              forall n :: Ends(m, pos, n) ==> Occupied(m, pos, n) == NameSize(m, pos, pos)
  {
    var ls := Expansion(m, pos, pos);
    PlainDotted(ls);
    if Plain(ls) {
      WalkExpands(m, pos, pos);
      forall n | Ends(m, pos, n) ensures Reads(m, pos, n, Dotted(ls)) && Occupied(m, pos, n) == NameSize(m, pos, pos) {
        PlainNameRead(m, pos, n);
      }
      assert Reads(m, pos, Steps(m, pos, pos), Dotted(ls));
    } else {
      forall n | Ends(m, pos, n) && Gathered(m, pos, n) != [] ensures !Reads(m, pos, n, Dotted(ls)) {
        PlainText(Gathered(m, pos, n));
      }
    }
  }

  lemma {:induction false} PlainText(g: seq<byte>)
    requires g != [] && PlainOctets(g)
    ensures PlainOctets(WireToText(false, g))
  {
    var n := LabelEnd(false, g);
    WireToTextStep(false, g);
    if n < |g| {
      PlainText(g[n..]);
      PlainConcat(g[1..n] + [DOT], WireToText(false, g[n..]));
      PlainConcat(g[1..n], [DOT]);
    }
  }

  /** A valid name, compressed or not, can always be expanded: the walk ends and every buffer suffices. */
  lemma ValidNameUncompresses(m: seq<byte>, pos: nat)
    requires WellFormed(m, pos, pos) && ValidName(Expansion(m, pos, pos)) && Plain(Expansion(m, pos, pos))
    ensures var n := Steps(m, pos, pos);
            && Ends(m, pos, n)
            && var g := Gathered(m, pos, n);
               g != [] && |g| < MAX_NAME_LEN && Reach(false, g, 0) <= MAX_NAME_LEN
  {
    WalkExpands(m, pos, pos);
    var g := Wire(Expansion(m, pos, pos));
    assert g[0..] == g;
    WireReach(false, g, 0, Expansion(m, pos, pos));
  }

  // ----- names as they are written -----

  /** What follows a name's own labels: the root, or a pointer to an offset of the message. */
  datatype Tail = Root | To(offset: nat)

  datatype Spelled = Spelled(labels: seq<Label>, tail: Tail)

  ghost predicate Spellable(s: Spelled) {
    && (forall k :: 0 <= k < |s.labels| ==> 1 <= |s.labels[k]| <= MAX_LABEL)
    && (s.tail.To? ==> s.tail.offset < 0x4000)
  }

  /** Section 4.1.4: two one bits and 14 bits of offset. */
  function TailOctets(tail: Tail): (o: seq<byte>)
    requires tail.To? ==> tail.offset < 0x4000
  {
    if tail.Root? then [0] else Be16(0xC000 + tail.offset)
  }

  function SpelledOctets(s: Spelled): (o: seq<byte>)
    requires s.tail.To? ==> s.tail.offset < 0x4000
  {
    Wire(s.labels) + TailOctets(s.tail)
  }

  /** A pointer leads to the offset it is written with. */
  lemma PointerTarget(m: seq<byte>, at: nat, t: nat)
    requires t < 0x4000 && StandsAt(m, at, TailOctets(To(t)))
    ensures at + 1 < |m| && m[at] >= JUMP && Target(m, at) == t
  {
    var o := TailOctets(To(t));
    assert m[at] == m[at..at + 2][0] == o[0] && m[at + 1] == m[at..at + 2][1] == o[1];
  }

  /** A label stands where its length octet does, and the rest of the name behind it. */
  lemma LabelStands(m: seq<byte>, at: nat, l: Label, rest: seq<byte>)
    requires 1 <= |l| <= MAX_LABEL && StandsAt(m, at, Prefixed(l) + rest)
    ensures at < |m| && m[at] == |l| && at + 1 + |l| <= |m| && m[at + 1..at + 1 + |l|] == l
    ensures StandsAt(m, at + 1 + |l|, rest)
  {
    StandsParts(m, at, Prefixed(l), rest);
    StandsParts(m, at, [|l| % 256], l);
    assert m[at..at + 1] == [m[at]];
  }

  /** The name at `pos` stands for `ls` and takes up `n` octets. */
  ghost predicate Names(m: seq<byte>, seg: nat, pos: nat, ls: seq<Label>, n: nat) {
    WellFormed(m, seg, pos) && Expansion(m, seg, pos) == ls && NameSize(m, seg, pos) == n
  }

  /** A pointer is written to a name that stands before `seg`. */
  ghost predicate Leads(m: seq<byte>, seg: nat, tail: Tail) {
    tail.To? ==> tail.offset < 0x4000 && tail.offset < seg && WellFormed(m, tail.offset, tail.offset)
  }

  ghost function TailLabels(m: seq<byte>, seg: nat, tail: Tail): (ls: seq<Label>)
    requires Leads(m, seg, tail)
  {
    if tail.Root? then [] else Expansion(m, tail.offset, tail.offset)
  }

  lemma TailMeans(m: seq<byte>, seg: nat, at: nat, tail: Tail)
    requires Leads(m, seg, tail) && StandsAt(m, at, TailOctets(tail))
    ensures Names(m, seg, at, TailLabels(m, seg, tail), |TailOctets(tail)|)
  {
    if tail.To? {
      PointerTarget(m, at, tail.offset);
    } else {
      assert m[at] == m[at..at + 1][0] == 0;
    }
  }

  lemma LabelMeans(m: seq<byte>, seg: nat, at: nat, l: Label, ls: seq<Label>, n: nat)
    requires at < |m| && 1 <= m[at] == |l| <= MAX_LABEL && at + 1 + |l| <= |m| && m[at + 1..at + 1 + |l|] == l
    ensures Names(m, seg, at + 1 + |l|, ls, n) ==> Names(m, seg, at, [l] + ls, |l| + 1 + n)
  {
  }

  lemma NoLabels(s: Spelled, end: seq<Label>)
    requires Spellable(s) && s.labels == []
    ensures SpelledOctets(s) == TailOctets(s.tail) && s.labels + end == end
  {
  }

  lemma SpelledHead(s: Spelled, l: Label, rest: Spelled, end: seq<Label>)
    requires Spellable(s) && s.labels != [] && l == s.labels[0] && rest == Spelled(s.labels[1..], s.tail)
    ensures 1 <= |l| <= MAX_LABEL && Spellable(rest)
    ensures SpelledOctets(s) == Prefixed(l) + SpelledOctets(rest)
    ensures s.labels + end == [l] + (rest.labels + end)
  {
    ConcatAssociative(Prefixed(l), Wire(rest.labels), TailOctets(s.tail));
    assert s.labels == [l] + rest.labels;
    ConcatAssociative([l], rest.labels, end);
  }

  lemma SpelledStep(m: seq<byte>, seg: nat, at: nat, s: Spelled, l: Label, rest: Spelled, end: seq<Label>)
    requires Spellable(s) && StandsAt(m, at, SpelledOctets(s))
    requires s.labels != [] && l == s.labels[0] && rest == Spelled(s.labels[1..], s.tail)
    ensures Spellable(rest) && StandsAt(m, at + 1 + |l|, SpelledOctets(rest))
    ensures Names(m, seg, at + 1 + |l|, rest.labels + end, |SpelledOctets(rest)|) ==>
              Names(m, seg, at, s.labels + end, |SpelledOctets(s)|)
  {
    SpelledHead(s, l, rest, end);
    LabelStands(m, at, l, SpelledOctets(rest));
    LabelMeans(m, seg, at, l, rest.labels + end, |SpelledOctets(rest)|);
  }

  /** The meaning of a name as it is written: its own labels, and those of the name that its pointer leads to. */
  lemma {:induction false} SpelledMeans(m: seq<byte>, seg: nat, at: nat, s: Spelled)
    requires Spellable(s) && Leads(m, seg, s.tail) && StandsAt(m, at, SpelledOctets(s))
    ensures Names(m, seg, at, s.labels + TailLabels(m, seg, s.tail), |SpelledOctets(s)|)
    decreases |s.labels|
  {
    var end := TailLabels(m, seg, s.tail);
    if s.labels == [] {
      NoLabels(s, end);
      TailMeans(m, seg, at, s.tail);
    } else {
      var l, rest := s.labels[0], Spelled(s.labels[1..], s.tail);
      SpelledStep(m, seg, at, s, l, rest, end);
      SpelledMeans(m, seg, at + 1 + |l|, rest);
    }
  }

  /** So is the text that the walk gives, whenever all labels are plain; and the count is what was written. */
  lemma SpelledRead(m: seq<byte>, at: nat, s: Spelled, n: nat)
    requires Spellable(s) && Leads(m, at, s.tail) && StandsAt(m, at, SpelledOctets(s)) && Ends(m, at, n)
    requires var ls := s.labels + TailLabels(m, at, s.tail); ls != [] && Plain(ls)
    ensures Reads(m, at, n, Dotted(s.labels + TailLabels(m, at, s.tail)))
    ensures Occupied(m, at, n) == |SpelledOctets(s)|
  {
    SpelledMeans(m, at, at, s);
    PlainNameRead(m, at, n);
  }

  // ----- a label that is not plain -----

  /** A response to the question "x" whose answer's owner is one label: "a", 192 and 12. */
  const MISREAD: seq<byte> :=
    [0, 7, 129, 128, 0, 1, 0, 1, 0, 0, 0, 0, 1, 120, 0, 0, 1, 0, 1, 3, 97, 192, 12, 0]

  lemma MisreadMeant()
    ensures WellFormed(MISREAD, 19, 19) && Expansion(MISREAD, 19, 19) == [[97, 192, 12]]
  {
    var m := MISREAD;
    assert WellFormed(m, 19, 23) && Expansion(m, 19, 23) == [];
    assert m[20..23] == [97, 192, 12];
  }

  lemma MisreadGathered()
    ensures Ends(MISREAD, 19, 5) && Gathered(MISREAD, 19, 5) == [3, 97, 1, 120]
  {
    var m := MISREAD;
    assert Ends(m, 14, 0) && Gathered(m, 14, 0) == [];
    assert Ends(m, 13, 1) && Gathered(m, 13, 1) == [120];
    assert Ends(m, 12, 2) && Gathered(m, 12, 2) == [1, 120];
    assert Ends(m, 21, 3) && Gathered(m, 21, 3) == [1, 120];
    assert Ends(m, 20, 4) && Gathered(m, 20, 4) == [97, 1, 120];
  }

  /** An octet of 192 inside a label is taken for a pointer: the label comes out as "a", 1, "x". */
  lemma HighOctetMisread()
    ensures WellFormed(MISREAD, 19, 19) && Dotted(Expansion(MISREAD, 19, 19)) == [97, 192, 12]
    ensures Reads(MISREAD, 19, 5, [97, 1, 120])
  {
    MisreadMeant();
    MisreadGathered();
    var g: seq<byte> := [3, 97, 1, 120];
    assert g[1..4] == [97, 1, 120] && LabelEnd(false, g) == 4;
    WireToTextStep(false, g);
  }
}
