/** The path of a client's question through the server: server.c's on_recv and utils.c's send_data_to_dns. */
module DnsForward {
  import opened Sequences
  import opened Bytes
  import opened DnsNames
  import opened DnsCodec

  datatype Option<T> = None | Some(value: T)

  const HEADER := 12
  const QUESTION := 4
  const MAX_BUF_LEN := 512
  const SIZEOF_PTR := 8
  const T_A := 1
  const C_IN := 1
  const QTYPE_A_CLASS_IN: seq<byte> := [0, 1, 0, 1]

  /** The name octets after the header. */
  function Qname(msg: seq<byte>): (q: seq<byte>)
    requires HEADER <= |msg| && 0 in msg[HEADER..]
    ensures HEADER + |q| < |msg| && 0 !in q
  {
    CString(msg[HEADER..])
  }

  /** What send_data_to_dns hands to sendto for a text `t`, before the length is cut. */
  function Query(header: seq<byte>, t: seq<byte>): (m: seq<byte>)
    requires |header| >= SIZEOF_PTR
  {
    header[..SIZEOF_PTR] + Zeros(HEADER - SIZEOF_PTR) + TextToWire(t) + [0] + QTYPE_A_CLASS_IN
  }

  // ----- utils.c -----

  /** What a checked copy into a zeroed buffer leaves there. */
  lemma CopiedName(name: seq<byte>, q: seq<byte>)
    requires |q| < |name| && 0 !in q && name == Splice(Zeros(|name|), 0, q + [0])
    ensures 0 in name && CString(name) == q
  {
    StringAtFront(name, q);
  }

  /** The size test on the transaction id never fires: two octets are four hexadecimal digits. */
  method VerifyDnsBuffer(buffer: array<byte>, buflen: nat) returns (ok: bool)
    requires buffer.Length >= HEADER && 0 in buffer[HEADER..]
    requires |Qname(buffer[..])| < MAX_NAME_LEN || buflen + 1 < MAX_NAME_LEN
    requires HEADER + |Qname(buffer[..])| + 1 + QUESTION <= buffer.Length
    ensures var q := Qname(buffer[..]);
            ok <==> |q| <= buflen + 1 && U16(buffer[..], HEADER + |q| + 1) == T_A
  {
    assert buffer[HEADER..] == buffer[..][HEADER..];
    var name := new byte[MAX_NAME_LEN](_ => 0);
    ok := VerifyAndCopyQname(buffer, HEADER, name, buflen);
    if !ok {
      return;
    }
    CopiedName(name[..], Qname(buffer[..]));
    var qinfo := HEADER + |CString(name[..])| + 1;
    ok := U16(buffer[..], qinfo) == T_A;
  }

  /** The name of a message as dotted text, decoded in a zeroed local buffer. */
  method DecodeQname(buffer: array<byte>, buflen: nat, signedChar: bool) returns (ok: bool, name: array<byte>)
    requires buffer.Length >= HEADER && 0 in buffer[HEADER..]
    requires Qname(buffer[..]) != []
    requires |Qname(buffer[..])| < MAX_NAME_LEN || buflen + 1 < MAX_NAME_LEN
    requires Reach(signedChar, Qname(buffer[..]), 0) <= MAX_NAME_LEN
    ensures fresh(name) && name.Length == MAX_NAME_LEN
    ensures ok <==> |Qname(buffer[..])| <= buflen + 1
    ensures ok ==> 0 in name[..] && CString(name[..]) == WireToText(signedChar, Qname(buffer[..]))
  {
    assert buffer[HEADER..] == buffer[..][HEADER..];
    ghost var q := Qname(buffer[..]);
    name := new byte[MAX_NAME_LEN](_ => 0);
    ok := VerifyAndCopyQname(buffer, HEADER, name, buflen);
    if !ok {
      return;
    }
    CopiedName(name[..], q);
    WireToTextShape(signedChar, q);
    LengthsToDots(name, signedChar);
    StringAtFront(name[..], WireToText(signedChar, q));
  }

  /** The transaction id and the dotted name of a message, in a zeroed client record. */
  method ReadAndPrintDnsHeader(buffer: array<byte>, buflen: nat, signedChar: bool)
      returns (ok: bool, tid: nat, domain: array<byte>)
    requires buffer.Length >= HEADER && 0 in buffer[HEADER..]
    requires Qname(buffer[..]) != []
    requires |Qname(buffer[..])| < MAX_NAME_LEN || buflen + 1 < MAX_NAME_LEN
    requires Reach(signedChar, Qname(buffer[..]), 0) <= MAX_NAME_LEN
    ensures fresh(domain) && domain.Length == MAX_NAME_LEN
    ensures ok <==> |Qname(buffer[..])| <= buflen + 1
    ensures tid == U16(buffer[..], 0)
    ensures ok ==> 0 in domain[..] && CString(domain[..]) == WireToText(signedChar, Qname(buffer[..]))
  {
    domain := new byte[MAX_NAME_LEN](_ => 0);
    tid := U16(buffer[..], 0);
    var name;
    ok, name := DecodeQname(buffer, buflen, signedChar);
    if !ok {
      return;
    }
    ghost var t := CString(name[..]);
    CopyString(domain, 0, name);
    StringOverZeros(domain[..], t);
  }

  /** Zeros behind the characters end the string. */
  lemma StringOverZeros(s: seq<byte>, t: seq<byte>)
    requires |t| < |s| && 0 !in t && s == Splice(Zeros(|s|), 0, t)
    ensures 0 in s && CString(s) == t
  {
    StringAtFront(s, t);
  }

  /** strncpy(dst, src, strlen(src)): the characters without the terminator. */
  method CopyString(dst: array<byte>, at: nat, src: array<byte>)
    requires dst != src && 0 in src[..]
    requires at + |CString(src[..])| <= dst.Length
    modifies dst
    ensures dst[..] == Splice(old(dst[..]), at, CString(src[..]))
  {
    ghost var was, t := dst[..], CString(src[..]);
    var n, i := |CString(src[..])|, 0;
    while i < n
      invariant 0 <= i <= n
      invariant forall k {:trigger dst[k]} :: at <= k < at + i ==> dst[k] == t[k - at]
      invariant forall k {:trigger dst[k]} :: 0 <= k < at || at + i <= k < dst.Length ==> dst[k] == was[k]
    {
      dst[at + i] := src[i];
      i := i + 1;
    }
    SpliceByOctets(was, at, t, dst[..]);
  }

  /** The client's header moved over an emptied buffer: only the size of a pointer is copied. */
  method ResetBuffer(buffer: array<byte>)
    requires buffer.Length == MAX_BUF_LEN
    modifies buffer
    ensures buffer[..] == old(buffer[..SIZEOF_PTR]) + Zeros(MAX_BUF_LEN - SIZEOF_PTR)
  {
    var request := new byte[HEADER](i requires 0 <= i < HEADER reads buffer => buffer[i]);
    forall i | 0 <= i < buffer.Length {
      buffer[i] := 0;
    }
    forall i | 0 <= i < SIZEOF_PTR {
      buffer[i] := request[i];
    }
  }

  /**
   * send_data_to_dns up to sendto. The text in the buffer is encoded twice, and the dot that each call appends
   * to the local copy is what makes strlen of that copy the size of the encoded name.
   */
  method SendDataToDns(buffer: array<byte>, nBytes: nat) returns (sent: Option<nat>)
    requires buffer.Length == MAX_BUF_LEN && 0 in buffer[HEADER..]
    requires |Qname(buffer[..])| + 3 <= MAX_NAME_LEN
    modifies buffer
    ensures var t := old(Qname(buffer[..]));
            && (sent.Some? <==> |t| <= nBytes + 1)
            && (sent.None? ==> buffer[..] == old(buffer[..]))
            && (sent.Some? ==> IsQuery(old(buffer[..]), t, buffer[..]) && sent.value == SentLength(t))
  {
    assert buffer[HEADER..] == buffer[..][HEADER..];
    ghost var was, t := buffer[..], Qname(buffer[..]);
    var name := new byte[MAX_NAME_LEN](_ => 0);
    var ok := VerifyAndCopyQname(buffer, HEADER, name, nBytes);
    if !ok {
      return None;
    }
    CopiedName(name[..], t);
    ChangeToDnsNameFormat(buffer, HEADER, name);
    assert buffer[..SIZEOF_PTR] == was[..SIZEOF_PTR];
    ghost var before := buffer[..];
    var length := BuildQuery(buffer, name, t);
    assert Query(before, t) == Query(was, t);
    return Some(length);
  }

  /** The buffer holds the query for `t` and nothing else. */
  ghost predicate IsQuery(header: seq<byte>, t: seq<byte>, msg: seq<byte>)
    requires |header| >= SIZEOF_PTR
  {
    var m := Query(header, t);
    |m| == HEADER + |t| + 2 + QUESTION <= MAX_BUF_LEN && msg == m + Zeros(MAX_BUF_LEN - |m|)
  }

  /** qtype = htons(T_A), qclass = htons(1). */
  method WriteQuestion(buffer: array<byte>, qinfo: nat)
    requires qinfo + QUESTION <= buffer.Length
    modifies buffer
    ensures buffer[..] == Splice(old(buffer[..]), qinfo, QTYPE_A_CLASS_IN)
  {
    buffer[qinfo], buffer[qinfo + 1] := 0, 1;
    buffer[qinfo + 2], buffer[qinfo + 3] := 0, 1;
  }

  /** The second half of send_data_to_dns: `name` already ends in the first appended dot. */
  method BuildQuery(buffer: array<byte>, name: array<byte>, ghost t: seq<byte>) returns (length: nat)
    requires buffer != name && buffer.Length == MAX_BUF_LEN && name.Length == MAX_NAME_LEN
    requires |t| + 3 <= MAX_NAME_LEN && 0 in name[..] && CString(name[..]) == t + [DOT]
    modifies buffer, name
    ensures IsQuery(old(buffer[..]), t, buffer[..]) && length == SentLength(t)
  {
    ghost var was := buffer[..];
    ResetBuffer(buffer);
    ghost var cleared := buffer[..];
    ChangeToDnsNameFormat(buffer, HEADER, name);
    TextToWireTrailingDot(t);
    var qinfo := HEADER + |CString(name[..])|;
    ghost var encoded := buffer[..];
    WriteQuestion(buffer, qinfo);
    QueryBuilt(was, cleared, encoded, t, buffer[..]);
    length := HEADER + |CString(buffer[HEADER..])| + 1 + QUESTION;
  }

  /** strlen of the encoded name decides how much is sent; a NUL inside it would cut the message short. */
  function SentLength(t: seq<byte>): (n: nat) {
    HEADER + |CString(TextToWire(t) + [0])| + 1 + QUESTION
  }

  lemma QueryFromSplices(header: seq<byte>, cleared: seq<byte>, encoded: seq<byte>, t: seq<byte>)
    requires |header| >= SIZEOF_PTR && |t| + 3 <= MAX_NAME_LEN && |TextToWire(t)| == |t| + 1
    requires cleared == header[..SIZEOF_PTR] + Zeros(MAX_BUF_LEN - SIZEOF_PTR)
    requires encoded == Splice(cleared, HEADER, TextToWire(t) + [0] + [0])
    ensures var m := Query(header, t);
            Splice(encoded, HEADER + |t| + 2, QTYPE_A_CLASS_IN) == m + Zeros(MAX_BUF_LEN - |m|)
  {
    var m := Query(header, t);
    var r := Splice(encoded, HEADER + |t| + 2, QTYPE_A_CLASS_IN);
    assert cleared[..HEADER] == header[..SIZEOF_PTR] + Zeros(HEADER - SIZEOF_PTR);
    assert encoded[..HEADER + |t| + 2] == cleared[..HEADER] + (TextToWire(t) + [0]);
    assert r[..|m|] == m;
    assert r[|m|..] == cleared[|m|..];
  }

  lemma QueryBuilt(header: seq<byte>, cleared: seq<byte>, encoded: seq<byte>, t: seq<byte>, msg: seq<byte>)
    requires |header| >= SIZEOF_PTR && |t| + 3 <= MAX_NAME_LEN && |TextToWire(t)| == |t| + 1
    requires cleared == header[..SIZEOF_PTR] + Zeros(MAX_BUF_LEN - SIZEOF_PTR)
    requires encoded == Splice(cleared, HEADER, TextToWire(t) + [0] + [0])
    requires msg == Splice(encoded, HEADER + |t| + 2, QTYPE_A_CLASS_IN)
    ensures IsQuery(header, t, msg)
    ensures 0 in msg[HEADER..] && HEADER + |CString(msg[HEADER..])| + 1 + QUESTION == SentLength(t)
  {
    QueryFromSplices(header, cleared, encoded, t);
    QueryString(header, t, msg);
  }

  lemma QueryString(header: seq<byte>, t: seq<byte>, msg: seq<byte>)
    requires |header| >= SIZEOF_PTR && |TextToWire(t)| == |t| + 1
    requires Query(header, t) <= msg
    ensures 0 in msg[HEADER..] && CString(msg[HEADER..]) == CString(TextToWire(t) + [0])
  {
    var w, m := TextToWire(t) + [0], Query(header, t);
    var c := CString(w);
    assert m[HEADER..HEADER + |w|] == w;
    assert msg[HEADER..][..|w|] == msg[HEADER..HEADER + |w|] == m[HEADER..HEADER + |w|];
    assert msg[HEADER..][..|c|] == w[..|c|];
    assert msg[HEADER..][|c|] == w[|c|];
    CStringUnique(msg[HEADER..], c);
  }

  // ----- server.c -----

  /**
   * on_recv from the check of the client's query to sendto: the name is decoded, the question in the buffer is
   * overwritten with its text, and the query is rebuilt from that text.
   */
  method OnRecv(buffer: array<byte>, nBytes: nat, signedChar: bool) returns (sent: Option<nat>)
    requires buffer.Length == MAX_BUF_LEN && 0 in buffer[HEADER..]
    requires Qname(buffer[..]) != [] && |Qname(buffer[..])| < MAX_WIRE_NAME
    requires Reach(signedChar, Qname(buffer[..]), 0) <= MAX_NAME_LEN
    modifies buffer
    ensures var q := old(Qname(buffer[..]));
            && (sent.Some? <==> |q| <= nBytes + 1 && U16(old(buffer[..]), HEADER + |q| + 1) == T_A)
            && (sent.None? ==> buffer[..] == old(buffer[..]))
            && (sent.Some? ==>
                  var t := WireToText(signedChar, q);
                  IsQuery(old(buffer[..]), t, buffer[..]) && sent.value == SentLength(t))
  {
    ghost var was, q := buffer[..], Qname(buffer[..]);
    var ok := VerifyDnsBuffer(buffer, nBytes);
    if !ok {
      return None;
    }
    var tid, domain;
    ok, tid, domain := ReadAndPrintDnsHeader(buffer, nBytes, signedChar);
    WireToTextShape(signedChar, q);
    RewriteQname(buffer, domain);
    ghost var rewritten, t := buffer[..], WireToText(signedChar, q);
    assert rewritten[..SIZEOF_PTR] == rewritten[..HEADER][..SIZEOF_PTR] == was[..SIZEOF_PTR];
    sent := SendDataToDns(buffer, nBytes);
    assert Query(rewritten, t) == Query(was, t);
  }

  /** The name in the question is overwritten with the text; the header stays. */
  method RewriteQname(buffer: array<byte>, domain: array<byte>)
    requires buffer != domain && buffer.Length == MAX_BUF_LEN && domain.Length == MAX_NAME_LEN && 0 in domain[..]
    modifies buffer
    ensures 0 in buffer[HEADER..] && Qname(buffer[..]) == CString(domain[..])
    ensures buffer[..HEADER] == old(buffer[..HEADER])
  {
    ghost var t := CString(domain[..]);
    CopyString(buffer, HEADER, domain);
    buffer[HEADER + |CString(domain[..])|] := 0;
    assert buffer[HEADER..][..|t| + 1] == t + [0];
    StringAtFront(buffer[HEADER..], t);
    assert buffer[..][HEADER..] == buffer[HEADER..];
  }

  /** The octets of a client's question: its name, the terminator, and its own type and class. */
  function Question(client: seq<byte>): (s: seq<byte>)
    requires HEADER <= |client| && 0 in client[HEADER..]
    requires HEADER + |Qname(client)| + 1 + QUESTION <= |client|
  {
    client[HEADER..HEADER + |Qname(client)| + 1 + QUESTION]
  }

  lemma QuestionParts(client: seq<byte>)
    requires HEADER <= |client| && 0 in client[HEADER..]
    requires HEADER + |Qname(client)| + 1 + QUESTION <= |client|
    ensures var e := HEADER + |Qname(client)| + 1;
            Question(client) == Qname(client) + [0] + client[e..e + QUESTION]
  {
    var q, e := Qname(client), HEADER + |Qname(client)| + 1;
    assert client[HEADER..][..|q|] == client[HEADER..e - 1];
    assert client[e - 1] == client[HEADER..][|q|] == 0;
  }

  lemma TypeAndClass(s: seq<byte>, at: nat)
    requires at + QUESTION <= |s|
    ensures s[at..at + QUESTION] == QTYPE_A_CLASS_IN <==> U16(s, at) == T_A && U16(s, at + 2) == C_IN
  {
    var t := s[at..at + QUESTION];
    assert t == [s[at], s[at + 1], s[at + 2], s[at + 3]];
  }

  /** The first octets of the datagram, and the others up to the length sent. */
  lemma QuerySent(header: seq<byte>, t: seq<byte>, msg: seq<byte>)
    requires |header| >= SIZEOF_PTR && IsQuery(header, t, msg)
    ensures var n := SentLength(t);
            && HEADER <= n <= HEADER + |t| + 2 + QUESTION <= |msg|
            && msg[..HEADER] == header[..SIZEOF_PTR] + Zeros(HEADER - SIZEOF_PTR)
            && msg[HEADER..n] == (TextToWire(t) + [0] + QTYPE_A_CLASS_IN)[..n - HEADER]
  {
    TextToWireLength(t);
    var front, rest := header[..SIZEOF_PTR] + Zeros(HEADER - SIZEOF_PTR), TextToWire(t) + [0] + QTYPE_A_CLASS_IN;
    var m, n := Query(header, t), SentLength(t);
    assert m == front + rest;
    assert msg[..|m|] == m;
    assert msg[..HEADER] == m[..HEADER] == front;
    assert msg[HEADER..n] == m[HEADER..n] == rest[..n - HEADER];
  }

  /**
   * What goes upstream for an accepted query: the client's header up to the size of a pointer, zeros, and a
   * question. It is the question the client asked, type, class and length included, if and only if the client's
   * name is exact and its class is IN.
   */
  lemma ForwardsFaithfully(client: seq<byte>, signedChar: bool, msg: seq<byte>)
    requires HEADER <= |client| && 0 in client[HEADER..] && Qname(client) != []
    requires HEADER + |Qname(client)| + 1 + QUESTION <= |client|
    requires U16(client, HEADER + |Qname(client)| + 1) == T_A
    requires IsQuery(client, WireToText(signedChar, Qname(client)), msg)
    ensures var q, n := Qname(client), SentLength(WireToText(signedChar, Qname(client)));
            && HEADER <= n <= |msg|
            && msg[..HEADER] == client[..SIZEOF_PTR] + Zeros(HEADER - SIZEOF_PTR)
            && (msg[HEADER..n] == Question(client) <==>
                Exact(signedChar, q) && U16(client, HEADER + |q| + 3) == C_IN)
  {
    var q := Qname(client);
    var t := WireToText(signedChar, q);
    WireToTextShape(signedChar, q);
    WireRoundTrip(signedChar, q);
    QuerySent(client, t, msg);
    QuestionParts(client);
    TypeAndClass(client, HEADER + |q| + 1);
    TextToWireLength(t);
    SameQuestion(TextToWire(t), q, client[HEADER + |q| + 1..HEADER + |q| + 1 + QUESTION]);
  }

  /** The sent part of an encoded question is the question asked just if both parts agree. */
  lemma SameQuestion(w: seq<byte>, q: seq<byte>, tail: seq<byte>)
    requires |w| == |q| && 0 !in q && |tail| == QUESTION
    ensures var c := |CString(w + [0])|;
            && c <= |w|
            && ((w + [0] + QTYPE_A_CLASS_IN)[..c + 1 + QUESTION] == q + [0] + tail <==>
                w == q && QTYPE_A_CLASS_IN == tail)
  {
    var c, sent, asked := |CString(w + [0])|, w + [0] + QTYPE_A_CLASS_IN, q + [0] + tail;
    assert sent[..|w|] == w && sent[|w| + 1..] == QTYPE_A_CLASS_IN;
    assert asked[..|q|] == q && asked[|q| + 1..] == tail;
    if w == q {
      CStringUnique(w + [0], q);
      assert sent[..c + 1 + QUESTION] == sent;
    } else if c == |w| {
      assert sent[..c + 1 + QUESTION] == sent;
    }
  }

  /** Every valid name can be served: it meets what on_recv needs and every copy of it fits its buffer. */
  lemma ValidNameServed(ls: seq<Label>, signedChar: bool, rest: seq<byte>, msg: seq<byte>)
    requires ValidName(ls)
    requires |msg| >= HEADER && msg[HEADER..] == Wire(ls) + [0] + rest
    ensures 0 in msg[HEADER..] && Qname(msg) == Wire(ls) && 0 < |Qname(msg)| < MAX_WIRE_NAME
    ensures Reach(signedChar, Qname(msg), 0) <= MAX_NAME_LEN
    ensures Exact(signedChar, Qname(msg)) && WireToText(signedChar, Qname(msg)) == Dotted(ls)
  {
    NoZeroInWire(ls);
    StringAtFront(msg[HEADER..], Wire(ls));
    ExactWire(signedChar, ls);
    assert Wire(ls)[0..] == Wire(ls);
    assert forall k :: 0 <= k < |ls| ==> ValidLabel(ls[k]);
    WireReach(signedChar, Wire(ls), 0, ls);
    SpellingsInverse(signedChar, ls);
  }

  lemma QuestionAsked(client: seq<byte>, q: seq<byte>, rest: seq<byte>)
    requires HEADER <= |client| && client[HEADER..] == q + [0] + rest && |rest| >= QUESTION
    requires 0 in client[HEADER..] && Qname(client) == q
    ensures var e := HEADER + |q| + 1;
            && e + QUESTION <= |client|
            && Question(client) == q + [0] + rest[..QUESTION]
            && U16(client, e) == U16(rest, 0) && U16(client, e + 2) == U16(rest, 2)
  {
    var e := HEADER + |q| + 1;
    SplitTail(client, HEADER, q + [0], rest);
    assert forall k {:trigger rest[k]} :: 0 <= k < QUESTION ==> client[e + k] == rest[k];
    assert client[e..e + QUESTION] == rest[..QUESTION];
    QuestionParts(client);
  }

  /** So the address query of a client for a valid name goes upstream as it was asked just if its class is IN. */
  lemma ValidNameForwarded(ls: seq<Label>, signedChar: bool, rest: seq<byte>, client: seq<byte>, msg: seq<byte>)
    requires ValidName(ls)
    requires |client| >= HEADER && client[HEADER..] == Wire(ls) + [0] + rest
    requires |rest| >= QUESTION && U16(rest, 0) == T_A
    requires IsQuery(client, WireToText(signedChar, Wire(ls)), msg)
    ensures var n := SentLength(Dotted(ls));
            && HEADER <= n <= |msg|
            && (msg[HEADER..n] == Wire(ls) + [0] + rest[..QUESTION] <==> U16(rest, 2) == C_IN)
  {
    ValidNameServed(ls, signedChar, rest, client);
    QuestionAsked(client, Wire(ls), rest);
    ForwardsFaithfully(client, signedChar, msg);
  }
}
