/** Messages as section 4.1 of RFC 1035 lays them out field by field, and what the server makes of them. */
module DnsLayout {
  import opened Sequences
  import opened Bytes
  import opened DnsNames
  import opened DnsCodec
  import opened DnsCompression
  import opened DnsForward
  import opened DnsAnswers

  // ----- header and question -----

  datatype Header = Header(id: word, flags: word, questions: word, answers: word, authorities: word, additional: word)

  function HeaderOctets(h: Header): (o: seq<byte>) {
    Fields([h.id, h.flags, h.questions, h.answers, h.authorities, h.additional])
  }

  /** A header, a question for the name octets `q`, and what follows. */
  function Message(h: Header, q: seq<byte>, typ: word, class_: word, rest: seq<byte>): (m: seq<byte>) {
    HeaderOctets(h) + ((q + [0]) + (Fields([typ, class_]) + rest))
  }

  /** A message has its fields where the server looks for them. */
  lemma MessageReads(m: seq<byte>, h: Header, q: seq<byte>, typ: word, class_: word, rest: seq<byte>)
    requires m == Message(h, q, typ, class_, rest) && 0 !in q
    ensures HEADER + |q| + 1 + QUESTION == |m| - |rest|
    ensures 0 in m[HEADER..] && Qname(m) == q
    ensures U16(m, 0) == h.id && U16(m, ANS_COUNT) == h.answers
    ensures U16(m, HEADER + |q| + 1) == typ && U16(m, HEADER + |q| + 3) == class_
    ensures AnswerSection(m) == |m| - |rest| && StandsAt(m, |m| - |rest|, rest)
  {
    assert StandsAt(m, 0, m);
    StandsThree(m, 0, HeaderOctets(h), q + [0], Fields([typ, class_]) + rest);
    StandsParts(m, HEADER + |q| + 1, Fields([typ, class_]), rest);
    HeaderReads(m, h);
    QnameReads(m, q);
    QuestionReads(m, HEADER + |q| + 1, typ, class_);
  }

  lemma QuestionReads(m: seq<byte>, at: nat, typ: word, class_: word)
    requires StandsAt(m, at, Fields([typ, class_]))
    ensures at + QUESTION <= |m| && U16(m, at) == typ && U16(m, at + 2) == class_
  {
    FieldsRead(m, at, [typ, class_], 0);
    FieldsRead(m, at, [typ, class_], 1);
  }

  lemma HeaderReads(m: seq<byte>, h: Header)
    requires StandsAt(m, 0, HeaderOctets(h))
    ensures HEADER == |HeaderOctets(h)| <= |m| && U16(m, 0) == h.id && U16(m, ANS_COUNT) == h.answers
  {
    var fields := [h.id, h.flags, h.questions, h.answers, h.authorities, h.additional];
    FieldsRead(m, 0, fields, 0);
    FieldsRead(m, 0, fields, 3);
  }

  lemma QnameReads(m: seq<byte>, q: seq<byte>)
    requires StandsAt(m, HEADER, q + [0]) && 0 !in q
    ensures 0 in m[HEADER..] && Qname(m) == q
  {
    assert m[HEADER..][..|q| + 1] == m[HEADER..HEADER + |q| + 1] == q + [0];
    StringAtFront(m[HEADER..], q);
  }

  /**
   * For a client's message that asks for an address under an exact name, the datagram is this message: the client's
   * identification, flags and first two counts, no authorities or additional records, and its name with class IN.
   */
  lemma QueryForwarded(h: Header, q: seq<byte>, class_: word, rest: seq<byte>, signedChar: bool, msg: seq<byte>)
    requires q != [] && 0 !in q && Exact(signedChar, q)
    requires IsQuery(Message(h, q, T_A, class_, rest), WireToText(signedChar, q), msg)
    ensures var n := SentLength(WireToText(signedChar, q));
            && n <= |msg|
            && msg[..n] == Message(h.(authorities := 0, additional := 0), q, T_A, C_IN, [])
  {
    var client, t := Message(h, q, T_A, class_, rest), WireToText(signedChar, q);
    WireRoundTrip(signedChar, q);
    ExactSent(client, q, t, msg);
    HeaderFront(h, (q + [0]) + (Fields([T_A, class_]) + rest));
    QuestionOctets();
  }

  lemma ExactSent(client: seq<byte>, q: seq<byte>, t: seq<byte>, msg: seq<byte>)
    requires |client| >= SIZEOF_PTR && IsQuery(client, t, msg) && TextToWire(t) == q && 0 !in q
    ensures var n := SentLength(t);
            && n <= |msg|
            && msg[..n] == client[..SIZEOF_PTR] + Zeros(HEADER - SIZEOF_PTR) + (q + [0] + QTYPE_A_CLASS_IN)
  {
    QuerySent(client, t, msg);
    CStringUnique(q + [0], q);
    var n, sent := SentLength(t), q + [0] + QTYPE_A_CLASS_IN;
    assert sent[..n - HEADER] == sent;
    assert msg[..n] == msg[..HEADER] + msg[HEADER..n];
  }

  lemma HeaderFront(h: Header, back: seq<byte>)
    ensures (HeaderOctets(h) + back)[..SIZEOF_PTR] + Zeros(HEADER - SIZEOF_PTR)
            == HeaderOctets(h.(authorities := 0, additional := 0))
  {
    var front, end := [h.id, h.flags, h.questions, h.answers], [h.authorities, h.additional];
    FieldsConcat(front, end);
    FieldsConcat(front, [0, 0]);
    assert front + end == [h.id, h.flags, h.questions, h.answers, h.authorities, h.additional];
    assert front + [0, 0] == [h.id, h.flags, h.questions, h.answers, 0, 0];
    assert Fields([0, 0][1..]) == [0, 0] && Fields([0, 0]) == Zeros(HEADER - SIZEOF_PTR);
  }

  lemma QuestionOctets()
    ensures QTYPE_A_CLASS_IN == Fields([T_A, C_IN]) + []
  {
    assert Fields([T_A, C_IN][1..]) == [0, 1];
  }

  // ----- resource records -----

  /** Data whose length a 16-bit field holds. */
  type Rdata = d: seq<byte> | |d| < 0x1_0000

  /** The owner's name as it is written; the time to live is kept as its two halves. */
  datatype Record = Record(owner: seq<byte>, typ: word, class_: word, ttlHigh: word, ttlLow: word, data: Rdata)

  /** Type, class, time to live in 32 bits, and the length of the data. */
  function FixedOctets(r: Record): (o: seq<byte>) {
    Fields([r.typ, r.class_, r.ttlHigh, r.ttlLow, |r.data|])
  }

  function RecordOctets(r: Record): (o: seq<byte>) {
    r.owner + (FixedOctets(r) + r.data)
  }

  function Blocks(rs: seq<Record>): (bs: seq<seq<byte>>)
    ensures |bs| == |rs| && forall i :: 0 <= i < |rs| ==> bs[i] == RecordOctets(rs[i])
  {
    seq(|rs|, i requires 0 <= i < |rs| => RecordOctets(rs[i]))
  }

  function SectionOctets(rs: seq<Record>): (o: seq<byte>) {
    Concat(Blocks(rs))
  }

  /** The octets `o` at `at` spell a valid name with plain labels, whose dotted form is `t`. */
  ghost predicate NameIs(m: seq<byte>, at: nat, o: seq<byte>, t: seq<byte>) {
    PlainName(m, at) && NameSize(m, at, at) == |o| && Dotted(Expansion(m, at, at)) == t
  }

  /** What the record `r`, standing at `at`, is to its reader: an address is its octets, other data are one name. */
  ghost predicate Means(m: seq<byte>, at: nat, r: Record, a: Answer) {
    && NameIs(m, at, r.owner, a.name)
    && a.resource == at + |r.owner|
    && (if r.typ == T_A then a.rdata == r.data
        else NameIs(m, at + |r.owner| + |FixedOctets(r)|, r.data, a.rdata))
  }

  /** A name written out as labels and an end has the meaning of section 4.1.4. */
  lemma SpelledIs(m: seq<byte>, at: nat, s: Spelled)
    requires Spellable(s) && Leads(m, at, s.tail) && StandsAt(m, at, SpelledOctets(s))
    requires var ls := s.labels + TailLabels(m, at, s.tail); ValidName(ls) && Plain(ls)
    ensures NameIs(m, at, SpelledOctets(s), Dotted(s.labels + TailLabels(m, at, s.tail)))
  {
    SpelledMeans(m, at, at, s);
  }

  lemma FixedReads(m: seq<byte>, f: nat, r: Record)
    requires StandsAt(m, f, FixedOctets(r))
    ensures |FixedOctets(r)| == R_DATA && f + R_DATA <= |m|
    ensures U16(m, f) == r.typ && DataLength(m, f) == |r.data|
  {
    var fields := [r.typ, r.class_, r.ttlHigh, r.ttlLow, |r.data|];
    FieldsRead(m, f, fields, 0);
    FieldsRead(m, f, fields, 4);
  }

  /** The record at `at` is well laid out, stands for `a` and ends at `e`. */
  ghost predicate RecordIs(m: seq<byte>, at: nat, a: Answer, e: nat) {
    RfcRecord(m, at) && Agrees(m, at) && RfcAnswer(m, at) == a && RfcNext(m, at) == e
  }

  lemma AddressIs(m: seq<byte>, at: nat, o: seq<byte>, a: Answer)
    requires NameIs(m, at, o, a.name) && a.resource == at + |o| && a.resource + R_DATA <= |m|
    requires U16(m, a.resource) == T_A && DataLength(m, a.resource) == |a.rdata|
    requires StandsAt(m, a.resource + R_DATA, a.rdata)
    ensures RecordIs(m, at, a, a.resource + R_DATA + |a.rdata|)
  {
  }

  lemma NameDataIs(m: seq<byte>, at: nat, o: seq<byte>, d: seq<byte>, a: Answer)
    requires NameIs(m, at, o, a.name) && a.resource == at + |o| && a.resource + R_DATA + |d| <= |m|
    requires U16(m, a.resource) != T_A && DataLength(m, a.resource) == |d|
    requires NameIs(m, a.resource + R_DATA, d, a.rdata)
    ensures RecordIs(m, at, a, a.resource + R_DATA + |d|)
  {
  }

  /** A record laid out at `at` is one to the server's reader: its names, its data, and where the next starts. */
  lemma RecordStands(m: seq<byte>, at: nat, r: Record, a: Answer)
    requires StandsAt(m, at, RecordOctets(r)) && Means(m, at, r, a)
    ensures RecordIs(m, at, a, at + |RecordOctets(r)|)
  {
    StandsThree(m, at, r.owner, FixedOctets(r), r.data);
    FixedReads(m, at + |r.owner|, r);
    if r.typ == T_A {
      AddressIs(m, at, r.owner, a);
    } else {
      NameDataIs(m, at, r.owner, r.data, a);
    }
  }

  // ----- sections -----

  /** The section at `at` is well laid out, stands for `answers` and ends at `e`. */
  ghost predicate SectionIs(m: seq<byte>, at: nat, answers: seq<Answer>, e: nat) {
    var k := |answers|;
    RfcSection(m, at, k) && AllAgree(m, at, k) && RfcAnswers(m, at, k) == answers && Boundary(m, at, k) == e
  }

  lemma {:induction false} RecordsMakeSection(m: seq<byte>, ps: seq<nat>, answers: seq<Answer>)
    requires |ps| == |answers| + 1
    requires forall i {:trigger answers[i]} :: 0 <= i < |answers| ==> RecordIs(m, ps[i], answers[i], ps[i + 1])
    ensures SectionIs(m, ps[0], answers, ps[|answers|])
    decreases |answers|
  {
    if answers != [] {
      assert RecordIs(m, ps[0], answers[0], ps[1]);
      forall i | 0 <= i < |answers[1..]| ensures RecordIs(m, ps[1..][i], answers[1..][i], ps[1..][i + 1]) {
        assert RecordIs(m, ps[i + 1], answers[i + 1], ps[i + 2]);
      }
      RecordsMakeSection(m, ps[1..], answers[1..]);
      assert answers == [answers[0]] + answers[1..];
    }
  }

  /** `answers` are what the records mean where they stand. */
  ghost predicate AreMeant(m: seq<byte>, at: nat, rs: seq<Record>, answers: seq<Answer>) {
    |answers| == |rs| && forall i :: 0 <= i < |rs| ==> Means(m, Places(at, Blocks(rs))[i], rs[i], answers[i])
  }

  lemma SectionStands(m: seq<byte>, at: nat, rs: seq<Record>, answers: seq<Answer>)
    requires StandsAt(m, at, SectionOctets(rs)) && AreMeant(m, at, rs, answers)
    ensures SectionIs(m, at, answers, at + |SectionOctets(rs)|)
  {
    var ps := Places(at, Blocks(rs));
    BlocksStand(m, at, Blocks(rs));
    forall i | 0 <= i < |answers| ensures RecordIs(m, ps[i], answers[i], ps[i + 1]) {
      assert StandsAt(m, ps[i], Blocks(rs)[i]);
      RecordStands(m, ps[i], rs[i], answers[i]);
    }
    RecordsMakeSection(m, ps, answers);
  }

  // ----- responses -----

  lemma {:induction false} AgreeFront(m: seq<byte>, at: nat, k: nat)
    requires k > 0 && RfcSection(m, at, k) && AllAgree(m, at, k)
    ensures RfcSection(m, at, k - 1) && AllAgree(m, at, k - 1)
    decreases k
  {
    if k > 1 {
      AgreeFront(m, RfcNext(m, at), k - 1);
    }
  }

  /** The server reads `k` records from `at` as `answers`, and ends at `end`. */
  ghost predicate Collects(m: seq<byte>, at: nat, k: nat, n: nat, answers: seq<Answer>, end: nat) {
    Walkable(m, at, k, n) && Answers(m, at, k, n) == answers && Cursor(m, at, k, n) == end
  }

  lemma AgreeingRead(m: seq<byte>, at: nat, answers: seq<Answer>, end: nat, n: nat)
    requires SectionIs(m, at, answers, end) && n >= SectionSteps(m, at, |answers|)
    ensures Collects(m, at, |answers|, n, answers, end)
  {
    var k := |answers|;
    CursorOnBoundaries(m, at, k, n);
    assert CursorAt(m, at, k, n, Boundary(m, at, k));
    if k > 0 {
      AgreeFront(m, at, k);
      AnswersMeetRfc(m, at, k, n);
    }
  }

  /** Records that are well laid out are read as what they mean, given steps enough for all walks. */
  lemma SectionRead(m: seq<byte>, at: nat, answers: seq<Answer>, end: nat) returns (bound: nat)
    requires SectionIs(m, at, answers, end)
    ensures forall n :: n >= bound ==> Collects(m, at, |answers|, n, answers, end)
  {
    bound := SectionSteps(m, at, |answers|);
    forall n | n >= bound ensures Collects(m, at, |answers|, n, answers, end) {
      AgreeingRead(m, at, answers, end, n);
    }
  }

  /**
   * For every response put together from a header, a question and answer records: the server finds the count and
   * the place of the records, reads exactly those that were put in, and its cursor ends behind the last.
   */
  lemma ResponseRead(m: seq<byte>, h: Header, q: seq<byte>, typ: word, class_: word, rs: seq<Record>, rest: seq<byte>,
                     at: nat, end: nat, answers: seq<Answer>) returns (bound: nat)
    requires 0 !in q && h.answers == |rs|
    requires m == Message(h, q, typ, class_, SectionOctets(rs) + rest)
    requires end == |m| - |rest| && at == end - |SectionOctets(rs)| && AreMeant(m, at, rs, answers)
    ensures HEADER <= |m| && 0 in m[HEADER..] && AnswerSection(m) == at && U16(m, ANS_COUNT) == |rs|
    ensures forall n :: n >= bound ==> Collects(m, at, |rs|, n, answers, end)
  {
    MessageReads(m, h, q, typ, class_, SectionOctets(rs) + rest);
    StandsParts(m, at, SectionOctets(rs), rest);
    SectionStands(m, at, rs, answers);
    bound := SectionRead(m, at, answers, end);
  }
}
