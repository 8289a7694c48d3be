/** The walk of send_data_to_dns over the answer section (section 4.1.3 of RFC 1035). */
module DnsAnswers {
  import opened Bytes
  import opened DnsNames
  import opened DnsCompression
  import opened DnsForward

  const R_DATA := 10
  const RECORD_LEN := 20
  const ANS_COUNT := 6

  /** What the server keeps of one answer: its owner's name, where its fixed part is, and its data. */
  datatype Answer = Answer(name: seq<byte>, resource: nat, rdata: seq<byte>)

  // ----- the layout of the records -----

  /** A name the server can expand: the walk ends and the buffers suffice. */
  ghost predicate Expandable(m: seq<byte>, r: nat, n: nat) {
    && Ends(m, r, n)
    && var g := Gathered(m, r, n);
       g != [] && |g| < MAX_NAME_LEN && Reach(false, g, 0) <= MAX_NAME_LEN
  }

  /** The record at `at`: its name, its fixed part and its data lie inside the message. `n` bounds the walks. */
  ghost predicate IsRecord(m: seq<byte>, at: nat, n: nat) {
    && Expandable(m, at, n)
    && FixedPart(m, at, n) + R_DATA <= |m|
    && FixedPart(m, at, n) + R_DATA + DataLength(m, FixedPart(m, at, n)) <= |m|
    && (U16(m, FixedPart(m, at, n)) != T_A ==> Expandable(m, FixedPart(m, at, n) + R_DATA, n))
  }

  ghost function FixedPart(m: seq<byte>, at: nat, n: nat): (f: nat)
    requires Ends(m, at, n)
  {
    at + Occupied(m, at, n)
  }

  function DataLength(m: seq<byte>, fixedPart: nat): (l: nat)
    requires fixedPart + R_DATA <= |m|
  {
    U16(m, fixedPart + 8)
  }

  // ----- the server's cursor -----

  /** Where the server's cursor goes from the record at `at`: it trusts RDLENGTH for addresses only. */
  ghost function CursorAfter(m: seq<byte>, at: nat, n: nat): (e: nat)
    requires IsRecord(m, at, n)
    ensures at < e <= |m|
  {
    var f := FixedPart(m, at, n);
    f + R_DATA + if U16(m, f) == T_A then DataLength(m, f) else Occupied(m, f + R_DATA, n)
  }

  /** The server can walk `k` records from `at` without leaving the message. */
  ghost predicate Walkable(m: seq<byte>, at: nat, k: nat, n: nat)
    decreases k
  {
    k > 0 ==> IsRecord(m, at, n) && Walkable(m, CursorAfter(m, at, n), k - 1, n)
  }

  /** The cursor after `k` records. */
  ghost function Cursor(m: seq<byte>, at: nat, k: nat, n: nat): (e: nat)
    requires Walkable(m, at, k, n)
    decreases k
  {
    if k == 0 then at else Cursor(m, CursorAfter(m, at, n), k - 1, n)
  }

  /** The answers the server collects. */
  ghost function Answers(m: seq<byte>, at: nat, k: nat, n: nat): (as_: seq<Answer>)
    requires Walkable(m, at, k, n)
    ensures |as_| == k
    decreases k
  {
    if k == 0 then [] else [AnswerAt(m, at, n)] + Answers(m, CursorAfter(m, at, n), k - 1, n)
  }

  ghost function AnswerAt(m: seq<byte>, at: nat, n: nat): (a: Answer)
    requires IsRecord(m, at, n)
  {
    var f := FixedPart(m, at, n);
    Answer(Text(m, at, n), f, if U16(m, f) == T_A then Address(m, f) else Text(m, f + R_DATA, n))
  }

  function Address(m: seq<byte>, fixedPart: nat): (a: seq<byte>)
    requires fixedPart + R_DATA <= |m| && fixedPart + R_DATA + DataLength(m, fixedPart) <= |m|
  {
    m[fixedPart + R_DATA..fixedPart + R_DATA + DataLength(m, fixedPart)]
  }

  ghost function Text(m: seq<byte>, r: nat, n: nat): (t: seq<byte>)
    requires Expandable(m, r, n)
  {
    WireToText(false, Gathered(m, r, n))
  }

  // ----- the walk -----

  /** One turn of the answer loop: a name, the fixed part, and the data as octets or as another name. */
  method ReadAnswer(message: array<byte>, at: nat, ghost n: nat) returns (answer: Answer, reader: nat)
    requires IsRecord(message[..], at, n)
    ensures answer == AnswerAt(message[..], at, n)
    ensures reader == CursorAfter(message[..], at, n)
  {
    var name, stop := UncompressName(at, message, n);
    reader := at + stop;
    var resource := reader;
    var rdata;
    rdata, reader := ReadData(message, resource, n);
    answer := Answer(CString(name[..]), resource, rdata);
  }

  /** The data behind the fixed part. */
  method ReadData(message: array<byte>, resource: nat, ghost n: nat) returns (rdata: seq<byte>, reader: nat)
    requires resource + R_DATA <= message.Length
    requires resource + R_DATA + DataLength(message[..], resource) <= message.Length
    requires U16(message[..], resource) != T_A ==> Expandable(message[..], resource + R_DATA, n)
    ensures var m, start := message[..], resource + R_DATA;
            if U16(m, resource) == T_A then rdata == Address(m, resource) && reader == start + DataLength(m, resource)
            else rdata == Text(m, start, n) && reader == start + Occupied(m, start, n)
  {
    reader := resource + R_DATA;
    if U16(message[..], resource) == T_A {
      var length := DataLength(message[..], resource);
      rdata := message[..][reader..reader + length];
      reader := reader + length;
    } else {
      var data, stop := UncompressName(reader, message, n);
      rdata := CString(data[..]);
      reader := reader + stop;
    }
  }

  /** The answer loop. */
  method ReadRecords(message: array<byte>, start: nat, count: nat, ghost n: nat)
      returns (answers: seq<Answer>, reader: nat)
    requires Walkable(message[..], start, count, n)
    ensures answers == Answers(message[..], start, count, n)
    ensures reader == Cursor(message[..], start, count, n)
  {
    ghost var m := message[..];
    reader := start;
    answers := [];
    var i := 0;
    while i < count
      invariant 0 <= i <= count && message[..] == m
      invariant Walkable(m, reader, count - i, n)
      invariant answers + Answers(m, reader, count - i, n) == Answers(m, start, count, n)
      invariant Cursor(m, reader, count - i, n) == Cursor(m, start, count, n)
    {
      ghost var at := reader;
      var answer;
      answer, reader := ReadAnswer(message, reader, n);
      WalkOn(m, at, count - i, n, answers, answer, reader);
      answers := answers + [answer];
      i := i + 1;
    }
  }

  /** Read the answers of a response whose question follows the header. At most RECORD_LEN fit. */
  method ReadAnswers(message: array<byte>, ghost n: nat) returns (answers: seq<Answer>, reader: nat)
    requires message.Length >= HEADER && 0 in message[..][HEADER..]
    requires U16(message[..], ANS_COUNT) <= RECORD_LEN
    requires Walkable(message[..], AnswerSection(message[..]), U16(message[..], ANS_COUNT), n)
    ensures answers == Answers(message[..], AnswerSection(message[..]), U16(message[..], ANS_COUNT), n)
    ensures reader == Cursor(message[..], AnswerSection(message[..]), U16(message[..], ANS_COUNT), n)
  {
    answers, reader := ReadRecords(message, AnswerSection(message[..]), U16(message[..], ANS_COUNT), n);
  }

  lemma WalkOn(m: seq<byte>, at: nat, k: nat, n: nat, answers: seq<Answer>, answer: Answer, reader: nat)
    requires k > 0 && Walkable(m, at, k, n)
    requires answer == AnswerAt(m, at, n) && reader == CursorAfter(m, at, n)
    ensures Walkable(m, reader, k - 1, n) && Cursor(m, reader, k - 1, n) == Cursor(m, at, k, n)
    ensures (answers + [answer]) + Answers(m, reader, k - 1, n) == answers + Answers(m, at, k, n)
  {
    assert Answers(m, at, k, n) == [answer] + Answers(m, reader, k - 1, n);
  }

  /** The answers start after the question's name and its type and class. */
  function AnswerSection(m: seq<byte>): (at: nat)
    requires HEADER <= |m| && 0 in m[HEADER..]
  {
    HEADER + |Qname(m)| + 1 + QUESTION
  }

  // ----- answer sections as RFC 1035 lays them out -----

  /** A valid name at `r` whose labels hold no octet the server takes for a terminator or a pointer. */
  ghost predicate PlainName(m: seq<byte>, r: nat) {
    WellFormed(m, r, r) && ValidName(Expansion(m, r, r)) && Plain(Expansion(m, r, r))
  }

  /** An owner, a fixed part, and RDLENGTH octets of data: an address, or a name that starts there. */
  ghost predicate RfcRecord(m: seq<byte>, at: nat) {
    && PlainName(m, at)
    && var f := at + NameSize(m, at, at);
       && f + R_DATA <= |m|
       && f + R_DATA + DataLength(m, f) <= |m|
       && (U16(m, f) != T_A ==> PlainName(m, f + R_DATA))
  }

  /** Where the next record starts, whatever the data are. */
  ghost function RfcNext(m: seq<byte>, at: nat): (e: nat)
    requires RfcRecord(m, at)
  {
    var f := at + NameSize(m, at, at);
    f + R_DATA + DataLength(m, f)
  }

  /** RDLENGTH is the size of the name it stands for. */
  ghost predicate Agrees(m: seq<byte>, at: nat)
    requires RfcRecord(m, at)
  {
    var f := at + NameSize(m, at, at);
    U16(m, f) != T_A ==> NameSize(m, f + R_DATA, f + R_DATA) == DataLength(m, f)
  }

  /** What the record means: names are expanded by section 4.1.4, addresses are octets. */
  ghost function RfcAnswer(m: seq<byte>, at: nat): (a: Answer)
    requires RfcRecord(m, at)
  {
    var f := at + NameSize(m, at, at);
    Answer(Dotted(Expansion(m, at, at)), f,
           if U16(m, f) == T_A then Address(m, f) else Dotted(Expansion(m, f + R_DATA, f + R_DATA)))
  }

  /** `k` records in a row from `at`. */
  ghost predicate RfcSection(m: seq<byte>, at: nat, k: nat)
    decreases k
  {
    k > 0 ==> RfcRecord(m, at) && RfcSection(m, RfcNext(m, at), k - 1)
  }

  /** Where the record after the first `k` starts. */
  ghost function Boundary(m: seq<byte>, at: nat, k: nat): (e: nat)
    requires RfcSection(m, at, k)
    decreases k
  {
    if k == 0 then at else Boundary(m, RfcNext(m, at), k - 1)
  }

  ghost function RfcAnswers(m: seq<byte>, at: nat, k: nat): (as_: seq<Answer>)
    requires RfcSection(m, at, k)
    ensures |as_| == k
    decreases k
  {
    if k == 0 then [] else [RfcAnswer(m, at)] + RfcAnswers(m, RfcNext(m, at), k - 1)
  }

  /** The first `k` records all have the RDLENGTH they should. */
  ghost predicate AllAgree(m: seq<byte>, at: nat, k: nat)
    requires RfcSection(m, at, k)
    decreases k
  {
    k > 0 ==> Agrees(m, at) && AllAgree(m, RfcNext(m, at), k - 1)
  }

  /** A bound on the walks of one record. */
  ghost function RecordSteps(m: seq<byte>, at: nat): (n: nat)
    requires RfcRecord(m, at)
  {
    var f := at + NameSize(m, at, at);
    Steps(m, at, at) + if U16(m, f) == T_A then 0 else Steps(m, f + R_DATA, f + R_DATA)
  }

  ghost function SectionSteps(m: seq<byte>, at: nat, k: nat): (n: nat)
    requires RfcSection(m, at, k)
    decreases k
  {
    if k == 0 then 0 else RecordSteps(m, at) + SectionSteps(m, RfcNext(m, at), k - 1)
  }

  // ----- one record -----

  /** Within `n` steps the server reads the plain name at `r` as it is meant. */
  ghost predicate NameRead(m: seq<byte>, r: nat, n: nat) {
    && PlainName(m, r)
    && Expandable(m, r, n) && Occupied(m, r, n) == NameSize(m, r, r)
    && Text(m, r, n) == Dotted(Expansion(m, r, r))
  }

  lemma PlainNameExpandable(m: seq<byte>, r: nat, n: nat)
    requires PlainName(m, r) && n >= Steps(m, r, r)
    ensures NameRead(m, r, n)
  {
    ValidNameUncompresses(m, r);
    EndsMonotone(m, r, Steps(m, r, r), n);
    WalkUnique(m, r, Steps(m, r, r), n);
    PlainNameRead(m, r, n);
  }

  /** The server reads the record at `at` as `a`, and its cursor is then at `e`. */
  ghost predicate ReadsAs(m: seq<byte>, at: nat, n: nat, a: Answer, e: nat) {
    IsRecord(m, at, n) && AnswerAt(m, at, n) == a && CursorAfter(m, at, n) == e
  }

  lemma AddressRead(m: seq<byte>, at: nat, f: nat, n: nat, name: seq<byte>)
    requires Expandable(m, at, n) && f == FixedPart(m, at, n) && name == Text(m, at, n)
    requires f + R_DATA <= |m| && f + R_DATA + DataLength(m, f) <= |m| && U16(m, f) == T_A
    ensures ReadsAs(m, at, n, Answer(name, f, Address(m, f)), f + R_DATA + DataLength(m, f))
  {
  }

  lemma NameValueRead(m: seq<byte>, at: nat, f: nat, r: nat, n: nat, name: seq<byte>, data: seq<byte>)
    requires Expandable(m, at, n) && f == FixedPart(m, at, n) && name == Text(m, at, n)
    requires f + R_DATA <= |m| && f + R_DATA + DataLength(m, f) <= |m| && U16(m, f) != T_A
    requires r == f + R_DATA && Expandable(m, r, n) && data == Text(m, r, n)
    ensures ReadsAs(m, at, n, Answer(name, f, data), r + Occupied(m, r, n))
  {
  }

  lemma AddressMeant(m: seq<byte>, at: nat, f: nat, n: nat)
    requires RfcRecord(m, at) && f == at + NameSize(m, at, at) && U16(m, f) == T_A && n >= Steps(m, at, at)
    ensures ReadsAs(m, at, n, RfcAnswer(m, at), RfcNext(m, at))
  {
    PlainNameExpandable(m, at, n);
    AddressRead(m, at, f, n, Dotted(Expansion(m, at, at)));
  }

  lemma NameValueMeant(m: seq<byte>, at: nat, f: nat, r: nat, n: nat)
    requires RfcRecord(m, at) && f == at + NameSize(m, at, at) && U16(m, f) != T_A && r == f + R_DATA
    requires n >= Steps(m, at, at) && n >= Steps(m, r, r)
    ensures ReadsAs(m, at, n, RfcAnswer(m, at), r + NameSize(m, r, r))
  {
    PlainNameExpandable(m, at, n);
    PlainNameExpandable(m, r, n);
    NameValueRead(m, at, f, r, n, Dotted(Expansion(m, at, at)), Dotted(Expansion(m, r, r)));
  }

  /** One record is always read as it is meant; the cursor ends where the next starts just if RDLENGTH agrees. */
  lemma RecordRead(m: seq<byte>, at: nat, n: nat)
    requires RfcRecord(m, at) && n >= RecordSteps(m, at)
    ensures IsRecord(m, at, n) && AnswerAt(m, at, n) == RfcAnswer(m, at)
    ensures CursorAfter(m, at, n) == RfcNext(m, at) <==> Agrees(m, at)
  {
    var f := at + NameSize(m, at, at);
    if U16(m, f) == T_A {
      AddressMeant(m, at, f, n);
    } else {
      NameValueMeant(m, at, f, f + R_DATA, n);
    }
  }

  // ----- the whole section -----

  /** After `k` records the server's cursor is at `e`. */
  ghost predicate CursorAt(m: seq<byte>, at: nat, k: nat, n: nat, e: nat) {
    Walkable(m, at, k, n) && Cursor(m, at, k, n) == e
  }

  /** Every front part of a section is walked to its boundary. */
  ghost predicate OnBoundaries(m: seq<byte>, at: nat, k: nat, n: nat) {
    forall i :: 0 <= i <= k ==> RfcSection(m, at, i) && CursorAt(m, at, i, n, Boundary(m, at, i))
  }

  lemma BoundariesUnfold(m: seq<byte>, at: nat, k: nat, n: nat)
    requires k > 0 && RfcSection(m, at, k) && n >= RecordSteps(m, at)
    ensures OnBoundaries(m, at, k, n) <==> Agrees(m, at) && OnBoundaries(m, RfcNext(m, at), k - 1, n)
  {
    RecordRead(m, at, n);
    var next := RfcNext(m, at);
    if OnBoundaries(m, at, k, n) {
      assert CursorAt(m, at, 1, n, Boundary(m, at, 1)) && Boundary(m, next, 0) == next;
      forall i | 0 <= i <= k - 1 ensures RfcSection(m, next, i) && CursorAt(m, next, i, n, Boundary(m, next, i)) {
        assert RfcSection(m, at, i + 1) && CursorAt(m, at, i + 1, n, Boundary(m, at, i + 1));
      }
    }
    if Agrees(m, at) && OnBoundaries(m, next, k - 1, n) {
      forall i | 0 <= i <= k ensures RfcSection(m, at, i) && CursorAt(m, at, i, n, Boundary(m, at, i)) {
        if i > 0 {
          assert RfcSection(m, next, i - 1) && CursorAt(m, next, i - 1, n, Boundary(m, next, i - 1));
        }
      }
    }
  }

  /**
   * On every answer section of plain names and addresses the cursor is on the boundary behind each record, the
   * last included, if and only if every RDLENGTH agrees.
   */
  lemma {:induction false} CursorOnBoundaries(m: seq<byte>, at: nat, k: nat, n: nat)
    requires RfcSection(m, at, k) && n >= SectionSteps(m, at, k)
    ensures OnBoundaries(m, at, k, n) <==> AllAgree(m, at, k)
    decreases k
  {
    if k > 0 {
      BoundariesUnfold(m, at, k, n);
      CursorOnBoundaries(m, RfcNext(m, at), k - 1, n);
    } else {
      assert CursorAt(m, at, 0, n, Boundary(m, at, 0));
    }
  }

  /** A walk that starts earlier and comes to the same end has collected the octets in between as well. */
  lemma {:induction false} EarlierStartLonger(m: seq<byte>, a: nat, b: nat, n: nat, k: nat)
    requires Ends(m, a, n) && Ends(m, b, k) && Gathered(m, b, k) != [] && a <= b
    requires a + Occupied(m, a, n) == b + Occupied(m, b, k)
    ensures |Gathered(m, a, n)| == b - a + |Gathered(m, b, k)|
    decreases b - a
  {
    if a == b {
      WalkUnique(m, a, n, k);
    } else {
      assert m[a] < JUMP;
      EarlierStartLonger(m, a + 1, b, n - 1, k);
    }
  }

  /** So records read from two places are told apart by their owner's name or by where their fixed part is. */
  lemma SamePlace(m: seq<byte>, a: nat, b: nat, n: nat)
    requires IsRecord(m, a, n) && IsRecord(m, b, n) && AnswerAt(m, a, n) == AnswerAt(m, b, n)
    ensures a == b
  {
    WireToTextShape(false, Gathered(m, a, n));
    WireToTextShape(false, Gathered(m, b, n));
    if a < b {
      EarlierStartLonger(m, a, b, n, n);
    } else {
      EarlierStartLonger(m, b, a, n, n);
    }
  }

  /** The server walks the section and collects exactly the answers that are meant. */
  ghost predicate ReadsSection(m: seq<byte>, at: nat, k: nat, n: nat)
    requires RfcSection(m, at, k)
  {
    Walkable(m, at, k, n) && Answers(m, at, k, n) == RfcAnswers(m, at, k)
  }

  lemma ReadsUnfold(m: seq<byte>, at: nat, k: nat, n: nat)
    requires k > 0 && RfcRecord(m, at) && RfcSection(m, RfcNext(m, at), k - 1) && n >= RecordSteps(m, at)
    ensures Agrees(m, at) && ReadsSection(m, RfcNext(m, at), k - 1, n) ==> ReadsSection(m, at, k, n)
    ensures Agrees(m, at) && ReadsSection(m, at, k, n) ==> ReadsSection(m, RfcNext(m, at), k - 1, n)
  {
    RecordRead(m, at, n);
    if Agrees(m, at) && ReadsSection(m, at, k, n) {
      assert Answers(m, at, k, n)[1..] == RfcAnswers(m, at, k)[1..];
    }
  }

  lemma SecondAnswer(m: seq<byte>, at: nat, k: nat, n: nat)
    requires k > 1 && Walkable(m, at, k, n)
    ensures IsRecord(m, CursorAfter(m, at, n), n)
    ensures Answers(m, at, k, n)[1] == AnswerAt(m, CursorAfter(m, at, n), n)
  {
    assert Answers(m, at, k, n)[1] == Answers(m, CursorAfter(m, at, n), k - 1, n)[0];
  }

  lemma SecondMeant(m: seq<byte>, at: nat, k: nat)
    requires k > 1 && RfcSection(m, at, k)
    ensures RfcRecord(m, RfcNext(m, at))
    ensures RfcAnswers(m, at, k)[1] == RfcAnswer(m, RfcNext(m, at))
    ensures SectionSteps(m, at, k) >= RecordSteps(m, RfcNext(m, at))
  {
    assert RfcAnswers(m, at, k)[1] == RfcAnswers(m, RfcNext(m, at), k - 1)[0];
  }

  lemma DisagreementShows(m: seq<byte>, at: nat, k: nat, n: nat)
    requires k > 1 && RfcSection(m, at, k) && n >= SectionSteps(m, at, k) && ReadsSection(m, at, k, n)
    ensures Agrees(m, at)
  {
    SecondAnswer(m, at, k, n);
    SecondMeant(m, at, k);
    RecordRead(m, RfcNext(m, at), n);
    SamePlace(m, CursorAfter(m, at, n), RfcNext(m, at), n);
    RecordRead(m, at, n);
  }

  /**
   * On every such section the server collects exactly the answers that RFC 1035 puts there if and only if RDLENGTH
   * agrees in every record but the last.
   */
  lemma {:induction false} AnswersMeetRfc(m: seq<byte>, at: nat, k: nat, n: nat)
    requires k > 0 && RfcSection(m, at, k) && n >= SectionSteps(m, at, k)
    ensures RfcSection(m, at, k - 1)
    ensures ReadsSection(m, at, k, n) <==> AllAgree(m, at, k - 1)
    decreases k
  {
    if k == 1 {
      RecordRead(m, at, n);
    } else {
      AnswersMeetRfc(m, RfcNext(m, at), k - 1, n);
      ReadsUnfold(m, at, k, n);
      if ReadsSection(m, at, k, n) {
        DisagreementShows(m, at, k, n);
      }
    }
  }
}
