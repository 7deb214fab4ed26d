/** DNS messages as values (section 4.1 of RFC 1035), their encoding, and what the walkers make of it. */
module Message {
  import opened Bytes
  import opened Wire

  datatype NameEnd = Root | Pointer(hi: byte, lo: byte)

  /** Labels closed by the zero byte or by a compression pointer. */
  datatype Name = Name(labels: seq<seq<byte>>, end: NameEnd) {
    ghost predicate Valid() {
      && (forall l <- labels :: 0 < |l| < 0xC0)
      && (end.Pointer? ==> end.hi >= 0xC0)
    }
  }

  datatype Question = Question(name: Name, qtype: nat, qclass: nat) {
    ghost predicate Valid() {
      name.Valid() && qtype < 0x1_0000 && qclass < 0x1_0000
    }
  }

  datatype Record = Record(name: Name, rtype: nat, rclass: nat, ttl: seq<byte>, rdata: seq<byte>) {
    ghost predicate Valid() {
      name.Valid() && rtype < 0x1_0000 && rclass < 0x1_0000 && |ttl| == 4 && |rdata| < 0x1_0000
    }
  }

  /** `head` is the ID and the flags. */
  datatype Message = Message(head: seq<byte>, questions: seq<Question>,
                             answers: seq<Record>, authority: seq<Record>, additional: seq<Record>) {
    ghost predicate Valid() {
      && |head| == 4
      && |questions| < 0x1_0000 && |answers| < 0x1_0000 && |authority| < 0x1_0000 && |additional| < 0x1_0000
      && (forall q <- questions :: q.Valid())
      && ValidRecords(answers) && ValidRecords(authority) && ValidRecords(additional)
    }
  }

  ghost predicate ValidRecords(rs: seq<Record>) {
    forall r <- rs :: r.Valid()
  }

  // ---- Encoding

  ghost function EncLabels(labels: seq<seq<byte>>): seq<byte>
    requires forall l <- labels :: 0 < |l| < 0xC0
  {
    if labels == [] then [] else [|labels[0]|] + labels[0] + EncLabels(labels[1..])
  }

  ghost function EncEnd(end: NameEnd): seq<byte> {
    match end case Root => [0] case Pointer(hi, lo) => [hi, lo]
  }

  ghost function EncName(n: Name): seq<byte>
    requires n.Valid()
  {
    EncLabels(n.labels) + EncEnd(n.end)
  }

  ghost function EncQuestion(q: Question): seq<byte>
    requires q.Valid()
  {
    EncName(q.name) + (Be16(q.qtype) + Be16(q.qclass))
  }

  ghost function EncQuestions(qs: seq<Question>): seq<byte>
    requires forall q <- qs :: q.Valid()
  {
    if qs == [] then [] else EncQuestion(qs[0]) + EncQuestions(qs[1..])
  }

  /** TYPE, CLASS, TTL and RDLENGTH. */
  ghost function EncFixed(r: Record): (b: seq<byte>)
    requires r.Valid()
    ensures |b| == 10 && U16(b[0], b[1]) == r.rtype && U16(b[2], b[3]) == r.rclass
    ensures b[4..8] == r.ttl && U16(b[8], b[9]) == |r.rdata|
  {
    Be16(r.rtype) + Be16(r.rclass) + r.ttl + Be16(|r.rdata|)
  }

  ghost function EncRecord(r: Record): seq<byte>
    requires r.Valid()
  {
    EncName(r.name) + (EncFixed(r) + r.rdata)
  }

  ghost function EncRecords(rs: seq<Record>): seq<byte>
    requires ValidRecords(rs)
  {
    if rs == [] then [] else EncRecord(rs[0]) + EncRecords(rs[1..])
  }

  ghost function EncHeader(head: seq<byte>, qd: nat, an: nat, ns: nat, ar: nat): (b: seq<byte>)
    requires |head| == 4 && qd < 0x1_0000 && an < 0x1_0000 && ns < 0x1_0000 && ar < 0x1_0000
    ensures |b| == 12 && b[..4] == head && U16(b[4], b[5]) == qd && U16(b[6], b[7]) == an
    ensures U16(b[8], b[9]) == ns && U16(b[10], b[11]) == ar
  {
    head + Be16(qd) + Be16(an) + Be16(ns) + Be16(ar)
  }

  ghost function EncBody(m: Message): (b: seq<byte>)
    requires m.Valid()
    ensures |b| == |EncQuestions(m.questions)| + |EncRecords(m.answers)| + |EncRecords(m.authority)|
            + |EncRecords(m.additional)|
  {
    EncQuestions(m.questions) + (EncRecords(m.answers) + (EncRecords(m.authority) + EncRecords(m.additional)))
  }

  ghost function Encode(m: Message): seq<byte>
    requires m.Valid()
  {
    EncHeader(m.head, |m.questions|, |m.answers|, |m.authority|, |m.additional|) + EncBody(m)
  }

  lemma {:induction false} EncRecordsAppend(a: seq<Record>, b: seq<Record>)
    requires ValidRecords(a) && ValidRecords(b)
    ensures ValidRecords(a + b)
    ensures EncRecords(a + b) == EncRecords(a) + EncRecords(b)
  {
    hide EncRecord;
    if a == [] {
      assert a + b == b;
    } else {
      EncRecordsAppend(a[1..], b);
      assert (a + b)[1..] == a[1..] + b;
    }
  }

  // ---- The walkers on encoded parts, wherever in a buffer they stand

  lemma EncNameNil(n: Name)
    requires n.Valid() && n.labels == []
    ensures EncName(n) == EncEnd(n.end)
  {
  }

  lemma EncNameCons(l: seq<byte>, rest: Name)
    requires 0 < |l| < 0xC0 && rest.Valid()
    ensures Name([l] + rest.labels, rest.end).Valid()
    ensures EncName(Name([l] + rest.labels, rest.end)) == ([|l|] + l) + EncName(rest)
  {
    assert ([l] + rest.labels)[1..] == rest.labels;
  }

  lemma {:induction false} NameWalk(buf: seq<byte>, pos: nat, n: Name)
    requires n.Valid() && At(buf, pos, EncName(n))
    ensures AfterName(buf, pos) == Some(pos + |EncName(n)|)
    decreases |n.labels|
  {
    hide At;
    AtSplit(buf, pos, EncLabels(n.labels), EncEnd(n.end));
    if n.labels == [] {
      AtByte(buf, pos, EncEnd(n.end), 0);
    } else {
      var l, rest := n.labels[0], n.(labels := n.labels[1..]);
      EncNameCons(l, rest);
      assert n == Name([l] + rest.labels, rest.end);
      AtSplit(buf, pos, [|l|] + l, EncName(rest));
      AtByte(buf, pos, [|l|] + l, 0);
      NameWalk(buf, pos + 1 + |l|, rest);
    }
  }

  lemma {:induction false} QuestionsWalk(buf: seq<byte>, pos: nat, qs: seq<Question>)
    requires forall q <- qs :: q.Valid()
    requires At(buf, pos, EncQuestions(qs))
    ensures AfterQuestions(buf, pos, |qs|) == Some(pos + |EncQuestions(qs)|)
    decreases |qs|
  {
    hide At;
    if qs != [] {
      AtSplit(buf, pos, EncQuestion(qs[0]), EncQuestions(qs[1..]));
      AtSplit(buf, pos, EncName(qs[0].name), Be16(qs[0].qtype) + Be16(qs[0].qclass));
      NameWalk(buf, pos, qs[0].name);
      QuestionsWalk(buf, pos + |EncQuestion(qs[0])|, qs[1..]);
    }
  }

  lemma FixedOf(r: Record, buf: seq<byte>, e: nat)
    requires e + 10 <= |buf| && r.Valid()
    requires r.rtype == U16(buf[e], buf[e + 1]) && r.rclass == U16(buf[e + 2], buf[e + 3])
    requires r.ttl == buf[e + 4..e + 8] && |r.rdata| == U16(buf[e + 8], buf[e + 9])
    ensures buf[e..e + 10] == EncFixed(r)
  {
    Be16OfU16(buf[e], buf[e + 1]);
    Be16OfU16(buf[e + 2], buf[e + 3]);
    Be16OfU16(buf[e + 8], buf[e + 9]);
    assert buf[e..e + 10]
        == [buf[e], buf[e + 1]] + [buf[e + 2], buf[e + 3]] + buf[e + 4..e + 8] + [buf[e + 8], buf[e + 9]];
  }

  lemma HeaderOf(p: seq<byte>)
    requires |p| >= 12
    ensures p[..12] == EncHeader(p[..4], U16(p[4], p[5]), U16(p[6], p[7]), U16(p[8], p[9]), U16(p[10], p[11]))
  {
    Be16OfU16(p[4], p[5]);
    Be16OfU16(p[6], p[7]);
    Be16OfU16(p[8], p[9]);
    Be16OfU16(p[10], p[11]);
  }

  lemma FixedParts(buf: seq<byte>, e: nat, f: seq<byte>)
    requires e + 10 <= |buf| && |f| == 10 && buf[e..e + 10] == f
    ensures buf[e] == f[0] && buf[e + 1] == f[1] && buf[e + 2] == f[2] && buf[e + 3] == f[3]
    ensures buf[e + 8] == f[8] && buf[e + 9] == f[9]
    ensures buf[e + 4..e + 8] == f[4..8]
  {
    forall i | 0 <= i < 4
      ensures buf[e + 4..e + 8][i] == f[4..8][i]
    {
      assert buf[e..e + 10][4 + i] == f[4 + i];
    }
  }

  /** What every walker reads of a record: where its name ends, its fixed part and its data. */
  lemma {:induction false} RecordParts(buf: seq<byte>, pos: nat, r: Record) returns (e: nat)
    requires r.Valid() && At(buf, pos, EncRecord(r))
    ensures e == pos + |EncName(r.name)| && AfterName(buf, pos) == Some(e)
    ensures e + 10 + |r.rdata| == pos + |EncRecord(r)| <= |buf|
    ensures U16(buf[e], buf[e + 1]) == r.rtype && U16(buf[e + 2], buf[e + 3]) == r.rclass
    ensures buf[e + 4..e + 8] == r.ttl && U16(buf[e + 8], buf[e + 9]) == |r.rdata|
    ensures buf[e + 10..e + 10 + |r.rdata|] == r.rdata
    ensures AfterRecord(buf, pos) == Some(pos + |EncRecord(r)|)
  {
    hide At, EncName, EncFixed;
    e := pos + |EncName(r.name)|;
    AtSplit(buf, pos, EncName(r.name), EncFixed(r) + r.rdata);
    AtSplit(buf, e, EncFixed(r), r.rdata);
    NameWalk(buf, pos, r.name);
    AtEnd(buf, e, EncFixed(r));
    AtEnd(buf, e + 10, r.rdata);
    FixedParts(buf, e, EncFixed(r));
  }

  lemma {:induction false} RecordsWalk(buf: seq<byte>, pos: nat, rs: seq<Record>)
    requires ValidRecords(rs) && At(buf, pos, EncRecords(rs))
    ensures AfterRecords(buf, pos, |rs|) == Some(pos + |EncRecords(rs)|)
    decreases |rs|
  {
    hide At, EncRecord, AfterRecord;
    if rs != [] {
      AtSplit(buf, pos, EncRecord(rs[0]), EncRecords(rs[1..]));
      var _ := RecordParts(buf, pos, rs[0]);
      RecordsWalk(buf, pos + |EncRecord(rs[0])|, rs[1..]);
    }
  }

  /** The sections of an encoded message stand one after the other. */
  lemma Sections(m: Message, buf: seq<byte>)
    requires m.Valid() && At(buf, 12, EncBody(m))
    ensures At(buf, 12, EncQuestions(m.questions))
    ensures At(buf, 12 + |EncQuestions(m.questions)|, EncRecords(m.answers))
    ensures At(buf, 12 + |EncQuestions(m.questions)| + |EncRecords(m.answers)|, EncRecords(m.authority))
    ensures At(buf, 12 + |EncQuestions(m.questions)| + |EncRecords(m.answers)| + |EncRecords(m.authority)|,
               EncRecords(m.additional))
  {
    hide At, EncQuestions, EncRecords;
    var q, an, ns, ar := EncQuestions(m.questions), EncRecords(m.answers), EncRecords(m.authority),
        EncRecords(m.additional);
    AtSplit(buf, 12, q, an + (ns + ar));
    AtSplit(buf, 12 + |q|, an, ns + ar);
    AtSplit(buf, 12 + |q| + |an|, ns, ar);
  }

  lemma HeaderAndBody(m: Message)
    requires m.Valid()
    ensures var p := Encode(m);
            && |p| == 12 + |EncBody(m)|
            && U16(p[4], p[5]) == |m.questions| && U16(p[6], p[7]) == |m.answers|
            && U16(p[8], p[9]) == |m.authority| && U16(p[10], p[11]) == |m.additional|
            && At(p, 12, EncBody(m))
  {
    hide At, EncHeader, EncBody;
    var h := EncHeader(m.head, |m.questions|, |m.answers|, |m.authority|, |m.additional|);
    AtAppend(h, EncBody(m), []);
    assert h + EncBody(m) + [] == Encode(m);
  }

  // ---- Every packet the walkers accept to its last byte is an encoded message

  /** The four counts of a header and a walk over all sections that ends exactly at the end of the packet. */
  predicate WellFormed(p: seq<byte>) {
    && |p| >= 12
    && var q := AfterQuestions(p, 12, U16(p[4], p[5]));
    && q.Some?
    && AfterRecords(p, q.value, U16(p[6], p[7]) + U16(p[8], p[9]) + U16(p[10], p[11])) == Some(|p|)
  }

  lemma {:induction false} NameDecode(buf: seq<byte>, pos: nat) returns (n: Name)
    requires AfterName(buf, pos).Some? && AfterName(buf, pos).value <= |buf|
    ensures n.Valid() && At(buf, pos, EncName(n)) && pos + |EncName(n)| == AfterName(buf, pos).value
    decreases |buf| - pos
  {
    hide At, EncName;
    if buf[pos] == 0 {
      n := Name([], Root);
      EncNameNil(n);
      AtSlice(buf, pos, pos + 1);
      assert buf[pos..pos + 1] == [0] == EncName(n);
    } else if buf[pos] >= 0xC0 {
      n := Name([], Pointer(buf[pos], buf[pos + 1]));
      EncNameNil(n);
      AtSlice(buf, pos, pos + 2);
      assert buf[pos..pos + 2] == [buf[pos], buf[pos + 1]] == EncName(n);
    } else {
      var len := buf[pos];
      AfterNameGrows(buf, pos + 1 + len);
      var rest := NameDecode(buf, pos + 1 + len);
      var l := buf[pos + 1..pos + 1 + len];
      n := Name([l] + rest.labels, rest.end);
      AtSlice(buf, pos, pos + 1 + len);
      assert buf[pos..pos + 1 + len] == [len] + l;
      EncNameCons(l, rest);
      AtSplit(buf, pos, [len] + l, EncName(rest));
    }
  }

  lemma {:induction false} QuestionsDecode(buf: seq<byte>, pos: nat, count: nat) returns (qs: seq<Question>)
    requires AfterQuestions(buf, pos, count).Some? && AfterQuestions(buf, pos, count).value <= |buf|
    ensures |qs| == count && forall q <- qs :: q.Valid()
    ensures At(buf, pos, EncQuestions(qs)) && pos + |EncQuestions(qs)| == AfterQuestions(buf, pos, count).value
    decreases count
  {
    hide At, EncName;
    if count == 0 {
      qs := [];
      AtSlice(buf, pos, pos);
    } else {
      var e := AfterName(buf, pos).value;
      QuestionsGrow(buf, e + 4, count - 1);
      var n := NameDecode(buf, pos);
      var rest := QuestionsDecode(buf, e + 4, count - 1);
      Be16OfU16(buf[e], buf[e + 1]);
      Be16OfU16(buf[e + 2], buf[e + 3]);
      var q := Question(n, U16(buf[e], buf[e + 1]), U16(buf[e + 2], buf[e + 3]));
      AtSlice(buf, e, e + 4);
      assert buf[e..e + 4] == Be16(q.qtype) + Be16(q.qclass);
      AtSplit(buf, pos, EncName(n), Be16(q.qtype) + Be16(q.qclass));
      qs := [q] + rest;
      assert qs[1..] == rest;
      AtSplit(buf, pos, EncQuestion(q), EncQuestions(rest));
    }
  }

  lemma {:induction false} QuestionsGrow(buf: seq<byte>, pos: nat, count: nat)
    ensures AfterQuestions(buf, pos, count).Some? ==> AfterQuestions(buf, pos, count).value >= pos
    decreases count
  {
    if count > 0 && AfterName(buf, pos).Some? {
      AfterNameGrows(buf, pos);
      QuestionsGrow(buf, AfterName(buf, pos).value + 4, count - 1);
    }
  }

  lemma {:induction false} RecordsGrow(buf: seq<byte>, pos: nat, count: nat)
    ensures AfterRecords(buf, pos, count).Some? ==> AfterRecords(buf, pos, count).value >= pos
    decreases count
  {
    if count > 0 && AfterRecord(buf, pos).Some? {
      RecordsGrow(buf, AfterRecord(buf, pos).value, count - 1);
    }
  }

  lemma {:induction false} RecordDecode(buf: seq<byte>, pos: nat) returns (r: Record)
    requires AfterRecord(buf, pos).Some?
    ensures r.Valid() && At(buf, pos, EncRecord(r)) && pos + |EncRecord(r)| == AfterRecord(buf, pos).value
  {
    hide At, EncName, EncFixed;
    var e := AfterName(buf, pos).value;
    var n := NameDecode(buf, pos);
    var len := U16(buf[e + 8], buf[e + 9]);
    r := Record(n, U16(buf[e], buf[e + 1]), U16(buf[e + 2], buf[e + 3]), buf[e + 4..e + 8], buf[e + 10..e + 10 + len]);
    AtSlice(buf, e, e + 10);
    AtSlice(buf, e + 10, e + 10 + len);
    FixedOf(r, buf, e);
    AtSplit(buf, e, EncFixed(r), r.rdata);
    AtSplit(buf, pos, EncName(n), EncFixed(r) + r.rdata);
  }

  lemma {:induction false} RecordsDecode(buf: seq<byte>, pos: nat, count: nat) returns (rs: seq<Record>)
    requires pos <= |buf| && AfterRecords(buf, pos, count).Some?
    ensures |rs| == count && ValidRecords(rs) && pos + |EncRecords(rs)| <= |buf|
    ensures At(buf, pos, EncRecords(rs)) && pos + |EncRecords(rs)| == AfterRecords(buf, pos, count).value
    decreases count
  {
    hide At, EncRecord, AfterRecord;
    if count == 0 {
      rs := [];
      AtSlice(buf, pos, pos);
    } else {
      var r := RecordDecode(buf, pos);
      var rest := RecordsDecode(buf, pos + |EncRecord(r)|, count - 1);
      rs := [r] + rest;
      assert rs[1..] == rest;
      AtSplit(buf, pos, EncRecord(r), EncRecords(rest));
    }
  }

  /** A packet is well formed exactly when it encodes some message: both directions. */
  lemma {:induction false} WellFormedIsEncoded(p: seq<byte>)
    ensures WellFormed(p) <==> exists m: Message :: m.Valid() && Encode(m) == p
  {
    if WellFormed(p) {
      var m := DecodeWellFormed(p);
    }
    forall m: Message | m.Valid() && Encode(m) == p
      ensures WellFormed(p)
    {
      EncodedIsWellFormed(m);
    }
  }

  lemma EncodedIsWellFormed(m: Message)
    requires m.Valid()
    ensures WellFormed(Encode(m))
  {
    hide At, EncQuestions, EncRecords, EncBody, Encode, AfterQuestions, AfterRecords;
    var p := Encode(m);
    HeaderAndBody(m);
    Sections(m, p);
    QuestionsWalk(p, 12, m.questions);
    var q := 12 + |EncQuestions(m.questions)|;
    var n := |m.answers|;
    var k := |m.authority|;
    RecordsWalk(p, q, m.answers);
    RecordsWalk(p, q + |EncRecords(m.answers)|, m.authority);
    RecordsWalk(p, q + |EncRecords(m.answers)| + |EncRecords(m.authority)|, m.additional);
    AfterRecordsSplit(p, q, n, k);
    AfterRecordsSplit(p, q, n + k, |m.additional|);
  }

  lemma DecodeWellFormed(p: seq<byte>) returns (m: Message)
    requires WellFormed(p)
    ensures m.Valid() && Encode(m) == p
  {
    hide At, EncQuestions, EncRecords, EncHeader, AfterQuestions, AfterRecords;
    var qd, an, ns, ar := U16(p[4], p[5]), U16(p[6], p[7]), U16(p[8], p[9]), U16(p[10], p[11]);
    var q := AfterQuestions(p, 12, qd).value;
    RecordsGrow(p, q, an + ns + ar);
    var qs := QuestionsDecode(p, 12, qd);
    AfterRecordsSplit(p, q, an + ns, ar);
    AfterRecordsSplit(p, q, an, ns);
    var ra := RecordsDecode(p, q, an);
    var rn := RecordsDecode(p, q + |EncRecords(ra)|, ns);
    var rr := RecordsDecode(p, q + |EncRecords(ra)| + |EncRecords(rn)|, ar);
    m := Message(p[..4], qs, ra, rn, rr);
    HeaderOf(p);
    AtSplit(p, q + |EncRecords(ra)|, EncRecords(rn), EncRecords(rr));
    AtSplit(p, q, EncRecords(ra), EncRecords(rn) + EncRecords(rr));
    AtSplit(p, 12, EncQuestions(qs), EncRecords(ra) + (EncRecords(rn) + EncRecords(rr)));
    AtEnd(p, 12, EncBody(m));
    assert p == p[..12] + p[12..12 + |EncBody(m)|];
  }
}
