/** The packets the forwarder makes, as messages, and the addresses it reads from text. */
module CraftedLaws {
  import opened Bytes
  import opened Strings
  import opened Message
  import opened Names
  import opened Answers
  import opened Crafted

  // ---- Addresses as text

  /** A number below 256 in decimal digits, without leading zeros. */
  function Decimal(n: byte): Text {
    if n < 10 then [48 + n]
    else if n < 100 then [48 + n / 10, 48 + n % 10]
    else [48 + n / 100, 48 + n / 10 % 10, 48 + n % 10]
  }

  function Dotted(ip: Ip4): Text {
    Join([Decimal(ip.a), Decimal(ip.b), Decimal(ip.c), Decimal(ip.d)], 46)
  }

  lemma ValueOne(x: byte)
    ensures Value([x]) == if 48 <= x <= 57 then Some(x - 48) else None
  {
    assert [x][..0] == [];
    assert Value([x][..0]) == Some(0);
  }

  lemma ValueMore(t: Text, x: byte)
    ensures Value(t + [x]) ==
            if Value(t).Some? && 48 <= x <= 57 then Some(10 * Value(t).value + (x - 48)) else None
  {
    assert (t + [x])[..|t|] == t;
  }

  /** Just the decimal digits of a number below 256 are read as that number. */
  lemma {:induction false} OctetText(t: Text, v: byte)
    ensures ParseOctet(t) == Some(v) <==> t == Decimal(v)
  {
    hide Value;
    if |t| == 1 {
      ValueOne(t[0]);
      assert t == [t[0]];
    } else if |t| == 2 {
      assert t == [t[0]] + [t[1]];
      ValueOne(t[0]);
      ValueMore([t[0]], t[1]);
      TwoDigits(t, v);
    } else if |t| == 3 {
      assert t == [t[0]] + [t[1]] + [t[2]];
      ValueOne(t[0]);
      ValueMore([t[0]], t[1]);
      ValueMore([t[0]] + [t[1]], t[2]);
      ThreeDigits(t, v);
    }
  }

  lemma TwoDigits(t: Text, v: byte)
    requires |t| == 2
    ensures t == Decimal(v) <==>
            49 <= t[0] <= 57 && 48 <= t[1] <= 57 && 10 * (t[0] - 48) + (t[1] - 48) == v
  {
  }

  lemma ThreeDigits(t: Text, v: byte)
    requires |t| == 3
    ensures t == Decimal(v) <==>
            && 49 <= t[0] <= 57 && 48 <= t[1] <= 57 && 48 <= t[2] <= 57
            && 10 * (10 * (t[0] as int - 48) + (t[1] as int - 48)) + (t[2] as int - 48) == v
  {
  }

  lemma NoDots(v: byte)
    ensures 46 !in Decimal(v)
  {
  }

  /** Just the dotted decimal text of an address is read as that address. */
  lemma {:induction false} AddressText(t: Text, ip: Ip4)
    ensures ParseIp(t) == Some(ip) <==> t == Dotted(ip)
  {
    hide Split, Join, ParseOctet, Decimal;
    var parts := Split(t, 46);
    JoinSplit(t, 46);
    var ds := [Decimal(ip.a), Decimal(ip.b), Decimal(ip.c), Decimal(ip.d)];
    NoDots(ip.a); NoDots(ip.b); NoDots(ip.c); NoDots(ip.d);
    SplitJoin(ds, 46);
    if |parts| == 4 {
      OctetText(parts[0], ip.a);
      OctetText(parts[1], ip.b);
      OctetText(parts[2], ip.c);
      OctetText(parts[3], ip.d);
      assert parts == ds <==> parts[0] == ds[0] && parts[1] == ds[1] && parts[2] == ds[2] && parts[3] == ds[3];
    }
  }

  lemma {:induction false} ValidAppend(a: seq<Text>, b: seq<Text>)
    ensures ValidIps(a + b) == ValidIps(a) + ValidIps(b)
  {
    hide ParseIp;
    if a == [] {
      assert a + b == b;
    } else {
      assert (a + b)[0] == a[0] && (a + b)[1..] == a[1..] + b;
      ValidAppend(a[1..], b);
    }
  }

  /** Of a list of texts the addresses are read in order, and what is no address is passed over. */
  lemma {:induction false} ValidAre(before: seq<Text>, t: Text, after: seq<Text>)
    ensures (forall ip :: t != Dotted(ip)) ==> ValidIps(before + [t] + after) == ValidIps(before) + ValidIps(after)
    ensures forall ip :: t == Dotted(ip) ==> ValidIps(before + [t] + after) == ValidIps(before) + [ip] + ValidIps(after)
    ensures ValidIps([]) == []
  {
    hide ParseIp, ValidIps, Dotted;
    ValidAppend(before + [t], after);
    ValidAppend(before, [t]);
    ValidOne(t);
    if ParseIp(t).Some? {
      AddressText(t, ParseIp(t).value);
    } else {
      assert ValidIps(before) + [] == ValidIps(before);
    }
    forall ip | t == Dotted(ip)
      ensures ParseIp(t) == Some(ip)
    {
      AddressText(t, ip);
    }
  }

  lemma ValidOne(t: Text)
    ensures ValidIps([t]) == (match ParseIp(t) case Some(ip) => [ip] case None => [])
    ensures ValidIps([]) == []
  {
    assert [t][1..] == [];
  }

  // ---- The redirect answer as bytes

  lemma {:induction false} AnswerAt(qtype: seq<byte>, qclass: seq<byte>, ips: seq<Ip4>, k: nat)
    requires |qtype| == |qclass| == 2 && k < |ips|
    ensures var all, ip := AllAnswerBytes(qtype, qclass, ips), ips[k];
            && |all| == 16 * |ips|
            && all[16 * k..16 * k + 16] == [0xC0, 12] + qtype + qclass + [0, 0, 0, 60, 0, 4, ip.a, ip.b, ip.c, ip.d]
    decreases |ips|
  {
    hide AllAnswerBytes;
    AllSplit(qtype, qclass, ips);
    var first, rest := AnswerBytes(qtype, qclass, ips[0]), AllAnswerBytes(qtype, qclass, ips[1..]);
    if |ips| == 1 {
      AllOfNone(qtype, qclass);
    } else if k == 0 {
      AnswerAt(qtype, qclass, ips[1..], 0);
    } else {
      AnswerAt(qtype, qclass, ips[1..], k - 1);
      assert (first + rest)[16 * k..16 * k + 16] == rest[16 * (k - 1)..16 * (k - 1) + 16];
    }
  }

  lemma AllSplit(qtype: seq<byte>, qclass: seq<byte>, ips: seq<Ip4>)
    requires ips != []
    ensures AllAnswerBytes(qtype, qclass, ips)
            == AnswerBytes(qtype, qclass, ips[0]) + AllAnswerBytes(qtype, qclass, ips[1..])
  {
  }

  lemma AllOfNone(qtype: seq<byte>, qclass: seq<byte>)
    ensures AllAnswerBytes(qtype, qclass, []) == []
  {
  }

  /**
   * The whole query marked as an answer without error, and behind it sixteen bytes for each address: a pointer to
   * the question, its type and class, a minute, and the four octets. The count keeps sixteen bits.
   */
  ghost predicate RedirectedTo(r: seq<byte>, payload: seq<byte>, end: nat, ips: seq<Ip4>) {
    var n := |payload|;
    && 12 <= n && end + 4 <= n && |r| == n + 16 * |ips|
    && r[..2] == payload[..2] && r[2] == 0x81 && r[3] == 0x80 && r[4..6] == payload[4..6] && r[8..n] == payload[8..]
    && U16(r[6], r[7]) == |ips| % 0x1_0000
    && (12 <= end ==> forall k {:trigger ips[k]} :: 0 <= k < |ips| ==>
          r[n + 16 * k..n + 16 * k + 16]
          == [0xC0, 12] + payload[end..end + 4] + [0, 0, 0, 60, 0, 4, ips[k].a, ips[k].b, ips[k].c, ips[k].d])
  }

  /** This is the answer to a redirected query of any kind. */
  lemma {:induction false} RedirectIsBytes(payload: seq<byte>, end: nat, texts: seq<Text>)
    ensures var r := Redirect(payload, end, texts);
            && (r.Some? <==> 12 <= |payload| && end + 4 <= |payload| && ValidIps(texts) != [])
            && (r.Some? ==> RedirectedTo(r.value, payload, end, ValidIps(texts)))
  {
    hide ValidIps, AllAnswerBytes;
    var r, ips, n := Redirect(payload, end, texts), ValidIps(texts), |payload|;
    if r.Some? {
      var p := Flagged(payload);
      var t, c := p[end..end + 2], p[end + 2..end + 4];
      var head, tail := WithCount(p, |ips|), AllAnswerBytes(t, c, ips);
      assert r.value == head + tail;
      AnswerAt(t, c, ips, 0);
      assert r.value[8..n] == head[8..n] == payload[8..];
      if 12 <= end {
        assert payload[end..end + 4] == t + c;
        forall k | 0 <= k < |ips|
          ensures r.value[n + 16 * k..n + 16 * k + 16]
               == [0xC0, 12] + payload[end..end + 4] + [0, 0, 0, 60, 0, 4, ips[k].a, ips[k].b, ips[k].c, ips[k].d]
        {
          AnswerAt(t, c, ips, k);
          assert r.value[n + 16 * k..n + 16 * k + 16] == tail[16 * k..16 * k + 16];
          assert [0xC0, 12] + t + c == [0xC0, 12] + (t + c);
        }
      }
    }
  }

  // ---- The redirect answer as a message

  /** The answer for one address: named by a pointer to the question, of its type and class, for a minute. */
  ghost function AnswerFor(q: Question, ip: Ip4): Record {
    Record(Name([], Pointer(0xC0, 12)), q.qtype, q.qclass, [0, 0, 0, 60], [ip.a, ip.b, ip.c, ip.d])
  }

  ghost predicate AnswersFor(rs: seq<Record>, q: Question, ips: seq<Ip4>) {
    |rs| == |ips| && forall i :: 0 <= i < |rs| ==> rs[i] == AnswerFor(q, ips[i])
  }

  /** One question and these answers. */
  ghost function OneQuestion(head: seq<byte>, q: Question, rs: seq<Record>): Message {
    Message(head, [q], rs, [], [])
  }

  lemma OneQuestionBytes(head: seq<byte>, q: Question, rs: seq<Record>)
    requires |head| == 4 && q.Valid() && ValidRecords(rs) && |rs| < 0x1_0000
    ensures var m := OneQuestion(head, q, rs);
            m.Valid() && Encode(m) == EncHeader(head, 1, |rs|, 0, 0) + (EncQuestion(q) + EncRecords(rs))
  {
    hide EncQuestion, EncRecord, EncHeader;
    var qs := [q];
    assert qs[0] == q && qs[1..] == [];
    assert EncQuestions(qs) == EncQuestion(q) + [] == EncQuestion(q);
    assert EncRecords([]) == [] && EncRecords(rs) + ([] + []) == EncRecords(rs);
  }

  lemma HeaderMarked(h: seq<byte>, head: seq<byte>, marked: seq<byte>, n: nat)
    requires |head| == |marked| == 4 && marked == [head[0], head[1], 0x81, 0x80] && n < 0x1_0000
    requires h == EncHeader(head, 1, 0, 0, 0)
    ensures WithCount(Flagged(h), n) == EncHeader(marked, 1, n, 0, 0)
  {
    hide EncHeader, WithCount;
    var f := Flagged(h);
    var r := WithCount(f, n);
    assert forall i :: 0 <= i < 4 ==> h[i] == h[..4][i];
    HeaderOf(r);
    assert r[..4] == marked && r[..12] == r;
  }

  lemma RedirectBytes(h: seq<byte>, name: seq<byte>, qtype: seq<byte>, qclass: seq<byte>, texts: seq<Text>)
    requires |h| == 12 && |qtype| == |qclass| == 2 && ValidIps(texts) != []
    ensures Redirect(h + (name + (qtype + qclass)), 12 + |name|, texts)
            == Some(WithCount(Flagged(h), |ValidIps(texts)|) + (name + (qtype + qclass))
                    + AllAnswerBytes(qtype, qclass, ValidIps(texts)))
  {
    hide AllAnswerBytes, ValidIps;
    var b := name + (qtype + qclass);
    var p, e := h + b, 12 + |name|;
    MarkedInFront(h, b, |ValidIps(texts)|);
    assert p[e..e + 2] == qtype && p[e + 2..e + 4] == qclass;
    assert Flagged(p)[e..e + 2] == qtype && Flagged(p)[e + 2..e + 4] == qclass;
  }

  lemma MarkedInFront(h: seq<byte>, b: seq<byte>, n: nat)
    requires |h| == 12
    ensures WithCount(Flagged(h + b), n) == WithCount(Flagged(h), n) + b
  {
  }

  /**
   * Redirecting a query that is a header and one question gives the message with that question, marked as an answer
   * without error, and one answer for each valid address, in order.
   */
  lemma {:induction false} RedirectIsMessage(head: seq<byte>, q: Question, texts: seq<Text>, rs: seq<Record>)
    requires |head| == 4 && q.Valid() && 0 < |ValidIps(texts)| < 0x1_0000 && AnswersFor(rs, q, ValidIps(texts))
    ensures var query, answer := OneQuestion(head, q, []), OneQuestion(head[..2] + [0x81, 0x80], q, rs);
            && query.Valid() && answer.Valid()
            && Redirect(Encode(query), 12 + |EncName(q.name)|, texts) == Some(Encode(answer))
  {
    hide EncName, EncRecords, AllAnswerBytes, ValidIps, Encode, Redirect, EncBody, EncHeader, WithCount, Flagged, Be16;
    hide OneQuestion;
    var ips := ValidIps(texts);
    AnswersAreRecords(q.qtype, q.qclass, ips);
    assert rs == AnswerRecords(q.qtype, q.qclass, ips);
    OneQuestionBytes(head, q, []);
    OneQuestionBytes(head[..2] + [0x81, 0x80], q, rs);
    NoRecordBytes();
    assert head[..2] + [0x81, 0x80] == [head[0], head[1], 0x81, 0x80];
    HeaderMarked(EncHeader(head, 1, 0, 0, 0), head, head[..2] + [0x81, 0x80], |ips|);
    RedirectBytes(EncHeader(head, 1, 0, 0, 0), EncName(q.name), Be16(q.qtype), Be16(q.qclass), texts);
    assert EncQuestion(q) + [] == EncQuestion(q);
    assert EncHeader(head[..2] + [0x81, 0x80], 1, |ips|, 0, 0) + EncQuestion(q) + EncRecords(rs)
        == EncHeader(head[..2] + [0x81, 0x80], 1, |ips|, 0, 0) + (EncQuestion(q) + EncRecords(rs));
  }

  lemma NoRecordBytes()
    ensures ValidRecords([]) && EncRecords([]) == []
  {
  }

  // ---- The lookup query as a message

  /** A lookup query asks for the A record of the name, recursion desired, and nothing else. */
  lemma {:induction false} LookupIsMessage(domain: Text, hi: byte, lo: byte)
    requires forall l <- Split(TrimDots(domain), 46) :: 0 < |l| < 0xC0
    ensures var q := Question(Name(Split(TrimDots(domain), 46), Root), 1, 1);
            var m := OneQuestion([hi, lo, 1, 0], q, []);
            m.Valid() && LookupQuery(domain, hi, lo) == Encode(m)
  {
    hide Split, TrimDots, Encode, EncLabels, EncHeader;
    var labels := Split(TrimDots(domain), 46);
    var q, head := Question(Name(labels, Root), 1, 1), [hi, lo, 1, 0];
    LabelBytesAreLabels(labels);
    OneQuestionBytes(head, q, []);
    NoRecordBytes();
    LookupHeader(hi, lo);
    assert EncQuestion(q) == EncLabels(labels) + [0] + ([0, 1] + [0, 1]);
    assert EncHeader(head, 1, 0, 0, 0) + (EncLabels(labels) + [0] + ([0, 1] + [0, 1]) + [])
        == EncHeader(head, 1, 0, 0, 0) + EncLabels(labels) + [0] + [0, 1, 0, 1];
  }

  lemma LookupHeader(hi: byte, lo: byte)
    ensures EncHeader([hi, lo, 1, 0], 1, 0, 0, 0) == [hi, lo, 1, 0, 0, 1, 0, 0, 0, 0, 0, 0]
    ensures Be16(1) == [0, 1]
  {
    hide EncHeader;
    var p := [hi, lo, 1, 0, 0, 1, 0, 0, 0, 0, 0, 0];
    HeaderOf(p);
    assert p[..4] == [hi, lo, 1, 0] && p[..12] == p;
  }

  // ---- The cache key of a query

  /** The key of a query with an uncompressed name of text is that name in lower case, and the type asked for. */
  lemma {:induction false} KeyOfQuery(m: Message, depth: nat)
    requires m.Valid() && m.questions != [] && Readable(m.questions[0].name)
    requires m.questions[0].name.end == Root && m.questions[0].name.labels != []
    ensures var q := m.questions[0];
            && Parse(Encode(m), 12, [], depth).Returned?
            && CacheKeyOf(Encode(m), Parse(Encode(m), 12, [], depth).value)
               == Some(CacheKey(Lower(Join(q.name.labels, 46)), q.qtype))
  {
    hide At, EncName, EncQuestions, EncRecords, EncBody, Encode, Parse, Join;
    var p, q := Encode(m), m.questions[0];
    assert q in m.questions;
    HeaderAndBody(m);
    Sections(m, p);
    FirstAt(m.questions, p);
    AtSplit(p, 12, EncName(q.name), Be16(q.qtype) + Be16(q.qclass));
    UncompressedName(p, 12, q.name, depth);
    var e := 12 + |EncName(q.name)|;
    AtByte(p, e, Be16(q.qtype) + Be16(q.qclass), 0);
    AtByte(p, e, Be16(q.qtype) + Be16(q.qclass), 1);
  }

  lemma FirstAt(qs: seq<Question>, p: seq<byte>)
    requires qs != [] && (forall q <- qs :: q.Valid()) && At(p, 12, EncQuestions(qs))
    ensures qs[0].Valid() && At(p, 12, EncQuestion(qs[0]))
  {
    hide At, EncQuestion;
    assert qs[0] in qs;
    AtSplit(p, 12, EncQuestion(qs[0]), EncQuestions(qs[1..]));
  }
}
