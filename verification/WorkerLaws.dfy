/** What the worker sends, for every kind of query and of replies. */
module WorkerLaws {
  import opened Bytes
  import opened Wire
  import opened Message
  import opened Answers
  import opened Crafted
  import opened Worker

  // ---- The type of a query

  /** The type read is that of the first question. */
  lemma {:induction false} TypeOfQuery(m: Message)
    requires m.Valid() && m.questions != []
    ensures QuestionType(Encode(m)) == Ok(m.questions[0].qtype)
  {
    hide At, EncName, EncQuestions, EncRecords, EncBody, Encode, JsAfterName;
    var p, q := Encode(m), m.questions[0];
    assert q in m.questions;
    HeaderAndBody(m);
    Sections(m, p);
    FirstQuestionAt(m.questions, p);
    AtSplit(p, 12, EncName(q.name), Be16(q.qtype) + Be16(q.qclass));
    NameWalk(p, 12, q.name);
    SameName(p, 12);
    var e := 12 + |EncName(q.name)|;
    AtByte(p, e, Be16(q.qtype) + Be16(q.qclass), 0);
    AtByte(p, e, Be16(q.qtype) + Be16(q.qclass), 1);
  }

  lemma FirstQuestionAt(qs: seq<Question>, p: seq<byte>)
    requires qs != [] && (forall q <- qs :: q.Valid()) && At(p, 12, EncQuestions(qs))
    ensures qs[0].Valid() && At(p, 12, EncQuestion(qs[0]))
  {
    hide At, EncQuestion;
    assert qs[0] in qs;
    AtSplit(p, 12, EncQuestion(qs[0]), EncQuestions(qs[1..]));
  }

  // ---- Replies that hang

  ghost predicate HangsAt(replies: seq<Option<seq<byte>>>, i: nat) {
    i < |replies| && replies[i].Some? && JsARecords(replies[i].value) == Hangs
  }

  ghost predicate SomeHangs(replies: seq<Option<seq<byte>>>) {
    exists i: nat :: HangsAt(replies, i)
  }

  /** The loop hangs just when some reply does, and never throws. */
  lemma {:induction false} GatherHangs(replies: seq<Option<seq<byte>>>, sofar: Gathered)
    ensures Gather(replies, sofar) == Hangs <==> SomeHangs(replies)
    ensures Gather(replies, sofar) != Throws
    decreases |replies|
  {
    hide JsARecords, AddAll;
    if replies != [] {
      HangsLater(replies);
      if replies[0].None? || JsARecords(replies[0].value) == Throws {
        GatherHangs(replies[1..], sofar);
      } else if JsARecords(replies[0].value) == Hangs {
        assert HangsAt(replies, 0);
      } else {
        GatherHangs(replies[1..], Gathered(AddAll(sofar.all, JsARecords(replies[0].value).value), replies[0]));
      }
    }
  }

  lemma HangsLater(replies: seq<Option<seq<byte>>>)
    requires replies != []
    ensures SomeHangs(replies) <==> HangsAt(replies, 0) || SomeHangs(replies[1..])
  {
    hide JsARecords;
    if SomeHangs(replies) && !HangsAt(replies, 0) {
      var i: nat :| HangsAt(replies, i);
      assert HangsAt(replies[1..], i - 1);
    }
    if SomeHangs(replies[1..]) {
      var i: nat :| HangsAt(replies[1..], i);
      assert HangsAt(replies, i + 1);
    }
  }

  ghost predicate SomeParsed(replies: seq<Option<seq<byte>>>) {
    exists i: nat :: Parsed(replies, i)
  }

  // ---- What is sent

  /** With a reply that hangs there is no answer, and with none that parsed it is a failure of the upstream. */
  lemma {:induction false} FailedFetch(m: Message, replies: seq<Option<seq<byte>>>)
    requires m.Valid() && m.questions != []
    ensures SomeHangs(replies) ==> Answered(Encode(m), replies) == NoAnswer
    ensures !SomeHangs(replies) && !SomeParsed(replies) ==> Answered(Encode(m), replies) == Status(502)
  {
    hide JsARecords, Gather, QuestionType, Rewrite, Encode;
    TypeOfQuery(m);
    GatherHangs(replies, Gathered([], None));
    if !SomeHangs(replies) && !SomeParsed(replies) {
      GatherIsUnion(replies, Gathered([], None));
    }
  }

  /** A query of another type than A is answered with the last parsed reply, byte for byte. */
  lemma {:induction false} OtherQuery(m: Message, replies: seq<Option<seq<byte>>>)
    requires m.Valid() && m.questions != [] && m.questions[0].qtype != 1
    requires !SomeHangs(replies) && SomeParsed(replies)
    ensures exists i: nat, packet ::
              LastParsed(replies, i, Some(packet)) && Answered(Encode(m), replies) == Reply(packet)
  {
    hide JsARecords, Gather, QuestionType, Rewrite, Encode;
    TypeOfQuery(m);
    GatherHangs(replies, Gathered([], None));
    GatherIsUnion(replies, Gathered([], None));
    var g := Gather(replies, Gathered([], None)).value;
    var i: nat :| LastParsed(replies, i, g.last);
    assert LastParsed(replies, i, Some(g.last.value));
  }

  /** A query of type A is answered with the last parsed reply, its answers exchanged for all addresses gathered. */
  lemma {:induction false} AddressQuery(query: Message, replies: seq<Option<seq<byte>>>, g: Gathered)
    returns (m: Message, p: seq<byte>)
    requires query.Valid() && query.questions != [] && query.questions[0].qtype == 1
    requires Gather(replies, Gathered([], None)) == Ok(g) && g.last.Some? && |g.all| < 0x1_0000
    requires WellFormed(g.last.value)
    ensures Answered(Encode(query), replies) == Reply(p)
    ensures m.Valid() && exists k: nat :: LastParsed(replies, k, Some(Encode(m)))
    ensures var m' := m.(answers := AnswerRecords(1, 1, ARecords(p))); m'.Valid() && p == Encode(m')
    ensures forall ip :: ip in ARecords(p) <==> exists i: nat, js :: WrittenFrom(replies, i, js, ip)
    ensures AllWellFormed(replies) ==> Distinct(ARecords(p))
    ensures AllWellFormed(replies) ==> forall ip :: ip in ARecords(p) <==> exists i: nat :: ReadFrom(replies, i, ip)
  {
    hide JsARecords, ARecords, Gather, QuestionType, Answered, Encode, WellFormed, AllWellFormed, AnswerRecords;
    TypeOfQuery(query);
    m, p := AnswerIsUnion(Encode(query), replies, g);
  }

  // ---- Both readers on packets of any kind

  lemma {:induction false} ReadersOnAnyFrom(p: seq<byte>, pos: nat, count: nat)
    requires JsAddressesIn(p, pos, count).Ok?
    ensures var js, rs := JsAddressesIn(p, pos, count).value, AddressesIn(p, pos, count);
            FromIps(rs) <= js && |js| <= |rs| + 1
    decreases count
  {
    hide AfterName, JsAfterName, JsAddressesIn, AddressesIn;
    JsAddressesTurn(p, pos, count);
    if count == 0 {
      NoAddressesIn(p, pos);
    } else {
      AddressesTurn(p, pos, count);
      SameName(p, pos);
      var e := AfterName(p, pos).value;
      var end := e + 10 + U16(p[e + 8], p[e + 9]);
      JsAddressesTurn(p, end, count - 1);
      SameName(p, end);
      if end <= |p| {
        ReadersOnAnyFrom(p, end, count - 1);
        FromIpsAppend(AddressAt(p, e), AddressesIn(p, end, count - 1));
        SameAddress(p, e);
      } else {
        AfterNameGrows(p, end);
        assert count == 1;
      }
    }
  }

  lemma SameAddress(p: seq<byte>, e: nat)
    requires e + 10 <= |p| && e + 10 + U16(p[e + 8], p[e + 9]) <= |p|
    ensures JsAddressAt(p, e) == FromIps(AddressAt(p, e))
  {
  }

  /** What an address lacks behind the end of the packet is written as zeros. */
  lemma {:induction false} CutAddress(p: seq<byte>, e: nat)
    requires e + 10 <= |p| && U16(p[e + 8], p[e + 9]) == 4
    ensures ToIps(JsAddressAt(p, e)) == AddressAt(p + [0, 0, 0, 0], e)
  {
    assert forall i :: |p| <= i < |p| + 4 ==> (p + [0, 0, 0, 0])[i] == 0;
  }

  /** Where the worker reads a packet to the end, it reads what the forwarder reads and at most one address more. */
  lemma {:induction false} ReadersOnAny(p: seq<byte>)
    requires |p| >= 12 && JsARecords(p).Ok?
    ensures var js, rs := JsARecords(p).value, ARecords(p); FromIps(rs) <= js && |js| <= |rs| + 1
  {
    hide AfterQuestions, JsAfterQuestions, JsAddressesIn, AddressesIn;
    SameQuestions(p, 12, U16(p[4], p[5]));
    ReadersOnAnyFrom(p, AfterQuestions(p, 12, U16(p[4], p[5])).value, U16(p[6], p[7]));
  }

  /** A packet too short for its counts throws; one whose questions run out hangs. */
  lemma {:induction false} ReaderFails(p: seq<byte>)
    ensures |p| < 8 ==> JsARecords(p) == Throws
    ensures |p| >= 8 && AfterQuestions(p, 12, U16(p[4], p[5])) == None ==> JsARecords(p) == Hangs
  {
    hide JsAfterQuestions;
    if |p| >= 8 {
      SameQuestions(p, 12, U16(p[4], p[5]));
    }
  }
}
