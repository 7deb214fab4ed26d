/** `assets/relay_worker.js`: reading and rewriting answers on the worker side. */
module Worker {
  import opened Bytes
  import opened Wire
  import opened Message
  import opened Answers
  import opened Crafted

  /** A call may never return: an out-of-range read gives `undefined`, and `skipName` then loops on NaN. */
  datatype Js<+T> = Hangs | Throws | Ok(value: T)

  /** A dotted address; an octet read beyond the packet is `undefined`. */
  datatype JsIp = JsIp(a: Option<byte>, b: Option<byte>, c: Option<byte>, d: Option<byte>)

  function Octet(p: seq<byte>, i: nat): Option<byte> {
    if i < |p| then Some(p[i]) else None
  }

  // ---- `skipName`

  function JsAfterName(p: seq<byte>, offset: nat): Js<nat>
    decreases |p| - offset
  {
    if offset >= |p| then Hangs
    else if p[offset] == 0 then Ok(offset + 1)
    else if p[offset] >= 0xC0 then Ok(offset + 2)
    else JsAfterName(p, offset + p[offset] + 1)
  }

  method SkipName(p: seq<byte>, start: nat) returns (r: Js<nat>)
    ensures r == JsAfterName(p, start)
  {
    var offset := start;
    while true
      invariant JsAfterName(p, offset) == JsAfterName(p, start)
      decreases |p| - offset
    {
      if offset >= |p| {
        return Hangs;
      }
      var len := p[offset];
      if len == 0 {
        return Ok(offset + 1);
      }
      if len >= 0xC0 {
        return Ok(offset + 2);
      }
      offset := offset + len + 1;
    }
  }

  /** The worker's name walker is the forwarder's, except that it hangs where the latter gives up. */
  lemma {:induction false} SameName(p: seq<byte>, offset: nat)
    ensures JsAfterName(p, offset) == match AfterName(p, offset) case None => Hangs case Some(e) => Ok(e)
    decreases |p| - offset
  {
    if offset < |p| && 0 < p[offset] < 0xC0 {
      SameName(p, offset + p[offset] + 1);
    }
  }

  function JsAfterQuestions(p: seq<byte>, offset: nat, count: nat): Js<nat>
    decreases count
  {
    if count == 0 then Ok(offset)
    else
      match JsAfterName(p, offset)
      case Hangs => Hangs
      case Throws => Throws
      case Ok(e) => JsAfterQuestions(p, e + 4, count - 1)
  }

  method SkipJsQuestions(p: seq<byte>, start: nat, count: nat) returns (r: Js<nat>)
    ensures r == JsAfterQuestions(p, start, count)
  {
    hide JsAfterName;
    var offset: nat := start;
    for i := 0 to count
      invariant JsAfterQuestions(p, offset, count - i) == JsAfterQuestions(p, start, count)
    {
      var e := SkipName(p, offset);
      if !e.Ok? {
        return e;
      }
      offset := e.value + 4;
    }
    return Ok(offset);
  }

  lemma {:induction false} SameQuestions(p: seq<byte>, offset: nat, count: nat)
    ensures JsAfterQuestions(p, offset, count)
            == match AfterQuestions(p, offset, count) case None => Hangs case Some(e) => Ok(e)
    decreases count
  {
    hide JsAfterName, AfterName;
    SameName(p, offset);
    if count > 0 && AfterName(p, offset).Some? {
      SameQuestions(p, AfterName(p, offset).value + 4, count - 1);
    }
  }

  // ---- `extractARecords`

  /** What is read so far, put in front of what the rest of the loop gives. */
  function Before(ips: seq<JsIp>, r: Js<seq<JsIp>>): Js<seq<JsIp>> {
    match r case Ok(rest) => Ok(ips + rest) case _ => r
  }

  lemma BeforeTwice(a: seq<JsIp>, b: seq<JsIp>, r: Js<seq<JsIp>>)
    ensures Before([], r) == r
    ensures Before(a, Before(b, r)) == Before(a + b, r)
  {
    match r {
      case Ok(rest) =>
        assert [] + rest == rest;
        assert a + (b + rest) == a + b + rest;
      case _ =>
    }
  }

  lemma BeforeFails(ips: seq<JsIp>)
    ensures Before(ips, Hangs) == Hangs && Before(ips, Throws) == Throws && Before(ips, Ok([])) == Ok(ips)
  {
    assert ips + [] == ips;
  }

  function JsAddressAt(p: seq<byte>, e: nat): seq<JsIp>
    requires e + 10 <= |p|
  {
    if U16(p[e], p[e + 1]) == 1 && U16(p[e + 8], p[e + 9]) == 4
    then [JsIp(Octet(p, e + 10), Octet(p, e + 11), Octet(p, e + 12), Octet(p, e + 13))] else []
  }

  /** `getUint16` throws outside the packet; the record data is not checked. */
  function JsAddressesIn(p: seq<byte>, offset: nat, count: nat): Js<seq<JsIp>>
    decreases count
  {
    if count == 0 then Ok([])
    else
      match JsAfterName(p, offset)
      case Hangs => Hangs
      case Throws => Throws
      case Ok(e) =>
        if e + 10 > |p| then Throws
        else Before(JsAddressAt(p, e), JsAddressesIn(p, e + 10 + U16(p[e + 8], p[e + 9]), count - 1))
  }

  function JsARecords(p: seq<byte>): Js<seq<JsIp>> {
    if |p| < 8 then Throws
    else
      match JsAfterQuestions(p, 12, U16(p[4], p[5]))
      case Hangs => Hangs
      case Throws => Throws
      case Ok(q) => JsAddressesIn(p, q, U16(p[6], p[7]))
  }

  lemma JsAddressesTurn(p: seq<byte>, offset: nat, count: nat)
    ensures count == 0 ==> JsAddressesIn(p, offset, count) == Ok([])
    ensures count > 0 ==>
              JsAddressesIn(p, offset, count) ==
              match JsAfterName(p, offset)
              case Hangs => Hangs
              case Throws => Throws
              case Ok(e) =>
                if e + 10 > |p| then Throws
                else Before(JsAddressAt(p, e), JsAddressesIn(p, e + 10 + U16(p[e + 8], p[e + 9]), count - 1))
  {
  }

  method ExtractARecords(p: seq<byte>) returns (r: Js<seq<JsIp>>)
    ensures r == JsARecords(p)
  {
    hide JsAfterName, JsAfterQuestions, JsAddressesIn, Before;
    if |p| < 8 {
      return Throws;
    }
    var q := SkipJsQuestions(p, 12, U16(p[4], p[5]));
    if !q.Ok? {
      return if q.Hangs? then Hangs else Throws;
    }
    var offset: nat := q.value;
    var anCount := U16(p[6], p[7]);
    var ips: seq<JsIp> := [];
    BeforeTwice([], [], JsAddressesIn(p, offset, anCount));
    for i := 0 to anCount
      invariant Before(ips, JsAddressesIn(p, offset, anCount - i)) == JsAddressesIn(p, q.value, anCount)
    {
      JsAddressesTurn(p, offset, anCount - i);
      BeforeFails(ips);
      var name := SkipName(p, offset);
      if !name.Ok? {
        return if name.Hangs? then Hangs else Throws;
      }
      var e := name.value;
      if e + 10 > |p| {
        return Throws;
      }
      var rdlength := U16(p[e + 8], p[e + 9]);
      BeforeTwice(ips, JsAddressAt(p, e), JsAddressesIn(p, e + 10 + rdlength, anCount - i - 1));
      if U16(p[e], p[e + 1]) == 1 && rdlength == 4 {
        ips := ips + [JsIp(Octet(p, e + 10), Octet(p, e + 11), Octet(p, e + 12), Octet(p, e + 13))];
      } else {
        assert ips + JsAddressAt(p, e) == ips;
      }
      offset := e + 10 + rdlength;
    }
    JsAddressesTurn(p, offset, 0);
    BeforeFails(ips);
    return Ok(ips);
  }

  // ---- What the worker reads is what the forwarder reads

  function FromIp(ip: Ip4): JsIp {
    JsIp(Some(ip.a), Some(ip.b), Some(ip.c), Some(ip.d))
  }

  function FromIps(ips: seq<Ip4>): (r: seq<JsIp>)
    ensures |r| == |ips| && forall i :: 0 <= i < |r| ==> r[i] == FromIp(ips[i])
  {
    seq(|ips|, i requires 0 <= i < |ips| => FromIp(ips[i]))
  }

  lemma FromIpsAppend(a: seq<Ip4>, b: seq<Ip4>)
    ensures FromIps(a + b) == FromIps(a) + FromIps(b)
  {
  }

  lemma JsAddressesStep(p: seq<byte>, pos: nat, r: Record, count: nat)
    requires r.Valid() && At(p, pos, EncRecord(r)) && count > 0
    ensures JsAddressesIn(p, pos, count) ==
            Before(FromIps(Addresses([r])), JsAddressesIn(p, pos + |EncRecord(r)|, count - 1))
  {
    hide At, EncRecord, AfterName, AfterRecord, JsAfterName, JsAddressesIn, Before, Addresses;
    var e := RecordParts(p, pos, r);
    SameName(p, pos);
    JsAddressesTurn(p, pos, count);
    assert JsAddressAt(p, e) == FromIps(Addresses([r])) by {
      AddressOfRecord(p, e, r);
    }
  }

  lemma {:induction false} JsAddressesWalk(p: seq<byte>, pos: nat, rs: seq<Record>)
    requires ValidRecords(rs) && At(p, pos, EncRecords(rs))
    ensures JsAddressesIn(p, pos, |rs|) == Ok(FromIps(Addresses(rs)))
    decreases |rs|
  {
    hide At, EncRecord, JsAddressesIn, FromIps;
    JsAddressesTurn(p, pos, 0);
    if rs == [] {
      FromIpsAppend([], []);
    } else {
      AtSplit(p, pos, EncRecord(rs[0]), EncRecords(rs[1..]));
      JsAddressesStep(p, pos, rs[0], |rs|);
      JsAddressesWalk(p, pos + |EncRecord(rs[0])|, rs[1..]);
      AddressesCons(rs[0], rs[1..]);
      assert rs == [rs[0]] + rs[1..];
      FromIpsAppend(Addresses([rs[0]]), Addresses(rs[1..]));
    }
  }

  /** On every encoded message both sides read the same addresses. */
  lemma ReadersAgree(m: Message)
    requires m.Valid()
    ensures JsARecords(Encode(m)) == Ok(FromIps(ARecords(Encode(m))))
    ensures ARecords(Encode(m)) == Addresses(m.answers)
  {
    hide At, EncQuestions, EncRecords, EncBody, Encode, JsAfterQuestions, JsAddressesIn, AfterQuestions, ARecords,
        FromIps;
    var p := Encode(m);
    HeaderAndBody(m);
    Sections(m, p);
    QuestionsWalk(p, 12, m.questions);
    SameQuestions(p, 12, |m.questions|);
    JsAddressesWalk(p, 12 + |EncQuestions(m.questions)|, m.answers);
    ARecordsOfMessage(m);
  }

  // ---- `rewriteAnswersWithIps`

  /** `Number(...)` of an undefined octet is NaN, which a byte array stores as 0. */
  function OctetByte(o: Option<byte>): byte {
    match o case None => 0 case Some(b) => b
  }

  function ToIp(ip: JsIp): Ip4 {
    Ip4(OctetByte(ip.a), OctetByte(ip.b), OctetByte(ip.c), OctetByte(ip.d))
  }

  function ToIps(ips: seq<JsIp>): (r: seq<Ip4>)
    ensures |r| == |ips| && forall i :: 0 <= i < |r| ==> r[i] == ToIp(ips[i])
  {
    seq(|ips|, i requires 0 <= i < |ips| => ToIp(ips[i]))
  }

  /** `buildARecord`. */
  function BuildARecord(ip: JsIp): seq<byte> {
    AnswerBytes([0, 1], [0, 1], ToIp(ip))
  }

  function BuildAll(ips: seq<JsIp>): (r: seq<byte>)
    ensures |r| == 16 * |ips|
  {
    if ips == [] then [] else BuildARecord(ips[0]) + BuildAll(ips[1..])
  }

  /** `slice(from)`, which clamps. */
  function SliceFrom(p: seq<byte>, from: nat): seq<byte> {
    if from > |p| then [] else p[from..]
  }

  function SliceTo(p: seq<byte>, from: nat, to: nat): seq<byte> {
    var to' := if to > |p| then |p| else to;
    if from > to' then [] else p[from..to']
  }

  /** The loop over the old answers. */
  function JsAfterAnswers(p: seq<byte>, offset: nat, count: nat): Js<nat>
    decreases count
  {
    if count == 0 then Ok(offset)
    else
      match JsAfterName(p, offset)
      case Hangs => Hangs
      case Throws => Throws
      case Ok(e) => if e + 10 > |p| then Throws else JsAfterAnswers(p, e + 10 + U16(p[e + 8], p[e + 9]), count - 1)
  }

  method SkipJsAnswers(p: seq<byte>, start: nat, count: nat) returns (r: Js<nat>)
    ensures r == JsAfterAnswers(p, start, count)
  {
    hide JsAfterName;
    var offset: nat := start;
    for i := 0 to count
      invariant JsAfterAnswers(p, offset, count - i) == JsAfterAnswers(p, start, count)
    {
      var name := SkipName(p, offset);
      if !name.Ok? {
        return name;
      }
      if name.value + 10 > |p| {
        return Throws;
      }
      offset := name.value + 10 + U16(p[name.value + 8], p[name.value + 9]);
    }
    return Ok(offset);
  }

  /** The template with its answer section exchanged and ANCOUNT set to match, as far as sixteen bits go. */
  function Rewritten(p: seq<byte>, questionEnd: nat, answersEnd: nat, ips: seq<JsIp>): seq<byte>
    requires |p| >= 12
  {
    WithCount(p[..12], |ips|) + SliceTo(p, 12, questionEnd) + BuildAll(ips) + SliceFrom(p, answersEnd)
  }

  function Rewrite(p: seq<byte>, ips: seq<JsIp>): Js<seq<byte>> {
    if |p| < 12 then Throws
    else
      match JsAfterQuestions(p, 12, U16(p[4], p[5]))
      case Hangs => Hangs
      case Throws => Throws
      case Ok(q) =>
        match JsAfterAnswers(p, q, U16(p[6], p[7]))
        case Hangs => Hangs
        case Throws => Throws
        case Ok(a) => Ok(Rewritten(p, q, a, ips))
  }

  /** `out.set(bytes, pos)`, seen from the part of `out` that is done. */
  method Fill(out: array<byte>, pos: nat, bytes: seq<byte>)
    requires pos + |bytes| <= out.Length
    modifies out
    ensures out[..pos + |bytes|] == old(out[..pos]) + bytes
  {
    for i := 0 to |bytes|
      invariant forall j :: 0 <= j < i ==> out[pos + j] == bytes[j]
      invariant forall j :: 0 <= j < pos ==> out[j] == old(out[j])
    {
      out[pos + i] := bytes[i];
    }
    assert out[..pos] == old(out[..pos]) && out[pos..pos + |bytes|] == bytes;
    assert out[..pos + |bytes|] == out[..pos] + out[pos..pos + |bytes|];
  }

  /** NSCOUNT and ARCOUNT are written back as they were read. */
  method FillHeader(out: array<byte>, template: seq<byte>, count: nat)
    requires |template| >= 12 && out.Length >= 12
    modifies out
    ensures out[..12] == WithCount(template[..12], count)
  {
    Fill(out, 0, template[..12]);
    assert forall i :: 0 <= i < 12 ==> out[i] == out[..12][i] == template[i];
    out[6], out[7] := Low16(count) / 256, Low16(count) % 256;
    out[8], out[9] := template[8], template[9];
    out[10], out[11] := template[10], template[11];
  }

  method FillAnswers(out: array<byte>, start: nat, ips: seq<JsIp>)
    requires start + 16 * |ips| <= out.Length
    modifies out
    ensures out[..start + 16 * |ips|] == old(out[..start]) + BuildAll(ips)
  {
    hide BuildARecord;
    var pos := start;
    assert ips[0..] == ips;
    for i := 0 to |ips|
      invariant pos == start + 16 * i
      invariant out[..pos] + BuildAll(ips[i..]) == old(out[..start]) + BuildAll(ips)
    {
      ghost var done := out[..pos];
      assert |BuildARecord(ips[i])| == 16;
      assert ips[i..][1..] == ips[i + 1..];
      Fill(out, pos, BuildARecord(ips[i]));
      pos := pos + 16;
      assert done + (BuildARecord(ips[i]) + BuildAll(ips[i + 1..])) == out[..pos] + BuildAll(ips[i + 1..]);
    }
    assert out[..pos] + [] == out[..pos];
  }

  method RewriteAnswersWithIps(template: seq<byte>, ips: seq<JsIp>) returns (r: Js<seq<byte>>)
    ensures r == Rewrite(template, ips)
  {
    hide JsAfterName, JsAfterQuestions, JsAfterAnswers, BuildAll, WithCount;
    if |template| < 12 {
      return Throws;
    }
    var q := SkipJsQuestions(template, 12, U16(template[4], template[5]));
    if !q.Ok? {
      return if q.Hangs? then Hangs else Throws;
    }
    var a := SkipJsAnswers(template, q.value, U16(template[6], template[7]));
    if !a.Ok? {
      return if a.Hangs? then Hangs else Throws;
    }
    var question, tail := SliceTo(template, 12, q.value), SliceFrom(template, a.value);
    var total := 12 + |question| + 16 * |ips| + |tail|;
    var out := new byte[total](i => 0);
    FillHeader(out, template, |ips|);
    Fill(out, 12, question);
    FillAnswers(out, 12 + |question|, ips);
    Fill(out, 12 + |question| + 16 * |ips|, tail);
    assert out[..] == out[..total];
    return Ok(out[..]);
  }

  // ---- Writer and readers agree

  ghost function Built(ips: seq<JsIp>): (rs: seq<Record>)
    ensures |rs| == |ips| && ValidRecords(rs)
  {
    AnswerRecords(1, 1, ToIps(ips))
  }

  lemma {:induction false} BuiltAreRecords(ips: seq<JsIp>)
    ensures BuildAll(ips) == EncRecords(Built(ips))
  {
    hide EncRecord, AnswerBytes;
    if ips != [] {
      BuiltAreRecords(ips[1..]);
      assert Be16(1) == [0, 1];
      AnswerIsRecord(1, 1, ToIp(ips[0]));
      assert Built(ips)[1..] == Built(ips[1..]);
    }
  }

  lemma {:induction false} JsAnswersWalk(p: seq<byte>, pos: nat, rs: seq<Record>)
    requires ValidRecords(rs) && At(p, pos, EncRecords(rs))
    ensures JsAfterAnswers(p, pos, |rs|) == Ok(pos + |EncRecords(rs)|)
    decreases |rs|
  {
    hide At, EncRecord, AfterName, AfterRecord, JsAfterName;
    if rs != [] {
      AtSplit(p, pos, EncRecord(rs[0]), EncRecords(rs[1..]));
      var _ := RecordParts(p, pos, rs[0]);
      SameName(p, pos);
      JsAnswersWalk(p, pos + |EncRecord(rs[0])|, rs[1..]);
    }
  }

  /** The rewriter finds the borders of the question and answer sections. */
  lemma RewriteFindsBorders(m: Message, ips: seq<JsIp>)
    requires m.Valid()
    ensures var q := 12 + |EncQuestions(m.questions)|;
            |Encode(m)| >= q + |EncRecords(m.answers)|
            && Rewrite(Encode(m), ips) == Ok(Rewritten(Encode(m), q, q + |EncRecords(m.answers)|, ips))
  {
    hide At, EncQuestions, EncRecords, EncBody, Encode, JsAfterQuestions, JsAfterAnswers, AfterQuestions, Rewritten;
    var p := Encode(m);
    HeaderAndBody(m);
    Sections(m, p);
    QuestionsWalk(p, 12, m.questions);
    SameQuestions(p, 12, |m.questions|);
    JsAnswersWalk(p, 12 + |EncQuestions(m.questions)|, m.answers);
  }

  lemma Slices(h: seq<byte>, q: seq<byte>, a: seq<byte>, tail: seq<byte>)
    ensures var p := h + (q + (a + tail));
            && p[..|h|] == h && SliceTo(p, |h|, |h| + |q|) == q && SliceFrom(p, |h| + |q| + |a|) == tail
  {
    var p := h + (q + (a + tail));
    assert p[|h|..] == q + (a + tail);
    assert p[|h| + |q|..] == a + tail;
    assert p[|h| + |q| + |a|..] == tail;
  }

  lemma Borders(h: seq<byte>, q: seq<byte>, a: seq<byte>, tail: seq<byte>, ips: seq<JsIp>)
    requires |h| == 12
    ensures Rewritten(h + (q + (a + tail)), 12 + |q|, 12 + |q| + |a|, ips) ==
            WithCount(h, |ips|) + (q + (BuildAll(ips) + tail))
  {
    hide BuildAll, WithCount, SliceTo, SliceFrom, Rewritten;
    var p := h + (q + (a + tail));
    Slices(h, q, a, tail);
    RewrittenParts(p, h, q, tail, 12 + |q|, 12 + |q| + |a|, ips);
    Regroup(WithCount(h, |ips|), q, BuildAll(ips), tail);
  }

  lemma RewrittenParts(p: seq<byte>, h: seq<byte>, q: seq<byte>, tail: seq<byte>, questionEnd: nat, answersEnd: nat,
      ips: seq<JsIp>)
    requires |p| >= 12 && p[..12] == h && SliceTo(p, 12, questionEnd) == q && SliceFrom(p, answersEnd) == tail
    ensures Rewritten(p, questionEnd, answersEnd, ips) == WithCount(h, |ips|) + q + BuildAll(ips) + tail
  {
    hide BuildAll, WithCount, SliceTo, SliceFrom;
  }

  lemma Regroup(a: seq<byte>, b: seq<byte>, c: seq<byte>, d: seq<byte>)
    ensures a + b + c + d == a + (b + (c + d))
  {
  }

  /** Rewriting an encoded message exchanges its answers and keeps everything else byte for byte. */
  lemma {:induction false} RewriteCommutes(m: Message, ips: seq<JsIp>)
    requires m.Valid() && |ips| < 0x1_0000
    ensures m.(answers := Built(ips)).Valid()
    ensures Rewrite(Encode(m), ips) == Ok(Encode(m.(answers := Built(ips))))
  {
    hide EncQuestions, EncRecords, BuildAll, Rewrite, WithCount, EncHeader, Rewritten, Built;
    RewriteFindsBorders(m, ips);
    var h := EncHeader(m.head, |m.questions|, |m.answers|, |m.authority|, |m.additional|);
    var q, tail := EncQuestions(m.questions), EncRecords(m.authority) + EncRecords(m.additional);
    Borders(h, q, EncRecords(m.answers), tail, ips);
    BuiltAreRecords(ips);
    HeaderRecounted(m, |ips|);
  }

  lemma HeaderRecounted(m: Message, n: nat)
    requires m.Valid() && n < 0x1_0000
    ensures WithCount(EncHeader(m.head, |m.questions|, |m.answers|, |m.authority|, |m.additional|), n) ==
            EncHeader(m.head, |m.questions|, n, |m.authority|, |m.additional|)
  {
  }

  lemma {:induction false} NoMoreThanCount(buf: seq<byte>, pos: nat, count: nat)
    ensures |AddressesIn(buf, pos, count)| <= count
    decreases count
  {
    hide AfterName;
    if count > 0 && AfterName(buf, pos).Some? {
      var e := AfterName(buf, pos).value;
      if e + 10 <= |buf| && e + 10 + U16(buf[e + 8], buf[e + 9]) <= |buf| {
        NoMoreThanCount(buf, e + 10 + U16(buf[e + 8], buf[e + 9]), count - 1);
      }
    }
  }

  lemma WriterAndReaderOn(m: Message, ips: seq<JsIp>)
    requires m.Valid()
    ensures Rewrite(Encode(m), ips).Ok?
    ensures ARecords(Rewrite(Encode(m), ips).value) == ToIps(ips) <==> |ips| < 0x1_0000
    ensures |ips| < 0x1_0000 ==> JsARecords(Rewrite(Encode(m), ips).value) == Ok(FromIps(ToIps(ips)))
  {
    hide Rewrite, Encode, JsARecords, ARecords, Addresses, Rewritten, AddressesIn, AfterQuestions;
    RewriteFindsBorders(m, ips);
    if |ips| < 0x1_0000 {
      RewriteCommutes(m, ips);
      ReadersAgree(m.(answers := Built(ips)));
      AddressesOfAnswers(1, 1, ToIps(ips));
    } else {
      TooManyAnswers(m, ips);
    }
  }

  lemma TooManyAnswers(m: Message, ips: seq<JsIp>)
    requires m.Valid()
    ensures Rewrite(Encode(m), ips).Ok?
    ensures |ARecords(Rewrite(Encode(m), ips).value)| <= Low16(|ips|)
  {
    hide Encode, Rewrite, BuildAll, AddressesIn, AfterQuestions, EncQuestions, EncRecords;
    HeaderAndBody(m);
    RewriteFindsBorders(m, ips);
    var p := Rewrite(Encode(m), ips).value;
    assert |p| >= 12 && U16(p[6], p[7]) == Low16(|ips|);
    match AfterQuestions(p, 12, U16(p[4], p[5]))
    case None =>
    case Some(q) => NoMoreThanCount(p, q, Low16(|ips|));
  }

  /** The forwarder reads back exactly the list the worker wrote, if and only if the list fits the answer count. */
  lemma {:induction false} WriterAndReader(template: seq<byte>, ips: seq<JsIp>)
    requires WellFormed(template)
    ensures Rewrite(template, ips).Ok?
    ensures ARecords(Rewrite(template, ips).value) == ToIps(ips) <==> |ips| < 0x1_0000
    ensures |ips| < 0x1_0000 ==> JsARecords(Rewrite(template, ips).value) == Ok(FromIps(ToIps(ips)))
  {
    hide WellFormed, JsARecords, ARecords, Encode, Rewrite, ToIps, FromIps;
    var m := DecodeWellFormed(template);
    WriterAndReaderOn(m, ips);
  }

  // ---- The union over all replies in `fetch`

  /** `allIps.add` for each address: a set in insertion order. */
  function AddAll(all: seq<JsIp>, ips: seq<JsIp>): seq<JsIp>
    decreases |ips|
  {
    if ips == [] then all
    else AddAll(if ips[0] in all then all else all + [ips[0]], ips[1..])
  }

  datatype Gathered = Gathered(all: seq<JsIp>, last: Option<seq<byte>>)

  /** Failed replies are passed over, replies that throw are passed over, and one that hangs hangs the worker. */
  function Gather(replies: seq<Option<seq<byte>>>, sofar: Gathered): Js<Gathered>
    decreases |replies|
  {
    if replies == [] then Ok(sofar)
    else if replies[0].None? then Gather(replies[1..], sofar)
    else
      match JsARecords(replies[0].value)
      case Hangs => Hangs
      case Throws => Gather(replies[1..], sofar)
      case Ok(ips) => Gather(replies[1..], Gathered(AddAll(sofar.all, ips), replies[0]))
  }

  method AddToSet(start: seq<JsIp>, ips: seq<JsIp>) returns (all: seq<JsIp>)
    ensures all == AddAll(start, ips)
  {
    all := start;
    assert ips[0..] == ips;
    for i := 0 to |ips|
      invariant AddAll(all, ips[i..]) == AddAll(start, ips)
    {
      assert ips[i..][1..] == ips[i + 1..];
      if ips[i] !in all {
        all := all + [ips[i]];
      }
    }
  }

  method GatherReplies(replies: seq<Option<seq<byte>>>) returns (r: Js<Gathered>)
    ensures r == Gather(replies, Gathered([], None))
  {
    hide JsARecords, AddAll;
    var all: seq<JsIp> := [];
    var last: Option<seq<byte>> := None;
    assert replies[0..] == replies;
    for i := 0 to |replies|
      invariant Gather(replies[i..], Gathered(all, last)) == Gather(replies, Gathered([], None))
    {
      assert replies[i..][1..] == replies[i + 1..];
      if replies[i].Some? {
        var ips := ExtractARecords(replies[i].value);
        if ips.Hangs? {
          return Hangs;
        }
        if ips.Ok? {
          last := replies[i];
          all := AddToSet(all, ips.value);
        }
      }
    }
    return Ok(Gathered(all, last));
  }

  ghost predicate Distinct<T>(s: seq<T>) {
    forall i, j :: 0 <= i < j < |s| ==> s[i] != s[j]
  }

  lemma {:induction false} AddAllIsUnion(all: seq<JsIp>, ips: seq<JsIp>)
    requires Distinct(all)
    ensures Distinct(AddAll(all, ips)) && all <= AddAll(all, ips)
    ensures forall ip :: ip in AddAll(all, ips) <==> ip in all || ip in ips
    decreases |ips|
  {
    if ips != [] {
      AddAllIsUnion(if ips[0] in all then all else all + [ips[0]], ips[1..]);
    }
  }

  /** The reply at `i` arrived and parsed. */
  ghost predicate Parsed(replies: seq<Option<seq<byte>>>, i: nat) {
    i < |replies| && replies[i].Some? && JsARecords(replies[i].value).Ok?
  }

  ghost predicate LastParsed(replies: seq<Option<seq<byte>>>, i: nat, last: Option<seq<byte>>) {
    Parsed(replies, i) && last == replies[i] && forall j: nat :: j > i ==> !Parsed(replies, j)
  }

  ghost predicate ParsedWith(replies: seq<Option<seq<byte>>>, i: nat, ip: JsIp) {
    Parsed(replies, i) && ip in JsARecords(replies[i].value).value
  }

  /** What is sent is the union over exactly the replies that parsed, and the template is the last of them. */
  lemma {:induction false} GatherIsUnion(replies: seq<Option<seq<byte>>>, sofar: Gathered)
    requires Distinct(sofar.all) && Gather(replies, sofar).Ok?
    ensures var g := Gather(replies, sofar).value;
            && Distinct(g.all)
            && (forall ip :: ip in g.all <==> ip in sofar.all || exists i: nat :: ParsedWith(replies, i, ip))
            && ((g.last == sofar.last && forall i: nat :: !Parsed(replies, i))
                || exists i: nat :: LastParsed(replies, i, g.last))
    decreases |replies|
  {
    hide JsARecords, AddAll;
    if replies != [] {
      var rest := replies[1..];
      var next := if replies[0].Some? && JsARecords(replies[0].value).Ok?
                  then Gathered(AddAll(sofar.all, JsARecords(replies[0].value).value), replies[0]) else sofar;
      if Parsed(replies, 0) {
        AddAllIsUnion(sofar.all, JsARecords(replies[0].value).value);
      }
      GatherIsUnion(rest, next);
      assert forall i: nat :: Parsed(replies[1..], i) <==> Parsed(replies, i + 1);
      var g := Gather(replies, sofar).value;
      forall ip
        ensures ip in g.all <==> ip in sofar.all || exists i: nat :: ParsedWith(replies, i, ip)
      {
        if exists i: nat :: ParsedWith(replies, i, ip) {
          var i: nat :| ParsedWith(replies, i, ip);
          if i > 0 {
            assert ParsedWith(rest, i - 1, ip);
          }
        }
        if ip in g.all && ip !in next.all {
          var i: nat :| ParsedWith(rest, i, ip);
          assert ParsedWith(replies, i + 1, ip);
        } else if ip in next.all && ip !in sofar.all {
          assert ParsedWith(replies, 0, ip);
        }
      }
      if exists i: nat :: LastParsed(rest, i, g.last) {
        var i: nat :| LastParsed(rest, i, g.last);
        LastShifts(replies, i + 1, g.last);
      } else if Parsed(replies, 0) {
        LastShifts(replies, 0, g.last);
      } else {
        forall i: nat
          ensures !Parsed(replies, i)
        {
          if i > 0 {
            assert !Parsed(rest, i - 1);
          }
        }
      }
    }
  }

  lemma LastShifts(replies: seq<Option<seq<byte>>>, i: nat, last: Option<seq<byte>>)
    requires Parsed(replies, i) && last == replies[i]
    requires forall j: nat :: j + 1 > i ==> !Parsed(replies[1..], j)
    ensures LastParsed(replies, i, last)
  {
    forall j: nat | j > i
      ensures !Parsed(replies, j)
    {
      assert !Parsed(replies[1..], j - 1);
    }
  }

  // ---- The whole of `fetch` after decryption

  datatype Answer = NoAnswer | Status(code: nat) | Reply(packet: seq<byte>)

  /** `getQuestionType`; bytes beyond the packet count as zero. */
  function QuestionType(q: seq<byte>): Js<nat> {
    match JsAfterName(q, 12)
    case Hangs => Hangs
    case Throws => Throws
    case Ok(e) => Ok(U16(OctetByte(Octet(q, e)), OctetByte(Octet(q, e + 1))))
  }

  function Answered(query: seq<byte>, replies: seq<Option<seq<byte>>>): Answer {
    match QuestionType(query)
    case Hangs => NoAnswer
    case Throws => Status(500)
    case Ok(qtype) =>
      match Gather(replies, Gathered([], None))
      case Hangs => NoAnswer
      case Throws => Status(500)
      case Ok(g) =>
        if g.last.None? then Status(502)
        else if qtype != 1 then Reply(g.last.value)
        else
          match Rewrite(g.last.value, g.all)
          case Hangs => NoAnswer
          case Throws => Status(500)
          case Ok(p) => Reply(p)
  }

  method Fetch(query: seq<byte>, replies: seq<Option<seq<byte>>>) returns (r: Answer)
    ensures r == Answered(query, replies)
  {
    hide JsAfterName, Gather, Rewrite;
    var name := SkipName(query, 12);
    if !name.Ok? {
      return if name.Hangs? then NoAnswer else Status(500);
    }
    var qtype := U16(OctetByte(Octet(query, name.value)), OctetByte(Octet(query, name.value + 1)));
    var g := GatherReplies(replies);
    if !g.Ok? {
      return if g.Hangs? then NoAnswer else Status(500);
    }
    if g.value.last.None? {
      return Status(502);
    }
    if qtype != 1 {
      return Reply(g.value.last.value);
    }
    var p := RewriteAnswersWithIps(g.value.last.value, g.value.all);
    match p {
      case Hangs => return NoAnswer;
      case Throws => return Status(500);
      case Ok(packet) => return Reply(packet);
    }
  }

  ghost predicate ReadFrom(replies: seq<Option<seq<byte>>>, i: nat, ip: Ip4) {
    Parsed(replies, i) && ip in ARecords(replies[i].value)
  }

  /** The worker read `js` from reply `i`, and writes it as `ip`. */
  ghost predicate WrittenFrom(replies: seq<Option<seq<byte>>>, i: nat, js: JsIp, ip: Ip4) {
    ParsedWith(replies, i, js) && ToIp(js) == ip
  }

  ghost predicate AllWellFormed(replies: seq<Option<seq<byte>>>) {
    forall i: nat :: Parsed(replies, i) ==> WellFormed(replies[i].value)
  }

  /**
   * For an address query whose template is well formed, the reader of the answer finds exactly the addresses that
   * the worker read from some parsed reply, and the rest of the packet is the template, the last parsed reply. If
   * the other parsed replies are well formed too, these are the addresses that `parse_a_records` finds in some
   * parsed reply, each once.
   */
  lemma {:induction false} AnswerIsUnion(query: seq<byte>, replies: seq<Option<seq<byte>>>, g: Gathered)
    returns (m: Message, p: seq<byte>)
    requires QuestionType(query) == Ok(1)
    requires Gather(replies, Gathered([], None)) == Ok(g) && g.last.Some? && |g.all| < 0x1_0000
    requires WellFormed(g.last.value)
    ensures Answered(query, replies) == Reply(p)
    ensures m.Valid() && exists k: nat :: LastParsed(replies, k, Some(Encode(m)))
    ensures var m' := m.(answers := AnswerRecords(1, 1, ARecords(p))); m'.Valid() && p == Encode(m')
    ensures Distinct(g.all) && ARecords(p) == ToIps(g.all)
    ensures forall ip :: ip in ARecords(p) <==> exists i: nat, js :: WrittenFrom(replies, i, js, ip)
    ensures AllWellFormed(replies) ==> Distinct(ARecords(p))
    ensures AllWellFormed(replies) ==> forall ip :: ip in ARecords(p) <==> exists i: nat :: ReadFrom(replies, i, ip)
  {
    hide WellFormed, Gather, JsARecords, ARecords, Rewrite, Encode, AnswerRecords, QuestionType, AllWellFormed;
    hide ToIps;
    GatherIsUnion(replies, Gathered([], None));
    var k: nat :| LastParsed(replies, k, g.last);
    m := DecodeWellFormed(g.last.value);
    RewriteCommutes(m, g.all);
    WriterAndReaderOn(m, g.all);
    p := Rewrite(Encode(m), g.all).value;
    WrittenAre(replies, g.all);
    if AllWellFormed(replies) {
      ReadByBoth(replies, g.all);
      UnionOfIps(replies, g.all);
    }
  }

  lemma WrittenAre(replies: seq<Option<seq<byte>>>, all: seq<JsIp>)
    requires forall js :: js in all <==> exists i: nat :: ParsedWith(replies, i, js)
    ensures forall ip :: ip in ToIps(all) <==> exists i: nat, js :: WrittenFrom(replies, i, js, ip)
  {
    hide JsARecords;
    var ips := ToIps(all);
    forall ip
      ensures ip in ips <==> exists i: nat, js :: WrittenFrom(replies, i, js, ip)
    {
      if ip in ips {
        var k :| 0 <= k < |ips| && ips[k] == ip;
        assert all[k] in all;
        var i: nat :| ParsedWith(replies, i, all[k]);
        assert WrittenFrom(replies, i, all[k], ip);
      }
      if exists i: nat, js :: WrittenFrom(replies, i, js, ip) {
        var i: nat, js :| WrittenFrom(replies, i, js, ip);
        assert js in all;
        var k :| 0 <= k < |all| && all[k] == js;
        assert ips[k] == ip;
      }
    }
  }

  lemma ReadByBoth(replies: seq<Option<seq<byte>>>, all: seq<JsIp>)
    requires AllWellFormed(replies) && forall js :: js in all <==> exists i: nat :: ParsedWith(replies, i, js)
    ensures forall i: nat :: Parsed(replies, i) ==>
            JsARecords(replies[i].value).value == FromIps(ARecords(replies[i].value))
    ensures forall ip <- all :: ip == FromIp(ToIp(ip))
  {
    hide WellFormed, JsARecords, ARecords, Encode;
    forall i: nat | Parsed(replies, i)
      ensures JsARecords(replies[i].value).value == FromIps(ARecords(replies[i].value))
    {
      var mi := DecodeWellFormed(replies[i].value);
      ReadersAgree(mi);
    }
    forall ip <- all
      ensures ip == FromIp(ToIp(ip))
    {
      var i: nat :| ParsedWith(replies, i, ip);
      var j :| 0 <= j < |FromIps(ARecords(replies[i].value))| && FromIps(ARecords(replies[i].value))[j] == ip;
    }
  }

  lemma UnionOfIps(replies: seq<Option<seq<byte>>>, all: seq<JsIp>)
    requires Distinct(all) && forall ip <- all :: ip == FromIp(ToIp(ip))
    requires forall ip :: ip in all <==> exists i: nat :: ParsedWith(replies, i, ip)
    requires forall i: nat :: Parsed(replies, i) ==>
            JsARecords(replies[i].value).value == FromIps(ARecords(replies[i].value))
    ensures Distinct(ToIps(all))
    ensures forall ip :: ip in ToIps(all) <==> exists i: nat :: ReadFrom(replies, i, ip)
  {
    hide JsARecords, ARecords;
    var ips := ToIps(all);
    assert forall k :: 0 <= k < |all| ==> all[k] in all && FromIp(ips[k]) == all[k];
    forall ip
      ensures ip in ips <==> exists i: nat :: ReadFrom(replies, i, ip)
    {
      if ip in ips {
        var k :| 0 <= k < |ips| && ips[k] == ip;
        var i: nat :| ParsedWith(replies, i, all[k]);
        var rs := ARecords(replies[i].value);
        var j :| 0 <= j < |FromIps(rs)| && FromIps(rs)[j] == all[k];
        assert rs[j] == ip;
        assert ReadFrom(replies, i, ip);
      }
      if exists i: nat :: ReadFrom(replies, i, ip) {
        var i: nat :| ReadFrom(replies, i, ip);
        var rs := ARecords(replies[i].value);
        var j :| 0 <= j < |rs| && rs[j] == ip;
        assert FromIps(rs)[j] == FromIp(ip);
        assert ParsedWith(replies, i, FromIp(ip));
        assert FromIp(ip) in all;
        var k :| 0 <= k < |all| && all[k] == FromIp(ip);
        assert ips[k] == ip;
      }
    }
  }
}
