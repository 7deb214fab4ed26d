/** Packets the forwarder makes itself: redirect answers, lookup queries, and the ID rewrite. */
module Crafted {
  import opened Bytes
  import opened Strings
  import opened Wire
  import opened Message
  import opened Names
  import opened Answers

  // ---- `str::parse::<Ipv4Addr>`

  function Digit(b: byte): Option<nat> {
    if 48 <= b <= 57 then Some(b - 48) else None
  }

  /** One to three digits, no leading zero, at most 255. */
  function ParseOctet(t: Text): Option<byte> {
    if |t| == 0 || |t| > 3 || (|t| > 1 && t[0] == 48) then None
    else
      match Value(t)
      case None => None
      case Some(v) => if v > 255 then None else Some(v)
  }

  function Value(t: Text): Option<nat>
    decreases |t|
  {
    if t == [] then Some(0)
    else
      match (Value(t[..|t| - 1]), Digit(t[|t| - 1]))
      case (Some(v), Some(d)) => Some(10 * v + d)
      case _ => None
  }

  function ParseIp(t: Text): Option<Ip4> {
    var parts := Split(t, DOT);
    if |parts| != 4 then None
    else
      match (ParseOctet(parts[0]), ParseOctet(parts[1]), ParseOctet(parts[2]), ParseOctet(parts[3]))
      case (Some(a), Some(b), Some(c), Some(d)) => Some(Ip4(a, b, c, d))
      case _ => None
  }

  /** `filter_map(|ip| ip.parse().ok())`. */
  function ValidIps(texts: seq<Text>): seq<Ip4> {
    if texts == [] then []
    else (match ParseIp(texts[0]) case Some(ip) => [ip] case None => []) + ValidIps(texts[1..])
  }

  // ---- `craft_redirect_response`

  /** Name at offset 12, the type and class of the question, 60 seconds, four octets. */
  function AnswerBytes(qtype: seq<byte>, qclass: seq<byte>, ip: Ip4): seq<byte> {
    [0xC0, 0x0C] + qtype + qclass + [0, 0, 0, 60] + [0, 4] + [ip.a, ip.b, ip.c, ip.d]
  }

  function AllAnswerBytes(qtype: seq<byte>, qclass: seq<byte>, ips: seq<Ip4>): seq<byte> {
    if ips == [] then [] else AnswerBytes(qtype, qclass, ips[0]) + AllAnswerBytes(qtype, qclass, ips[1..])
  }

  /** QR, RD and RA set, no error. */
  function Flagged(payload: seq<byte>): (r: seq<byte>)
    requires |payload| >= 12
    ensures |r| == |payload|
  {
    payload[2 := 0x81][3 := 0x80]
  }

  function WithCount(p: seq<byte>, count: nat): (r: seq<byte>)
    requires |p| >= 12
    ensures |r| == |p| && U16(r[6], r[7]) == Low16(count)
    ensures forall i :: 0 <= i < |p| && i != 6 && i != 7 ==> r[i] == p[i]
  {
    p[6 := Low16(count) / 256][7 := Low16(count) % 256]
  }

  function Redirect(payload: seq<byte>, qnameEnd: nat, texts: seq<Text>): Option<seq<byte>> {
    var ips := ValidIps(texts);
    if |payload| < 12 || qnameEnd + 4 > |payload| || ips == [] then None
    else
      var p := Flagged(payload);
      Some(WithCount(p, |ips|) + AllAnswerBytes(p[qnameEnd..qnameEnd + 2], p[qnameEnd + 2..qnameEnd + 4], ips))
  }

  method FilterIps(texts: seq<Text>) returns (ips: seq<Ip4>)
    ensures ips == ValidIps(texts)
  {
    hide ParseIp;
    ips := [];
    assert texts[0..] == texts;
    for i := 0 to |texts|
      invariant ips + ValidIps(texts[i..]) == ValidIps(texts)
    {
      assert texts[i..][1..] == texts[i + 1..];
      match ParseIp(texts[i]) {
        case Some(ip) => ips := ips + [ip];
        case None =>
          assert ValidIps(texts[i..]) == ValidIps(texts[i + 1..]);
      }
    }
  }

  method CraftRedirectResponse(payload: seq<byte>, qnameEnd: nat, texts: seq<Text>) returns (r: Option<seq<byte>>)
    ensures r == Redirect(payload, qnameEnd, texts)
  {
    hide ValidIps, AnswerBytes;
    var resp := payload;
    if |resp| < 12 {
      return None;
    }
    resp := resp[2 := 0x81];
    resp := resp[3 := 0x80];
    if qnameEnd + 4 > |resp| {
      return None;
    }
    var qtype := resp[qnameEnd..qnameEnd + 2];
    var qclass := resp[qnameEnd + 2..qnameEnd + 4];
    var ips := FilterIps(texts);
    if |ips| == 0 {
      return None;
    }
    var ancount := Low16(|ips|);
    resp := resp[6 := ancount / 256];
    resp := resp[7 := ancount % 256];
    assert resp == WithCount(Flagged(payload), |ips|);
    ghost var head := resp;
    assert ips[0..] == ips;
    for i := 0 to |ips|
      invariant resp + AllAnswerBytes(qtype, qclass, ips[i..]) == head + AllAnswerBytes(qtype, qclass, ips)
    {
      assert ips[i..][1..] == ips[i + 1..];
      ghost var before := resp;
      resp := resp + AnswerBytes(qtype, qclass, ips[i]);
      assert before + (AnswerBytes(qtype, qclass, ips[i]) + AllAnswerBytes(qtype, qclass, ips[i + 1..]))
          == resp + AllAnswerBytes(qtype, qclass, ips[i + 1..]);
    }
    assert resp + [] == resp;
    return Some(resp);
  }

  // ---- The redirect round trip

  /** An appended answer as a record: its name points at the question. */
  ghost function AnswerRecord(qtype: u16, qclass: u16, ip: Ip4): Record {
    Record(Name([], Pointer(0xC0, 0x0C)), qtype, qclass, [0, 0, 0, 60], [ip.a, ip.b, ip.c, ip.d])
  }

  ghost function AnswerRecords(qtype: u16, qclass: u16, ips: seq<Ip4>): (rs: seq<Record>)
    ensures |rs| == |ips| && ValidRecords(rs) && forall i :: 0 <= i < |rs| ==>
            rs[i] == AnswerRecord(qtype, qclass, ips[i])
  {
    seq(|ips|, i requires 0 <= i < |ips| => AnswerRecord(qtype, qclass, ips[i]))
  }

  lemma AnswerIsRecord(qtype: u16, qclass: u16, ip: Ip4)
    ensures AnswerRecord(qtype, qclass, ip).Valid()
    ensures AnswerBytes(Be16(qtype), Be16(qclass), ip) == EncRecord(AnswerRecord(qtype, qclass, ip))
  {
    var r := AnswerRecord(qtype, qclass, ip);
    EncNameNil(r.name);
    assert EncName(r.name) == [0xC0, 0x0C];
    assert Be16(|r.rdata|) == [0, 4];
  }

  lemma {:induction false} AnswersAreRecords(qtype: u16, qclass: u16, ips: seq<Ip4>)
    ensures AllAnswerBytes(Be16(qtype), Be16(qclass), ips) == EncRecords(AnswerRecords(qtype, qclass, ips))
  {
    hide EncRecord, AnswerBytes;
    if ips != [] {
      AnswerIsRecord(qtype, qclass, ips[0]);
      AnswersAreRecords(qtype, qclass, ips[1..]);
      assert AnswerRecords(qtype, qclass, ips)[1..] == AnswerRecords(qtype, qclass, ips[1..]);
    }
  }

  lemma {:induction false} AddressesOfAnswers(qtype: u16, qclass: u16, ips: seq<Ip4>)
    ensures Addresses(AnswerRecords(qtype, qclass, ips)) == if qtype == A_TYPE then ips else []
  {
    if ips != [] {
      AddressesOfAnswers(qtype, qclass, ips[1..]);
      assert AnswerRecords(qtype, qclass, ips)[1..] == AnswerRecords(qtype, qclass, ips[1..]);
      assert ips == [ips[0]] + ips[1..];
    }
  }

  /** The packet is a header and one question, and the question name ends at `qnameEnd`. */
  predicate PlainQuery(payload: seq<byte>, qnameEnd: nat) {
    && |payload| >= 12 && U16(payload[4], payload[5]) == 1
    && LocalEnd(payload, 12) == Some(qnameEnd) && |payload| == qnameEnd + 4
  }

  /** The local end of a name depends only on the bytes from its start on, given room. */
  lemma {:induction false} LocalEndSame(p: seq<byte>, q: seq<byte>, pos: nat)
    requires pos <= |p| <= |q| && forall i :: pos <= i < |p| ==> p[i] == q[i]
    ensures LocalEnd(p, pos).Some? ==> LocalEnd(q, pos) == LocalEnd(p, pos)
    decreases |p| - pos
  {
    hide ValidUtf8;
    if pos < |p| && 0 < p[pos] < 0xC0 && pos + 1 + p[pos] <= |p| {
      var next := pos + 1 + p[pos];
      assert p[pos + 1..next] == q[pos + 1..next];
      LocalEndSame(p, q, next);
    }
  }

  /** The crafted response as the readers see it: the same question, then the answer records. */
  lemma RedirectShape(payload: seq<byte>, qnameEnd: nat, texts: seq<Text>)
    requires PlainQuery(payload, qnameEnd) && ValidIps(texts) != []
    ensures var qtype := U16(payload[qnameEnd], payload[qnameEnd + 1]);
            var qclass := U16(payload[qnameEnd + 2], payload[qnameEnd + 3]);
            var r := Redirect(payload, qnameEnd, texts);
            && r.Some? && |r.value| >= 12 && U16(r.value[4], r.value[5]) == 1
            && U16(r.value[6], r.value[7]) == Low16(|ValidIps(texts)|)
            && LocalEnd(r.value, 12) == Some(qnameEnd)
            && At(r.value, qnameEnd + 4, EncRecords(AnswerRecords(qtype, qclass, ValidIps(texts))))
  {
    hide At, LocalEnd, ValidIps, EncRecords, AllAnswerBytes;
    LocalEndIsSkip(payload, 12, qnameEnd);
    AfterNameGrows(payload, 12);
    var ips := ValidIps(texts);
    var p := Flagged(payload);
    var h := WithCount(p, |ips|);
    var t, c := p[qnameEnd..qnameEnd + 2], p[qnameEnd + 2..qnameEnd + 4];
    Be16OfU16(payload[qnameEnd], payload[qnameEnd + 1]);
    Be16OfU16(payload[qnameEnd + 2], payload[qnameEnd + 3]);
    var qtype, qclass := U16(t[0], t[1]), U16(c[0], c[1]);
    assert t == Be16(qtype) && c == Be16(qclass);
    AnswersAreRecords(qtype, qclass, ips);
    var tail := AllAnswerBytes(t, c, ips);
    var r := h + tail;
    AtAppend(h, tail, []);
    assert h + tail + [] == r;
    LocalEndSame(payload, r, 12);
  }

  lemma RecordsPrefix(buf: seq<byte>, pos: nat, rs: seq<Record>, n: nat)
    requires ValidRecords(rs) && At(buf, pos, EncRecords(rs)) && n <= |rs|
    ensures ValidRecords(rs[..n]) && At(buf, pos, EncRecords(rs[..n]))
  {
    hide At, EncRecords;
    assert ValidRecords(rs[..n]) && ValidRecords(rs[n..]);
    hide ValidRecords;
    EncRecordsAppend(rs[..n], rs[n..]);
    assert rs == rs[..n] + rs[n..];
    AtSplit(buf, pos, EncRecords(rs[..n]), EncRecords(rs[n..]));
  }

  /** Reading a redirect answer gives the valid addresses back, as many as the 16-bit answer count can tell. */
  lemma {:induction false} RedirectAddresses(payload: seq<byte>, qnameEnd: nat, texts: seq<Text>)
    requires PlainQuery(payload, qnameEnd)
    ensures var r, ips := Redirect(payload, qnameEnd, texts), ValidIps(texts);
            && (r.Some? <==> ips != [])
            && (r.Some? && U16(payload[qnameEnd], payload[qnameEnd + 1]) == A_TYPE ==>
                  && ARecords(r.value) == ips[..Low16(|ips|)]
                  && (ARecords(r.value) == ips <==> |ips| < 0x1_0000))
            && (r.Some? && U16(payload[qnameEnd], payload[qnameEnd + 1]) != A_TYPE ==> ARecords(r.value) == [])
  {
    hide At, LocalEnd, ValidIps, EncRecords, AddressesIn, Redirect, AnswerRecords;
    RedirectSome(payload, qnameEnd, texts);
    var ips := ValidIps(texts);
    if ips != [] {
      RedirectShape(payload, qnameEnd, texts);
      var qtype := U16(payload[qnameEnd], payload[qnameEnd + 1]);
      var qclass := U16(payload[qnameEnd + 2], payload[qnameEnd + 3]);
      var r := Redirect(payload, qnameEnd, texts).value;
      var n := Low16(|ips|);
      LocalEndIsSkip(r, 12, qnameEnd);
      var rs := AnswerRecords(qtype, qclass, ips);
      RecordsPrefix(r, qnameEnd + 4, rs, n);
      assert rs[..n] == AnswerRecords(qtype, qclass, ips[..n]);
      AddressesWalk(r, qnameEnd + 4, rs[..n]);
      AddressesOfAnswers(qtype, qclass, ips[..n]);
      OneQuestionWalk(r, qnameEnd);
    }
  }

  lemma RedirectSome(payload: seq<byte>, qnameEnd: nat, texts: seq<Text>)
    requires PlainQuery(payload, qnameEnd)
    ensures Redirect(payload, qnameEnd, texts).Some? <==> ValidIps(texts) != []
  {
  }

  lemma OneQuestionWalk(p: seq<byte>, e: nat)
    requires AfterName(p, 12) == Some(e)
    ensures AfterQuestions(p, 12, 1) == Some(e + 4)
  {
    assert AfterQuestions(p, e + 4, 0) == Some(e + 4);
  }

  /** And its least TTL is 60, unless the answer count came out as zero. */
  lemma {:induction false} RedirectTtl(payload: seq<byte>, qnameEnd: nat, texts: seq<Text>)
    requires PlainQuery(payload, qnameEnd) && ValidIps(texts) != []
    ensures Redirect(payload, qnameEnd, texts).Some?
    ensures LeastTtl(Redirect(payload, qnameEnd, texts).value) ==
            if Low16(|ValidIps(texts)|) == 0 then None else Some(60)
  {
    hide At, LocalEnd, ValidIps, EncRecords, LeastIn, Redirect, Least, Ttls, AnswerRecords;
    RedirectShape(payload, qnameEnd, texts);
    var ips := ValidIps(texts);
    var qtype := U16(payload[qnameEnd], payload[qnameEnd + 1]);
    var qclass := U16(payload[qnameEnd + 2], payload[qnameEnd + 3]);
    var r := Redirect(payload, qnameEnd, texts).value;
    var n := Low16(|ips|);
    var rs := AnswerRecords(qtype, qclass, ips);
    RecordsPrefix(r, qnameEnd + 4, rs, n);
    if n > 0 {
      SixtySeconds(qtype, qclass, ips, n);
      LeastWalk(r, qnameEnd + 4, rs[..n], MAX_TTL);
    }
  }

  lemma SixtySecond(qtype: u16, qclass: u16, ip: Ip4)
    ensures var r := AnswerRecord(qtype, qclass, ip); r.Valid() && Readable(r.name) && Ttl(r) == 60
  {
  }

  lemma SixtySeconds(qtype: u16, qclass: u16, ips: seq<Ip4>, n: nat)
    requires 0 < n <= |ips|
    ensures var rs := AnswerRecords(qtype, qclass, ips)[..n];
            ValidRecords(rs) && ReadableNames(rs) && Least(Ttls(rs), MAX_TTL) == 60
  {
    hide Least, Ttl, AnswerRecord, AnswerRecords, Readable, Ttls;
    var all := AnswerRecords(qtype, qclass, ips);
    var rs := all[..n];
    forall i | 0 <= i < n
      ensures rs[i].Valid() && Readable(rs[i].name) && Ttl(rs[i]) == 60
    {
      assert rs[i] == all[i];
      SixtySecond(qtype, qclass, ips[i]);
    }
    var ts := Ttls(rs);
    assert forall i :: 0 <= i < n ==> ts[i] == 60;
    assert ts[0] in ts;
    LeastIsLeast(ts, MAX_TTL);
  }

  // ---- `build_lookup_query` and `cache_key_from_query`

  function LabelBytes(labels: seq<Text>): seq<byte> {
    if labels == [] then [] else [Low8(|labels[0]|)] + labels[0] + LabelBytes(labels[1..])
  }

  function LookupQuery(domain: Text, hi: byte, lo: byte): seq<byte> {
    [hi, lo, 1, 0, 0, 1, 0, 0, 0, 0, 0, 0] + LabelBytes(Split(TrimDots(domain), DOT)) + [0] + [0, 1, 0, 1]
  }

  method BuildLookupQuery(domain: Text, hi: byte, lo: byte) returns (packet: seq<byte>)
    ensures packet == LookupQuery(domain, hi, lo)
  {
    hide Split, TrimDots;
    packet := [hi, lo];
    packet := packet + [1, 0];
    packet := packet + [0, 1];
    packet := packet + [0, 0];
    packet := packet + [0, 0];
    packet := packet + [0, 0];
    ghost var head := packet;
    var labels := Split(TrimDots(domain), DOT);
    assert labels[0..] == labels;
    for i := 0 to |labels|
      invariant packet + LabelBytes(labels[i..]) == head + LabelBytes(labels)
    {
      assert labels[i..][1..] == labels[i + 1..];
      ghost var before := packet;
      packet := packet + [Low8(|labels[i]|)];
      packet := packet + labels[i];
      assert packet + LabelBytes(labels[i + 1..]) ==
             before + ([Low8(|labels[i]|)] + labels[i] + LabelBytes(labels[i + 1..]));
    }
    assert packet == head + LabelBytes(labels);
    packet := packet + [0];
    packet := packet + [0, 1];
    packet := packet + [0, 1];
    assert head == [hi, lo, 1, 0, 0, 1, 0, 0, 0, 0, 0, 0];
  }

  datatype CacheKey = CacheKey(name: Text, qtype: u16)

  /** `cache_key_from_query`, given what `parse_domain` returned. */
  function CacheKeyOf(payload: seq<byte>, name: Option<Domain>): Option<CacheKey> {
    match name
    case None => None
    case Some(d) =>
      if d.end + 2 > |payload| then None else Some(CacheKey(d.text, U16(payload[d.end], payload[d.end + 1])))
  }

  lemma {:induction false} LabelBytesAreLabels(labels: seq<Text>)
    requires forall l <- labels :: 0 < |l| < 0xC0
    ensures LabelBytes(labels) == EncLabels(labels)
  {
    hide Low8;
    if labels != [] {
      assert labels[0] in labels;
      LabelBytesAreLabels(labels[1..]);
    }
  }

  /**
   * Parsing a lookup query gives back the name in lower case without its trailing dots, for every dotted name
   * whose labels are not empty, are text, and have fewer than 192 bytes; its cache key is that name with type A.
   */
  lemma {:induction false} LookupRoundTrip(domain: Text, hi: byte, lo: byte, depth: nat)
    requires forall l <- Split(TrimDots(domain), DOT) :: 0 < |l| < 0xC0 && ValidUtf8(l)
    ensures var p, name := LookupQuery(domain, hi, lo), Lower(TrimDots(domain));
            && Parse(p, 12, [], depth) == Returned(Some(Domain(name, |p| - 4)))
            && CacheKeyOf(p, Some(Domain(name, |p| - 4))) == Some(CacheKey(name, A_TYPE))
  {
    hide At, Split, TrimDots, Join, Parse, EncName, ValidUtf8;
    var labels := Split(TrimDots(domain), DOT);
    var n := Name(labels, Root);
    var p := LookupQuery(domain, hi, lo);
    var head := [hi, lo, 1, 0, 0, 1, 0, 0, 0, 0, 0, 0];
    LabelBytesAreLabels(labels);
    NameIs(n);
    assert p == head + EncName(n) + [0, 1, 0, 1];
    AtAppend(head, EncName(n), [0, 1, 0, 1]);
    UncompressedName(p, 12, n, depth);
    JoinSplit(TrimDots(domain), DOT);
  }

  lemma NameIs(n: Name)
    requires n.Valid() && n.end == Root
    ensures EncName(n) == EncLabels(n.labels) + [0]
  {
  }

  // ---- `with_txid`

  function WithTxid(packet: seq<byte>, hi: byte, lo: byte): seq<byte> {
    if |packet| >= 2 then packet[0 := hi][1 := lo] else packet
  }
}
