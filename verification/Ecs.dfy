/** `set_ecs_option`: putting a Client Subnet option (section 6 of RFC 7871) into a packet. */
module Ecs {
  import opened Bytes
  import opened Wire
  import opened Message
  import opened Edns

  // ---- The code

  datatype ClientIp = V4(ip: Ip4) | V6

  /** FAMILY 1, source prefix 24, scope 0 and the first three octets. */
  function EcsOption(ip: Ip4): EdnsOption {
    EdnsOption(ECS_CODE, [0, 1, 24, 0, ip.a, ip.b, ip.c])
  }

  function NewOptions(blob: seq<byte>, ip: Ip4): seq<byte> {
    PrintOptions(Kept(Options(blob)) + [EcsOption(ip)])
  }

  /** The OPT record written by `rebuild_with_new_opt`; its length field keeps sixteen bits only. */
  function OptBytes(o: EdnsOpt, options: seq<byte>): (b: seq<byte>)
    ensures |b| == 11 + |options|
  {
    [0] + OptFixed(o, |options|) + options
  }

  function OptFixed(o: EdnsOpt, len: nat): (b: seq<byte>)
    ensures |b| == 10
    ensures U16(b[0], b[1]) == OPT_TYPE && U16(b[2], b[3]) == o.udpPayloadSize
    ensures b[4] == o.extendedRcode && b[5] == o.version && U16(b[6], b[7]) == o.flags && U16(b[8], b[9]) == Low16(len)
  {
    Be16(OPT_TYPE) + Be16(o.udpPayloadSize) + [o.extendedRcode, o.version] + Be16(o.flags) + Be16(Low16(len))
  }

  /** ARCOUNT raised by one, in sixteen bits without overflow checks. */
  function RaiseArcount(p: seq<byte>): (r: seq<byte>)
    requires |p| >= 12
    ensures |r| == |p| && r[..10] == p[..10] && r[12..] == p[12..]
    ensures U16(r[10], r[11]) == Low16(U16(p[10], p[11]) + 1)
  {
    p[..10] + Be16(Low16(U16(p[10], p[11]) + 1)) + p[12..]
  }

  function Rebuild(payload: seq<byte>, o: EdnsOpt, options: seq<byte>): Option<seq<byte>>
    requires o.rrStart <= o.rrEnd <= |payload|
  {
    var out := payload[..o.rrStart] + OptBytes(o, options) + payload[o.rrEnd..];
    if o.rrStart == o.rrEnd == |payload| then
      if |out| < 12 then None else Some(RaiseArcount(out))
    else Some(out)
  }

  function Synthetic(len: nat): EdnsOpt {
    EdnsOpt(len, len, 4096, 0, 0, 0, [])
  }

  lemma {:induction false} OptInBounds(buf: seq<byte>, pos: nat, count: nat)
    ensures var r := OptIn(buf, pos, count);
                r.Some? ==> pos <= r.value.rrStart && r.value.rrStart + 11 <= r.value.rrEnd <= |buf|
    decreases count
  {
    hide AfterName;
    AfterNameGrows(buf, pos);
    if count > 0 && AfterName(buf, pos).Some? {
      var e := AfterName(buf, pos).value;
      if e + 10 <= |buf| && e + 10 + U16(buf[e + 8], buf[e + 9]) <= |buf| {
        OptInBounds(buf, e + 10 + U16(buf[e + 8], buf[e + 9]), count - 1);
      }
    }
  }

  lemma FindOptBounds(buf: seq<byte>)
    ensures var r := FindOpt(buf); r.Some? ==> r.value.rrStart + 11 <= r.value.rrEnd <= |buf|
  {
    hide OptIn, AfterRecords, AfterQuestions;
    if |buf| >= 12 && AfterQuestions(buf, 12, U16(buf[4], buf[5])).Some? {
      var q := AfterQuestions(buf, 12, U16(buf[4], buf[5])).value;
      var p := AfterRecords(buf, q, U16(buf[6], buf[7]) + U16(buf[8], buf[9]));
      if p.Some? {
        OptInBounds(buf, p.value, U16(buf[10], buf[11]));
      }
    }
  }

  /** The rewrite once the address to announce is known. */
  function SetEcsIp(payload: seq<byte>, ip: Ip4): Option<seq<byte>> {
    FindOptBounds(payload);
    match FindOpt(payload)
    case Some(o) => Rebuild(payload, o, NewOptions(o.options, ip))
    case None => Rebuild(payload, Synthetic(|payload|), PrintOption(EcsOption(ip)))
  }

  /** The address that is announced for a client, if any. */
  function Announced(client: ClientIp, fabricated: Option<Ip4>): Option<Ip4> {
    match client
    case V6 => None
    case V4(ip) => if ip.a != 127 then Some(ip) else fabricated
  }

  function SetEcs(payload: seq<byte>, client: ClientIp, fabricated: Option<Ip4>): Option<seq<byte>> {
    match client
    case V6 => None
    case V4(ip) =>
      if ip.a != 127 then SetEcsIp(payload, ip)
      else
        match fabricated
        case Some(fake) => SetEcsIp(payload, fake)
        case None => Some(payload)
  }

  method SetEcsOption(payload: seq<byte>, client: ClientIp, fabricated: Option<Ip4>) returns (r: Option<seq<byte>>)
    ensures r == SetEcs(payload, client, fabricated)
  {
    hide FindOpt, Rebuild, Options, Kept;
    var ip;
    match client {
      case V6 => return None;
      case V4(octets) =>
        if octets.a == 127 {
          match fabricated {
            case Some(fake) => ip := fake;
            case None => return Some(payload);
          }
        } else {
          ip := octets;
        }
    }
    var existing := FindOptRecord(payload);
    FindOptBounds(payload);
    match existing {
      case Some(o) =>
        var options := ParseOptions(o.options);
        var newOptions := PrintKept(options);
        newOptions := newOptions + PrintOption(EcsOption(ip));
        PrintOptionsAppend(Kept(options), [EcsOption(ip)]);
        PrintOne(EcsOption(ip));
        r := RebuildWithNewOpt(payload, o, newOptions);
      case None =>
        r := RebuildWithNewOpt(payload, Synthetic(|payload|), PrintOption(EcsOption(ip)));
    }
  }

  /** The `retain` and the loop that writes what is left. */
  method PrintKept(options: seq<EdnsOption>) returns (out: seq<byte>)
    ensures out == PrintOptions(Kept(options))
  {
    hide PrintOption;
    out := [];
    assert options[0..] == options;
    for i := 0 to |options|
      invariant out + PrintOptions(Kept(options[i..])) == PrintOptions(Kept(options))
    {
      assert options[i..][1..] == options[i + 1..];
      if options[i].code != ECS_CODE {
        PrintOptionsAppend([options[i]], Kept(options[i + 1..]));
        PrintOne(options[i]);
        out := out + PrintOption(options[i]);
      } else {
        assert Kept(options[i..]) == Kept(options[i + 1..]);
      }
    }
  }

  lemma PrintOne(o: EdnsOption)
    ensures PrintOptions([o]) == PrintOption(o)
  {
    assert [o][1..] == [];
  }

  method RebuildWithNewOpt(payload: seq<byte>, existing: EdnsOpt, options: seq<byte>) returns (r: Option<seq<byte>>)
    requires existing.rrStart <= existing.rrEnd <= |payload|
    ensures r == Rebuild(payload, existing, options)
  {
    var out := payload[..existing.rrStart];
    out := out + OptBytes(existing, options);
    out := out + payload[existing.rrEnd..];
    if existing.rrStart == existing.rrEnd && existing.rrStart == |payload| {
      if |out| < 12 {
        return None;
      }
      var arcount := Low16(U16(out[10], out[11]) + 1);
      ghost var before := out;
      out := out[10 := arcount / 256];
      out := out[11 := arcount % 256];
      assert out == RaiseArcount(before);
    }
    return Some(out);
  }

  // ---- What it means for messages

  ghost function FirstOpt(rs: seq<Record>): (i: nat)
    ensures i <= |rs| && NoOpt(rs[..i]) && (i < |rs| ==> rs[i].rtype == OPT_TYPE)
  {
    if rs == [] || rs[0].rtype == OPT_TYPE then 0
    else
      var i := FirstOpt(rs[1..]);
      assert rs[..i + 1] == [rs[0]] + rs[1..][..i];
      i + 1
  }

  /** An OPT record at the root with the class and TTL of another one. */
  ghost function OptRecord(rclass: nat, ttl: seq<byte>, options: seq<byte>): Record {
    Record(Name([], Root), OPT_TYPE, rclass, ttl, options)
  }

  /** The first OPT record gets the new options in its place; without one, a fresh OPT record goes last. */
  ghost function WithEcs(m: Message, ip: Ip4): Message {
    var i := FirstOpt(m.additional);
    if i < |m.additional| then
      var r := m.additional[i];
      m.(additional := m.additional[i := OptRecord(r.rclass, r.ttl, NewOptions(r.rdata, ip))])
    else
      m.(additional := m.additional + [OptRecord(4096, [0, 0, 0, 0], PrintOption(EcsOption(ip)))])
  }

  /** The new RDLENGTH, or the new ARCOUNT, fits its sixteen bits. */
  ghost predicate EcsFits(m: Message) {
    var i := FirstOpt(m.additional);
    if i < |m.additional| then |PrintOptions(Kept(Options(m.additional[i].rdata)))| + 11 < 0x1_0000
    else |m.additional| + 1 < 0x1_0000
  }

  lemma NewOptionsLength(blob: seq<byte>, ip: Ip4)
    ensures |NewOptions(blob, ip)| == |PrintOptions(Kept(Options(blob)))| + 11
    ensures |NewOptions(blob, ip)| <= |blob| + 11
  {
    hide Options, Kept, PrintOptions;
    PrintOptionsAppend(Kept(Options(blob)), [EcsOption(ip)]);
    PrintOne(EcsOption(ip));
    KeptIsNoLonger(Options(blob));
    ParsedIsNoLonger(blob);
  }

  /** What is read back from the new options: the previous ones but the client subnets, then the new one. */
  lemma {:induction false} NewOptionsRead(blob: seq<byte>, ip: Ip4)
    ensures Options(NewOptions(blob, ip)) == Kept(Options(blob)) + [EcsOption(ip)]
    ensures Kept(Options(NewOptions(blob, ip))) == Kept(Options(blob))
  {
    hide Options, PrintOptions;
    ParsedAreShort(blob);
    ShortRoundTrip(Kept(Options(blob)) + [EcsOption(ip)]);
    KeptOfKept(Kept(Options(blob)), EcsOption(ip));
  }

  // ---- The OPT record that was just written is the one found next

  lemma OptBytesFound(buf: seq<byte>, pos: nat, o: EdnsOpt, options: seq<byte>, count: nat)
    requires count > 0
    ensures At(buf, pos, OptBytes(o, options)) ==>
              OptIn(buf, pos, count) ==
              Some(o.(rrStart := pos, rrEnd := pos + 11 + Low16(|options|), options := options[..Low16(|options|)]))
  {
    hide At, OptFixed;
    var f := OptFixed(o, |options|);
    var n := Low16(|options|);
    if At(buf, pos, OptBytes(o, options)) {
      AtSplit(buf, pos, [0] + f, options);
      AtSplit(buf, pos, [0], f);
      AtByte(buf, pos, [0], 0);
      AtEnd(buf, pos + 1, f);
      AtEnd(buf, pos + 11, options);
      FixedParts(buf, pos + 1, f);
      assert buf[pos + 1..pos + 11][4..8] == buf[pos + 5..pos + 9];
      assert buf[pos + 11..pos + 11 + n] == buf[pos + 11..pos + 11 + |options|][..n];
    }
  }

  lemma OptBytesIsRecord(o: EdnsOpt, r: Record, options: seq<byte>)
    requires r.Valid() && o.udpPayloadSize == r.rclass && o.extendedRcode == r.ttl[0] && o.version == r.ttl[1]
    requires o.flags == U16(r.ttl[2], r.ttl[3]) && |options| < 0x1_0000
    ensures OptBytes(o, options) == EncRecord(OptRecord(r.rclass, r.ttl, options))
  {
    Be16OfU16(r.ttl[2], r.ttl[3]);
    assert r.ttl == [r.ttl[0], r.ttl[1]] + [r.ttl[2], r.ttl[3]];
    EncNameNil(Name([], Root));
  }

  /** A message cut at the record `i` of its additional section. */
  lemma CutAt(m: Message, i: nat)
    requires m.Valid() && i <= |m.additional|
    ensures var m0 := m.(additional := m.additional[..i]);
            && m0.Valid()
            && EncBody(m) == EncBody(m0) + EncRecords(m.additional[i..])
  {
    hide EncQuestions, EncRecords;
    EncRecordsAppend(m.additional[..i], m.additional[i..]);
    assert m.additional == m.additional[..i] + m.additional[i..];
  }

  ghost function Head(m: Message, ar: nat): (h: seq<byte>)
    requires m.Valid() && ar < 0x1_0000
    ensures |h| == 12
  {
    EncHeader(m.head, |m.questions|, |m.answers|, |m.authority|, ar)
  }

  /** A packet in four parts: header, body, one record, and the rest. */
  ghost function Join(h: seq<byte>, b: seq<byte>, x: seq<byte>, tail: seq<byte>): (p: seq<byte>)
    ensures |p| == |h| + |b| + |x| + |tail|
  {
    h + b + (x + tail)
  }

  lemma JoinAt(h: seq<byte>, b: seq<byte>, x: seq<byte>, tail: seq<byte>)
    ensures At(Join(h, b, x, tail), |h|, b)
    ensures At(Join(h, b, x, tail), |h| + |b|, x)
  {
    hide At;
    AtAppend(h, b, x + tail);
    AtAppend(h + b, x, tail);
    assert h + b + x + tail == h + b + (x + tail);
  }

  lemma JoinCut(h: seq<byte>, b: seq<byte>, x: seq<byte>, tail: seq<byte>, n: nat)
    requires n <= |x|
    ensures Join(h, b, x, tail)[..|h| + |b|] == h + b
    ensures Join(h, b, x, tail)[|h| + |b| + n..] == x[n..] + tail
  {
    assert (h + b + (x + tail))[|h + b|..] == x + tail;
    assert (x + tail)[n..] == x[n..] + tail;
  }

  /** In a packet that starts like `m`, with its own ARCOUNT, the search gets past all of `m` if that has no OPT. */
  lemma FindAfter(m: Message, ar: nat, x: seq<byte>, tail: seq<byte>)
    requires m.Valid() && NoOpt(m.additional) && |m.additional| <= ar < 0x1_0000
    ensures var buf := Join(Head(m, ar), EncBody(m), x, tail);
            FindOpt(buf) == OptIn(buf, 12 + |EncBody(m)|, ar - |m.additional|)
  {
    hide At, EncQuestions, EncRecords, EncBody, EncHeader, AfterRecords, AfterQuestions, OptIn;
    var buf := Join(Head(m, ar), EncBody(m), x, tail);
    JoinAt(Head(m, ar), EncBody(m), x, tail);
    Sections(m, buf);
    var q := 12 + |EncQuestions(m.questions)|;
    QuestionsWalk(buf, 12, m.questions);
    RecordsWalk(buf, q, m.answers);
    RecordsWalk(buf, q + |EncRecords(m.answers)|, m.authority);
    AfterRecordsSplit(buf, q, |m.answers|, |m.authority|);
    OptInSkips(buf, q + |EncRecords(m.answers)| + |EncRecords(m.authority)|, m.additional, ar);
  }

  /** Inside a packet the rebuild is a splice. */
  lemma RebuildInside(p: seq<byte>, o: EdnsOpt, options: seq<byte>)
    requires o.rrStart < o.rrEnd <= |p|
    ensures Rebuild(p, o, options) == Some(p[..o.rrStart] + OptBytes(o, options) + p[o.rrEnd..])
  {
  }

  lemma SpliceJoin(h: seq<byte>, b: seq<byte>, x: seq<byte>, tail: seq<byte>, n: nat, y: seq<byte>)
    requires n <= |x|
    ensures var p := Join(h, b, x, tail);
            p[..|h| + |b|] + y + p[|h| + |b| + n..] == Join(h, b, y, x[n..] + tail)
  {
    assert Join(h, b, y, (x[n..] + tail)) == h + b + (y + (x[n..] + tail));
    hide Join;
    JoinCut(h, b, x, tail, n);
    assert h + b + y + (x[n..] + tail) == h + b + (y + (x[n..] + tail));
  }

  /** Only the fields of an OPT record matter for what is written, not where it was found. */
  lemma OptBytesMoved(o: EdnsOpt, o': EdnsOpt, options: seq<byte>)
    requires o' == o.(rrStart := o'.rrStart, rrEnd := o'.rrEnd, options := o'.options)
    ensures OptBytes(o, options) == OptBytes(o', options)
  {
  }

  /** An encoded message, taken apart at the record `i` of its additional section. */
  lemma EncodeCut(m: Message, i: nat)
    requires m.Valid() && i < |m.additional|
    ensures var m0 := m.(additional := m.additional[..i]);
            && m0.Valid()
            && Encode(m) == Join(Head(m, |m.additional|), EncBody(m0), EncRecord(m.additional[i]),
                EncRecords(m.additional[i + 1..]))
  {
    hide EncBody, EncHeader, EncRecord;
    CutAt(m, i);
    assert m.additional[i..][1..] == m.additional[i + 1..];
  }

  /** The search finds the first OPT record of an encoded message, where it stands. */
  lemma {:induction false} FindOptReplaced(m: Message)
    requires m.Valid() && FirstOpt(m.additional) < |m.additional|
    ensures var i := FirstOpt(m.additional);
            var m0 := m.(additional := m.additional[..i]);
            m0.Valid() && FindOpt(Encode(m)) == Some(OptOf(m.additional[i], 12 + |EncBody(m0)|))
  {
    hide At, Join, Encode, EncBody, EncHeader, EncRecords, FindOpt, OptIn, EncRecord;
    var i := FirstOpt(m.additional);
    var r := m.additional[i];
    var m0 := m.(additional := m.additional[..i]);
    EncodeCut(m, i);
    var h, b, x, post := Head(m, |m.additional|), EncBody(m0), EncRecord(r), EncRecords(m.additional[i + 1..]);
    FindAfter(m0, |m.additional|, x, post);
    JoinAt(h, b, x, post);
    OptInStep(Encode(m), 12 + |b|, r, |m.additional| - i);
  }

  lemma {:induction false} FindOptMissing(m: Message)
    requires m.Valid() && NoOpt(m.additional)
    ensures FindOpt(Encode(m)) == None
  {
    assert OptIn(Encode(m), (12 + |EncBody(m)|), 0) == None;
    hide EncBody, EncHeader, FindOpt, OptIn;
    assert Head(m, |m.additional|) + EncBody(m) + ([] + []) == Encode(m);
    FindAfter(m, |m.additional|, [], []);
  }

  /** Rewriting a packet whose OPT record `r` stands behind the records of `m`, whatever follows. */
  lemma SetEcsOnJoin(m: Message, ar: nat, r: Record, tail: seq<byte>, ip: Ip4)
    requires m.Valid() && NoOpt(m.additional) && |m.additional| < ar < 0x1_0000 && r.Valid() && r.rtype == OPT_TYPE
    ensures var p := Join(Head(m, ar), EncBody(m), EncRecord(r), tail);
            && FindOpt(p) == Some(OptOf(r, 12 + |EncBody(m)|))
            && SetEcsIp(p, ip) == Some(Join(Head(m, ar), EncBody(m), OptBytes(OptOf(r, 0), NewOptions(r.rdata, ip)),
                tail))
  {
    hide At, Join, EncBody, EncHeader, FindOpt, OptIn, EncRecord, NewOptions, OptBytes, Rebuild;
    var h, b, x := Head(m, ar), EncBody(m), EncRecord(r);
    var p := Join(h, b, x, tail);
    var n := NewOptions(r.rdata, ip);
    FindAfter(m, ar, x, tail);
    JoinAt(h, b, x, tail);
    OptInStep(p, 12 + |b|, r, ar - |m.additional|);
    FindOptBounds(p);
    RebuildInside(p, OptOf(r, 12 + |b|), n);
    SpliceJoin(h, b, x, tail, |x|, OptBytes(OptOf(r, 12 + |b|), n));
    assert x[|x|..] + tail == tail;
    OptBytesMoved(OptOf(r, 0), OptOf(r, 12 + |b|), n);
  }

  /** Rewriting an encoded message that has an OPT record. */
  lemma SetEcsReplaces(m: Message, ip: Ip4)
    requires m.Valid() && FirstOpt(m.additional) < |m.additional|
    ensures var i := FirstOpt(m.additional);
            var m0 := m.(additional := m.additional[..i]);
            var r := m.additional[i];
            && m0.Valid()
            && SetEcsIp(Encode(m), ip) ==
               Some(Join(Head(m, |m.additional|), EncBody(m0),
                         OptBytes(OptOf(r, 0), NewOptions(r.rdata, ip)), EncRecords(m.additional[i + 1..])))
  {
    hide Join, Encode, EncBody, EncHeader, EncRecords, SetEcsIp, NewOptions, OptBytes;
    var i := FirstOpt(m.additional);
    EncodeCut(m, i);
    SetEcsOnJoin(m.(additional := m.additional[..i]), |m.additional|, m.additional[i],
        EncRecords(m.additional[i + 1..]), ip);
  }

  /** Rewriting an encoded message that has none. */
  lemma SetEcsAppends(m: Message, ip: Ip4)
    requires m.Valid() && NoOpt(m.additional)
    ensures SetEcsIp(Encode(m), ip) == Some(Appended(m, PrintOption(EcsOption(ip))))
  {
    hide At, EncBody, EncHeader, FindOpt, OptIn, PrintOption, OptBytes;
    var h, b, o := Head(m, |m.additional|), EncBody(m), PrintOption(EcsOption(ip));
    FindOptMissing(m);
    OptBytesMoved(Synthetic(0), Synthetic(12 + |b|), o);
    var p, y := h + b, OptBytes(Synthetic(12 + |b|), o);
    assert p[..|p|] + y + p[|p|..] == p + y;
    RaiseAppended(h, b, y);
    HeadRaised(m);
  }

  /** The encoding of a message with a fresh OPT record behind it, and ARCOUNT raised to match if it can. */
  ghost function Appended(m: Message, options: seq<byte>): seq<byte>
    requires m.Valid()
  {
    Join(Head(m, Low16(|m.additional| + 1)), EncBody(m), OptBytes(Synthetic(0), options), [])
  }

  lemma RaiseAppended(h: seq<byte>, b: seq<byte>, y: seq<byte>)
    requires |h| == 12
    ensures RaiseArcount(h + b + y) == Join(RaiseArcount(h), b, y, [])
  {
    hide RaiseArcount;
    assert h + b + y == h + (b + y);
    RaiseInHeader(h, b + y);
    assert RaiseArcount(h) + (b + y) == RaiseArcount(h) + b + (y + []);
  }

  lemma RaiseInHeader(h: seq<byte>, rest: seq<byte>)
    requires |h| == 12
    ensures RaiseArcount(h + rest) == RaiseArcount(h) + rest
  {
    assert (h + rest)[..10] == h[..10] && (h + rest)[12..] == rest && h[12..] == [];
  }

  lemma HeadRaised(m: Message)
    requires m.Valid()
    ensures RaiseArcount(Head(m, |m.additional|)) == Head(m, Low16(|m.additional| + 1))
  {
  }

  /** Rewriting what a rewrite left behind: only the bytes its length field covers are replaced. */
  lemma SetEcsAgain(m: Message, ar: nat, o: EdnsOpt, options: seq<byte>, post: seq<byte>, ip: Ip4)
    requires m.Valid() && NoOpt(m.additional) && |m.additional| < ar < 0x1_0000
    ensures var n := Low16(|options|);
            SetEcsIp(Join(Head(m, ar), EncBody(m), OptBytes(o, options), post), ip) ==
            Some(Join(Head(m, ar), EncBody(m), OptBytes(o, NewOptions(options[..n], ip)), options[n..] + post))
  {
    hide At, Join, EncBody, EncHeader, FindOpt, OptIn, NewOptions, OptBytes, Rebuild;
    var h, b, x, n := Head(m, ar), EncBody(m), OptBytes(o, options), Low16(|options|);
    FindAfter(m, ar, x, post);
    JoinAt(h, b, x, post);
    OptBytesFound(Join(h, b, x, post), 12 + |b|, o, options, ar - |m.additional|);
    var o' := o.(rrStart := 12 + |b|, rrEnd := 23 + |b| + n, options := options[..n]);
    RebuildInside(Join(h, b, x, post), o', NewOptions(options[..n], ip));
    SpliceJoin(h, b, x, post, 11 + n, OptBytes(o', NewOptions(options[..n], ip)));
    OptBytesMoved(o, o', NewOptions(options[..n], ip));
    OptBytesTail(o, options, n);
  }

  lemma OptBytesTail(o: EdnsOpt, options: seq<byte>, n: nat)
    requires n <= |options|
    ensures OptBytes(o, options)[11 + n..] == options[n..]
  {
  }

  // ---- Theorems

  /** On every encoded message that leaves room for it, the byte rewrite is the message rewrite. */
  lemma {:induction false} SetEcsCommutes(m: Message, ip: Ip4)
    requires m.Valid() && EcsFits(m)
    ensures WithEcs(m, ip).Valid()
    ensures SetEcsIp(Encode(m), ip) == Some(Encode(WithEcs(m, ip)))
  {
    hide SetEcsIp, Encode, EcsFits, WithEcs;
    if FirstOpt(m.additional) < |m.additional| {
      ReplacesCommutes(m, ip);
    } else {
      AppendsCommutes(m, ip);
    }
  }

  lemma ReplacesCommutes(m: Message, ip: Ip4)
    requires m.Valid() && EcsFits(m) && FirstOpt(m.additional) < |m.additional|
    ensures WithEcs(m, ip).Valid()
    ensures SetEcsIp(Encode(m), ip) == Some(Encode(WithEcs(m, ip)))
  {
    hide Join, Encode, EncBody, EncHeader, SetEcsIp, NewOptions, OptBytes, EncRecord, EncRecords, PrintOptions,
        Options, Kept;
    var i := FirstOpt(m.additional);
    var m' := WithEcs(m, ip);
    var r := m.additional[i];
    NewOptionsLength(r.rdata, ip);
    SetEcsReplaces(m, ip);
    OptBytesIsRecord(OptOf(r, 0), r, NewOptions(r.rdata, ip));
    EncodeCut(m', i);
    assert m'.additional[..i] == m.additional[..i];
    assert m'.additional[i + 1..] == m.additional[i + 1..];
  }

  lemma AppendsCommutes(m: Message, ip: Ip4)
    requires m.Valid() && EcsFits(m) && FirstOpt(m.additional) == |m.additional|
    ensures WithEcs(m, ip).Valid()
    ensures SetEcsIp(Encode(m), ip) == Some(Encode(WithEcs(m, ip)))
  {
    hide Join, Encode, EncBody, Head, SetEcsIp, PrintOption, OptBytes, EncRecord, WithEcs, NoOpt, OptRecord;
    var o := PrintOption(EcsOption(ip));
    assert m.additional[..|m.additional|] == m.additional;
    WithNewOpt(m, ip);
    RoomForOne(m);
    NewOptBytes(ip);
    EncodeAdded(m, OptRecord(4096, [0, 0, 0, 0], o));
    SetEcsAppends(m, ip);
  }

  lemma NewOptBytes(ip: Ip4)
    ensures var added := OptRecord(4096, [0, 0, 0, 0], PrintOption(EcsOption(ip)));
            added.Valid() && OptBytes(Synthetic(0), PrintOption(EcsOption(ip))) == EncRecord(added)
  {
    hide PrintOption, OptBytes, EncRecord;
    var o := PrintOption(EcsOption(ip));
    OptBytesIsRecord(Synthetic(0), OptRecord(4096, [0, 0, 0, 0], o), o);
  }

  lemma EncodeAdded(m: Message, added: Record)
    requires m.Valid() && added.Valid() && |m.additional| + 1 < 0x1_0000
    ensures var m' := m.(additional := m.additional + [added]);
            && m'.Valid()
            && Encode(m') == Join(Head(m, |m.additional| + 1), EncBody(m), EncRecord(added), [])
  {
    hide Join, Encode, EncBody, EncHeader, EncRecord, EncRecords, ValidRecords;
    var i := |m.additional|;
    var m' := m.(additional := m.additional + [added]);
    AddedIsValid(m, added);
    EncodeCut(m', i);
    assert m'.additional[..i] == m.additional && m'.additional[i + 1..] == [];
    assert m'.(additional := m.additional) == m;
    NoRecordsNoBytes();
  }

  lemma WithNewOpt(m: Message, ip: Ip4)
    requires FirstOpt(m.additional) == |m.additional|
    ensures var added := OptRecord(4096, [0, 0, 0, 0], PrintOption(EcsOption(ip)));
            WithEcs(m, ip) == m.(additional := m.additional + [added])
  {
  }

  lemma RoomForOne(m: Message)
    requires EcsFits(m) && FirstOpt(m.additional) == |m.additional|
    ensures |m.additional| + 1 < 0x1_0000
  {
  }

  lemma AddedIsValid(m: Message, r: Record)
    requires m.Valid() && r.Valid() && |m.additional| + 1 < 0x1_0000
    ensures m.(additional := m.additional + [r]).Valid()
  {
  }

  lemma LastWriterOnMessage(m: Message, a: Ip4, b: Ip4)
    requires m.Valid()
    ensures SetEcsIp(Encode(m), a).Some?
    ensures SetEcsIp(SetEcsIp(Encode(m), a).value, b) == SetEcsIp(Encode(m), b) <==> EcsFits(m)
  {
    hide SetEcsIp, Encode, EcsFits;
    if FirstOpt(m.additional) < |m.additional| {
      LastReplacementWins(m, a, b);
    } else {
      LastAdditionWins(m, a, b);
    }
  }

  /** The rewritten RDLENGTH, or the raised ARCOUNT, fits its sixteen bits. */
  predicate RewriteFits(p: seq<byte>)
    requires |p| >= 12
  {
    match FindOpt(p)
    case Some(o) => |PrintOptions(Kept(Options(o.options)))| + 11 < 0x1_0000
    case None => U16(p[10], p[11]) + 1 < 0x1_0000
  }

  lemma {:induction false} FitsTheSame(m: Message)
    requires m.Valid()
    ensures |Encode(m)| >= 12 && (RewriteFits(Encode(m)) <==> EcsFits(m))
  {
    hide FindOpt, Encode, EncBody, PrintOptions, Kept, Options;
    HeaderAndBody(m);
    if FirstOpt(m.additional) < |m.additional| {
      FindOptReplaced(m);
    } else {
      assert m.additional[..|m.additional|] == m.additional;
      FindOptMissing(m);
    }
  }

  /** Last writer wins, so ARCOUNT is never raised twice: this holds exactly when the new fields fit. */
  lemma {:induction false} LastWriterWins(p: seq<byte>, a: ClientIp, b: ClientIp, fabricated: Option<Ip4>)
    requires WellFormed(p) && Announced(a, fabricated).Some? && Announced(b, fabricated).Some?
    ensures SetEcs(p, a, fabricated).Some?
    ensures SetEcs(SetEcs(p, a, fabricated).value, b, fabricated) == SetEcs(p, b, fabricated) <==> RewriteFits(p)
  {
    hide WellFormed, SetEcsIp, RewriteFits, Encode;
    var m := DecodeWellFormed(p);
    FitsTheSame(m);
    LastWriterOnMessage(m, Announced(a, fabricated).value, Announced(b, fabricated).value);
  }

  lemma LastOnJoinWins(m: Message, ar: nat, r: Record, tail: seq<byte>, a: Ip4, b: Ip4)
    requires m.Valid() && NoOpt(m.additional) && |m.additional| < ar < 0x1_0000 && r.Valid() && r.rtype == OPT_TYPE
    ensures var p := Join(Head(m, ar), EncBody(m), EncRecord(r), tail);
            && SetEcsIp(p, a).Some?
            && (SetEcsIp(SetEcsIp(p, a).value, b) == SetEcsIp(p, b)
                <==> |PrintOptions(Kept(Options(r.rdata)))| + 11 < 0x1_0000)
  {
    hide Join, EncBody, EncHeader, SetEcsIp, NewOptions, OptBytes, EncRecord, PrintOptions, Options, Kept;
    SetEcsOnJoin(m, ar, r, tail, a);
    SetEcsOnJoin(m, ar, r, tail, b);
    var na := NewOptions(r.rdata, a);
    var n := Low16(|na|);
    NewOptionsLength(r.rdata, a);
    NewOptionsLength(r.rdata, b);
    SetEcsAgain(m, ar, OptOf(r, 0), na, tail, b);
    if |na| < 0x1_0000 {
      assert na[..n] == na && na[n..] + tail == tail;
      SameKeptSameOptions(r.rdata, a, b);
    } else {
      NewOptionsLength(na[..n], b);
    }
  }

  lemma LastReplacementWins(m: Message, a: Ip4, b: Ip4)
    requires m.Valid() && FirstOpt(m.additional) < |m.additional|
    ensures SetEcsIp(Encode(m), a).Some?
    ensures SetEcsIp(SetEcsIp(Encode(m), a).value, b) == SetEcsIp(Encode(m), b) <==> EcsFits(m)
  {
    hide Join, Encode, EncBody, EncHeader, SetEcsIp, EncRecord, EncRecords, PrintOptions, Options, Kept;
    var i := FirstOpt(m.additional);
    EncodeCut(m, i);
    LastOnJoinWins(m.(additional := m.additional[..i]), |m.additional|, m.additional[i],
        EncRecords(m.additional[i + 1..]), a, b);
  }

  /** Where an OPT record is found, the packet up to it is made of encoded records, whatever follows. */
  lemma DecodeToOpt(p: seq<byte>) returns (m: Message, r: Record, tail: seq<byte>)
    requires FindOpt(p).Some?
    ensures m.Valid() && NoOpt(m.additional) && |m.additional| < U16(p[10], p[11]) && r.Valid() && r.rtype == OPT_TYPE
    ensures p == Join(Head(m, U16(p[10], p[11])), EncBody(m), EncRecord(r), tail)
  {
    hide At, EncQuestions, EncRecords, EncRecord, EncHeader, AfterQuestions, AfterRecords, AfterName, OptIn;
    var qd, an, ns, ar := U16(p[4], p[5]), U16(p[6], p[7]), U16(p[8], p[9]), U16(p[10], p[11]);
    var q := AfterQuestions(p, 12, qd).value;
    var s := AfterRecords(p, q, an + ns).value;
    OptInBounds(p, s, ar);
    RecordsGrow(p, q, an + ns);
    var qs := QuestionsDecode(p, 12, qd);
    AfterRecordsSplit(p, q, an, ns);
    var ra := RecordsDecode(p, q, an);
    var rn := RecordsDecode(p, q + |EncRecords(ra)|, ns);
    var rr;
    rr, r := OptInDecode(p, s, ar);
    m := Message(p[..4], qs, ra, rn, rr);
    HeaderOf(p);
    AtSplit(p, q + |EncRecords(ra)|, EncRecords(rn), EncRecords(rr));
    AtSplit(p, q, EncRecords(ra), EncRecords(rn) + EncRecords(rr));
    AtSplit(p, 12, EncQuestions(qs), EncRecords(ra) + (EncRecords(rn) + EncRecords(rr)));
    var e := 12 + |EncBody(m)|;
    AtEnd(p, 12, EncBody(m));
    AtEnd(p, e, EncRecord(r));
    tail := p[e + |EncRecord(r)|..];
    assert p == Join(p[..12], EncBody(m), EncRecord(r), p[12 + |EncBody(m)| + |EncRecord(r)|..]);
  }

  /** In any packet where an OPT record is found, well formed or not, the last writer wins just when it fits. */
  lemma {:induction false} LastWriterWinsWhereFound(p: seq<byte>, a: Ip4, b: Ip4)
    requires FindOpt(p).Some?
    ensures SetEcsIp(p, a).Some?
    ensures SetEcsIp(SetEcsIp(p, a).value, b) == SetEcsIp(p, b) <==> RewriteFits(p)
  {
    hide Join, EncBody, EncHeader, SetEcsIp, EncRecord, PrintOptions, Options, Kept, FindOpt;
    var m, r, tail := DecodeToOpt(p);
    SetEcsOnJoin(m, U16(p[10], p[11]), r, tail, a);
    LastOnJoinWins(m, U16(p[10], p[11]), r, tail, a, b);
  }

  /** No packet shorter than 65536 bytes that is well formed is too full: neither field can overflow. */
  lemma {:induction false} DatagramsFit(p: seq<byte>)
    requires WellFormed(p) && |p| < 0x1_0000
    ensures RewriteFits(p)
  {
    hide Join, EncBody, EncHeader, WellFormed, FindOpt, PrintOptions, Options, Kept, EncRecords;
    if FindOpt(p).Some? {
      var m, r, tail := DecodeToOpt(p);
      SetEcsOnJoin(m, U16(p[10], p[11]), r, tail, Ip4(0, 0, 0, 0));
      KeptIsNoLonger(Options(r.rdata));
      ParsedIsNoLonger(r.rdata);
    } else {
      var m := DecodeWellFormed(p);
      HeaderAndBody(m);
      Sections(m, p);
      RecordsAreLong(m.additional);
    }
  }

  lemma {:induction false} RecordsAreLong(rs: seq<Record>)
    requires ValidRecords(rs)
    ensures |EncRecords(rs)| >= 11 * |rs|
  {
    if rs != [] {
      assert rs[0] in rs;
      RecordsAreLong(rs[1..]);
    }
  }

  /** So on every well-formed datagram the last writer wins, and setting the same address twice changes nothing. */
  lemma {:induction false} LastWriterWinsOnDatagrams(p: seq<byte>, a: ClientIp, b: ClientIp, fabricated: Option<Ip4>)
    requires WellFormed(p) && |p| < 0x1_0000 && Announced(a, fabricated).Some? && Announced(b, fabricated).Some?
    ensures SetEcs(p, a, fabricated).Some?
    ensures SetEcs(SetEcs(p, a, fabricated).value, b, fabricated) == SetEcs(p, b, fabricated)
  {
    hide WellFormed, SetEcs, RewriteFits;
    DatagramsFit(p);
    LastWriterWins(p, a, b, fabricated);
  }

  lemma LastAdditionWins(m: Message, a: Ip4, b: Ip4)
    requires m.Valid() && FirstOpt(m.additional) == |m.additional|
    ensures SetEcsIp(Encode(m), a).Some?
    ensures SetEcsIp(SetEcsIp(Encode(m), a).value, b) == SetEcsIp(Encode(m), b) <==> EcsFits(m)
  {
    hide Join, Encode, EncBody, EncHeader, SetEcsIp, NewOptions, PrintOption, OptBytes, PrintOptions, Options, Kept;
    assert m.additional[..|m.additional|] == m.additional;
    SetEcsAppends(m, a);
    SetEcsAppends(m, b);
    var oa := PrintOption(EcsOption(a));
    if EcsFits(m) {
      SetEcsAgain(m, |m.additional| + 1, Synthetic(0), oa, [], b);
      assert oa[..11] == oa && oa[11..] + [] == [];
      FreshThenOther(a, b);
    } else {
      HeadOfJoin(Head(m, 0), EncBody(m), OptBytes(Synthetic(0), oa), []);
      assert U16(Head(m, 0)[10], Head(m, 0)[11]) == 0;
      NoArcountAppends(SetEcsIp(Encode(m), a).value, b);
    }
  }

  lemma NoRecordsNoBytes()
    ensures EncRecords([]) == []
  {
  }

  /**
   * The OPT record found after a rewrite has the fields of the one found before, and its options are the
   * previous ones without client subnets, in order, followed by the new one.
   */
  lemma {:induction false} FoundAgain(m: Message, ip: Ip4)
    requires m.Valid() && EcsFits(m)
    ensures SetEcsIp(Encode(m), ip).Some?
    ensures var before, after := FindOpt(Encode(m)), FindOpt(SetEcsIp(Encode(m), ip).value);
            && after.Some?
            && (before.Some? ==>
                  && after.value.rrStart == before.value.rrStart
                  && after.value.udpPayloadSize == before.value.udpPayloadSize
                  && after.value.extendedRcode == before.value.extendedRcode
                  && after.value.version == before.value.version
                  && after.value.flags == before.value.flags
                  && Options(after.value.options) == Kept(Options(before.value.options)) + [EcsOption(ip)])
            && (before.None? ==>
                  && after.value.rrStart == |Encode(m)|
                  && after.value.udpPayloadSize == 4096 && after.value.flags == 0
                  && after.value.extendedRcode == 0 && after.value.version == 0
                  && Options(after.value.options) == [EcsOption(ip)])
  {
    hide Encode, EncBody, SetEcsIp, EncRecord, NewOptions, PrintOption, FindOpt, Options, Kept, EcsFits;
    SetEcsCommutes(m, ip);
    var i := FirstOpt(m.additional);
    var m' := WithEcs(m, ip);
    FirstOptKept(m, ip);
    FindOptReplaced(m');
    if i < |m.additional| {
      FindOptReplaced(m);
      NewOptionsRead(m.additional[i].rdata, ip);
      assert m'.additional[..i] == m.additional[..i];
    } else {
      assert m.additional[..i] == m.additional == m'.additional[..i];
      FindOptMissing(m);
      HeaderAndBody(m);
      PrintOne(EcsOption(ip));
      ShortRoundTrip([EcsOption(ip)]);
    }
  }

  /** Only the OPT record at place `i` of the additional section differs, or there is one more at the end. */
  ghost predicate OptExchanged(m: Message, m': Message, i: nat) {
    && m' == m.(additional := m'.additional) && i < |m'.additional| <= i + |m.additional| + 1
    && |m'.additional| == (if i < |m.additional| then |m.additional| else |m.additional| + 1)
    && (forall k :: 0 <= k < |m.additional| && k != i ==> m'.additional[k] == m.additional[k])
    && (forall k :: 0 <= k < i && k < |m.additional| ==> m.additional[k].rtype != 41)
    && (i < |m.additional| ==> m.additional[i].rtype == 41)
    && var opt := m'.additional[i];
    && opt.rtype == 41 && opt.name == Name([], Root)
    && opt.rclass == (if i < |m.additional| then m.additional[i].rclass else 4096)
    && opt.ttl == (if i < |m.additional| then m.additional[i].ttl else [0, 0, 0, 0])
  }

  ghost predicate Exchanged(m: Message, p: seq<byte>) {
    exists m': Message, i: nat :: m'.Valid() && Encode(m') == p && OptExchanged(m, m', i)
  }

  ghost function OptionsOf(o: Option<EdnsOpt>): seq<EdnsOption> {
    match o case None => [] case Some(opt) => Options(opt.options)
  }

  ghost predicate OthersOf(all: seq<EdnsOption>, kept: seq<EdnsOption>) {
    exists places: seq<nat> :: Others(all, kept, places)
  }

  /**
   * What announcing the octets of `x` means: the options after the rewrite are those that were there before and
   * are no client subnets, in their order, and then one client subnet: family 1, 24 bits of source prefix, none of
   * scope, three octets.
   */
  ghost predicate Announces(before: seq<EdnsOption>, after: seq<EdnsOption>, x: Ip4) {
    && after != [] && OthersOf(before, after[..|after| - 1])
    && after[|after| - 1] == EdnsOption(8, [0, 1, 24, 0, x.a, x.b, x.c])
  }

  /** The packet sent is the message with its OPT record exchanged or a new one, and announces `x`. */
  ghost predicate SentFor(m: Message, sent: Option<seq<byte>>, x: Ip4)
    requires m.Valid()
  {
    && sent.Some? && Exchanged(m, sent.value) && FindOpt(sent.value).Some?
    && Announces(OptionsOf(FindOpt(Encode(m))), OptionsOf(FindOpt(sent.value)), x)
  }

  /** A client in IPv4 is announced, a loopback client by its stand-in or not at all; for IPv6 nothing is sent. */
  lemma {:induction false} ClientIsAnnounced(m: Message, client: ClientIp, fabricated: Option<Ip4>)
    requires m.Valid() && EcsFits(m)
    ensures var sent := SetEcs(Encode(m), client, fabricated);
            match client
            case V4(x) =>
              if x.a != 127 then SentFor(m, sent, x)
              else if fabricated.Some? then SentFor(m, sent, fabricated.value)
              else sent == Some(Encode(m))
            case V6 => sent == None
  {
    hide SentFor, Encode, SetEcsIp, EcsFits;
    if client.V4? {
      AddressIsAnnounced(m, client.ip);
      if fabricated.Some? {
        AddressIsAnnounced(m, fabricated.value);
      }
    }
  }

  lemma AddressIsAnnounced(m: Message, x: Ip4)
    requires m.Valid() && EcsFits(m)
    ensures SentFor(m, SetEcsIp(Encode(m), x), x)
  {
    hide Encode, SetEcsIp, EcsFits, FindOpt, Options, Kept, NewOptions, PrintOption, Others, WithEcs;
    SetEcsCommutes(m, x);
    FoundAgain(m, x);
    OnlyOptExchanged(m, x);
    var before, after := OptionsOf(FindOpt(Encode(m))), OptionsOf(FindOpt(SetEcsIp(Encode(m), x).value));
    NoOthers();
    var places := KeptAreOthers(before);
    assert after == Kept(before) + [EcsOption(x)] && after[..|after| - 1] == Kept(before);
    assert OthersOf(before, Kept(before));
  }

  lemma OnlyOptExchanged(m: Message, x: Ip4)
    ensures OptExchanged(m, WithEcs(m, x), FirstOpt(m.additional))
  {
    hide NewOptions, PrintOption;
    FirstIsOpt(m.additional);
  }

  lemma FirstIsOpt(rs: seq<Record>)
    ensures forall k :: 0 <= k < FirstOpt(rs) ==> rs[k].rtype != 41
  {
    var i := FirstOpt(rs);
    assert forall k :: 0 <= k < i ==> rs[..i][k] == rs[k] && rs[k] in rs[..i];
  }

  lemma FirstOptKept(m: Message, ip: Ip4)
    ensures FirstOpt(WithEcs(m, ip).additional) == FirstOpt(m.additional) < |WithEcs(m, ip).additional|
  {
    hide NewOptions, PrintOption;
    var i, rs := FirstOpt(m.additional), WithEcs(m, ip).additional;
    FirstOptIs(rs, i);
  }

  lemma {:induction false} FirstOptIs(rs: seq<Record>, i: nat)
    requires i < |rs| && rs[i].rtype == OPT_TYPE && forall j :: 0 <= j < i ==> rs[j].rtype != OPT_TYPE
    ensures FirstOpt(rs) == i
  {
    if i > 0 {
      FirstOptIs(rs[1..], i - 1);
    }
  }

  lemma HeadOfJoin(h: seq<byte>, b: seq<byte>, x: seq<byte>, tail: seq<byte>)
    requires |h| == 12
    ensures Join(h, b, x, tail)[10] == h[10] && Join(h, b, x, tail)[11] == h[11]
  {
  }

  lemma SameKeptSameOptions(blob: seq<byte>, a: Ip4, b: Ip4)
    ensures NewOptions(NewOptions(blob, a), b) == NewOptions(blob, b)
  {
    hide Options, Kept, PrintOptions;
    NewOptionsRead(blob, a);
  }

  lemma FreshThenOther(a: Ip4, b: Ip4)
    ensures NewOptions(PrintOption(EcsOption(a)), b) == PrintOption(EcsOption(b))
  {
    hide PrintOption, Options, PrintOptions;
    PrintOne(EcsOption(a));
    PrintOne(EcsOption(b));
    ShortRoundTrip([EcsOption(a)]);
    KeptOfKept([], EcsOption(a));
    assert [] + [EcsOption(a)] == [EcsOption(a)];
    assert [] + [EcsOption(b)] == [EcsOption(b)];
  }

  /** After a wrap to zero the OPT record is out of sight, and a second one is appended. */
  lemma {:induction false} NoArcountAppends(p: seq<byte>, ip: Ip4)
    requires |p| >= 12 && U16(p[10], p[11]) == 0
    ensures SetEcsIp(p, ip).Some? && |SetEcsIp(p, ip).value| == |p| + 22
  {
    assert FindOpt(p) == None;
  }

  /** Without an OPT record in sight 22 bytes are appended, and if the new one is out of sight too, again. */
  lemma UnseenGrows(p: seq<byte>, ip: Ip4)
    requires |p| >= 12 && FindOpt(p).None?
    ensures var y := OptBytes(Synthetic(|p|), PrintOption(EcsOption(ip)));
            |y| == 22 && SetEcsIp(p, ip) == Some(RaiseArcount(p + y))
  {
    hide FindOpt, OptBytes, RaiseArcount;
    var y := OptBytes(Synthetic(|p|), PrintOption(EcsOption(ip)));
    assert p[..|p|] + y + p[|p|..] == p + y;
  }

  /** A query that announces one answer and has none. */
  const CUT_SHORT: seq<byte> := [0, 0, 1, 0, 0, 1, 0, 1, 0, 0, 0, 0, 0, 0, 1, 0, 1]

  /**
   * A packet that the walk rejects may lose the last-writer law though every field fits: the appended record is
   * taken for the missing answer, so a second one is appended.
   */
  lemma {:induction false} RejectedPacketGrows(a: Ip4, b: Ip4)
    ensures !WellFormed(CUT_SHORT) && RewriteFits(CUT_SHORT)
    ensures var once := SetEcsIp(CUT_SHORT, a);
            && once.Some? && |once.value| == 39
            && var twice := SetEcsIp(once.value, b);
               twice.Some? && |twice.value| == 61 && twice != SetEcsIp(CUT_SHORT, b)
  {
    hide SetEcsIp, WellFormed, RewriteFits, FindOpt, RaiseArcount, PrintOption, OptBytes;
    var y := OptBytes(Synthetic(17), PrintOption(EcsOption(a)));
    CutShortUnseen(CUT_SHORT);
    UnseenGrows(CUT_SHORT, a);
    UnseenGrows(CUT_SHORT, b);
    var q := RaiseArcount(CUT_SHORT + y);
    FreshOptBytes(17, a);
    RaisedBytes(CUT_SHORT + y, q);
    assert |q| == 39 && q[4] == 0 && q[5] == 1 && q[6] == 0 && q[7] == 1 && q[8] == 0 && q[9] == 0 by {
      assert q[17] == y[0] && q[26] == y[9] && q[27] == y[10];
    }
    assert q[12] == 0 && q[17] == 0 && q[26] == 0 && q[27] == 11 by {
      assert q[17] == y[0] && q[26] == y[9] && q[27] == y[10];
    }
    SecondUnseen(q);
    UnseenGrows(q, b);
  }

  lemma FreshOptBytes(at: nat, ip: Ip4)
    ensures var y := OptBytes(Synthetic(at), PrintOption(EcsOption(ip)));
            |y| == 22 && y[0] == 0 && y[9] == 0 && y[10] == 11
  {
    hide OptFixed, PrintOption;
    var o := PrintOption(EcsOption(ip));
    var f := OptFixed(Synthetic(at), |o|);
    assert OptBytes(Synthetic(at), o) == [0] + f + o;
    assert U16(f[8], f[9]) == 11;
  }

  lemma CutShortUnseen(p: seq<byte>)
    requires p == CUT_SHORT
    ensures FindOpt(p).None? && !WellFormed(p) && RewriteFits(p)
  {
    hide AfterName, AfterQuestions, AfterRecords, OptIn;
    RootWalks(p, 12);
    NothingAtEnd(p, 17, 1);
  }

  lemma RaisedBytes(p: seq<byte>, q: seq<byte>)
    requires |p| >= 12 && q == RaiseArcount(p)
    ensures |q| == |p| && forall i :: 0 <= i < |p| && i != 10 && i != 11 ==> q[i] == p[i]
  {
    hide RaiseArcount;
    assert forall i :: 12 <= i < |p| ==> q[i] == q[12..][i - 12] && p[i] == p[12..][i - 12];
    assert forall i :: 0 <= i < 10 ==> q[i] == q[..10][i] && p[i] == p[..10][i];
  }

  /** One question at the root, and one record at the root. */
  lemma RootWalks(q: seq<byte>, pos: nat)
    requires pos < |q| && q[pos] == 0
    ensures AfterName(q, pos) == Some(pos + 1) && AfterQuestions(q, pos, 1) == Some(pos + 5)
    ensures pos + 11 <= |q| && pos + 11 + U16(q[pos + 9], q[pos + 10]) <= |q| ==>
              AfterRecords(q, pos, 1) == Some(pos + 11 + U16(q[pos + 9], q[pos + 10]))
  {
    assert AfterQuestions(q, pos + 5, 0) == Some(pos + 5);
    assert forall e: nat :: AfterRecords(q, e, 0) == Some(e);
  }

  lemma NothingAtEnd(q: seq<byte>, pos: nat, count: nat)
    requires pos >= |q|
    ensures OptIn(q, pos, count) == None && (count > 0 ==> AfterRecords(q, pos, count) == None)
  {
  }

  lemma SecondUnseen(q: seq<byte>)
    requires |q| == 39 && q[4] == 0 && q[5] == 1 && q[6] == 0 && q[7] == 1 && q[8] == 0 && q[9] == 0
    requires q[12] == 0 && q[17] == 0 && q[26] == 0 && q[27] == 11
    ensures FindOpt(q).None?
  {
    hide AfterName, AfterQuestions, AfterRecords, OptIn;
    RootWalks(q, 12);
    RootWalks(q, 17);
    NothingAtEnd(q, 39, U16(q[10], q[11]));
  }
}
