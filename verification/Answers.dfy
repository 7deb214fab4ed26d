/** Reading the answer section: addresses and the least TTL. */
module Answers {
  import opened Bytes
  import opened Wire
  import opened Message
  import opened Names

  const A_TYPE: u16 := 1
  const MAX_TTL: nat := 0xFFFF_FFFF

  // ---- `parse_a_records`

  function AddressesIn(buf: seq<byte>, pos: nat, count: nat): seq<Ip4>
    decreases count
  {
    if count == 0 then []
    else
      match AfterName(buf, pos)
      case None => []
      case Some(e) =>
        if e + 10 > |buf| then []
        else
          var len := U16(buf[e + 8], buf[e + 9]);
          var data := e + 10;
          if data + len > |buf| then []
          else
            AddressAt(buf, e) + AddressesIn(buf, data + len, count - 1)
  }

  function ARecords(buf: seq<byte>): seq<Ip4> {
    if |buf| < 12 then []
    else
      match AfterQuestions(buf, 12, U16(buf[4], buf[5]))
      case None => []
      case Some(q) => AddressesIn(buf, q, U16(buf[6], buf[7]))
  }

  /** What one turn of the loop does. */
  lemma AddressesTurn(buf: seq<byte>, pos: nat, count: nat)
    requires count > 0
    ensures var r := AddressesIn(buf, pos, count);
            match AfterName(buf, pos)
            case None => r == []
            case Some(e) =>
              if e + 10 > |buf| || e + 10 + U16(buf[e + 8], buf[e + 9]) > |buf| then r == []
              else r == AddressAt(buf, e) + AddressesIn(buf, e + 10 + U16(buf[e + 8], buf[e + 9]), count - 1)
  {
  }

  /** The address of a record whose name ends at `e`, if it is an address record. */
  function AddressAt(buf: seq<byte>, e: nat): seq<Ip4>
    requires e + 10 <= |buf| && e + 10 + U16(buf[e + 8], buf[e + 9]) <= |buf|
  {
    if U16(buf[e], buf[e + 1]) == A_TYPE && U16(buf[e + 8], buf[e + 9]) == 4
    then [Ip4(buf[e + 10], buf[e + 11], buf[e + 12], buf[e + 13])] else []
  }

  method ParseARecords(buf: seq<byte>) returns (ips: seq<Ip4>)
    ensures ips == ARecords(buf)
  {
    hide AfterName, AfterQuestions, AddressesIn;
    ips := [];
    if |buf| < 12 {
      return;
    }
    var q := SkipQuestions(buf, 12, U16(buf[4], buf[5]));
    if q.None? {
      return;
    }
    var pos: nat := q.value;
    var ancount := U16(buf[6], buf[7]);
    for i := 0 to ancount
      invariant ips + AddressesIn(buf, pos, ancount - i) == AddressesIn(buf, q.value, ancount)
    {
      AddressesTurn(buf, pos, ancount - i);
      var nameEnd := SkipName(buf, pos);
      if nameEnd.None? || nameEnd.value + 10 > |buf| {
        return;
      }
      var e := nameEnd.value;
      var len := U16(buf[e + 8], buf[e + 9]);
      var data := e + 10;
      if data + len > |buf| {
        return;
      }
      if U16(buf[e], buf[e + 1]) == A_TYPE && len == 4 {
        ips := ips + [Ip4(buf[data], buf[data + 1], buf[data + 2], buf[data + 3])];
      }
      pos := data + len;
    }
    NoAddressesIn(buf, pos);
  }

  /** The addresses of a record list: type A with exactly four octets of data. */
  ghost function Addresses(rs: seq<Record>): seq<Ip4> {
    if rs == [] then []
    else
      var d := rs[0].rdata;
      (if rs[0].rtype == A_TYPE && |d| == 4 then [Ip4(d[0], d[1], d[2], d[3])] else []) + Addresses(rs[1..])
  }

  lemma AddressesStep(buf: seq<byte>, pos: nat, r: Record, count: nat)
    requires r.Valid() && At(buf, pos, EncRecord(r)) && count > 0
    ensures AddressesIn(buf, pos, count) == Addresses([r]) + AddressesIn(buf, pos + |EncRecord(r)|, count - 1)
  {
    hide At, EncRecord, AfterName, AfterRecord, AddressesIn, AddressAt, Addresses;
    var e := RecordParts(buf, pos, r);
    AddressesTurn(buf, pos, count);
    AddressOfRecord(buf, e, r);
  }

  lemma AddressOfRecord(buf: seq<byte>, e: nat, r: Record)
    requires r.Valid() && e + 10 + |r.rdata| <= |buf| && U16(buf[e], buf[e + 1]) == r.rtype
    requires U16(buf[e + 8], buf[e + 9]) == |r.rdata| && buf[e + 10..e + 10 + |r.rdata|] == r.rdata
    ensures AddressAt(buf, e) == Addresses([r])
  {
    var d := buf[e + 10..e + 10 + |r.rdata|];
    assert |r.rdata| == 4 ==> d[0] == buf[e + 10] && d[1] == buf[e + 11] && d[2] == buf[e + 12] && d[3] == buf[e + 13];
    assert [r][1..] == [];
  }

  lemma {:induction false} AddressesWalk(buf: seq<byte>, pos: nat, rs: seq<Record>)
    requires ValidRecords(rs) && At(buf, pos, EncRecords(rs))
    ensures AddressesIn(buf, pos, |rs|) == Addresses(rs)
    decreases |rs|
  {
    hide At, EncRecord, AddressesIn, Addresses;
    if rs == [] {
      NoAddressesIn(buf, pos);
    } else {
      AtSplit(buf, pos, EncRecord(rs[0]), EncRecords(rs[1..]));
      AddressesStep(buf, pos, rs[0], |rs|);
      assert rs == [rs[0]] + rs[1..];
      AddressesCons(rs[0], rs[1..]);
      AddressesWalk(buf, pos + |EncRecord(rs[0])|, rs[1..]);
    }
  }

  lemma NoAddressesIn(buf: seq<byte>, pos: nat)
    ensures AddressesIn(buf, pos, 0) == Addresses([]) == []
  {
  }

  lemma AddressesCons(r: Record, rs: seq<Record>)
    ensures Addresses([r] + rs) == Addresses([r]) + Addresses(rs)
  {
    assert ([r] + rs)[1..] == rs && [r][1..] == [];
  }

  /** `parse_a_records` reads exactly the address records of the answer section, in order. */
  lemma {:induction false} ARecordsOfMessage(m: Message)
    requires m.Valid()
    ensures ARecords(Encode(m)) == Addresses(m.answers)
  {
    hide At, EncQuestions, EncRecords, EncBody, Encode, AfterQuestions, AddressesIn;
    var p := Encode(m);
    HeaderAndBody(m);
    Sections(m, p);
    QuestionsWalk(p, 12, m.questions);
    AddressesWalk(p, 12 + |EncQuestions(m.questions)|, m.answers);
  }

  lemma AddressInPrefix(buf: seq<byte>, n: nat, e: nat)
    requires n <= |buf| && e + 10 <= n && e + 10 + U16(buf[e + 8], buf[e + 9]) <= n
    ensures AddressAt(buf[..n], e) == AddressAt(buf, e)
  {
  }

  lemma {:induction false} AddressesInPrefix(buf: seq<byte>, n: nat, pos: nat, count: nat)
    requires n <= |buf|
    ensures AddressesIn(buf[..n], pos, count) <= AddressesIn(buf, pos, count)
    decreases count
  {
    hide AfterName, AddressesIn, AddressAt;
    AfterNameLocal(buf, n, pos);
    if count == 0 {
      NoAddressesIn(buf[..n], pos);
    } else {
      AddressesTurn(buf[..n], pos, count);
      AddressesTurn(buf, pos, count);
    }
    if count > 0 && AfterName(buf[..n], pos).Some? {
      var e := AfterName(buf[..n], pos).value;
      if e + 10 <= n && e + 10 + U16(buf[e + 8], buf[e + 9]) <= n {
        AddressInPrefix(buf, n, e);
        AddressesInPrefix(buf, n, e + 10 + U16(buf[e + 8], buf[e + 9]), count - 1);
      }
    }
  }

  /** Cutting a reply short, as a small receive buffer does, only ever loses addresses from the end. */
  lemma {:induction false} ARecordsOfPrefix(buf: seq<byte>, n: nat)
    requires n <= |buf|
    ensures ARecords(buf[..n]) <= ARecords(buf)
  {
    hide AfterQuestions, AddressesIn;
    if n >= 12 {
      AfterQuestionsLocal(buf, n, 12, U16(buf[4], buf[5]));
      match AfterQuestions(buf[..n], 12, U16(buf[4], buf[5]))
      case None =>
      case Some(q) => AddressesInPrefix(buf, n, q, U16(buf[6], buf[7]));
    }
  }

  // ---- `min_answer_ttl`

  /** The TTL field of a record whose name ends at `e`. */
  function TtlOf(p: seq<byte>, e: nat): nat
    requires e + 10 <= |p|
  {
    U32(p[e + 4], p[e + 5], p[e + 6], p[e + 7])
  }

  function Lesser(best: nat, ttl: nat): nat {
    if 0 < ttl < best then ttl else best
  }

  /** The loop over the answers, with the least positive TTL so far. */
  function LeastIn(p: seq<byte>, pos: nat, count: nat, best: nat): Option<nat>
    decreases count
  {
    if count == 0 then Some(best)
    else
      match LocalEnd(p, pos)
      case None => None
      case Some(e) =>
        if e + 10 > |p| then None
        else
          var end := e + 10 + U16(p[e + 8], p[e + 9]);
          if end > |p| then None
          else LeastIn(p, end, count - 1, Lesser(best, TtlOf(p, e)))
  }

  lemma LeastTurn(p: seq<byte>, pos: nat, count: nat, best: nat)
    ensures count == 0 ==> LeastIn(p, pos, count, best) == Some(best)
    ensures count > 0 ==>
              var r := LeastIn(p, pos, count, best);
              match LocalEnd(p, pos)
              case None => r == None
              case Some(e) =>
                if e + 10 > |p| || e + 10 + U16(p[e + 8], p[e + 9]) > |p| then r == None
                else r == LeastIn(p, e + 10 + U16(p[e + 8], p[e + 9]), count - 1, Lesser(best, TtlOf(p, e)))
  {
  }

  function LeastTtl(p: seq<byte>): Option<nat> {
    if |p| < 12 || U16(p[6], p[7]) == 0 then None
    else
      match LocalEnd(p, 12)
      case None => None
      case Some(q) =>
        match LeastIn(p, q + 4, U16(p[6], p[7]), MAX_TTL)
        case None => None
        case Some(ttl) => if ttl == MAX_TTL then None else Some(ttl)
  }

  /** The loop over the answers when nested calls may fill the stack. */
  function TtlIn(p: seq<byte>, pos: nat, count: nat, best: nat, depth: nat): Outcome<Option<nat>>
    decreases count
  {
    if count == 0 then Returned(Some(best))
    else
      match Parse(p, pos, [], depth)
      case StackOverflow => StackOverflow
      case Returned(None) => Returned(None)
      case Returned(Some(name)) =>
        if name.end + 10 > |p| then Returned(None)
        else
          var end := name.end + 10 + U16(p[name.end + 8], p[name.end + 9]);
          if end > |p| then Returned(None)
          else TtlIn(p, end, count - 1, Lesser(best, TtlOf(p, name.end)), depth)
  }

  /** All of `min_answer_ttl` on a stack with room for `depth` nested calls. */
  function TtlOn(p: seq<byte>, depth: nat): Outcome<Option<nat>> {
    if |p| < 12 || U16(p[6], p[7]) == 0 then Returned(None)
    else
      match Parse(p, 12, [], depth)
      case StackOverflow => StackOverflow
      case Returned(None) => Returned(None)
      case Returned(Some(name)) =>
        match TtlIn(p, name.end + 4, U16(p[6], p[7]), MAX_TTL, depth)
        case StackOverflow => StackOverflow
        case Returned(None) => Returned(None)
        case Returned(Some(ttl)) => Returned(if ttl == MAX_TTL then None else Some(ttl))
  }

  lemma TtlTurn(p: seq<byte>, pos: nat, count: nat, best: nat, depth: nat)
    ensures count == 0 ==> TtlIn(p, pos, count, best, depth) == Returned(Some(best))
    ensures count > 0 ==>
              var r := TtlIn(p, pos, count, best, depth);
              match Parse(p, pos, [], depth)
              case StackOverflow => r == StackOverflow
              case Returned(None) => r == Returned(None)
              case Returned(Some(d)) =>
                var e := d.end;
                if e + 10 > |p| || e + 10 + U16(p[e + 8], p[e + 9]) > |p| then r == Returned(None)
                else r == TtlIn(p, e + 10 + U16(p[e + 8], p[e + 9]), count - 1, Lesser(best, TtlOf(p, e)), depth)
  {
  }

  method MinAnswerTtl(packet: seq<byte>, depth: nat) returns (r: Outcome<Option<nat>>)
    ensures r == TtlOn(packet, depth)
  {
    hide Parse, TtlIn;
    if |packet| < 12 {
      return Returned(None);
    }
    var ancount := U16(packet[6], packet[7]);
    if ancount == 0 {
      return Returned(None);
    }
    var name := ParseDomain(packet, 12, depth);
    if name.StackOverflow? {
      return StackOverflow;
    }
    if name.value.None? {
      return Returned(None);
    }
    var offset: nat := name.value.value.end + 4;
    ghost var start := offset;
    var minTtl := MAX_TTL;
    for i := 0 to ancount
      invariant TtlIn(packet, offset, ancount - i, minTtl, depth) == TtlIn(packet, start, ancount, MAX_TTL, depth)
    {
      TtlTurn(packet, offset, ancount - i, minTtl, depth);
      name := ParseDomain(packet, offset, depth);
      if name.StackOverflow? {
        return StackOverflow;
      }
      if name.value.None? {
        return Returned(None);
      }
      var e := name.value.value.end;
      if e + 10 > |packet| {
        return Returned(None);
      }
      var ttl := TtlOf(packet, e);
      offset := e + 10 + U16(packet[e + 8], packet[e + 9]);
      if offset > |packet| {
        return Returned(None);
      }
      minTtl := Lesser(minTtl, ttl);
    }
    TtlTurn(packet, offset, 0, minTtl, depth);
    return Returned(if minTtl == MAX_TTL then None else Some(minTtl));
  }

  /** Every record name that the walk visits has a pointer chain that comes to an end. */
  ghost predicate NamesEndFrom(p: seq<byte>, pos: nat, count: nat)
    decreases count
  {
    count > 0 ==>
      && Ends(p, pos, {})
      && match LocalEnd(p, pos)
         case None => true
         case Some(e) =>
           e + 10 <= |p| && e + 10 + U16(p[e + 8], p[e + 9]) <= |p| ==>
             NamesEndFrom(p, e + 10 + U16(p[e + 8], p[e + 9]), count - 1)
  }

  /** So has the question name, if there is an answer to look at, and every answer name the walk visits. */
  ghost predicate NamesEnd(p: seq<byte>) {
    |p| >= 12 && U16(p[6], p[7]) > 0 ==>
      Ends(p, 12, {}) && (LocalEnd(p, 12).Some? ==> NamesEndFrom(p, LocalEnd(p, 12).value + 4, U16(p[6], p[7])))
  }

  /** Returning from a name, on a large stack and on any. */
  lemma NameReturns(p: seq<byte>, pos: nat, depth: nat)
    ensures Parse(p, pos, [], depth).Returned? ==> Ends(p, pos, {})
    ensures Ends(p, pos, {}) && depth >= |p| ==> Parse(p, pos, [], depth).Returned?
  {
    hide Ends, Parse, Next;
    ReturnsIffEnds(p, pos);
    if Parse(p, pos, [], depth).Returned? {
      assert exists d: nat :: Parse(p, pos, [], d).Returned?;
    }
    if Ends(p, pos, {}) && depth >= |p| {
      BelowSize(|p|);
      assert Below(|p|) - {} == Below(|p|);
      EndingReturns(p, pos, {}, [], depth);
    }
  }

  lemma {:induction false} TtlInReturns(p: seq<byte>, pos: nat, count: nat, best: nat, depth: nat)
    ensures var r := TtlIn(p, pos, count, best, depth);
            && (r.Returned? ==> r.value == LeastIn(p, pos, count, best) && NamesEndFrom(p, pos, count))
            && (NamesEndFrom(p, pos, count) && depth >= |p| ==> r.Returned?)
    decreases count
  {
    hide Parse, LocalEnd, Ends, LeastIn, TtlIn, TtlOf;
    TtlTurn(p, pos, count, best, depth);
    LeastTurn(p, pos, count, best);
    if count > 0 {
      NameReturns(p, pos, depth);
      ParsedEnd(p, pos, [], depth);
      if LocalEnd(p, pos).Some? {
        var e := LocalEnd(p, pos).value;
        if e + 10 <= |p| && e + 10 + U16(p[e + 8], p[e + 9]) <= |p| {
          TtlInReturns(p, e + 10 + U16(p[e + 8], p[e + 9]), count - 1, Lesser(best, TtlOf(p, e)), depth);
        }
      }
    }
  }

  /**
   * `min_answer_ttl` returns, on some stack, exactly when every name its walk visits ends; then a stack as deep as
   * the packet is long is enough, and whatever it returns does not depend on where the pointers lead.
   */
  lemma {:induction false} TtlReturnsIffNamesEnd(p: seq<byte>)
    ensures (exists depth: nat :: TtlOn(p, depth).Returned?) <==> NamesEnd(p)
    ensures forall depth: nat :: depth >= |p| && NamesEnd(p) ==> TtlOn(p, depth).Returned?
    ensures forall depth: nat :: TtlOn(p, depth).Returned? ==> TtlOn(p, depth).value == LeastTtl(p)
  {
    hide Parse, LocalEnd, Ends, LeastIn, TtlIn, NamesEndFrom;
    forall depth: nat
      ensures TtlOn(p, depth).Returned? ==> NamesEnd(p) && TtlOn(p, depth).value == LeastTtl(p)
      ensures depth >= |p| && NamesEnd(p) ==> TtlOn(p, depth).Returned?
    {
      if |p| >= 12 {
        NameReturns(p, 12, depth);
        ParsedEnd(p, 12, [], depth);
        if LocalEnd(p, 12).Some? {
          TtlInReturns(p, LocalEnd(p, 12).value + 4, U16(p[6], p[7]), MAX_TTL, depth);
        }
      }
    }
    assert NamesEnd(p) ==> TtlOn(p, |p|).Returned?;
  }

  /** A reply whose question name is a pointer to itself: reading its TTL exhausts every stack. */
  const LOOPING_REPLY: seq<byte> := [0, 0, 0x81, 0x80, 0, 1, 0, 1, 0, 0, 0, 0, 0xC0, 12, 0, 1, 0, 1]

  lemma {:induction false} LoopingReplyNeverReturns(depth: nat)
    ensures TtlOn(LOOPING_REPLY, depth) == StackOverflow
    ensures !NamesEnd(LOOPING_REPLY)
  {
    hide Parse, Ends;
    SelfPointerNeverReturns(LOOPING_REPLY, depth);
    SelfPointerNeverReturns(LOOPING_REPLY, |LOOPING_REPLY|);
    NameReturns(LOOPING_REPLY, 12, |LOOPING_REPLY|);
  }

  lemma {:induction false} BelowSize(n: nat)
    ensures |Below(n)| == n
  {
    if n > 0 {
      BelowSize(n - 1);
    }
  }

  // ---- What the least TTL is

  /** The TTLs of the records that the `skip_rr` walk visits. */
  ghost function TtlsOnWalk(p: seq<byte>, pos: nat, count: nat): Option<seq<nat>>
    decreases count
  {
    if count == 0 then Some([])
    else
      match AfterRecord(p, pos)
      case None => None
      case Some(end) =>
        match TtlsOnWalk(p, end, count - 1)
        case None => None
        case Some(rest) => Some([TtlOf(p, AfterName(p, pos).value)] + rest)
  }

  ghost function Least(ttls: seq<nat>, best: nat): nat {
    if ttls == [] then best else Least(ttls[1..], Lesser(best, ttls[0]))
  }

  /** `t` is positive, one of `ttls`, and no positive one of them is smaller. */
  ghost predicate IsLeastPositive(t: nat, ttls: seq<nat>) {
    t in ttls && t > 0 && forall x <- ttls :: x == 0 || t <= x
  }

  lemma {:induction false} LeastIsLeast(ttls: seq<nat>, best: nat)
    requires best > 0
    ensures var t := Least(ttls, best);
            && 0 < t <= best && (t == best || t in ttls)
            && (forall x <- ttls :: x == 0 || t <= x)
    decreases |ttls|
  {
    if ttls != [] {
      assert forall x <- ttls :: x == ttls[0] || x in ttls[1..];
      LeastIsLeast(ttls[1..], Lesser(best, ttls[0]));
    }
  }

  lemma RecordAt(p: seq<byte>, pos: nat, e: nat)
    requires AfterName(p, pos) == Some(e) && e + 10 <= |p| && e + 10 + U16(p[e + 8], p[e + 9]) <= |p|
    ensures AfterRecord(p, pos) == Some(e + 10 + U16(p[e + 8], p[e + 9]))
  {
  }

  lemma {:induction false} LeastOnWalk(p: seq<byte>, pos: nat, count: nat, best: nat) returns (ttls: seq<nat>)
    requires LeastIn(p, pos, count, best).Some?
    ensures TtlsOnWalk(p, pos, count) == Some(ttls) && |ttls| == count
    ensures LeastIn(p, pos, count, best) == Some(Least(ttls, best))
    decreases count
  {
    hide LocalEnd, AfterName, LeastIn, AfterRecord, TtlOf;
    LeastTurn(p, pos, count, best);
    ttls := [];
    if count > 0 {
      var e := LocalEnd(p, pos).value;
      LocalEndIsSkip(p, pos, e);
      RecordAt(p, pos, e);
      var end := e + 10 + U16(p[e + 8], p[e + 9]);
      var rest := LeastOnWalk(p, end, count - 1, Lesser(best, TtlOf(p, e)));
      ttls := [TtlOf(p, e)] + rest;
      assert ttls[1..] == rest;
    }
  }

  /** An answer is the least positive TTL among exactly the ANCOUNT records of the `skip_rr` walk. */
  lemma {:induction false} LeastTtlIsLeast(p: seq<byte>)
    requires LeastTtl(p).Some?
    ensures LeastTtl(p).value < MAX_TTL && AfterName(p, 12).Some?
    ensures var ttls := TtlsOnWalk(p, AfterName(p, 12).value + 4, U16(p[6], p[7]));
            && ttls.Some? && |ttls.value| == U16(p[6], p[7])
            && IsLeastPositive(LeastTtl(p).value, ttls.value)
  {
    hide LocalEnd, AfterName, LeastIn, TtlsOnWalk, AfterRecord;
    var q := LocalEnd(p, 12).value;
    LocalEndIsSkip(p, 12, q);
    var ttls := LeastOnWalk(p, q + 4, U16(p[6], p[7]), MAX_TTL);
    LeastIsLeast(ttls, MAX_TTL);
  }

  // ---- The least TTL of an encoded message

  ghost function Ttl(r: Record): nat
    requires r.Valid()
  {
    U32(r.ttl[0], r.ttl[1], r.ttl[2], r.ttl[3])
  }

  ghost predicate ReadableNames(rs: seq<Record>) {
    forall r <- rs :: Readable(r.name)
  }

  ghost function Ttls(rs: seq<Record>): (ts: seq<nat>)
    requires ValidRecords(rs)
    ensures |ts| == |rs| && forall i :: 0 <= i < |rs| ==> ts[i] == Ttl(rs[i])
  {
    seq(|rs|, i requires 0 <= i < |rs| => assert rs[i] in rs; Ttl(rs[i]))
  }

  lemma {:induction false} LeastWalk(p: seq<byte>, pos: nat, rs: seq<Record>, best: nat)
    requires ValidRecords(rs) && ReadableNames(rs) && At(p, pos, EncRecords(rs))
    ensures LeastIn(p, pos, |rs|, best) == Some(Least(Ttls(rs), best))
    decreases |rs|
  {
    hide At, EncRecord, LocalEnd, LeastIn, AfterName, AfterRecord;
    LeastTurn(p, pos, |rs|, best);
    if rs != [] {
      AtSplit(p, pos, EncRecord(rs[0]), EncRecords(rs[1..]));
      NameOfRecord(p, pos, rs[0]);
      var e := RecordParts(p, pos, rs[0]);
      assert TtlOf(p, e) == Ttl(rs[0]) by {
        var f := p[e + 4..e + 8];
        assert f[0] == p[e + 4] && f[1] == p[e + 5] && f[2] == p[e + 6] && f[3] == p[e + 7];
      }
      assert Ttls(rs)[1..] == Ttls(rs[1..]);
      LeastWalk(p, pos + |EncRecord(rs[0])|, rs[1..], Lesser(best, Ttl(rs[0])));
    }
  }

  lemma NameOfRecord(p: seq<byte>, pos: nat, r: Record)
    requires r.Valid() && Readable(r.name) && At(p, pos, EncRecord(r))
    ensures LocalEnd(p, pos) == Some(pos + |EncName(r.name)|)
  {
    hide At, EncName, EncFixed;
    AtSplit(p, pos, EncName(r.name), EncFixed(r) + r.rdata);
    ReadableEnd(p, pos, r.name);
  }

  /**
   * For a message with one question and names that are text: an answer is the least positive TTL of the answer
   * section, and there is none exactly when no TTL lies strictly between 0 and the largest 32-bit value.
   */
  lemma {:induction false} LeastTtlOfMessage(m: Message)
    requires m.Valid() && |m.questions| == 1 && Readable(m.questions[0].name) && ReadableNames(m.answers)
    ensures var t := LeastTtl(Encode(m));
            && (t.None? <==> forall x <- Ttls(m.answers) :: x == 0 || x >= MAX_TTL)
            && (t.Some? ==> IsLeastPositive(t.value, Ttls(m.answers)))
  {
    hide At, EncQuestion, EncRecords, EncBody, Encode, LocalEnd, LeastIn, Least, Ttls;
    var p := Encode(m);
    HeaderAndBody(m);
    Sections(m, p);
    OneQuestion(p, m.questions);
    LeastWalk(p, 12 + |EncQuestion(m.questions[0])|, m.answers, MAX_TTL);
    LeastIsLeast(Ttls(m.answers), MAX_TTL);
  }

  lemma OneQuestion(p: seq<byte>, qs: seq<Question>)
    requires |qs| == 1 && qs[0].Valid() && Readable(qs[0].name) && At(p, 12, EncQuestions(qs))
    ensures EncQuestions(qs) == EncQuestion(qs[0])
    ensures LocalEnd(p, 12) == Some(12 + |EncQuestion(qs[0])| - 4)
  {
    hide At, EncName;
    var q := qs[0];
    assert qs[1..] == [];
    assert EncQuestions(qs) == EncQuestion(q);
    AtSplit(p, 12, EncName(q.name), Be16(q.qtype) + Be16(q.qclass));
    ReadableEnd(p, 12, q.name);
  }
}
