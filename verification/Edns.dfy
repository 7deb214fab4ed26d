/** EDNS options and the search for an OPT record (sections 6.1.1 and 6.1.2 of RFC 6891). */
module Edns {
  import opened Bytes
  import opened Wire
  import opened Message

  const OPT_TYPE: u16 := 41
  const ECS_CODE: u16 := 8

  // ---- Options inside an OPT record

  datatype EdnsOption = EdnsOption(code: u16, data: seq<byte>)

  function Options(b: seq<byte>): seq<EdnsOption>
    decreases |b|
  {
    if |b| < 4 then []
    else
      var len := U16(b[2], b[3]);
      if 4 + len > |b| then []
      else [EdnsOption(U16(b[0], b[1]), b[4..4 + len])] + Options(b[4 + len..])
  }

  lemma OptionsAt(b: seq<byte>, pos: nat)
    requires pos + 4 <= |b| && pos + 4 + U16(b[pos + 2], b[pos + 3]) <= |b|
    ensures var len := U16(b[pos + 2], b[pos + 3]);
            Options(b[pos..]) == [EdnsOption(U16(b[pos], b[pos + 1]), b[pos + 4..pos + 4 + len])]
                + Options(b[pos + 4 + len..])
  {
    var len := U16(b[pos + 2], b[pos + 3]);
    assert b[pos..][4 + len..] == b[pos + 4 + len..];
    assert b[pos..][4..4 + len] == b[pos + 4..pos + 4 + len];
  }

  lemma OptionsEnd(b: seq<byte>)
    requires |b| < 4 || 4 + U16(b[2], b[3]) > |b|
    ensures Options(b) == []
  {
  }

  method ParseOptions(options: seq<byte>) returns (out: seq<EdnsOption>)
    ensures out == Options(options)
  {
    hide Options;
    out := [];
    var pos: nat := 0;
    assert options[0..] == options;
    while pos + 4 <= |options|
      invariant 0 <= pos <= |options|
      invariant out + Options(options[pos..]) == Options(options)
      decreases |options| - pos
    {
      var len := U16(options[pos + 2], options[pos + 3]);
      if pos + 4 + len > |options| {
        OptionsEnd(options[pos..]);
        return;
      }
      OptionsAt(options, pos);
      out := out + [EdnsOption(U16(options[pos], options[pos + 1]), options[pos + 4..pos + 4 + len])];
      pos := pos + 4 + len;
    }
    OptionsEnd(options[pos..]);
  }

  function PrintOption(o: EdnsOption): (b: seq<byte>)
    ensures |b| == 4 + |o.data|
  {
    Be16(o.code) + Be16(Low16(|o.data|)) + o.data
  }

  function PrintOptions(os: seq<EdnsOption>): seq<byte> {
    if os == [] then [] else PrintOption(os[0]) + PrintOptions(os[1..])
  }

  lemma {:induction false} PrintOptionsAppend(a: seq<EdnsOption>, b: seq<EdnsOption>)
    ensures PrintOptions(a + b) == PrintOptions(a) + PrintOptions(b)
  {
    hide PrintOption;
    if a == [] {
      assert a + b == b;
    } else {
      assert (a + b)[1..] == a[1..] + b;
      PrintOptionsAppend(a[1..], b);
    }
  }

  ghost predicate Short(os: seq<EdnsOption>) {
    forall o <- os :: |o.data| < 0x1_0000
  }

  lemma {:induction false} ParsedAreShort(b: seq<byte>)
    ensures Short(Options(b))
    decreases |b|
  {
    if |b| >= 4 && 4 + U16(b[2], b[3]) <= |b| {
      ParsedAreShort(b[4 + U16(b[2], b[3])..]);
    }
  }

  lemma OptionHead(o: EdnsOption, rest: seq<byte>)
    requires |o.data| < 0x1_0000
    ensures Options(PrintOption(o) + rest) == [o] + Options(rest)
  {
    var b := PrintOption(o) + rest;
    assert b[4..4 + |o.data|] == o.data && b[4 + |o.data|..] == rest;
  }

  lemma {:induction false} ShortRoundTrip(os: seq<EdnsOption>)
    requires Short(os)
    ensures Options(PrintOptions(os)) == os
  {
    assert Options([]) == [];
    hide Options, PrintOption;
    if os == [] {
    } else {
      OptionHead(os[0], PrintOptions(os[1..]));
      ShortRoundTrip(os[1..]);
    }
  }

  /** Parsing undoes printing for exactly the option lists whose data lengths fit their 16-bit field. */
  lemma {:induction false} OptionsRoundTrip(os: seq<EdnsOption>)
    ensures Options(PrintOptions(os)) == os <==> Short(os)
  {
    ParsedAreShort(PrintOptions(os));
    if Short(os) {
      ShortRoundTrip(os);
    }
  }

  /** Code, length and data stand in this order, high byte first. */
  lemma {:induction false} OptionLayout(c1: byte, c2: byte, l1: byte, l2: byte, data: seq<byte>, rest: seq<byte>)
    requires |data| == 256 * l1 + l2
    ensures Options([c1, c2, l1, l2] + data + rest) == [EdnsOption(256 * c1 + c2, data)] + Options(rest)
  {
    var b := [c1, c2, l1, l2] + data + rest;
    assert b[4..4 + |data|] == data && b[4 + |data|..] == rest;
  }

  /** What is parsed is all of the blob up to a place where no whole option follows. */
  lemma {:induction false} ParsedPrefix(b: seq<byte>) returns (rest: seq<byte>)
    ensures b == PrintOptions(Options(b)) + rest && (|rest| < 4 || 4 + 256 * rest[2] + rest[3] > |rest|)
    decreases |b|
  {
    if |b| >= 4 && 4 + U16(b[2], b[3]) <= |b| {
      var len := U16(b[2], b[3]);
      var data := b[4..4 + len];
      rest := ParsedPrefix(b[4 + len..]);
      Be16OfU16(b[0], b[1]);
      Be16OfU16(b[2], b[3]);
      assert b == [b[0], b[1]] + [b[2], b[3]] + data + b[4 + len..];
      var os := Options(b[4 + len..]);
      assert ([EdnsOption(U16(b[0], b[1]), data)] + os)[1..] == os;
    } else {
      rest := b;
    }
  }

  /** `options.retain(|opt| opt.code != OPT_CODE_ECS)`. */
  function Kept(os: seq<EdnsOption>): (r: seq<EdnsOption>)
    ensures forall o <- r :: o in os && o.code != ECS_CODE
  {
    if os == [] then [] else (if os[0].code == ECS_CODE then [] else [os[0]]) + Kept(os[1..])
  }

  /** `kept` is `all` without the client subnet options, at these places and in this order. */
  ghost predicate Others(all: seq<EdnsOption>, kept: seq<EdnsOption>, places: seq<nat>) {
    && |places| == |kept|
    && (forall i, j :: 0 <= i < j < |places| ==> places[i] < places[j])
    && (forall i :: 0 <= i < |places| ==> places[i] < |all| && all[places[i]] == kept[i])
    && (forall k :: 0 <= k < |all| ==> (all[k].code != 8 <==> k in places))
  }

  lemma OthersSnoc(all: seq<EdnsOption>, kept: seq<EdnsOption>, places: seq<nat>, o: EdnsOption)
    requires Others(all, kept, places)
    ensures o.code == 8 ==> Others(all + [o], kept, places)
    ensures o.code != 8 ==> Others(all + [o], kept + [o], places + [|all|])
  {
    assert forall p <- places :: p < |all|;
    assert forall k :: 0 <= k < |all| ==> (all + [o])[k] == all[k];
    if o.code != 8 {
      assert forall k :: 0 <= k < |all| ==> (k in places + [|all|] <==> k in places);
    }
  }

  lemma {:induction false} KeptAreOthers(os: seq<EdnsOption>) returns (places: seq<nat>)
    ensures Others(os, Kept(os), places)
  {
    hide Others, Kept;
    places := [];
    if os == [] {
      NoOthers();
    } else {
      var n := |os| - 1;
      var front, last := os[..n], os[n];
      places := KeptAreOthers(front);
      KeptSnoc(front, last);
      assert os == front + [last] && Kept(front) + [] == Kept(front);
      OthersSnoc(front, Kept(front), places, last);
      places := if last.code == 8 then places else places + [n];
    }
  }

  lemma NoOthers()
    ensures Kept([]) == [] && Others([], [], [])
  {
  }

  lemma {:induction false} KeptSnoc(os: seq<EdnsOption>, o: EdnsOption)
    ensures Kept(os + [o]) == Kept(os) + if o.code == ECS_CODE then [] else [o]
  {
    if os == [] {
      assert [o][1..] == [] && [] + [o] == [o];
    } else {
      assert (os + [o])[0] == os[0] && (os + [o])[1..] == os[1..] + [o];
      KeptSnoc(os[1..], o);
    }
  }

  lemma {:induction false} KeptOfKept(os: seq<EdnsOption>, e: EdnsOption)
    requires e.code == ECS_CODE && forall o <- os :: o.code != ECS_CODE
    ensures Kept(os + [e]) == os
  {
    if os != [] {
      assert (os + [e])[0] == os[0] && (os + [e])[1..] == os[1..] + [e];
      KeptOfKept(os[1..], e);
    }
  }

  lemma {:induction false} ParsedIsNoLonger(b: seq<byte>)
    ensures |PrintOptions(Options(b))| <= |b|
    decreases |b|
  {
    hide PrintOption;
    if |b| >= 4 && 4 + U16(b[2], b[3]) <= |b| {
      var len := U16(b[2], b[3]);
      var o := EdnsOption(U16(b[0], b[1]), b[4..4 + len]);
      assert Options(b) == [o] + Options(b[4 + len..]);
      PrintOptionsAppend([o], Options(b[4 + len..]));
      ParsedIsNoLonger(b[4 + len..]);
    }
  }

  lemma {:induction false} KeptIsNoLonger(os: seq<EdnsOption>)
    ensures |PrintOptions(Kept(os))| <= |PrintOptions(os)|
  {
    hide PrintOption;
    if os != [] {
      KeptIsNoLonger(os[1..]);
      PrintOptionsAppend([os[0]], Kept(os[1..]));
      assert [os[0]][1..] == [] && [] + Kept(os[1..]) == Kept(os[1..]);
      assert PrintOptions([os[0]]) == PrintOption(os[0]);
    }
  }

  // ---- The search for the OPT record

  datatype EdnsOpt = EdnsOpt(rrStart: nat, rrEnd: nat, udpPayloadSize: u16,
                             extendedRcode: byte, version: byte, flags: u16, options: seq<byte>)

  /** The loop of `find_opt_record` over the additional section. */
  function OptIn(buf: seq<byte>, pos: nat, count: nat): (r: Option<EdnsOpt>)
    decreases count
  {
    if count == 0 then None
    else
      match AfterName(buf, pos)
      case None => None
      case Some(e) =>
        if e + 10 > |buf| then None
        else
          var end := e + 10 + U16(buf[e + 8], buf[e + 9]);
          if end > |buf| then None
          else if U16(buf[e], buf[e + 1]) == OPT_TYPE then
            Some(EdnsOpt(pos, end, U16(buf[e + 2], buf[e + 3]), buf[e + 4], buf[e + 5],
                         U16(buf[e + 6], buf[e + 7]), buf[e + 10..end]))
          else OptIn(buf, end, count - 1)
  }

  function FindOpt(buf: seq<byte>): Option<EdnsOpt> {
    if |buf| < 12 then None
    else
      match AfterQuestions(buf, 12, U16(buf[4], buf[5]))
      case None => None
      case Some(q) =>
        match AfterRecords(buf, q, U16(buf[6], buf[7]) + U16(buf[8], buf[9]))
        case None => None
        case Some(p) => OptIn(buf, p, U16(buf[10], buf[11]))
  }

  method FindOptRecord(buf: seq<byte>) returns (r: Option<EdnsOpt>)
    ensures r == FindOpt(buf)
  {
    if |buf| < 12 {
      return None;
    }
    var q := SkipQuestions(buf, 12, U16(buf[4], buf[5]));
    if q.None? {
      return None;
    }
    var p := SkipRecords(buf, q.value, U16(buf[6], buf[7]) + U16(buf[8], buf[9]));
    if p.None? {
      return None;
    }
    r := FindOptIn(buf, p.value, U16(buf[10], buf[11]));
  }

  method FindOptIn(buf: seq<byte>, offset: nat, arcount: nat) returns (r: Option<EdnsOpt>)
    ensures r == OptIn(buf, offset, arcount)
  {
    hide AfterName;
    var pos: nat := offset;
    for i := 0 to arcount
      invariant OptIn(buf, pos, arcount - i) == OptIn(buf, offset, arcount)
    {
      var nameEnd := SkipName(buf, pos);
      if nameEnd.None? || nameEnd.value + 10 > |buf| {
        return None;
      }
      var e := nameEnd.value;
      var rdataEnd := e + 10 + U16(buf[e + 8], buf[e + 9]);
      if rdataEnd > |buf| {
        return None;
      }
      if U16(buf[e], buf[e + 1]) == OPT_TYPE {
        return Some(EdnsOpt(pos, rdataEnd, U16(buf[e + 2], buf[e + 3]), buf[e + 4], buf[e + 5],
                            U16(buf[e + 6], buf[e + 7]), buf[e + 10..rdataEnd]));
      }
      pos := rdataEnd;
    }
    return None;
  }

  // ---- What the search finds in an encoded message

  ghost predicate NoOpt(rs: seq<Record>) {
    forall r <- rs :: r.rtype != OPT_TYPE
  }

  /** One turn of the loop: a record of another type is passed over, an OPT record is returned. */
  lemma OptInStep(buf: seq<byte>, pos: nat, r: Record, count: nat)
    requires r.Valid() && At(buf, pos, EncRecord(r)) && count > 0
    ensures r.rtype != OPT_TYPE ==> OptIn(buf, pos, count) == OptIn(buf, pos + |EncRecord(r)|, count - 1)
    ensures r.rtype == OPT_TYPE ==> OptIn(buf, pos, count) == Some(OptOf(r, pos))
  {
    hide At, EncRecord, AfterName, AfterRecord;
    var e := RecordParts(buf, pos, r);
    assert r.ttl == [buf[e + 4], buf[e + 5], buf[e + 6], buf[e + 7]];
  }

  /** The OPT record `r` standing at `pos`, as the search reports it. */
  ghost function OptOf(r: Record, pos: nat): EdnsOpt
    requires r.Valid()
  {
    EdnsOpt(pos, pos + |EncRecord(r)|, r.rclass, r.ttl[0], r.ttl[1], U16(r.ttl[2], r.ttl[3]), r.rdata)
  }

  lemma {:induction false} OptInSkips(buf: seq<byte>, pos: nat, rs: seq<Record>, count: nat)
    requires ValidRecords(rs) && NoOpt(rs) && At(buf, pos, EncRecords(rs)) && |rs| <= count
    ensures OptIn(buf, pos, count) == OptIn(buf, pos + |EncRecords(rs)|, count - |rs|)
    decreases |rs|
  {
    hide At, EncRecord, OptIn;
    if rs != [] {
      AtSplit(buf, pos, EncRecord(rs[0]), EncRecords(rs[1..]));
      OptInStep(buf, pos, rs[0], count);
      OptInSkips(buf, pos + |EncRecord(rs[0])|, rs[1..], count - 1);
    }
  }

  /** Where the search finds an OPT record, it has passed encoded records and stands at an encoded OPT record. */
  lemma {:induction false} OptInDecode(buf: seq<byte>, pos: nat, count: nat) returns (rs: seq<Record>, r: Record)
    requires OptIn(buf, pos, count).Some?
    ensures ValidRecords(rs) && NoOpt(rs) && |rs| < count && r.Valid() && r.rtype == OPT_TYPE
    ensures At(buf, pos, EncRecords(rs)) && At(buf, pos + |EncRecords(rs)|, EncRecord(r))
    decreases count
  {
    hide At, EncRecord;
    r := RecordDecode(buf, pos);
    rs := [];
    OptInStep(buf, pos, r, count);
    if r.rtype == OPT_TYPE {
      AtSlice(buf, pos, pos);
    } else {
      var first := r;
      rs, r := OptInDecode(buf, pos + |EncRecord(first)|, count - 1);
      var all := [first] + rs;
      assert all[1..] == rs;
      AtSplit(buf, pos, EncRecord(first), EncRecords(rs));
      rs := all;
    }
  }
}
