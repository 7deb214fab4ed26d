/** The name and record walkers of `shared/src/dns.rs`. */
module Wire {
  import opened Bytes

  /** Where `skip_name` ends up when it starts at `pos`. */
  function AfterName(buf: seq<byte>, pos: nat): Option<nat>
    decreases |buf| - pos
  {
    if pos >= |buf| then None
    else if buf[pos] == 0 then Some(pos + 1)
    else if buf[pos] >= 0xC0 then Some(pos + 2)
    else AfterName(buf, pos + 1 + buf[pos])
  }

  method SkipName(buf: seq<byte>, offset: nat) returns (r: Option<nat>)
    ensures r == AfterName(buf, offset)
  {
    var pos := offset;
    while true
      invariant AfterName(buf, pos) == AfterName(buf, offset)
      decreases |buf| - pos
    {
      if pos >= |buf| {
        return None;
      }
      var len := buf[pos];
      if len == 0 {
        return Some(pos + 1);
      } else if len >= 0xC0 {
        return Some(pos + 2);
      } else {
        pos := pos + 1 + len;
      }
    }
  }

  /** `skip_rr`. */
  function AfterRecord(buf: seq<byte>, pos: nat): (r: Option<nat>)
    ensures r.Some? ==> pos + 11 <= r.value <= |buf|
  {
    AfterNameGrows(buf, pos);
    match AfterName(buf, pos)
    case None => None
    case Some(e) =>
      if e + 10 > |buf| then None
      else
        var end := e + 10 + U16(buf[e + 8], buf[e + 9]);
        if end > |buf| then None else Some(end)
  }

  lemma {:induction false} AfterNameGrows(buf: seq<byte>, pos: nat)
    ensures AfterName(buf, pos).Some? ==> pos < |buf| && pos < AfterName(buf, pos).value <= |buf| + 1
    decreases |buf| - pos
  {
    if pos < |buf| && 0 < buf[pos] < 0xC0 {
      AfterNameGrows(buf, pos + 1 + buf[pos]);
    }
  }

  /** The question loop shared by `parse_a_records` and `find_opt_record`. */
  function AfterQuestions(buf: seq<byte>, pos: nat, count: nat): Option<nat>
    decreases count
  {
    if count == 0 then Some(pos)
    else
      match AfterName(buf, pos)
      case None => None
      case Some(e) => AfterQuestions(buf, e + 4, count - 1)
  }

  method SkipQuestions(buf: seq<byte>, offset: nat, count: nat) returns (r: Option<nat>)
    ensures r == AfterQuestions(buf, offset, count)
  {
    var pos := offset;
    for i := 0 to count
      invariant AfterQuestions(buf, pos, count - i) == AfterQuestions(buf, offset, count)
    {
      var e := SkipName(buf, pos);
      if e.None? {
        return None;
      }
      pos := e.value + 4;
    }
    return Some(pos);
  }

  /** The record loop of `find_opt_record`. */
  function AfterRecords(buf: seq<byte>, pos: nat, count: nat): Option<nat>
    decreases count
  {
    if count == 0 then Some(pos)
    else
      match AfterRecord(buf, pos)
      case None => None
      case Some(e) => AfterRecords(buf, e, count - 1)
  }

  method SkipRecords(buf: seq<byte>, offset: nat, count: nat) returns (r: Option<nat>)
    ensures r == AfterRecords(buf, offset, count)
  {
    hide AfterRecord;
    var pos := offset;
    for i := 0 to count
      invariant AfterRecords(buf, pos, count - i) == AfterRecords(buf, offset, count)
    {
      var e := AfterRecord(buf, pos);
      if e.None? {
        return None;
      }
      pos := e.value;
    }
    return Some(pos);
  }

  lemma {:induction false} AfterRecordsSplit(buf: seq<byte>, pos: nat, m: nat, n: nat)
    ensures AfterRecords(buf, pos, m + n) ==
            match AfterRecords(buf, pos, m) case None => None case Some(e) => AfterRecords(buf, e, n)
    decreases m
  {
    if m > 0 {
      match AfterRecord(buf, pos)
      case None =>
      case Some(e) => AfterRecordsSplit(buf, e, m - 1, n);
    }
  }

  // ---- Locality: what is read before the end of a prefix is read in the whole packet too.

  lemma {:induction false} AfterNameLocal(buf: seq<byte>, n: nat, pos: nat)
    requires n <= |buf|
    ensures AfterName(buf[..n], pos).Some? ==> AfterName(buf, pos) == AfterName(buf[..n], pos)
    decreases n - pos
  {
    if pos < n && 0 < buf[pos] < 0xC0 {
      AfterNameLocal(buf, n, pos + 1 + buf[pos]);
    }
  }

  lemma {:induction false} AfterQuestionsLocal(buf: seq<byte>, n: nat, pos: nat, count: nat)
    requires n <= |buf|
    ensures AfterQuestions(buf[..n], pos, count).Some? ==>
              AfterQuestions(buf, pos, count) == AfterQuestions(buf[..n], pos, count)
    decreases count
  {
    if count > 0 {
      AfterNameLocal(buf, n, pos);
      match AfterName(buf[..n], pos)
      case None =>
      case Some(e) => AfterQuestionsLocal(buf, n, e + 4, count - 1);
    }
  }
}
