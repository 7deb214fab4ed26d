/** `parse_domain`, which follows compression pointers (section 4.1.4 of RFC 1035) by calling itself. */
module Names {
  import opened Bytes
  import opened Strings
  import opened Wire
  import opened Message

  /** A call that recurses: it runs out of stack, or it returns. */
  datatype Outcome<+T> = StackOverflow | Returned(value: T)

  datatype Domain = Domain(text: Text, end: nat)

  /** The target of the pointer at `pos`. */
  function Target(payload: seq<byte>, pos: nat): nat
    requires pos + 1 < |payload| && payload[pos] >= 0xC0
  {
    U16(payload[pos] - 0xC0, payload[pos + 1])
  }

  function Extend(domain: Text, part: seq<byte>): Text {
    (if domain == [] then [] else domain + [DOT]) + Lower(part)
  }

  /** The loop of `parse_domain` with `domain` read so far, when `depth` more nested calls fit the stack. */
  function Parse(payload: seq<byte>, offset: nat, domain: Text, depth: nat): Outcome<Option<Domain>>
    decreases depth, |payload| - offset
  {
    if offset >= |payload| then Returned(None)
    else
      var len := payload[offset];
      if len >= 0xC0 then
        if offset + 1 >= |payload| then Returned(None)
        else if depth == 0 then StackOverflow
        else
          match Parse(payload, Target(payload, offset), [], depth - 1)
          case StackOverflow => StackOverflow
          case Returned(None) => Returned(Some(Domain(domain, offset + 2)))
          case Returned(Some(sub)) => Returned(Some(Domain(domain + sub.text, offset + 2)))
      else if len == 0 then Returned(Some(Domain(domain, offset + 1)))
      else if offset + 1 + len > |payload| then Returned(None)
      else
        var part := payload[offset + 1..offset + 1 + len];
        if !ValidUtf8(part) then Returned(None)
        else Parse(payload, offset + 1 + len, Extend(domain, part), depth)
  }

  method ParseDomain(payload: seq<byte>, start: nat, depth: nat) returns (r: Outcome<Option<Domain>>)
    ensures r == Parse(payload, start, [], depth)
    decreases depth
  {
    hide ValidUtf8, Extend;
    var offset := start;
    var domain: Text := [];
    while true
      invariant Parse(payload, offset, domain, depth) == Parse(payload, start, [], depth)
      decreases |payload| - offset
    {
      if offset >= |payload| {
        return Returned(None);
      }
      var len := payload[offset];
      if len >= 0xC0 {
        if offset + 1 >= |payload| {
          return Returned(None);
        }
        if depth == 0 {
          return StackOverflow;
        }
        var sub := ParseDomain(payload, Target(payload, offset), depth - 1);
        if sub.StackOverflow? {
          return StackOverflow;
        }
        if sub.value.Some? {
          domain := domain + sub.value.value.text;
        }
        return Returned(Some(Domain(domain, offset + 2)));
      }
      if len == 0 {
        return Returned(Some(Domain(domain, offset + 1)));
      }
      if offset + 1 + len > |payload| {
        return Returned(None);
      }
      var part := payload[offset + 1..offset + 1 + len];
      if !ValidUtf8(part) {
        return Returned(None);
      }
      domain := Extend(domain, part);
      offset := offset + 1 + len;
    }
  }

  // ---- The part of the name that stands at its own place

  /** Where the name read at `pos` ends, without following any pointer. */
  function LocalEnd(payload: seq<byte>, pos: nat): (r: Option<nat>)
    ensures r.Some? ==> pos < r.value <= |payload|
    decreases |payload| - pos
  {
    if pos >= |payload| then None
    else if payload[pos] >= 0xC0 then if pos + 1 >= |payload| then None else Some(pos + 2)
    else if payload[pos] == 0 then Some(pos + 1)
    else
      var next := pos + 1 + payload[pos];
      if next > |payload| || !ValidUtf8(payload[pos + 1..next]) then None else LocalEnd(payload, next)
  }

  /** The start of the name its pointer leads to, if it ends in a pointer. */
  function Next(payload: seq<byte>, pos: nat): (r: Option<nat>)
    ensures r.Some? ==> pos < |payload|
    decreases |payload| - pos
  {
    if pos >= |payload| then None
    else if payload[pos] >= 0xC0 then if pos + 1 >= |payload| then None else Some(Target(payload, pos))
    else if payload[pos] == 0 then None
    else
      var next := pos + 1 + payload[pos];
      if next > |payload| || !ValidUtf8(payload[pos + 1..next]) then None else Next(payload, next)
  }

  /** The end offset does not depend on where the pointers lead. */
  lemma {:induction false} ParsedEnd(payload: seq<byte>, pos: nat, domain: Text, depth: nat)
    ensures var r := Parse(payload, pos, domain, depth);
            r.Returned? ==>
              && (r.value.Some? <==> LocalEnd(payload, pos).Some?)
              && (r.value.Some? ==> r.value.value.end == LocalEnd(payload, pos).value)
    decreases |payload| - pos
  {
    hide ValidUtf8, Extend;
    if pos < |payload| && 0 < payload[pos] < 0xC0 {
      var next := pos + 1 + payload[pos];
      if next <= |payload| && ValidUtf8(payload[pos + 1..next]) {
        ParsedEnd(payload, next, Extend(domain, payload[pos + 1..next]), depth);
      }
    }
  }

  /** Every part in front of the end is text. */
  predicate Utf8Labels(payload: seq<byte>, pos: nat)
    decreases |payload| - pos
  {
    pos < |payload| && 0 < payload[pos] < 0xC0 ==>
      var next := pos + 1 + payload[pos];
      next <= |payload| ==> ValidUtf8(payload[pos + 1..next]) && Utf8Labels(payload, next)
  }

  /** Both name walkers agree: `LocalEnd` is `skip_name` cut to names that lie in the packet and are text. */
  lemma {:induction false} LocalEndIsSkip(payload: seq<byte>, pos: nat, e: nat)
    ensures LocalEnd(payload, pos) == Some(e) <==>
            AfterName(payload, pos) == Some(e) && e <= |payload| && Utf8Labels(payload, pos)
    decreases |payload| - pos
  {
    hide ValidUtf8;
    if pos < |payload| && 0 < payload[pos] < 0xC0 {
      var next := pos + 1 + payload[pos];
      if next <= |payload| {
        LocalEndIsSkip(payload, next, e);
      }
    }
  }

  /** Whenever `parse_domain` returns, it returns an end exactly when `skip_name` does, and the same one. */
  lemma {:induction false} WalkersAgree(payload: seq<byte>, pos: nat, depth: nat, e: nat)
    requires Parse(payload, pos, [], depth).Returned?
    ensures var r := Parse(payload, pos, [], depth).value;
            (r.Some? && r.value.end == e) <==>
            AfterName(payload, pos) == Some(e) && e <= |payload| && Utf8Labels(payload, pos)
  {
    ParsedEnd(payload, pos, [], depth);
    LocalEndIsSkip(payload, pos, e);
  }

  // ---- Termination

  ghost function Below(n: nat): (s: set<nat>)
    ensures forall x: nat :: x in s <==> x < n
  {
    if n == 0 then {} else Below(n - 1) + {n - 1}
  }

  /** The chain of pointers from `pos` comes to an end: it meets no name start twice. */
  ghost predicate Ends(payload: seq<byte>, pos: nat, seen: set<nat>)
    requires pos !in seen
    decreases Below(|payload|) - seen
  {
    match Next(payload, pos)
    case None => true
    case Some(n) => n !in seen + {pos} && Ends(payload, n, seen + {pos})
  }

  lemma {:induction false} OneHop(payload: seq<byte>, pos: nat, domain: Text, depth: nat)
    ensures Next(payload, pos).None? ==> Parse(payload, pos, domain, depth).Returned?
    ensures Next(payload, pos).Some? ==>
              (Parse(payload, pos, domain, depth).Returned? <==>
               depth > 0 && Parse(payload, Next(payload, pos).value, [], depth - 1).Returned?)
    decreases |payload| - pos
  {
    hide ValidUtf8, Extend;
    if pos < |payload| && 0 < payload[pos] < 0xC0 {
      var next := pos + 1 + payload[pos];
      if next <= |payload| && ValidUtf8(payload[pos + 1..next]) {
        OneHop(payload, next, Extend(domain, payload[pos + 1..next]), depth);
      }
    }
  }

  lemma {:induction false} EndingReturns(payload: seq<byte>, pos: nat, seen: set<nat>, domain: Text, depth: nat)
    requires pos !in seen && Ends(payload, pos, seen)
    requires depth >= |Below(|payload|) - seen|
    ensures Parse(payload, pos, domain, depth).Returned?
    decreases depth
  {
    hide Parse;
    OneHop(payload, pos, domain, depth);
    match Next(payload, pos)
    case None =>
    case Some(n) =>
      var all := Below(|payload|);
      assert all - (seen + {pos}) == (all - seen) - {pos};
      assert pos in all - seen;
      EndingReturns(payload, n, seen + {pos}, [], depth - 1);
  }

  /** A set of name starts whose pointers all lead back into the set. */
  ghost predicate Closed(payload: seq<byte>, s: set<nat>) {
    forall x <- s :: Next(payload, x).Some? && Next(payload, x).value in s
  }

  lemma {:induction false} ClosedOverflows(payload: seq<byte>, s: set<nat>, pos: nat, domain: Text, depth: nat)
    requires Closed(payload, s) && pos in s
    ensures Parse(payload, pos, domain, depth) == StackOverflow
    decreases depth
  {
    hide Parse, Next;
    OneHop(payload, pos, domain, depth);
    if depth > 0 {
      ClosedOverflows(payload, s, Next(payload, pos).value, [], depth - 1);
    }
  }

  lemma {:induction false} NotEndingCloses(payload: seq<byte>, pos: nat, seen: set<nat>) returns (s: set<nat>)
    requires pos !in seen && !Ends(payload, pos, seen)
    requires forall x <- seen :: Next(payload, x).Some? && Next(payload, x).value in seen + {pos}
    ensures Closed(payload, s) && seen + {pos} <= s
    decreases Below(|payload|) - seen
  {
    hide Next;
    var n := Next(payload, pos).value;
    if n in seen + {pos} {
      s := seen + {pos};
    } else {
      s := NotEndingCloses(payload, n, seen + {pos});
    }
  }

  /** `parse_domain` returns, on some stack, exactly when the pointer chain meets no name start twice. */
  lemma {:induction false} ReturnsIffEnds(payload: seq<byte>, pos: nat)
    ensures (exists depth: nat :: Parse(payload, pos, [], depth).Returned?) <==> Ends(payload, pos, {})
  {
    hide Parse, Ends;
    if Ends(payload, pos, {}) {
      EndingReturns(payload, pos, {}, [], |Below(|payload|) - {}|);
    } else {
      var s := NotEndingCloses(payload, pos, {});
      forall depth: nat
        ensures !Parse(payload, pos, [], depth).Returned?
      {
        ClosedOverflows(payload, s, pos, [], depth);
      }
    }
  }

  /** A packet whose first name is a pointer to itself: reading it exhausts every stack. */
  lemma {:induction false} SelfPointerNeverReturns(packet: seq<byte>, depth: nat)
    requires |packet| >= 14 && packet[12] == 0xC0 && packet[13] == 12
    ensures Parse(packet, 12, [], depth) == StackOverflow
  {
    assert Next(packet, 12) == Some(12);
    ClosedOverflows(packet, {12}, 12, [], depth);
  }

  /** Every pointer goes strictly before the name it ends. */
  predicate Backward(payload: seq<byte>, pos: nat)
    decreases pos
  {
    Next(payload, pos).Some? ==> Next(payload, pos).value < pos && Backward(payload, Next(payload, pos).value)
  }

  /** With prior occurrences only, as the standard asks, `pos` nested calls are enough. */
  lemma {:induction false} BackwardReturns(payload: seq<byte>, pos: nat, domain: Text, depth: nat)
    requires Backward(payload, pos) && depth >= pos
    ensures Parse(payload, pos, domain, depth).Returned?
    decreases pos
  {
    hide Parse, Next;
    OneHop(payload, pos, domain, depth);
    if Next(payload, pos).Some? {
      BackwardReturns(payload, Next(payload, pos).value, [], depth - 1);
    }
  }

  /** A larger stack never changes an answer. */
  lemma {:induction false} DeeperIsSame(payload: seq<byte>, pos: nat, domain: Text, d: nat, d': nat)
    requires d <= d' && Parse(payload, pos, domain, d).Returned?
    ensures Parse(payload, pos, domain, d') == Parse(payload, pos, domain, d)
    decreases d, |payload| - pos
  {
    hide ValidUtf8, Extend;
    if pos < |payload| {
      if payload[pos] >= 0xC0 {
        if pos + 1 < |payload| && d > 0 {
          DeeperIsSame(payload, Target(payload, pos), [], d - 1, d' - 1);
        }
      } else if payload[pos] > 0 && pos + 1 + payload[pos] <= |payload| {
        var next := pos + 1 + payload[pos];
        if ValidUtf8(payload[pos + 1..next]) {
          DeeperIsSame(payload, next, Extend(domain, payload[pos + 1..next]), d, d');
        }
      }
    }
  }

  // ---- Names of encoded messages

  ghost predicate Readable(n: Name) {
    forall l <- n.labels :: ValidUtf8(l)
  }

  lemma {:induction false} ReadableEnd(buf: seq<byte>, pos: nat, n: Name)
    requires n.Valid() && Readable(n) && At(buf, pos, EncName(n))
    ensures LocalEnd(buf, pos) == Some(pos + |EncName(n)|)
    decreases |n.labels|
  {
    hide At, EncName, ValidUtf8;
    if n.labels == [] {
      EncNameNil(n);
      AtByte(buf, pos, EncEnd(n.end), 0);
      AtEnd(buf, pos, EncEnd(n.end));
    } else {
      var l, rest := n.labels[0], n.(labels := n.labels[1..]);
      FirstLabel(buf, pos, n);
      ReadableEnd(buf, pos + 1 + |l|, rest);
    }
  }

  /** The first label of a name, as a walker meets it. */
  lemma FirstLabel(buf: seq<byte>, pos: nat, n: Name)
    requires n.Valid() && n.labels != [] && At(buf, pos, EncName(n))
    ensures var l, rest := n.labels[0], n.(labels := n.labels[1..]);
            && rest.Valid() && |EncName(n)| == 1 + |l| + |EncName(rest)|
            && pos + 1 + |l| <= |buf| && buf[pos] == |l| && buf[pos + 1..pos + 1 + |l|] == l
            && At(buf, pos + 1 + |l|, EncName(rest))
  {
    hide At, EncName;
    var l, rest := n.labels[0], n.(labels := n.labels[1..]);
    EncNameCons(l, rest);
    assert n == Name([l] + rest.labels, rest.end);
    AtSplit(buf, pos, [|l|] + l, EncName(rest));
    AtSplit(buf, pos, [|l|], l);
    AtByte(buf, pos, [|l|], 0);
    AtEnd(buf, pos + 1, l);
  }

  /** `domain` with all of `labels` put behind it. */
  function ExtendAll(domain: Text, labels: seq<Text>): Text
    decreases |labels|
  {
    if labels == [] then domain else ExtendAll(Extend(domain, labels[0]), labels[1..])
  }

  lemma {:induction false} ReadableText(buf: seq<byte>, pos: nat, n: Name, domain: Text, depth: nat)
    requires n.Valid() && n.end == Root && Readable(n) && At(buf, pos, EncName(n))
    ensures Parse(buf, pos, domain, depth) == Returned(Some(Domain(ExtendAll(domain, n.labels), pos + |EncName(n)|)))
    decreases |n.labels|
  {
    hide At, EncName, ValidUtf8, Extend;
    if n.labels == [] {
      EncNameNil(n);
      AtByte(buf, pos, EncEnd(n.end), 0);
    } else {
      var l, rest := n.labels[0], n.(labels := n.labels[1..]);
      FirstLabel(buf, pos, n);
      ReadableText(buf, pos + 1 + |l|, rest, Extend(domain, l), depth);
    }
  }

  lemma {:induction false} ExtendAllIsJoin(domain: Text, labels: seq<Text>)
    requires labels != [] && forall l <- labels :: l != []
    ensures ExtendAll(domain, labels) == (if domain == [] then [] else domain + [DOT]) + Join(LowerAll(labels), DOT)
    decreases |labels|
  {
    assert labels[0] in labels;
    var d := Extend(domain, labels[0]);
    assert |d| >= |Lower(labels[0])|;
    if |labels| > 1 {
      assert LowerAll(labels)[1..] == LowerAll(labels[1..]);
      assert forall l <- labels[1..] :: l in labels;
      ExtendAllIsJoin(d, labels[1..]);
    }
  }

  /** A name without pointers is read as its labels in lower case, joined by dots. */
  lemma {:induction false} UncompressedName(buf: seq<byte>, pos: nat, n: Name, depth: nat)
    requires n.Valid() && n.end == Root && n.labels != [] && Readable(n) && At(buf, pos, EncName(n))
    ensures Parse(buf, pos, [], depth) == Returned(Some(Domain(Lower(Join(n.labels, DOT)), pos + |EncName(n)|)))
  {
    ReadableText(buf, pos, n, [], depth);
    ExtendAllIsJoin([], n.labels);
    LowerJoin(n.labels, DOT);
    assert [] + Join(LowerAll(n.labels), DOT) == Join(LowerAll(n.labels), DOT);
  }

  lemma {:induction false} PointerAfter(buf: seq<byte>, pos: nat, n: Name, domain: Text, depth: nat)
    requires n.Valid() && n.end.Pointer? && Readable(n) && At(buf, pos, EncName(n))
    ensures var text, end := ExtendAll(domain, n.labels), pos + |EncName(n)|;
            if depth == 0 then Parse(buf, pos, domain, depth) == StackOverflow
            else
              match Parse(buf, 256 * (n.end.hi - 0xC0) + n.end.lo, [], depth - 1)
              case StackOverflow => Parse(buf, pos, domain, depth) == StackOverflow
              case Returned(None) => Parse(buf, pos, domain, depth) == Returned(Some(Domain(text, end)))
              case Returned(Some(sub)) => Parse(buf, pos, domain, depth) == Returned(Some(Domain(text + sub.text, end)))
    decreases |n.labels|
  {
    hide At, EncName, ValidUtf8, Extend;
    if n.labels == [] {
      EncNameNil(n);
      AtByte(buf, pos, EncEnd(n.end), 0);
      AtByte(buf, pos, EncEnd(n.end), 1);
      AtEnd(buf, pos, EncEnd(n.end));
    } else {
      var l, rest := n.labels[0], n.(labels := n.labels[1..]);
      FirstLabel(buf, pos, n);
      PointerAfter(buf, pos + 1 + |l|, rest, Extend(domain, l), depth);
    }
  }

  /**
   * A name that ends in a pointer is read as its own labels, in lower case and joined by dots, with the text of the
   * name pointed to put right behind them, without a dot; it ends behind the pointer. A name pointed to that cannot
   * be read adds nothing.
   */
  lemma {:induction false} CompressedName(buf: seq<byte>, pos: nat, n: Name, depth: nat)
    requires n.Valid() && n.end.Pointer? && Readable(n) && At(buf, pos, EncName(n)) && depth > 0
    ensures var text := if n.labels == [] then [] else Lower(Join(n.labels, DOT));
            match Parse(buf, 256 * (n.end.hi - 0xC0) + n.end.lo, [], depth - 1)
            case StackOverflow => Parse(buf, pos, [], depth) == StackOverflow
            case Returned(None) => Parse(buf, pos, [], depth) == Returned(Some(Domain(text, pos + |EncName(n)|)))
            case Returned(Some(sub)) =>
              Parse(buf, pos, [], depth) == Returned(Some(Domain(text + sub.text, pos + |EncName(n)|)))
  {
    hide Parse, EncName, Join, Extend;
    PointerAfter(buf, pos, n, [], depth);
    if n.labels != [] {
      ExtendAllIsJoin([], n.labels);
      LowerJoin(n.labels, DOT);
      assert [] + Join(LowerAll(n.labels), DOT) == Join(LowerAll(n.labels), DOT);
    }
  }
}
