/** The history file in its own terms: what a line is, what a merge adds and in which order, and what is kept. */
module HistoryLaws {
  import opened Bytes
  import opened Strings
  import opened History
  import opened HistoryFlush
  import opened HistoryProtocol
  import opened HistoryLoss

  // ---- Text

  /** Tab, line feed, vertical tab, form feed, carriage return and space. */
  lemma WhiteBytes(b: byte)
    ensures White(b) <==> b in {9, 10, 11, 12, 13, 32}
  {
  }

  lemma {:induction false} WordLenWhite(a: Text, b: Text)
    requires (a != [] && White(a[|a| - 1])) || b == [] || White(b[0])
    ensures WordLen(a + b) == WordLen(a) || a == []
    ensures a != [] && WordLen(a) == |a| ==> b == [] || White(b[0])
  {
    if a != [] && !White(a[0]) {
      assert (a + b)[1..] == a[1..] + b;
      if |a| > 1 {
        WordLenWhite(a[1..], b);
      } else {
        assert a[1..] + b == b;
      }
    }
  }

  /** Words on both sides of white space are found on their own. */
  lemma {:induction false} TokensAppend(a: Text, b: Text)
    requires a == [] || White(a[|a| - 1]) || b == [] || White(b[0])
    ensures Tokens(a + b) == Tokens(a) + Tokens(b)
    decreases |a|
  {
    hide White, Tokens, WordLen;
    if a == [] {
      NoTokens();
      assert a + b == b;
    } else if White(a[0]) {
      LongSlices(a, b, 1);
      TokensAppend(a[1..], b);
      TokenSkip(a);
      TokenSkip(a + b);
    } else {
      WordLenWhite(a, b);
      var n := WordLen(a);
      LongSlices(a, b, n);
      assert a[n..] != [] ==> a[n..][|a| - n - 1] == a[|a| - 1];
      TokensAppend(a[n..], b);
      TokenFirst(a);
      TokenFirst(a + b);
    }
  }

  lemma NoTokens()
    ensures Tokens([]) == []
  {
  }

  lemma TokenSkip(t: Text)
    requires t != [] && White(t[0])
    ensures Tokens(t) == Tokens(t[1..])
  {
  }

  lemma TokenFirst(t: Text)
    requires t != [] && !White(t[0])
    ensures var n := WordLen(t); Tokens(t) == [t[..n]] + Tokens(t[n..])
  {
  }

  lemma LongSlices(a: Text, b: Text, n: nat)
    requires n <= |a|
    ensures (a + b)[n..] == a[n..] + b && (a + b)[..n] == a[..n]
  {
  }

  lemma {:induction false} WhiteHasNone(t: Text)
    requires forall b <- t :: White(b)
    ensures Tokens(t) == []
  {
    if t != [] {
      assert t[0] in t;
      WhiteHasNone(t[1..]);
    }
  }

  /** A word is its own only token, white space has none. */
  lemma {:induction false} TokensOfOne(t: Text)
    ensures Word(t) ==> Tokens(t) == [t]
    ensures (forall b <- t :: White(b)) ==> Tokens(t) == []
  {
    if Word(t) {
      FirstToken(t, []);
      assert t + [] == t;
    }
    if forall b <- t :: White(b) {
      WhiteHasNone(t);
    }
  }

  /** Lines end at line feeds; the last one may lack it. */
  lemma {:induction false} LinesAre(a: Text, b: Text)
    requires 10 !in a
    ensures FileLines(a + [10] + b) == [a] + FileLines(b)
    ensures a != [] ==> FileLines(a) == [a]
    ensures FileLines([]) == []
  {
    SplitAtNewline(a, b);
    NoNewline(a);
  }

  lemma {:induction false} NoNewline(t: Text)
    requires 10 !in t
    ensures SplitOnce(t, 10) == None
  {
    if t != [] {
      assert 10 !in t[1..];
      NoNewline(t[1..]);
    }
  }

  /** A line of the file is a line of the table just if it is not blank: its first word and the others. */
  lemma {:induction false} LineOfTable(line: Text)
    ensures Tokens(line) == [] ==> ParseLines([line]) == []
    ensures Tokens(line) != [] ==> ParseLines([line]) == [Line(Tokens(line)[0], Tokens(line)[1..])]
  {
    hide Tokens;
    var one := [line];
    assert one[1..] == [];
  }

  lemma {:induction false} PrintedIps(domain: Text, ips: seq<Text>)
    ensures domain + PrintIps(ips) == Join([domain] + ips, 32)
    decreases |ips|
  {
    if ips == [] {
      assert [domain] + ips == [domain];
    } else {
      PrintedIps(ips[0], ips[1..]);
      assert ([domain] + ips)[1..] == [ips[0]] + ips[1..];
      assert domain + PrintIps(ips) == domain + [32] + (ips[0] + PrintIps(ips[1..]));
    }
  }

  /** What is written is one line for each domain, with single spaces, each closed by a line feed. */
  lemma {:induction false} PrintedLine(l: Line, rest: Table)
    ensures PrintTable([l] + rest) == Join([l.domain] + l.ips, 32) + [10] + PrintTable(rest)
    ensures PrintTable([]) == []
  {
    assert ([l] + rest)[1..] == rest;
    PrintedIps(l.domain, l.ips);
  }

  // ---- Merging

  /** A domain or an address is in the table after a merge just if it was there or the batch brings it. */
  lemma {:induction false} MergeBrings(t: Table, batch: seq<Record>, d: Text, ip: Text)
    requires Tidy(t)
    ensures var m := MergeAll(t, batch);
            && (d in Domains(m) <==> d in Domains(t) || exists r <- batch :: r.domain == d)
            && (ip in IpsOf(m, d) <==> ip in IpsOf(t, d) || exists r <- batch :: r.domain == d && ip in r.ips)
            && Domains(t) <= Domains(m) && IpsOf(t, d) <= IpsOf(m, d)
            && DistinctTexts(Domains(m)) && DistinctTexts(IpsOf(m, d))
  {
    hide MergeAll, Domains, IpsOf, IpsFor, FirstSeen, AddNew;
    MergeAllIs(t, batch);
    SeenIn(batch, Domains(t), d);
    BroughtIn(batch, d, ip);
    AddNewIs(IpsOf(t, d), IpsFor(batch, d));
    DomainsDiffer(MergeAll(t, batch));
    IpsDiffer(t, d);
  }

  lemma DomainsDiffer(t: Table)
    requires Tidy(t)
    ensures DistinctTexts(Domains(t))
  {
  }

  lemma IpsDiffer(t: Table, d: Text)
    requires Tidy(t)
    ensures DistinctTexts(IpsOf(t, d))
  {
    var i := IndexOf(t, d);
    if i < |t| {
      assert t[i] in t;
    }
  }

  lemma {:induction false} SeenIn(batch: seq<Record>, known: seq<Text>, d: Text)
    ensures d in FirstSeen(batch, known) <==> d !in known && exists r <- batch :: r.domain == d
    decreases |batch|
  {
    if batch != [] {
      var b := batch[0].domain;
      assert batch == [batch[0]] + batch[1..];
      SeenIn(batch[1..], if b in known then known else known + [b], d);
    }
  }

  lemma {:induction false} BroughtIn(batch: seq<Record>, d: Text, ip: Text)
    ensures ip in IpsFor(batch, d) <==> exists r <- batch :: r.domain == d && ip in r.ips
    decreases |batch|
  {
    if batch != [] {
      assert batch == [batch[0]] + batch[1..];
      BroughtIn(batch[1..], d, ip);
    }
  }

  /**
   * The order is that of arrival: a batch in two parts, or an entry with its addresses in two parts, is merged part
   * by part, and what is there keeps its place (`MergeBrings`).
   */
  lemma {:induction false} MergeInParts(t: Table, a: seq<Record>, b: seq<Record>, d: Text, xs: seq<Text>, ys: seq<Text>)
    ensures MergeAll(t, a + b) == MergeAll(MergeAll(t, a), b)
    ensures MergeAll(t, [Record(d, xs + ys)]) == MergeAll(t, [Record(d, xs), Record(d, ys)])
  {
    hide MergeAll, MergeOne;
    MergeTwice(t, a, b);
    var x, y, z := Record(d, xs), Record(d, ys), Record(d, xs + ys);
    assert [x] + [y] == [x, y];
    MergeTwice(t, [x], [y]);
    MergeJustOne(t, x);
    MergeJustOne(MergeOne(t, x), y);
    MergeJustOne(t, z);
    OneInParts(t, d, xs, ys);
  }

  lemma MergeJustOne(t: Table, r: Record)
    ensures MergeAll(t, [r]) == MergeOne(t, r)
  {
    assert [r][1..] == [];
  }

  lemma OneInParts(t: Table, d: Text, xs: seq<Text>, ys: seq<Text>)
    ensures MergeOne(t, Record(d, xs + ys)) == MergeOne(MergeOne(t, Record(d, xs)), Record(d, ys))
  {
    hide AddNew;
    var i := IndexOf(t, d);
    var t' := MergeOne(t, Record(d, xs));
    AddNewTwice(if i < |t| then t[i].ips else [], xs, ys);
    assert IndexOf(t', d) == i by {
      IndexStays(t, t', d, i);
    }
  }

  lemma IndexStays(t: Table, t': Table, d: Text, i: nat)
    requires i == IndexOf(t, d) < |t'| && t'[i].domain == d && |t| <= |t'|
    requires forall j :: 0 <= j < i ==> t'[j].domain == t[j].domain
    ensures IndexOf(t', d) == i
  {
    assert forall j :: 0 <= j < i ==> t'[j].domain != d;
  }

  /** After a flush the last `n` lines are there, or all if there are fewer, and no others. */
  lemma {:induction false} FlushLeaves(t: Table, batch: seq<Record>, n: nat)
    requires batch != []
    ensures var m, f := MergeAll(t, batch), FlushTable(t, batch, n);
            |f| == (if |m| > n then n else |m|) && f == m[|m| - |f|..]
  {
    hide MergeAll;
  }

  // ---- A flush of any file

  /** The addresses on the last line of the domain, none if it has no line. */
  ghost predicate LastLineOf(t: Table, d: Text, ips: seq<Text>) {
    if d in Domains(t) then
      exists i :: 0 <= i < |t| && t[i] == Line(d, ips) && forall j :: i < j < |t| ==> t[j].domain != d
    else ips == []
  }

  lemma LastLineSnoc(t: Table, l: Line, d: Text, ips: seq<Text>)
    requires if l.domain == d then ips == l.ips else LastLineOf(t, d, ips)
    ensures LastLineOf(t + [l], d, ips)
  {
    var t' := t + [l];
    DomainsSnoc(t, l);
    if l.domain == d {
      assert t'[|t|] == l;
    } else if d in Domains(t) {
      var i :| 0 <= i < |t| && t[i] == Line(d, ips) && forall j :: i < j < |t| ==> t[j].domain != d;
      assert t'[i] == t[i];
    }
  }

  lemma {:induction false} LoadKnows(t: Table, d: Text) returns (ips: seq<Text>)
    ensures Listed(Load(t)) && Known(Load(t), d) == (ips, SetOf(ips)) && LastLineOf(t, d, ips)
    decreases |t|
  {
    hide LastLineOf, SetOf, Listed;
    LoadLists(t);
    if t == [] {
      ips := [];
      NothingKnown(d);
    } else {
      var s, l := t[..|t| - 1], t[|t| - 1];
      var before := LoadKnows(s, d);
      ips := if l.domain == d then l.ips else before;
      DomainsSnoc(s, l);
      assert t == s + [l];
      LastLineSnoc(s, l, d, ips);
    }
  }

  lemma NothingKnown(d: Text)
    ensures Listed(Load([])) && Known(Load([]), d) == ([], SetOf([])) && LastLineOf([], d, [])
  {
    NothingSeen();
  }

  lemma EntryKnown(b: Book, r: Record, d: Text, ips: seq<Text>)
    requires Listed(b) && Known(b, d) == (ips, SetOf(ips))
    ensures var more := if r.domain == d then AddNew(ips, r.ips) else ips;
            Known(MergedOne(b, r), d) == (more, SetOf(more))
  {
    hide AddNew, AddUnseen, SetOf;
    UnseenIsNew(ips, r.ips);
  }

  lemma {:induction false} MergedKnows(b: Book, batch: seq<Record>, d: Text, ips: seq<Text>)
    requires Listed(b) && Known(b, d) == (ips, SetOf(ips))
    ensures Known(MergedAll(b, batch), d).0 == AddNew(ips, IpsFor(batch, d))
    decreases |batch|
  {
    hide AddNew, SetOf, Known, MergedOne, Listed;
    if batch == [] {
      NothingNew(ips);
    } else {
      EntryKnown(b, batch[0], d, ips);
      var rest := IpsFor(batch[1..], d);
      if batch[0].domain == d {
        AddNewTwice(ips, batch[0].ips, rest);
        MergedKnows(MergedOne(b, batch[0]), batch[1..], d, AddNew(ips, batch[0].ips));
      } else {
        assert [] + rest == rest;
        MergedKnows(MergedOne(b, batch[0]), batch[1..], d, ips);
      }
    }
  }

  lemma NothingNew(ips: seq<Text>)
    ensures AddNew(ips, []) == ips
  {
  }

  /** What is recorded for a domain in the end: what its last line had, and behind it what the batch brings. */
  ghost predicate RecordedFor(t: Table, batch: seq<Record>, l: Line) {
    exists ips :: LastLineOf(t, l.domain, ips) && l.ips == AddNew(ips, IpsFor(batch, l.domain))
  }

  /** The domains of `f` are the last `n` of those of the file followed by the new ones. */
  ghost predicate LastOf(t: Table, batch: seq<Record>, n: nat, f: Table) {
    var all := Domains(t) + FirstSeen(batch, Domains(t));
    Domains(f) == if |all| > n then all[|all| - n..] else all
  }

  /**
   * What a flush writes to any file, if it does not panic, also to one that lists a domain or an address twice: the
   * last lines, each with the addresses of the last line of its domain and the new ones (`AddedOnce`).
   */
  lemma {:induction false} FlushOfAny(content: Text, batch: seq<Record>, n: nat) returns (f: Table)
    requires batch != [] && RealFlush(content, batch, n).Some?
    ensures RealFlush(content, batch, n).value == PrintTable(f) && LastOf(ParseFile(content), batch, n, f)
    ensures forall l <- f :: RecordedFor(ParseFile(content), batch, l)
  {
    hide ParseFile, PrintTable, Load, MergedAll, Listed, FirstSeen, RecordedFor, Known, Domains;
    var t := ParseFile(content);
    LoadLists(t);
    var b := MergedAll(Load(t), batch);
    MergedOrder(Load(t), batch);
    var c := Cut(b.order, n);
    f := Listing(b.history - SetOf(b.order[..c]), b.order[c..]);
    DomainsOfListing(b.history - SetOf(b.order[..c]), b.order[c..]);
    forall l <- f
      ensures RecordedFor(t, batch, l)
    {
      KnownInListing(b, b.history - SetOf(b.order[..c]), b.order[c..], l);
      LineIsRecorded(t, batch, l);
    }
  }

  lemma DomainsOfListing(history: map<Text, seq<Text>>, order: seq<Text>)
    requires forall d <- order :: d in history
    ensures Domains(Listing(history, order)) == order
  {
  }

  lemma KnownInListing(b: Book, history: map<Text, seq<Text>>, order: seq<Text>, l: Line)
    requires Listed(b) && (forall d <- order :: d in history) && l in Listing(history, order)
    requires (forall d :: d in history ==> d in b.history && history[d] == b.history[d])
    ensures l.ips == Known(b, l.domain).0
  {
  }

  lemma LineIsRecorded(t: Table, batch: seq<Record>, l: Line)
    requires Listed(Load(t)) && l.ips == Known(MergedAll(Load(t), batch), l.domain).0
    ensures RecordedFor(t, batch, l)
  {
    hide Load, MergedAll, Listed, Known, SetOf, LastLineOf, AddNew, IpsFor;
    var ips := LoadKnows(t, l.domain);
    MergedKnows(Load(t), batch, l.domain, ips);
  }

  /** New addresses follow in order, each once, and none that is there already. */
  lemma {:induction false} AddedOnce(ips: seq<Text>, a: seq<Text>, x: Text)
    ensures AddNew(ips, a + [x]) == AddNew(ips, a) + if x in ips || x in a then [] else [x]
    ensures AddNew(ips, []) == ips
  {
    hide AddNew;
    NothingNew(ips);
    AddNewTwice(ips, a, [x]);
    AddNewIs(ips, a);
    AddJustOne(AddNew(ips, a), x);
  }

  lemma AddJustOne(ips: seq<Text>, x: Text)
    ensures AddNew(ips, [x]) == ips + if x in ips then [] else [x]
  {
    assert [x][1..] == [];
  }

  /** New domains follow in the order they are first seen, and addresses come from all entries of the domain. */
  lemma {:induction false} SeenInOrder(batch: seq<Record>, known: seq<Text>, r: Record, d: Text)
    ensures FirstSeen(batch + [r], known)
            == FirstSeen(batch, known) + if r.domain in known || r.domain in FirstSeen(batch, known) then []
                                         else [r.domain]
    ensures IpsFor(batch + [r], d) == IpsFor(batch, d) + if r.domain == d then r.ips else []
    ensures FirstSeen([], known) == [] && IpsFor([], d) == []
    decreases |batch|
  {
    if batch == [] {
      assert batch + [r] == [r] && [r][1..] == [];
    } else {
      assert (batch + [r])[0] == batch[0] && (batch + [r])[1..] == batch[1..] + [r];
      var b := batch[0].domain;
      SeenInOrder(batch[1..], if b in known then known else known + [b], r, d);
    }
  }

  // ---- Pushing

  /** A pusher that fills the queue, or finds it full, sees to it that a flush is alive; no other does. */
  lemma {:induction false} FullQueueIsFlushed(s: State, r: Record, lines: nat)
    requires !s.aborted && |s.queue| <= 100
    ensures var p, s1 := |s.pushers|, Do(s, Arrive(r), lines);
            Enabled(s, Arrive(r)) && Enabled(s1, Offer(p))
            && var s2 := Do(s1, Offer(p), lines);
               if |s.queue| < 100 then
                 && s2.queue == s.queue + [r] && s2.accepted == s.accepted + [r] && Enabled(s2, CheckLength(p))
                 && var s3 := Do(s2, CheckLength(p), lines);
                    if |s.queue| < 99 then s3.pushers[p] == Left && s3.flushers == s.flushers
                    else
                      && Enabled(s3, TrySpawn(p))
                      && var s4 := Do(s3, TrySpawn(p), lines);
                         FlushAlive(s, s4) && s4.pushers[p] == Left
               else
                 && s2.queue == s.queue && s2.accepted == s.accepted && Enabled(s2, TrySpawn(p))
                 && var s3 := Do(s2, TrySpawn(p), lines);
                    FlushAlive(s, s3) && s3.pushers[p] == Offering(r)
  {
  }

  /** The flag is up, and if it was down a new flush has been spawned. */
  ghost predicate FlushAlive(s: State, e: State) {
    && e.flushing
    && e.flushers == s.flushers + if s.flushing then [] else [Flusher(Spawned, Draining([]))]
  }

  /** A flush that nothing interrupts writes the flush of all that it held and found queued, and lowers its flag. */
  lemma {:induction false} FlushAlone(s: FineState, f: nat, lines: nat) returns (e: FineState)
    requires f < |s.flushers| && s.flushers[f].stage.Draining?
    ensures Reach(s, e, lines, 0, 0) && e.queue == [] && f < |e.flushers| && e.flushers[f].stage == Gone
    ensures var all := s.flushers[f].stage.batch + s.queue;
            Some(e.file) == RealFlush(s.file, all, lines) && e.applied == s.applied + if all == [] then [] else [all]
    ensures s.flushers[f].kind.Spawned? ==> !e.flushing
  {
    hide Clean, FlagOk, Reach, RealFlush, Bounded;
    var s1 := DrainAll(s, f, lines);
    NotAborted(s1);
    var all := s.flushers[f].stage.batch + s.queue;
    var s2: FineState := s1;
    FineStep(s1, Step.Drained(f), lines);
    ReachNext(s, s1, Step.Drained(f), lines, 0, 0);
    s2 := Do(s1, Step.Drained(f), lines);
    NotAborted(s2);
    if all != [] {
      FineStep(s2, ReadFile(f), lines);
      ReachNext(s, s2, ReadFile(f), lines, 0, 0);
      s2 := Do(s2, ReadFile(f), lines);
      NotAborted(s2);
      FineStep(s2, WriteFile(f), lines);
      ReachNext(s, s2, WriteFile(f), lines, 0, 0);
      s2 := Do(s2, WriteFile(f), lines);
      NotAborted(s2);
    } else {
      NothingWritten(s.file, lines);
    }
    FineStep(s2, Release(f), lines);
    ReachNext(s, s2, Release(f), lines, 0, 0);
    e := Do(s2, Release(f), lines);
  }

  lemma NothingWritten(file: Text, lines: nat)
    ensures RealFlush(file, [], lines) == Some(file)
  {
  }
}
