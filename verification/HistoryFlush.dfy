/** `HistoryBuffer::flush` itself: read the file, merge a batch, trim, write the file; once and many times. */
module HistoryFlush {
  import opened Bytes
  import opened History

  // ---- The flush itself, with its three collections

  /** `history`, `seen` and `order`. */
  datatype Book = Book(history: map<Text, seq<Text>>, seen: map<Text, set<Text>>, order: seq<Text>)

  ghost function SetOf(s: seq<Text>): set<Text> {
    set x | x in s
  }

  /** The collections hold exactly the table. */
  ghost predicate Holds(b: Book, t: Table) {
    && b.order == Domains(t) && Listed(b)
    && (forall i :: 0 <= i < |t| ==> t[i].domain in b.order)
    && (forall i :: 0 <= i < |t| ==> b.history[t[i].domain] == t[i].ips && b.seen[t[i].domain] == SetOf(t[i].ips))
  }

  method ReadHistory(content: Text) returns (b: Book)
    ensures b == Load(ParseFile(content))
  {
    hide Tokens, FileLines;
    b := Book(map[], map[], []);
    var lines := FileLines(content);
    assert lines[..0] == [];
    for i := 0 to |lines|
      invariant b == Load(ParseLines(lines[..i]))
    {
      var parts := Tokens(lines[i]);
      ParseSnoc(lines, i);
      if |parts| > 0 {
        var domain, ips := parts[0], parts[1..];
        LoadSnoc(ParseLines(lines[..i]), Line(domain, ips));
        b := Book(b.history[domain := ips], b.seen[domain := set x | x in ips], b.order + [domain]);
      } else {
        assert ParseLines(lines[..i]) + [] == ParseLines(lines[..i]);
      }
    }
    assert lines[..|lines|] == lines;
  }

  /** What reading leaves, whether or not a domain comes twice: the last of its lines counts. */
  ghost function Load(t: Table): Book {
    if t == [] then Book(map[], map[], [])
    else
      var b, l := Load(t[..|t| - 1]), t[|t| - 1];
      Book(b.history[l.domain := l.ips], b.seen[l.domain := SetOf(l.ips)], b.order + [l.domain])
  }

  lemma LoadSnoc(t: Table, l: Line)
    ensures var b := Load(t);
                Load(t + [l]) == Book(b.history[l.domain := l.ips], b.seen[l.domain := SetOf(l.ips)],
                    b.order + [l.domain])
  {
    assert (t + [l])[..|t|] == t;
  }

  lemma {:induction false} ParseAppend(a: seq<Text>, b: seq<Text>)
    ensures ParseLines(a + b) == ParseLines(a) + ParseLines(b)
  {
    hide Tokens;
    if a == [] {
      assert a + b == b;
    } else {
      assert (a + b)[0] == a[0] && (a + b)[1..] == a[1..] + b;
      ParseAppend(a[1..], b);
    }
  }

  lemma ParseSnoc(lines: seq<Text>, i: nat)
    requires i < |lines|
    ensures var ts := Tokens(lines[i]);
            ParseLines(lines[..i + 1]) == ParseLines(lines[..i]) + if ts == [] then [] else [Line(ts[0], ts[1..])]
  {
    hide Tokens;
    assert lines[..i + 1] == lines[..i] + [lines[i]];
    ParseAppend(lines[..i], [lines[i]]);
    var one := [lines[i]];
    assert one[1..] == [];
  }

  /** Every listed domain has its addresses and the set of those seen. */
  ghost predicate Listed(b: Book) {
    (forall d :: d in b.history <==> d in b.order) && (forall d :: d in b.seen <==> d in b.order)
  }

  lemma {:induction false} LoadLists(t: Table)
    ensures Load(t).order == Domains(t) && Listed(Load(t))
    decreases |t|
  {
    if t != [] {
      var n := |t| - 1;
      LoadLists(t[..n]);
      DomainsSnoc(t[..n], t[n]);
      assert t == t[..n] + [t[n]];
    }
  }

  lemma DomainsSnoc(t: Table, l: Line)
    ensures Domains(t + [l]) == Domains(t) + [l.domain]
  {
  }

  lemma {:induction false} LoadHolds(t: Table)
    requires DistinctDomains(t)
    ensures Holds(Load(t), t)
    decreases |t|
  {
    hide Holds;
    if t == [] {
      NothingHeld();
    } else {
      var n := |t| - 1;
      LoadHolds(t[..n]);
      assert t == t[..n] + [t[n]];
      HoldsSnoc(Load(t[..n]), t[..n], t[n]);
    }
  }

  lemma NothingHeld()
    ensures Holds(Load([]), [])
  {
  }

  lemma HoldsSnoc(b: Book, t: Table, l: Line)
    requires Holds(b, t) && DistinctDomains(t + [l])
    ensures Holds(Book(b.history[l.domain := l.ips], b.seen[l.domain := SetOf(l.ips)], b.order + [l.domain]), t + [l])
  {
    hide SetOf;
    DomainsSnoc(t, l);
    assert forall i :: 0 <= i < |t| ==> (t + [l])[i] == t[i] && t[i].domain != (t + [l])[|t|].domain;
  }

  /** Addresses not in the set are appended and put into the set. */
  ghost function AddUnseen(ips: seq<Text>, seen: set<Text>, more: seq<Text>): (seq<Text>, set<Text>)
    decreases |more|
  {
    if more == [] then (ips, seen)
    else if more[0] in seen then AddUnseen(ips, seen, more[1..])
    else AddUnseen(ips + [more[0]], seen + {more[0]}, more[1..])
  }

  lemma {:induction false} UnseenIsNew(ips: seq<Text>, more: seq<Text>)
    ensures AddUnseen(ips, SetOf(ips), more) == (AddNew(ips, more), SetOf(AddNew(ips, more)))
    decreases |more|
  {
    if more != [] {
      assert SetOf(ips + [more[0]]) == SetOf(ips) + {more[0]};
      UnseenIsNew(if more[0] in ips then ips else ips + [more[0]], more[1..]);
    }
  }

  /** The inner loop over the addresses of one entry. */
  method AddIps(start: seq<Text>, known: set<Text>, more: seq<Text>) returns (ips: seq<Text>, seen: set<Text>)
    ensures (ips, seen) == AddUnseen(start, known, more)
  {
    ips, seen := start, known;
    assert more[0..] == more;
    for i := 0 to |more|
      invariant AddUnseen(ips, seen, more[i..]) == AddUnseen(start, known, more)
    {
      assert more[i..][1..] == more[i + 1..];
      if more[i] !in seen {
        seen := seen + {more[i]};
        ips := ips + [more[i]];
      }
    }
  }

  /** The merge of a batch. */
  method MergeBatch(start: Book, batch: seq<Record>) returns (b: Book)
    requires Listed(start)
    ensures b == MergedAll(start, batch)
  {
    hide Listed, MergedOne;
    b := start;
    assert batch[0..] == batch;
    for i := 0 to |batch|
      invariant Listed(b) && MergedAll(b, batch[i..]) == MergedAll(start, batch)
    {
      assert batch[i..][1..] == batch[i + 1..];
      b := MergeEntry(b, batch[i]);
    }
  }

  lemma FirstSeenStep(batch: seq<Record>, known: seq<Text>)
    ensures FirstSeen([], known) == []
    ensures batch != [] ==>
              var known' := if batch[0].domain in known then known else known + [batch[0].domain];
              known' + FirstSeen(batch[1..], known') == known + FirstSeen(batch, known)
  {
    if batch != [] && batch[0].domain !in known {
      var d := batch[0].domain;
      assert known + ([d] + FirstSeen(batch[1..], known + [d])) == known + [d] + FirstSeen(batch[1..], known + [d]);
    }
  }

  /** `history.entry(..).or_insert_with(..)` and the loop over the addresses. */
  method MergeEntry(start: Book, r: Record) returns (b: Book)
    requires Listed(start)
    ensures b == MergedOne(start, r)
  {
    hide AddUnseen;
    var existing: seq<Text>, known: set<Text>, order := [], {}, start.order;
    if r.domain in start.history {
      existing, known := start.history[r.domain], start.seen[r.domain];
    } else {
      order := order + [r.domain];
    }
    var ips, seen := AddIps(existing, known, r.ips);
    b := Book(start.history[r.domain := ips], start.seen[r.domain := seen], order);
  }

  /** The addresses recorded for a domain and the set of those seen, empty before its first entry. */
  ghost function Known(b: Book, domain: Text): (seq<Text>, set<Text>)
    requires Listed(b)
  {
    if domain in b.order then (b.history[domain], b.seen[domain]) else ([], {})
  }

  /** What one entry leaves: its addresses that were not seen yet are added, and a new domain is listed last. */
  ghost function MergedOne(b: Book, r: Record): (b': Book)
    requires Listed(b)
    ensures Listed(b')
  {
    var k := Known(b, r.domain);
    var added := AddUnseen(k.0, k.1, r.ips);
    Book(b.history[r.domain := added.0], b.seen[r.domain := added.1],
         if r.domain in b.order then b.order else b.order + [r.domain])
  }

  ghost function MergedAll(b: Book, batch: seq<Record>): (b': Book)
    requires Listed(b)
    ensures Listed(b')
    decreases |batch|
  {
    if batch == [] then b else MergedAll(MergedOne(b, batch[0]), batch[1..])
  }

  /** The order of the domains after a merge, on any collections. */
  lemma {:induction false} MergedOrder(b: Book, batch: seq<Record>)
    requires Listed(b)
    ensures MergedAll(b, batch).order == b.order + FirstSeen(batch, b.order)
    decreases |batch|
  {
    hide Listed, AddUnseen, Known, FirstSeen;
    FirstSeenStep(batch, b.order);
    if batch != [] {
      MergedOrder(MergedOne(b, batch[0]), batch[1..]);
    }
  }

  /** The merge of the collections is the merge of the table they hold. */
  lemma {:induction false} MergedHolds(b: Book, t: Table, batch: seq<Record>)
    requires Listed(b) && Tidy(t) && Holds(b, t)
    ensures Holds(MergedAll(b, batch), MergeAll(t, batch))
    decreases |batch|
  {
    hide Listed, Holds, MergedOne, MergeOne, Tidy;
    if batch != [] {
      EntryHolds(b, t, batch[0]);
      MergeOneIs(t, batch[0]);
      MergedHolds(MergedOne(b, batch[0]), MergeOne(t, batch[0]), batch[1..]);
    }
  }

  lemma EntryHolds(b: Book, t: Table, r: Record)
    requires Listed(b) && Tidy(t) && Holds(b, t)
    ensures Holds(MergedOne(b, r), MergeOne(t, r))
  {
    hide AddNew, SetOf, AddUnseen, Domains;
    var i := IndexOf(t, r.domain);
    DomainKnown(t, r.domain);
    if i < |t| {
      UnseenIsNew(t[i].ips, r.ips);
      EntryReplaced(b, t, i, AddNew(t[i].ips, r.ips));
    } else {
      NothingSeen();
      UnseenIsNew([], r.ips);
      assert DistinctDomains(t + [Line(r.domain, AddNew([], r.ips))]) by {
        assert forall i :: 0 <= i < |t| ==> Domains(t)[i] == t[i].domain;
      }
      HoldsSnoc(b, t, Line(r.domain, AddNew([], r.ips)));
    }
  }

  lemma NothingSeen()
    ensures SetOf([]) == {}
  {
  }

  lemma EntryReplaced(b: Book, t: Table, i: nat, ips: seq<Text>)
    requires DistinctDomains(t) && Holds(b, t) && i < |t|
    ensures var d := t[i].domain;
            Holds(Book(b.history[d := ips], b.seen[d := SetOf(ips)], b.order), t[i := Line(d, ips)])
  {
    hide SetOf;
    assert Domains(t[i := Line(t[i].domain, ips)]) == Domains(t);
  }

  /** `order.drain(..excess)` with the removals from `history`. */
  method TrimBook(b: Book, linesCount: nat) returns (history: map<Text, seq<Text>>, order: seq<Text>)
    ensures order == b.order[Cut(b.order, linesCount)..]
    ensures history == b.history - SetOf(b.order[..Cut(b.order, linesCount)])
  {
    order, history := b.order, b.history;
    assert b.order[..0] == [];
    if |order| > linesCount {
      var excess := |order| - linesCount;
      for i := 0 to excess
        invariant history == b.history - SetOf(b.order[..i])
      {
        history := history - {order[i]};
        assert b.order[..i + 1] == b.order[..i] + [b.order[i]];
      }
      order := order[excess..];
    }
  }

  /** The text of the listed domains; a listed domain without history is a panic. */
  method PrintBook(history: map<Text, seq<Text>>, order: seq<Text>) returns (r: Option<Text>)
    ensures r.Some? <==> forall d <- order :: d in history
    ensures r.Some? ==> r.value == PrintTable(Listing(history, order))
  {
    hide PrintIps;
    var out: Text := [];
    ghost var all := forall d <- order :: d in history;
    ghost var t := if all then Listing(history, order) else [];
    assert t[0..] == t;
    for i := 0 to |order|
      invariant forall j :: 0 <= j < i ==> order[j] in history
      invariant all ==> out + PrintTable(t[i..]) == PrintTable(t)
    {
      if order[i] !in history {
        return None;
      }
      ghost var before := out;
      var line := PrintEntry(order[i], history[order[i]]);
      out := out + line;
      if all {
        assert t[i..][0] == t[i] && t[i..][1..] == t[i + 1..];
        assert before + (line + PrintTable(t[i + 1..])) == out + PrintTable(t[i + 1..]);
      }
    }
    assert all;
    assert out + [] == out;
    return Some(out);
  }

  method PrintEntry(domain: Text, ips: seq<Text>) returns (out: Text)
    ensures out == domain + PrintIps(ips) + [NEWLINE]
  {
    out := domain;
    assert ips[0..] == ips;
    for i := 0 to |ips|
      invariant out + PrintIps(ips[i..]) == domain + PrintIps(ips)
    {
      assert ips[i..][1..] == ips[i + 1..];
      ghost var before := out;
      out := out + [SPACE] + ips[i];
      assert before + ([SPACE] + ips[i] + PrintIps(ips[i + 1..])) == out + PrintIps(ips[i + 1..]);
    }
    assert out + [] == out;
    out := out + [NEWLINE];
  }

  ghost function Cut(order: seq<Text>, n: nat): (c: nat)
    ensures c <= |order|
  {
    if |order| > n then |order| - n else 0
  }

  /** The lines to print, where there is history for each. */
  ghost function Listing(history: map<Text, seq<Text>>, order: seq<Text>): (t: Table)
    requires forall d <- order :: d in history
    ensures |t| == |order| && forall i :: 0 <= i < |t| ==>
            order[i] in history && t[i] == Line(order[i], history[order[i]])
  {
    seq(|order|, i requires 0 <= i < |order| => assert order[i] in order; Line(order[i], history[order[i]]))
  }

  /** A domain that is cut off is listed once more among those that are kept. */
  ghost predicate CutTwice(order: seq<Text>, n: nat) {
    exists d <- order[..Cut(order, n)] :: d in order[Cut(order, n)..]
  }

  lemma PrintsUnlessCutTwice(b: Book, n: nat)
    requires Listed(b)
    ensures var c := Cut(b.order, n);
            (forall d <- b.order[c..] :: d in b.history - SetOf(b.order[..c])) <==> !CutTwice(b.order, n)
  {
    var c := Cut(b.order, n);
    var kept, gone := b.order[c..], b.order[..c];
    assert forall d <- kept :: d in b.order;
    assert forall d <- kept :: d in b.history - SetOf(gone) <==> d !in gone;
  }

  lemma TrimmedListing(b: Book, t: Table, n: nat)
    requires Tidy(t) && Holds(b, t)
    ensures !CutTwice(b.order, n)
    ensures var c := Cut(b.order, n);
            var h := b.history - SetOf(b.order[..c]);
            (forall d <- b.order[c..] :: d in h) && Listing(h, b.order[c..]) == LastLines(t, n)
  {
    hide CutTwice, Tidy, Holds, Cut, Listed, Domains, LastLines, Listing, SetOf;
    var c := Cut(b.order, n);
    HeldOrder(b, t);
    LastFrom(t, n);
    NeverCutTwice(t, n);
    PrintsUnlessCutTwice(b, n);
    LeftIsSame(b.history, SetOf(b.order[..c]));
    forall k | 0 <= k < |t| - c
      ensures b.order[c..][k] in b.history && t[c..][k] == Line(b.order[c..][k], b.history[b.order[c..][k]])
    {
      HeldLine(b, t, c + k);
    }
    ListingIs(b.history, b.history - SetOf(b.order[..c]), b.order[c..], t[c..]);
  }

  lemma LeftIsSame(history: map<Text, seq<Text>>, gone: set<Text>)
    ensures forall d :: d in history - gone ==> d in history && (history - gone)[d] == history[d]
  {
  }

  lemma ListingIs(history: map<Text, seq<Text>>, left: map<Text, seq<Text>>, order: seq<Text>, t: Table)
    requires (forall d <- order :: d in left) && |order| == |t|
    requires forall d :: d in left ==> d in history && left[d] == history[d]
    requires forall k :: 0 <= k < |t| ==> order[k] in history && t[k] == Line(order[k], history[order[k]])
    ensures Listing(left, order) == t
  {
  }

  lemma HeldOrder(b: Book, t: Table)
    requires Holds(b, t)
    ensures b.order == Domains(t) && Listed(b)
  {
  }

  lemma LastFrom(t: Table, n: nat)
    ensures LastLines(t, n) == t[Cut(Domains(t), n)..]
  {
  }

  lemma NeverCutTwice(t: Table, n: nat)
    requires Tidy(t)
    ensures !CutTwice(Domains(t), n)
  {
  }

  lemma HeldLine(b: Book, t: Table, i: nat)
    requires Holds(b, t) && i < |t|
    ensures b.order[i] in b.history && t[i] == Line(b.order[i], b.history[b.order[i]])
  {
    hide SetOf;
  }

  /** What a flush writes to a file with this content, or nothing if it panics. */
  ghost function RealFlush(content: Text, batch: seq<Record>, n: nat): Option<Text> {
    if batch == [] then Some(content)
    else
      LoadLists(ParseFile(content));
      Trimmed(MergedAll(Load(ParseFile(content)), batch), n)
  }

  ghost function Trimmed(b: Book, n: nat): Option<Text> {
    var c := Cut(b.order, n);
    var history := b.history - SetOf(b.order[..c]);
    if forall d <- b.order[c..] :: d in history then Some(PrintTable(Listing(history, b.order[c..]))) else None
  }

  /** The whole flush, on any file. */
  method Flush(content: Text, batch: seq<Record>, linesCount: nat) returns (r: Option<Text>)
    ensures r == RealFlush(content, batch, linesCount)
  {
    hide ParseFile, Load, Listed, Listing, PrintTable, MergedAll;
    if batch == [] {
      return Some(content);
    }
    LoadLists(ParseFile(content));
    var b := ReadHistory(content);
    b := MergeBatch(b, batch);
    var history, order := TrimBook(b, linesCount);
    r := PrintBook(history, order);
  }

  /**
   * On any file a flush panics exactly when a domain that is cut off is listed again, which takes a file that
   * lists it twice.
   */
  lemma {:induction false} FlushPanics(content: Text, batch: seq<Record>, n: nat)
    ensures var ds := Domains(ParseFile(content));
            RealFlush(content, batch, n).None? <==> batch != [] && CutTwice(ds + FirstSeen(batch, ds), n)
  {
    hide ParseFile, MergedAll, Load, CutTwice, Listed, Listing, PrintTable, FirstSeen;
    if batch != [] {
      var t := ParseFile(content);
      LoadLists(t);
      MergedOrder(Load(t), batch);
      PrintsUnlessCutTwice(MergedAll(Load(t), batch), n);
    }
  }

  /** On a file with distinct domains and distinct addresses per line a flush is the table flush. */
  lemma {:induction false} FlushOfTidy(content: Text, batch: seq<Record>, n: nat)
    requires Tidy(ParseFile(content))
    ensures RealFlush(content, batch, n) == Some(FlushFile(content, batch, n))
  {
    hide ParseFile, MergeAll, MergedAll, Load, CutTwice, Listed, Holds, Listing, PrintTable, Tidy;
    if batch != [] {
      var t := ParseFile(content);
      LoadLists(t);
      LoadIsTidy(t);
      MergedHolds(Load(t), t, batch);
      MergeAllIs(t, batch);
      TrimmedListing(MergedAll(Load(t), batch), MergeAll(t, batch), n);
    }
  }

  lemma LoadIsTidy(t: Table)
    requires Tidy(t)
    ensures Holds(Load(t), t)
  {
    LoadHolds(t);
  }

  // ---- Any number of flushes

  ghost predicate AllWords(bs: seq<seq<Record>>) {
    forall b <- bs :: WordBatch(b)
  }

  /** The flushes of `bs` one after the other, unless one of them panics. */
  ghost function FlushEach(file: Text, bs: seq<seq<Record>>, n: nat): Option<Text> {
    if bs == [] then Some(file)
    else
      match FlushEach(file, bs[..|bs| - 1], n)
      case None => None
      case Some(content) => RealFlush(content, bs[|bs| - 1], n)
  }

  lemma FlushEachSnoc(file: Text, bs: seq<seq<Record>>, b: seq<Record>, n: nat)
    requires FlushEach(file, bs, n).Some?
    ensures FlushEach(file, bs + [b], n) == RealFlush(FlushEach(file, bs, n).value, b, n)
  {
    assert (bs + [b])[..|bs|] == bs;
  }

  /** One flush of words leaves a tidy file tidy, and what it writes is read back as the table it stands for. */
  lemma {:induction false} FlushStaysTidy(content: Text, batch: seq<Record>, n: nat)
    requires Tidy(ParseFile(content)) && WordBatch(batch)
    ensures RealFlush(content, batch, n) == Some(FlushFile(content, batch, n))
    ensures ParseFile(FlushFile(content, batch, n)) == FlushTable(ParseFile(content), batch, n)
    ensures Tidy(ParseFile(FlushFile(content, batch, n)))
  {
    hide ParseFile, FlushTable, PrintTable, Tidy, RealFlush;
    FlushOfTidy(content, batch, n);
    if batch == [] {
      assert FlushTable(ParseFile(content), batch, n)
          == ParseFile(content) by { NothingFlushed(ParseFile(content), n); }
    } else {
      FlushIsWords(content, batch, n);
      ReadBack(FlushTable(ParseFile(content), batch, n));
      FlushKeeps(ParseFile(content), batch, n);
    }
  }

  lemma NothingFlushed(t: Table, n: nat)
    ensures FlushTable(t, [], n) == t
  {
  }

  /** From a tidy file, no number of flushes of words panics, and the file is tidy after each. */
  lemma {:induction false} FlushesStayTidy(file: Text, bs: seq<seq<Record>>, n: nat)
    requires Tidy(ParseFile(file)) && AllWords(bs)
    ensures FlushEach(file, bs, n).Some? && Tidy(ParseFile(FlushEach(file, bs, n).value))
    decreases |bs|
  {
    hide ParseFile, Tidy, RealFlush, WordBatch;
    if bs != [] {
      FlushesStayTidy(file, bs[..|bs| - 1], n);
      assert bs[|bs| - 1] in bs;
      FlushStaysTidy(FlushEach(file, bs[..|bs| - 1], n).value, bs[|bs| - 1], n);
    }
  }

  /** On a tidy file the boundary between two flushes of words shows just when a domain that was cut off comes back. */
  lemma {:induction false} FileFlushTwiceExactly(file: Text, a: seq<Record>, b: seq<Record>, n: nat)
    requires Tidy(ParseFile(file)) && WordBatch(a) && WordBatch(b)
    ensures FlushEach(file, [a, b], n) == RealFlush(file, a + b, n)
            <==> a == [] || b == [] || !CutComesBack(ParseFile(file), a, b, n)
  {
    assert WordBatch(a + b);
    hide ParseFile, FlushTable, PrintTable, Tidy, RealFlush, WordBatch, CutComesBack, FlushFile;
    var t := ParseFile(file);
    var once, whole := FlushFile(file, a, n), FlushFile(file, a + b, n);
    FlushStaysTidy(file, a, n);
    FlushStaysTidy(file, a + b, n);
    FlushStaysTidy(once, b, n);
    TwoFlushes(file, a, b, n);
    FlushTwiceExactly(t, a, b, n);
    PrintedIsTable(file, a, b, n);
  }

  lemma TwoFlushes(file: Text, a: seq<Record>, b: seq<Record>, n: nat)
    requires RealFlush(file, a, n).Some?
    ensures FlushEach(file, [a, b], n) == RealFlush(RealFlush(file, a, n).value, b, n)
  {
    hide RealFlush;
    assert [] + [a] == [a] && [a] + [b] == [a, b];
    FlushEachSnoc(file, [], a, n);
    FlushEachSnoc(file, [a], b, n);
  }

  /** Files of words are the same when their tables are. */
  lemma PrintedIsTable(file: Text, a: seq<Record>, b: seq<Record>, n: nat)
    requires Tidy(ParseFile(file)) && WordBatch(a) && WordBatch(b) && WordBatch(a + b)
    requires Tidy(ParseFile(FlushFile(file, a, n)))
    ensures FlushFile(FlushFile(file, a, n), b, n) == FlushFile(file, a + b, n)
            <==> FlushTable(FlushTable(ParseFile(file), a, n), b, n) == FlushTable(ParseFile(file), a + b, n)
  {
    hide ParseFile, FlushTable, PrintTable, Tidy, WordBatch;
    FlushStaysTidy(file, a, n);
    FlushStaysTidy(FlushFile(file, a, n), b, n);
    FlushStaysTidy(file, a + b, n);
    if a == [] {
      assert a + b == b;
    } else if b == [] {
      assert a + b == a;
      NothingFlushed(FlushTable(ParseFile(file), a, n), n);
    }
  }

  // ---- Names that are no words

  /**
   * A label may hold a space. Two such names, flushed to an empty file, are read back as one domain on two lines,
   * and the next flush that cuts one of them off panics.
   */
  lemma {:induction false} SpacedNamesPanic()
    ensures var a, c := Record([97, 32, 98], [[49]]), Record([97, 32, 99], [[49]]);
            var d := Record([100], [[49]]);
            var written := RealFlush([], [a, c], 2);
            && written.Some? && ParseFile(written.value) == [Line([97], [[98], [49]]), Line([97], [[99], [49]])]
            && RealFlush(written.value, [d], 2).None?
  {
    hide ParseFile, RealFlush, FlushFile, PrintTable, FirstSeen, MergeAll;
    var a, c := Record([97, 32, 98], [[49]]), Record([97, 32, 99], [[49]]);
    var d := Record([100], [[49]]);
    var t := [Line([97], [[98], [49]]), Line([97], [[99], [49]])];
    EmptyFile();
    FlushOfTidy([], [a, c], 2);
    SpacedTable(a, c);
    SpacedText(a, c, t);
    ReadBack(t);
    FlushPanics(PrintTable(t), [d], 2);
    SpacedOrder(t, d);
  }

  lemma EmptyFile()
    ensures ParseFile([]) == [] && Tidy(ParseFile([]))
  {
  }

  lemma SpacedTable(a: Record, c: Record)
    requires a == Record([97, 32, 98], [[49]]) && c == Record([97, 32, 99], [[49]])
    ensures FlushFile([], [a, c], 2) == PrintTable([Line(a.domain, a.ips), Line(c.domain, c.ips)])
  {
    hide PrintTable;
    EmptyFile();
    assert AddNew([], [[49]]) == [[49]];
    assert [a, c][1..] == [c] && [c][1..] == [];
    assert MergeOne([], a) == [Line(a.domain, a.ips)];
    assert MergeOne([Line(a.domain, a.ips)], c) == [Line(a.domain, a.ips), Line(c.domain, c.ips)];
    assert MergeAll([Line(a.domain, a.ips)], [c]) == [Line(a.domain, a.ips), Line(c.domain, c.ips)];
  }

  lemma SpacedText(a: Record, c: Record, t: Table)
    requires a == Record([97, 32, 98], [[49]]) && c == Record([97, 32, 99], [[49]])
    requires t == [Line([97], [[98], [49]]), Line([97], [[99], [49]])]
    ensures PrintTable([Line(a.domain, a.ips), Line(c.domain, c.ips)]) == PrintTable(t) && Words(t)
  {
    SameText([97], [98]);
    SameText([97], [99]);
    var u := [Line(a.domain, a.ips), Line(c.domain, c.ips)];
    assert u[1..] == [u[1]] && t[1..] == [t[1]] && [u[1]][1..] == [] && [t[1]][1..] == [];
    assert PrintTable([u[1]]) == PrintTable([t[1]]);
  }

  /** A space in a name reads like the space in front of an address. */
  lemma SameText(x: Text, y: Text)
    ensures x + [SPACE] + y + PrintIps([[49]]) == x + PrintIps([y, [49]])
  {
    assert [y, [49]][1..] == [[49]];
  }

  lemma SpacedOrder(t: Table, d: Record)
    requires t == [Line([97], [[98], [49]]), Line([97], [[99], [49]])] && d == Record([100], [[49]])
    ensures CutTwice(Domains(t) + FirstSeen([d], Domains(t)), 2)
  {
    assert Domains(t) == [[97], [97]];
    assert [d][1..] == [];
    assert FirstSeen([d], Domains(t)) == [[100]];
    var order: seq<Text> := Domains(t) + [[100]];
    assert order == [[97], [97], [100]] && Cut(order, 2) == 1;
    var d0: Text := [97];
    assert order[..1] == [d0] && order[1..][0] == d0;
    assert d0 in order[..Cut(order, 2)] && d0 in order[Cut(order, 2)..];
  }
}
