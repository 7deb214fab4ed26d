/** The history file of `HistoryBuffer` as text and as a table, and what a flush does to the table. */
module History {
  import opened Bytes
  import opened Strings

  const SPACE: byte := 32
  const NEWLINE: byte := 10

  /** One line of the file: a domain and its addresses. */
  datatype Line = Line(domain: Text, ips: seq<Text>)

  type Table = seq<Line>

  datatype Record = Record(domain: Text, ips: seq<Text>)

  // ---- Reading and printing

  function WordLen(t: Text): (n: nat)
    ensures n <= |t| && (t != [] && !White(t[0]) ==> n > 0)
    ensures forall i :: 0 <= i < n ==> !White(t[i])
    ensures n < |t| ==> White(t[n])
  {
    if t == [] || White(t[0]) then 0 else 1 + WordLen(t[1..])
  }

  /** `split_whitespace`. */
  function Tokens(t: Text): seq<Text>
    decreases |t|
  {
    if t == [] then []
    else if White(t[0]) then Tokens(t[1..])
    else [t[..WordLen(t)]] + Tokens(t[WordLen(t)..])
  }

  /** `lines`; a carriage return before the line end is white space to the tokens anyway. */
  function FileLines(t: Text): seq<Text>
    decreases |t|
  {
    if t == [] then []
    else
      match SplitOnce(t, NEWLINE)
      case None => [t]
      case Some(r) =>
        SplitOnceShrinks(t, NEWLINE);
        [r.0] + FileLines(r.1)
  }

  lemma {:induction false} SplitOnceShrinks(t: Text, sep: byte)
    ensures SplitOnce(t, sep).Some? ==> |SplitOnce(t, sep).value.1| < |t|
  {
    if t != [] && t[0] != sep {
      SplitOnceShrinks(t[1..], sep);
    }
  }

  function ParseLines(lines: seq<Text>): Table {
    if lines == [] then []
    else
      var ts := Tokens(lines[0]);
      (if ts == [] then [] else [Line(ts[0], ts[1..])]) + ParseLines(lines[1..])
  }

  /** The table a file stands for. */
  function ParseFile(content: Text): Table {
    ParseLines(FileLines(content))
  }

  function PrintIps(ips: seq<Text>): Text {
    if ips == [] then [] else [SPACE] + ips[0] + PrintIps(ips[1..])
  }

  function PrintTable(t: Table): Text {
    if t == [] then [] else t[0].domain + PrintIps(t[0].ips) + [NEWLINE] + PrintTable(t[1..])
  }

  /** A name that survives printing and reading: not empty, no white space. */
  predicate Word(t: Text) {
    t != [] && forall i :: 0 <= i < |t| ==> !White(t[i])
  }

  ghost predicate Words(t: Table) {
    forall l <- t :: Word(l.domain) && forall ip <- l.ips :: Word(ip)
  }

  lemma {:induction false} WordLenIs(w: Text, rest: Text)
    requires Word(w) && (rest == [] || White(rest[0]))
    ensures WordLen(w + rest) == |w|
  {
    assert (w + rest)[1..] == w[1..] + rest;
    if |w| > 1 {
      WordLenIs(w[1..], rest);
    } else {
      assert w[1..] + rest == rest;
    }
  }

  lemma FirstToken(w: Text, rest: Text)
    requires Word(w) && (rest == [] || White(rest[0]))
    ensures Tokens(w + rest) == [w] + Tokens(rest)
  {
    WordLenIs(w, rest);
    assert (w + rest)[..|w|] == w && (w + rest)[|w|..] == rest;
  }

  lemma {:induction false} TokensOfIps(ips: seq<Text>)
    requires forall ip <- ips :: Word(ip)
    ensures Tokens(PrintIps(ips)) == ips
    ensures PrintIps(ips) == [] || White(PrintIps(ips)[0])
    ensures forall i :: 0 <= i < |PrintIps(ips)| ==> PrintIps(ips)[i] != NEWLINE
  {
    if ips != [] {
      assert Word(ips[0]);
      TokensOfIps(ips[1..]);
      var p := PrintIps(ips);
      assert p[1..] == ips[0] + PrintIps(ips[1..]);
      FirstToken(ips[0], PrintIps(ips[1..]));
    }
  }

  lemma {:induction false} SplitAtNewline(a: Text, b: Text)
    requires forall i :: 0 <= i < |a| ==> a[i] != NEWLINE
    ensures SplitOnce(a + [NEWLINE] + b, NEWLINE) == Some((a, b))
  {
    var t := a + [NEWLINE] + b;
    if a == [] {
      assert t[1..] == b;
    } else {
      assert t[1..] == a[1..] + [NEWLINE] + b;
      SplitAtNewline(a[1..], b);
      assert [a[0]] + a[1..] == a;
    }
  }

  /** Reading back what was written gives the same table. */
  lemma {:induction false} ReadBack(t: Table)
    requires Words(t)
    ensures ParseFile(PrintTable(t)) == t
  {
    if t != [] {
      var l := t[0];
      assert l in t;
      var line := l.domain + PrintIps(l.ips);
      var rest := PrintTable(t[1..]);
      TokensOfIps(l.ips);
      FirstToken(l.domain, PrintIps(l.ips));
      SplitAtNewline(line, rest);
      assert PrintTable(t) == line + [NEWLINE] + rest;
      assert FileLines(PrintTable(t)) == [line] + FileLines(rest);
      assert ([line] + FileLines(rest))[1..] == FileLines(rest);
      assert Tokens(line) == [l.domain] + l.ips && ([l.domain] + l.ips)[1..] == l.ips;
      ReadBack(t[1..]);
    }
  }

  // ---- The merge as a function on tables

  /** Addresses never recorded for the domain before are appended. */
  function AddNew(ips: seq<Text>, more: seq<Text>): seq<Text>
    decreases |more|
  {
    if more == [] then ips else AddNew(if more[0] in ips then ips else ips + [more[0]], more[1..])
  }

  /** The position of a domain, or the length of the table. */
  function IndexOf(t: Table, domain: Text): (i: nat)
    ensures i <= |t| && (i < |t| ==> t[i].domain == domain)
    ensures forall j :: 0 <= j < i ==> t[j].domain != domain
  {
    if t == [] || t[0].domain == domain then 0 else 1 + IndexOf(t[1..], domain)
  }

  function MergeOne(t: Table, r: Record): Table {
    var i := IndexOf(t, r.domain);
    if i < |t| then t[i := Line(r.domain, AddNew(t[i].ips, r.ips))]
    else t + [Line(r.domain, AddNew([], r.ips))]
  }

  function MergeAll(t: Table, batch: seq<Record>): Table
    decreases |batch|
  {
    if batch == [] then t else MergeAll(MergeOne(t, batch[0]), batch[1..])
  }

  /** Only the last `n` lines are kept. */
  function LastLines(t: Table, n: nat): Table {
    if |t| > n then t[|t| - n..] else t
  }

  function FlushTable(t: Table, batch: seq<Record>, n: nat): Table {
    if batch == [] then t else LastLines(MergeAll(t, batch), n)
  }

  /** A flush with an empty batch does not touch the file. */
  function FlushFile(content: Text, batch: seq<Record>, n: nat): Text {
    if batch == [] then content else PrintTable(FlushTable(ParseFile(content), batch, n))
  }

  ghost predicate DistinctDomains(t: Table) {
    forall i, j :: 0 <= i < j < |t| ==> t[i].domain != t[j].domain
  }

  ghost predicate DistinctTexts(s: seq<Text>) {
    forall i, j :: 0 <= i < j < |s| ==> s[i] != s[j]
  }

  ghost predicate Tidy(t: Table) {
    DistinctDomains(t) && forall l <- t :: DistinctTexts(l.ips)
  }

  function Domains(t: Table): (ds: seq<Text>)
    ensures |ds| == |t| && forall i :: 0 <= i < |t| ==> ds[i] == t[i].domain
  {
    seq(|t|, i requires 0 <= i < |t| => t[i].domain)
  }

  /** The addresses of a domain, none if it has no line. */
  function IpsOf(t: Table, domain: Text): seq<Text> {
    var i := IndexOf(t, domain);
    if i < |t| then t[i].ips else []
  }

  /** Domains of the batch that are not known yet, in the order they are first seen. */
  function FirstSeen(batch: seq<Record>, known: seq<Text>): seq<Text>
    decreases |batch|
  {
    if batch == [] then []
    else if batch[0].domain in known then FirstSeen(batch[1..], known)
    else [batch[0].domain] + FirstSeen(batch[1..], known + [batch[0].domain])
  }

  /** All addresses the batch brings for a domain, in order. */
  function IpsFor(batch: seq<Record>, domain: Text): seq<Text> {
    if batch == [] then []
    else (if batch[0].domain == domain then batch[0].ips else []) + IpsFor(batch[1..], domain)
  }

  lemma {:induction false} AddNewIs(ips: seq<Text>, more: seq<Text>)
    ensures DistinctTexts(ips) ==> DistinctTexts(AddNew(ips, more))
    ensures ips <= AddNew(ips, more) && forall x :: x in AddNew(ips, more) <==> x in ips || x in more
    decreases |more|
  {
    if more != [] {
      AddNewIs(if more[0] in ips then ips else ips + [more[0]], more[1..]);
    }
  }

  lemma {:induction false} AddNewTwice(ips: seq<Text>, a: seq<Text>, b: seq<Text>)
    ensures AddNew(AddNew(ips, a), b) == AddNew(ips, a + b)
    decreases |a|
  {
    if a == [] {
      assert a + b == b;
    } else {
      assert (a + b)[0] == a[0] && (a + b)[1..] == a[1..] + b;
      AddNewTwice(if a[0] in ips then ips else ips + [a[0]], a[1..], b);
    }
  }

  lemma IndexIs(t: Table, domain: Text, i: nat)
    requires DistinctDomains(t) && i < |t| && t[i].domain == domain
    ensures IndexOf(t, domain) == i
  {
  }

  lemma DomainKnown(t: Table, domain: Text)
    ensures IndexOf(t, domain) < |t| <==> domain in Domains(t)
  {
    if IndexOf(t, domain) < |t| {
      assert Domains(t)[IndexOf(t, domain)] == domain;
    }
  }

  lemma MergeOneIs(t: Table, r: Record)
    requires Tidy(t)
    ensures Tidy(MergeOne(t, r))
    ensures Domains(MergeOne(t, r)) == if r.domain in Domains(t) then Domains(t) else Domains(t) + [r.domain]
    ensures forall d :: IpsOf(MergeOne(t, r), d) == if d == r.domain then AddNew(IpsOf(t, d), r.ips) else IpsOf(t, d)
  {
    hide IndexOf;
    var t' := MergeOne(t, r);
    var i := IndexOf(t, r.domain);
    DomainKnown(t, r.domain);
    AddNewIs(IpsOf(t, r.domain), r.ips);
    AddNewIs([], r.ips);
    assert i < |t| ==> t[i] in t;
    forall d
      ensures IpsOf(t', d) == if d == r.domain then AddNew(IpsOf(t, d), r.ips) else IpsOf(t, d)
    {
      var k := IndexOf(t, d);
      if d == r.domain {
        IndexIs(t', d, i);
      } else if k < |t| {
        IndexIs(t', d, k);
      } else {
        assert IndexOf(t', d) == |t'|;
      }
    }
  }

  /**
   * What a merge leaves: domains keep their order and new ones follow as first seen; every domain has its old
   * addresses followed by the new ones, each once.
   */
  lemma {:induction false} MergeAllIs(t: Table, batch: seq<Record>)
    requires Tidy(t)
    ensures Tidy(MergeAll(t, batch))
    ensures Domains(MergeAll(t, batch)) == Domains(t) + FirstSeen(batch, Domains(t))
    ensures forall d :: IpsOf(MergeAll(t, batch), d) == AddNew(IpsOf(t, d), IpsFor(batch, d))
    decreases |batch|
  {
    hide MergeOne, IpsOf, Domains, Tidy;
    if batch != [] {
      MergeOneIs(t, batch[0]);
      MergeAllIs(MergeOne(t, batch[0]), batch[1..]);
      var m := MergeOne(t, batch[0]);
      var d0 := batch[0].domain;
      if d0 !in Domains(t) {
        assert Domains(t) + [d0] + FirstSeen(batch[1..], Domains(t) + [d0]) ==
               Domains(t) + ([d0] + FirstSeen(batch[1..], Domains(t) + [d0]));
      }
      forall d
        ensures IpsOf(MergeAll(t, batch), d) == AddNew(IpsOf(t, d), IpsFor(batch, d))
      {
        if d == d0 {
          AddNewTwice(IpsOf(t, d), batch[0].ips, IpsFor(batch[1..], d));
        } else {
          assert [] + IpsFor(batch[1..], d) == IpsFor(batch[1..], d);
        }
      }
    }
  }

  /** Every flush keeps a file tidy, in first-seen order, and within its number of lines. */
  lemma {:induction false} FlushKeeps(t: Table, batch: seq<Record>, n: nat)
    requires Tidy(t)
    ensures var f := FlushTable(t, batch, n);
            var all := Domains(t) + FirstSeen(batch, Domains(t));
            && Tidy(f) && (batch != [] || |t| <= n ==> |f| <= n)
            && |f| <= |all| && Domains(f) == all[|all| - |f|..]
            && (forall l <- f :: l.ips == AddNew(IpsOf(t, l.domain), IpsFor(batch, l.domain)))
  {
    hide MergeAll, FirstSeen, IpsFor, AddNew, IpsOf, Domains, Tidy;
    var m, f := MergeAll(t, batch), FlushTable(t, batch, n);
    MergeAllIs(t, batch);
    MergeNothing(t);
    SuffixTidy(m, |m| - |f|);
    assert f == m[|m| - |f|..];
    forall l <- f
      ensures l.ips == AddNew(IpsOf(t, l.domain), IpsFor(batch, l.domain))
    {
      assert l in m;
      IpsOfLine(m, l);
    }
  }

  lemma MergeNothing(t: Table)
    ensures MergeAll(t, []) == t
  {
  }

  lemma SuffixTidy(t: Table, k: nat)
    requires Tidy(t) && k <= |t|
    ensures Tidy(t[k..]) && Domains(t[k..]) == Domains(t)[k..]
  {
    assert forall l <- t[k..] :: l in t;
  }

  lemma IpsOfLine(t: Table, l: Line)
    requires Tidy(t) && l in t
    ensures IpsOf(t, l.domain) == l.ips
  {
    var i :| 0 <= i < |t| && t[i] == l;
    IndexIs(t, l.domain, i);
  }

  // ---- Flush boundaries

  lemma {:induction false} MergeTwice(t: Table, a: seq<Record>, b: seq<Record>)
    ensures MergeAll(MergeAll(t, a), b) == MergeAll(t, a + b)
    decreases |a|
  {
    hide MergeOne;
    if a == [] {
      assert a + b == b;
    } else {
      assert (a + b)[0] == a[0] && (a + b)[1..] == a[1..] + b;
      MergeTwice(MergeOne(t, a[0]), a[1..], b);
    }
  }

  /** Lines whose domains the batch does not mention stay in front, untouched. */
  lemma {:induction false} MergeBehind(front: Table, t: Table, batch: seq<Record>)
    requires forall r <- batch :: r.domain !in Domains(front)
    ensures MergeAll(front + t, batch) == front + MergeAll(t, batch) && |MergeAll(t, batch)| >= |t|
    decreases |batch|
  {
    if batch != [] {
      var r := batch[0];
      assert r in batch;
      DomainKnown(front, r.domain);
      IndexBehind(front, t, r.domain);
      var i := IndexOf(t, r.domain);
      assert MergeOne(front + t, r) == front + MergeOne(t, r);
      assert forall x <- batch[1..] :: x in batch;
      MergeBehind(front, MergeOne(t, r), batch[1..]);
    }
  }

  lemma {:induction false} IndexBehind(front: Table, t: Table, domain: Text)
    requires IndexOf(front, domain) == |front|
    ensures IndexOf(front + t, domain) == |front| + IndexOf(t, domain)
  {
    if front == [] {
      assert front + t == t;
    } else {
      assert (front + t)[0] == front[0] && (front + t)[1..] == front[1..] + t;
      IndexBehind(front[1..], t, domain);
    }
  }

  /** The lines a flush cuts off. */
  function CutOff(t: Table, batch: seq<Record>, n: nat): Table {
    var m := MergeAll(t, batch);
    if |m| > n then m[..|m| - n] else []
  }

  /**
   * Flush boundaries do not show as long as the second batch mentions no domain that the first flush cut off;
   * in particular when the first flush cuts off nothing.
   */
  lemma {:induction false} FlushTwice(t: Table, a: seq<Record>, b: seq<Record>, n: nat)
    requires a != [] ==> forall r <- b :: r.domain !in Domains(CutOff(t, a, n))
    ensures FlushTable(FlushTable(t, a, n), b, n) == FlushTable(t, a + b, n)
  {
    hide MergeAll;
    if a == [] {
      assert a + b == b;
    } else if b == [] {
      assert a + b == a;
    } else {
      var m, cut, kept := MergeAll(t, a), CutOff(t, a, n), FlushTable(t, a, n);
      assert m == cut + kept;
      MergeTwice(t, a, b);
      MergeBehind(cut, kept, b);
      var x := MergeAll(kept, b);
      assert MergeAll(t, a + b) == cut + x;
      if |m| > n {
        assert (cut + x)[|cut + x| - n..] == x[|x| - n..];
        assert LastLines(cut + x, n) == LastLines(x, n);
      }
    }
  }

  function LastTexts(s: seq<Text>, n: nat): seq<Text> {
    if |s| > n then s[|s| - n..] else s
  }

  /** A domain that the first flush cuts off is among the last `n` after the second. */
  ghost predicate CutComesBack(t: Table, a: seq<Record>, b: seq<Record>, n: nat) {
    var kept := Domains(FlushTable(t, a, n));
    exists d <- Domains(CutOff(t, a, n)) :: d in LastTexts(kept + FirstSeen(b, kept), n)
  }

  /** The texts of `s` that are not in `gone`, in order. */
  function NotIn(s: seq<Text>, gone: seq<Text>): seq<Text> {
    if s == [] then [] else (if s[0] in gone then [] else [s[0]]) + NotIn(s[1..], gone)
  }

  /** Knowing more domains takes just these away from the ones first seen. */
  lemma {:induction false} FirstSeenMore(batch: seq<Record>, known: seq<Text>, gone: seq<Text>, all: seq<Text>)
    requires forall d :: d in all <==> d in known || d in gone
    ensures FirstSeen(batch, all) == NotIn(FirstSeen(batch, known), gone)
    decreases |batch|
  {
    if batch != [] {
      var d := batch[0].domain;
      if d in known {
        FirstSeenMore(batch[1..], known, gone, all);
      } else {
        var rest := FirstSeen(batch[1..], known + [d]);
        assert ([d] + rest)[1..] == rest;
        FirstSeenMore(batch[1..], known + [d], gone, if d in gone then all else all + [d]);
      }
    }
  }

  lemma {:induction false} NotInAppend(a: seq<Text>, b: seq<Text>, gone: seq<Text>)
    ensures NotIn(a + b, gone) == NotIn(a, gone) + NotIn(b, gone)
  {
    if a == [] {
      assert a + b == b;
    } else {
      assert (a + b)[0] == a[0] && (a + b)[1..] == a[1..] + b;
      NotInAppend(a[1..], b, gone);
    }
  }

  lemma {:induction false} NoneGone(s: seq<Text>, gone: seq<Text>)
    requires forall d <- s :: d !in gone
    ensures NotIn(s, gone) == s
  {
    if s != [] {
      assert s[0] in s;
      NoneGone(s[1..], gone);
    }
  }

  lemma LastOfAppend(x: seq<Text>, y: seq<Text>, n: nat)
    requires |y| == n
    ensures LastTexts(x + y, n) == y
  {
  }

  /** With no cut-off text among the last `n`, the cut-off ones make no difference to these. */
  lemma LastAreTheSame(cut: seq<Text>, kept: seq<Text>, more: seq<Text>, n: nat)
    requires |kept| == n && forall d <- LastTexts(kept + more, n) :: d !in cut
    ensures LastTexts(cut + kept + NotIn(more, cut), n) == LastTexts(kept + more, n)
  {
    hide NotIn, LastTexts;
    var j := |more|;
    if j >= n {
      var front, last := more[..j - n], more[j - n..];
      assert more == front + last && kept + more == (kept + front) + last;
      LastOfAppend(kept + front, last, n);
      NotInAppend(front, last, cut);
      NoneGone(last, cut);
      assert cut + kept + (NotIn(front, cut) + last) == (cut + kept + NotIn(front, cut)) + last;
      LastOfAppend(cut + kept + NotIn(front, cut), last, n);
    } else {
      var last := kept[j..] + more;
      assert kept + more == kept[..j] + last && cut + kept + more == (cut + kept[..j]) + last;
      LastOfAppend(kept[..j], last, n);
      assert forall d <- more :: d in last;
      NoneGone(more, cut);
      LastOfAppend(cut + kept[..j], last, n);
    }
  }

  lemma CutIsNotLast(cut: seq<Text>, kept: seq<Text>, more: seq<Text>, n: nat, d: Text)
    requires |kept| == n && DistinctTexts(cut + kept + more) && d in cut
    ensures d !in LastTexts(cut + kept + more, n)
  {
    var all := cut + kept + more;
    var i :| 0 <= i < |cut| && cut[i] == d;
    assert all[i] == d;
    forall k | 0 <= k < |LastTexts(all, n)|
      ensures LastTexts(all, n)[k] != d
    {
      assert LastTexts(all, n)[k] == all[|all| - n + k];
    }
  }

  lemma IpsBehind(front: Table, t: Table, domain: Text)
    requires domain !in Domains(front)
    ensures IpsOf(front + t, domain) == IpsOf(t, domain)
  {
    DomainKnown(front, domain);
    IndexBehind(front, t, domain);
  }

  lemma SameLines(f: Table, g: Table)
    requires Domains(f) == Domains(g) && forall i :: 0 <= i < |f| ==> f[i].ips == g[i].ips
    ensures f == g
  {
    assert |f| == |Domains(f)| == |g|;
    forall i | 0 <= i < |f|
      ensures f[i] == g[i]
    {
      assert f[i].domain == Domains(f)[i] == g[i].domain;
    }
  }

  lemma DomainsAppend(a: Table, b: Table)
    ensures Domains(a + b) == Domains(a) + Domains(b)
  {
  }

  /** What the two flushes have in common: the lines cut off, the lines kept, and one merge behind both. */
  lemma CutAndKept(t: Table, a: seq<Record>, b: seq<Record>, n: nat)
    requires Tidy(t) && a != [] && b != [] && CutOff(t, a, n) != []
    ensures var cut, kept := CutOff(t, a, n), FlushTable(t, a, n);
            && Tidy(cut + kept) && Tidy(kept) && |kept| == n
            && FlushTable(t, a + b, n) == FlushTable(cut + kept, b, n)
            && DistinctTexts(Domains(cut + kept) + FirstSeen(b, Domains(cut + kept)))
  {
    hide MergeAll, FirstSeen;
    var cut, kept := CutOff(t, a, n), FlushTable(t, a, n);
    MergeAllIs(t, a);
    assert MergeAll(t, a) == cut + kept;
    SuffixTidy(cut + kept, |cut|);
    assert (cut + kept)[|cut|..] == kept;
    MergeTwice(t, a, b);
    MergeAllIs(cut + kept, b);
    assert DistinctTexts(Domains(MergeAll(cut + kept, b)));
  }

  lemma {:induction false} SameWithoutReturn(cut: Table, kept: Table, b: seq<Record>, n: nat)
    requires Tidy(cut + kept) && Tidy(kept) && |kept| == n && b != []
    requires forall d <- LastTexts(Domains(kept) + FirstSeen(b, Domains(kept)), n) :: d !in Domains(cut)
    ensures FlushTable(kept, b, n) == FlushTable(cut + kept, b, n)
  {
    hide MergeAll, FirstSeen, FlushTable, IpsOf, IpsFor, Tidy, Domains, AddNew;
    var f, g := FlushTable(kept, b, n), FlushTable(cut + kept, b, n);
    FlushKeeps(kept, b, n);
    FlushKeeps(cut + kept, b, n);
    DomainsAppend(cut, kept);
    FirstSeenMore(b, Domains(kept), Domains(cut), Domains(cut + kept));
    LastAreTheSame(Domains(cut), Domains(kept), FirstSeen(b, Domains(kept)), n);
    LastDomains(kept, b, n);
    LastDomains(cut + kept, b, n);
    assert Domains(f) == Domains(g);
    forall i | 0 <= i < |f|
      ensures f[i].ips == g[i].ips
    {
      assert f[i] in f && g[i] in g && Domains(f)[i] in Domains(f);
      IpsBehind(cut, kept, f[i].domain);
    }
    SameLines(f, g);
  }

  lemma LastDomains(t: Table, b: seq<Record>, n: nat)
    requires Tidy(t) && b != []
    ensures Domains(FlushTable(t, b, n)) == LastTexts(Domains(t) + FirstSeen(b, Domains(t)), n)
  {
    hide MergeAll, FirstSeen, Domains, LastTexts, LastLines, Tidy;
    MergeAllIs(t, b);
    LinesAndTexts(MergeAll(t, b), n);
  }

  lemma LinesAndTexts(m: Table, n: nat)
    ensures Domains(LastLines(m, n)) == LastTexts(Domains(m), n)
  {
  }

  lemma {:induction false} DiffersOnReturn(cut: Table, kept: Table, b: seq<Record>, n: nat, d: Text)
    requires Tidy(cut + kept) && Tidy(kept) && |kept| == n && b != []
    requires DistinctTexts(Domains(cut + kept) + FirstSeen(b, Domains(cut + kept)))
    requires d in Domains(cut) && d in LastTexts(Domains(kept) + FirstSeen(b, Domains(kept)), n)
    ensures FlushTable(kept, b, n) != FlushTable(cut + kept, b, n)
  {
    hide MergeAll, FirstSeen, FlushTable, Tidy, Domains, LastTexts, DistinctTexts;
    LastDomains(kept, b, n);
    LastDomains(cut + kept, b, n);
    DomainsAppend(cut, kept);
    CutIsNotLast(Domains(cut), Domains(kept), FirstSeen(b, Domains(cut + kept)), n, d);
  }

  /** The boundary between two flushes does not show exactly when no domain that the first cuts off comes back. */
  lemma {:induction false} FlushTwiceExactly(t: Table, a: seq<Record>, b: seq<Record>, n: nat)
    requires Tidy(t)
    ensures FlushTable(FlushTable(t, a, n), b, n) == FlushTable(t, a + b, n)
            <==> a == [] || b == [] || !CutComesBack(t, a, b, n)
  {
    hide MergeAll, FirstSeen, FlushTable, CutOff, Tidy, LastTexts, DistinctTexts;
    if a == [] || b == [] || CutOff(t, a, n) == [] {
      FlushTwice(t, a, b, n);
    } else {
      var cut, kept := CutOff(t, a, n), FlushTable(t, a, n);
      CutAndKept(t, a, b, n);
      if CutComesBack(t, a, b, n) {
        var d :| d in Domains(cut) && d in LastTexts(Domains(kept) + FirstSeen(b, Domains(kept)), n);
        DiffersOnReturn(cut, kept, b, n, d);
      } else {
        SameWithoutReturn(cut, kept, b, n);
      }
    }
  }

  /** A domain that was cut off and comes back is where two flushes and one differ. */
  lemma {:induction false} BoundaryCanShow()
    ensures var a, b := Record([97], [[49]]), Record([98], [[49]]);
            && FlushTable(FlushTable([], [a, b], 1), [a], 1) == [Line([97], [[49]])]
            && FlushTable([], [a, b, a], 1) == [Line([98], [[49]])]
  {
    var a, b := Record([97], [[49]]), Record([98], [[49]]);
    var la, lb := Line([97], [[49]]), Line([98], [[49]]);
    assert AddNew([], [[49]]) == [[49]] && AddNew([[49]], [[49]]) == [[49]];
    assert MergeOne([], a) == [la] && MergeOne([la], b) == [la, lb] && MergeOne([la, lb], a) == [la, lb]
        && MergeOne([lb], a) == [lb, la];
    assert [a, b][1..] == [b] && [b][1..] == [] && [a][1..] == [] && [a, b, a][1..] == [b, a] && [b, a][1..] == [a];
    assert MergeAll([la], [b]) == [la, lb];
    assert MergeAll([], [a, b]) == [la, lb];
    assert MergeAll([lb], [a]) == [lb, la];
    assert MergeAll([la, lb], [a]) == [la, lb];
    assert MergeAll([la], [b, a]) == [la, lb];
    assert MergeAll([], [a, b, a]) == [la, lb];
  }

  // ---- The same on files

  ghost predicate WordRecord(r: Record) {
    Word(r.domain) && forall ip <- r.ips :: Word(ip)
  }

  ghost predicate WordBatch(batch: seq<Record>) {
    forall r <- batch :: WordRecord(r)
  }

  lemma {:induction false} MergeKeepsWords(t: Table, batch: seq<Record>)
    requires Words(t) && WordBatch(batch)
    ensures Words(MergeAll(t, batch))
    decreases |batch|
  {
    hide Word;
    if batch != [] {
      var r := batch[0];
      assert r in batch;
      var i := IndexOf(t, r.domain);
      if i < |t| {
        assert t[i] in t;
        AddNewIs(t[i].ips, r.ips);
      } else {
        AddNewIs([], r.ips);
      }
      MergeKeepsWords(MergeOne(t, r), batch[1..]);
    }
  }

  lemma {:induction false} ParsedAreWords(lines: seq<Text>)
    ensures Words(ParseLines(lines))
  {
    hide Tokens;
    if lines != [] {
      TokensAreWords(lines[0]);
      ParsedAreWords(lines[1..]);
    }
  }

  lemma {:induction false} TokensAreWords(t: Text)
    ensures forall w <- Tokens(t) :: Word(w)
    decreases |t|
  {
    if t != [] {
      if White(t[0]) {
        TokensAreWords(t[1..]);
      } else {
        TokensAreWords(t[WordLen(t)..]);
      }
    }
  }

  /** Reading back gives the same table exactly when every name and address is a word. */
  lemma {:induction false} ReadBackExactly(t: Table)
    ensures ParseFile(PrintTable(t)) == t <==> Words(t)
  {
    hide PrintTable, FileLines, Words, ParseLines;
    ParsedAreWords(FileLines(PrintTable(t)));
    if Words(t) {
      ReadBack(t);
    }
  }

  /** Two flushes of a file leave the bytes that one flush of both batches leaves. */
  lemma {:induction false} FileFlushTwice(content: Text, a: seq<Record>, b: seq<Record>, n: nat)
    requires WordBatch(a) && WordBatch(b)
    requires a != [] ==> forall r <- b :: r.domain !in Domains(CutOff(ParseFile(content), a, n))
    ensures FlushFile(FlushFile(content, a, n), b, n) == FlushFile(content, a + b, n)
  {
    hide MergeAll, ParseFile, PrintTable;
    var t := ParseFile(content);
    FlushTwice(t, a, b, n);
    if a == [] {
      assert a + b == b;
    } else if b == [] {
      assert a + b == a;
    } else {
      FlushIsWords(content, a, n);
      ReadBack(FlushTable(t, a, n));
    }
  }

  lemma FlushIsWords(content: Text, batch: seq<Record>, n: nat)
    requires WordBatch(batch)
    ensures Words(FlushTable(ParseFile(content), batch, n))
  {
    hide MergeAll, ParseLines, FileLines, Word;
    var t := ParseFile(content);
    ParsedAreWords(FileLines(content));
    MergeKeepsWords(t, batch);
    var m := MergeAll(t, batch);
    assert forall l <- LastLines(m, n) :: l in m;
  }
}
