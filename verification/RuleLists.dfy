/** What the drop and redirect lists of the configuration mean for a queried name. */
module RuleLists {
  import opened Bytes
  import opened Strings
  import opened Trie

  // ---- Labels

  lemma {:induction false} TrimDotsOf(t: Text, dots: Text)
    requires (forall d <- dots :: d == 46) && (t == [] || t[|t| - 1] != 46)
    ensures TrimDots(t + dots) == t
  {
    if dots == [] {
      assert t + dots == t;
    } else {
      var n := |dots| - 1;
      assert dots[n] in dots && forall d <- dots[..n] :: d in dots;
      assert (t + dots)[..|t + dots| - 1] == t + dots[..n];
      TrimDotsOf(t, dots[..n]);
    }
  }

  /** Parts that are no empty text at the end and hold no dot. */
  ghost predicate NameParts(parts: seq<Text>) {
    parts != [] && parts[|parts| - 1] != [] && forall part <- parts :: 46 !in part
  }

  lemma {:induction false} JoinEnds(parts: seq<Text>)
    requires NameParts(parts)
    ensures var t := Join(parts, 46); t != [] && t[|t| - 1] != 46
  {
    if |parts| > 1 {
      assert forall part <- parts[1..] :: part in parts;
      JoinEnds(parts[1..]);
    } else {
      assert parts[0] in parts;
    }
  }

  lemma LowerParts(parts: seq<Text>)
    requires NameParts(parts)
    ensures forall part <- LowerAll(parts) :: 46 !in part
  {
    forall i | 0 <= i < |parts|
      ensures 46 !in LowerAll(parts)[i]
    {
      assert parts[i] in parts;
      assert forall k :: 0 <= k < |parts[i]| ==> parts[i][k] in parts[i];
    }
  }

  /** The labels of a name are its parts between dots in lower case; dots at its end do not count. */
  lemma {:induction false} LabelsAre(parts: seq<Text>, dots: Text)
    requires NameParts(parts) && forall d <- dots :: d == 46
    ensures Labels(Join(parts, 46) + dots) == LowerAll(parts)
    ensures !HasStar(Lower(Join(parts, 46))) ==> PatternLabels(Join(parts, 46) + dots) == LowerAll(parts)
  {
    hide Split, Join, TrimDots, HasStar;
    JoinEnds(parts);
    TrimDotsOf(Join(parts, 46), dots);
    LowerJoin(parts, 46);
    LowerParts(parts);
    SplitJoin(LowerAll(parts), 46);
  }

  /** A star and a dot in front of a pattern do not count either. */
  lemma {:induction false} StarredLabelsAre(parts: seq<Text>, dots: Text)
    requires NameParts(parts) && forall d <- dots :: d == 46
    ensures PatternLabels([42, 46] + Join(parts, 46) + dots) == LowerAll(parts)
  {
    hide Split, Join, TrimDots, LowerAll;
    var t := Join(parts, 46);
    JoinEnds(parts);
    TrimDotsOf([42, 46] + t, dots);
    LowerJoin(parts, 46);
    LowerParts(parts);
    SplitJoin(LowerAll(parts), 46);
    StarIsStripped(t);
  }

  lemma StarIsStripped(t: Text)
    ensures StripStar(Lower([42, 46] + t)) == Lower(t)
  {
    assert Lower([42, 46] + t)[2..] == Lower(t);
  }

  // ---- Redirect targets

  /** `parts` are the pieces of `text` between commas, and each address is the piece up to its first colon. */
  ghost predicate CutInto(text: Text, parts: seq<Text>, ips: seq<Text>) {
    && |parts| == |ips| >= 1 && Join(parts, 44) == text
    && forall k :: 0 <= k < |parts| ==>
         44 !in parts[k] && 58 !in ips[k] && (parts[k] == ips[k] || ips[k] + [58] <= parts[k])
  }

  ghost predicate Means(text: Text, ips: seq<Text>) {
    exists parts :: CutInto(text, parts, ips)
  }

  lemma TargetsMean(text: Text)
    ensures Means(text, Targets(text))
  {
    var parts := Split(text, 44);
    JoinSplit(text, 44);
    SplitParts(text, 44);
    forall k | 0 <= k < |parts|
      ensures 44 !in parts[k] && 58 !in Targets(text)[k]
      ensures parts[k] == Targets(text)[k] || Targets(text)[k] + [58] <= parts[k]
    {
      assert parts[k] in parts;
      SplitParts(parts[k], 58);
      assert Split(parts[k], 58)[0] in Split(parts[k], 58);
    }
    assert CutInto(text, parts, Targets(text));
  }

  // ---- Lists of plain entries

  /** No comment, no file, and no white space around it. */
  ghost predicate Plain(entry: Text) {
    && entry != [] && entry[0] != '#' as int && !White(entry[0]) && !White(entry[|entry| - 1])
    && entry[0] != '/' as int && !([46, 47] <= entry) && !([46, 46, 47] <= entry)
  }

  lemma PlainIsItself(entry: Text)
    requires Plain(entry)
    ensures Trim(entry) == entry && !Skipped(entry) && !FileReference(entry)
  {
    assert TrimStart(entry) == entry;
  }

  /** The entry is about the name: its labels are the last ones of the name. */
  ghost predicate About(entry: Text, domain: Text) {
    IsSuffix(PatternLabels(entry), Labels(domain))
  }

  ghost predicate PlainLists(drops: seq<Text>, redirects: seq<(Text, Text)>) {
    (forall d <- drops :: Plain(d)) && forall r <- redirects :: Plain(r.0)
  }

  lemma {:induction false} PlainDrops(drops: seq<Text>, files: map<Text, seq<Text>>)
    requires forall d <- drops :: Plain(d)
    ensures var rs := DropRules(drops, files);
            |rs| == |drops| && forall i :: 0 <= i < |rs| ==> rs[i] == Rule(PatternLabels(drops[i]), Drop)
  {
    hide PatternLabels, Trim, Plain;
    if drops != [] {
      assert drops[0] in drops;
      PlainIsItself(drops[0]);
      PlainDrops(drops[1..], files);
    }
  }

  lemma {:induction false} PlainRedirects(redirects: seq<(Text, Text)>, files: map<Text, seq<Text>>)
    requires forall r <- redirects :: Plain(r.0)
    ensures var rs := RedirectRules(redirects, files);
            |rs| == |redirects| && forall i :: 0 <= i < |rs| ==>
              rs[i].labels == PatternLabels(redirects[i].0) && rs[i].policy.Redirect?
              && Means(redirects[i].1, rs[i].policy.ips)
  {
    hide PatternLabels, Trim, Plain, Means, Targets;
    if redirects != [] {
      assert redirects[0] in redirects;
      PlainIsItself(redirects[0].0);
      TargetsMean(redirects[0].1);
      PlainRedirects(redirects[1..], files);
    }
  }

  /** An entry about the name has this many labels, and none has fewer. */
  ghost predicate Fewest(drops: seq<Text>, redirects: seq<(Text, Text)>, domain: Text, n: nat) {
    && (forall d <- drops :: About(d, domain) ==> n <= |PatternLabels(d)|)
    && (forall r <- redirects :: About(r.0, domain) ==> n <= |PatternLabels(r.0)|)
    && ((exists d <- drops :: About(d, domain) && |PatternLabels(d)| == n)
        || exists r <- redirects :: About(r.0, domain) && |PatternLabels(r.0)| == n)
  }

  /** Redirect entry `j` is about the name and has `n` labels. */
  ghost predicate RedirectedBy(redirects: seq<(Text, Text)>, domain: Text, n: nat, j: nat) {
    j < |redirects| && About(redirects[j].0, domain) && |PatternLabels(redirects[j].0)| == n
  }

  ghost predicate LastRedirectedBy(redirects: seq<(Text, Text)>, domain: Text, n: nat, j: nat) {
    RedirectedBy(redirects, domain, n, j) && forall k: nat :: RedirectedBy(redirects, domain, n, k) ==> k <= j
  }

  /** The last redirect entry with the fewest labels decides, else a drop entry with as many. */
  ghost predicate Decides(drops: seq<Text>, redirects: seq<(Text, Text)>, domain: Text, n: nat, answer: Policy) {
    && Fewest(drops, redirects, domain, n)
    && if exists j: nat :: RedirectedBy(redirects, domain, n, j) then
         && answer.Redirect?
         && exists j: nat :: LastRedirectedBy(redirects, domain, n, j) && Means(redirects[j].1, answer.ips)
       else answer == Drop
  }

  ghost predicate SomeAbout(drops: seq<Text>, redirects: seq<(Text, Text)>, domain: Text) {
    (exists d <- drops :: About(d, domain)) || exists r <- redirects :: About(r.0, domain)
  }

  /** What plain lists answer for a name. */
  lemma {:induction false} PlainListsAnswer(drops: seq<Text>, redirects: seq<(Text, Text)>,
                                            files: map<Text, seq<Text>>, domain: Text)
    requires PlainLists(drops, redirects)
    ensures var answer := Answer(drops, redirects, files, domain);
            if SomeAbout(drops, redirects, domain) then exists n: nat :: Decides(drops, redirects, domain, n, answer)
            else answer == NoPolicy
  {
    hide Answer, PatternLabels, Labels, Plain, Means, Targets, DropRules, RedirectRules, RulesOf, SomeAbout, Decides;
    hide IsSuffix;
    var rules := Rules(drops, redirects, files);
    PlainRules(drops, redirects, files);
    BuiltAnswerIsFlat(drops, redirects, files, domain);
    if SomeAbout(drops, redirects, domain) {
      SomeRule(drops, redirects, rules, domain);
      var i: nat :| Best(rules, Labels(domain), i) && Answer(drops, redirects, files, domain) == rules[i].policy;
      BestDecides(drops, redirects, rules, domain, i);
    } else {
      NoRule(drops, redirects, rules, domain);
    }
  }

  lemma PlainRules(drops: seq<Text>, redirects: seq<(Text, Text)>, files: map<Text, seq<Text>>)
    requires PlainLists(drops, redirects)
    ensures RulesOf(drops, redirects, Rules(drops, redirects, files))
  {
    hide PatternLabels, Plain, Means, DropRules, RedirectRules;
    PlainDrops(drops, files);
    PlainRedirects(redirects, files);
  }

  /** The rules are those of the entries, drops first. */
  ghost predicate RulesOf(drops: seq<Text>, redirects: seq<(Text, Text)>, rules: seq<Rule>) {
    && |rules| == |drops| + |redirects|
    && (forall i :: 0 <= i < |drops| ==> rules[i] == Rule(PatternLabels(drops[i]), Drop))
    && (forall j :: 0 <= j < |redirects| ==>
          var r := rules[|drops| + j];
          r.labels == PatternLabels(redirects[j].0) && r.policy.Redirect? && Means(redirects[j].1, r.policy.ips))
  }

  lemma SomeRule(drops: seq<Text>, redirects: seq<(Text, Text)>, rules: seq<Rule>, domain: Text)
    requires RulesOf(drops, redirects, rules) && SomeAbout(drops, redirects, domain)
    ensures exists r <- rules :: IsSuffix(r.labels, Labels(domain))
  {
    hide PatternLabels, Labels, Means;
    if exists d <- drops :: About(d, domain) {
      var i :| 0 <= i < |drops| && About(drops[i], domain);
      assert rules[i] in rules;
    } else {
      var j :| 0 <= j < |redirects| && About(redirects[j].0, domain);
      assert rules[|drops| + j] in rules;
    }
  }

  lemma NoRule(drops: seq<Text>, redirects: seq<(Text, Text)>, rules: seq<Rule>, domain: Text)
    requires RulesOf(drops, redirects, rules) && !SomeAbout(drops, redirects, domain)
    ensures !exists r <- rules :: IsSuffix(r.labels, Labels(domain))
  {
    hide PatternLabels, Labels, Means;
    forall r <- rules
      ensures !IsSuffix(r.labels, Labels(domain))
    {
      var i :| 0 <= i < |rules| && rules[i] == r;
      if i < |drops| {
        assert drops[i] in drops && !About(drops[i], domain);
      } else {
        assert redirects[i - |drops|] in redirects && !About(redirects[i - |drops|].0, domain);
      }
    }
  }

  lemma BestDecides(drops: seq<Text>, redirects: seq<(Text, Text)>, rules: seq<Rule>, domain: Text, i: nat)
    requires RulesOf(drops, redirects, rules) && Best(rules, Labels(domain), i)
    ensures Decides(drops, redirects, domain, |rules[i].labels|, rules[i].policy)
  {
    hide PatternLabels, Labels, Means, IsSuffix;
    var n := |rules[i].labels|;
    BestIsFewest(drops, redirects, rules, domain, i);
    forall j: nat | RedirectedBy(redirects, domain, n, j)
      ensures |drops| + j <= i
    {
      assert rules[|drops| + j].labels == PatternLabels(redirects[j].0);
    }
    if i >= |drops| {
      assert LastRedirectedBy(redirects, domain, n, i - |drops|);
    }
  }

  lemma BestIsFewest(drops: seq<Text>, redirects: seq<(Text, Text)>, rules: seq<Rule>, domain: Text, i: nat)
    requires RulesOf(drops, redirects, rules) && Best(rules, Labels(domain), i)
    ensures Fewest(drops, redirects, domain, |rules[i].labels|)
  {
    hide PatternLabels, Labels, Means, IsSuffix;
    var n := |rules[i].labels|;
    forall d <- drops | About(d, domain)
      ensures n <= |PatternLabels(d)|
    {
      var k :| 0 <= k < |drops| && drops[k] == d;
      assert rules[k].labels == PatternLabels(d);
    }
    forall r <- redirects | About(r.0, domain)
      ensures n <= |PatternLabels(r.0)|
    {
      var k :| 0 <= k < |redirects| && redirects[k] == r;
      assert rules[|drops| + k].labels == PatternLabels(r.0);
    }
    if i < |drops| {
      assert drops[i] in drops && About(drops[i], domain);
    } else {
      assert redirects[i - |drops|] in redirects && About(redirects[i - |drops|].0, domain);
    }
  }

  // ---- Entries that are blank, comments or files

  /** A blank entry or a comment, with or without white space around it. */
  ghost predicate Ignored(entry: Text) {
    Trim(entry) == [] || Trim(entry)[0] == '#' as int
  }

  lemma SameRules(drops: seq<Text>, redirects: seq<(Text, Text)>, drops': seq<Text>, redirects': seq<(Text, Text)>,
                  files: map<Text, seq<Text>>, domain: Text)
    requires DropRules(drops, files) == DropRules(drops', files)
    requires RedirectRules(redirects, files) == RedirectRules(redirects', files)
    ensures Answer(drops, redirects, files, domain) == Answer(drops', redirects', files, domain)
  {
    hide DropRules, RedirectRules;
  }

  lemma OneDrop(entry: Text, files: map<Text, seq<Text>>)
    ensures DropRules([entry], files) == DropEntryRules(entry, files)
  {
    hide DropEntryRules;
    var one := [entry];
    assert one[1..] == [];
  }

  lemma OneRedirect(e: (Text, Text), files: map<Text, seq<Text>>)
    ensures RedirectRules([e], files) == RedirectEntryRules(e.0, e.1, files)
  {
    hide RedirectEntryRules;
    var one := [e];
    assert one[1..] == [];
  }

  /** Such an entry anywhere in the drop list changes no answer. */
  lemma {:induction false} IgnoredDrop(before: seq<Text>, entry: Text, after: seq<Text>, redirects: seq<(Text, Text)>,
                                      files: map<Text, seq<Text>>, domain: Text)
    requires Ignored(entry)
    ensures Answer(before + [entry] + after, redirects, files, domain)
         == Answer(before + after, redirects, files, domain)
  {
    hide DropRules, RedirectRules, Trim, Answer;
    DropsOfParts(before, [entry], after, files);
    DropsAppend(before, after, files);
    OneDrop(entry, files);
    SameRules(before + [entry] + after, redirects, before + after, redirects, files, domain);
  }

  /** Nor in the redirect list. */
  lemma {:induction false} IgnoredRedirect(drops: seq<Text>, before: seq<(Text, Text)>, entry: Text, target: Text,
                                          after: seq<(Text, Text)>, files: map<Text, seq<Text>>, domain: Text)
    requires Ignored(entry)
    ensures Answer(drops, before + [(entry, target)] + after, files, domain)
         == Answer(drops, before + after, files, domain)
  {
    hide DropRules, RedirectRules, Trim, Answer;
    var one: seq<(Text, Text)> := [(entry, target)];
    RedirectsOfParts(before, one, after, files);
    RedirectsAppend(before, after, files);
    OneRedirect((entry, target), files);
    SameRules(drops, before + one + after, drops, before + after, files, domain);
  }

  lemma {:induction false} DropsAppend(a: seq<Text>, b: seq<Text>, files: map<Text, seq<Text>>)
    ensures DropRules(a + b, files) == DropRules(a, files) + DropRules(b, files)
  {
    hide DropEntryRules;
    if a == [] {
      assert a + b == b;
    } else {
      assert (a + b)[0] == a[0] && (a + b)[1..] == a[1..] + b;
      DropsAppend(a[1..], b, files);
    }
  }

  lemma DropsOfParts(a: seq<Text>, b: seq<Text>, c: seq<Text>, files: map<Text, seq<Text>>)
    ensures DropRules(a + b + c, files) == DropRules(a, files) + DropRules(b, files) + DropRules(c, files)
  {
    hide DropRules;
    DropsAppend(a + b, c, files);
    DropsAppend(a, b, files);
  }

  lemma {:induction false} RedirectsAppend(a: seq<(Text, Text)>, b: seq<(Text, Text)>, files: map<Text, seq<Text>>)
    ensures RedirectRules(a + b, files) == RedirectRules(a, files) + RedirectRules(b, files)
  {
    hide RedirectEntryRules;
    if a == [] {
      assert a + b == b;
    } else {
      assert (a + b)[0] == a[0] && (a + b)[1..] == a[1..] + b;
      RedirectsAppend(a[1..], b, files);
    }
  }

  lemma RedirectsOfParts(a: seq<(Text, Text)>, b: seq<(Text, Text)>, c: seq<(Text, Text)>, files: map<Text, seq<Text>>)
    ensures RedirectRules(a + b + c, files)
            == RedirectRules(a, files) + RedirectRules(b, files) + RedirectRules(c, files)
  {
    hide RedirectRules;
    RedirectsAppend(a + b, c, files);
    RedirectsAppend(a, b, files);
  }

  /** An entry that names a file: an absolute path, or one from here or from above. */
  ghost predicate NamesFile(entry: Text) {
    && entry != [] && !White(entry[0]) && !White(entry[|entry| - 1])
    && (entry[0] == '/' as int || [46, 47] <= entry || [46, 46, 47] <= entry)
  }

  lemma FileIsFile(entry: Text)
    requires NamesFile(entry)
    ensures Trim(entry) == entry && !Skipped(entry) && FileReference(entry)
  {
    assert TrimStart(entry) == entry;
  }

  /** A drop list in a file, of plain entries, is as good as one in the configuration. */
  lemma {:induction false} DropFileIsList(before: seq<Text>, entry: Text, after: seq<Text>,
                                         redirects: seq<(Text, Text)>, files: map<Text, seq<Text>>, domain: Text)
    requires NamesFile(entry) && entry in files && forall d <- files[entry] :: Plain(d)
    ensures Answer(before + [entry] + after, redirects, files, domain)
         == Answer(before + files[entry] + after, redirects, files, domain)
  {
    hide DropRules, RedirectRules, Trim, Answer, Plain, NamesFile;
    DropsOfParts(before, [entry], after, files);
    DropsOfParts(before, files[entry], after, files);
    FileIsFile(entry);
    OneDrop(entry, files);
    DropLinesArePlain(files[entry], files);
    SameRules(before + [entry] + after, redirects, before + files[entry] + after, redirects, files, domain);
  }

  lemma {:induction false} DropLinesArePlain(lines: seq<Text>, files: map<Text, seq<Text>>)
    requires forall d <- lines :: Plain(d)
    ensures DropLineRules(lines) == DropRules(lines, files)
  {
    hide Trim, Plain, DropRule;
    if lines != [] {
      assert lines[0] in lines;
      PlainIsItself(lines[0]);
      DropLinesArePlain(lines[1..], files);
    }
  }

  /** A missing file gives no rules. */
  lemma {:induction false} MissingFile(before: seq<Text>, entry: Text, after: seq<Text>, redirects: seq<(Text, Text)>,
                                      files: map<Text, seq<Text>>, domain: Text)
    requires NamesFile(entry) && entry !in files
    ensures Answer(before + [entry] + after, redirects, files, domain)
         == Answer(before + after, redirects, files, domain)
  {
    hide DropRules, RedirectRules, Trim, Answer, NamesFile;
    DropsOfParts(before, [entry], after, files);
    DropsAppend(before, after, files);
    FileIsFile(entry);
    OneDrop(entry, files);
    NoLines();
    SameRules(before + [entry] + after, redirects, before + after, redirects, files, domain);
  }

  lemma NoLines()
    ensures DropLineRules([]) == []
  {
  }

  /** A line of a redirect file, as the entry it stands for: everything in front of the first colon, and the rest. */
  ghost predicate StandsFor(line: Text, e: (Text, Text)) {
    && line == e.0 + [58] + e.1 && 58 !in e.0 && Plain(e.0)
    && e.1 != [] && !White(e.1[0]) && !White(e.1[|e.1| - 1])
  }

  ghost predicate LinesStandFor(lines: seq<Text>, es: seq<(Text, Text)>) {
    |lines| == |es| && forall i :: 0 <= i < |lines| ==> StandsFor(lines[i], es[i])
  }

  lemma {:induction false} SplitOnceAt(a: Text, b: Text, sep: byte)
    requires sep !in a
    ensures SplitOnce(a + [sep] + b, sep) == Some((a, b))
  {
    var t := a + [sep] + b;
    if a == [] {
      assert t[1..] == b;
    } else {
      assert t[1..] == a[1..] + [sep] + b && sep !in a[1..] && [a[0]] + a[1..] == a;
      SplitOnceAt(a[1..], b, sep);
    }
  }

  lemma LineIsEntry(line: Text, e: (Text, Text), files: map<Text, seq<Text>>)
    requires StandsFor(line, e)
    ensures RedirectLineRule(line) == RedirectEntryRules(e.0, e.1, files)
  {
    hide RedirectRule;
    SplitOnceAt(e.0, e.1, 58);
    PlainIsItself(e.0);
    assert TrimStart(e.1) == e.1;
  }

  lemma {:induction false} RedirectLinesArePlain(lines: seq<Text>, es: seq<(Text, Text)>, files: map<Text, seq<Text>>)
    requires LinesStandFor(lines, es)
    ensures RedirectLineRules(lines) == RedirectRules(es, files)
    decreases |lines|
  {
    hide StandsFor, RedirectLineRule, RedirectEntryRules;
    if lines != [] {
      LineIsEntry(lines[0], es[0], files);
      RedirectLinesArePlain(lines[1..], es[1..], files);
    }
  }

  /** A redirect list in a file, with lines `domain:ip1,ip2`, is as good as one in the configuration. */
  lemma {:induction false} RedirectFileIsList(drops: seq<Text>, before: seq<(Text, Text)>, entry: Text, target: Text,
                                             after: seq<(Text, Text)>, es: seq<(Text, Text)>,
                                             files: map<Text, seq<Text>>, domain: Text)
    requires NamesFile(entry) && entry in files && LinesStandFor(files[entry], es)
    ensures Answer(drops, before + [(entry, target)] + after, files, domain)
         == Answer(drops, before + es + after, files, domain)
  {
    hide DropRules, RedirectRules, Trim, Answer, StandsFor, NamesFile;
    var one: seq<(Text, Text)> := [(entry, target)];
    RedirectsOfParts(before, one, after, files);
    RedirectsOfParts(before, es, after, files);
    FileIsFile(entry);
    OneRedirect((entry, target), files);
    RedirectLinesArePlain(files[entry], es, files);
    SameRules(drops, before + one + after, drops, before + es + after, files, domain);
  }

  /** A line without a colon gives no rule. */
  lemma {:induction false} LineWithoutColon(line: Text)
    requires 58 !in line
    ensures RedirectLineRule(line) == []
  {
    NoColon(line);
  }

  /** Nor does a line with nothing on one side of the first colon. */
  lemma {:induction false} HalfLine(a: Text, b: Text)
    requires 58 !in a && (Trim(a) == [] || Trim(b) == [])
    ensures RedirectLineRule(a + [58] + b) == []
  {
    SplitOnceAt(a, b, 58);
  }

  lemma {:induction false} NoColon(t: Text)
    requires 58 !in t
    ensures SplitOnce(t, 58) == None
  {
    if t != [] {
      assert 58 !in t[1..];
      NoColon(t[1..]);
    }
  }
}
