/** The rule trie of `shared/src/domain_trie.rs` and the flat rule list it stands for. */
module Trie {
  import opened Bytes
  import opened Strings

  const HASH: byte := 35
  const SLASH: byte := 47
  const COMMA: byte := 44
  const COLON: byte := 58

  datatype Policy = NoPolicy | Drop | Redirect(ips: seq<Text>)

  /** A path from the root: the labels of a name, last label first. */
  type Path = seq<Text>

  // ---- Normalised names

  function Normal(domain: Text): Text {
    Lower(TrimDots(domain))
  }

  /** The labels of a queried name. */
  function Labels(domain: Text): (r: seq<Text>)
    ensures r != []
  {
    Split(Normal(domain), DOT)
  }

  /** The labels of a rule pattern, without a leading `*.`. */
  function PatternLabels(pattern: Text): (r: seq<Text>)
    ensures r != []
  {
    Split(StripStar(Normal(pattern)), DOT)
  }

  /** `rsplit` gives the parts of `split` backwards. */
  function Reverse<T>(s: seq<T>): (r: seq<T>)
    ensures |r| == |s| && forall i :: 0 <= i < |s| ==> r[i] == s[|s| - 1 - i]
  {
    seq(|s|, i requires 0 <= i < |s| => s[|s| - 1 - i])
  }

  // ---- The trie

  class TrieNode {
    var children: map<Text, TrieNode>
    var policy: Policy
    ghost const path: Path

    constructor (ghost path: Path)
      ensures children == map[] && policy == NoPolicy && this.path == path
    {
      this.path := path;
      children := map[];
      policy := NoPolicy;
    }
  }

  ghost function Child(p: Path, part: Text): Path {
    p + [part]
  }

  lemma ChildIsUnique(path: Path, name: Text)
    ensures forall p, l :: Child(p, l) == Child(path, name) ==> p == path && l == name
    ensures forall p, l :: Child(p, l) != []
  {
    forall p, l | Child(p, l) == Child(path, name)
      ensures p == path && l == name
    {
      assert Child(p, l)[..|p|] == p && Child(path, name)[..|path|] == path;
      assert Child(p, l)[|p|] == l && Child(path, name)[|path|] == name;
    }
  }

  /** `nodes` holds every node under the path that leads to it, and `table` their policies. */
  class DomainTrie {
    const root: TrieNode
    ghost var nodes: map<Path, TrieNode>
    ghost var table: map<Path, Policy>
    ghost var repr: set<TrieNode>

    ghost predicate NodeOk(p: Path, n: TrieNode)
      reads this, n
    {
      && n in repr && n.path == p
      && Linked(nodes, p, n.children)
      && p in table && table[p] == n.policy
    }

    ghost predicate Valid()
      reads this, repr
    {
      && [] in nodes && nodes[[]] == root
      && Closed(nodes) && table.Keys == nodes.Keys
      && (forall p :: p in nodes ==> nodes[p] in repr && NodeOk(p, nodes[p]))
    }

    constructor ()
      ensures Valid() && fresh(repr)
      ensures table == EmptyTable()
    {
      var node := new TrieNode([]);
      root := node;
      nodes := map[[] := node];
      table := EmptyTable();
      repr := {node};
      ChildIsUnique([], []);
    }

    method InsertWithPolicy(pattern: Text, policy: Policy)
      requires Valid()
      modifies this, repr
      ensures Valid() && fresh(repr - old(repr))
      ensures table == Inserted(old(table), Reverse(PatternLabels(pattern)), policy)
    {
      hide Child, Grown, Reached, PatternLabels, Reverse, Linked, Closed, NodeOk;
      var path := Reverse(PatternLabels(pattern));
      var node := root;
      GrownNothing(table);
      for i := 0 to |path|
        invariant Valid() && path[..i] in nodes && node == nodes[path[..i]]
        invariant fresh(repr - old(repr))
        invariant table == Grown(old(table), path[..i])
      {
        node := Step(node, path[..i], path[i]);
        GrownStep(old(table), path, i);
      }
      assert path[..|path|] == path;
      SetPolicy(node, path, policy);
    }

    method InsertDrop(pattern: Text)
      requires Valid()
      modifies this, repr
      ensures Valid() && fresh(repr - old(repr))
      ensures table == Ruled(old(table), DropRule(pattern))
    {
      InsertWithPolicy(pattern, Drop);
    }

    method InsertRedirect(pattern: Text, ipWithPort: Text)
      requires Valid()
      modifies this, repr
      ensures Valid() && fresh(repr - old(repr))
      ensures table == Ruled(old(table), RedirectRule(pattern, ipWithPort))
    {
      InsertWithPolicy(pattern, Redirect(Targets(ipWithPort)));
    }

    /** Returns at the first policy on the way down, and gives up where the way ends. */
    method Lookup(domain: Text) returns (policy: Policy)
      requires Valid()
      ensures policy == LookupIn(table, Reverse(Labels(domain)), 0)
    {
      hide Reverse, Labels;
      var path := Reverse(Labels(domain));
      var node := root;
      for i := 0 to |path|
        invariant path[..i] in nodes && node == nodes[path[..i]]
        invariant LookupIn(table, path, i) == LookupIn(table, path, 0)
      {
        assert NodeOk(path[..i], node);
        assert path[..i + 1] == Child(path[..i], path[i]);
        if path[i] !in node.children {
          return NoPolicy;
        }
        var next := node.children[path[i]];
        assert NodeOk(path[..i + 1], next);
        if next.policy != NoPolicy {
          return next.policy;
        }
        node := next;
      }
      return NoPolicy;
    }

    method SetPolicy(node: TrieNode, ghost path: Path, policy: Policy)
      requires Valid() && path in nodes && nodes[path] == node
      modifies this`table, node`policy
      ensures Valid() && table == old(table)[path := policy]
    {
      hide Linked, Closed;
      node.policy := policy;
      table := table[path := policy];
      assert forall p :: p in nodes && p != path ==> nodes[p] != node && old(NodeOk(p, nodes[p]));
    }

    /** `node.children.entry(label).or_default()`. */
    method Step(node: TrieNode, ghost path: Path, name: Text) returns (next: TrieNode)
      requires Valid() && path in nodes && nodes[path] == node
      modifies this, node`children
      ensures Valid() && Child(path, name) in nodes && nodes[Child(path, name)] == next
      ensures fresh(repr - old(repr))
      ensures table == Reached(old(table), Child(path, name))
    {
      hide Child, Closed;
      if name in node.children {
        next := node.children[name];
      } else {
        next := AddChild(node, path, name);
      }
    }

    method AddChild(node: TrieNode, ghost path: Path, name: Text) returns (next: TrieNode)
      requires Valid() && path in nodes && nodes[path] == node && name !in node.children
      modifies this, node`children
      ensures Valid() && nodes == old(nodes)[Child(path, name) := next]
      ensures repr == old(repr) + {next} && fresh(next)
      ensures Child(path, name) !in old(nodes) && table == old(table)[Child(path, name) := NoPolicy]
    {
      hide Linked, Closed, Child;
      ghost var before, c := nodes, Child(path, name);
      LinkedMissing(before, path, node.children, name);
      next := new TrieNode(c);
      LinkedHere(before, path, node.children, name, next);
      LinkedNew(before, path, name, next);
      ClosedStays(before, path, name, next);
      node.children := node.children[name := next];
      nodes := nodes[c := next];
      table := table[c := NoPolicy];
      repr := repr + {next};
      forall p | p in nodes
        ensures NodeOk(p, nodes[p])
      {
        if p != c && p != path {
          assert old(NodeOk(p, nodes[p]));
          LinkedElsewhere(before, p, nodes[p].children, path, name, next);
        }
      }
    }
  }

  /** The children of the node at `p` are the nodes one label further on. */
  ghost predicate Linked(nodes: map<Path, TrieNode>, p: Path, children: map<Text, TrieNode>) {
    forall l ::
      && (l in children <==> Child(p, l) in nodes)
      && (l in children ==> children[l] == nodes[Child(p, l)])
  }

  /** Every node but the root has a parent. */
  ghost predicate Closed(nodes: map<Path, TrieNode>) {
    forall p, l :: Child(p, l) in nodes ==> p in nodes
  }

  lemma LinkedMissing(nodes: map<Path, TrieNode>, p: Path, children: map<Text, TrieNode>, name: Text)
    requires Linked(nodes, p, children) && name !in children
    ensures Child(p, name) !in nodes
  {
  }

  lemma LinkedHere(nodes: map<Path, TrieNode>, p: Path, children: map<Text, TrieNode>, name: Text, next: TrieNode)
    requires Linked(nodes, p, children)
    ensures Linked(nodes[Child(p, name) := next], p, children[name := next])
  {
    ChildIsUnique(p, name);
  }

  lemma LinkedElsewhere(nodes: map<Path, TrieNode>, p: Path, children: map<Text, TrieNode>,
                        path: Path, name: Text, next: TrieNode)
    requires Linked(nodes, p, children) && p != path
    ensures Linked(nodes[Child(path, name) := next], p, children)
  {
    ChildIsUnique(path, name);
  }

  lemma LinkedNew(nodes: map<Path, TrieNode>, path: Path, name: Text, next: TrieNode)
    requires Closed(nodes) && path in nodes && Child(path, name) !in nodes
    ensures Linked(nodes[Child(path, name) := next], Child(path, name), map[])
  {
    ChildIsUnique(path, name);
  }

  lemma ClosedStays(nodes: map<Path, TrieNode>, path: Path, name: Text, next: TrieNode)
    requires Closed(nodes) && path in nodes
    ensures Closed(nodes[Child(path, name) := next])
  {
    ChildIsUnique(path, name);
  }

  // ---- Tables

  ghost function EmptyTable(): map<Path, Policy> {
    map[[] := NoPolicy]
  }

  /** The node at `p` exists, with the default policy if it is new. */
  ghost function Reached(t: map<Path, Policy>, p: Path): map<Path, Policy> {
    if p in t then t else t[p := NoPolicy]
  }

  /** All nodes on the way to `path` exist. */
  ghost function Grown(t: map<Path, Policy>, path: Path): map<Path, Policy> {
    if path == [] then t else Reached(Grown(t, path[..|path| - 1]), path)
  }

  ghost function Inserted(t: map<Path, Policy>, path: Path, policy: Policy): map<Path, Policy> {
    Grown(t, path)[path := policy]
  }

  lemma GrownNothing(t: map<Path, Policy>)
    ensures Grown(t, []) == t
  {
  }

  lemma GrownStep(t: map<Path, Policy>, path: Path, i: nat)
    requires i < |path|
    ensures Grown(t, path[..i + 1]) == Reached(Grown(t, path[..i]), Child(path[..i], path[i]))
    ensures Child(path[..i], path[i]) == path[..i + 1]
  {
    assert path[..i + 1][..i] == path[..i];
    assert path[..i + 1] == path[..i] + [path[i]];
  }

  /** The walk of `lookup` over a table of policies. */
  ghost function LookupIn(t: map<Path, Policy>, path: Path, i: nat): Policy
    decreases |path| - i
  {
    if i >= |path| || path[..i + 1] !in t then NoPolicy
    else if t[path[..i + 1]] != NoPolicy then t[path[..i + 1]]
    else LookupIn(t, path, i + 1)
  }

  // ---- Rules

  datatype Rule = Rule(labels: seq<Text>, policy: Policy)

  function DropRule(pattern: Text): Rule {
    Rule(PatternLabels(pattern), Drop)
  }

  /** Each comma-separated entry up to its first colon. */
  function Targets(t: Text): seq<Text> {
    var entries := Split(t, COMMA);
    seq(|entries|, i requires 0 <= i < |entries| => Split(entries[i], COLON)[0])
  }

  function RedirectRule(pattern: Text, target: Text): Rule {
    Rule(PatternLabels(pattern), Redirect(Targets(target)))
  }

  ghost function Ruled(t: map<Path, Policy>, r: Rule): map<Path, Policy> {
    Inserted(t, Reverse(r.labels), r.policy)
  }

  ghost function TableOf(rules: seq<Rule>): map<Path, Policy> {
    if rules == [] then EmptyTable() else Ruled(TableOf(rules[..|rules| - 1]), rules[|rules| - 1])
  }

  lemma TableSnoc(rules: seq<Rule>, r: Rule)
    ensures TableOf(rules + [r]) == Ruled(TableOf(rules), r)
  {
    assert (rules + [r])[..|rules|] == rules;
  }

  predicate FileReference(p: Text) {
    [SLASH] <= p || [DOT, SLASH] <= p || [DOT, DOT, SLASH] <= p
  }

  predicate Skipped(p: Text) {
    p == [] || p[0] == HASH
  }

  /** What a list file holds, a missing one being empty. */
  function Lines(files: map<Text, seq<Text>>, path: Text): seq<Text> {
    if path in files then files[path] else []
  }

  function DropLineRules(lines: seq<Text>): seq<Rule> {
    if lines == [] then [] else [DropRule(lines[0])] + DropLineRules(lines[1..])
  }

  function DropEntryRules(entry: Text, files: map<Text, seq<Text>>): seq<Rule> {
    var p := Trim(entry);
    if Skipped(p) then []
    else if FileReference(p) then DropLineRules(Lines(files, p))
    else [DropRule(p)]
  }

  function DropRules(list: seq<Text>, files: map<Text, seq<Text>>): seq<Rule> {
    if list == [] then [] else DropEntryRules(list[0], files) + DropRules(list[1..], files)
  }

  /** `domain:ip1,ip2`, both sides trimmed and not empty. */
  function RedirectLineRule(line: Text): seq<Rule> {
    match SplitOnce(line, COLON)
    case None => []
    case Some(r) => if Trim(r.0) == [] || Trim(r.1) == [] then [] else [RedirectRule(Trim(r.0), Trim(r.1))]
  }

  function RedirectLineRules(lines: seq<Text>): seq<Rule> {
    if lines == [] then [] else RedirectLineRule(lines[0]) + RedirectLineRules(lines[1..])
  }

  function RedirectEntryRules(pattern: Text, target: Text, files: map<Text, seq<Text>>): seq<Rule> {
    var p := Trim(pattern);
    if Skipped(p) then []
    else if FileReference(p) then RedirectLineRules(Lines(files, p))
    else [RedirectRule(p, target)]
  }

  function RedirectRules(list: seq<(Text, Text)>, files: map<Text, seq<Text>>): seq<Rule> {
    if list == [] then [] else RedirectEntryRules(list[0].0, list[0].1, files) + RedirectRules(list[1..], files)
  }

  /** All rules in the order of insertion: drops, then redirects. */
  function Rules(drops: seq<Text>, redirects: seq<(Text, Text)>, files: map<Text, seq<Text>>): seq<Rule> {
    DropRules(drops, files) + RedirectRules(redirects, files)
  }

  method Build(drops: seq<Text>, redirects: seq<(Text, Text)>, files: map<Text, seq<Text>>) returns (trie: DomainTrie)
    ensures trie.Valid() && fresh(trie) && fresh(trie.repr)
    ensures trie.table == TableOf(Rules(drops, redirects, files))
  {
    hide TableOf, DropRules, RedirectRules, DomainTrie.Valid;
    trie := new DomainTrie();
    EmptyIsTable();
    BuildDrops(trie, drops, files);
    BuildRedirects(trie, redirects, files, DropRules(drops, files));
  }

  lemma EmptyIsTable()
    ensures EmptyTable() == TableOf([])
  {
  }

  method BuildDrops(trie: DomainTrie, drops: seq<Text>, files: map<Text, seq<Text>>)
    requires trie.Valid() && trie.table == TableOf([])
    modifies trie, trie.repr
    ensures trie.Valid() && fresh(trie.repr - old(trie.repr))
    ensures trie.table == TableOf(DropRules(drops, files))
  {
    hide TableOf, DropEntryRules;
    ghost var done: seq<Rule> := [];
    assert drops[0..] == drops;
    for i := 0 to |drops|
      invariant trie.Valid() && fresh(trie.repr - old(trie.repr))
      invariant trie.table == TableOf(done)
      invariant done + DropRules(drops[i..], files) == DropRules(drops, files)
    {
      assert drops[i..][1..] == drops[i + 1..];
      BuildDrop(trie, drops[i], files, done);
      ghost var more := DropEntryRules(drops[i], files);
      assert done + (more + DropRules(drops[i + 1..], files)) == done + more + DropRules(drops[i + 1..], files);
      done := done + more;
    }
    assert done == DropRules(drops, files);
  }

  method BuildRedirects(trie: DomainTrie, redirects: seq<(Text, Text)>, files: map<Text, seq<Text>>,
      ghost dropped: seq<Rule>)
    requires trie.Valid() && trie.table == TableOf(dropped)
    modifies trie, trie.repr
    ensures trie.Valid() && fresh(trie.repr - old(trie.repr))
    ensures trie.table == TableOf(dropped + RedirectRules(redirects, files))
  {
    hide TableOf, RedirectEntryRules;
    ghost var done := dropped;
    assert redirects[0..] == redirects;
    for i := 0 to |redirects|
      invariant trie.Valid() && fresh(trie.repr - old(trie.repr))
      invariant trie.table == TableOf(done)
      invariant done + RedirectRules(redirects[i..], files) == dropped + RedirectRules(redirects, files)
    {
      assert redirects[i..][1..] == redirects[i + 1..];
      BuildRedirect(trie, redirects[i].0, redirects[i].1, files, done);
      ghost var more := RedirectEntryRules(redirects[i].0, redirects[i].1, files);
      assert done + (more + RedirectRules(redirects[i + 1..], files))
          == done + more + RedirectRules(redirects[i + 1..], files);
      done := done + more;
    }
    assert done == dropped + RedirectRules(redirects, files);
  }

  method BuildDrop(trie: DomainTrie, entry: Text, files: map<Text, seq<Text>>, ghost done: seq<Rule>)
    requires trie.Valid() && trie.table == TableOf(done)
    modifies trie, trie.repr
    ensures trie.Valid() && fresh(trie.repr - old(trie.repr))
    ensures trie.table == TableOf(done + DropEntryRules(entry, files))
  {
    hide TableOf, Ruled, DropRule, Trim;
    var pattern := Trim(entry);
    if Skipped(pattern) {
      assert done + [] == done;
    } else if FileReference(pattern) {
      var lines := Lines(files, pattern);
      ghost var sofar := done;
      assert lines[0..] == lines;
      for i := 0 to |lines|
        invariant trie.Valid() && fresh(trie.repr - old(trie.repr))
        invariant trie.table == TableOf(sofar)
        invariant sofar + DropLineRules(lines[i..]) == done + DropLineRules(lines)
      {
        assert lines[i..][1..] == lines[i + 1..];
        trie.InsertDrop(lines[i]);
        TableSnoc(sofar, DropRule(lines[i]));
        sofar := sofar + [DropRule(lines[i])];
      }
      assert sofar == done + DropLineRules(lines);
    } else {
      trie.InsertDrop(pattern);
      TableSnoc(done, DropRule(pattern));
    }
  }

  method BuildRedirect(trie: DomainTrie, from: Text, target: Text, files: map<Text, seq<Text>>, ghost done: seq<Rule>)
    requires trie.Valid() && trie.table == TableOf(done)
    modifies trie, trie.repr
    ensures trie.Valid() && fresh(trie.repr - old(trie.repr))
    ensures trie.table == TableOf(done + RedirectEntryRules(from, target, files))
  {
    hide TableOf, Ruled, RedirectRule, Trim, RedirectLineRule;
    var pattern := Trim(from);
    if Skipped(pattern) {
      assert done + [] == done;
    } else if FileReference(pattern) {
      var lines := Lines(files, pattern);
      ghost var sofar := done;
      assert lines[0..] == lines;
      for i := 0 to |lines|
        invariant trie.Valid() && fresh(trie.repr - old(trie.repr))
        invariant trie.table == TableOf(sofar)
        invariant sofar + RedirectLineRules(lines[i..]) == done + RedirectLineRules(lines)
      {
        assert lines[i..][1..] == lines[i + 1..];
        BuildRedirectLine(trie, lines[i], sofar);
        ghost var more := RedirectLineRule(lines[i]);
        assert sofar + (more + RedirectLineRules(lines[i + 1..])) == sofar + more + RedirectLineRules(lines[i + 1..]);
        sofar := sofar + more;
      }
      assert sofar == done + RedirectLineRules(lines);
    } else {
      trie.InsertRedirect(pattern, target);
      TableSnoc(done, RedirectRule(pattern, target));
    }
  }

  method BuildRedirectLine(trie: DomainTrie, line: Text, ghost done: seq<Rule>)
    requires trie.Valid() && trie.table == TableOf(done)
    modifies trie, trie.repr
    ensures trie.Valid() && fresh(trie.repr - old(trie.repr))
    ensures trie.table == TableOf(done + RedirectLineRule(line))
  {
    hide TableOf, Ruled, RedirectRule, Trim, SplitOnce;
    assert done + [] == done;
    match SplitOnce(line, COLON) {
      case None =>
      case Some(r) =>
        if Trim(r.0) != [] && Trim(r.1) != [] {
          trie.InsertRedirect(Trim(r.0), Trim(r.1));
          TableSnoc(done, RedirectRule(Trim(r.0), Trim(r.1)));
        }
    }
  }

  // ---- The flat list

  predicate IsSuffix(a: seq<Text>, b: seq<Text>) {
    |a| <= |b| && b[|b| - |a|..] == a
  }

  /** Rule `i` matches; no matching rule has fewer labels, and none with as many comes later. */
  ghost predicate Best(rules: seq<Rule>, labels: seq<Text>, i: nat) {
    && i < |rules| && IsSuffix(rules[i].labels, labels)
    && forall j :: 0 <= j < |rules| && IsSuffix(rules[j].labels, labels) ==>
         |rules[i].labels| < |rules[j].labels| || (|rules[i].labels| == |rules[j].labels| && j <= i)
  }

  ghost predicate FlatAnswer(rules: seq<Rule>, labels: seq<Text>, answer: Policy) {
    if exists r <- rules :: IsSuffix(r.labels, labels) then
      exists i: nat :: Best(rules, labels, i) && answer == rules[i].policy
    else answer == NoPolicy
  }

  ghost predicate RealRules(rules: seq<Rule>) {
    forall r <- rules :: r.labels != [] && r.policy != NoPolicy
  }

  /** The policy of the last rule for exactly the path `p`. */
  ghost function LastPolicy(rules: seq<Rule>, p: Path): Policy {
    if rules == [] then NoPolicy
    else
      var r := rules[|rules| - 1];
      if Reverse(r.labels) == p then r.policy else LastPolicy(rules[..|rules| - 1], p)
  }

  ghost predicate OnTheWay(rules: seq<Rule>, p: Path) {
    p == [] || exists i :: 0 <= i < |rules| && p <= Reverse(rules[i].labels)
  }

  lemma {:induction false} GrownIs(t: map<Path, Policy>, path: Path)
    requires [] in t
    ensures forall p :: p in Grown(t, path) <==> p in t || p <= path
    ensures forall p :: p in Grown(t, path) ==> Grown(t, path)[p] == if p in t then t[p] else NoPolicy
    decreases |path|
  {
    if path != [] {
      var front := path[..|path| - 1];
      GrownIs(t, front);
      forall p
        ensures p in Grown(t, path) <==> p in t || p <= path
      {
        assert p <= path <==> p <= path[..|path| - 1] || p == path by {
          if p <= path && p != path {
            assert |p| < |path| && p == path[..|p|] == path[..|path| - 1][..|p|];
          }
        }
      }
    }
  }

  /** A table built from rules has the nodes on the way to some rule, with the last rule's policy on each. */
  lemma {:induction false} TableIs(rules: seq<Rule>)
    ensures forall p :: p in TableOf(rules) <==> OnTheWay(rules, p)
    ensures forall p :: p in TableOf(rules) ==> TableOf(rules)[p] == LastPolicy(rules, p)
    decreases |rules|
  {
    hide Reverse;
    if rules != [] {
      var n := |rules| - 1;
      var front, path := rules[..n], Reverse(rules[n].labels);
      TableIs(front);
      GrownIs(TableOf(front), path);
      forall p
        ensures p in TableOf(rules) <==> OnTheWay(rules, p)
        ensures p in TableOf(rules) ==> TableOf(rules)[p] == LastPolicy(rules, p)
      {
        WayOfFront(rules, p);
        NoWayNoPolicy(front, p);
      }
    }
  }

  lemma WayOfFront(rules: seq<Rule>, p: Path)
    requires rules != []
    ensures OnTheWay(rules, p) <==> OnTheWay(rules[..|rules| - 1], p) || p <= Reverse(rules[|rules| - 1].labels)
  {
    hide Reverse;
    var n := |rules| - 1;
    if p != [] && OnTheWay(rules, p) {
      var i :| 0 <= i < |rules| && p <= Reverse(rules[i].labels);
      assert i < n ==> rules[..n][i] == rules[i];
    }
    if p != [] && OnTheWay(rules[..n], p) {
      var i :| 0 <= i < n && p <= Reverse(rules[..n][i].labels);
      assert rules[i] == rules[..n][i];
    }
  }

  lemma {:induction false} NoWayNoPolicy(rules: seq<Rule>, p: Path)
    ensures !OnTheWay(rules, p) ==> LastPolicy(rules, p) == NoPolicy
    decreases |rules|
  {
    hide Reverse;
    if rules != [] {
      WayOfFront(rules, p);
      NoWayNoPolicy(rules[..|rules| - 1], p);
    }
  }

  lemma SuffixIsPrefix(a: seq<Text>, b: seq<Text>)
    ensures IsSuffix(a, b) <==> Reverse(a) <= Reverse(b)
  {
    if IsSuffix(a, b) {
      forall i | 0 <= i < |a|
        ensures Reverse(a)[i] == Reverse(b)[i]
      {
        assert b[|b| - |a|..][|a| - 1 - i] == a[|a| - 1 - i];
      }
    }
    if Reverse(a) <= Reverse(b) {
      forall i | 0 <= i < |a|
        ensures b[|b| - |a|..][i] == a[i]
      {
        assert Reverse(a)[|a| - 1 - i] == Reverse(b)[|a| - 1 - i];
      }
    }
  }

  /** The last rule for the path of the `k` last labels, if there is one. */
  lemma {:induction false} LastPolicyIs(rules: seq<Rule>, p: Path) returns (i: nat)
    requires RealRules(rules) && LastPolicy(rules, p) != NoPolicy
    ensures i < |rules| && Reverse(rules[i].labels) == p && rules[i].policy == LastPolicy(rules, p)
    ensures forall j :: i < j < |rules| ==> Reverse(rules[j].labels) != p
    decreases |rules|
  {
    hide Reverse;
    var n := |rules| - 1;
    if Reverse(rules[n].labels) == p {
      i := n;
    } else {
      i := LastPolicyIs(rules[..n], p);
      forall j | i < j < |rules|
        ensures Reverse(rules[j].labels) != p
      {
        assert j < n ==> rules[..n][j] == rules[j];
      }
    }
  }

  lemma {:induction false} NoLastPolicy(rules: seq<Rule>, p: Path)
    requires RealRules(rules) && LastPolicy(rules, p) == NoPolicy
    ensures forall j :: 0 <= j < |rules| ==> Reverse(rules[j].labels) != p
    decreases |rules|
  {
    hide Reverse;
    if rules != [] {
      var n := |rules| - 1;
      assert rules[n] in rules;
      NoLastPolicy(rules[..n], p);
      forall j | 0 <= j < |rules|
        ensures Reverse(rules[j].labels) != p
      {
        assert j < n ==> rules[..n][j] == rules[j];
      }
    }
  }

  lemma {:induction false} LookupWalk(rules: seq<Rule>, path: Path, i: nat) returns (k: nat)
    requires RealRules(rules) && i <= |path|
    ensures i < k <= |path| + 1
    ensures forall n :: i < n < k && n <= |path| ==> LastPolicy(rules, path[..n]) == NoPolicy
    ensures LookupIn(TableOf(rules), path, i) == if k <= |path| then LastPolicy(rules, path[..k]) else NoPolicy
    ensures k <= |path| ==> LastPolicy(rules, path[..k]) != NoPolicy
    decreases |path| - i
  {
    hide TableOf, OnTheWay, Reverse, LastPolicy;
    TableIs(rules);
    if i == |path| {
      k := i + 1;
    } else if path[..i + 1] !in TableOf(rules) {
      forall n | i < n <= |path|
        ensures LastPolicy(rules, path[..n]) == NoPolicy
      {
        if OnTheWay(rules, path[..n]) {
          ShorterIsOnTheWay(rules, path, i + 1, n);
        }
        NoWayNoPolicy(rules, path[..n]);
      }
      k := |path| + 1;
    } else if LastPolicy(rules, path[..i + 1]) != NoPolicy {
      k := i + 1;
    } else {
      k := LookupWalk(rules, path, i + 1);
    }
  }

  lemma ShorterIsOnTheWay(rules: seq<Rule>, path: Path, m: nat, n: nat)
    requires m <= n <= |path| && OnTheWay(rules, path[..n])
    ensures OnTheWay(rules, path[..m])
  {
    hide Reverse;
    if m > 0 {
      var i :| 0 <= i < |rules| && path[..n] <= Reverse(rules[i].labels);
      assert path[..m] == path[..n][..m];
    }
  }

  /** Every lookup is the flat-list answer: the last inserted of the matching rules with the fewest labels. */
  lemma {:induction false} LookupIsFlat(rules: seq<Rule>, labels: seq<Text>)
    requires RealRules(rules)
    ensures FlatAnswer(rules, labels, LookupIn(TableOf(rules), Reverse(labels), 0))
  {
    hide TableOf, Reverse, LastPolicy, LookupIn, IsSuffix;
    var path := Reverse(labels);
    var k := LookupWalk(rules, path, 0);
    forall j | 0 <= j < |rules|
      ensures IsSuffix(rules[j].labels, labels) ==>
                0 < |rules[j].labels| <= |path| && Reverse(rules[j].labels) == path[..|rules[j].labels|]
                    && k <= |rules[j].labels|
    {
      assert rules[j] in rules;
      SuffixIsPrefix(rules[j].labels, labels);
      var n := |rules[j].labels|;
      if IsSuffix(rules[j].labels, labels) && n < k {
        NoLastPolicy(rules, path[..n]);
      }
    }
    if k <= |path| {
      var i := LastPolicyIs(rules, path[..k]);
      SuffixIsPrefix(rules[i].labels, labels);
      assert Best(rules, labels, i);
      assert rules[i] in rules;
    } else {
      forall r <- rules
        ensures !IsSuffix(r.labels, labels)
      {
        var j :| 0 <= j < |rules| && rules[j] == r;
      }
    }
  }

  lemma {:induction false} DropLinesAreReal(lines: seq<Text>)
    ensures RealRules(DropLineRules(lines))
  {
    hide PatternLabels;
    if lines != [] {
      DropLinesAreReal(lines[1..]);
    }
  }

  lemma {:induction false} DropsAreReal(list: seq<Text>, files: map<Text, seq<Text>>)
    ensures RealRules(DropRules(list, files))
  {
    hide PatternLabels, Trim;
    if list != [] {
      DropLinesAreReal(Lines(files, Trim(list[0])));
      DropsAreReal(list[1..], files);
    }
  }

  lemma {:induction false} RedirectLinesAreReal(lines: seq<Text>)
    ensures RealRules(RedirectLineRules(lines))
  {
    hide PatternLabels, Trim, SplitOnce, Targets;
    if lines != [] {
      RedirectLinesAreReal(lines[1..]);
    }
  }

  lemma {:induction false} RedirectsAreReal(list: seq<(Text, Text)>, files: map<Text, seq<Text>>)
    ensures RealRules(RedirectRules(list, files))
  {
    hide PatternLabels, Trim, Targets;
    if list != [] {
      RedirectLinesAreReal(Lines(files, Trim(list[0].0)));
      RedirectsAreReal(list[1..], files);
    }
  }

  /** What `lookup` answers in the trie built from the lists. */
  ghost function Answer(drops: seq<Text>, redirects: seq<(Text, Text)>, files: map<Text, seq<Text>>,
      domain: Text): Policy {
    LookupIn(TableOf(Rules(drops, redirects, files)), Reverse(Labels(domain)), 0)
  }

  lemma {:induction false} BuiltAnswerIsFlat(drops: seq<Text>, redirects: seq<(Text, Text)>,
                                             files: map<Text, seq<Text>>, domain: Text)
    ensures FlatAnswer(Rules(drops, redirects, files), Labels(domain), Answer(drops, redirects, files, domain))
  {
    DropsAreReal(drops, files);
    RedirectsAreReal(redirects, files);
    LookupIsFlat(Rules(drops, redirects, files), Labels(domain));
  }

  // ---- `matches_domain_pattern`, which purges the cache on reload

  predicate Matches(domain: Text, pattern: Text) {
    var d, p := Normal(domain), Normal(pattern);
    d == p || (HasStar(p) && (d == p[2..] || EndsWith(d, [DOT] + p[2..])))
  }

  predicate EndsWith(t: Text, end: Text) {
    |end| <= |t| && t[|t| - |end|..] == end
  }

  lemma EndsWithIsSuffix(d: Text, t: Text)
    ensures d == t || EndsWith(d, [DOT] + t) <==> IsSuffix(Split(t, DOT), Split(d, DOT))
  {
    hide Split, Join;
    if EndsWith(d, [DOT] + t) {
      var front := d[..|d| - |t| - 1];
      assert d == front + [DOT] + t by {
        assert d == front + d[|d| - |t| - 1..];
      }
      SplitAt(front, t, DOT);
    }
    if IsSuffix(Split(t, DOT), Split(d, DOT)) {
      SuffixIsEnd(d, t);
    }
  }

  lemma SuffixIsEnd(d: Text, t: Text)
    requires IsSuffix(Split(t, DOT), Split(d, DOT))
    ensures d == t || EndsWith(d, [DOT] + t)
  {
    hide Split, Join;
    var a, b := Split(t, DOT), Split(d, DOT);
    JoinSplit(d, DOT);
    JoinSplit(t, DOT);
    if |a| == |b| {
      assert b[0..] == b;
    } else {
      var front := b[..|b| - |a|];
      assert b == front + a;
      JoinAppend(front, a, DOT);
      assert d == Join(front, DOT) + ([DOT] + t);
      assert d[|d| - |t| - 1..] == [DOT] + t;
    }
  }

  /** A pattern purges a name exactly when its labels are a suffix of the name's, or, without a star, the same text. */
  lemma {:induction false} MatchesIsSuffix(domain: Text, pattern: Text)
    ensures Matches(domain, pattern) <==>
            if HasStar(Normal(pattern)) then IsSuffix(PatternLabels(pattern), Labels(domain))
            else Normal(domain) == Normal(pattern)
  {
    hide Split, Normal;
    var d, p := Normal(domain), Normal(pattern);
    if HasStar(p) {
      EndsWithIsSuffix(d, p[2..]);
      if d == p {
        assert p[1..] == [DOT] + p[2..];
        assert EndsWith(d, [DOT] + p[2..]);
      }
    }
  }

  lemma {:induction false} RuleOfEntry(list: seq<Text>, files: map<Text, seq<Text>>, i: nat)
    requires i < |list| && !Skipped(Trim(list[i])) && !FileReference(Trim(list[i]))
    ensures DropRule(Trim(list[i])) in DropRules(list, files)
  {
    hide DropRule, Trim;
    if i > 0 {
      RuleOfEntry(list[1..], files, i - 1);
    }
  }

  /**
   * Every name that the reload purges through a plain drop entry is one the new trie answers, by a drop or a
   * redirect. A plain entry is no comment, no file, and has no white space around it.
   */
  lemma {:induction false} PurgedIsAnswered(drops: seq<Text>, redirects: seq<(Text, Text)>,
                                             files: map<Text, seq<Text>>, domain: Text, i: nat)
    requires i < |drops| && Trim(drops[i]) == drops[i] && !Skipped(drops[i]) && !FileReference(drops[i])
    requires Matches(domain, drops[i])
    ensures Answer(drops, redirects, files, domain) != NoPolicy
  {
    hide Matches, Answer, Rules, DropRules, Trim, Split, Normal;
    MatchesIsSuffix(domain, drops[i]);
    RuleOfEntry(drops, files, i);
    BuiltAnswerIsFlat(drops, redirects, files, domain);
    var rules := Rules(drops, redirects, files);
    InRules(drops, redirects, files, DropRule(drops[i]));
    assert IsSuffix(DropRule(drops[i]).labels, Labels(domain)) by {
      if !HasStar(Normal(drops[i])) {
        assert Labels(domain)[0..] == Labels(domain);
      }
    }
    DropsAreReal(drops, files);
    RedirectsAreReal(redirects, files);
    RulesAreReal(drops, redirects, files);
    var k: nat :| Best(rules, Labels(domain), k) && Answer(drops, redirects, files, domain) == rules[k].policy;
    assert rules[k] in rules;
  }

  lemma InRules(drops: seq<Text>, redirects: seq<(Text, Text)>, files: map<Text, seq<Text>>, r: Rule)
    requires r in DropRules(drops, files)
    ensures r in Rules(drops, redirects, files)
  {
  }

  lemma RulesAreReal(drops: seq<Text>, redirects: seq<(Text, Text)>, files: map<Text, seq<Text>>)
    ensures RealRules(Rules(drops, redirects, files))
  {
    DropsAreReal(drops, files);
    RedirectsAreReal(redirects, files);
  }
}
