/** `resolve_query`, its cache and the hot reload, in every interleaving. */
module Pipeline {
  import opened Bytes
  import opened Strings
  import opened Names
  import Answers
  import opened Crafted
  import opened Cache
  import Trie

  // ---- The query pipeline

  datatype Upstream = Reply(packet: seq<byte>) | Timeout | Failed

  datatype Counter = DropCount | RedirectCount | CachedCount | ResolvedCount | TimeoutCount | FailedCount

  /** A finished call: the reply to send, if any, and the counter it raised, if any. */
  datatype Result = Result(reply: Option<seq<byte>>, counter: Option<Counter>)

  /** NXDOMAIN (`0x83`) and SERVFAIL (`0x82`) responses. */
  function ErrorResponse(payload: seq<byte>, code: byte): Option<seq<byte>> {
    if |payload| < 12 then None else Some(payload[2 := 0x81][3 := code])
  }

  datatype Checked = Answered(result: Result) | AskCache(key: CacheKey)

  /** Everything before the cache: length, name, rules, key. */
  function Check(payload: seq<byte>, name: Option<Domain>, policy: Trie.Policy): Checked {
    if |payload| < 12 || name.None? then Answered(Result(None, None))
    else
      match policy
      case Drop => Answered(Result(ErrorResponse(payload, 0x83), Some(DropCount)))
      case Redirect(ips) =>
        (match Redirect(payload, name.value.end, ips)
         case None => Answered(Result(None, None))
         case Some(r) => Answered(Result(Some(r), Some(RedirectCount))))
      case NoPolicy =>
        match CacheKeyOf(payload, name)
        case None => Answered(Result(None, None))
        case Some(key) => AskCache(key)
  }

  /** The reply to a query is a stored packet under the query's own ID. */
  function Served(payload: seq<byte>, packet: seq<byte>): seq<byte>
    requires |payload| >= 2
  {
    WithTxid(packet, payload[0], payload[1])
  }

  function AfterUpstream(payload: seq<byte>, up: Upstream): Result
    requires |payload| >= 2
  {
    match up
    case Reply(packet) => Result(Some(Served(payload, packet)), Some(ResolvedCount))
    case Timeout => Result(ErrorResponse(payload, 0x82), Some(TimeoutCount))
    case Failed => Result(ErrorResponse(payload, 0x82), Some(FailedCount))
  }

  class Metrics {
    var counts: map<Counter, nat>

    constructor ()
      ensures counts == map[]
    {
      counts := map[];
    }

    method Increment(c: Counter)
      modifies this
      ensures counts == Raised(old(counts), Some(c))
    {
      counts := counts[c := CountOf(counts, c) + 1];
    }
  }

  function CountOf(counts: map<Counter, nat>, c: Counter): nat {
    if c in counts then counts[c] else 0
  }

  function Raised(counts: map<Counter, nat>, c: Option<Counter>): map<Counter, nat> {
    match c case None => counts case Some(k) => counts[k := CountOf(counts, k) + 1]
  }

  /** Raising a counter adds one to it and nothing to the others. */
  lemma RaisedByOne(counts: map<Counter, nat>, c: Counter, other: Counter)
    ensures CountOf(Raised(counts, Some(c)), other) == CountOf(counts, other) + if other == c then 1 else 0
    ensures Raised(counts, None) == counts && CountOf(map[], other) == 0
  {
  }

  /** What a call does: its result, the cache it leaves, and what it records for the history. */
  datatype Call = Call(result: Outcome<Result>, cache: Lru, recorded: Option<(Text, seq<Ip4>)>)

  /** A call under a rule policy, when the upstream, if it is asked, answers `up`. */
  function CallOf(payload: seq<byte>, name: Outcome<Option<Domain>>, policy: Trie.Policy, cache: Lru, up: Upstream,
                  lookupAt: Time, storeAt: Time, depth: nat): Call
  {
    if |payload| >= 12 && name.StackOverflow? then Call(StackOverflow, cache, None)
    else
      var parsed := Parsed(payload, name);
      match Check(payload, parsed, policy)
      case Answered(result) => Call(Returned(result), cache, None)
      case AskCache(key) =>
        var looked := AfterLookup(cache, key, lookupAt);
        match Hit(cache, key, lookupAt)
        case Some(packet) => Call(Returned(Result(Some(Served(payload, packet)), Some(CachedCount))), looked, None)
        case None =>
          if up.Reply? then
            if Answers.TtlOn(up.packet, depth).StackOverflow? then Call(StackOverflow, looked, None)
            else
              Call(Returned(AfterUpstream(payload, up)), Put(looked, key, EntryOf(up.packet, storeAt)),
                   Some((parsed.value.text, Answers.ARecords(up.packet))))
          else Call(Returned(AfterUpstream(payload, up)), looked, None)
  }

  /** The name, if it was read to its end; a short payload is not read at all. */
  function Parsed(payload: seq<byte>, name: Outcome<Option<Domain>>): Option<Domain> {
    if |payload| < 12 || name.StackOverflow? then None else name.value
  }

  /**
   * One call with the clock readings of its lookup and its store; `up` is what the upstream would answer, and
   * `recorded` what goes to the history buffer. Both the query's name and the names of the reply may exhaust
   * the stack.
   */
  method ResolveQuery(payload: seq<byte>, trie: Trie.DomainTrie, cache: ResponseCache, metrics: Metrics,
                      up: Upstream, lookupAt: Time, storeAt: Time, depth: nat)
    returns (r: Outcome<Option<seq<byte>>>, recorded: Option<(Text, seq<Ip4>)>)
    requires trie.Valid() && {cache as object, metrics} !! trie.repr + {trie} && cache as object != metrics
    modifies cache, metrics
    ensures var name := Parse(payload, 12, [], depth);
            var parsed := Parsed(payload, name);
            var policy := if parsed.None? then Trie.NoPolicy
                          else Trie.LookupIn(trie.table, Trie.Reverse(Trie.Labels(parsed.value.text)), 0);
            var call := CallOf(payload, name, policy, old(cache.entries), up, lookupAt, storeAt, depth);
            && (call.result.StackOverflow? ==> r == StackOverflow && metrics.counts == old(metrics.counts))
            && (call.result.Returned? ==> r == Returned(call.result.value.reply)
                                          && metrics.counts == Raised(old(metrics.counts), call.result.value.counter))
            && recorded == call.recorded && cache.entries == call.cache
  {
    hide Parse, Answers.ARecords, Answers.TtlOn, Redirect, AfterLookup, Hit, Put, EntryOf;
    hide Trie.LookupIn, Trie.Reverse, Trie.Labels;
    if |payload| < 12 {
      return Returned(None), None;
    }
    var name := ParseDomain(payload, 12, depth);
    if name.StackOverflow? {
      return StackOverflow, None;
    }
    if name.value.None? {
      return Returned(None), None;
    }
    var domain := name.value.value;
    var policy := trie.Lookup(domain.text);
    match policy {
      case Drop =>
        metrics.Increment(DropCount);
        return Returned(ErrorResponse(payload, 0x83)), None;
      case Redirect(ips) =>
        var resp := CraftRedirectResponse(payload, domain.end, ips);
        if resp.None? {
          return Returned(None), None;
        }
        metrics.Increment(RedirectCount);
        return Returned(resp), None;
      case NoPolicy =>
    }
    var key := CacheKeyOf(payload, name.value);
    if key.None? {
      return Returned(None), None;
    }
    var cached := cache.CacheLookup(key.value, lookupAt);
    if cached.Some? {
      metrics.Increment(CachedCount);
      return Returned(Some(WithTxid(cached.value, payload[0], payload[1]))), None;
    }
    match up {
      case Reply(packet) =>
        var stored := cache.CacheStore(key.value, packet, storeAt, depth);
        if stored.StackOverflow? {
          return StackOverflow, None;
        }
        metrics.Increment(ResolvedCount);
        var ips := Answers.ParseARecords(packet);
        return Returned(Some(WithTxid(packet, payload[0], payload[1]))), Some((domain.text, ips));
      case Timeout =>
        metrics.Increment(TimeoutCount);
        return Returned(ErrorResponse(payload, 0x82)), None;
      case Failed =>
        metrics.Increment(FailedCount);
        return Returned(ErrorResponse(payload, 0x82)), None;
    }
  }

  /** The answer never comes, on any stack, when an upstream that is asked replies with `LOOPING_REPLY`. */
  lemma {:induction false} LoopingReplyIsFatal(payload: seq<byte>, name: Outcome<Option<Domain>>, policy: Trie.Policy,
                                               cache: Lru, lookupAt: Time, storeAt: Time, depth: nat)
    requires name.Returned?
    requires Check(payload, Parsed(payload, name), policy).AskCache?
    requires Hit(cache, Check(payload, Parsed(payload, name), policy).key, lookupAt).None?
    ensures CallOf(payload, name, policy, cache, Reply(Answers.LOOPING_REPLY), lookupAt, storeAt,
            depth).result.StackOverflow?
  {
    hide Check, Hit, Answers.TtlOn, AfterLookup;
    Answers.LoopingReplyNeverReturns(depth);
  }

  // ---- Many calls at once, and reloads between their steps

  /** What a configuration file says about rules, with the contents of its list files. */
  datatype RuleSet = RuleSet(drops: seq<Text>, redirects: seq<(Text, Text)>, files: map<Text, seq<Text>>)

  ghost function Policy(rules: RuleSet, domain: Text): Trie.Policy {
    Trie.Answer(rules.drops, rules.redirects, rules.files, domain)
  }

  datatype Phase =
    | Dispatched                                                    // holds its own pointer to a trie
    | Waiting(key: CacheKey)                                        // missed the cache, waits for the upstream
    | FromRules(result: Result)
    | FromCache(key: CacheKey, at: nat, when: Time, served: seq<byte>)  // after the first `at` events of the log
    | FromUpstream(key: CacheKey, up: Upstream)

  datatype Query = Query(payload: seq<byte>, rules: RuleSet, version: nat, phase: Phase)

  /** `log` is the history of the cache; `purge` is what a reload that has swapped the trie still has to purge. */
  datatype State = State(now: Time, rules: RuleSet, version: nat, purge: Option<seq<Text>>,
                         cache: Lru, log: seq<Event>, queries: map<nat, Query>)

  datatype Step =
    | Dispatch(id: nat, payload: seq<byte>)
    | Examine(id: nat)
    | Answer(id: nat, up: Upstream)
    | Swap(rules: RuleSet)
    | PurgeCache
    | Tick(span: Time)

  /** The name of a query, when reading it comes to an end. */
  function NameOf(payload: seq<byte>): Option<Domain> {
    match Parse(payload, 12, [], |payload|) case StackOverflow => None case Returned(name) => name
  }

  ghost function PolicyFor(rules: RuleSet, payload: seq<byte>): Trie.Policy {
    var name := NameOf(payload);
    if name.None? then Trie.NoPolicy else Policy(rules, name.value.text)
  }

  ghost function CheckOf(q: Query): Checked {
    Check(q.payload, NameOf(q.payload), PolicyFor(q.rules, q.payload))
  }

  /** A query whose name never comes to an end takes no further step, nor does one whose reply has such a name. */
  ghost predicate Enabled(s: State, step: Step) {
    match step
    case Dispatch(id, _) => id !in s.queries
    case Examine(id) =>
      && id in s.queries && s.queries[id].phase.Dispatched?
      && (|s.queries[id].payload| < 12 || Parse(s.queries[id].payload, 12, [], |s.queries[id].payload|).Returned?)
    case Answer(id, up) => id in s.queries && s.queries[id].phase.Waiting? && Storable(up)
    case Swap(_) => s.purge.None?
    case PurgeCache => s.purge.Some?
    case Tick(_) => true
  }

  ghost predicate Storable(up: Upstream) {
    up.Reply? ==> Answers.NamesEnd(up.packet)
  }

  ghost function Log(s: State, ev: Event): State {
    s.(cache := After(s.cache, ev), log := s.log + [ev])
  }

  ghost function SetPhase(s: State, id: nat, phase: Phase): State
    requires id in s.queries
  {
    s.(queries := s.queries[id := s.queries[id].(phase := phase)])
  }

  ghost function Do(s: State, step: Step): State
    requires Enabled(s, step)
  {
    match step
    case Dispatch(id, payload) => s.(queries := s.queries[id := Query(payload, s.rules, s.version, Dispatched)])
    case Examine(id) =>
      var q := s.queries[id];
      (match CheckOf(q)
       case Answered(result) => SetPhase(s, id, FromRules(result))
       case AskCache(key) =>
         var s' := Log(s, Lookup(key, s.now));
         match Hit(s.cache, key, s.now)
         case Some(packet) => SetPhase(s', id, FromCache(key, |s.log|, s.now, Served(q.payload, packet)))
         case None => SetPhase(s', id, Waiting(key)))
    case Answer(id, up) =>
      var key := s.queries[id].phase.key;
      var s' := if up.Reply? then Log(s, Store(key, up.packet, s.now)) else s;
      SetPhase(s', id, FromUpstream(key, up))
    case Swap(rules) => s.(rules := rules, version := s.version + 1, purge := Some(rules.drops))
    case PurgeCache => Log(s, Purge(s.purge.value, s.now)).(purge := None)
    case Tick(span) => s.(now := s.now + span)
  }

  ghost function Init(rules: RuleSet): State {
    State(0, rules, 0, None, [], [], map[])
  }

  ghost predicate Possible(s: State, steps: seq<Step>)
    decreases |steps|
  {
    steps == [] || (Enabled(s, steps[0]) && Possible(Do(s, steps[0]), steps[1..]))
  }

  ghost function Final(s: State, steps: seq<Step>): State
    requires Possible(s, steps)
    decreases |steps|
  {
    if steps == [] then s else Final(Do(s, steps[0]), steps[1..])
  }

  // ---- Invariants

  /** The cache is the outcome of its log, and the log is in the order of the clock. */
  ghost predicate CacheOk(s: State) {
    && s.cache == Run(s.log)
    && Ordered(s.log) && (forall ev <- s.log :: ev.now <= s.now)
  }

  /** A query past the rules was let through by the rules it was dispatched with. */
  ghost predicate LetThrough(q: Query, key: CacheKey) {
    && |q.payload| >= 12 && NameOf(q.payload).Some?
    && Policy(q.rules, NameOf(q.payload).value.text) == Trie.NoPolicy
    && CacheKeyOf(q.payload, NameOf(q.payload)) == Some(key)
  }

  ghost predicate QueryOk(s: State, q: Query) {
    && q.version <= s.version && (q.version == s.version ==> q.rules == s.rules)
    && match q.phase
       case Dispatched => true
       case FromRules(result) => CheckOf(q) == Answered(result)
       case Waiting(key) => LetThrough(q, key)
       case FromCache(key, at, when, served) =>
         && LetThrough(q, key) && at <= |s.log|
         && Hit(Run(s.log[..at]), key, when).Some?
         && served == Served(q.payload, Hit(Run(s.log[..at]), key, when).value)
       case FromUpstream(key, up) => LetThrough(q, key)
  }

  /** The entry at `i` covers `name` and is plain: no comment, no file, no white space around it. */
  ghost predicate PlainMatch(drops: seq<Text>, i: nat, name: Text) {
    && i < |drops| && Strings.Trim(drops[i]) == drops[i] && !Trie.Skipped(drops[i]) && !Trie.FileReference(drops[i])
    && Trie.Matches(name, drops[i])
  }

  ghost predicate PlainlyDropped(drops: seq<Text>, name: Text) {
    exists i: nat :: PlainMatch(drops, i, name)
  }

  ghost predicate StoredByOlder(s: State, id: nat, key: CacheKey) {
    && id in s.queries && s.queries[id].version < s.version
    && s.queries[id].phase.FromUpstream? && s.queries[id].phase.key == key
  }

  /** Once the purge is through, an entry that a plain drop entry covers was stored by a query with an older trie. */
  ghost predicate PurgeOk(s: State) {
    s.purge.None? && s.version > 0 ==>
      forall key :: Find(s.cache, key).Some? && PlainlyDropped(s.rules.drops, key.name) ==>
                      exists id :: StoredByOlder(s, id, key)
  }

  ghost predicate Inv(s: State) {
    && CacheOk(s)
    && (forall id :: id in s.queries ==> QueryOk(s, s.queries[id]))
    && (s.purge.Some? ==> s.purge.value == s.rules.drops)
    && PurgeOk(s)
  }

  lemma InitInv(rules: RuleSet)
    ensures Inv(Init(rules))
  {
  }

  lemma LoggedOk(s: State, ev: Event)
    requires CacheOk(s) && ev.now == s.now
    ensures CacheOk(Log(s, ev)) && Log(s, ev).log[..|s.log|] == s.log
  {
    hide After;
    assert (s.log + [ev])[..|s.log|] == s.log;
  }

  /** A query that stays as it was is still fine when the log grows and when newer rules come in. */
  lemma QueryStaysOk(s: State, s': State, q: Query)
    requires QueryOk(s, q) && s.log <= s'.log
    requires (s'.version == s.version && s'.rules == s.rules) || s'.version > s.version
    ensures QueryOk(s', q)
  {
    hide Run, Hit, CheckOf, LetThrough;
    if q.phase.FromCache? {
      assert s'.log[..q.phase.at] == s.log[..q.phase.at];
    }
  }

  lemma CheckLetsThrough(q: Query, key: CacheKey)
    requires CheckOf(q) == AskCache(key)
    ensures LetThrough(q, key)
  {
    hide NameOf, Policy, Redirect;
  }

  /** What a query under the current rules stores is not covered by their plain drop entries. */
  lemma CurrentStoresAreClear(q: Query, key: CacheKey)
    requires LetThrough(q, key)
    ensures !PlainlyDropped(q.rules.drops, key.name)
  {
    hide NameOf, Trie.Answer, Trie.Matches;
    assert key.name == NameOf(q.payload).value.text by {
      hide NameOf, Policy;
    }
    if PlainlyDropped(q.rules.drops, key.name) {
      var i: nat :| PlainMatch(q.rules.drops, i, key.name);
      Trie.PurgedIsAnswered(q.rules.drops, q.rules.redirects, q.rules.files, key.name, i);
    }
  }

  lemma PhaseIsFree(q: Query, phase: Phase)
    ensures CheckOf(q.(phase := phase)) == CheckOf(q)
    ensures forall key :: LetThrough(q.(phase := phase), key) <==> LetThrough(q, key)
  {
    hide NameOf, Policy, Check;
  }

  lemma OthersStayOk(s: State, s': State, id: nat)
    requires Inv(s) && s.log <= s'.log && id in s'.queries
    requires (s'.version == s.version && s'.rules == s.rules) || s'.version > s.version
    requires s'.queries == s.queries[id := s'.queries[id]] && QueryOk(s', s'.queries[id])
    ensures forall i :: i in s'.queries ==> QueryOk(s', s'.queries[i])
  {
    hide QueryOk, CacheOk, PurgeOk;
    forall i | i in s'.queries
      ensures QueryOk(s', s'.queries[i])
    {
      if i != id {
        QueryStaysOk(s, s', s.queries[i]);
      }
    }
  }

  // ---- Every step keeps the invariant

  lemma DispatchKeeps(s: State, id: nat, payload: seq<byte>)
    requires Inv(s) && Enabled(s, Dispatch(id, payload))
    ensures Inv(Do(s, Dispatch(id, payload)))
  {
    hide CacheOk, Find, PlainlyDropped;
    var s' := Do(s, Dispatch(id, payload));
    assert s'.cache == s.cache && s'.log == s.log && s'.now == s.now;
    SameCacheOk(s, s');
    OthersStayOk(s, s', id);
    OlderStores(s, s');
  }

  lemma SameCacheOk(s: State, s': State)
    requires CacheOk(s) && s'.cache == s.cache && s'.log == s.log && s'.now >= s.now
    ensures CacheOk(s')
  {
  }

  /** Queries that stored something keep their entry in the list, so they still explain it. */
  lemma OlderStores(s: State, s': State)
    requires PurgeOk(s) && s'.cache == s.cache && s'.rules == s.rules && s'.version == s.version && s'.purge == s.purge
    requires forall id :: id in s.queries && s.queries[id].phase.FromUpstream? ==>
            id in s'.queries && s'.queries[id] == s.queries[id]
    ensures PurgeOk(s')
  {
    hide Find, PlainlyDropped;
    if s.purge.None? && s.version > 0 {
      forall key | Find(s'.cache, key).Some? && PlainlyDropped(s'.rules.drops, key.name)
        ensures exists id :: StoredByOlder(s', id, key)
      {
        var id :| StoredByOlder(s, id, key);
        assert StoredByOlder(s', id, key);
      }
    }
  }

  /** After a lookup or a store, an entry is the stored one or was there before. */
  lemma FoundAfter(s: State, ev: Event, key: CacheKey)
    requires CacheOk(s) && Find(After(s.cache, ev), key).Some?
    ensures (ev.Store? && ev.key == key) || Find(s.cache, key).Some?
  {
    hide Find, After, Run;
    RunIsSound(s.log);
    AfterFinds(s.cache, ev, key);
  }

  lemma ExamineKeeps(s: State, id: nat)
    requires Inv(s) && Enabled(s, Examine(id))
    ensures Inv(Do(s, Examine(id)))
  {
    hide CacheOk, Find, PlainlyDropped, CheckOf, LetThrough, Hit, Run, After;
    var q := s.queries[id];
    var s' := Do(s, Examine(id));
    assert QueryOk(s, q);
    PhaseIsFree(q, s'.queries[id].phase);
    match CheckOf(q)
    case Answered(result) =>
      SameCacheOk(s, s');
      OthersStayOk(s, s', id);
      OlderStores(s, s');
    case AskCache(key) =>
      CheckLetsThrough(q, key);
      var ev := Lookup(key, s.now);
      LoggedOk(s, ev);
      SameCacheOk(Log(s, ev), s');
      CacheIsRun(s);
      OthersStayOk(s, s', id);
      LookupKeepsPurge(s, s', ev);
  }

  lemma CacheIsRun(s: State)
    requires CacheOk(s)
    ensures s.cache == Run(s.log)
  {
  }

  lemma LookupKeepsPurge(s: State, s': State, ev: Event)
    requires CacheOk(s) && PurgeOk(s) && ev.Lookup? && s'.cache == After(s.cache, ev)
    requires s'.rules == s.rules && s'.version == s.version && s'.purge == s.purge
    requires forall id :: id in s.queries && s.queries[id].phase.FromUpstream? ==>
            id in s'.queries && s'.queries[id] == s.queries[id]
    ensures PurgeOk(s')
  {
    hide Find, PlainlyDropped, CacheOk, After;
    if s.purge.None? && s.version > 0 {
      forall key | Find(s'.cache, key).Some? && PlainlyDropped(s'.rules.drops, key.name)
        ensures exists id :: StoredByOlder(s', id, key)
      {
        FoundAfter(s, ev, key);
        var id :| StoredByOlder(s, id, key);
        assert StoredByOlder(s', id, key);
      }
    }
  }

  lemma AnswerKeeps(s: State, id: nat, up: Upstream)
    requires Inv(s) && Enabled(s, Answer(id, up))
    ensures Inv(Do(s, Answer(id, up)))
  {
    hide CacheOk, Find, PlainlyDropped, CheckOf, LetThrough, Hit, Run, After;
    var q := s.queries[id];
    var key := q.phase.key;
    var s' := Do(s, Answer(id, up));
    assert QueryOk(s, q);
    PhaseIsFree(q, s'.queries[id].phase);
    if up.Reply? {
      var ev := Store(key, up.packet, s.now);
      LoggedOk(s, ev);
      SameCacheOk(Log(s, ev), s');
      OthersStayOk(s, s', id);
      StoreKeepsPurge(s, s', id, ev);
    } else {
      SameCacheOk(s, s');
      OthersStayOk(s, s', id);
      OlderStores(s, s');
    }
  }

  lemma StoreKeepsPurge(s: State, s': State, id: nat, ev: Event)
    requires Inv(s) && ev.Store? && s'.cache == After(s.cache, ev)
    requires s'.rules == s.rules && s'.version == s.version && s'.purge == s.purge
    requires id in s.queries && s.queries[id].phase == Waiting(ev.key)
    requires id in s'.queries && s'.queries == s.queries[id := s'.queries[id]]
    requires s'.queries[id].version == s.queries[id].version && s'.queries[id].phase.FromUpstream?
            && s'.queries[id].phase.key == ev.key
    ensures PurgeOk(s')
  {
    hide Find, PlainlyDropped, CacheOk, After, LetThrough;
    var q := s.queries[id];
    assert QueryOk(s, q);
    if s.purge.None? && s.version > 0 {
      forall key | Find(s'.cache, key).Some? && PlainlyDropped(s'.rules.drops, key.name)
        ensures exists i :: StoredByOlder(s', i, key)
      {
        FoundAfter(s, ev, key);
        if key == ev.key {
          CurrentStoresAreClear(q, key);
          assert StoredByOlder(s', id, key);
        } else {
          var i :| StoredByOlder(s, i, key);
          assert StoredByOlder(s', i, key);
        }
      }
    }
  }

  lemma {:induction false} SwapKeeps(s: State, rules: RuleSet)
    requires Inv(s) && Enabled(s, Swap(rules))
    ensures Inv(Do(s, Swap(rules)))
  {
    hide CacheOk, Find, PlainlyDropped, CheckOf, LetThrough, Hit, Run, After;
    var s' := Do(s, Swap(rules));
    SameCacheOk(s, s');
    forall id | id in s'.queries
      ensures QueryOk(s', s'.queries[id])
    {
      QueryStaysOk(s, s', s.queries[id]);
    }
  }

  lemma {:induction false} PurgeKeeps(s: State)
    requires Inv(s) && Enabled(s, PurgeCache)
    ensures Inv(Do(s, PurgeCache))
  {
    hide CacheOk, Find, CheckOf, LetThrough, Hit, Run, After, PlainlyDropped, PurgedBy;
    var s' := Do(s, PurgeCache);
    var ev := Purge(s.purge.value, s.now);
    LoggedOk(s, ev);
    SameCacheOk(Log(s, ev), s');
    forall id | id in s'.queries
      ensures QueryOk(s', s'.queries[id])
    {
      QueryStaysOk(s, s', s.queries[id]);
    }
    forall key | Find(s'.cache, key).Some?
      ensures !PlainlyDropped(s'.rules.drops, key.name)
    {
      CacheIsRun(s);
      RunIsSound(s.log);
      AfterFinds(s.cache, ev, key);
      PlainIsPurged(s'.rules.drops, key);
    }
  }

  lemma PlainIsPurged(drops: seq<Text>, key: CacheKey)
    ensures PlainlyDropped(drops, key.name) ==> PurgedBy(key, drops)
  {
    hide Trie.Matches;
    if PlainlyDropped(drops, key.name) {
      var i: nat :| PlainMatch(drops, i, key.name);
      assert drops[i] in drops;
    }
  }

  lemma TickKeeps(s: State, span: Time)
    requires Inv(s)
    ensures Inv(Do(s, Tick(span)))
  {
    hide CacheOk, Find, PlainlyDropped, CheckOf, LetThrough, Hit, Run, After;
    var s' := Do(s, Tick(span));
    SameCacheOk(s, s');
    forall id | id in s'.queries
      ensures QueryOk(s', s'.queries[id])
    {
      QueryStaysOk(s, s', s.queries[id]);
    }
    OlderStores(s, s');
  }

  lemma {:induction false} StepKeeps(s: State, step: Step)
    requires Inv(s) && Enabled(s, step)
    ensures Inv(Do(s, step))
  {
    hide Inv, Enabled, Do;
    match step
    case Dispatch(id, payload) => DispatchKeeps(s, id, payload);
    case Examine(id) => ExamineKeeps(s, id);
    case Answer(id, up) => AnswerKeeps(s, id, up);
    case Swap(rules) => SwapKeeps(s, rules);
    case PurgeCache => PurgeKeeps(s);
    case Tick(span) => TickKeeps(s, span);
  }

  lemma {:induction false} RunKeeps(s: State, steps: seq<Step>)
    requires Inv(s) && Possible(s, steps)
    ensures Inv(Final(s, steps))
    decreases |steps|
  {
    hide Inv, Enabled, Do;
    if steps != [] {
      StepKeeps(s, steps[0]);
      RunKeeps(Do(s, steps[0]), steps[1..]);
    }
  }

  // ---- Theorems over all runs

  /**
   * Reload safety: a query is served from the cache or from the upstream only if the rules it loaded do not
   * match its name, whatever older queries stored before or after the purge.
   */
  lemma {:induction false} NoServiceAgainstRules(rules: RuleSet, steps: seq<Step>, id: nat)
    requires Possible(Init(rules), steps)
    requires var s := Final(Init(rules), steps);
             id in s.queries && (s.queries[id].phase.FromCache? || s.queries[id].phase.FromUpstream?
                 || s.queries[id].phase.Waiting?)
    ensures var q := Final(Init(rules), steps).queries[id];
            && NameOf(q.payload).Some?
            && Policy(q.rules, NameOf(q.payload).value.text) == Trie.NoPolicy
            && Trie.FlatAnswer(Trie.Rules(q.rules.drops, q.rules.redirects, q.rules.files),
                               Trie.Labels(NameOf(q.payload).value.text), Trie.NoPolicy)
  {
    hide Init, NameOf, Trie.FlatAnswer, Trie.Rules, Trie.Labels, Trie.Answer, Run, Hit;
    InitInv(rules);
    RunKeeps(Init(rules), steps);
    var s := Final(Init(rules), steps);
    var q := s.queries[id];
    assert QueryOk(s, q);
    var name := NameOf(q.payload).value.text;
    Trie.BuiltAnswerIsFlat(q.rules.drops, q.rules.redirects, q.rules.files, name);
  }

  /** What is sent to the client in the end. */
  function Sent(q: Query): Option<seq<byte>>
    requires |q.payload| >= 2
  {
    match q.phase
    case FromRules(result) => result.reply
    case FromCache(_, _, _, served) => Some(served)
    case FromUpstream(_, up) => AfterUpstream(q.payload, up).reply
    case _ => None
  }

  /** The forwarder made the reply `r` itself out of the query: same ID, same questions, this RCODE. */
  ghost predicate MadeFrom(r: seq<byte>, payload: seq<byte>, rcode: nat) {
    && 12 <= |payload| <= |r| && r[..2] == payload[..2] && r[4..6] == payload[4..6] && r[12..|payload|] == payload[12..]
    && r[2] == 0x81 && r[3] == 0x80 + rcode
  }

  lemma ErrorIsMade(payload: seq<byte>, rcode: nat)
    requires |payload| >= 12 && rcode < 16
    ensures ErrorResponse(payload, 0x80 + rcode).Some?
            && MadeFrom(ErrorResponse(payload, 0x80 + rcode).value, payload, rcode)
  {
    var r := payload[2 := 0x81][3 := 0x80 + rcode];
    assert r[12..] == payload[12..];
    assert r[12..|payload|] == r[12..];
    assert payload[12..|payload|] == payload[12..];
  }

  lemma RedirectIsMade(payload: seq<byte>, end: nat, ips: seq<Text>)
    ensures Redirect(payload, end, ips).Some? ==> MadeFrom(Redirect(payload, end, ips).value, payload, 0)
  {
    hide ValidIps, AllAnswerBytes;
    var r := Redirect(payload, end, ips);
    if r.Some? {
      assert r.value[12..|payload|] == payload[12..];
    }
  }

  lemma ServedKeepsId(payload: seq<byte>, packet: seq<byte>)
    requires |payload| >= 2
    ensures var r := Served(payload, packet);
            |r| == |packet| && (|r| >= 2 ==> r[..2] == payload[..2] && r[2..] == packet[2..])
  {
  }

  /** What the rules that `q` loaded say of the reply `r` to it. */
  ghost predicate RightReply(q: Query, r: seq<byte>)
    requires |q.payload| >= 2
  {
    && NameOf(q.payload).Some? && (|r| >= 2 ==> r[..2] == q.payload[..2])
    && match Policy(q.rules, NameOf(q.payload).value.text)
       case Drop => q.phase.FromRules? && q.phase.result.counter == Some(DropCount) && MadeFrom(r, q.payload, 3)
       case Redirect(_) => q.phase.FromRules? && q.phase.result.counter == Some(RedirectCount)
           && MadeFrom(r, q.payload, 0)
       case NoPolicy =>
         && !q.phase.FromRules?
         && (q.phase.FromUpstream? && q.phase.up.Reply? ==>
               |r| == |q.phase.up.packet| && (|r| >= 2 ==> r[2..] == q.phase.up.packet[2..]))
         && (q.phase.FromUpstream? && !q.phase.up.Reply? ==> MadeFrom(r, q.payload, 2))
  }

  lemma ReplyIsRight(s: State, q: Query)
    requires QueryOk(s, q) && |q.payload| >= 2 && Sent(q).Some?
    ensures RightReply(q, Sent(q).value)
  {
    hide Policy, NameOf, Redirect, ErrorResponse, Served, CacheKeyOf, Hit, Run;
    match q.phase {
      case FromRules(result) =>
        ErrorIsMade(q.payload, 3);
        var name := NameOf(q.payload);
        if name.Some? && Policy(q.rules, name.value.text).Redirect? {
          RedirectIsMade(q.payload, name.value.end, Policy(q.rules, name.value.text).ips);
        }
      case FromCache(key, at, when, served) => ServedKeepsId(q.payload, Hit(Run(s.log[..at]), key, when).value);
      case FromUpstream(key, up) =>
        if up.Reply? { ServedKeepsId(q.payload, up.packet); } else { ErrorIsMade(q.payload, 2); }
    }
  }

  /**
   * In every run a reply goes out under the ID of its own query, and the rules the query loaded decide what it is:
   * a name error just for a drop, an answer of the forwarder's own just for a redirect, and otherwise what the
   * cache or the upstream had, or a server failure when the upstream had nothing.
   */
  lemma {:induction false} RepliesFollowTheRules(rules: RuleSet, steps: seq<Step>, id: nat)
    requires Possible(Init(rules), steps)
    requires var s := Final(Init(rules), steps);
        id in s.queries && |s.queries[id].payload| >= 2 && Sent(s.queries[id]).Some?
    ensures var q := Final(Init(rules), steps).queries[id]; RightReply(q, Sent(q).value)
  {
    hide Sent, RightReply, QueryOk;
    InitInv(rules);
    RunKeeps(Init(rules), steps);
    var s := Final(Init(rules), steps);
    ReplyIsRight(s, s.queries[id]);
  }

  /** The steps of one query with nothing but the clock in between, as far as they go. */
  ghost function Alone(s: State, id: nat, payload: seq<byte>, up: Upstream, span: Time): State
    requires id !in s.queries
  {
    var s' := Do(s, Dispatch(id, payload));
    if !Enabled(s', Examine(id)) then s' else AloneAnswered(Do(s', Examine(id)), id, up, span)
  }

  ghost function AloneAnswered(s: State, id: nat, up: Upstream, span: Time): State {
    var s' := Do(s, Tick(span));
    if Enabled(s', Answer(id, up)) then Do(s', Answer(id, up)) else s
  }

  /** The state shows what the call does: the reply sent and the cache, or a query that is stuck. */
  ghost predicate EndsLike(e: State, id: nat, call: Call) {
    && id in e.queries && |e.queries[id].payload| >= 2 && e.cache == call.cache
    && match call.result
       case StackOverflow => e.queries[id].phase.Dispatched? || e.queries[id].phase.Waiting?
       case Returned(result) => Sent(e.queries[id]) == result.reply
  }

  /** A query whose steps nothing interrupts does what the call does on a stack that is deep enough. */
  lemma {:induction false} AloneIsCall(s: State, id: nat, payload: seq<byte>, up: Upstream, span: Time, depth: nat)
    requires id !in s.queries && |payload| >= 2
    requires depth >= |payload| && (up.Reply? ==> depth >= |up.packet|)
    ensures EndsLike(Alone(s, id, payload, up, span), id,
                     CallOf(payload, Parse(payload, 12, [], depth), PolicyFor(s.rules, payload),
                            s.cache, up, s.now, s.now + span, depth))
  {
    hide PolicyFor, Redirect, CacheKeyOf, Hit, AfterLookup, Put, EntryOf, Served, AfterUpstream, Parse, AloneAnswered;
    hide Answers.ARecords, Answers.TtlOn, Answers.NamesEnd;
    var q := Query(payload, s.rules, s.version, Dispatched);
    var s1 := s.(queries := s.queries[id := q]);
    assert s1 == Do(s, Dispatch(id, payload));
    assert CheckOf(q) == Check(payload, NameOf(payload), PolicyFor(s.rules, payload));
    assert s1.queries[id] == q;
    DepthIsEnough(payload, depth);
    if up.Reply? {
      Answers.TtlReturnsIffNamesEnd(up.packet);
    }
    if Enabled(s1, Examine(id)) {
      AnsweredAlone(Do(s1, Examine(id)), id, up, span);
    }
  }

  /** What becomes of a query after the cache was asked. */
  lemma AnsweredAlone(s: State, id: nat, up: Upstream, span: Time)
    requires id in s.queries
    ensures var q := s.queries[id];
            var e := AloneAnswered(s, id, up, span);
            if q.phase.Waiting? && Storable(up) then
              && id in e.queries && e.queries[id] == q.(phase := FromUpstream(q.phase.key, up))
              && e.cache == if up.Reply? then Put(s.cache, q.phase.key, EntryOf(up.packet, s.now + span)) else s.cache
            else e == s
  {
    hide Put, EntryOf, Answers.NamesEnd;
  }

  /** A stack as deep as the payload is long reads its name as well as any deeper one. */
  lemma DepthIsEnough(payload: seq<byte>, depth: nat)
    requires depth >= |payload|
    ensures Parse(payload, 12, [], depth) == Parse(payload, 12, [], |payload|)
  {
    hide Parse, Ends;
    Answers.NameReturns(payload, 12, depth);
    Answers.NameReturns(payload, 12, |payload|);
    if Parse(payload, 12, [], |payload|).Returned? {
      DeeperIsSame(payload, 12, [], |payload|, depth);
    }
  }

  /**
   * Cache transparency: an answer from the cache is the latest upstream reply stored for that name and type and
   * not purged since, with only its two ID bytes exchanged, and it is given strictly within its lifetime.
   */
  lemma {:induction false} CachedAnswersAreLatest(rules: RuleSet, steps: seq<Step>, id: nat)
    requires Possible(Init(rules), steps)
    requires var s := Final(Init(rules), steps); id in s.queries && s.queries[id].phase.FromCache?
    ensures var s := Final(Init(rules), steps);
            var q := s.queries[id];
            && q.phase.at <= |s.log| && |q.payload| >= 2
            && CacheKeyOf(q.payload, NameOf(q.payload)) == Some(q.phase.key)
            && var st := Latest(s.log[..q.phase.at], q.phase.key);
            && st.Some? && st.value.Store? && st.value.key == q.phase.key
            && q.phase.served == Served(q.payload, st.value.reply)
            && q.phase.when < st.value.now + Lifetime(st.value.reply) <= st.value.now + CACHE_TTL_MAX
  {
    hide Init, NameOf, Trie.Answer, Run, Hit, Latest, Lifetime;
    InitInv(rules);
    RunKeeps(Init(rules), steps);
    var s := Final(Init(rules), steps);
    var q := s.queries[id];
    assert QueryOk(s, q);
    HitIsLogAnswer(s.log[..q.phase.at], q.phase.key, q.phase.when);
  }

  /**
   * Once a reload is through, whatever the cache holds for a name that a plain drop entry of the current rules
   * covers was stored by a query that was dispatched under older rules.
   */
  lemma {:induction false} OnlyOlderQueriesStore(rules: RuleSet, steps: seq<Step>, key: CacheKey)
    requires Possible(Init(rules), steps)
    requires var s := Final(Init(rules), steps);
             s.purge.None? && s.version > 0 && Find(s.cache, key).Some? && PlainlyDropped(s.rules.drops, key.name)
    ensures exists id :: StoredByOlder(Final(Init(rules), steps), id, key)
  {
    hide Init, Find, PlainlyDropped;
    InitInv(rules);
    RunKeeps(Init(rules), steps);
    assert PurgeOk(Final(Init(rules), steps));
  }
}
