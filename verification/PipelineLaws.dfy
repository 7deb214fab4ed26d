/** What a query gets in the end: which reply, which counter, and what is kept of it. */
module PipelineLaws {
  import opened Bytes
  import opened Strings
  import opened Names
  import Answers
  import opened Crafted
  import opened CraftedLaws
  import opened Cache
  import opened Pipeline
  import Trie

  /** The packet goes out as it is, but for the two bytes of the query's ID. */
  ghost predicate Relayed(r: seq<byte>, payload: seq<byte>, packet: seq<byte>) {
    && |r| == |packet| && (|r| < 2 ==> r == packet)
    && (2 <= |r| && 2 <= |payload| ==> r[..2] == payload[..2] && r[2..] == packet[2..])
  }

  lemma ServedIsRelayed(payload: seq<byte>, packet: seq<byte>)
    requires |payload| >= 2
    ensures Relayed(Served(payload, packet), payload, packet)
  {
  }

  ghost predicate SomeAddress(texts: seq<Text>) {
    exists t <- texts :: ParseIp(t).Some?
  }

  lemma {:induction false} ValidWhenSome(texts: seq<Text>)
    ensures ValidIps(texts) != [] <==> SomeAddress(texts)
  {
    hide ParseIp;
    if texts != [] {
      assert texts == [texts[0]] + texts[1..];
      ValidWhenSome(texts[1..]);
    }
  }

  /** The query itself, sent back as an answer with this error. */
  ghost predicate Refused(r: seq<byte>, payload: seq<byte>, rcode: nat) {
    && |r| == |payload| >= 12 && r[..2] == payload[..2] && r[4..] == payload[4..]
    && r[2] == 0x81 && r[3] == 0x80 + rcode
  }

  lemma ErrorIsRefusal(payload: seq<byte>, rcode: nat)
    requires |payload| >= 12 && rcode < 16
    ensures var r := ErrorResponse(payload, 0x80 + rcode); r.Some? && Refused(r.value, payload, rcode)
  {
  }

  /** A redirect can be answered: one of its targets is an address, and the question has its type and class. */
  ghost predicate CanRedirect(payload: seq<byte>, end: nat, texts: seq<Text>) {
    end + 4 <= |payload| && SomeAddress(texts)
  }

  /** What the rules alone make of a query; `parsed` is its name if it has one. */
  ghost predicate RuledOut(payload: seq<byte>, parsed: Option<Domain>, policy: Trie.Policy, result: Result) {
    if parsed.None? then result == Result(None, None)
    else
      match policy
      case Drop => result.reply.Some? && Refused(result.reply.value, payload, 3) && result.counter == Some(DropCount)
      case Redirect(ips) =>
        && (result.reply.Some? <==> CanRedirect(payload, parsed.value.end, ips))
        && (result.reply.Some? ==> RedirectedTo(result.reply.value, payload, parsed.value.end, ValidIps(ips)))
        && result.counter == if CanRedirect(payload, parsed.value.end, ips) then Some(RedirectCount) else None
      case NoPolicy => parsed.value.end + 2 > |payload| && result == Result(None, None)
  }

  /** The name and the type that follows it. */
  ghost predicate IsKey(payload: seq<byte>, name: Domain, key: CacheKey) {
    && key.name == name.text && name.end + 2 <= |payload|
    && key.qtype == U16(payload[name.end], payload[name.end + 1])
  }

  /** What a query gets that the upstream was asked for. */
  ghost predicate RightAnswer(payload: seq<byte>, up: Upstream, result: Result) {
    && result.reply.Some?
    && match up
       case Reply(packet) => Relayed(result.reply.value, payload, packet) && result.counter == Some(ResolvedCount)
       case Timeout => Refused(result.reply.value, payload, 2) && result.counter == Some(TimeoutCount)
       case Failed => Refused(result.reply.value, payload, 2) && result.counter == Some(FailedCount)
  }

  lemma CheckIsRight(payload: seq<byte>, parsed: Option<Domain>, policy: Trie.Policy)
    requires parsed.Some? ==> |payload| >= 12
    ensures match Check(payload, parsed, policy)
            case Answered(result) => RuledOut(payload, parsed, policy, result)
            case AskCache(key) => parsed.Some? && policy.NoPolicy? && IsKey(payload, parsed.value, key)
  {
    hide Redirect, RedirectedTo, ErrorResponse, Refused, ValidIps;
    if parsed.Some? {
      ErrorIsRefusal(payload, 3);
      if policy.Redirect? {
        RedirectIsBytes(payload, parsed.value.end, policy.ips);
        RedirectSends(payload, parsed.value.end, policy.ips);
      }
    }
  }

  lemma RedirectSends(payload: seq<byte>, end: nat, ips: seq<Text>)
    requires |payload| >= 12
    ensures Redirect(payload, end, ips).Some? <==> CanRedirect(payload, end, ips)
  {
    hide ValidIps, AllAnswerBytes, SomeAddress;
    ValidWhenSome(ips);
  }

  lemma UpstreamIsRight(payload: seq<byte>, up: Upstream)
    requires |payload| >= 12
    ensures RightAnswer(payload, up, AfterUpstream(payload, up))
  {
    hide ErrorResponse, Refused, Served, Relayed;
    if up.Reply? { ServedIsRelayed(payload, up.packet); }
    ErrorIsRefusal(payload, 2);
  }

  /** The name of a query whose reading has come to an end; a payload shorter than a header has none. */
  ghost function NameRead(payload: seq<byte>, name: Outcome<Option<Domain>>): Option<Domain> {
    if |payload| < 12 || name.StackOverflow? then None else name.value
  }

  /** What a call is: the rules decide, else the cache has it, else the upstream is asked and its reply is kept. */
  ghost predicate RightCall(payload: seq<byte>, parsed: Option<Domain>, policy: Trie.Policy, cache: Lru, up: Upstream,
                            lookupAt: Time, storeAt: Time, depth: nat, call: Call)
  {
    if parsed.None? || policy != Trie.NoPolicy || parsed.value.end + 2 > |payload| then
      && call.result.Returned? && RuledOut(payload, parsed, policy, call.result.value)
      && call.cache == cache && call.recorded == None
    else
      exists key ::
        && IsKey(payload, parsed.value, key)
        && match Hit(cache, key, lookupAt)
           case Some(packet) =>
             && call.result.Returned? && call.result.value.reply.Some?
             && Relayed(call.result.value.reply.value, payload, packet)
             && call.result.value.counter == Some(CachedCount)
             && call.cache == After(cache, Lookup(key, lookupAt)) && call.recorded == None
           case None =>
             if up.Reply? && Answers.TtlOn(up.packet, depth).StackOverflow? then
               call == Call(StackOverflow, After(cache, Lookup(key, lookupAt)), None)
             else
               && call.result.Returned? && RightAnswer(payload, up, call.result.value)
               && call.cache == (if up.Reply?
                                 then After(After(cache, Lookup(key, lookupAt)), Store(key, up.packet, storeAt))
                                 else After(cache, Lookup(key, lookupAt)))
               && call.recorded == if up.Reply? then Some((key.name, Answers.ARecords(up.packet))) else None
  }

  /** Every call is right: this is what `ResolveQuery` does, counter, cache and history included. */
  lemma {:induction false} CallIsRight(payload: seq<byte>, name: Outcome<Option<Domain>>, policy: Trie.Policy,
                                       cache: Lru, up: Upstream, lookupAt: Time, storeAt: Time, depth: nat)
    ensures var call := CallOf(payload, name, policy, cache, up, lookupAt, storeAt, depth);
            if |payload| >= 12 && name.StackOverflow? then call == Call(StackOverflow, cache, None)
            else RightCall(payload, NameRead(payload, name), policy, cache, up, lookupAt, storeAt, depth, call)
  {
    hide Check, RuledOut, RightAnswer, Relayed, Served, Hit, AfterLookup, Put, EntryOf, AfterUpstream, Purged;
    hide Answers.TtlOn, Answers.ARecords;
    var parsed := NameRead(payload, name);
    CheckIsRight(payload, parsed, policy);
    match Check(payload, parsed, policy) {
      case Answered(result) => AnsweredEarly(payload, parsed, policy, result);
      case AskCache(key) =>
        UpstreamIsRight(payload, up);
        if Hit(cache, key, lookupAt).Some? {
          ServedIsRelayed(payload, Hit(cache, key, lookupAt).value);
        }
    }
  }

  lemma AnsweredEarly(payload: seq<byte>, parsed: Option<Domain>, policy: Trie.Policy, result: Result)
    requires RuledOut(payload, parsed, policy, result)
    ensures parsed.None? || policy != Trie.NoPolicy || parsed.value.end + 2 > |payload|
  {
  }

  // ---- In every run

  /** What is sent in the end, by the phase the query is in and the rules it loaded. */
  ghost predicate RightlySent(q: Query, log: seq<Event>) {
    var parsed := NameOf(q.payload);
    if |q.payload| < 12 then q.phase == Dispatched || q.phase == FromRules(Result(None, None))
    else
      match q.phase
      case FromRules(result) =>
        RuledOut(q.payload, parsed, PolicyFor(q.rules, q.payload), result) && Sent(q) == result.reply
      case FromCache(key, at, when, _) =>
        && parsed.Some? && IsKey(q.payload, parsed.value, key)
        && at <= |log| && Latest(log[..at], key).Some? && Latest(log[..at], key).value.Store?
        && Sent(q).Some? && Relayed(Sent(q).value, q.payload, Latest(log[..at], key).value.reply)
      case FromUpstream(key, up) =>
        && parsed.Some? && IsKey(q.payload, parsed.value, key) && Sent(q).Some?
        && (if up.Reply? then Relayed(Sent(q).value, q.payload, up.packet) else Refused(Sent(q).value, q.payload, 2))
      case _ => Sent(q) == None
  }

  lemma KeyIsKey(q: Query, key: CacheKey)
    requires LetThrough(q, key)
    ensures |q.payload| >= 12 && NameOf(q.payload).Some? && IsKey(q.payload, NameOf(q.payload).value, key)
  {
    hide NameOf, Policy;
  }

  lemma ShortHasNoName(q: Query)
    requires |q.payload| < 12
    ensures CheckOf(q) == Answered(Result(None, None))
  {
  }

  lemma RulesAreSent(q: Query)
    requires |q.payload| >= 12 && q.phase.FromRules? && CheckOf(q) == Answered(q.phase.result)
    ensures RuledOut(q.payload, NameOf(q.payload), PolicyFor(q.rules, q.payload), q.phase.result)
  {
    hide NameOf, PolicyFor, Check, RuledOut;
    CheckIsRight(q.payload, NameOf(q.payload), PolicyFor(q.rules, q.payload));
  }

  /** In every run a query that is done has been sent just what its rules, the cache or the upstream had for it. */
  lemma {:induction false} RepliesAreRight(rules: RuleSet, steps: seq<Step>, id: nat)
    requires Possible(Init(rules), steps) && id in Final(Init(rules), steps).queries
    ensures var s := Final(Init(rules), steps); RightlySent(s.queries[id], s.log)
  {
    hide Init, NameOf, PolicyFor, Trie.Answer, Run, Hit, Latest, Lifetime, RuledOut, Relayed, Refused, Served, CheckOf;
    hide AfterUpstream, PurgeOk, CacheOk, LetThrough, IsKey;
    InitInv(rules);
    RunKeeps(Init(rules), steps);
    var s := Final(Init(rules), steps);
    var q := s.queries[id];
    assert QueryOk(s, q);
    match q.phase {
      case FromRules(_) =>
        if |q.payload| < 12 {
          ShortHasNoName(q);
        } else {
          RulesAreSent(q);
        }
      case FromCache(key, at, when, served) =>
        KeyIsKey(q, key);
        CachedAnswersAreLatest(rules, steps, id);
        ServedIsRelayed(q.payload, Latest(s.log[..at], key).value.reply);
      case FromUpstream(key, up) =>
        KeyIsKey(q, key);
        UpstreamIsRight(q.payload, up);
      case Waiting(key) => KeyIsKey(q, key);
      case Dispatched =>
    }
  }
}
