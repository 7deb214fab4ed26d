/** The response cache of `shared/src/cache.rs`: an expiring LRU against a plain log of stores. */
module Cache {
  import opened Bytes
  import opened Strings
  import opened Names
  import opened Answers
  import opened Crafted
  import Trie

  /** Instants and durations in nanoseconds. */
  type Time = nat

  const SECOND: Time := 1_000_000_000
  const CACHE_TTL_MIN: Time := 5 * SECOND
  const CACHE_TTL_MAX: Time := 300 * SECOND
  const CACHE_TTL_FALLBACK: Time := 60 * SECOND
  const CACHE_CAPACITY: nat := 4096

  datatype Entry = Entry(packet: seq<byte>, expiresAt: Time)

  /** Least recently used first. */
  type Lru = seq<(CacheKey, Entry)>

  // ---- The LRU map

  function Find(es: Lru, key: CacheKey): Option<Entry> {
    if es == [] then None else if es[0].0 == key then Some(es[0].1) else Find(es[1..], key)
  }

  function Without(es: Lru, key: CacheKey): Lru {
    if es == [] then [] else (if es[0].0 == key then [] else [es[0]]) + Without(es[1..], key)
  }

  /** `get` makes the entry the most recent one. */
  function Touched(es: Lru, key: CacheKey): Lru {
    match Find(es, key) case None => es case Some(e) => Without(es, key) + [(key, e)]
  }

  /** `put` evicts the least recently used entry beyond the capacity. */
  function Put(es: Lru, key: CacheKey, e: Entry): Lru {
    var r := Without(es, key) + [(key, e)];
    if |r| > CACHE_CAPACITY then r[1..] else r
  }

  // ---- The operations

  function ClampCacheTtl(ttlSecs: nat): (t: Time)
    ensures CACHE_TTL_MIN <= t <= CACHE_TTL_MAX
    ensures t <= ttlSecs * SECOND || t == CACHE_TTL_MIN
    ensures ttlSecs * SECOND <= t || t == CACHE_TTL_MAX
  {
    var ttl := ttlSecs * SECOND;
    if ttl < CACHE_TTL_MIN then CACHE_TTL_MIN
    else if ttl > CACHE_TTL_MAX then CACHE_TTL_MAX
    else ttl
  }

  function Lifetime(reply: seq<byte>): (t: Time)
    ensures CACHE_TTL_MIN <= t <= CACHE_TTL_MAX
  {
    match LeastTtl(reply) case None => CACHE_TTL_FALLBACK case Some(ttl) => ClampCacheTtl(ttl)
  }

  /** What is kept of a reply: everything but its ID, until its lifetime is over. */
  function EntryOf(reply: seq<byte>, now: Time): Entry {
    Entry(WithTxid(reply, 0, 0), now + Lifetime(reply))
  }

  function AfterLookup(es: Lru, key: CacheKey, now: Time): Lru {
    match Find(es, key)
    case None => es
    case Some(e) => if now >= e.expiresAt then Without(es, key) else Touched(es, key)
  }

  function Hit(es: Lru, key: CacheKey, now: Time): Option<seq<byte>> {
    match Find(es, key)
    case None => None
    case Some(e) => if now >= e.expiresAt then None else Some(e.packet)
  }

  predicate PurgedBy(key: CacheKey, patterns: seq<Text>) {
    exists p <- patterns :: Trie.Matches(key.name, p)
  }

  function Purged(es: Lru, patterns: seq<Text>): Lru {
    if es == [] then []
    else (if PurgedBy(es[0].0, patterns) then [] else [es[0]]) + Purged(es[1..], patterns)
  }

  class ResponseCache {
    var entries: Lru

    constructor ()
      ensures entries == []
    {
      entries := [];
    }

    method CacheLookup(key: CacheKey, now: Time) returns (r: Option<seq<byte>>)
      modifies this
      ensures entries == AfterLookup(old(entries), key, now)
      ensures r == Hit(old(entries), key, now)
    {
      hide Without;
      var entry := Find(entries, key);
      if entry.None? {
        return None;
      }
      entries := Touched(entries, key);
      if now >= entry.value.expiresAt {
        TouchedWithout(old(entries), key);
        entries := Without(entries, key);
        return None;
      }
      return Some(entry.value.packet);
    }

    /** Reads the reply's TTL first, which may exhaust the stack; then nothing is stored. */
    method CacheStore(key: CacheKey, packet: seq<byte>, now: Time, depth: nat) returns (r: Outcome<()>)
      modifies this
      ensures TtlOn(packet, depth).StackOverflow? ==> r == StackOverflow && entries == old(entries)
      ensures TtlOn(packet, depth).Returned?
              ==> r == Returned(()) && entries == Put(old(entries), key, EntryOf(packet, now))
    {
      hide TtlOn, LeastTtl, Put;
      var minTtl := MinAnswerTtl(packet, depth);
      if minTtl.StackOverflow? {
        return StackOverflow;
      }
      TtlReturnsIffNamesEnd(packet);
      var ttl := match minTtl.value case None => CACHE_TTL_FALLBACK case Some(secs) => ClampCacheTtl(secs);
      var stored := packet;
      if |stored| >= 2 {
        stored := stored[0 := 0];
        stored := stored[1 := 0];
      }
      entries := Put(entries, key, Entry(stored, now + ttl));
      return Returned(());
    }

    /** Collects the matching keys, then pops them one by one. */
    method RemoveDomainsFromCache(patterns: seq<Text>)
      modifies this
      ensures entries == Purged(old(entries), patterns)
    {
      hide PurgedBy, Without;
      var keys: seq<CacheKey> := [];
      for i := 0 to |entries|
        invariant entries == old(entries)
        invariant forall k :: k in keys <==> exists j :: 0 <= j < i && entries[j].0 == k && PurgedBy(k, patterns)
      {
        var hit := AnyMatches(entries[i].0, patterns);
        if hit {
          keys := keys + [entries[i].0];
        }
      }
      ghost var gone: set<CacheKey> := {};
      NoneDropped(entries);
      for i := 0 to |keys|
        invariant gone == set k | k in keys[..i]
        invariant entries == Dropped(old(entries), gone)
      {
        DroppedOne(old(entries), gone, keys[i]);
        entries := Without(entries, keys[i]);
        gone := gone + {keys[i]};
        assert keys[..i + 1] == keys[..i] + [keys[i]];
      }
      assert keys[..|keys|] == keys;
      DroppedIsPurged(old(entries), gone, patterns);
    }
  }

  method AnyMatches(key: CacheKey, patterns: seq<Text>) returns (b: bool)
    ensures b == PurgedBy(key, patterns)
  {
    for i := 0 to |patterns|
      invariant forall j :: 0 <= j < i ==> !Trie.Matches(key.name, patterns[j])
    {
      if Trie.Matches(key.name, patterns[i]) {
        return true;
      }
    }
    return false;
  }

  /** The entries whose keys are not in `gone`. */
  ghost function Dropped(es: Lru, gone: set<CacheKey>): Lru {
    if es == [] then [] else (if es[0].0 in gone then [] else [es[0]]) + Dropped(es[1..], gone)
  }

  lemma {:induction false} NoneDropped(es: Lru)
    ensures Dropped(es, {}) == es
  {
    if es != [] {
      NoneDropped(es[1..]);
    }
  }

  lemma {:induction false} WithoutAppend(a: Lru, b: Lru, key: CacheKey)
    ensures Without(a + b, key) == Without(a, key) + Without(b, key)
  {
    if a == [] {
      assert a + b == b;
    } else {
      assert (a + b)[1..] == a[1..] + b;
      WithoutAppend(a[1..], b, key);
    }
  }

  lemma {:induction false} DroppedOne(es: Lru, gone: set<CacheKey>, key: CacheKey)
    ensures Without(Dropped(es, gone), key) == Dropped(es, gone + {key})
  {
    if es != [] {
      DroppedOne(es[1..], gone, key);
      WithoutAppend(if es[0].0 in gone then [] else [es[0]], Dropped(es[1..], gone), key);
      assert [es[0]][1..] == [];
    }
  }

  lemma {:induction false} DroppedIsPurged(es: Lru, gone: set<CacheKey>, patterns: seq<Text>)
    requires forall i :: 0 <= i < |es| ==> (es[i].0 in gone <==> PurgedBy(es[i].0, patterns))
    ensures Dropped(es, gone) == Purged(es, patterns)
  {
    hide PurgedBy;
    if es != [] {
      assert forall i :: 0 <= i < |es[1..]| ==> es[1..][i] == es[i + 1];
      DroppedIsPurged(es[1..], gone, patterns);
    }
  }

  lemma {:induction false} WithoutTwice(es: Lru, key: CacheKey)
    ensures Without(Without(es, key), key) == Without(es, key)
  {
    if es != [] {
      WithoutTwice(es[1..], key);
      WithoutAppend(if es[0].0 == key then [] else [es[0]], Without(es[1..], key), key);
      assert [es[0]][1..] == [];
    }
  }

  lemma TouchedWithout(es: Lru, key: CacheKey)
    requires Find(es, key).Some?
    ensures Without(Touched(es, key), key) == Without(es, key)
  {
    hide Without;
    var e := Find(es, key).value;
    WithoutAppend(Without(es, key), [(key, e)], key);
    WithoutTwice(es, key);
    WithoutOne(key, e);
    assert Without(es, key) + [] == Without(es, key);
  }

  lemma WithoutOne(key: CacheKey, e: Entry)
    ensures Without([(key, e)], key) == []
  {
    assert [(key, e)][1..] == [];
  }

  // ---- Runs

  datatype Event =
    | Store(key: CacheKey, reply: seq<byte>, now: Time)
    | Lookup(key: CacheKey, now: Time)
    | Purge(patterns: seq<Text>, now: Time)

  /** The clock never runs backwards. */
  ghost predicate Ordered(events: seq<Event>) {
    forall i, j :: 0 <= i < j < |events| ==> events[i].now <= events[j].now
  }

  function After(es: Lru, ev: Event): Lru {
    match ev
    case Store(key, reply, now) => Put(es, key, EntryOf(reply, now))
    case Lookup(key, now) => AfterLookup(es, key, now)
    case Purge(patterns, _) => Purged(es, patterns)
  }

  function Run(events: seq<Event>): Lru {
    if events == [] then [] else After(Run(events[..|events| - 1]), events[|events| - 1])
  }

  /** The latest store for `key` in the log, unless a purge of that key came after it. */
  function Latest(events: seq<Event>, key: CacheKey): Option<Event> {
    if events == [] then None
    else
      var n := |events| - 1;
      match events[n]
      case Store(k, reply, now) => if k == key then Some(events[n]) else Latest(events[..n], key)
      case Lookup(_, _) => Latest(events[..n], key)
      case Purge(patterns, _) => if PurgedBy(key, patterns) then None else Latest(events[..n], key)
  }

  /** What a cache that never evicts would answer. */
  function LogAnswer(events: seq<Event>, key: CacheKey, now: Time): Option<seq<byte>> {
    match Latest(events, key)
    case Some(Store(_, reply, stored)) => if now < stored + Lifetime(reply) then Some(WithTxid(reply, 0, 0)) else None
    case _ => None
  }

  // ---- What the map operations do to the entries found

  lemma {:induction false} FindAppend(a: Lru, b: Lru, key: CacheKey)
    ensures Find(a + b, key) == if Find(a, key).Some? then Find(a, key) else Find(b, key)
  {
    if a == [] {
      assert a + b == b;
    } else {
      assert (a + b)[1..] == a[1..] + b;
      FindAppend(a[1..], b, key);
    }
  }

  lemma {:induction false} FindWithout(es: Lru, gone: CacheKey, key: CacheKey)
    ensures Find(Without(es, gone), key) == if key == gone then None else Find(es, key)
  {
    if es != [] {
      FindWithout(es[1..], gone, key);
      FindAppend(if es[0].0 == gone then [] else [es[0]], Without(es[1..], gone), key);
      FindOne(es[0].0, es[0].1, key);
    }
  }

  lemma FindOne(k: CacheKey, e: Entry, key: CacheKey)
    ensures Find([(k, e)], key) == if k == key then Some(e) else None
  {
    assert [(k, e)][1..] == [];
  }

  lemma {:induction false} FindPurged(es: Lru, patterns: seq<Text>, key: CacheKey)
    ensures Find(Purged(es, patterns), key) == if PurgedBy(key, patterns) then None else Find(es, key)
  {
    hide PurgedBy;
    if es != [] {
      FindPurged(es[1..], patterns, key);
      FindAppend(if PurgedBy(es[0].0, patterns) then [] else [es[0]], Purged(es[1..], patterns), key);
      FindOne(es[0].0, es[0].1, key);
    }
  }

  lemma FindTouched(es: Lru, touched: CacheKey, key: CacheKey)
    ensures Find(Touched(es, touched), key) == Find(es, key)
  {
    hide Without;
    match Find(es, touched)
    case None =>
    case Some(e) =>
      FindWithout(es, touched, key);
      FindAppend(Without(es, touched), [(touched, e)], key);
      FindOne(touched, e, key);
  }

  /** No key stands twice. */
  ghost predicate Distinct(es: Lru) {
    es != [] ==> Find(es[1..], es[0].0) == None && Distinct(es[1..])
  }

  lemma {:induction false} DistinctWithout(es: Lru, key: CacheKey)
    requires Distinct(es)
    ensures Distinct(Without(es, key)) && |Without(es, key)| <= |es|
  {
    hide Find;
    if es != [] {
      DistinctWithout(es[1..], key);
      FindWithout(es[1..], key, es[0].0);
      assert ([es[0]] + Without(es[1..], key))[1..] == Without(es[1..], key) == [] + Without(es[1..], key);
    }
  }

  lemma {:induction false} DistinctSnoc(es: Lru, key: CacheKey, e: Entry)
    requires Distinct(es) && Find(es, key) == None
    ensures Distinct(es + [(key, e)])
  {
    if es == [] {
      assert [] + [(key, e)] == [(key, e)];
    } else {
      DistinctSnoc(es[1..], key, e);
      assert (es + [(key, e)])[1..] == es[1..] + [(key, e)];
      FindAppend(es[1..], [(key, e)], es[0].0);
      FindOne(key, e, es[0].0);
    }
  }

  lemma {:induction false} DistinctPurged(es: Lru, patterns: seq<Text>)
    requires Distinct(es)
    ensures Distinct(Purged(es, patterns)) && |Purged(es, patterns)| <= |es|
  {
    hide Find, PurgedBy;
    if es != [] {
      DistinctPurged(es[1..], patterns);
      FindPurged(es[1..], patterns, es[0].0);
      assert ([es[0]] + Purged(es[1..], patterns))[1..] == Purged(es[1..], patterns) == [] + Purged(es[1..], patterns);
    }
  }

  lemma DistinctMoved(es: Lru, key: CacheKey, e: Entry)
    requires Distinct(es)
    ensures Distinct(Without(es, key) + [(key, e)])
  {
    hide Without, Find;
    DistinctWithout(es, key);
    FindWithout(es, key, key);
    DistinctSnoc(Without(es, key), key, e);
  }

  lemma DistinctTail(es: Lru, key: CacheKey)
    requires es != [] && Distinct(es)
    ensures Distinct(es[1..]) && Find(es[1..], key) == if key == es[0].0 then None else Find(es, key)
  {
  }

  /** A store is found again; any other key keeps what it had, or is evicted when the map is full. */
  lemma {:induction false} FindPut(es: Lru, stored: CacheKey, e: Entry, key: CacheKey)
    requires Distinct(es)
    ensures Distinct(Put(es, stored, e))
    ensures |es| <= CACHE_CAPACITY ==> |Put(es, stored, e)| <= CACHE_CAPACITY
    ensures var r := Find(Put(es, stored, e), key);
            if key == stored then r == Some(e)
            else r == Find(es, key) || (r == None && |Without(es, stored)| >= CACHE_CAPACITY)
  {
    hide Without, Find, Distinct;
    var w := Without(es, stored);
    var r := w + [(stored, e)];
    DistinctWithout(es, stored);
    DistinctMoved(es, stored, e);
    FindWithout(es, stored, key);
    FindAppend(w, [(stored, e)], key);
    FindOne(stored, e, key);
    if |r| > CACHE_CAPACITY {
      DistinctTail(r, key);
      FindWithout(es, stored, stored);
      FirstIsOther(w, stored);
      assert r[0] == w[0];
    }
  }

  lemma FirstIsOther(es: Lru, key: CacheKey)
    requires es != [] && Find(es, key) == None
    ensures es[0].0 != key
  {
  }

  lemma {:induction false} SizeOfKeys(es: Lru, keys: set<CacheKey>)
    requires Distinct(es) && forall k :: Find(es, k).Some? ==> k in keys
    ensures |es| <= |keys|
  {
    if es != [] {
      var k := es[0].0;
      forall j | Find(es[1..], j).Some?
        ensures j in keys - {k}
      {
        assert j != k ==> Find(es, j).Some?;
      }
      SizeOfKeys(es[1..], keys - {k});
      assert Find(es, k).Some?;
    }
  }

  // ---- Invariants of every run

  /** Every entry is the one made of the latest store for its key. */
  ghost predicate Sound(es: Lru, events: seq<Event>) {
    forall k :: Find(es, k).Some? ==> FromLog(events, k, Find(es, k).value)
  }

  ghost predicate FromLog(events: seq<Event>, k: CacheKey, e: Entry) {
    var s := Latest(events, k);
    s.Some? && s.value.Store? && e == EntryOf(s.value.reply, s.value.now)
  }

  lemma {:induction false} RunIsSound(events: seq<Event>)
    ensures var es := Run(events); Distinct(es) && |es| <= CACHE_CAPACITY && Sound(es, events)
    decreases |events|
  {
    assert Distinct([]) && forall k :: Find([], k) == None;
    hide Find, Without, Purged, Put, Touched, PurgedBy, EntryOf;
    if events == [] {
    } else {
      var n := |events| - 1;
      var es, es' := Run(events[..n]), Run(events);
      RunIsSound(events[..n]);
      AfterIsDistinct(es, events[n]);
      forall k | Find(es', k).Some?
        ensures FromLog(events, k, Find(es', k).value)
      {
        AfterFinds(es, events[n], k);
        assert Find(es, k).Some? ==> FromLog(events[..n], k, Find(es, k).value);
      }
    }
  }

  lemma AfterIsDistinct(es: Lru, ev: Event)
    requires Distinct(es) && |es| <= CACHE_CAPACITY
    ensures Distinct(After(es, ev)) && |After(es, ev)| <= CACHE_CAPACITY
  {
    hide Without, Purged, Put, PurgedBy, EntryOf, Distinct, Find;
    match ev
    case Store(key, reply, now) => FindPut(es, key, EntryOf(reply, now), key);
    case Lookup(key, now) =>
      DistinctWithout(es, key);
      match Find(es, key) {
        case None =>
        case Some(e) =>
          DistinctMoved(es, key, e);
          TouchedSize(es, key, e);
      }
    case Purge(patterns, _) => DistinctPurged(es, patterns);
  }

  lemma {:induction false} TouchedSize(es: Lru, key: CacheKey, e: Entry)
    requires Find(es, key) == Some(e) && Distinct(es)
    ensures |Without(es, key)| + 1 <= |es|
  {
    if es[0].0 == key {
      DistinctWithout(es[1..], key);
    } else {
      TouchedSize(es[1..], key, e);
    }
  }

  /** What is found after an event: the stored entry, what was found before, or nothing. */
  lemma AfterFinds(es: Lru, ev: Event, k: CacheKey)
    requires Distinct(es)
    ensures ev.Store? ==>
              var r := Find(After(es, ev), k);
              if ev.key == k then r == Some(EntryOf(ev.reply, ev.now))
              else r == Find(es, k) || (r == None && |Without(es, ev.key)| >= CACHE_CAPACITY)
    ensures ev.Lookup? ==>
              var r := Find(After(es, ev), k);
              r == Find(es, k) || (r == None && ev.key == k && Find(es, k).Some?
                  && ev.now >= Find(es, k).value.expiresAt)
    ensures ev.Purge? ==> Find(After(es, ev), k) == if PurgedBy(k, ev.patterns) then None else Find(es, k)
  {
    hide Without, Purged, Put, PurgedBy, EntryOf, Distinct, Find, Touched;
    match ev
    case Store(key, reply, now) => FindPut(es, key, EntryOf(reply, now), k);
    case Lookup(key, now) =>
      FindWithout(es, key, k);
      FindTouched(es, key, k);
    case Purge(patterns, _) => FindPurged(es, patterns, k);
  }

  /**
   * Transparency: in every run a hit is what the plain log answers, whatever was evicted or purged. It is the
   * latest reply stored for the key with only its two ID bytes changed, still within its lifetime.
   */
  lemma {:induction false} HitIsLogAnswer(events: seq<Event>, key: CacheKey, now: Time)
    requires Hit(Run(events), key, now).Some?
    ensures Hit(Run(events), key, now) == LogAnswer(events, key, now)
    ensures var s := Latest(events, key);
            && s.Some? && s.value.Store? && s.value.key == key
            && now < s.value.now + Lifetime(s.value.reply) <= s.value.now + CACHE_TTL_MAX
            && forall hi, lo :: WithTxid(Hit(Run(events), key, now).value, hi, lo) == WithTxid(s.value.reply, hi, lo)
  {
    hide Find, Run, Lifetime;
    RunIsSound(events);
    LatestHasKey(events, key);
    assert FromLog(events, key, Find(Run(events), key).value);
  }

  lemma {:induction false} LatestHasKey(events: seq<Event>, key: CacheKey)
    ensures var s := Latest(events, key); s.Some? ==> s.value in events && s.value.Store? && s.value.key == key
    decreases |events|
  {
    hide PurgedBy;
    if events != [] {
      LatestHasKey(events[..|events| - 1], key);
    }
  }

  ghost function StoredKeys(events: seq<Event>): set<CacheKey> {
    set ev | ev in events && ev.Store? :: ev.key
  }

  /** While the keys fit the capacity, every latest store that is still alive is found. */
  lemma {:induction false} LiveIsFound(events: seq<Event>, now: Time, key: CacheKey)
    requires Ordered(events) && (forall ev <- events :: ev.now <= now) && |StoredKeys(events)| <= CACHE_CAPACITY
    ensures var s := Latest(events, key);
            s.Some? && s.value.Store? && now < s.value.now + Lifetime(s.value.reply) ==>
              Find(Run(events), key) == Some(EntryOf(s.value.reply, s.value.now))
    decreases |events|
  {
    hide Find, Without, Purged, Put, Touched, PurgedBy, Lifetime, Distinct;
    LatestHasKey(events, key);
    if events != [] {
      var n := |events| - 1;
      var front := events[..n];
      LatestHasKey(front, key);
      RunIsSound(front);
      FewerKeys(events);
      LiveIsFound(front, now, key);
      AfterFinds(Run(front), events[n], key);
      if events[n].Store? {
        RoomLeft(events);
      }
      assert events[n] in events;
    }
  }

  lemma FewerKeys(events: seq<Event>)
    requires events != []
    ensures StoredKeys(events[..|events| - 1]) <= StoredKeys(events)
    ensures |StoredKeys(events[..|events| - 1])| <= |StoredKeys(events)|
  {
    var front := events[..|events| - 1];
    SubsetSize(StoredKeys(front), StoredKeys(events));
  }

  lemma SubsetSize<T>(a: set<T>, b: set<T>)
    requires a <= b
    ensures |a| <= |b|
  {
    assert b == a + (b - a);
  }

  /** Before a store, the other keys leave room for one more. */
  lemma RoomLeft(events: seq<Event>)
    requires events != [] && events[|events| - 1].Store? && |StoredKeys(events)| <= CACHE_CAPACITY
    ensures |Without(Run(events[..|events| - 1]), events[|events| - 1].key)| < CACHE_CAPACITY
  {
    hide Find, Without, Distinct;
    var n := |events| - 1;
    var front, k := events[..n], events[n].key;
    var es := Run(front);
    RunIsSound(front);
    DistinctWithout(es, k);
    FewerKeys(events);
    assert events[n] in events;
    forall j | Find(Without(es, k), j).Some?
      ensures j in StoredKeys(events) - {k}
    {
      FindWithout(es, k, j);
      assert FromLog(front, j, Find(es, j).value);
      LatestHasKey(front, j);
    }
    SizeOfKeys(Without(es, k), StoredKeys(events) - {k});
  }

  /** While no more keys are stored than fit, the cache answers exactly what the plain log answers. */
  lemma {:induction false} CacheIsLog(events: seq<Event>, key: CacheKey, now: Time)
    requires Ordered(events) && (forall ev <- events :: ev.now <= now) && |StoredKeys(events)| <= CACHE_CAPACITY
    ensures Hit(Run(events), key, now) == LogAnswer(events, key, now)
  {
    hide Find, Run, Lifetime;
    LiveIsFound(events, now, key);
    LatestHasKey(events, key);
    if Hit(Run(events), key, now).Some? {
      HitIsLogAnswer(events, key, now);
    }
  }
}
