/** What the cache promises in its own terms: how long a reply lives, what a purge takes, and which entry gives way. */
module CacheLaws {
  import opened Bytes
  import opened Message
  import opened Names
  import opened Answers
  import opened Crafted
  import opened Cache
  import Trie

  // ---- Lifetimes

  /** Seconds that a reply lives, by the TTLs of its answers; 60 when no TTL says anything. */
  ghost predicate Lives(ttls: seq<nat>, seconds: nat) {
    if forall x <- ttls :: x == 0 || x >= 0xFFFF_FFFF then seconds == 60
    else
      exists t <- ttls ::
        && 0 < t && (forall x <- ttls :: x == 0 || t <= x)
        && seconds == (if t < 5 then 5 else if t > 300 then 300 else t)
  }

  lemma LivesAsLong(m: Message)
    requires m.Valid() && |m.questions| == 1 && Readable(m.questions[0].name) && ReadableNames(m.answers)
    ensures Lives(Ttls(m.answers), Lifetime(Encode(m)) / 1_000_000_000) && Lifetime(Encode(m)) % 1_000_000_000 == 0
  {
    hide LeastTtl, Ttls, Encode, ReadableNames;
    LeastTtlOfMessage(m);
    var t := LeastTtl(Encode(m));
    if t.Some? {
      assert t.value in Ttls(m.answers);
    }
  }

  /**
   * After a reply with one question and names that are text was stored, with nothing in between, it is found just
   * until the least positive TTL of its answers is over, but no sooner than 5 and no later than 300 seconds after;
   * and what is found is the reply, all but its first two bytes.
   */
  lemma {:induction false} FoundUntil(events: seq<Event>, m: Message, key: CacheKey, at: Time, now: Time, seconds: nat)
    requires m.Valid() && |m.questions| == 1 && Readable(m.questions[0].name) && ReadableNames(m.answers)
    ensures var found := Hit(Run(events + [Store(key, Encode(m), at)]), key, now);
            && (Lives(Ttls(m.answers), seconds) ==> (found.Some? <==> now < at + seconds * 1_000_000_000))
            && (found.Some? ==> |found.value| == |Encode(m)| && found.value[2..] == Encode(m)[2..])
  {
    hide Lives, Ttls, Encode, ReadableNames, Lifetime, Put, Find;
    LivesAsLong(m);
    if Lives(Ttls(m.answers), seconds) {
      OneLife(Ttls(m.answers), seconds, Lifetime(Encode(m)) / 1_000_000_000);
    }
    var ev := Store(key, Encode(m), at);
    assert (events + [ev])[..|events|] == events;
    RunIsSound(events);
    FindPut(Run(events), key, EntryOf(Encode(m), at), key);
  }

  lemma OneLife(ttls: seq<nat>, a: nat, b: nat)
    requires Lives(ttls, a) && Lives(ttls, b)
    ensures a == b
  {
  }

  /** A lookup that finds nothing leaves nothing under its key; apart from this, lookups forget nothing. */
  lemma {:induction false} LookupLeaves(events: seq<Event>, key: CacheKey, now: Time, other: CacheKey)
    ensures var es := Run(events);
            Find(Run(events + [Lookup(key, now)]), other)
            == if other == key && Hit(es, key, now) == None then None else Find(es, other)
  {
    hide Find, Distinct, Without, Run;
    var es := Run(events);
    RunSnoc(events, Lookup(key, now));
    FindWithout(es, key, other);
    if Find(es, key).Some? {
      FindAppend(Without(es, key), [(key, Find(es, key).value)], other);
      FindOne(key, Find(es, key).value, other);
    }
  }

  // ---- Purges

  /** A purge takes just the names that one of its patterns matches. */
  lemma {:induction false} PurgeTakes(es: Lru, patterns: seq<Text>, key: CacheKey)
    ensures (exists p <- patterns :: Trie.Matches(key.name, p)) ==> Find(Purged(es, patterns), key) == None
    ensures (forall p <- patterns :: !Trie.Matches(key.name, p)) ==> Find(Purged(es, patterns), key) == Find(es, key)
  {
    hide Trie.Matches, Purged, Find;
    FindPurged(es, patterns, key);
  }

  // ---- Eviction

  /** When the key was last stored or looked up, as a place in the log; -1 for never. */
  ghost function LastUse(events: seq<Event>, key: CacheKey): int {
    if events == [] then -1
    else
      var n := |events| - 1;
      if !events[n].Purge? && events[n].key == key then n else LastUse(events[..n], key)
  }

  lemma {:induction false} UsedBefore(events: seq<Event>, key: CacheKey)
    ensures -1 <= LastUse(events, key) < |events|
    decreases |events|
  {
    if events != [] {
      UsedBefore(events[..|events| - 1], key);
    }
  }

  lemma UseSnoc(events: seq<Event>, ev: Event, key: CacheKey)
    ensures LastUse(events + [ev], key) == if !ev.Purge? && ev.key == key then |events| else LastUse(events, key)
  {
    assert (events + [ev])[..|events|] == events;
  }

  /** Entries stand in the order of their last uses. */
  ghost predicate OldestFirst(es: Lru, events: seq<Event>) {
    es == []
    || ((forall x <- es[1..] :: LastUse(events, es[0].0) < LastUse(events, x.0)) && OldestFirst(es[1..], events))
  }

  lemma {:induction false} OrderWithout(es: Lru, key: CacheKey, events: seq<Event>)
    requires OldestFirst(es, events)
    ensures OldestFirst(Without(es, key), events)
    ensures forall x <- Without(es, key) :: x in es && x.0 != key
  {
    hide LastUse;
    if es != [] {
      OrderWithout(es[1..], key, events);
      assert forall x <- Without(es[1..], key) :: x in es[1..];
      assert [] + Without(es[1..], key) == Without(es[1..], key);
      assert ([es[0]] + Without(es[1..], key))[1..] == Without(es[1..], key);
    }
  }

  lemma {:induction false} OrderPurged(es: Lru, patterns: seq<Text>, events: seq<Event>)
    requires OldestFirst(es, events)
    ensures OldestFirst(Purged(es, patterns), events)
    ensures forall x <- Purged(es, patterns) :: x in es
  {
    hide LastUse, PurgedBy;
    if es != [] {
      OrderPurged(es[1..], patterns, events);
      assert forall x <- Purged(es[1..], patterns) :: x in es[1..];
      assert [] + Purged(es[1..], patterns) == Purged(es[1..], patterns);
      assert ([es[0]] + Purged(es[1..], patterns))[1..] == Purged(es[1..], patterns);
    }
  }

  lemma {:induction false} OrderSame(es: Lru, events: seq<Event>, events': seq<Event>)
    requires OldestFirst(es, events) && forall x <- es :: LastUse(events', x.0) == LastUse(events, x.0)
    ensures OldestFirst(es, events')
  {
    hide LastUse;
    if es != [] {
      assert es[0] in es && forall x <- es[1..] :: x in es;
      OrderSame(es[1..], events, events');
    }
  }

  lemma {:induction false} OrderSnoc(es: Lru, key: CacheKey, e: Entry, events: seq<Event>)
    requires OldestFirst(es, events) && forall x <- es :: LastUse(events, x.0) < LastUse(events, key)
    ensures OldestFirst(es + [(key, e)], events)
  {
    hide LastUse;
    if es == [] {
      var one: Lru := [(key, e)];
      assert es + [(key, e)] == one && one[1..] == [];
    } else {
      assert forall x <- es[1..] :: x in es;
      assert (es + [(key, e)])[1..] == es[1..] + [(key, e)] && (es + [(key, e)])[0] == es[0] && es[0] in es;
      OrderSnoc(es[1..], key, e, events);
    }
  }

  /** The used key moved to the end. */
  lemma OrderMoved(es: Lru, events: seq<Event>, ev: Event, e: Entry)
    requires OldestFirst(es, events) && !ev.Purge?
    ensures OldestFirst(Without(es, ev.key), events + [ev])
    ensures OldestFirst(Without(es, ev.key) + [(ev.key, e)], events + [ev])
  {
    hide LastUse, OldestFirst, Without;
    OrderWithout(es, ev.key, events);
    var rest := Without(es, ev.key);
    forall x <- rest
      ensures LastUse(events + [ev], x.0) == LastUse(events, x.0) < LastUse(events + [ev], ev.key)
    {
      UseSnoc(events, ev, x.0);
      UseSnoc(events, ev, ev.key);
      UsedBefore(events, x.0);
    }
    OrderSame(rest, events, events + [ev]);
    OrderSnoc(rest, ev.key, e, events + [ev]);
  }

  lemma OrderKept(es: Lru, events: seq<Event>, ev: Event)
    requires OldestFirst(es, events) && (ev.Purge? || forall x <- es :: x.0 != ev.key)
    ensures OldestFirst(es, events + [ev])
  {
    hide LastUse, OldestFirst;
    forall x <- es
      ensures LastUse(events + [ev], x.0) == LastUse(events, x.0)
    {
      UseSnoc(events, ev, x.0);
    }
    OrderSame(es, events, events + [ev]);
  }

  lemma {:induction false} NotFound(es: Lru, key: CacheKey)
    requires Find(es, key) == None
    ensures (forall x <- es :: x.0 != key) && Without(es, key) == es
  {
    if es != [] {
      NotFound(es[1..], key);
      assert es == [es[0]] + es[1..];
    }
  }

  lemma AfterIsOrdered(es: Lru, events: seq<Event>, ev: Event)
    requires OldestFirst(es, events)
    ensures OldestFirst(After(es, ev), events + [ev])
  {
    hide LastUse, Without, Find, Purged, EntryOf;
    match ev {
      case Store(key, reply, now) => OrderMoved(es, events, ev, EntryOf(reply, now));
      case Lookup(key, now) =>
        if Find(es, key) == None {
          NotFound(es, key);
          OrderKept(es, events, ev);
        } else {
          OrderMoved(es, events, ev, Find(es, key).value);
        }
      case Purge(patterns, _) =>
        OrderPurged(es, patterns, events);
        OrderKept(Purged(es, patterns), events, ev);
    }
  }

  lemma {:induction false} RunIsOrdered(events: seq<Event>)
    ensures OldestFirst(Run(events), events)
    decreases |events|
  {
    hide OldestFirst, After;
    if events == [] {
      NothingOrdered();
    } else {
      var n := |events| - 1;
      RunIsOrdered(events[..n]);
      AfterIsOrdered(Run(events[..n]), events[..n], events[n]);
      assert events[..n] + [events[n]] == events;
    }
  }

  lemma NothingOrdered()
    ensures OldestFirst([], [])
  {
  }

  lemma {:induction false} FoundStands(es: Lru, key: CacheKey)
    requires Find(es, key).Some?
    ensures exists x <- es :: x.0 == key
  {
    if es[0].0 == key {
      assert es[0] in es;
    } else {
      FoundStands(es[1..], key);
      var x :| x in es[1..] && x.0 == key;
      assert x in es;
    }
  }

  /**
   * A store pushes another key out only when 4096 other keys are held and its own is none of them, and then the key
   * whose last store or lookup is the oldest of all.
   */
  lemma {:induction false} OldestGivesWay(events: seq<Event>, ev: Event, gone: CacheKey, other: CacheKey)
    requires ev.Store? && gone != ev.key
    requires Find(Run(events), gone).Some? && Find(Run(events + [ev]), gone) == None
    ensures |Run(events)| == 4096 && Find(Run(events), ev.key) == None
    ensures Find(Run(events), other).Some? && other != gone ==> LastUse(events, gone) < LastUse(events, other)
  {
    hide LastUse, Run, Find, Without, EntryOf, Distinct, Sound;
    var es := Run(events);
    RunIsSound(events);
    RunIsOrdered(events);
    RunSnoc(events, ev);
    FindPut(es, ev.key, EntryOf(ev.reply, ev.now), gone);
    if Find(es, ev.key).Some? {
      TouchedSize(es, ev.key, Find(es, ev.key).value);
      assert false;
    }
    NotFound(es, ev.key);
    FirstGives(es, ev.key, EntryOf(ev.reply, ev.now), gone);
    if Find(es, other).Some? && other != gone {
      DistinctTail(es, other);
      FoundStands(es[1..], other);
    }
  }

  lemma RunSnoc(events: seq<Event>, ev: Event)
    ensures Run(events + [ev]) == After(Run(events), ev)
  {
    assert (events + [ev])[..|events|] == events;
  }

  lemma FirstGives(es: Lru, key: CacheKey, e: Entry, gone: CacheKey)
    requires Distinct(es) && |es| == 4096 && Without(es, key) == es && gone != key
    requires Find(es, gone).Some? && Find(Put(es, key, e), gone) == None
    ensures es[0].0 == gone
  {
    hide Find, Without, Distinct;
    assert (es + [(key, e)])[1..] == es[1..] + [(key, e)];
    FindAppend(es[1..], [(key, e)], gone);
    FindOne(key, e, gone);
    DistinctTail(es, gone);
  }
}
