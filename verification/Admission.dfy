/** Admission of queries: two receive loops, a permit pool, a bounded backlog and the worker that drains it. */
module Admission {
  import opened Bytes
  import Pipeline

  const PERMITS: nat := 512
  const BACKLOG_CAPACITY: nat := 1024
  /** 800 milliseconds; instants are in nanoseconds. */
  const MAX_BACKLOG_AGE: nat := 800 * 1_000_000

  datatype Door = Plain | Obfs

  function BatchMax(door: Door): nat {
    if door.Plain? then 256 else 64
  }

  /** A datagram is known by its place in the order of receipt. */
  type Id = nat

  datatype Waiting = Waiting(id: Id, since: nat)
  datatype Handler = Handler(id: Id, raised: Option<Pipeline.Counter>)

  /** Who is in: `free` permits are left. */
  datatype Hall = Hall(running: seq<Handler>, free: nat, backlog: seq<Waiting>, dropped: seq<Id>)

  function Started(h: Hall, id: Id): Hall
    requires h.free > 0
  {
    h.(running := h.running + [Handler(id, None)], free := h.free - 1)
  }

  /** `try_acquire_owned`, then `try_send`, then drop. */
  function Admit(h: Hall, id: Id, now: nat): Hall {
    if h.free > 0 then Started(h, id)
    else if |h.backlog| < BACKLOG_CAPACITY then h.(backlog := h.backlog + [Waiting(id, now)])
    else h.(dropped := h.dropped + [id])
  }

  function AdmitAll(h: Hall, batch: seq<Id>, now: nat): Hall {
    if batch == [] then h else Admit(AdmitAll(h, batch[..|batch| - 1], now), batch[|batch| - 1], now)
  }

  function Ids(ws: seq<Waiting>): (ids: seq<Id>)
    ensures |ids| == |ws|
  {
    seq(|ws|, i requires 0 <= i < |ws| => ws[i].id)
  }

  function HandlerIds(hs: seq<Handler>): (ids: seq<Id>)
    ensures |ids| == |hs|
  {
    seq(|hs|, i requires 0 <= i < |hs| => hs[i].id)
  }

  lemma IdsAppend(a: seq<Waiting>, w: Waiting)
    ensures Ids(a + [w]) == Ids(a) + [w.id]
  {
  }

  lemma HandlersAppend(a: seq<Handler>, h: Handler)
    ensures HandlerIds(a + [h]) == HandlerIds(a) + [h.id]
  {
  }

  function Min(a: int, b: int): int {
    if a < b then a else b
  }

  ghost predicate SplitAt(h: Hall, batch: seq<Id>, h': Hall, run: nat, wait: nat) {
    && run + wait <= |batch|
    && HandlerIds(h'.running) == HandlerIds(h.running) + batch[..run]
    && h'.free == h.free - run
    && Ids(h'.backlog) == Ids(h.backlog) + batch[run..run + wait]
    && h'.dropped == h.dropped + batch[run + wait..]
  }

  /** A batch handled in one go: the head of it runs, the next part waits, and only the rest is dropped. */
  ghost predicate Split(h: Hall, batch: seq<Id>, h': Hall)
    requires |h.backlog| <= BACKLOG_CAPACITY
  {
    var run := Min(h.free, |batch|);
    SplitAt(h, batch, h', run, Min(BACKLOG_CAPACITY - |h.backlog|, |batch| - run))
  }

  lemma {:induction false} AdmitAllSplits(h: Hall, batch: seq<Id>, now: nat)
    requires |h.backlog| <= BACKLOG_CAPACITY
    ensures Split(h, batch, AdmitAll(h, batch, now))
    decreases |batch|
  {
    if batch != [] {
      var n := |batch| - 1;
      AdmitAllSplits(h, batch[..n], now);
      SplitOneMore(h, batch, AdmitAll(h, batch[..n], now), now);
    }
  }

  lemma OneMoreRuns(h: Hall, batch: seq<Id>, mid: Hall)
    requires batch != [] && mid.free > 0 && SplitAt(h, batch[..|batch| - 1], mid, |batch| - 1, 0)
    ensures SplitAt(h, batch, Started(mid, batch[|batch| - 1]), |batch|, 0)
  {
    hide Ids, HandlerIds;
    var n := |batch| - 1;
    HandlersAppend(mid.running, Handler(batch[n], None));
    assert batch[..n + 1] == batch[..n][..n] + [batch[n]];
  }

  lemma OneMoreWaits(h: Hall, batch: seq<Id>, mid: Hall, run: nat, now: nat)
    requires batch != [] && run < |batch| && SplitAt(h, batch[..|batch| - 1], mid, run, |batch| - 1 - run)
    ensures SplitAt(h, batch, mid.(backlog := mid.backlog + [Waiting(batch[|batch| - 1], now)]), run, |batch| - run)
  {
    hide Ids, HandlerIds;
    var n := |batch| - 1;
    IdsAppend(mid.backlog, Waiting(batch[n], now));
    assert batch[..n][..run] == batch[..run];
    assert batch[run..n + 1] == batch[..n][run..n] + [batch[n]];
  }

  lemma OneMoreDropped(h: Hall, batch: seq<Id>, mid: Hall, run: nat, wait: nat)
    requires batch != [] && run + wait < |batch| && SplitAt(h, batch[..|batch| - 1], mid, run, wait)
    ensures SplitAt(h, batch, mid.(dropped := mid.dropped + [batch[|batch| - 1]]), run, wait)
  {
    hide Ids, HandlerIds;
    var n := |batch| - 1;
    assert batch[..n][..run] == batch[..run] && batch[..n][run..run + wait] == batch[run..run + wait];
    assert batch[run + wait..] == batch[..n][run + wait..] + [batch[n]];
  }

  lemma SplitOneMore(h: Hall, batch: seq<Id>, mid: Hall, now: nat)
    requires |h.backlog| <= BACKLOG_CAPACITY && batch != [] && Split(h, batch[..|batch| - 1], mid)
    ensures Split(h, batch, Admit(mid, batch[|batch| - 1], now))
  {
    hide SplitAt;
    var n := |batch| - 1;
    var run := Min(h.free, n);
    var wait := Min(BACKLOG_CAPACITY - |h.backlog|, n - run);
    assert mid.free == h.free - run
        && |mid.backlog| == |h.backlog| + wait by { SplitSizes(h, batch[..n], mid, run, wait); }
    if mid.free > 0 {
      OneMoreRuns(h, batch, mid);
    } else if |mid.backlog| < BACKLOG_CAPACITY {
      OneMoreWaits(h, batch, mid, run, now);
    } else {
      OneMoreDropped(h, batch, mid, run, wait);
    }
  }

  lemma SplitSizes(h: Hall, batch: seq<Id>, h': Hall, run: nat, wait: nat)
    requires SplitAt(h, batch, h', run, wait)
    ensures h'.free == h.free - run && |h'.backlog| == |h.backlog| + wait
  {
    assert |Ids(h'.backlog)| == |Ids(h.backlog)| + wait;
  }

  class Server {
    var running: seq<Handler>
    var free: nat
    var backlog: seq<Waiting>
    var dropped: seq<Id>

    constructor ()
      ensures View() == Hall([], PERMITS, [], [])
    {
      running, free, backlog, dropped := [], PERMITS, [], [];
    }

    ghost function View(): Hall
      reads this
    {
      Hall(running, free, backlog, dropped)
    }

    /** The loop over one batch of plain queries, when no other task runs in between. */
    method DispatchBatch(batch: seq<Id>, now: nat)
      requires |backlog| <= BACKLOG_CAPACITY
      modifies this
      ensures View() == AdmitAll(old(View()), batch, now)
      ensures Split(old(View()), batch, View())
    {
      ghost var before := View();
      for i := 0 to |batch|
        invariant View() == AdmitAll(before, batch[..i], now)
      {
        assert batch[..i + 1][..i] == batch[..i];
        if free == 0 {
          if |backlog| < BACKLOG_CAPACITY {
            backlog := backlog + [Waiting(batch[i], now)];
          } else {
            dropped := dropped + [batch[i]];
          }
          continue;
        }
        free := free - 1;
        running := running + [Handler(batch[i], None)];
      }
      assert batch[..|batch|] == batch;
      AdmitAllSplits(before, batch, now);
    }
  }

  // ---- All tasks together

  /** A receive loop collects a batch, counts it, and dispatches it datagram by datagram. */
  datatype Loop = Collecting(batch: seq<Id>) | Dispatching(batch: seq<Id>)

  datatype Worker = Idle | Holding(item: Waiting, takenAt: nat)

  /** `taken` is the history of what the worker has taken from the backlog. */
  datatype State = State(now: nat, received: nat, plain: Loop, obfs: Loop, hall: Hall, worker: Worker,
                         done: seq<Handler>, totalReq: nat, counts: map<Pipeline.Counter, nat>, taken: seq<Id>)

  datatype Step =
    | Receive(door: Door)
    | CountBatch(door: Door)
    | Dispatch
    | DispatchObfs(decodes: bool)
    | Take
    | StartHeld
    | Raise(i: nat, counter: Pipeline.Counter)
    | Finish(i: nat)
    | Tick(span: nat)

  function LoopOf(s: State, door: Door): Loop {
    if door.Plain? then s.plain else s.obfs
  }

  function SetLoop(s: State, door: Door, to: Loop): State {
    if door.Plain? then s.(plain := to) else s.(obfs := to)
  }

  /** A loop whose batch is used up waits for the next datagram. */
  function Popped(loop: Loop): Loop
    requires loop.batch != []
  {
    if |loop.batch| == 1 then Collecting([]) else Dispatching(loop.batch[1..])
  }

  ghost predicate Enabled(s: State, step: Step) {
    match step
    case Receive(door) => LoopOf(s, door).Collecting? && |LoopOf(s, door).batch| < BatchMax(door)
    case CountBatch(door) => LoopOf(s, door).Collecting? && LoopOf(s, door).batch != []
    case Dispatch => s.plain.Dispatching? && s.plain.batch != []
    case DispatchObfs(_) => s.obfs.Dispatching? && s.obfs.batch != []
    case Take => s.worker.Idle? && s.hall.backlog != []
    case StartHeld => s.worker.Holding? && s.hall.free > 0
    case Raise(i, _) => i < |s.hall.running| && s.hall.running[i].raised.None?
    case Finish(i) => i < |s.hall.running|
    case Tick(_) => true
  }

  ghost function Do(s: State, step: Step): State
    requires Enabled(s, step)
  {
    match step
    case Receive(door) => SetLoop(s, door,
        Collecting(LoopOf(s, door).batch + [s.received])).(received := s.received + 1)
    case CountBatch(door) =>
      var batch := LoopOf(s, door).batch;
      SetLoop(s, door, Dispatching(batch)).(totalReq := s.totalReq + |batch|)
    case Dispatch => s.(plain := Popped(s.plain), hall := Admit(s.hall, s.plain.batch[0], s.now))
    case DispatchObfs(decodes) =>
      var id := s.obfs.batch[0];
      s.(obfs := Popped(s.obfs),
         hall := if decodes && s.hall.free > 0 then Started(s.hall, id) else s.hall.(dropped := s.hall.dropped + [id]))
    case Take =>
      var w := s.hall.backlog[0];
      var rest := s.hall.(backlog := s.hall.backlog[1..]);
      if s.now - w.since > MAX_BACKLOG_AGE then
        s.(hall := rest.(dropped := rest.dropped + [w.id]), taken := s.taken + [w.id])
      else s.(hall := rest, worker := Holding(w, s.now), taken := s.taken + [w.id])
    case StartHeld => s.(hall := Started(s.hall, s.worker.item.id), worker := Idle)
    case Raise(i, c) =>
      s.(hall := s.hall.(running := s.hall.running[i := s.hall.running[i].(raised := Some(c))]),
          counts := Pipeline.Raised(s.counts, Some(c)))
    case Finish(i) =>
      var hs := s.hall.running;
      s.(hall := s.hall.(running := hs[..i] + hs[i + 1..], free := s.hall.free + 1), done := s.done + [hs[i]])
    case Tick(span) => s.(now := s.now + span)
  }

  ghost const START := State(0, 0, Collecting([]), Collecting([]), Hall([], PERMITS, [], []), Idle, [], 0, map[], [])

  ghost predicate Possible(s: State, steps: seq<Step>)
    decreases |steps|
  {
    steps == [] || (Enabled(s, steps[0]) && Possible(Do(s, steps[0]), steps[1..]))
  }

  ghost function Final(s: State, steps: seq<Step>): State
    requires Possible(s, steps)
    decreases |steps|
  {
    if steps == [] then s else Final(Do(s, steps[0]), steps[1..])
  }

  // ---- Where each datagram is

  ghost function Occurs(ids: seq<Id>, id: Id): nat {
    multiset(ids)[id]
  }

  lemma OccursAppend(a: seq<Id>, b: seq<Id>, id: Id)
    ensures Occurs(a + b, id) == Occurs(a, id) + Occurs(b, id)
    ensures Occurs([], id) == 0
  {
  }

  function HeldIds(w: Worker): seq<Id> {
    match w case Idle => [] case Holding(item, _) => [item.id]
  }

  /** In how many places a datagram is: pending, waiting, held, running, done, dropped. */
  ghost function Places(s: State, id: Id): nat {
    Occurs(s.plain.batch, id) + Occurs(s.obfs.batch, id) + Occurs(Ids(s.hall.backlog), id)
        + Occurs(HeldIds(s.worker), id)
    + Occurs(HandlerIds(s.hall.running), id) + Occurs(HandlerIds(s.done), id) + Occurs(s.hall.dropped, id)
  }

  /** Every received datagram is in exactly one place. */
  ghost predicate Placed(s: State, id: Id) {
    Places(s, id) == if id < s.received then 1 else 0
  }

  lemma IdsTail(a: seq<Waiting>)
    requires a != []
    ensures Ids(a) == [a[0].id] + Ids(a[1..])
  {
  }

  lemma HandlersSame(a: seq<Handler>, i: nat, h: Handler)
    requires i < |a| && a[i].id == h.id
    ensures HandlerIds(a[i := h]) == HandlerIds(a)
  {
  }

  lemma HandlersRemoved(a: seq<Handler>, i: nat, id: Id)
    requires i < |a|
    ensures Occurs(HandlerIds(a), id) == Occurs(HandlerIds(a[..i] + a[i + 1..]), id) + Occurs([a[i].id], id)
  {
    var front, rest := HandlerIds(a[..i]), HandlerIds(a[i + 1..]);
    assert HandlerIds(a) == front + [a[i].id] + rest;
    assert HandlerIds(a[..i] + a[i + 1..]) == front + rest;
    OccursAppend(front + [a[i].id], rest, id);
    OccursAppend(front, [a[i].id], id);
    OccursAppend(front, rest, id);
  }

  lemma PopOccurs(loop: Loop, id: Id)
    requires loop.batch != []
    ensures Occurs(loop.batch, id) == Occurs([loop.batch[0]], id) + Occurs(Popped(loop).batch, id)
  {
    assert loop.batch == [loop.batch[0]] + loop.batch[1..];
    OccursAppend([loop.batch[0]], loop.batch[1..], id);
  }

  lemma StartedOccurs(h: Hall, d: Id, id: Id)
    requires h.free > 0
    ensures Occurs(HandlerIds(Started(h, d).running), id) == Occurs(HandlerIds(h.running), id) + Occurs([d], id)
  {
    hide Occurs, HandlerIds;
    HandlersAppend(h.running, Handler(d, None));
    OccursAppend(HandlerIds(h.running), [d], id);
  }

  lemma AdmitOccurs(h: Hall, d: Id, now: nat, id: Id)
    ensures var h' := Admit(h, d, now);
            Occurs(HandlerIds(h'.running), id) + Occurs(Ids(h'.backlog), id) + Occurs(h'.dropped, id)
            == Occurs(HandlerIds(h.running), id) + Occurs(Ids(h.backlog), id) + Occurs(h.dropped, id) + Occurs([d], id)
  {
    hide Occurs, HandlerIds, Ids;
    if h.free > 0 {
      StartedOccurs(h, d, id);
    }
    IdsAppend(h.backlog, Waiting(d, now));
    OccursAppend(Ids(h.backlog), [d], id);
    OccursAppend(h.dropped, [d], id);
  }

  lemma {:induction false} StepKeepsPlaces(s: State, step: Step, id: Id)
    requires Enabled(s, step) && Placed(s, id)
    ensures Placed(Do(s, step), id)
  {
    hide Occurs, HandlerIds, Ids;
    OccursAppend([], [], id);
    match step {
      case Receive(door) =>
        OccursAppend(LoopOf(s, door).batch, [s.received], id);
        assert Occurs([s.received], id) == if id == s.received then 1 else 0 by { OccursOne(s.received, id); }
      case Dispatch => PopOccurs(s.plain, id); AdmitOccurs(s.hall, s.plain.batch[0], s.now, id);
      case DispatchObfs(decodes) =>
        PopOccurs(s.obfs, id);
        if decodes && s.hall.free > 0 { StartedOccurs(s.hall, s.obfs.batch[0], id); }
        OccursAppend(s.hall.dropped, [s.obfs.batch[0]], id);
      case Take =>
        var w := s.hall.backlog[0];
        IdsTail(s.hall.backlog);
        OccursAppend([w.id], Ids(s.hall.backlog[1..]), id);
        OccursAppend(s.hall.dropped, [w.id], id);
      case StartHeld => StartedOccurs(s.hall, s.worker.item.id, id);
      case Raise(i, c) => HandlersSame(s.hall.running, i, s.hall.running[i].(raised := Some(c)));
      case Finish(i) =>
        HandlersRemoved(s.hall.running, i, id);
        HandlersAppend(s.done, s.hall.running[i]);
        OccursAppend(HandlerIds(s.done), [s.hall.running[i].id], id);
      case _ =>
    }
  }

  lemma OccursOne(d: Id, id: Id)
    ensures Occurs([d], id) == if id == d then 1 else 0
  {
  }

  // ---- Bounds, counters and order

  ghost predicate Bounded(s: State) {
    && |s.hall.running| + s.hall.free == PERMITS
    && |s.hall.backlog| <= BACKLOG_CAPACITY
    && |s.plain.batch| <= BatchMax(Plain) && |s.obfs.batch| <= BatchMax(Obfs)
  }

  /** No query that is too old is ever held. */
  ghost predicate Young(s: State) {
    s.worker.Holding? ==> s.worker.takenAt - s.worker.item.since <= MAX_BACKLOG_AGE
  }

  /** How many handlers have raised this counter. */
  ghost function Outcomes(hs: seq<Handler>, c: Pipeline.Counter): nat {
    if hs == [] then 0 else Outcomes(hs[..|hs| - 1], c) + if hs[|hs| - 1].raised == Some(c) then 1 else 0
  }

  lemma {:induction false} OutcomesAppend(a: seq<Handler>, b: seq<Handler>, c: Pipeline.Counter)
    ensures Outcomes(a + b, c) == Outcomes(a, c) + Outcomes(b, c)
    decreases |b|
  {
    if b == [] {
      assert a + b == a;
    } else {
      var n := |b| - 1;
      assert (a + b)[..|a + b| - 1] == a + b[..n];
      OutcomesAppend(a, b[..n], c);
    }
  }

  lemma OutcomesOne(h: Handler, c: Pipeline.Counter)
    ensures Outcomes([h], c) == if h.raised == Some(c) then 1 else 0
  {
    assert [h][..0] == [];
  }

  lemma OutcomesAround(hs: seq<Handler>, i: nat, c: Pipeline.Counter)
    requires i < |hs|
    ensures Outcomes(hs, c) == Outcomes(hs[..i] + hs[i + 1..], c) + Outcomes([hs[i]], c)
    ensures forall h :: Outcomes(hs[i := h], c) == Outcomes(hs[..i] + hs[i + 1..], c) + Outcomes([h], c)
  {
    hide Outcomes;
    var front, rest := hs[..i], hs[i + 1..];
    OutcomesAppend(front, rest, c);
    forall h
      ensures Outcomes(front + [h] + rest, c) == Outcomes(front + rest, c) + Outcomes([h], c)
    {
      OutcomesAppend(front + [h], rest, c);
      OutcomesAppend(front, [h], c);
    }
    assert hs == front + [hs[i]] + rest;
    forall h
      ensures Outcomes(hs[i := h], c) == Outcomes(front + rest, c) + Outcomes([h], c)
    {
      assert hs[i := h] == front + [h] + rest;
    }
  }

  /** A handler that starts has raised nothing. */
  lemma StartIsSilent(hs: seq<Handler>, id: Id, c: Pipeline.Counter)
    ensures Outcomes(hs + [Handler(id, None)], c) == Outcomes(hs, c)
  {
    OutcomesAppend(hs, [Handler(id, None)], c);
    OutcomesOne(Handler(id, None), c);
  }

  /** Each counter is the number of handlers that raised it. */
  ghost predicate Counted(s: State, c: Pipeline.Counter) {
    Pipeline.CountOf(s.counts, c) == Outcomes(s.hall.running, c) + Outcomes(s.done, c)
  }

  lemma StepKeepsCount(s: State, step: Step, c: Pipeline.Counter)
    requires Enabled(s, step) && Counted(s, c)
    ensures Counted(Do(s, step), c)
  {
    hide Outcomes;
    match step {
      case Dispatch => StartIsSilent(s.hall.running, s.plain.batch[0], c);
      case DispatchObfs(_) => StartIsSilent(s.hall.running, s.obfs.batch[0], c);
      case StartHeld => StartIsSilent(s.hall.running, s.worker.item.id, c);
      case Raise(i, k) =>
        OutcomesAround(s.hall.running, i, c);
        OutcomesOne(s.hall.running[i], c);
        OutcomesOne(s.hall.running[i].(raised := Some(k)), c);
      case Finish(i) =>
        OutcomesAround(s.hall.running, i, c);
        OutcomesAppend(s.done, [s.hall.running[i]], c);
      case _ =>
    }
  }

  function Counting(loop: Loop): nat {
    if loop.Dispatching? then |loop.batch| else 0
  }

  /** `total_req` is the number of datagrams whose batch has been counted, wherever they are now. */
  ghost predicate Totalled(s: State) {
    s.totalReq == Counting(s.plain) + Counting(s.obfs) + |s.hall.backlog| + |HeldIds(s.worker)|
                  + |s.hall.running| + |s.done| + |s.hall.dropped|
  }

  /** What the worker has taken, what waits and what is pending, in this order, is in order of receipt. */
  ghost predicate InOrder(s: State) {
    Ascending(s.taken + Ids(s.hall.backlog) + s.plain.batch, s.received)
  }

  ghost predicate Ascending(ids: seq<Id>, limit: nat) {
    && (forall i, j :: 0 <= i < j < |ids| ==> ids[i] < ids[j])
    && (forall i :: 0 <= i < |ids| ==> ids[i] < limit)
  }

  lemma AdmitKeepsRoom(h: Hall, id: Id, now: nat)
    requires |h.running| + h.free == PERMITS && |h.backlog| <= BACKLOG_CAPACITY
    ensures var h' := Admit(h, id, now);
            && |h'.running| + h'.free == PERMITS && |h'.backlog| <= BACKLOG_CAPACITY
            && |h'.running| + |h'.backlog| + |h'.dropped| == |h.running| + |h.backlog| + |h.dropped| + 1
  {
  }

  lemma StepKeepsBounds(s: State, step: Step)
    requires Enabled(s, step) && Bounded(s) && Young(s) && Totalled(s)
    ensures var s' := Do(s, step); Bounded(s') && Young(s') && Totalled(s')
  {
    hide Admit;
    if step.Dispatch? {
      AdmitKeepsRoom(s.hall, s.plain.batch[0], s.now);
    }
  }

  lemma AscendingWithout(front: seq<Id>, x: Id, rest: seq<Id>, limit: nat)
    requires Ascending(front + ([x] + rest), limit)
    ensures Ascending(front + rest, limit)
  {
    var all := front + ([x] + rest);
    assert forall i :: |front| <= i < |front + rest| ==> (front + rest)[i] == all[i + 1];
    assert forall i :: 0 <= i < |front| ==> (front + rest)[i] == all[i];
  }

  lemma StepKeepsOrder(s: State, step: Step)
    requires Enabled(s, step) && InOrder(s)
    ensures InOrder(Do(s, step))
  {
    hide Ids;
    var s' := Do(s, step);
    var ahead := s.taken + Ids(s.hall.backlog);
    match step {
      case Receive(door) =>
        if door.Plain? {
          assert ahead + (s.plain.batch + [s.received]) == ahead + s.plain.batch + [s.received];
        }
      case Dispatch =>
        var x, rest := s.plain.batch[0], s.plain.batch[1..];
        assert s.plain.batch == [x] + rest && Popped(s.plain).batch == rest;
        IdsAppend(s.hall.backlog, Waiting(x, s.now));
        assert s.taken + (Ids(s.hall.backlog) + [x]) + rest == ahead + ([x] + rest);
        AscendingWithout(ahead, x, rest, s.received);
      case Take =>
        IdsTail(s.hall.backlog);
        var x := s.hall.backlog[0].id;
        assert s.taken + [x] + Ids(s.hall.backlog[1..]) == ahead;
      case _ =>
    }
  }

  ghost predicate Inv(s: State) {
    && Bounded(s) && Young(s) && Totalled(s) && InOrder(s)
    && (forall id :: Placed(s, id)) && (forall c :: Counted(s, c))
  }

  lemma StepKeeps(s: State, step: Step)
    requires Enabled(s, step) && Inv(s)
    ensures Inv(Do(s, step))
  {
    hide Bounded, Young, Totalled, InOrder, Placed, Counted, Enabled, Do;
    var s' := Do(s, step);
    StepKeepsBounds(s, step);
    StepKeepsOrder(s, step);
    forall id
      ensures Placed(s', id)
    {
      StepKeepsPlaces(s, step, id);
    }
    forall c
      ensures Counted(s', c)
    {
      StepKeepsCount(s, step, c);
    }
  }

  lemma StartHolds()
    ensures Inv(START)
  {
  }

  lemma {:induction false} RunKeeps(s: State, steps: seq<Step>)
    requires Inv(s) && Possible(s, steps)
    ensures Inv(Final(s, steps))
    decreases |steps|
  {
    hide Inv, Enabled, Do;
    if steps != [] {
      StepKeeps(s, steps[0]);
      RunKeeps(Do(s, steps[0]), steps[1..]);
    }
  }

  // ---- What holds in every run

  /** Permits are neither lost nor made, the backlog is bounded, and each received datagram is in one place only. */
  lemma {:induction false} DatagramsAreConserved(steps: seq<Step>, id: Id)
    requires Possible(START, steps)
    ensures var s := Final(START, steps);
            && |s.hall.running| + s.hall.free == 512 && |s.hall.backlog| <= 1024
            && |s.plain.batch| <= 256 && |s.obfs.batch| <= 64
            && Places(s, id) == if id < s.received then 1 else 0
  {
    hide Places;
    StartHolds();
    RunKeeps(START, steps);
    assert Placed(Final(START, steps), id);
  }

  function Sum(counts: map<Pipeline.Counter, nat>): nat {
    Pipeline.CountOf(counts, Pipeline.DropCount) + Pipeline.CountOf(counts, Pipeline.RedirectCount)
    + Pipeline.CountOf(counts, Pipeline.CachedCount) + Pipeline.CountOf(counts, Pipeline.ResolvedCount)
    + Pipeline.CountOf(counts, Pipeline.TimeoutCount) + Pipeline.CountOf(counts, Pipeline.FailedCount)
  }

  /** Handlers that have raised no counter. */
  ghost function Silent(hs: seq<Handler>): nat {
    if hs == [] then 0 else Silent(hs[..|hs| - 1]) + if hs[|hs| - 1].raised.None? then 1 else 0
  }

  ghost function Loud(hs: seq<Handler>): nat {
    Outcomes(hs, Pipeline.DropCount) + Outcomes(hs, Pipeline.RedirectCount) + Outcomes(hs, Pipeline.CachedCount)
    + Outcomes(hs, Pipeline.ResolvedCount) + Outcomes(hs, Pipeline.TimeoutCount) + Outcomes(hs, Pipeline.FailedCount)
  }

  lemma {:induction false} LoudOrSilent(hs: seq<Handler>)
    ensures Loud(hs) + Silent(hs) == |hs|
  {
    if hs != [] {
      var h := hs[|hs| - 1];
      LoudOrSilent(hs[..|hs| - 1]);
      match h.raised {
        case None =>
        case Some(c) =>
          assert c.DropCount? || c.RedirectCount? || c.CachedCount? || c.ResolvedCount? || c.TimeoutCount?
              || c.FailedCount?;
      }
    }
  }

  /** `total_req` exceeds the sum of the six outcomes by just what is unfinished, dropped or ended without one. */
  lemma {:induction false} OutcomesAddUp(steps: seq<Step>)
    requires Possible(START, steps)
    ensures var s := Final(START, steps);
            s.totalReq == Sum(s.counts) + Silent(s.hall.running) + Silent(s.done) + |s.hall.dropped|
                          + Counting(s.plain) + Counting(s.obfs) + |s.hall.backlog| + |HeldIds(s.worker)|
  {
    hide Outcomes, Silent, Placed, InOrder, Pipeline.CountOf;
    StartHolds();
    RunKeeps(START, steps);
    var s := Final(START, steps);
    LoudOrSilent(s.hall.running);
    LoudOrSilent(s.done);
    assert Counted(s, Pipeline.DropCount) && Counted(s, Pipeline.RedirectCount) && Counted(s, Pipeline.CachedCount);
    assert Counted(s, Pipeline.ResolvedCount) && Counted(s, Pipeline.TimeoutCount) && Counted(s, Pipeline.FailedCount);
  }

  /** The backlog is served first come, first served, and what the worker holds was fresh when taken. */
  lemma {:induction false} BacklogIsFair(steps: seq<Step>)
    requires Possible(START, steps)
    ensures var s := Final(START, steps);
            && Ascending(s.taken + Ids(s.hall.backlog), s.received)
            && (s.worker.Holding? ==> s.worker.takenAt - s.worker.item.since <= 800_000_000)
  {
    StartHolds();
    RunKeeps(START, steps);
    var s := Final(START, steps);
    var front := s.taken + Ids(s.hall.backlog);
    assert forall i :: 0 <= i < |front| ==> front[i] == (front + s.plain.batch)[i];
  }

  // ---- What becomes of one datagram

  /** The worker holds the first waiting datagram if it has waited for 800 ms at most, and drops it otherwise. */
  lemma TakenIfFresh(s: State)
    requires s.worker.Idle? && s.hall.backlog != []
    ensures Enabled(s, Take)
    ensures var w, s' := s.hall.backlog[0], Do(s, Take);
            && s'.hall.backlog == s.hall.backlog[1..]
            && s'.hall.running == s.hall.running && s'.hall.free == s.hall.free
            && if s.now <= w.since + 800_000_000 then
                 s'.worker == Holding(w, s.now) && s'.hall.dropped == s.hall.dropped
               else s'.worker == Idle && s'.hall.dropped == s.hall.dropped + [w.id]
  {
  }

  /** What it holds runs as soon as there is a permit. */
  lemma HeldRuns(s: State)
    requires s.worker.Holding? && s.hall.free > 0
    ensures Enabled(s, StartHeld)
    ensures var s' := Do(s, StartHeld);
            && HandlerIds(s'.hall.running) == HandlerIds(s.hall.running) + [s.worker.item.id]
            && s'.hall.free == s.hall.free - 1 && s'.worker == Idle
            && s'.hall.backlog == s.hall.backlog && s'.hall.dropped == s.hall.dropped
  {
    HandlersAppend(s.hall.running, Handler(s.worker.item.id, None));
  }

  /** An obfuscated datagram runs just if it can be decoded and there is a permit; it never waits. */
  lemma ObfuscatedRunsOrNot(s: State, decodes: bool)
    requires s.obfs.Dispatching? && s.obfs.batch != []
    ensures Enabled(s, DispatchObfs(decodes))
    ensures var id, s' := s.obfs.batch[0], Do(s, DispatchObfs(decodes));
            && s'.obfs.batch == s.obfs.batch[1..] && s'.hall.backlog == s.hall.backlog
            && if decodes && s.hall.free > 0 then
                 && HandlerIds(s'.hall.running) == HandlerIds(s.hall.running) + [id]
                 && s'.hall.free == s.hall.free - 1 && s'.hall.dropped == s.hall.dropped
               else
                 && s'.hall.running == s.hall.running && s'.hall.free == s.hall.free
                 && s'.hall.dropped == s.hall.dropped + [id]
  {
    HandlersAppend(s.hall.running, Handler(s.obfs.batch[0], None));
  }

  /** A handler that ends gives its permit back and nothing else changes; what it counted stays counted. */
  lemma EndGivesBack(s: State, i: nat)
    requires i < |s.hall.running|
    ensures Enabled(s, Finish(i))
    ensures var s' := Do(s, Finish(i));
            && s'.hall.free == s.hall.free + 1 && s'.done == s.done + [s.hall.running[i]]
            && s'.hall.running == s.hall.running[..i] + s.hall.running[i + 1..]
            && s'.counts == s.counts && s'.totalReq == s.totalReq && s'.hall.backlog == s.hall.backlog
  {
  }

  // ---- A batch dispatched without interruption

  ghost function Dispatches(n: nat): seq<Step> {
    seq(n, i => Dispatch)
  }

  lemma {:induction false} AdmitAllFirst(h: Hall, batch: seq<Id>, now: nat)
    requires batch != []
    ensures AdmitAll(h, batch, now) == AdmitAll(Admit(h, batch[0], now), batch[1..], now)
    decreases |batch|
  {
    hide Admit;
    var n := |batch| - 1;
    if n == 0 {
      assert batch[..0] == [] && batch[1..] == [];
      assert AdmitAll(h, [], now) == h;
    } else {
      assert batch[..n][1..] == batch[1..][..n - 1];
      AdmitAllFirst(h, batch[..n], now);
    }
  }

  /** Then the machine does what `DispatchBatch` does. */
  lemma {:induction false} BurstIsAdmitAll(s: State)
    requires s.plain.Dispatching?
    ensures Possible(s, Dispatches(|s.plain.batch|))
    ensures s.plain.batch != [] ==>
              Final(s, Dispatches(|s.plain.batch|))
              == s.(plain := Collecting([]), hall := AdmitAll(s.hall, s.plain.batch, s.now))
    decreases |s.plain.batch|
  {
    hide Admit;
    var n := |s.plain.batch|;
    if n > 0 {
      var steps := Dispatches(n);
      assert steps[0] == Dispatch && steps[1..] == Dispatches(n - 1);
      AdmitAllFirst(s.hall, s.plain.batch, s.now);
      if n > 1 {
        BurstIsAdmitAll(Do(s, Dispatch));
      } else {
        assert Dispatches(0) == [] && s.plain.batch[1..] == [];
      }
    }
  }
}
