/** What `close` promises when nothing starts while it works: no write is lost, and everything is in order. */
module HistoryClose {
  import opened Bytes
  import opened History
  import opened HistoryFlush
  import opened HistoryProtocol

  /** Has entries to read, or has read the file and not written it yet. */
  ghost predicate Working(f: Flusher) {
    f.stage.Draining? || f.stage.Reading? || f.stage.Merging?
  }

  /** A `close` past the flag that is not done with the file. */
  ghost predicate CloseWorking(f: Flusher) {
    f.kind.Closing? && Working(f)
  }

  /** No pusher starts while a `close` works, and none runs and no `close` works when another gets past the flag. */
  ghost predicate Quiet(s: State, step: Step) {
    && (step.Arrive? || step.SeeFlag? ==> forall f <- s.flushers :: !CloseWorking(f))
    && (step.SeeFlag? ==> forall p <- s.pushers :: p.Left?)
  }

  ghost predicate QuietRun(s: State, steps: seq<Step>, lines: nat)
    requires Possible(s, steps, lines)
    decreases |steps|
  {
    steps == [] || (Quiet(s, steps[0]) && QuietRun(Do(s, steps[0], lines), steps[1..], lines))
  }

  ghost predicate PushersGone(s: State) {
    (exists f <- s.flushers :: CloseWorking(f)) ==> forall p <- s.pushers :: p.Left?
  }

  ghost predicate OneAtATime(s: State) {
    forall f, g :: 0 <= f < g < |s.flushers| ==> !(Working(s.flushers[f]) && Working(s.flushers[g]))
  }

  /** A `close` that has drained the queue leaves it empty until it is done. */
  ghost predicate Drained(s: State) {
    forall f <- s.flushers :: f.kind.Closing? && (f.stage.Reading? || f.stage.Merging?) ==> s.queue == []
  }

  ghost predicate Serial(s: State) {
    FlagOk(s) && PushersGone(s) && OneAtATime(s) && Drained(s)
  }

  lemma NoneSpawned(s: State)
    requires FlagOk(s) && !s.flushing
    ensures forall f <- s.flushers :: f.kind.Spawned? ==> f.stage.Gone?
  {
    forall f <- s.flushers
      ensures f.kind.Spawned? ==> f.stage.Gone?
    {
      var i :| 0 <= i < |s.flushers| && s.flushers[i] == f;
    }
  }

  lemma PusherKeepsSerial(s: State, step: Step, lines: nat)
    requires Serial(s) && Enabled(s, step) && Quiet(s, step)
    requires step.Arrive? || step.Offer? || step.CheckLength?
    ensures Serial(Do(s, step, lines))
  {
    hide FlagOk;
    FlagUntouched(s, Do(s, step, lines));
    if !step.Arrive? {
      assert s.pushers[step.p] in s.pushers;
      assert forall f <- s.flushers :: !CloseWorking(f);
    }
  }

  lemma SpawnKeepsSerial(s: State, p: nat, lines: nat)
    requires Serial(s) && Enabled(s, TrySpawn(p))
    ensures Serial(Do(s, TrySpawn(p), lines))
  {
    hide FlagOk;
    assert s.pushers[p] in s.pushers;
    assert forall f <- s.flushers :: !CloseWorking(f);
    SpawnKeepsFlag(s, Do(s, TrySpawn(p), lines));
    if !s.flushing {
      NoneSpawned(s);
      forall g | 0 <= g < |s.flushers|
        ensures !Working(s.flushers[g])
      {
        assert s.flushers[g] in s.flushers;
      }
    }
  }

  lemma CloseKeepsSerial(s: State, lines: nat)
    requires Serial(s) && Enabled(s, Close)
    ensures Serial(Do(s, Close, lines))
  {
    hide FlagOk;
    var s' := Do(s, Close, lines);
    CloseKeepsFlag(s, s');
    assert forall f <- s'.flushers :: f in s.flushers || f == Flusher(Closing, AwaitingFlag);
  }

  lemma SeeFlagKeepsSerial(s: State, f: nat, lines: nat)
    requires Serial(s) && Enabled(s, SeeFlag(f)) && Quiet(s, SeeFlag(f))
    ensures Serial(Do(s, SeeFlag(f), lines))
  {
    var s' := Do(s, SeeFlag(f), lines);
    NoneSpawned(s);
    SameFlags(s, s');
    forall g | 0 <= g < |s.flushers|
      ensures !Working(s.flushers[g])
    {
      assert s.flushers[g] in s.flushers;
    }
  }

  lemma OthersIdle(s: State, f: nat)
    requires OneAtATime(s) && f < |s.flushers| && Working(s.flushers[f])
    ensures forall g :: 0 <= g < |s.flushers| && g != f ==> !Working(s.flushers[g])
  {
  }

  /** A flusher that goes on or stops working makes no other one work. */
  lemma StageKeepsPushers(s: State, s': State, f: nat)
    requires PushersGone(s) && f < |s.flushers| == |s'.flushers| && s'.pushers == s.pushers
    requires s'.flushers == s.flushers[f := s'.flushers[f]]
    requires CloseWorking(s'.flushers[f]) ==> CloseWorking(s.flushers[f])
    ensures PushersGone(s')
  {
    if exists g <- s'.flushers :: CloseWorking(g) {
      var g :| g in s'.flushers && CloseWorking(g);
      var i :| 0 <= i < |s'.flushers| && s'.flushers[i] == g;
      assert s.flushers[i] in s.flushers && CloseWorking(s.flushers[i]);
    }
  }

  /** Steps of a flush past the flag. */
  lemma FlushKeepsSerial(s: State, step: Step, f: nat, lines: nat)
    requires Serial(s) && Enabled(s, step)
    requires step == Pop(f) || step == Step.Drained(f) || step == ReadFile(f) || step == WriteFile(f)
            || step == Release(f)
    ensures Serial(Do(s, step, lines))
  {
    hide FlagOk, RealFlush;
    var s' := Do(s, step, lines);
    StepKeepsFlag(s, step, lines);
    if s'.aborted {
      return;
    }
    assert s'.flushers == s.flushers[f := s'.flushers[f]];
    StageKeepsPushers(s, s', f);
    if !step.Release? {
      OthersIdle(s, f);
    }
    forall g | 0 <= g < |s'.flushers|
      ensures var x := s'.flushers[g]; x.kind.Closing? && (x.stage.Reading? || x.stage.Merging?) ==> s'.queue == []
    {
      assert s.flushers[g] in s.flushers;
    }
  }

  lemma StepKeepsSerial(s: State, step: Step, lines: nat)
    requires Serial(s) && Enabled(s, step) && Quiet(s, step)
    ensures Serial(Do(s, step, lines))
  {
    hide Serial, Enabled, Quiet, Do;
    match step
    case Arrive(_) => PusherKeepsSerial(s, step, lines);
    case Offer(_) => PusherKeepsSerial(s, step, lines);
    case CheckLength(_) => PusherKeepsSerial(s, step, lines);
    case TrySpawn(p) => SpawnKeepsSerial(s, p, lines);
    case Close => CloseKeepsSerial(s, lines);
    case SeeFlag(f) => SeeFlagKeepsSerial(s, f, lines);
    case Pop(f) => FlushKeepsSerial(s, step, f, lines);
    case Drained(f) => FlushKeepsSerial(s, step, f, lines);
    case ReadFile(f) => FlushKeepsSerial(s, step, f, lines);
    case WriteFile(f) => FlushKeepsSerial(s, step, f, lines);
    case Release(f) => FlushKeepsSerial(s, step, f, lines);
  }

  lemma SerialIsExclusive(s: State, step: Step)
    requires Serial(s) && Enabled(s, step)
    ensures Exclusive(s, step)
  {
    if step.WriteFile? {
      OthersIdle(s, step.f);
    }
  }

  lemma {:induction false} QuietFrom(s: State, steps: seq<Step>, lines: nat)
    requires Serial(s) && Possible(s, steps, lines) && QuietRun(s, steps, lines)
    ensures Serial(Final(s, steps, lines)) && ExclusiveRun(s, steps, lines)
    decreases |steps|
  {
    hide Serial, Enabled, Quiet, Do, Exclusive;
    if steps != [] {
      SerialIsExclusive(s, steps[0]);
      StepKeepsSerial(s, steps[0], lines);
      QuietFrom(Do(s, steps[0], lines), steps[1..], lines);
    }
  }

  lemma InitSerial(file: Text)
    ensures Serial(Init(file))
  {
  }

  /** In a quiet run flushes take turns with the file, so no update is lost. */
  lemma {:induction false} QuietIsExclusive(file: Text, steps: seq<Step>, lines: nat)
    requires Possible(Init(file), steps, lines) && QuietRun(Init(file), steps, lines)
    ensures ExclusiveRun(Init(file), steps, lines)
    ensures var s := Final(Init(file), steps, lines); FlushEach(file, s.applied, lines) == Some(s.file)
  {
    hide Serial, Init, FlushEach;
    InitSerial(file);
    QuietFrom(Init(file), steps, lines);
    NoLostUpdate(file, steps, lines);
  }

  // ---- Order

  /** Everything flushes hold. */
  ghost function HeldNow(fs: seq<Flusher>): seq<Record> {
    if fs == [] then [] else HeldNow(fs[..|fs| - 1]) + Held(fs[|fs| - 1])
  }

  lemma HeldNowSnoc(fs: seq<Flusher>, f: Flusher)
    ensures HeldNow(fs + [f]) == HeldNow(fs) + Held(f)
  {
    assert (fs + [f])[..|fs|] == fs;
  }

  lemma {:induction false} HeldByNone(fs: seq<Flusher>)
    requires forall g :: 0 <= g < |fs| ==> Held(fs[g]) == []
    ensures HeldNow(fs) == []
  {
    hide Held;
    if fs != [] {
      HeldByNone(fs[..|fs| - 1]);
    }
  }

  lemma {:induction false} HeldByOne(fs: seq<Flusher>, f: nat)
    requires f < |fs| && forall g :: 0 <= g < |fs| && g != f ==> Held(fs[g]) == []
    ensures HeldNow(fs) == Held(fs[f])
  {
    hide Held;
    var n := |fs| - 1;
    if f == n {
      HeldByNone(fs[..n]);
    } else {
      HeldByOne(fs[..n], f);
    }
  }

  lemma {:induction false} HeldTheSame(fs: seq<Flusher>, f: nat, to: Flusher)
    requires f < |fs| && Held(to) == Held(fs[f])
    ensures HeldNow(fs[f := to]) == HeldNow(fs)
  {
    hide Held;
    var n := |fs| - 1;
    if f == n {
      assert fs[f := to][..n] == fs[..n];
    } else {
      assert fs[f := to][..n] == fs[..n][f := to];
      HeldTheSame(fs[..n], f, to);
    }
  }

  /** The entries are merged, held and queued in the order in which they were accepted. */
  ghost predicate InSequence(s: State) {
    s.accepted == Flatten(s.applied) + HeldNow(s.flushers) + s.queue
  }

  lemma OnlyHolder(s: State, f: nat, to: Flusher)
    requires OneAtATime(s) && f < |s.flushers| && Working(s.flushers[f])
    ensures HeldNow(s.flushers) == Held(s.flushers[f])
    ensures HeldNow(s.flushers[f := to]) == Held(to)
  {
    OthersIdle(s, f);
    HeldByOne(s.flushers[f := to], f);
    HeldByOne(s.flushers, f);
  }

  lemma Regroup(a: seq<Record>, b: seq<Record>, c: seq<Record>, d: seq<Record>)
    ensures a + (b + c) + d == a + b + (c + d)
    ensures a + b + c == a + (b + c)
  {
  }

  lemma PopKeepsSequence(s: State, f: nat, lines: nat)
    requires OneAtATime(s) && Enabled(s, Pop(f)) && InSequence(s)
    ensures InSequence(Do(s, Pop(f), lines))
  {
    hide HeldNow, Flatten, OneAtATime;
    var s' := Do(s, Pop(f), lines);
    OnlyHolder(s, f, s'.flushers[f]);
    assert s'.flushers == s.flushers[f := s'.flushers[f]];
    assert s.queue == [s.queue[0]] + s.queue[1..];
    Regroup(Flatten(s.applied), s.flushers[f].stage.batch, [s.queue[0]], s.queue[1..]);
  }

  /** The batch of the only flush at work goes behind the applied ones. */
  lemma WriteKeepsSequence(s: State, s': State, f: nat)
    requires OneAtATime(s) && InSequence(s) && f < |s.flushers| && s.flushers[f].stage.Merging?
    requires s'.flushers == s.flushers[f := s.flushers[f].(stage := Finished)] && s'.accepted == s.accepted
    requires s'.queue == s.queue && s'.applied == s.applied + [s.flushers[f].stage.batch]
    ensures InSequence(s')
  {
    hide HeldNow, Flatten, OneAtATime;
    var batch := s.flushers[f].stage.batch;
    OnlyHolder(s, f, s'.flushers[f]);
    FlattenSnoc(s.applied, batch);
    assert HeldNow(s'.flushers) == [] && Flatten(s'.applied) == Flatten(s.applied) + batch;
    Regroup(Flatten(s.applied), batch, [], s.queue);
  }

  lemma StepKeepsSequence(s: State, step: Step, lines: nat)
    requires OneAtATime(s) && Enabled(s, step) && InSequence(s)
    ensures InSequence(Do(s, step, lines))
  {
    hide HeldNow, Flatten, RealFlush, OneAtATime;
    var s' := Do(s, step, lines);
    match step {
      case TrySpawn(p) => HeldNowSnoc(s.flushers, Flusher(Spawned, Draining([])));
      case Close => HeldNowSnoc(s.flushers, Flusher(Closing, AwaitingFlag));
      case SeeFlag(f) => HeldTheSame(s.flushers, f, s'.flushers[f]);
      case Pop(f) => PopKeepsSequence(s, f, lines);
      case Drained(f) => HeldTheSame(s.flushers, f, s'.flushers[f]);
      case ReadFile(f) => HeldTheSame(s.flushers, f, s'.flushers[f]);
      case WriteFile(f) => if !s'.aborted { WriteKeepsSequence(s, s', f); }
      case Release(f) => HeldTheSame(s.flushers, f, s'.flushers[f]);
      case _ =>
    }
  }

  lemma {:induction false} QuietInSequence(s: State, steps: seq<Step>, lines: nat)
    requires Serial(s) && InSequence(s) && Possible(s, steps, lines) && QuietRun(s, steps, lines)
    ensures InSequence(Final(s, steps, lines))
    decreases |steps|
  {
    hide OneAtATime, FlagOk, PushersGone, Drained, InSequence, Enabled, Quiet, Do;
    if steps != [] {
      StepKeepsSerial(s, steps[0], lines);
      StepKeepsSequence(s, steps[0], lines);
      QuietInSequence(Do(s, steps[0], lines), steps[1..], lines);
    }
  }

  lemma StartsInSequence(file: Text)
    ensures InSequence(Init(file))
  {
  }

  // ---- The end of a `close`

  /** `step` is the one with which the `close` `f` is done: it found nothing to flush, or it wrote the file. */
  ghost predicate EndsClose(s: State, step: Step, f: nat, lines: nat) {
    && Enabled(s, step) && (step == Step.Drained(f) || step == WriteFile(f)) && s.flushers[f].kind.Closing?
    && Do(s, step, lines).flushers[f].stage.Finished?
  }

  lemma ClosedIsEmpty(s: State, step: Step, f: nat, lines: nat)
    requires Serial(s) && EndsClose(s, step, f, lines)
    ensures var e := Do(s, step, lines); e.queue == [] && HeldNow(e.flushers) == []
  {
    hide FlagOk, RealFlush, HeldNow;
    var e := Do(s, step, lines);
    assert s.flushers[f] in s.flushers;
    OnlyHolder(s, f, e.flushers[f]);
    assert e.flushers == s.flushers[f := e.flushers[f]];
  }

  /**
   * In a quiet run, when a `close` is done the queue is empty, the batches merged are what was accepted, in order
   * of acceptance, and the file is the flushes of these batches.
   */
  lemma {:induction false} CloseLeavesNothing(file: Text, steps: seq<Step>, step: Step, f: nat, lines: nat)
    requires Possible(Init(file), steps, lines) && QuietRun(Init(file), steps, lines)
    requires EndsClose(Final(Init(file), steps, lines), step, f, lines)
    ensures var e := Do(Final(Init(file), steps, lines), step, lines);
            && e.queue == [] && Flatten(e.applied) == e.accepted
            && FlushEach(file, e.applied, lines) == Some(e.file)
  {
    hide OneAtATime, FlagOk, PushersGone, Drained, FlushEach, Flatten, HeldNow, Init, Do, Enabled, Quiet;
    var s := Final(Init(file), steps, lines);
    var e := Do(s, step, lines);
    InitSerial(file);
    StartsInSequence(file);
    QuietFrom(Init(file), steps, lines);
    QuietInSequence(Init(file), steps, lines);
    ClosedIsEmpty(s, step, f, lines);
    StepKeepsSequence(s, step, lines);
    LastStepIsExclusive(file, s, steps, step, lines);
  }

  lemma LastStepIsExclusive(file: Text, s: State, steps: seq<Step>, step: Step, lines: nat)
    requires Possible(Init(file), steps, lines) && ExclusiveRun(Init(file), steps, lines)
    requires s == Final(Init(file), steps, lines) && Serial(s) && Enabled(s, step)
    ensures FlushEach(file, Do(s, step, lines).applied, lines) == Some(Do(s, step, lines).file)
  {
    hide Serial, FlushEach, Init, Do, Enabled;
    InitUpToDate(file, lines);
    ExclusiveRunIsUpToDate(Init(file), steps, file, lines);
    SerialIsExclusive(s, step);
    StepKeepsUpToDate(s, step, file, lines);
  }

  lemma {:induction false} InFlatten(bs: seq<seq<Record>>)
    requires WordBatch(Flatten(bs))
    ensures AllWords(bs)
  {
    hide WordRecord;
    if bs != [] {
      var n := |bs| - 1;
      var front, last := Flatten(bs[..n]), bs[n];
      assert forall r <- front :: r in front + last;
      assert forall r <- last :: r in front + last;
      InFlatten(bs[..n]);
      assert bs == bs[..n] + [last];
    }
  }

  /**
   * If moreover the file was tidy, the entries are words and nothing had to be trimmed, the file is one flush of
   * all that was accepted, wherever the boundaries between the batches were.
   */
  lemma {:induction false} CloseWritesAllInOrder(file: Text, steps: seq<Step>, step: Step, f: nat, lines: nat)
    requires Possible(Init(file), steps, lines) && QuietRun(Init(file), steps, lines)
    requires EndsClose(Final(Init(file), steps, lines), step, f, lines)
    requires var e := Do(Final(Init(file), steps, lines), step, lines);
             && Tidy(ParseFile(file)) && WordBatch(e.accepted)
             && |MergeAll(ParseFile(file), e.accepted)| <= lines
    ensures var e := Do(Final(Init(file), steps, lines), step, lines);
            Some(e.file) == RealFlush(file, e.accepted, lines) == Some(FlushFile(file, e.accepted, lines))
  {
    hide Do, Enabled, FlushEach, FlushFile, RealFlush, ParseFile, MergeAll, WordBatch, Flatten, Tidy, AllWords;
    CloseLeavesNothing(file, steps, step, f, lines);
    var e := Do(Final(Init(file), steps, lines), step, lines);
    InFlatten(e.applied);
    ManyFlushesAreOne(file, e.applied, lines);
  }
}
