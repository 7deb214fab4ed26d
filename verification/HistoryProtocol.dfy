/** `HistoryBuffer` under concurrency: pushers, spawned flushes and `close`, in every interleaving. */
module HistoryProtocol {
  import opened Bytes
  import opened History
  import opened HistoryFlush

  const CAP: nat := 100

  datatype Kind = Spawned | Closing

  datatype Stage =
    | AwaitingFlag                                    // `close` until it sees the flag down
    | Draining(batch: seq<Record>)
    | Reading(batch: seq<Record>)
    | Merging(batch: seq<Record>, snapshot: Text)     // has read the file, has not written it
    | Finished                                        // written; a spawned flush still holds the flag
    | Gone

  datatype Flusher = Flusher(kind: Kind, stage: Stage)

  datatype Pusher =
    | Offering(entry: Record)    // about to push
    | Rejected(entry: Record)    // found the queue full
    | Checking                   // pushed, about to look at the length
    | Calling                    // saw the queue full, about to call for a flush
    | Left

  /**
   * `accepted` and `applied` are histories: entries taken into the queue, batches merged into the file. A panic
   * in a flush aborts the whole process.
   */
  datatype State = State(queue: seq<Record>, flushing: bool, file: Text, pushers: seq<Pusher>, flushers: seq<Flusher>,
                         accepted: seq<Record>, applied: seq<seq<Record>>, aborted: bool)

  datatype Step =
    | Arrive(entry: Record)
    | Offer(p: nat)
    | CheckLength(p: nat)
    | TrySpawn(p: nat)
    | Close
    | SeeFlag(f: nat)
    | Pop(f: nat)
    | Drained(f: nat)
    | ReadFile(f: nat)
    | WriteFile(f: nat)
    | Release(f: nat)

  ghost predicate Enabled(s: State, step: Step) {
    && !s.aborted
    && match step
       case Arrive(_) => true
       case Offer(p) => p < |s.pushers| && s.pushers[p].Offering?
       case CheckLength(p) => p < |s.pushers| && s.pushers[p].Checking?
       case TrySpawn(p) => p < |s.pushers| && (s.pushers[p].Rejected? || s.pushers[p].Calling?)
       case Close => true
       case SeeFlag(f) => f < |s.flushers| && s.flushers[f].stage.AwaitingFlag? && !s.flushing
       case Pop(f) => f < |s.flushers| && s.flushers[f].stage.Draining? && s.queue != []
       case Drained(f) => f < |s.flushers| && s.flushers[f].stage.Draining? && s.queue == []
       case ReadFile(f) => f < |s.flushers| && s.flushers[f].stage.Reading?
       case WriteFile(f) => f < |s.flushers| && s.flushers[f].stage.Merging?
       case Release(f) => f < |s.flushers| && s.flushers[f].stage.Finished?
  }

  ghost function SetPusher(s: State, p: nat, to: Pusher): State
    requires p < |s.pushers|
  {
    s.(pushers := s.pushers[p := to])
  }

  ghost function SetStage(s: State, f: nat, to: Stage): State
    requires f < |s.flushers|
  {
    s.(flushers := s.flushers[f := s.flushers[f].(stage := to)])
  }

  /** `compare_exchange(false, true)` and the spawn when it succeeds. */
  ghost function Spawn(s: State): State {
    if s.flushing then s
    else s.(flushing := true, flushers := s.flushers + [Flusher(Spawned, Draining([]))])
  }

  ghost function Do(s: State, step: Step, lines: nat): State
    requires Enabled(s, step)
  {
    match step
    case Arrive(entry) => s.(pushers := s.pushers + [Offering(entry)])
    case Offer(p) =>
      var entry := s.pushers[p].entry;
      if |s.queue| < CAP then
        SetPusher(s, p, Checking).(queue := s.queue + [entry], accepted := s.accepted + [entry])
      else SetPusher(s, p, Rejected(entry))
    case CheckLength(p) => SetPusher(s, p, if |s.queue| >= CAP then Calling else Left)
    case TrySpawn(p) => Spawn(SetPusher(s, p, if s.pushers[p].Rejected? then Offering(s.pushers[p].entry) else Left))
    case Close => s.(flushers := s.flushers + [Flusher(Closing, AwaitingFlag)])
    case SeeFlag(f) => SetStage(s, f, Draining([]))
    case Pop(f) => SetStage(s, f, Draining(s.flushers[f].stage.batch + [s.queue[0]])).(queue := s.queue[1..])
    case Drained(f) =>
      var batch := s.flushers[f].stage.batch;
      SetStage(s, f, if batch == [] then Finished else Reading(batch))
    case ReadFile(f) => SetStage(s, f, Merging(s.flushers[f].stage.batch, s.file))
    case WriteFile(f) =>
      var st := s.flushers[f].stage;
      (match RealFlush(st.snapshot, st.batch, lines)
       case None => s.(aborted := true)
       case Some(text) => SetStage(s, f, Finished).(file := text, applied := s.applied + [st.batch]))
    case Release(f) =>
      SetStage(s, f, Gone).(flushing := if s.flushers[f].kind.Spawned? then false else s.flushing)
  }

  ghost function Init(file: Text): State {
    State([], false, file, [], [], [], [], false)
  }

  ghost predicate Possible(s: State, steps: seq<Step>, lines: nat)
    decreases |steps|
  {
    steps == [] || (Enabled(s, steps[0]) && Possible(Do(s, steps[0], lines), steps[1..], lines))
  }

  ghost function Final(s: State, steps: seq<Step>, lines: nat): State
    requires Possible(s, steps, lines)
    decreases |steps|
  {
    if steps == [] then s else Final(Do(s, steps[0], lines), steps[1..], lines)
  }

  // ---- Where the accepted entries are

  /** The batch a flush holds that is not in the file yet. */
  ghost function Held(f: Flusher): seq<Record> {
    match f.stage
    case Draining(b) => b
    case Reading(b) => b
    case Merging(b, _) => b
    case _ => []
  }

  /** How often an entry occurs. */
  ghost function Count(s: seq<Record>, x: Record): nat {
    multiset(s)[x]
  }

  lemma CountAppend(a: seq<Record>, b: seq<Record>, x: Record)
    ensures Count(a + b, x) == Count(a, x) + Count(b, x)
    ensures Count([], x) == 0
  {
  }

  /** How often an entry occurs in batches that are not in the file yet. */
  ghost function HeldCount(fs: seq<Flusher>, x: Record): nat {
    if fs == [] then 0 else HeldCount(fs[..|fs| - 1], x) + Count(Held(fs[|fs| - 1]), x)
  }

  ghost function Flatten(bs: seq<seq<Record>>): seq<Record> {
    if bs == [] then [] else Flatten(bs[..|bs| - 1]) + bs[|bs| - 1]
  }

  lemma {:induction false} HeldUpdate(fs: seq<Flusher>, f: nat, to: Flusher, x: Record)
    requires f < |fs|
    ensures HeldCount(fs[f := to], x) + Count(Held(fs[f]), x) == HeldCount(fs, x) + Count(Held(to), x)
    decreases |fs|
  {
    hide Held, Count;
    var n := |fs| - 1;
    if f == n {
      assert fs[f := to][..n] == fs[..n];
    } else {
      assert fs[f := to][..n] == fs[..n][f := to];
      HeldUpdate(fs[..n], f, to, x);
    }
  }

  lemma HeldSnoc(fs: seq<Flusher>, f: Flusher, x: Record)
    ensures HeldCount(fs + [f], x) == HeldCount(fs, x) + Count(Held(f), x)
  {
    assert (fs + [f])[..|fs|] == fs;
  }

  lemma FlattenSnoc(bs: seq<seq<Record>>, b: seq<Record>)
    ensures Flatten(bs + [b]) == Flatten(bs) + b
  {
    assert (bs + [b])[..|bs|] == bs;
  }

  /** Every accepted entry is in the queue, in a batch, or merged into the file, and in one of them only. */
  ghost predicate Accounted(s: State) {
    forall x :: Balanced(s, x)
  }

  ghost predicate Balanced(s: State, x: Record) {
    Count(s.accepted, x) == Count(s.queue, x) + HeldCount(s.flushers, x) + Count(Flatten(s.applied), x)
  }

  ghost predicate HoldsFlag(f: Flusher) {
    f.kind.Spawned? && !f.stage.Gone?
  }

  /** The flag is up exactly while a spawned flush is alive, and never two are. */
  ghost predicate FlagOk(s: State) {
    && (s.flushing <==> exists f :: 0 <= f < |s.flushers| && HoldsFlag(s.flushers[f]))
    && (forall f, g :: 0 <= f < g < |s.flushers| ==> !(HoldsFlag(s.flushers[f]) && HoldsFlag(s.flushers[g])))
    && (forall f :: 0 <= f < |s.flushers| && s.flushers[f].kind.Spawned? ==> !s.flushers[f].stage.AwaitingFlag?)
  }

  ghost predicate Bounded(s: State) {
    |s.queue| <= CAP
  }

  lemma StepKeepsAccounts(s: State, step: Step, lines: nat)
    requires Accounted(s) && Bounded(s) && Enabled(s, step)
    ensures Accounted(Do(s, step, lines)) && Bounded(Do(s, step, lines))
  {
    hide Balanced, RealFlush;
    forall x
      ensures Balanced(Do(s, step, lines), x)
    {
      assert Balanced(s, x);
      StepBalances(s, step, lines, x);
    }
  }

  lemma StepBalances(s: State, step: Step, lines: nat, x: Record)
    requires Balanced(s, x) && Enabled(s, step)
    ensures Balanced(Do(s, step, lines), x)
  {
    hide HeldCount, RealFlush, Flatten, Count;
    var s' := Do(s, step, lines);
    CountAppend([], [], x);
    match step {
      case Offer(p) => CountAppend(s.queue, [s.pushers[p].entry], x); CountAppend(s.accepted, [s.pushers[p].entry], x);
      case TrySpawn(p) => HeldSnoc(s.flushers, Flusher(Spawned, Draining([])), x);
      case Close => HeldSnoc(s.flushers, Flusher(Closing, AwaitingFlag), x);
      case SeeFlag(f) => HeldUpdate(s.flushers, f, s'.flushers[f], x);
      case Pop(f) =>
        HeldUpdate(s.flushers, f, s'.flushers[f], x);
        assert s.queue == [s.queue[0]] + s.queue[1..];
        CountAppend([s.queue[0]], s.queue[1..], x);
        CountAppend(s.flushers[f].stage.batch, [s.queue[0]], x);
      case Drained(f) => HeldUpdate(s.flushers, f, s'.flushers[f], x);
      case ReadFile(f) => HeldUpdate(s.flushers, f, s'.flushers[f], x);
      case WriteFile(f) =>
        var batch := s.flushers[f].stage.batch;
        if s'.aborted { return; }
        HeldUpdate(s.flushers, f, s'.flushers[f], x);
        FlattenSnoc(s.applied, batch);
        CountAppend(Flatten(s.applied), batch, x);
      case Release(f) => HeldUpdate(s.flushers, f, s'.flushers[f], x);
      case _ =>
    }
  }

  lemma {:induction false} StepKeepsFlag(s: State, step: Step, lines: nat)
    requires FlagOk(s) && Enabled(s, step)
    ensures FlagOk(Do(s, step, lines))
  {
    hide RealFlush, FlagOk;
    var s' := Do(s, step, lines);
    if s'.aborted {
      FlagUntouched(s, s');
      return;
    }
    match step {
      case Arrive(_) => FlagUntouched(s, s');
      case Offer(_) => FlagUntouched(s, s');
      case CheckLength(_) => FlagUntouched(s, s');
      case TrySpawn(p) => SpawnKeepsFlag(s, s');
      case Close => CloseKeepsFlag(s, s');
      case Release(f) => ReleaseKeepsFlag(s, s', f);
      case _ => SameFlags(s, s');
    }
  }

  lemma FlagUntouched(s: State, s': State)
    requires FlagOk(s) && s'.flushers == s.flushers && s'.flushing == s.flushing
    ensures FlagOk(s')
  {
  }

  lemma SpawnKeepsFlag(s: State, s': State)
    requires FlagOk(s)
    requires if s.flushing then s'.flushing && s'.flushers == s.flushers
             else s'.flushing && s'.flushers == s.flushers + [Flusher(Spawned, Draining([]))]
    ensures FlagOk(s')
  {
    if !s.flushing {
      assert HoldsFlag(s'.flushers[|s.flushers|]);
    }
  }

  lemma CloseKeepsFlag(s: State, s': State)
    requires FlagOk(s) && s'.flushing == s.flushing && s'.flushers == s.flushers + [Flusher(Closing, AwaitingFlag)]
    ensures FlagOk(s')
  {
    assert forall f :: 0 <= f < |s.flushers| ==> s'.flushers[f] == s.flushers[f];
  }

  lemma ReleaseKeepsFlag(s: State, s': State, f: nat)
    requires FlagOk(s) && f < |s.flushers| && s.flushers[f].stage.Finished?
    requires s'.flushers == s.flushers[f := s.flushers[f].(stage := Gone)]
    requires s'.flushing == if s.flushers[f].kind.Spawned? then false else s.flushing
    ensures FlagOk(s')
  {
    assert forall g :: 0 <= g < |s.flushers| && g != f ==> s'.flushers[g] == s.flushers[g];
    if s.flushing && s.flushers[f].kind.Closing? {
      var g :| 0 <= g < |s.flushers| && HoldsFlag(s.flushers[g]);
      assert HoldsFlag(s'.flushers[g]);
    }
  }

  lemma SameFlags(s: State, s': State)
    requires FlagOk(s) && s'.flushing == s.flushing && |s'.flushers| == |s.flushers|
    requires exists f :: 0 <= f < |s.flushers| && s'.flushers == s.flushers[f := s'.flushers[f]]
                         && s'.flushers[f].kind == s.flushers[f].kind && !s.flushers[f].stage.Gone?
                         && !s'.flushers[f].stage.Gone? && !s'.flushers[f].stage.AwaitingFlag?
    ensures FlagOk(s')
  {
    assert forall f :: 0 <= f < |s.flushers| ==> (HoldsFlag(s'.flushers[f]) <==> HoldsFlag(s.flushers[f]));
    if s.flushing {
      var g :| 0 <= g < |s.flushers| && HoldsFlag(s.flushers[g]);
      assert HoldsFlag(s'.flushers[g]);
    }
  }

  lemma {:induction false} RunKeeps(s: State, steps: seq<Step>, lines: nat)
    requires Accounted(s) && Bounded(s) && FlagOk(s) && Possible(s, steps, lines)
    ensures var e := Final(s, steps, lines); Accounted(e) && Bounded(e) && FlagOk(e)
    decreases |steps|
  {
    hide Accounted, Bounded, FlagOk, Enabled, Do;
    if steps != [] {
      StepKeepsAccounts(s, steps[0], lines);
      StepKeepsFlag(s, steps[0], lines);
      RunKeeps(Do(s, steps[0], lines), steps[1..], lines);
    }
  }

  /** In every interleaving no entry is lost or doubled, and at most one spawned flush is alive. */
  lemma {:induction false} EntriesAreConserved(file: Text, steps: seq<Step>, lines: nat)
    requires Possible(Init(file), steps, lines)
    ensures var s := Final(Init(file), steps, lines);
            && (forall x ::
                  Count(s.accepted, x) == Count(s.queue, x) + HeldCount(s.flushers, x) + Count(Flatten(s.applied), x))
            && |s.queue| <= CAP
            && forall f, g :: 0 <= f < g < |s.flushers| ==> !(HoldsFlag(s.flushers[f]) && HoldsFlag(s.flushers[g]))
  {
    hide HeldCount, Flatten, HoldsFlag, Count;
    InitOk(file);
    RunKeeps(Init(file), steps, lines);
    var s := Final(Init(file), steps, lines);
    forall x
      ensures Count(s.accepted, x) == Count(s.queue, x) + HeldCount(s.flushers, x) + Count(Flatten(s.applied), x)
    {
      assert Balanced(s, x);
    }
  }

  lemma InitOk(file: Text)
    ensures Accounted(Init(file)) && Bounded(Init(file)) && FlagOk(Init(file))
  {
  }

  // ---- What the file holds

  /** No other flush has read the file and not written it yet. */
  ghost predicate Exclusive(s: State, step: Step) {
    step.WriteFile? ==> forall g :: 0 <= g < |s.flushers| && g != step.f ==> !s.flushers[g].stage.Merging?
  }

  ghost predicate ExclusiveRun(s: State, steps: seq<Step>, lines: nat)
    requires Possible(s, steps, lines)
    decreases |steps|
  {
    steps == [] || (Exclusive(s, steps[0]) && ExclusiveRun(Do(s, steps[0], lines), steps[1..], lines))
  }

  /** A flush that has read the file still sees it as it is, and the file is the flushes of the applied batches. */
  ghost predicate UpToDate(s: State, file: Text, lines: nat) {
    && (forall f :: 0 <= f < |s.flushers| && s.flushers[f].stage.Merging? ==> s.flushers[f].stage.snapshot == s.file)
    && FlushEach(file, s.applied, lines) == Some(s.file)
  }

  lemma StepKeepsUpToDate(s: State, step: Step, file: Text, lines: nat)
    requires UpToDate(s, file, lines) && Enabled(s, step) && Exclusive(s, step)
    ensures UpToDate(Do(s, step, lines), file, lines)
  {
    hide RealFlush, FlushEach;
    if step.WriteFile? {
      FlushEachSnoc(file, s.applied, s.flushers[step.f].stage.batch, lines);
    }
  }

  lemma {:induction false} ExclusiveRunIsUpToDate(s: State, steps: seq<Step>, file: Text, lines: nat)
    requires UpToDate(s, file, lines) && Possible(s, steps, lines) && ExclusiveRun(s, steps, lines)
    ensures UpToDate(Final(s, steps, lines), file, lines)
    decreases |steps|
  {
    hide UpToDate, Enabled, Exclusive, Do;
    if steps != [] {
      StepKeepsUpToDate(s, steps[0], file, lines);
      ExclusiveRunIsUpToDate(Do(s, steps[0], lines), steps[1..], file, lines);
    }
  }

  lemma InitUpToDate(file: Text, lines: nat)
    ensures UpToDate(Init(file), file, lines)
  {
  }

  /**
   * No update is lost in a run in which no other flush writes between a flush's reading the file and its writing
   * it: the file is the flushes of the applied batches, one after the other.
   */
  lemma {:induction false} NoLostUpdate(file: Text, steps: seq<Step>, lines: nat)
    requires Possible(Init(file), steps, lines) && ExclusiveRun(Init(file), steps, lines)
    ensures var s := Final(Init(file), steps, lines); FlushEach(file, s.applied, lines) == Some(s.file)
  {
    hide FlushEach, Init;
    InitUpToDate(file, lines);
    ExclusiveRunIsUpToDate(Init(file), steps, file, lines);
  }

  // ---- Runs from a tidy file with entries that are words

  ghost predicate WordSteps(steps: seq<Step>) {
    forall step <- steps :: WordStep(step)
  }

  ghost predicate WordStep(step: Step) {
    step.Arrive? ==> WordRecord(step.entry)
  }

  ghost predicate CleanPusher(p: Pusher) {
    p.Offering? || p.Rejected? ==> WordRecord(p.entry)
  }

  ghost predicate CleanFlusher(f: Flusher) {
    WordBatch(Held(f)) && (f.stage.Merging? ==> Tidy(ParseFile(f.stage.snapshot)))
  }

  ghost predicate Clean(s: State) {
    && !s.aborted && Tidy(ParseFile(s.file)) && WordBatch(s.queue)
    && (forall p <- s.pushers :: CleanPusher(p)) && (forall f <- s.flushers :: CleanFlusher(f))
  }

  lemma StageKeepsClean(fs: seq<Flusher>, f: nat, to: Flusher)
    requires f < |fs| && (forall g <- fs :: CleanFlusher(g)) && CleanFlusher(to)
    ensures forall g <- fs[f := to] :: CleanFlusher(g)
  {
    hide CleanFlusher;
  }

  /** What a flush writes to a clean file is clean again. */
  lemma FlusherKeepsClean(s: State, step: Step, f: nat, lines: nat)
    requires Clean(s) && Enabled(s, step)
    requires step == Pop(f) || step == Drained(f) || step == ReadFile(f) || step == WriteFile(f)
    ensures Clean(Do(s, step, lines))
  {
    hide RealFlush, ParseFile, Tidy, WordRecord;
    assert s.flushers[f] in s.flushers && CleanFlusher(s.flushers[f]);
    if step.WriteFile? {
      FlushStaysTidy(s.flushers[f].stage.snapshot, s.flushers[f].stage.batch, lines);
    } else if step.Pop? {
      assert s.queue[0] in s.queue;
    }
    StageKeepsClean(s.flushers, f, Do(s, step, lines).flushers[f]);
  }

  lemma {:induction false} StepKeepsClean(s: State, step: Step, lines: nat)
    requires Clean(s) && Enabled(s, step) && WordStep(step)
    ensures Clean(Do(s, step, lines))
  {
    hide RealFlush, ParseFile, Tidy, WordRecord;
    match step {
      case Offer(p) => assert s.pushers[p] in s.pushers;
      case TrySpawn(p) => assert s.pushers[p] in s.pushers;
      case SeeFlag(f) => StageKeepsClean(s.flushers, f, s.flushers[f].(stage := Draining([])));
      case Pop(f) => FlusherKeepsClean(s, step, f, lines);
      case Drained(f) => FlusherKeepsClean(s, step, f, lines);
      case ReadFile(f) => FlusherKeepsClean(s, step, f, lines);
      case WriteFile(f) => FlusherKeepsClean(s, step, f, lines);
      case Release(f) => StageKeepsClean(s.flushers, f, s.flushers[f].(stage := Gone));
      case _ =>
    }
  }

  lemma {:induction false} CleanRun(s: State, steps: seq<Step>, lines: nat)
    requires Clean(s) && Possible(s, steps, lines) && WordSteps(steps)
    ensures Clean(Final(s, steps, lines))
    decreases |steps|
  {
    hide Clean, Enabled, Do, WordStep;
    if steps != [] {
      assert steps[0] in steps;
      StepKeepsClean(s, steps[0], lines);
      CleanRun(Do(s, steps[0], lines), steps[1..], lines);
    }
  }

  /** From a tidy file, in every interleaving of pushers whose entries are words, no flush panics. */
  lemma {:induction false} NoFlushPanics(file: Text, steps: seq<Step>, lines: nat)
    requires Tidy(ParseFile(file)) && Possible(Init(file), steps, lines) && WordSteps(steps)
    ensures var s := Final(Init(file), steps, lines); !s.aborted && Tidy(ParseFile(s.file))
  {
    hide ParseFile, Tidy;
    CleanRun(Init(file), steps, lines);
  }

  // ---- Many flushes and one

  /** If nothing is ever trimmed, the many flushes are one flush of all entries in the order they were merged. */
  lemma {:induction false} ManyFlushesAreOne(file: Text, bs: seq<seq<Record>>, lines: nat)
    requires Tidy(ParseFile(file)) && AllWords(bs) && |MergeAll(ParseFile(file), Flatten(bs))| <= lines
    ensures FlushEach(file, bs, lines) == RealFlush(file, Flatten(bs), lines)
            == Some(FlushFile(file, Flatten(bs), lines))
    ensures WordBatch(Flatten(bs))
    decreases |bs|
  {
    assert FlushFile(file, [], lines) == file;
    hide ParseFile, FlushFile, MergeAll, Tidy, RealFlush;
    FlushOfTidy(file, Flatten(bs), lines);
    if bs == [] {
    } else {
      var n := |bs| - 1;
      var front, last := bs[..n], bs[n];
      assert last in bs;
      MergeTwice(ParseFile(file), Flatten(front), last);
      MergeGrows(MergeAll(ParseFile(file), Flatten(front)), last);
      ManyFlushesAreOne(file, front, lines);
      FileFlushTwice(file, Flatten(front), last, lines);
      FlushStaysTidy(file, Flatten(front), lines);
      FlushOfTidy(FlushFile(file, Flatten(front), lines), last, lines);
    }
  }

  lemma MergeGrows(t: Table, batch: seq<Record>)
    ensures |MergeAll(t, batch)| >= |t|
  {
    MergeBehind([], t, batch);
  }

  /** And then every entry of every applied batch is in the file. */
  lemma {:induction false} AppliedAreInFile(file: Text, bs: seq<seq<Record>>, lines: nat, r: Record)
    requires Tidy(ParseFile(file)) && AllWords(bs) && |MergeAll(ParseFile(file), Flatten(bs))| <= lines
    requires r in Flatten(bs)
    ensures FlushEach(file, bs, lines).Some?
    ensures var t := ParseFile(FlushEach(file, bs, lines).value);
            r.domain in Domains(t) && forall ip <- r.ips :: ip in IpsOf(t, r.domain)
  {
    hide ParseFile, FlushFile, MergeAll, Tidy, RealFlush, FlushEach, FirstSeen, IpsFor, IpsOf, Domains;
    var t, batch := ParseFile(file), Flatten(bs);
    ManyFlushesAreOne(file, bs, lines);
    FlushStaysTidy(file, batch, lines);
    MergeAllIs(t, batch);
    InBatch(batch, Domains(t), r);
    AddNewIs(IpsOf(t, r.domain), IpsFor(batch, r.domain));
  }

  lemma {:induction false} InBatch(batch: seq<Record>, known: seq<Text>, r: Record)
    requires r in batch
    ensures r.domain in known + FirstSeen(batch, known)
    ensures forall ip <- r.ips :: ip in IpsFor(batch, r.domain)
    decreases |batch|
  {
    var d := batch[0].domain;
    var rest := FirstSeen(batch[1..], if d in known then known else known + [d]);
    FirstSeenStep(batch, known);
    if r != batch[0] {
      InBatch(batch[1..], if d in known then known else known + [d], r);
    }
  }
}
