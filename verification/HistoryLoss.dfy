/** What `close` does not promise: whatever starts while it works may cost accepted entries. */
module HistoryLoss {
  import opened Bytes
  import opened History
  import opened HistoryFlush
  import opened HistoryProtocol
  import opened HistoryClose

  // ---- Continuations of a run, by the number of pushers and of closes that start in them

  ghost predicate Leads(s: State, steps: seq<Step>, e: State, lines: nat) {
    Possible(s, steps, lines) && Final(s, steps, lines) == e
  }

  ghost function Arrivals(steps: seq<Step>): nat {
    if steps == [] then 0 else (if steps[0].Arrive? then 1 else 0) + Arrivals(steps[1..])
  }

  ghost function Closes(steps: seq<Step>): nat {
    if steps == [] then 0 else (if steps[0].Close? then 1 else 0) + Closes(steps[1..])
  }

  /** These steps lead there, and at most so many pushers and so many closes start on the way. */
  ghost predicate Walks(s: State, steps: seq<Step>, e: State, lines: nat, pushers: nat, closes: nat) {
    Leads(s, steps, e, lines) && Arrivals(steps) <= pushers && Closes(steps) <= closes
  }

  ghost predicate Reach(s: State, e: State, lines: nat, pushers: nat, closes: nat) {
    exists steps :: Walks(s, steps, e, lines, pushers, closes)
  }

  lemma {:induction false} LeadsOn(s: State, xs: seq<Step>, mid: State, ys: seq<Step>, e: State, lines: nat)
    requires Leads(s, xs, mid, lines) && Leads(mid, ys, e, lines)
    ensures Leads(s, xs + ys, e, lines)
    ensures Arrivals(xs + ys) == Arrivals(xs) + Arrivals(ys) && Closes(xs + ys) == Closes(xs) + Closes(ys)
    decreases |xs|
  {
    hide Do, Enabled;
    if xs == [] {
      assert xs + ys == ys;
    } else {
      assert (xs + ys)[1..] == xs[1..] + ys;
      LeadsOn(Do(s, xs[0], lines), xs[1..], mid, ys, e, lines);
    }
  }

  lemma ReachOn(s: State, mid: State, e: State, lines: nat, p: nat, c: nat, p': nat, c': nat)
    requires Reach(s, mid, lines, p, c) && Reach(mid, e, lines, p', c')
    ensures Reach(s, e, lines, p + p', c + c')
  {
    hide Leads, Arrivals, Closes;
    var xs :| Walks(s, xs, mid, lines, p, c);
    var ys :| Walks(mid, ys, e, lines, p', c');
    LeadsOn(s, xs, mid, ys, e, lines);
    assert Walks(s, xs + ys, e, lines, p + p', c + c');
  }

  lemma ReachMore(s: State, e: State, lines: nat, p: nat, c: nat, p': nat, c': nat)
    requires Reach(s, e, lines, p, c) && p <= p' && c <= c'
    ensures Reach(s, e, lines, p', c')
  {
    hide Leads, Arrivals, Closes;
    var xs :| Walks(s, xs, e, lines, p, c);
    assert Walks(s, xs, e, lines, p', c');
  }

  lemma ReachHere(s: State, lines: nat)
    ensures Reach(s, s, lines, 0, 0)
  {
    assert Walks(s, [], s, lines, 0, 0);
  }

  lemma ReachBy(s: State, step: Step, lines: nat)
    requires Enabled(s, step)
    ensures Reach(s, Do(s, step, lines), lines, if step.Arrive? then 1 else 0, if step.Close? then 1 else 0)
  {
    hide Do, Enabled;
    var steps, e := [step], Do(s, step, lines);
    assert steps[0] == step && steps[1..] == [];
    assert Possible(e, steps[1..], lines) && Final(e, steps[1..], lines) == e;
    assert Arrivals(steps[1..]) == 0 && Closes(steps[1..]) == 0;
    assert Walks(s, steps, e, lines, if step.Arrive? then 1 else 0, if step.Close? then 1 else 0);
  }

  /** One more step of a flush at the end of a continuation. */
  lemma ReachNext(s: State, mid: State, step: Step, lines: nat, p: nat, c: nat)
    requires Reach(s, mid, lines, p, c) && Enabled(mid, step)
    ensures Reach(s, Do(mid, step, lines), lines, p + if step.Arrive? then 1 else 0, c + if step.Close? then 1 else 0)
  {
    hide Reach, Do, Enabled;
    ReachBy(mid, step, lines);
    ReachOn(s, mid, Do(mid, step, lines), lines, p, c, if step.Arrive? then 1 else 0, if step.Close? then 1 else 0);
  }

  // ---- States in which nothing has gone wrong yet

  ghost predicate Fine(s: State) {
    Clean(s) && FlagOk(s) && Bounded(s)
  }

  type FineState = s: State | Fine(s) ghost witness Init([])

  lemma FineStep(s: FineState, step: Step, lines: nat)
    requires Enabled(s, step) && WordStep(step)
    ensures Fine(Do(s, step, lines))
  {
    hide Clean, FlagOk, RealFlush, WordStep;
    StepKeepsClean(s, step, lines);
    StepKeepsFlag(s, step, lines);
  }

  ghost predicate BatchOmits(batch: seq<Record>, d: Text) {
    forall r <- batch :: r.domain != d
  }

  /** Neither the batch of the flush nor the file as it has read it mentions the domain. */
  ghost predicate Omits(f: Flusher, d: Text) {
    BatchOmits(Held(f), d) && (f.stage.Merging? ==> d !in Domains(ParseFile(f.stage.snapshot)))
  }

  /** Neither the file nor anything on its way to it mentions the domain. */
  ghost predicate Unmentioned(s: State, d: Text) {
    && d !in Domains(ParseFile(s.file)) && BatchOmits(s.queue, d)
    && forall f <- s.flushers :: Omits(f, d)
  }

  lemma {:induction false} NotFirstSeen(batch: seq<Record>, known: seq<Text>, d: Text)
    requires BatchOmits(batch, d)
    ensures d !in FirstSeen(batch, known)
    decreases |batch|
  {
    if batch != [] {
      assert batch[0] in batch;
      NotFirstSeen(batch[1..], if batch[0].domain in known then known else known + [batch[0].domain], d);
    }
  }

  /** A flush writes no domain that it has not read and does not bring. */
  lemma FlushOmits(content: Text, batch: seq<Record>, n: nat, d: Text)
    requires Tidy(ParseFile(content)) && WordBatch(batch)
    requires d !in Domains(ParseFile(content)) && BatchOmits(batch, d)
    ensures RealFlush(content, batch, n) == Some(FlushFile(content, batch, n))
    ensures d !in Domains(ParseFile(FlushFile(content, batch, n)))
  {
    hide ParseFile, FlushFile, RealFlush, FlushTable, FirstSeen, Tidy, BatchOmits, Domains, IpsOf, IpsFor;
    var t := ParseFile(content);
    FlushStaysTidy(content, batch, n);
    FlushKeeps(t, batch, n);
    NotFirstSeen(batch, Domains(t), d);
  }

  lemma StageOmits(fs: seq<Flusher>, f: nat, to: Flusher, d: Text)
    requires f < |fs| && (forall g <- fs :: Omits(g, d)) && Omits(to, d)
    ensures forall g <- fs[f := to] :: Omits(g, d)
  {
    hide Omits;
  }

  /** A step of a flush past the flag. */
  ghost predicate IsStepOf(step: Step, f: nat) {
    step == Pop(f) || step == Step.Drained(f) || step == ReadFile(f) || step == WriteFile(f) || step == Release(f)
  }

  lemma StepOmits(s: FineState, step: Step, f: nat, d: Text, lines: nat)
    requires Enabled(s, step) && IsStepOf(step, f) && Unmentioned(s, d)
    ensures var s' := Do(s, step, lines);
            Unmentioned(s', d) && |s'.flushers| == |s.flushers| && s'.flushers == s.flushers[f := s'.flushers[f]]
  {
    hide RealFlush, ParseFile, Tidy, FlagOk, WordRecord, Domains;
    var s' := Do(s, step, lines);
    assert s.flushers[f] in s.flushers && CleanFlusher(s.flushers[f]) && Omits(s.flushers[f], d);
    if step.WriteFile? {
      FlushOmits(s.flushers[f].stage.snapshot, s.flushers[f].stage.batch, lines, d);
    } else if step.Pop? {
      assert s.queue[0] in s.queue;
    }
    StageOmits(s.flushers, f, s'.flushers[f], d);
  }

  // ---- Getting there

  ghost function Rank(f: Flusher): nat {
    match f.stage
    case Draining(_) => 3
    case Reading(_) => 2
    case Merging(_, _) => 1
    case _ => 0
  }

  /** The next step of a flush past the flag. */
  ghost function NextStep(s: State, g: nat): Step
    requires g < |s.flushers|
  {
    match s.flushers[g].stage
    case Draining(_) => if s.queue == [] then Step.Drained(g) else Pop(g)
    case Reading(_) => ReadFile(g)
    case Merging(_, _) => WriteFile(g)
    case _ => Release(g)
  }

  /** A spawned flush may go on to its end, while the others stand still. */
  lemma {:induction false} RunOut(s: FineState, f: nat, g: nat, d: Text, lines: nat) returns (e: FineState)
    requires Unmentioned(s, d) && f < |s.flushers| && g < |s.flushers| && f != g && HoldsFlag(s.flushers[g])
    ensures Unmentioned(e, d) && !e.flushing && f < |e.flushers| && e.flushers[f] == s.flushers[f]
    ensures Reach(s, e, lines, 0, 0)
    decreases Rank(s.flushers[g]), |s.queue|
  {
    hide Clean, Unmentioned, RealFlush, Reach, Bounded;
    var step := NextStep(s, g);
    NextIsEnabled(s, g);
    var s' := Do(s, step, lines);
    FineStep(s, step, lines);
    StepOmits(s, step, g, d, lines);
    ReachBy(s, step, lines);
    if step.Release? {
      e := s';
    } else {
      NotAborted(s');
      NextGoesOn(s, g, lines);
      e := RunOut(s', f, g, d, lines);
      ReachOn(s, s', e, lines, 0, 0, 0, 0);
    }
  }

  lemma NextIsEnabled(s: FineState, g: nat)
    requires g < |s.flushers| && HoldsFlag(s.flushers[g])
    ensures Enabled(s, NextStep(s, g)) && IsStepOf(NextStep(s, g), g) && WordStep(NextStep(s, g))
  {
  }

  lemma NextGoesOn(s: State, g: nat, lines: nat)
    requires g < |s.flushers| && HoldsFlag(s.flushers[g]) && Enabled(s, NextStep(s, g)) && !NextStep(s, g).Release?
    requires !Do(s, NextStep(s, g), lines).aborted
    ensures var s' := Do(s, NextStep(s, g), lines);
            && g < |s'.flushers| && HoldsFlag(s'.flushers[g])
            && (Rank(s'.flushers[g]) < Rank(s.flushers[g])
                || (Rank(s'.flushers[g]) == Rank(s.flushers[g]) && |s'.queue| < |s.queue|))
  {
    hide RealFlush;
  }

  /** With nothing spawned or after it has run out, the flag is down. */
  lemma LowerFlag(s: FineState, f: nat, d: Text, lines: nat) returns (e: FineState)
    requires Unmentioned(s, d) && f < |s.flushers| && s.flushers[f].kind.Closing?
    ensures Unmentioned(e, d) && !e.flushing && f < |e.flushers| && e.flushers[f] == s.flushers[f]
    ensures Reach(s, e, lines, 0, 0)
  {
    hide Clean, Unmentioned, Reach, Bounded;
    if s.flushing {
      var g :| 0 <= g < |s.flushers| && HoldsFlag(s.flushers[g]);
      e := RunOut(s, f, g, d, lines);
    } else {
      e := s;
      ReachHere(s, lines);
    }
  }

  /** A draining flush may take the whole queue. */
  lemma {:induction false} DrainAll(s: FineState, g: nat, lines: nat) returns (e: FineState)
    requires g < |s.flushers| && s.flushers[g].stage.Draining?
    ensures e.queue == []
    ensures e == SetStage(s, g, Draining(s.flushers[g].stage.batch + s.queue)).(queue := [])
    ensures Reach(s, e, lines, 0, 0)
    decreases |s.queue|
  {
    hide Clean, FlagOk, Reach, Bounded;
    var b := s.flushers[g].stage.batch;
    if s.queue == [] {
      e := s;
      assert b + [] == b;
      assert s.flushers[g := s.flushers[g]] == s.flushers;
      ReachHere(s, lines);
    } else {
      assert !s.aborted by { NotAborted(s); }
      var s' := Do(s, Pop(g), lines);
      FineStep(s, Pop(g), lines);
      ReachBy(s, Pop(g), lines);
      e := DrainAll(s', g, lines);
      assert b + [s.queue[0]] + s.queue[1..] == b + s.queue;
      assert s.flushers[g := s'.flushers[g]][g := e.flushers[g]] == s.flushers[g := e.flushers[g]];
      ReachOn(s, s', e, lines, 0, 0, 0, 0);
    }
  }

  lemma NotAborted(s: State)
    requires Clean(s)
    ensures !s.aborted
  {
  }

  /** The state after one more pusher has left its entry in the queue. */
  ghost function Pushed(s: State, r: Record): State {
    s.(pushers := s.pushers + [Checking], queue := s.queue + [r], accepted := s.accepted + [r])
  }

  lemma PushOne(s: FineState, r: Record, lines: nat)
    requires |s.queue| < CAP && WordRecord(r)
    ensures Fine(Pushed(s, r)) && Reach(s, Pushed(s, r), lines, 1, 0)
  {
    hide FlagOk, Reach, WordRecord, Clean;
    NotAborted(s);
    var p := |s.pushers|;
    var s1 := Do(s, Arrive(r), lines);
    FineStep(s, Arrive(r), lines);
    NotAborted(s1);
    ReachBy(s, Arrive(r), lines);
    FineStep(s1, Offer(p), lines);
    assert s1.pushers[p := Checking] == s.pushers + [Checking];
    assert Do(s1, Offer(p), lines) == Pushed(s, r);
    ReachNext(s, s1, Offer(p), lines, 1, 0);
  }

  // ---- A close that is about to write over what comes now

  /** The flush has read the file, and what it will write does not mention the domain. */
  ghost predicate WillOmit(s: State, f: nat, d: Text) {
    f < |s.flushers| && s.flushers[f].stage.Merging? && Omits(s.flushers[f], d)
  }

  /** A working `close` may get as far as having read the file; `a` gives it something to flush if need be. */
  lemma ToMerging(s: FineState, f: nat, a: Record, d: Text, lines: nat) returns (e: FineState)
    requires Unmentioned(s, d) && !s.flushing && f < |s.flushers| && CloseWorking(s.flushers[f])
    requires WordRecord(a) && a.domain != d
    ensures !e.flushing && WillOmit(e, f, d) && Reach(s, e, lines, 1, 0)
  {
    hide Clean, FlagOk, Reach, RealFlush, Unmentioned, Bounded, Omits;
    match s.flushers[f].stage {
      case Draining(_) => e := FromDraining(s, f, a, d, lines);
      case Reading(_) =>
        e := FromReading(s, f, d, lines);
        ReachMore(s, e, lines, 0, 0, 1, 0);
      case Merging(_, _) =>
        e := s;
        assert s.flushers[f] in s.flushers && Omits(s.flushers[f], d) by { OmitsAt(s, f, d); }
        ReachHere(s, lines);
        ReachMore(s, e, lines, 0, 0, 1, 0);
    }
  }

  lemma OmitsAt(s: State, f: nat, d: Text)
    requires Unmentioned(s, d) && f < |s.flushers|
    ensures Omits(s.flushers[f], d)
  {
    assert s.flushers[f] in s.flushers;
  }

  lemma FromReading(s: FineState, f: nat, d: Text, lines: nat) returns (e: FineState)
    requires Unmentioned(s, d) && !s.flushing && f < |s.flushers| && s.flushers[f].stage.Reading?
    ensures !e.flushing && WillOmit(e, f, d) && Reach(s, e, lines, 0, 0)
  {
    hide Clean, FlagOk, Reach, RealFlush, Unmentioned, Bounded, Omits;
    NotAborted(s);
    FineStep(s, ReadFile(f), lines);
    e := Do(s, ReadFile(f), lines);
    StepOmits(s, ReadFile(f), f, d, lines);
    OmitsAt(e, f, d);
    ReachBy(s, ReadFile(f), lines);
  }

  lemma DrainOmits(s: State, g: nat, d: Text)
    requires Unmentioned(s, d) && g < |s.flushers| && s.flushers[g].stage.Draining?
    ensures Unmentioned(SetStage(s, g, Draining(s.flushers[g].stage.batch + s.queue)).(queue := []), d)
  {
    hide ParseFile, Domains;
    assert s.flushers[g] in s.flushers;
    StageOmits(s.flushers, g, s.flushers[g].(stage := Draining(s.flushers[g].stage.batch + s.queue)), d);
  }

  lemma PushOmits(s: State, r: Record, d: Text)
    requires Unmentioned(s, d) && r.domain != d
    ensures Unmentioned(Pushed(s, r), d)
  {
    hide ParseFile, Domains, Omits;
  }

  lemma FromDraining(s: FineState, f: nat, a: Record, d: Text, lines: nat) returns (e: FineState)
    requires Unmentioned(s, d) && !s.flushing && f < |s.flushers| && s.flushers[f].stage.Draining?
    requires WordRecord(a) && a.domain != d
    ensures !e.flushing && WillOmit(e, f, d) && Reach(s, e, lines, 1, 0)
  {
    hide Clean, FlagOk, Reach, RealFlush, Unmentioned, Bounded, Omits, WordRecord;
    var s1 := DrainAll(s, f, lines);
    DrainOmits(s, f, d);
    var s2 := s1;
    if s1.flushers[f].stage.batch == [] {
      PushOne(s1, a, lines);
      PushOmits(s1, a, d);
      s2 := DrainAll(Pushed(s1, a), f, lines);
      DrainOmits(Pushed(s1, a), f, d);
      ReachOn(s1, Pushed(s1, a), s2, lines, 1, 0, 0, 0);
    } else {
      ReachHere(s1, lines);
      ReachMore(s1, s1, lines, 0, 0, 1, 0);
    }
    ReachOn(s, s1, s2, lines, 0, 0, 1, 0);
    NotAborted(s2);
    var s3 := Do(s2, Step.Drained(f), lines);
    FineStep(s2, Step.Drained(f), lines);
    StepOmits(s2, Step.Drained(f), f, d, lines);
    ReachNext(s, s2, Step.Drained(f), lines, 1, 0);
    e := FromReading(s3, f, d, lines);
    ReachOn(s, s3, e, lines, 1, 0, 0, 0);
  }

  // ---- Another flush gets in between

  /** One more flush is draining, and a pusher is about to offer `x`. */
  ghost predicate Between(s: State, e: State, x: Record, p: nat, kind: Kind) {
    && e.flushers == s.flushers + [Flusher(kind, Draining([]))]
    && p < |e.pushers| && e.pushers[p] == Offering(x)
  }

  lemma StartClose(s: FineState, x: Record, lines: nat) returns (e: FineState, p: nat)
    requires !s.flushing && WordRecord(x)
    ensures Between(s, e, x, p, Closing) && Reach(s, e, lines, 1, 1)
  {
    hide Clean, FlagOk, Reach, RealFlush, Bounded, WordRecord;
    NotAborted(s);
    var g := |s.flushers|;
    var s1 := Do(s, Close, lines);
    FineStep(s, Close, lines);
    ReachBy(s, Close, lines);
    NotAborted(s1);
    var s2 := Do(s1, SeeFlag(g), lines);
    FineStep(s1, SeeFlag(g), lines);
    ReachNext(s, s1, SeeFlag(g), lines, 0, 1);
    assert s2.flushers == s.flushers + [Flusher(Closing, Draining([]))];
    NotAborted(s2);
    p := |s2.pushers|;
    FineStep(s2, Arrive(x), lines);
    e := Do(s2, Arrive(x), lines);
    ReachNext(s, s2, Arrive(x), lines, 0, 1);
  }

  /** Pushers may fill the queue. */
  lemma {:induction false} Fill(s: FineState, x: Record, lines: nat) returns (e: FineState)
    requires WordRecord(x)
    ensures |e.queue| == CAP && e.flushers == s.flushers && e.flushing == s.flushing
    ensures Reach(s, e, lines, CAP - |s.queue|, 0)
    decreases CAP - |s.queue|
  {
    hide Clean, FlagOk, Reach, WordRecord;
    if |s.queue| == CAP {
      e := s;
      ReachHere(s, lines);
    } else {
      PushOne(s, x, lines);
      e := Fill(Pushed(s, x), x, lines);
      ReachOn(s, Pushed(s, x), e, lines, 1, 0, CAP - |s.queue| - 1, 0);
    }
  }

  lemma StartSpawn(s: FineState, x: Record, lines: nat) returns (e: FineState, p: nat)
    requires !s.flushing && WordRecord(x)
    ensures Between(s, e, x, p, Spawned) && Reach(s, e, lines, CAP + 1, 0)
  {
    hide Clean, FlagOk, Reach, RealFlush, WordRecord;
    var s1 := Fill(s, x, lines);
    ReachMore(s, s1, lines, CAP - |s.queue|, 0, CAP, 0);
    NotAborted(s1);
    p := |s1.pushers|;
    var s2 := Do(s1, Arrive(x), lines);
    FineStep(s1, Arrive(x), lines);
    ReachNext(s, s1, Arrive(x), lines, CAP, 0);
    NotAborted(s2);
    var s3 := Do(s2, Offer(p), lines);
    FineStep(s2, Offer(p), lines);
    ReachNext(s, s2, Offer(p), lines, CAP + 1, 0);
    NotAborted(s3);
    FineStep(s3, TrySpawn(p), lines);
    e := Do(s3, TrySpawn(p), lines);
    ReachNext(s, s3, TrySpawn(p), lines, CAP + 1, 0);
  }

  // ---- And its entries are lost

  /** Accepted and merged by a flush that wrote the file, and yet the file does not mention its domain. */
  ghost predicate Lost(s: State, x: Record) {
    x in s.accepted && (exists b <- s.applied :: x in b) && x.domain !in Domains(ParseFile(s.file))
  }

  lemma WriteOver(s: FineState, f: nat, x: Record, lines: nat)
    requires WillOmit(s, f, x.domain)
    requires x in s.accepted && exists b <- s.applied :: x in b
    ensures var e := Do(s, WriteFile(f), lines); Lost(e, x) && Reach(s, e, lines, 0, 0)
  {
    hide FlagOk, Reach, RealFlush, ParseFile, Tidy, Domains, WordRecord, BatchOmits;
    var st := s.flushers[f].stage;
    assert s.flushers[f] in s.flushers && CleanFlusher(s.flushers[f]);
    FlushOmits(st.snapshot, st.batch, lines, x.domain);
    ReachBy(s, WriteFile(f), lines);
    assert forall b <- s.applied :: b in s.applied + [st.batch];
  }

  /** The other flush takes `x`, reads the file and writes it. */
  lemma WriteBetween(s: FineState, f: nat, g: nat, x: Record, lines: nat) returns (e: FineState)
    requires WillOmit(s, f, x.domain) && f != g && g < |s.flushers|
    requires s.flushers[g].stage.Draining? && s.queue == [x] && x in s.accepted
    ensures WillOmit(e, f, x.domain) && x in e.accepted && (exists b <- e.applied :: x in b)
    ensures Reach(s, e, lines, 0, 0)
  {
    hide Clean, FlagOk, Reach, RealFlush, Omits, Bounded;
    NotAborted(s);
    var s1 := Do(s, Pop(g), lines);
    FineStep(s, Pop(g), lines);
    ReachBy(s, Pop(g), lines);
    NotAborted(s1);
    var batch := s1.flushers[g].stage.batch;
    assert x in batch;
    var s2 := Do(s1, Step.Drained(g), lines);
    FineStep(s1, Step.Drained(g), lines);
    ReachNext(s, s1, Step.Drained(g), lines, 0, 0);
    NotAborted(s2);
    var s3 := Do(s2, ReadFile(g), lines);
    FineStep(s2, ReadFile(g), lines);
    ReachNext(s, s2, ReadFile(g), lines, 0, 0);
    NotAborted(s3);
    FineStep(s3, WriteFile(g), lines);
    e := Do(s3, WriteFile(g), lines);
    ReachNext(s, s3, WriteFile(g), lines, 0, 0);
    NotAborted(e);
    assert batch in e.applied;
  }

  lemma LoseBetween(s: FineState, f: nat, g: nat, p: nat, x: Record, lines: nat) returns (e: State)
    requires WillOmit(s, f, x.domain) && f != g && g < |s.flushers|
    requires s.flushers[g].stage.Draining? && p < |s.pushers| && s.pushers[p] == Offering(x)
    ensures Lost(e, x) && Reach(s, e, lines, 0, 0)
  {
    hide Clean, FlagOk, Reach, RealFlush, Omits, Bounded, Lost;
    var s1 := DrainAll(s, g, lines);
    NotAborted(s1);
    var s2 := Do(s1, Offer(p), lines);
    FineStep(s1, Offer(p), lines);
    assert [] + [x] == [x];
    ReachNext(s, s1, Offer(p), lines, 0, 0);
    var s3 := WriteBetween(s2, f, g, x, lines);
    ReachOn(s, s2, s3, lines, 0, 0, 0, 0);
    WriteOver(s3, f, x, lines);
    NotAborted(s3);
    e := Do(s3, WriteFile(f), lines);
    ReachOn(s, s3, e, lines, 0, 0, 0, 0);
  }

  lemma StillOmits(s: State, e: State, f: nat, d: Text, x: Record, p: nat, kind: Kind)
    requires WillOmit(s, f, d) && Between(s, e, x, p, kind)
    ensures WillOmit(e, f, d)
  {
    hide Omits;
  }

  /** A `close` that works, and two entries for other domains than those on their way to the file. */
  ghost predicate AtRisk(s: State, f: nat, a: Record, x: Record) {
    && f < |s.flushers| && CloseWorking(s.flushers[f])
    && WordRecord(a) && WordRecord(x) && a.domain != x.domain && Unmentioned(s, x.domain)
  }

  lemma Prepare(s: FineState, f: nat, a: Record, x: Record, lines: nat) returns (e: FineState)
    requires AtRisk(s, f, a, x)
    ensures !e.flushing && WillOmit(e, f, x.domain) && Reach(s, e, lines, 1, 0)
  {
    hide Fine, Unmentioned, WillOmit, Reach, WordRecord;
    var s1 := LowerFlag(s, f, x.domain, lines);
    e := ToMerging(s1, f, a, x.domain, lines);
    ReachOn(s, s1, e, lines, 0, 0, 1, 0);
  }

  /** While a `close` works, new pushers alone may cost an entry: the last of them spawns a flush. */
  lemma PushersLose(s: FineState, f: nat, a: Record, x: Record, lines: nat) returns (e: State)
    requires AtRisk(s, f, a, x)
    ensures Lost(e, x) && Reach(s, e, lines, CAP + 2, 0)
  {
    hide Fine, AtRisk, Reach, Lost, Omits, WordRecord;
    var s1 := Prepare(s, f, a, x, lines);
    assert WordRecord(x) by { RiskIsWord(s, f, a, x); }
    var s2, p := StartSpawn(s1, x, lines);
    StillOmits(s1, s2, f, x.domain, x, p, Spawned);
    e := LoseBetween(s2, f, |s1.flushers|, p, x, lines);
    ReachOn(s1, s2, e, lines, CAP + 1, 0, 0, 0);
    ReachOn(s, s1, e, lines, 1, 0, CAP + 1, 0);
  }

  /** And so may one more `close` with two pushers. */
  lemma CloseLoses(s: FineState, f: nat, a: Record, x: Record, lines: nat) returns (e: State)
    requires AtRisk(s, f, a, x)
    ensures Lost(e, x) && Reach(s, e, lines, 2, 1)
  {
    hide Fine, AtRisk, Reach, Lost, Omits, WordRecord;
    var s1 := Prepare(s, f, a, x, lines);
    assert WordRecord(x) by { RiskIsWord(s, f, a, x); }
    var s2, p := StartClose(s1, x, lines);
    StillOmits(s1, s2, f, x.domain, x, p, Closing);
    e := LoseBetween(s2, f, |s1.flushers|, p, x, lines);
    ReachOn(s1, s2, e, lines, 1, 1, 0, 0);
    ReachOn(s, s1, e, lines, 1, 0, 1, 1);
  }

  lemma RiskIsWord(s: State, f: nat, a: Record, x: Record)
    requires AtRisk(s, f, a, x)
    ensures WordRecord(x)
  {
  }

  lemma {:induction false} ReachedIsFine(file: Text, steps: seq<Step>, lines: nat)
    requires Tidy(ParseFile(file)) && Possible(Init(file), steps, lines) && WordSteps(steps)
    ensures Fine(Final(Init(file), steps, lines))
  {
    hide ParseFile, Tidy, Accounted, FlagOk;
    InitOk(file);
    RunKeeps(Init(file), steps, lines);
    assert Clean(Init(file));
    CleanRun(Init(file), steps, lines);
  }

  /**
   * The guard of quiet runs is needed: from every state of a run in which a `close` is past the flag and has not
   * written yet, new pushers alone, or one new `close` with two pushers, may go on so that an entry is accepted
   * and merged and the file does not have it.
   */
  lemma {:induction false} LateStartsCanLose(file: Text, steps: seq<Step>, lines: nat, f: nat, a: Record, x: Record)
    requires Tidy(ParseFile(file)) && Possible(Init(file), steps, lines) && WordSteps(steps)
    requires AtRisk(Final(Init(file), steps, lines), f, a, x)
    ensures var s := Final(Init(file), steps, lines);
            && (exists e :: Lost(e, x) && Reach(s, e, lines, CAP + 2, 0))
            && (exists e :: Lost(e, x) && Reach(s, e, lines, 2, 1))
  {
    hide ParseFile, Tidy, Fine, AtRisk, Reach, Lost, WordSteps;
    ReachedIsFine(file, steps, lines);
    var e := PushersLose(Final(Init(file), steps, lines), f, a, x, lines);
    var e' := CloseLoses(Final(Init(file), steps, lines), f, a, x, lines);
  }

  /** Already a single `close` is enough, when pushers go on: from any tidy file there is such a run. */
  lemma {:induction false} SingleCloseCanLose(file: Text, a: Record, x: Record, lines: nat)
    requires Tidy(ParseFile(file)) && WordRecord(a) && WordRecord(x) && a.domain != x.domain
    requires x.domain !in Domains(ParseFile(file))
    ensures exists e :: Lost(e, x) && Reach(Init(file), e, lines, CAP + 2, 1)
  {
    hide ParseFile, Tidy, Reach, Lost, WordRecord, Domains, FlagOk;
    var s := Init(file);
    InitOk(file);
    var s1 := Do(s, Close, lines);
    FineStep(s, Close, lines);
    ReachBy(s, Close, lines);
    var s2 := Do(s1, SeeFlag(0), lines);
    FineStep(s1, SeeFlag(0), lines);
    ReachNext(s, s1, SeeFlag(0), lines, 0, 1);
    var e := PushersLose(s2, 0, a, x, lines);
    ReachOn(s, s2, e, lines, 0, 1, CAP + 2, 0);
  }

  // ---- Two closes that overlap, step by step

  lemma LeadsNowhere(s: State, lines: nat)
    ensures Leads(s, [], s, lines)
  {
  }

  lemma LeadsBy(s: State, steps: seq<Step>, mid: State, step: Step, e: State, lines: nat)
    requires Leads(s, steps, mid, lines) && Enabled(mid, step) && Do(mid, step, lines) == e
    ensures Leads(s, steps + [step], e, lines)
  {
    hide Do, Enabled;
    var ys := [step];
    assert ys[0] == step && ys[1..] == [];
    assert Possible(e, ys[1..], lines) && Final(e, ys[1..], lines) == e;
    assert Leads(mid, ys, e, lines);
    LeadsOn(s, steps, mid, [step], e, lines);
  }

  /** One entry is pushed, and a `close` takes it and reads the file. */
  ghost function Taken(a: Record, p: nat, f: nat): seq<Step> {
    [Arrive(a), Offer(p), Close, SeeFlag(f), Pop(f), Step.Drained(f), ReadFile(f)]
  }

  lemma PushedOne(s: State, a: Record, lines: nat)
    requires s.queue == [] && !s.aborted
    ensures Leads(s, [Arrive(a), Offer(|s.pushers|)],
            s.(pushers := s.pushers + [Checking], queue := [a], accepted := s.accepted + [a]), lines)
  {
    var p := |s.pushers|;
    var s1 := s.(pushers := s.pushers + [Offering(a)]);
    var s2 := s.(pushers := s.pushers + [Checking], queue := [a], accepted := s.accepted + [a]);
    assert s1.pushers[p := Checking] == s2.pushers;
    assert [Arrive(a)] + [Offer(p)] == [Arrive(a), Offer(p)];
    assert [] + [Arrive(a)] == [Arrive(a)];
    LeadsBy(s, [], s, Arrive(a), s1, lines);
    LeadsBy(s, [Arrive(a)], s1, Offer(p), s2, lines);
  }

  /** The state with one more `close`, at this stage. */
  ghost function WithClose(s: State, stage: Stage): State {
    s.(flushers := s.flushers + [Flusher(Closing, stage)])
  }

  lemma StageOfLast(s: State, x: Stage, y: Stage)
    ensures SetStage(WithClose(s, x), |s.flushers|, y) == WithClose(s, y)
  {
    var fs := s.flushers + [Flusher(Closing, x)];
    assert fs[|s.flushers| := Flusher(Closing, y)] == s.flushers + [Flusher(Closing, y)];
  }

  lemma ClosePops(s: State, a: Record, lines: nat)
    requires s.queue == [a] && !s.flushing && !s.aborted
    ensures var f := |s.flushers|;
                Leads(s, [Close, SeeFlag(f), Pop(f)], WithClose(s.(queue := []), Draining([a])), lines)
  {
    hide Leads;
    var f := |s.flushers|;
    var t := s.(queue := []);
    StageOfLast(s, AwaitingFlag, Draining([]));
    StageOfLast(s, Draining([]), Draining([a]));
    assert [] + [Close] == [Close];
    assert [Close] + [SeeFlag(f)] == [Close, SeeFlag(f)];
    assert [Close, SeeFlag(f)] + [Pop(f)] == [Close, SeeFlag(f), Pop(f)];
    assert s.queue[1..] == [] && [] + [a] == [a];
    LeadsNowhere(s, lines);
    LeadsBy(s, [], s, Close, WithClose(s, AwaitingFlag), lines);
    LeadsBy(s, [Close], WithClose(s, AwaitingFlag), SeeFlag(f), WithClose(s, Draining([])), lines);
    LeadsBy(s, [Close, SeeFlag(f)], WithClose(s, Draining([])), Pop(f), WithClose(t, Draining([a])), lines);
  }

  lemma CloseReads(t: State, a: Record, lines: nat)
    requires t.queue == [] && !t.aborted
    ensures var f := |t.flushers|; Leads(WithClose(t, Draining([a])), [Step.Drained(f), ReadFile(f)],
            WithClose(t, Merging([a], t.file)), lines)
  {
    hide Leads;
    var f := |t.flushers|;
    var s := WithClose(t, Draining([a]));
    StageOfLast(t, Draining([a]), Reading([a]));
    StageOfLast(t, Reading([a]), Merging([a], t.file));
    assert [] + [Step.Drained(f)] == [Step.Drained(f)];
    assert [Step.Drained(f)] + [ReadFile(f)] == [Step.Drained(f), ReadFile(f)];
    LeadsNowhere(s, lines);
    LeadsBy(s, [], s, Step.Drained(f), WithClose(t, Reading([a])), lines);
    LeadsBy(s, [Step.Drained(f)], WithClose(t, Reading([a])), ReadFile(f), WithClose(t, Merging([a], t.file)), lines);
  }

  lemma TakenByClose(s: State, a: Record, lines: nat)
    requires s.queue == [] && !s.flushing && !s.aborted
    ensures Leads(s, Taken(a, |s.pushers|, |s.flushers|),
                  WithClose(s.(pushers := s.pushers + [Checking], accepted := s.accepted + [a]),
                      Merging([a], s.file)), lines)
  {
    hide Leads;
    var p, f := |s.pushers|, |s.flushers|;
    var mid := s.(pushers := s.pushers + [Checking], queue := [a], accepted := s.accepted + [a]);
    PushedOne(s, a, lines);
    var t := mid.(queue := []);
    ClosePops(mid, a, lines);
    CloseReads(t, a, lines);
    var x, y := [Close, SeeFlag(f), Pop(f)], [Step.Drained(f), ReadFile(f)];
    LeadsOn(s, [Arrive(a), Offer(p)], mid, x, WithClose(t, Draining([a])), lines);
    LeadsOn(s, [Arrive(a), Offer(p)] + x, WithClose(t, Draining([a])), y, WithClose(t, Merging([a], s.file)), lines);
    assert [Arrive(a), Offer(p)] + x + y == Taken(a, p, f);
    assert mid.(queue := []) == s.(pushers := s.pushers + [Checking], accepted := s.accepted + [a]);
  }

  /** Two calls of `close` that overlap: the second reads the file before the first has written it. */
  ghost function Overlap(a: Record, b: Record): seq<Step> {
    Taken(a, 0, 0) + Taken(b, 1, 1) + [WriteFile(0), WriteFile(1)]
  }

  ghost function TwoClosing(file: Text, x: Stage, y: Stage, a: Record, b: Record, applied: seq<seq<Record>>): State {
    State([], false, file, [Checking, Checking], [Flusher(Closing, x), Flusher(Closing, y)], [a, b], applied, false)
  }

  lemma BothWrite(file: Text, a: Record, b: Record, lines: nat)
    requires RealFlush(file, [a], lines).Some? && RealFlush(file, [b], lines).Some?
    ensures Leads(TwoClosing(file, Merging([a], file), Merging([b], file), a, b, []), [WriteFile(0), WriteFile(1)],
                  TwoClosing(RealFlush(file, [b], lines).value, Finished, Finished, a, b, [[a], [b]]), lines)
  {
    hide RealFlush, Leads;
    var s := TwoClosing(file, Merging([a], file), Merging([b], file), a, b, []);
    var s1 := TwoClosing(RealFlush(file, [a], lines).value, Finished, Merging([b], file), a, b, [[a]]);
    var s2 := TwoClosing(RealFlush(file, [b], lines).value, Finished, Finished, a, b, [[a], [b]]);
    LeadsNowhere(s, lines);
    assert [] + [WriteFile(0)] == [WriteFile(0)];
    assert [WriteFile(0)] + [WriteFile(1)] == [WriteFile(0), WriteFile(1)];
    assert [] + [[a]] == [[a]] && [[a]] + [[b]] == [[a], [b]];
    assert Do(s, WriteFile(0), lines).flushers == s1.flushers;
    LeadsBy(s, [], s, WriteFile(0), s1, lines);
    assert Do(s1, WriteFile(1), lines).flushers == s2.flushers;
    LeadsBy(s, [WriteFile(0)], s1, WriteFile(1), s2, lines);
  }

  ghost function OneClosing(file: Text, a: Record): State {
    State([], false, file, [Checking], [Flusher(Closing, Merging([a], file))], [a], [], false)
  }

  lemma FirstTaken(file: Text, a: Record, lines: nat)
    ensures Leads(Init(file), Taken(a, 0, 0), OneClosing(file, a), lines)
  {
    hide Taken, Leads;
    var s := Init(file);
    TakenByClose(s, a, lines);
    assert OneClosing(file, a)
        == WithClose(s.(pushers := s.pushers + [Checking], accepted := s.accepted + [a]), Merging([a], file));
  }

  lemma SecondTaken(file: Text, a: Record, b: Record, lines: nat)
    ensures Leads(OneClosing(file, a), Taken(b, 1, 1),
                  TwoClosing(file, Merging([a], file), Merging([b], file), a, b, []), lines)
  {
    hide Taken, Leads;
    var s := OneClosing(file, a);
    TakenByClose(s, b, lines);
    assert TwoClosing(file, Merging([a], file), Merging([b], file), a, b, [])
        == WithClose(s.(pushers := s.pushers + [Checking], accepted := s.accepted + [b]), Merging([b], file));
  }

  lemma OverlapLeads(file: Text, a: Record, b: Record, lines: nat)
    requires RealFlush(file, [a], lines).Some? && RealFlush(file, [b], lines).Some?
    ensures Leads(Init(file), Overlap(a, b),
                  TwoClosing(RealFlush(file, [b], lines).value, Finished, Finished, a, b, [[a], [b]]), lines)
  {
    hide RealFlush, Taken, Leads, TwoClosing;
    var s := Init(file);
    var s1 := OneClosing(file, a);
    var s2 := TwoClosing(file, Merging([a], file), Merging([b], file), a, b, []);
    var e := TwoClosing(RealFlush(file, [b], lines).value, Finished, Finished, a, b, [[a], [b]]);
    FirstTaken(file, a, lines);
    SecondTaken(file, a, b, lines);
    BothWrite(file, a, b, lines);
    LeadsOn(s, Taken(a, 0, 0), s1, Taken(b, 1, 1), s2, lines);
    LeadsOn(s, Taken(a, 0, 0) + Taken(b, 1, 1), s2, [WriteFile(0), WriteFile(1)], e, lines);
  }

  /** Then both batches count as merged, yet the file holds the second only, whatever the entries are. */
  lemma {:induction false} OverlapLosesEntries(file: Text, a: Record, b: Record, lines: nat)
    requires RealFlush(file, [a], lines).Some? && RealFlush(file, [b], lines).Some?
    ensures Possible(Init(file), Overlap(a, b), lines)
    ensures var s := Final(Init(file), Overlap(a, b), lines);
            && s.accepted == [a, b] && s.applied == [[a], [b]] && s.queue == []
            && Some(s.file) == RealFlush(file, [b], lines)
  {
    hide RealFlush, Do, Enabled, Possible, Final, Overlap;
    OverlapLeads(file, a, b, lines);
  }
}
