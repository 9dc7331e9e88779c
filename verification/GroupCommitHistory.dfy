/** What the log of a group-commit run shows: which flush made a ticket durable, and how a
    run ends (crates/alt-cli/src/group_commit.rs). */
module GroupCommitHistory {
  import opened GroupCommit

  // ---- evidence in the log ----

  /** Positions in the log: the ticket was taken, `leader` started a flush and ended it. */
  datatype Flush = Flush(started: nat, ended: nat, leader: nat, covered: nat)

  ghost predicate Succeeded(log: seq<Event>, f: Flush) {
    && f.started < f.ended < |log|
    && log[f.started] == FlushStarted(f.leader, f.covered)
    && log[f.ended] == FlushEnded(f.leader, Ok)
  }

  /** Caller `i` took ticket `t` at position `a`. */
  predicate Took(log: seq<Event>, i: int, t: int, a: int) {
    0 <= a < |log| && log[a].TookTicket? && log[a].who == i && log[a].ticket == t
  }

  /** Caller `j` started a flush that covers `c` at position `f`. */
  predicate Started(log: seq<Event>, j: int, c: int, f: int) {
    0 <= f < |log| && log[f].FlushStarted? && log[f].who == j && log[f].covered == c
  }

  /** A flush that started after caller `i` had its ticket, and succeeded, is over before `k`. */
  ghost predicate DurableBefore(log: seq<Event>, i: int, k: int) {
    exists a, t, f: Flush :: Took(log, i, t, a) && Succeeded(log, f) && a < f.started && t <= f.covered && f.ended < k
  }

  // ---- the invariant on the log ----

  /** A flush covers exactly the tickets that were taken before it started. */
  ghost predicate TicketOrder(s: State) {
    && (forall i, t, a :: Took(s.log, i, t, a) ==> 1 <= t <= s.g.nextTicket)
    && (forall j, c, f :: Started(s.log, j, c, f) ==> c <= s.g.nextTicket)
    && (forall i, t, a, j, c, f :: Took(s.log, i, t, a) && Started(s.log, j, c, f) ==> (a < f <==> t <= c))
  }

  /** The callers' tickets and flushes are in the log, and each caller starts at most one flush. */
  ghost predicate CallersLogged(s: State) {
    && (forall i :: 0 <= i < |s.callers| && s.callers[i].phase != Idle ==>
          exists a :: Took(s.log, i, s.callers[i].ticket, a))
    && (forall i :: 0 <= i < |s.callers| && s.callers[i].phase.Flushing? ==>
          exists f :: Started(s.log, i, s.callers[i].phase.covered, f))
    && (forall j, c, f :: Started(s.log, j, c, f) ==> 0 <= j < |s.callers| && s.callers[j].led)
    && (forall j, c, f, c', f' :: Started(s.log, j, c, f) && Started(s.log, j, c', f') ==> f == f')
  }

  /** `durable` is the coverage of a flush that succeeded, and of none more. */
  ghost predicate DurableLogged(s: State) {
    && (s.g.durable > 0 ==> exists f :: Succeeded(s.log, f) && f.covered == s.g.durable)
    && (forall f :: Succeeded(s.log, f) ==> f.covered <= s.g.durable)
  }

  /** Every flush covers more than every flush that had succeeded before it started. */
  ghost predicate CoverageGrows(log: seq<Event>) {
    forall f, j, c, k :: Succeeded(log, f) && Started(log, j, c, k) && f.ended < k ==> f.covered < c
  }

  ghost predicate OkJustified(log: seq<Event>) {
    forall k :: 0 <= k < |log| && log[k].Returned? && log[k].outcome == Ok ==> DurableBefore(log, log[k].who, k)
  }

  ghost predicate Hist(s: State) {
    TicketOrder(s) && CallersLogged(s) && DurableLogged(s) && CoverageGrows(s.log) && OkJustified(s.log)
  }

  lemma OldEvidence(log: seq<Event>, e: Event)
    ensures forall i, t, a :: Took(log, i, t, a) ==> Took(log + [e], i, t, a)
    ensures forall i, c, f :: Started(log, i, c, f) ==> Started(log + [e], i, c, f)
    ensures forall f :: Succeeded(log, f) ==> Succeeded(log + [e], f)
    ensures forall i, k :: k <= |log| && DurableBefore(log, i, k) ==> DurableBefore(log + [e], i, k)
  {
    forall i, k | k <= |log| && DurableBefore(log, i, k)
      ensures DurableBefore(log + [e], i, k)
    {
      var a, t, f :| Took(log, i, t, a) && Succeeded(log, f) && a < f.started && t <= f.covered && f.ended < k;
      assert Took(log + [e], i, t, a) && Succeeded(log + [e], f);
    }
  }

  lemma NewEvidence(log: seq<Event>, e: Event)
    ensures forall i, t, a :: Took(log + [e], i, t, a) ==> Took(log, i, t, a) || (a == |log| && e == TookTicket(i, t))
    ensures forall i, c, f :: Started(log + [e], i, c, f) ==> Started(log, i, c, f) || (f == |log| && e == FlushStarted(i, c))
    ensures forall f :: Succeeded(log + [e], f) ==>
              Succeeded(log, f) || (f.ended == |log| && e == FlushEnded(f.leader, Ok) && Started(log, f.leader, f.covered, f.started))
  {
  }

  lemma OldJustified(log: seq<Event>, e: Event)
    requires OkJustified(log)
    requires e.Returned? && e.outcome == Ok ==> DurableBefore(log, e.who, |log|)
    ensures OkJustified(log + [e])
  {
    OldEvidence(log, e);
    hide DurableBefore;
    forall k | 0 <= k < |log + [e]| && (log + [e])[k].Returned? && (log + [e])[k].outcome == Ok
      ensures DurableBefore(log + [e], (log + [e])[k].who, k)
    {
      if k < |log| {
        assert log[k] == (log + [e])[k];
      }
    }
  }

  /** Taking a ticket. */
  lemma TakeKeepsHist(s: State, i: nat)
    requires Inv(s) && Hist(s) && Enabled(s, TakeTicket(i))
    ensures Hist(DoTake(s, i))
  {
    var t := DoTake(s, i);
    var e := TookTicket(i, t.g.nextTicket);
    OldEvidence(s.log, e);
    NewEvidence(s.log, e);
    OldJustified(s.log, e);
    hide Inv, OkJustified, Succeeded, DurableBefore;
    assert Took(t.log, i, t.g.nextTicket, |s.log|);
    hide Took, Started;
    TakeKeepsCallersLogged(s, i);
  }

  lemma TakeKeepsCallersLogged(s: State, i: nat)
    requires CallersOk(s) && CallersLogged(s) && Enabled(s, TakeTicket(i))
    ensures CallersLogged(DoTake(s, i))
  {
    var t := DoTake(s, i);
    var e := TookTicket(i, t.g.nextTicket);
    OldEvidence(s.log, e);
    NewEvidence(s.log, e);
    assert Took(t.log, i, t.g.nextTicket, |s.log|);
    hide Took, Started;
    assert CallerOk(s.g, s.callers[i]);
  }

  /** Waking up changes no field and no log. */
  lemma PhaseKeepsHist(s: State, i: nat, phase: Phase)
    requires Hist(s) && i < |s.callers| && s.callers[i].phase != Idle && !phase.Flushing?
    ensures Hist(SetPhase(s, i, phase))
  {
    hide Took, Started, Succeeded, DurableBefore;
  }

  /** Waiting, for a caller that is awake. */
  lemma WaitKeepsHist(s: State, i: nat)
    requires Hist(s) && Enabled(s, LookAgain(i))
    ensures Hist(SetPhase(s, i, Asleep))
  {
    PhaseKeepsHist(s, i, Asleep);
  }

  /** Returning Ok: the flush that made `durable` what it is started after the ticket was taken. */
  lemma ReturnOkJustified(s: State, i: nat)
    requires Hist(s) && i < |s.callers| && s.callers[i].phase != Idle
    requires 1 <= s.callers[i].ticket <= s.g.durable
    ensures DurableBefore(s.log, i, |s.log|)
  {
    var f :| Succeeded(s.log, f) && f.covered == s.g.durable;
    var a :| Took(s.log, i, s.callers[i].ticket, a);
    assert Started(s.log, f.leader, f.covered, f.started);
  }

  lemma ReturnKeepsHist(s: State, i: nat, o: Outcome)
    requires Hist(s) && i < |s.callers| && s.callers[i].phase != Idle
    requires o == Ok ==> DurableBefore(s.log, i, |s.log|)
    ensures Hist(Logged(SetPhase(s, i, Done(o)), Returned(i, o)))
  {
    var e := Returned(i, o);
    PhaseKeepsHist(s, i, Done(o));
    OldEvidence(s.log, e);
    NewEvidence(s.log, e);
    OldJustified(s.log, e);
    hide Took, Started, Succeeded, DurableBefore, OkJustified;
  }

  /** Becoming the leader: the flush covers every ticket taken so far, and more than any
      flush that has succeeded. */
  lemma LeadKeepsHist(s: State, i: nat)
    requires Hist(s) && Enabled(s, LookAgain(i)) && CallersOk(s)
    requires Decide(s.g, s.callers[i].ticket, s.callers[i].led) == Lead(s.g.nextTicket)
    ensures Hist(DoLook(s, i))
  {
    var e := FlushStarted(i, s.g.nextTicket);
    var t := DoLook(s, i);
    OldEvidence(s.log, e);
    NewEvidence(s.log, e);
    OldJustified(s.log, e);
    assert Started(t.log, i, s.g.nextTicket, |s.log|);
    assert CallerOk(s.g, s.callers[i]);
    LeadKeepsOrder(s, i);
    LeadKeepsCoverage(s, i);
    hide Took, Started, Succeeded, DurableBefore, OkJustified, TicketOrder, CoverageGrows;
  }

  lemma LeadKeepsOrder(s: State, i: nat)
    requires TicketOrder(s)
    ensures TicketOrder(State(s.g, s.callers, s.log + [FlushStarted(i, s.g.nextTicket)]))
  {
    var e := FlushStarted(i, s.g.nextTicket);
    NewEvidence(s.log, e);
  }

  lemma LeadKeepsCoverage(s: State, i: nat)
    requires Hist(s) && s.g.durable < s.g.nextTicket
    ensures CoverageGrows(s.log + [FlushStarted(i, s.g.nextTicket)])
  {
    var e := FlushStarted(i, s.g.nextTicket);
    NewEvidence(s.log, e);
    hide Took, Started, Succeeded;
  }

  lemma LookKeepsHist(s: State, i: nat)
    requires Hist(s) && Inv(s) && Enabled(s, LookAgain(i))
    ensures Hist(DoLook(s, i))
  {
    var c := s.callers[i];
    assert CallerOk(s.g, c);
    match Decide(s.g, c.ticket, c.led)
    case Return(o) =>
      ReturnOkJustified(s, i);
      ReturnKeepsHist(s, i, o);
    case Wait => WaitKeepsHist(s, i);
    case Lead(covered) => LeadKeepsHist(s, i);
  }

  /** The leader's record of its flush, before it looks at the fields again. */
  function Recorded(s: State, i: nat, outcome: Outcome): State
    requires i < |s.callers| && s.callers[i].phase.Flushing?
  {
    var g := Finished(s.g, s.callers[i].phase.covered, outcome);
    Logged(s.(g := g, callers := NotifyAll(s.callers)), FlushEnded(i, outcome))
  }

  lemma RecordKeepsHist(s: State, i: nat, outcome: Outcome)
    requires Hist(s) && Inv(s) && Enabled(s, FinishFlush(i, outcome))
    ensures Hist(Recorded(s, i, outcome))
  {
    var e := FlushEnded(i, outcome);
    OldEvidence(s.log, e);
    NewEvidence(s.log, e);
    OldJustified(s.log, e);
    RecordKeepsDurable(s, i, outcome);
    RecordKeepsCoverage(s, i, outcome);
    hide Took, Started, Succeeded, DurableBefore, OkJustified, DurableLogged, CoverageGrows;
  }

  /** A success raises `durable` to what the flush covers. */
  lemma RecordKeepsDurable(s: State, i: nat, outcome: Outcome)
    requires Hist(s) && CallersOk(s) && Enabled(s, FinishFlush(i, outcome))
    ensures DurableLogged(Recorded(s, i, outcome))
  {
    var e := FlushEnded(i, outcome);
    var c := s.callers[i].phase.covered;
    assert CallerOk(s.g, s.callers[i]);
    OldEvidence(s.log, e);
    NewEvidence(s.log, e);
    var f :| Started(s.log, i, c, f);
    if outcome == Ok {
      assert Succeeded(s.log + [e], Flush(f, |s.log|, i, c));
    }
    hide Took, Started, Succeeded;
  }

  lemma RecordKeepsCoverage(s: State, i: nat, outcome: Outcome)
    requires Hist(s)
    ensures CoverageGrows(s.log + [FlushEnded(i, outcome)])
  {
    NewEvidence(s.log, FlushEnded(i, outcome));
    assert forall j, c, k :: Started(s.log, j, c, k) ==> k < |s.log|;
    hide Took, Started, Succeeded;
  }

  lemma FinishKeepsHist(s: State, i: nat, outcome: Outcome)
    requires Hist(s) && Inv(s) && Enabled(s, FinishFlush(i, outcome))
    ensures Hist(DoFinish(s, i, outcome))
  {
    var t := Recorded(s, i, outcome);
    RecordKeepsHist(s, i, outcome);
    FinishReturns(s, i, outcome);
    assert CallerOk(s.g, s.callers[i]);
    if outcome == Ok {
      ReturnOkJustified(t, i);
    }
    ReturnKeepsHist(t, i, outcome);
    assert DoFinish(s, i, outcome) == Logged(SetPhase(t, i, Done(outcome)), Returned(i, outcome));
  }

  lemma NextKeepsHist(s: State, step: Step)
    requires Hist(s) && Inv(s) && Enabled(s, step)
    ensures Hist(Next(s, step))
  {
    match step
    case TakeTicket(i) => TakeKeepsHist(s, i);
    case LookAgain(i) => LookKeepsHist(s, i);
    case FinishFlush(i, o) => FinishKeepsHist(s, i, o);
    case WakeUp(i) => PhaseKeepsHist(s, i, Ready);
  }

  // ---- what callers are told ----

  /** A caller is told of a failure exactly when its own flush failed, right after it, and with
      the error of that flush. */
  ghost predicate ErrorsAreOwn(log: seq<Event>) {
    && (forall k :: 0 <= k < |log| && log[k].Returned? && log[k].outcome.Err? ==>
          k > 0 && log[k - 1] == FlushEnded(log[k].who, log[k].outcome))
    && (forall k :: 0 <= k < |log| && log[k].FlushEnded? ==>
          k + 1 < |log| && log[k + 1] == Returned(log[k].who, log[k].outcome))
  }

  lemma NextKeepsErrors(s: State, step: Step)
    requires ErrorsAreOwn(s.log) && Inv(s) && Enabled(s, step)
    ensures ErrorsAreOwn(Next(s, step).log)
  {
    assert CallerOk(s.g, s.callers[step.who]);
    if step.FinishFlush? {
      FinishReturns(s, step.who, step.outcome);
    }
  }

  lemma {:induction false} RunKeepsHist(s: State, steps: seq<Step>)
    requires Inv(s) && Hist(s) && ErrorsAreOwn(s.log) && Runs(s, steps)
    ensures Hist(After(s, steps)) && ErrorsAreOwn(After(s, steps).log)
    decreases |steps|
  {
    if steps != [] {
      NextKeepsInv(s, steps[0]);
      NextKeepsHist(s, steps[0]);
      NextKeepsErrors(s, steps[0]);
      RunKeepsHist(Next(s, steps[0]), steps[1..]);
    }
  }

  /** In every run, with any number of callers and with spurious wake-ups:
      - a caller is told Ok only if a flush that started after it took its ticket has succeeded;
      - a caller is told of an error exactly when its own flush failed, with that error;
      - each flush covers more tickets than any flush that succeeded before it started. */
  lemma WhatCallersAreTold(n: nat, steps: seq<Step>)
    requires Runs(Init(n), steps)
    ensures var log := After(Init(n), steps).log;
            OkJustified(log) && ErrorsAreOwn(log) && CoverageGrows(log)
  {
    InitInv(n);
    RunKeepsHist(Init(n), steps);
  }

  /** Callers that have no ticket yet. */
  function Waiting(c: Caller): nat {
    if c.phase == Idle then 1 else 0
  }

  ghost predicate TicketsCounted(s: State) {
    s.g.nextTicket + Sum(s.callers, Waiting) == |s.callers|
  }

  lemma NextKeepsTicketCount(s: State, step: Step)
    requires TicketsCounted(s) && Inv(s) && Enabled(s, step)
    ensures TicketsCounted(Next(s, step)) && |Next(s, step).callers| == |s.callers|
  {
    var t, i := Next(s, step), step.who;
    if step.FinishFlush? {
      FinishReturns(s, i, step.outcome);
      SumNotified(s.callers, Waiting, 0);
      SumUpdate(NotifyAll(s.callers), i, t.callers[i], Waiting);
    } else {
      SumUpdate(s.callers, i, t.callers[i], Waiting);
    }
  }

  lemma {:induction false} RunKeepsTicketCount(s: State, steps: seq<Step>)
    requires TicketsCounted(s) && Inv(s) && Runs(s, steps)
    ensures TicketsCounted(After(s, steps)) && |After(s, steps).callers| == |s.callers|
    decreases |steps|
  {
    if steps != [] {
      NextKeepsInv(s, steps[0]);
      NextKeepsTicketCount(s, steps[0]);
      RunKeepsTicketCount(Next(s, steps[0]), steps[1..]);
    }
  }

  /** Coalescing: once a flush that covers every caller's ticket has succeeded, none is started. */
  lemma NoFlushAfterLast(n: nat, steps: seq<Step>, f: Flush, j: int, c: int, k: int)
    requires Runs(Init(n), steps)
    requires var log := After(Init(n), steps).log;
             Succeeded(log, f) && f.covered == n && Started(log, j, c, k)
    ensures k < f.ended
  {
    InitInv(n);
    RunKeepsHist(Init(n), steps);
    TicketsAreAtMost(n, steps);
    NoneAfterLast(After(Init(n), steps), n, f, j, c, k);
  }

  lemma TicketsAreAtMost(n: nat, steps: seq<Step>)
    requires Runs(Init(n), steps)
    ensures After(Init(n), steps).g.nextTicket <= n && |After(Init(n), steps).callers| == n
  {
    InitInv(n);
    hide Inv, Runs, After;
    SumOfEqual(Init(n).callers, Waiting, 1);
    RunKeepsTicketCount(Init(n), steps);
  }

  lemma NoneAfterLast(s: State, n: nat, f: Flush, j: int, c: int, k: int)
    requires TicketOrder(s) && CoverageGrows(s.log) && s.g.nextTicket <= n
    requires Succeeded(s.log, f) && f.covered == n && Started(s.log, j, c, k)
    ensures k < f.ended
  {
  }

  // ---- every run ends ----

  function Alive(c: Caller): nat {
    if c.phase.Done? then 0 else 1
  }

  /** How far a caller is from its next flush or its return. */
  function Rank(c: Caller): nat {
    match c.phase
    case Idle => 3
    case Ready => 2
    case Asleep => 1
    case Flushing(_) => 0
    case Done(_) => 0
  }

  /** Every return outweighs all the callers that it may wake. */
  function Measure(s: State): nat {
    Sum(s.callers, Alive) * (|s.callers| + 1) + Sum(s.callers, Rank)
  }

  predicate Spurious(step: Step) {
    step.WakeUp?
  }

  /** Every step that is not a spurious wake-up lowers the measure. */
  lemma StepLowersMeasure(s: State, step: Step)
    requires Inv(s) && Enabled(s, step) && !Spurious(step)
    ensures Measure(Next(s, step)) < Measure(s)
  {
    var t, n := Next(s, step), |s.callers|;
    var alive, alive' := Sum(s.callers, Alive), Sum(t.callers, Alive);
    WeightsFall(s, step);
    if alive' < alive {
      assert alive' * (n + 1) + (n + 1) <= alive * (n + 1) by { MulStep(alive', alive, n + 1); }
    }
  }

  lemma MulStep(x: nat, y: nat, m: nat)
    requires x < y
    ensures x * m + m <= y * m
  {
    assert y * m == (x + 1) * m + (y - x - 1) * m;
  }

  lemma WeightsFall(s: State, step: Step)
    requires Inv(s) && Enabled(s, step) && !Spurious(step)
    ensures var t := Next(s, step);
            && |t.callers| == |s.callers|
            && (if step.FinishFlush? then
                  Sum(t.callers, Alive) < Sum(s.callers, Alive) && Sum(t.callers, Rank) <= Sum(s.callers, Rank) + |s.callers|
                else
                  Sum(t.callers, Alive) <= Sum(s.callers, Alive) && Sum(t.callers, Rank) < Sum(s.callers, Rank))
  {
    var t, i := Next(s, step), step.who;
    if step.FinishFlush? {
      FinishReturns(s, i, step.outcome);
      hide Inv, Enabled;
      var cs := NotifyAll(s.callers);
      SumNotified(s.callers, Alive, 0);
      SumNotified(s.callers, Rank, 1);
      SumUpdate(cs, i, t.callers[i], Alive);
      SumUpdate(cs, i, t.callers[i], Rank);
    } else {
      OneCallerMoves(s, step);
      hide Inv, Enabled, Next, Alive, Rank;
      SumUpdate(s.callers, i, t.callers[i], Alive);
      SumUpdate(s.callers, i, t.callers[i], Rank);
    }
  }

  lemma OneCallerMoves(s: State, step: Step)
    requires Inv(s) && Enabled(s, step) && !Spurious(step) && !step.FinishFlush?
    ensures var t, i := Next(s, step), step.who;
            && i < |s.callers| == |t.callers| && t.callers == s.callers[i := t.callers[i]]
            && Alive(t.callers[i]) <= Alive(s.callers[i]) && Rank(t.callers[i]) < Rank(s.callers[i])
  {
    hide Inv;
  }

  /** While a caller has not returned, some step other than a spurious wake-up is possible:
      whoever sleeps waits for a leader that is running. */
  lemma NeverStuck(s: State, i: nat) returns (step: Step)
    requires Inv(s) && i < |s.callers| && !s.callers[i].phase.Done?
    ensures Enabled(s, step) && !Spurious(step)
    ensures s.callers[i].phase == Asleep ==> step.FinishFlush?
  {
    assert CallerOk(s.g, s.callers[i]);
    match s.callers[i].phase
    case Idle => step := TakeTicket(i);
    case Ready => step := LookAgain(i);
    case Flushing(_) => step := FinishFlush(i, Ok);
    case Asleep =>
      var k :| 0 <= k < |s.callers| && s.callers[k].phase.Flushing?;
      step := FinishFlush(k, Ok);
  }

  ghost predicate Quiet(steps: seq<Step>) {
    forall k :: 0 <= k < |steps| ==> !Spurious(steps[k])
  }

  lemma {:induction false} RunIsBounded(s: State, steps: seq<Step>)
    requires Inv(s) && Runs(s, steps) && Quiet(steps)
    ensures Inv(After(s, steps)) && |steps| + Measure(After(s, steps)) <= Measure(s)
    decreases |steps|
  {
    if steps != [] {
      NextKeepsInv(s, steps[0]);
      StepLowersMeasure(s, steps[0]);
      RunIsBounded(Next(s, steps[0]), steps[1..]);
    }
  }

  ghost predicate AllReturned(s: State) {
    forall i :: 0 <= i < |s.callers| ==> s.callers[i].phase.Done?
  }

  /** With n callers and no spurious wake-ups, no run is longer than n(n+1) + 3n steps, and a
      run that cannot go on has brought every caller its result, with at most n flushes. */
  lemma EveryRunEnds(n: nat, steps: seq<Step>)
    requires Runs(Init(n), steps) && Quiet(steps)
    ensures |steps| <= n * (n + 1) + 3 * n
    ensures var s := After(Init(n), steps);
            && s.g.fsyncCount <= n
            && ((forall step :: Enabled(s, step) ==> Spurious(step)) ==> AllReturned(s))
  {
    var s := After(Init(n), steps);
    InitInv(n);
    MeasureAtStart(n);
    RunIsBounded(Init(n), steps);
    hide Init, Runs, After, Measure;
    TicketsAreAtMost(n, steps);
    FlushesAreAtMost(s);
    if !AllReturned(s) {
      var i :| 0 <= i < |s.callers| && !s.callers[i].phase.Done?;
      var step := NeverStuck(s, i);
    }
  }

  lemma MeasureAtStart(n: nat)
    ensures Measure(Init(n)) == n * (n + 1) + 3 * n
  {
    SumOfEqual(Init(n).callers, Alive, 1);
    SumOfEqual(Init(n).callers, Rank, 3);
  }

  lemma FlushesAreAtMost(s: State)
    requires Inv(s)
    ensures s.g.fsyncCount <= |s.callers|
  {
    SumBound(s.callers, Led, 1);
  }
}
