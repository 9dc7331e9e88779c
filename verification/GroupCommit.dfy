/** Group commit (crates/alt-cli/src/group_commit.rs).

    The first part is the mutex-guarded record with the critical sections of the source. The
    second part is the protocol: any number of callers, each of which takes one ticket and
    waits for it once, and every step is one critical section. `Look` is what a caller does
    from taking the mutex (or being woken) until it gives it up again; `Complete` is what the
    leader does when its flush is over. A caller woken without a notification is a step too. */
module GroupCommit {

  datatype Option<+T> = None | Some(value: T)

  /** The result of a flush, and of `await_durable`. */
  datatype Outcome = Ok | Err(message: string)

  const NO_MESSAGE := "durability failed"

  /** The fields behind the mutex. */
  datatype Inner = Inner(nextTicket: nat, durable: nat, syncing: bool, lastError: Option<string>, fsyncCount: nat)

  /** What a caller finds out when it looks at the fields. */
  datatype Decision = Return(outcome: Outcome) | Wait | Lead(covered: nat)

  // ---- the critical sections, as functions ----

  function Assigned(g: Inner): Inner {
    g.(nextTicket := g.nextTicket + 1)
  }

  function Decide(g: Inner, ticket: nat, led: bool): Decision {
    if g.durable >= ticket then Return(Ok)
    else if g.syncing then Wait
    else if led then Return(Err(if g.lastError.Some? then g.lastError.value else NO_MESSAGE))
    else Lead(g.nextTicket)
  }

  function Decided(g: Inner, d: Decision): Inner {
    if d.Lead? then g.(syncing := true) else g
  }

  function Finished(g: Inner, covered: nat, outcome: Outcome): Inner {
    var g' := g.(syncing := false, fsyncCount := g.fsyncCount + 1);
    match outcome
    case Ok => g'.(durable := if covered < g.durable then g.durable else covered, lastError := None)
    case Err(e) => g'.(lastError := Some(e))
  }

  // ---- the critical sections, as code ----

  class GroupCommit {
    var nextTicket: nat
    var durable: nat
    var syncing: bool
    var lastError: Option<string>
    var fsyncCount: nat

    ghost function View(): Inner
      reads this
    {
      Inner(nextTicket, durable, syncing, lastError, fsyncCount)
    }

    constructor ()
      ensures View() == Inner(0, 0, false, None, 0)
    {
      nextTicket, durable, syncing, lastError, fsyncCount := 0, 0, false, None, 0;
    }

    method Assign() returns (ticket: nat)
      modifies this
      ensures View() == Assigned(old(View())) && ticket == nextTicket
    {
      nextTicket := nextTicket + 1;
      ticket := nextTicket;
    }

    /** The top of the loop of `await_durable_with`, up to where it returns, waits or unlocks. */
    method Look(ticket: nat, led: bool) returns (d: Decision)
      modifies this
      ensures d == Decide(old(View()), ticket, led) && View() == Decided(old(View()), d)
    {
      if durable >= ticket {
        return Return(Ok);
      }
      if syncing {
        return Wait;
      }
      if led {
        return Return(Err(if lastError.Some? then lastError.value else NO_MESSAGE));
      }
      syncing := true;
      d := Lead(nextTicket);
    }

    /** The leader is back with the outcome of its flush. */
    method Complete(covered: nat, outcome: Outcome)
      modifies this
      ensures View() == Finished(old(View()), covered, outcome)
    {
      syncing := false;
      fsyncCount := fsyncCount + 1;
      match outcome {
        case Ok =>
          durable := if covered < durable then durable else covered;
          lastError := None;
        case Err(e) =>
          lastError := Some(e);
      }
    }
  }

  // ---- the protocol ----

  datatype Phase = Idle | Ready | Asleep | Flushing(covered: nat) | Done(outcome: Outcome)

  datatype Caller = Caller(ticket: nat, led: bool, phase: Phase)

  /** What happened, in order. */
  datatype Event =
    | TookTicket(who: nat, ticket: nat)
    | FlushStarted(who: nat, covered: nat)
    | FlushEnded(who: nat, outcome: Outcome)
    | Returned(who: nat, outcome: Outcome)

  datatype State = State(g: Inner, callers: seq<Caller>, log: seq<Event>)

  datatype Step = TakeTicket(who: nat) | LookAgain(who: nat) | FinishFlush(who: nat, outcome: Outcome) | WakeUp(who: nat)

  function Init(n: nat): State {
    State(Inner(0, 0, false, None, 0), seq(n, _ => Caller(0, false, Idle)), [])
  }

  predicate Enabled(s: State, step: Step) {
    && step.who < |s.callers|
    && var phase := s.callers[step.who].phase;
       match step
       case TakeTicket(_) => phase == Idle
       case LookAgain(_) => phase == Ready
       case FinishFlush(_, _) => phase.Flushing?
       case WakeUp(_) => phase == Asleep
  }

  function SetPhase(s: State, i: nat, phase: Phase): State
    requires i < |s.callers|
  {
    s.(callers := s.callers[i := s.callers[i].(phase := phase)])
  }

  function Logged(s: State, e: Event): State {
    s.(log := s.log + [e])
  }

  /** Caller `i` looks at the fields and acts. */
  function DoLook(s: State, i: nat): State
    requires i < |s.callers|
  {
    var c := s.callers[i];
    var d := Decide(s.g, c.ticket, c.led);
    var t := s.(g := Decided(s.g, d));
    match d
    case Return(o) => Logged(SetPhase(t, i, Done(o)), Returned(i, o))
    case Wait => SetPhase(t, i, Asleep)
    case Lead(covered) =>
      Logged(t.(callers := t.callers[i := Caller(c.ticket, true, Flushing(covered))]), FlushStarted(i, covered))
  }

  /** Wakes every sleeper. */
  function NotifyAll(cs: seq<Caller>): (ds: seq<Caller>)
    ensures |ds| == |cs|
    ensures forall i :: 0 <= i < |cs| ==> ds[i] == if cs[i].phase == Asleep then cs[i].(phase := Ready) else cs[i]
  {
    if cs == [] then []
    else
      NotifyAll(cs[..|cs| - 1])
      + [var c := cs[|cs| - 1]; if c.phase == Asleep then c.(phase := Ready) else c]
  }

  /** Caller `i` took its ticket, in the critical section of `assign`. */
  function DoTake(s: State, i: nat): State
    requires i < |s.callers|
  {
    var g := Assigned(s.g);
    Logged(s.(g := g, callers := s.callers[i := Caller(g.nextTicket, false, Ready)]), TookTicket(i, g.nextTicket))
  }

  /** The leader records its flush, wakes the others and, still holding the mutex, looks again. */
  function DoFinish(s: State, i: nat, outcome: Outcome): State
    requires i < |s.callers| && s.callers[i].phase.Flushing?
  {
    var g := Finished(s.g, s.callers[i].phase.covered, outcome);
    DoLook(Logged(s.(g := g, callers := NotifyAll(s.callers)), FlushEnded(i, outcome)), i)
  }

  function Next(s: State, step: Step): State
    requires Enabled(s, step)
  {
    match step
    case TakeTicket(i) => DoTake(s, i)
    case LookAgain(i) => DoLook(s, i)
    case FinishFlush(i, o) => DoFinish(s, i, o)
    case WakeUp(i) => SetPhase(s, i, Ready)
  }

  /** `steps` can be taken from `s`, one after the other. */
  predicate Runs(s: State, steps: seq<Step>)
    decreases |steps|
  {
    steps == [] || (Enabled(s, steps[0]) && Runs(Next(s, steps[0]), steps[1..]))
  }

  function After(s: State, steps: seq<Step>): State
    requires Runs(s, steps)
    decreases |steps|
  {
    if steps == [] then s else After(Next(s, steps[0]), steps[1..])
  }

  // ---- the invariant on the fields and the callers ----

  /** What holds of one caller. */
  predicate CallerOk(g: Inner, c: Caller) {
    && c.ticket <= g.nextTicket
    && (c.phase == Idle ==> c.ticket == 0 && !c.led)
    && (c.phase != Idle ==> 1 <= c.ticket)
    && (c.phase == Ready ==> !c.led)
    && (c.phase == Asleep ==> !c.led && g.syncing)
    && (c.phase.Flushing? ==> c.led && g.syncing && g.durable < c.ticket <= c.phase.covered <= g.nextTicket)
    && (c.phase.Done? ==> if c.phase.outcome == Ok then c.ticket <= g.durable else c.led)
  }

  ghost predicate CallersOk(s: State) {
    forall i :: 0 <= i < |s.callers| ==> CallerOk(s.g, s.callers[i])
  }

  /** Exactly one flush runs while `syncing` is set, and none otherwise. */
  ghost predicate OneFlush(s: State) {
    && (forall i, j :: 0 <= i < j < |s.callers| ==> !(s.callers[i].phase.Flushing? && s.callers[j].phase.Flushing?))
    && (s.g.syncing ==> exists i :: 0 <= i < |s.callers| && s.callers[i].phase.Flushing?)
  }

  /** Adds up a weight over all callers. */
  function Sum(cs: seq<Caller>, weight: Caller -> nat): nat {
    if cs == [] then 0 else Sum(cs[..|cs| - 1], weight) + weight(cs[|cs| - 1])
  }

  function Led(c: Caller): nat {
    if c.led then 1 else 0
  }

  predicate FlushesCounted(s: State) {
    s.g.fsyncCount + (if s.g.syncing then 1 else 0) == Sum(s.callers, Led)
  }

  ghost predicate Inv(s: State) {
    s.g.durable <= s.g.nextTicket && CallersOk(s) && OneFlush(s) && FlushesCounted(s)
  }

  lemma {:induction false} SumUpdate(cs: seq<Caller>, i: nat, c: Caller, weight: Caller -> nat)
    requires i < |cs|
    ensures Sum(cs[i := c], weight) == Sum(cs, weight) - weight(cs[i]) + weight(c)
    decreases |cs|
  {
    var n := |cs| - 1;
    if i < n {
      SumUpdate(cs[..n], i, c, weight);
      assert cs[i := c][..n] == cs[..n][i := c];
    } else {
      assert cs[i := c][..n] == cs[..n];
    }
  }

  /** Waking the sleepers changes a weight by at most `extra` for each caller. */
  lemma {:induction false} SumNotified(cs: seq<Caller>, weight: Caller -> nat, extra: nat)
    requires forall c: Caller :: c.phase == Asleep ==> weight(c) <= weight(c.(phase := Ready)) <= weight(c) + extra
    ensures Sum(cs, weight) <= Sum(NotifyAll(cs), weight) <= Sum(cs, weight) + |cs| * extra
    decreases |cs|
  {
    if cs != [] {
      var n := |cs| - 1;
      SumNotified(cs[..n], weight, extra);
      NotifyLast(cs);
      SumOfLast(cs, weight);
      SumOfLast(NotifyAll(cs), weight);
      hide Sum, NotifyAll;
      assert weight(cs[n]) <= weight(NotifyAll(cs)[n]) <= weight(cs[n]) + extra;
      OneMore(n, extra);
    }
  }

  lemma NotifyLast(cs: seq<Caller>)
    requires cs != []
    ensures NotifyAll(cs)[..|cs| - 1] == NotifyAll(cs[..|cs| - 1])
  {
  }

  lemma SumOfLast(cs: seq<Caller>, weight: Caller -> nat)
    requires cs != []
    ensures Sum(cs, weight) == Sum(cs[..|cs| - 1], weight) + weight(cs[|cs| - 1])
  {
  }

  lemma OneMore(n: nat, each: nat)
    ensures (n + 1) * each == n * each + each
  {
  }

  lemma {:induction false} SumBound(cs: seq<Caller>, weight: Caller -> nat, most: nat)
    requires forall c: Caller :: weight(c) <= most
    ensures Sum(cs, weight) <= |cs| * most
    decreases |cs|
  {
    if cs != [] {
      SumBound(cs[..|cs| - 1], weight, most);
      OneMore(|cs| - 1, most);
    }
  }

  lemma {:induction false} SumOfEqual(cs: seq<Caller>, weight: Caller -> nat, each: nat)
    requires forall i :: 0 <= i < |cs| ==> weight(cs[i]) == each
    ensures Sum(cs, weight) == |cs| * each
    decreases |cs|
  {
    if cs != [] {
      SumOfEqual(cs[..|cs| - 1], weight, each);
      OneMore(|cs| - 1, each);
    }
  }

  lemma InitInv(n: nat)
    ensures Inv(Init(n))
  {
    SumOfEqual(Init(n).callers, Led, 0);
  }

  lemma TakeKeepsInv(s: State, i: nat)
    requires Inv(s) && Enabled(s, TakeTicket(i))
    ensures Inv(DoTake(s, i))
  {
    SumUpdate(s.callers, i, DoTake(s, i).callers[i], Led);
    if s.g.syncing {
      var k :| 0 <= k < |s.callers| && s.callers[k].phase.Flushing?;
      assert DoTake(s, i).callers[k] == s.callers[k];
    }
  }

  lemma WakeKeepsInv(s: State, i: nat)
    requires Inv(s) && Enabled(s, WakeUp(i))
    ensures Inv(SetPhase(s, i, Ready))
  {
    SumUpdate(s.callers, i, SetPhase(s, i, Ready).callers[i], Led);
    var k :| 0 <= k < |s.callers| && s.callers[k].phase.Flushing?;
    assert SetPhase(s, i, Ready).callers[k] == s.callers[k];
  }

  lemma LookKeepsInv(s: State, i: nat)
    requires Inv(s) && Enabled(s, LookAgain(i))
    ensures Inv(DoLook(s, i))
  {
    LookKeepsCallers(s, i);
    LookKeepsOneFlush(s, i);
    LookKeepsCount(s, i);
    hide CallersOk, OneFlush, FlushesCounted;
  }

  lemma LookKeepsCallers(s: State, i: nat)
    requires Inv(s) && Enabled(s, LookAgain(i))
    ensures CallersOk(DoLook(s, i)) && DoLook(s, i).g.durable <= DoLook(s, i).g.nextTicket
  {
    hide OneFlush, FlushesCounted;
    assert CallerOk(s.g, s.callers[i]);
  }

  lemma LookKeepsOneFlush(s: State, i: nat)
    requires Inv(s) && Enabled(s, LookAgain(i))
    ensures OneFlush(DoLook(s, i))
  {
    hide FlushesCounted;
    var t := DoLook(s, i);
    if s.g.syncing {
      var k :| 0 <= k < |s.callers| && s.callers[k].phase.Flushing?;
      assert t.callers[k] == s.callers[k];
    } else if t.g.syncing {
      assert t.callers[i].phase.Flushing?;
    }
  }

  lemma LookKeepsCount(s: State, i: nat)
    requires Inv(s) && Enabled(s, LookAgain(i))
    ensures FlushesCounted(DoLook(s, i))
  {
    hide OneFlush;
    SumUpdate(s.callers, i, DoLook(s, i).callers[i], Led);
    assert CallerOk(s.g, s.callers[i]);
    hide Sum;
  }

  /** A finished leader returns at once: with Ok after a success, with its own error otherwise. */
  lemma FinishReturns(s: State, i: nat, outcome: Outcome)
    requires Inv(s) && Enabled(s, FinishFlush(i, outcome))
    ensures var t := DoFinish(s, i, outcome);
            && t.callers == NotifyAll(s.callers)[i := s.callers[i].(phase := Done(outcome))]
            && t.g == Finished(s.g, s.callers[i].phase.covered, outcome)
            && t.log == s.log + [FlushEnded(i, outcome)] + [Returned(i, outcome)]
  {
    assert CallerOk(s.g, s.callers[i]);
  }

  lemma FinishKeepsInv(s: State, i: nat, outcome: Outcome)
    requires Inv(s) && Enabled(s, FinishFlush(i, outcome))
    ensures Inv(DoFinish(s, i, outcome))
  {
    FinishReturns(s, i, outcome);
    SumNotified(s.callers, Led, 0);
    SumUpdate(NotifyAll(s.callers), i, s.callers[i].(phase := Done(outcome)), Led);
    forall k | 0 <= k < |s.callers|
      ensures var t := DoFinish(s, i, outcome); !t.callers[k].phase.Flushing? && CallerOk(t.g, t.callers[k])
    {
      assert CallerOk(s.g, s.callers[k]) && CallerOk(s.g, s.callers[i]);
    }
  }

  lemma NextKeepsInv(s: State, step: Step)
    requires Inv(s) && Enabled(s, step)
    ensures Inv(Next(s, step))
  {
    match step
    case TakeTicket(i) => TakeKeepsInv(s, i);
    case LookAgain(i) => LookKeepsInv(s, i);
    case FinishFlush(i, o) => FinishKeepsInv(s, i, o);
    case WakeUp(i) => WakeKeepsInv(s, i);
  }

  lemma {:induction false} RunKeepsInv(s: State, steps: seq<Step>)
    requires Inv(s) && Runs(s, steps)
    ensures Inv(After(s, steps))
    decreases |steps|
  {
    if steps != [] {
      NextKeepsInv(s, steps[0]);
      RunKeepsInv(Next(s, steps[0]), steps[1..]);
    }
  }

  /** In every reachable state, at most one flush runs, durability is not claimed beyond the
      tickets handed out, and there were at most as many flushes as callers. */
  lemma SafetyOfEveryRun(n: nat, steps: seq<Step>)
    requires Runs(Init(n), steps)
    ensures var s := After(Init(n), steps);
            && s.g.durable <= s.g.nextTicket && OneFlush(s) && s.g.fsyncCount <= |s.callers|
  {
    InitInv(n);
    RunKeepsInv(Init(n), steps);
    SumBound(After(Init(n), steps).callers, Led, 1);
  }

  /** No step lowers `durable` or takes back a ticket. */
  lemma DurableNeverFalls(s: State, step: Step)
    requires Inv(s) && Enabled(s, step)
    ensures s.g.durable <= Next(s, step).g.durable && s.g.nextTicket <= Next(s, step).g.nextTicket
  {
    if step.FinishFlush? {
      FinishReturns(s, step.who, step.outcome);
    }
  }
}
