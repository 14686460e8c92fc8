/**
 * The `Worker` lifecycle: a worker thread and the callers of `startWorking`, `stopWorking` and
 * `terminate`. What happens under the lock is one step; the waits release it.
 */
module Worker {
  datatype WorkerState = Starting | Started | Stopping | Stopped | Killing

  /** Where the thread stands: before the loop test, between the test and the store of `Started`, at work, ... */
  datatype Position = Top | Entering | Working | Exiting | Waiting | Finished

  datatype Caller = Idle | StartWaiting | StopWaiting | Joining

  /** `work` says that the thread object exists. */
  datatype System = System(state: WorkerState, work: bool, thread: Position, callers: seq<Caller>)

  /** `leave`: the work loop returns or throws although it need not. */
  datatype Event =
    | Start(caller: nat)
    | Stop(caller: nat)
    | Terminate(caller: nat)
    | Return(caller: nat)
    | Thread(leave: bool)

  /** The condition that each wait is for. */
  predicate MayReturn(s: System, c: Caller) {
    match c
    case Idle => false
    case StartWaiting => s.state != Starting
    case StopWaiting => s.state == Stopped
    case Joining => s.thread == Finished
  }

  predicate Enabled(s: System, e: Event) {
    match e
    case Thread(_) => s.work && s.thread != Finished && (s.thread == Waiting ==> s.state != Stopped)
    case Return(i) => i < |s.callers| && MayReturn(s, s.callers[i])
    case _ => e.caller < |s.callers| && s.callers[e.caller] == Idle
  }

  function SetCaller(s: System, i: nat, c: Caller): System
    requires i < |s.callers|
  {
    s.(callers := s.callers[i := c])
  }

  function Step(s: System, e: Event): System
    requires Enabled(s, e)
  {
    match e
    case Start(i) =>
      if s.work then SetCaller(if s.state == Stopped then s.(state := Starting) else s, i, StartWaiting)
      else SetCaller(s.(state := Starting, work := true, thread := Top), i, StartWaiting)
    case Stop(i) =>
      if s.work && s.state == Started then SetCaller(s.(state := Stopping), i, StopWaiting) else s
    case Terminate(i) =>
      if s.work && s.state != Killing then SetCaller(s.(state := Killing), i, Joining) else s
    case Return(i) =>
      SetCaller(if s.callers[i] == Joining then s.(work := false) else s, i, Idle)
    case Thread(leave) => ThreadStep(s, leave)
  }

  function ThreadStep(s: System, leave: bool): System {
    match s.thread
    case Top => s.(thread := if s.state == Killing then Finished else Entering)
    case Entering => s.(state := Started, thread := Working)
    case Working => s.(thread := if s.state == Started && !leave then Working else Exiting)
    case Exiting =>
      s.(state := if s.state == Killing || s.state == Starting then s.state else Stopped, thread := Waiting)
    case Waiting => s.(thread := Top)
    case Finished => s
  }

  ghost predicate Initial(s: System) {
    s.state == Starting && !s.work && s.thread == Finished && forall i :: 0 <= i < |s.callers| ==> s.callers[i] == Idle
  }

  /** A run: the states and the events between them. */
  ghost predicate Run(states: seq<System>, events: seq<Event>) {
    && |states| == |events| + 1 && Initial(states[0])
    && forall k :: 0 <= k < |events| ==> Enabled(states[k], events[k]) && states[k + 1] == Step(states[k], events[k])
  }

  // ---- When Killing sticks ---------------------------------------------------------------------

  /** No `terminate` is issued between the thread's loop test and its store of `Started`. */
  ghost predicate CarefulEvent(s: System, e: Event) {
    e.Terminate? ==> !(s.work && s.thread == Entering)
  }

  ghost predicate Careful(states: seq<System>, events: seq<Event>)
    requires Run(states, events)
  {
    forall k :: 0 <= k < |events| ==> CarefulEvent(states[k], events[k])
  }

  ghost predicate Inv(s: System) {
    if !s.work then s.thread == Finished else
      match s.thread
      case Top => s.state == Starting || s.state == Killing
      case Entering => s.state == Starting
      case Working => s.state == Started || s.state == Stopping || s.state == Killing
      case Exiting => s.state == Started || s.state == Stopping || s.state == Killing
      case Waiting => s.state == Stopped || s.state == Starting || s.state == Killing
      case Finished => s.state == Killing
  }

  lemma StepKeepsInv(s: System, e: Event)
    requires Inv(s) && Enabled(s, e) && CarefulEvent(s, e)
    ensures Inv(Step(s, e))
  {
  }

  lemma {:induction false} RunKeepsInv(states: seq<System>, events: seq<Event>)
    requires Run(states, events) && Careful(states, events)
    ensures Inv(states[|events|])
  {
    if |events| > 0 {
      var n := |events| - 1;
      RunKeepsInv(states[..n + 1], events[..n]);
      assert Enabled(states[n], events[n]) && CarefulEvent(states[n], events[n]);
      StepKeepsInv(states[n], events[n]);
    }
  }

  /** With any number of concurrent callers, a careful run never overwrites `Killing` while the thread exists. */
  lemma KillingSticks(states: seq<System>, events: seq<Event>, e: Event)
    requires Run(states, events) && Careful(states, events)
    requires var s := states[|events|]; s.work && s.state == Killing && Enabled(s, e)
    ensures Step(states[|events|], e).state == Killing
  {
    RunKeepsInv(states, events);
  }

  // ---- When a terminate is lost ----------------------------------------------------------------

  /** What holds in every run: at the store of `Started` the state is `Starting`, or a `Killing` about to be lost. */
  ghost predicate Loose(s: System) {
    Inv(s) || (s.work && s.thread == Entering && s.state == Killing)
  }

  lemma {:induction false} RunKeepsLoose(states: seq<System>, events: seq<Event>, k: nat)
    requires Run(states, events) && k <= |events|
    ensures Loose(states[k])
  {
    if k > 0 {
      RunKeepsLoose(states, events, k - 1);
      assert Enabled(states[k - 1], events[k - 1]);
    }
  }

  /** The thread will find `Killing` at its next loop test. */
  ghost predicate Doomed(s: System) {
    s.work && s.state == Killing && s.thread != Entering
  }

  lemma {:induction false} StaysDoomed(states: seq<System>, events: seq<Event>, k: nat, j: nat)
    requires Run(states, events) && k <= j <= |events| && Doomed(states[k])
    requires forall m :: k <= m <= j ==> states[m].work
    ensures Doomed(states[j])
  {
    if k < j {
      StaysDoomed(states, events, k, j - 1);
      assert Enabled(states[j - 1], events[j - 1]);
    }
  }

  /** Nothing but a thread step moves a thread that has not finished. */
  lemma {:induction false} ThreadStays(states: seq<System>, events: seq<Event>, k: nat, j: nat)
    requires Run(states, events) && k <= j <= |events| && states[k].work && states[k].thread != Finished
    requires forall m :: k <= m < j ==> !events[m].Thread?
    ensures states[j].work && states[j].thread == states[k].thread
  {
    if k < j {
      ThreadStays(states, events, k, j - 1);
      assert Enabled(states[j - 1], events[j - 1]);
    }
  }

  /**
   * Exactly when a `terminate` is lost, in any run of any callers: the next thread step, however
   * late, stores `Started` over it if and only if it was issued between the loop test and that store.
   */
  lemma TerminateLostIff(states: seq<System>, events: seq<Event>, k: nat, m: nat)
    requires Run(states, events) && k < m < |events| && events[k].Terminate?
    requires states[k].work && states[k].state != Killing
    requires events[m].Thread? && forall j :: k < j < m ==> !events[j].Thread?
    ensures states[m + 1].state == (if states[k].thread == Entering then Started else Killing)
  {
    RunKeepsLoose(states, events, k);
    assert Enabled(states[k], events[k]) && Enabled(states[m], events[m]);
    ThreadStays(states, events, k, m);
    if states[k].thread != Entering {
      forall j | k + 1 <= j <= m
        ensures states[j].work
      {
        ThreadStays(states, events, k, j);
      }
      StaysDoomed(states, events, k + 1, m);
    } else {
      assert states[m].thread == Entering;
    }
  }

  /** A `terminate` issued when the state is not `Starting` lasts as long as the thread exists. */
  lemma TerminateLasts(states: seq<System>, events: seq<Event>, k: nat, j: nat)
    requires Run(states, events) && k < j <= |events| && events[k].Terminate?
    requires states[k].work && states[k].state != Starting && states[k].state != Killing
    requires forall m :: k < m <= j ==> states[m].work
    ensures states[j].state == Killing
  {
    RunKeepsLoose(states, events, k);
    assert Enabled(states[k], events[k]);
    StaysDoomed(states, events, k + 1, j);
  }

  /** Two callers suffice to reach that moment: one starts, the other terminates before the store. */
  lemma TwoCallersLoseTerminate() returns (states: seq<System>, events: seq<Event>)
    ensures Run(states, events) && |events| == 4 && events[0] == Start(0) && events[2] == Terminate(1)
    ensures states[3].state == Killing && states[4].state == Started && states[4].callers[1] == Joining
  {
    var s0 := System(Starting, false, Finished, [Idle, Idle]);
    var s1 := System(Starting, true, Top, [StartWaiting, Idle]);
    var s2 := System(Starting, true, Entering, [StartWaiting, Idle]);
    var s3 := System(Killing, true, Entering, [StartWaiting, Joining]);
    var s4 := System(Started, true, Working, [StartWaiting, Joining]);
    states, events := [s0, s1, s2, s3, s4], [Start(0), Thread(false), Terminate(1), Thread(false)];
  }

  // ---- One call at a time ----------------------------------------------------------------------

  ghost predicate AllIdle(s: System) {
    forall i :: 0 <= i < |s.callers| ==> s.callers[i] == Idle
  }

  ghost predicate SoloEvent(s: System, e: Event) {
    e.Start? || e.Stop? || e.Terminate? ==> AllIdle(s)
  }

  ghost predicate Solo(states: seq<System>, events: seq<Event>)
    requires Run(states, events)
  {
    forall k :: 0 <= k < |events| ==> SoloEvent(states[k], events[k])
  }

  /** At most one caller is busy, and it waits for what the thread is about to do. */
  ghost predicate SoloInv(s: System) {
    && Inv(s)
    && (forall i, j :: 0 <= i < j < |s.callers| ==> s.callers[i] == Idle || s.callers[j] == Idle)
    && (s.work && AllIdle(s) ==> s.state != Starting)
    && (forall i :: 0 <= i < |s.callers| ==> WaitFits(s, s.callers[i]))
  }

  ghost predicate WaitFits(s: System, c: Caller) {
    match c
    case Idle => true
    case StartWaiting => s.work
    case StopWaiting => s.work && (s.state == Stopping || s.state == Stopped)
    case Joining => s.work && s.state == Killing
  }

  lemma OnlyBusy(s: System, i: nat, c: Caller)
    requires SoloInv(s) && i < |s.callers| && (AllIdle(s) || s.callers[i] != Idle)
    ensures forall j :: 0 <= j < |s.callers| && j != i ==> s.callers[j] == Idle
    ensures c == Idle ==> AllIdle(SetCaller(s, i, c))
    ensures c != Idle ==> !AllIdle(SetCaller(s, i, c))
  {
    forall j | 0 <= j < |s.callers| && j != i
      ensures s.callers[j] == Idle
    {
      assert s.callers[i] == Idle || s.callers[j] == Idle;
    }
    assert SetCaller(s, i, c).callers[i] == c;
  }

  lemma CallKeepsSolo(s: System, e: Event)
    requires SoloInv(s) && Enabled(s, e) && SoloEvent(s, e) && !e.Thread?
    ensures CarefulEvent(s, e) && SoloInv(Step(s, e))
  {
    StepKeepsInv(s, e);
    OnlyBusy(s, e.caller, Step(s, e).callers[e.caller]);
  }

  lemma ThreadKeepsSolo(s: System, leave: bool)
    requires SoloInv(s) && Enabled(s, Thread(leave))
    ensures SoloInv(Step(s, Thread(leave)))
  {
    StepKeepsInv(s, Thread(leave));
  }

  lemma {:induction false} SoloKeepsInv(states: seq<System>, events: seq<Event>)
    requires Run(states, events) && Solo(states, events)
    ensures SoloInv(states[|events|]) && Careful(states, events)
  {
    if |events| > 0 {
      var n := |events| - 1;
      SoloKeepsInv(states[..n + 1], events[..n]);
      assert Enabled(states[n], events[n]) && SoloEvent(states[n], events[n]);
      if events[n].Thread? {
        ThreadKeepsSolo(states[n], events[n].leave);
      } else {
        CallKeepsSolo(states[n], events[n]);
      }
      forall k | 0 <= k < |events|
        ensures CarefulEvent(states[k], events[k])
      {
        assert k < n ==> CarefulEvent(states[..n + 1][k], events[..n][k]);
      }
    }
  }

  /** Calls one at a time are careful, so `Killing` sticks. */
  lemma SoloKillingSticks(states: seq<System>, events: seq<Event>, e: Event)
    requires Run(states, events) && Solo(states, events)
    requires var s := states[|events|]; s.work && s.state == Killing && Enabled(s, e)
    ensures Step(states[|events|], e).state == Killing
  {
    SoloKeepsInv(states, events);
    KillingSticks(states, events, e);
  }

  /** `startWorking` has returned, and no call is under way: the state is no longer `Starting`. */
  lemma StartReturnsStarted(states: seq<System>, events: seq<Event>)
    requires Run(states, events) && Solo(states, events)
    requires states[|events|].work && AllIdle(states[|events|])
    ensures states[|events|].state != Starting
  {
    SoloKeepsInv(states, events);
  }

  /** How many thread steps a waiting caller has to wait for. */
  ghost function Rank(s: System, c: Caller): nat {
    match c
    case Idle => 0
    case StartWaiting =>
      if s.state != Starting then 0 else
        (match s.thread case Waiting => 3 case Top => 2 case Entering => 1 case _ => 0)
    case StopWaiting =>
      if s.state != Stopping then 0 else
        (match s.thread case Working => 2 case Exiting => 1 case _ => 0)
    case Joining =>
      match s.thread case Working => 4 case Exiting => 3 case Waiting => 2 case Top => 1 case _ => 0
  }

  /** Nobody waits forever: a waiting caller can return, or every step of the thread brings it nearer. */
  lemma WaitEnds(states: seq<System>, events: seq<Event>, i: nat, leave: bool)
    requires Run(states, events) && Solo(states, events)
    requires i < |states[|events|].callers| && states[|events|].callers[i] != Idle
    ensures var s := states[|events|]; var c := s.callers[i];
            if Rank(s, c) == 0 then Enabled(s, Return(i))
            else Enabled(s, Thread(leave)) && Rank(Step(s, Thread(leave)), c) < Rank(s, c)
  {
    SoloKeepsInv(states, events);
    assert WaitFits(states[|events|], states[|events|].callers[i]);
  }

  /** After `Killing` the thread leaves its loop: each of its steps brings the end nearer. */
  lemma ThreadLeaves(states: seq<System>, events: seq<Event>, leave: bool)
    requires Run(states, events) && Careful(states, events)
    requires var s := states[|events|]; s.work && s.state == Killing && s.thread != Finished
    ensures var s := states[|events|];
            Enabled(s, Thread(leave)) && Rank(Step(s, Thread(leave)), Joining) < Rank(s, Joining)
  {
    RunKeepsInv(states, events);
  }

  // ---- What a call has done when it returns ----------------------------------------------------

  lemma SoloAt(states: seq<System>, events: seq<Event>, j: nat)
    requires Run(states, events) && Solo(states, events) && j <= |events|
    ensures SoloInv(states[j])
  {
    var ss, es := states[..j + 1], events[..j];
    assert forall k :: 0 <= k < |es| ==> Enabled(ss[k], es[k]) && ss[k + 1] == Step(ss[k], es[k]);
    assert forall k :: 0 <= k < |es| ==> SoloEvent(states[k], events[k]);
    SoloKeepsInv(ss, es);
  }

  /** While a caller waits, only the thread moves. */
  lemma WaitStep(s: System, e: Event, i: nat)
    requires SoloInv(s) && Enabled(s, e) && SoloEvent(s, e)
    requires i < |s.callers| && s.callers[i] != Idle && e != Return(i)
    ensures e.Thread? && Step(s, e).callers == s.callers
  {
  }

  ghost predicate Waits(s: System, i: nat) {
    i < |s.callers| && s.callers[i] != Idle
  }

  /** Event `k` is a call, event `m` its return. */
  ghost predicate CallReturns(events: seq<Event>, k: nat, m: nat) {
    && k < m < |events| && (events[k].Start? || events[k].Stop? || events[k].Terminate?)
    && events[m] == Return(events[k].caller)
    && forall j :: k < j < m ==> events[j] != Return(events[k].caller)
  }

  /** Between a call and its return the caller waits. */
  lemma {:induction false} StillWaiting(states: seq<System>, events: seq<Event>, k: nat, m: nat, j: nat)
    requires Run(states, events) && Solo(states, events) && CallReturns(events, k, m) && k < j <= m
    requires Waits(states[k + 1], events[k].caller)
    ensures states[j].callers == states[k + 1].callers
  {
    if j > k + 1 {
      StillWaiting(states, events, k, m, j - 1);
      OnlyThread(states, events, k, m, j - 1);
    }
  }

  lemma OnlyThread(states: seq<System>, events: seq<Event>, k: nat, m: nat, j: nat)
    requires Run(states, events) && Solo(states, events) && CallReturns(events, k, m) && k < j < m
    requires states[j].callers == states[k + 1].callers && Waits(states[k + 1], events[k].caller)
    ensures events[j].Thread? && states[j + 1].callers == states[j].callers
  {
    SoloAt(states, events, j);
    assert Enabled(states[k], events[k]);
    assert Enabled(states[j], events[j]) && SoloEvent(states[j], events[j]);
    WaitStep(states[j], events[j], events[k].caller);
  }

  /** The thread is on its way to work. */
  ghost predicate AboutToWork(s: System) {
    s.work && s.state == Starting && (s.thread == Waiting || s.thread == Top || s.thread == Entering)
  }

  ghost predicate AtWork(s: System) {
    s.work && s.state == Started && s.thread == Working
  }

  lemma {:induction false} WorksBy(states: seq<System>, events: seq<Event>, k: nat, j: nat)
    requires Run(states, events) && k <= j <= |events| && AboutToWork(states[k])
    requires forall l :: k <= l < j ==> events[l].Thread?
    ensures AboutToWork(states[j]) || exists l :: k < l <= j && AtWork(states[l])
  {
    if k < j {
      WorksBy(states, events, k, j - 1);
      assert Enabled(states[j - 1], events[j - 1]);
      if AboutToWork(states[j - 1]) {
        assert AboutToWork(states[j]) || AtWork(states[j]);
      } else {
        var l :| k < l <= j - 1 && AtWork(states[l]);
      }
    }
  }

  /** `startWorking` on a stopped or missing worker does not return before the thread has been at work. */
  lemma StartWorks(states: seq<System>, events: seq<Event>, k: nat, m: nat)
    requires Run(states, events) && Solo(states, events) && CallReturns(events, k, m) && events[k].Start?
    requires !states[k].work || states[k].state == Stopped
    ensures exists j :: k < j <= m && states[j].work && states[j].state == Started && states[j].thread == Working
  {
    SoloAt(states, events, k);
    assert Enabled(states[k], events[k]) && Enabled(states[m], events[m]);
    assert AboutToWork(states[k + 1]);
    forall j | k < j < m
      ensures events[j].Thread?
    {
      StillWaiting(states, events, k, m, j);
      OnlyThread(states, events, k, m, j);
    }
    StillWaiting(states, events, k, m, m);
    WorksBy(states, events, k + 1, m);
    var j :| k + 1 < j <= m && AtWork(states[j]);
  }

  /** `stopWorking` on a started worker returns when the state is `Stopped` and the thread has left its work. */
  lemma StopWorks(states: seq<System>, events: seq<Event>, k: nat, m: nat)
    requires Run(states, events) && Solo(states, events) && CallReturns(events, k, m) && events[k].Stop?
    requires states[k].work && states[k].state == Started
    ensures states[m].work && states[m].state == Stopped && states[m].thread == Waiting
  {
    assert Enabled(states[k], events[k]) && Enabled(states[m], events[m]);
    StillWaiting(states, events, k, m, m);
    SoloAt(states, events, m);
    assert WaitFits(states[m], states[m].callers[events[k].caller]);
  }

  /** `terminate` returns when the thread has finished, and leaves no thread behind. */
  lemma TerminateWorks(states: seq<System>, events: seq<Event>, k: nat, m: nat)
    requires Run(states, events) && Solo(states, events) && CallReturns(events, k, m) && events[k].Terminate?
    requires states[k].work && states[k].state != Killing
    ensures states[m].thread == Finished && !states[m + 1].work
  {
    assert Enabled(states[k], events[k]) && Enabled(states[m], events[m]);
    StillWaiting(states, events, k, m, m);
  }
}
