/** The background worker and its shutdown: a flag under a mutex, a condition variable and a joined thread.
    Every step is one atomic action of the worker, of the dropping thread or of the runtime. */
module GmailScheduler {
  import opened Wrappers

  datatype Worker =
    | LoopTop        // before `wait` locks the mutex
    | Testing        // in `wait`, holding the lock, before the flag is tested
    | Sleeping       // in `wait_timeout`, lock released
    | Waking         // notified, timed out or woken spuriously; wants the lock back
    | Reading        // holding the lock again, before the flag is read
    | Claiming       // in the loop body, before a lease is claimed
    | Working        // running the claimed synchronisation
    | Exited         // left the loop or panicked
    | NeverStarted   // the thread could not be spawned

  datatype Dropper =
    | NotDropping
    | WantsLock      // in `stop`, before the mutex is locked
    | HasLock        // before the flag is set
    | FlagSet        // before `notify_all`
    | Notified       // before the lock is released
    | Joining        // `drop` has the handle, if there is one, and waits for the thread
    | Returned

  datatype Lock = Free | HeldByWorker | HeldByDropper

  /** `leases` counts the leases claimed since the flag was set. */
  datatype State = State(worker: Worker, dropper: Dropper, lock: Lock, stopped: bool, leases: nat)

  datatype Action =
    | WorkerLocks | WorkerTests | WakeUp | WorkerRelocks | WorkerReads
    | Claim(leased: bool) | FinishWork | Panic
    | DropStarts | DropperLocks | SetFlag | NotifyAll | DropperUnlocks | JoinReturns

  function Initial(spawned: bool): State {
    State(if spawned then LoopTop else NeverStarted, NotDropping, Free, false, 0)
  }

  predicate Gone(w: Worker) {
    w.Exited? || w.NeverStarted?
  }

  /** One action, when it is possible. */
  function Do(s: State, a: Action): Option<State> {
    match a
    case WorkerLocks =>
      if s.worker.LoopTop? && s.lock.Free? then Some(s.(worker := Testing, lock := HeldByWorker)) else None
    case WorkerTests =>
      if !s.worker.Testing? then None
      else Some(s.(worker := if s.stopped then Exited else Sleeping, lock := Free))
    case WakeUp =>   // the interval has passed, or a spurious wake-up
      if s.worker.Sleeping? then Some(s.(worker := Waking)) else None
    case WorkerRelocks =>
      if s.worker.Waking? && s.lock.Free? then Some(s.(worker := Reading, lock := HeldByWorker)) else None
    case WorkerReads =>
      if !s.worker.Reading? then None
      else Some(s.(worker := if s.stopped then Exited else Claiming, lock := Free))
    case Claim(leased) =>
      if !s.worker.Claiming? then None
      else Some(s.(worker := if leased then Working else LoopTop, leases := if leased && s.stopped then s.leases + 1 else s.leases))
    case FinishWork =>
      if s.worker.Working? then Some(s.(worker := LoopTop)) else None
    case Panic =>
      if s.worker.Claiming? || s.worker.Working? then Some(s.(worker := Exited)) else None
    case DropStarts =>
      if s.dropper.NotDropping? then Some(s.(dropper := WantsLock)) else None
    case DropperLocks =>
      if s.dropper.WantsLock? && s.lock.Free? then Some(s.(dropper := HasLock, lock := HeldByDropper)) else None
    case SetFlag =>
      if s.dropper.HasLock? then Some(s.(dropper := FlagSet, stopped := true)) else None
    case NotifyAll =>
      if !s.dropper.FlagSet? then None
      else Some(s.(dropper := Notified, worker := if s.worker.Sleeping? then Waking else s.worker))
    case DropperUnlocks =>
      if s.dropper.Notified? then Some(s.(dropper := Joining, lock := Free)) else None
    case JoinReturns =>
      if s.dropper.Joining? && Gone(s.worker) then Some(s.(dropper := Returned)) else None
  }

  /** The state after a run, when every action of it was possible. */
  function Run(s: State, actions: seq<Action>): Option<State> {
    if actions == [] then Some(s)
    else
      match Run(s, actions[..|actions| - 1])
      case None => None
      case Some(t) => Do(t, actions[|actions| - 1])
  }

  // -------------------------------------------------------------------- the invariant

  predicate LockAgrees(s: State) {
    && (s.lock.HeldByWorker? <==> s.worker.Testing? || s.worker.Reading?)
    && (s.lock.HeldByDropper? <==> s.dropper.HasLock? || s.dropper.FlagSet? || s.dropper.Notified?)
  }

  predicate FlagAgrees(s: State) {
    s.stopped <==> s.dropper.FlagSet? || s.dropper.Notified? || s.dropper.Joining? || s.dropper.Returned?
  }

  /** Once everyone has been notified nobody sleeps through the stop. */
  predicate NoStopLost(s: State) {
    s.dropper.Notified? || s.dropper.Joining? || s.dropper.Returned? ==> !s.worker.Sleeping?
  }

  predicate AtMostOneLease(s: State) {
    && (s.leases > 0 ==> s.stopped)
    && s.leases <= 1
    && (s.leases == 1 ==> s.worker.Working? || s.worker.LoopTop? || s.worker.Testing? || s.worker.Exited?)
  }

  predicate JoinedAfterExit(s: State) {
    s.dropper.Returned? ==> Gone(s.worker)
  }

  predicate Invariant(s: State) {
    LockAgrees(s) && FlagAgrees(s) && NoStopLost(s) && AtMostOneLease(s) && JoinedAfterExit(s)
  }

  lemma StepKeepsInvariant(s: State, a: Action)
    requires Invariant(s) && Do(s, a).Some?
    ensures Invariant(Do(s, a).value)
    ensures Do(s, a).value.worker == NeverStarted <==> s.worker == NeverStarted
  {
  }

  /** In every interleaving: mutual exclusion, no stop lost, at most one lease claimed after the flag is set,
      and `drop` returns only after the worker is gone. */
  lemma {:induction false} EveryRunIsSafe(spawned: bool, actions: seq<Action>)
    requires Run(Initial(spawned), actions).Some?
    ensures var s := Run(Initial(spawned), actions).value;
            && Invariant(s) && (s.worker == NeverStarted <==> !spawned)
            && !((s.worker == Testing || s.worker == Reading) && (s.dropper == HasLock || s.dropper == FlagSet || s.dropper == Notified))
            && (s.dropper == Joining ==> s.stopped && s.worker != Sleeping)
            && (s.dropper == Returned ==> s.worker == Exited || s.worker == NeverStarted)
  {
    hide Do, Invariant;
    if actions == [] {
      InitialIsSafe(spawned);
    } else {
      EveryRunIsSafe(spawned, actions[..|actions| - 1]);
      StepKeepsInvariant(Run(Initial(spawned), actions[..|actions| - 1]).value, actions[|actions| - 1]);
    }
    WhatInvariantMeans(Run(Initial(spawned), actions).value);
  }

  lemma WhatInvariantMeans(s: State)
    requires Invariant(s)
    ensures !((s.worker == Testing || s.worker == Reading) && (s.dropper == HasLock || s.dropper == FlagSet || s.dropper == Notified))
    ensures s.dropper == Joining ==> s.stopped && s.worker != Sleeping
    ensures s.dropper == Returned ==> s.worker == Exited || s.worker == NeverStarted
  {
  }

  lemma InitialIsSafe(spawned: bool)
    ensures Invariant(Initial(spawned)) && (Initial(spawned).worker == NeverStarted <==> !spawned)
  {
  }

  // ------------------------------------------------------ what a run says of its claims

  lemma RunOfFront(s: State, actions: seq<Action>, n: nat)
    requires Run(s, actions).Some? && n <= |actions|
    ensures Run(s, actions[..n]).Some?
    decreases |actions|
  {
    hide Do;
    if n == |actions| {
      assert actions[..n] == actions;
    } else {
      RunOfFront(s, actions[..|actions| - 1], n);
      assert actions[..|actions| - 1][..n] == actions[..n];
    }
  }

  /** A synchronisation is running exactly when a lease was granted and the work has not ended since. */
  predicate Leased(actions: seq<Action>) {
    exists k :: 0 <= k < |actions| && actions[k] == Claim(true)
      && forall j :: k < j < |actions| ==> actions[j] != FinishWork && actions[j] != Panic
  }

  lemma LeasedStep(actions: seq<Action>)
    requires actions != []
    ensures var front, last := actions[..|actions| - 1], actions[|actions| - 1];
            Leased(actions) <==> last == Claim(true) || (Leased(front) && last != FinishWork && last != Panic)
  {
    var front, last := actions[..|actions| - 1], actions[|actions| - 1];
    if Leased(front) && last != FinishWork && last != Panic {
      var k :| 0 <= k < |front| && front[k] == Claim(true) && forall j :: k < j < |front| ==> front[j] != FinishWork && front[j] != Panic;
      assert actions[k] == Claim(true);
    }
    if Leased(actions) && last != Claim(true) {
      var k :| 0 <= k < |actions| && actions[k] == Claim(true) && forall j :: k < j < |actions| ==> actions[j] != FinishWork && actions[j] != Panic;
      assert front[k] == Claim(true);
    }
  }

  lemma {:induction false} WorksExactlyWhileLeased(spawned: bool, actions: seq<Action>)
    requires Run(Initial(spawned), actions).Some?
    ensures Run(Initial(spawned), actions).value.worker == Working <==> Leased(actions)
  {
    hide Leased;
    if actions == [] {
      assert !Leased(actions) by { NeverLeased(); }
    } else {
      WorksExactlyWhileLeased(spawned, actions[..|actions| - 1]);
      LeasedStep(actions);
    }
  }

  lemma NeverLeased()
    ensures !Leased([])
  {
  }

  lemma {:induction false} LeasesOnlyGrow(s: State, actions: seq<Action>, n: nat)
    requires Run(s, actions).Some? && n <= |actions|
    ensures Run(s, actions[..n]).Some?
    ensures Run(s, actions[..n]).value.leases <= Run(s, actions).value.leases
    ensures Run(s, actions[..n]).value.stopped ==> Run(s, actions).value.stopped
    decreases |actions|
  {
    if n == |actions| {
      assert actions[..n] == actions;
    } else {
      LeasesOnlyGrow(s, actions[..|actions| - 1], n);
      assert actions[..|actions| - 1][..n] == actions[..n];
    }
  }

  lemma NextState(s: State, actions: seq<Action>, i: nat)
    requires Run(s, actions).Some? && i < |actions|
    ensures Run(s, actions[..i]).Some? && Run(s, actions[..i + 1]) == Do(Run(s, actions[..i]).value, actions[i])
  {
    hide Do;
    RunOfFront(s, actions, i + 1);
    assert actions[..i + 1][..i] == actions[..i];
  }

  lemma ClaimAfterStop(spawned: bool, actions: seq<Action>, stop: nat, i: nat)
    requires Run(Initial(spawned), actions).Some?
    requires stop < i < |actions| && actions[stop] == SetFlag && actions[i] == Claim(true)
    ensures Run(Initial(spawned), actions[..i]).Some? && Run(Initial(spawned), actions[..i + 1]).Some?
    ensures Run(Initial(spawned), actions[..i + 1]).value.leases == Run(Initial(spawned), actions[..i]).value.leases + 1
  {
    hide Run;
    var start := Initial(spawned);
    NextState(start, actions, i);
    NextState(start, actions, stop);
    RunOfFront(start, actions, i + 1);
    LeasesOnlyGrow(start, actions[..i], stop + 1);
    assert actions[..i][..stop + 1] == actions[..stop + 1];
  }

  /** After the flag has been set at most one more lease is claimed. */
  lemma AtMostOneClaimAfterStop(spawned: bool, actions: seq<Action>, stop: nat, i: nat, j: nat)
    requires Run(Initial(spawned), actions).Some?
    requires stop < i < j < |actions| && actions[stop] == SetFlag && actions[i] == Claim(true)
    ensures actions[j] != Claim(true)
  {
    hide Do, Run;
    if actions[j] == Claim(true) {
      ClaimAfterStop(spawned, actions, stop, i);
      ClaimAfterStop(spawned, actions, stop, j);
      LeasesOnlyGrow(Initial(spawned), actions[..j], i + 1);
      assert actions[..j][..i + 1] == actions[..i + 1];
      EveryRunIsSafe(spawned, actions[..j + 1]);
    }
  }

  /** Once `drop` has returned nothing happens any more. */
  lemma NothingAfterReturn(spawned: bool, actions: seq<Action>, k: nat)
    requires Run(Initial(spawned), actions).Some?
    requires k < |actions| && actions[k] == JoinReturns
    ensures k == |actions| - 1
  {
    if k < |actions| - 1 {
      NextState(Initial(spawned), actions, k);
      NextState(Initial(spawned), actions, k + 1);
      EveryRunIsSafe(spawned, actions[..k + 1]);
    }
  }

  // ------------------------------------------------------------------------- progress

  function WorkerRank(w: Worker): nat {
    match w
    case Claiming => 6
    case Working => 5
    case LoopTop => 4
    case Sleeping => 4
    case Waking => 3
    case Testing => 2
    case Reading => 2
    case Exited => 0
    case NeverStarted => 0
  }

  function DropperRank(d: Dropper): nat {
    match d
    case NotDropping => 7
    case WantsLock => 6
    case HasLock => 5
    case FlagSet => 4
    case Notified => 2
    case Joining => 1
    case Returned => 0
  }

  function Rank(s: State): nat {
    WorkerRank(s.worker) + DropperRank(s.dropper)
  }

  ghost predicate CanMove(s: State) {
    exists a :: Do(s, a).Some?
  }

  lemma StoppedStepsDescend(s: State, a: Action)
    requires Invariant(s) && s.stopped && Do(s, a).Some?
    ensures Do(s, a).value.stopped && Rank(Do(s, a).value) < Rank(s)
  {
  }

  /** After the flag is set every run is short, whatever the scheduler, the clock and the worker do. */
  lemma {:induction false} ShutdownIsBounded(s: State, actions: seq<Action>)
    requires Invariant(s) && s.stopped && Run(s, actions).Some?
    ensures Invariant(Run(s, actions).value) && Run(s, actions).value.stopped
    ensures Rank(Run(s, actions).value) + |actions| <= Rank(s) <= 10
  {
    hide Do, Invariant;
    if actions == [] {
      RankWhenStopped(s);
    } else {
      var front, last := actions[..|actions| - 1], actions[|actions| - 1];
      ShutdownIsBounded(s, front);
      StepKeepsInvariant(Run(s, front).value, last);
      StoppedStepsDescend(Run(s, front).value, last);
    }
  }

  lemma RankWhenStopped(s: State)
    requires Invariant(s) && s.stopped
    ensures Rank(s) <= 10
  {
  }

  /** Nothing deadlocks: while `drop` has not returned some step is possible, and it is one that needs neither
      the interval to pass nor a spurious wake-up. */
  lemma DropNeverGetsStuck(s: State)
    requires Invariant(s) && !s.dropper.NotDropping? && !s.dropper.Returned?
    ensures exists a :: a != WakeUp && Do(s, a).Some?
  {
    if s.lock.HeldByWorker? {
      var a := if s.worker.Testing? then WorkerTests else WorkerReads;
      assert Do(s, a).Some?;
    } else {
      var a := match s.dropper
        case WantsLock => DropperLocks
        case HasLock => SetFlag
        case FlagSet => NotifyAll
        case Notified => DropperUnlocks
        case _ =>
          match s.worker
          case LoopTop => WorkerLocks
          case Waking => WorkerRelocks
          case Claiming => Claim(false)
          case Working => FinishWork
          case _ => JoinReturns;
      assert Do(s, a).Some?;
    }
  }

  /** A run from the stop that cannot be continued has ended with the worker gone and `drop` returned. */
  lemma EveryShutdownEnds(s: State, actions: seq<Action>)
    requires Invariant(s) && s.stopped && Run(s, actions).Some? && !CanMove(Run(s, actions).value)
    ensures Run(s, actions).value.dropper.Returned? && Gone(Run(s, actions).value.worker)
  {
    hide Do;
    ShutdownIsBounded(s, actions);
    if !Run(s, actions).value.dropper.Returned? {
      DropNeverGetsStuck(Run(s, actions).value);
    }
  }
}
