/** The refresh-polling protocol of the connector settings: asynchronous tasks race against household switches,
    governed by a generation counter, an in-flight flag and one cancellable timer. Tasks interleave at every
    `await`. A household switch takes two steps: the commit of the new household, and later the clean-up and effects;
    in between, replies, timers and clicks are still handled. Updates of rendered state take effect at once. */
module RefreshPolling {
  import opened Wrappers

  type Household = string
  type TaskId = nat
  type Timer = nat

  /** A refresh batch together with the household it was asked for, and the commit that its task was started under. */
  datatype Batch = Batch(household: Household, commit: nat, batchId: string, active: bool)

  /** The loop a task goes back to after a delay: asking for the active batch again, or polling a batch. */
  datatype Loop = Outer | Poll(batchId: string)

  datatype Position =
    | AwaitActive
    | AwaitStart
    | AwaitBatch(batchId: string)
    | Sleeping(timer: Timer, loop: Loop)
    | Woken(loop: Loop)       // the delay is resolved, the loop condition not yet tested
    | AwaitReload
    | Returning               // the polling function has returned to its caller
    | Done

  datatype Task = Task(household: Household, commit: nat, generation: nat, position: Position)

  datatype Delay = Delay(timer: Timer, owner: TaskId)

  /** `household` is rendered and `served` is the one the effects last ran for; `pending` says that effects are due,
      `ran` that they have run before, and `commits` counts the household changes. */
  datatype View = View(household: Option<Household>, served: Option<Household>, commits: nat, pending: bool, ran: bool, mounted: bool)

  datatype State = State(
    view: View,
    generation: nat, inFlight: bool, delay: Option<Delay>,          // refs
    batch: Option<Batch>, starting: bool, error: bool,              // rendered state
    timers: map<Timer, TaskId>, tasks: map<TaskId, Task>,           // the event loop
    nextTimer: Timer, nextTask: TaskId)

  datatype Reply = Failed | Nothing | Fetched(batchId: string, active: bool)

  datatype Action =
    | Commit(household: Option<Household>)
    | RunEffects
    | Unmount
    | Click
    | Continue(task: TaskId, reply: Reply)
    | TimerFires(timer: Timer)

  // ---------------------------------------------------------------------- the program

  /** Resolving a delay wakes its owner; resolving it again does nothing. */
  function Wake(tasks: map<TaskId, Task>, id: TaskId): map<TaskId, Task> {
    if id in tasks && tasks[id].position.Sleeping?
    then tasks[id := tasks[id].(position := Woken(tasks[id].position.loop))]
    else tasks
  }

  /** `cancelRefreshPolling` */
  function Cancel(s: State): (r: State)
    ensures r.tasks.Keys == s.tasks.Keys
  {
    match s.delay
    case None => s.(generation := s.generation + 1)
    case Some(d) =>
      s.(generation := s.generation + 1, timers := s.timers - {d.timer}, delay := None, tasks := Wake(s.tasks, d.owner))
  }

  function Spawn(s: State, task: Task): State {
    s.(tasks := s.tasks[s.nextTask := task], nextTask := s.nextTask + 1)
  }

  function Move(s: State, id: TaskId, position: Position): State
    requires id in s.tasks
  {
    s.(tasks := s.tasks[id := s.tasks[id].(position := position)])
  }

  predicate IsCurrent(s: State, id: TaskId) {
    id in s.tasks && s.tasks[id].generation == s.generation
  }

  /** The reset effect, then the effect that resumes an active batch. */
  function Effects(s: State): State {
    var reset := Cancel(s).(inFlight := false, batch := None, starting := false, error := false);
    match reset.view.household
    case None => reset
    case Some(h) => Spawn(reset.(inFlight := true, starting := true), Task(h, reset.view.commits, reset.generation, AwaitActive))
  }

  function CleanUp(s: State): State {
    Cancel(s).(inFlight := false)
  }

  /** Clean-up of the previous effects, if they have run. */
  function Due(s: State): State {
    (if s.view.ran then CleanUp(s) else s).(view := s.view.(served := s.view.household, pending := false, ran := true))
  }

  /** Then the effects for the rendered household. */
  function Refresh(s: State): State {
    Effects(Due(s))
  }

  /** A render with another household; effects that are due run before any further render. */
  function Committed(s: State, household: Option<Household>): State {
    if household == s.view.household then s
    else s.(view := s.view.(household := household, commits := s.view.commits + 1, pending := true))
  }

  /** `runRefresh` up to its first await. */
  function Start(s: State): State {
    if s.view.household.None? || s.inFlight then s
    else Spawn(s.(inFlight := true, starting := true, error := false), Task(s.view.household.value, s.view.commits, s.generation, AwaitStart))
  }

  /** `waitForRefreshPoll` */
  function Wait(s: State, id: TaskId, loop: Loop): State
    requires id in s.tasks
  {
    if !IsCurrent(s, id) then Move(s, id, Woken(loop))
    else
      var t := s.nextTimer;
      Move(s, id, Sleeping(t, loop)).(timers := s.timers[t := id], delay := Some(Delay(t, id)), nextTimer := t + 1)
  }

  /** The `finally` clause of either task. */
  function Finish(s: State, id: TaskId): State
    requires id in s.tasks
  {
    var done := Move(s, id, Done);
    if IsCurrent(s, id) then done.(inFlight := false, starting := false) else done
  }

  /** A task continues with the reply to the call it awaited. */
  function Continued(s: State, id: TaskId, reply: Reply): Option<State>
    requires id in s.tasks
  {
    var task := s.tasks[id];
    match task.position
    case AwaitActive =>
      if !IsCurrent(s, id) then Some(Finish(s, id))
      else if reply.Failed? then Some(Wait(s.(error := true), id, Outer))
      else if reply.Nothing? then Some(Finish(s.(batch := None, error := false), id))
      else Some(Move(s.(batch := Some(Batch(task.household, task.commit, reply.batchId, reply.active)), error := false),
                     id, AwaitBatch(reply.batchId)))
    case AwaitStart =>
      if reply.Nothing? then None
      else if !IsCurrent(s, id) then Some(Finish(s, id))
      else if reply.Failed? then Some(Finish(s.(error := true), id))
      else
        var accepted := Cancel(s).(batch := None);
        Some(accepted.(tasks := accepted.tasks[id := Task(task.household, task.commit, accepted.generation, AwaitBatch(reply.batchId))]))
    case AwaitBatch(batchId) =>
      if reply.Nothing? then None
      else if !IsCurrent(s, id) then Some(Move(s, id, Returning))
      else if reply.Failed? then Some(Wait(s.(error := true), id, Poll(batchId)))
      else
        var shown := s.(error := false, batch := Some(Batch(task.household, task.commit, batchId, reply.active)));
        if reply.active then Some(Wait(shown, id, Poll(batchId))) else Some(Move(shown, id, AwaitReload))
    case Sleeping(_, _) => None
    case Woken(Outer) => Some(if IsCurrent(s, id) then Move(s, id, AwaitActive) else Finish(s, id))
    case Woken(Poll(batchId)) => Some(Move(s, id, if IsCurrent(s, id) then AwaitBatch(batchId) else Returning))
    case AwaitReload => Some(Move(s, id, Returning))
    case Returning => Some(Finish(s, id))
    case Done => None
  }

  function Fired(s: State, timer: Timer): Option<State> {
    if timer !in s.timers then None
    else
      Some(s.(timers := s.timers - {timer},
              delay := if s.delay.Some? && s.delay.value.timer == timer then None else s.delay,
              tasks := Wake(s.tasks, s.timers[timer])))
  }

  function Unmounted(s: State): State {
    CleanUp(s).(view := s.view.(mounted := false))
  }

  function Next(s: State, a: Action): Option<State> {
    match a
    case Commit(household) => if s.view.mounted && !s.view.pending then Some(Committed(s, household)) else None
    case RunEffects => if s.view.mounted && s.view.pending then Some(Refresh(s)) else None
    case Unmount => if s.view.mounted && !s.view.pending then Some(Unmounted(s)) else None
    case Click => if s.view.mounted then Some(Start(s)) else None
    case Continue(task, reply) => if task in s.tasks then Continued(s, task, reply) else None
    case TimerFires(timer) => Fired(s, timer)
  }

  /** The component as first rendered, its effects still due. */
  function Mounted(household: Option<Household>): State {
    State(View(household, None, 0, true, false, true), 0, false, None, None, false, false, map[], map[], 0, 0)
  }

  function Run(s: State, actions: seq<Action>): Option<State> {
    if actions == [] then Some(s)
    else
      match Run(s, actions[..|actions| - 1])
      case None => None
      case Some(t) => Next(t, actions[|actions| - 1])
  }

  // --------------------------------------------------------------------- the invariant

  /** An unfinished task of the current generation. */
  predicate Live(s: State, id: TaskId) {
    IsCurrent(s, id) && !s.tasks[id].position.Done?
  }

  predicate AtMostOneLive(s: State) {
    forall a <- s.tasks.Keys, b <- s.tasks.Keys :: Live(s, a) && Live(s, b) ==> a == b
  }

  predicate InFlightExactlyWhileLive(s: State) {
    && (s.view.mounted ==> s.starting == s.inFlight)
    && (!s.view.mounted ==> !s.inFlight)
    && (s.inFlight <==> exists id <- s.tasks.Keys :: Live(s, id))
  }

  /** The household that something started under a commit belongs to: the rendered one, or the one before it. */
  function HouseholdAt(v: View, commit: nat): Option<Household> {
    if commit == v.commits then v.household else v.served
  }

  predicate EffectsAgree(v: View) {
    && (v.ran && !v.pending ==> v.served == v.household)
    && (v.pending && v.commits > 0 ==> v.served != v.household)
    && (!v.ran ==> v.pending && v.commits == 0)
  }

  predicate LiveTaskServesSelection(s: State) {
    forall id <- s.tasks.Keys ::
      s.tasks[id].commit <= s.view.commits && (Live(s, id) ==> HouseholdAt(s.view, s.tasks[id].commit) == Some(s.tasks[id].household))
  }

  predicate BatchIsOfSelection(s: State) {
    s.batch.Some? ==>
      s.batch.value.commit <= s.view.commits && HouseholdAt(s.view, s.batch.value.commit) == Some(s.batch.value.household)
  }

  /** One timer at most, held by `delay`; its owner and nobody else sleeps. */
  predicate TimerIsOwned(s: State) {
    && s.timers == (if s.delay.Some? then map[s.delay.value.timer := s.delay.value.owner] else map[])
    && (forall id <- s.tasks.Keys :: s.tasks[id].position.Sleeping? ==>
          s.delay == Some(Delay(s.tasks[id].position.timer, id)))
    && (s.delay.Some? ==>
          var d := s.delay.value; Live(s, d.owner) && s.tasks[d.owner].position.Sleeping? && s.tasks[d.owner].position.timer == d.timer)
  }

  predicate CountersAhead(s: State) {
    && (forall id <- s.tasks.Keys :: id < s.nextTask && s.tasks[id].generation <= s.generation)
    && (s.delay.Some? ==> s.delay.value.timer < s.nextTimer)
  }

  predicate Invariant(s: State) {
    && AtMostOneLive(s) && InFlightExactlyWhileLive(s) && LiveTaskServesSelection(s)
    && BatchIsOfSelection(s) && EffectsAgree(s.view) && TimerIsOwned(s) && CountersAhead(s)
  }

  // ------------------------------------------------------------------ steps keep it

  /** After a cancel no timer is pending, nobody sleeps, and no task of the old generation is live. */
  lemma CancelStopsEverything(s: State)
    requires TimerIsOwned(s) && CountersAhead(s)
    ensures Cancel(s).timers == map[] && Cancel(s).delay.None?
    ensures forall id <- Cancel(s).tasks.Keys :: !Cancel(s).tasks[id].position.Sleeping? && !Live(Cancel(s), id)
    ensures TimerIsOwned(Cancel(s)) && CountersAhead(Cancel(s))
    ensures Cancel(s).tasks.Keys == s.tasks.Keys
    ensures forall id <- s.tasks.Keys :: !s.tasks[id].position.Sleeping? ==> Cancel(s).tasks[id] == s.tasks[id]
  {
  }

  /** A task that is awake moves to another waking position. */
  lemma MoveKeeps(s: State, id: TaskId, position: Position)
    requires Invariant(s) && id in s.tasks && !s.tasks[id].position.Sleeping? && !s.tasks[id].position.Done?
    requires !position.Sleeping? && !position.Done?
    ensures Invariant(Move(s, id, position))
  {
    var t := Move(s, id, position);
    assert forall x <- s.tasks.Keys :: Live(t, x) <==> Live(s, x);
    assert t.tasks.Keys == s.tasks.Keys;
  }

  lemma FinishedIsNotLive(s: State, id: TaskId)
    requires id in s.tasks && !s.tasks[id].position.Sleeping?
    ensures var t := Finish(s, id);
            && t == s.(tasks := s.tasks[id := s.tasks[id].(position := Done)], inFlight := s.inFlight && !IsCurrent(s, id),
                       starting := s.starting && !IsCurrent(s, id))
            && (forall x <- s.tasks.Keys :: Live(t, x) <==> Live(s, x) && x != id)
  {
  }

  lemma FinishKeeps(s: State, id: TaskId)
    requires Invariant(s) && id in s.tasks && !s.tasks[id].position.Sleeping? && !s.tasks[id].position.Done?
    ensures Invariant(Finish(s, id))
  {
    hide Finish;
    FinishedIsNotLive(s, id);
    var t := Finish(s, id);
    assert t.tasks.Keys == s.tasks.Keys;
    assert Live(s, id) <==> IsCurrent(s, id);
    FinishKeepsTimer(s, id);
  }

  lemma FinishKeepsTimer(s: State, id: TaskId)
    requires TimerIsOwned(s) && id in s.tasks && !s.tasks[id].position.Sleeping?
    ensures TimerIsOwned(Finish(s, id))
  {
  }

  lemma ShowKeeps(s: State, batch: Option<Batch>, error: bool)
    requires Invariant(s)
    requires batch.Some? ==> batch.value.commit <= s.view.commits && HouseholdAt(s.view, batch.value.commit) == Some(batch.value.household)
    ensures Invariant(s.(batch := batch, error := error))
  {
    hide TimerIsOwned, CountersAhead, Live;
    SameLoop(s, s.(batch := batch, error := error));
  }

  lemma WaitKeeps(s: State, id: TaskId, loop: Loop)
    requires Invariant(s) && Live(s, id) && !s.tasks[id].position.Sleeping?
    ensures Invariant(Wait(s, id, loop))
  {
    assert s.delay.None?;
    var t := Wait(s, id, loop);
    assert t.tasks.Keys == s.tasks.Keys;
    assert forall x <- s.tasks.Keys :: Live(t, x) <==> Live(s, x);
  }

  lemma StartKeeps(s: State)
    requires Invariant(s) && s.view.mounted
    ensures Invariant(Start(s))
  {
    var t := Start(s);
    if s.view.household.Some? && !s.inFlight {
      assert t.tasks.Keys == s.tasks.Keys + {s.nextTask};
      assert forall x <- s.tasks.Keys :: !Live(t, x);
      assert Live(t, s.nextTask);
    }
  }

  predicate TasksAreOlder(s: State) {
    forall id <- s.tasks.Keys :: s.tasks[id].commit <= s.view.commits
  }

  lemma EffectsEstablish(s: State)
    requires TimerIsOwned(s) && CountersAhead(s) && TasksAreOlder(s)
    requires s.view.mounted && s.view.ran && !s.view.pending && s.view.served == s.view.household
    ensures Invariant(Effects(s))
  {
    hide Cancel;
    CancelStopsEverything(s);
    CancelAdvances(s);
    var t := Effects(s);
    assert forall x <- s.tasks.Keys :: !Live(t, x);
    if s.view.household.Some? {
      assert t.tasks.Keys == s.tasks.Keys + {s.nextTask};
      assert Live(t, s.nextTask);
    }
  }

  lemma DueIsReady(s: State)
    requires TimerIsOwned(s) && CountersAhead(s) && TasksAreOlder(s)
    ensures var due := Due(s);
            && TimerIsOwned(due) && CountersAhead(due) && TasksAreOlder(due) && due.tasks.Keys == s.tasks.Keys
            && due.view == s.view.(served := s.view.household, pending := false, ran := true)
            && forall id <- s.tasks.Keys :: due.tasks[id] == s.tasks[id].(position := due.tasks[id].position)
  {
    hide Cancel, TimerIsOwned, CountersAhead;
    CancelStopsEverything(s);
    CancelAdvances(s);
    SameLoop(if s.view.ran then Cancel(s) else s, Due(s));
  }

  /** Timers and sleepers depend on nothing but the event loop, the delay and the generation. */
  lemma SameLoop(s: State, t: State)
    requires t.tasks == s.tasks && t.timers == s.timers && t.delay == s.delay && t.generation == s.generation
    requires t.nextTask == s.nextTask && t.nextTimer == s.nextTimer
    ensures TimerIsOwned(s) <==> TimerIsOwned(t)
    ensures CountersAhead(s) <==> CountersAhead(t)
    ensures forall x :: Live(s, x) <==> Live(t, x)
  {
  }

  lemma RefreshKeeps(s: State)
    requires Invariant(s) && s.view.mounted
    ensures Invariant(Refresh(s))
  {
    hide Effects, Due, Invariant;
    InvariantParts(s);
    DueIsReady(s);
    EffectsEstablish(Due(s));
  }

  lemma InvariantParts(s: State)
    requires Invariant(s)
    ensures TimerIsOwned(s) && CountersAhead(s) && TasksAreOlder(s)
  {
  }

  lemma CommitKeeps(s: State, household: Option<Household>)
    requires Invariant(s) && !s.view.pending
    ensures Invariant(Committed(s, household))
  {
    hide TimerIsOwned, CountersAhead, Live;
    var t := Committed(s, household);
    SameLoop(s, t);
  }

  lemma UnmountKeeps(s: State)
    requires Invariant(s)
    ensures Invariant(Unmounted(s))
  {
    hide Cancel;
    CancelStopsEverything(s);
    CancelAdvances(s);
    var t := Unmounted(s);
    assert forall x <- s.tasks.Keys :: Live(t, x) <==> Live(Cancel(s), x);
  }

  lemma CancelAdvances(s: State)
    requires TimerIsOwned(s)
    ensures Cancel(s) == s.(generation := s.generation + 1, delay := None, timers := Cancel(s).timers, tasks := Cancel(s).tasks)
    ensures forall id <- s.tasks.Keys :: Cancel(s).tasks[id] == s.tasks[id].(position := Cancel(s).tasks[id].position)
  {
  }

  /** The accepted generation of a started refresh: its task is the only live one again. */
  lemma AcceptKeeps(s: State, id: TaskId, batchId: string)
    requires Invariant(s) && Live(s, id) && s.tasks[id].position.AwaitStart?
    ensures Invariant(Continued(s, id, Fetched(batchId, true)).value)
  {
    hide Cancel, TimerIsOwned, CountersAhead;
    CancelStopsEverything(s);
    CancelAdvances(s);
    var c := Cancel(s);
    var task := Task(s.tasks[id].household, s.tasks[id].commit, c.generation, AwaitBatch(batchId));
    var t := c.(batch := None, tasks := c.tasks[id := task]);
    assert t.tasks.Keys == s.tasks.Keys;
    assert forall x <- s.tasks.Keys :: Live(t, x) <==> x == id;
    AcceptedLoop(c, id, task);
    SameLoop(c.(tasks := c.tasks[id := task]), t);
  }

  lemma AcceptedLoop(c: State, id: TaskId, task: Task)
    requires CountersAhead(c) && c.timers == map[] && c.delay.None? && id in c.tasks
    requires forall x <- c.tasks.Keys :: !c.tasks[x].position.Sleeping?
    requires task.generation <= c.generation && !task.position.Sleeping?
    ensures TimerIsOwned(c.(tasks := c.tasks[id := task])) && CountersAhead(c.(tasks := c.tasks[id := task]))
  {
  }

  lemma AwaitActiveKeeps(s: State, id: TaskId, reply: Reply)
    requires Invariant(s) && id in s.tasks && s.tasks[id].position.AwaitActive?
    ensures Invariant(Continued(s, id, reply).value)
  {
    hide Invariant, Move, Finish, Wait;
    if !IsCurrent(s, id) {
      FinishKeeps(s, id);
    } else {
      LiveServesSelection(s, id);
      if reply.Failed? {
        ShowKeepsBatch(s, true);
        WaitKeeps(s.(error := true), id, Outer);
      } else if reply.Nothing? {
        ShowKeeps(s, None, false);
        FinishKeeps(s.(batch := None, error := false), id);
      } else {
        var batch := Some(Batch(s.tasks[id].household, s.tasks[id].commit, reply.batchId, reply.active));
        ShowKeeps(s, batch, false);
        MoveKeeps(s.(batch := batch, error := false), id, AwaitBatch(reply.batchId));
      }
    }
  }

  lemma AwaitStartKeeps(s: State, id: TaskId, reply: Reply)
    requires Invariant(s) && id in s.tasks && s.tasks[id].position.AwaitStart? && !reply.Nothing?
    ensures Invariant(Continued(s, id, reply).value)
  {
    hide Invariant, Move, Finish, Wait, Cancel;
    if !IsCurrent(s, id) {
      FinishKeeps(s, id);
    } else if reply.Failed? {
      ShowKeepsBatch(s, true);
      FinishKeeps(s.(error := true), id);
    } else {
      AcceptKeeps(s, id, reply.batchId);
    }
  }

  lemma AwaitBatchKeeps(s: State, id: TaskId, reply: Reply)
    requires Invariant(s) && id in s.tasks && s.tasks[id].position.AwaitBatch? && !reply.Nothing?
    ensures Invariant(Continued(s, id, reply).value)
  {
    hide Invariant, Move, Finish, Wait;
    var batchId := s.tasks[id].position.batchId;
    if !IsCurrent(s, id) {
      MoveKeeps(s, id, Returning);
    } else {
      LiveServesSelection(s, id);
      if reply.Failed? {
        ShowKeepsBatch(s, true);
        WaitKeeps(s.(error := true), id, Poll(batchId));
      } else {
        var batch := Some(Batch(s.tasks[id].household, s.tasks[id].commit, batchId, reply.active));
        ShowKeeps(s, batch, false);
        if reply.active {
          WaitKeeps(s.(batch := batch, error := false), id, Poll(batchId));
        } else {
          MoveKeeps(s.(batch := batch, error := false), id, AwaitReload);
        }
      }
    }
  }

  lemma LiveServesSelection(s: State, id: TaskId)
    requires Invariant(s) && Live(s, id)
    ensures s.tasks[id].commit <= s.view.commits && HouseholdAt(s.view, s.tasks[id].commit) == Some(s.tasks[id].household)
  {
  }

  lemma ShowKeepsBatch(s: State, error: bool)
    requires Invariant(s)
    ensures Invariant(s.(error := error))
  {
    ShowKeeps(s, s.batch, error);
    assert s.(batch := s.batch, error := error) == s.(error := error);
  }

  lemma ContinueKeeps(s: State, id: TaskId, reply: Reply)
    requires Invariant(s) && id in s.tasks && Continued(s, id, reply).Some?
    ensures Invariant(Continued(s, id, reply).value)
  {
    hide Invariant, Move, Finish, Wait, Cancel;
    match s.tasks[id].position
    case AwaitActive => AwaitActiveKeeps(s, id, reply);
    case AwaitStart => AwaitStartKeeps(s, id, reply);
    case AwaitBatch(_) => AwaitBatchKeeps(s, id, reply);
    case Woken(Outer) =>
      if IsCurrent(s, id) {
        MoveKeeps(s, id, AwaitActive);
      } else {
        FinishKeeps(s, id);
      }
    case Woken(Poll(batchId)) => MoveKeeps(s, id, if IsCurrent(s, id) then AwaitBatch(batchId) else Returning);
    case AwaitReload => MoveKeeps(s, id, Returning);
    case Returning => FinishKeeps(s, id);
  }

  lemma FireKeeps(s: State, timer: Timer)
    requires Invariant(s) && timer in s.timers
    ensures Invariant(Fired(s, timer).value)
  {
    var t := Fired(s, timer).value;
    assert t.tasks.Keys == s.tasks.Keys;
    assert forall x <- s.tasks.Keys :: Live(t, x) <==> Live(s, x);
  }

  lemma StepKeepsInvariant(s: State, a: Action)
    requires Invariant(s) && Next(s, a).Some?
    ensures Invariant(Next(s, a).value)
  {
    hide Invariant, Continued, Start, Refresh, Committed, Unmounted;
    match a
    case Commit(household) => CommitKeeps(s, household);
    case RunEffects => RefreshKeeps(s);
    case Unmount => UnmountKeeps(s);
    case Click => StartKeeps(s);
    case Continue(task, reply) => ContinueKeeps(s, task, reply);
    case TimerFires(timer) => FireKeeps(s, timer);
  }

  // ------------------------------------------------------------------------ main results

  lemma MountedIsSafe(household: Option<Household>)
    ensures Invariant(Mounted(household))
  {
  }

  /** In every interleaving of replies, clicks, timers, household changes, effects and unmounting: at most one live task,
      the flag true exactly while there is one, every shown batch fetched for the household that was rendered when its
      task started, and one timer at most, pending exactly while its owner sleeps. */
  lemma {:induction false} EveryRunIsSafe(household: Option<Household>, actions: seq<Action>)
    requires Run(Mounted(household), actions).Some?
    ensures Invariant(Run(Mounted(household), actions).value)
    ensures var s := Run(Mounted(household), actions).value;
            && (forall a <- s.tasks.Keys, b <- s.tasks.Keys :: Live(s, a) && Live(s, b) ==> a == b)
            && (s.inFlight <==> exists id <- s.tasks.Keys :: Live(s, id))
            && (s.view.mounted ==> (s.starting <==> s.inFlight))
            && |s.timers| <= 1 && (s.timers != map[] <==> exists id <- s.tasks.Keys :: s.tasks[id].position.Sleeping?)
  {
    hide Invariant, Next;
    if actions == [] {
      MountedIsSafe(household);
    } else {
      EveryRunIsSafe(household, actions[..|actions| - 1]);
      StepKeepsInvariant(Run(Mounted(household), actions[..|actions| - 1]).value, actions[|actions| - 1]);
    }
    WhatInvariantMeans(Run(Mounted(household), actions).value);
  }

  lemma WhatInvariantMeans(s: State)
    requires Invariant(s)
    ensures forall a <- s.tasks.Keys, b <- s.tasks.Keys :: Live(s, a) && Live(s, b) ==> a == b
    ensures s.inFlight <==> exists id <- s.tasks.Keys :: Live(s, id)
    ensures s.view.mounted ==> (s.starting <==> s.inFlight)
    ensures |s.timers| <= 1 && (s.timers != map[] <==> exists id <- s.tasks.Keys :: s.tasks[id].position.Sleeping?)
  {
    if s.delay.Some? {
      assert s.delay.value.timer in s.timers;
    }
  }

  /** Renders and effects alternate: while effects are due there is no further render and no unmounting. */
  lemma EffectsComeBeforeRenders(household: Option<Household>, actions: seq<Action>, next: Option<Household>)
    requires Run(Mounted(household), actions).Some?
    ensures var s := Run(Mounted(household), actions).value;
            && (Next(s, RunEffects).Some? <==> s.view.mounted && s.view.pending)
            && (Next(s, Unmount).Some? <==> Next(s, Commit(next)).Some?)
            && (Next(s, Unmount).Some? || Next(s, RunEffects).Some? <==> Next(s, Click).Some?)
            && (Next(s, Unmount).Some? ==> Next(s, RunEffects).None? && s.view.served == s.view.household)
    ensures actions == [] ==>
              var s := Run(Mounted(household), actions).value;
              s.view.pending && s.batch.None? && !s.error && !s.inFlight && !s.starting && s.tasks == map[]
  {
    hide Run, Due, Effects;
    EveryRunIsSafe(household, actions);
    if actions == [] {
      OneMoreStep(Mounted(household), [], Click);
    }
  }

  /** After every run a shown batch belongs to the rendered household exactly when no effects are due or its task was
      started under the present commit. */
  lemma ShownBatchBelongsIff(household: Option<Household>, actions: seq<Action>)
    requires Run(Mounted(household), actions).Some? && Run(Mounted(household), actions).value.batch.Some?
    ensures var s := Run(Mounted(household), actions).value;
            s.view.household == Some(s.batch.value.household) <==> !s.view.pending || s.batch.value.commit == s.view.commits
  {
    hide Run, Mounted;
    EveryRunIsSafe(household, actions);
  }

  /** The window is real: a reply that arrives between a commit and its effects shows a batch of the old household. */
  lemma LateReplyShowsOldHousehold(first: Household, next: Household, batchId: string) returns (actions: seq<Action>)
    requires first != next
    ensures Run(Mounted(Some(first)), actions).Some?
    ensures var s := Run(Mounted(Some(first)), actions).value;
            s.view.household == Some(next) && s.batch.Some? && s.batch.value.household == first && s.view.pending
  {
    hide Wait, Finish;
    var s0 := Mounted(Some(first));
    var s1 := Refresh(s0);
    assert s1.tasks == map[0 := Task(first, 0, 1, AwaitActive)] && s1.generation == 1 && s1.view.household == Some(first);
    var s2 := Committed(s1, Some(next));
    actions := [RunEffects];
    OneMoreStep(s0, [], RunEffects);
    OneMoreStep(s0, actions, Commit(Some(next)));
    actions := actions + [Commit(Some(next))];
    assert Run(s0, actions) == Some(s2);
    OneMoreStep(s0, actions, Continue(0, Fetched(batchId, true)));
    actions := actions + [Continue(0, Fetched(batchId, true))];
  }

  lemma OneMoreStep(s: State, actions: seq<Action>, a: Action)
    ensures Run(s, []) == Some(s)
    ensures Run(s, actions + [a]) == match Run(s, actions) case None => None case Some(t) => Next(t, a)
    ensures [] + [a] == [a]
  {
    hide Next;
    assert (actions + [a])[..|actions|] == actions;
  }

  function Remaining(position: Position): nat {
    match position
    case Done => 0
    case Returning => 1
    case _ => 2
  }

  /** Where a task of an older generation goes next. */
  function Leaving(position: Position): Position {
    match position
    case AwaitBatch(_) => Returning
    case AwaitReload => Returning
    case Woken(Poll(_)) => Returning
    case _ => Done
  }

  /** A task of an older generation changes nothing but its own position, and heads straight for its end. */
  lemma StaleTasksAreInert(s: State, id: TaskId, reply: Reply)
    requires id in s.tasks && !IsCurrent(s, id) && Continued(s, id, reply).Some?
    ensures var next := Leaving(s.tasks[id].position);
            && Continued(s, id, reply).value == s.(tasks := s.tasks[id := s.tasks[id].(position := next)])
            && Remaining(next) < Remaining(s.tasks[id].position)
  {
    hide Wait, Cancel;
  }

  /** No task is stuck: an unfinished one can continue or sleeps on a pending timer, and once its generation is
      over it never sleeps. */
  lemma TasksAreNotStuck(s: State, id: TaskId)
    requires Invariant(s) && id in s.tasks && !s.tasks[id].position.Done?
    ensures s.tasks[id].position.Sleeping? ==> IsCurrent(s, id) && s.tasks[id].position.timer in s.timers
    ensures !s.tasks[id].position.Sleeping? ==> forall batchId, active :: Continued(s, id, Fetched(batchId, active)).Some?
  {
    hide Wait, Cancel, Move, Finish;
  }

  /** Every sleeper has its timer pending, and that timer wakes it. */
  lemma SleepersWake(s: State, id: TaskId)
    requires Invariant(s) && id in s.tasks && s.tasks[id].position.Sleeping?
    ensures s.timers == map[s.tasks[id].position.timer := id]
    ensures Fired(s, s.tasks[id].position.timer).Some?
    ensures Fired(s, s.tasks[id].position.timer).value.tasks[id].position == Woken(s.tasks[id].position.loop)
    ensures Fired(s, s.tasks[id].position.timer).value.timers == map[]
  {
  }

  /** The effects of a household change show no batch of the old household, leave no timer and no sleeper, and make every
      old task stale. */
  lemma EffectsStartAfresh(s: State)
    requires Invariant(s) && s.view.mounted
    ensures var t := Refresh(s);
            && t.batch.None? && !t.error && t.timers == map[] && t.delay.None? && !t.view.pending
            && t.view.household == t.view.served == s.view.household && (t.inFlight <==> s.view.household.Some?)
            && (forall id <- s.tasks.Keys :: id in t.tasks && !IsCurrent(t, id) && !t.tasks[id].position.Sleeping?
                                             && t.tasks[id].household == s.tasks[id].household)
  {
    hide Effects, Due, Invariant;
    InvariantParts(s);
    DueIsReady(s);
    EffectsLeaveNothing(Due(s));
  }

  lemma EffectsLeaveNothing(s: State)
    requires TimerIsOwned(s) && CountersAhead(s)
    ensures var t := Effects(s);
            && t.batch.None? && !t.error && t.timers == map[] && t.delay.None? && t.view == s.view
            && (t.inFlight <==> s.view.household.Some?)
            && (forall id <- s.tasks.Keys :: id in t.tasks && !IsCurrent(t, id) && !t.tasks[id].position.Sleeping?
                                             && t.tasks[id].household == s.tasks[id].household)
  {
    hide Cancel;
    CancelStopsEverything(s);
    CancelAdvances(s);
  }

  /** Unmounting leaves no timer, no sleeper and no live task, and no later run makes a task live or lights the flag. */
  lemma {:induction false} UnmountEndsEverything(s: State, actions: seq<Action>)
    requires Invariant(s) && !s.view.mounted && Run(s, actions).Some?
    ensures var t := Run(s, actions).value;
            && Invariant(t) && !t.view.mounted && !t.inFlight && t.timers == map[]
            && forall id <- t.tasks.Keys :: !Live(t, id) && !t.tasks[id].position.Sleeping?
  {
    hide Next, Invariant;
    if actions != [] {
      var before := Run(s, actions[..|actions| - 1]).value;
      UnmountEndsEverything(s, actions[..|actions| - 1]);
      StepKeepsInvariant(before, actions[|actions| - 1]);
      StaysUnmounted(before, actions[|actions| - 1]);
    }
    UnmountedIsQuiet(Run(s, actions).value);
  }

  lemma UnmountedIsQuiet(s: State)
    requires Invariant(s) && !s.view.mounted
    ensures !s.inFlight && s.timers == map[] && forall id <- s.tasks.Keys :: !Live(s, id) && !s.tasks[id].position.Sleeping?
  {
  }

  lemma StaysUnmounted(s: State, a: Action)
    requires !s.view.mounted && Next(s, a).Some?
    ensures !Next(s, a).value.view.mounted
  {
    hide Wake, IsCurrent, Refresh, Committed, Unmounted, Start;
  }

  // --------------------------------------------------- when polling goes on and when it ends

  /** What is shown while a live task is at a position: it waits only after an error or for a running batch, it reloads only
      after a finished one, and a start is only awaited while no running batch is shown. */
  predicate Fits(batch: Option<Batch>, error: bool, position: Position) {
    match position
    case AwaitActive => batch.None?
    case AwaitStart => (batch.Some? ==> !batch.value.active) && !error
    case AwaitBatch(b) => batch.Some? ==> batch.value.batchId == b
    case Sleeping(_, Outer) => batch.None? && error
    case Woken(Outer) => batch.None? && error
    case Sleeping(_, Poll(b)) => (batch.Some? ==> batch.value.batchId == b) && (error || (batch.Some? && batch.value.active))
    case Woken(Poll(b)) => (batch.Some? ==> batch.value.batchId == b) && (error || (batch.Some? && batch.value.active))
    case AwaitReload => batch.Some? && !batch.value.active && !error
    case Returning => batch.Some? && !batch.value.active && !error
    case Done => true
  }

  predicate LiveTaskFits(s: State) {
    forall id <- s.tasks.Keys :: Live(s, id) ==> Fits(s.batch, s.error, s.tasks[id].position)
  }

  /** While nothing is in flight no running batch is shown: polling never stops on one. */
  predicate IdleMeansFinished(s: State) {
    s.view.mounted && !s.inFlight && s.batch.Some? ==> !s.batch.value.active
  }

  lemma LiveMeansInFlight(s: State, id: TaskId)
    requires Invariant(s) && Live(s, id)
    ensures s.inFlight && s.view.mounted && forall x <- s.tasks.Keys :: Live(s, x) ==> x == id
  {
  }

  /** After a step of the one live task only its own position matters, or, when it has ended, what is left shown. */
  lemma FitsAfterStep(s: State, t: State, id: TaskId)
    requires Invariant(s) && Live(s, id) && Invariant(t)
    requires t.tasks.Keys == s.tasks.Keys && t.view == s.view && forall x <- s.tasks.Keys :: x != id ==> !Live(t, x)
    requires Live(t, id) ==> Fits(t.batch, t.error, t.tasks[id].position)
    requires !Live(t, id) && t.batch.Some? ==> !t.batch.value.active
    ensures LiveTaskFits(t) && IdleMeansFinished(t)
  {
    hide Fits;
  }

  lemma MovedIsLive(s: State, id: TaskId, position: Position)
    requires id in s.tasks && !position.Done?
    ensures Live(Move(s, id, position), id) <==> IsCurrent(s, id)
    ensures forall x <- s.tasks.Keys :: x != id ==> (Live(Move(s, id, position), x) <==> Live(s, x))
    ensures Move(s, id, position).tasks.Keys == s.tasks.Keys && Move(s, id, position).tasks[id].position == position
  {
  }

  lemma WaitedIsLive(s: State, id: TaskId, loop: Loop)
    requires Live(s, id)
    ensures var t := Wait(s, id, loop);
            && Live(t, id) && t.tasks[id].position == Sleeping(s.nextTimer, loop)
            && t.tasks.Keys == s.tasks.Keys && t.view == s.view && t.batch == s.batch && t.error == s.error
            && forall x <- s.tasks.Keys :: x != id ==> (Live(t, x) <==> Live(s, x))
  {
  }

  lemma AcceptedIsLive(s: State, id: TaskId, batchId: string, active: bool)
    requires Invariant(s) && Live(s, id) && s.tasks[id].position.AwaitStart?
    ensures var t := Continued(s, id, Fetched(batchId, active)).value;
            && Live(t, id) && t.tasks[id].position == AwaitBatch(batchId) && t.batch.None?
            && t.tasks.Keys == s.tasks.Keys && t.view == s.view
            && forall x <- s.tasks.Keys :: x != id ==> !Live(t, x)
  {
    hide Cancel, TimerIsOwned, CountersAhead;
    CancelStopsEverything(s);
    CancelAdvances(s);
  }

  /** A step of the live task that leaves the others alone and after which it fits what is shown. */
  predicate StepIsFit(s: State, t: State, id: TaskId) {
    && t.tasks.Keys == s.tasks.Keys && t.view == s.view && (forall x <- s.tasks.Keys :: x != id ==> !Live(t, x))
    && (Live(t, id) ==> Fits(t.batch, t.error, t.tasks[id].position))
    && (!Live(t, id) && t.batch.Some? ==> !t.batch.value.active)
  }

  lemma ShownIsAsLive(s: State, t: State)
    ensures forall x <- s.tasks.Keys :: Live(s.(batch := t.batch, error := t.error), x) <==> Live(s, x)
  {
  }

  lemma ReplyToActiveFits(s: State, id: TaskId, reply: Reply)
    requires Invariant(s) && LiveTaskFits(s) && Live(s, id) && s.tasks[id].position.AwaitActive?
    ensures StepIsFit(s, Continued(s, id, reply).value, id)
  {
    hide Invariant, Move, Wait, Finish, Cancel;
    LiveMeansInFlight(s, id);
    ShownIsAsLive(s, Continued(s, id, reply).value);
    if reply.Failed? {
      WaitedIsLive(s.(error := true), id, Outer);
    } else if reply.Nothing? {
      FinishedIsNotLive(s.(batch := None, error := false), id);
    } else {
      var batch := Some(Batch(s.tasks[id].household, s.tasks[id].commit, reply.batchId, reply.active));
      MovedIsLive(s.(batch := batch, error := false), id, AwaitBatch(reply.batchId));
      MoveShows(s.(batch := batch, error := false), id, AwaitBatch(reply.batchId));
    }
  }

  lemma ReplyToStartFits(s: State, id: TaskId, reply: Reply)
    requires Invariant(s) && LiveTaskFits(s) && Live(s, id) && s.tasks[id].position.AwaitStart? && !reply.Nothing?
    ensures StepIsFit(s, Continued(s, id, reply).value, id)
  {
    hide Invariant, Move, Wait, Finish, Cancel;
    LiveMeansInFlight(s, id);
    ShownIsAsLive(s, Continued(s, id, reply).value);
    if reply.Failed? {
      FinishedIsNotLive(s.(error := true), id);
    } else {
      AcceptedIsLive(s, id, reply.batchId, reply.active);
    }
  }

  lemma ReplyToBatchFits(s: State, id: TaskId, reply: Reply)
    requires Invariant(s) && LiveTaskFits(s) && Live(s, id) && s.tasks[id].position.AwaitBatch? && !reply.Nothing?
    ensures StepIsFit(s, Continued(s, id, reply).value, id)
  {
    hide Invariant, Move, Wait, Finish, Cancel;
    LiveMeansInFlight(s, id);
    ShownIsAsLive(s, Continued(s, id, reply).value);
    var b := s.tasks[id].position.batchId;
    if reply.Failed? {
      WaitedIsLive(s.(error := true), id, Poll(b));
    } else {
      var batch := Some(Batch(s.tasks[id].household, s.tasks[id].commit, b, reply.active));
      if reply.active {
        WaitedIsLive(s.(error := false, batch := batch), id, Poll(b));
      } else {
        MovedIsLive(s.(error := false, batch := batch), id, AwaitReload);
        MoveShows(s.(error := false, batch := batch), id, AwaitReload);
      }
    }
  }

  lemma LiveStepFits(s: State, id: TaskId, reply: Reply)
    requires Invariant(s) && LiveTaskFits(s) && Live(s, id) && Continued(s, id, reply).Some?
    ensures StepIsFit(s, Continued(s, id, reply).value, id)
  {
    hide Invariant, Move, Wait, Finish, Cancel;
    LiveMeansInFlight(s, id);
    match s.tasks[id].position
    case AwaitActive => ReplyToActiveFits(s, id, reply);
    case AwaitStart => ReplyToStartFits(s, id, reply);
    case AwaitBatch(_) => ReplyToBatchFits(s, id, reply);
    case Woken(Outer) =>
      MovedIsLive(s, id, AwaitActive);
      MoveShows(s, id, AwaitActive);
    case Woken(Poll(b)) =>
      MovedIsLive(s, id, AwaitBatch(b));
      MoveShows(s, id, AwaitBatch(b));
    case AwaitReload =>
      MovedIsLive(s, id, Returning);
      MoveShows(s, id, Returning);
    case Returning => FinishedIsNotLive(s, id);
  }

  lemma MoveShows(s: State, id: TaskId, position: Position)
    requires id in s.tasks
    ensures Move(s, id, position).batch == s.batch && Move(s, id, position).error == s.error && Move(s, id, position).view == s.view
  {
  }

  lemma StaleStepFits(s: State, id: TaskId, reply: Reply)
    requires LiveTaskFits(s) && IdleMeansFinished(s) && id in s.tasks && !IsCurrent(s, id) && Continued(s, id, reply).Some?
    ensures LiveTaskFits(Continued(s, id, reply).value) && IdleMeansFinished(Continued(s, id, reply).value)
  {
    hide Continued, Fits;
    StaleTasksAreInert(s, id, reply);
  }

  lemma ClickFits(s: State)
    requires Invariant(s) && LiveTaskFits(s) && IdleMeansFinished(s) && s.view.mounted
    ensures LiveTaskFits(Start(s)) && IdleMeansFinished(Start(s))
  {
    hide TimerIsOwned, Fits;
    if s.view.household.Some? && !s.inFlight {
      var t := Start(s);
      assert forall x <- s.tasks.Keys :: !Live(t, x);
      assert Fits(t.batch, t.error, AwaitStart) by {
        StartFits(t.batch, t.error);
      }
    }
  }

  lemma StartFits(batch: Option<Batch>, error: bool)
    requires (batch.Some? ==> !batch.value.active) && !error
    ensures Fits(batch, error, AwaitStart)
  {
  }

  lemma TimerFits(s: State, timer: Timer)
    requires Invariant(s) && LiveTaskFits(s) && IdleMeansFinished(s) && timer in s.timers
    ensures LiveTaskFits(Fired(s, timer).value) && IdleMeansFinished(Fired(s, timer).value)
  {
    var t := Fired(s, timer).value;
    assert forall x <- s.tasks.Keys :: Live(t, x) <==> Live(s, x);
  }

  lemma RefreshFits(s: State)
    requires Invariant(s) && s.view.mounted
    ensures LiveTaskFits(Refresh(s)) && IdleMeansFinished(Refresh(s))
  {
    hide Effects, Due, Invariant;
    InvariantParts(s);
    DueIsReady(s);
    EffectsSpawn(Due(s));
  }

  lemma EffectsSpawn(s: State)
    requires TimerIsOwned(s) && CountersAhead(s)
    ensures var t := Effects(s);
            t.batch.None? && forall id <- t.tasks.Keys :: Live(t, id) ==> t.tasks[id].position.AwaitActive?
  {
    hide Cancel;
    CancelStopsEverything(s);
    CancelAdvances(s);
  }

  lemma OtherStepsFit(s: State, household: Option<Household>)
    requires Invariant(s) && LiveTaskFits(s) && IdleMeansFinished(s)
    ensures LiveTaskFits(Committed(s, household)) && IdleMeansFinished(Committed(s, household))
    ensures LiveTaskFits(Unmounted(s)) && IdleMeansFinished(Unmounted(s))
  {
    hide Cancel, TimerIsOwned, CountersAhead, Fits;
    CancelStopsEverything(s);
    CancelAdvances(s);
    SameLoop(s, Committed(s, household));
    SameLoop(Cancel(s), Unmounted(s));
  }

  lemma StepFits(s: State, a: Action)
    requires Invariant(s) && LiveTaskFits(s) && IdleMeansFinished(s) && Next(s, a).Some?
    ensures LiveTaskFits(Next(s, a).value) && IdleMeansFinished(Next(s, a).value)
  {
    hide Invariant, LiveTaskFits, IdleMeansFinished, Continued, Start, Refresh, Committed, Unmounted;
    match a
    case Commit(household) => OtherStepsFit(s, household);
    case RunEffects => RefreshFits(s);
    case Unmount => OtherStepsFit(s, None);
    case Click => ClickFits(s);
    case TimerFires(timer) => TimerFits(s, timer);
    case Continue(id, reply) =>
      if IsCurrent(s, id) {
        CanContinue(s, id, reply);
        LiveStepFits(s, id, reply);
        ContinueKeeps(s, id, reply);
        FitsAfterStep(s, Continued(s, id, reply).value, id);
      } else {
        StaleStepFits(s, id, reply);
      }
  }

  lemma CanContinue(s: State, id: TaskId, reply: Reply)
    requires IsCurrent(s, id) && Continued(s, id, reply).Some?
    ensures Live(s, id)
  {
  }

  lemma {:induction false} EveryRunFits(household: Option<Household>, actions: seq<Action>)
    requires Run(Mounted(household), actions).Some?
    ensures LiveTaskFits(Run(Mounted(household), actions).value) && IdleMeansFinished(Run(Mounted(household), actions).value)
  {
    hide Next, LiveTaskFits, IdleMeansFinished, Invariant;
    if actions == [] {
      assert LiveTaskFits(Mounted(household)) && IdleMeansFinished(Mounted(household)) by {
        NothingRuns(household);
      }
    } else {
      EveryRunFits(household, actions[..|actions| - 1]);
      EveryRunIsSafe(household, actions[..|actions| - 1]);
      StepFits(Run(Mounted(household), actions[..|actions| - 1]).value, actions[|actions| - 1]);
    }
  }

  lemma NothingRuns(household: Option<Household>)
    ensures LiveTaskFits(Mounted(household)) && IdleMeansFinished(Mounted(household))
  {
  }

  /** After every run: a live task that waits to poll a batch again has met an error or is shown that batch running, one that
      reloads or returns is shown a finished batch and no error, and while nothing is in flight no running batch is shown. */
  lemma PollingGoesOnExactlyWhileRunning(household: Option<Household>, actions: seq<Action>)
    requires Run(Mounted(household), actions).Some?
    ensures var s := Run(Mounted(household), actions).value;
            && (forall id <- s.tasks.Keys :: Live(s, id) && s.tasks[id].position.Sleeping? && s.tasks[id].position.loop.Poll? ==>
                  s.error || (s.batch.Some? && s.batch.value.batchId == s.tasks[id].position.loop.batchId && s.batch.value.active))
            && (forall id <- s.tasks.Keys :: Live(s, id) && (s.tasks[id].position.AwaitReload? || s.tasks[id].position.Returning?) ==>
                  s.batch.Some? && !s.batch.value.active && !s.error)
            && (s.view.mounted && !s.inFlight && s.batch.Some? ==> !s.batch.value.active)
  {
    hide Run, Mounted;
    EveryRunFits(household, actions);
  }

  /** What a live task polls is the batch that was reported active or started, and it ends exactly when there is nothing to
      resume, the start failed, or the polling has returned. */
  lemma LiveTaskGoesOn(s: State, id: TaskId, reply: Reply)
    requires Invariant(s) && Live(s, id) && Continued(s, id, reply).Some?
    ensures var position, t := s.tasks[id].position, Continued(s, id, reply).value;
            && ((position.AwaitActive? || position.AwaitStart?) && reply.Fetched? ==> t.tasks[id].position == AwaitBatch(reply.batchId))
            && (t.tasks[id].position.Done? <==> (position.AwaitActive? && reply.Nothing?) || (position.AwaitStart? && reply.Failed?)
                                                || position.Returning?)
            && (t.tasks[id].position.Done? ==> !t.inFlight && !t.starting)
            && (reply.Failed? && (position.AwaitActive? || position.AwaitStart? || position.AwaitBatch?) ==> t.error)
  {
    hide Invariant, Move, Wait, Finish, Cancel;
    match s.tasks[id].position
    case AwaitActive =>
      if reply.Failed? {
        WaitedIsLive(s.(error := true), id, Outer);
      } else if reply.Nothing? {
        FinishedIsNotLive(s.(batch := None, error := false), id);
      } else {
        var batch := Some(Batch(s.tasks[id].household, s.tasks[id].commit, reply.batchId, reply.active));
        MovedIsLive(s.(batch := batch, error := false), id, AwaitBatch(reply.batchId));
      }
    case AwaitStart =>
      if reply.Failed? {
        FinishedIsNotLive(s.(error := true), id);
      } else {
        AcceptedIsLive(s, id, reply.batchId, reply.active);
      }
    case AwaitBatch(b) =>
      if reply.Failed? {
        WaitedIsLive(s.(error := true), id, Poll(b));
      } else {
        var shown := s.(error := false, batch := Some(Batch(s.tasks[id].household, s.tasks[id].commit, b, reply.active)));
        if reply.active {
          WaitedIsLive(shown, id, Poll(b));
        } else {
          MovedIsLive(shown, id, AwaitReload);
        }
      }
    case Woken(Outer) => MovedIsLive(s, id, AwaitActive);
    case Woken(Poll(b)) => MovedIsLive(s, id, AwaitBatch(b));
    case AwaitReload => MovedIsLive(s, id, Returning);
    case Returning => FinishedIsNotLive(s, id);
  }
}
