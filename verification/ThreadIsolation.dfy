/** The worker thread with its task queue: several posters, one controller that starts and stops it, and
    the worker, each atomic operation a step of its own. */
module ThreadIsolation {

  /** A posted function object; an empty one is popped but neither run nor counted off. */
  datatype Task = Task(name: nat, callable: bool)

  /** The members the threads share. */
  datatype Members = Members(running: bool, queue: seq<Task>, pendingTasks: int, tasksCompleted: bool)

  datatype WorkerPc =
    NoThread | LoopTop | AtQueue | Holding(task: Task) | Ran | Counted(remaining: int) | AtFlag | Exited

  datatype ControllerPc = Idle | FlagReset | Spawning | Joining

  /** Who is inside the queue lock in PostTask, and how far. */
  datatype Poster = Outside | Pushed | Added

  datatype State = State(
    m: Members, worker: WorkerPc, controller: ControllerPc, poster: Poster,
    posting: seq<Task>, accepted: seq<Task>, taken: seq<Task>, executed: seq<Task>)

  const INIT := State(Members(false, [], 0, true), NoThread, Idle, Outside, [], [], [], [])

  datatype Action =
    | Start | ResetFlag | Spawn | Stop | Join
    | PostCheck(task: Task) | PostPush(i: nat) | PostAdd | PostFlag
    | CheckRunning | PopOrLeave | RunTask | CountOff | TestCount | SetFlag

  function Push(m: Members, t: Task): Members { m.(queue := m.queue + [t]) }

  function Pop(m: Members): Members
    requires m.queue != []
  {
    m.(queue := m.queue[1..])
  }

  predicate Enabled(s: State, a: Action) {
    match a
    case Start => s.controller == Idle
    case ResetFlag => s.controller == FlagReset
    case Spawn => s.controller == Spawning
    case Stop => s.controller == Idle && s.poster == Outside
    case Join => s.controller == Joining && s.worker == Exited
    case PostCheck(_) => true
    case PostPush(i) => i < |s.posting| && s.poster == Outside
    case PostAdd => s.poster == Pushed
    case PostFlag => s.poster == Added
    case CheckRunning => s.worker == LoopTop
    case PopOrLeave => s.worker == AtQueue && s.poster == Outside && (s.m.queue != [] || !s.m.running)
    case RunTask => s.worker.Holding?
    case CountOff => s.worker == Ran
    case TestCount => s.worker.Counted?
    case SetFlag => s.worker == AtFlag
  }

  function Next(s: State, a: Action): State
    requires Enabled(s, a)
  {
    match a
    case Start => if s.m.running then s else s.(m := s.m.(running := true), controller := FlagReset)
    case ResetFlag => s.(m := s.m.(tasksCompleted := false), controller := Spawning)
    case Spawn => s.(worker := LoopTop, controller := Idle)
    case Stop => if !s.m.running then s else s.(m := s.m.(running := false), controller := Joining)
    case Join => s.(worker := NoThread, controller := Idle)
    case PostCheck(t) => if s.m.running then s.(posting := s.posting + [t]) else s
    case PostPush(i) =>
      var t := s.posting[i];
      s.(m := Push(s.m, t), poster := Pushed, posting := s.posting[..i] + s.posting[i + 1..],
         accepted := s.accepted + [t])
    case PostAdd => s.(m := s.m.(pendingTasks := s.m.pendingTasks + 1), poster := Added)
    case PostFlag => s.(m := s.m.(tasksCompleted := false), poster := Outside)
    case CheckRunning => s.(worker := if s.m.running then AtQueue else Exited)
    case PopOrLeave =>
      if !s.m.running then s.(worker := Exited) else
      var t := s.m.queue[0];
      s.(m := Pop(s.m), taken := s.taken + [t], worker := if t.callable then Holding(t) else LoopTop)
    case RunTask => s.(worker := Ran, executed := s.executed + [s.worker.task])
    case CountOff =>
      s.(m := s.m.(pendingTasks := s.m.pendingTasks - 1), worker := Counted(s.m.pendingTasks - 1))
    case TestCount =>
      s.(worker := if s.worker.remaining <= 0 && s.m.running then AtFlag else LoopTop)
    case SetFlag => s.(m := s.m.(tasksCompleted := true), worker := LoopTop)
  }

  predicate Schedule(s: State, run: seq<Action>)
    decreases |run|
  {
    run == [] || (Enabled(s, run[0]) && Schedule(Next(s, run[0]), run[1..]))
  }

  function Play(s: State, run: seq<Action>): State
    requires Schedule(s, run)
    decreases |run|
  {
    if run == [] then s else Play(Next(s, run[0]), run[1..])
  }

  function Callables(ts: seq<Task>): seq<Task> {
    if ts == [] then [] else
    Callables(ts[..|ts| - 1]) + if ts[|ts| - 1].callable then [ts[|ts| - 1]] else []
  }

  function Empties(ts: seq<Task>): nat {
    if ts == [] then 0 else Empties(ts[..|ts| - 1]) + if ts[|ts| - 1].callable then 0 else 1
  }

  function InFlight(s: State): seq<Task> { if s.worker.Holding? then [s.worker.task] else [] }

  /** A popped task that pendingTasks still counts. */
  function Uncounted(s: State): nat { if s.worker.Holding? || s.worker == Ran then 1 else 0 }

  /** A pushed task that pendingTasks does not count yet. */
  function Unadded(s: State): nat { if s.poster == Pushed then 1 else 0 }

  ghost predicate Invariant(s: State) {
    && s.accepted == s.taken + s.m.queue
    && s.executed + InFlight(s) == Callables(s.taken)
    && s.m.pendingTasks == |s.m.queue| + Uncounted(s) + Empties(s.taken) - Unadded(s)
    && (s.poster == Pushed ==> s.m.queue != [])
    && (s.controller == Idle ==> if s.m.running then s.worker != NoThread else s.worker == NoThread)
    && (s.controller == Joining ==> !s.m.running && s.worker != NoThread)
    && (s.controller == FlagReset || s.controller == Spawning ==> s.m.running && s.worker == NoThread)
    && (s.worker == Exited ==> !s.m.running)
  }

  lemma Snoc(ts: seq<Task>, t: Task)
    ensures Callables(ts + [t]) == Callables(ts) + if t.callable then [t] else []
    ensures Empties(ts + [t]) == Empties(ts) + if t.callable then 0 else 1
  {
    assert (ts + [t])[..|ts|] == ts;
  }

  lemma PopKeeps(s: State)
    requires Invariant(s) && Enabled(s, PopOrLeave)
    ensures Invariant(Next(s, PopOrLeave))
  {
    hide Callables, Empties;
    if s.m.running {
      Snoc(s.taken, s.m.queue[0]);
      Requeue(s.taken, s.m.queue);
    }
  }

  lemma Requeue(taken: seq<Task>, queue: seq<Task>)
    requires queue != []
    ensures taken + queue == (taken + [queue[0]]) + queue[1..]
  {
    assert queue == [queue[0]] + queue[1..];
  }

  lemma PushKeeps(s: State, i: nat)
    requires Invariant(s) && Enabled(s, PostPush(i))
    ensures Invariant(Next(s, PostPush(i)))
  {
    hide Callables, Empties;
  }

  lemma StepKeeps(s: State, a: Action)
    requires Invariant(s) && Enabled(s, a)
    ensures Invariant(Next(s, a))
  {
    hide Callables, Empties, Push, Pop;
    match a {
      case PopOrLeave => PopKeeps(s);
      case PostPush(i) => PushKeeps(s, i);
      case _ =>
    }
  }

  lemma {:induction false} Reached(s: State, run: seq<Action>)
    requires Invariant(s) && Schedule(s, run)
    ensures Invariant(Play(s, run))
    decreases |run|
  {
    hide Invariant, Next, Enabled;
    if run != [] {
      StepKeeps(s, run[0]);
      Reached(Next(s, run[0]), run[1..]);
    }
  }

  /** First in, first out, each task once: the accepted tasks are those taken followed by those queued, and
      what has been run or is about to be is exactly the callable part of those taken. */
  lemma TasksInOrder(run: seq<Action>)
    requires Schedule(INIT, run)
    ensures var s := Play(INIT, run);
            && s.accepted == s.taken + s.m.queue
            && s.executed + InFlight(s) == Callables(s.taken)
            && s.m.pendingTasks == |s.m.queue| + Uncounted(s) + Empties(s.taken) - Unadded(s)
  {
    Reached(INIT, run);
  }

  lemma {:induction ts} NoEmpties(ts: seq<Task>)
    ensures Empties(ts) == 0 <==> Callables(ts) == ts
    ensures |Callables(ts)| + Empties(ts) == |ts|
  {}

  /** When the worker waits at an empty queue, everything accepted has been run; the counter is back at
      zero exactly when no empty function was ever posted. */
  lemma AllRunWhenWaiting(run: seq<Action>)
    requires Schedule(INIT, run)
    requires var s := Play(INIT, run); s.worker == AtQueue && s.m.queue == []
    ensures var s := Play(INIT, run);
            && s.executed == Callables(s.accepted)
            && (s.m.pendingTasks == 0 <==> s.executed == s.accepted)
  {
    Reached(INIT, run);
    var s := Play(INIT, run);
    assert s.accepted == s.taken;
    NoEmpties(s.taken);
  }

  /** Steps until a worker that finds the thread stopped has left. */
  function ToExit(pc: WorkerPc): nat {
    match pc
    case NoThread => 0 case Exited => 0 case LoopTop => 1 case AtQueue => 1
    case AtFlag => 2 case Counted(_) => 3 case Ran => 4 case Holding(_) => 5
  }

  predicate OfWorker(a: Action) { a in [CheckRunning, PopOrLeave, RunTask, CountOff, TestCount, SetFlag] }

  /** Joining ends: once stopped the worker always has a step while no poster is inside the lock, each
      brings it nearer its exit, none takes another task, and only the one it held is still run. */
  lemma StopTakesNothingMore(s: State, a: Action)
    requires Invariant(s) && s.controller == Joining && Enabled(s, a) && OfWorker(a)
    ensures var t := Next(s, a);
            && ToExit(t.worker) < ToExit(s.worker) && t.taken == s.taken && t.m.queue == s.m.queue
            && t.executed + InFlight(t) == s.executed + InFlight(s)
  {}

  lemma StopCannotHang(s: State) returns (a: Action)
    requires Invariant(s) && s.controller == Joining && s.poster == Outside
    ensures Enabled(s, a) && (a == Join || OfWorker(a))
  {
    a := match s.worker
      case LoopTop => CheckRunning case AtQueue => PopOrLeave case Holding(_) => RunTask
      case Ran => CountOff case Counted(_) => TestCount case AtFlag => SetFlag case _ => Join;
  }

  /** Nothing is accepted in a stopped thread but what was already past the check. */
  lemma {:induction false} StoppedTakesNoPosts(s: State, run: seq<Action>)
    requires !s.m.running && Schedule(s, run) && Start !in run
    ensures var t := Play(s, run);
            && !t.m.running && s.accepted <= t.accepted
            && |t.accepted| + |t.posting| == |s.accepted| + |s.posting|
    decreases |run|
  {
    if run != [] {
      StoppedTakesNoPosts(Next(s, run[0]), run[1..]);
    }
  }

  // ---- What the completion flag says ----

  /** Nothing is left to do exactly when the counter, corrected for a post or a task in between, is down to the
      empty functions it never counts off: in every reachable state, whatever the flag says. */
  lemma CounterTellsTheTruth(run: seq<Action>)
    requires Schedule(INIT, run)
    ensures var s := Play(INIT, run);
            s.m.queue == [] && !s.worker.Holding?
            <==> s.m.pendingTasks + Unadded(s) == Empties(s.taken) + if s.worker == Ran then 1 else 0
  {
    Reached(INIT, run);
  }

  /** What is pushed into the queue in a run. */
  function Pushes(s: State, run: seq<Action>): seq<Task>
    requires Schedule(s, run)
    decreases |run|
  {
    if run == [] then [] else
    (if run[0].PostPush? then [s.posting[run[0].i]] else []) + Pushes(Next(s, run[0]), run[1..])
  }

  /** Whether the last count, and the last flag, came with nothing left in the queue, kept along a run without
      looking at the queue: a count is clean unless a post has pushed and not added yet, a push spoils it, and the
      flag takes over what the count before it was. */
  datatype Mark = Mark(cleanCount: bool, cleanFlag: bool)

  /** The flag of a new object is set, and rightly so. */
  const NEW_MARK := Mark(false, true)

  function Marked(s: State, a: Action, m: Mark): Mark {
    match a
    case CountOff => m.(cleanCount := s.poster != Pushed)
    case PostPush(_) => m.(cleanCount := false)
    case SetFlag => m.(cleanFlag := m.cleanCount)
    case _ => m
  }

  function MarkOf(s: State, run: seq<Action>, m: Mark): Mark
    requires Schedule(s, run)
    decreases |run|
  {
    if run == [] then m else MarkOf(Next(s, run[0]), run[1..], Marked(s, run[0], m))
  }

  predicate BringsFlag(pc: WorkerPc) { pc == AtFlag || (pc.Counted? && pc.remaining <= 0) }

  predicate MarkHolds(s: State, m: Mark) {
    && (s.poster != Outside ==> s.m.queue != [])
    && (BringsFlag(s.worker) ==> (s.m.queue == [] <==> m.cleanCount))
    && (s.m.tasksCompleted && m.cleanFlag ==> !s.worker.Holding? && (s.m.queue == [] <==> s.poster == Outside))
  }

  lemma MarkStep(s: State, a: Action, m: Mark)
    requires Invariant(s) && Enabled(s, a) && MarkHolds(s, m)
    ensures MarkHolds(Next(s, a), Marked(s, a, m))
  {
    hide Callables, Empties;
  }

  lemma {:induction false} MarkReached(s: State, run: seq<Action>, m: Mark)
    requires Invariant(s) && Schedule(s, run) && MarkHolds(s, m)
    ensures MarkHolds(Play(s, run), MarkOf(s, run, m))
    decreases |run|
  {
    hide Invariant, Next, Enabled, Marked, MarkHolds;
    if run != [] {
      StepKeeps(s, run[0]);
      MarkStep(s, run[0], m);
      MarkReached(Next(s, run[0]), run[1..], Marked(s, run[0], m));
    }
  }

  /** The flag in any reachable state, from the first one on. It is written with an empty queue exactly after a
      clean count; and a flag so written, as long as it is set, means that nothing is held and nothing is queued
      but the task of a post that is about to clear it. */
  lemma FlagTellsTheTruth(run: seq<Action>)
    requires Schedule(INIT, run)
    ensures var s, m := Play(INIT, run), MarkOf(INIT, run, NEW_MARK);
            && (s.worker == AtFlag ==> (Next(s, SetFlag).m.queue == [] <==> m.cleanCount))
            && (s.m.tasksCompleted && m.cleanFlag ==>
                  !s.worker.Holding? && (s.m.queue == [] <==> s.poster == Outside))
  {
    hide Callables, Empties;
    FromInit();
    MarkReached(INIT, run, NEW_MARK);
  }

  /** How the worker comes to set the flag: from its count in s to the flag nothing is popped, so the queue left
      with the flag is the one of the count and what was pushed since. That is nothing exactly when no push
      falls in between and none had come before the count without being added yet. */
  lemma FlagWrittenAfterCount(s: State, run: seq<Action>)
    requires Invariant(s) && s.worker == Ran && run != [] && run[0] == CountOff && CountOff !in run[1..]
    requires Schedule(s, run) && Enabled(Play(s, run), SetFlag)
    ensures var t := Next(Play(s, run), SetFlag);
            && t.m.tasksCompleted && t.m.queue == s.m.queue + Pushes(s, run)
            && (t.m.queue == [] <==> s.m.queue == [] && forall i :: 0 <= i < |run| ==> !run[i].PostPush?)
    ensures Empties(s.taken) == 0 || s.m.queue == []
    ensures |s.m.queue| <= 1 && (s.m.queue != [] ==> s.poster == Pushed)
  {
    hide Next, Invariant, Play, Pushes, Schedule, Callables, Empties;
    CountStep(s, run);
    UntilFlag(Next(s, CountOff), run[1..]);
    PushesWhen(s, run);
    FlagStep(Play(s, run));
  }

  lemma CountStep(s: State, run: seq<Action>)
    requires Invariant(s) && s.worker == Ran && run != [] && run[0] == CountOff && Schedule(s, run)
    ensures var u := Next(s, CountOff);
            && Schedule(u, run[1..]) && Play(s, run) == Play(u, run[1..]) && Pushes(s, run) == Pushes(u, run[1..])
            && u.m.queue == s.m.queue && u.worker == Counted(s.m.pendingTasks - 1)
    ensures s.m.pendingTasks <= 1 ==>
              |s.m.queue| + Empties(s.taken) <= 1 && (s.m.queue != [] ==> s.poster == Pushed)
  {
    hide Callables, Empties;
  }

  lemma FlagStep(s: State)
    requires Enabled(s, SetFlag)
    ensures s.worker == AtFlag && Next(s, SetFlag).m == s.m.(tasksCompleted := true)
  {}

  predicate TowardsFlag(s: State) { s.worker.Counted? || s.worker == AtFlag }

  lemma {:induction false} UntilFlag(s: State, run: seq<Action>)
    requires Schedule(s, run) && CountOff !in run && Play(s, run).worker == AtFlag
    ensures TowardsFlag(s) && (s.worker.Counted? ==> s.worker.remaining <= 0)
    ensures Play(s, run).m.queue == s.m.queue + Pushes(s, run)
    decreases |run|
  {
    if run != [] {
      UntilFlag(Next(s, run[0]), run[1..]);
    }
  }

  lemma {:induction false} PushesWhen(s: State, run: seq<Action>)
    requires Schedule(s, run)
    ensures Pushes(s, run) == [] <==> forall i :: 0 <= i < |run| ==> !run[i].PostPush?
    decreases |run|
  {
    hide Next, Enabled;
    if run != [] {
      PushesWhen(Next(s, run[0]), run[1..]);
      assert forall i :: 1 <= i < |run| ==> run[i] == run[1..][i - 1];
      assert forall i :: 0 <= i < |run| - 1 ==> run[1..][i] == run[i + 1];
    }
  }

  /** A stale flag by a post between the count and the flag, which overwrites what the post has cleared:
      WaitForTasksCompletion returns with a task in the queue. */
  lemma CompletionFlagCanBeStale(t1: Task, t2: Task) returns (run: seq<Action>)
    requires t1.callable
    ensures Schedule(INIT, run)
    ensures var s := Play(INIT, run);
            s.m.tasksCompleted && s.m.running && s.m.queue == [t2] && s.executed == [t1]
  {
    hide Play, Schedule;
    run := HoldsOne(t1);
    run := Extend(run, RunTask);
    run := Extend(run, CountOff);
    run := Extend(run, TestCount);
    run := Posted(run, t2);
    run := Extend(run, SetFlag);
  }

  /** A stale flag by a post before the count, added to the counter only after it. */
  lemma StaleByLateAdd(t1: Task, t2: Task) returns (run: seq<Action>)
    requires t1.callable
    ensures Schedule(INIT, run)
    ensures var s := Play(INIT, run);
            s.m.tasksCompleted && s.m.running && s.poster == Outside && s.m.queue == [t2] && s.executed == [t1]
  {
    hide Play, Schedule;
    run := PushedBeforeCount(t1, t2);
    run := Extend(run, PostAdd);
    run := Extend(run, PostFlag);
    run := Extend(run, TestCount);
    run := Extend(run, SetFlag);
  }

  lemma PushedBeforeCount(t1: Task, t2: Task) returns (run: seq<Action>)
    requires t1.callable
    ensures Schedule(INIT, run)
    ensures Play(INIT, run)
         == State(Members(true, [t2], 0, false), Counted(0), Idle, Pushed, [], [t1, t2], [t1], [t1])
  {
    hide Play, Schedule;
    run := HoldsOne(t1);
    run := Extend(run, RunTask);
    run := Extend(run, PostCheck(t2));
    run := Extend(run, PostPush(0));
    run := Extend(run, CountOff);
  }

  /** The flag a new object starts with is still set when the first task is pushed, before Start resets it. */
  lemma StaleBeforeReset(t: Task)
    ensures var run := [Start, PostCheck(t), PostPush(0)];
            && Schedule(INIT, run)
            && var s := Play(INIT, run);
            s.m.tasksCompleted && s.m.running && s.m.queue == [t] && s.worker == NoThread
  {
    hide Play, Schedule;
    FromInit();
    Longer(INIT, [], Start);
    assert [] + [Start] == [Start];
    Longer(INIT, [Start], PostCheck(t));
    assert [Start] + [PostCheck(t)] == [Start, PostCheck(t)];
    Longer(INIT, [Start, PostCheck(t)], PostPush(0));
    assert [Start, PostCheck(t)] + [PostPush(0)] == [Start, PostCheck(t), PostPush(0)];
  }

  lemma HoldsOne(t: Task) returns (run: seq<Action>)
    requires t.callable
    ensures Schedule(INIT, run)
    ensures Play(INIT, run) == State(Members(true, [], 1, false), Holding(t), Idle, Outside, [], [t], [t], [])
  {
    hide Play, Schedule;
    run := [];
    FromInit();
    run := Extend(run, Start);
    run := Extend(run, ResetFlag);
    run := Extend(run, Spawn);
    run := Posted(run, t);
    run := Extend(run, CheckRunning);
    run := Extend(run, PopOrLeave);
  }

  lemma FromInit()
    ensures Invariant(INIT) && Schedule(INIT, []) && Play(INIT, []) == INIT
  {}

  lemma {:induction false} Longer(s: State, run: seq<Action>, a: Action)
    requires Schedule(s, run) && Enabled(Play(s, run), a)
    ensures Schedule(s, run + [a]) && Play(s, run + [a]) == Next(Play(s, run), a)
    decreases |run|
  {
    hide Next, Enabled;
    if run == [] {
      assert run + [a] == [a] && [a][1..] == [];
    } else {
      Longer(Next(s, run[0]), run[1..], a);
      assert (run + [a])[1..] == run[1..] + [a];
    }
  }

  lemma Extend(run: seq<Action>, a: Action) returns (longer: seq<Action>)
    requires Schedule(INIT, run) && Enabled(Play(INIT, run), a)
    ensures Schedule(INIT, longer) && Play(INIT, longer) == Next(Play(INIT, run), a)
  {
    Longer(INIT, run, a);
    longer := run + [a];
  }

  /** One PostTask from beginning to end, nobody else posting. */
  lemma Posted(run: seq<Action>, t: Task) returns (longer: seq<Action>)
    requires Schedule(INIT, run)
    requires var s := Play(INIT, run); s.m.running && s.poster == Outside && s.posting == []
    ensures Schedule(INIT, longer)
    ensures var s := Play(INIT, run);
            Play(INIT, longer) == s.(m := Members(true, s.m.queue + [t], s.m.pendingTasks + 1, false),
                                     accepted := s.accepted + [t])
  {
    hide Play, Schedule;
    longer := Extend(run, PostCheck(t));
    longer := Extend(longer, PostPush(0));
    longer := Extend(longer, PostAdd);
    longer := Extend(longer, PostFlag);
  }
}
