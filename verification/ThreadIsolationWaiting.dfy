/** WaitForTasksCompletion beside the worker: when a waiter returns, and when it is left asleep. */
module ThreadIsolationWaiting {
  import opened ThreadIsolation

  datatype WaiterPc = Away | Looking | Asleep | Back

  /** notifying: the worker has set the flag and not notified yet. */
  datatype Waiting = Waiting(s: State, notifying: bool, waiter: WaiterPc)

  const NEW := Waiting(INIT, false, Away)

  /** Looking and falling asleep is one step, under the mutex that setting the flag also takes; Stop changes
      running without it, and notifies nobody here. */
  datatype Move = Step(a: Action) | Notify | Call | Look

  predicate Ready(w: Waiting, v: Move) {
    match v
    case Step(a) => Enabled(w.s, a) && (w.notifying ==> !OfWorker(a))
    case Notify => w.notifying
    case Call => w.waiter == Away || w.waiter == Back
    case Look => w.waiter == Looking
  }

  function After(w: Waiting, v: Move): Waiting
    requires Ready(w, v)
  {
    match v
    case Step(a) => w.(s := Next(w.s, a), notifying := w.notifying || a == SetFlag)
    case Notify => w.(notifying := false, waiter := if w.waiter == Asleep then Looking else w.waiter)
    case Call => w.(waiter := Looking)
    case Look => w.(waiter := if w.s.m.tasksCompleted || !w.s.m.running then Back else Asleep)
  }

  predicate Moves(w: Waiting, vs: seq<Move>)
    decreases |vs|
  {
    vs == [] || (Ready(w, vs[0]) && Moves(After(w, vs[0]), vs[1..]))
  }

  function Outcome(w: Waiting, vs: seq<Move>): Waiting
    requires Moves(w, vs)
    decreases |vs|
  {
    if vs == [] then w else Outcome(After(w, vs[0]), vs[1..])
  }

  /** Whether a task has been counted off since the flag was last cleared for a start. */
  function Counting(a: Action, was: bool): bool {
    if a == CountOff then true else if a == ResetFlag then false else was
  }

  function CountedSince(vs: seq<Move>, was: bool): bool {
    if vs == [] then was else CountedSince(vs[1..], if vs[0].Step? then Counting(vs[0].a, was) else was)
  }

  /** A waiter asleep although the flag is set is about to be notified; a flag set while the thread lives was
      set by a count of this thread; and once something was counted off, the flag is set or something is still
      on its way, unless an empty function was popped. */
  predicate Kept(w: Waiting, counted: bool) {
    var s := w.s;
    && (s.poster != Outside ==> s.m.queue != [])
    && (w.notifying ==> s.worker == LoopTop)
    && (w.waiter == Asleep && s.m.tasksCompleted ==> w.notifying)
    && (s.m.tasksCompleted || BringsFlag(s.worker) ==> counted || s.worker == NoThread)
    && (s.controller == Spawning ==> !s.m.tasksCompleted)
    && (s.m.running && s.controller != FlagReset && Empties(s.taken) == 0 && counted && !s.m.tasksCompleted ==>
          s.m.queue != [] || s.worker.Holding? || s.worker == Ran || BringsFlag(s.worker))
  }

  lemma KeptStep(w: Waiting, v: Move, counted: bool)
    requires Invariant(w.s) && Kept(w, counted) && Ready(w, v)
    ensures Invariant(After(w, v).s) && Kept(After(w, v), if v.Step? then Counting(v.a, counted) else counted)
  {
    hide Callables, Empties, Next;
    if v.Step? {
      StepKeeps(w.s, v.a);
      if v.a == PopOrLeave {
        PopStep(w, counted);
      } else {
        OtherStep(w, v.a, counted);
      }
    }
  }

  lemma PopStep(w: Waiting, counted: bool)
    requires Invariant(w.s) && Kept(w, counted) && Ready(w, Step(PopOrLeave))
    ensures Kept(After(w, Step(PopOrLeave)), counted)
  {
    hide Callables, Empties;
    EmptiesGrow(w.s, PopOrLeave);
  }

  lemma OtherStep(w: Waiting, a: Action, counted: bool)
    requires Invariant(w.s) && Kept(w, counted) && Ready(w, Step(a)) && a != PopOrLeave
    ensures Kept(After(w, Step(a)), Counting(a, counted))
  {
    hide Callables, Empties;
  }

  lemma EmptiesGrow(s: State, a: Action)
    requires Enabled(s, a)
    ensures Empties(Next(s, a).taken) == Empties(s.taken)
              + if a == PopOrLeave && s.m.running && !s.m.queue[0].callable then 1 else 0
  {
    hide Empties, Callables;
    if a == PopOrLeave && s.m.running {
      Snoc(s.taken, s.m.queue[0]);
    }
  }

  lemma {:induction false} KeptReached(w: Waiting, vs: seq<Move>, counted: bool)
    requires Invariant(w.s) && Kept(w, counted) && Moves(w, vs)
    ensures Invariant(Outcome(w, vs).s) && Kept(Outcome(w, vs), CountedSince(vs, counted))
    decreases |vs|
  {
    hide Invariant, Kept, Ready, After, Counting;
    if vs != [] {
      KeptStep(w, vs[0], counted);
      KeptReached(After(w, vs[0]), vs[1..], if vs[0].Step? then Counting(vs[0].a, counted) else counted);
    }
  }

  lemma NewIsKept()
    ensures Invariant(NEW.s) && Kept(NEW, false)
  {}

  // ---- When a waiter returns ----

  /** No wake-up of the worker's is lost: a waiter asleep while the flag is set is about to be notified. */
  lemma NoLostWakeUp(vs: seq<Move>)
    requires Moves(NEW, vs)
    ensures var w := Outcome(NEW, vs); w.waiter == Asleep && w.s.m.tasksCompleted ==> w.notifying
  {
    hide Callables, Empties;
    NewIsKept();
    KeptReached(NEW, vs, false);
  }

  /** With the worker waiting at an empty queue and no empty function ever popped, the flag is set exactly when
      something was counted off since the start cleared it: so a waiter that is not about to be notified is
      asleep there only when nothing was, and one that looks returns exactly when something was. */
  lemma AtRestFlagIffCounted(vs: seq<Move>)
    requires Moves(NEW, vs)
    requires var s := Outcome(NEW, vs).s;
             s.m.running && s.worker == AtQueue && s.m.queue == [] && Empties(s.taken) == 0
    ensures var w, counted := Outcome(NEW, vs), CountedSince(vs, false);
            && (w.s.m.tasksCompleted <==> counted)
            && (w.waiter == Asleep ==> !counted)
            && (w.waiter == Looking ==> (After(w, Look).waiter == Back <==> counted))
  {
    hide Callables, Empties;
    NewIsKept();
    KeptReached(NEW, vs, false);
  }

  lemma {:induction false} StaysStopped(w: Waiting, vs: seq<Move>)
    requires Moves(w, vs) && Step(Start) !in vs && !w.s.m.running
    ensures !Outcome(w, vs).s.m.running
    ensures vs != [] && vs[|vs| - 1] == Look ==> Outcome(w, vs).waiter == Back
    decreases |vs|
  {
    if vs != [] {
      if |vs| > 1 {
        assert vs[1..][|vs| - 2] == vs[|vs| - 1];
      }
      StaysStopped(After(w, vs[0]), vs[1..]);
    }
  }

  /** After a Stop of a running thread, and until another start, whoever looks returns: no matter what is counted
      or queued. */
  lemma LookAfterStopReturns(before: seq<Move>, after: seq<Move>)
    requires Moves(NEW, before) && Outcome(NEW, before).s.m.running
    requires Moves(Outcome(NEW, before), [Step(Stop)] + after)
    requires Step(Start) !in after && after != [] && after[|after| - 1] == Look
    ensures Outcome(Outcome(NEW, before), [Step(Stop)] + after).waiter == Back
  {
    assert ([Step(Stop)] + after)[1..] == after;
    StaysStopped(After(Outcome(NEW, before), Step(Stop)), after);
  }

  /** Stop does not wake a waiter: one that sleeps in a stopped thread is still asleep after anything but
      another start, unless the worker was already past its last look at running, or about to notify. */
  lemma {:induction false} StoppedSleeps(w: Waiting, vs: seq<Move>)
    requires Invariant(w.s) && Moves(w, vs) && Step(Start) !in vs
    requires w.waiter == Asleep && !w.s.m.running && w.s.worker != AtFlag && !w.notifying
    ensures Outcome(w, vs).waiter == Asleep
    decreases |vs|
  {
    hide Invariant;
    if vs != [] {
      if vs[0].Step? {
        StepKeeps(w.s, vs[0].a);
        StoppedStep(w, vs[0].a);
      }
      StoppedSleeps(After(w, vs[0]), vs[1..]);
    }
  }

  lemma StoppedStep(w: Waiting, a: Action)
    requires Invariant(w.s) && Enabled(w.s, a) && a != Start && !w.s.m.running && w.s.worker != AtFlag
    ensures !Next(w.s, a).m.running && Next(w.s, a).worker != AtFlag && a != SetFlag
  {
    hide Callables, Empties;
  }

  lemma WakesFromFlag(w: Waiting) returns (vs: seq<Move>)
    requires w.waiter == Asleep && (w.s.worker == AtFlag || w.notifying)
    requires w.notifying ==> w.s.worker == LoopTop
    ensures Moves(w, vs) && Step(Start) !in vs && Outcome(w, vs).waiter == Looking
  {
    vs := if w.notifying then [Notify] else [Step(SetFlag), Notify];
    assert vs[1..] == if w.notifying then [] else [Notify];
    assert [Notify][1..] == [];
    if !w.notifying {
      var n := After(w, Step(SetFlag));
      assert Moves(n, [Notify]) && Outcome(n, [Notify]) == After(n, Notify);
    }
  }

  /** So a waiter asleep in a stopped thread can be woken without another start exactly when the worker stands
      at its flag or has just set it. */
  lemma WokenAfterStopIff(vs: seq<Move>)
    requires Moves(NEW, vs)
    requires Outcome(NEW, vs).waiter == Asleep && !Outcome(NEW, vs).s.m.running
    ensures var w := Outcome(NEW, vs);
            (exists more :: Moves(w, more) && Step(Start) !in more && Outcome(w, more).waiter != Asleep)
            <==> w.s.worker == AtFlag || w.notifying
  {
    hide Callables, Empties, Invariant;
    NewIsKept();
    KeptReached(NEW, vs, false);
    var w := Outcome(NEW, vs);
    if w.s.worker == AtFlag || w.notifying {
      var more := WakesFromFlag(w);
    } else {
      forall more | Moves(w, more) && Step(Start) !in more
        ensures Outcome(w, more).waiter == Asleep
      {
        StoppedSleeps(w, more);
      }
    }
  }

  /** It happens: started, nothing posted, somebody waits, stopped. */
  lemma StoppedSleeperReachable()
    ensures var vs := [Step(Start), Step(ResetFlag), Step(Spawn), Call, Look, Step(Stop)];
            && Moves(NEW, vs)
            && var w := Outcome(NEW, vs);
            w.waiter == Asleep && !w.s.m.running && w.s.worker == LoopTop && !w.notifying
  {
    var vs := [Step(Start), Step(ResetFlag), Step(Spawn), Call, Look, Step(Stop)];
    var w1 := After(NEW, vs[0]);
    var w2 := After(w1, vs[1]);
    var w3 := After(w2, vs[2]);
    var w4 := After(w3, vs[3]);
    var w5 := After(w4, vs[4]);
    var w6 := After(w5, vs[5]);
    assert Moves(w6, []) && Outcome(w6, []) == w6;
    assert vs[5..][1..] == [] && Moves(w5, vs[5..]) && Outcome(w5, vs[5..]) == w6;
    assert vs[4..][1..] == vs[5..] && Moves(w4, vs[4..]) && Outcome(w4, vs[4..]) == w6;
    assert vs[3..][1..] == vs[4..] && Moves(w3, vs[3..]) && Outcome(w3, vs[3..]) == w6;
    assert vs[2..][1..] == vs[3..] && Moves(w2, vs[2..]) && Outcome(w2, vs[2..]) == w6;
    assert vs[1..][1..] == vs[2..] && Moves(w1, vs[1..]) && Outcome(w1, vs[1..]) == w6;
  }

  /** After an empty function was popped no count comes down to zero again: the flag is never set again, and a
      waiter asleep then sleeps through anything, further starts included. */
  lemma {:induction false} EmptyFunctionForever(w: Waiting, vs: seq<Move>)
    requires Invariant(w.s) && Moves(w, vs)
    requires Empties(w.s.taken) > 0 && !BringsFlag(w.s.worker) && !w.notifying
    ensures Step(SetFlag) !in vs && (w.waiter == Asleep ==> Outcome(w, vs).waiter == Asleep)
    ensures Outcome(w, vs).s.m.tasksCompleted ==> w.s.m.tasksCompleted
    decreases |vs|
  {
    hide Invariant, Empties, Callables;
    if vs != [] {
      if vs[0].Step? {
        StepKeeps(w.s, vs[0].a);
        EmptyStep(w.s, vs[0].a);
      }
      EmptyFunctionForever(After(w, vs[0]), vs[1..]);
    }
  }

  lemma EmptyStep(s: State, a: Action)
    requires Invariant(s) && Enabled(s, a) && Empties(s.taken) > 0 && !BringsFlag(s.worker)
    ensures Empties(Next(s, a).taken) > 0 && !BringsFlag(Next(s, a).worker) && a != SetFlag
    ensures Next(s, a).m.tasksCompleted ==> s.m.tasksCompleted
  {
    hide Callables, Empties;
    EmptiesGrow(s, a);
  }
}
