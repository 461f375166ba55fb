/** Two binds that compete for one free slot, their sections interleaved in any way. */
module TrustOverlaps {
  import opened Buffers
  import opened TrustSlots
  import opened TrustArbitration

  predicate OfBind(a: Action) {
    || a.Check? || a.TakeSlot? || a.OpenSession? || a.ReportOpen?
    || a.MarkConflict? || a.OpenRefused? || a.ReportRefused? || a.DropRefused?
  }

  /** Nobody but i and j moves in a bind for the slot; anything may go on elsewhere. */
  predicate OnlyThese(s: State, run: seq<Action>, i: nat, j: nat, slot: Slot)
    requires Schedule(s, run)
    decreases |run|
  {
    run == [] || (Allowed(s, run[0], i, j, slot) && OnlyThese(Next(s, run[0]), run[1..], i, j, slot))
  }

  predicate Allowed(s: State, a: Action, i: nat, j: nat, slot: Slot)
    requires Enabled(s, a)
  {
    OfBind(a) && SlotOf(Name(s, a.i)) == slot ==> a.i == i || a.i == j
  }

  predicate IsTold(s: State, i: nat)
    requires i < |s.binds|
  {
    Connected(s.binds[i].socket) in s.t.events
  }

  predicate Competes(s: State, i: nat, slot: Slot) {
    i < |s.binds| && s.binds[i].id in s.t.sessions && SlotOf(Name(s, i)) == slot
  }

  predicate InConflict(s: State, i: nat)
    requires i < |s.binds| && s.binds[i].id in s.t.sessions
  {
    s.t.sessions[s.binds[i].id].conflict
  }

  /** How bind i stands to its competitor j. */
  predicate Side(s: State, i: nat, j: nat)
    requires i < |s.binds| && s.binds[i].id in s.t.sessions && j < |s.binds|
  {
    var p, q := s.binds[i].pc, s.binds[j].pc;
    && (p in TURNED_AWAY ==> Granted(q))
    && (p == Marked || p == MarkedOpen ==> InConflict(s, i))
    && (p == Returned(DCAMERA_DEVICE_BUSY) ==> !IsTold(s, i))
    && (p == Returned(DCAMERA_OK) && q in LET_THROUGH ==> IsTold(s, i))
    && ((p == Holding || p == Opened) && q in LET_THROUGH ==> !InConflict(s, i))
  }

  ghost predicate Pair(s: State, i: nat, j: nat, slot: Slot) {
    && Competes(s, i, slot) && Competes(s, j, slot)
    && Side(s, i, j) && Side(s, j, i)
    && (Holder(s.t.slots, slot) != FREE <==> Granted(s.binds[i].pc) || Granted(s.binds[j].pc))
  }

  predicate Contest(s: State, i: nat, j: nat, slot: Slot) {
    && i != j && slot != NoSlot && Competes(s, i, slot) && Competes(s, j, slot)
    && OneTag(Name(s, i)) && OneTag(Name(s, j))
  }

  lemma ContestStays(s: State, a: Action, i: nat, j: nat, slot: Slot)
    requires Contest(s, i, j, slot) && Enabled(s, a)
    ensures Contest(Next(s, a), i, j, slot)
  {
    hide Contains, Next, Enabled, SlotOf, OneTag;
    NamesStay(s, a);
  }

  /** A bind is told only by its own report. */
  lemma TellsStep(s: State, a: Action, i: nat)
    requires SocketsKept(s) && Enabled(s, a) && i < |s.binds| && s.binds[i].id in s.t.sessions
    ensures i < |Next(s, a).binds|
    ensures IsTold(Next(s, a), i) <==>
              IsTold(s, i) || ((a == ReportOpen(i) || a == ReportRefused(i)) && !InConflict(s, i))
  {
    hide Contains, Unused, Checked, Finds, Release, HoldsAny;
    CallsStay(s, a);
  }

  /** A step of bind i itself, seen from both sides and from the slot. */
  lemma OwnSide(s: State, a: Action, i: nat, j: nat, slot: Slot)
    requires Invariant(s) && Contest(s, i, j, slot) && Pair(s, i, j, slot)
    requires Enabled(s, a) && OfBind(a) && a.i == i && Contest(Next(s, a), i, j, slot)
    ensures Side(Next(s, a), i, j)
  {
    hide Contains, OneTag, SlotKept, EntryKept, CleanupKept, Next, Unused;
    NamesStay(s, a);
    PcMoves(s, a, i);
    PcMoves(s, a, j);
    MarkStep(s, a, s.binds[i].id);
    TellsStep(s, a, i);
    BusyIffHeld(s.t.slots, Name(s, i));
    NotTold(s, i);
  }

  lemma OtherSide(s: State, a: Action, i: nat, j: nat, slot: Slot)
    requires Invariant(s) && Contest(s, i, j, slot) && Pair(s, i, j, slot)
    requires Enabled(s, a) && OfBind(a) && a.i == i && Contest(Next(s, a), i, j, slot)
    ensures Side(Next(s, a), j, i)
  {
    hide Contains, OneTag, SlotKept, EntryKept, CleanupKept, EventKept, Next, Unused;
    NamesStay(s, a);
    PcMoves(s, a, i);
    PcMoves(s, a, j);
    MarkStep(s, a, s.binds[j].id);
    TellsStep(s, a, j);
    BusyIffHeld(s.t.slots, Name(s, i));
  }

  lemma OwnStep(s: State, a: Action, i: nat, j: nat, slot: Slot)
    requires Invariant(s) && Contest(s, i, j, slot) && Pair(s, i, j, slot)
    requires Enabled(s, a) && OfBind(a) && a.i == i
    ensures Pair(Next(s, a), i, j, slot)
  {
    hide Contains, OneTag, SlotKept, EntryKept, CleanupKept, EventKept, ConflictKept, Next, Unused, Side;
    ContestStays(s, a, i, j, slot);
    OwnSide(s, a, i, j, slot);
    OtherSide(s, a, i, j, slot);
    PcMoves(s, a, i);
    PcMoves(s, a, j);
    SlotMoves(s, a, slot);
  }

  lemma NotTold(s: State, i: nat)
    requires Invariant(s) && i < |s.binds| && !s.binds[i].pc.Returned?
    ensures !IsTold(s, i)
  {
    hide SlotKept, EntryKept, CleanupKept, ConflictKept;
    assert IsTold(s, i) ==> EventKept(s, Connected(s.binds[i].socket));
  }

  lemma ElsewhereStays(s: State, a: Action, i: nat, slot: Slot)
    requires Invariant(s) && Competes(s, i, slot) && slot != NoSlot
    requires Enabled(s, a) && !a.ReleaseSlot? && (OfBind(a) ==> SlotOf(Name(s, a.i)) != slot)
    ensures var n := Next(s, a);
            && Competes(n, i, slot) && n.binds[i].pc == s.binds[i].pc
            && Holder(n.t.slots, slot) == Holder(s.t.slots, slot)
            && IsTold(n, i) == IsTold(s, i) && InConflict(n, i) == InConflict(s, i)
  {
    hide Contains, SlotOf, SlotKept, EntryKept, CleanupKept, EventKept, ConflictKept, Next, Unused;
    NamesStay(s, a);
    PcMoves(s, a, i);
    MarkStep(s, a, s.binds[i].id);
    TellsStep(s, a, i);
    SlotMoves(s, a, slot);
  }

  lemma PairStep(s: State, a: Action, i: nat, j: nat, slot: Slot)
    requires Invariant(s) && Contest(s, i, j, slot) && Pair(s, i, j, slot)
    requires Enabled(s, a) && !a.ReleaseSlot? && Allowed(s, a, i, j, slot)
    ensures Pair(Next(s, a), i, j, slot)
  {
    hide Contains, OneTag, Next, Invariant, SlotOf;
    if OfBind(a) && a.i == i {
      OwnStep(s, a, i, j, slot);
    } else if OfBind(a) && a.i == j {
      OwnStep(s, a, j, i, slot);
    } else {
      ElsewhereStays(s, a, i, slot);
      ElsewhereStays(s, a, j, slot);
    }
  }

  lemma {:induction false} PairRun(s: State, run: seq<Action>, i: nat, j: nat, slot: Slot)
    requires Invariant(s) && Contest(s, i, j, slot) && Pair(s, i, j, slot)
    requires Schedule(s, run) && NoRelease(run) && OnlyThese(s, run, i, j, slot)
    ensures Pair(Play(s, run), i, j, slot)
    decreases |run|
  {
    hide Next, Enabled, Invariant, Contest, Pair, Allowed;
    if run != [] {
      StepKeeps(s, run[0]);
      ContestStays(s, run[0], i, j, slot);
      PairStep(s, run[0], i, j, slot);
      PairRun(Next(s, run[0]), run[1..], i, j, slot);
    }
  }

  /** Two binds that found nobody at their slot yet, run to their ends in any interleaving with each other and
      with whatever happens elsewhere: both are told they are connected exactly when both were checked before
      either took the slot. */
  lemma BothConnectIff(s: State, run: seq<Action>, i: nat, j: nat, slot: Slot)
    requires Invariant(s) && Contest(s, i, j, slot) && Holder(s.t.slots, slot) == FREE
    requires s.binds[i].pc == s.binds[j].pc == Resolved
    requires Schedule(s, run) && NoRelease(run) && OnlyThese(s, run, i, j, slot)
    requires var t := Play(s, run);
             i < |t.binds| && j < |t.binds| && t.binds[i].pc.Returned? && t.binds[j].pc.Returned?
    ensures var t := Play(s, run);
            IsTold(t, i) && IsTold(t, j) <==> CheckedFirst(s, run, i, slot) && CheckedFirst(s, run, j, slot)
  {
    hide Next, Enabled, Contains, OneTag, SlotOf;
    PairRun(s, run, i, j, slot);
    GrantedIffCheckedFirst(s, run, i, slot);
    GrantedIffCheckedFirst(s, run, j, slot);
  }

  /** It happens: both sections that look before either that takes. The slot is left to the second. */
  lemma ConcurrentBindsBothConnect(s0: State, a: Socket, x: SessionId, b: Socket, y: SessionId)
    returns (run: seq<Action>)
    requires Fresh(s0) && x in s0.t.sessions && y in s0.t.sessions && a >= 0 && b >= 0 && a != b
    requires SlotOf(s0.t.sessions[x].peerName) == SlotOf(s0.t.sessions[y].peerName) != NoSlot
    ensures Schedule(s0, run)
    ensures Play(s0, run).t.events == [Connected(a), Connected(b)]
    ensures Holder(Play(s0, run).t.slots, SlotOf(s0.t.sessions[x].peerName)) == b
  {
    hide Schedule, Play, Contains;
    run := BothChecked(s0, a, x, b, y);
    run := Extend(s0, run, TakeSlot(0));
    run := Extend(s0, run, TakeSlot(1));
    run := Extend(s0, run, OpenSession(0));
    run := Extend(s0, run, ReportOpen(0));
    run := Extend(s0, run, OpenSession(1));
    run := Extend(s0, run, ReportOpen(1));
  }

  lemma BothChecked(s0: State, a: Socket, x: SessionId, b: Socket, y: SessionId) returns (run: seq<Action>)
    requires Fresh(s0) && x in s0.t.sessions && y in s0.t.sessions && a >= 0 && b >= 0 && a != b
    ensures Schedule(s0, run)
    ensures var s := Play(s0, run);
            && s.binds == [BindCall(a, x, Passed, Present), BindCall(b, y, Passed, Present)]
            && s.t == s0.t.(socketMap := map[a := x, b := y])
  {
    hide Schedule, Play, Contains;
    Nothing(s0);
    run := Extend(s0, [], BindSocket(a, x));
    run := Extend(s0, run, BindSocket(b, y));
    run := Extend(s0, run, Check(0));
    run := Extend(s0, run, Check(1));
  }

  /** And a refused bind can be told it is connected: the holder on the same session is released between the
      mark and the report. The slot is free then. */
  lemma RefusedCanBeTold(s0: State, id: SessionId, a: Socket, b: Socket) returns (run: seq<Action>)
    requires Fresh(s0) && id in s0.t.sessions && IsControl(s0.t.sessions[id].peerName)
    requires a >= 0 && b >= 0 && a != b
    ensures Schedule(s0, run)
    ensures var s := Play(s0, run);
            && |s.binds| == 2 && s.binds[1].socket == b && s.binds[1].pc == Returned(DCAMERA_DEVICE_BUSY)
            && IsTold(s, 1) && s.t.slots == Slots(FREE, FREE, FREE)
  {
    hide Contains, Schedule, Play;
    run := SecondMarked(s0, id, a, b);
    run := Extend(s0, run, LookUp(0));
    run := Extend(s0, run, ReleaseSlot(0));
    run := Extend(s0, run, OpenRefused(1));
    run := Extend(s0, run, ReportRefused(1));
  }

  lemma SecondMarked(s0: State, id: SessionId, a: Socket, b: Socket) returns (run: seq<Action>)
    requires Fresh(s0) && id in s0.t.sessions && IsControl(s0.t.sessions[id].peerName)
    requires a >= 0 && b >= 0 && a != b
    ensures Schedule(s0, run)
    ensures var s := Play(s0, run);
            && s.binds == [BindCall(a, id, Returned(DCAMERA_OK), Present), BindCall(b, id, Marked, Present)]
            && id in s.t.sessions && s.t.sessions[id].sessionId == a && s.t.slots == Slots(a, FREE, FREE)
            && s.t.socketMap == map[a := id, b := id]
  {
    hide Contains, Schedule, Play;
    run := UninterruptedBind(s0, a, id);
    run := Extend(s0, run, BindSocket(b, id));
    run := Extend(s0, run, Check(1));
    run := Extend(s0, run, MarkConflict(1));
  }
}
