/** What arbitration guarantees: for overlapping binds and shutdowns, for a bind or shutdown nobody interrupts,
    who is told to be connected, and which of several binds for a free slot are let through. */
module TrustArbitration {
  import opened Buffers
  import opened TrustSlots

  lemma FreshHolds(s: State)
    requires Fresh(s)
    ensures Invariant(s)
  {
    hide Contains;
  }

  /** Whatever sections of binds, shutdowns and clean-ups have gone before: a slot is free or held by a socket
      whose bind was let through for it, and no socket holds two. */
  lemma OneHolderEach(s0: State, run: seq<Action>, x: Slot, y: Slot)
    requires Fresh(s0) && Schedule(s0, run)
    ensures var s := Play(s0, run);
            Holder(s.t.slots, x) != FREE ==>
              && (exists i: nat :: HeldBy(s, i, x, Holder(s.t.slots, x)))
              && (x != y ==> Holder(s.t.slots, y) != Holder(s.t.slots, x))
  {
    hide Next, Enabled, Contains, EntryKept, ConflictKept, CleanupKept, EventKept;
    FreshHolds(s0);
    Reached(s0, run);
    var s := Play(s0, run);
    assert SlotKept(s, x) && SlotKept(s, y);
  }

  /** A slot goes to the socket of a bind that takes it, or is freed in the shutdown of its own holder. */
  lemma SlotChanges(s: State, a: Action, slot: Slot)
    requires Invariant(s) && Enabled(s, a)
    ensures var before, after := Holder(s.t.slots, slot), Holder(Next(s, a).t.slots, slot);
            before != after ==>
              || (a.TakeSlot? && after == s.binds[a.i].socket && SlotOf(Name(s, a.i)) == slot)
              || (a.ReleaseSlot? && after == FREE && before == s.binds[a.i].socket)
  {
    hide Contains, Next, Invariant, Unused;
    SlotMoves(s, a, slot);
  }

  // ---- A bind nobody interrupts ----

  lemma {:induction false} Longer(s: State, run: seq<Action>, a: Action)
    requires Schedule(s, run) && Enabled(Play(s, run), a)
    ensures Schedule(s, run + [a]) && Play(s, run + [a]) == Next(Play(s, run), a)
    decreases |run|
  {
    hide Next, Enabled;
    if run == [] {
      assert run + [a] == [a] && [a][1..] == [];
    } else {
      Longer(Next(s, run[0]), run[1..], a);
      assert (run + [a])[1..] == run[1..] + [a];
    }
  }

  lemma Extend(s: State, run: seq<Action>, a: Action) returns (longer: seq<Action>)
    requires Schedule(s, run) && Enabled(Play(s, run), a)
    ensures Schedule(s, longer) && Play(s, longer) == Next(Play(s, run), a)
  {
    Longer(s, run, a);
    longer := run + [a];
  }

  lemma {:induction false} Join(s: State, xs: seq<Action>, ys: seq<Action>) returns (run: seq<Action>)
    requires Schedule(s, xs) && Schedule(Play(s, xs), ys)
    ensures Schedule(s, run) && Play(s, run) == Play(Play(s, xs), ys)
    decreases |xs|
  {
    hide Next, Enabled;
    if xs == [] {
      run := ys;
    } else {
      var rest := Join(Next(s, xs[0]), xs[1..], ys);
      run := [xs[0]] + rest;
      assert run[1..] == rest;
    }
  }

  lemma Nothing(s: State)
    ensures Schedule(s, []) && Play(s, []) == s
  {}

  /** The sections of one bind in a row are what Bind says. */
  lemma UninterruptedBind(s: State, socket: Socket, id: SessionId) returns (run: seq<Action>)
    requires Enabled(s, BindSocket(socket, id))
    ensures Schedule(s, run)
    ensures Play(s, run) == State(Bind(s.t, socket, id),
              s.binds + [BindCall(socket, id, Returned(BindResult(s.t, id)), Present)])
  {
    hide Schedule, Play, Contains, Unused;
    var n := |s.binds|;
    run := [];
    Nothing(s);
    run := Extend(s, run, BindSocket(socket, id));
    run := Extend(s, run, Check(n));
    if ControlBusy(s.t.slots, s.t.sessions[id].peerName) {
      run := Extend(s, run, MarkConflict(n));
      run := Extend(s, run, OpenRefused(n));
      run := Extend(s, run, ReportRefused(n));
    } else if DataBusy(s.t.slots, s.t.sessions[id].peerName) {
      run := Extend(s, run, DropRefused(n));
    } else {
      run := Extend(s, run, TakeSlot(n));
      run := Extend(s, run, OpenSession(n));
      run := Extend(s, run, ReportOpen(n));
    }
  }

  /** What is left of a shutdown after its release. */
  lemma RestOfShutdown(s: State, i: nat, id: SessionId) returns (run: seq<Action>)
    requires i < |s.binds| && s.binds[i].leave == Released(id) && id in s.t.sessions
    ensures Schedule(s, run)
    ensures var socket := s.binds[i].socket;
            Play(s, run) == Left(s, i, Drop(Report(SetId(s.t, id, -1), id, Disconnected(socket)), socket), Gone)
  {
    hide Schedule, Play;
    Nothing(s);
    run := Extend(s, [], CloseSession(i));
    run := Extend(s, run, ReportClose(i));
    run := Extend(s, run, EraseEntry(i));
  }

  /** The sections of one shutdown in a row are what Shutdown says. */
  lemma UninterruptedShutdown(s: State, i: nat) returns (run: seq<Action>)
    requires Invariant(s) && Enabled(s, LookUp(i))
    ensures Schedule(s, run)
    ensures Play(s, run) == Left(s, i, Shutdown(s.t, s.binds[i].socket), Gone)
  {
    hide Schedule, Play, Contains, SlotKept, CleanupKept, EventKept, ConflictKept;
    hide Release, HoldsAny, SetId, Report, Drop;
    assert EntryKept(s, i);
    Nothing(s);
    run := Extend(s, [], LookUp(i));
    if Finds(s.t, s.binds[i].socket) {
      run := Extend(s, run, ReleaseSlot(i));
      var rest := RestOfShutdown(Play(s, run), i, s.binds[i].id);
      run := Join(s, run, rest);
    }
  }

  /** In every state overlapping binds, shutdowns and clean-ups lead to, a bind that is then left alone is
      refused without touching a slot or being reported, or finds its slot free, gets it and no other, and
      is reported connected. */
  lemma BindArbitrates(s0: State, run: seq<Action>, socket: Socket, id: SessionId)
    requires Fresh(s0) && Schedule(s0, run) && Enabled(Play(s0, run), BindSocket(socket, id))
    ensures var s := Play(s0, run).t;
            var t, slot := Bind(s, socket, id), SlotOf(s.sessions[id].peerName);
            && (BindResult(s, id) == DCAMERA_DEVICE_BUSY ==> t.slots == s.slots && t.events == s.events)
            && (BindResult(s, id) == DCAMERA_OK ==>
                  && t.events == s.events + [Connected(socket)]
                  && (slot != NoSlot ==> Holder(s.slots, slot) == FREE && Holder(t.slots, slot) == socket)
                  && forall other :: other != slot ==> Holder(t.slots, other) == Holder(s.slots, other))
  {
    hide Contains, EntryKept, CleanupKept, EventKept, SlotKept, Next, BindsKept;
    FreshHolds(s0);
    Reached(s0, run);
  }

  // ---- Who is told to be connected ----

  /** The conflict mark of a session through a run: set by a refused control bind on it, taken off by a take on
      it and by the release of a slot holder that is shut down on it. */
  function MarkAfter(s: State, run: seq<Action>, id: SessionId, was: bool): bool
    requires Schedule(s, run)
    decreases |run|
  {
    if run == [] then was else
    MarkAfter(Next(s, run[0]), run[1..], id,
              if Marks(s, run[0], id) then true else if Unmarks(s, run[0], id) then false else was)
  }

  predicate Marks(s: State, a: Action, id: SessionId)
    requires Enabled(s, a)
  {
    a.MarkConflict? && s.binds[a.i].id == id
  }

  predicate Unmarks(s: State, a: Action, id: SessionId)
    requires Enabled(s, a)
  {
    || (a.TakeSlot? && s.binds[a.i].id == id)
    || (a.ReleaseSlot? && s.binds[a.i].id == id && HoldsAny(s.t.slots, s.binds[a.i].socket))
  }

  lemma MarkStep(s: State, a: Action, id: SessionId)
    requires Invariant(s) && Enabled(s, a) && id in s.t.sessions
    ensures id in Next(s, a).t.sessions
    ensures Next(s, a).t.sessions[id].conflict ==
              if Marks(s, a, id) then true else if Unmarks(s, a, id) then false else s.t.sessions[id].conflict
  {
    hide Contains, Unused, Release, Checked, HoldsAny, SlotKept, CleanupKept, EventKept, Finds;
    if a.ReleaseSlot? {
      assert EntryKept(s, a.i);
    }
  }

  lemma {:induction false} MarkIs(s: State, run: seq<Action>, id: SessionId)
    requires Invariant(s) && Schedule(s, run) && id in s.t.sessions
    ensures id in Play(s, run).t.sessions
    ensures Play(s, run).t.sessions[id].conflict == MarkAfter(s, run, id, s.t.sessions[id].conflict)
    decreases |run|
  {
    hide Next, Enabled, Invariant, Marks, Unmarks;
    if run != [] {
      StepKeeps(s, run[0]);
      MarkStep(s, run[0], id);
      MarkIs(Next(s, run[0]), run[1..], id);
    }
  }

  /** From the mark of a refused control bind to its report, whatever comes between: it is told it is connected
      exactly when, of all that marks and unmarks its session since, the last has taken the mark off. */
  lemma {:induction false} ToldIffUnmarked(s: State, run: seq<Action>, i: nat)
    requires Invariant(s) && run != [] && run[0] == MarkConflict(i) && Schedule(s, run)
    requires Enabled(Play(s, run), ReportRefused(i))
    ensures i < |s.binds|
    ensures Connected(s.binds[i].socket) in Next(Play(s, run), ReportRefused(i)).t.events
            <==> !MarkAfter(Next(s, run[0]), run[1..], s.binds[i].id, true)
  {
    hide Contains, SlotKept, CleanupKept, EntryKept, Next, Enabled, Marks, Unmarks, BindsKept;
    MarkEnabled(s, i);
    Reached(s, run);
    StepKeeps(s, run[0]);
    MarkStep(s, run[0], s.binds[i].id);
    MarkIs(Next(s, run[0]), run[1..], s.binds[i].id);
    CallsKeep(s, run);
    ReportTells(Play(s, run), i);
  }

  lemma MarkEnabled(s: State, i: nat)
    requires Enabled(s, MarkConflict(i))
    ensures i < |s.binds| && s.binds[i].id in s.t.sessions && Marks(s, MarkConflict(i), s.binds[i].id)
  {}

  lemma {:induction false} CallsKeep(s: State, run: seq<Action>)
    requires Schedule(s, run)
    ensures |Play(s, run).binds| >= |s.binds|
    ensures forall i :: 0 <= i < |s.binds| ==>
              Play(s, run).binds[i].socket == s.binds[i].socket && Play(s, run).binds[i].id == s.binds[i].id
    decreases |run|
  {
    hide Next, Enabled;
    if run != [] {
      CallsStay(s, run[0]);
      CallsKeep(Next(s, run[0]), run[1..]);
    }
  }

  lemma ReportTells(s: State, i: nat)
    requires Invariant(s) && Enabled(s, ReportRefused(i))
    ensures i < |s.binds| && s.binds[i].id in s.t.sessions
    ensures Connected(s.binds[i].socket) in Next(s, ReportRefused(i)).t.events
            <==> !s.t.sessions[s.binds[i].id].conflict
  {
    hide Contains, SlotKept, CleanupKept, EntryKept;
    var e := Connected(s.binds[i].socket);
    assert e in s.t.events ==> EventKept(s, e);
  }

  predicate Told(b: BindCall, socket: Socket) { b.socket == socket && b.pc == Returned(DCAMERA_OK) }

  /** Connected was only ever reported for binds that were let through. */
  ghost predicate ToldAreGranted(s: State) {
    forall e :: e in s.t.events && e.Connected? ==> exists i :: 0 <= i < |s.binds| && Told(s.binds[i], e.socket)
  }

  /** Every refused control bind in the run still finds its session marked when it comes to report. */
  predicate MarksLast(s: State, run: seq<Action>)
    requires Schedule(s, run)
    decreases |run|
  {
    run == [] || (StillMarked(s, run[0]) && MarksLast(Next(s, run[0]), run[1..]))
  }

  predicate StillMarked(s: State, a: Action)
    requires Enabled(s, a)
  {
    a.ReportRefused? ==> s.t.sessions[s.binds[a.i].id].conflict
  }

  lemma ToldStep(s: State, a: Action)
    requires Enabled(s, a) && ToldAreGranted(s) && StillMarked(s, a)
    ensures ToldAreGranted(Next(s, a))
  {
    hide Contains, Unused, Checked, Finds, Release, HoldsAny;
    var n := Next(s, a);
    forall e | e in n.t.events && e.Connected?
      ensures exists i :: 0 <= i < |n.binds| && Told(n.binds[i], e.socket)
    {
      if e in s.t.events {
        var i :| 0 <= i < |s.binds| && Told(s.binds[i], e.socket);
        assert Told(n.binds[i], e.socket);
      } else {
        assert a.ReportOpen? && Told(n.binds[a.i], e.socket);
      }
    }
  }

  /** A refused bind that has been told. */
  predicate ToldRefused(s: State, i: nat) {
    && i < |s.binds| && s.binds[i].pc == Returned(DCAMERA_DEVICE_BUSY)
    && Connected(s.binds[i].socket) in s.t.events
  }

  lemma {:induction false} ToldRefusedStays(s: State, run: seq<Action>, i: nat)
    requires Invariant(s) && Schedule(s, run) && ToldRefused(s, i)
    ensures !ToldAreGranted(Play(s, run))
    decreases |run|
  {
    hide Next, Enabled;
    if run == [] {
      hide SlotKept, EntryKept, CleanupKept, EventKept, ConflictKept;
      assert forall j :: 0 <= j < |s.binds| && s.binds[j].socket == s.binds[i].socket ==> j == i;
    } else {
      hide Invariant;
      StepKeeps(s, run[0]);
      CallsStay(s, run[0]);
      ReturnedStays(s, run[0], i);
      EventsStay(s, run[0]);
      ToldRefusedStays(Next(s, run[0]), run[1..], i);
    }
  }

  lemma EventsStay(s: State, a: Action)
    requires Enabled(s, a)
    ensures forall e :: e in s.t.events ==> e in Next(s, a).t.events
  {
    hide Contains, Unused, Checked, Finds, Release, HoldsAny;
  }

  /** However binds and shutdowns overlap: connected is reported only to binds that were let through if and only
      if every refused control bind still finds its mark when it reports. */
  lemma {:induction false} ConnectedMeansGranted(s: State, run: seq<Action>)
    requires Invariant(s) && Schedule(s, run) && ToldAreGranted(s)
    ensures ToldAreGranted(Play(s, run)) <==> MarksLast(s, run)
    decreases |run|
  {
    hide Next, Enabled, ToldAreGranted, StillMarked, Invariant;
    if run != [] {
      StepKeeps(s, run[0]);
      if StillMarked(s, run[0]) {
        ToldStep(s, run[0]);
        ConnectedMeansGranted(Next(s, run[0]), run[1..]);
      } else {
        NotMarkedTold(s, run[0]);
        ToldRefusedStays(Next(s, run[0]), run[1..], run[0].i);
      }
    }
  }

  lemma NotMarkedTold(s: State, a: Action)
    requires Invariant(s) && Enabled(s, a) && !StillMarked(s, a)
    ensures a.ReportRefused? && ToldRefused(Next(s, a), a.i)
  {
    hide Contains, SlotKept, EntryKept, CleanupKept, EventKept, ConflictKept;
  }

  // ---- Two binds for one free slot ----

  predicate TakesSlot(s: State, a: Action, slot: Slot)
    requires Enabled(s, a)
  {
    a.TakeSlot? && SlotOf(Name(s, a.i)) == slot
  }

  /** Bind i is checked in the run before anybody takes the slot. */
  predicate CheckedFirst(s: State, run: seq<Action>, i: nat, slot: Slot)
    requires Schedule(s, run)
    decreases |run|
  {
    run != [] &&
    (run[0] == Check(i) || (!TakesSlot(s, run[0], slot) && CheckedFirst(Next(s, run[0]), run[1..], i, slot)))
  }

  predicate NoRelease(run: seq<Action>) { forall k :: 0 <= k < |run| ==> !run[k].ReleaseSlot? }

  /** A name with one tag, as the sessions of the repository have. */
  predicate OneTag(name: string) {
    && (IsControl(name) ==> !IsContinue(name) && !IsSnapshot(name))
    && (IsContinue(name) ==> !IsSnapshot(name))
  }

  lemma HeldMeansBusy(slots: Slots, name: string)
    requires Holder(slots, SlotOf(name)) != FREE
    ensures Busy(slots, name)
  {
    hide Contains;
  }

  lemma BusyIffHeld(slots: Slots, name: string)
    requires OneTag(name) && SlotOf(name) != NoSlot
    ensures Busy(slots, name) <==> Holder(slots, SlotOf(name)) != FREE
  {
    hide Contains;
  }

  lemma SlotWithoutRelease(s: State, a: Action, slot: Slot)
    requires BindsKept(s) && Enabled(s, a) && !a.ReleaseSlot? && slot != NoSlot
    ensures Holder(Next(s, a).t.slots, slot) ==
              if TakesSlot(s, a, slot) then s.binds[a.i].socket else Holder(s.t.slots, slot)
    ensures TakesSlot(s, a, slot) ==> s.binds[a.i].socket != FREE
  {
    hide SlotOf, Next;
    SlotMoves(s, a, slot);
  }

  /** Bind i is at pc; its way from there. */
  predicate IsAt(s: State, i: nat, pcs: set<BindPc>) { i < |s.binds| && s.binds[i].pc in pcs }

  const LET_THROUGH := {Passed, Holding, Opened, Returned(DCAMERA_OK)}
  const TURNED_AWAY := {Refused, Marked, MarkedOpen, Dropping, Returned(DCAMERA_DEVICE_BUSY)}

  lemma WayStep(s: State, a: Action, i: nat)
    requires Enabled(s, a) && i < |s.binds|
    ensures IsAt(s, i, LET_THROUGH) ==> IsAt(Next(s, a), i, LET_THROUGH)
    ensures IsAt(s, i, TURNED_AWAY) ==> IsAt(Next(s, a), i, TURNED_AWAY)
    ensures s.binds[i].pc == Resolved && a != Check(i) ==> i < |Next(s, a).binds| && Next(s, a).binds[i].pc == Resolved
  {
    hide Next, Contains, Unused;
    PcMoves(s, a, i);
  }

  lemma {:induction false} WayEnds(s: State, run: seq<Action>, i: nat)
    requires Schedule(s, run) && i < |s.binds|
    ensures IsAt(s, i, LET_THROUGH) ==> IsAt(Play(s, run), i, LET_THROUGH)
    ensures IsAt(s, i, TURNED_AWAY) ==> IsAt(Play(s, run), i, TURNED_AWAY)
    decreases |run|
  {
    hide Next, Enabled;
    if run != [] && (IsAt(s, i, LET_THROUGH) || IsAt(s, i, TURNED_AWAY)) {
      WayStep(s, run[0], i);
      WayEnds(Next(s, run[0]), run[1..], i);
    }
  }

  lemma CheckStep(s: State, i: nat, slot: Slot)
    requires Enabled(s, Check(i)) && SlotOf(Name(s, i)) == slot != NoSlot && OneTag(Name(s, i))
    ensures IsAt(Next(s, Check(i)), i, if Holder(s.t.slots, slot) == FREE then LET_THROUGH else TURNED_AWAY)
  {
    hide Contains;
    BusyIffHeld(s.t.slots, Name(s, i));
  }

  lemma {:induction false} HeldSlotRefuses(s: State, run: seq<Action>, i: nat, slot: Slot)
    requires BindsKept(s) && Schedule(s, run) && NoRelease(run)
    requires i < |s.binds| && s.binds[i].pc == Resolved
    requires SlotOf(Name(s, i)) == slot != NoSlot && OneTag(Name(s, i)) && Holder(s.t.slots, slot) != FREE
    ensures IsAt(Play(s, run), i, TURNED_AWAY + {Resolved})
    decreases |run|
  {
    hide Next, Contains, SlotOf, OneTag;
    if run != [] {
      BindsKeep(s, run[0]);
      NamesStay(s, run[0]);
      if run[0] == Check(i) {
        CheckStep(s, i, slot);
        WayEnds(Next(s, run[0]), run[1..], i);
      } else {
        WayStep(s, run[0], i);
        SlotWithoutRelease(s, run[0], slot);
        HeldSlotRefuses(Next(s, run[0]), run[1..], i, slot);
      }
    }
  }

  /** Any number of binds, one free slot, no release: a bind that returns is let through exactly when it was
      checked before the first of them took the slot. */
  lemma {:induction false} GrantedIffCheckedFirst(s: State, run: seq<Action>, i: nat, slot: Slot)
    requires BindsKept(s) && Schedule(s, run) && NoRelease(run)
    requires i < |s.binds| && s.binds[i].pc == Resolved
    requires SlotOf(Name(s, i)) == slot != NoSlot && OneTag(Name(s, i)) && Holder(s.t.slots, slot) == FREE
    requires i < |Play(s, run).binds| && Play(s, run).binds[i].pc.Returned?
    ensures Play(s, run).binds[i].pc.ret == if CheckedFirst(s, run, i, slot) then DCAMERA_OK else DCAMERA_DEVICE_BUSY
    decreases |run|
  {
    hide Next, Contains, SlotOf, OneTag;
    if run != [] {
      var n := Next(s, run[0]);
      BindsKeep(s, run[0]);
      NamesStay(s, run[0]);
      if run[0] == Check(i) {
        CheckStep(s, i, slot);
        WayEnds(n, run[1..], i);
      } else {
        WayStep(s, run[0], i);
        SlotWithoutRelease(s, run[0], slot);
        if TakesSlot(s, run[0], slot) {
          HeldSlotRefuses(n, run[1..], i, slot);
        } else {
          GrantedIffCheckedFirst(n, run[1..], i, slot);
        }
      }
    }
  }
}
