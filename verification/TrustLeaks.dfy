/** Which shutdowns free a slot, how a slot can be left taken for good, and when that cannot happen. */
module TrustLeaks {
  import opened Buffers
  import opened TrustSlots
  import opened TrustArbitration

  function IdOf(s: State, i: nat): int
    requires i < |s.binds| && s.binds[i].id in s.t.sessions
  {
    s.t.sessions[s.binds[i].id].sessionId
  }

  lemma HolderIsGranted(s: State, i: nat, slot: Slot)
    requires Invariant(s) && i < |s.binds| && Holder(s.t.slots, slot) == s.binds[i].socket
    ensures HeldBy(s, i, slot, s.binds[i].socket)
  {
    hide Contains, EntryKept, CleanupKept, EventKept, ConflictKept;
    assert SlotKept(s, slot);
  }

  /** In every reachable state a holder that is not shut down yet still has its map entry: its shutdown finds
      its session, and left alone frees its slot, exactly when the session has an id. */
  lemma LiveHolderFreedIff(s0: State, run: seq<Action>, i: nat, slot: Slot)
    requires Fresh(s0) && Schedule(s0, run) && Enabled(Play(s0, run), LookUp(i))
    requires Holder(Play(s0, run).t.slots, slot) == Play(s0, run).binds[i].socket
    ensures var s := Play(s0, run);
            && s.binds[i].id in s.t.sessions
            && (Next(s, LookUp(i)).binds[i].leave == Found(s.binds[i].id) <==> IdOf(s, i) >= 0)
            && (Next(s, LookUp(i)).binds[i].leave == Gone <==> IdOf(s, i) < 0)
            && (Holder(Shutdown(s.t, s.binds[i].socket).slots, slot) == FREE <==> IdOf(s, i) >= 0)
  {
    hide Contains, CleanupKept, EventKept, ConflictKept, SlotKept, Release, HoldsAny;
    FreshHolds(s0);
    Reached(s0, run);
    var s := Play(s0, run);
    HolderIsGranted(s, i, slot);
    assert EntryKept(s, i);
    ReleasesAll(s, slot, i);
  }

  /** Once the lookup has found it, the slot is freed, whatever comes between. */
  lemma ReleaseFrees(s: State, i: nat, slot: Slot)
    requires Invariant(s) && Enabled(s, ReleaseSlot(i))
    ensures Holder(Next(s, ReleaseSlot(i)).t.slots, slot) != s.binds[i].socket
  {
    hide Contains, Invariant, Next, Release;
    SlotMoves(s, ReleaseSlot(i), slot);
    NotFree(s, i);
    if Holder(s.t.slots, slot) == s.binds[i].socket {
      ReleasesAll(s, slot, i);
    } else {
      KeepsOthers(s.t.slots, s.binds[i].socket, slot);
    }
  }

  lemma NotFree(s: State, i: nat)
    requires Invariant(s) && i < |s.binds|
    ensures s.binds[i].socket != FREE
  {
    hide Contains, SlotKept, EntryKept, CleanupKept, EventKept, ConflictKept;
  }

  lemma KeepsOthers(slots: Slots, socket: Socket, slot: Slot)
    requires Holder(slots, slot) != socket && socket != FREE
    ensures Holder(Release(slots, socket), slot) == Holder(slots, slot)
  {}

  lemma ReleasesAll(s: State, slot: Slot, i: nat)
    requires Invariant(s) && i < |s.binds| && Holder(s.t.slots, slot) == s.binds[i].socket
    ensures Holder(Release(s.t.slots, s.binds[i].socket), slot) == FREE
  {
    hide Contains, CleanupKept, EventKept, ConflictKept, EntryKept;
    var k := s.binds[i].socket;
    forall other | Holder(s.t.slots, other) == k
      ensures other == slot
    {
      HolderIsGranted(s, i, other);
      HolderIsGranted(s, i, slot);
    }
    assert Holder(s.t.slots, Control) == s.t.slots.control && Holder(s.t.slots, DataContinue) == s.t.slots.dataContinue;
  }

  /** Which steps take the id off a session: the close in a shutdown whose lookup has found it, and the clean-up
      of a refused bind on it while the control slot is free. */
  lemma IdLostIff(s: State, a: Action, id: SessionId)
    requires Invariant(s) && Enabled(s, a) && id in s.t.sessions && s.t.sessions[id].sessionId >= 0
    ensures id in Next(s, a).t.sessions
    ensures Next(s, a).t.sessions[id].sessionId < 0 <==>
            || (a.CloseSession? && s.binds[a.i].id == id)
            || (a.Reset? && s.t.cleanups[a.c].session == id && s.t.slots.control == FREE)
  {
    hide Contains, Unused, Release, Checked, HoldsAny, CleanupKept, EventKept, ConflictKept, Finds;
    assert SlotKept(s, Control);
    if a.CloseSession? {
      assert EntryKept(s, a.i);
    }
  }

  // ---- When nothing leaks ----

  predicate NoRefusal(s: State) { s.t.cleanups == [] && forall i :: 0 <= i < |s.binds| ==> !ToldBusy(s.binds[i].pc) }

  lemma RefusalsStay(s: State, a: Action)
    requires Enabled(s, a) && NoRefusal(Next(s, a))
    ensures NoRefusal(s) && !a.MarkConflict? && !a.OpenRefused? && !a.ReportRefused?
  {
    hide Contains, Unused, Finds, Release, HoldsAny;
    var n := Next(s, a);
    assert |n.t.cleanups| >= |s.t.cleanups|;
    assert !a.ReportRefused?;
    assert forall i :: 0 <= i < |s.binds| && ToldBusy(s.binds[i].pc) ==> ToldBusy(n.binds[i].pc);
  }

  /** Between its lookup and its close, a shutdown is going to take the id off its session. */
  predicate WillClose(s: State, i: nat, id: SessionId)
    requires i < |s.binds|
  {
    (s.binds[i].leave.Found? || s.binds[i].leave.Released?) && s.binds[i].id == id
  }

  /** No bind takes a slot that somebody else has taken since its check, and none opens a session that another
      socket's shutdown is going to close. */
  predicate Orderly(s: State, run: seq<Action>)
    requires Schedule(s, run)
    decreases |run|
  {
    run == [] || (InTurn(s, run[0]) && Orderly(Next(s, run[0]), run[1..]))
  }

  predicate InTurn(s: State, a: Action)
    requires Enabled(s, a)
  {
    && (a.TakeSlot? ==> Holder(s.t.slots, SlotOf(Name(s, a.i))) == FREE)
    && (a.OpenSession? ==> forall k :: 0 <= k < |s.binds| ==> !WillClose(s, k, s.binds[a.i].id))
  }

  /** Let through for one of the slots, and not shut down yet. */
  predicate InPlace(s: State, i: nat)
    requires i < |s.binds| && s.binds[i].id in s.t.sessions
  {
    s.binds[i].leave == Present && Granted(s.binds[i].pc) && SlotOf(Name(s, i)) != NoSlot
  }

  /** Such a bind holds its slot, and from its open on the id of its session, which nobody is going to close;
      one that was refused has no map entry. */
  predicate InOrder(s: State, i: nat)
    requires i < |s.binds| && s.binds[i].id in s.t.sessions
  {
    var b := s.binds[i];
    && (InPlace(s, i) ==> Holder(s.t.slots, SlotOf(Name(s, i))) == b.socket)
    && (InPlace(s, i) && b.pc != Holding ==>
          IdOf(s, i) == b.socket && forall k :: 0 <= k < |s.binds| ==> !WillClose(s, k, b.id))
    && (b.pc == Returned(DCAMERA_DEVICE_BUSY) ==> b.socket !in s.t.socketMap)
  }

  ghost predicate AllInOrder(s: State) {
    forall i :: 0 <= i < |s.binds| && s.binds[i].id in s.t.sessions ==> InOrder(s, i)
  }

  /** Two binds in place on one session are one. */
  lemma OnlyOneInPlace(s: State, i: nat, k: nat)
    requires Invariant(s) && AllInOrder(s) && i < |s.binds| && k < |s.binds|
    requires s.binds[i].id in s.t.sessions && s.binds[k].id == s.binds[i].id && InPlace(s, i) && InPlace(s, k)
    ensures i == k
  {
    hide Contains, SlotOf, SlotKept, EntryKept, CleanupKept, EventKept, ConflictKept;
    assert InOrder(s, i) && InOrder(s, k);
  }

  lemma FoundIsInPlace(s: State, k: nat)
    requires Invariant(s) && AllInOrder(s) && Enabled(s, LookUp(k)) && Finds(s.t, s.binds[k].socket)
    ensures s.binds[k].id in s.t.sessions && (SlotOf(Name(s, k)) != NoSlot ==> InPlace(s, k))
  {
    hide Contains, SlotOf, SlotKept, CleanupKept, EventKept, ConflictKept;
    assert InOrder(s, k) && EntryKept(s, k);
  }

  lemma WillCloseStep(s: State, a: Action, k: nat, id: SessionId)
    requires Invariant(s) && Enabled(s, a) && k < |Next(s, a).binds| && WillClose(Next(s, a), k, id)
    ensures k < |s.binds| && s.binds[k].id == id
    ensures WillClose(s, k, id) || (a == LookUp(k) && Finds(s.t, s.binds[k].socket))
  {
    hide Contains, Unused, Next, Finds, SlotKept, EntryKept, CleanupKept, EventKept, ConflictKept;
    NewCalls(s, a);
    if k < |s.binds| {
      CallsStay(s, a);
      LeaveMoves(s, a, k);
    }
  }

  /** Bind i in place after a step was in place before, or has just taken its slot. */
  lemma InPlaceStep(s: State, a: Action, i: nat)
    requires Invariant(s) && Enabled(s, a) && i < |Next(s, a).binds|
    ensures Next(s, a).binds[i].id in Next(s, a).t.sessions
    ensures InPlace(Next(s, a), i) ==>
              && i < |s.binds| && SlotOf(Name(s, i)) == SlotOf(Name(Next(s, a), i)) != NoSlot
              && (a == TakeSlot(i) || InPlace(s, i))
              && (Next(s, a).binds[i].pc != Holding ==>
                    InPlace(s, i) && (a == OpenSession(i) || s.binds[i].pc != Holding))
  {
    hide Contains, SlotOf, Unused, Next, Finds, SlotKept, EntryKept, CleanupKept, EventKept, ConflictKept, Checked;
    NamesStay(s, a);
    NewCalls(s, a);
    if i < |s.binds| {
      PcMoves(s, a, i);
      LeaveMoves(s, a, i);
    }
  }

  lemma HolderStep(s: State, a: Action, i: nat)
    requires Invariant(s) && AllInOrder(s) && Enabled(s, a) && InTurn(s, a)
    requires i < |Next(s, a).binds| && Next(s, a).binds[i].id in Next(s, a).t.sessions && InPlace(Next(s, a), i)
    ensures Holder(Next(s, a).t.slots, SlotOf(Name(Next(s, a), i))) == Next(s, a).binds[i].socket
  {
    hide Contains, SlotOf, SlotKept, EntryKept, CleanupKept, EventKept, ConflictKept, InPlace, Next, Release, Unused;
    InPlaceStep(s, a, i);
    NamesStay(s, a);
    var slot := SlotOf(Name(s, i));
    SlotMoves(s, a, slot);
    assert InOrder(s, i);
    NotFree(s, i);
    if a.ReleaseSlot? && InPlace(s, i) {
      assert a.i != i by { LeavingIsNotInPlace(s, a.i); }
      KeepsOthers(s.t.slots, s.binds[a.i].socket, slot);
    }
  }

  lemma LeavingIsNotInPlace(s: State, k: nat)
    requires Enabled(s, ReleaseSlot(k))
    ensures s.binds[k].id in s.t.sessions ==> !InPlace(s, k)
  {}

  lemma OpenIdStep(s: State, a: Action, i: nat)
    requires Invariant(s) && AllInOrder(s) && Enabled(s, a) && InTurn(s, a) && NoRefusal(s) && !a.OpenRefused?
    requires i < |Next(s, a).binds| && Next(s, a).binds[i].id in Next(s, a).t.sessions && InPlace(Next(s, a), i)
    requires Next(s, a).binds[i].pc != Holding
    ensures IdOf(Next(s, a), i) == Next(s, a).binds[i].socket
    ensures forall k :: 0 <= k < |Next(s, a).binds| ==> !WillClose(Next(s, a), k, Next(s, a).binds[i].id)
  {
    hide Contains, SlotOf, SlotKept, CleanupKept, EventKept, ConflictKept, InPlace, Next, Unused, WillClose;
    InPlaceStep(s, a, i);
    CallsStay(s, a);
    assert InOrder(s, i);
    IdMoves(s, a, s.binds[i].id);
    if a.OpenSession? && s.binds[a.i].id == s.binds[i].id {
      HoldingIsInPlace(s, a.i, i);
      OnlyOneInPlace(s, i, a.i);
    }
    if a.CloseSession? && s.binds[a.i].id == s.binds[i].id {
      assert WillClose(s, a.i, s.binds[i].id) by { ClosingWillClose(s, a.i); }
    }
    forall k: nat | k < |Next(s, a).binds|
      ensures !WillClose(Next(s, a), k, s.binds[i].id)
    {
      if WillClose(Next(s, a), k, s.binds[i].id) {
        WillCloseStep(s, a, k, s.binds[i].id);
        if a == LookUp(k) {
          FoundIsInPlace(s, k);
          OnlyOneInPlace(s, i, k);
          assert false by { LookedUpIsNotInPlace(s, k); }
        }
      }
    }
  }

  lemma HoldingIsInPlace(s: State, k: nat, i: nat)
    requires Invariant(s) && Enabled(s, OpenSession(k)) && i < |s.binds| && s.binds[i].id == s.binds[k].id
    requires s.binds[i].id in s.t.sessions && InPlace(s, i)
    ensures InPlace(s, k)
  {
    hide Contains, SlotOf, SlotKept, EntryKept, CleanupKept, EventKept, ConflictKept;
  }

  lemma ClosingWillClose(s: State, k: nat)
    requires Enabled(s, CloseSession(k))
    ensures WillClose(s, k, s.binds[k].id)
  {}

  lemma LookedUpIsNotInPlace(s: State, k: nat)
    requires Enabled(s, LookUp(k)) && Finds(s.t, s.binds[k].socket)
    ensures Next(s, LookUp(k)).binds[k].id in s.t.sessions ==> !InPlace(Next(s, LookUp(k)), k)
  {}

  /** Who writes the id of a session. */
  lemma IdMoves(s: State, a: Action, id: SessionId)
    requires Invariant(s) && Enabled(s, a) && id in s.t.sessions && s.t.cleanups == [] && !a.OpenRefused?
    ensures id in Next(s, a).t.sessions
    ensures Next(s, a).t.sessions[id].sessionId ==
              if a.OpenSession? && s.binds[a.i].id == id then s.binds[a.i].socket
              else if a.CloseSession? && s.binds[a.i].id == id then -1
              else s.t.sessions[id].sessionId
  {
    hide Contains, Unused, Release, Checked, HoldsAny, SlotKept, CleanupKept, EventKept, ConflictKept, Finds;
    if a.CloseSession? {
      assert EntryKept(s, a.i);
    }
  }

  lemma BusyStep(s: State, a: Action, i: nat)
    requires Invariant(s) && AllInOrder(s) && Enabled(s, a) && !a.ReportRefused?
    requires i < |Next(s, a).binds| && Next(s, a).binds[i].pc == Returned(DCAMERA_DEVICE_BUSY)
    ensures Next(s, a).binds[i].socket !in Next(s, a).t.socketMap
  {
    hide Contains, SlotOf, SlotKept, CleanupKept, EventKept, ConflictKept, Finds, Release, HoldsAny, InPlace, WillClose;
    if i < |s.binds| {
      assert InOrder(s, i);
    }
  }

  lemma OrderStep(s: State, a: Action, i: nat)
    requires Invariant(s) && AllInOrder(s) && Enabled(s, a) && InTurn(s, a)
    requires NoRefusal(s) && !a.MarkConflict? && !a.OpenRefused? && !a.ReportRefused?
    requires i < |Next(s, a).binds|
    ensures Next(s, a).binds[i].id in Next(s, a).t.sessions && InOrder(Next(s, a), i)
  {
    hide Contains, SlotOf, Invariant, AllInOrder, InTurn, NoRefusal, Next, Enabled, InPlace, WillClose;
    InPlaceStep(s, a, i);
    if InPlace(Next(s, a), i) {
      HolderStep(s, a, i);
      if Next(s, a).binds[i].pc != Holding {
        OpenIdStep(s, a, i);
      }
    }
    if Next(s, a).binds[i].pc == Returned(DCAMERA_DEVICE_BUSY) {
      BusyStep(s, a, i);
    }
  }

  lemma {:induction false} OrderlyRun(s: State, run: seq<Action>)
    requires Invariant(s) && AllInOrder(s) && Schedule(s, run) && Orderly(s, run) && NoRefusal(Play(s, run))
    ensures AllInOrder(Play(s, run)) && NoRefusal(s)
    decreases |run|
  {
    hide Next, Enabled, Invariant, InOrder, NoRefusal, InTurn;
    if run != [] {
      EarlierRefusals(Next(s, run[0]), run[1..]);
      RefusalsStay(s, run[0]);
      StepKeeps(s, run[0]);
      forall i | 0 <= i < |Next(s, run[0]).binds|
        ensures Next(s, run[0]).binds[i].id in Next(s, run[0]).t.sessions ==> InOrder(Next(s, run[0]), i)
      {
        OrderStep(s, run[0], i);
      }
      OrderlyRun(Next(s, run[0]), run[1..]);
    }
  }

  lemma {:induction false} EarlierRefusals(s: State, run: seq<Action>)
    requires Schedule(s, run) && NoRefusal(Play(s, run))
    ensures NoRefusal(s)
    decreases |run|
  {
    hide Next, Enabled, NoRefusal;
    if run != [] {
      EarlierRefusals(Next(s, run[0]), run[1..]);
      RefusalsStay(s, run[0]);
    }
  }

  /** As long as no control bind is refused, no slot is taken over and no bind opens a session between the lookup
      and the close of another socket's shutdown on it, every bind that was let through for a slot and is not
      shut down yet holds it, and its shutdown finds its session and frees it. */
  lemma OrderlyAllFreed(s0: State, run: seq<Action>, i: nat)
    requires Fresh(s0) && Schedule(s0, run) && Orderly(s0, run) && NoRefusal(Play(s0, run))
    requires Enabled(Play(s0, run), LookUp(i)) && Play(s0, run).binds[i].pc == Returned(DCAMERA_OK)
    requires Play(s0, run).binds[i].id in Play(s0, run).t.sessions
    requires SlotOf(Name(Play(s0, run), i)) != NoSlot
    ensures var s := Play(s0, run);
            var slot := SlotOf(Name(s, i));
            && Holder(s.t.slots, slot) == s.binds[i].socket
            && Next(s, LookUp(i)).binds[i].leave == Found(s.binds[i].id)
            && Holder(Shutdown(s.t, s.binds[i].socket).slots, slot) == FREE
  {
    hide Next, Contains, SlotOf, Shutdown;
    FreshHolds(s0);
    Reached(s0, run);
    OrderlyRun(s0, run);
    var s := Play(s0, run);
    assert InOrder(s, i);
    NotFree(s, i);
    LiveHolderFreedIff(s0, run, i, SlotOf(Name(s, i)));
  }

  // ---- Otherwise a slot can be lost ----

  predicate NonePassed(s: State, slot: Slot) {
    forall i :: 0 <= i < |s.binds| && s.binds[i].id in s.t.sessions && s.binds[i].pc == Passed ==>
                  SlotOf(Name(s, i)) != slot
  }

  /** Held by bind i, whose socket is shut down to the end, and nobody past the check. */
  predicate Stale(s: State, slot: Slot, i: nat) {
    && slot != NoSlot && i < |s.binds| && s.binds[i].leave == Gone
    && Holder(s.t.slots, slot) == s.binds[i].socket != FREE && NonePassed(s, slot)
  }

  lemma StaleStep(s: State, a: Action, slot: Slot, i: nat)
    requires Invariant(s) && Enabled(s, a) && Stale(s, slot, i)
    ensures Stale(Next(s, a), slot, i)
  {
    hide Contains, SlotOf, EntryKept, CleanupKept, EventKept, ConflictKept, SlotKept, Finds;
    SlotChanges(s, a, slot);
    NamesStay(s, a);
    StaleBinds(s, a, slot, i);
    GoneStays(s, a, i);
  }

  lemma GoneStays(s: State, a: Action, i: nat)
    requires Enabled(s, a) && i < |s.binds| && s.binds[i].leave == Gone
    ensures i < |Next(s, a).binds| && Next(s, a).binds[i].leave == Gone
    ensures a.ReleaseSlot? ==> a.i != i
  {
    hide Next, Unused, Finds;
    LeaveMoves(s, a, i);
  }

  lemma StaleBinds(s: State, a: Action, slot: Slot, i: nat)
    requires Enabled(s, a) && Stale(s, slot, i)
    ensures NonePassed(Next(s, a), slot)
  {
    hide Contains, SlotOf, Unused, Next, Finds, Checked;
    NamesStay(s, a);
    NewCalls(s, a);
    forall j: nat | j < |Next(s, a).binds| && Next(s, a).binds[j].pc == Passed
      ensures Next(s, a).binds[j].id in Next(s, a).t.sessions ==> SlotOf(Name(Next(s, a), j)) != slot
    {
      if j < |s.binds| {
        PcMoves(s, a, j);
        if a == Check(j) && SlotOf(Name(s, j)) == slot {
          BusyNotPassed(s.t.slots, Name(s, j));
        }
      }
    }
  }

  lemma BusyNotPassed(slots: Slots, name: string)
    requires Holder(slots, SlotOf(name)) != FREE
    ensures Checked(slots, name) != Passed
  {
    hide Contains;
    HeldMeansBusy(slots, name);
  }

  /** A slot whose holder has been shut down without freeing it stays taken in every run from there, and
      whoever competes for it is refused. */
  lemma {:induction false} StaleSlotStays(s: State, run: seq<Action>, slot: Slot, i: nat, id: SessionId)
    requires Invariant(s) && Schedule(s, run) && Stale(s, slot, i)
    requires id in Play(s, run).t.sessions && SlotOf(Play(s, run).t.sessions[id].peerName) == slot
    ensures Holder(Play(s, run).t.slots, slot) == s.binds[i].socket
    ensures BindResult(Play(s, run).t, id) == DCAMERA_DEVICE_BUSY
    decreases |run|
  {
    hide Contains, SlotOf, Next, Enabled, Invariant, NonePassed;
    if run == [] {
      HeldMeansBusy(s.t.slots, s.t.sessions[id].peerName);
    } else {
      StepKeeps(s, run[0]);
      StaleStep(s, run[0], slot, i);
      CallsStay(s, run[0]);
      StaleSlotStays(Next(s, run[0]), run[1..], slot, i, id);
    }
  }

  /** Such a slot can come about: a second peer is refused on the same session and shuts down before its
      clean-up task has run, then the holder shuts down. */
  lemma StaleAfterRefusal(s0: State, id: SessionId, a: Socket, b: Socket) returns (run: seq<Action>)
    requires Fresh(s0) && id in s0.t.sessions && IsControl(s0.t.sessions[id].peerName)
    requires a >= 0 && b >= 0 && a != b
    ensures Schedule(s0, run)
    ensures var s := Play(s0, run); Stale(s, Control, 0) && s.t.slots.control == a
  {
    hide Contains, Schedule, Play, Next, Invariant, Bind;
    FreshHolds(s0);
    run := SecondRefused(s0, id, a, b);
    Reached(s0, run);
    var more := UninterruptedShutdown(Play(s0, run), 1);
    run := Join(s0, run, more);
    Reached(s0, run);
    more := UninterruptedShutdown(Play(s0, run), 0);
    run := Join(s0, run, more);
  }

  lemma SecondRefused(s0: State, id: SessionId, a: Socket, b: Socket) returns (run: seq<Action>)
    requires Fresh(s0) && id in s0.t.sessions && IsControl(s0.t.sessions[id].peerName)
    requires a >= 0 && b >= 0 && a != b
    ensures Schedule(s0, run)
    ensures var s := Play(s0, run);
            && s.binds == [BindCall(a, id, Returned(DCAMERA_OK), Present),
                           BindCall(b, id, Returned(DCAMERA_DEVICE_BUSY), Present)]
            && s.t.slots == Slots(a, FREE, FREE) && s.t.socketMap == map[a := id, b := id]
            && id in s.t.sessions && s.t.sessions[id].sessionId == b
  {
    hide Contains, Schedule, Play, Next;
    run := UninterruptedBind(s0, a, id);
    var more := UninterruptedBind(Play(s0, run), b, id);
    run := Join(s0, run, more);
  }

  /** And it can come about with no bind refused and no slot taken over: a second peer binds the session that
      the first one has released and not yet closed. Both were told they are connected. */
  lemma StaleAfterLateClose(s0: State, id: SessionId, a: Socket, b: Socket) returns (run: seq<Action>)
    requires Fresh(s0) && id in s0.t.sessions && IsControl(s0.t.sessions[id].peerName)
    requires a >= 0 && b >= 0 && a != b
    ensures Schedule(s0, run) && NoRefusal(Play(s0, run))
    ensures var s := Play(s0, run);
            && Stale(s, Control, 1) && s.t.slots.control == b
            && s.t.events == [Connected(a), Connected(b), Disconnected(a)]
  {
    hide Contains, Schedule, Play;
    run := ReopenedTooSoon(s0, id, a, b);
    var more := RestOfShutdown(Play(s0, run), 0, id);
    run := Join(s0, run, more);
    run := Extend(s0, run, LookUp(1));
  }

  lemma ReopenedTooSoon(s0: State, id: SessionId, a: Socket, b: Socket) returns (run: seq<Action>)
    requires Fresh(s0) && id in s0.t.sessions && IsControl(s0.t.sessions[id].peerName)
    requires a >= 0 && b >= 0 && a != b
    ensures Schedule(s0, run)
    ensures var s := Play(s0, run);
            && s.binds == [BindCall(a, id, Returned(DCAMERA_OK), Released(id)),
                           BindCall(b, id, Returned(DCAMERA_OK), Present)]
            && id in s.t.sessions && s.t.sessions[id].sessionId == b && !s.t.sessions[id].conflict
            && s.t.slots == Slots(b, FREE, FREE) && s.t.socketMap == map[a := id, b := id]
            && s.t.cleanups == [] && s.t.events == [Connected(a), Connected(b)]
  {
    hide Contains, Schedule, Play;
    run := UninterruptedBind(s0, a, id);
    run := Extend(s0, run, LookUp(0));
    run := Extend(s0, run, ReleaseSlot(0));
    var more := UninterruptedBind(Play(s0, run), b, id);
    run := Join(s0, run, more);
  }
}
