/** What a bind, a shutdown and a clean-up leave behind, field by field, and whose id a session ends up with. */
module TrustEffects {
  import opened Buffers
  import opened TrustSlots
  import opened TrustArbitration
  import opened TrustLeaks

  // ---- Names ----

  predicate PartAt(s: string, part: string, i: nat) { i + |part| <= |s| && s[i..i + |part|] == part }

  /** std::string::find, other than npos: the part stands somewhere. */
  lemma {:induction false} ContainsIff(s: string, part: string)
    ensures Contains(s, part) <==> exists i: nat :: PartAt(s, part, i)
  {
    if |part| <= |s| {
      assert PartAt(s, part, 0) <==> s[..|part|] == part;
      if |s| > 0 {
        ContainsIff(s[1..], part);
        forall i: nat
          ensures PartAt(s[1..], part, i) <==> PartAt(s, part, i + 1)
        {
          assert i + 1 + |part| <= |s| ==> s[1..][i..i + |part|] == s[i + 1..i + 1 + |part|];
        }
        forall i: nat | PartAt(s, part, i) && i > 0
          ensures PartAt(s[1..], part, i - 1)
        {
          assert PartAt(s[1..], part, i - 1) <==> PartAt(s, part, i - 1 + 1);
        }
      }
    }
  }

  lemma ContainsPart(before: string, part: string, after: string)
    ensures Contains(before + part + after, part)
  {
    ContainsIff(before + part + after, part);
    assert PartAt(before + part + after, part, |before|);
  }

  /** A name with the control tag competes for the control slot, whatever else it says; without it the two data
      tags decide, in this order; a name with none of the three for none. */
  lemma SlotByTag(before: string, after: string)
    ensures SlotOf(before + "_control" + after) == Control
    ensures !IsControl(before + "_dataContinue" + after) ==> SlotOf(before + "_dataContinue" + after) == DataContinue
    ensures !IsControl(before + "_dataSnapshot" + after) && !IsContinue(before + "_dataSnapshot" + after) ==>
              SlotOf(before + "_dataSnapshot" + after) == DataSnapshot
    ensures SlotOf(before) == NoSlot <==>
              forall i: nat :: !PartAt(before, "_control", i) && !PartAt(before, "_dataContinue", i)
                               && !PartAt(before, "_dataSnapshot", i)
  {
    hide PartAt, Contains;
    ContainsPart(before, "_control", after);
    ContainsPart(before, "_dataContinue", after);
    ContainsPart(before, "_dataSnapshot", after);
    ContainsIff(before, "_control");
    ContainsIff(before, "_dataContinue");
    ContainsIff(before, "_dataSnapshot");
  }

  // ---- Binds and shutdowns left alone ----

  /** What each outcome of a bind nobody interrupts leaves in the tables, in every reachable state. */
  lemma BindLeaves(s0: State, run: seq<Action>, socket: Socket, id: SessionId)
    requires Fresh(s0) && Schedule(s0, run) && Enabled(Play(s0, run), BindSocket(socket, id))
    ensures var s := Play(s0, run).t;
            var t, name := Bind(s, socket, id), s.sessions[id].peerName;
            if IsControl(name) && s.slots.control != -1 then
              && BindResult(s, id) == DCAMERA_DEVICE_BUSY
              && t == Tables(s.sessions[id := Session(name, socket, true)], s.socketMap[socket := id], s.slots,
                             s.cleanups + [Cleanup(socket, id, Submitted)], s.events)
            else if (IsContinue(name) && s.slots.dataContinue != -1)
                    || (IsSnapshot(name) && s.slots.dataSnapshot != -1) then
              && BindResult(s, id) == DCAMERA_DEVICE_BUSY
              && t.socketMap == s.socketMap - {socket} && t == s.(socketMap := t.socketMap)
            else
              && BindResult(s, id) == DCAMERA_OK
              && t.sessions == s.sessions[id := Session(name, socket, false)]
              && t.socketMap == s.socketMap[socket := id]
              && t.slots == (if IsControl(name) then s.slots.(control := socket)
                             else if IsContinue(name) then s.slots.(dataContinue := socket)
                             else if IsSnapshot(name) then s.slots.(dataSnapshot := socket)
                             else s.slots)
              && t.cleanups == s.cleanups && t.events == s.events + [Connected(socket)]
  {
    hide Contains, EntryKept, CleanupKept, EventKept, SlotKept, Next, BindsKept;
    FreshHolds(s0);
    Reached(s0, run);
  }

  /** What a shutdown nobody interrupts leaves in the tables, in every reachable state: nothing is changed unless
      the session has an id; then the id is gone, the socket's slot free and its entry erased, and it is reported
      unless the session is marked and the socket held no slot. */
  lemma ShutdownLeaves(s0: State, run: seq<Action>, i: nat)
    requires Fresh(s0) && Schedule(s0, run) && Enabled(Play(s0, run), LookUp(i))
    ensures var s, b := Play(s0, run), Play(s0, run).binds[i];
            var t, holds := Shutdown(s.t, b.socket), exists slot :: Holder(s.t.slots, slot) == b.socket;
            && b.id in s.t.sessions
            && var x := s.t.sessions[b.id];
            if b.socket !in s.t.socketMap || x.sessionId < 0 then t == s.t else
            && t.sessions == s.t.sessions[b.id := Session(x.peerName, -1, x.conflict && !holds)]
            && t.socketMap == s.t.socketMap - {b.socket} && t.cleanups == s.t.cleanups
            && t.events == s.t.events + (if x.conflict && !holds then [] else [Disconnected(b.socket)])
            && forall slot :: Holder(t.slots, slot) ==
                                if Holder(s.t.slots, slot) == b.socket then -1 else Holder(s.t.slots, slot)
  {
    hide Contains, CleanupKept, EventKept, ConflictKept, SlotKept, Next, Release;
    FreshHolds(s0);
    Reached(s0, run);
    var s := Play(s0, run);
    assert EntryKept(s, i);
    NotFree(s, i);
    HoldsSome(s.t.slots, s.binds[i].socket);
    forall slot
      ensures Holder(Release(s.t.slots, s.binds[i].socket), slot) ==
                if Holder(s.t.slots, slot) == s.binds[i].socket then FREE else Holder(s.t.slots, slot)
    {
      if Holder(s.t.slots, slot) == s.binds[i].socket {
        ReleasesAll(s, slot, i);
      } else {
        KeepsOthers(s.t.slots, s.binds[i].socket, slot);
      }
    }
  }

  lemma HoldsSome(slots: Slots, socket: Socket)
    requires socket != FREE
    ensures HoldsAny(slots, socket) <==> exists slot :: Holder(slots, slot) == socket
  {
    assert Holder(slots, Control) == slots.control && Holder(slots, DataContinue) == slots.dataContinue;
    assert Holder(slots, DataSnapshot) == slots.dataSnapshot;
  }

  // ---- Whose id a clean-up leaves ----

  /** In every reachable state a clean-up gives its session the id of the control slot's holder, a bind that was
      let through for it, or none while the slot is free; never the socket of a refused bind. */
  lemma CleanupGivesHolder(s0: State, run: seq<Action>, c: nat)
    requires Fresh(s0) && Schedule(s0, run) && Enabled(Play(s0, run), Reset(c))
    ensures var s, n, id := Play(s0, run), Next(Play(s0, run), Reset(c)), Play(s0, run).t.cleanups[c].session;
            && id in n.t.sessions
            && var k := n.t.sessions[id].sessionId;
            && k == s.t.slots.control
            && (k != -1 ==> exists i: nat :: HeldBy(n, i, Control, k))
            && forall j :: 0 <= j < |n.binds| && n.binds[j].pc == Returned(DCAMERA_DEVICE_BUSY) ==>
                             n.binds[j].socket != k
  {
    hide Contains, EntryKept, EventKept, ConflictKept, CleanupKept, Unused;
    FreshHolds(s0);
    Reached(s0, run);
    var s := Play(s0, run);
    StepKeeps(s, Reset(c));
    var n := Next(s, Reset(c));
    assert SlotKept(n, Control);
    if n.t.slots.control != FREE {
      var i: nat :| HeldBy(n, i, Control, n.t.slots.control);
    }
  }

  /** Two binds on one control session, one after the other, and the clean-up of the second: the session has the
      first one's id again, the first keeps its map entry, the second has none, and the first one's shutdown
      finds the session and frees the slot. */
  lemma CleanupRestoresHolder(t0: Tables, id: SessionId, a: Socket, b: Socket)
    requires FreshTables(t0) && id in t0.sessions && IsControl(t0.sessions[id].peerName)
    requires a >= 0 && b >= 0 && a != b
    ensures var refused := Bind(Bind(t0, a, id), b, id);
            && refused.sessions[id].sessionId == b && refused.cleanups == [Cleanup(b, id, Submitted)]
            && var t := ResetId(EraseSocket(refused, 0), 0);
            && t.sessions[id].sessionId == a && t.slots.control == a
            && a in t.socketMap && t.socketMap[a] == id && b !in t.socketMap
            && t.events == [Connected(a)]
            && Shutdown(t, a).slots.control == -1 && Shutdown(t, a).events == [Connected(a), Disconnected(a)]
  {
    hide Contains;
  }
}
