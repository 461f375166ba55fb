/** The adapter's authorization tables as the source keeps them: each method is one critical section or a
    sequence of them, and does to the tables what the corresponding steps of the state machine do. */
module AuthorizationTables {
  import opened Bytes
  import opened Authorization

  /** The part of the machine's state that is not in the agents. */
  datatype Shared = Shared(
    pending: map<Id, NetworkId>, flags: map<Id, bool>, threads: set<Id>, decisions: map<NetworkId, bool>)

  function SharedOf(s: State): Shared { Shared(s.pending, s.flags, s.threads, s.decisions) }

  predicate AtEnd(s: State, c: nat) { c < |s.calls| && s.calls[c].pc == Returned }

  predicate TimerGone(s: State, id: Id) { id < |s.requests| && s.requests[id].timer == Gone }

  class Tables {
    var pendingAuthRequests: map<Id, NetworkId>
    var authTimerCancelFlags: map<Id, bool>
    var authTimerThreads: set<Id>
    var authorizationResults: map<NetworkId, bool>

    ghost function View(): Shared
      reads this
    {
      Shared(pendingAuthRequests, authTimerCancelFlags, authTimerThreads, authorizationResults)
    }

    constructor ()
      ensures View() == SharedOf(INIT)
    {
      pendingAuthRequests, authTimerCancelFlags := map[], map[];
      authTimerThreads, authorizationResults := {}, map[];
    }

    method CancelAuthorizationTimer(id: Id)
      modifies this
      ensures View() == old(View()).(flags := SetCancelled(old(authTimerCancelFlags), id))
      ensures var flags := old(authTimerCancelFlags);
              authTimerCancelFlags == if id in flags then flags[id := true] else flags
    {
      if id in authTimerCancelFlags {
        authTimerCancelFlags := authTimerCancelFlags[id := true];
      }
    }

    /** The locked part of StartAuthorizationTimer. */
    method ArmTimer(id: Id)
      modifies this
      ensures View() == old(View()).(flags := old(authTimerCancelFlags)[id := false],
                                     threads := old(authTimerThreads) + {id})
    {
      authTimerCancelFlags := authTimerCancelFlags[id := false];
      authTimerThreads := authTimerThreads + {id};
    }

    method TakePending(id: Id) returns (net: NetworkId)
      modifies this
      ensures net == Taken(old(pendingAuthRequests), id)
      ensures net == if id in old(pendingAuthRequests) then old(pendingAuthRequests)[id] else ""
      ensures View() == old(View()).(pending := old(pendingAuthRequests) - {id})
    {
      net := "";
      if id in pendingAuthRequests {
        net := pendingAuthRequests[id];
      }
      pendingAuthRequests := pendingAuthRequests - {id};
    }

    method SetAuthorizationGranted(net: NetworkId, granted: bool)
      modifies this
      ensures View() == old(View()).(decisions := old(authorizationResults)[net := granted])
    {
      authorizationResults := authorizationResults[net := granted];
    }

    /** A result call that nobody interrupts is the machine's cancel, take and decide steps in a row. */
    method ProcessAuthorizationResult(id: Id, granted: bool, ghost s: State, ghost c: nat)
      returns (ghost run: seq<Action>)
      requires View() == SharedOf(s) && c < |s.calls| && s.calls[c] == Call(id, granted, Cancelling)
      modifies this
      ensures Schedule(s, run) && View() == SharedOf(Play(s, run)) && AtEnd(Play(s, run), c)
      ensures id in s.pending && s.pending[id] != "" ==> authorizationResults == s.decisions[s.pending[id] := granted]
      ensures id !in s.pending || s.pending[id] == "" ==> authorizationResults == s.decisions
    {
      hide Play, Schedule;
      CancelAuthorizationTimer(id);
      var net := TakePending(id);
      if net == "" {
        run := [CallCancel(c), CallTake(c)];
        PlayTwo(s, CallCancel(c), CallTake(c));
        return;
      }
      SetAuthorizationGranted(net, granted);
      run := [CallCancel(c), CallTake(c), CallDecide(c)];
      PlayThree(s, CallCancel(c), CallTake(c), CallDecide(c));
    }

    /** The timer thread after its sleep, likewise: it denies exactly with its flag there and not cancelled and
        its request still pending, and leaves a request whose timer was cancelled to whoever cancelled it. */
    method TimerThread(id: Id, ghost s: State) returns (ghost run: seq<Action>)
      requires View() == SharedOf(s) && id < |s.requests| && s.requests[id].timer == Sleeping
      modifies this
      ensures Schedule(s, run) && View() == SharedOf(Play(s, run)) && TimerGone(Play(s, run), id)
      ensures var flags, pending := old(authTimerCancelFlags), old(pendingAuthRequests);
              var expired := id in flags && flags[id] == false;
              && pendingAuthRequests == (if expired then pending - {id} else pending)
              && authorizationResults == (if expired && id in pending && pending[id] != ""
                                          then old(authorizationResults)[pending[id] := false]
                                          else old(authorizationResults))
              && authTimerCancelFlags == flags - {id} && authTimerThreads == old(authTimerThreads) - {id}
    {
      var shouldTimeout := id in authTimerCancelFlags && !authTimerCancelFlags[id];
      authTimerCancelFlags := authTimerCancelFlags - {id};
      if !shouldTimeout {
        run := [TimerCheck(id), TimerLeave(id)];
        PlayTwo(s, TimerCheck(id), TimerLeave(id));
      } else {
        var net := TakePending(id);
        if net == "" {
          run := [TimerCheck(id), TimerTake(id), TimerLeave(id)];
          PlayThree(s, TimerCheck(id), TimerTake(id), TimerLeave(id));
        } else {
          SetAuthorizationGranted(net, false);
          ghost var t := Next(s, TimerCheck(id));
          run := [TimerCheck(id)] + [TimerTake(id), TimerDecide(id), TimerLeave(id)];
          PlayThree(t, TimerTake(id), TimerDecide(id), TimerLeave(id));
          assert run[1..] == [TimerTake(id), TimerDecide(id), TimerLeave(id)];
        }
      }
      authTimerThreads := authTimerThreads - {id};
    }

    /** Both ways in which a request comes about, up to its listener being asked. */
    method RequestAndWaitForAuthorization(
        id: Id, net: NetworkId, hasListener: bool, pkgName: string, ghost s: State) returns (ghost run: seq<Action>)
      requires View() == SharedOf(s) && id == |s.requests|
      modifies this
      ensures Schedule(s, run) && View() == SharedOf(Play(s, run))
      ensures !hasListener || pkgName == "" ==>
                run == [GrantByDefault(net)] && authorizationResults == s.decisions[net := true]
      ensures hasListener && pkgName != "" ==>
                && authorizationResults == s.decisions
                && pendingAuthRequests == s.pending[id := net]
                && authTimerCancelFlags == s.flags[id := false]
    {
      if !hasListener || pkgName == "" {
        SetAuthorizationGranted(net, true);
        run := [GrantByDefault(net)];
        PlayOne(s, run[0]);
        return;
      }
      AddAndArm(id, net);
      run := [Action.Register(net)] + [CancelStale(id), Arm(id)];
      ghost var t := Next(s, Action.Register(net));
      PlayTwo(t, CancelStale(id), Arm(id));
      assert run[1..] == [CancelStale(id), Arm(id)];
    }

    /** The two critical sections of a new request and the stale cancel between them. */
    method AddAndArm(id: Id, net: NetworkId)
      modifies this
      ensures pendingAuthRequests == old(pendingAuthRequests)[id := net]
      ensures authTimerCancelFlags == SetCancelled(old(authTimerCancelFlags), id)[id := false]
      ensures authTimerThreads == old(authTimerThreads) + {id} && authorizationResults == old(authorizationResults)
    {
      pendingAuthRequests := pendingAuthRequests[id := net];
      CancelAuthorizationTimer(id);
      ArmTimer(id);
    }
  }

  lemma PlayOne(s: State, a: Action)
    requires Enabled(s, a)
    ensures Schedule(s, [a]) && Play(s, [a]) == Next(s, a)
  {
    hide Next, Enabled;
    assert [a][1..] == [];
    assert Play(Next(s, a), []) == Next(s, a);
  }

  lemma PlayTwo(s: State, a: Action, b: Action)
    requires Enabled(s, a) && Enabled(Next(s, a), b)
    ensures Schedule(s, [a, b]) && Play(s, [a, b]) == Next(Next(s, a), b)
  {
    hide Next, Enabled;
    assert [a, b][1..] == [b];
    PlayOne(Next(s, a), b);
  }

  lemma PlayThree(s: State, a: Action, b: Action, c: Action)
    requires Enabled(s, a) && Enabled(Next(s, a), b) && Enabled(Next(Next(s, a), b), c)
    ensures Schedule(s, [a, b, c]) && Play(s, [a, b, c]) == Next(Next(Next(s, a), b), c)
  {
    hide Next, Enabled;
    assert [a, b, c][1..] == [b, c];
    PlayTwo(Next(s, a), b, c);
  }
}
