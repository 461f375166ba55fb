/** The sink side of the adapter: its session map and trust slots, changed by the callbacks. */
module TrustSlotsAdapter {
  import opened Buffers
  import opened TrustSlots

  class SinkAdapter {
    var sessions: map<SessionId, Session>
    var sinkSocketSessionMap: map<Socket, SessionId>
    var controlSessionId: Socket
    var dataContinueSessionId: Socket
    var dataSnapshotSessionId: Socket
    var submitted: seq<Cleanup>
    var events: seq<Event>

    ghost function View(): Tables
      reads this
    {
      Tables(sessions, sinkSocketSessionMap, Slots(controlSessionId, dataContinueSessionId, dataSnapshotSessionId),
             submitted, events)
    }

    constructor (sessions: map<SessionId, Session>)
      requires forall id :: id in sessions ==> !sessions[id].conflict && sessions[id].sessionId == -1
      ensures View().sessions == sessions && FreshTables(View())
    {
      this.sessions := sessions;
      sinkSocketSessionMap := map[];
      controlSessionId, dataContinueSessionId, dataSnapshotSessionId := -1, -1, -1;
      submitted, events := [], [];
    }

    method OnSessionOpened(socket: Socket, id: SessionId)
      requires id in sessions
      modifies this
      ensures View() == Open(old(View()), socket, id)
    {
      sessions := sessions[id := sessions[id].(sessionId := socket)];
      if sessions[id].conflict {
        return;
      }
      events := events + [Connected(socket)];
    }

    method HandleConflictSession(socket: Socket, id: SessionId) returns (ret: int)
      requires id in sessions
      modifies this
      ensures var s, name := old(View()), old(sessions)[id].peerName;
              && ret == (if Busy(s.slots, name) then DCAMERA_DEVICE_BUSY else DCAMERA_OK)
              && View() == if ControlBusy(s.slots, name) then Submit(Open(Mark(s, id), socket, id), socket, id)
                           else if DataBusy(s.slots, name) then Drop(s, socket) else Take(s, socket, id)
    {
      hide Contains;
      var name := sessions[id].peerName;
      if IsControl(name) && controlSessionId != -1 {
        sessions := sessions[id := sessions[id].(conflict := true)];
        OnSessionOpened(socket, id);
        submitted := submitted + [Cleanup(socket, id, Submitted)];
        return DCAMERA_DEVICE_BUSY;
      }
      if (IsContinue(name) && dataContinueSessionId != -1) || (IsSnapshot(name) && dataSnapshotSessionId != -1) {
        sinkSocketSessionMap := sinkSocketSessionMap - {socket};
        return DCAMERA_DEVICE_BUSY;
      }
      if IsControl(name) {
        controlSessionId := socket;
        sessions := sessions[id := sessions[id].(conflict := false)];
      } else if IsContinue(name) {
        dataContinueSessionId := socket;
      } else if IsSnapshot(name) {
        dataSnapshotSessionId := socket;
      }
      ret := DCAMERA_OK;
    }

    /** SinkOnBind for a peer whose session has been looked up. */
    method SinkOnBind(socket: Socket, id: SessionId) returns (ret: int)
      requires id in sessions
      modifies this
      ensures View() == Bind(old(View()), socket, id) && ret == BindResult(old(View()), id)
    {
      hide Contains;
      sinkSocketSessionMap := sinkSocketSessionMap[socket := id];
      ret := HandleConflictSession(socket, id);
      if ret != DCAMERA_OK {
        return;
      }
      OnSessionOpened(socket, id);
    }

    method SinkOnShutDown(socket: Socket)
      modifies this
      ensures View() == Shutdown(old(View()), socket)
    {
      if socket !in sinkSocketSessionMap || sinkSocketSessionMap[socket] !in sessions {
        return;
      }
      var id := sinkSocketSessionMap[socket];
      var session := sessions[id];
      if session.sessionId < 0 {
        return;
      }
      if controlSessionId == socket {
        controlSessionId := -1;
        session := session.(conflict := false);
      } else if dataContinueSessionId == socket {
        dataContinueSessionId := -1;
        session := session.(conflict := false);
      } else if dataSnapshotSessionId == socket {
        dataSnapshotSessionId := -1;
        session := session.(conflict := false);
      }
      session := session.(sessionId := -1);
      sessions := sessions[id := session];
      if !session.conflict {
        events := events + [Disconnected(socket)];
      }
      sinkSocketSessionMap := sinkSocketSessionMap - {socket};
    }

    /** The two critical sections of a clean-up task: the refused socket loses its entry, and its session gets
        the id of the control slot's holder. */
    method RunCleanup(i: nat)
      requires i < |submitted| && submitted[i].pc == Submitted && submitted[i].session in sessions
      modifies this
      ensures View() == ResetId(EraseSocket(old(View()), i), i)
      ensures var id := old(submitted[i]).session;
              && sessions == old(sessions)[id := old(sessions)[id].(sessionId := controlSessionId)]
              && sinkSocketSessionMap == old(sinkSocketSessionMap) - {old(submitted[i]).socket}
    {
      sinkSocketSessionMap := sinkSocketSessionMap - {submitted[i].socket};
      var id := submitted[i].session;
      sessions := sessions[id := sessions[id].(sessionId := controlSessionId)];
      submitted := submitted[i := submitted[i].(pc := Finished)];
    }
  }
}
