/** Conflict arbitration at the sink: three trust slots, the sessions binds resolve to, and the clean-up
    tasks a refused control bind leaves behind. Binds, shutdowns and clean-ups may overlap: each is a row of
    sections, a critical section or one access to the session, and only the sections are indivisible. */
module TrustSlots {
  import opened Buffers

  type Socket = int
  type SessionId = nat

  const FREE := -1

  /** Session objects are shared: several sockets may resolve to one. */
  datatype Session = Session(peerName: string, sessionId: int, conflict: bool)

  datatype Slots = Slots(control: Socket, dataContinue: Socket, dataSnapshot: Socket)

  datatype Slot = Control | DataContinue | DataSnapshot | NoSlot

  datatype Event = Connected(socket: Socket) | Disconnected(socket: Socket)

  datatype CleanupPc = Submitted | Erased | Finished

  datatype Cleanup = Cleanup(socket: Socket, session: SessionId, pc: CleanupPc)

  /** What the adapter and its sessions hold. */
  datatype Tables = Tables(
    sessions: map<SessionId, Session>, socketMap: map<Socket, SessionId>, slots: Slots, cleanups: seq<Cleanup>,
    events: seq<Event>)

  predicate Contains(s: string, part: string) {
    |part| <= |s| && (s[..|part|] == part || Contains(s[1..], part))
  }

  predicate IsControl(name: string) { Contains(name, "_control") }

  predicate IsContinue(name: string) { Contains(name, "_dataContinue") }

  predicate IsSnapshot(name: string) { Contains(name, "_dataSnapshot") }

  /** The slot a session competes for: the first of the three tags its name has. */
  function SlotOf(name: string): Slot {
    if IsControl(name) then Control else if IsContinue(name) then DataContinue
    else if IsSnapshot(name) then DataSnapshot else NoSlot
  }

  function Holder(slots: Slots, slot: Slot): Socket {
    match slot
    case Control => slots.control
    case DataContinue => slots.dataContinue
    case DataSnapshot => slots.dataSnapshot
    case NoSlot => FREE
  }

  function Fill(slots: Slots, slot: Slot, socket: Socket): Slots {
    match slot
    case Control => slots.(control := socket)
    case DataContinue => slots.(dataContinue := socket)
    case DataSnapshot => slots.(dataSnapshot := socket)
    case NoSlot => slots
  }

  /** Control conflicts are told to the peer and cleaned up later; data conflicts are just dropped. A name
      with several tags is refused for any of its data slots. */
  predicate ControlBusy(slots: Slots, name: string) { IsControl(name) && slots.control != FREE }

  predicate DataBusy(slots: Slots, name: string) {
    || (IsContinue(name) && slots.dataContinue != FREE)
    || (IsSnapshot(name) && slots.dataSnapshot != FREE)
  }

  predicate Busy(slots: Slots, name: string) { ControlBusy(slots, name) || DataBusy(slots, name) }

  // ---- The sections of SinkOnBind ----

  function SetSession(t: Tables, id: SessionId, session: Session): Tables {
    t.(sessions := t.sessions[id := session])
  }

  function Resolve(t: Tables, socket: Socket, id: SessionId): Tables { t.(socketMap := t.socketMap[socket := id]) }

  /** A control bind that found the slot taken marks its session first of all. */
  function Mark(t: Tables, id: SessionId): Tables
    requires id in t.sessions
  {
    SetSession(t, id, t.sessions[id].(conflict := true))
  }

  function SetId(t: Tables, id: SessionId, sessionId: int): Tables
    requires id in t.sessions
  {
    SetSession(t, id, t.sessions[id].(sessionId := sessionId))
  }

  /** A session marked as conflicting reports nothing. */
  function Report(t: Tables, id: SessionId, e: Event): Tables
    requires id in t.sessions
  {
    t.(events := t.events + if t.sessions[id].conflict then [] else [e])
  }

  /** OnSessionOpened, nobody in between. */
  function Open(t: Tables, socket: Socket, id: SessionId): Tables
    requires id in t.sessions
  {
    Report(SetId(t, id, socket), id, Connected(socket))
  }

  function Submit(t: Tables, socket: Socket, id: SessionId): Tables {
    t.(cleanups := t.cleanups + [Cleanup(socket, id, Submitted)])
  }

  function Drop(t: Tables, socket: Socket): Tables { t.(socketMap := t.socketMap - {socket}) }

  /** The locked part of HandleConflictSession: the slot is taken without looking at it again. */
  function Take(t: Tables, socket: Socket, id: SessionId): Tables
    requires id in t.sessions
  {
    var x := t.sessions[id];
    var u := t.(slots := Fill(t.slots, SlotOf(x.peerName), socket));
    if IsControl(x.peerName) then SetSession(u, id, x.(conflict := false)) else u
  }

  /** A bind nobody interrupts. */
  function Bind(t: Tables, socket: Socket, id: SessionId): Tables
    requires id in t.sessions
  {
    var r, name := Resolve(t, socket, id), t.sessions[id].peerName;
    if ControlBusy(t.slots, name) then Submit(Open(Mark(r, id), socket, id), socket, id)
    else if DataBusy(t.slots, name) then Drop(r, socket)
    else Open(Take(r, socket, id), socket, id)
  }

  function BindResult(t: Tables, id: SessionId): int
    requires id in t.sessions
  {
    if Busy(t.slots, t.sessions[id].peerName) then DCAMERA_DEVICE_BUSY else DCAMERA_OK
  }

  /** A shutdown gets no further than the lookup when the socket has no session, or one without an id. */
  predicate Finds(t: Tables, socket: Socket) {
    && socket in t.socketMap && t.socketMap[socket] in t.sessions
    && t.sessions[t.socketMap[socket]].sessionId >= 0
  }

  function Release(slots: Slots, socket: Socket): Slots {
    if slots.control == socket then slots.(control := FREE)
    else if slots.dataContinue == socket then slots.(dataContinue := FREE)
    else if slots.dataSnapshot == socket then slots.(dataSnapshot := FREE)
    else slots
  }

  predicate HoldsAny(slots: Slots, socket: Socket) {
    slots.control == socket || slots.dataContinue == socket || slots.dataSnapshot == socket
  }

  /** The locked part of SinkOnShutDown: a holder's slot is freed and its session's mark taken off. */
  function Let(t: Tables, socket: Socket, id: SessionId): Tables
    requires id in t.sessions
  {
    var x := t.sessions[id];
    SetSession(t, id, x.(conflict := x.conflict && !HoldsAny(t.slots, socket))).(slots := Release(t.slots, socket))
  }

  /** A shutdown nobody interrupts. */
  function Shutdown(t: Tables, socket: Socket): Tables {
    if !Finds(t, socket) then t else
    var id := t.socketMap[socket];
    Drop(Report(SetId(Let(t, socket, id), id, -1), id, Disconnected(socket)), socket)
  }

  /** The two locked sections of a clean-up task. */
  function EraseSocket(t: Tables, i: nat): Tables
    requires i < |t.cleanups|
  {
    t.(socketMap := t.socketMap - {t.cleanups[i].socket}, cleanups := t.cleanups[i := t.cleanups[i].(pc := Erased)])
  }

  function ResetId(t: Tables, i: nat): Tables
    requires i < |t.cleanups| && t.cleanups[i].session in t.sessions
  {
    var id := t.cleanups[i].session;
    SetSession(t, id, t.sessions[id].(sessionId := t.slots.control))
      .(cleanups := t.cleanups[i := t.cleanups[i].(pc := Finished)])
  }

  // ---- Runs ----

  /** How far a bind has come. */
  datatype BindPc =
    | Resolved | Passed | Holding | Opened
    | Refused | Marked | MarkedOpen | Dropping
    | Returned(ret: int)

  /** How far the shutdown of its socket has come, with the session its lookup found. */
  datatype Leave = Present | Found(of: SessionId) | Released(of: SessionId) | Closed(of: SessionId) | Reported | Gone

  datatype BindCall = BindCall(socket: Socket, id: SessionId, pc: BindPc, leave: Leave)

  datatype State = State(t: Tables, binds: seq<BindCall>)

  datatype Action =
    | BindSocket(socket: Socket, id: SessionId)
    | Check(i: nat)
    | TakeSlot(i: nat)
    | OpenSession(i: nat)
    | ReportOpen(i: nat)
    | MarkConflict(i: nat)
    | OpenRefused(i: nat)
    | ReportRefused(i: nat)
    | DropRefused(i: nat)
    | LookUp(i: nat)
    | ReleaseSlot(i: nat)
    | CloseSession(i: nat)
    | ReportClose(i: nat)
    | EraseEntry(i: nat)
    | Erase(c: nat)
    | Reset(c: nat)

  predicate Unused(s: State, socket: Socket) { forall i :: 0 <= i < |s.binds| ==> s.binds[i].socket != socket }

  predicate At(s: State, i: nat, pc: BindPc) { i < |s.binds| && s.binds[i].id in s.t.sessions && s.binds[i].pc == pc }

  predicate Leaving(s: State, i: nat) {
    && i < |s.binds| && Of(s, i) in s.t.sessions
    && (s.binds[i].leave.Found? || s.binds[i].leave.Released? || s.binds[i].leave.Closed?)
  }

  /** The session a shutdown works on. */
  function Of(s: State, i: nat): SessionId
    requires i < |s.binds|
  {
    match s.binds[i].leave
    case Found(of) => of case Released(of) => of case Closed(of) => of case _ => s.binds[i].id
  }

  /** A socket is shut down after its bind has returned. */
  predicate Enabled(s: State, a: Action) {
    match a
    case BindSocket(socket, id) => id in s.t.sessions && socket >= 0 && Unused(s, socket)
    case Check(i) => At(s, i, Resolved)
    case TakeSlot(i) => At(s, i, Passed)
    case OpenSession(i) => At(s, i, Holding)
    case ReportOpen(i) => At(s, i, Opened)
    case MarkConflict(i) => At(s, i, Refused)
    case OpenRefused(i) => At(s, i, Marked)
    case ReportRefused(i) => At(s, i, MarkedOpen)
    case DropRefused(i) => At(s, i, Dropping)
    case LookUp(i) => i < |s.binds| && s.binds[i].pc.Returned? && s.binds[i].leave == Present
    case ReleaseSlot(i) => Leaving(s, i) && s.binds[i].leave.Found?
    case CloseSession(i) => Leaving(s, i) && s.binds[i].leave.Released?
    case ReportClose(i) => Leaving(s, i) && s.binds[i].leave.Closed?
    case EraseEntry(i) => i < |s.binds| && s.binds[i].leave == Reported
    case Erase(c) => c < |s.t.cleanups| && s.t.cleanups[c].pc == Submitted
    case Reset(c) => c < |s.t.cleanups| && s.t.cleanups[c].pc == Erased && s.t.cleanups[c].session in s.t.sessions
  }

  function Name(s: State, i: nat): string
    requires i < |s.binds| && s.binds[i].id in s.t.sessions
  {
    s.t.sessions[s.binds[i].id].peerName
  }

  function Moved(s: State, i: nat, t: Tables, pc: BindPc): State
    requires i < |s.binds|
  {
    State(t, s.binds[i := s.binds[i].(pc := pc)])
  }

  function Left(s: State, i: nat, t: Tables, leave: Leave): State
    requires i < |s.binds|
  {
    State(t, s.binds[i := s.binds[i].(leave := leave)])
  }

  function Checked(slots: Slots, name: string): (pc: BindPc)
    ensures !pc.Returned? && !Granted(pc) && pc != Marked && pc != MarkedOpen
  {
    if ControlBusy(slots, name) then Refused else if DataBusy(slots, name) then Dropping else Passed
  }

  function Next(s: State, a: Action): State
    requires Enabled(s, a)
  {
    match a
    case BindSocket(socket, id) => State(Resolve(s.t, socket, id), s.binds + [BindCall(socket, id, Resolved, Present)])
    case Check(i) => Moved(s, i, s.t, Checked(s.t.slots, Name(s, i)))
    case TakeSlot(i) => Moved(s, i, Take(s.t, s.binds[i].socket, s.binds[i].id), Holding)
    case OpenSession(i) => Moved(s, i, SetId(s.t, s.binds[i].id, s.binds[i].socket), Opened)
    case ReportOpen(i) =>
      Moved(s, i, Report(s.t, s.binds[i].id, Connected(s.binds[i].socket)), Returned(DCAMERA_OK))
    case MarkConflict(i) => Moved(s, i, Mark(s.t, s.binds[i].id), Marked)
    case OpenRefused(i) => Moved(s, i, SetId(s.t, s.binds[i].id, s.binds[i].socket), MarkedOpen)
    case ReportRefused(i) =>
      var b := s.binds[i];
      Moved(s, i, Submit(Report(s.t, b.id, Connected(b.socket)), b.socket, b.id), Returned(DCAMERA_DEVICE_BUSY))
    case DropRefused(i) => Moved(s, i, Drop(s.t, s.binds[i].socket), Returned(DCAMERA_DEVICE_BUSY))
    case LookUp(i) =>
      var socket := s.binds[i].socket;
      Left(s, i, s.t, if Finds(s.t, socket) then Found(s.t.socketMap[socket]) else Gone)
    case ReleaseSlot(i) => Left(s, i, Let(s.t, s.binds[i].socket, Of(s, i)), Released(Of(s, i)))
    case CloseSession(i) => Left(s, i, SetId(s.t, Of(s, i), -1), Closed(Of(s, i)))
    case ReportClose(i) => Left(s, i, Report(s.t, Of(s, i), Disconnected(s.binds[i].socket)), Reported)
    case EraseEntry(i) => Left(s, i, Drop(s.t, s.binds[i].socket), Gone)
    case Erase(c) => s.(t := EraseSocket(s.t, c))
    case Reset(c) => s.(t := ResetId(s.t, c))
  }

  predicate Schedule(s: State, run: seq<Action>)
    decreases |run|
  {
    run == [] || (Enabled(s, run[0]) && Schedule(Next(s, run[0]), run[1..]))
  }

  function Play(s: State, run: seq<Action>): State
    requires Schedule(s, run)
    decreases |run|
  {
    if run == [] then s else Play(Next(s, run[0]), run[1..])
  }

  /** Before any bind: no slot taken, no session open or in conflict. */
  predicate FreshTables(t: Tables) {
    && t.slots == Slots(FREE, FREE, FREE) && t.socketMap == map[] && t.cleanups == [] && t.events == []
    && forall id :: id in t.sessions ==> !t.sessions[id].conflict && t.sessions[id].sessionId == -1
  }

  predicate Fresh(s: State) { FreshTables(s.t) && s.binds == [] }

  // ---- What every step keeps ----

  predicate Granted(pc: BindPc) { pc == Holding || pc == Opened || pc == Returned(DCAMERA_OK) }

  /** Bind i is one that was let through, for this slot and on this socket. */
  predicate HeldBy(s: State, i: nat, slot: Slot, socket: Socket) {
    && i < |s.binds| && s.binds[i].id in s.t.sessions
    && s.binds[i].socket == socket && Granted(s.binds[i].pc) && SlotOf(Name(s, i)) == slot
  }

  ghost predicate SlotKept(s: State, slot: Slot) {
    Holder(s.t.slots, slot) == FREE || exists i: nat :: HeldBy(s, i, slot, Holder(s.t.slots, slot))
  }

  predicate SocketsKept(s: State) {
    && (forall i :: 0 <= i < |s.binds| ==> s.binds[i].id in s.t.sessions && s.binds[i].socket >= 0)
    && (forall i, j :: 0 <= i < j < |s.binds| ==> s.binds[i].socket != s.binds[j].socket)
  }

  predicate BindsKept(s: State) {
    && SocketsKept(s)
    && (forall i :: 0 <= i < |s.binds| && !s.binds[i].pc.Returned? ==> s.binds[i].leave == Present)
    && (forall i :: 0 <= i < |s.binds| && s.binds[i].pc.Returned? ==>
                      s.binds[i].pc.ret == DCAMERA_OK || s.binds[i].pc.ret == DCAMERA_DEVICE_BUSY)
  }

  /** The map entry of a socket goes only with a refusal or its shutdown, and leads to its session. */
  predicate EntryKept(s: State, i: nat)
    requires i < |s.binds|
  {
    var b := s.binds[i];
    && Of(s, i) == b.id
    && (b.leave == Present && b.pc != Returned(DCAMERA_DEVICE_BUSY) ==>
          b.socket in s.t.socketMap && s.t.socketMap[b.socket] == b.id)
    && (b.socket in s.t.socketMap ==> s.t.socketMap[b.socket] == b.id)
  }

  ghost predicate CleanupKept(s: State, c: Cleanup) {
    c.session in s.t.sessions && exists i :: 0 <= i < |s.binds| && Refusal(s.binds[i], c)
  }

  predicate Refusal(b: BindCall, c: Cleanup) {
    b.socket == c.socket && b.id == c.session && b.pc == Returned(DCAMERA_DEVICE_BUSY)
  }

  predicate ToldBusy(pc: BindPc) { pc == Refused || pc == Marked || pc == MarkedOpen }

  predicate ConflictKept(s: State) {
    && (forall id :: id in s.t.sessions && s.t.sessions[id].conflict ==> IsControl(s.t.sessions[id].peerName))
    && (forall i :: 0 <= i < |s.binds| && s.binds[i].id in s.t.sessions && ToldBusy(s.binds[i].pc) ==>
                      IsControl(Name(s, i)))
  }

  ghost predicate EventKept(s: State, e: Event) { exists i :: 0 <= i < |s.binds| && Returns(s.binds[i], e) }

  predicate Returns(b: BindCall, e: Event) { b.socket == e.socket && b.pc.Returned? }

  /** Every slot is free or held by a bind that was let through for it; entries, marks and clean-ups belong
      to the binds they say. */
  ghost predicate Invariant(s: State) {
    && BindsKept(s) && ConflictKept(s)
    && SlotKept(s, Control) && SlotKept(s, DataContinue) && SlotKept(s, DataSnapshot)
    && (forall i :: 0 <= i < |s.binds| ==> EntryKept(s, i))
    && (forall c :: c in s.t.cleanups ==> CleanupKept(s, c))
    && (forall e :: e in s.t.events ==> EventKept(s, e))
  }

  lemma SessionsStay(s: State, a: Action)
    requires Enabled(s, a)
    ensures var n := Next(s, a);
            && (forall id :: id in n.t.sessions <==> id in s.t.sessions)
            && (forall id :: id in s.t.sessions ==> n.t.sessions[id].peerName == s.t.sessions[id].peerName)
  {
    hide Contains, Unused, Release, Checked, Fill, HoldsAny, Finds;
  }

  lemma CallsStay(s: State, a: Action)
    requires Enabled(s, a)
    ensures var n := Next(s, a);
            && |n.binds| >= |s.binds|
            && (forall i :: 0 <= i < |s.binds| ==>
                              n.binds[i].socket == s.binds[i].socket && n.binds[i].id == s.binds[i].id)
  {
    hide Unused, Checked, Resolve, Take, Mark, SetId, Report, Submit, Drop, Let, EraseSocket, ResetId;
  }

  /** How each bind moves, and how its shutdown does. */
  lemma PcMoves(s: State, a: Action, i: nat)
    requires Enabled(s, a) && i < |s.binds|
    ensures i < |Next(s, a).binds|
    ensures Next(s, a).binds[i].pc ==
              if a == Check(i) then Checked(s.t.slots, Name(s, i))
              else if a == TakeSlot(i) then Holding
              else if a == OpenSession(i) then Opened
              else if a == ReportOpen(i) then Returned(DCAMERA_OK)
              else if a == MarkConflict(i) then Marked
              else if a == OpenRefused(i) then MarkedOpen
              else if a == ReportRefused(i) || a == DropRefused(i) then Returned(DCAMERA_DEVICE_BUSY)
              else s.binds[i].pc
  {
    hide Unused, Checked, Resolve, Take, Mark, SetId, Report, Submit, Drop, Let, EraseSocket, ResetId, Finds;
  }

  lemma LeaveMoves(s: State, a: Action, i: nat)
    requires Enabled(s, a) && i < |s.binds|
    ensures i < |Next(s, a).binds|
    ensures Next(s, a).binds[i].leave ==
              if a == LookUp(i) && Finds(s.t, s.binds[i].socket) then Found(s.t.socketMap[s.binds[i].socket])
              else if a == ReleaseSlot(i) then Released(Of(s, i))
              else if a == CloseSession(i) then Closed(Of(s, i))
              else if a == ReportClose(i) then Reported
              else if a == LookUp(i) || a == EraseEntry(i) then Gone
              else s.binds[i].leave
  {
    hide Unused, Checked, Resolve, Take, Mark, SetId, Report, Submit, Drop, Let, EraseSocket, ResetId;
  }

  lemma NewCalls(s: State, a: Action)
    requires Enabled(s, a)
    ensures a.BindSocket? ==> Next(s, a).binds == s.binds + [BindCall(a.socket, a.id, Resolved, Present)]
    ensures !a.BindSocket? ==> |Next(s, a).binds| == |s.binds|
  {
    hide Unused, Checked, Resolve, Take, Mark, SetId, Report, Submit, Drop, Let, EraseSocket, ResetId, Finds;
  }

  /** Sockets, sessions and names of binds never change, nor do the names of sessions. */
  lemma NamesStay(s: State, a: Action)
    requires Enabled(s, a)
    ensures var n := Next(s, a);
            && |n.binds| >= |s.binds| && (forall id :: id in n.t.sessions <==> id in s.t.sessions)
            && (forall id :: id in s.t.sessions ==> n.t.sessions[id].peerName == s.t.sessions[id].peerName)
            && (forall i :: 0 <= i < |s.binds| ==>
                              n.binds[i].socket == s.binds[i].socket && n.binds[i].id == s.binds[i].id)
  {
    hide Next, Enabled;
    SessionsStay(s, a);
    CallsStay(s, a);
  }

  lemma SocketsKeep(s: State, a: Action)
    requires SocketsKept(s) && Enabled(s, a)
    ensures SocketsKept(Next(s, a))
  {
    NamesStay(s, a);
    hide Contains, Checked, Resolve, Take, Mark, SetId, Report, Submit, Drop, Let, EraseSocket, ResetId, Finds;
    assert !a.BindSocket? ==> |Next(s, a).binds| == |s.binds|;
  }

  lemma BindsKeep(s: State, a: Action)
    requires BindsKept(s) && Enabled(s, a)
    ensures BindsKept(Next(s, a))
  {
    hide Contains, Checked, Resolve, Take, Mark, SetId, Report, Submit, Drop, Let, EraseSocket, ResetId, Finds;
    hide SocketsKept, Unused;
    SocketsKeep(s, a);
  }

  lemma HeldStays(s: State, a: Action, i: nat, slot: Slot, socket: Socket)
    requires Enabled(s, a) && HeldBy(s, i, slot, socket)
    ensures HeldBy(Next(s, a), i, slot, socket)
  {
    hide Contains, SlotOf, Resolve, Take, Mark, SetId, Report, Submit, Drop, Let, EraseSocket, ResetId, Checked, Unused;
    NamesStay(s, a);
  }

  /** How an action moves a slot: a take gives it to the bind's socket, a shutdown frees its holder's. */
  lemma SlotMoves(s: State, a: Action, slot: Slot)
    requires Enabled(s, a)
    ensures Holder(Next(s, a).t.slots, slot) ==
              if a.TakeSlot? && SlotOf(Name(s, a.i)) == slot != NoSlot then s.binds[a.i].socket
              else if a.ReleaseSlot? then Holder(Release(s.t.slots, s.binds[a.i].socket), slot)
              else Holder(s.t.slots, slot)
  {
    hide Contains, Release, Checked, Unused, Finds, HoldsAny;
  }

  lemma SlotKeeps(s: State, a: Action, slot: Slot)
    requires Enabled(s, a) && SlotKept(s, slot)
    ensures SlotKept(Next(s, a), slot)
  {
    hide SlotOf, Next, HeldBy, Unused;
    SlotMoves(s, a, slot);
    if a.TakeSlot? && SlotOf(Name(s, a.i)) == slot {
      TakerHolds(s, a.i, slot);
    } else if Holder(s.t.slots, slot) != FREE {
      var i: nat :| HeldBy(s, i, slot, Holder(s.t.slots, slot));
      HeldStays(s, a, i, slot, Holder(s.t.slots, slot));
    }
  }

  lemma TakerHolds(s: State, i: nat, slot: Slot)
    requires Enabled(s, TakeSlot(i)) && SlotOf(Name(s, i)) == slot
    ensures HeldBy(Next(s, TakeSlot(i)), i, slot, s.binds[i].socket)
  {
    hide Contains;
  }

  lemma EntryKeeps(s: State, a: Action, i: nat)
    requires BindsKept(s) && Enabled(s, a) && i < |Next(s, a).binds|
    requires forall j :: 0 <= j < |s.binds| ==> EntryKept(s, j)
    requires forall c :: c in s.t.cleanups ==> CleanupKept(s, c)
    ensures EntryKept(Next(s, a), i)
  {
    hide Contains, Checked, Release, HoldsAny;
    if i < |s.binds| {
      assert EntryKept(s, i);
    }
    if a.Erase? {
      assert CleanupKept(s, s.t.cleanups[a.c]);
    }
  }

  lemma ConflictKeeps(s: State, a: Action)
    requires BindsKept(s) && ConflictKept(s) && Enabled(s, a)
    ensures ConflictKept(Next(s, a))
  {
    hide Contains, Next, Enabled;
    NamesStay(s, a);
    BusyMoves(s, a);
    MarkMoves(s, a);
  }

  lemma BusyMoves(s: State, a: Action)
    requires ConflictKept(s) && Enabled(s, a)
    ensures forall i :: 0 <= i < |Next(s, a).binds| && ToldBusy(Next(s, a).binds[i].pc) ==>
              i < |s.binds| && (s.binds[i].id in s.t.sessions ==> IsControl(Name(s, i)))
  {
    hide Contains, Unused, Resolve, Take, Mark, SetId, Report, Submit, Drop, Let, EraseSocket, ResetId;
  }

  lemma MarkMoves(s: State, a: Action)
    requires ConflictKept(s) && Enabled(s, a)
    ensures forall id :: id in Next(s, a).t.sessions && Next(s, a).t.sessions[id].conflict ==>
              id in s.t.sessions && IsControl(s.t.sessions[id].peerName)
  {
    hide Contains, Unused, Release, Checked, HoldsAny;
  }

  lemma CleanupsMove(s: State, a: Action, c: Cleanup) returns (d: Cleanup)
    requires Enabled(s, a) && c in Next(s, a).t.cleanups
    ensures d.socket == c.socket && d.session == c.session
    ensures d in s.t.cleanups || (a.ReportRefused? && d == Cleanup(s.binds[a.i].socket, s.binds[a.i].id, Submitted))
  {
    hide Contains, Finds, Release, HoldsAny, Unused, Checked;
    d := if a.Erase? && c == Next(s, a).t.cleanups[a.c] then s.t.cleanups[a.c]
         else if a.Reset? && c == Next(s, a).t.cleanups[a.c] then s.t.cleanups[a.c] else c;
  }

  lemma ReturnedStays(s: State, a: Action, i: nat)
    requires Enabled(s, a) && i < |s.binds| && s.binds[i].pc.Returned?
    ensures i < |Next(s, a).binds| && Next(s, a).binds[i].pc == s.binds[i].pc
  {
    hide Contains, Checked, Unused, Finds, HoldsAny;
  }

  lemma CleanupKeeps(s: State, a: Action, c: Cleanup)
    requires BindsKept(s) && Enabled(s, a) && c in Next(s, a).t.cleanups
    requires forall d :: d in s.t.cleanups ==> CleanupKept(s, d)
    ensures CleanupKept(Next(s, a), c)
  {
    var d := CleanupsMove(s, a, c);
    NamesStay(s, a);
    if d in s.t.cleanups {
      hide Next;
      var i: nat :| i < |s.binds| && Refusal(s.binds[i], d);
      ReturnedStays(s, a, i);
      assert Refusal(Next(s, a).binds[i], c);
    } else {
      assert Refusal(Next(s, a).binds[a.i], c);
    }
  }

  lemma EventKeeps(s: State, a: Action, e: Event)
    requires BindsKept(s) && Enabled(s, a) && e in Next(s, a).t.events
    requires e in s.t.events ==> EventKept(s, e)
    ensures EventKept(Next(s, a), e)
  {
    hide Contains, Finds, Release, HoldsAny, Unused, Checked;
    if e in s.t.events {
      var i :| 0 <= i < |s.binds| && Returns(s.binds[i], e);
      assert Returns(Next(s, a).binds[i], e);
    } else {
      assert (a.ReportOpen? || a.ReportRefused? || a.ReportClose?) && Returns(Next(s, a).binds[a.i], e);
    }
  }

  lemma StepKeeps(s: State, a: Action)
    requires Invariant(s) && Enabled(s, a)
    ensures Invariant(Next(s, a))
  {
    hide Next, Enabled, BindsKept, SlotKept, EntryKept, ConflictKept, CleanupKept, EventKept;
    var n := Next(s, a);
    BindsKeep(s, a);
    ConflictKeeps(s, a);
    SlotKeeps(s, a, Control);
    SlotKeeps(s, a, DataContinue);
    SlotKeeps(s, a, DataSnapshot);
    forall i | 0 <= i < |n.binds|
      ensures EntryKept(n, i)
    {
      EntryKeeps(s, a, i);
    }
    forall c | c in n.t.cleanups
      ensures CleanupKept(n, c)
    {
      CleanupKeeps(s, a, c);
    }
    forall e | e in n.t.events
      ensures EventKept(n, e)
    {
      EventKeeps(s, a, e);
    }
  }

  lemma {:induction false} Reached(s: State, run: seq<Action>)
    requires Invariant(s) && Schedule(s, run)
    ensures Invariant(Play(s, run))
    decreases |run|
  {
    hide Invariant, Next, Enabled;
    if run != [] {
      StepKeeps(s, run[0]);
      Reached(Next(s, run[0]), run[1..]);
    }
  }
}
