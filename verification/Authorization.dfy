/** Access authorization as a state machine: requesters, one timer thread per request and any number of
    result calls, each step one critical section or one write of a decision. */
module Authorization {
  import opened Bytes

  /** Request ids are drawn at random; here the n-th request has id n. Result calls may name any id. */
  type Id = nat
  type NetworkId = string

  datatype RequesterPc = Registered | Cancelled | Armed | Notified

  datatype TimerPc = NotStarted | Sleeping | Committed | Deciding(net: NetworkId) | Leaving | Gone

  datatype Request = Request(net: NetworkId, pc: RequesterPc, timer: TimerPc)

  datatype CallPc = Cancelling | Taking | Answering(net: NetworkId) | Returned

  datatype Call = Call(id: Id, granted: bool, pc: CallPc)

  /** Who wrote a decision: nobody's request (no listener or no package), a timer or a result call. */
  datatype Author = Default | Timer(timer: Id) | Result(call: nat)

  datatype Decision = Decision(author: Author, request: Option<Id>, net: NetworkId, granted: bool)

  datatype State = State(
    requests: seq<Request>, calls: seq<Call>,
    pending: map<Id, NetworkId>, flags: map<Id, bool>, threads: set<Id>,
    decisions: map<NetworkId, bool>, written: seq<Decision>)

  const INIT := State([], [], map[], map[], {}, map[], [])

  datatype Action =
    | GrantByDefault(dnet: NetworkId)
    | Register(net: NetworkId)
    | CancelStale(id: Id)
    | Arm(id: Id)
    | Notify(id: Id)
    | TimerCheck(id: Id)
    | TimerTake(id: Id)
    | TimerDecide(id: Id)
    | TimerLeave(id: Id)
    | CallArrives(cid: Id, granted: bool)
    | CallCancel(c: nat)
    | CallTake(c: nat)
    | CallDecide(c: nat)

  // ---- The critical sections, on the shared tables ----

  function SetCancelled(flags: map<Id, bool>, id: Id): map<Id, bool> {
    if id in flags then flags[id := true] else flags
  }

  predicate Expired(flags: map<Id, bool>, id: Id) { id in flags && !flags[id] }

  /** The network of a pending request, or the empty string the source starts from. */
  function Taken(pending: map<Id, NetworkId>, id: Id): NetworkId {
    if id in pending then pending[id] else ""
  }

  function Decide(s: State, d: Decision): State {
    s.(decisions := s.decisions[d.net := d.granted], written := s.written + [d])
  }

  function AtRequest(s: State, id: Id, r: Request): State
    requires id < |s.requests|
  {
    s.(requests := s.requests[id := r])
  }

  function AtCall(s: State, c: nat, pc: CallPc): State
    requires c < |s.calls|
  {
    s.(calls := s.calls[c := s.calls[c].(pc := pc)])
  }

  predicate Enabled(s: State, a: Action) {
    match a
    case GrantByDefault(_) => true
    case Register(_) => true
    case CancelStale(id) => id < |s.requests| && s.requests[id].pc == Registered
    case Arm(id) => id < |s.requests| && s.requests[id].pc == Cancelled
    case Notify(id) => id < |s.requests| && s.requests[id].pc == Armed
    case TimerCheck(id) => id < |s.requests| && s.requests[id].timer == Sleeping
    case TimerTake(id) => id < |s.requests| && s.requests[id].timer == Committed
    case TimerDecide(id) => id < |s.requests| && s.requests[id].timer.Deciding?
    case TimerLeave(id) => id < |s.requests| && s.requests[id].timer == Leaving
    case CallArrives(_, _) => true
    case CallCancel(c) => c < |s.calls| && s.calls[c].pc == Cancelling
    case CallTake(c) => c < |s.calls| && s.calls[c].pc == Taking
    case CallDecide(c) => c < |s.calls| && s.calls[c].pc.Answering?
  }

  function Next(s: State, a: Action): State
    requires Enabled(s, a)
  {
    match a
    case GrantByDefault(net) => Decide(s, Decision(Default, None, net, true))
    case Register(net) =>
      s.(requests := s.requests + [Request(net, Registered, NotStarted)],
         pending := s.pending[|s.requests| := net])
    case CancelStale(id) =>
      AtRequest(s, id, s.requests[id].(pc := Cancelled)).(flags := SetCancelled(s.flags, id))
    case Arm(id) =>
      AtRequest(s, id, s.requests[id].(pc := Armed, timer := Sleeping))
        .(flags := s.flags[id := false], threads := s.threads + {id})
    case Notify(id) => AtRequest(s, id, s.requests[id].(pc := Notified))
    case TimerCheck(id) =>
      AtRequest(s, id, s.requests[id].(timer := if Expired(s.flags, id) then Committed else Leaving))
        .(flags := s.flags - {id})
    case TimerTake(id) =>
      var net := Taken(s.pending, id);
      AtRequest(s, id, s.requests[id].(timer := if net == "" then Leaving else Deciding(net)))
        .(pending := s.pending - {id})
    case TimerDecide(id) =>
      Decide(AtRequest(s, id, s.requests[id].(timer := Leaving)),
             Decision(Timer(id), Some(id), s.requests[id].timer.net, false))
    case TimerLeave(id) => AtRequest(s, id, s.requests[id].(timer := Gone)).(threads := s.threads - {id})
    case CallArrives(id, granted) => s.(calls := s.calls + [Call(id, granted, Cancelling)])
    case CallCancel(c) => AtCall(s, c, Taking).(flags := SetCancelled(s.flags, s.calls[c].id))
    case CallTake(c) =>
      var net := Taken(s.pending, s.calls[c].id);
      AtCall(s, c, if net == "" then Returned else Answering(net)).(pending := s.pending - {s.calls[c].id})
    case CallDecide(c) =>
      Decide(AtCall(s, c, Returned),
             Decision(Result(c), Some(s.calls[c].id), s.calls[c].pc.net, s.calls[c].granted))
  }

  predicate Schedule(s: State, run: seq<Action>)
    decreases |run|
  {
    run == [] || (Enabled(s, run[0]) && Schedule(Next(s, run[0]), run[1..]))
  }

  function Play(s: State, run: seq<Action>): State
    requires Schedule(s, run)
    decreases |run|
  {
    if run == [] then s else Play(Next(s, run[0]), run[1..])
  }

  // ---- Where the right to decide a request is ----

  /** How many decisions request id has caused. */
  function Writes(written: seq<Decision>, id: Id): nat {
    if written == [] then 0 else
    var last := written[|written| - 1];
    Writes(written[..|written| - 1], id) + if last.request == Some(id) then 1 else 0
  }

  /** A result call that has taken the request from the table and not yet written. */
  predicate CallHolds(s: State, c: nat, id: Id) {
    c < |s.calls| && s.calls[c].id == id && s.calls[c].pc.Answering?
  }

  predicate TimerHolds(s: State, id: Id)
    requires id < |s.requests|
  {
    s.requests[id].timer.Deciding?
  }

  /** At any time exactly one of: still in the table, held by its timer, held by one result call,
      written once. For an empty network id the table entry is lost without a decision. */
  ghost predicate OneOwner(s: State, id: Id)
    requires id < |s.requests|
  {
    var held := TimerHolds(s, id) || exists c: nat :: CallHolds(s, c, id);
    && (id in s.pending ==> !held && Writes(s.written, id) == 0)
    && (held ==> id !in s.pending && Writes(s.written, id) == 0)
    && Writes(s.written, id) <= 1
    && (TimerHolds(s, id) ==> forall c: nat :: !CallHolds(s, c, id))
    && (forall c: nat, d: nat :: CallHolds(s, c, id) && CallHolds(s, d, id) ==> c == d)
    && (s.requests[id].net != "" ==> id in s.pending || held || Writes(s.written, id) == 1)
    && (s.requests[id].net == "" ==> !held && Writes(s.written, id) == 0)
  }

  /** Somebody is still going to take the request. */
  ghost predicate Attended(s: State, id: Id)
    requires id < |s.requests|
  {
    var r := s.requests[id];
    || r.pc == Registered || r.pc == Cancelled
    || (r.timer == Sleeping && id in s.flags && !s.flags[id])
    || r.timer == Committed
    || exists c: nat :: TakesNext(s, c, id)
  }

  predicate TakesNext(s: State, c: nat, id: Id) {
    c < |s.calls| && s.calls[c].id == id && s.calls[c].pc == Taking
  }

  ghost predicate RequestRecorded(s: State, id: Id)
    requires id < |s.requests|
  {
    var r := s.requests[id];
    && (id in s.pending ==> s.pending[id] == r.net)
    && (id in s.flags <==> r.timer == Sleeping)
    && (id in s.threads <==> r.timer != NotStarted && r.timer != Gone)
    && (r.pc == Registered || r.pc == Cancelled <==> r.timer == NotStarted)
    && (r.timer.Deciding? ==> r.timer.net == r.net)
  }

  ghost predicate CallRecorded(s: State, c: nat)
    requires c < |s.calls|
  {
    s.calls[c].pc.Answering? ==>
      s.calls[c].id < |s.requests| && s.calls[c].pc.net == s.requests[s.calls[c].id].net
  }

  /** The three tables speak of known requests only, and agree with where the agents are. */
  ghost predicate Tables(s: State) {
    && (forall id: Id :: id in s.pending || id in s.flags || id in s.threads ==> id < |s.requests|)
    && (forall id: Id :: id < |s.requests| ==> RequestRecorded(s, id))
    && (forall c: nat :: c < |s.calls| ==> CallRecorded(s, c))
  }

  /** Every decision is for the network of its request, and a timer never grants. */
  ghost predicate Genuine(s: State, d: Decision) {
    match d.author
    case Default => d.request == None && d.granted
    case Timer(id) => d.request == Some(id) && id < |s.requests| && d.net == s.requests[id].net && !d.granted
    case Result(c) =>
      && c < |s.calls| && d.request == Some(s.calls[c].id) && d.granted == s.calls[c].granted
      && s.calls[c].id < |s.requests| && d.net == s.requests[s.calls[c].id].net
  }

  function LastSays(written: seq<Decision>): map<NetworkId, bool> {
    if written == [] then map[] else
    var d := written[|written| - 1];
    LastSays(written[..|written| - 1])[d.net := d.granted]
  }

  ghost predicate Invariant(s: State) {
    && Tables(s)
    && (forall id :: 0 <= id < |s.requests| ==> OneOwner(s, id))
    && (forall id :: id in s.pending ==> Attended(s, id))
    && (forall d :: d in s.written ==> Genuine(s, d))
    && s.decisions == LastSays(s.written)
  }

  lemma {:induction written} NoWrites(written: seq<Decision>, id: Id)
    requires forall d :: d in written ==> d.request != Some(id)
    ensures Writes(written, id) == 0
  {}

  /** A decision adds to the count of its own request and is the last word for its network. */
  lemma DecideAdds(s: State, d: Decision, id: Id)
    ensures Writes(Decide(s, d).written, id) == Writes(s.written, id) + if d.request == Some(id) then 1 else 0
    ensures s.decisions == LastSays(s.written) ==> Decide(s, d).decisions == LastSays(Decide(s, d).written)
  {
    var all := s.written + [d];
    assert all[..|all| - 1] == s.written;
  }

  lemma TablesKept(s: State, a: Action)
    requires Tables(s) && Enabled(s, a)
    ensures Tables(Next(s, a))
  {
    var t := Next(s, a);
    forall id: Id | id in t.pending || id in t.flags || id in t.threads
      ensures id < |t.requests|
    {
    }
    forall id: Id | id < |t.requests|
      ensures RequestRecorded(t, id)
    {
      assert id < |s.requests| ==> RequestRecorded(s, id);
    }
    forall c: nat | c < |t.calls|
      ensures CallRecorded(t, c)
    {
      assert c < |s.calls| ==> CallRecorded(s, c);
      if a == CallTake(c) && s.calls[c].id in s.pending {
        assert RequestRecorded(s, s.calls[c].id);
      }
    }
  }

  lemma GenuineKept(s: State, a: Action)
    requires Tables(s) && Enabled(s, a)
    requires forall d :: d in s.written ==> Genuine(s, d)
    ensures forall d :: d in Next(s, a).written ==> Genuine(Next(s, a), d)
  {
    var t := Next(s, a);
    forall d | d in t.written
      ensures Genuine(t, d)
    {
      if d in s.written {
        assert Genuine(s, d);
      } else if a.TimerDecide? {
        assert RequestRecorded(s, a.id);
      } else if a.CallDecide? {
        assert CallRecorded(s, a.c);
      }
    }
  }

  /** Which steps move a request between its owners, as seen by the calls. */
  lemma HoldersMove(s: State, a: Action, id: Id)
    requires Enabled(s, a)
    ensures forall c: nat :: CallHolds(Next(s, a), c, id) <==>
              || (CallHolds(s, c, id) && a != CallDecide(c))
              || (a == CallTake(c) && s.calls[c].id == id && Taken(s.pending, id) != "")
  {}

  lemma OwnerKept(s: State, a: Action, id: Id)
    requires Tables(s) && Enabled(s, a) && id < |Next(s, a).requests|
    requires id < |s.requests| ==> OneOwner(s, id)
    requires forall d :: d in s.written ==> Genuine(s, d)
    ensures OneOwner(Next(s, a), id)
  {
    hide OneOwner, Writes, CallHolds;
    if id == |s.requests| {
      NewOwner(s, a, id);
    } else if a.GrantByDefault? || a.TimerDecide? || a.CallDecide? {
      OwnerDecides(s, a, id);
    } else {
      OwnerTakes(s, a, id);
    }
  }

  lemma NewOwner(s: State, a: Action, id: Id)
    requires Tables(s) && Enabled(s, a) && a.Register? && id == |s.requests|
    requires forall d :: d in s.written ==> Genuine(s, d)
    ensures OneOwner(Next(s, a), id)
  {
    UnknownNeverDecided(s, id);
    hide Writes, CallHolds;
    HoldersMove(s, a, id);
    NoHolder(s, id);
  }

  lemma OwnerTakes(s: State, a: Action, id: Id)
    requires Tables(s) && Enabled(s, a) && id < |s.requests| && OneOwner(s, id)
    requires !a.GrantByDefault? && !a.TimerDecide? && !a.CallDecide?
    ensures OneOwner(Next(s, a), id)
  {
    hide Writes, CallHolds, Tables;
    HoldersMove(s, a, id);
    assert RequestRecorded(s, id) by { RecordOf(s, id); }
  }

  lemma RecordOf(s: State, id: Id)
    requires Tables(s) && id < |s.requests|
    ensures RequestRecorded(s, id)
  {}

  lemma OwnerDecides(s: State, a: Action, id: Id)
    requires Tables(s) && Enabled(s, a) && id < |s.requests| && OneOwner(s, id)
    requires a.GrantByDefault? || a.TimerDecide? || a.CallDecide?
    ensures OneOwner(Next(s, a), id)
  {
    hide LastSays, Writes, CallHolds, Tables, OneOwner;
    RecordOf(s, id);
    match a {
      case GrantByDefault(net) =>
        DecideAdds(s, Decision(Default, None, net, true), id);
        HoldersMove(s, a, id);
        OwnerUnmoved(s, a, id);
      case TimerDecide(i) =>
        DecideAdds(AtRequest(s, i, s.requests[i].(timer := Leaving)),
                   Decision(Timer(i), Some(i), s.requests[i].timer.net, false), id);
        HoldersMove(s, a, id);
        if i != id {
          OwnerUnmoved(s, a, id);
        } else {
          OwnerWrote(s, a, id);
        }
      case CallDecide(c) =>
        DecideAdds(AtCall(s, c, Returned),
                   Decision(Result(c), Some(s.calls[c].id), s.calls[c].pc.net, s.calls[c].granted), id);
        HoldersMove(s, a, id);
        if s.calls[c].id != id {
          CallElsewhere(s, c, id);
          OwnerUnmoved(s, a, id);
        } else {
          OwnerWrote(s, a, id);
        }
    }
  }

  lemma CallElsewhere(s: State, c: nat, id: Id)
    requires c < |s.calls| && s.calls[c].id != id
    ensures !CallHolds(s, c, id)
  {}

  lemma OwnerUnmoved(s: State, a: Action, id: Id)
    requires Enabled(s, a) && id < |s.requests| && OneOwner(s, id) && id < |Next(s, a).requests|
    requires Next(s, a).pending == s.pending && Next(s, a).requests[id] == s.requests[id]
    requires Writes(Next(s, a).written, id) == Writes(s.written, id)
    requires forall c: nat :: CallHolds(Next(s, a), c, id) <==> CallHolds(s, c, id)
    ensures OneOwner(Next(s, a), id)
  {
    hide Writes, CallHolds, Next, Enabled;
  }

  lemma OwnerWrote(s: State, a: Action, id: Id)
    requires Enabled(s, a) && id < |s.requests| && OneOwner(s, id)
    requires a == TimerDecide(id) || (a.CallDecide? && s.calls[a.c].id == id)
    requires Writes(Next(s, a).written, id) == Writes(s.written, id) + 1
    ensures OneOwner(Next(s, a), id)
  {
    hide Writes;
    var t := Next(s, a);
    assert a.CallDecide? ==> CallHolds(s, a.c, id);
    HoldersMove(s, a, id);
    assert id !in t.pending && !TimerHolds(t, id) && t.requests[id].net == s.requests[id].net != "";
    assert forall c: nat :: !CallHolds(t, c, id);
  }

  lemma NoHolder(s: State, id: Id)
    requires Tables(s) && id >= |s.requests|
    ensures forall c: nat :: !CallHolds(s, c, id)
  {
    forall c: nat | c < |s.calls|
      ensures !CallHolds(s, c, id)
    {
      assert CallRecorded(s, c);
    }
  }

  lemma TakersMove(s: State, a: Action, id: Id)
    requires Enabled(s, a)
    ensures forall c: nat :: TakesNext(Next(s, a), c, id) <==>
              || (TakesNext(s, c, id) && a != CallTake(c))
              || (a == CallCancel(c) && s.calls[c].id == id)
  {}

  lemma AttendedKept(s: State, a: Action, id: Id)
    requires Tables(s) && Enabled(s, a) && id in Next(s, a).pending
    requires id in s.pending ==> Attended(s, id)
    ensures id < |Next(s, a).requests| && Attended(Next(s, a), id)
  {
    TakersMove(s, a, id);
    assert a.CallTake? ==> !TakesNext(s, a.c, id);
    hide TakesNext;
    if id < |s.requests| {
      assert RequestRecorded(s, id);
      if a.CallCancel? && s.calls[a.c].id == id {
        assert TakesNext(Next(s, a), a.c, id);
      }
    }
  }

  lemma InvariantKept(s: State, a: Action)
    requires Invariant(s) && Enabled(s, a)
    ensures Invariant(Next(s, a))
  {
    hide Tables, OneOwner, Attended, Genuine, LastSays;
    var t := Next(s, a);
    TablesKept(s, a);
    GenuineKept(s, a);
    forall id: Id | id < |t.requests|
      ensures OneOwner(t, id)
    {
      OwnerKept(s, a, id);
    }
    forall id | id in t.pending
      ensures id < |t.requests| && Attended(t, id)
    {
      AttendedKept(s, a, id);
    }
    LastWordKept(s, a);
  }

  lemma LastWordKept(s: State, a: Action)
    requires Enabled(s, a) && s.decisions == LastSays(s.written)
    ensures Next(s, a).decisions == LastSays(Next(s, a).written)
  {
    hide LastSays;
    match a {
      case GrantByDefault(net) => DecideAdds(s, Decision(Default, None, net, true), 0);
      case TimerDecide(i) =>
        DecideAdds(AtRequest(s, i, s.requests[i].(timer := Leaving)),
                   Decision(Timer(i), Some(i), s.requests[i].timer.net, false), 0);
      case CallDecide(c) =>
        DecideAdds(AtCall(s, c, Returned),
                   Decision(Result(c), Some(s.calls[c].id), s.calls[c].pc.net, s.calls[c].granted), 0);
      case _ =>
    }
  }

  lemma {:induction false} Reached(s: State, run: seq<Action>)
    requires Invariant(s) && Schedule(s, run)
    ensures Invariant(Play(s, run))
    decreases |run|
  {
    hide Invariant;
    if run != [] {
      InvariantKept(s, run[0]);
      Reached(Next(s, run[0]), run[1..]);
    }
  }

  // ---- What every interleaving guarantees ----

  /** Whatever the requester, the timer and any number of result calls do, and in whatever order: a
      request is decided at most once, every decision is for the network the request came from, and
      what the device is told last is what the table says. */
  lemma DecidedAtMostOnce(run: seq<Action>, id: Id)
    requires Schedule(INIT, run)
    ensures var s := Play(INIT, run);
            && Writes(s.written, id) <= 1
            && (forall d :: d in s.written ==> Genuine(s, d))
            && s.decisions == LastSays(s.written)
  {
    Reached(INIT, run);
    var s := Play(INIT, run);
    if id >= |s.requests| {
      UnknownNeverDecided(s, id);
    } else {
      assert OneOwner(s, id);
    }
  }

  lemma UnknownNeverDecided(s: State, id: Id)
    requires Tables(s) && id >= |s.requests| && forall d :: d in s.written ==> Genuine(s, d)
    ensures Writes(s.written, id) == 0
  {
    forall d | d in s.written
      ensures d.request != Some(id)
    {
      assert Genuine(s, d);
    }
    NoWrites(s.written, id);
  }

  // ---- A cancelled timer ----

  predicate OfTimer(d: Decision, id: Id) { d.author == Timer(id) }

  /** A timer that has written a decision has nothing left to do but leave. */
  ghost predicate WrittenOnLeaving(s: State) {
    forall d, id: Id :: d in s.written && OfTimer(d, id) ==>
      id < |s.requests| && (s.requests[id].timer == Leaving || s.requests[id].timer == Gone)
  }

  lemma WrittenOnLeavingKept(s: State, a: Action)
    requires Enabled(s, a) && Tables(s) && WrittenOnLeaving(s)
    ensures WrittenOnLeaving(Next(s, a))
  {
    hide SetCancelled, Taken, CallRecorded;
    var t := Next(s, a);
    forall d, id: Id | d in t.written && OfTimer(d, id)
      ensures id < |t.requests| && (t.requests[id].timer == Leaving || t.requests[id].timer == Gone)
    {
      if d in s.written {
        assert id < |s.requests| && RequestRecorded(s, id);
      }
    }
  }

  lemma {:induction false} WrittenOnLeavingReached(s: State, run: seq<Action>)
    requires Invariant(s) && WrittenOnLeaving(s) && Schedule(s, run)
    ensures WrittenOnLeaving(Play(s, run))
    decreases |run|
  {
    hide Next, Enabled, WrittenOnLeaving, Tables, OneOwner, Attended, Genuine;
    if run != [] {
      WrittenOnLeavingKept(s, run[0]);
      InvariantKept(s, run[0]);
      WrittenOnLeavingReached(Next(s, run[0]), run[1..]);
    }
  }

  /** The timer of request id will not decide: it sleeps and finds itself cancelled, or is past its check. */
  predicate Disarmed(s: State, id: Id) {
    && id < |s.requests|
    && match s.requests[id].timer
       case Sleeping => id in s.flags && s.flags[id]
       case Leaving => true
       case Gone => true
       case _ => false
  }

  lemma CancelDisarms(s: State, c: nat)
    requires Tables(s) && Enabled(s, CallCancel(c))
    requires s.calls[c].id < |s.requests| && s.requests[s.calls[c].id].timer == Sleeping
    ensures Disarmed(Next(s, CallCancel(c)), s.calls[c].id)
  {
    assert RequestRecorded(s, s.calls[c].id);
  }

  lemma DisarmedStep(s: State, a: Action, id: Id)
    requires Tables(s) && Enabled(s, a) && Disarmed(s, id)
    ensures Disarmed(Next(s, a), id)
    ensures forall d :: d in Next(s, a).written && OfTimer(d, id) ==> d in s.written
  {
    hide Taken, CallRecorded;
    assert RequestRecorded(s, id);
  }

  lemma {:induction false} DisarmedRun(s: State, run: seq<Action>, id: Id)
    requires Invariant(s) && Schedule(s, run) && Disarmed(s, id)
    ensures forall d :: d in Play(s, run).written && OfTimer(d, id) ==> d in s.written
    decreases |run|
  {
    hide Next, Enabled, Disarmed, Tables, OneOwner, Attended, Genuine;
    if run != [] {
      DisarmedStep(s, run[0], id);
      InvariantKept(s, run[0]);
      DisarmedRun(Next(s, run[0]), run[1..], id);
    }
  }

  /** Once a result call for a request has cancelled its sleeping timer, that timer writes no decision in any
      run, whatever else happens; so when all agents are through, a request with a network id has been decided,
      and by a result call, with what that call was told. */
  lemma CancelledTimerNeverDecides(before: seq<Action>, c: nat, after: seq<Action>, id: Id)
    requires Schedule(INIT, before) && Schedule(Play(INIT, before), [CallCancel(c)] + after)
    requires var s := Play(INIT, before);
             c < |s.calls| && s.calls[c].id == id < |s.requests| && s.requests[id].timer == Sleeping
    ensures var t := Play(Play(INIT, before), [CallCancel(c)] + after);
            && (forall d :: d in t.written ==> d.author != Timer(id))
            && (Quiet(t) && id < |t.requests| && t.requests[id].net != "" ==>
                  exists d, k: nat :: DecidedBy(t, d, k, id))
  {
    hide Next, Enabled, Disarmed, Tables, OneOwner, Attended, Genuine, WrittenOnLeaving, Quiet, Play, Schedule;
    StartHolds();
    Reached(INIT, before);
    WrittenOnLeavingReached(INIT, before);
    var s := Play(INIT, before);
    FirstStep(s, CallCancel(c), after);
    var n := Next(s, CallCancel(c));
    NotWritten(s, id);
    CancelDisarms(s, c);
    SameWritten(s, c);
    InvariantKept(s, CallCancel(c));
    DisarmedRun(n, after, id);
    var t := Play(n, after);
    Reached(n, after);
    if Quiet(t) && id < |t.requests| && t.requests[id].net != "" {
      DecidedWhenQuiet(t, id);
      var d := WriteOf(t.written, id);
      DecidedByCall(t, d, id);
    }
  }

  /** Decision d is for request id and its network, and is what result call k was told. */
  predicate DecidedBy(t: State, d: Decision, k: nat, id: Id) {
    && d in t.written && d.author == Result(k) && d.request == Some(id) && k < |t.calls| && id < |t.requests|
    && t.calls[k].id == id && d.net == t.requests[id].net && d.granted == t.calls[k].granted
  }

  lemma DecidedByCall(t: State, d: Decision, id: Id)
    requires Invariant(t) && d in t.written && d.request == Some(id) && d.author != Timer(id)
    ensures exists k: nat :: DecidedBy(t, d, k, id)
  {
    hide Tables, OneOwner, Attended;
    assert Genuine(t, d);
    if d.author.Result? {
      assert DecidedBy(t, d, d.author.call, id);
    }
  }

  lemma StartHolds()
    ensures Invariant(INIT) && WrittenOnLeaving(INIT)
  {}

  lemma FirstStep(s: State, a: Action, rest: seq<Action>)
    requires Schedule(s, [a] + rest)
    ensures Enabled(s, a) && Schedule(Next(s, a), rest) && Play(s, [a] + rest) == Play(Next(s, a), rest)
  {
    hide Next, Enabled;
    assert ([a] + rest)[1..] == rest;
  }

  lemma NotWritten(s: State, id: Id)
    requires WrittenOnLeaving(s) && id < |s.requests| && s.requests[id].timer == Sleeping
    ensures forall d :: d in s.written ==> !OfTimer(d, id)
  {}

  lemma SameWritten(s: State, c: nat)
    requires Enabled(s, CallCancel(c))
    ensures Next(s, CallCancel(c)).written == s.written
  {}

  lemma {:induction false} WriteOf(written: seq<Decision>, id: Id) returns (d: Decision)
    requires Writes(written, id) > 0
    ensures d in written && d.request == Some(id)
  {
    var last := written[|written| - 1];
    if last.request == Some(id) {
      d := last;
    } else {
      d := WriteOf(written[..|written| - 1], id);
    }
  }

  /** A pending request always has an agent that will take it. */
  lemma NeverStranded(run: seq<Action>, id: Id)
    requires Schedule(INIT, run) && id in Play(INIT, run).pending
    ensures id < |Play(INIT, run).requests| && Attended(Play(INIT, run), id)
  {
    Reached(INIT, run);
  }

  predicate Quiet(s: State) {
    && (forall id :: 0 <= id < |s.requests| ==> s.requests[id].pc == Notified && s.requests[id].timer == Gone)
    && (forall c :: 0 <= c < |s.calls| ==> s.calls[c].pc == Returned)
  }

  /** Once all agents are through, nothing is pending, no timer entry is left, and each request with a
      network id was decided exactly once, each without one not at all. */
  lemma AllDecidedWhenQuiet(run: seq<Action>, id: Id)
    requires Schedule(INIT, run) && Quiet(Play(INIT, run)) && id < |Play(INIT, run).requests|
    ensures var s := Play(INIT, run);
            && s.pending == map[] && s.flags == map[] && s.threads == {}
            && Writes(s.written, id) == if s.requests[id].net == "" then 0 else 1
  {
    Reached(INIT, run);
    DecidedWhenQuiet(Play(INIT, run), id);
  }

  lemma DecidedWhenQuiet(s: State, id: Id)
    requires Invariant(s) && Quiet(s) && id < |s.requests|
    ensures s.pending == map[] && s.flags == map[] && s.threads == {}
    ensures Writes(s.written, id) == if s.requests[id].net == "" then 0 else 1
  {
    forall i: Id
      ensures i !in s.pending && i !in s.flags && i !in s.threads
    {
      assert i in s.pending ==> Attended(s, i);
      assert i < |s.requests| ==> RequestRecorded(s, i);
    }
    assert s.pending.Keys == {} && s.flags.Keys == {} && s.threads == {};
    assert OneOwner(s, id);
    assert forall c: nat :: !CallHolds(s, c, id);
  }

  // ---- Agents come to an end ----

  predicate Internal(a: Action) { !a.GrantByDefault? && !a.Register? && !a.CallArrives? }

  function StepsOfRequest(r: Request): nat {
    (match r.pc case Registered => 3 case Cancelled => 2 case Armed => 1 case Notified => 0)
    + (match r.timer
       case NotStarted => 4 case Sleeping => 4 case Committed => 3 case Deciding(_) => 2 case Leaving => 1
       case Gone => 0)
  }

  function StepsOfCall(c: Call): nat {
    match c.pc case Cancelling => 3 case Taking => 2 case Answering(_) => 1 case Returned => 0
  }

  function Sum<T>(xs: seq<T>, steps: T -> nat): nat {
    if xs == [] then 0 else Sum(xs[..|xs| - 1], steps) + steps(xs[|xs| - 1])
  }

  lemma {:induction false} SumUpdate<T>(xs: seq<T>, steps: T -> nat, i: nat, x: T)
    requires i < |xs|
    ensures Sum(xs[i := x], steps) + steps(xs[i]) == Sum(xs, steps) + steps(x)
  {
    var last := |xs| - 1;
    if i < last {
      assert xs[i := x][..last] == xs[..last][i := x];
      SumUpdate(xs[..last], steps, i, x);
    } else {
      assert xs[i := x][..last] == xs[..last];
    }
  }

  /** A bound on the steps the agents present can still take. */
  function StepsLeft(s: State): nat { Sum(s.requests, StepsOfRequest) + Sum(s.calls, StepsOfCall) }

  lemma StepTaken(s: State, a: Action)
    requires Tables(s) && Enabled(s, a) && Internal(a)
    ensures StepsLeft(Next(s, a)) < StepsLeft(s)
  {
    hide Sum;
    var t := Next(s, a);
    if a.CallCancel? || a.CallTake? || a.CallDecide? {
      SumUpdate(s.calls, StepsOfCall, a.c, t.calls[a.c]);
    } else {
      RecordOf(s, a.id);
      SumUpdate(s.requests, StepsOfRequest, a.id, t.requests[a.id]);
    }
  }

  lemma SomeoneCanStep(s: State) returns (a: Action)
    requires Tables(s) && !Quiet(s)
    ensures Internal(a) && Enabled(s, a)
  {
    if id: Id :| id < |s.requests| && s.requests[id].pc != Notified {
      a := match s.requests[id].pc case Registered => CancelStale(id) case Cancelled => Arm(id) case _ => Notify(id);
    } else if id: Id :| id < |s.requests| && s.requests[id].timer != Gone {
      RecordOf(s, id);
      a := match s.requests[id].timer
        case Sleeping => TimerCheck(id) case Committed => TimerTake(id) case Deciding(_) => TimerDecide(id)
        case _ => TimerLeave(id);
    } else {
      var c: nat :| c < |s.calls| && s.calls[c].pc != Returned;
      a := match s.calls[c].pc case Cancelling => CallCancel(c) case Taking => CallTake(c) case _ => CallDecide(c);
    }
  }

  /** Left alone, the agents cannot run forever, and they stop only when every request has been dealt
      with: any run of theirs is at most StepsLeft long, and one that cannot go on ends quiet. */
  lemma {:induction false} AgentsFinish(s: State, run: seq<Action>)
    requires Invariant(s) && Schedule(s, run) && forall i :: 0 <= i < |run| ==> Internal(run[i])
    ensures |run| <= StepsLeft(s) - StepsLeft(Play(s, run))
    ensures (forall a :: Internal(a) ==> !Enabled(Play(s, run), a)) ==> Quiet(Play(s, run))
    decreases |run|
  {
    hide StepsLeft, Next;
    if run == [] {
      if !Quiet(s) {
        var a := SomeoneCanStep(s);
      }
    } else {
      InvariantKept(s, run[0]);
      StepTaken(s, run[0]);
      AgentsFinish(Next(s, run[0]), run[1..]);
    }
  }
}
