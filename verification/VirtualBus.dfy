/** The shared-memory message bus: two indices over one byte region and two counting semaphores, used by
    any number of senders and receivers whose steps interleave. */
module VirtualBus {
  import opened Bytes

  /** sizeof(VirtualBusMessageHeader): two 32-bit fields, a 64-bit one, four bytes and struct padding. */
  const HEADER := 24
  const LOW_WATER := 1024

  /** A message, and the header bytes the receiver does not interpret: timestamp, priority, the rest. */
  datatype Message = Message(data: seq<byte>, stamp: seq<byte>)

  predicate Fits(m: Message, capacity: nat) { 1 <= |m.data| <= capacity && |m.stamp| == HEADER - 8 }

  function Encode(at: u32, m: Message): (r: seq<byte>)
    requires |m.data| < TWO32
    ensures |r| == 8 + |m.stamp| + |m.data|
  {
    Le32(at) + Le32(|m.data|) + m.stamp + m.data
  }

  predicate AllFit(q: seq<Message>, capacity: nat) { forall i :: 0 <= i < |q| ==> Fits(q[i], capacity) }

  function Size(q: seq<Message>): nat {
    if q == [] then 0 else Size(q[..|q| - 1]) + HEADER + |q[|q| - 1].data|
  }

  /** The bytes of messages written one after the other from position at on. */
  function Layout(at: nat, q: seq<Message>): (r: seq<byte>)
    requires at + Size(q) < TWO32 && AllFit(q, TWO32 - 1)
    ensures |r| == Size(q)
  {
    if q == [] then [] else
    var rest, last := q[..|q| - 1], q[|q| - 1];
    Layout(at, rest) + Encode(at + Size(rest), last)
  }

  function Datas(q: seq<Message>): (r: seq<seq<byte>>)
    ensures |r| == |q|
  {
    seq(|q|, i requires 0 <= i < |q| => q[i].data)
  }

  /** Reading a region by itself: sizes from the headers, one message after the other. */
  function Decode(region: seq<byte>): seq<seq<byte>> {
    if |region| < HEADER then [] else
    var n := FromLe32(region[4..8]);
    if HEADER + n > |region| then [] else [region[HEADER..HEADER + n]] + Decode(region[HEADER + n..])
  }

  // ---- What senders and receivers do under the lock ----

  datatype Shared = Shared(mem: seq<byte>, readIndex: u32, writeIndex: u32, readSem: nat, writeSem: nat)

  /** The free space as the source computes it: unsigned, so that less than a header wraps around. */
  function AvailableSpace(v: Shared): int {
    if v.readIndex > v.writeIndex then (v.readIndex - v.writeIndex - HEADER) % TWO64
    else (|v.mem| - v.writeIndex - HEADER) % TWO64
  }

  predicate Room(v: Shared) { v.writeIndex + HEADER <= |v.mem| }

  predicate Indices(v: Shared) { v.readIndex <= v.writeIndex <= |v.mem| < TWO32 }

  function Write(mem: seq<byte>, at: nat, bs: seq<byte>): (r: seq<byte>)
    requires at + |bs| <= |mem|
    ensures |r| == |mem|
  {
    mem[..at] + bs + mem[at + |bs|..]
  }

  /** SendData between taking a write permit and posting a read permit. */
  function AfterSend(v: Shared, m: Message): (r: Shared)
    requires Indices(v) && Room(v) && Fits(m, |v.mem|)
    ensures Indices(r)
  {
    hide Encode, Write;
    if AvailableSpace(v) < |m.data| then v.(writeSem := v.writeSem + 1)
    else
      v.(mem := Write(v.mem, v.writeIndex, Encode(v.writeIndex, m)),
         writeIndex := (v.writeIndex + HEADER + |m.data|) % TWO32)
  }

  predicate Accepts(v: Shared, m: Message) { AvailableSpace(v) >= |m.data| }

  datatype Received = Received(bus: Shared, data: Option<seq<byte>>)

  predicate Readable(v: Shared) {
    && v.readIndex + HEADER <= |v.mem|
    && var n := FromLe32(v.mem[v.readIndex + 4..v.readIndex + 8]);
    0 < n <= |v.mem| ==> v.readIndex + HEADER + n <= |v.mem|
  }

  /** ReceiveData after taking a read permit; a permit is given back when nothing can be read. */
  function AfterReceive(v: Shared): Received
    requires v.readIndex != v.writeIndex ==> Readable(v)
  {
    if v.readIndex == v.writeIndex then Received(v.(readSem := v.readSem + 1), None) else
    var n := FromLe32(v.mem[v.readIndex + 4..v.readIndex + 8]);
    if n == 0 || n > |v.mem| then Received(v.(readSem := v.readSem + 1), None) else
    var next := (v.readIndex + HEADER + n) % TWO32;
    Received(v.(readIndex := next,
                writeSem := if next + HEADER + LOW_WATER >= |v.mem| then v.writeSem + 1 else v.writeSem),
             Some(v.mem[v.readIndex + HEADER..v.readIndex + HEADER + n]))
  }

  /** With less than a header of room the subtraction wraps and everything is accepted: an accepted send
      leaves the memory exactly when not even a header fits. */
  lemma OverrunIffNoRoom(v: Shared, m: Message)
    requires Indices(v) && Fits(m, |v.mem|)
    ensures Accepts(v, m) && v.writeIndex + HEADER + |m.data| > |v.mem| <==> !Room(v)
  {}

  // ---- Interleaved senders and receivers ----

  /** The bus, how many threads stand where, and what has gone in and come out. A run is over when a send
      writes past the memory: what the process does after that is undefined. */
  datatype State = State(
    bus: Shared, writers: nat, unposted: nat, readers: nat, stolen: nat, restored: nat,
    sent: seq<Message>, delivered: seq<seq<byte>>, overrun: bool)

  datatype Action =
    | TakeWritePermit
    | Send(m: Message)
    | PostRead
    | TakeReadPermit
    | Receive
    /** WaitForData without a time limit takes a read permit and keeps it. */
    | WaitForever

  function Init(memory: seq<byte>, maxMessages: nat): State {
    State(Shared(memory, 0, 0, 0, maxMessages), 0, 0, 0, 0, 0, [], [], false)
  }

  predicate Enabled(s: State, a: Action) {
    !s.overrun &&
    match a
    case TakeWritePermit => s.bus.writeSem > 0
    case Send(m) => s.writers > 0 && Indices(s.bus) && Fits(m, |s.bus.mem|)
    case PostRead => s.unposted > 0
    case TakeReadPermit => s.bus.readSem > 0
    case Receive => s.readers > 0 && (s.bus.readIndex != s.bus.writeIndex ==> Readable(s.bus))
    case WaitForever => s.bus.readSem > 0
  }

  function Next(s: State, a: Action): State
    requires Enabled(s, a)
  {
    match a
    case TakeWritePermit => s.(bus := s.bus.(writeSem := s.bus.writeSem - 1), writers := s.writers + 1)
    case Send(m) =>
      if !Room(s.bus) then s.(overrun := true) else
      var t := s.(bus := AfterSend(s.bus, m), writers := s.writers - 1);
      if Accepts(s.bus, m) then t.(unposted := s.unposted + 1, sent := s.sent + [m]) else t
    case PostRead => s.(bus := s.bus.(readSem := s.bus.readSem + 1), unposted := s.unposted - 1)
    case TakeReadPermit => s.(bus := s.bus.(readSem := s.bus.readSem - 1), readers := s.readers + 1)
    case Receive =>
      var r := AfterReceive(s.bus);
      var t := s.(bus := r.bus, readers := s.readers - 1, restored := s.restored + r.bus.writeSem - s.bus.writeSem);
      if r.data.Some? then t.(delivered := s.delivered + [r.data.value]) else t
    case WaitForever => s.(bus := s.bus.(readSem := s.bus.readSem - 1), stolen := s.stolen + 1)
  }

  predicate Schedule(s: State, run: seq<Action>)
    decreases |run|
  {
    run == [] || (Enabled(s, run[0]) && Schedule(Next(s, run[0]), run[1..]))
  }

  function Play(s: State, run: seq<Action>): State
    requires Schedule(s, run)
    decreases |run|
  {
    if run == [] then s else Play(Next(s, run[0]), run[1..])
  }

  function Unread(s: State): seq<Message>
    requires |s.delivered| <= |s.sent|
  {
    s.sent[|s.delivered|..]
  }

  /** The memory below the write index is all messages ever sent, the read index is where the undelivered
      ones begin, and every undelivered message has exactly one read permit somewhere. */
  ghost predicate Invariant(s: State, maxMessages: nat) {
    && Indices(s.bus) && AllFit(s.sent, |s.bus.mem|)
    && |s.delivered| <= |s.sent| && s.delivered == Datas(s.sent[..|s.delivered|])
    && s.bus.writeIndex == Size(s.sent) && s.bus.readIndex == Size(s.sent[..|s.delivered|])
    && s.bus.mem[..s.bus.writeIndex] == Layout(0, s.sent)
    && s.bus.readSem + s.unposted + s.readers + s.stolen == |Unread(s)|
    && s.bus.writeSem + s.writers + |s.sent| == maxMessages + s.restored
  }

  lemma FitsSplits(a: seq<Message>, b: seq<Message>, capacity: nat)
    ensures AllFit(a + b, capacity) <==> AllFit(a, capacity) && AllFit(b, capacity)
  {
    assert forall i :: 0 <= i < |a| ==> (a + b)[i] == a[i];
    assert forall i :: 0 <= i < |b| ==> (a + b)[|a| + i] == b[i];
  }

  lemma {:induction false} LayoutSplits(at: nat, a: seq<Message>, b: seq<Message>)
    requires at + Size(a + b) < TWO32 && AllFit(a + b, TWO32 - 1)
    ensures AllFit(a, TWO32 - 1) && AllFit(b, TWO32 - 1) && Size(a + b) == Size(a) + Size(b)
    ensures Layout(at, a + b) == Layout(at, a) + Layout(at + Size(a), b)
  {
    hide Size, Layout, Encode, AllFit, Fits, Decode, Datas;
    FitsSplits(a, b, TWO32 - 1);
    if b == [] {
      assert a + b == a;
      EmptyRegion(at + Size(a));
    } else {
      var rest, last := b[..|b| - 1], b[|b| - 1];
      assert a + b == (a + rest) + [last];
      assert b == rest + [last];
      SizeSnoc(a + rest, last);
      SizeSnoc(rest, last);
      FitsSplits(a + rest, [last], TWO32 - 1);
      FitsSplits(a, rest, TWO32 - 1);
      LayoutSplits(at, a, rest);
      LayoutSnoc(at, a + rest, last);
      LayoutSnoc(at + Size(a), rest, last);
      Associative(Layout(at, a), Layout(at + Size(a), rest), Encode(at + Size(a + rest), last));
    }
  }

  lemma Associative<T>(a: seq<T>, b: seq<T>, c: seq<T>)
    ensures (a + b) + c == a + (b + c)
  {}

  lemma LayoutSnoc(at: nat, q: seq<Message>, m: Message)
    requires at + Size(q) + HEADER + |m.data| < TWO32 && AllFit(q + [m], TWO32 - 1)
    ensures Size(q + [m]) == Size(q) + HEADER + |m.data| && AllFit(q, TWO32 - 1)
    ensures Layout(at, q + [m]) == Layout(at, q) + Encode(at + Size(q), m)
  {
    hide Size, Encode, AllFit, Fits;
    FitsSplits(q, [m], TWO32 - 1);
    SizeSnoc(q, m);
    assert (q + [m])[..|q|] == q;
  }

  lemma SizeSnoc(q: seq<Message>, m: Message)
    ensures Size(q + [m]) == Size(q) + HEADER + |m.data|
  {
    assert (q + [m])[..|q|] == q;
  }

  lemma EncodeReads(at: u32, m: Message, rest: seq<byte>)
    requires Fits(m, TWO32 - 1)
    ensures var bs := Encode(at, m) + rest;
            && FromLe32(bs[4..8]) == |m.data|
            && bs[HEADER..HEADER + |m.data|] == m.data && bs[HEADER + |m.data|..] == rest
  {
    var bs := Encode(at, m) + rest;
    assert bs[4..8] == Le32(|m.data|);
    Le32RoundTrip(|m.data|);
  }

  lemma DecodeHead(at: u32, m: Message, rest: seq<byte>)
    requires Fits(m, TWO32 - 1)
    ensures Decode(Encode(at, m) + rest) == [m.data] + Decode(rest)
  {
    EncodeReads(at, m, rest);
  }

  /** The region between the indices decodes to the messages, whatever they are. */
  lemma {:induction false} RegionDecodes(at: nat, q: seq<Message>)
    requires at + Size(q) < TWO32 && AllFit(q, TWO32 - 1)
    ensures Decode(Layout(at, q)) == Datas(q)
    decreases |q|
  {
    hide Size, Layout, Encode, AllFit, Fits, Decode, Datas;
    if q == [] {
      EmptyRegion(at);
    } else {
      LayoutCons(at, q);
      DecodeHead(at, q[0], Layout(at + HEADER + |q[0].data|, q[1..]));
      RegionDecodes(at + HEADER + |q[0].data|, q[1..]);
    }
  }

  lemma EmptyRegion(at: nat)
    requires at < TWO32
    ensures Size([]) == 0 && Layout(at, []) == [] && Decode([]) == [] && Datas([]) == []
  {}

  lemma LayoutCons(at: nat, q: seq<Message>)
    requires q != [] && at + Size(q) < TWO32 && AllFit(q, TWO32 - 1)
    ensures var next := at + HEADER + |q[0].data|;
            && Size(q) == HEADER + |q[0].data| + Size(q[1..]) && AllFit(q[1..], TWO32 - 1)
            && Layout(at, q) == Encode(at, q[0]) + Layout(next, q[1..])
            && Datas(q) == [q[0].data] + Datas(q[1..]) && Fits(q[0], TWO32 - 1)
  {
    hide Layout, Size, Encode;
    assert q == [q[0]] + q[1..];
    SizeOfOne(q[0]);
    FitsHead(q);
    LayoutSplits(at, [q[0]], q[1..]);
    HeadOfLayout(at, q[0]);
  }

  lemma FitsHead(q: seq<Message>)
    requires q != [] && AllFit(q, TWO32 - 1)
    ensures Fits(q[0], TWO32 - 1)
  {}

  lemma SizeOfOne(m: Message)
    ensures Size([m]) == HEADER + |m.data|
  {
    assert [m][..0] == [];
  }

  lemma HeadOfLayout(at: nat, m: Message)
    requires at + HEADER + |m.data| < TWO32 && Fits(m, TWO32 - 1)
    ensures Size([m]) == HEADER + |m.data| && Layout(at, [m]) == Encode(at, m)
  {
    SizeOfOne(m);
    assert [m][..0] == [];
    assert Size([m][..0]) == 0 && Layout(at, [m][..0]) == [];
  }

  lemma FitsWeaken(q: seq<Message>, capacity: nat)
    requires AllFit(q, capacity) && capacity < TWO32
    ensures AllFit(q, TWO32 - 1)
  {}

  /** The bytes at the read index, when something is undelivered, are its encoding. */
  lemma NextUnread(v: Shared, sent: seq<Message>, k: nat)
    requires Indices(v) && AllFit(sent, |v.mem|) && k < |sent|
    requires v.writeIndex == Size(sent) && v.readIndex == Size(sent[..k])
    requires AllFit(sent, TWO32 - 1) && v.mem[..v.writeIndex] == Layout(0, sent)
    ensures var n := |sent[k].data|;
            && 1 <= n <= |v.mem| && v.readIndex + HEADER + n <= v.writeIndex
            && Size(sent[..k + 1]) == v.readIndex + HEADER + n
            && FromLe32(v.mem[v.readIndex + 4..v.readIndex + 8]) == n
            && v.mem[v.readIndex + HEADER..v.readIndex + HEADER + n] == sent[k].data
  {
    hide Layout, Size, Encode;
    var m, n, r, region := sent[k], |sent[k].data|, v.readIndex, Layout(0, sent);
    assert Fits(m, |v.mem|);
    EncodeLength(r, m);
    TailLayout(sent, k);
    var rest := Layout(r + HEADER + n, sent[k + 1..]);
    EncodeReads(r, m, rest);
    var tail := Encode(r, m) + rest;
    assert region == Layout(0, sent[..k]) + tail;
    SliceOfTail(v.mem, v.writeIndex, Layout(0, sent[..k]), tail, 4, 8);
    SliceOfTail(v.mem, v.writeIndex, Layout(0, sent[..k]), tail, HEADER, HEADER + n);
  }

  lemma SliceOfTail(mem: seq<byte>, w: nat, front: seq<byte>, tail: seq<byte>, lo: nat, hi: nat)
    requires w <= |mem| && mem[..w] == front + tail && lo <= hi <= |tail|
    ensures |front| + hi <= |mem| && mem[|front| + lo..|front| + hi] == tail[lo..hi]
  {
    assert mem[|front| + lo..|front| + hi] == mem[..w][|front| + lo..|front| + hi];
  }

  /** The layout of all messages, cut at the k-th. */
  lemma TailLayout(q: seq<Message>, k: nat)
    requires k < |q| && Size(q) < TWO32 && AllFit(q, TWO32 - 1)
    ensures AllFit(q[..k], TWO32 - 1) && AllFit(q[k + 1..], TWO32 - 1) && Fits(q[k], TWO32 - 1)
    ensures Size(q) == Size(q[..k]) + HEADER + |q[k].data| + Size(q[k + 1..])
    ensures Size(q[..k + 1]) == Size(q[..k]) + HEADER + |q[k].data|
    ensures Layout(0, q) == Layout(0, q[..k])
              + (Encode(Size(q[..k]), q[k]) + Layout(Size(q[..k]) + HEADER + |q[k].data|, q[k + 1..]))
  {
    hide Size, Layout, Encode, AllFit, Fits;
    assert q == q[..k] + q[k..];
    LayoutSplits(0, q[..k], q[k..]);
    LayoutCons(Size(q[..k]), q[k..]);
    assert q[k..][1..] == q[k + 1..];
    assert q[..k + 1] == q[..k] + [q[k]];
    SizeSnoc(q[..k], q[k]);
  }

  lemma InitHolds(memory: seq<byte>, maxMessages: nat)
    requires |memory| < TWO32
    ensures Invariant(Init(memory, maxMessages), maxMessages)
  {
    EmptyRegion(0);
  }

  lemma SendKeeps(s: State, m: Message, maxMessages: nat)
    requires Invariant(s, maxMessages) && Enabled(s, Send(m))
    ensures Invariant(Next(s, Send(m)), maxMessages)
  {
    hide Layout, Size, Encode;
    if Room(s.bus) && Accepts(s.bus, m) {
      var t, w := Next(s, Send(m)), s.bus.writeIndex;
      FitsSplits(s.sent, [m], |s.bus.mem|);
      FitsWeaken(t.sent, |s.bus.mem|);
      FitsWeaken(s.sent, |s.bus.mem|);
      LayoutSnoc(0, s.sent, m);
      EncodeLength(w, m);
      assert t.bus.mem[..t.bus.writeIndex] == s.bus.mem[..w] + Encode(w, m);
      assert t.sent[..|t.delivered|] == s.sent[..|s.delivered|];
    }
  }

  lemma EncodeLength(at: u32, m: Message)
    requires Fits(m, TWO32 - 1)
    ensures |Encode(at, m)| == HEADER + |m.data|
  {}

  /** A receiver that holds a permit always finds a whole message. */
  lemma PermitMeansMessage(s: State, maxMessages: nat)
    requires Invariant(s, maxMessages) && s.readers > 0
    ensures s.bus.readIndex != s.bus.writeIndex && Readable(s.bus)
    ensures var k := |s.delivered|;
            k < |s.sent| && AfterReceive(s.bus).data == Some(s.sent[k].data)
  {
    hide Layout, Size, Encode, Datas;
    FitsWeaken(s.sent, |s.bus.mem|);
    NextUnread(s.bus, s.sent, |s.delivered|);
  }

  lemma ReceiveKeeps(s: State, maxMessages: nat)
    requires Invariant(s, maxMessages) && Enabled(s, Receive)
    ensures Invariant(Next(s, Receive), maxMessages)
  {
    hide Layout, Size, Encode;
    PermitMeansMessage(s, maxMessages);
    FitsWeaken(s.sent, |s.bus.mem|);
    NextUnread(s.bus, s.sent, |s.delivered|);
    var k := |s.delivered|;
    assert s.sent[..k + 1] == s.sent[..k] + [s.sent[k]];
    assert Datas(s.sent[..k + 1]) == Datas(s.sent[..k]) + [s.sent[k].data];
  }

  lemma StepKeeps(s: State, a: Action, maxMessages: nat)
    requires Invariant(s, maxMessages) && Enabled(s, a)
    ensures Invariant(Next(s, a), maxMessages)
  {
    hide Layout, Size, Encode, Datas, AfterSend, AfterReceive;
    match a {
      case Send(m) => SendKeeps(s, m, maxMessages);
      case Receive => ReceiveKeeps(s, maxMessages);
      case _ =>
    }
  }

  lemma {:induction false} Reached(s: State, run: seq<Action>, maxMessages: nat)
    requires Invariant(s, maxMessages) && Schedule(s, run)
    ensures Invariant(Play(s, run), maxMessages)
    decreases |run|
  {
    hide Invariant, Next, Enabled;
    if run != [] {
      StepKeeps(s, run[0], maxMessages);
      Reached(Next(s, run[0]), run[1..], maxMessages);
    }
  }

  // ---- What every run guarantees ----

  /** In order, nothing lost, nothing twice, up to the end of the run or a send past the memory: the messages
      sent are those delivered followed by those the region between the indices decodes to; and a permit is
      somewhere for each of the latter. */
  lemma FirstInFirstOut(memory: seq<byte>, maxMessages: nat, run: seq<Action>)
    requires |memory| < TWO32 && Schedule(Init(memory, maxMessages), run)
    ensures var s := Play(Init(memory, maxMessages), run);
            && Indices(s.bus)
            && Datas(s.sent) == s.delivered + Decode(s.bus.mem[s.bus.readIndex..s.bus.writeIndex])
            && s.bus.readSem + s.unposted + s.readers + s.stolen == |s.sent| - |s.delivered|
  {
    hide Invariant, Layout, Size, Decode, Next, Enabled;
    InitHolds(memory, maxMessages);
    Reached(Init(memory, maxMessages), run, maxMessages);
    RegionIsUnread(Play(Init(memory, maxMessages), run), maxMessages);
  }

  lemma RegionIsUnread(s: State, maxMessages: nat)
    requires Invariant(s, maxMessages)
    ensures Indices(s.bus) && |s.delivered| <= |s.sent|
    ensures Datas(s.sent) == s.delivered + Decode(s.bus.mem[s.bus.readIndex..s.bus.writeIndex])
    ensures s.bus.readSem + s.unposted + s.readers + s.stolen == |s.sent| - |s.delivered|
  {
    hide Layout, Size, Encode, Decode;
    var k, r, w := |s.delivered|, s.bus.readIndex, s.bus.writeIndex;
    var front, back := s.sent[..k], s.sent[k..];
    assert s.sent == front + back;
    FitsWeaken(s.sent, |s.bus.mem|);
    LayoutSplits(0, front, back);
    RegionDecodes(r, back);
    assert s.bus.mem[r..w] == s.bus.mem[..w][r..] == Layout(r, back);
    assert Datas(s.sent) == Datas(front) + Datas(back);
  }

  /** The error paths of a receiver that got a permit are never taken. */
  lemma ReceiverNeverEmptyHanded(memory: seq<byte>, maxMessages: nat, run: seq<Action>)
    requires |memory| < TWO32 && Schedule(Init(memory, maxMessages), run)
    requires Play(Init(memory, maxMessages), run).readers > 0
    ensures var s := Play(Init(memory, maxMessages), run);
            && (s.bus.readIndex != s.bus.writeIndex ==> Readable(s.bus))
            && AfterReceive(s.bus).data.Some? && s.bus.readIndex < s.bus.writeIndex
  {
    hide Invariant, Next, AfterReceive;
    InitHolds(memory, maxMessages);
    Reached(Init(memory, maxMessages), run, maxMessages);
    var s := Play(Init(memory, maxMessages), run);
    RegionIsUnread(s, maxMessages);
    PermitMeansMessage(s, maxMessages);
  }

  /** The bus says it has data although a receiver would get nothing exactly when every undelivered message's
      permit is elsewhere: not posted yet, with a receiver, or kept by a waiter without a time limit. */
  lemma StarvedIffPermitsKept(memory: seq<byte>, maxMessages: nat, run: seq<Action>)
    requires |memory| < TWO32 && Schedule(Init(memory, maxMessages), run)
    ensures var s := Play(Init(memory, maxMessages), run);
            (s.bus.readIndex != s.bus.writeIndex && s.bus.readSem == 0)
            <==> 0 < s.unposted + s.readers + s.stolen == |s.sent| - |s.delivered|
  {
    hide Invariant, Next, AfterReceive, Enabled, Size;
    InitHolds(memory, maxMessages);
    Reached(Init(memory, maxMessages), run, maxMessages);
    var s := Play(Init(memory, maxMessages), run);
    RegionIsUnread(s, maxMessages);
    IndicesMeetWhenEmpty(s, maxMessages);
  }

  /** It happens, with nobody in the middle of anything: one message, its permit kept by a waiter. */
  lemma StarvedReachable(memory: seq<byte>, maxMessages: nat, m: Message)
    requires HEADER + |m.data| <= |memory| < TWO32 && Fits(m, |memory|) && maxMessages > 0
    ensures var run := [TakeWritePermit, Send(m), PostRead, WaitForever];
            && Schedule(Init(memory, maxMessages), run)
            && var s := Play(Init(memory, maxMessages), run);
            && s.bus.readIndex != s.bus.writeIndex && s.bus.readSem == 0
            && s.unposted == 0 && s.readers == 0 && s.stolen == 1
  {
    hide AfterReceive, Write, Encode;
    var run := [TakeWritePermit, Send(m), PostRead, WaitForever];
    var s := Init(memory, maxMessages);
    var s1 := Next(s, run[0]);
    var s2 := Next(s1, run[1]);
    var s3 := Next(s2, run[2]);
    var s4 := Next(s3, run[3]);
    assert run[1..][1..] == run[2..] && run[2..][1..] == run[3..] && run[3..][1..] == [];
    assert Schedule(s4, []) && Play(s4, []) == s4;
    assert Schedule(s3, run[3..]) && Play(s3, run[3..]) == s4;
    assert Schedule(s2, run[2..]) && Play(s2, run[2..]) == s4;
    assert Schedule(s1, run[1..]) && Play(s1, run[1..]) == s4;
  }

  /** A run overruns the memory exactly with a last step that sends when less than a header of room is left. */
  lemma {:induction false} OverrunIff(s: State, run: seq<Action>)
    requires !s.overrun && Schedule(s, run)
    ensures Play(s, run).overrun <==>
              && run != [] && Schedule(s, run[..|run| - 1])
              && run[|run| - 1].Send? && !Room(Play(s, run[..|run| - 1]).bus)
    decreases |run|
  {
    hide AfterSend, AfterReceive;
    if |run| == 1 {
      assert run[1..] == [] && run[..0] == [];
    } else if run != [] {
      var n, rest := |run| - 1, run[1..];
      if !Next(s, run[0]).overrun {
        assert rest[..n - 1] == run[..n][1..] && run[..n][0] == run[0] && rest[n - 1] == run[n];
        OverrunIff(Next(s, run[0]), rest);
      }
    }
  }

  /** It happens on every bus with two permits: a message that fills the memory, and one more of any size. */
  lemma OverrunReachable(memory: seq<byte>, maxMessages: nat, m: Message, m2: Message)
    requires HEADER + |m.data| == |memory| < TWO32 && Fits(m, |memory|) && Fits(m2, |memory|) && maxMessages > 1
    ensures var run := [TakeWritePermit, Send(m), TakeWritePermit, Send(m2)];
            Schedule(Init(memory, maxMessages), run) && Play(Init(memory, maxMessages), run).overrun
  {
    hide AfterReceive, Write, Encode;
    var run := [TakeWritePermit, Send(m), TakeWritePermit, Send(m2)];
    var s := Init(memory, maxMessages);
    var s1 := Next(s, run[0]);
    var s2 := Next(s1, run[1]);
    var s3 := Next(s2, run[2]);
    var s4 := Next(s3, run[3]);
    assert run[1..][1..] == run[2..] && run[2..][1..] == run[3..] && run[3..][1..] == [];
    assert Schedule(s4, []) && Play(s4, []) == s4;
    assert Schedule(s3, run[3..]) && Play(s3, run[3..]) == s4;
    assert Schedule(s2, run[2..]) && Play(s2, run[2..]) == s4;
    assert Schedule(s1, run[1..]) && Play(s1, run[1..]) == s4;
  }

  lemma IndicesMeetWhenEmpty(s: State, maxMessages: nat)
    requires Invariant(s, maxMessages)
    ensures s.bus.readIndex == s.bus.writeIndex <==> |s.sent| == |s.delivered|
  {
    hide Layout, Size, Encode, Datas;
    FitsWeaken(s.sent, |s.bus.mem|);
    if |s.delivered| < |s.sent| {
      NextUnread(s.bus, s.sent, |s.delivered|);
    } else {
      assert s.sent[..|s.delivered|] == s.sent;
    }
  }

  /** Space is never reclaimed and write permits come back only from reads near the end of the region:
      both bound what a bus can carry in its lifetime. */
  lemma LifetimeIsBounded(memory: seq<byte>, maxMessages: nat, run: seq<Action>)
    requires |memory| < TWO32 && Schedule(Init(memory, maxMessages), run)
    ensures var s := Play(Init(memory, maxMessages), run);
            && Size(s.sent) == s.bus.writeIndex <= |memory|
            && |s.sent| <= maxMessages + s.restored
            && (s.restored > 0 ==> s.bus.readIndex + HEADER + LOW_WATER >= |memory|)
  {
    hide Invariant, Next, Enabled;
    InitHolds(memory, maxMessages);
    RestoredNearEnd(Init(memory, maxMessages), run, maxMessages);
    BoundsOf(Play(Init(memory, maxMessages), run), maxMessages);
  }

  /** How many of the first k messages end near the end of the memory. */
  function NearEnd(q: seq<Message>, k: nat, capacity: nat): nat
    requires k <= |q|
  {
    if k == 0 then 0 else
    NearEnd(q, k - 1, capacity) + if Size(q[..k]) + 24 + 1024 >= capacity then 1 else 0
  }

  lemma {:induction false} NearEndPrefix(q: seq<Message>, m: Message, k: nat, capacity: nat)
    requires k <= |q|
    ensures NearEnd(q + [m], k, capacity) == NearEnd(q, k, capacity)
  {
    hide Size;
    if k > 0 {
      NearEndPrefix(q, m, k - 1, capacity);
      assert (q + [m])[..k] == q[..k];
    }
  }

  predicate RestoredIs(s: State) {
    |s.delivered| <= |s.sent| && s.restored == NearEnd(s.sent, |s.delivered|, |s.bus.mem|)
  }

  lemma RestoredIsKept(s: State, a: Action, maxMessages: nat)
    requires Invariant(s, maxMessages) && Enabled(s, a) && RestoredIs(s)
    ensures RestoredIs(Next(s, a)) && |Next(s, a).bus.mem| == |s.bus.mem|
  {
    hide Layout, Size, Encode, Datas;
    if a.Send? {
      NearEndPrefix(s.sent, a.m, |s.delivered|, |s.bus.mem|);
    }
    if a == Receive {
      FitsWeaken(s.sent, |s.bus.mem|);
      NextUnread(s.bus, s.sent, |s.delivered|);
    }
  }

  lemma {:induction false} RestoredIsReached(s: State, run: seq<Action>, maxMessages: nat)
    requires Invariant(s, maxMessages) && Schedule(s, run) && RestoredIs(s)
    ensures RestoredIs(Play(s, run)) && |Play(s, run).bus.mem| == |s.bus.mem| && Invariant(Play(s, run), maxMessages)
    decreases |run|
  {
    hide Invariant, Next, Enabled, RestoredIs;
    if run != [] {
      StepKeeps(s, run[0], maxMessages);
      RestoredIsKept(s, run[0], maxMessages);
      RestoredIsReached(Next(s, run[0]), run[1..], maxMessages);
    }
  }

  /** The write permits, in every run: one goes with each accepted send, and one comes back with each delivered
      message that ends within a header and 1024 bytes of the end of the memory, with no other. */
  lemma PermitsExactly(memory: seq<byte>, maxMessages: nat, run: seq<Action>)
    requires |memory| < TWO32 && Schedule(Init(memory, maxMessages), run)
    ensures var s := Play(Init(memory, maxMessages), run);
            && |s.delivered| <= |s.sent|
            && s.bus.writeSem + s.writers + |s.sent| == maxMessages + NearEnd(s.sent, |s.delivered|, |memory|)
  {
    hide Next, Enabled, Layout, Size, Datas;
    InitHolds(memory, maxMessages);
    RestoredIsReached(Init(memory, maxMessages), run, maxMessages);
  }

  /** A send is accepted exactly when header and data fit behind the write index, or not even a header does. */
  lemma AcceptedIff(v: Shared, m: Message)
    requires Indices(v) && Fits(m, |v.mem|)
    ensures Accepts(v, m) <==>
              v.writeIndex + 24 + |m.data| <= |v.mem| || v.writeIndex + 24 > |v.mem|
  {}

  /** The bytes of one message: two little-endian words, where it stands and how long it is, and the data from
      byte 24 on. */
  lemma MessageBytes(at: u32, m: Message)
    requires Fits(m, TWO32 - 1)
    ensures var e := Encode(at, m);
            && |e| == 24 + |m.data| && e[24..] == m.data && e[8..24] == m.stamp
            && at == e[0] as int + e[1] as int * 0x100 + e[2] as int * 0x1_0000 + e[3] as int * 0x100_0000
            && |m.data| == e[4] as int + e[5] as int * 0x100 + e[6] as int * 0x1_0000 + e[7] as int * 0x100_0000
  {
    hide Le32, FromLe32;
    Le32Digits(at);
    Le32Digits(|m.data|);
  }

  lemma BoundsOf(s: State, maxMessages: nat)
    requires Invariant(s, maxMessages)
    ensures Size(s.sent) == s.bus.writeIndex <= |s.bus.mem| && |s.sent| <= maxMessages + s.restored
  {}

  predicate NearEndIfRestored(s: State) { s.restored > 0 ==> s.bus.readIndex + HEADER + LOW_WATER >= |s.bus.mem| }

  lemma RestoredStep(s: State, a: Action, maxMessages: nat)
    requires Invariant(s, maxMessages) && Enabled(s, a) && NearEndIfRestored(s)
    ensures NearEndIfRestored(Next(s, a)) && |Next(s, a).bus.mem| == |s.bus.mem|
  {
    hide Layout, Size, Encode, Datas;
    if a == Receive {
      FitsWeaken(s.sent, |s.bus.mem|);
      NextUnread(s.bus, s.sent, |s.delivered|);
    }
  }

  lemma {:induction false} RestoredNearEnd(s: State, run: seq<Action>, maxMessages: nat)
    requires Invariant(s, maxMessages) && Schedule(s, run) && NearEndIfRestored(s)
    ensures NearEndIfRestored(Play(s, run)) && |Play(s, run).bus.mem| == |s.bus.mem|
    ensures Invariant(Play(s, run), maxMessages)
    decreases |run|
  {
    hide Invariant, Next, Enabled, NearEndIfRestored;
    if run != [] {
      StepKeeps(s, run[0], maxMessages);
      RestoredStep(s, run[0], maxMessages);
      RestoredNearEnd(Next(s, run[0]), run[1..], maxMessages);
    }
  }
}
