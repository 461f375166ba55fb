/** What a whole stream of packets delivers: round trips, interrupted sends, and single packets between the
    fragments of another message. */
module SessionRuns {
  import opened Bytes
  import opened WireHeader
  import opened Reassembly
  import opened Fragmentation

  /** What the receiver reads from a packet is what the sender put into it. */
  lemma PacketParses(a: Assembler, mode: u32, message: seq<byte>, k: nat)
    requires Consistent(a) && Sendable(message) && k < PacketCount(|message|)
    ensures Step(a, Packet(mode, message, k)) == Handle(a, HeaderOf(mode, |message|, k), Chunk(message, k))
  {
    var h, payload := HeaderOf(mode, |message|, k), Chunk(message, k);
    ParseEncode(h, payload);
    assert (Encode(h) + payload)[HEADER_LEN..] == payload;
  }

  lemma WholeHandled(a: Assembler, mode: u32, message: seq<byte>)
    requires Consistent(a) && 1 <= |message| <= MAX_PACKET_LEN
    ensures Handle(a, HeaderOf(mode, |message|, 0), Chunk(message, 0)) == Outcome(a, [message])
  {
    assert Chunk(message, 0) == message;
    CopyExtends([], |message|, message);
    assert [] + Zeros(|message|) == Zeros(|message|) && [] + message + Zeros(0) == message;
  }

  lemma SinglePacketDelivers(a: Assembler, mode: u32, message: seq<byte>)
    requires Consistent(a) && 1 <= |message| <= MAX_PACKET_LEN
    ensures Step(a, Packet(mode, message, 0)) == Outcome(a, [message])
  {
    WholeHandled(a, mode, message);
    PacketParses(a, mode, message, 0);
  }

  /** The assembler after the first k packets of a fragmented message. */
  ghost function Partial(message: seq<byte>, k: nat): Assembler
    requires MAX_PACKET_LEN < |message| <= MAX_TOTAL_LEN && 1 <= k < PacketCount(|message|)
  {
    var n := |message|;
    Assembler(true, 0, k - 1, k * CHUNK, n, Some(message[..k * CHUNK] + Zeros(n - k * CHUNK)))
  }

  ghost function AfterFragment(message: seq<byte>, k: nat): Outcome
    requires MAX_PACKET_LEN < |message| <= MAX_TOTAL_LEN && k < PacketCount(|message|)
  {
    if k + 1 < PacketCount(|message|) then Outcome(Partial(message, k + 1), []) else Outcome(IDLE, [message])
  }

  lemma ChunksExtend(message: seq<byte>, k: nat)
    requires MAX_PACKET_LEN < |message| <= MAX_TOTAL_LEN && k < PacketCount(|message|)
    ensures k + 1 < PacketCount(|message|) ==> message[..k * CHUNK] + Chunk(message, k) == message[..(k + 1) * CHUNK]
    ensures k + 1 == PacketCount(|message|) ==> message[..k * CHUNK] + Chunk(message, k) + Zeros(0) == message
  {}

  lemma StartHandled(a: Assembler, mode: u32, message: seq<byte>)
    requires MAX_PACKET_LEN < |message| <= MAX_TOTAL_LEN && Consistent(a)
    ensures Handle(a, HeaderOf(mode, |message|, 0), Chunk(message, 0)) == AfterFragment(message, 0)
  {
    var n := |message|;
    PacketSizes(n);
    ChunksExtend(message, 0);
    CopyExtends([], n, Chunk(message, 0));
    assert [] + Zeros(n) == Zeros(n) && [] + Chunk(message, 0) == Chunk(message, 0);
    assert WellFormed(HeaderOf(mode, n, 0), Chunk(message, 0));
  }

  lemma NextHandled(mode: u32, message: seq<byte>, k: nat)
    requires MAX_PACKET_LEN < |message| <= MAX_TOTAL_LEN && 0 < k < PacketCount(|message|)
    ensures Handle(Partial(message, k), HeaderOf(mode, |message|, k), Chunk(message, k)) == AfterFragment(message, k)
  {
    var n, at := |message|, k * CHUNK;
    PacketSizes(n);
    ChunksExtend(message, k);
    NextAccepted(Partial(message, k), message[..at], HeaderOf(mode, n, k), Chunk(message, k));
  }

  lemma FragmentStep(a: Assembler, mode: u32, message: seq<byte>, k: nat)
    requires MAX_PACKET_LEN < |message| <= MAX_TOTAL_LEN && k < PacketCount(|message|)
    requires Consistent(a)
    requires k > 0 ==> a == Partial(message, k)
    ensures Step(a, Packet(mode, message, k)) == AfterFragment(message, k)
  {
    hide Handle, Partial, HeaderOf, Chunk;
    if k == 0 {
      StartHandled(a, mode, message);
    } else {
      NextHandled(mode, message, k);
    }
    PacketParses(a, mode, message, k);
  }

  lemma {:induction false} FragmentsSoFar(a: Assembler, mode: u32, message: seq<byte>, k: nat)
    requires Consistent(a) && MAX_PACKET_LEN < |message| <= MAX_TOTAL_LEN
    requires 1 <= k <= PacketCount(|message|)
    ensures Run(a, Packets(mode, message), k) ==
            AfterFragment(message, k - 1)
  {
    hide Step, Packet;
    PacketSizes(|message|);
    if k == 1 {
      assert Run(a, Packets(mode, message), 0) == Outcome(a, []);
      FragmentStep(a, mode, message, 0);
    } else {
      FragmentsSoFar(a, mode, message, k - 1);
      FragmentStep(Partial(message, k - 1), mode, message, k - 1);
    }
  }

  /** From any state the receiver can be in, the packets of one message deliver exactly that message. */
  lemma RoundTrip(a: Assembler, mode: u32, message: seq<byte>)
    requires Consistent(a) && Sendable(message)
    ensures Run(a, Packets(mode, message), PacketCount(|message|)) ==
            Outcome(if |message| <= MAX_PACKET_LEN then a else IDLE, [message])
  {
    if |message| <= MAX_PACKET_LEN {
      SinglePacketDelivers(a, mode, message);
      assert Run(a, Packets(mode, message), 0) == Outcome(a, []);
    } else {
      PacketSizes(|message|);
      FragmentsSoFar(a, mode, message, PacketCount(|message|));
    }
  }

  // ---- Streams of several sends ----

  /** One packet on the wire, named by the message it belongs to and its number in that message. */
  datatype Item = Item(message: seq<byte>, k: nat)

  predicate ValidItem(i: Item) { Sendable(i.message) && i.k < PacketCount(|i.message|) }

  predicate Fragment(i: Item) { |i.message| > MAX_PACKET_LEN }

  predicate Final(i: Item) { i.k + 1 == PacketCount(|i.message|) }

  /** The last fragment among the first n items, single-packet messages passed over. */
  function LastFragment(items: seq<Item>, n: nat): Option<Item>
    requires n <= |items|
  {
    if n == 0 then None
    else if Fragment(items[n - 1]) then Some(items[n - 1])
    else LastFragment(items, n - 1)
  }

  /** Fragmented sends follow one another, any of them possibly cut off early, and single-packet
      messages may stand anywhere, also between the fragments of another message. */
  ghost predicate Serial(items: seq<Item>) {
    forall n :: 0 <= n < |items| ==>
      && ValidItem(items[n])
      && (Fragment(items[n]) && items[n].k > 0 ==>
            LastFragment(items, n) == Some(Item(items[n].message, items[n].k - 1)))
  }

  /** The messages whose last packet is among the first n items, in the order of those last packets. */
  function Completed(items: seq<Item>, n: nat): seq<seq<byte>>
    requires n <= |items|
  {
    if n == 0 then [] else
    Completed(items, n - 1) + if Final(items[n - 1]) then [items[n - 1].message] else []
  }

  function Wire(mode: u32, items: seq<Item>): seq<seq<byte>>
    requires forall i :: i in items ==> ValidItem(i)
  {
    seq(|items|, n requires 0 <= n < |items| && ValidItem(items[n]) => Packet(mode, items[n].message, items[n].k))
  }

  /** The receiver's state is decided by the last fragment alone. */
  ghost predicate Explains(a: Assembler, start: Assembler, last: Option<Item>) {
    match last
    case None => a == start
    case Some(i) =>
      ValidItem(i) && Fragment(i) && a == if Final(i) then IDLE else Partial(i.message, i.k + 1)
  }

  lemma ItemStep(a: Assembler, start: Assembler, mode: u32, items: seq<Item>, n: nat)
    requires Consistent(a) && Serial(items) && n < |items|
    requires Explains(a, start, LastFragment(items, n))
    ensures var r := Step(a, Packet(mode, items[n].message, items[n].k));
            && r.delivered == (if Final(items[n]) then [items[n].message] else [])
            && Explains(r.next, start, LastFragment(items, n + 1))
  {
    hide Step, Packet, Partial;
    var i := items[n];
    if Fragment(i) {
      PacketSizes(|i.message|);
      FragmentStep(a, mode, i.message, i.k);
    } else {
      SinglePacketDelivers(a, mode, i.message);
    }
  }

  lemma {:induction false} SerialPrefix(start: Assembler, mode: u32, items: seq<Item>, n: nat)
    requires Consistent(start) && Serial(items) && n <= |items|
    ensures Run(start, Wire(mode, items), n).delivered == Completed(items, n)
    ensures Explains(Run(start, Wire(mode, items), n).next, start, LastFragment(items, n))
  {
    hide Step, Packet;
    if n > 0 {
      hide Explains;
      SerialPrefix(start, mode, items, n - 1);
      ItemStep(Run(start, Wire(mode, items), n - 1).next, start, mode, items, n - 1);
    }
  }

  /** Whatever is cut off and however single packets are interleaved: exactly the completed messages
      arrive, in the order of their last packets. */
  lemma SerialStreamDelivers(start: Assembler, mode: u32, items: seq<Item>)
    requires Consistent(start) && Serial(items)
    ensures Run(start, Wire(mode, items), |items|).delivered == Completed(items, |items|)
  {
    SerialPrefix(start, mode, items, |items|);
  }

  /** One call of the sending loop: how many of the message's packets went out before it stopped. */
  datatype Send = Send(message: seq<byte>, sent: nat)

  predicate ValidSend(s: Send) { Sendable(s.message) && s.sent <= PacketCount(|s.message|) }

  function ItemsOf(message: seq<byte>, sent: nat): (r: seq<Item>)
    ensures |r| == sent
  {
    if sent == 0 then [] else ItemsOf(message, sent - 1) + [Item(message, sent - 1)]
  }

  function Stream(sends: seq<Send>): seq<Item> {
    if sends == [] then [] else
    var last := sends[|sends| - 1];
    Stream(sends[..|sends| - 1]) + ItemsOf(last.message, last.sent)
  }

  function Finished(sends: seq<Send>): seq<seq<byte>> {
    if sends == [] then [] else
    var last := sends[|sends| - 1];
    Finished(sends[..|sends| - 1]) + if last.sent == PacketCount(|last.message|) then [last.message] else []
  }

  lemma {:induction false} PrefixAgrees(xs: seq<Item>, ys: seq<Item>, n: nat)
    requires n <= |xs| && n <= |ys| && xs[..n] == ys[..n]
    ensures LastFragment(xs, n) == LastFragment(ys, n) && Completed(xs, n) == Completed(ys, n)
  {
    if n > 0 {
      assert xs[n - 1] == xs[..n][n - 1] == ys[n - 1];
      assert xs[..n - 1] == xs[..n][..n - 1] == ys[..n - 1];
      PrefixAgrees(xs, ys, n - 1);
    }
  }

  lemma OneMoreItem(items: seq<Item>, message: seq<byte>, sent: nat)
    ensures items + ItemsOf(message, 0) == items
    ensures sent > 0 ==>
              items + ItemsOf(message, sent) == (items + ItemsOf(message, sent - 1)) + [Item(message, sent - 1)]
  {}

  lemma {:induction false} AppendSend(items: seq<Item>, message: seq<byte>, sent: nat)
    requires Serial(items) && ValidSend(Send(message, sent))
    ensures var all := items + ItemsOf(message, sent);
            && Serial(all)
            && (sent > 0 && |message| > MAX_PACKET_LEN ==>
                  LastFragment(all, |all|) == Some(Item(message, sent - 1)))
    ensures var all := items + ItemsOf(message, sent);
            Completed(all, |all|) == Completed(items, |items|)
                 + if sent == PacketCount(|message|) then [message] else []
  {
    assert PacketCount(|message|) > 0;
    OneMoreItem(items, message, sent);
    hide PacketCount, Sendable, Serial, Completed, LastFragment, ItemsOf;
    if sent > 0 {
      AppendSend(items, message, sent - 1);
      AppendItem(items + ItemsOf(message, sent - 1), Item(message, sent - 1));
    }
  }

  lemma AppendItem(before: seq<Item>, i: Item)
    requires Serial(before) && ValidItem(i)
    requires Fragment(i) && i.k > 0 ==> LastFragment(before, |before|) == Some(Item(i.message, i.k - 1))
    ensures var all := before + [i];
            && Serial(all)
            && LastFragment(all, |all|) == (if Fragment(i) then Some(i) else LastFragment(before, |before|))
            && Completed(all, |all|) == Completed(before, |before|) + if Final(i) then [i.message] else []
  {
    hide PacketCount, Sendable;
    var all, n := before + [i], |before| + 1;
    assert all[..n - 1] == before[..n - 1];
    PrefixAgrees(all, before, n - 1);
    forall m | 0 <= m < n - 1
      ensures ValidItem(all[m])
      ensures Fragment(all[m]) && all[m].k > 0 ==>
                LastFragment(all, m) == Some(Item(all[m].message, all[m].k - 1))
    {
      assert all[m] == before[m];
      assert all[..m] == before[..m];
      PrefixAgrees(all, before, m);
    }
  }

  lemma {:induction false} StreamIsSerial(sends: seq<Send>)
    requires forall i :: 0 <= i < |sends| ==> ValidSend(sends[i])
    ensures Serial(Stream(sends)) && Completed(Stream(sends), |Stream(sends)|) == Finished(sends)
  {
    if sends != [] {
      var last := sends[|sends| - 1];
      StreamIsSerial(sends[..|sends| - 1]);
      AppendSend(Stream(sends[..|sends| - 1]), last.message, last.sent);
    }
  }

  /** A list of sends, each stopped after any number of packets, delivers exactly the finished ones in order. */
  lemma InterruptedSendsDeliver(start: Assembler, mode: u32, sends: seq<Send>)
    requires Consistent(start) && forall i :: 0 <= i < |sends| ==> ValidSend(sends[i])
    ensures Serial(Stream(sends))
    ensures Run(start, Wire(mode, Stream(sends)), |Stream(sends)|).delivered == Finished(sends)
  {
    StreamIsSerial(sends);
    SerialStreamDelivers(start, mode, Stream(sends));
  }
}
