/** Streams in which fragmented sends overlap: exactly when everything completed still arrives. Every
    sequence number is 0, so the receiver tells fragments apart by their sub-sequence number alone. */
module OverlappingSends {
  import opened Bytes
  import opened WireHeader
  import opened Reassembly
  import opened Fragmentation
  import opened SessionRuns

  /** The states packets of sending loops lead to: whole chunks in front, zeros behind. */
  ghost predicate Chunked(a: Assembler) {
    || a == IDLE
    || (&& a.isWaiting && a.nowSeq == 0 && a.offset == (a.nowSubSeq + 1) * CHUNK <= a.totalLen
        && MAX_PACKET_LEN < a.totalLen <= MAX_TOTAL_LEN && a.pack.Some? && |a.pack.value| == a.totalLen
        && a.pack.value[a.offset..] == Zeros(a.totalLen - a.offset))
  }

  /** A fragment is added when its number is the next one and the announced length has room for it. */
  ghost predicate Added(a: Assembler, i: Item)
    requires ValidItem(i)
  {
    a.isWaiting && a.nowSubSeq + 1 == i.k && a.offset + |Chunk(i.message, i.k)| <= a.totalLen
  }

  ghost function Filled(a: Assembler, i: Item): seq<byte>
    requires Chunked(a) && ValidItem(i) && Added(a, i)
  {
    var chunk := Chunk(i.message, i.k);
    a.pack.value[..a.offset] + chunk + Zeros(a.totalLen - a.offset - |chunk|)
  }

  /** What one packet of any send does, whichever sends the packets before it belong to. */
  ghost function AfterItem(a: Assembler, i: Item): Outcome
    requires Chunked(a) && ValidItem(i)
  {
    if !Fragment(i) then Outcome(a, [i.message])
    else if i.k == 0 then AfterFragment(i.message, 0)
    else if !Added(a, i) then Outcome(IDLE, [])
    else if Final(i) then Outcome(IDLE, [Filled(a, i)])
    else Outcome(a.(nowSubSeq := i.k, offset := a.offset + CHUNK, pack := Some(Filled(a, i))), [])
  }

  lemma ItemHandled(a: Assembler, mode: u32, i: Item)
    requires Chunked(a) && ValidItem(i)
    ensures Consistent(a) && Step(a, Packet(mode, i.message, i.k)) == AfterItem(a, i)
    ensures Chunked(AfterItem(a, i).next)
  {
    hide Handle, Step, Packet, Partial;
    if !Fragment(i) {
      SinglePacketDelivers(a, mode, i.message);
    } else if i.k == 0 {
      PacketSizes(|i.message|);
      FragmentStep(a, mode, i.message, 0);
      PartialIsChunked(i.message, 1);
    } else {
      PacketParses(a, mode, i.message, i.k);
      FollowingHandled(a, mode, i);
    }
  }

  lemma PartialIsChunked(message: seq<byte>, k: nat)
    requires MAX_PACKET_LEN < |message| <= MAX_TOTAL_LEN && 1 <= k < PacketCount(|message|)
    ensures Chunked(Partial(message, k))
  {
    PacketSizes(|message|);
  }

  lemma FollowingHandled(a: Assembler, mode: u32, i: Item)
    requires Chunked(a) && Consistent(a) && ValidItem(i) && Fragment(i) && i.k > 0
    ensures Handle(a, HeaderOf(mode, |i.message|, i.k), Chunk(i.message, i.k)) == AfterItem(a, i)
    ensures Chunked(AfterItem(a, i).next)
  {
    hide Handle;
    PacketSizes(|i.message|);
    if Added(a, i) {
      FollowingAdded(a, mode, i);
      FilledEnds(a, i);
    } else {
      FollowingRefused(a, mode, i);
    }
  }

  lemma FollowingAdded(a: Assembler, mode: u32, i: Item)
    requires Chunked(a) && Consistent(a) && ValidItem(i) && Fragment(i) && i.k > 0 && Added(a, i)
    ensures Handle(a, HeaderOf(mode, |i.message|, i.k), Chunk(i.message, i.k)) == AfterItem(a, i)
  {
    hide Handle;
    var h, chunk := HeaderOf(mode, |i.message|, i.k), Chunk(i.message, i.k);
    PacketSizes(|i.message|);
    var done := a.pack.value[..a.offset];
    assert a.pack.value == done + Zeros(a.totalLen - |done|);
    NextAccepted(a, done, h, chunk);
  }

  lemma FilledEnds(a: Assembler, i: Item)
    requires Chunked(a) && ValidItem(i) && Added(a, i)
    ensures var n := a.offset + |Chunk(i.message, i.k)|;
            |Filled(a, i)| == a.totalLen && Filled(a, i)[n..] == Zeros(a.totalLen - n)
  {}

  lemma FollowingRefused(a: Assembler, mode: u32, i: Item)
    requires Chunked(a) && Consistent(a) && ValidItem(i) && Fragment(i) && i.k > 0 && !Added(a, i)
    ensures Handle(a, HeaderOf(mode, |i.message|, i.k), Chunk(i.message, i.k)) == Outcome(IDLE, [])
  {
    hide Copy;
    var h, chunk := HeaderOf(mode, |i.message|, i.k), Chunk(i.message, i.k);
    PacketSizes(|i.message|);
    assert WellFormed(h, chunk) && !Continues(a, h);
  }

  /** The last packet of a message delivers it exactly when everything before it is in place. */
  lemma DeliversIffPartial(a: Assembler, i: Item)
    requires Chunked(a) && ValidItem(i) && Fragment(i) && Final(i)
    ensures i.k > 0
    ensures AfterItem(a, i).delivered == [i.message] <==> a == Partial(i.message, i.k)
  {
    var m, at := i.message, i.k * CHUNK;
    PacketSizes(|m|);
    ChunksExtend(m, i.k);
    if a == Partial(m, i.k) {
      assert a.pack.value[..a.offset] == m[..at];
    } else if Added(a, i) {
      assert Filled(a, i)[..a.offset] == a.pack.value[..a.offset];
      assert a.pack.value == a.pack.value[..a.offset] + a.pack.value[a.offset..];
    }
  }

  /** A fragment leaves the first k chunks of a message in place exactly when it brings the last of them. */
  lemma PartialIff(a: Assembler, i: Item, m: seq<byte>, k: nat)
    requires Chunked(a) && ValidItem(i) && Fragment(i)
    requires MAX_PACKET_LEN < |m| <= MAX_TOTAL_LEN && 1 <= k < PacketCount(|m|)
    ensures AfterItem(a, i).next == Partial(m, k) <==>
              && i.k == k - 1 && !Final(i) && Chunk(i.message, k - 1) == Chunk(m, k - 1)
              && if k == 1 then |i.message| == |m| else a == Partial(m, k - 1)
  {
    PacketSizes(|m|);
    PacketSizes(|i.message|);
    ChunksExtend(m, k - 1);
    if i.k == k - 1 && !Final(i) {
      if k == 1 {
        FirstChunk(i.message, m);
      } else if Added(a, i) {
        LaterChunk(a, i, m, k);
      }
    }
  }

  lemma FirstChunk(x: seq<byte>, m: seq<byte>)
    requires MAX_PACKET_LEN < |x| <= MAX_TOTAL_LEN && MAX_PACKET_LEN < |m| <= MAX_TOTAL_LEN
    requires 1 < PacketCount(|x|) && 1 < PacketCount(|m|)
    ensures Partial(x, 1) == Partial(m, 1) <==> Chunk(x, 0) == Chunk(m, 0) && |x| == |m|
  {
    assert Chunk(x, 0) == Partial(x, 1).pack.value[..CHUNK] && Chunk(m, 0) == Partial(m, 1).pack.value[..CHUNK];
  }

  lemma LaterChunk(a: Assembler, i: Item, m: seq<byte>, k: nat)
    requires Chunked(a) && ValidItem(i) && Fragment(i) && !Final(i) && Added(a, i)
    requires MAX_PACKET_LEN < |m| <= MAX_TOTAL_LEN && 1 < k < PacketCount(|m|) && i.k == k - 1
    ensures AfterItem(a, i).next == Partial(m, k)
            <==> Chunk(i.message, k - 1) == Chunk(m, k - 1) && a == Partial(m, k - 1)
  {
    var before, at := (k - 1) * CHUNK, k * CHUNK;
    var pack := Filled(a, i);
    PacketSizes(|m|);
    PacketSizes(|i.message|);
    assert a.pack.value == a.pack.value[..before] + a.pack.value[before..];
    assert pack[..before] == a.pack.value[..before] && pack[before..at] == Chunk(i.message, k - 1);
    assert m[..at] == m[..before] + m[before..at] && Chunk(m, k - 1) == m[before..at];
    if AfterItem(a, i).next == Partial(m, k) {
      assert pack == m[..at] + Zeros(|m| - at);
      assert pack[..before] == m[..before] && pack[before..at] == m[before..at];
    }
  }

  // ---- Whole streams ----

  ghost predicate AllValid(items: seq<Item>) { forall j :: 0 <= j < |items| ==> ValidItem(items[j]) }

  /** The k fragments before position n, single packets passed over: none of them the last of its message,
      they carry the first k chunks of m from the k-th down to the first, and the first announces its length;
      what the receiver started with may stand for the first of them. */
  ghost predicate Matches(start: Assembler, items: seq<Item>, n: nat, m: seq<byte>, k: nat)
    requires AllValid(items) && n <= |items| && Sendable(m) && 1 <= k < PacketCount(|m|)
  {
    if n == 0 then start == Partial(m, k) else
    var i := items[n - 1];
    if !Fragment(i) then Matches(start, items, n - 1, m, k) else
    && i.k == k - 1 && !Final(i) && Chunk(i.message, k - 1) == Chunk(m, k - 1)
    && if k == 1 then |i.message| == |m| else Matches(start, items, n - 1, m, k - 1)
  }

  /** Every message whose last fragment is sent has its other chunks right before it. */
  ghost predicate InPlace(start: Assembler, items: seq<Item>, n: nat)
    requires AllValid(items) && n <= |items|
  {
    forall j :: 0 <= j < n && Fragment(items[j]) && Final(items[j]) ==>
                  items[j].k > 0 && Matches(start, items, j, items[j].message, items[j].k)
  }

  lemma {:induction false} StaysChunked(start: Assembler, mode: u32, items: seq<Item>, n: nat)
    requires Chunked(start) && AllValid(items) && n <= |items|
    ensures Chunked(Run(start, Wire(mode, items), n).next)
  {
    hide Step, Packet, AfterItem, Chunked;
    ChunkedIsConsistent(start);
    if n > 0 {
      StaysChunked(start, mode, items, n - 1);
      ItemHandled(Run(start, Wire(mode, items), n - 1).next, mode, items[n - 1]);
    }
  }

  lemma ChunkedIsConsistent(a: Assembler)
    requires Chunked(a)
    ensures Consistent(a)
  {}

  lemma IdleIsChunked()
    ensures Chunked(IDLE)
  {}

  /** The receiver holds the first k chunks of m exactly when the last k fragments brought them. */
  lemma {:induction false} HoldsIffMatches(
      start: Assembler, mode: u32, items: seq<Item>, n: nat, m: seq<byte>, k: nat)
    requires Chunked(start) && AllValid(items) && n <= |items| && Sendable(m) && 1 <= k < PacketCount(|m|)
    ensures Run(start, Wire(mode, items), n).next == Partial(m, k) <==> Matches(start, items, n, m, k)
  {
    hide Step, Packet, Chunked, Chunk, Partial;
    ChunkedIsConsistent(start);
    if n > 0 {
      var a, i := Run(start, Wire(mode, items), n - 1).next, items[n - 1];
      StaysChunked(start, mode, items, n - 1);
      ItemHandled(a, mode, i);
      if Fragment(i) {
        PartialIff(a, i, m, k);
        if k > 1 {
          HoldsIffMatches(start, mode, items, n - 1, m, k - 1);
        }
      } else {
        HoldsIffMatches(start, mode, items, n - 1, m, k);
      }
    }
  }

  lemma ItemDelivers(a: Assembler, i: Item)
    requires Chunked(a) && ValidItem(i)
    ensures var got, due := AfterItem(a, i).delivered, if Final(i) then [i.message] else [];
            && |got| <= |due|
            && (got == due <==> (Fragment(i) && Final(i) ==> i.k > 0 && a == Partial(i.message, i.k)))
  {
    hide Chunked, Partial, Added, Filled;
    if Fragment(i) && Final(i) {
      DeliversIffPartial(a, i);
    }
  }

  lemma InPlaceStep(start: Assembler, items: seq<Item>, n: nat)
    requires Chunked(start) && AllValid(items) && n < |items|
    ensures InPlace(start, items, n + 1) <==>
              && InPlace(start, items, n)
              && (Fragment(items[n]) && Final(items[n]) ==>
                    items[n].k > 0 && Matches(start, items, n, items[n].message, items[n].k))
  {
    hide Matches;
  }

  lemma {:induction false} DeliveredSoFar(start: Assembler, mode: u32, items: seq<Item>, n: nat)
    requires Chunked(start) && AllValid(items) && n <= |items|
    ensures var got := Run(start, Wire(mode, items), n).delivered;
            && |got| <= |Completed(items, n)|
            && (got == Completed(items, n) <==> InPlace(start, items, n))
  {
    hide Step, Packet, Chunked, Matches, Partial, AfterItem, Sendable, InPlace;
    ChunkedIsConsistent(start);
    if n == 0 {
      assert InPlace(start, items, 0) by { NothingInPlace(start, items); }
    } else {
      InPlaceStep(start, items, n - 1);
      var a, i := Run(start, Wire(mode, items), n - 1).next, items[n - 1];
      DeliveredSoFar(start, mode, items, n - 1);
      StaysChunked(start, mode, items, n - 1);
      ItemHandled(a, mode, i);
      ItemDelivers(a, i);
      if Fragment(i) && Final(i) && i.k > 0 {
        HoldsIffMatches(start, mode, items, n - 1, i.message, i.k);
      }
      LastsAgree(Run(start, Wire(mode, items), n - 1).delivered, Completed(items, n - 1),
                 AfterItem(a, i).delivered, if Final(i) then [i.message] else []);
    }
  }

  lemma NothingInPlace(start: Assembler, items: seq<Item>)
    requires Chunked(start) && AllValid(items)
    ensures InPlace(start, items, 0)
  {}

  lemma LastsAgree<T>(xs: seq<T>, ys: seq<T>, x: seq<T>, y: seq<T>)
    requires |xs| <= |ys| && |x| <= |y|
    ensures xs + x == ys + y <==> xs == ys && x == y
  {
    if xs + x == ys + y {
      assert |xs| == |ys|;
      assert xs == (xs + x)[..|xs|] == (ys + y)[..|ys|] == ys;
      assert x == (xs + x)[|xs|..] == (ys + y)[|ys|..] == y;
    }
  }

  /** Any packets of any sends in any order, to a session in any state that such packets lead to: exactly the
      completed messages arrive, in the order of their last packets, if and only if every last fragment finds
      the other chunks of its message right before it. */
  lemma OverlapDeliversIff(start: Assembler, mode: u32, items: seq<Item>)
    requires Chunked(start) && AllValid(items)
    ensures Run(start, Wire(mode, items), |items|).delivered == Completed(items, |items|)
            <==> InPlace(start, items, |items|)
  {
    DeliveredSoFar(start, mode, items, |items|);
  }

  /** Sends one after the other, with single packets anywhere, are such a stream. */
  lemma SerialIsInPlace(start: Assembler, mode: u32, items: seq<Item>)
    requires Chunked(start) && Serial(items)
    ensures AllValid(items) && InPlace(start, items, |items|)
  {
    ChunkedIsConsistent(start);
    SerialStreamDelivers(start, mode, items);
    OverlapDeliversIff(start, mode, items);
  }

  /** How it fails: two two-packet messages, started one after the other and finished in turn, deliver one
      message, the head of the second and the tail of the first, padded with zeros when the second is
      longer; when it is shorter both are lost. */
  lemma OverlappingSendsMix(mode: u32, m1: seq<byte>, m2: seq<byte>)
    requires MAX_PACKET_LEN < |m1| <= MAX_TOTAL_LEN && MAX_PACKET_LEN < |m2| <= MAX_TOTAL_LEN
    requires PacketCount(|m1|) == PacketCount(|m2|) == 2
    ensures var items := [Item(m1, 0), Item(m2, 0), Item(m1, 1), Item(m2, 1)];
            && AllValid(items) && !InPlace(IDLE, items, 4)
            && Run(IDLE, Wire(mode, items), 4) == Outcome(IDLE,
                 if |m1| <= |m2| then [m2[..CHUNK] + m1[CHUNK..] + Zeros(|m2| - |m1|)] else [])
  {
    hide Step, Packet, Partial, Chunked;
    var items := [Item(m1, 0), Item(m2, 0), Item(m1, 1), Item(m2, 1)];
    var ps := Wire(mode, items);
    IdleIsChunked();
    ItemHandled(IDLE, mode, items[0]);
    ItemHandled(Partial(m1, 1), mode, items[1]);
    ItemHandled(Partial(m2, 1), mode, items[2]);
    ItemHandled(IDLE, mode, items[3]);
    TailOnHead(m1, m2);
    assert Run(IDLE, ps, 0) == Outcome(IDLE, []);
    assert Run(IDLE, ps, 1) == Outcome(Partial(m1, 1), []);
    assert Run(IDLE, ps, 2) == Outcome(Partial(m2, 1), []);
    assert Run(IDLE, ps, 3) == Outcome(IDLE, AfterItem(Partial(m2, 1), items[2]).delivered);
    assert AfterItem(IDLE, items[3]) == Outcome(IDLE, []);
    assert !Matches(IDLE, items, 3, m2, 1);
  }

  lemma TailOnHead(m1: seq<byte>, m2: seq<byte>)
    requires MAX_PACKET_LEN < |m1| <= MAX_TOTAL_LEN && MAX_PACKET_LEN < |m2| <= MAX_TOTAL_LEN
    requires PacketCount(|m1|) == PacketCount(|m2|) == 2
    ensures Chunked(Partial(m2, 1))
    ensures AfterItem(Partial(m2, 1), Item(m1, 1)) == Outcome(IDLE,
              if |m1| <= |m2| then [m2[..CHUNK] + m1[CHUNK..] + Zeros(|m2| - |m1|)] else [])
  {
    PartialIsChunked(m2, 1);
    var a, i := Partial(m2, 1), Item(m1, 1);
    PacketSizes(|m1|);
    PacketSizes(|m2|);
    assert a.pack.value[..CHUNK] == m2[..CHUNK];
    assert Chunk(m1, 1) == m1[CHUNK..];
  }
}
