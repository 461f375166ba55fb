/** Length-prefixed messages over TCP: what the receiver makes of any byte stream. */
module TcpFraming {
  import opened Bytes

  /** static_cast<int> of a 32-bit size. */
  function AsInt(n: nat): int { if n % TWO32 < 0x8000_0000 then n % TWO32 else n % TWO32 - TWO32 }

  predicate Sized(m: seq<byte>) { |m| < 0x8000_0000 }

  /** What SendData puts on the wire: the size in host order, then as many bytes as its int says. */
  function Frame(m: seq<byte>): seq<byte> {
    Le32(|m| % TWO32) + if AsInt(|m|) > 0 then m[..AsInt(|m|)] else []
  }

  function Frames(ms: seq<seq<byte>>): seq<byte> {
    if ms == [] then [] else Frame(ms[0]) + Frames(ms[1..])
  }

  /** One ReceiveData: whether it went on, the data given to the callback, what is left in the stream. */
  datatype One = One(ok: bool, data: seq<byte>, rest: seq<byte>)

  /** The first recv, for the four length bytes, returned got of them; the others stay zero. */
  function ReceiveOne(s: seq<byte>, got: nat): One
    requires got <= 4 && got <= |s|
  {
    if got == 0 then One(false, [], s) else
    var n := FromLe32(s[..got] + Zeros(4 - got));
    if AsInt(n) <= 0 then One(true, Zeros(n), s[got..])
    else if |s| - got < n then One(false, [], [])
    else One(true, s[got..got + n], s[got + n..])
  }

  /** All that is delivered from a stream when each length is read in one go as far as it is there. */
  function Deliver(s: seq<byte>): seq<seq<byte>>
    decreases |s|
  {
    if s == [] then [] else
    var r := ReceiveOne(s, Min(4, |s|));
    if r.ok then [r.data] + Deliver(r.rest) else []
  }

  lemma FrameReceived(m: seq<byte>, rest: seq<byte>)
    requires Sized(m)
    ensures Frame(m) == Le32(|m|) + m && ReceiveOne(Frame(m) + rest, 4) == One(true, m, rest)
  {
    hide Le32, FromLe32;
    var s := Frame(m) + rest;
    assert m[..|m|] == m;
    assert s[..4] + Zeros(0) == Le32(|m|);
    Le32RoundTrip(|m|);
    assert s[4..4 + |m|] == m && s[4 + |m|..] == rest;
  }

  /** A frame byte by byte: the size, least significant byte first, then the data; from 2 GiB on the size alone,
      reduced to 32 bits, wherever it reads as a negative int. */
  lemma FrameBytes(m: seq<byte>)
    ensures var f, n := Frame(m), |m| % 0x1_0000_0000;
            && |f| >= 4
            && n == f[0] as int + f[1] as int * 0x100 + f[2] as int * 0x1_0000 + f[3] as int * 0x100_0000
            && f[4..] == if n < 0x8000_0000 then m[..n] else []
  {
    hide Le32;
    Le32Digits(|m| % TWO32);
  }

  /** A whole length read: up to 2 GiB that many bytes follow, or the stream ends; a longer one reads as negative
      and gives that many zeros without reading on. */
  lemma LengthDecides(s: seq<byte>)
    requires |s| >= 4
    ensures var n := s[0] as int + s[1] as int * 0x100 + s[2] as int * 0x1_0000 + s[3] as int * 0x100_0000;
            ReceiveOne(s, 4) ==
              if n == 0 || n >= 0x8000_0000 then One(true, Zeros(n), s[4..])
              else if |s| - 4 < n then One(false, [], []) else One(true, s[4..4 + n], s[4 + n..])
  {
    assert s[..4] + Zeros(0) == s[..4];
  }

  /** Whatever is sent is delivered, message by message. */
  lemma {:induction false} FramesDeliver(ms: seq<seq<byte>>)
    requires forall i :: 0 <= i < |ms| ==> Sized(ms[i])
    ensures Deliver(Frames(ms)) == ms
  {
    hide ReceiveOne, Frame;
    if ms != [] {
      FrameReceived(ms[0], Frames(ms[1..]));
      FramesDeliver(ms[1..]);
    }
  }

  /** A receiver stays in step exactly when the length arrives whole: with fewer length bytes it stops
      short of the end of the frame, whatever it delivers. */
  lemma InStepIffLengthWhole(m: seq<byte>, rest: seq<byte>, got: nat)
    requires Sized(m) && 1 <= got <= 4
    ensures var r := ReceiveOne(Frame(m) + rest, got);
            r.ok && r.rest == rest <==> got == 4
  {
    FrameReceived(m, rest);
    if got < 4 {
      var s := Frame(m) + rest;
      LowBytes(|m|, got);
      assert s[..got] + Zeros(4 - got) == Le32(|m|)[..got] + Zeros(4 - got);
    }
  }

  function Power(got: nat): (p: nat)
    ensures p >= 1
  {
    if got == 0 then 1 else 0x100 * Power(got - 1)
  }

  /** The length read from the first few bytes is the remainder of the length. */
  lemma LowBytes(n: u32, got: nat)
    requires got <= 4
    ensures FromLe32(Le32(n)[..got] + Zeros(4 - got)) == n % Power(got) <= n
  {
    PowersOf256();
    LowTwoAndThree(n);
    Le32RoundTrip(n);
    assert Le32(n)[..4] == Le32(n);
    assert Le32(n)[..got] + Zeros(4 - got) == LowFirst(n, got);
  }

  function LowFirst(n: u32, got: nat): seq<byte> {
    [if got > 0 then n % 0x100 else 0, if got > 1 then n / 0x100 % 0x100 else 0,
     if got > 2 then n / 0x1_0000 % 0x100 else 0, if got > 3 then n / 0x100_0000 else 0]
  }

  lemma PowersOf256()
    ensures Power(0) == 1 && Power(1) == 0x100 && Power(2) == 0x1_0000 && Power(3) == 0x100_0000 && Power(4) == TWO32
  {}

  lemma LowTwoAndThree(n: u32)
    ensures n % 0x1_0000 == n / 0x100 % 0x100 * 0x100 + n % 0x100
    ensures n % 0x100_0000 == n / 0x1_0000 % 0x100 * 0x1_0000 + n % 0x1_0000
  {}

  /** What a stream cut after some bytes delivers, told from the messages: those that are complete, and an
      empty one more when the cut leaves only zero bytes of a length. */
  function Cut(ms: seq<seq<byte>>, bytes: nat): seq<seq<byte>> {
    if ms == [] || bytes == 0 then []
    else if bytes >= 4 + |ms[0]| then [ms[0]] + Cut(ms[1..], bytes - 4 - |ms[0]|)
    else if bytes < 4 && |ms[0]| % Power(bytes) == 0 then [[]]
    else []
  }

  lemma {:induction false} CutDelivers(ms: seq<seq<byte>>, bytes: nat)
    requires (forall i :: 0 <= i < |ms| ==> Sized(ms[i])) && bytes <= |Frames(ms)|
    ensures Deliver(Frames(ms)[..bytes]) == Cut(ms, bytes)
  {
    hide ReceiveOne, Frame, Le32, FromLe32, Power;
    if ms != [] && bytes > 0 {
      var m, all := ms[0], Frames(ms);
      FrameReceived(m, []);
      var len := 4 + |m|;
      if bytes >= len {
        var rest := Frames(ms[1..])[..bytes - len];
        assert all[..bytes] == Frame(m) + rest;
        FrameReceived(m, rest);
        CutDelivers(ms[1..], bytes - len);
      } else {
        assert all[..bytes] == (Le32(|m|) + m)[..bytes];
        CutInside(m, bytes);
      }
    }
  }

  lemma CutInside(m: seq<byte>, bytes: nat)
    requires Sized(m) && 0 < bytes < 4 + |m|
    ensures Deliver((Le32(|m|) + m)[..bytes]) == if bytes < 4 && |m| % Power(bytes) == 0 then [[]] else []
  {
    hide Le32, FromLe32, Power, Deliver;
    var s, got := (Le32(|m|) + m)[..bytes], Min(4, bytes);
    LowBytes(|m|, got);
    DeliverSplits(s);
    DeliverSplits([]);
    assert s[..got] == Le32(|m|)[..got];
    if got == 4 {
      assert Le32(|m|)[..4] + Zeros(0) == Le32(|m|);
      Le32RoundTrip(|m|);
    } else {
      assert s[got..] == [];
    }
  }

  /** The cut is in the length of a message that is not empty, and the bytes read of it are zero. */
  predicate StrayLength(ms: seq<seq<byte>>, bytes: nat) {
    if ms == [] || bytes == 0 then false
    else if bytes >= 4 + |ms[0]| then StrayLength(ms[1..], bytes - 4 - |ms[0]|)
    else bytes < 4 && |ms[0]| > 0 && |ms[0]| % Power(bytes) == 0
  }

  /** A cut stream delivers a prefix of what was sent exactly when it is not cut in such a length. */
  lemma {:induction false} CutIsPrefixUnlessStray(ms: seq<seq<byte>>, bytes: nat)
    requires (forall i :: 0 <= i < |ms| ==> Sized(ms[i])) && bytes <= |Frames(ms)|
    ensures Deliver(Frames(ms)[..bytes]) <= ms <==> !StrayLength(ms, bytes)
  {
    CutDelivers(ms, bytes);
    CutPrefix(ms, bytes);
  }

  lemma {:induction false} CutPrefix(ms: seq<seq<byte>>, bytes: nat)
    ensures Cut(ms, bytes) <= ms <==> !StrayLength(ms, bytes)
  {
    hide Power;
    if ms != [] && bytes >= 4 + |ms[0]| {
      var rest := bytes - 4 - |ms[0]|;
      CutPrefix(ms[1..], rest);
      assert Cut(ms, bytes) == [ms[0]] + Cut(ms[1..], rest) && ms == [ms[0]] + ms[1..];
      assert Cut(ms, bytes)[1..] == Cut(ms[1..], rest);
    }
  }

  // ---- The socket loops ----

  class Sender {
    var connected: bool
    /** The bytes the network has taken. */
    var wire: seq<byte>

    constructor ()
      ensures !connected && wire == []
    {
      connected, wire := false, [];
    }

    /** send: an error, or at least one of the bytes it is given. */
    method Send(bytes: seq<byte>) returns (sent: int)
      requires bytes != []
      modifies this`wire
      ensures sent == -1 || 1 <= sent <= |bytes|
      ensures wire == old(wire) + if sent == -1 then [] else bytes[..sent]
    {
      if * {
        return -1;
      }
      sent :| 1 <= sent <= |bytes|;
      wire := wire + bytes[..sent];
    }

    method SendDataInternal(data: seq<byte>, size: int) returns (ret: int)
      requires size <= |data|
      modifies this`wire
      ensures ret == 0 || ret == -1
      ensures ret == 0 ==> wire == old(wire) + if size > 0 then data[..size] else []
      ensures ret == -1 ==> exists k: nat :: k < size && wire == old(wire) + data[..k]
    {
      var totalSent := 0;
      while totalSent < size
        invariant 0 <= totalSent && (totalSent <= size || totalSent == 0)
        invariant wire == old(wire) + data[..totalSent]
        decreases size - totalSent
      {
        var sent := Send(data[totalSent..size]);
        if sent == -1 {
          return -1;
        }
        assert data[..totalSent + sent] == data[..totalSent] + data[totalSent..size][..sent];
        totalSent := totalSent + sent;
      }
      ret := 0;
    }

    /** However send splits them up, a success puts exactly the frame on the wire, and a failure a proper
        prefix of it. */
    method SendData(data: seq<byte>) returns (ret: int)
      modifies this`wire
      ensures connected ==> ret == 0 || ret == -1
      ensures !connected ==> ret == -1 && wire == old(wire)
      ensures ret == 0 ==> wire == old(wire) + Frame(data)
      ensures ret == -1 && connected ==> exists k: nat :: k < |Frame(data)| && wire == old(wire) + Frame(data)[..k]
    {
      hide Le32;
      if !connected {
        return -1;
      }
      var dataLen := Le32(|data| % TWO32);
      assert dataLen[..4] == dataLen;
      ret := SendDataInternal(dataLen, 4);
      if ret < 0 {
        ghost var k: nat :| k < 4 && wire == old(wire) + dataLen[..k];
        assert Frame(data)[..k] == dataLen[..k];
        return;
      }
      ghost var between := wire;
      ret := SendDataInternal(data, AsInt(|data|));
      if ret < 0 {
        ghost var k: nat :| k < AsInt(|data|) && wire == between + data[..k];
        assert Frame(data)[..4 + k] == dataLen + data[..k];
        assert wire == old(wire) + Frame(data)[..4 + k];
      }
    }
  }

  class Receiver {
    /** The bytes still to come before the peer closes or the connection breaks. */
    var incoming: seq<byte>
    /** What the callback was given. */
    var delivered: seq<seq<byte>>

    constructor (stream: seq<byte>)
      ensures incoming == stream && delivered == []
    {
      incoming, delivered := stream, [];
    }

    /** recv: some of the bytes there are, none only at the end. */
    method Recv(max: nat) returns (bytes: seq<byte>)
      requires max > 0
      modifies this`incoming
      ensures old(incoming) == bytes + incoming && |bytes| <= max
      ensures bytes == [] ==> incoming == []
    {
      if incoming == [] {
        return [];
      }
      var n: nat :| 1 <= n && n <= max && n <= |incoming|;
      bytes, incoming := incoming[..n], incoming[n..];
    }

    /** The payload loop: it stops early only when the stream has ended. */
    method ReceivePayload(dataLen: u32) returns (ok: bool, data: seq<byte>)
      modifies this`incoming
      ensures AsInt(dataLen) <= 0 ==> ok && data == Zeros(dataLen) && incoming == old(incoming)
      ensures AsInt(dataLen) > 0 ==> (ok <==> dataLen <= |old(incoming)|)
      ensures AsInt(dataLen) > 0 && ok ==> |data| == dataLen && old(incoming) == data + incoming
      ensures !ok ==> incoming == []
    {
      data := Zeros(dataLen);
      var totalReceived := 0;
      while totalReceived < AsInt(dataLen)
        invariant 0 <= totalReceived && (totalReceived <= AsInt(dataLen) || totalReceived == 0)
        invariant |data| == dataLen && old(incoming) == data[..totalReceived] + incoming
        invariant totalReceived == 0 ==> data == Zeros(dataLen)
        decreases AsInt(dataLen) - totalReceived
      {
        var bytes := Recv(dataLen - totalReceived);
        if bytes == [] {
          return false, data;
        }
        var next := totalReceived + |bytes|;
        data := data[..totalReceived] + bytes + data[next..];
        assert data[..next] == data[..totalReceived] + bytes;
        totalReceived := next;
      }
      assert totalReceived == |data| ==> data[..totalReceived] == data;
      ok := true;
    }

    /** One message, or the end; the first recv, for the length, may return fewer than four bytes: got of them. */
    method ReceiveData() returns (ret: int, got: nat)
      modifies this
      ensures got <= 4 && got <= |old(incoming)| && (got == 0 ==> old(incoming) == [])
      ensures var r := ReceiveOne(old(incoming), got);
              && incoming == r.rest && ret == (if r.ok then 0 else -1)
              && delivered == old(delivered) + if r.ok then [r.data] else []
    {
      hide FromLe32;
      ghost var all := incoming;
      var head := Recv(4);
      got := |head|;
      assert all[..got] == head && all[got..] == incoming;
      if |head| <= 0 {
        return -1, got;
      }
      var dataLen := FromLe32(head + Zeros(4 - |head|));
      var ok, data := ReceivePayload(dataLen);
      if !ok {
        return -1, got;
      }
      assert AsInt(dataLen) > 0 ==> all == head + data + incoming;
      assert AsInt(dataLen) > 0 ==> all[|head|..|head| + dataLen] == data && all[|head| + dataLen..] == incoming;
      delivered := delivered + [data];
      ret := 0;
    }

    /** ReceiveThreadProc until the stream ends: what it delivers is decided by the sizes of the first reads. */
    method ReceiveThreadProc() returns (gots: seq<nat>)
      modifies this
      ensures Reads(old(incoming), gots) && delivered == old(delivered) + DeliverBy(old(incoming), gots)
      ensures AllWhole(old(incoming), gots) ==> delivered == old(delivered) + Deliver(old(incoming))
    {
      hide ReceiveOne, Reads, DeliverBy, AllWhole, Deliver;
      gots := [];
      ghost var start, done := incoming, [];
      var ret, got := 0, 0;
      while ret == 0
        invariant ret == 0 || ret == -1
        invariant delivered == old(delivered) + done
        invariant if ret == 0 then ReadsTo(start, gots, incoming, done)
                  else Reads(start, gots) && DeliverBy(start, gots) == done
        decreases ret == 0, |incoming|
      {
        ghost var before := incoming;
        ret, got := ReceiveData();
        OneMoreRead(start, gots, before, done, got);
        gots := gots + [got];
        done := done + if ret == 0 then [ReceiveOne(before, got).data] else [];
      }
      if AllWhole(start, gots) {
        WholeIsDeliver(start, gots);
      }
    }
  }

  /** A list of messages, one send after the other until one fails: so many bytes of its frames are on the wire. */
  method SendAll(sender: Sender, ms: seq<seq<byte>>) returns (sent: bool, bytes: nat)
    requires sender.connected && sender.wire == []
    modifies sender`wire
    ensures bytes <= |Frames(ms)| && sender.wire == Frames(ms)[..bytes]
    ensures sent <==> bytes == |Frames(ms)|
  {
    hide Frame;
    sent, bytes := true, 0;
    for i := 0 to |ms|
      invariant sent && bytes == |Frames(ms[..i])| && sender.wire == Frames(ms[..i])
    {
      FramesSplit(ms, i);
      ghost var before := sender.wire;
      var ret := sender.SendData(ms[i]);
      if ret != 0 {
        ghost var k: nat :| k < |Frame(ms[i])| && sender.wire == before + Frame(ms[i])[..k];
        return false, |sender.wire|;
      }
      bytes := |sender.wire|;
    }
    assert ms[..|ms|] == ms;
  }

  // ---- Sending on after a failure ----

  /** What is on the wire when of each frame only so many bytes went out. */
  function Pieces(ms: seq<seq<byte>>, ks: seq<nat>): seq<byte>
    requires |ks| == |ms| && forall i :: 0 <= i < |ms| ==> ks[i] <= |Frame(ms[i])|
  {
    if ms == [] then [] else Pieces(ms[..|ms| - 1], ks[..|ms| - 1]) + Frame(ms[|ms| - 1])[..ks[|ms| - 1]]
  }

  /** The sender stays connected after a failed send: a caller may go on, and whole frames and proper prefixes
      follow one another. */
  method SendEvery(sender: Sender, ms: seq<seq<byte>>) returns (rets: seq<int>, ks: seq<nat>)
    requires sender.connected && sender.wire == []
    modifies sender`wire
    ensures |rets| == |ks| == |ms|
    ensures forall i :: 0 <= i < |ms| ==> ks[i] <= |Frame(ms[i])| && (rets[i] == 0 <==> ks[i] == |Frame(ms[i])|)
    ensures sender.wire == Pieces(ms, ks)
  {
    hide Frame, Pieces;
    rets, ks := [], [];
    NoPieces();
    for i := 0 to |ms|
      invariant |rets| == |ks| == i
      invariant forall j :: 0 <= j < i ==> ks[j] <= |Frame(ms[j])| && (rets[j] == 0 <==> ks[j] == |Frame(ms[j])|)
      invariant sender.wire == Pieces(ms[..i], ks)
    {
      ghost var before := sender.wire;
      var size := |sender.wire|;
      var ret := sender.SendData(ms[i]);
      ghost var k: nat := |Frame(ms[i])|;
      if ret == 0 {
        assert Frame(ms[i])[..k] == Frame(ms[i]);
      } else {
        k :| k < |Frame(ms[i])| && sender.wire == before + Frame(ms[i])[..k];
      }
      OnePiece(ms, ks, k);
      rets, ks := rets + [ret], ks + [|sender.wire| - size];
    }
    assert ms[..|ms|] == ms;
  }

  lemma NoPieces()
    ensures Pieces([], []) == []
  {}

  lemma OnePiece(ms: seq<seq<byte>>, ks: seq<nat>, k: nat)
    requires |ks| < |ms| && k <= |Frame(ms[|ks|])|
    requires forall j :: 0 <= j < |ks| ==> ks[j] <= |Frame(ms[j])|
    ensures Pieces(ms[..|ks| + 1], ks + [k]) == Pieces(ms[..|ks|], ks) + Frame(ms[|ks|])[..k]
  {
    hide Frame;
    var n := |ks|;
    assert ms[..n + 1][..n] == ms[..n] && (ks + [k])[..n] == ks;
  }

  /** The messages whose send succeeded. */
  function Succeeded(ms: seq<seq<byte>>, ks: seq<nat>): seq<seq<byte>>
    requires |ks| == |ms|
  {
    if ms == [] then [] else
    var last := ms[|ms| - 1];
    Succeeded(ms[..|ms| - 1], ks[..|ms| - 1]) + if ks[|ms| - 1] == |Frame(last)| then [last] else []
  }

  /** As long as no failed send has put a byte on the wire, exactly the messages sent successfully arrive. */
  lemma NothingCutArrives(ms: seq<seq<byte>>, ks: seq<nat>)
    requires |ks| == |ms| && forall i :: 0 <= i < |ms| ==> Sized(ms[i]) && (ks[i] == 0 || ks[i] == |Frame(ms[i])|)
    ensures Deliver(Pieces(ms, ks)) == Succeeded(ms, ks)
  {
    hide Frame, Deliver;
    PiecesAreFrames(ms, ks);
    FramesDeliver(Succeeded(ms, ks));
  }

  lemma {:induction false} PiecesAreFrames(ms: seq<seq<byte>>, ks: seq<nat>)
    requires |ks| == |ms| && forall i :: 0 <= i < |ms| ==> Sized(ms[i]) && (ks[i] == 0 || ks[i] == |Frame(ms[i])|)
    ensures Pieces(ms, ks) == Frames(Succeeded(ms, ks))
    ensures forall i :: 0 <= i < |Succeeded(ms, ks)| ==> Sized(Succeeded(ms, ks)[i])
  {
    hide Frame, Frames;
    if ms == [] {
      FirstFrame([], []);
    } else {
      var n := |ms| - 1;
      PiecesAreFrames(ms[..n], ks[..n]);
      FrameSize(ms[n]);
      if ks[n] != 0 {
        LastFrame(Succeeded(ms[..n], ks[..n]), ms[n]);
        assert Frame(ms[n])[..ks[n]] == Frame(ms[n]);
      } else {
        assert Pieces(ms, ks) == Pieces(ms[..n], ks[..n]) && Succeeded(ms, ks) == Succeeded(ms[..n], ks[..n]);
      }
    }
  }

  lemma LastFrame(ms: seq<seq<byte>>, m: seq<byte>)
    ensures Frames(ms + [m]) == Frames(ms) + Frame(m)
  {
    hide Frame, Frames;
    FramesSplit(ms + [m], |ms|);
    assert (ms + [m])[..|ms|] == ms && (ms + [m])[..|ms| + 1] == ms + [m];
  }

  /** Messages sent whole arrive, and what follows them is read on its own. */
  lemma {:induction false} WholeThenRest(ms: seq<seq<byte>>, rest: seq<byte>)
    requires forall i :: 0 <= i < |ms| ==> Sized(ms[i])
    ensures Deliver(Frames(ms) + rest) == ms + Deliver(rest)
  {
    hide ReceiveOne, Frame, Deliver, Frames;
    if ms == [] {
      FirstFrame(ms, rest);
    } else {
      var more := Frames(ms[1..]) + rest;
      FirstFrame(ms, rest);
      FrameReceived(ms[0], more);
      DeliverSplits(Frame(ms[0]) + more);
      WholeThenRest(ms[1..], rest);
    }
  }

  lemma FirstFrame(ms: seq<seq<byte>>, rest: seq<byte>)
    ensures Frames(ms) + rest == if ms == [] then rest else Frame(ms[0]) + (Frames(ms[1..]) + rest)
  {
    hide Frame;
  }

  /** What a send that failed after k bytes does to what follows: nothing if no byte went out; cut in the
      payload, as many of the following bytes as are missing are taken for it; cut in the length, its missing
      bytes are taken from there. */
  lemma AfterFailedSend(m: seq<byte>, k: nat, rest: seq<byte>)
    requires Sized(m) && k < |Frame(m)|
    ensures |Frame(m)| == 4 + |m|
    ensures k == 0 ==> Deliver(Frame(m)[..k] + rest) == Deliver(rest)
    ensures k >= 4 ==>
              var missing := 4 + |m| - k;
              Deliver(Frame(m)[..k] + rest) ==
                if |rest| < missing then [] else [m[..k - 4] + rest[..missing]] + Deliver(rest[missing..])
    ensures 0 < k < 4 && k + |rest| >= 4 ==>
              var n, more := FromLe32(Le32(|m|)[..k] + rest[..4 - k]), rest[4 - k..];
              Deliver(Frame(m)[..k] + rest) ==
                if AsInt(n) <= 0 then [Zeros(n)] + Deliver(more)
                else if |more| < n then [] else [more[..n]] + Deliver(more[n..])
  {
    hide Le32, FromLe32, Deliver;
    FrameReceived(m, []);
    var s := Frame(m)[..k] + rest;
    if k == 0 {
      assert s == rest;
    } else if k >= 4 {
      CutInPayload(m, k, rest);
    } else if k + |rest| >= 4 {
      assert s == Le32(|m|)[..k] + rest;
      CutInLength(Le32(|m|)[..k], rest);
    }
  }

  lemma CutInLength(part: seq<byte>, rest: seq<byte>)
    requires |part| < 4 <= |part| + |rest|
    ensures var n, more := FromLe32(part + rest[..4 - |part|]), rest[4 - |part|..];
            Deliver(part + rest) ==
              if AsInt(n) <= 0 then [Zeros(n)] + Deliver(more)
              else if |more| < n then [] else [more[..n]] + Deliver(more[n..])
  {
    hide FromLe32, Deliver;
    var s, more := part + rest, rest[4 - |part|..];
    assert s[..4] + Zeros(0) == part + rest[..4 - |part|] && s[4..] == more;
    DeliverSplits(s);
    assert forall n: nat :: n <= |more| ==> s[4..4 + n] == more[..n] && s[4 + n..] == more[n..];
  }

  lemma CutInPayload(m: seq<byte>, k: nat, rest: seq<byte>)
    requires Sized(m) && 4 <= k < 4 + |m|
    ensures var s, missing := (Le32(|m|) + m)[..k] + rest, 4 + |m| - k;
            Deliver(s) == if |rest| < missing then [] else [m[..k - 4] + rest[..missing]] + Deliver(rest[missing..])
  {
    hide Le32, FromLe32, Deliver;
    var s, missing := (Le32(|m|) + m)[..k] + rest, 4 + |m| - k;
    assert s[..4] + Zeros(0) == Le32(|m|);
    Le32RoundTrip(|m|);
    DeliverSplits(s);
    if |rest| >= missing {
      assert s[4..4 + |m|] == m[..k - 4] + rest[..missing] && s[4 + |m|..] == rest[missing..];
    }
  }

  /** From one end to the other, however send and recv split the bytes: when every send succeeded the list
      arrives exactly if every length is read in one go; otherwise, so read, what its cut stream delivers. */
  method Transfer(ms: seq<seq<byte>>)
    returns (sent: bool, delivered: seq<seq<byte>>, gots: seq<nat>, bytes: nat)
    requires forall i :: 0 <= i < |ms| ==> Sized(ms[i])
    ensures bytes <= |Frames(ms)| && (sent <==> bytes == |Frames(ms)|)
    ensures Reads(Frames(ms)[..bytes], gots) && delivered == DeliverBy(Frames(ms)[..bytes], gots)
    ensures AllWhole(Frames(ms)[..bytes], gots) ==> delivered == if sent then ms else Cut(ms, bytes)
    ensures sent ==> (delivered == ms <==> AllWhole(Frames(ms)[..bytes], gots))
  {
    hide Frame, Reads, DeliverBy, AllWhole, Cut, Deliver;
    var sender := new Sender();
    sender.connected := true;
    sent, bytes := SendAll(sender, ms);
    var receiver := new Receiver(sender.wire);
    gots := receiver.ReceiveThreadProc();
    delivered := receiver.delivered;
    CutDelivers(ms, bytes);
    FramesDeliver(ms);
    if sent {
      assert Frames(ms)[..bytes] == Frames(ms);
      ArrivesIffWhole(ms, gots);
    }
  }

  /** The stream up to frame i, frame i, and the rest. */
  lemma {:induction false} FramesSplit(ms: seq<seq<byte>>, i: nat)
    requires i < |ms|
    ensures Frames(ms[..i + 1]) == Frames(ms[..i]) + Frame(ms[i])
    ensures Frames(ms) == Frames(ms[..i]) + Frame(ms[i]) + Frames(ms[i + 1..])
  {
    hide Frame;
    if i > 0 {
      FramesSplit(ms[1..], i - 1);
      assert ms[..i + 1][1..] == ms[1..][..i] && ms[..i][1..] == ms[1..][..i - 1] && ms[1..][i..] == ms[i + 1..];
    } else {
      assert ms[..1] == [ms[0]] && ms[..1][1..] == [];
    }
  }

  // ---- First reads of any size ----

  /** The sizes of the first reads of a whole stream, down to the read that ends it. */
  predicate Reads(s: seq<byte>, gots: seq<nat>)
    decreases |gots|
  {
    && gots != [] && ReadSize(s, gots[0])
    && if ReceiveOne(s, gots[0]).ok then Reads(ReceiveOne(s, gots[0]).rest, gots[1..]) else |gots| == 1
  }

  function DeliverBy(s: seq<byte>, gots: seq<nat>): seq<seq<byte>>
    requires Reads(s, gots)
    decreases |gots|
  {
    var r := ReceiveOne(s, gots[0]);
    if r.ok then [r.data] + DeliverBy(r.rest, gots[1..]) else []
  }

  predicate AllWhole(s: seq<byte>, gots: seq<nat>)
    requires Reads(s, gots)
    decreases |gots|
  {
    gots[0] == Min(4, |s|) && (ReceiveOne(s, gots[0]).ok ==> AllWhole(ReceiveOne(s, gots[0]).rest, gots[1..]))
  }

  predicate ReadSize(s: seq<byte>, got: nat) { got <= 4 && got <= |s| && (got == 0 ==> s == []) }

  /** The first reads so far: what they delivered, and what is left of the stream. */
  predicate ReadsTo(s: seq<byte>, gots: seq<nat>, rest: seq<byte>, done: seq<seq<byte>>)
    decreases |gots|
  {
    if gots == [] then rest == s && done == [] else
    ReadSize(s, gots[0]) &&
    var r := ReceiveOne(s, gots[0]);
    r.ok && done != [] && done[0] == r.data && ReadsTo(r.rest, gots[1..], rest, done[1..])
  }

  lemma {:induction false} OneMoreRead(s: seq<byte>, gots: seq<nat>, rest: seq<byte>, done: seq<seq<byte>>, got: nat)
    requires ReadsTo(s, gots, rest, done) && ReadSize(rest, got)
    ensures var r := ReceiveOne(rest, got);
            if r.ok then |r.rest| < |rest| && ReadsTo(s, gots + [got], r.rest, done + [r.data])
            else Reads(s, gots + [got]) && DeliverBy(s, gots + [got]) == done
    decreases |gots|
  {
    hide ReceiveOne;
    if gots == [] {
      assert gots + [got] == [got] && [got][1..] == [];
      if ReceiveOne(s, got).ok {
        ReadTakes(s, got);
      }
    } else {
      OneMoreRead(ReceiveOne(s, gots[0]).rest, gots[1..], rest, done[1..], got);
      assert (gots + [got])[1..] == gots[1..] + [got];
      assert ReceiveOne(rest, got).ok ==>
          (done + [ReceiveOne(rest, got).data])[1..] == done[1..] + [ReceiveOne(rest, got).data];
    }
  }

  lemma ReadTakes(s: seq<byte>, got: nat)
    requires ReadSize(s, got) && ReceiveOne(s, got).ok
    ensures |ReceiveOne(s, got).rest| < |s|
  {}

  lemma {:induction false} WholeIsDeliver(s: seq<byte>, gots: seq<nat>)
    requires Reads(s, gots) && AllWhole(s, gots)
    ensures DeliverBy(s, gots) == Deliver(s)
    decreases |gots|
  {
    hide ReceiveOne;
    DeliverSplits(s);
    if ReceiveOne(s, gots[0]).ok {
      WholeIsDeliver(ReceiveOne(s, gots[0]).rest, gots[1..]);
    }
  }

  // ---- Exactly when the list arrives ----

  lemma Le32Onto(b: seq<byte>)
    requires |b| == 4
    ensures Le32(FromLe32(b)) == b
  {
    var x := FromLe32(b);
    assert x / 0x100 == b[1] as int + b[2] as int * 0x100 + b[3] as int * 0x1_0000;
    assert x / 0x1_0000 == b[2] as int + b[3] as int * 0x100;
    assert x / 0x100_0000 == b[3];
  }

  /** A read that is off by d zero bytes finds the next length only if that is zero. */
  lemma ShiftedLength(d: nat, n: u32, got: nat, rest: seq<byte>)
    requires d > 0 && got <= 4
    requires FromLe32((Zeros(d) + Le32(n) + rest)[..got] + Zeros(4 - got)) == n
    ensures n == 0
  {
    hide Le32, FromLe32;
    var b, x := Le32(n), (Zeros(d) + Le32(n) + rest)[..got] + Zeros(4 - got);
    Le32Onto(x);
    assert b == x;
    assert b[0] == 0 && b[1] == 0 && b[2] == 0 && b[3] == 0;
    assert FromLe32(b) == 0 by { ZeroLength(b); }
    Le32RoundTrip(n);
  }

  lemma ZeroLength(b: seq<byte>)
    requires |b| == 4 && forall j :: 0 <= j < 4 ==> b[j] == 0
    ensures FromLe32(b) == 0
  {}

  /** So it delivers the next message only if that is empty, and is off again. */
  lemma StillOff(d: nat, m: seq<byte>, f: seq<byte>, got: nat)
    requires d > 0 && Sized(m) && ReadSize(Zeros(d) + Frame(m) + f, got)
    requires ReceiveOne(Zeros(d) + Frame(m) + f, got).ok && ReceiveOne(Zeros(d) + Frame(m) + f, got).data == m
    ensures d + 4 - got > 0 && ReceiveOne(Zeros(d) + Frame(m) + f, got).rest == Zeros(d + 4 - got) + f
  {
    hide Le32, FromLe32;
    var s := Zeros(d) + Frame(m) + f;
    FrameReceived(m, f);
    assert s == Zeros(d) + Le32(|m|) + (m + f);
    ShiftedLength(d, |m|, got, m + f);
    assert Le32(0) == Zeros(4) by { ZeroIsZeros(); }
    assert s[got..] == Zeros(d + 4 - got) + f;
  }

  lemma OnlyZeros(d: nat, got: nat)
    requires d > 0 && ReadSize(Zeros(d), got)
    ensures ReceiveOne(Zeros(d), got).ok
  {
    ZeroLength(Zeros(d)[..got] + Zeros(4 - got));
  }

  /** A receiver that is off by some zero bytes never delivers what is sent. */
  lemma {:induction false} OffNeverArrives(d: nat, ms: seq<seq<byte>>, gots: seq<nat>)
    requires d > 0 && (forall i :: 0 <= i < |ms| ==> Sized(ms[i])) && Reads(Zeros(d) + Frames(ms), gots)
    ensures DeliverBy(Zeros(d) + Frames(ms), gots) != ms
    decreases |ms|
  {
    hide ReceiveOne, Frame;
    var s, got := Zeros(d) + Frames(ms), gots[0];
    if ms == [] {
      assert s == Zeros(d);
      OnlyZeros(d, got);
    } else if ReceiveOne(s, got).ok && ReceiveOne(s, got).data == ms[0] {
      assert s == Zeros(d) + Frame(ms[0]) + Frames(ms[1..]);
      StillOff(d, ms[0], Frames(ms[1..]), got);
      OffNeverArrives(d + 4 - got, ms[1..], gots[1..]);
    }
  }

  lemma ZeroIsZeros()
    ensures Le32(0) == Zeros(4)
  {}

  lemma {:induction false} AllZeros(d: nat, m: seq<byte>, j: nat)
    requires d > 0 && j < |m| && (Zeros(d) + m)[..|m|] == m
    ensures m[j] == 0
    decreases j
  {
    assert m[j] == (Zeros(d) + m)[..|m|][j];
    if j >= d {
      AllZeros(d, m, j - d);
    }
  }

  /** A length read in part that happens to give the right data leaves zero bytes behind. */
  lemma PartLength(m: seq<byte>, f: seq<byte>, got: nat)
    requires Sized(m) && 0 < got < 4
    requires ReceiveOne(Frame(m) + f, got).ok && ReceiveOne(Frame(m) + f, got).data == m
    ensures ReceiveOne(Frame(m) + f, got).rest == Zeros(4 - got) + f
  {
    hide Le32, FromLe32;
    FrameReceived(m, f);
    var s, b, d, n := Frame(m) + f, Le32(|m|), 4 - got, |m|;
    assert s[..got] + Zeros(d) == b[..got] + Zeros(d);
    Le32Onto(b[..got] + Zeros(d));
    assert b == b[..got] + Zeros(d);
    assert s[got..] == Zeros(d) + m + f;
    var zm := Zeros(d) + m;
    if n > 0 {
      assert s[got..got + n] == zm[..n];
    }
    forall j | 0 <= j < n
      ensures m[j] == 0
    {
      AllZeros(d, m, j);
    }
    assert zm[n..] == Zeros(d);
    assert s[got + n..] == zm[n..] + f;
  }

  /** However the bytes are split, the list arrives exactly when every length is read in one go. */
  lemma {:induction false} ArrivesIffWhole(ms: seq<seq<byte>>, gots: seq<nat>)
    requires (forall i :: 0 <= i < |ms| ==> Sized(ms[i])) && Reads(Frames(ms), gots)
    ensures DeliverBy(Frames(ms), gots) == ms <==> AllWhole(Frames(ms), gots)
    decreases |ms|
  {
    hide ReceiveOne, Frame;
    if ms == [] {
      NothingReceived();
    } else {
      var m, f, got := ms[0], Frames(ms[1..]), gots[0];
      FrameReceived(m, f);
      if got == 4 {
        ArrivesIffWhole(ms[1..], gots[1..]);
      } else {
        assert |Frames(ms)| >= 4 by { FrameSize(m); }
        if ReceiveOne(Frame(m) + f, got).ok && ReceiveOne(Frame(m) + f, got).data == m {
          PartLength(m, f, got);
          OffNeverArrives(4 - got, ms[1..], gots[1..]);
        }
      }
    }
  }

  lemma FrameSize(m: seq<byte>)
    ensures |Frame(m)| >= 4
  {}

  lemma NothingReceived()
    ensures !ReceiveOne([], 0).ok
  {}

  lemma DeliverSplits(s: seq<byte>)
    ensures var r := ReceiveOne(s, Min(4, |s|));
            && Deliver(s) == (if r.ok then [r.data] + Deliver(r.rest) else [])
            && (r.ok ==> |r.rest| < |s|)
  {}
}
