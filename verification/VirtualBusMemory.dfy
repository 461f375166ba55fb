/** The bus object itself: bytes and indices changed in place, one caller at a time. */
module VirtualBusMemory {
  import opened Bytes
  import opened VirtualBus

  class Bus {
    const sharedMemory: array<byte>
    var readIndex: u32
    var writeIndex: u32
    var readSem: nat
    var writeSem: nat

    ghost function View(): Shared
      reads this, sharedMemory
    {
      Shared(sharedMemory[..], readIndex, writeIndex, readSem, writeSem)
    }

    ghost predicate Valid()
      reads this, sharedMemory
    {
      Indices(View()) && (readIndex != writeIndex ==> Readable(View()))
    }

    constructor (bufferSize: u32, maxMessages: nat)
      ensures fresh(sharedMemory) && sharedMemory.Length == bufferSize
      ensures Valid() && View() == Init(sharedMemory[..], maxMessages).bus
    {
      sharedMemory := new byte[bufferSize];
      readIndex, writeIndex, readSem, writeSem := 0, 0, 0, maxMessages;
    }

    /** On a bus that a run has led to: there is data exactly when a message sent is not delivered yet. */
    method HasData() returns (b: bool)
      ensures forall s, n :: Invariant(s, n) && s.bus == View() ==> (b <==> |s.delivered| < |s.sent|)
    {
      hide Invariant;
      forall s, n | Invariant(s, n) && s.bus == View()
        ensures readIndex != writeIndex <==> |s.delivered| < |s.sent|
      {
        RegionIsUnread(s, n);
        IndicesMeetWhenEmpty(s, n);
      }
      b := readIndex != writeIndex;
    }

    method PutBytes(at: nat, bs: seq<byte>)
      requires at + |bs| <= sharedMemory.Length
      modifies sharedMemory
      ensures sharedMemory[..] == Write(old(sharedMemory[..]), at, bs)
    {
      forall i | 0 <= i < |bs| {
        sharedMemory[at + i] := bs[i];
      }
      assert sharedMemory[..at] == old(sharedMemory[..at]);
      assert sharedMemory[at..at + |bs|] == bs;
      assert sharedMemory[at + |bs|..] == old(sharedMemory[at + |bs|..]);
      assert sharedMemory[..] == sharedMemory[..at] + sharedMemory[at..at + |bs|] + sharedMemory[at + |bs|..];
    }

    /** The locked part of SendData: header, then payload, then the index. */
    method SendLocked(m: Message) returns (sent: bool)
      requires Indices(View()) && Room(View()) && Fits(m, sharedMemory.Length)
      modifies this, sharedMemory
      ensures View() == AfterSend(old(View()), m) && sent == Accepts(old(View()), m)
    {
      hide Write, Le32;
      var currentWrite: int := writeIndex;
      var available := AvailableBytes();
      if available < |m.data| {
        writeSem := writeSem + 1;
        return false;
      }
      var header := Le32(writeIndex) + Le32(|m.data|) + m.stamp;
      PutBytes(currentWrite, header);
      currentWrite := currentWrite + HEADER;
      PutBytes(currentWrite, m.data);
      TwoWrites(old(sharedMemory[..]), writeIndex, header, m.data);
      writeIndex := (currentWrite + |m.data|) % TWO32;
      sent := true;
    }

    method AvailableBytes() returns (n: int)
      ensures n == AvailableSpace(View())
    {
      if readIndex > writeIndex {
        n := (readIndex - writeIndex - HEADER) % TWO64;
      } else {
        n := (sharedMemory.Length - writeIndex - HEADER) % TWO64;
      }
    }

    /** SendData: refused before anything is touched for a bad size or without a write permit. The model stops
        with overrun where the source would write past the memory; of the bus nothing is said then. */
    method SendData(data: seq<byte>, stamp: seq<byte>) returns (ret: int, overrun: bool)
      requires Indices(View()) && |stamp| == HEADER - 8
      modifies this, sharedMemory
      ensures overrun <==> 1 <= |data| <= sharedMemory.Length && old(writeSem) > 0 && !Room(old(View()))
      ensures |data| == 0 || |data| > sharedMemory.Length || old(writeSem) == 0 ==> ret == -1 && View() == old(View())
      ensures 1 <= |data| <= sharedMemory.Length && old(writeSem) > 0 && !overrun ==>
                var m, v := Message(data, stamp), old(View()).(writeSem := old(writeSem) - 1);
                if Accepts(v, m) then ret == 0 && View() == AfterSend(v, m).(readSem := old(readSem) + 1)
                else ret == -1 && View() == old(View())
    {
      overrun := false;
      if |data| == 0 || |data| > sharedMemory.Length {
        return -1, overrun;
      }
      if writeSem == 0 {
        return -1, overrun;
      }
      writeSem := writeSem - 1;
      var m := Message(data, stamp);
      var available := AvailableBytes();
      overrun := available >= |data| && writeIndex + HEADER + |data| > sharedMemory.Length;
      OverrunIffNoRoom(View(), m);
      if overrun {
        return 0, overrun;
      }
      var sent := SendLocked(m);
      if !sent {
        return -1, overrun;
      }
      readSem := readSem + 1;
      ret := 0;
    }

    /** ReceiveData: nothing without a read permit; a permit taken for nothing is given back; otherwise the read
        index moves past the message, and a write permit comes back within a header and 1024 bytes of the end. */
    method ReceiveData() returns (data: Option<seq<byte>>)
      requires Valid()
      modifies this
      ensures old(readSem) == 0 ==> data == None && View() == old(View())
      ensures old(readSem) > 0 ==>
                AfterReceive(old(View()).(readSem := old(readSem) - 1)) == Received(View(), data)
      ensures data == None ==> View() == old(View())
      ensures data != None ==>
                && old(readSem) > 0 && readSem == old(readSem) - 1
                && |data.value| > 0 && readIndex == old(readIndex) + 24 + |data.value|
                && data.value == sharedMemory[old(readIndex) + 24..readIndex]
                && writeSem == old(writeSem) + (if readIndex + 24 + 1024 >= sharedMemory.Length then 1 else 0)
                && writeIndex == old(writeIndex) && sharedMemory[..] == old(sharedMemory[..])
    {
      hide FromLe32;
      data := None;
      if readSem == 0 {
        return;
      }
      readSem := readSem - 1;
      var currentRead: int := readIndex;
      if readIndex == writeIndex {
        readSem := readSem + 1;
        return;
      }
      var dataSize := FromLe32(sharedMemory[currentRead + 4..currentRead + 8]);
      currentRead := currentRead + HEADER;
      if dataSize == 0 || dataSize > sharedMemory.Length {
        readSem := readSem + 1;
        return;
      }
      data := Some(sharedMemory[currentRead..currentRead + dataSize]);
      currentRead := (currentRead + dataSize) % TWO32;
      readIndex := currentRead;
      if currentRead + HEADER + LOW_WATER >= sharedMemory.Length {
        writeSem := writeSem + 1;
      }
    }
  }

  lemma TwoWrites(mem: seq<byte>, at: nat, a: seq<byte>, b: seq<byte>)
    requires at + |a| + |b| <= |mem|
    ensures Write(Write(mem, at, a), at + |a|, b) == Write(mem, at, a + b)
  {}
}
