/** The SoftBus session object: its assembly fields and buffer updated in place, and its sending loop. */
module SoftbusSessions {
  import opened Bytes
  import opened Buffers
  import opened WireHeader
  import opened Reassembly
  import opened Fragmentation

  datatype SessionState = Closed | Opened

  class SoftbusSession {
    var state: SessionState
    const mode: u32
    /** Whether there is a listener, and the contents of the buffers it was given. */
    const listening: bool
    var received: seq<seq<byte>>
    /** The packets the adapter took. */
    var sent: seq<seq<byte>>

    var packBuffer: DataBuffer?
    var isWaiting: bool
    var nowSeq: u32
    var nowSubSeq: u32
    var offset: u32
    var totalLen: u32

    ghost predicate BufferValid()
      reads this, packBuffer
    {
      packBuffer != null ==>
        && packBuffer.Valid() && packBuffer.rangeOffset == 0 && packBuffer.rangeLength == packBuffer.capacity
    }

    ghost function Assembly(): Assembler
      requires BufferValid()
      reads this, packBuffer, if packBuffer == null then {} else {packBuffer.data}
    {
      Assembler(isWaiting, nowSeq, nowSubSeq, offset, totalLen,
                if packBuffer == null then None else Some(packBuffer.Contents()))
    }

    ghost predicate Valid()
      reads this, packBuffer, if packBuffer == null then {} else {packBuffer.data}
    {
      BufferValid() && Consistent(Assembly())
    }

    constructor (mode: u32, listening: bool)
      ensures Valid() && Assembly() == IDLE && state == Closed && received == [] && sent == []
      ensures this.mode == mode && this.listening == listening && packBuffer == null
    {
      this.mode, this.listening := mode, listening;
      state, received, sent := Closed, [], [];
      packBuffer, isWaiting, nowSeq, nowSubSeq, offset, totalLen := null, false, 0, 0, 0, 0;
    }

    method ResetAssembleFrag()
      modifies this
      ensures Valid() && Assembly() == IDLE
      ensures received == old(received) && sent == old(sent) && state == old(state)
    {
      isWaiting := false;
      nowSeq := 0;
      nowSubSeq := 0;
      offset := 0;
      totalLen := 0;
      packBuffer := null;
    }

    method PostData(message: seq<byte>)
      modifies this`received
      ensures received == old(received) + if listening then [message] else []
    {
      if listening {
        received := received + [message];
      }
    }

    /** Any buffer at all, of any bytes, does what Step says and nothing else. */
    method PackRecvData(buffer: DataBuffer?)
      requires Valid() && (buffer != null ==> buffer.Valid() && buffer.InRange())
      modifies this, if packBuffer == null then {} else {packBuffer.data}
      ensures Valid() && sent == old(sent) && state == old(state)
      ensures buffer == null ==> Assembly() == old(Assembly()) && received == old(received)
      ensures buffer != null ==>
                var r := Step(old(Assembly()), old(buffer.Contents()));
                && Assembly() == r.next
                && received == old(received) + if listening then r.delivered else []
    {
      hide Parse, Handle, StepNext, StepStart, StepWhole, Consistent;
      if buffer == null || buffer.rangeLength < HEADER_LEN {
        return;
      }
      var packet := buffer.Contents();
      var h := Parse(packet);
      var payload := packet[HEADER_LEN..];
      Dispatch(h, payload);
    }

    /** The header checks of PackRecvData and the branch on the fragment flag. */
    method Dispatch(h: Header, payload: seq<byte>)
      requires Valid()
      modifies this, if packBuffer == null then {} else {packBuffer.data}
      ensures Valid() && sent == old(sent) && state == old(state)
      ensures var r := Handle(old(Assembly()), h, payload);
              && Assembly() == r.next
              && received == old(received) + if listening then r.delivered else []
    {
      if HEADER_LEN + |payload| != (h.dataLen + HEADER_LEN) % TWO32 || h.dataLen > h.totalLen
         || h.dataLen > MAX_PACKET_LEN || h.totalLen > MAX_TOTAL_LEN {
        return;
      }
      hide StepNext, StepStart, StepWhole, Consistent;
      if h.fragFlag == FRAG_START_END {
        AssembleNoFrag(h, payload);
      } else if h.fragFlag == FRAG_START {
        StartFrag(h, payload);
      } else if h.fragFlag == FRAG_MID || h.fragFlag == FRAG_END {
        ContinueFrag(h, payload);
      }
    }

    method AssembleNoFrag(h: Header, payload: seq<byte>)
      requires Valid() && h.dataLen <= MAX_PACKET_LEN
      modifies this`received
      ensures received == old(received) + if listening then StepWhole(old(Assembly()), h, payload).delivered else []
    {
      if h.dataLen != h.totalLen {
        return;
      }
      hide Copy;
      var postData := new DataBuffer(h.dataLen);
      var ret := MemcpyS(postData.data, 0, postData.rangeLength, payload);
      if ret != EOK {
        return;
      }
      PostData(postData.Contents());
    }

    /** AssembleFrag on a START packet: whatever was being assembled is dropped. */
    method StartFrag(h: Header, payload: seq<byte>)
      requires WellFormed(h, payload)
      modifies this
      ensures Valid() && received == old(received) && sent == old(sent) && state == old(state)
      ensures Assembly() == StepStart(h, payload).next
    {
      hide Copy;
      NewPackBuffer(h);
      var ret := MemcpyS(packBuffer.data, 0, packBuffer.rangeLength, payload);
      if ret != EOK {
        ResetAssembleFrag();
        return;
      }
      offset := (offset + h.dataLen) % TWO32;
    }

    method NewPackBuffer(h: Header)
      requires h.totalLen <= MAX_TOTAL_LEN
      modifies this
      ensures received == old(received) && sent == old(sent) && state == old(state)
      ensures packBuffer != null && fresh(packBuffer) && (packBuffer.data != null ==> fresh(packBuffer.data))
      ensures BufferValid() && Assembly() == Assembler(true, h.seqNum, h.subSeq, 0, h.totalLen, Some(Zeros(h.totalLen)))
    {
      isWaiting := true;
      nowSeq := h.seqNum;
      nowSubSeq := h.subSeq;
      offset := 0;
      totalLen := h.totalLen;
      packBuffer := new DataBuffer(h.totalLen);
    }

    method CheckUnPackBuffer(h: Header) returns (ret: int)
      requires Valid()
      ensures ret == DCAMERA_OK <==> Continues(Assembly(), h)
    {
      if !isWaiting {
        return DCAMERA_BAD_VALUE;
      }
      if nowSeq != h.seqNum {
        return DCAMERA_BAD_VALUE;
      }
      if (nowSubSeq + 1) % TWO32 != h.subSeq {
        return DCAMERA_BAD_VALUE;
      }
      if totalLen < (h.dataLen + offset) % TWO32 {
        return DCAMERA_BAD_VALUE;
      }
      ret := DCAMERA_OK;
    }

    /** AssembleFrag on a MID or END packet. */
    method ContinueFrag(h: Header, payload: seq<byte>)
      requires Valid() && WellFormed(h, payload) && (h.fragFlag == FRAG_MID || h.fragFlag == FRAG_END)
      modifies this, if packBuffer == null then {} else {packBuffer.data}
      ensures Valid() && sent == old(sent) && state == old(state)
      ensures var r := StepNext(old(Assembly()), h, payload);
              && Assembly() == r.next
              && received == old(received) + if listening then r.delivered else []
    {
      hide Copy, Parse;
      var ret := CheckUnPackBuffer(h);
      if ret != DCAMERA_OK {
        ResetAssembleFrag();
        return;
      }
      nowSubSeq := h.subSeq;
      ret := MemcpyS(packBuffer.data, offset, packBuffer.rangeLength - offset, payload);
      if ret != EOK {
        ResetAssembleFrag();
        return;
      }
      offset := (offset + h.dataLen) % TWO32;
      if h.fragFlag == FRAG_END {
        PostData(packBuffer.Contents());
        ResetAssembleFrag();
      }
    }

    /** SendBytes, with what the adapter answers as a parameter. */
    method SendBytes(packet: DataBuffer, adapter: int) returns (ret: int)
      requires packet.Valid() && packet.InRange()
      modifies this`sent
      ensures ret == if state != Opened then DCAMERA_WRONG_STATE else adapter
      ensures sent == old(sent) + if ret == DCAMERA_OK then [packet.Contents()] else []
    {
      if state != Opened {
        return DCAMERA_WRONG_STATE;
      }
      ret := adapter;
      if ret == DCAMERA_OK {
        sent := sent + [packet.Contents()];
      }
    }

    method SetHeadParaDataLen(h: Header, total: u32, at: u32) returns (r: Header)
      ensures r == if total < at then h
                   else if total - at > MAX_PACKET_LEN then h.(dataLen := CHUNK)
                   else h.(fragFlag := FRAG_END, dataLen := total - at)
    {
      r := h;
      if total >= at {
        if total - at > MAX_PACKET_LEN {
          r := r.(dataLen := MAX_PACKET_LEN - RESERVED);
        } else {
          r := r.(fragFlag := FRAG_END);
          r := r.(dataLen := total - at);
        }
      }
    }

    /** One packet: a buffer of its size, the header written into it, the chunk copied behind. */
    method MakePacket(h: Header, chunk: seq<byte>) returns (packet: DataBuffer, ret: int)
      requires h.dataLen == |chunk| <= MAX_PACKET_LEN
      ensures ret == if |chunk| > 0 then EOK else COPY_REFUSED
      ensures ret == EOK ==> packet.Valid() && packet.InRange() && packet.Contents() == Encode(h) + chunk
    {
      packet := new DataBuffer(h.dataLen + HEADER_LEN);
      MakeFragDataHeader(h, packet.data, HEADER_LEN);
      ghost var head := packet.data[..];
      assert head[..HEADER_LEN] == Encode(h);
      ret := MemcpyS(packet.data, HEADER_LEN, packet.rangeLength - HEADER_LEN, chunk);
      if ret == EOK {
        assert packet.Contents() == packet.data[..];
      }
    }

    method SendPacket(h: Header, chunk: seq<byte>, adapter: int) returns (ret: int)
      requires h.dataLen == |chunk| <= MAX_PACKET_LEN
      modifies this`sent
      ensures ret == if chunk == [] then COPY_REFUSED else if state != Opened then DCAMERA_WRONG_STATE else adapter
      ensures sent == old(sent) + if ret == DCAMERA_OK then [Encode(h) + chunk] else []
    {
      hide Encode;
      var packet, copied := MakePacket(h, chunk);
      if copied != EOK {
        return copied;
      }
      ret := SendBytes(packet, adapter);
    }

    /** The packets of the message go out in order until one is refused: k of them, in the closed form
        of Packets, and success exactly when all did. */
    method UnPackSendData(buffer: DataBuffer?, adapter: nat -> int) returns (ret: int, ghost k: nat)
      requires buffer != null ==> buffer.Valid() && buffer.InRange()
      modifies this`sent
      ensures buffer == null ==> ret == DCAMERA_BAD_VALUE && sent == old(sent)
      ensures buffer != null && buffer.rangeLength == 0 ==> ret == COPY_REFUSED && sent == old(sent)
      ensures buffer != null && buffer.rangeLength > 0 ==>
                var message := buffer.Contents();
                && k <= PacketCount(|message|)
                && sent == old(sent) + Packets(mode, message)[..k]
                && (forall j :: 0 <= j < k ==> adapter(j) == DCAMERA_OK)
                && (k == PacketCount(|message|) ==> ret == DCAMERA_OK)
                && (k < PacketCount(|message|) ==>
                      ret != DCAMERA_OK && ret == if state != Opened then DCAMERA_WRONG_STATE else adapter(k))
                && (state != Opened ==> k == 0)
    {
      hide Packets, Encode, Parse;
      k := 0;
      if buffer == null {
        return DCAMERA_BAD_VALUE, k;
      }
      var message := buffer.Contents();
      var total: u32 := buffer.rangeLength;
      var head := Header(PROTOCOL_VERSION, FRAG_START, mode, 0, total, 0, 0);
      if total <= MAX_PACKET_LEN {
        head := head.(fragFlag := FRAG_START_END, dataLen := total);
        if message != [] {
          OnlyTurn(mode, message);
        }
        ret := SendPacket(head, message, adapter(0));
        if ret == DCAMERA_OK {
          k := 1;
        }
        return;
      }
      ret, k := SendFragments(message, adapter);
    }

    /** The sending loop for a message above the limit. */
    method SendFragments(message: seq<byte>, adapter: nat -> int) returns (ret: int, ghost k: nat)
      requires MAX_PACKET_LEN < |message| <= MAX_TOTAL_LEN
      modifies this`sent
      ensures k <= PacketCount(|message|)
      ensures sent == old(sent) + Packets(mode, message)[..k]
      ensures forall j :: 0 <= j < k ==> adapter(j) == DCAMERA_OK
      ensures k == PacketCount(|message|) ==> ret == DCAMERA_OK
      ensures k < PacketCount(|message|) ==>
                ret != DCAMERA_OK && ret == if state != Opened then DCAMERA_WRONG_STATE else adapter(k)
      ensures state != Opened ==> k == 0
    {
      hide Encode, Packets, Chunk, HeaderOf, PacketCount;
      k := 0;
      ghost var done: seq<seq<byte>> := [];
      PacketSizes(|message|);
      var total: u32 := |message|;
      var head := Header(PROTOCOL_VERSION, FRAG_START, mode, 0, total, 0, 0);
      var at: u32 := 0;
      var attempt := 0;
      while total > at
        invariant attempt == k <= PacketCount(total)
        invariant at == if k < PacketCount(total) then k * CHUNK else total
        invariant k < PacketCount(total) ==>
                    head == Header(PROTOCOL_VERSION, if k == 0 then FRAG_START else FRAG_MID, mode, 0, total, k,
                                   head.dataLen)
        invariant sent == old(sent) + done && done == Packets(mode, message)[..k]
        invariant forall j :: 0 <= j < k ==> adapter(j) == DCAMERA_OK
        invariant k > 0 ==> state == Opened
        decreases total - at
      {
        Turn(mode, message, k);
        head := SetHeadParaDataLen(head, total, at);
        var chunk := message[at..at + head.dataLen];
        ret := SendPacket(head, chunk, adapter(attempt));
        if ret != DCAMERA_OK {
          return;
        }
        done := done + [Encode(head) + chunk];
        k, attempt := k + 1, attempt + 1;
        head := head.(subSeq := (head.subSeq + 1) % TWO16);
        head := head.(fragFlag := FRAG_MID);
        at := at + head.dataLen;
      }
      ret := DCAMERA_OK;
    }
  }
}
