/** What the receiving half of a SoftBus session does with one packet, as a function of its assembly state. */
module Reassembly {
  import opened Bytes
  import opened WireHeader

  const MAX_TOTAL_LEN := 100 * 1024 * 1024
  const MAX_PACKET_LEN := 4 * 1024 * 1024

  datatype Assembler = Assembler(
    isWaiting: bool, nowSeq: u32, nowSubSeq: u32, offset: u32, totalLen: u32, pack: Option<seq<byte>>)

  /** The next assembly state and the messages handed to the listener. */
  datatype Outcome = Outcome(next: Assembler, delivered: seq<seq<byte>>)

  const IDLE := Assembler(false, 0, 0, 0, 0, None)

  /** Waiting means that the whole message has a buffer and the write position is inside it. */
  ghost predicate Consistent(a: Assembler) {
    if a.isWaiting then
      && a.pack.Some? && |a.pack.value| == a.totalLen && 1 <= a.totalLen <= MAX_TOTAL_LEN
      && a.offset <= a.totalLen && a.nowSubSeq < TWO16
    else
      a == IDLE
  }

  /** The checks a packet passes before it is looked at; the length sum is a 32-bit one. */
  predicate WellFormed(h: Header, payload: seq<byte>) {
    && HEADER_LEN + |payload| == (h.dataLen + HEADER_LEN) % TWO32
    && h.dataLen <= h.totalLen && h.dataLen <= MAX_PACKET_LEN && h.totalLen <= MAX_TOTAL_LEN
  }

  predicate Continues(a: Assembler, h: Header) {
    && a.isWaiting && a.nowSeq == h.seqNum
    && (a.nowSubSeq + 1) % TWO32 == h.subSeq
    && (h.dataLen + a.offset) % TWO32 <= a.totalLen
  }

  function StepWhole(a: Assembler, h: Header, payload: seq<byte>): Outcome
    requires h.dataLen <= MAX_TOTAL_LEN
  {
    if h.dataLen != h.totalLen then Outcome(a, []) else
    match Copy(Zeros(h.dataLen), 0, payload)
    case None => Outcome(a, [])
    case Some(message) => Outcome(a, [message])
  }

  function StepStart(h: Header, payload: seq<byte>): Outcome {
    match Copy(Zeros(h.totalLen), 0, payload)
    case None => Outcome(IDLE, [])
    case Some(pack) => Outcome(Assembler(true, h.seqNum, h.subSeq, h.dataLen, h.totalLen, Some(pack)), [])
  }

  function StepNext(a: Assembler, h: Header, payload: seq<byte>): Outcome
    requires Consistent(a)
  {
    if !Continues(a, h) then Outcome(IDLE, []) else
    match Copy(a.pack.value, a.offset, payload)
    case None => Outcome(IDLE, [])
    case Some(pack) =>
      if h.fragFlag == FRAG_END then Outcome(IDLE, [pack])
      else Outcome(a.(nowSubSeq := h.subSeq, offset := (a.offset + h.dataLen) % TWO32, pack := Some(pack)), [])
  }

  function Handle(a: Assembler, h: Header, payload: seq<byte>): (r: Outcome)
    requires Consistent(a)
    ensures Consistent(r.next) && |r.delivered| <= 1
  {
    if !WellFormed(h, payload) then Outcome(a, [])
    else if h.fragFlag == FRAG_START_END then StepWhole(a, h, payload)
    else if h.fragFlag == FRAG_START then StepStart(h, payload)
    else if h.fragFlag == FRAG_MID || h.fragFlag == FRAG_END then StepNext(a, h, payload)
    else Outcome(a, [])
  }

  /** A following fragment with the right numbers, and room for it, extends what is there by its payload. */
  lemma NextAccepted(a: Assembler, done: seq<byte>, h: Header, payload: seq<byte>)
    requires Consistent(a) && a.isWaiting && a.offset == |done| < a.totalLen
    requires a.pack == Some(done + Zeros(a.totalLen - |done|))
    requires WellFormed(h, payload) && |done| + |payload| <= a.totalLen
    requires h.seqNum == a.nowSeq && h.subSeq == a.nowSubSeq + 1
    requires h.fragFlag == FRAG_MID || h.fragFlag == FRAG_END
    ensures var pack := done + payload + Zeros(a.totalLen - |done| - |payload|);
            Handle(a, h, payload) ==
              if h.fragFlag == FRAG_END then Outcome(IDLE, [pack])
              else Outcome(a.(nowSubSeq := h.subSeq, offset := |done| + |payload|, pack := Some(pack)), [])
  {
    assert Continues(a, h);
    assert Handle(a, h, payload) == StepNext(a, h, payload);
    CopyExtends(done, a.totalLen - |done|, payload);
  }

  /** PackRecvData on a packet p. */
  function Step(a: Assembler, p: seq<byte>): (r: Outcome)
    requires Consistent(a)
    ensures Consistent(r.next) && |r.delivered| <= 1
  {
    if |p| < HEADER_LEN then Outcome(a, []) else Handle(a, Parse(p), p[HEADER_LEN..])
  }

  /** The first n packets of ps, fed one after the other. */
  function Run(a: Assembler, ps: seq<seq<byte>>, n: nat): (r: Outcome)
    requires Consistent(a) && n <= |ps|
    ensures Consistent(r.next)
  {
    if n == 0 then Outcome(a, []) else
    var before := Run(a, ps, n - 1);
    var last := Step(before.next, ps[n - 1]);
    Outcome(last.next, before.delivered + last.delivered)
  }
}
