/** How a message is cut into packets, in closed form: packet k of a message is given outright,
    so that the sending loop has something independent of itself to meet. */
module Fragmentation {
  import opened Bytes
  import opened WireHeader
  import opened Reassembly

  const RESERVED := 512
  const CHUNK := MAX_PACKET_LEN - RESERVED

  predicate Sendable(message: seq<byte>) { 1 <= |message| <= MAX_TOTAL_LEN }

  /** One packet up to the limit; above it, as many full chunks as leave at most the limit, and a last one. */
  function PacketCount(n: nat): nat {
    if n <= MAX_PACKET_LEN then 1 else (n - MAX_PACKET_LEN + CHUNK - 1) / CHUNK + 1
  }

  function ChunkLen(n: nat, k: nat): int {
    if k + 1 < PacketCount(n) then CHUNK else n - k * CHUNK
  }

  function FlagOf(n: nat, k: nat): byte {
    if n <= MAX_PACKET_LEN then FRAG_START_END
    else if k == 0 then FRAG_START
    else if k + 1 < PacketCount(n) then FRAG_MID
    else FRAG_END
  }

  /** Sizes, for every message the session accepts: full chunks first, a tail that is more than the
      reserve and fits in a packet, and few enough packets for the 16-bit sub-sequence number. */
  lemma PacketSizes(n: nat)
    requires MAX_PACKET_LEN < n <= MAX_TOTAL_LEN
    ensures 2 <= PacketCount(n) <= 26
    ensures (PacketCount(n) - 1) * CHUNK + RESERVED < n <= (PacketCount(n) - 1) * CHUNK + MAX_PACKET_LEN
    ensures forall k :: 0 <= k < PacketCount(n) - 1 ==> n - k * CHUNK > MAX_PACKET_LEN
  {}

  /** The same limits as numbers: up to 4 MiB one packet; above, chunks of 512 bytes less, and a message of 1 byte
      to 100 MiB at all. */
  lemma LimitsAsNumbers(message: seq<byte>)
    ensures Sendable(message) <==> 1 <= |message| <= 104857600
    ensures |message| <= 4194304 ==> PacketCount(|message|) == 1
    ensures |message| > 4194304 ==>
              (PacketCount(|message|) - 2) * 4193792 < |message| - 4194304 <= (PacketCount(|message|) - 1) * 4193792
    ensures Sendable(message) ==> forall k: nat :: k < PacketCount(|message|) ==>
              |Chunk(message, k)| == if k + 1 < PacketCount(|message|) then 4193792 else |message| - k * 4193792
  {}

  /** A packet of a message byte by byte. */
  lemma PacketBytes(mode: u32, message: seq<byte>, k: nat)
    requires Sendable(message) && k < PacketCount(|message|)
    ensures var p, n, count := Packet(mode, message, k), |message|, PacketCount(|message|);
            && |p| == 21 + |Chunk(message, k)| && p[21..] == message[k * 4193792..k * 4193792 + |p| - 21]
            && p[0] == 0 && p[1] == 1
            && p[2] == (if n <= 4194304 then 4 else if k == 0 then 1 else if k + 1 < count then 2 else 3)
            && Word(p, 3) == mode && Word(p, 7) == 0 && Word(p, 11) == n && Half(p, 15) == k && Word(p, 17) == |p| - 21
  {
    hide Encode;
    LimitsAsNumbers(message);
    HeaderBytes(HeaderOf(mode, |message|, k), Chunk(message, k));
  }

  /** The cut positions do not depend on the loop that finds them: PacketCount is the only count for
      which all cuts but the last leave more than a packet. */
  lemma CountIsUnique(n: nat, c: nat)
    requires MAX_PACKET_LEN < n
    requires c > 0 && n - (c - 1) * CHUNK <= MAX_PACKET_LEN
    requires forall k :: 0 <= k < c - 1 ==> n - k * CHUNK > MAX_PACKET_LEN
    ensures c == PacketCount(n)
  {
    var m := PacketCount(n) - 1;
    assert n - m * CHUNK <= MAX_PACKET_LEN < n - (m - 1) * CHUNK;
    assert m < c - 1 ==> n - m * CHUNK > MAX_PACKET_LEN;
  }

  function HeaderOf(mode: u32, n: nat, k: nat): Header
    requires 1 <= n <= MAX_TOTAL_LEN && k < PacketCount(n)
  {
    Header(PROTOCOL_VERSION, FlagOf(n, k), mode, 0, n, k, ChunkLen(n, k))
  }

  function Chunk(message: seq<byte>, k: nat): seq<byte>
    requires Sendable(message) && k < PacketCount(|message|)
  {
    message[k * CHUNK..k * CHUNK + ChunkLen(|message|, k)]
  }

  function Packet(mode: u32, message: seq<byte>, k: nat): seq<byte>
    requires Sendable(message) && k < PacketCount(|message|)
  {
    Encode(HeaderOf(mode, |message|, k)) + Chunk(message, k)
  }

  function Packets(mode: u32, message: seq<byte>): (r: seq<seq<byte>>)
    requires Sendable(message)
    ensures |r| == PacketCount(|message|)
  {
    seq(PacketCount(|message|), k requires 0 <= k < PacketCount(|message|) => Packet(mode, message, k))
  }

  /** The k-th turn of the sending loop: its offset decides the flag and the length. */
  lemma Turn(mode: u32, message: seq<byte>, k: nat)
    requires MAX_PACKET_LEN < |message| <= MAX_TOTAL_LEN && k < PacketCount(|message|)
    ensures var n, at := |message|, k * CHUNK;
            && at < n && k < TWO16 - 1
            && HeaderOf(mode, n, k) == Header(PROTOCOL_VERSION,
                 if n - at <= MAX_PACKET_LEN then FRAG_END else if k == 0 then FRAG_START else FRAG_MID, mode, 0, n, k,
                 if n - at > MAX_PACKET_LEN then CHUNK else n - at)
            && (k + 1 < PacketCount(n) <==> n - at > MAX_PACKET_LEN)
            && Chunk(message, k) == message[at..at + HeaderOf(mode, n, k).dataLen]
            && Packets(mode, message)[..k + 1] ==
                 Packets(mode, message)[..k] + [Encode(HeaderOf(mode, n, k)) + Chunk(message, k)]
  {
    PacketSizes(|message|);
    assert Packets(mode, message)[k] == Packet(mode, message, k);
  }

  lemma OnlyTurn(mode: u32, message: seq<byte>)
    requires 1 <= |message| <= MAX_PACKET_LEN
    ensures Packets(mode, message)
         == [Encode(Header(PROTOCOL_VERSION, FRAG_START_END, mode, 0, |message|, 0, |message|)) + message]
  {
    assert Chunk(message, 0) == message;
  }
}
