/** The 21-byte big-endian header of every control or JPEG packet. */
module WireHeader {
  import opened Bytes

  datatype Header = Header(
    version: u16, fragFlag: byte, dataType: u32, seqNum: u32, totalLen: u32, subSeq: u16, dataLen: u32)

  const HEADER_LEN := 21
  const PROTOCOL_VERSION: u16 := 1
  const FRAG_START: byte := 1
  const FRAG_MID: byte := 2
  const FRAG_END: byte := 3
  const FRAG_START_END: byte := 4

  function Encode(h: Header): (r: seq<byte>)
    ensures |r| == HEADER_LEN
  {
    Be16(h.version) + [h.fragFlag] + Be32(h.dataType) + Be32(h.seqNum) + Be32(h.totalLen)
    + Be16(h.subSeq) + Be32(h.dataLen)
  }

  /** GetFragDataLen: each field is read at its own fixed offset. */
  function Parse(p: seq<byte>): Header
    requires |p| >= HEADER_LEN
  {
    Header(FromBe16(p[0..2]), p[2], FromBe32(p[3..7]), FromBe32(p[7..11]), FromBe32(p[11..15]),
           FromBe16(p[15..17]), FromBe32(p[17..21]))
  }

  lemma ParseEncode(h: Header, payload: seq<byte>)
    ensures Parse(Encode(h) + payload) == h
  {
    var p := Encode(h) + payload;
    assert p[0..2] == Be16(h.version) && p[15..17] == Be16(h.subSeq);
    assert p[3..7] == Be32(h.dataType) && p[7..11] == Be32(h.seqNum);
    assert p[11..15] == Be32(h.totalLen) && p[17..21] == Be32(h.dataLen);
    Be16RoundTrip(h.version);
    Be16RoundTrip(h.subSeq);
    Be32RoundTrip(h.dataType);
    Be32RoundTrip(h.seqNum);
    Be32RoundTrip(h.totalLen);
    Be32RoundTrip(h.dataLen);
  }

  lemma EncodeParse(p: seq<byte>)
    requires |p| >= HEADER_LEN
    ensures Encode(Parse(p)) == p[..HEADER_LEN]
  {
    Be32Onto(p[3..7]);
    Be32Onto(p[7..11]);
    Be32Onto(p[11..15]);
    Be32Onto(p[17..21]);
  }

  /** The header byte by byte: where each field stands, most significant byte first. */
  lemma HeaderBytes(h: Header, payload: seq<byte>)
    ensures var p := Encode(h) + payload;
            && |p| == 21 + |payload| && p[21..] == payload
            && Half(p, 0) == h.version && p[2] == h.fragFlag && Word(p, 3) == h.dataType && Word(p, 7) == h.seqNum
            && Word(p, 11) == h.totalLen && Half(p, 15) == h.subSeq && Word(p, 17) == h.dataLen
  {
    hide Be16, Be32;
    BeDigits(h.dataType, h.version);
    BeDigits(h.seqNum, h.subSeq);
    BeDigits(h.totalLen, h.version);
    BeDigits(h.dataLen, h.version);
  }

  /** What is read from a packet, byte by byte. */
  lemma ParsedBytes(p: seq<byte>)
    requires |p| >= 21
    ensures HEADER_LEN == 21
    ensures Parse(p) == Header(Half(p, 0), p[2], Word(p, 3), Word(p, 7), Word(p, 11), Half(p, 15), Word(p, 17))
  {}

  /** Writes the header in place, byte by byte; a destination that is too short is left alone. */
  method MakeFragDataHeader(h: Header, header: array<byte>, len: u32)
    requires len <= header.Length
    modifies header
    ensures header[..] == if len < HEADER_LEN then old(header[..]) else Encode(h) + old(header[HEADER_LEN..])
  {
    var headerLen := 1 * 1 + 2 * 2 + 4 * 4;
    if headerLen > len {
      return;
    }
    var i := Put(header, 0, Be16(h.version));
    i := Put(header, i, [h.fragFlag]);
    i := Put(header, i, Be32(h.dataType));
    i := Put(header, i, Be32(h.seqNum));
    i := Put(header, i, Be32(h.totalLen));
    i := Put(header, i, Be16(h.subSeq));
    i := Put(header, i, Be32(h.dataLen));
    assert header[HEADER_LEN..] == old(header[HEADER_LEN..]);
    assert header[..] == header[..i] + header[i..];
  }

  /** header[i++] = ... for each byte of one field. */
  method Put(header: array<byte>, at: nat, field: seq<byte>) returns (i: nat)
    requires at + |field| <= header.Length
    modifies header
    ensures i == at + |field|
    ensures header[..i] == old(header[..at]) + field
    ensures forall j :: i <= j < header.Length ==> header[j] == old(header[j])
  {
    i := at;
    for k := 0 to |field|
      invariant i == at + k
      invariant header[..i] == old(header[..at]) + field[..k]
      invariant forall j :: i <= j < header.Length ==> header[j] == old(header[j])
    {
      header[i] := field[k];
      i := i + 1;
    }
  }
}
