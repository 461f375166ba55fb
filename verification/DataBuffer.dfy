/** The byte buffer under the channel: a fixed allocation and a movable range inside it. */
module Buffers {
  import opened Bytes

  const MAX_CAPACITY: u32 := 104857600
  const DCAMERA_OK := 0
  const DCAMERA_BAD_VALUE := 0x05C20002
  const DCAMERA_WRONG_STATE := 0x05C20007
  const DCAMERA_DEVICE_BUSY := 0x05C2000F

  /** The codes as numbers. */
  lemma ErrorCodes()
    ensures DCAMERA_OK == 0 && DCAMERA_BAD_VALUE == 96600066 && DCAMERA_WRONG_STATE == 96600071
    ensures DCAMERA_DEVICE_BUSY == 96600079
  {}

  class DataBuffer {
    var capacity: u64
    var rangeOffset: u64
    var rangeLength: u64
    var data: array?<byte>

    ghost predicate Valid()
      reads this
    {
      && capacity <= MAX_CAPACITY
      && (data == null ==> capacity == 0)
      && (data != null ==> data.Length == capacity)
    }

    predicate InRange()
      reads this
    {
      rangeOffset + rangeLength <= capacity
    }

    /** The bytes between Data() and Data() + Size(). */
    function Contents(): (r: seq<byte>)
      requires Valid() && InRange()
      reads this, data
      ensures |r| == rangeLength
      ensures rangeOffset == 0 && rangeLength == capacity ==> r == Whole(data)
    {
      if data == null then [] else data[rangeOffset..rangeOffset + rangeLength]
    }

    /** A capacity of 1 to 100 MiB gives that many zeros, any other an empty buffer. */
    constructor (size: u64)
      ensures Valid() && InRange() && rangeOffset == 0 && rangeLength == capacity
      ensures capacity == if size <= 104857600 then size else 0
      ensures (data == null <==> capacity == 0) && Contents() == Zeros(capacity)
      ensures data != null ==> fresh(data)
      ensures Whole(data) == Zeros(capacity)
    {
      capacity, rangeOffset, rangeLength, data := 0, 0, 0, null;
      if size != 0 && size <= MAX_CAPACITY {
        data := new byte[size](_ => 0);
        capacity, rangeLength := size, size;
      }
    }

    /** The sum is a 64-bit one: a range is refused when the wrapped sum is too large, so an accepted
        range lies inside the allocation exactly when the sum does not wrap. */
    method SetRange(offset: u64, size: u64) returns (ret: int)
      requires Valid()
      modifies this`rangeOffset, this`rangeLength
      ensures ret == DCAMERA_OK || ret == DCAMERA_BAD_VALUE
      ensures ret == DCAMERA_OK <==> offset <= capacity && (offset + size) % TWO64 <= capacity
      ensures ret == DCAMERA_OK ==> rangeOffset == offset && rangeLength == size
      ensures ret == DCAMERA_OK ==> (InRange() <==> offset + size < TWO64)
      ensures ret != DCAMERA_OK ==> unchanged(this)
    {
      if !(offset <= capacity) || !((offset + size) % TWO64 <= capacity) {
        return DCAMERA_BAD_VALUE;
      }
      rangeOffset := offset;
      rangeLength := size;
      ret := DCAMERA_OK;
    }
  }

  const EOK := 0
  const COPY_REFUSED := 34

  function Whole(a: array?<byte>): seq<byte>
    reads a
  {
    if a == null then [] else a[..]
  }

  /** memcpy_s over the rest of an allocation; nothing is said about the destination after a refusal. */
  method MemcpyS(dest: array?<byte>, at: nat, destMax: nat, src: seq<byte>) returns (ret: int)
    requires at + destMax == |Whole(dest)|
    modifies if dest == null then {} else {dest}
    ensures ret == if dest != null && destMax > 0 && |src| <= destMax then EOK else COPY_REFUSED
    ensures var copied := Copy(old(Whole(dest)), at, src);
            if ret == EOK then copied == Some(Whole(dest)) else copied == None
  {
    if dest == null || destMax == 0 || |src| > destMax {
      return COPY_REFUSED;
    }
    forall i | 0 <= i < |src| {
      dest[at + i] := src[i];
    }
    ret := EOK;
    assert dest[..at] == old(dest[..at]) && dest[at..at + |src|] == src;
    assert dest[at + |src|..] == old(dest[at + |src|..]);
    assert dest[..] == dest[..at] + dest[at..at + |src|] + dest[at + |src|..];
  }
}
