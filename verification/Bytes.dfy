/** Machine integers, byte strings and the two byte orders the repository uses. */
module Bytes {
  type byte = x: int | 0 <= x < 0x100
  type u16 = x: int | 0 <= x < 0x1_0000
  type u32 = x: int | 0 <= x < 0x1_0000_0000
  type u64 = x: int | 0 <= x < 0x1_0000_0000_0000_0000

  const TWO16 := 0x1_0000
  const TWO32 := 0x1_0000_0000
  const TWO64 := 0x1_0000_0000_0000_0000

  datatype Option<+T> = None | Some(value: T)

  function Min(a: int, b: int): int { if a < b then a else b }

  function Zeros(n: nat): (r: seq<byte>)
    ensures |r| == n && forall i :: 0 <= i < n ==> r[i] == 0
  {
    seq(n, i => 0)
  }

  /** memcpy_s to dest + at: refused when no room is left at all, or not enough. */
  function Copy(dest: seq<byte>, at: nat, src: seq<byte>): (r: Option<seq<byte>>)
    requires at <= |dest|
    ensures r.Some? ==> |r.value| == |dest|
  {
    var room := |dest| - at;
    if room == 0 || |src| > room then None else Some(dest[..at] + src + dest[at + |src|..])
  }

  /** A copy behind what is already there extends it and leaves zeros after it. */
  lemma CopyExtends(done: seq<byte>, room: nat, src: seq<byte>)
    requires 0 < room && |src| <= room
    ensures Copy(done + Zeros(room), |done|, src) == Some(done + src + Zeros(room - |src|))
  {
    var dest := done + Zeros(room);
    assert dest[..|done|] == done;
    assert dest[|done| + |src|..] == Zeros(room - |src|);
  }

  /** Big-endian. The source masks and shifts, e.g. (x & 0x00ff0000) >> 16; on a word this is the
      quotient and remainder written here. */
  function Be16(x: u16): (r: seq<byte>)
    ensures |r| == 2
  {
    [x / 0x100, x % 0x100]
  }

  function Be32(x: u32): (r: seq<byte>)
    ensures |r| == 4
  {
    [x / 0x100_0000, x / 0x1_0000 % 0x100, x / 0x100 % 0x100, x % 0x100]
  }

  function FromBe16(s: seq<byte>): u16
    requires |s| == 2
  {
    s[0] as int * 0x100 + s[1]
  }

  function FromBe32(s: seq<byte>): u32
    requires |s| == 4
  {
    s[0] as int * 0x100_0000 + s[1] as int * 0x1_0000 + s[2] as int * 0x100 + s[3]
  }

  /** Little-endian, the host order in which whole structs and integers are copied as bytes. */
  function Le32(x: u32): (r: seq<byte>)
    ensures |r| == 4
  {
    [x % 0x100, x / 0x100 % 0x100, x / 0x1_0000 % 0x100, x / 0x100_0000]
  }

  function FromLe32(s: seq<byte>): u32
    requires |s| == 4
  {
    s[0] as int + s[1] as int * 0x100 + s[2] as int * 0x1_0000 + s[3] as int * 0x100_0000
  }

  /** Four, and two, big-endian bytes of p as a number. */
  function Word(p: seq<byte>, at: nat): int
    requires at + 4 <= |p|
  {
    p[at] as int * 0x100_0000 + p[at + 1] as int * 0x1_0000 + p[at + 2] as int * 0x100 + p[at + 3]
  }

  function Half(p: seq<byte>, at: nat): int
    requires at + 2 <= |p|
  {
    p[at] as int * 0x100 + p[at + 1]
  }

  lemma Be16RoundTrip(x: u16)
    ensures FromBe16(Be16(x)) == x
  {}

  lemma Be32RoundTrip(x: u32)
    ensures FromBe32(Be32(x)) == x
  {
    assert x / 0x100 == x / 0x1_0000 * 0x100 + x / 0x100 % 0x100;
    assert x / 0x1_0000 == x / 0x100_0000 * 0x100 + x / 0x1_0000 % 0x100;
  }

  lemma Be32Onto(s: seq<byte>)
    requires |s| == 4
    ensures Be32(FromBe32(s)) == s
  {
    var x := FromBe32(s);
    assert x / 0x100 == s[0] as int * 0x1_0000 + s[1] as int * 0x100 + s[2];
    assert x / 0x1_0000 == s[0] as int * 0x100 + s[1];
    assert x / 0x100_0000 == s[0];
  }

  /** The least significant byte first. */
  lemma Le32Digits(x: u32)
    ensures var r := Le32(x);
            x == r[0] as int + r[1] as int * 0x100 + r[2] as int * 0x1_0000 + r[3] as int * 0x100_0000
  {
    assert x / 0x100 == x / 0x1_0000 * 0x100 + x / 0x100 % 0x100;
    assert x / 0x1_0000 == x / 0x100_0000 * 0x100 + x / 0x1_0000 % 0x100;
  }

  /** The most significant byte first. */
  lemma BeDigits(x: u32, y: u16)
    ensures var r := Be32(x);
            x == r[0] as int * 0x100_0000 + r[1] as int * 0x1_0000 + r[2] as int * 0x100 + r[3]
    ensures var r := Be16(y); y == r[0] as int * 0x100 + r[1]
  {
    assert x / 0x100 == x / 0x1_0000 * 0x100 + x / 0x100 % 0x100;
    assert x / 0x1_0000 == x / 0x100_0000 * 0x100 + x / 0x1_0000 % 0x100;
  }

  lemma Le32RoundTrip(x: u32)
    ensures FromLe32(Le32(x)) == x
  {
    assert x / 0x100 == x / 0x1_0000 * 0x100 + x / 0x100 % 0x100;
    assert x / 0x1_0000 == x / 0x100_0000 * 0x100 + x / 0x1_0000 % 0x100;
  }
}
