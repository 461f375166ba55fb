/** The Base64 codec of the camera utilities, against the encoding of RFC 4648. */
module Base64 {
  import opened Bytes

  const PAD: byte := 61

  type sextet = x: int | 0 <= x < 64

  /** Character v of the alphabet, as a character code: A-Z, a-z, 0-9, + and /. */
  function Symbol(v: sextet): byte {
    if v < 26 then 65 + v else if v < 52 then 97 + (v - 26) else if v < 62 then 48 + (v - 52)
    else if v == 62 then 43 else 47
  }

  predicate IsAlnum(c: byte) { 48 <= c <= 57 || 65 <= c <= 90 || 97 <= c <= 122 }

  predicate IsBase64(c: byte) { IsAlnum(c) || c == 43 || c == 47 }

  /** BASE_64_CHARS.find(c) stored in a byte: a character that is not found gives 255. */
  function Find(c: byte): byte {
    if 65 <= c <= 90 then c - 65 else if 97 <= c <= 122 then c - 97 + 26 else if 48 <= c <= 57 then c - 48 + 52
    else if c == 43 then 62 else if c == 47 then 63 else 255
  }

  lemma FindInvertsSymbol(v: sextet)
    ensures IsBase64(Symbol(v)) && Symbol(v) != PAD && Find(Symbol(v)) == v
  {}

  lemma SymbolInvertsFind(c: byte)
    ensures IsBase64(c) <==> Find(c) < 64
    ensures IsBase64(c) ==> Symbol(Find(c)) == c
  {}

  /** Three bytes as four sextets, and back; the source's masks and shifts, as quotients and remainders. */
  function Sextets(a: byte, b: byte, c: byte): (r: seq<sextet>)
    ensures |r| == 4
  {
    [a / 4, a % 4 * 16 + b / 16, b % 16 * 4 + c / 64, c % 64]
  }

  function Octets(a: byte, b: byte, c: byte, d: byte): (r: seq<byte>)
    ensures |r| == 3
  {
    [(a * 4 + b / 16 % 4) % 0x100, (b % 16 * 16 + c / 4 % 16) % 0x100, (c % 4 * 64 + d) % 0x100]
  }

  function Symbols(v: seq<sextet>): (r: seq<byte>)
    ensures |r| == |v| && forall i :: 0 <= i < |v| ==> r[i] == Symbol(v[i])
  {
    seq(|v|, i requires 0 <= i < |v| => Symbol(v[i]))
  }

  function Encode(b: seq<byte>): seq<byte> {
    if |b| == 0 then []
    else if |b| == 1 then Symbols(Sextets(b[0], 0, 0)[..2]) + [PAD, PAD]
    else if |b| == 2 then Symbols(Sextets(b[0], b[1], 0)[..3]) + [PAD]
    else Symbols(Sextets(b[0], b[1], b[2])) + Encode(b[3..])
  }

  /** How many characters of s stand before the first that is not in the alphabet. */
  function PrefixLength(s: seq<byte>): (k: nat)
    ensures k <= |s| && (forall i :: 0 <= i < k ==> IsBase64(s[i])) && (k < |s| ==> !IsBase64(s[k]))
  {
    if s == [] || !IsBase64(s[0]) then 0 else 1 + PrefixLength(s[1..])
  }

  /** What the decoder makes of fewer than four characters: the missing ones become failed lookups. */
  function Tail(s: seq<byte>): seq<byte>
    requires |s| < 4
  {
    var at := i requires 0 <= i => if i < |s| then Find(s[i]) else 255;
    if s == [] then [] else Octets(at(0), at(1), at(2), at(3))[..|s| - 1]
  }

  function Decode(s: seq<byte>): seq<byte> {
    var k := PrefixLength(s);
    if k < 4 then Tail(s[..k])
    else Octets(Find(s[0]), Find(s[1]), Find(s[2]), Find(s[3])) + Decode(s[4..])
  }

  // ---- The standard's alphabet and digits ----

  /** Table 1 of RFC 4648. */
  lemma AlphabetIs(v: sextet)
    ensures v <= 25 ==> Symbol(v) == 'A' as int + v
    ensures 26 <= v <= 51 ==> Symbol(v) == 'a' as int + v - 26
    ensures 52 <= v <= 61 ==> Symbol(v) == '0' as int + v - 52
    ensures Symbol(62) == '+' as int && Symbol(63) == '/' as int && PAD == '=' as int
  {}

  /** Three bytes and four sextets are the digits of one number, the first the most significant. */
  lemma SextetsAreDigits(a: byte, b: byte, c: byte)
    ensures var v := Sextets(a, b, c);
            a as int * 0x1_0000 + b as int * 0x100 + c
            == v[0] as int * 0x4_0000 + v[1] as int * 0x1000 + v[2] as int * 0x40 + v[3]
  {
    assert a == a / 4 * 4 + a % 4 && b == b / 16 * 16 + b % 16 && c == c / 64 * 64 + c % 64;
  }

  lemma OctetsAreDigits(a: sextet, b: sextet, c: sextet, d: sextet)
    ensures var o := Octets(a, b, c, d);
            o[0] as int * 0x1_0000 + o[1] as int * 0x100 + o[2]
            == a as int * 0x4_0000 + b as int * 0x1000 + c as int * 0x40 + d
  {
    hide Octets, Sextets;
    var o := Octets(a, b, c, d);
    SextetsInvertOctets(a, b, c, d);
    SextetsAreDigits(o[0], o[1], o[2]);
  }

  /** One byte from two left-over characters, two from three, none from one: the leading bits. */
  lemma TailIsLeadingBits(s: seq<byte>)
    requires |s| < 4 && forall i :: 0 <= i < |s| ==> IsBase64(s[i])
    ensures |s| <= 1 ==> Tail(s) == []
    ensures |s| == 2 ==> Tail(s) == [(Find(s[0]) as int * 64 + Find(s[1])) / 16]
    ensures |s| == 3 ==> |Tail(s)| == 2 && Tail(s)[0] as int * 0x100 + Tail(s)[1]
                                           == (Find(s[0]) as int * 0x1000 + Find(s[1]) as int * 64 + Find(s[2])) / 4
  {
    forall i | 0 <= i < |s|
      ensures Find(s[i]) < 64
    {
      SymbolInvertsFind(s[i]);
    }
    if |s| == 2 {
      TwoBits(s, Find(s[0]), Find(s[1]));
    } else if |s| == 3 {
      ThreeBits(s, Find(s[0]), Find(s[1]), Find(s[2]));
    }
  }

  lemma TwoBits(s: seq<byte>, a: sextet, b: sextet)
    requires |s| == 2 && Find(s[0]) == a && Find(s[1]) == b
    ensures Tail(s) == [(a as int * 64 + b) / 16]
  {
    hide Find, Octets;
    FillNeverShows(s, b, 0, 0);
    OctetsAreDigits(a, b, 0, 0);
    assert |Octets(a, b, 0, 0)[..1]| == 1;
  }

  lemma ThreeBits(s: seq<byte>, a: sextet, b: sextet, c: sextet)
    requires |s| == 3 && Find(s[0]) == a && Find(s[1]) == b && Find(s[2]) == c
    ensures |Tail(s)| == 2 && Tail(s)[0] as int * 0x100 + Tail(s)[1] == (a as int * 0x1000 + b as int * 64 + c) / 4
  {
    hide Find, Octets;
    FillNeverShows(s, b, c, 0);
    OctetsAreDigits(a, b, c, 0);
  }

  // ---- Laws ----

  lemma Pack(high: int, low: int, width: int)
    requires width in {4, 16, 64} && 0 <= low < width
    ensures (high * width + low) / width == high && (high * width + low) % width == low
  {
    if width == 4 {
    } else if width == 16 {
    } else {
    }
  }

  lemma OctetsInvertSextets(a: byte, b: byte, c: byte)
    ensures var v := Sextets(a, b, c); Octets(v[0], v[1], v[2], v[3]) == [a, b, c]
  {
    Pack(a % 4, b / 16, 16);
    Pack(b % 16, c / 64, 4);
    assert c == c / 64 * 64 + c % 64 && b == b / 16 * 16 + b % 16 && a == a / 4 * 4 + a % 4;
  }

  lemma SextetsInvertOctets(a: sextet, b: sextet, c: sextet, d: sextet)
    ensures var o := Octets(a, b, c, d); Sextets(o[0], o[1], o[2]) == [a, b, c, d]
  {
    var x, y, z := a * 4 + b / 16, b % 16 * 16 + c / 4, c % 4 * 64 + d;
    assert x / 4 == a && x % 4 == b / 16;
    assert y / 16 == b % 16 && y % 16 == c / 4;
    assert z / 64 == c % 4 && z % 64 == d;
    assert Octets(a, b, c, d) == [x, y, z];
  }

  lemma {:induction false} EncodedShape(b: seq<byte>)
    ensures |Encode(b)| == (|b| + 2) / 3 * 4
    ensures PrefixLength(Encode(b)) == (|b| * 4 + 2) / 3
    ensures forall i :: PrefixLength(Encode(b)) <= i < |Encode(b)| ==> Encode(b)[i] == PAD
  {
    if |b| >= 3 {
      hide Symbol, Sextets, PrefixLength;
      assert ((|b| - 3) * 4 + 2) / 3 + 4 == (|b| * 4 + 2) / 3 && (|b| - 3 + 2) / 3 * 4 + 4 == (|b| + 2) / 3 * 4;
      EncodedShape(b[3..]);
      PrefixOfGroup(Symbols(Sextets(b[0], b[1], b[2])), Encode(b[3..]), Sextets(b[0], b[1], b[2]));
    } else {
      AlphabetThenPad(b);
    }
  }

  lemma AlphabetThenPad(b: seq<byte>)
    requires |b| < 3
    ensures |Encode(b)| == (|b| + 2) / 3 * 4 && PrefixLength(Encode(b)) == (|b| * 4 + 2) / 3
    ensures forall i :: PrefixLength(Encode(b)) <= i < |Encode(b)| ==> Encode(b)[i] == PAD
  {
    hide Symbol, Sextets, PrefixLength;
    if |b| > 0 {
      var v := Sextets(b[0], if |b| == 2 then b[1] else 0, 0);
      FindInvertsSymbol(v[0]);
      FindInvertsSymbol(v[1]);
      FindInvertsSymbol(v[2]);
      PrefixIs(Encode(b), |b| + 1);
    } else {
      PrefixIs([], 0);
    }
  }

  lemma {:induction false} PrefixIs(s: seq<byte>, k: nat)
    requires k <= |s| && (forall i :: 0 <= i < k ==> IsBase64(s[i])) && (k < |s| ==> !IsBase64(s[k]))
    ensures PrefixLength(s) == k
  {
    if k > 0 {
      PrefixIs(s[1..], k - 1);
    }
  }

  lemma PrefixOfGroup(group: seq<byte>, rest: seq<byte>, v: seq<sextet>)
    requires |group| == |v| == 4 && group == Symbols(v)
    ensures PrefixLength(group + rest) == 4 + PrefixLength(rest)
  {
    forall i | 0 <= i < 4
      ensures IsBase64(group[i])
    {
      FindInvertsSymbol(v[i]);
    }
    PrefixIs(group + rest, 4 + PrefixLength(rest));
  }

  /** Decoding an encoding gives back the bytes. */
  lemma {:induction false} RoundTrip(b: seq<byte>)
    ensures Decode(Encode(b)) == b
  {
    if |b| >= 3 {
      var v, rest := Sextets(b[0], b[1], b[2]), Encode(b[3..]);
      PrefixOfGroup(Symbols(v), rest, v);
      RoundTrip(b[3..]);
      GroupDecodes(b[0], b[1], b[2], rest);
    } else if |b| > 0 {
      TailDecodes(b);
    }
  }

  lemma GroupDecodes(a: byte, b: byte, c: byte, rest: seq<byte>)
    ensures Decode(Symbols(Sextets(a, b, c)) + rest) == [a, b, c] + Decode(rest)
  {
    var v := Sextets(a, b, c);
    var s := Symbols(v) + rest;
    PrefixOfGroup(Symbols(v), rest, v);
    OctetsInvertSextets(a, b, c);
    FindInvertsSymbol(v[0]);
    FindInvertsSymbol(v[1]);
    FindInvertsSymbol(v[2]);
    FindInvertsSymbol(v[3]);
    assert s[4..] == rest;
  }

  lemma TailDecodes(b: seq<byte>)
    requires 0 < |b| < 3
    ensures Decode(Encode(b)) == b
  {
    hide Symbol, Find, Sextets, Octets, Tail, PrefixLength;
    var c := if |b| == 2 then b[1] else 0;
    var v, e := Sextets(b[0], c, 0), Encode(b);
    AlphabetThenPad(b);
    var s := e[..|b| + 1];
    assert s == Symbols(v[..|b| + 1]);
    forall i | 0 <= i <= |b|
      ensures Find(s[i]) == v[i]
    {
      FindInvertsSymbol(v[i]);
    }
    FillNeverShows(s, v[1], v[2], v[3]);
    OctetsInvertSextets(b[0], c, 0);
    assert Tail(s) == [b[0], c, 0][..|b|];
  }

  function Sextet(s: seq<byte>, i: nat, fill: byte): byte { if i < |s| then Find(s[i]) else fill }

  /** The failed lookups that fill a short last group do not reach the output. */
  lemma FillNeverShows(s: seq<byte>, x: byte, y: byte, z: byte)
    requires 0 < |s| < 4
    ensures Tail(s) == Octets(Sextet(s, 0, 0), Sextet(s, 1, x), Sextet(s, 2, y), Sextet(s, 3, z))[..|s| - 1]
  {}

  /** On any string whatever: three quarters of its alphabet prefix, and nothing after the prefix matters. */
  lemma {:induction false} DecodesPrefixOnly(s: seq<byte>)
    ensures |Decode(s)| == PrefixLength(s) * 3 / 4
    ensures Decode(s) == Decode(s[..PrefixLength(s)])
  {
    var k := PrefixLength(s);
    PrefixIs(s[..k], k);
    if k >= 4 {
      PrefixIs(s[4..], k - 4);
      DecodesPrefixOnly(s[4..]);
      assert s[..k][4..] == s[4..][..k - 4];
    } else {
      assert s[..k][..k] == s[..k];
    }
  }

  /** Canonical encodings, section 3.5 of RFC 4648: whole groups, at most two pads at the end and
      nothing else outside the alphabet, and zero for the bits the last character does not need. */
  predicate Canonical(s: seq<byte>) {
    var k := PrefixLength(s);
    && |s| % 4 == 0 && |s| - k <= 2
    && (forall i :: k <= i < |s| ==> s[i] == PAD)
    && (k % 4 == 2 ==> Find(s[k - 1]) % 16 == 0)
    && (k % 4 == 3 ==> Find(s[k - 1]) % 4 == 0)
  }

  /** A string survives decoding and encoding exactly when it is canonical. */
  lemma {:induction false} ReencodesIffCanonical(s: seq<byte>)
    ensures Encode(Decode(s)) == s <==> Canonical(s)
  {
    var k := PrefixLength(s);
    if k >= 4 {
      PrefixIs(s[4..], k - 4);
      ReencodesIffCanonical(s[4..]);
      GroupReencodes(s);
      CanonicalGroup(s);
    } else {
      ShortReencodes(s);
    }
  }

  lemma CanonicalGroup(s: seq<byte>)
    requires PrefixLength(s) >= 4 && PrefixLength(s[4..]) == PrefixLength(s) - 4
    ensures Canonical(s) <==> Canonical(s[4..])
  {
    hide PrefixLength, Find, IsBase64;
    var k, t := PrefixLength(s), s[4..];
    assert forall i :: 4 <= i < |s| ==> s[i] == t[i - 4];
    assert k > 4 ==> s[k - 1] == t[k - 5];
    assert forall i :: 0 <= i < |t| ==> t[i] == s[i + 4];
  }

  lemma GroupReencodes(s: seq<byte>)
    requires PrefixLength(s) >= 4
    ensures Encode(Decode(s)) == s[..4] + Encode(Decode(s[4..]))
  {
    var a, b, c, d := Find(s[0]), Find(s[1]), Find(s[2]), Find(s[3]);
    forall i | 0 <= i < 4
      ensures Find(s[i]) < 64 && Symbol(Find(s[i])) == s[i]
    {
      SymbolInvertsFind(s[i]);
    }
    SextetsInvertOctets(a, b, c, d);
    var o, rest := Octets(a, b, c, d), Decode(s[4..]);
    assert (o + rest)[3..] == rest;
    assert Symbols([a, b, c, d]) == s[..4];
  }

  lemma ShortReencodes(s: seq<byte>)
    requires PrefixLength(s) < 4
    ensures Encode(Decode(s)) == s <==> Canonical(s)
  {
    var k := PrefixLength(s);
    hide Symbol, Find, Sextets, Octets, Tail, PrefixLength;
    forall i | 0 <= i < k
      ensures Find(s[i]) < 64 && Symbol(Find(s[i])) == s[i]
    {
      SymbolInvertsFind(s[i]);
    }
    if k == 2 {
      var low := Find(s[1]) / 16 * 16;
      TwoReencode(s[..2], Find(s[0]), Find(s[1]));
      SymbolsDiffer(low, Find(s[1]));
      assert Encode(Decode(s)) == [s[0], Symbol(low), PAD, PAD];
    } else if k == 3 {
      var low := Find(s[2]) / 4 * 4;
      ThreeReencode(s[..3], Find(s[0]), Find(s[1]), Find(s[2]));
      SymbolsDiffer(low, Find(s[2]));
      assert Encode(Decode(s)) == [s[0], s[1], Symbol(low), PAD];
    } else {
      assert Decode(s) == [] by { ShortTail(s[..k]); }
    }
  }

  lemma ShortTail(s: seq<byte>)
    requires |s| < 2
    ensures Tail(s) == []
  {}

  lemma FirstOctet(a: sextet, b: sextet)
    ensures var o, p := Octets(a, b / 16 * 16, 0, 0), Octets(a, b, 0, 0);
            o[0] == p[0] && o[1] == o[2] == 0
  {
    Pack(b / 16, 0, 16);
  }

  lemma TwoReencode(s: seq<byte>, a: sextet, b: sextet)
    requires |s| == 2 && Find(s[0]) == a && Find(s[1]) == b
    ensures Encode(Tail(s)) == [Symbol(a), Symbol(b / 16 * 16), PAD, PAD]
  {
    hide Symbol, Find;
    FirstOctet(a, b);
    SextetsInvertOctets(a, b / 16 * 16, 0, 0);
    var o := Octets(a, b / 16 * 16, 0, 0);
    hide Octets, Sextets;
    FillNeverShows(s, b, 0, 0);
    assert Tail(s) == [o[0]];
    assert Sextets(o[0], 0, 0)[..2] == [a, b / 16 * 16];
  }

  lemma ThreeReencode(s: seq<byte>, a: sextet, b: sextet, c: sextet)
    requires |s| == 3 && Find(s[0]) == a && Find(s[1]) == b && Find(s[2]) == c
    ensures Encode(Tail(s)) == [Symbol(a), Symbol(b), Symbol(c / 4 * 4), PAD]
  {
    hide Symbol, Find;
    SextetsInvertOctets(a, b, c / 4 * 4, 0);
    SecondOctet(a, b, c);
    var o := Octets(a, b, c / 4 * 4, 0);
    hide Octets, Sextets;
    FillNeverShows(s, b, c, 0);
    assert Tail(s) == [o[0], o[1]];
    assert Sextets(o[0], o[1], 0)[..3] == [a, b, c / 4 * 4];
  }

  lemma SecondOctet(a: sextet, b: sextet, c: sextet)
    ensures var o, p := Octets(a, b, c / 4 * 4, 0), Octets(a, b, c, 0);
            o[0] == p[0] && o[1] == p[1] && o[2] == 0
  {
    Pack(c / 4, 0, 4);
  }

  lemma SymbolsDiffer(x: sextet, y: sextet)
    ensures Symbol(x) == Symbol(y) <==> x == y
  {
    FindInvertsSymbol(x);
    FindInvertsSymbol(y);
  }

  // ---- The loops ----

  /** One character at a time; a group of four is written when three bytes are there. */
  method Base64Encode(toEncode: array?<byte>, len: u32) returns (ret: seq<byte>)
    requires toEncode != null ==> len <= toEncode.Length
    requires len < 0x8000_0000
    ensures ret == if toEncode == null then [] else Encode(toEncode[..len])
  {
    EncodeSplit([]);
    hide Symbol, Sextets, Encode, Symbols;
    ret := [];
    if len == 0 || toEncode == null {
      return;
    }
    var length: int := len;
    var i, at := 0, 0;
    var charArray3 := new byte[3];
    var charArray4 := new byte[4];
    ghost var all := toEncode[..len];
    ghost var pending := all;
    while length != 0
      invariant 0 <= length && at == len - length && 0 <= i < 3
      invariant pending == charArray3[..i] + all[at..]
      invariant ret + Encode(pending) == Encode(all)
      invariant toEncode[..len] == all
      decreases length
    {
      length := length - 1;
      charArray3[i] := toEncode[at];
      i, at := i + 1, at + 1;
      assert pending == charArray3[..i] + all[at..];
      if i == 3 {
        ret := EncodeGroup(ret, charArray3, charArray4, pending);
        i := 0;
        pending := pending[3..];
      }
    }
    assert pending == charArray3[..i];
    if i > 0 {
      ret := EncodeRest(ret, charArray3, charArray4, i);
    }
  }

  /** A full group of three bytes, written as four characters. */
  method EncodeGroup(soFar: seq<byte>, charArray3: array<byte>, charArray4: array<byte>, ghost pending: seq<byte>)
    returns (ret: seq<byte>)
    requires charArray3.Length == 3 && charArray4.Length == 4
    requires |pending| >= 3 && pending[..3] == charArray3[..]
    modifies charArray4
    ensures ret + Encode(pending[3..]) == soFar + Encode(pending)
  {
    hide Symbol, Sextets, Encode, Symbols;
    assert forall j :: 0 <= j < 3 ==> charArray3[j] == pending[..3][j] == pending[j];
    EncodeSplit(pending);
    FillArray4(charArray3, charArray4);
    ret := AppendSymbols(soFar, charArray4, 4);
    assert charArray4[..4] == charArray4[..];
  }

  lemma EncodeSplit(b: seq<byte>)
    ensures |b| >= 3 ==> Encode(b) == Symbols(Sextets(b[0], b[1], b[2])) + Encode(b[3..])
    ensures b == [] ==> Encode(b) == []
  {
    hide Symbol, Symbols, Sextets;
  }

  /** The one or two bytes left over: zeros for the missing ones, and pads for what they would give. */
  method EncodeRest(soFar: seq<byte>, charArray3: array<byte>, charArray4: array<byte>, left: nat)
    returns (ret: seq<byte>)
    requires charArray3.Length == 3 && charArray4.Length == 4 && 0 < left < 3
    modifies charArray3, charArray4
    ensures ret == soFar + Encode(old(charArray3[..left]))
  {
    hide Symbol, Sextets;
    var i := left;
    for j := i to 3
      invariant charArray3[..left] == old(charArray3[..left]) && forall m :: left <= m < j ==> charArray3[m] == 0
    {
      charArray3[j] := 0;
    }
    FillArray4(charArray3, charArray4);
    ret := AppendSymbols(soFar, charArray4, i + 1);
    assert charArray4[..i + 1] == Sextets(charArray3[0], charArray3[1], charArray3[2])[..i + 1];
    ghost var unpadded := ret;
    while i < 3
      invariant left <= i <= 3 && ret == unpadded + [PAD, PAD][..i - left]
    {
      i := i + 1;
      ret := ret + [PAD];
    }
    assert old(charArray3[..left])[0] == charArray3[..left][0];
    assert left == 2 ==> old(charArray3[..left])[1] == charArray3[..left][1];
  }

  method FillArray4(charArray3: array<byte>, charArray4: array<byte>)
    requires charArray3.Length == 3 && charArray4.Length == 4
    modifies charArray4
    ensures charArray4[..] == Sextets(charArray3[0], charArray3[1], charArray3[2])
  {
    charArray4[0] := charArray3[0] / 4;
    charArray4[1] := charArray3[0] % 4 * 16 + charArray3[1] / 16;
    charArray4[2] := charArray3[1] % 16 * 4 + charArray3[2] / 64;
    charArray4[3] := charArray3[2] % 64;
  }

  method AppendSymbols(ret: seq<byte>, charArray4: array<byte>, n: nat) returns (r: seq<byte>)
    requires charArray4.Length == 4 && n <= 4 && forall i :: 0 <= i < 4 ==> charArray4[i] < 64
    ensures r == ret + Symbols(charArray4[..n])
  {
    r := ret;
    for j := 0 to n
      invariant r == ret + Symbols(charArray4[..j])
    {
      r := r + [Symbol(charArray4[j])];
    }
  }

  /** One character at a time, up to the first that is not in the alphabet; three bytes are written when
      four characters are there, and what is left over at the end as far as it goes. */
  method Base64Decode(basicString: seq<byte>) returns (ret: seq<byte>)
    requires |basicString| < 0x8000_0000
    ensures ret == Decode(basicString)
  {
    PadIsNoSymbol();
    NothingToDecode();
    hide Find, Octets, IsBase64, Decode, Tail, PrefixLength;
    ret := [];
    if basicString == [] {
      return;
    }
    var i, index := 0, 0;
    var len: int := |basicString|;
    var charArray3 := new byte[3];
    var charArray4 := new byte[4];
    ghost var pending := basicString;
    while len != 0 && basicString[index] != PAD && IsBase64(basicString[index])
      invariant 0 <= len && index == |basicString| - len && 0 <= i < 4
      invariant forall j :: 0 <= j < i ==> IsBase64(charArray4[j])
      invariant pending == charArray4[..i] + basicString[index..]
      invariant ret + Decode(pending) == Decode(basicString)
      decreases len
    {
      len := len - 1;
      charArray4[i] := basicString[index];
      i := i + 1;
      index := index + 1;
      assert pending == charArray4[..i] + basicString[index..];
      if i == 4 {
        ret := DecodeGroup(ret, charArray3, charArray4, pending);
        i := 0;
        pending := pending[4..];
      }
    }
    DecodeAtEnd(charArray4[..i], basicString[index..]);
    if i > 0 {
      ret := DecodeRest(ret, charArray3, charArray4, i);
    }
  }

  /** A full group of four characters, written as three bytes. */
  method DecodeGroup(soFar: seq<byte>, charArray3: array<byte>, charArray4: array<byte>, ghost pending: seq<byte>)
    returns (ret: seq<byte>)
    requires charArray3.Length == 3 && charArray4.Length == 4 && charArray3 != charArray4
    requires |pending| >= 4 && pending[..4] == charArray4[..] && forall j :: 0 <= j < 4 ==> IsBase64(charArray4[j])
    modifies charArray3, charArray4
    ensures ret + Decode(pending[4..]) == soFar + Decode(pending)
  {
    hide Find, Octets, IsBase64, Decode, Tail, PrefixLength;
    assert forall j :: 0 <= j < 4 ==> charArray4[j] == pending[..4][j] == pending[j];
    PrefixAtLeast(pending, 4);
    DecodeSplit(pending);
    LookUp(charArray4);
    FillArray3(charArray3, charArray4);
    ret := soFar + charArray3[..];
  }

  lemma NothingToDecode()
    ensures Decode([]) == []
  {}

  /** Less than a group, and nothing of the alphabet behind it. */
  lemma DecodeAtEnd(left: seq<byte>, rest: seq<byte>)
    requires |left| < 4 && (forall j :: 0 <= j < |left| ==> IsBase64(left[j]))
    requires rest == [] || !IsBase64(rest[0])
    ensures Decode(left + rest) == Tail(left) && (left == [] ==> Decode(left + rest) == [])
  {
    hide Find, Octets, IsBase64, Decode, Tail, PrefixLength;
    var s := left + rest;
    assert forall j :: 0 <= j < |left| ==> s[j] == left[j];
    PrefixIs(s, |left|);
    DecodeSplit(s);
    assert s[..|left|] == left;
  }

  lemma DecodeSplit(s: seq<byte>)
    ensures PrefixLength(s) >= 4 ==>
              Decode(s) == Octets(Find(s[0]), Find(s[1]), Find(s[2]), Find(s[3])) + Decode(s[4..])
    ensures PrefixLength(s) < 4 ==> Decode(s) == Tail(s[..PrefixLength(s)])
    ensures PrefixLength(s) == 0 ==> Decode(s) == []
  {}

  lemma PadIsNoSymbol()
    ensures !IsBase64(PAD)
  {}

  /** The one to three characters left over. */
  method DecodeRest(soFar: seq<byte>, charArray3: array<byte>, charArray4: array<byte>, left: nat)
    returns (ret: seq<byte>)
    requires charArray3.Length == 3 && charArray4.Length == 4 && 0 < left < 4
    modifies charArray3, charArray4
    ensures ret == soFar + Tail(old(charArray4[..left]))
  {
    hide Octets;
    ghost var tail := charArray4[..left];
    for j := left to 4
      invariant charArray4[..left] == tail && forall m :: left <= m < j ==> charArray4[m] == 0
    {
      charArray4[j] := 0;
    }
    assert forall m :: 0 <= m < left ==> charArray4[m] == tail[m];
    LookUp(charArray4);
    FillArray3(charArray3, charArray4);
    FillNeverShows(tail, charArray4[1], charArray4[2], charArray4[3]);
    ret := soFar;
    for j := 0 to left - 1
      invariant ret == soFar + charArray3[..j]
    {
      ret := ret + [charArray3[j]];
    }
  }

  lemma {:induction false} PrefixAtLeast(s: seq<byte>, k: nat)
    requires k <= |s| && forall i :: 0 <= i < k ==> IsBase64(s[i])
    ensures PrefixLength(s) >= k
  {
    if k > 0 {
      PrefixAtLeast(s[1..], k - 1);
    }
  }

  /** Each of the four characters replaced by its place in the alphabet. */
  method LookUp(charArray4: array<byte>)
    requires charArray4.Length == 4
    modifies charArray4
    ensures forall j :: 0 <= j < 4 ==> charArray4[j] == Find(old(charArray4[j]))
  {
    for j := 0 to 4
      invariant forall m :: 0 <= m < 4 ==>
                  charArray4[m] == if m < j then Find(old(charArray4[m])) else old(charArray4[m])
    {
      charArray4[j] := Find(charArray4[j]);
    }
  }

  method FillArray3(charArray3: array<byte>, charArray4: array<byte>)
    requires charArray3.Length == 3 && charArray4.Length == 4
    modifies charArray3
    ensures charArray3[..] == Octets(charArray4[0], charArray4[1], charArray4[2], charArray4[3])
  {
    charArray3[0] := (charArray4[0] as int * 4 + charArray4[1] as int / 16 % 4) % 0x100;
    charArray3[1] := (charArray4[1] % 16 * 16 + charArray4[2] / 4 % 16) % 0x100;
    charArray3[2] := (charArray4[2] as int % 4 * 64 + charArray4[3]) % 0x100;
  }
}
