/** The fault pipeline: configured faults are applied to a packet in order until one drops it. */
module FaultInjection {
  import opened Bytes
  import opened Buffers

  datatype Kind = PacketDrop | PacketDelay | FormatCorruption | MemoryLeak | ThreadBlock | ResourceExhaustion

  datatype Config = Config(kind: Kind, probability: real, enabled: bool)

  datatype Stats = Stats(processed: u64, dropped: u64, delayed: u64, corrupted: u64)

  const HEAD := 4

  /** The draw stands for the generator's next value in [0, 1). */
  function ShouldInjectFault(probability: real, draw: real): (r: bool)
    ensures 0.0 <= draw < 1.0 ==> (r <==> draw < probability)
  {
    if probability <= 0.0 then false else if probability >= 1.0 then true else draw < probability
  }

  predicate Fires(cs: seq<Config>, draws: seq<real>, i: nat, k: Kind)
    requires i < |cs| == |draws|
  {
    cs[i].enabled && ShouldInjectFault(cs[i].probability, draws[i]) && cs[i].kind == k
  }

  /** How many of the first n configurations fire as k. */
  function Times(cs: seq<Config>, draws: seq<real>, n: nat, k: Kind): nat
    requires n <= |cs| == |draws|
  {
    |set i: nat | i < n && Fires(cs, draws, i, k)|
  }

  predicate Drops(cs: seq<Config>, draws: seq<real>)
    requires |cs| == |draws|
  {
    exists i: nat :: i < |cs| && Fires(cs, draws, i, PacketDrop)
  }

  /** Where the pipeline ends: right after the first drop, or after the last configuration. */
  predicate EndsAt(cs: seq<Config>, draws: seq<real>, n: nat)
    requires |cs| == |draws|
  {
    && n <= |cs|
    && (forall i: nat :: i < n - 1 ==> !Fires(cs, draws, i, PacketDrop))
    && (n == |cs| || (n > 0 && Fires(cs, draws, n - 1, PacketDrop)))
  }

  function End(cs: seq<Config>, draws: seq<real>, from: nat): (n: nat)
    requires from <= |cs| == |draws| && forall i: nat :: i < from ==> !Fires(cs, draws, i, PacketDrop)
    ensures EndsAt(cs, draws, n)
    decreases |cs| - from
  {
    if from == |cs| then from else if Fires(cs, draws, from, PacketDrop) then from + 1 else End(cs, draws, from + 1)
  }

  function Inverted(s: seq<byte>): (r: seq<byte>)
    ensures |r| == |s| && forall i :: 0 <= i < |s| ==> r[i] == if i < 4 then 255 - s[i] else s[i]
  {
    seq(|s|, i requires 0 <= i < |s| => if i < HEAD then 0xff - s[i] else s[i])
  }

  function Corrupted(s: seq<byte>, times: nat): (r: seq<byte>) {
    if times == 0 then s else Inverted(Corrupted(s, times - 1))
  }

  /** Only the parity counts: an even number of corruptions restores the packet, an odd number changes every
      one of the first four bytes and no other. */
  lemma {:induction false} OnlyParityCounts(s: seq<byte>, times: nat)
    ensures Corrupted(s, times) == if times % 2 == 1 then Inverted(s) else s
    ensures s != [] ==> (Corrupted(s, times) == s <==> times % 2 == 0)
    ensures |Corrupted(s, times)| == |s| && forall i :: 0 <= i < |s| ==>
              Corrupted(s, times)[i] == if times % 2 == 1 && i < 4 then 255 - s[i] else s[i]
  {
    assert Inverted(Inverted(s)) == s;
    assert s != [] ==> Inverted(s)[0] != s[0];
    if times > 0 {
      OnlyParityCounts(s, times - 1);
    }
  }

  lemma TimesNext(cs: seq<Config>, draws: seq<real>, n: nat, k: Kind)
    requires n < |cs| == |draws|
    ensures Times(cs, draws, n + 1, k) == Times(cs, draws, n, k) + if Fires(cs, draws, n, k) then 1 else 0
  {
    hide Fires;
    var now := set i: nat | i < n && Fires(cs, draws, i, k);
    var next := set i: nat | i < n + 1 && Fires(cs, draws, i, k);
    assert next == if Fires(cs, draws, n, k) then now + {n} else now;
  }

  /** The pipeline has exactly one end, at most one drop before it, and that one exactly when a drop fires. */
  lemma EndIsUnique(cs: seq<Config>, draws: seq<real>, n: nat, m: nat)
    requires |cs| == |draws| && EndsAt(cs, draws, n) && EndsAt(cs, draws, m)
    ensures n == m && Times(cs, draws, n, PacketDrop) == if Drops(cs, draws) then 1 else 0
  {
    hide Fires;
    var dropped := set i: nat | i < n && Fires(cs, draws, i, PacketDrop);
    if Drops(cs, draws) {
      var i: nat :| i < |cs| && Fires(cs, draws, i, PacketDrop);
      assert dropped == {n - 1};
    } else {
      assert dropped == {};
    }
  }

  lemma EndsHere(cs: seq<Config>, draws: seq<real>, n: nat)
    requires |cs| == |draws| && EndsAt(cs, draws, n)
    ensures End(cs, draws, 0) == n
    ensures Drops(cs, draws) <==> n > 0 && Fires(cs, draws, n - 1, PacketDrop)
  {
    hide Fires, End;
    EndIsUnique(cs, draws, End(cs, draws, 0), n);
  }

  /** What one more configuration adds to the counts. */
  lemma OneMore(cs: seq<Config>, draws: seq<real>, n: nat, before: Stats)
    requires n < |cs| == |draws|
    ensures Times(cs, draws, n + 1, FormatCorruption)
         == Times(cs, draws, n, FormatCorruption) + if Fires(cs, draws, n, FormatCorruption) then 1 else 0
    ensures Counted(cs, before, draws, n + 1)
         == var c := Counted(cs, before, draws, n);
            if Fires(cs, draws, n, PacketDrop) then c.(dropped := (c.dropped + 1) % TWO64)
            else if Fires(cs, draws, n, PacketDelay) then c.(delayed := (c.delayed + 1) % TWO64)
            else if Fires(cs, draws, n, FormatCorruption) then c.(corrupted := (c.corrupted + 1) % TWO64)
            else c
  {
    hide Times, ShouldInjectFault;
    TimesNext(cs, draws, n, PacketDrop);
    TimesNext(cs, draws, n, PacketDelay);
    TimesNext(cs, draws, n, FormatCorruption);
    Wraps(before.dropped, Times(cs, draws, n, PacketDrop));
    Wraps(before.delayed, Times(cs, draws, n, PacketDelay));
    Wraps(before.corrupted, Times(cs, draws, n, FormatCorruption));
  }

  lemma Wraps(x: u64, k: nat)
    ensures ((x + k) % TWO64 + 1) % TWO64 == (x + (k + 1)) % TWO64
  {}

  /** The counters after the first n configurations, 64 bits wide each. */
  function Counted(cs: seq<Config>, before: Stats, draws: seq<real>, n: nat): Stats
    requires n <= |cs| == |draws|
  {
    Stats((before.processed + 1) % TWO64,
          (before.dropped + Times(cs, draws, n, PacketDrop)) % TWO64,
          (before.delayed + Times(cs, draws, n, PacketDelay)) % TWO64,
          (before.corrupted + Times(cs, draws, n, FormatCorruption)) % TWO64)
  }

  lemma NoneYet(cs: seq<Config>, draws: seq<real>, before: Stats)
    requires |cs| == |draws|
    ensures Times(cs, draws, 0, FormatCorruption) == 0
    ensures Counted(cs, before, draws, 0) == before.(processed := (before.processed + 1) % TWO64)
  {
  }

  lemma InvertedInside(from: seq<byte>, to: seq<byte>, at: nat, size: nat)
    requires at + size <= |from| == |to|
    requires forall k :: at <= k < at + size ==> to[k] == if k - at < HEAD then 0xff - from[k] else from[k]
    ensures to[at..at + size] == Inverted(from[at..at + size])
  {}

  // ---- The pipeline by the fields of its configurations ----

  predicate DrawsValid(draws: seq<real>) { forall i :: 0 <= i < |draws| ==> 0.0 <= draws[i] < 1.0 }

  /** Configuration i is enabled, of kind k, and its draw is below its probability. */
  predicate Hits(cs: seq<Config>, draws: seq<real>, i: nat, k: Kind)
    requires i < |cs| == |draws|
  {
    cs[i].enabled == true && cs[i].kind == k && draws[i] < cs[i].probability
  }

  lemma FiresIff(cs: seq<Config>, draws: seq<real>, k: Kind)
    requires |cs| == |draws| && DrawsValid(draws)
    ensures forall i: nat :: i < |cs| ==> (Fires(cs, draws, i, k) <==> Hits(cs, draws, i, k))
    ensures forall n: nat :: n <= |cs| ==> Times(cs, draws, n, k) == |set i: nat | i < n && Hits(cs, draws, i, k)|
    ensures k == PacketDrop ==> (Drops(cs, draws) <==> exists i: nat :: i < |cs| && Hits(cs, draws, i, k))
  {
    forall n: nat | n <= |cs|
      ensures Times(cs, draws, n, k) == |set i: nat | i < n && Hits(cs, draws, i, k)|
    {
      assert (set i: nat | i < n && Fires(cs, draws, i, k)) == (set i: nat | i < n && Hits(cs, draws, i, k));
    }
  }

  /** The enabled configurations, and their draws. */
  function Enabled(cs: seq<Config>, draws: seq<real>): (r: (seq<Config>, seq<real>))
    requires |cs| == |draws|
    ensures |r.0| == |r.1|
  {
    if cs == [] then ([], []) else
    var n := |cs| - 1;
    var before := Enabled(cs[..n], draws[..n]);
    if cs[n].enabled then (before.0 + [cs[n]], before.1 + [draws[n]]) else before
  }

  /** How often the pipeline applies a fault of kind k. */
  function Applied(cs: seq<Config>, draws: seq<real>, k: Kind): nat
    requires |cs| == |draws|
  {
    Times(cs, draws, End(cs, draws, 0), k)
  }

  lemma PrefixTimes(cs: seq<Config>, draws: seq<real>, n: nat, m: nat, k: Kind)
    requires m <= n <= |cs| == |draws|
    ensures Times(cs[..n], draws[..n], m, k) == Times(cs, draws, m, k)
  {
    assert (set i: nat | i < m && Fires(cs[..n], draws[..n], i, k)) == (set i: nat | i < m && Fires(cs, draws, i, k));
  }

  /** The last configuration counts exactly when it fires and none before it drops. */
  lemma AppliedSnoc(cs: seq<Config>, draws: seq<real>, k: Kind)
    requires |cs| == |draws| > 0
    ensures var n := |cs| - 1;
            && (Drops(cs, draws) <==> Drops(cs[..n], draws[..n]) || Fires(cs, draws, n, PacketDrop))
            && Applied(cs, draws, k) == Applied(cs[..n], draws[..n], k)
                 + if !Drops(cs[..n], draws[..n]) && Fires(cs, draws, n, k) then 1 else 0
  {
    hide Times, ShouldInjectFault;
    var n := |cs| - 1;
    var c, d := cs[..n], draws[..n];
    var e := End(c, d, 0);
    assert forall i: nat :: i < n ==> (Fires(c, d, i, PacketDrop) <==> Fires(cs, draws, i, PacketDrop));
    EndsHere(c, d, e);
    if Drops(c, d) {
      assert EndsAt(cs, draws, e);
      EndsHere(cs, draws, e);
      PrefixTimes(cs, draws, n, e, k);
    } else {
      NoDropEnds(c, d, e);
      assert EndsAt(cs, draws, n + 1);
      EndsHere(cs, draws, n + 1);
      PrefixTimes(cs, draws, n, n, k);
      TimesNext(cs, draws, n, k);
    }
  }

  /** The counters at the end of the pipeline. */
  lemma EndStats(cs: seq<Config>, draws: seq<real>, before: Stats)
    requires |cs| == |draws|
    ensures Counted(cs, before, draws, End(cs, draws, 0)) ==
              Stats((before.processed + 1) % TWO64, (before.dropped + if Drops(cs, draws) then 1 else 0) % TWO64,
                    (before.delayed + Applied(cs, draws, PacketDelay)) % TWO64,
                    (before.corrupted + Applied(cs, draws, FormatCorruption)) % TWO64)
    ensures DrawsValid(draws) ==> (Drops(cs, draws) <==> exists i: nat :: i < |cs| && Hits(cs, draws, i, PacketDrop))
  {
    hide Times, Fires, Drops, Hits, End;
    EndIsUnique(cs, draws, End(cs, draws, 0), End(cs, draws, 0));
    if DrawsValid(draws) {
      FiresIff(cs, draws, PacketDrop);
    }
  }

  lemma NoDropEnds(cs: seq<Config>, draws: seq<real>, n: nat)
    requires |cs| == |draws| && EndsAt(cs, draws, n) && !Drops(cs, draws)
    ensures n == |cs|
  {}

  /** Disabled configurations do nothing: without them, and without their draws, the pipeline drops, delays and
      corrupts exactly as often. */
  lemma {:induction false} DisabledDoNothing(cs: seq<Config>, draws: seq<real>, k: Kind)
    requires |cs| == |draws|
    ensures var e := Enabled(cs, draws);
            && (Drops(cs, draws) <==> Drops(e.0, e.1)) && Applied(cs, draws, k) == Applied(e.0, e.1, k)
  {
    hide Drops, Applied;
    if cs != [] {
      var n := |cs| - 1;
      DisabledDoNothing(cs[..n], draws[..n], k);
      AppliedSnoc(cs, draws, k);
      var e, before := Enabled(cs, draws), Enabled(cs[..n], draws[..n]);
      if cs[n].enabled {
        AppliedSnoc(e.0, e.1, k);
        assert e.0[..|before.0|] == before.0 && e.1[..|before.0|] == before.1;
      }
    }
  }

  class FaultInjector {
    var configs: seq<Config>
    var enabled: bool
    var stats: Stats

    /** A packet is lost exactly when an enabled drop fires; a packet that passes keeps its length, its head is
        inverted after an odd number of corruptions, and the counters grow by what fired up to the end. */
    method InjectFault(original: DataBuffer?, draws: seq<real>) returns (r: DataBuffer?)
      requires |draws| == |configs|
      requires original != null ==> original.Valid() && original.InRange()
      modifies this`stats
      ensures !enabled || original == null || original.rangeLength == 0 ==> r == original && stats == old(stats)
      ensures enabled && original != null && original.rangeLength != 0 ==>
                && (r == null <==> Drops(configs, draws))
                && stats == Stats((old(stats).processed + 1) % TWO64,
                                  (old(stats).dropped + if r == null then 1 else 0) % TWO64,
                                  (old(stats).delayed + Applied(configs, draws, PacketDelay)) % TWO64,
                                  (old(stats).corrupted + Applied(configs, draws, FormatCorruption)) % TWO64)
                && (r != null ==> r.Valid() && r.InRange() && (r == original || fresh(r)))
                && (r != null ==> r.Contents() == if Applied(configs, draws, FormatCorruption) % 2 == 1
                                                  then Inverted(original.Contents()) else original.Contents())
      ensures enabled && original != null && original.rangeLength != 0 && DrawsValid(draws) ==>
                (r == null <==> exists i: nat :: i < |configs| && Hits(configs, draws, i, PacketDrop))
    {
      hide Times, Counted, Inverted, ShouldInjectFault, Drops, End, Hits, DrawsValid;
      hide DataBuffer.Contents, DataBuffer.Valid, DataBuffer.InRange;
      if !enabled || original == null || original.rangeLength == 0 {
        return original;
      }
      ghost var before, s, bytes := stats, original.Contents(), original.Contents();
      EndStats(configs, draws, before);
      stats := stats.(processed := (stats.processed + 1) % TWO64);
      var current: DataBuffer := original;
      NoneYet(configs, draws, before);
      for i := 0 to |configs|
        invariant forall j: nat :: j < i ==> !Fires(configs, draws, j, PacketDrop)
        invariant stats == Counted(configs, before, draws, i)
        invariant current.Valid() && current.InRange() && |current.Contents()| == |s|
        invariant current == original || fresh(current)
        invariant current.Contents() == bytes == Corrupted(s, Times(configs, draws, i, FormatCorruption))
      {
        OneMore(configs, draws, i, before);
        if !configs[i].enabled || !ShouldInjectFault(configs[i].probability, draws[i]) {
          continue;
        }
        match configs[i].kind
        case PacketDrop =>
          stats := stats.(dropped := (stats.dropped + 1) % TWO64);
          EndsHere(configs, draws, i + 1);
          return null;
        case PacketDelay =>
          stats := stats.(delayed := (stats.delayed + 1) % TWO64);
        case FormatCorruption =>
          current := InjectFormatCorruption(current);
          bytes := Inverted(bytes);
        case _ =>
      }
      EndsHere(configs, draws, |configs|);
      OnlyParityCounts(s, Times(configs, draws, |configs|, FormatCorruption));
      return current;
    }

    /** The copy is changed, never the buffer given. */
    method InjectFormatCorruption(buffer: DataBuffer) returns (copy: DataBuffer)
      requires buffer.Valid() && buffer.InRange() && buffer.rangeLength != 0
      modifies this`stats
      ensures stats == old(stats).(corrupted := (old(stats).corrupted + 1) % TWO64)
      ensures fresh(copy) && copy.Valid() && copy.InRange() && copy.Contents() == Inverted(buffer.Contents())
    {
      hide Inverted;
      stats := stats.(corrupted := (stats.corrupted + 1) % TWO64);
      copy := new DataBuffer(buffer.capacity);
      copy.rangeOffset, copy.rangeLength := buffer.rangeOffset, buffer.rangeLength;
      var data: array<byte> := copy.data;
      forall j | 0 <= j < data.Length {
        data[j] := buffer.data[j];
      }
      InvertHead(data, copy.rangeOffset, copy.rangeLength);
      InvertedInside(Whole(buffer.data), Whole(copy.data), buffer.rangeOffset, buffer.rangeLength);
    }

    method InvertHead(data: array<byte>, at: nat, size: nat)
      requires at + size <= data.Length
      modifies data
      ensures forall k :: 0 <= k < data.Length ==>
                data[k] == if at <= k < at + size && k - at < HEAD then 0xff - old(data[k]) else old(data[k])
    {
      var corruptCount := Min(HEAD, size);
      for i := 0 to corruptCount
        invariant forall k :: 0 <= k < data.Length ==>
                    data[k] == if at <= k < at + i then 0xff - old(data[k]) else old(data[k])
      {
        data[at + i] := 0xff - data[at + i];
      }
    }
  }
}
