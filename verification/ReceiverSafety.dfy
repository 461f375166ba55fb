/** The receiver fed with arbitrary bytes: what exactly it delivers, told without its state. */
module ReceiverSafety {
  import opened Bytes
  import opened WireHeader
  import opened Reassembly

  predicate Accepted(p: seq<byte>) {
    |p| >= HEADER_LEN && WellFormed(Parse(p), p[HEADER_LEN..])
  }

  /** Packets the assembly state depends on; all others leave it as it is. */
  predicate Fragmentary(p: seq<byte>) {
    Accepted(p) && Parse(p).fragFlag in [FRAG_START, FRAG_MID, FRAG_END]
  }

  predicate Whole(p: seq<byte>) {
    Accepted(p) && Parse(p).fragFlag == FRAG_START_END && 0 < Parse(p).dataLen == Parse(p).totalLen
  }

  /** Which packets count, by their bytes: the length field says how long the packet is, and neither it nor the
      announced total goes beyond its limit; flags 1, 2 and 3 belong to fragments, 4 to a message by itself. */
  lemma CountedByBytes(p: seq<byte>)
    ensures Accepted(p) <==>
              && |p| >= 21 && |p| == 21 + Word(p, 17) && Word(p, 17) <= Word(p, 11)
              && Word(p, 17) <= 4194304 && Word(p, 11) <= 104857600
    ensures Fragmentary(p) <==> Accepted(p) && 1 <= p[2] <= 3
    ensures Whole(p) <==> Accepted(p) && p[2] == 4 && 0 < Word(p, 17) == Word(p, 11)
  {
    hide Parse;
    if |p| >= 21 {
      ParsedBytes(p);
    }
  }

  /** Positions of packets in a stream, first to last. */
  datatype Chain = First(i: nat) | Then(before: Chain, i: nat)

  function Start(c: Chain): nat { match c case First(i) => i case Then(b, _) => Start(b) }

  function Length(c: Chain): nat { match c case First(_) => 1 case Then(b, _) => Length(b) + 1 }

  predicate InStream(ps: seq<seq<byte>>, c: Chain) {
    c.i < |ps| && Accepted(ps[c.i]) && (c.Then? ==> InStream(ps, c.before))
  }

  lemma {:induction c} StartInStream(ps: seq<seq<byte>>, c: Chain)
    requires InStream(ps, c)
    ensures Start(c) < |ps| && Accepted(ps[Start(c)])
  {}

  function Announced(ps: seq<seq<byte>>, c: Chain): Header
    requires InStream(ps, c)
  {
    StartInStream(ps, c);
    Parse(ps[Start(c)])
  }

  /** The payloads at these positions, in order. */
  function Payloads(ps: seq<seq<byte>>, c: Chain): seq<byte>
    requires InStream(ps, c)
  {
    (if c.Then? then Payloads(ps, c.before) else []) + ps[c.i][HEADER_LEN..]
  }

  /** Packet i has the number and the room to be the one after those of c. */
  predicate Follows(ps: seq<seq<byte>>, c: Chain, i: nat)
    requires InStream(ps, c) && i < |ps| && Accepted(ps[i])
  {
    var first, h, done := Announced(ps, c), Parse(ps[i]), |Payloads(ps, c)|;
    && h.seqNum == first.seqNum && h.subSeq == first.subSeq + Length(c)
    && done < first.totalLen && done + h.dataLen <= first.totalLen
  }

  /** The same by their bytes: the sequence number of the first, a sub-sequence number that counts on from it. */
  lemma FollowsByBytes(ps: seq<seq<byte>>, c: Chain, i: nat)
    requires InStream(ps, c) && i < |ps| && Accepted(ps[i])
    ensures Start(c) < |ps| && |ps[Start(c)]| >= 21 && |ps[i]| >= 21
    ensures var first, p, done := ps[Start(c)], ps[i], |Payloads(ps, c)|;
            Follows(ps, c, i) <==>
              && Word(p, 7) == Word(first, 7) && Half(p, 15) == Half(first, 15) + Length(c)
              && done < Word(first, 11) && done + Word(p, 17) <= Word(first, 11)
  {
    hide Parse;
    StartInStream(ps, c);
    CountedByBytes(ps[i]);
    CountedByBytes(ps[Start(c)]);
    ParsedBytes(ps[i]);
    ParsedBytes(ps[Start(c)]);
  }

  /** Among the first n packets, c is a message begun and not ended: a START, then MIDs in number,
      and no other fragment since the START. */
  ghost predicate Open(ps: seq<seq<byte>>, n: nat, c: Chain)
    requires n <= |ps|
    ensures Open(ps, n, c) ==> InStream(ps, c)
    decreases c
  {
    && c.i < n && Fragmentary(ps[c.i])
    && (forall j :: c.i < j < n ==> !Fragmentary(ps[j]))
    && match c
       case First(i) => Parse(ps[i]).fragFlag == FRAG_START && Parse(ps[i]).totalLen > 0
       case Then(b, i) => Open(ps, i, b) && Parse(ps[i]).fragFlag == FRAG_MID && Follows(ps, b, i)
  }

  /** The collected bytes in a buffer as long as the START packet announced. */
  function Padded(ps: seq<seq<byte>>, c: Chain): seq<byte>
    requires InStream(ps, c) && |Payloads(ps, c)| <= Announced(ps, c).totalLen
  {
    Payloads(ps, c) + Zeros(Announced(ps, c).totalLen - |Payloads(ps, c)|)
  }

  /** Packet i ends the message open in c. */
  ghost predicate Ends(ps: seq<seq<byte>>, c: Chain, i: nat)
    requires i < |ps|
    ensures Ends(ps, c, i) ==> InStream(ps, Then(c, i))
    ensures Ends(ps, c, i) ==> |Payloads(ps, Then(c, i))| <= Announced(ps, Then(c, i)).totalLen
  {
    && Open(ps, i, c) && Fragmentary(ps[i]) && Parse(ps[i]).fragFlag == FRAG_END && Follows(ps, c, i)
    && Announced(ps, Then(c, i)) == Announced(ps, c)
  }

  /** What packet i delivers, by the packets before it alone. */
  ghost predicate DeliversAt(ps: seq<seq<byte>>, i: nat, message: seq<byte>)
    requires i < |ps|
  {
    || (Whole(ps[i]) && message == ps[i][HEADER_LEN..])
    || exists c :: Ends(ps, c, i) && message == Padded(ps, Then(c, i))
  }

  /** The state an open message leaves the assembler in. */
  ghost predicate Holds(ps: seq<seq<byte>>, c: Chain, a: Assembler)
    requires InStream(ps, c)
  {
    var first, done := Announced(ps, c), |Payloads(ps, c)|;
    && done <= first.totalLen && a.isWaiting
    && a.nowSeq == first.seqNum && a.nowSubSeq == first.subSeq + Length(c) - 1
    && a.offset == done && a.totalLen == first.totalLen
    && a.pack == Some(Padded(ps, c))
  }

  /** One packet on an assembler that holds c. */
  lemma NextOnOpen(ps: seq<seq<byte>>, n: nat, c: Chain, a: Assembler)
    requires n < |ps| && Open(ps, n, c) && Consistent(a) && Holds(ps, c, a)
    requires Fragmentary(ps[n]) && Parse(ps[n]).fragFlag != FRAG_START
    ensures !Follows(ps, c, n) ==> Step(a, ps[n]) == Outcome(IDLE, [])
    ensures Follows(ps, c, n) && Parse(ps[n]).fragFlag == FRAG_MID ==>
              && Step(a, ps[n]).delivered == []
              && Open(ps, n + 1, Then(c, n)) && Holds(ps, Then(c, n), Step(a, ps[n]).next)
    ensures Follows(ps, c, n) && Parse(ps[n]).fragFlag == FRAG_END ==>
              Ends(ps, c, n) && Step(a, ps[n]) == Outcome(IDLE, [Padded(ps, Then(c, n))])
  {
    hide Parse, Step, Consistent, Holds, Follows;
    if Follows(ps, c, n) {
      NextAdded(ps, n, c, a);
    } else {
      NextRefused(ps, n, c, a);
    }
  }

  lemma NextAdded(ps: seq<seq<byte>>, n: nat, c: Chain, a: Assembler)
    requires n < |ps| && Open(ps, n, c) && Consistent(a) && Holds(ps, c, a)
    requires Fragmentary(ps[n]) && Parse(ps[n]).fragFlag != FRAG_START && Follows(ps, c, n)
    ensures |Payloads(ps, Then(c, n))| <= Announced(ps, Then(c, n)).totalLen
    ensures Announced(ps, Then(c, n)) == Announced(ps, c)
    ensures var h := Parse(ps[n]);
            if h.fragFlag == FRAG_END then Step(a, ps[n]) == Outcome(IDLE, [Padded(ps, Then(c, n))])
            else Step(a, ps[n]).delivered == [] && Holds(ps, Then(c, n), Step(a, ps[n]).next)
  {
    hide Parse, Handle, Continues, Consistent, Open;
    var h, payload, done := Parse(ps[n]), ps[n][HEADER_LEN..], Payloads(ps, c);
    NextAccepted(a, done, h, payload);
    assert Payloads(ps, Then(c, n)) == done + payload;
  }

  lemma NextRefused(ps: seq<seq<byte>>, n: nat, c: Chain, a: Assembler)
    requires n < |ps| && Open(ps, n, c) && Consistent(a) && Holds(ps, c, a)
    requires Fragmentary(ps[n]) && Parse(ps[n]).fragFlag != FRAG_START && !Follows(ps, c, n)
    ensures Step(a, ps[n]) == Outcome(IDLE, [])
  {
    hide Parse, Open;
    var h, payload := Parse(ps[n]), ps[n][HEADER_LEN..];
    assert Step(a, ps[n]) == Handle(a, h, payload) == StepNext(a, h, payload);
    if Continues(a, h) {
      assert a.offset == a.totalLen;
    }
  }

  lemma StartOpens(ps: seq<seq<byte>>, n: nat, a: Assembler)
    requires n < |ps| && Consistent(a) && Fragmentary(ps[n]) && Parse(ps[n]).fragFlag == FRAG_START
    ensures Step(a, ps[n]).delivered == []
    ensures Parse(ps[n]).totalLen == 0 ==> Step(a, ps[n]).next == IDLE
    ensures Parse(ps[n]).totalLen > 0 ==> Open(ps, n + 1, First(n)) && Holds(ps, First(n), Step(a, ps[n]).next)
  {
    hide Parse;
    var h, payload := Parse(ps[n]), ps[n][HEADER_LEN..];
    assert Step(a, ps[n]) == Handle(a, h, payload) == StepStart(h, payload);
    if h.totalLen > 0 {
      CopyExtends([], h.totalLen, payload);
      assert [] + Zeros(h.totalLen) == Zeros(h.totalLen);
      assert [] + payload == payload;
    }
  }

  lemma OthersPass(p: seq<byte>, a: Assembler)
    requires Consistent(a) && !Fragmentary(p)
    ensures Step(a, p) == Outcome(a, if Whole(p) then [p[HEADER_LEN..]] else [])
  {
    hide Parse;
    if Accepted(p) && Parse(p).fragFlag == FRAG_START_END && Parse(p).dataLen == Parse(p).totalLen > 0 {
      var h, payload := Parse(p), p[HEADER_LEN..];
      CopyExtends([], h.dataLen, payload);
      assert [] + Zeros(h.dataLen) == Zeros(h.dataLen) && [] + payload + Zeros(0) == payload;
      assert Step(a, p) == Handle(a, h, payload) == StepWhole(a, h, payload);
    }
  }

  /** The state after n packets and the open message among them determine each other. */
  lemma {:induction false} StateIsOpenMessage(ps: seq<seq<byte>>, n: nat) returns (c: Chain)
    requires n <= |ps|
    ensures var a := Run(IDLE, ps, n).next;
            && (a.isWaiting ==> Open(ps, n, c) && Holds(ps, c, a))
            && (!a.isWaiting ==> forall d :: !Open(ps, n, d))
            && (a.isWaiting ==> forall d :: Open(ps, n, d) ==> d == c)
  {
    c := First(0);
    if n > 0 {
      hide Step, Parse, Follows, Holds;
      var before := Run(IDLE, ps, n - 1).next;
      var b := StateIsOpenMessage(ps, n - 1);
      OpenBefore(ps, n);
      if !Fragmentary(ps[n - 1]) {
        OthersPass(ps[n - 1], before);
        c := b;
      } else if Parse(ps[n - 1]).fragFlag == FRAG_START {
        StartOpens(ps, n - 1, before);
        c := First(n - 1);
      } else if before.isWaiting {
        NextOnOpen(ps, n - 1, b, before);
        c := Then(b, n - 1);
      } else {
        IdleIgnores(ps[n - 1]);
      }
    }
  }

  lemma IdleIgnores(p: seq<byte>)
    requires Fragmentary(p) && Parse(p).fragFlag != FRAG_START
    ensures Step(IDLE, p) == Outcome(IDLE, [])
  {
    hide Parse;
  }

  /** How an open message looks one packet earlier. */
  lemma OpenBefore(ps: seq<seq<byte>>, n: nat)
    requires 0 < n <= |ps|
    ensures forall d :: Open(ps, n, d) ==>
              if !Fragmentary(ps[n - 1]) then Open(ps, n - 1, d)
              else d.i == n - 1 && (d.Then? ==> Open(ps, n - 1, d.before) && Follows(ps, d.before, n - 1)
                                                && Parse(ps[n - 1]).fragFlag == FRAG_MID)
                                && (d.First? ==> Parse(ps[n - 1]).fragFlag == FRAG_START
                                                 && Parse(ps[n - 1]).totalLen > 0)
    ensures !Fragmentary(ps[n - 1]) ==> forall d :: Open(ps, n - 1, d) ==> Open(ps, n, d)
  {
    hide Parse;
  }

  /** Packet i delivers a message exactly when it is whole by itself or ends an open one: then what is
      delivered is the payloads in order, zero-padded to the length announced by the START packet. */
  lemma {:induction false} DeliveredExactly(ps: seq<seq<byte>>, i: nat, message: seq<byte>)
    requires i < |ps|
    ensures Step(Run(IDLE, ps, i).next, ps[i]).delivered == [message] <==> DeliversAt(ps, i, message)
    ensures |Step(Run(IDLE, ps, i).next, ps[i]).delivered| <= 1
  {
    hide Parse, Follows, Holds, Padded;
    var a := Run(IDLE, ps, i).next;
    var c := StateIsOpenMessage(ps, i);
    if !Fragmentary(ps[i]) {
      OthersPass(ps[i], a);
    } else if Parse(ps[i]).fragFlag == FRAG_START {
      StartOpens(ps, i, a);
    } else if a.isWaiting {
      NextOnOpen(ps, i, c, a);
    } else {
      IdleIgnores(ps[i]);
    }
  }
}
