/** Where the SACK blocks stop being accurate: a receiver that reads one packet and receives the next,
    over and over, with an rx ring that is always full when the out-of-order queue drains.  The block
    it reports is then never regulated, and grows until modular comparison no longer sees its end. */
module SackStall {
  import opened SeqNum
  import opened Chains
  import opened OooQueue
  import opened SackSpec
  import opened ReceiveSpec
  import opened ReceiveRuns
  import opened OooLimits
  import SackRuns

  /** A range right behind a block is joined to it exactly when the two together span less than 2^31
      bytes; otherwise two adjacent blocks are reported. */
  lemma AbutsExactly(blk: Block, end: int)
    requires blk.start < blk.end < end < blk.start + M32
    ensures Update([blk], blk.end, end) ==
            if end - blk.start < HALF then [Block(blk.start, end)] else [Block(blk.end, end), blk]
    ensures Separate(Update([blk], blk.end, end), blk.start, end) <==> end - blk.start < HALF
  {
    var bs := [blk];
    LtExact(blk.end, blk.end);
    SeqLtExact(end, blk.start);
    assert Touches(blk, blk.end, end) <==> end - blk.start < HALF;
    assert bs[0 := bs[0]][1..] == [];
    if end - blk.start < HALF {
      LtExact(blk.end, blk.start);
      LtExact(end, blk.end);
      assert FindTouch(bs, blk.end, end) == 0;
    } else {
      assert FindTouch(bs[1..], blk.end, end) == 0;
      assert bs[..1] == bs;
      assert Update(bs, blk.end, end) == [Block(blk.end, end)] + bs;
      var r := Update(bs, blk.end, end);
      assert r[0] == Block(blk.end, end) && r[1] == blk && !Apart(r[0], r[1]);
    }
  }

  /** The state after `n` rounds: the ring holds one byte, the next one waits behind it, and the block
      still starts where the connection did. */
  function Stalled(isn: int, n: nat, limit: nat): Rx {
    Rx(isn + 1 + n, SEGMENT_SIZE - 1, 1, limit, [[[0]]], [One(isn + 1 + n)], true, [Block(isn, isn + 2 + n)])
  }

  /** One read and one segment. */
  function Round(at: int): seq<Event> { [ReadInto(1), Segment(One(at))] }

  function Rounds(at: int, k: nat): seq<Event>
    decreases k
  {
    if k == 0 then [] else Round(at) + Rounds(at + 1, k - 1)
  }

  lemma StalledInv(isn: int, n: nat, limit: nat)
    ensures Inv(Stalled(isn, n, limit))
  {
    OneByte(isn + 1 + n);
  }

  /** What the queue does with a byte right behind its only one. */
  lemma NextQueued(s: Rx, at: int)
    requires Inv(s) && s.ooo == [One(at)] && at + 2 <= Right(s) && s.limit >= 2 && s.nxt <= at && s.sackOk
    ensures One(at + 1).Len() > 0 && s.nxt <= at + 1 < Right(s)
    ensures OooRcv(s, One(at + 1)) ==
            (s.(ooo := [One(at), One(at + 1)], blocks := Update(s.blocks, at + 1, at + 2)), Accepted)
  {
    OneByte(at);
    OneByte(at + 1);
    hide Bytes;
    hide Update;
    var g := One(at + 1);
    assert s.ooo[1..] == [];
    assert Position(s.ooo, at + 1) == 1;
    assert Trim(s.ooo, 1, g) == (s.ooo, g);
    assert InsertAt(s.ooo, 1, g) == [One(at), g];
  }

  /** Draining delivers one byte, then the ring is full. */
  lemma OneDelivered(s: Rx)
    requires s.ooo == [One(s.nxt), One(s.nxt + 1)] && s.rxq == [] && s.cap == 1 && s.wnd >= 2
    ensures Drain(s) == s.(nxt := s.nxt + 1, wnd := s.wnd - 1, rxq := [[[0]]], ooo := [One(s.nxt + 1)])
  {
    OneByte(s.nxt);
    OneByte(s.nxt + 1);
    hide Bytes;
    var s1 := s.(nxt := s.nxt + 1, wnd := s.wnd - 1, rxq := [[[0]]]);
    assert s.rxq + [[[0]]] == [[[0]]];
    assert Enqueue(s, s.ooo[0]) == (s1, Accepted);
    var s2 := s1.(ooo := s.ooo[1..]);
    assert s2.ooo == [One(s.nxt + 1)];
    assert Enqueue(s2, s2.ooo[0]) == (s2, RxqFull);
  }

  /** What a round makes of the blocks. */
  function Reported(isn: int, n: nat): seq<Block> {
    Update([Block(isn, isn + 2 + n)], isn + 2 + n, isn + 3 + n)
  }

  lemma ReadsOne(s: Rx)
    requires s.rxq == [[[0]]]
    ensures Read(s, 1).0 == s.(rxq := [], wnd := s.wnd + 1)
  {
    BytesSingle([0]);
    assert s.rxq[1..] == [] && [[0]] + [] == [[0]];
    assert ReadPieces([], 0) == ([], []);
    assert ReadPieces(s.rxq, 1) == ([[0]], []);
  }

  /** The byte behind the one that waits goes to the queue, and the one that waits to the ring. */
  lemma ByteArrives(s: Rx)
    requires Inv(s) && s.ooo == [One(s.nxt)] && s.rxq == [] && s.cap == 1 && s.wnd >= 3 && s.limit >= 2 && s.sackOk
    ensures Arrive(s, One(s.nxt + 1)) ==
            (s.(nxt := s.nxt + 1, wnd := s.wnd - 1, rxq := [[[0]]], ooo := [One(s.nxt + 1)],
                blocks := Update(s.blocks, s.nxt + 1, s.nxt + 2)), Accepted)
  {
    hide Update;
    hide Inv;
    hide Bytes;
    OneByte(s.nxt);
    OneByte(s.nxt + 1);
    NextQueued(s, s.nxt);
    OneDelivered(OooRcv(s, One(s.nxt + 1)).0);
    hide OooRcv;
    hide Drain;
  }

  /** A round reads one byte, receives one and delivers one. */
  lemma RoundStalls(isn: int, n: nat, limit: nat)
    requires limit >= 2
    ensures
      var s := Stalled(isn, n, limit);
      && Inv(s) && Inv(Read(s, 1).0)
      && Arrive(Read(s, 1).0, One(isn + 2 + n)) == (Stalled(isn, n + 1, limit).(blocks := Reported(isn, n)), Accepted)
  {
    hide Update;
    hide Arrive;
    hide Bytes;
    var s := Stalled(isn, n, limit);
    StalledInv(isn, n, limit);
    ReadsOne(s);
    hide Read;
    ByteArrives(Read(s, 1).0);
  }

  ghost predicate AllWellFormed(es: seq<Event>) {
    forall i | 0 <= i < |es| :: WellFormed(es[i])
  }

  lemma RunTwo(s: Rx, d: Event, e: Event, rest: seq<Event>)
    requires Inv(s) && WellFormed(d) && WellFormed(e) && AllWellFormed(rest)
    ensures Inv(Step(s, d).0) && Inv(Step(Step(s, d).0, e).0) && AllWellFormed([d, e] + rest)
    ensures Run(s, [d, e] + rest).0 == Run(Step(Step(s, d).0, e).0, rest).0
    ensures SackRuns.AllLossless(s, [d, e] + rest) <==>
            && Lossless(s, d) && Lossless(Step(s, d).0, e)
            && SackRuns.AllLossless(Step(Step(s, d).0, e).0, rest)
  {
    hide Lossless;
    hide Step;
    hide Inv;
    hide WellFormed;
    var es := [d, e] + rest;
    assert es[0] == d && es[1..][0] == e && es[1..][1..] == rest;
    StepInv(s, d);
    StepInv(Step(s, d).0, e);
  }

  /** The two events of a round, at the head of a run. */
  lemma RunRound(isn: int, n: nat, limit: nat, rest: seq<Event>)
    requires limit >= 2 && Inv(Stalled(isn, n, limit)) && AllWellFormed(rest)
    ensures
      var s' := Stalled(isn, n + 1, limit).(blocks := Reported(isn, n));
      && Inv(s') && AllWellFormed(Round(isn + 2 + n) + rest)
      && Run(Stalled(isn, n, limit), Round(isn + 2 + n) + rest).0 == Run(s', rest).0
      && (SackRuns.AllLossless(s', rest) ==> SackRuns.AllLossless(Stalled(isn, n, limit), Round(isn + 2 + n) + rest))
  {
    hide SackRuns.AllLossless;
    hide Bytes;
    hide Reported;
    hide Run;
    hide Arrive;
    hide Read;
    hide Stalled;
    hide Inv;
    OneByte(isn + 2 + n);
    RoundStalls(isn, n, limit);
    RunTwo(Stalled(isn, n, limit), ReadInto(1), Segment(One(isn + 2 + n)), rest);
  }

  /** As long as the block spans less than 2^31 bytes, rounds only let it grow. */
  lemma {:induction false} StallGoesOn(isn: int, n: nat, k: nat, limit: nat, rest: seq<Event>)
    requires limit >= 2 && n + k + 2 < HALF && AllWellFormed(rest)
    ensures Inv(Stalled(isn, n, limit)) && Inv(Stalled(isn, n + k, limit))
    ensures
      var es := Rounds(isn + 2 + n, k) + rest;
      && AllWellFormed(es)
      && Run(Stalled(isn, n, limit), es).0 == Run(Stalled(isn, n + k, limit), rest).0
      && (SackRuns.AllLossless(Stalled(isn, n + k, limit), rest) ==> SackRuns.AllLossless(Stalled(isn, n, limit), es))
    decreases k
  {
    hide SackRuns.AllLossless;
    hide Stalled;
    hide Run;
    hide Inv;
    hide WellFormed;
    hide Update;
    StalledInv(isn, n, limit);
    StalledInv(isn, n + k, limit);
    var es := Rounds(isn + 2 + n, k) + rest;
    if k == 0 {
      assert es == rest;
    } else {
      var more := Rounds(isn + 3 + n, k - 1) + rest;
      assert es == Round(isn + 2 + n) + more;
      OneByte(isn + 2 + n);
      StallGoesOn(isn, n + 1, k - 1, limit, rest);
      RunRound(isn, n, limit, more);
      AbutsExactly(Block(isn, isn + 2 + n), isn + 3 + n);
      SameBlocks(isn, n + 1, limit);
    }
  }

  lemma SameBlocks(isn: int, n: nat, limit: nat)
    ensures Stalled(isn, n, limit).(blocks := [Block(isn, isn + 2 + n)]) == Stalled(isn, n, limit)
  {
  }

  /** The two segments that bring a fresh connection there. */
  lemma Opening(isn: int, limit: nat)
    requires limit >= 2
    ensures
      var s := Fresh(isn, 1, limit, true);
      && Inv(s) && Inv(Arrive(s, One(isn + 1)).0) && Arrive(s, One(isn + 1)).1 == Accepted
      && Arrive(Arrive(s, One(isn + 1)).0, One(isn)) == (Stalled(isn, 0, limit), Accepted)
  {
    hide Bytes;
    hide Arrive;
    hide Inv;
    var s := Fresh(isn, 1, limit, true);
    FreshInv(isn, limit);
    OneByte(isn + 1);
    ArriveExact(s, One(isn + 1));
    FirstArrives(s);
    SecondArrives(Arrive(s, One(isn + 1)).0);
  }

  lemma FreshInv(isn: int, limit: nat)
    ensures Inv(Fresh(isn, 1, limit, true))
  {
  }

  lemma FirstArrives(s: Rx)
    requires Inv(s) && s.ooo == [] && s.blocks == [] && s.wnd >= 2 && s.limit >= 1 && s.sackOk
    ensures Arrive(s, One(s.nxt + 1)) == (s.(ooo := [One(s.nxt + 1)], blocks := [Block(s.nxt + 1, s.nxt + 2)]), Accepted)
  {
    hide Bytes;
    hide Inv;
    hide OooRcv;
    OneByte(s.nxt + 1);
    FirstQueued(s, s.nxt + 1);
    var s1 := s.(ooo := [One(s.nxt + 1)], blocks := [Block(s.nxt + 1, s.nxt + 2)]);
    LtExact(s.nxt + 1, s.nxt);
    assert s1.blocks[1..] == [] && Regulate([], s.nxt) == [];
    assert Regulate(s1.blocks, s.nxt) == s1.blocks;
    assert Drain(s1) == s1;
  }

  lemma SecondArrives(s: Rx)
    requires Inv(s) && s.ooo == [One(s.nxt + 1)] && s.blocks == [Block(s.nxt + 1, s.nxt + 2)]
    requires s.rxq == [] && s.cap == 1 && s.wnd >= 2 && s.sackOk
    ensures Arrive(s, One(s.nxt)) ==
            (s.(nxt := s.nxt + 1, wnd := s.wnd - 1, rxq := [[[0]]], ooo := [One(s.nxt + 1)],
                blocks := [Block(s.nxt, s.nxt + 2)]), Accepted)
  {
    hide Bytes;
    hide Inv;
    hide OooRcv;
    hide Drain;
    OneByte(s.nxt);
    OneByte(s.nxt + 1);
    FrontQueued(s);
    OneDelivered(OooRcv(s, One(s.nxt)).0);
  }

  lemma FirstQueued(s: Rx, at: int)
    requires Inv(s) && s.ooo == [] && s.blocks == [] && s.nxt < at && at + 1 <= Right(s) && s.limit >= 1 && s.sackOk
    ensures One(at).Len() > 0
    ensures OooRcv(s, One(at)) == (s.(ooo := [One(at)], blocks := [Block(at, at + 1)]), Accepted)
  {
    OneByte(at);
    hide Bytes;
    assert Position(s.ooo, at) == 0;
    assert Trim(s.ooo, 0, One(at)) == ([], One(at));
    assert Update([], at, at + 1) == [Block(at, at + 1)];
    assert InsertAt(s.ooo, 0, One(at)) == [One(at)];
  }

  lemma FrontQueued(s: Rx)
    requires Inv(s) && s.ooo == [One(s.nxt + 1)] && s.blocks == [Block(s.nxt + 1, s.nxt + 2)] && s.wnd >= 2 && s.sackOk
    ensures One(s.nxt).Len() > 0
    ensures OooRcv(s, One(s.nxt)) ==
            (s.(ooo := [One(s.nxt), One(s.nxt + 1)], blocks := [Block(s.nxt, s.nxt + 2)]), Accepted)
  {
    OneByte(s.nxt);
    OneByte(s.nxt + 1);
    hide Bytes;
    var bs := s.blocks;
    assert Position(s.ooo, s.nxt) == 0;
    assert Trim(s.ooo, 0, One(s.nxt)) == (s.ooo, One(s.nxt));
    MergeIsUnion(bs[0], s.nxt, s.nxt + 1, s.nxt, s.nxt + 2);
    LtExact(s.nxt, s.nxt + 1);
    LtExact(s.nxt + 1, s.nxt + 2);
    assert FindTouch(bs, s.nxt, s.nxt + 1) == 0;
    assert bs[0 := bs[0]][1..] == [];
    assert Update(bs, s.nxt, s.nxt + 1) == [Block(s.nxt, s.nxt + 2)];
    assert InsertAt(s.ooo, 0, One(s.nxt)) == [One(s.nxt), One(s.nxt + 1)];
  }

  /** The run: two segments, then rounds of one read and one segment. */
  function LongStall(isn: int): seq<Event> {
    [Segment(One(isn + 1)), Segment(One(isn))] + (Rounds(isn + 2, HALF - 3) + Round(isn + HALF - 1))
  }

  /** From a fresh connection with an rx ring of one packet, with no limit met and nothing dropped, the
      run ends with two adjacent blocks. */
  lemma LongStallSplits(isn: int, limit: nat)
    requires limit >= 2
    ensures
      var (s, es) := (Fresh(isn, 1, limit, true), LongStall(isn));
      && Inv(s) && (forall i | 0 <= i < |es| :: WellFormed(es[i]))
      && Run(s, es).0.blocks == [Block(isn + HALF - 1, isn + HALF), Block(isn, isn + HALF - 1)]
      && SackRuns.AllLossless(s, es)
  {
    hide SackRuns.AllLossless;
    hide Stalled;
    hide Rounds;
    hide Run;
    hide Inv;
    hide WellFormed;
    hide Fresh;
    hide Round;
    var last := Round(isn + HALF - 1);
    LastRound(isn, limit);
    StallGoesOn(isn, 0, HALF - 3, limit, last);
    RunOpening(isn, limit, Rounds(isn + 2, HALF - 3) + last);
  }

  lemma LastRound(isn: int, limit: nat)
    requires limit >= 2
    ensures Inv(Stalled(isn, HALF - 3, limit)) && AllWellFormed(Round(isn + HALF - 1))
    ensures Run(Stalled(isn, HALF - 3, limit), Round(isn + HALF - 1)).0.blocks ==
            [Block(isn + HALF - 1, isn + HALF), Block(isn, isn + HALF - 1)]
    ensures SackRuns.AllLossless(Stalled(isn, HALF - 3, limit), Round(isn + HALF - 1))
  {
    hide Stalled;
    hide Inv;
    StalledInv(isn, HALF - 3, limit);
    assert Round(isn + HALF - 1) + [] == Round(isn + HALF - 1);
    RunRound(isn, HALF - 3, limit, []);
    AbutsExactly(Block(isn, isn + HALF - 1), isn + HALF);
  }

  lemma RunOpening(isn: int, limit: nat, rest: seq<Event>)
    requires limit >= 2 && AllWellFormed(rest)
    ensures
      var (s, es) := (Fresh(isn, 1, limit, true), [Segment(One(isn + 1)), Segment(One(isn))] + rest);
      && Inv(s) && Inv(Stalled(isn, 0, limit)) && AllWellFormed(es)
      && Run(s, es).0 == Run(Stalled(isn, 0, limit), rest).0
      && (SackRuns.AllLossless(Stalled(isn, 0, limit), rest) ==> SackRuns.AllLossless(s, es))
  {
    hide SackRuns.AllLossless;
    hide Bytes;
    hide Arrive;
    hide Run;
    hide Stalled;
    hide Fresh;
    hide Inv;
    OneByte(isn);
    OneByte(isn + 1);
    Opening(isn, limit);
    RunTwo(Fresh(isn, 1, limit, true), Segment(One(isn + 1)), Segment(One(isn)), rest);
  }
}
