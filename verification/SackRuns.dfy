/** The SACK blocks a receiver reports, over every run (section 4 of RFC 2018). */
module SackRuns {
  import opened SeqNum
  import opened Chains
  import opened OooQueue
  import opened SackSpec
  import opened ReceiveSpec
  import opened ReceiveRuns
  import opened OooLimits

  /** At most three blocks, pairwise disjoint and not adjacent, within [lo, right edge); every
      byte reported is held. */
  ghost predicate Sacked(s: Rx, lo: int) {
    && lo <= s.nxt && Right(s) - lo < HALF
    && |s.blocks| <= MAX_BLOCKS && Separate(s.blocks, lo, Right(s))
    && (forall b | Reports(s.blocks, b) :: Held(s, b))
  }

  /** What queueing a segment does to the blocks: `ins` is the part of it that was queued. */
  ghost predicate Reported(s: Rx, s': Rx, ins: Seg) {
    && ins in s'.ooo
    && s'.blocks == (if s.sackOk then Update(s.blocks, ins.start, ins.End()) else s.blocks)
    && (forall b | Held(s', b) && !Held(s, b) :: ins.Has(b))
  }

  lemma InsertReports(s: Rx, k: nat, g: Seg) returns (ins: Seg)
    requires k <= |s.ooo| && g.start <= Right(s)
    ensures
      var (s', o) := Insert(s, k, g);
      if o == Accepted then Reported(s, s', ins) else s'.blocks == s.blocks
  {
    hide Bytes;
    hide Update;
    ins := if g.End() > Right(s) then CutTail(g, g.End() - Right(s)) else g;
    var (s', o) := Insert(s, k, g);
    if o == Accepted {
      assert s'.ooo[k] == ins;
      forall b ensures Held(s', b) <==> Held(s, b) || ins.Has(b) {
        CoversInsert(s.ooo, k, ins, b);
      }
    }
  }

  lemma TrimAndInsertReports(s: Rx, k: nat, g: Seg) returns (ins: Seg)
    requires k <= |s.ooo| && Sorted(s.ooo) && g.start <= Right(s)
    requires k < |s.ooo| ==> g.start <= s.ooo[k].start
    ensures
      var (s', o) := TrimAndInsert(s, k, g);
      if o == Accepted then Reported(s, s', ins) else s'.blocks == s.blocks
  {
    hide Bytes;
    hide Update;
    hide Insert;
    hide Covers;
    hide Trim;
    TrimKeepsBytes(s.ooo, k, g);
    var (q, g') := Trim(s.ooo, k, g);
    ins := InsertReports(s.(ooo := q), k, g');
    var (s', o) := TrimAndInsert(s, k, g);
    if o == Accepted {
      TrimOnlyRemoves(s.ooo, k, g);
    }
  }

  lemma {:induction false} TrimOnlyRemoves(q: seq<Seg>, k: nat, g: Seg)
    requires k <= |q| && Sorted(q) && (k < |q| ==> g.start <= q[k].start)
    ensures forall b | Covers(Trim(q, k, g).0, b) :: Covers(q, b)
    decreases |q| - k
  {
    hide Bytes;
    hide Covers;
    if k < |q| && g.End() > q[k].start && g.End() - q[k].start >= q[k].Len() {
      SortedRemove(q, k);
      TrimOnlyRemoves(Remove(q, k), k, g);
      forall b ensures Covers(Remove(q, k), b) ==> Covers(q, b) {
        CoversRemove(q, k, b);
      }
    }
  }

  lemma OooRcvReports(s: Rx, g: Seg) returns (ins: Seg)
    requires Inv(s) && g.Len() > 0 && s.nxt <= g.start < Right(s)
    ensures
      var (s', o) := OooRcv(s, g);
      if o == Accepted then Reported(s, s', ins) else s'.blocks == s.blocks
  {
    hide Bytes;
    hide Update;
    hide TrimAndInsert;
    hide CutHead;
    hide Covers;
    ins := g;
    var k := Position(s.ooo, g.start);
    if k == 0 || s.ooo[k - 1].End() <= g.start {
      assert OooRcv(s, g) == TrimAndInsert(s, k, g);
      ins := TrimAndInsertReports(s, k, g);
    } else if g.start == s.ooo[k - 1].start && g.Len() > s.ooo[k - 1].Len() {
      SortedRemove(s.ooo, k - 1);
      var s0 := s.(ooo := Remove(s.ooo, k - 1));
      ins := TrimAndInsertReports(s0, k - 1, g);
      forall b ensures Held(s0, b) ==> Held(s, b) {
        CoversRemove(s.ooo, k - 1, b);
      }
    } else if s.ooo[k - 1].End() - g.start < g.Len() {
      ins := TrimAndInsertReports(s, k, CutHead(g, s.ooo[k - 1].End() - g.start));
    }
  }

  /** The first block holds every byte that was not held before. */
  ghost predicate NewestFirst(s: Rx, s': Rx) {
    s.sackOk ==> forall b | Held(s', b) && !Held(s, b) :: s'.blocks != [] && s'.blocks[0].Has(b)
  }

  lemma OooRcvSacked(s: Rx, g: Seg, lo: int)
    requires Inv(s) && g.Len() > 0 && s.nxt <= g.start < Right(s) && NoEmptyPiece(g.chain)
    requires Sacked(s, lo)
    ensures var (s', o) := OooRcv(s, g);
            o != OooLimit ==> Sacked(s', lo) && (o == Accepted ==> NewestFirst(s, s'))
  {
    hide Bytes;
    hide OooRcv;
    hide Update;
    hide Separate;
    var ins := OooRcvReports(s, g);
    OooRcvKeeps(s, g);
    var (s', o) := OooRcv(s, g);
    if o == Accepted {
      var j :| 0 <= j < |s'.ooo| && s'.ooo[j] == ins;
      assert s'.nxt <= ins.start && ins.End() <= Right(s) && ins.Len() > 0;
      forall b | ins.Has(b) ensures Held(s', b) {
        assert s'.ooo[j].Has(b);
      }
      if s.sackOk {
        UpdateExact(s.blocks, ins.start, ins.End(), lo, Right(s));
      }
    }
  }

  lemma {:induction false} DrainBlocks(s: Rx)
    requires Inv(s)
    ensures var s' := Drain(s);
            s'.blocks == if s'.ooo == [] then [] else if Tight(s') then Regulate(s.blocks, s'.nxt) else s.blocks
    decreases |s.ooo|
  {
    hide Bytes;
    hide RxBytes;
    hide Regulate;
    if s.ooo != [] && s.ooo[0].start == s.nxt {
      var g, s0 := s.ooo[0], s.(ooo := s.ooo[1..]);
      TailInv(s);
      EnqueueKeeps(s0, g);
      var (s1, o) := Enqueue(s0, g);
      assert Enqueue(s, g) == (s1.(ooo := s.ooo), o);
      if o != RxqFull {
        DrainBlocks(s1);
      }
    }
  }

  /** Delivering queued segments keeps the blocks accurate; once nothing deliverable is left,
      they all lie above rcv_nxt, and the first one is still first. */
  lemma DrainSacked(s: Rx, lo: int)
    requires Inv(s) && Sacked(s, lo)
    ensures
      var s' := Drain(s);
      && Sacked(s', lo)
      && (Tight(s') ==> forall i | 0 <= i < |s'.blocks| :: s'.nxt < s'.blocks[i].start)
      && (Tight(s') && s.blocks != [] && s'.nxt < s.blocks[0].start && s'.ooo != [] ==>
            s'.blocks != [] && s'.blocks[0] == s.blocks[0])
  {
    hide Bytes;
    hide RxBytes;
    hide Drain;
    hide Regulate;
    hide Inv;
    hide Held;
    DrainKeeps(s);
    DrainBlocks(s);
    var s' := Drain(s);
    assert s'.nxt <= Right(s') by {
      assert s'.wnd >= 0;
    }
    RegulateExact(s.blocks, s'.nxt, lo, Right(s));
    forall b | Reports(Regulate(s.blocks, s'.nxt), b) ensures Reports(s.blocks, b) {
      var r := Regulate(s.blocks, s'.nxt);
      var i :| 0 <= i < |r| && r[i].Has(b);
      assert r[i] in s.blocks;
      var j :| 0 <= j < |s.blocks| && s.blocks[j] == r[i];
      assert s.blocks[j].Has(b);
    }
    assert forall b :: !Reports([], b);
  }

  /** Whatever arrives and however full the rx ring is, the blocks stay at most three, separate,
      and report held bytes only - unless the segment met the out-of-order limit and cost some. */
  lemma ArriveSacked(s: Rx, g: Seg, lo: int)
    requires Inv(s) && NoEmptyPiece(g.chain) && Sacked(s, lo) && Lossless(s, Segment(g))
    ensures Sacked(Arrive(s, g).0, lo)
  {
    hide Bytes;
    hide RxBytes;
    hide OooRcv;
    hide Drain;
    hide Separate;
    ArriveExact(s, g);
    if Arrive(s, g).1 == OooLimit {
      SparedUnchanged(s, g);
      DrainSacked(s, lo);
    } else if g.End() > s.nxt && g.Len() > 0 && g.start < Right(s) {
      var g1 := if g.start < s.nxt then CutHead(g, s.nxt - g.start) else g;
      if g.start < s.nxt {
        DropBytesIsDrop(g.chain, s.nxt - g.start);
      }
      if !(g1.start == s.nxt && (s.ooo == [] || g1.End() < s.ooo[0].start)) {
        assert g1.start < Right(s);
        OooRcvSacked(s, g1, lo);
        OooRcvKeeps(s, g1);
        DrainSacked(OooRcv(s, g1).0, lo);
      }
    }
  }

  lemma OooPathFirst(s: Rx, g: Seg, lo: int, b: int)
    requires Inv(s) && g.Len() > 0 && s.nxt <= g.start < Right(s) && NoEmptyPiece(g.chain)
    requires Sacked(s, lo) && s.sackOk
    requires var (s1, o) := OooRcv(s, g);
             var s' := Drain(s1);
             o == Accepted && Held(s', b) && !Held(s, b) && s'.nxt <= b
    ensures var s' := Drain(OooRcv(s, g).0); s'.blocks != [] && s'.blocks[0].Has(b)
  {
    hide Bytes;
    hide RxBytes;
    hide OooRcv;
    hide Drain;
    hide Separate;
    OooRcvKeeps(s, g);
    OooRcvSacked(s, g, lo);
    var s1 := OooRcv(s, g).0;
    DrainKeeps(s1);
    DrainSacked(s1, lo);
    var s' := Drain(s1);
    DrainBlocks(s1);
    assert s1.blocks[0].Has(b);
    if Tight(s') && s1.blocks[0].start <= s'.nxt {
      assert s1.blocks[0].Has(s'.nxt);
      assert Reports(s1.blocks, s'.nxt);
      CoversFirst(s'.ooo, s'.nxt, Right(s'));
      assert false;
    }
  }

  /** The first block a receiver reports holds the bytes that were just queued, also when the rx ring
      is full and the queue could not be drained. */
  lemma FirstBlockIsNewest(s: Rx, g: Seg, lo: int, b: int)
    requires Inv(s) && NoEmptyPiece(g.chain) && Sacked(s, lo) && s.sackOk
    requires var (s', o) := Arrive(s, g);
             o == Accepted && Held(s', b) && !Held(s, b) && s'.nxt <= b
    ensures var s' := Arrive(s, g).0; s'.blocks != [] && s'.blocks[0].Has(b)
  {
    hide Bytes;
    hide RxBytes;
    hide OooRcv;
    hide Drain;
    hide Sacked;
    var g1 := if g.start < s.nxt then CutHead(g, s.nxt - g.start) else g;
    if g.start < s.nxt {
      DropBytesIsDrop(g.chain, s.nxt - g.start);
    }
    assert !(g1.start == s.nxt && (s.ooo == [] || g1.End() < s.ooo[0].start)) by {
      if g1.start == s.nxt && (s.ooo == [] || g1.End() < s.ooo[0].start) {
        EnqueueKeeps(s, g1);
      }
    }
    OooPathFirst(s, g1, lo, b);
  }

  // ---- what was reported stays reported

  /** Of the blocks before, each byte above rcv_nxt is still reported, unless it is in the oldest of three. */
  ghost predicate StillReports(s: Rx, s': Rx) {
    forall b | Reports(ButOldest(s.blocks), b) && s'.nxt <= b :: Reports(s'.blocks, b)
  }

  lemma OooRcvStill(s: Rx, g: Seg, lo: int)
    requires Inv(s) && g.Len() > 0 && s.nxt <= g.start < Right(s) && NoEmptyPiece(g.chain) && Sacked(s, lo)
    ensures var s' := OooRcv(s, g).0; StillReports(s, s') && s'.nxt == s.nxt
  {
    hide Bytes;
    hide OooRcv;
    hide Update;
    hide Separate;
    hide Reports;
    var ins := OooRcvReports(s, g);
    OooRcvKeeps(s, g);
    var (s', o) := OooRcv(s, g);
    ReportsPrefix(s.blocks, |ButOldest(s.blocks)|);
    if o == Accepted && s.sackOk {
      var j :| 0 <= j < |s'.ooo| && s'.ooo[j] == ins;
      assert s'.nxt <= ins.start && ins.End() <= Right(s) && ins.Len() > 0;
      UpdateExact(s.blocks, ins.start, ins.End(), lo, Right(s));
    }
  }

  /** Draining takes away only reports of what was delivered. */
  lemma DrainStill(s: Rx, lo: int, b: int)
    requires Inv(s) && Sacked(s, lo) && Reports(s.blocks, b) && Drain(s).nxt <= b
    ensures Reports(Drain(s).blocks, b)
  {
    hide Bytes;
    hide RxBytes;
    hide Drain;
    hide Regulate;
    hide Inv;
    DrainKeeps(s);
    DrainBlocks(s);
    var s' := Drain(s);
    assert s'.nxt <= Right(s') by {
      assert s'.wnd >= 0;
    }
    RegulateExact(s.blocks, s'.nxt, lo, Right(s));
    var i :| 0 <= i < |s.blocks| && s.blocks[i].Has(b);
    var blk := s.blocks[i];
    assert Held(s, b) && Held(s', b);
    if Tight(s') && s'.ooo != [] {
      if blk.start <= s'.nxt {
        assert blk.Has(s'.nxt) && Reports(s.blocks, s'.nxt);
        assert Held(s', s'.nxt);
        HeldNext(s');
        assert false;
      }
      var r := Regulate(s.blocks, s'.nxt);
      assert blk in r;
      var k :| 0 <= k < |r| && r[k] == blk;
      assert r[k].Has(b);
    }
  }

  /** A byte at rcv_nxt is held only if something deliverable is left. */
  lemma HeldNext(s: Rx)
    requires Inv(s) && Tight(s)
    ensures !Held(s, s.nxt)
  {
    hide Bytes;
    CoversFirst(s.ooo, s.nxt, Right(s));
  }

  /** Whatever arrives without costing a held byte, what was reported and not delivered is still reported,
      unless a fourth block has pushed it out. */
  lemma ArriveStillReports(s: Rx, g: Seg, lo: int)
    requires Inv(s) && NoEmptyPiece(g.chain) && Sacked(s, lo) && Lossless(s, Segment(g))
    ensures StillReports(s, Arrive(s, g).0)
  {
    hide Bytes;
    hide RxBytes;
    hide OooRcv;
    hide Drain;
    hide Separate;
    hide Reports;
    ReportsPrefix(s.blocks, |ButOldest(s.blocks)|);
    if Arrive(s, g).1 == OooLimit {
      SparedUnchanged(s, g);
      DrainAllStill(s, lo);
    } else if g.End() > s.nxt && g.Len() > 0 && g.start < Right(s) {
      var g1 := if g.start < s.nxt then CutHead(g, s.nxt - g.start) else g;
      if g.start < s.nxt {
        DropBytesIsDrop(g.chain, s.nxt - g.start);
      }
      if !(g1.start == s.nxt && (s.ooo == [] || g1.End() < s.ooo[0].start)) {
        assert g1.start < Right(s);
        OooRcvSacked(s, g1, lo);
        OooRcvKeeps(s, g1);
        OooRcvStill(s, g1, lo);
        DrainKeeps(OooRcv(s, g1).0);
        DrainAllStill(OooRcv(s, g1).0, lo);
      }
    }
  }

  lemma DrainAllStill(s: Rx, lo: int)
    requires Inv(s) && Sacked(s, lo)
    ensures forall b | Reports(s.blocks, b) && Drain(s).nxt <= b :: Reports(Drain(s).blocks, b)
  {
    forall b | Reports(s.blocks, b) && Drain(s).nxt <= b ensures Reports(Drain(s).blocks, b) {
      DrainStill(s, lo, b);
    }
  }

  // ---- every run

  /** Blocks start no lower than `lo`, which is rcv_nxt unless something deliverable is left. */
  ghost predicate Anchored(s: Rx, lo: int) {
    Sacked(s, lo) && (Tight(s) ==> lo == s.nxt)
  }

  /** The rcv_nxt of the last state that left nothing deliverable. */
  ghost function Anchor(s: Rx, lo: int): int {
    if Tight(s) then s.nxt else lo
  }

  /** A block passed on the direct path would report a byte that is not held. */
  lemma DirectAbove(s: Rx, g: Seg, i: nat)
    requires Inv(s) && g.Len() > 0 && g.start == s.nxt && (s.ooo == [] || g.End() < s.ooo[0].start)
    requires Sacked(s, s.nxt) && i < |s.blocks|
    ensures s.ooo != [] && g.End() < s.blocks[i].start
  {
    hide Bytes;
    var blk := s.blocks[i];
    assert blk.Has(blk.start) && Reports(s.blocks, blk.start);
    assert Covers(s.ooo, blk.start);
    assert s.ooo[0].start <= blk.start;
  }

  /** An arrival that leaves nothing deliverable leaves no block below rcv_nxt. */
  lemma BlocksAbove(s: Rx, g: Seg, lo: int, i: nat)
    requires Inv(s) && NoEmptyPiece(g.chain) && Anchored(s, lo) && Lossless(s, Segment(g))
    requires Tight(Arrive(s, g).0) && i < |Arrive(s, g).0.blocks|
    ensures Arrive(s, g).0.nxt <= Arrive(s, g).0.blocks[i].start
  {
    hide Bytes;
    hide RxBytes;
    hide OooRcv;
    hide Drain;
    if Arrive(s, g).1 == OooLimit {
      SparedUnchanged(s, g);
      DrainSacked(s, lo);
    } else if g.End() > s.nxt && g.Len() > 0 && g.start < Right(s) {
      var g1 := if g.start < s.nxt then CutHead(g, s.nxt - g.start) else g;
      if g.start < s.nxt {
        DropBytesIsDrop(g.chain, s.nxt - g.start);
      }
      if g1.start == s.nxt && (s.ooo == [] || g1.End() < s.ooo[0].start) {
        EnqueueKeeps(s, g1);
        DirectAbove(s, g1, i);
      } else {
        assert g1.start < Right(s);
        OooRcvSacked(s, g1, lo);
        OooRcvKeeps(s, g1);
        DrainSacked(OooRcv(s, g1).0, lo);
      }
    }
  }

  lemma SegmentAnchored(s: Rx, g: Seg, lo: int)
    requires Inv(s) && NoEmptyPiece(g.chain) && Anchored(s, lo) && Lossless(s, Segment(g))
    ensures var s' := Arrive(s, g).0; Anchored(s', Anchor(s', lo))
  {
    hide Bytes;
    hide RxBytes;
    hide Arrive;
    ArriveSacked(s, g, lo);
    var s' := Arrive(s, g).0;
    if Tight(s') {
      forall i | 0 <= i < |s'.blocks| ensures s'.nxt <= s'.blocks[i].start {
        BlocksAbove(s, g, lo, i);
      }
    }
  }

  lemma ReadAnchored(s: Rx, n: nat, lo: int)
    requires Inv(s) && Anchored(s, lo) && Right(Read(s, n).0) - lo < HALF
    ensures var s' := Read(s, n).0; Anchored(s', lo) && Anchor(s', lo) == lo
  {
    hide Bytes;
    hide RxBytes;
    ReadPiecesSplits(s.rxq, n);
  }

  /** No step of the run loses a byte that was held, and the right edge of the window stays within 2^31 of the
      anchor. */
  ghost predicate Near(s: Rx, es: seq<Event>, lo: int)
    requires Inv(s) && forall i | 0 <= i < |es| :: WellFormed(es[i])
    decreases |es|
  {
    es == [] ||
    (StepInv(s, es[0]);
     var s1 := Step(s, es[0]).0;
     Lossless(s, es[0]) && Right(s1) - lo < HALF && Near(s1, es[1..], Anchor(s1, lo)))
  }

  /** The anchor after a run. */
  ghost function AnchorAfter(s: Rx, es: seq<Event>, lo: int): int
    requires Inv(s) && forall i | 0 <= i < |es| :: WellFormed(es[i])
    decreases |es|
  {
    if es == [] then lo
    else
      StepInv(s, es[0]);
      var s1 := Step(s, es[0]).0;
      AnchorAfter(s1, es[1..], Anchor(s1, lo))
  }

  lemma StepAnchored(s: Rx, e: Event, lo: int)
    requires Inv(s) && WellFormed(e) && Anchored(s, lo) && Lossless(s, e) && Right(Step(s, e).0) - lo < HALF
    ensures var s1 := Step(s, e).0; Anchored(s1, Anchor(s1, lo))
  {
    hide Bytes;
    hide RxBytes;
    hide Arrive;
    assert Tight(s) ==> lo == s.nxt;
    hide Anchored;
    match e
    case Segment(g) => SegmentAnchored(s, g, lo);
    case ReadInto(n) => ReadAnchored(s, n, lo);
    case MemoryPressure =>
  }

  /** Over every run that loses no byte once it is held (see OooLimits.LosslessExactly), however often the rx ring fills up while the queue drains: at most three blocks, pairwise disjoint and
      not adjacent, that report only bytes received and kept and none below the rcv_nxt of the last
      state that left nothing deliverable - as long as the window ends within 2^31 of it.  When
      nothing deliverable is left, every byte reported is in the out-of-order queue. */
  lemma {:induction false} SackAccurate(s: Rx, es: seq<Event>, lo: int)
    requires Inv(s) && (forall i | 0 <= i < |es| :: WellFormed(es[i])) && Anchored(s, lo) && Near(s, es, lo)
    ensures
      var (s', lo') := (Run(s, es).0, AnchorAfter(s, es, lo));
      && |s'.blocks| <= MAX_BLOCKS && Separate(s'.blocks, lo', Right(s')) && lo' <= s'.nxt
      && (forall b | Reports(s'.blocks, b) :: Held(s', b))
      && (Tight(s') ==> lo' == s'.nxt && forall b | Reports(s'.blocks, b) :: Covers(s'.ooo, b))
    decreases |es|
  {
    hide Bytes;
    hide RxBytes;
    hide Step;
    if es == [] {
    } else {
      StepInv(s, es[0]);
      var s1 := Step(s, es[0]).0;
      StepAnchored(s, es[0], lo);
      hide Anchored;
      hide Anchor;
      hide Lossless;
      SackAccurate(s1, es[1..], Anchor(s1, lo));
    }
  }

  /** A fresh connection meets the condition at least until it has read 2^31 bytes less its window. */
  lemma {:induction false} NearWhileShort(s: Rx, es: seq<Event>, lo: int)
    requires Inv(s) && (forall i | 0 <= i < |es| :: WellFormed(es[i])) && lo <= s.nxt
    requires AllLossless(s, es) && Right(Run(s, es).0) - lo < HALF
    ensures Near(s, es, lo)
    decreases |es|
  {
    hide Bytes;
    hide RxBytes;
    hide Lossless;
    if es != [] {
      StepInv(s, es[0]);
      var s1 := Step(s, es[0]).0;
      StepMovesOn(s, es[0]);
      hide Step;
      RunMovesOn(s1, es[1..]);
      NearWhileShort(s1, es[1..], Anchor(s1, lo));
    }
  }

  ghost predicate AllLossless(s: Rx, es: seq<Event>)
    requires Inv(s) && forall i | 0 <= i < |es| :: WellFormed(es[i])
    decreases |es|
  {
    es == [] || (StepInv(s, es[0]); Lossless(s, es[0]) && AllLossless(Step(s, es[0]).0, es[1..]))
  }

  lemma StepMovesOn(s: Rx, e: Event)
    requires Inv(s) && WellFormed(e)
    ensures var s1 := Step(s, e).0; s.nxt <= s1.nxt && Right(s) <= Right(s1)
  {
    hide Bytes;
    hide RxBytes;
    hide Arrive;
    match e
    case Segment(g) => ArriveExact(s, g);
    case ReadInto(n) =>
    case MemoryPressure =>
  }

  lemma {:induction false} RunMovesOn(s: Rx, es: seq<Event>)
    requires Inv(s) && forall i | 0 <= i < |es| :: WellFormed(es[i])
    ensures var s' := Run(s, es).0; s.nxt <= s'.nxt && Right(s) <= Right(s')
    decreases |es|
  {
    hide Step;
    if es != [] {
      StepInv(s, es[0]);
      StepMovesOn(s, es[0]);
      RunMovesOn(Step(s, es[0]).0, es[1..]);
    }
  }
}
