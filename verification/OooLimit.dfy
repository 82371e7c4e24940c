/** The limit on queued out-of-order packets (tcp_rcv_data_ooo and ooo_queue_insert of
    src/tcp/tcp_input.c).  A packet at rcv_nxt passes the limit, so the queue can be one packet over it;
    and what a packet covers is taken out of the queue before the packet itself is refused. */
module OooLimits {
  import opened Chains
  import opened OooQueue
  import opened SackSpec
  import opened ReceiveSpec
  import opened ReceiveRuns

  // ---- which bytes a refused packet costs

  /** The packet covers the whole queued one. */
  ghost predicate Inside(d: Seg, g: Seg) {
    g.start <= d.start && d.End() <= g.End()
  }

  /** The byte is in a queued packet, from index `k` on, that `g` covers as a whole. */
  ghost predicate Swallowed(q: seq<Seg>, k: nat, g: Seg, b: int) {
    exists i | k <= i < |q| :: Inside(q[i], g) && q[i].Has(b)
  }

  lemma SwallowedRemove(q: seq<Seg>, k: nat, g: Seg, b: int)
    requires k < |q| && Inside(q[k], g)
    ensures Swallowed(q, k, g, b) <==> q[k].Has(b) || Swallowed(Remove(q, k), k, g, b)
  {
    hide Bytes;
    var r := Remove(q, k);
    assert forall i | k <= i < |r| :: r[i] == q[i + 1];
    if Swallowed(r, k, g, b) {
      var i :| k <= i < |r| && Inside(r[i], g) && r[i].Has(b);
      assert Inside(q[i + 1], g) && q[i + 1].Has(b);
    }
    if Swallowed(q, k, g, b) && !q[k].Has(b) {
      var i :| k <= i < |q| && Inside(q[i], g) && q[i].Has(b);
      assert Inside(r[i - 1], g) && r[i - 1].Has(b);
    }
  }

  /** No packet behind one that is not covered is. */
  lemma NoneSwallowed(q: seq<Seg>, k: nat, g: Seg)
    requires Sorted(q) && k < |q| && g.End() < q[k].End()
    ensures forall b :: !Swallowed(q, k, g, b)
  {
    hide Bytes;
    forall i | k <= i < |q| ensures !Inside(q[i], g) {
      assert i > k ==> q[k].End() <= q[i].start;
    }
  }

  lemma NotTwice(q: seq<Seg>, k: nat, b: int)
    requires Sorted(q) && k < |q| && q[k].Has(b)
    ensures !Covers(Remove(q, k), b)
  {
    hide Bytes;
    var r := Remove(q, k);
    forall i | 0 <= i < |r| ensures !r[i].Has(b) {
      assert r[i] == q[if i < k then i else i + 1];
    }
  }

  /** Trimming takes out exactly the packets that are covered. */
  lemma {:induction false} TrimTakes(q: seq<Seg>, k: nat, g: Seg)
    requires k <= |q| && Sorted(q) && (k < |q| ==> g.start <= q[k].start)
    ensures
      var q' := Trim(q, k, g).0;
      && (forall b :: Covers(q', b) <==> Covers(q, b) && !Swallowed(q, k, g, b))
      && |q'| <= |q| && (|q'| == |q| ==> q' == q)
      && (|q'| < |q| <==> exists b :: Swallowed(q, k, g, b))
    decreases |q| - k
  {
    hide Bytes;
    hide CutTail;
    hide Covers;
    if k < |q| {
      if g.End() < q[k].End() {
        NoneSwallowed(q, k, g);
      } else {
        var r := Remove(q, k);
        SortedRemove(q, k);
        TrimTakes(r, k, g);
        forall b ensures Covers(Trim(q, k, g).0, b) <==> Covers(q, b) && !Swallowed(q, k, g, b) {
          CoversRemove(q, k, b);
          SwallowedRemove(q, k, g, b);
          if q[k].Has(b) {
            NotTwice(q, k, b);
          }
        }
        assert Inside(q[k], g) && q[k].Has(q[k].start);
        assert Swallowed(q, k, g, q[k].start);
      }
    }
  }

  /** What a refusal for the limit leaves: the queue without the packets that are covered. */
  ghost predicate Refused(s: Rx, k: nat, g: Seg, s': Rx) {
    && s' == s.(ooo := s'.ooo) && s.limit <= |s'.ooo| <= |s.ooo|
    && (forall b :: Held(s', b) <==> Held(s, b) && !Swallowed(s.ooo, k, g, b))
    && (if exists b :: Swallowed(s.ooo, k, g, b) then |s'.ooo| < |s.ooo| else s' == s)
  }

  lemma NotBefore(s: Rx, k: nat, g: Seg, b: int)
    requires Inv(s) && Swallowed(s.ooo, k, g, b)
    ensures s.nxt <= b
  {
    hide Bytes;
  }

  lemma TrimRefuses(s: Rx, k: nat, g: Seg)
    requires Inv(s) && k <= |s.ooo| && g.start <= Right(s) && (k < |s.ooo| ==> g.start <= s.ooo[k].start)
    requires TrimAndInsert(s, k, g).1 == OooLimit
    ensures Refused(s, k, g, TrimAndInsert(s, k, g).0) && g.start != s.nxt
  {
    hide Bytes;
    hide Trim;
    hide CutTail;
    hide Covers;
    TrimKeepsBytes(s.ooo, k, g);
    TrimTakes(s.ooo, k, g);
    forall b | Swallowed(s.ooo, k, g, b) ensures s.nxt <= b {
      NotBefore(s, k, g, b);
    }
    hide Swallowed;
    hide Inv;
  }

  /** Packets that start before `g` are not covered. */
  lemma SwallowedFrom(q: seq<Seg>, k: nat, g: Seg)
    requires k <= |q| && forall i | 0 <= i < k :: q[i].start < g.start
    ensures forall b :: Swallowed(q, 0, g, b) <==> Swallowed(q, k, g, b)
  {
    hide Bytes;
  }

  lemma RefusedFrom(s: Rx, k: nat, g: Seg, h: Seg, s': Rx)
    requires k <= |s.ooo| && Refused(s, k, h, s') && h.End() == g.End() && g.start <= h.start
    requires forall i | 0 <= i < k :: s.ooo[i].start < g.start
    requires forall i | k <= i < |s.ooo| :: h.start <= s.ooo[i].start
    ensures Refused(s, 0, g, s')
  {
    SwallowedFrom(s.ooo, k, g);
    hide Bytes;
    hide Held;
    forall b ensures Swallowed(s.ooo, k, g, b) <==> Swallowed(s.ooo, k, h, b) {
      assert forall i | k <= i < |s.ooo| :: Inside(s.ooo[i], g) <==> Inside(s.ooo[i], h);
    }
    hide Swallowed;
  }

  /** The packet before is replaced: it is taken out before the longer one is refused. */
  lemma ReplaceRefuses(s: Rx, k: nat, g: Seg)
    requires Inv(s) && k < |s.ooo| && s.ooo[k].start == g.start && g.Len() > s.ooo[k].Len() && g.start <= Right(s)
    requires forall i | k < i < |s.ooo| :: g.start < s.ooo[i].start
    ensures Inv(s.(ooo := Remove(s.ooo, k))) && Sorted(Remove(s.ooo, k))
    ensures k < |Remove(s.ooo, k)| ==> g.start <= Remove(s.ooo, k)[k].start
    ensures
      var (s', o) := TrimAndInsert(s.(ooo := Remove(s.ooo, k)), k, g);
      o == OooLimit ==> Refused(s, k, g, s') && g.start != s.nxt
  {
    hide Bytes;
    hide TrimAndInsert;
    hide Covers;
    var s0 := s.(ooo := Remove(s.ooo, k));
    RemoveInv(s, k);
    assert k < |s0.ooo| ==> s0.ooo[k] == s.ooo[k + 1];
    var (s', o) := TrimAndInsert(s0, k, g);
    if o == OooLimit {
      TrimRefuses(s0, k, g);
      forall b ensures Held(s', b) <==> Held(s, b) && !Swallowed(s.ooo, k, g, b) {
        CoversRemove(s.ooo, k, b);
        SwallowedRemove(s.ooo, k, g, b);
        if s.ooo[k].Has(b) {
          NotTwice(s.ooo, k, b);
        }
      }
      assert Inside(s.ooo[k], g) && s.ooo[k].Has(s.ooo[k].start);
      assert Swallowed(s.ooo, k, g, s.ooo[k].start);
    }
  }

  lemma SortedStarts(q: seq<Seg>, k: nat)
    requires Sorted(q) && k < |q|
    ensures forall i | 0 <= i < k :: q[i].start < q[k].start
    ensures forall i | k < i < |q| :: q[k].start < q[i].start && q[k].End() <= q[i].start
  {
    hide Bytes;
  }

  /** Behind the packet before, or cut at its end. */
  lemma CutRefuses(s: Rx, k: nat, g: Seg)
    requires Inv(s) && 0 < k <= |s.ooo| && s.nxt <= g.start < Right(s) && s.ooo[k - 1].End() < g.End()
    requires s.ooo[k - 1].start < g.start && (k < |s.ooo| ==> g.start < s.ooo[k].start)
    ensures
      var prev := s.ooo[k - 1];
      var h := if prev.End() > g.start then CutHead(g, prev.End() - g.start) else g;
      h.start <= Right(s) && (k < |s.ooo| ==> h.start <= s.ooo[k].start) &&
      var (s', o) := TrimAndInsert(s, k, h);
      o == OooLimit ==> Refused(s, 0, g, s') && g.start != s.nxt
  {
    hide Bytes;
    hide TrimAndInsert;
    hide Refused;
    var prev := s.ooo[k - 1];
    var h := if prev.End() > g.start then CutHead(g, prev.End() - g.start) else g;
    hide CutHead;
    SortedStarts(s.ooo, k - 1);
    if k < |s.ooo| {
      SortedStarts(s.ooo, k);
    }
    assert s.nxt <= prev.start;
    if TrimAndInsert(s, k, h).1 == OooLimit {
      TrimRefuses(s, k, h);
      RefusedFrom(s, k, g, h, TrimAndInsert(s, k, h).0);
    }
  }

  lemma OooRefuses(s: Rx, g: Seg)
    requires Inv(s) && g.Len() > 0 && s.nxt <= g.start < Right(s) && OooRcv(s, g).1 == OooLimit
    ensures Refused(s, 0, g, OooRcv(s, g).0) && g.start != s.nxt
  {
    hide Bytes;
    hide TrimAndInsert;
    hide Refused;
    hide CutHead;
    hide Sorted;
    hide Within;
    hide GoodSegs;
    hide GoodQueue;
    var k := Position(s.ooo, g.start);
    if k == 0 {
      TrimRefuses(s, 0, g);
    } else if g.start == s.ooo[k - 1].start && g.Len() > s.ooo[k - 1].Len() {
      SortedStarts(s.ooo, k - 1);
      ReplaceRefuses(s, k - 1, g);
      RefusedFrom(s, k - 1, g, g, OooRcv(s, g).0);
    } else {
      CutRefuses(s, k, g);
    }
  }

  /** A packet refused for the limit costs the bytes of the queued packets it covers, and no other.  So no
      byte is lost if and only if it covers none; and it can only cost anything when the queue is over
      its limit. */
  lemma LimitExact(s: Rx, g: Seg)
    requires Inv(s) && NoEmptyPiece(g.chain) && Arrive(s, g).1 == OooLimit
    ensures
      var s' := Arrive(s, g).0;
      && (forall b :: Held(s', b) <==> Held(s, b) && !Swallowed(s.ooo, 0, g, b))
      && ((forall b | Held(s, b) :: Held(s', b)) <==> Spares(s.ooo, g))
      && ((exists b :: Held(s, b) && !Held(s', b)) ==> |s.ooo| > s.limit)
  {
    hide Bytes;
    hide RxBytes;
    hide OooRcv;
    hide Drain;
    hide Covers;
    OooRefusesArrived(s, g);
    var s1 := OooRcv(s, g).0;
    OooRcvKeeps(s, g);
    DrainKeeps(s1);
    var s' := Arrive(s, g).0;
    forall i | 0 <= i < |s.ooo| && Inside(s.ooo[i], g) ensures exists b :: Held(s, b) && !Held(s', b) {
      var b := s.ooo[i].start;
      CoversOwn(s.ooo, i);
      assert s.ooo[i].Has(b) && Swallowed(s.ooo, 0, g, b);
      assert Held(s, b);
    }
  }

  lemma CoversOwn(q: seq<Seg>, i: nat)
    requires i < |q| && q[i].Len() > 0
    ensures Covers(q, q[i].start)
  {
    assert q[i].Has(q[i].start);
  }

  /** Only a packet beyond rcv_nxt is refused for the limit. */
  lemma OooRefusesArrived(s: Rx, g: Seg)
    requires Inv(s) && NoEmptyPiece(g.chain) && Arrive(s, g).1 == OooLimit
    ensures g.Len() > 0 && s.nxt < g.start < Right(s)
    ensures var (s1, o) := OooRcv(s, g); o == OooLimit && Arrive(s, g).0 == Drain(s1) && Refused(s, 0, g, s1)
  {
    hide Bytes;
    hide OooRcv;
    hide Drain;
    hide Refused;
    var g1 := if g.start < s.nxt then CutHead(g, s.nxt - g.start) else g;
    OooRefuses(s, g1);
  }

  /** The packet covers none of the queued ones. */
  ghost predicate Spares(q: seq<Seg>, g: Seg) {
    forall i | 0 <= i < |q| :: !Inside(q[i], g)
  }

  /** A refusal that costs nothing leaves the queue as it was. */
  lemma SparedUnchanged(s: Rx, g: Seg)
    requires Inv(s) && NoEmptyPiece(g.chain) && Arrive(s, g).1 == OooLimit && Spares(s.ooo, g)
    ensures Arrive(s, g).0 == Drain(s)
  {
    hide Bytes;
    hide Arrive;
    hide OooRcv;
    hide Drain;
    OooRefusesArrived(s, g);
  }

  /** A segment that meets the limit covers no queued packet, and memory pressure finds the queue empty. */
  ghost predicate Lossless(s: Rx, e: Event)
    requires Inv(s)
  {
    match e
    case Segment(g) => Arrive(s, g).1 == OooLimit ==> Spares(s.ooo, g)
    case ReadInto(n) => true
    case MemoryPressure => s.ooo == []
  }

  /** A step loses a byte that was held exactly when a segment meets the limit and covers a queued packet,
      or memory pressure finds a packet to drop. */
  lemma LosslessExactly(s: Rx, e: Event)
    requires Inv(s) && WellFormed(e)
    ensures Lossless(s, e) <==> forall b | Held(s, b) :: Held(Step(s, e).0, b)
  {
    hide Bytes;
    hide RxBytes;
    hide Arrive;
    hide Covers;
    match e
    case Segment(g) =>
      ArriveExact(s, g);
      if Arrive(s, g).1 == OooLimit {
        LimitExact(s, g);
      }
    case ReadInto(n) =>
    case MemoryPressure =>
      if s.ooo != [] {
        DropLoses(s);
      }
  }

  lemma DropLoses(s: Rx)
    requires Inv(s) && s.ooo != []
    ensures var b := s.ooo[|s.ooo| - 1].start; Held(s, b) && !Held(DropOoo(s), b)
  {
    hide Bytes;
    var n := |s.ooo| - 1;
    var b := s.ooo[n].start;
    CoversOwn(s.ooo, n);
    assert forall i | 0 <= i < n :: s.ooo[i].End() <= b;
  }

  // ---- how far the queue can pass the limit

  /** At most one packet over the limit, and then only while a packet at rcv_nxt waits for room. */
  ghost predicate Limited(s: Rx) {
    |s.ooo| <= s.limit || (|s.ooo| == s.limit + 1 && !Tight(s))
  }

  lemma TrimLimited(s: Rx, k: nat, g: Seg)
    requires k <= |s.ooo| && Sorted(s.ooo) && s.nxt <= g.start <= Right(s)
    requires k < |s.ooo| ==> g.start <= s.ooo[k].start
    ensures
      var (s', o) := TrimAndInsert(s, k, g);
      && s'.nxt == s.nxt && s'.limit == s.limit && |s'.ooo| <= |s.ooo| + 1
      && (o == Accepted && g.start != s.nxt ==> |s'.ooo| <= s.limit)
      && (o == Accepted && k == 0 ==> s'.ooo != [] && s'.ooo[0].start == g.start)
      && (o != Accepted ==> |s'.ooo| <= |s.ooo| && (|s'.ooo| == |s.ooo| ==> s'.ooo == s.ooo))
  {
    hide Bytes;
    hide Trim;
    hide CutTail;
    hide Update;
    TrimKeepsBytes(s.ooo, k, g);
    TrimTakes(s.ooo, k, g);
    hide Covers;
    hide Swallowed;
  }

  lemma ReplaceLimited(s: Rx, k: nat, g: Seg)
    requires Inv(s) && Limited(s) && k < |s.ooo| && s.ooo[k].start == g.start && g.start <= Right(s)
    ensures
      var s0 := s.(ooo := Remove(s.ooo, k));
      Sorted(s0.ooo) && (k < |s0.ooo| ==> g.start <= s0.ooo[k].start) && Limited(TrimAndInsert(s0, k, g).0)
  {
    hide Bytes;
    hide TrimAndInsert;
    SortedRemove(s.ooo, k);
    SortedStarts(s.ooo, k);
    var s0 := s.(ooo := Remove(s.ooo, k));
    assert k < |s0.ooo| ==> s0.ooo[k] == s.ooo[k + 1];
    assert s.nxt <= g.start && (k > 0 ==> s.nxt <= s.ooo[0].start);
    hide Within;
    hide Sorted;
    TrimLimited(s0, k, g);
  }

  lemma CutLimited(s: Rx, k: nat, h: Seg)
    requires Inv(s) && Limited(s) && 0 < k <= |s.ooo| && s.nxt < h.start <= Right(s)
    requires k < |s.ooo| ==> h.start <= s.ooo[k].start
    ensures Limited(TrimAndInsert(s, k, h).0)
  {
    hide Bytes;
    hide TrimAndInsert;
    TrimLimited(s, k, h);
  }

  lemma OooLimited(s: Rx, g: Seg)
    requires Inv(s) && g.Len() > 0 && s.nxt <= g.start < Right(s) && Limited(s)
    ensures Limited(OooRcv(s, g).0)
  {
    hide Bytes;
    hide TrimAndInsert;
    hide CutHead;
    var k := Position(s.ooo, g.start);
    if k == 0 {
      TrimLimited(s, 0, g);
    } else {
      hide Limited;
      var prev := s.ooo[k - 1];
      if g.start == prev.start && g.Len() > prev.Len() {
        ReplaceLimited(s, k - 1, g);
      } else if prev.End() < g.End() {
        CutLimited(s, k, if prev.End() > g.start then CutHead(g, prev.End() - g.start) else g);
      }
    }
  }

  lemma {:induction false} DrainLimited(s: Rx)
    requires Inv(s) && Limited(s)
    ensures Limited(Drain(s))
    decreases |s.ooo|
  {
    hide Bytes;
    hide RxBytes;
    if s.ooo != [] && s.ooo[0].start == s.nxt {
      TailInv(s);
      var s0 := s.(ooo := s.ooo[1..]);
      EnqueueKeeps(s0, s.ooo[0]);
      var (s1, o) := Enqueue(s0, s.ooo[0]);
      assert Enqueue(s, s.ooo[0]) == (s1.(ooo := s.ooo), o);
      if o != RxqFull {
        DrainLimited(s1);
      }
    }
  }

  lemma ArriveLimited(s: Rx, g: Seg)
    requires Inv(s) && NoEmptyPiece(g.chain) && Limited(s)
    ensures Limited(Arrive(s, g).0)
  {
    hide Bytes;
    hide RxBytes;
    hide OooRcv;
    hide Drain;
    if g.End() > s.nxt && g.Len() > 0 && g.start < Right(s) {
      var g1 := if g.start < s.nxt then CutHead(g, s.nxt - g.start) else g;
      if g.start < s.nxt {
        DropBytesIsDrop(g.chain, s.nxt - g.start);
      }
      if !(g1.start == s.nxt && (s.ooo == [] || g1.End() < s.ooo[0].start)) {
        assert g1.start < Right(s);
        OooRcvKeeps(s, g1);
        OooLimited(s, g1);
        DrainLimited(OooRcv(s, g1).0);
      }
    }
  }

  lemma StepLimited(s: Rx, e: Event)
    requires Inv(s) && WellFormed(e) && Limited(s)
    ensures Limited(Step(s, e).0)
  {
    hide Bytes;
    hide RxBytes;
    hide Arrive;
    match e
    case Segment(g) => ArriveLimited(s, g);
    case ReadInto(n) =>
    case MemoryPressure =>
  }

  /** Over every run: the queue is never more than one packet over its limit, and only while a packet at
      rcv_nxt waits in it for room in the rx ring. */
  lemma {:induction false} RunLimited(s: Rx, es: seq<Event>)
    requires Inv(s) && Limited(s) && forall i | 0 <= i < |es| :: WellFormed(es[i])
    ensures Inv(Run(s, es).0) && Limited(Run(s, es).0)
    decreases |es|
  {
    hide Inv;
    hide Step;
    hide Limited;
    hide WellFormed;
    if es != [] {
      StepInv(s, es[0]);
      StepLimited(s, es[0]);
      RunLimited(Step(s, es[0]).0, es[1..]);
    }
  }

  // ---- a run in which a byte is lost

  /** A segment of one byte. */
  function One(at: int): Seg { Seg(at, [[0]]) }

  function Two(at: int): Seg { Seg(at, [[0, 0]]) }

  lemma OneByte(at: int)
    ensures One(at).Len() == 1 && One(at).End() == at + 1 && NoEmptyPiece(One(at).chain)
  {
    BytesSingle([0]);
  }

  lemma Lengths(at: int)
    ensures One(at).Len() == 1 && One(at).End() == at + 1 && NoEmptyPiece(One(at).chain)
    ensures Two(at).Len() == 2 && Two(at).End() == at + 2 && NoEmptyPiece(Two(at).chain)
  {
    OneByte(at);
    BytesSingle([0, 0]);
  }

  /** A ring for one packet and a limit of one, after the packets at isn + 2, isn and isn + 1. */
  function Over(isn: int): Rx {
    Rx(isn + 1, SEGMENT_SIZE - 1, 1, 1, [[[0]]], [One(isn + 1), One(isn + 2)], false, [])
  }

  lemma FirstTwo(isn: int)
    ensures
      var s, s1 := Fresh(isn, 1, 1, false), Fresh(isn, 1, 1, false).(ooo := [One(isn + 2)]);
      && Inv(s) && Arrive(s, One(isn + 2)) == (s1, Accepted) && Inv(s1)
      && Arrive(s1, One(isn)) ==
         (s1.(nxt := isn + 1, wnd := SEGMENT_SIZE - 1, rxq := [[[0]]]), Accepted)
  {
    Lengths(isn);
    Lengths(isn + 2);
    hide Bytes;
    var s, g := Fresh(isn, 1, 1, false), One(isn + 2);
    var s1 := s.(ooo := [g]);
    assert Position(s.ooo, g.start) == 0 && Trim(s.ooo, 0, g) == (s.ooo, g);
    assert InsertAt(s.ooo, 0, g) == [g];
    assert OooRcv(s, g) == (s1, Accepted);
    assert [] + [[[0]]] == [[[0]]];
  }

  /** A packet at rcv_nxt passes the limit and waits for room in the ring. */
  lemma PassesLimit(isn: int)
    ensures
      var s := Over(isn).(ooo := [One(isn + 2)]);
      Inv(s) && Arrive(s, One(isn + 1)) == (Over(isn), Accepted)
  {
    Lengths(isn);
    Lengths(isn + 1);
    Lengths(isn + 2);
    BytesSingle([0]);
    hide Bytes;
    var s, g := Over(isn).(ooo := [One(isn + 2)]), One(isn + 1);
    assert Position(s.ooo, g.start) == 0 && Trim(s.ooo, 0, g) == (s.ooo, g);
    assert InsertAt(s.ooo, 0, g) == Over(isn).ooo;
    assert OooRcv(s, g) == (Over(isn), Accepted);
    assert Drain(Over(isn)) == Over(isn);
  }

  /** A longer packet takes the place of one in the queue, and is refused. */
  lemma TakesAndRefuses(isn: int)
    ensures
      && Inv(Over(isn))
      && Arrive(Over(isn), Two(isn + 2)) == (Over(isn).(ooo := [One(isn + 1)]), OooLimit)
  {
    Lengths(isn + 1);
    Lengths(isn + 2);
    hide Bytes;
    var s, g := Over(isn), Two(isn + 2);
    assert s.ooo[1..][1..] == [] && Position(s.ooo[1..], g.start) == 1 && Position(s.ooo, g.start) == 2;
    var s0 := s.(ooo := [One(isn + 1)]);
    assert Remove(s.ooo, 1) == s0.ooo;
    assert Trim(s0.ooo, 1, g) == (s0.ooo, g);
    assert OooRcv(s, g) == (s0, OooLimit);
    assert Drain(s0) == s0;
  }

  function Filling(isn: int): seq<Event> {
    [Segment(One(isn + 2)), Segment(One(isn)), Segment(One(isn + 1))]
  }

  lemma RunOne(s: Rx, g: Seg, rest: seq<Event>)
    requires Inv(s) && NoEmptyPiece(g.chain) && forall i | 0 <= i < |rest| :: WellFormed(rest[i])
    ensures Inv(Arrive(s, g).0) && forall i | 0 <= i < |[Segment(g)] + rest| :: WellFormed(([Segment(g)] + rest)[i])
    ensures Run(s, [Segment(g)] + rest).0 == Run(Arrive(s, g).0, rest).0
  {
    hide Inv;
    hide Arrive;
    StepInv(s, Segment(g));
    assert ([Segment(g)] + rest)[1..] == rest;
  }

  lemma FillingFills(isn: int, rest: seq<Event>)
    requires forall i | 0 <= i < |rest| :: WellFormed(rest[i])
    ensures Inv(Fresh(isn, 1, 1, false)) && Inv(Over(isn))
    ensures forall i | 0 <= i < |Filling(isn) + rest| :: WellFormed((Filling(isn) + rest)[i])
    ensures Run(Fresh(isn, 1, 1, false), Filling(isn) + rest).0 == Run(Over(isn), rest).0
  {
    hide Run;
    hide Arrive;
    hide Inv;
    hide WellFormed;
    var a, b, c := One(isn + 2), One(isn), One(isn + 1);
    Lengths(isn);
    Lengths(isn + 1);
    Lengths(isn + 2);
    FirstTwo(isn);
    PassesLimit(isn);
    var s, s1 := Fresh(isn, 1, 1, false), Fresh(isn, 1, 1, false).(ooo := [a]);
    RunOne(Over(isn).(ooo := [a]), c, rest);
    RunOne(s1, b, [Segment(c)] + rest);
    RunOne(s, a, [Segment(b)] + ([Segment(c)] + rest));
    assert Filling(isn) + rest == [Segment(a)] + ([Segment(b)] + ([Segment(c)] + rest));
  }

  /** Four packets after which a byte that was held is no longer. */
  lemma LimitLoses(isn: int)
    ensures
      var (s, es) := (Fresh(isn, 1, 1, false), Filling(isn) + [Segment(Two(isn + 2))]);
      && Inv(s) && (forall i | 0 <= i < |es| :: WellFormed(es[i])) && Filling(isn) == es[..3]
      && Held(Run(s, es[..3]).0, isn + 2) && !Held(Run(s, es).0, isn + 2)
  {
    hide Run;
    hide Arrive;
    hide Inv;
    Lengths(isn + 1);
    Lengths(isn + 2);
    var last := [Segment(Two(isn + 2))];
    assert WellFormed(last[0]);
    FillingFills(isn, []);
    FillingFills(isn, last);
    hide WellFormed;
    assert Filling(isn) + [] == Filling(isn) == (Filling(isn) + last)[..3];
    TakesAndRefuses(isn);
    RunOne(Over(isn), Two(isn + 2), []);
    assert last + [] == last;
    hide Bytes;
    CoversOwn(Over(isn).ooo, 1);
    RunNone(Over(isn));
    RunNone(Arrive(Over(isn), Two(isn + 2)).0);
  }

  lemma RunNone(s: Rx)
    requires Inv(s)
    ensures Run(s, []).0 == s
  {
  }
}
