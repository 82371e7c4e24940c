/** The receive half of a socket (src/tcp/tcp_input.c): 32-bit sequence numbers, packets that
    are cut in place, a ring of packets to be read and a list of packets out of order.
    Every operation is proved to do what ReceiveSpec says it does. */
module Receivers {
  import opened SeqNum
  import opened Seqs
  import opened Chains
  import opened Packets
  import opened OooQueue
  import opened RingIndex
  import opened RxRings
  import opened SackReports
  import SackSpec
  import opened R = ReceiveSpec
  import opened ReceiveRuns

  /** The segment a packet holds. */
  ghost function SegOf(p: Packet): Seg
    reads p
    requires p.Valid()
  {
    Seg(p.start, p.Payload())
  }

  ghost predicate HoldsSeg(p: Packet, g: Seg)
    reads p
  {
    p.Valid() && p.lent == 0 && p.len > 0 && SegOf(p) == g
  }

  ghost predicate HoldsChain(p: Packet?, c: Chain)
    reads p
  {
    p != null && p.Valid() && p.len > 0 && p.Payload() == c
  }

  class Receiver {
    const limit: nat
    const rxq: RxRing<Packet?>
    const sack: SackReport
    const sackOk: bool
    var rcvNxt: u32
    var rcvWnd: u32
    var ooo: seq<Packet>
    var nrOoo: nat
    var lastOoo: Packet?

    /** rcv_nxt unbounded, and what the two queues hold. */
    ghost var nxt: int
    ghost var chains: seq<Chain>
    ghost var segs: seq<Seg>

    ghost function Abs(): Rx
      reads this, sack, rxq
    {
      Rx(nxt, rcvWnd, rxq.size, limit, chains, segs, sackOk, sack.blocks)
    }

    ghost predicate OooOk()
      reads this, ooo
    {
      && |ooo| == |segs| == nrOoo && Distinct(ooo)
      && (forall i | 0 <= i < |ooo| :: HoldsSeg(ooo[i], segs[i]))
      && (lastOoo == null || lastOoo in ooo)
    }

    ghost predicate RxqOk()
      reads this, rxq, rxq.objs, rxq.items
    {
      && rxq.Valid() && |rxq.items| == |chains| && Distinct(rxq.items)
      && (forall i | 0 <= i < |chains| :: HoldsChain(rxq.items[i], chains[i]))
    }

    /** Everything but that the two queues share no packet. */
    ghost predicate Linked()
      reads this, sack, sack.cells, rxq, rxq.objs, rxq.items, ooo
    {
      && OooOk() && RxqOk() && sack.Valid()
      && rcvNxt == Wrap(nxt)
      && rcvWnd + |RxBytes(chains)| < WINDOW_MAX
      && Inv(Abs())
    }

    ghost predicate Valid()
      reads this, sack, sack.cells, rxq, rxq.objs, rxq.items, ooo
    {
      Linked() && (forall p | p in ooo :: p !in rxq.items)
    }

    /** A socket as tsock_init leaves it, with the peer's next sequence number known. */
    constructor (isn: u32, size: u16, limit: nat, sackOk: bool, ghost start: int)
      requires RingSize(size) && isn == Wrap(start)
      ensures Valid() && Abs() == Fresh(start, size, limit, sackOk)
    {
      this.limit, this.sackOk := limit, sackOk;
      rxq := new RxRing(size);
      sack := new SackReport();
      rcvNxt, rcvWnd := isn, size * SEGMENT_SIZE;
      ooo, nrOoo, lastOoo := [], 0, null;
      nxt, chains, segs := start, [], [];
    }

    /** The second half of tcp_rcv_enqueue: the packet goes to the rx ring, if it has room. */
    method PutInRing(pkt: Packet) returns (full: bool)
      requires RxqOk() && rcvNxt == Wrap(nxt)
      requires pkt.Valid() && 0 < pkt.len <= rcvWnd && pkt !in rxq.items
      modifies this`rcvNxt, this`rcvWnd, this`nxt, this`chains, rxq, rxq.objs
      ensures RxqOk() && rcvNxt == Wrap(nxt)
      ensures full == (|old(chains)| >= rxq.size)
      ensures full ==> rxq.items == old(rxq.items) && nxt == old(nxt) && rcvWnd == old(rcvWnd) && chains == old(chains)
      ensures !full ==>
        && rxq.items == old(rxq.items) + [pkt] && chains == old(chains) + [pkt.Payload()]
        && nxt == old(nxt) + pkt.len && rcvWnd == old(rcvWnd) - pkt.len
    {
      hide Bytes;
      hide Stored;
      hide RingSize;
      hide Holds;
      var n := rxq.EnqueueBurst([pkt]);
      if n != 1 {
        return true;
      }
      assert HoldsChain(pkt, pkt.Payload());
      hide HoldsChain;
      WrapAdd(nxt, pkt.len);
      rcvNxt := Wrap(rcvNxt + pkt.len);
      rcvWnd := rcvWnd - pkt.len;
      nxt := nxt + pkt.len;
      chains := chains + [pkt.Payload()];
      return false;
    }

    /** tcp_rcv_enqueue. */
    method RcvEnqueue(pkt: Packet) returns (full: bool)
      requires RxqOk() && rcvNxt == Wrap(nxt)
      requires pkt.Valid() && pkt.lent == 0 && pkt.len > 0 && pkt !in rxq.items
      modifies this`rcvNxt, this`rcvWnd, this`nxt, this`chains, rxq, rxq.objs, pkt
      ensures Abs() == R.Enqueue(old(Abs()), old(SegOf(pkt))).0
      ensures full == (R.Enqueue(old(Abs()), old(SegOf(pkt))).1 == RxqFull)
      ensures pkt.Valid() && pkt.lent == 0
      ensures RxqOk() && rcvNxt == Wrap(nxt)
      ensures old(pkt.len) <= old(rcvWnd) ==> unchanged(pkt)
      ensures rxq.items == old(rxq.items) || rxq.items == old(rxq.items) + [pkt]
      ensures pkt.len == 0 ==> rxq.items == old(rxq.items)
    {
      hide Bytes;
      hide RxBytes;
      hide TakeBytes;
      hide Stored;
      hide RingSize;
      hide Holds;
      ghost var g := SegOf(pkt);
      if pkt.len > rcvWnd {
        pkt.CutTail(pkt.len - rcvWnd);
      }
      if pkt.len == 0 {
        return false;
      }
      full := PutInRing(pkt);
    }

    /** tsock_remove_ooo_pkt for the packet at index `i`. */
    method RemoveOoo(i: nat)
      requires OooOk() && i < |ooo|
      modifies this`ooo, this`nrOoo, this`lastOoo, this`segs
      ensures OooOk()
      ensures ooo == old(ooo)[..i] + old(ooo)[i + 1..]
      ensures segs == Remove(old(segs), i)
    {
      hide Bytes;
      hide HoldsSeg;
      if lastOoo == ooo[i] {
        lastOoo := null;
      }
      ooo := ooo[..i] + ooo[i + 1..];
      nrOoo := nrOoo - 1;
      segs := Remove(segs, i);
      assert forall k | 0 <= k < |ooo| :: ooo[k] == old(ooo)[if k < i then k else k + 1];
      assert forall k | 0 <= k < |segs| :: segs[k] == old(segs)[if k < i then k else k + 1];
      if lastOoo != null {
        ghost var k :| 0 <= k < |old(ooo)| && old(ooo)[k] == lastOoo;
        assert ooo[if k < i then k else k - 1] == lastOoo;
      }
    }

    /** The list operation of ooo_queue_insert. */
    method LinkOoo(k: nat, pkt: Packet)
      requires OooOk() && k <= |ooo| && pkt !in ooo
      requires pkt.Valid() && pkt.lent == 0 && pkt.len > 0
      modifies this`ooo, this`nrOoo, this`lastOoo, this`segs
      ensures OooOk()
      ensures ooo == old(ooo)[..k] + [pkt] + old(ooo)[k..]
      ensures segs == InsertAt(old(segs), k, SegOf(pkt))
    {
      hide Bytes;
      hide Holds;
      ghost var g := SegOf(pkt);
      assert HoldsSeg(pkt, g);
      hide HoldsSeg;
      hide SegOf;
      Spliced(ooo, k, pkt);
      Spliced(segs, k, g);
      DistinctSplice(ooo, k, pkt);
      hide Distinct;
      ooo := ooo[..k] + [pkt] + ooo[k..];
      segs := InsertAt(segs, k, g);
      nrOoo := nrOoo + 1;
      lastOoo := pkt;
      assert ooo[k] == pkt;
    }

    /** The end of ooo_queue_insert: link the packet, and report it when SACK is negotiated. */
    method LinkAndReport(k: nat, pkt: Packet)
      requires OooOk() && sack.Valid() && k <= |ooo| && pkt !in ooo
      requires pkt.Valid() && pkt.lent == 0 && pkt.len > 0
      modifies this`ooo, this`nrOoo, this`lastOoo, this`segs, sack, sack.cells
      ensures OooOk() && sack.Valid()
      ensures ooo == old(ooo)[..k] + [pkt] + old(ooo)[k..]
      ensures segs == InsertAt(old(segs), k, SegOf(pkt))
      ensures sack.blocks == if sackOk then SackSpec.Update(old(sack.blocks), pkt.start, SegOf(pkt).End())
                             else old(sack.blocks)
    {
      hide Bytes;
      hide Stores;
      hide Holds;
      hide SackSpec.Update;
      LinkOoo(k, pkt);
      hide HoldsSeg;
      if sackOk {
        WrapAdd(pkt.start, pkt.len);
        sack.Update(pkt.seqno, Wrap(pkt.seqno + pkt.len), pkt.start, pkt.start + pkt.len);
      }
    }

    /** What the out-of-order path needs to know of the socket and of the packet. */
    ghost predicate OooReady(pkt: Packet)
      reads this, ooo, sack, sack.cells, pkt
    {
      && OooOk() && sack.Valid() && rcvNxt == Wrap(nxt) && rcvWnd < WINDOW_MAX
      && pkt !in ooo && pkt.Valid() && pkt.lent == 0
      && nxt <= pkt.start <= nxt + rcvWnd
    }

    /** ooo_queue_insert. */
    method OooQueueInsert(k: nat, pkt: Packet) returns (o: Outcome)
      requires OooReady(pkt) && k <= |ooo|
      modifies this`ooo, this`nrOoo, this`lastOoo, this`segs, sack, sack.cells, pkt
      ensures OooOk() && sack.Valid()
      ensures (Abs(), o) == R.Insert(old(Abs()), k, old(SegOf(pkt)))
      ensures ooo == if o == Accepted then old(ooo)[..k] + [pkt] + old(ooo)[k..] else old(ooo)
      ensures pkt.Valid() && pkt.lent == 0
    {
      hide Bytes;
      hide TakeBytes;
      hide Stores;
      hide Holds;
      hide SackSpec.Update;
      DiffSum(pkt.start, pkt.len, nxt, rcvWnd);
      var toCut := Diff(Wrap(pkt.seqno + pkt.len), Wrap(rcvNxt + rcvWnd));
      if toCut > 0 {
        pkt.CutTail(toCut);
      }
      if pkt.len == 0 {
        return Duplicate;
      }
      WrapInjective(pkt.start, nxt);
      if pkt.seqno != rcvNxt && nrOoo >= limit {
        return OooLimit;
      }
      LinkAndReport(k, pkt);
      return Accepted;
    }

    /** The loop of tcp_rcv_data_ooo over the packets that follow: drops those that `pkt` covers
        and says how much of its tail the first other one already has. */
    method DropCovered(k: nat, pkt: Packet) returns (toCut: nat)
      requires OooReady(pkt) && k <= |ooo| && pkt.len > 0
      requires Sorted(segs) && Within(segs, nxt, nxt + rcvWnd)
      requires k < |segs| ==> pkt.start <= segs[k].start
      modifies this`ooo, this`nrOoo, this`lastOoo, this`segs
      ensures OooOk() && k <= |ooo| && toCut <= pkt.len == SegOf(pkt).Len()
      ensures R.TrimAndInsert(old(Abs()), k, SegOf(pkt)) ==
              R.Insert(Abs(), k, if toCut > 0 then CutTail(SegOf(pkt), toCut) else SegOf(pkt))
      ensures forall p | p in ooo :: p in old(ooo)
    {
      hide Bytes;
      hide TakeBytes;
      hide Stores;
      hide Holds;
      hide R.Insert;
      hide R.TrimAndInsert;
      ghost var g := SegOf(pkt);
      assert g.Len() == pkt.len;
      while k < |ooo|
        invariant OooOk() && k <= |ooo|
        invariant Sorted(segs) && Within(segs, nxt, nxt + rcvWnd) && (k < |segs| ==> g.start <= segs[k].start)
        invariant R.TrimAndInsert(Abs(), k, g) == R.TrimAndInsert(old(Abs()), k, g)
        invariant forall p | p in ooo :: p in old(ooo)
        decreases |ooo|
      {
        var next := ooo[k];
        assert HoldsSeg(next, segs[k]);
        EndDiff(pkt.start, pkt.len, next.start, nxt, rcvWnd);
        toCut := 0;
        var overlap := Diff(Wrap(pkt.seqno + pkt.len), next.seqno);
        if overlap <= 0 {
          break;
        }
        TrimUnfold(Abs(), k, g);
        if overlap < next.len {
          return overlap;
        }
        SortedRemove(segs, k);
        RemoveOoo(k);
      }
      toCut := 0;
      TrimDone(Abs(), k, g);
    }

    /** The rest of tcp_rcv_data_ooo once the place of the packet is known. */
    method TrimAndInsert(k: nat, pkt: Packet) returns (o: Outcome)
      requires OooReady(pkt) && k <= |ooo| && pkt.len > 0
      requires Sorted(segs) && Within(segs, nxt, nxt + rcvWnd)
      requires k < |segs| ==> pkt.start <= segs[k].start
      modifies this`ooo, this`nrOoo, this`lastOoo, this`segs, sack, sack.cells, pkt
      ensures OooOk() && sack.Valid()
      ensures (Abs(), o) == R.TrimAndInsert(old(Abs()), k, old(SegOf(pkt)))
      ensures forall p | p in ooo :: p in old(ooo) || p == pkt
      ensures pkt.Valid() && pkt.lent == 0
    {
      hide Bytes;
      hide TakeBytes;
      hide Stores;
      hide Holds;
      hide R.Insert;
      hide R.TrimAndInsert;
      hide Sorted;
      hide Within;
      hide Distinct;
      hide SackReport.Valid;
      hide OooOk;
      var toCut := DropCovered(k, pkt);
      if toCut > 0 {
        pkt.CutTail(toCut);
      }
      o := OooQueueInsert(k, pkt);
    }

    /** The scan of tcp_rcv_data_ooo for the packet to insert after. */
    method FindPlace(pkt: Packet) returns (k: nat)
      requires OooReady(pkt) && Within(segs, nxt, nxt + rcvWnd)
      ensures k == Position(segs, pkt.start)
    {
      hide Bytes;
      hide Stores;
      hide Holds;
      k := 0;
      while k < |ooo|
        invariant k <= |ooo|
        invariant forall i | 0 <= i < k :: segs[i].start <= pkt.start
      {
        var next := ooo[k];
        assert HoldsSeg(next, segs[k]);
        DiffExact(next.start, pkt.start);
        if SeqGt(next.seqno, pkt.seqno) {
          break;
        }
        k := k + 1;
      }
      PositionUnique(segs, pkt.start, k);
    }

    /** The predict of tcp_rcv_data_ooo: does the packet continue the last one of the queue, and
        was that the last one inserted? */
    method Predicted(pkt: Packet) returns (hit: bool)
      requires OooReady(pkt) && pkt.len > 0 && pkt.start < nxt + rcvWnd && Inv(Abs())
      ensures hit ==> R.OooRcv(Abs(), SegOf(pkt)) == R.Insert(Abs(), |ooo|, SegOf(pkt))
    {
      hide Bytes;
      hide Stores;
      hide Holds;
      hide R.Insert;
      hide R.OooRcv;
      if lastOoo != null && lastOoo == ooo[|ooo| - 1] {
        assert HoldsSeg(lastOoo, segs[|segs| - 1]);
        WrapAdd(lastOoo.start, lastOoo.len);
        WrapInjective(lastOoo.start + lastOoo.len, pkt.start);
        if Wrap(lastOoo.seqno + lastOoo.len) == pkt.seqno {
          PredictedPlace(Abs(), SegOf(pkt));
          return true;
        }
      }
      return false;
    }

    /** How a packet lies to the one before it: does it replace that one, and how many of its
        first bytes does that one have? */
    method CompareToPrev(k: nat, pkt: Packet) returns (replace: bool, toCut: int)
      requires OooReady(pkt) && 0 < k <= |segs| && nxt <= segs[k - 1].start && segs[k - 1].End() <= nxt + rcvWnd
      ensures replace == (pkt.start == segs[k - 1].start && pkt.len > segs[k - 1].Len())
      ensures toCut == segs[k - 1].End() - pkt.start
    {
      hide Bytes;
      hide Stores;
      hide Holds;
      var prev := ooo[k - 1];
      assert HoldsSeg(prev, segs[k - 1]);
      WrapInjective(pkt.start, prev.start);
      EndDiff(prev.start, prev.len, pkt.start, nxt, rcvWnd);
      replace := pkt.seqno == prev.seqno && pkt.len > prev.len;
      toCut := Diff(Wrap(prev.seqno + prev.len), pkt.seqno);
    }

    /** Dropping the packet at index `k` and placing `pkt` there. */
    method PlaceInstead(k: nat, pkt: Packet) returns (o: Outcome)
      requires OooReady(pkt) && pkt.len > 0 && k < |segs|
      requires var q := Remove(segs, k);
               Sorted(q) && Within(q, nxt, nxt + rcvWnd) && (k < |q| ==> pkt.start <= q[k].start)
      modifies this`ooo, this`nrOoo, this`lastOoo, this`segs, sack, sack.cells, pkt
      ensures OooOk() && sack.Valid()
      ensures (Abs(), o) ==
              R.TrimAndInsert(old(Abs()).(ooo := Remove(old(Abs()).ooo, k)), k, old(SegOf(pkt)))
      ensures forall p | p in ooo :: p in old(ooo) || p == pkt
      ensures pkt.Valid() && pkt.lent == 0
    {
      hide Bytes;
      hide Stores;
      hide Holds;
      hide R.TrimAndInsert;
      hide Sorted;
      hide Within;
      hide HoldsSeg;
      hide Distinct;
      RemoveOoo(k);
      o := TrimAndInsert(k, pkt);
    }

    /** Placing what the packet has beyond its first `toCut` bytes. */
    method PlaceRest(k: nat, pkt: Packet, toCut: nat) returns (o: Outcome)
      requires OooReady(pkt) && 0 < toCut < pkt.len && k <= |segs|
      requires Sorted(segs) && Within(segs, nxt, nxt + rcvWnd)
      requires pkt.start + toCut <= nxt + rcvWnd && (k < |segs| ==> pkt.start + toCut <= segs[k].start)
      modifies this`ooo, this`nrOoo, this`lastOoo, this`segs, sack, sack.cells, pkt
      ensures OooOk() && sack.Valid()
      ensures (Abs(), o) == R.TrimAndInsert(old(Abs()), k, CutHead(old(SegOf(pkt)), toCut))
      ensures forall p | p in ooo :: p in old(ooo) || p == pkt
      ensures pkt.Valid() && pkt.lent == 0
    {
      hide Bytes;
      hide DropBytes;
      hide Stores;
      hide Holds;
      hide R.TrimAndInsert;
      hide Sorted;
      hide Within;
      pkt.CutHead(toCut);
      o := TrimAndInsert(k, pkt);
    }

    lemma OooFacts()
      requires OooOk() && Inv(Abs())
      ensures |ooo| == |segs| && Sorted(segs) && Within(segs, nxt, nxt + rcvWnd)
    {
      hide HoldsSeg;
      hide Distinct;
      hide Bytes;
    }

    /** Placing the packet after the `k` ones that start no later. */
    method Place(k: nat, pkt: Packet) returns (o: Outcome)
      requires OooReady(pkt) && pkt.len > 0 && pkt.start < nxt + rcvWnd && Inv(Abs())
      requires k == Position(segs, pkt.start)
      modifies this`ooo, this`nrOoo, this`lastOoo, this`segs, sack, sack.cells, pkt
      ensures OooOk() && sack.Valid()
      ensures (Abs(), o) == R.OooRcv(old(Abs()), old(SegOf(pkt)))
      ensures forall p | p in ooo :: p in old(ooo) || p == pkt
      ensures pkt.Valid() && pkt.lent == 0
    {
      hide Bytes;
      hide DropBytes;
      hide Stores;
      hide Holds;
      hide Position;
      hide R.TrimAndInsert;
      hide R.OooRcv;
      hide OooOk;
      hide Inv;
      hide Sorted;
      hide Within;
      hide Remove;
      ghost var s, g := Abs(), SegOf(pkt);
      PlaceCases(s, g, k);
      OooFacts();
      if k > 0 {
        var replace, toCut := CompareToPrev(k, pkt);
        if replace {
          o := PlaceInstead(k - 1, pkt);
          return;
        }
        if toCut > 0 {
          if toCut >= pkt.len {
            return Duplicate;
          }
          o := PlaceRest(k, pkt, toCut);
          return;
        }
      }
      o := TrimAndInsert(k, pkt);
    }

    /** tcp_rcv_data_ooo. */
    method RcvDataOoo(pkt: Packet) returns (o: Outcome)
      requires OooReady(pkt) && pkt.len > 0 && pkt.start < nxt + rcvWnd && Inv(Abs())
      modifies this`ooo, this`nrOoo, this`lastOoo, this`segs, sack, sack.cells, pkt
      ensures OooOk() && sack.Valid()
      ensures (Abs(), o) == R.OooRcv(old(Abs()), old(SegOf(pkt)))
      ensures forall p | p in ooo :: p in old(ooo) || p == pkt
      ensures pkt.Valid() && pkt.lent == 0
    {
      hide Bytes;
      hide Stores;
      hide Holds;
      hide Position;
      hide R.Insert;
      hide R.OooRcv;
      var hit := Predicted(pkt);
      if hit {
        o := OooQueueInsert(|ooo|, pkt);
      } else {
        var k := FindPlace(pkt);
        o := Place(k, pkt);
      }
    }

    /** One turn of ooo_queue_drain: hand the first packet of the queue to the rx ring. */
    method DeliverHead() returns (full: bool)
      requires Valid() && ooo != [] && segs[0].start == nxt
      modifies this, rxq, rxq.objs, ooo[0]
      ensures Valid()
      ensures full ==> Abs() == old(Abs()) && R.Drain(Abs()) == Abs()
      ensures !full ==> R.Drain(Abs()) == R.Drain(old(Abs())) && |ooo| < |old(ooo)|
      ensures rxq.items == old(rxq.items) || rxq.items == old(rxq.items) + [old(ooo)[0]]
      ensures forall p | p in ooo :: p in old(ooo)
    {
      hide Bytes;
      hide RxBytes;
      hide Stores;
      hide Stored;
      hide RingSize;
      hide Holds;
      hide R.Drain;
      hide R.Enqueue;
      hide Inv;
      hide Distinct;
      hide HoldsChain;
      hide HoldsSeg;
      var pkt := ooo[0];
      ghost var s := Abs();
      HeadFacts();
      DeliverSpec(s);
      full := RcvEnqueue(pkt);
      OooFrame();
      if !full {
        RemoveOoo(0);
        assert segs == s.ooo[1..];
        assert ooo == old(ooo)[1..];
      }
    }

    /** What is known of the first packet of the queue. */
    lemma HeadFacts()
      requires Valid() && ooo != []
      ensures HoldsSeg(ooo[0], segs[0]) && ooo[0] !in rxq.items && ooo[0] !in ooo[1..]
      ensures ooo[0].Valid() && ooo[0].lent == 0 && ooo[0].len > 0 && SegOf(ooo[0]) == segs[0] && ooo[0].len == segs[0].Len()
    {
      hide Bytes;
      hide RxBytes;
      hide Stores;
      hide Stored;
      hide RingSize;
      hide HoldsChain;
      assert ooo + [] == ooo;
      DistinctTail(ooo, []);
      assert ooo[0] in ooo;
    }

    /** The loop of ooo_queue_drain. */
    method DeliverAll() returns (full: bool)
      requires Valid()
      modifies this, rxq, rxq.objs, ooo
      ensures Valid()
      ensures full ==> Abs() == R.Drain(old(Abs()))
      ensures !full ==> R.Drain(Abs()) == R.Drain(old(Abs())) && Tight(Abs())
      ensures forall p | p in ooo :: p in old(ooo)
      ensures forall p | p in rxq.items :: p in old(rxq.items) || p in old(ooo)
    {
      hide Bytes;
      hide RxBytes;
      hide R.Drain;
      hide Stores;
      hide Stored;
      hide RingSize;
      hide Holds;
      hide Distinct;
      hide HoldsChain;
      full := false;
      while |ooo| > 0
        invariant Valid() && !full
        invariant R.Drain(Abs()) == R.Drain(old(Abs()))
        invariant forall p | p in ooo :: p in old(ooo)
        invariant forall p | p in rxq.items :: p in old(rxq.items) || p in old(ooo)
        decreases |ooo|
      {
        var pkt := ooo[0];
        assert pkt in ooo;
        SameStart();
        if pkt.seqno != rcvNxt {
          break;
        }
        full := DeliverHead();
        if full {
          return;
        }
      }
    }

    /** The first queued packet starts at rcv_nxt exactly when its 32-bit number says so. */
    lemma SameStart()
      requires Valid() && ooo != []
      ensures ooo[0].seqno == rcvNxt <==> segs[0].start == nxt
    {
      hide Bytes;
      hide RxBytes;
      hide Stores;
      hide Stored;
      hide RingSize;
      hide Holds;
      assert HoldsSeg(ooo[0], segs[0]);
      assert nxt <= segs[0].start <= nxt + rcvWnd;
      WrapInjective(ooo[0].start, nxt);
    }

    /** The end of ooo_queue_drain: nothing more to deliver. */
    method RegulateBlocks()
      requires Valid() && Tight(Abs())
      modifies this`lastOoo, sack, sack.cells
      ensures Valid() && Abs() == R.Drain(old(Abs()))
    {
      hide Bytes;
      hide RxBytes;
      hide Stored;
      hide RingSize;
      hide SackSpec.Regulate;
      hide HoldsSeg;
      hide HoldsChain;
      hide Inv;
      ghost var s := Abs();
      sack.Regulate(rcvNxt, nxt);
      if nrOoo == 0 {
        lastOoo := null;
        sack.Clear();
      }
      BlocksDontMatter(s, sack.blocks);
    }

    /** ooo_queue_drain. */
    method OooQueueDrain()
      requires Valid()
      modifies this, rxq, rxq.objs, sack, sack.cells, ooo
      ensures Valid() && Abs() == R.Drain(old(Abs()))
      ensures forall p | p in ooo :: p in old(ooo)
      ensures forall p | p in rxq.items :: p in old(rxq.items) || p in old(ooo)
    {
      hide R.Drain;
      var full := DeliverAll();
      if !full {
        RegulateBlocks();
      }
    }

    /** The packet is none of those queued. */
    ghost predicate Foreign(pkt: Packet)
      reads this, rxq, pkt
    {
      pkt !in ooo && pkt !in rxq.items && pkt.Valid() && pkt.lent == 0
    }

    /** tcp_rcv_data, when the packet cannot go straight to the rx ring. */
    method RcvOutOfOrder(pkt: Packet) returns (o: Outcome)
      requires Valid() && Foreign(pkt) && pkt.len > 0 && nxt <= pkt.start < nxt + rcvWnd
      modifies this, rxq, rxq.objs, sack, sack.cells, pkt, ooo
      ensures Valid()
      ensures Abs() == R.Drain(R.OooRcv(old(Abs()), old(SegOf(pkt))).0)
      ensures o == R.OooRcv(old(Abs()), old(SegOf(pkt))).1
    {
      hide Bytes;
      hide RxBytes;
      hide Stores;
      hide Stored;
      hide RingSize;
      hide R.OooRcv;
      hide R.Drain;
      OooRcvKeeps(Abs(), SegOf(pkt));
      hide Inv;
      o := RcvDataOoo(pkt);
      assert forall i | 0 <= i < |ooo| :: ooo[i] in old(ooo) || ooo[i] == pkt;
      OooQueueDrain();
    }

    lemma SocketFacts()
      requires Valid()
      ensures rcvNxt == Wrap(nxt) && Inv(Abs()) && rcvWnd < WINDOW_MAX && (rcvWnd == 0 ==> segs == [])
    {
      hide OooOk;
      hide RxqOk;
      hide RxBytes;
      hide Bytes;
      assert segs != [] ==> segs[0].Len() > 0;
    }

    /** Does an in-order packet end before the first queued one starts? */
    method BeforeQueue(pkt: Packet) returns (direct: bool)
      requires Valid() && Foreign(pkt) && pkt.len > 0 && pkt.start == nxt
      ensures direct == (segs == [] || SegOf(pkt).End() < segs[0].start)
    {
      hide Bytes;
      hide RxBytes;
      hide Stores;
      hide Stored;
      hide RingSize;
      hide Holds;
      if |ooo| == 0 {
        return true;
      }
      assert HoldsSeg(ooo[0], segs[0]);
      EndDiff(pkt.start, pkt.len, segs[0].start, nxt, rcvWnd);
      direct := !SeqGe(Wrap(pkt.seqno + pkt.len), ooo[0].seqno);
    }

    /** tcp_rcv_enqueue of an in-order packet that ends before the queue. */
    method RcvDirect(pkt: Packet) returns (o: Outcome)
      requires Valid() && Foreign(pkt) && pkt.len > 0 && pkt.start == nxt
      requires segs == [] || SegOf(pkt).End() < segs[0].start
      modifies this, rxq, rxq.objs, pkt
      ensures Valid()
      ensures (Abs(), o) == R.Enqueue(old(Abs()), old(SegOf(pkt)))
    {
      hide Bytes;
      hide RxBytes;
      hide Stored;
      hide RingSize;
      hide Holds;
      ghost var s, g := Abs(), SegOf(pkt);
      EnqueueKeeps(s, g);
      assert R.Enqueue(s, g).1 == RxqFull || R.Enqueue(s, g).1 == Accepted;
      hide Inv;
      hide R.Enqueue;
      var full := RcvEnqueue(pkt);
      o := if full then RxqFull else Accepted;
    }

    /** tcp_rcv_data for a segment without FIN. */
    method RcvData(pkt: Packet) returns (o: Outcome)
      requires Valid() && Foreign(pkt) && pkt.start == Unwrap(pkt.seqno, nxt)
      requires pkt.len > 0 ==> pkt.start < nxt + rcvWnd
      modifies this, rxq, rxq.objs, sack, sack.cells, pkt, ooo
      ensures Valid()
      ensures (Abs(), o) == R.RcvData(old(Abs()), old(SegOf(pkt)))
    {
      hide Receiver.Valid;
      hide Inv;
      SocketFacts();
      hide Bytes;
      hide DropBytes;
      hide RxBytes;
      hide Stores;
      hide Stored;
      hide RingSize;
      hide R.RcvFrom;
      hide Holds;
      if pkt.len == 0 {
        return Accepted;
      }
      DiffExact(pkt.start, nxt);
      if SeqLt(pkt.seqno, rcvNxt) {
        var toCut := Wrap(rcvNxt - pkt.seqno);
        WrapDiff(nxt, pkt.start);
        if toCut >= pkt.len {
          pkt.len := 0;
          return Accepted;
        }
        pkt.CutHead(toCut);
      }
      o := RcvFromNext(pkt);
    }

    /** The rest of tcp_rcv_data, for a packet that does not start before rcv_nxt. */
    method RcvFromNext(pkt: Packet) returns (o: Outcome)
      requires Valid() && Foreign(pkt) && pkt.len > 0 && nxt <= pkt.start && -HALF <= pkt.start - nxt < HALF
      requires pkt.start < nxt + rcvWnd || (pkt.start == nxt && segs == [])
      modifies this, rxq, rxq.objs, sack, sack.cells, pkt, ooo
      ensures Valid()
      ensures (Abs(), o) == R.RcvFrom(old(Abs()), old(SegOf(pkt)))
    {
      hide Receiver.Valid;
      hide Inv;
      hide Bytes;
      hide R.OooRcv;
      hide R.Drain;
      hide R.Enqueue;
      hide Holds;
      SocketFacts();
      WrapInjective(pkt.start, nxt);
      if pkt.seqno == rcvNxt {
        var direct := BeforeQueue(pkt);
        if direct {
          o := RcvDirect(pkt);
          return;
        }
      }
      o := RcvOutOfOrder(pkt);
    }

    /** validate_seq. */
    method ValidateSeq(pkt: Packet) returns (ok: bool)
      requires Valid() && pkt.Valid() && pkt.start == Unwrap(pkt.seqno, nxt)
      ensures ok == ((pkt.len == 0 && pkt.start == nxt) ||
                     !(pkt.start + pkt.len <= nxt || pkt.start >= nxt + rcvWnd))
    {
      hide Bytes;
      hide RxBytes;
      hide Stores;
      hide Stored;
      hide RingSize;
      hide Holds;
      WrapInjective(pkt.start, nxt);
      if pkt.len == 0 && pkt.seqno == rcvNxt {
        return true;
      }
      SeqCheckExact(pkt.start, pkt.len, nxt, rcvWnd);
      var end := Wrap(pkt.seqno + pkt.len);
      ok := !(SeqLe(end, rcvNxt) || SeqGe(pkt.seqno, Wrap(rcvNxt + rcvWnd)));
    }

    /** What an arriving packet does: validate_seq, then tcp_rcv_data. */
    method Arrive(pkt: Packet) returns (o: Outcome)
      requires Valid() && Foreign(pkt) && pkt.start == Unwrap(pkt.seqno, nxt)
      modifies this, rxq, rxq.objs, sack, sack.cells, pkt, ooo
      ensures Valid()
      ensures (Abs(), o) == R.Arrive(old(Abs()), old(SegOf(pkt)))
    {
      hide Bytes;
      hide RxBytes;
      hide Stores;
      hide Stored;
      hide RingSize;
      hide R.RcvData;
      hide Holds;
      var ok := ValidateSeq(pkt);
      assert SegOf(pkt).Len() == pkt.len;
      if !ok {
        return BadSeq;
      }
      o := RcvData(pkt);
    }

    /** pkt_to_iov on the packet at index `k` of the rx ring, which holds `c`. */
    method ReadHead(k: u16, room: nat, ghost c: Chain) returns (pkt: Packet, out: Chain)
      requires rxq.Valid() && k < |rxq.items| && HoldsChain(rxq.items[k], c)
      modifies rxq.items[k]
      ensures pkt == rxq.items[k]
      ensures |c| <= room ==> out == c && pkt.len == 0
      ensures |c| > room ==> out == c[..room] && pkt.len > 0 && HoldsChain(rxq.items[k], c[room..])
    {
      hide Bytes;
      hide Stored;
      hide RingSize;
      hide Holds;
      var head := rxq.PeekUnread(k);
      pkt := head.value;
      out := pkt.ReadPieces(room);
      BytesUnfold(pkt.Payload());
      if |c| <= room {
        assert c[..|c|] == c;
      }
    }

    /** The loop of tsock_zreadv: takes pieces packet by packet, and counts the packets that
        were consumed whole. */
    method FillIov(nrIov: nat) returns (data: Chain, heads: seq<Packet?>, nrPkt: u16)
      requires RxqOk() && GoodQueue(chains)
      modifies rxq.items
      ensures rxq.Valid() && nrPkt <= |chains| && |heads| == |data|
      ensures data == R.ReadPieces(chains, nrIov).0
      ensures var rest := R.ReadPieces(chains, nrIov).1;
              |rest| == |chains| - nrPkt && forall i | 0 <= i < |rest| :: HoldsChain(rxq.items[nrPkt + i], rest[i])
      ensures heads == HeadsOf(rxq.items, chains, nrIov)
    {
      hide Bytes;
      hide HeadsOf;
      hide RxBytes;
      hide Stored;
      hide RingSize;
      hide HoldsChain;
      hide R.ReadPieces;
      hide GoodQueue;
      hide ReadGoesOn;
      hide Repeat;
      data, heads, nrPkt := [], [], 0;
      rxq.CountBound();
      ReadStarts(rxq.items, chains, nrIov);
      while true
        invariant rxq.Valid() && unchanged(rxq) && unchanged(rxq.objs)
        invariant nrPkt <= |chains| == |rxq.items| <= 32768 && |heads| == |data| <= nrIov
        invariant ReadGoesOn(rxq.items, chains, nrIov, nrPkt, data, heads)
        invariant forall i | nrPkt <= i < |chains| :: HoldsChain(rxq.items[i], chains[i])
        decreases |chains| - nrPkt
      {
        ReadTurn(rxq.items, chains, nrIov, nrPkt, data, heads);
        var n := rxq.ReadableCount();
        if nrPkt >= n {
          break;
        }
        var pkt, out := ReadHead(nrPkt, nrIov - |data|, chains[nrPkt]);
        RepeatLength(pkt, |out|);
        data := data + out;
        heads := heads + Repeat(pkt, |out|);
        if pkt.len > 0 {
          break;
        }
        nrPkt := nrPkt + 1;
      }
    }

    /** tcp_rxq_update_unread, and the window opens. */
    method Consume(nrPkt: u16, size: nat, ghost rest: seq<Chain>)
      requires rxq.Valid() && Distinct(rxq.items) && nrPkt <= |rxq.items| == |rest| + nrPkt
      requires forall i | 0 <= i < |rest| :: HoldsChain(rxq.items[nrPkt + i], rest[i])
      requires rcvWnd + size < WINDOW_MAX
      modifies this`chains, this`rcvWnd, rxq`unread, rxq`items
      ensures RxqOk() && chains == rest && rcvWnd == old(rcvWnd) + size
      ensures forall p | p in rxq.items :: p in old(rxq.items)
    {
      hide Stored;
      hide RingSize;
      hide HoldsChain;
      rxq.UpdateUnread(nrPkt);
      chains := rest;
      rcvWnd := rcvWnd + size;
    }

    /** tsock_zreadv: hands out up to `nrIov` pieces, each with the packet to give back, and
        opens the window by what was read. */
    method Zreadv(nrIov: nat) returns (data: Chain, heads: seq<Packet?>)
      requires Valid()
      modifies this, rxq, rxq.items
      ensures Valid()
      ensures (Abs(), data) == R.Read(old(Abs()), nrIov)
      ensures |heads| == |data| && heads == old(HeadsOf(rxq.items, chains, nrIov))
    {
      hide Bytes;
      hide HeadsOf;
      hide RxBytes;
      hide Stores;
      hide Stored;
      hide RingSize;
      hide Holds;
      hide R.ReadPieces;
      hide HoldsSeg;
      hide HoldsChain;
      hide OooOk;
      ghost var s := Abs();
      ReadKeeps(s, nrIov);
      assert GoodQueue(chains);
      hide Inv;
      hide GoodQueue;
      ghost var rest := R.ReadPieces(chains, nrIov).1;
      var nrPkt;
      data, heads, nrPkt := FillIov(nrIov);
      if data != [] {
        Consume(nrPkt, |Bytes(data)|, rest);
      }
      OooFrame();
    }

    /** Reading changes no packet of the out-of-order queue. */
    twostate lemma OooFrame()
      requires old(OooOk()) && unchanged(`ooo) && unchanged(`segs) && unchanged(`nrOoo) && unchanged(`lastOoo)
      requires forall p | p in ooo :: unchanged(p)
      ensures OooOk()
    {
      hide HoldsSeg;
      forall i | 0 <= i < |ooo| ensures HoldsSeg(ooo[i], segs[i]) {
        assert old(HoldsSeg(ooo[i], segs[i])) && ooo[i] in ooo;
      }
    }

    /** tsock_drop_ooo_mbufs. */
    method DropOooMbufs()
      requires Valid()
      modifies this`ooo, this`nrOoo, this`lastOoo, this`segs
      ensures Valid() && Abs() == R.DropOoo(old(Abs()))
    {
      hide Bytes;
      hide RxBytes;
      hide Stores;
      hide Stored;
      hide RingSize;
      hide HoldsSeg;
      hide HoldsChain;
      if nrOoo == 0 {
        return;
      }
      DropInv(Abs());
      hide Inv;
      var n := if nrOoo / 4 > 1 then nrOoo / 4 else 1;
      for i := 0 to n
        invariant OooOk() && |segs| == |old(segs)| - i && segs == old(segs)[..|segs|]
        invariant forall p | p in ooo :: p in old(ooo)
      {
        RemoveOoo(|ooo| - 1);
      }
    }
  }

  const MAX_MERGE_SIZE := 1500 * 32

  /** tcp_can_merge and packet_chain: append `pkt` to the chain of `head` if it continues it.
      `sameHeader` stands for the tests on flags, acknowledgement and timestamp. */
  method TryMerge(head: Packet, pkt: Packet, sameHeader: bool) returns (merged: bool)
    requires head != pkt && head.Valid() && pkt.Valid() && head.lent == pkt.lent == 0
    requires head.toRead == 0 && head.nrReadSeg == |head.chain| < MAX_READ_SEG
    requires pkt.toRead == 0 && pkt.nrReadSeg == |pkt.chain| == 1
    requires -HALF <= head.start + head.len - pkt.start < HALF
    modifies head
    ensures merged == (sameHeader && old(head.len) > 0 && pkt.len > 0 && pkt.start == old(head.start + head.len) &&
                       old(head.len) + pkt.len < MAX_MERGE_SIZE)
    ensures head.Valid() && head.lent == 0 && head.start == old(head.start)
    ensures head.Payload() == if merged then old(head.Payload()) + pkt.Payload() else old(head.Payload())
  {
    hide Bytes;
    WrapAdd(head.start, head.len);
    WrapInjective(head.start + head.len, pkt.start);
    merged := false;
    if sameHeader && head.len > 0 && pkt.len > 0 && Wrap(head.seqno + head.len) == pkt.seqno {
      var piece := pkt.chain[0];
      assert pkt.Payload() == [piece];
      BytesSingle(piece);
      if head.len + |piece| < MAX_MERGE_SIZE {
        head.Append(piece);
        merged := true;
      }
    }
  }

  lemma ReadKeeps(s: Rx, n: nat)
    requires Inv(s)
    ensures var (s', out) := R.Read(s, n);
            && Inv(s') && s'.wnd + |RxBytes(s'.rxq)| == s.wnd + |RxBytes(s.rxq)|
            && (out == [] ==> s' == s)
  {
    hide Bytes;
    hide RxBytes;
    hide R.ReadPieces;
    ReadPiecesSplits(s.rxq, n);
    BytesUnfold([]);
  }

  lemma BlocksDontMatter(s: Rx, bs: seq<SackSpec.Block>)
    requires Inv(s)
    ensures Inv(s.(blocks := bs))
  {
    hide Bytes;
  }

  /** tcp_rcv_data_ooo by cases on the packet before. */
  lemma PlaceCases(s: Rx, g: Seg, k: nat)
    requires Inv(s) && g.Len() > 0 && s.nxt <= g.start < Right(s) && k == Position(s.ooo, g.start)
    ensures k <= |s.ooo| && (k < |s.ooo| ==> g.start < s.ooo[k].start)
    ensures k > 0 ==> s.nxt <= s.ooo[k - 1].start <= g.start && s.ooo[k - 1].End() <= Right(s)
    ensures k > 0 ==> s.ooo[k - 1].Len() > 0
    ensures k == 0 || s.ooo[k - 1].End() <= g.start ==> R.OooRcv(s, g) == R.TrimAndInsert(s, k, g)
    ensures k > 0 && s.ooo[k - 1].End() > g.start ==>
      var prev := s.ooo[k - 1];
      if g.start == prev.start && g.Len() > prev.Len() then
        && Sorted(Remove(s.ooo, k - 1)) && Within(Remove(s.ooo, k - 1), s.nxt, Right(s))
        && (k - 1 < |Remove(s.ooo, k - 1)| ==> g.start <= Remove(s.ooo, k - 1)[k - 1].start)
        && R.OooRcv(s, g) == R.TrimAndInsert(s.(ooo := Remove(s.ooo, k - 1)), k - 1, g)
      else if prev.End() - g.start >= g.Len() then R.OooRcv(s, g) == (s, Duplicate)
      else
        && (k < |s.ooo| ==> prev.End() <= s.ooo[k].start)
        && R.OooRcv(s, g) == R.TrimAndInsert(s, k, CutHead(g, prev.End() - g.start))
  {
    hide Bytes;
    hide DropBytes;
    hide R.TrimAndInsert;
    hide Position;
    hide Sorted;
    hide Within;
    hide Remove;
    hide GoodSegs;
    hide GoodQueue;
    Neighbours(s, g, k);
  }

  /** What is known of the entries around the place of a segment. */
  lemma Neighbours(s: Rx, g: Seg, k: nat)
    requires Inv(s) && k == Position(s.ooo, g.start)
    ensures k <= |s.ooo| && (k < |s.ooo| ==> g.start < s.ooo[k].start)
    ensures k > 0 ==>
      var prev, q := s.ooo[k - 1], Remove(s.ooo, k - 1);
      && s.nxt <= prev.start <= g.start && prev.End() <= Right(s) && prev.Len() > 0
      && Sorted(q) && Within(q, s.nxt, Right(s)) && (k - 1 < |q| ==> g.start <= q[k - 1].start)
      && (k < |s.ooo| ==> prev.End() <= s.ooo[k].start)
  {
    hide Bytes;
    hide Position;
    hide GoodSegs;
    hide GoodQueue;
    if k > 0 {
      SortedRemove(s.ooo, k - 1);
      assert s.ooo[k - 1].Len() > 0;
    }
  }

  /** Handing over the first queued segment: it always fits the window, whole. */
  lemma DeliverSpec(s: Rx)
    requires Inv(s) && s.ooo != [] && s.ooo[0].start == s.nxt
    ensures s.ooo[0].Len() <= s.wnd
    ensures
      var (s1, o) := R.Enqueue(s, s.ooo[0]);
      if o == RxqFull then s1 == s && R.Drain(s) == s
      else
        && s1 == s.(nxt := s1.nxt, wnd := s1.wnd, rxq := s.rxq + [s.ooo[0].chain])
        && Inv(s1.(ooo := s.ooo[1..])) && R.Drain(s) == R.Drain(s1.(ooo := s.ooo[1..]))
        && s1.wnd >= 0 && s1.wnd + |RxBytes(s1.rxq)| == s.wnd + |RxBytes(s.rxq)|
  {
    hide Bytes;
    hide RxBytes;
    TailInv(s);
    EnqueueKeeps(s.(ooo := s.ooo[1..]), s.ooo[0]);
  }

  /** The modular test for a segment outside the window is exact, even though the distances it
      compares may not fit in 31 bits. */
  lemma SeqCheckExact(start: int, len: u16, nxt: int, wnd: nat)
    requires -HALF <= start - nxt < HALF && wnd < WINDOW_MAX
    ensures SeqLe(Wrap(Wrap(start) + len), Wrap(nxt)) || SeqGe(Wrap(start), Wrap(Wrap(nxt) + wnd)) <==>
            start + len <= nxt || start >= nxt + wnd
  {
    WrapAdd(start, len);
    WrapAdd(nxt, wnd);
    DiffExact(start + len, nxt);
    DiffExact(start, nxt + wnd);
    if start + len - nxt >= HALF {
      WrapUnique(start + len - M32, (start + len) / M32 - 1, Wrap(start + len));
      DiffExact(start + len - M32, nxt);
    }
    if start - (nxt + wnd) < -HALF {
      WrapUnique(start + M32, start / M32 + 1, Wrap(start));
      DiffExact(start + M32, nxt + wnd);
    }
  }

  /** Reading from one packet, in the specification. */
  lemma ReadOne(cs: seq<Chain>, j: nat, room: nat)
    requires j <= |cs| && GoodQueue(cs)
    ensures j == |cs| ==> R.ReadPieces(cs[j..], room) == ([], [])
    ensures j < |cs| ==>
      if |cs[j]| <= room then
        && R.ReadPieces(cs[j..], room).0 == cs[j] + R.ReadPieces(cs[j + 1..], room - |cs[j]|).0
        && R.ReadPieces(cs[j..], room).1 == R.ReadPieces(cs[j + 1..], room - |cs[j]|).1
      else
        R.ReadPieces(cs[j..], room) == (cs[j][..room], [cs[j][room..]] + cs[j + 1..])
  {
    hide Bytes;
    if j < |cs| {
      assert cs[j..][1..] == cs[j + 1..];
      if room == 0 {
        assert cs[j..] == [cs[j][0..]] + cs[j + 1..];
      }
    }
  }

  function Repeat(p: Packet?, n: nat): seq<Packet?> {
    seq(n, _ => p)
  }

  /** The packet each piece of a read belongs to, when the packets `ps` hold the chains `cs`. */
  function HeadsOf(ps: seq<Packet?>, cs: seq<Chain>, n: nat): seq<Packet?>
    requires |ps| == |cs|
  {
    if cs == [] || n == 0 then []
    else if |cs[0]| <= n then Repeat(ps[0], |cs[0]|) + HeadsOf(ps[1..], cs[1..], n - |cs[0]|)
    else Repeat(ps[0], n)
  }

  lemma RepeatLength(p: Packet?, n: nat)
    ensures |Repeat(p, n)| == n
  {
  }

  lemma HeadsOne(ps: seq<Packet?>, cs: seq<Chain>, j: nat, room: nat)
    requires j <= |cs| == |ps| && GoodQueue(cs)
    ensures j == |cs| ==> HeadsOf(ps[j..], cs[j..], room) == []
    ensures j < |cs| && |cs[j]| <= room ==>
              HeadsOf(ps[j..], cs[j..], room) == Repeat(ps[j], |cs[j]|) + HeadsOf(ps[j + 1..], cs[j + 1..], room - |cs[j]|)
    ensures j < |cs| && |cs[j]| > room ==> HeadsOf(ps[j..], cs[j..], room) == Repeat(ps[j], room)
  {
    if j < |cs| {
      assert cs[j..][0] == cs[j] && ps[j..][0] == ps[j] && cs[j] != [];
      assert cs[j..][1..] == cs[j + 1..] && ps[j..][1..] == ps[j + 1..];
    }
  }

  /** A read into `n` iovecs goes on at packet `k`, with `data` and `heads` handed out. */
  ghost predicate ReadGoesOn(ps: seq<Packet?>, cs: seq<Chain>, n: nat, k: nat, data: Chain, heads: seq<Packet?>) {
    && k <= |cs| == |ps| && |data| <= n
    && R.ReadPieces(cs, n).0 == data + R.ReadPieces(cs[k..], n - |data|).0
    && R.ReadPieces(cs, n).1 == R.ReadPieces(cs[k..], n - |data|).1
    && HeadsOf(ps, cs, n) == heads + HeadsOf(ps[k..], cs[k..], n - |data|)
  }

  lemma ReadStarts(ps: seq<Packet?>, cs: seq<Chain>, n: nat)
    requires |ps| == |cs|
    ensures ReadGoesOn(ps, cs, n, 0, [], [])
  {
    hide R.ReadPieces;
    hide HeadsOf;
    assert cs[0..] == cs && ps[0..] == ps;
    assert [] + R.ReadPieces(cs, n).0 == R.ReadPieces(cs, n).0 && [] + HeadsOf(ps, cs, n) == HeadsOf(ps, cs, n);
  }

  lemma ReadTurn(ps: seq<Packet?>, cs: seq<Chain>, n: nat, k: nat, data: Chain, heads: seq<Packet?>)
    requires GoodQueue(cs) && ReadGoesOn(ps, cs, n, k, data, heads)
    ensures k == |cs| ==> R.ReadPieces(cs, n) == (data, []) && HeadsOf(ps, cs, n) == heads
    ensures k < |cs| && |cs[k]| <= n - |data| ==>
              ReadGoesOn(ps, cs, n, k + 1, data + cs[k], heads + Repeat(ps[k], |cs[k]|))
    ensures k < |cs| && |cs[k]| > n - |data| ==>
              && R.ReadPieces(cs, n) == (data + cs[k][..n - |data|], [cs[k][n - |data|..]] + cs[k + 1..])
              && HeadsOf(ps, cs, n) == heads + Repeat(ps[k], n - |data|)
  {
    hide R.ReadPieces;
    hide HeadsOf;
    hide GoodQueue;
    hide Repeat;
    ReadOne(cs, k, n - |data|);
    HeadsOne(ps, cs, k, n - |data|);
    if k == |cs| {
      assert data + [] == data && heads + [] == heads;
    } else if |cs[k]| <= n - |data| {
      Associative(data, cs[k], R.ReadPieces(cs[k + 1..], n - |data| - |cs[k]|).0);
      Associative(heads, Repeat(ps[k], |cs[k]|), HeadsOf(ps[k + 1..], cs[k + 1..], n - |data| - |cs[k]|));
    }
  }

  lemma EndDiff(start: int, len: u16, at: int, nxt: int, wnd: nat)
    requires nxt <= start <= nxt + wnd && nxt <= at <= nxt + wnd && wnd < WINDOW_MAX
    ensures Diff(Wrap(Wrap(start) + len), Wrap(at)) == start + len - at
  {
    DiffSum(start, len, at, 0);
  }

  /** One turn of the loop, in the specification. */
  lemma TrimUnfold(s: Rx, k: nat, g: Seg)
    requires k < |s.ooo| && Sorted(s.ooo) && g.start <= s.ooo[k].start && g.start <= Right(s)
    requires g.End() > s.ooo[k].start
    ensures
      if g.End() - s.ooo[k].start < s.ooo[k].Len()
      then R.TrimAndInsert(s, k, g) == R.Insert(s, k, CutTail(g, g.End() - s.ooo[k].start))
      else Sorted(Remove(s.ooo, k)) && (k < |Remove(s.ooo, k)| ==> g.start <= Remove(s.ooo, k)[k].start) &&
           R.TrimAndInsert(s, k, g) == R.TrimAndInsert(s.(ooo := Remove(s.ooo, k)), k, g)
  {
    hide Bytes;
    hide R.Insert;
    SortedRemove(s.ooo, k);
  }

  lemma TrimDone(s: Rx, k: nat, g: Seg)
    requires k <= |s.ooo| && Sorted(s.ooo) && g.start <= Right(s)
    requires k < |s.ooo| ==> g.End() <= s.ooo[k].start
    ensures R.TrimAndInsert(s, k, g) == R.Insert(s, k, g)
  {
    hide Bytes;
    hide R.Insert;
  }

  lemma PositionUnique(q: seq<Seg>, at: int, k: nat)
    requires k <= |q| && (forall i | 0 <= i < k :: q[i].start <= at) && (k < |q| ==> q[k].start > at)
    ensures Position(q, at) == k
  {
    hide Position;
  }

  /** The shortcut is sound: a packet that continues the last entry of the queue belongs behind
      it, which is where the full scan would put it, uncut. */
  lemma PredictedPlace(s: Rx, g: Seg)
    requires Inv(s) && g.Len() > 0 && s.nxt <= g.start < Right(s)
    requires s.ooo != [] && s.ooo[|s.ooo| - 1].End() == g.start
    ensures R.OooRcv(s, g) == R.Insert(s, |s.ooo|, g)
  {
    hide Bytes;
    hide R.Insert;
    hide R.TrimAndInsert;
    var n := |s.ooo|;
    forall i | 0 <= i < n ensures s.ooo[i].start <= g.start {
      if i < n - 1 {
        assert s.ooo[i].End() <= s.ooo[n - 1].start;
      }
    }
    PositionUnique(s.ooo, g.start, n);
    TrimDone(s, n, g);
  }
}
