/** Acknowledgements and timeouts over a Sender: tcp_rcv_sack, handle_fast_retransmit and
    tcp_rcv_ack of src/tcp/tcp_input.c, clear_sacked and tcp_timeout_rto of src/tcp/tcp_timeout.c. */
module AckPath {
  import opened SeqNum
  import opened Seqs
  import opened Chains
  import opened RingIndex
  import opened TxQueue
  import opened TxRings
  import opened TxDescs
  import opened XmitSpec
  import opened SendSpec
  import opened Scoreboard
  import opened SendSteps
  import opened SendAcks
  import opened Senders
  import opened Transmit

  // ---- the scoreboard

  /** The block goes behind those it is greater than. */
  lemma {:induction false} SortInAt(b: Report, bs: seq<Report>, k: nat)
    requires k <= |bs| && forall m | 0 <= m < k :: SeqGt(b.start, bs[m].start)
    requires k < |bs| ==> !SeqGt(b.start, bs[k].start)
    ensures SortIn(b, bs) == bs[..k] + [b] + bs[k..]
  {
    if k > 0 {
      SortInAt(b, bs[1..], k - 1);
      assert bs[..k] == [bs[0]] + bs[1..][..k - 1];
    }
  }

  /** Inserting blocks[i] into the sorted blocks behind it. */
  method InsertBlock(blocks: array<Report>, i: nat)
    requires i < blocks.Length
    modifies blocks
    ensures blocks[i..] == SortIn(old(blocks[i]), old(blocks[i + 1..])) && blocks[..i] == old(blocks[..i])
  {
    hide SortIn;
    hide SeqGt;
    var b, j := blocks[i], i;
    ghost var rest := blocks[i + 1..];
    while j + 1 < blocks.Length && SeqGt(b.start, blocks[j + 1].start)
      invariant i <= j < blocks.Length
      invariant forall m | 0 <= m < i || j < m < blocks.Length :: blocks[m] == old(blocks[m])
      invariant forall m | i <= m < j :: blocks[m] == rest[m - i]
      invariant forall m | 0 <= m < j - i :: SeqGt(b.start, rest[m].start)
    {
      blocks[j] := blocks[j + 1];
      j := j + 1;
    }
    blocks[j] := b;
    SortInAt(b, rest, j - i);
  }

  /** The qsort of sort_sack. */
  method SortBlocks(blocks: array<Report>)
    modifies blocks
    ensures blocks[..] == Sort(old(blocks[..]))
  {
    hide SortIn;
    var i := blocks.Length;
    ghost var all := blocks[..];
    while i > 0
      invariant 0 <= i <= blocks.Length && blocks[..i] == all[..i] && blocks[i..] == Sort(all[i..])
    {
      i := i - 1;
      assert all[i..][0] == all[i] && all[i..][1..] == all[i + 1..];
      ghost var front := blocks[..i + 1];
      assert front[..i] == blocks[..i];
      InsertBlock(blocks, i);
    }
  }

  /** sort_sack: false when two blocks intersect. */
  method SortSack(blocks: array<Report>) returns (ok: bool)
    modifies blocks
    ensures blocks[..] == Sort(old(blocks[..])) && ok == NoIntersection(blocks[..])
  {
    hide Sort;
    SortBlocks(blocks);
    var i := 1;
    while i < blocks.Length
      invariant 1 <= i && forall k | 0 < k < i && k < blocks.Length :: !SeqLt(blocks[k].start, blocks[k - 1].end)
    {
      if SeqLt(blocks[i].start, blocks[i - 1].end) {
        assert !NoIntersection(blocks[..]);
        return false;
      }
      i := i + 1;
    }
    return true;
  }

  lemma HoldUpdate(ds: seq<TxDesc?>, vs: seq<Desc>, k: nat, v: Desc)
    requires |ds| == |vs| && k < |ds| && Holds(ds[k], v)
    requires forall i | 0 <= i < |ds| && i != k :: Holds(ds[i], vs[i])
    ensures HoldAll(ds, vs[k := v])
  {
  }

  /** Setting or clearing TX_DESC_FLAG_SACKED of descriptor number `k`. */
  method SetMark(s: Sender, desc: TxDesc, ghost k: nat, sacked: bool)
    requires s.Queue(0) && s.Numbers() && k < |s.ring.items| && desc == s.ring.items[k]
    modifies desc`sacked, s`abs
    ensures k < |old(s.abs).descs| && s.Queue(0) && s.Numbers()
    ensures s.abs == old(s.abs).(descs := old(s.abs).descs[k := old(s.abs).descs[k].(sacked := sacked)])
  {
    hide Wrap;
    hide Wrap16;
    hide Stored;
    hide RingSize;
    s.ItemsCount();
    s.ItemsDistinct();
    ghost var items := s.ring.items;
    desc.sacked := sacked;
    HoldUpdate(items, s.abs.descs, k, s.abs.descs[k].(sacked := sacked));
    hide HoldAll;
    hide Distinct;
    s.abs := s.abs.(descs := s.abs.descs[k := s.abs.descs[k].(sacked := sacked)]);
    assert items[0..] == items;
  }

  /** mark_desc_sacked, for descriptor number `k`. */
  method MarkDescSacked(s: Sender, desc: TxDesc, ghost k: nat)
    requires s.Queue(0) && s.Numbers() && Core(s.abs)
    requires k < |s.ring.items| && desc == s.ring.items[k] && k < |s.abs.descs| && Holds(desc, s.abs.descs[k])
    modifies desc`sacked, s`sackedBytes, s`abs
    ensures s.Queue(0) && s.Numbers() && s.abs == Mark(old(s.abs), k)
  {
    hide Core;
    hide Wrap;
    hide Wrap16;
    hide Stored;
    hide RingSize;
    hide HoldAll;
    hide Distinct;
    SackedSmall(s.abs, k);
    if desc.sacked {
      return;
    }
    s.sackedBytes := s.sackedBytes + |desc.data|;
    s.abs := s.abs.(sackedBytes := s.abs.sackedBytes + |desc.data|);
    SetMark(s, desc, k, true);
  }

  lemma SackedSmall(t: Tx, k: nat)
    requires Core(t)
    ensures t.sackedBytes < HALF && (k < |t.descs| ==> t.descs[k].Len() < HALF)
  {
    SackedAtMost(t.descs, Lo(t), t.dataNxt);
    hide SackedBytes;
    SpanSmall(t);
  }

  /** The inner loop of tcp_rcv_sack. */
  method MarkOneBlock(s: Sender, b: Report, off0: u16) returns (off: u16)
    requires s.Queue(0) && s.Numbers() && Core(s.abs) && off0 <= 40000
    modifies s`sackedBytes, s`abs, s.ring.items
    ensures s.Queue(0) && s.Numbers() && Core(s.abs)
    ensures (s.abs, off) == MarkBlock(old(s.abs), b, off0) && off <= (if off0 < 32768 then 32768 else off0) + 1
  {
    hide Core;
    hide Wrap;
    hide Wrap16;
    hide Stored;
    hide RingSize;
    hide Distinct;
    hide HoldAll;
    off := off0;
    s.ring.Bounds();
    while true
      invariant s.Queue(0) && s.Numbers() && Core(s.abs) && (off == off0 || off <= 32768)
      invariant |s.ring.items| <= 32768
      invariant MarkBlock(s.abs, b, off) == MarkBlock(old(s.abs), b, off0)
      decreases |s.ring.items| - off
    {
      s.ItemsCount();
      var desc := PeekQueued(s, off);
      off := off + 1;
      if desc == null {
        break;
      }
      ghost var k := off - 1;
      ghost var d := s.abs.descs[k];
      SpanNear(s.abs, k, k);
      WrapAdd(d.start, d.Len());
      DiffExact(d.End(), s.abs.sndNxt);
      var end := Wrap(desc.start + |desc.data|);
      if SeqGe(end, s.sndNxt) || SeqGe(end, b.end) {
        break;
      }
      if SeqGe(desc.start, b.start) {
        MarkKeeps(s.abs, k);
        MarkDescSacked(s, desc, k);
      }
    }
  }

  /** tcp_txq_peek_for_write from `una` on. */
  method PeekQueued(s: Sender, off: u16) returns (desc: TxDesc?)
    requires s.Queue(0)
    ensures |s.ring.items| == |s.abs.descs|
    ensures desc == null <==> off >= |s.ring.items|
    ensures desc != null ==> desc == s.ring.items[off] && Holds(desc, s.abs.descs[off])
  {
    hide Stored;
    hide RingSize;
    hide Distinct;
    s.ItemsCount();
    var d := s.ring.PeekForWrite(s.ring.una, off, 0);
    desc := if d.None? then null else d.value;
  }

  /** tcp_rcv_sack on a copy of the blocks. */
  method RcvSackBlocks(s: Sender, blocks: array<Report>)
    requires s.Queue(0) && s.Numbers() && Core(s.abs) && blocks.Length <= 3
    modifies s`sackedBytes, s`abs, s.ring.items, blocks
    ensures s.Queue(0) && s.Numbers() && Core(s.abs)
    ensures s.abs == RcvSack(old(s.abs), old(blocks[..]))
  {
    hide Core;
    hide Wrap;
    hide Wrap16;
    hide Stored;
    hide RingSize;
    hide Distinct;
    hide HoldAll;
    hide MarkBlock;
    var ok := SortSack(blocks);
    if !ok {
      return;
    }
    ghost var sorted := blocks[..];
    var off: u16, i := 0, 0;
    assert sorted[0..] == sorted;
    while i < blocks.Length
      invariant 0 <= i <= blocks.Length && s.Queue(0) && s.Numbers() && Core(s.abs) && off <= 32768 + i
      invariant blocks[..] == sorted && s.ring.items == old(s.ring.items)
      invariant MarkBlocks(s.abs, sorted[i..], off) == MarkBlocks(old(s.abs), sorted, 0)
    {
      var b := blocks[i];
      assert sorted[i..][0] == b && sorted[i..][1..] == sorted[i + 1..];
      if !SeqGt(b.end, s.sndNxt) {
        off := MarkOneBlock(s, b, off);
      }
      i := i + 1;
    }
  }

  /** clear_sacked. */
  method ClearMarks(s: Sender)
    requires s.Queue(0) && s.Numbers()
    modifies s`sackedBytes, s`abs, s.ring.items
    ensures s.Queue(0) && s.Numbers() && s.abs == ClearSacked(old(s.abs))
  {
    hide Wrap;
    hide Wrap16;
    hide Stored;
    hide RingSize;
    hide Distinct;
    hide HoldAll;
    ghost var t := s.abs;
    var idx := 0;
    s.ring.Bounds();
    s.ItemsCount();
    while true
      invariant s.Queue(0) && s.Numbers() && s.abs == t.(descs := s.abs.descs) && |s.abs.descs| == |t.descs| == |s.ring.items|
      invariant idx <= |t.descs| <= 32768
      invariant forall i | 0 <= i < |t.descs| :: s.abs.descs[i] == if i < idx then t.descs[i].(sacked := false) else t.descs[i]
      decreases |t.descs| - idx
    {
      var desc := PeekQueued(s, idx);
      if desc == null {
        break;
      }
      SetMark(s, desc, idx, false);
      idx := idx + 1;
    }
    s.sackedBytes := 0;
    s.abs := s.abs.(sackedBytes := 0);
    assert s.abs.descs == ClearSacked(t).descs;
  }

  // ---- acknowledgements

  /** What decides how an acknowledgement is answered fits the types of the code. */
  predicate Ranges(a: AckInput) {
    |a.blocks| <= 3 && 0 <= a.fastBudget < HALF && a.wnd < HALF && a.mss < M16
  }

  /** A change of what steers retransmission. */
  method Steer(s: Sender, stage: Stage, recover: u32, dupack: nat, ghost rec: int)
    requires s.Queue(0) && s.Numbers() && recover == Wrap(rec)
    modifies s`stage, s`recover, s`dupack, s`abs
    ensures s.Queue(0) && s.Numbers()
    ensures s.abs == old(s.abs).(stage := stage, recover := rec, dupack := dupack)
  {
    hide Wrap;
    hide Wrap16;
    hide Stored;
    hide RingSize;
    hide Distinct;
    hide HoldAll;
    s.stage, s.recover, s.dupack := stage, recover, dupack;
    s.abs := s.abs.(stage := stage, recover := rec, dupack := dupack);
  }

  /** The second half of handle_fast_retransmit. */
  method LeaveOrContinue(s: Sender, a: AckInput, acked: nat) returns (ps: seq<OutPacket>)
    requires s.Queue(0) && s.Numbers() && (s.abs.stage == FastRetrans ==> Usable(s.abs)) && Ranges(a)
    modifies s`stage, s`recover, s`dupack, s`rexSeq, s`rexBase, s`abs
    ensures s.Queue(0) && s.Numbers()
    ensures var (t', ws) := LeaveOrGoOn(old(s.abs), a, acked, []); s.abs == t' && SamePackets(ps, ws)
  {
    hide Wrap;
    hide Wrap16;
    hide Usable;
    hide FastRex;
    hide Stored;
    hide RingSize;
    hide Distinct;
    hide HoldAll;
    ps := [];
    if s.stage != FastRetrans || acked == 0 {
      return;
    }
    if SeqLt(a.ack, s.recover) {
      if a.spurious {
        Steer(s, NoRetrans, s.recover, 0, s.abs.recover);
      } else {
        ps := FastRetransmit(s, a.fastBudget, a.mss, a.dev, a.lim);
      }
    } else {
      Steer(s, NoRetrans, s.recover, 0, s.abs.recover);
    }
  }

  /** handle_fast_retransmit. */
  method HandleFastRetransmit(s: Sender, a: AckInput, acked: nat) returns (ps: seq<OutPacket>)
    requires s.Queue(0) && s.Numbers() && Loose(s.abs) && Ranges(a)
    modifies s`stage, s`recover, s`dupack, s`rexSeq, s`rexBase, s`abs
    ensures s.Queue(0) && s.Numbers()
    ensures var (t', ws) := HandleFast(old(s.abs), a, acked); s.abs == t' && SamePackets(ps, ws)
  {
    hide Wrap;
    hide Wrap16;
    hide Core;
    hide Names;
    hide FastRex;
    hide LeaveOrGoOn;
    hide Stored;
    hide RingSize;
    hide Distinct;
    hide HoldAll;
    ps := [];
    if s.dupack < 3 && s.stage != FastRetrans {
      return;
    }
    if s.stage == NoRetrans && SeqGt(a.ack, s.recover) {
      ghost var t := s.abs;
      EnterUsable(t, t.(recover := t.sndNxt, stage := FastRetrans, rexSeq := t.sndUna, rexIdx := t.una));
      Steer(s, FastRetrans, s.sndNxt, s.dupack, s.abs.sndNxt);
      SetPointers(s, s.sndUna, s.ring.una, s.abs.sndUna, s.abs.una);
      ps := FastRetransmit(s, a.mss, a.mss, a.dev, a.lim);
    }
    ghost var t2, ws := s.abs, HandleFastFirst(old(s.abs), a).1;
    var more := LeaveOrContinue(s, a, acked);
    GoOnAppends(t2, a, acked, ws);
    ps := ps + more;
  }

  /** handle_fast_retransmit up to where it enters fast retransmission. */
  ghost function HandleFastFirst(t: Tx, a: AckInput): (r: (Tx, seq<Wire>))
    requires Loose(t)
  {
    hide Core;
    hide Names;
    if t.stage == NoRetrans && SeqGt(a.ack, Wrap(t.recover)) then
      var t1 := t.(recover := t.sndNxt, stage := FastRetrans, rexSeq := t.sndUna, rexIdx := t.una);
      EnterUsable(t, t1);
      FastRex(t1, a.mss, a.mss, a.dev, a.lim)
    else (t, [])
  }

  lemma GoOnAppends(t: Tx, a: AckInput, n: nat, ws: seq<Wire>)
    requires t.stage == FastRetrans ==> Usable(t)
    ensures var (t', more) := LeaveOrGoOn(t, a, n, []); LeaveOrGoOn(t, a, n, ws) == (t', ws + more)
  {
    hide Usable;
    hide FastRex;
    assert ws + [] == ws;
    if t.stage == FastRetrans {
      var more := FastRex(t, a.fastBudget, a.mss, a.dev, a.lim).1;
      assert [] + more == more;
    }
  }

  /** The end of tcp_rcv_ack as far as the send half goes: finish a recovery, or go on with it. */
  method FinishRecovery(s: Sender, a: AckInput, acked: nat) returns (ps: seq<OutPacket>)
    requires s.Queue(0) && s.Numbers() && Loose(s.abs) && Ranges(a)
    modifies s`stage, s`recover, s`dupack, s`rexSeq, s`rexBase, s`abs
    ensures s.Queue(0) && s.Numbers()
    ensures var (t', ws) := FinishStage(old(s.abs), a, acked); s.abs == t' && SamePackets(ps, ws)
  {
    hide Wrap;
    hide Wrap16;
    hide Core;
    hide Names;
    hide Retrans;
    hide Stored;
    hide RingSize;
    hide Distinct;
    hide HoldAll;
    ps := [];
    if s.stage == NoRetrans {
      if acked > 0 {
        WrapAdd(s.abs.sndUna, -1);
        Steer(s, s.stage, Wrap(s.sndUna - 1), s.dupack, s.abs.sndUna - 1);
      }
    } else if SeqGe(a.ack, s.recover) {
      Steer(s, NoRetrans, s.recover, s.dupack, s.abs.recover);
    } else if s.stage == RtoRetrans {
      ps := Retransmit(s, a.wnd, a.dev, a.lim);
    }
  }

  /** tcp_rcv_ack up to the acknowledged data: `at` is the number acknowledged. */
  method TakeAcked(s: Sender, a: AckInput, ghost at: int) returns (acked: nat, fin: bool, ids: seq<nat>)
    requires s.Queue(0) && s.Numbers() && Inv(s.abs) && s.abs.sndUna <= at <= s.abs.sndNxt && a.ack == Wrap(at)
    modifies s`dupack, s`sndUna, s`partial, s`sackedBytes, s`abs, s.pool, s.pool.descs, s.ring
    ensures s.Queue(0) && s.Numbers() && s.Owned(0) == old(s.Owned(0))
    ensures forall i | 0 <= i < |s.ring.items| :: s.ring.items[i] in old(s.ring.items)
    ensures fin == (old(s.abs).finSent && at == old(s.abs).sndNxt) && acked == Covered(old(s.abs), at)
    ensures var (t', fired) := TakeAck(old(s.abs), a, at); s.abs == t' && ids == IdsOf(fired)
  {
    hide Wrap;
    hide Wrap16;
    hide Core;
    hide Names;
    hide AckData;
    hide Stored;
    hide RingSize;
    hide Distinct;
    hide HoldAll;
    ghost var t := s.abs;
    AckRange(t, at);
    WrapInjective(at, t.sndUna);
    WrapInjective(t.sndNxt, t.sndUna);
    WrapInjective(at, t.sndNxt);
    WrapDiff(at, t.sndUna);
    CountDupAck(s, a, at);
    SteeringDoesntMatter(t, s.abs);
    acked := Wrap(a.ack - s.sndUna);
    fin := s.finSent && a.ack == s.sndNxt;
    if fin {
      acked := acked - 1;
    }
    ids := [];
    if acked > 0 {
      ids := s.AckSentData(acked);
    }
  }

  /** RFC 5681 on duplicate ack detection. */
  method CountDupAck(s: Sender, a: AckInput, ghost at: int)
    requires s.Queue(0) && s.Numbers() && s.abs.sndUna <= at
    requires a.ack == s.sndUna <==> at == s.abs.sndUna
    requires s.sndNxt == s.sndUna <==> s.abs.sndNxt == s.abs.sndUna
    modifies s`dupack, s`abs
    ensures s.Queue(0) && s.Numbers() && s.abs == CountDup(old(s.abs), a, at)
  {
    hide Wrap;
    hide Wrap16;
    hide Stored;
    hide RingSize;
    hide Distinct;
    hide HoldAll;
    if a.ack == s.sndUna {
      if a.dup && s.sndNxt != s.sndUna {
        s.dupack := s.dupack + 1;
      }
    } else {
      s.dupack := 0;
    }
    s.abs := CountDup(s.abs, a, at);
  }

  method TakeReports(s: Sender, bs: seq<Report>)
    requires s.Queue(0) && s.Numbers() && Loose(s.abs) && |bs| <= 3
    modifies s`sackedBytes, s`abs, s.ring.items
    ensures s.Queue(0) && s.Numbers() && s.abs == TakeSack(old(s.abs), bs)
  {
    hide Core;
    hide Names;
    hide RcvSack;
    hide Stored;
    hide RingSize;
    hide Distinct;
    hide HoldAll;
    hide Wrap;
    hide Wrap16;
    if |bs| > 0 {
      var blocks := new Report[|bs|](i requires 0 <= i < |bs| => bs[i]);
      assert blocks[..] == bs;
      RcvSackBlocks(s, blocks);
    }
  }

  /** An acceptable acknowledgement, after the two checks. */
  method AcceptAck(s: Sender, a: AckInput, ghost at: int) returns (fin: bool, ids: seq<nat>, ps: seq<OutPacket>)
    requires s.Valid() && Ranges(a) && at == Unwrap(a.ack, s.abs.sndUna) && s.abs.sndUna <= at <= s.abs.sndNxt
    modifies s, s.pool, s.pool.descs, s.ring, s.ring.items
    ensures s.Valid() && s.Owned(0) == old(s.Owned(0))
    ensures
      var r := RcvAck(old(s.abs), a);
      s.abs == r.tx && r.outcome == AckTaken(fin) && ids == IdsOf(r.fired) && SamePackets(ps, r.sent)
  {
    hide Wrap;
    hide Wrap16;
    hide Core;
    hide Names;
    hide TakeAck;
    hide TakeSack;
    hide HandleFast;
    hide FinishStage;
    hide Stored;
    hide RingSize;
    hide Distinct;
    hide HoldAll;
    var acked;
    acked, fin, ids := TakeAcked(s, a, at);
    TakeReports(s, a.blocks);
    FastKeeps(s.abs, a, acked);
    var first := HandleFastRetransmit(s, a, acked);
    FinishKeeps(s.abs, a, acked);
    var more := FinishRecovery(s, a, acked);
    ps := first + more;
  }

  /** tcp_rcv_ack in a synchronized state. */
  method RcvAckPacket(s: Sender, a: AckInput) returns (o: AckOutcome, ids: seq<nat>, ps: seq<OutPacket>)
    requires s.Valid() && Ranges(a)
    modifies s, s.pool, s.pool.descs, s.ring, s.ring.items
    ensures s.Valid() && s.Owned(0) == old(s.Owned(0))
    ensures
      var r := RcvAck(old(s.abs), a);
      s.abs == r.tx && o == r.outcome && ids == IdsOf(r.fired) && SamePackets(ps, r.sent)
  {
    hide Core;
    hide Names;
    hide TakeAck;
    hide TakeSack;
    hide HandleFast;
    hide FinishStage;
    hide Stored;
    hide RingSize;
    hide Distinct;
    hide HoldAll;
    hide Wrap;
    hide Wrap16;
    ghost var at := Unwrap(a.ack, s.abs.sndUna);
    SpanSmall(s.abs);
    AckRange(s.abs, s.abs.sndNxt);
    DiffExact(at, s.abs.sndUna);
    DiffExact(at, s.abs.sndNxt);
    ids, ps := [], [];
    if SeqLt(a.ack, s.sndUna) {
      return OldAck, ids, ps;
    }
    if SeqGt(a.ack, s.sndNxt) {
      return InvalidAck, ids, ps;
    }
    var fin;
    fin, ids, ps := AcceptAck(s, a, at);
    o := AckTaken(fin);
  }

  /** tcp_timeout_rto, when the connection is not given up. */
  method TimeoutRto(s: Sender, wnd: u32, dev: Device, lim: Limits) returns (ps: seq<OutPacket>)
    requires s.Valid() && wnd < HALF
    modifies s, s.ring.items
    ensures s.Valid() && s.Owned(0) == old(s.Owned(0))
    ensures var (t', ws) := Timeout(old(s.abs), wnd, dev, lim); s.abs == t' && SamePackets(ps, ws)
  {
    hide Core;
    hide Names;
    hide ClearSacked;
    hide Retrans;
    hide Stored;
    hide RingSize;
    hide Distinct;
    hide HoldAll;
    hide Wrap;
    hide Wrap16;
    ghost var t := s.abs;
    ClearKeeps(t);
    ClearMarks(s);
    EnterUsable(s.abs, s.abs.(stage := RtoRetrans, recover := t.sndNxt, rexSeq := t.sndUna, rexIdx := t.una));
    Steer(s, RtoRetrans, s.sndNxt, s.dupack, s.abs.sndNxt);
    SetPointers(s, s.sndUna, s.ring.una, s.abs.sndUna, s.abs.una);
    ps := Retransmit(s, wnd, dev, lim);
  }
}
