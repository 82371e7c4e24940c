/** Transmission and retransmission (xmit_one_packet, do_tcp_xmit_data and their callers of
    src/tcp/tcp_output.c), over the descriptors of a Sender. */
module Transmit {
  import opened SeqNum
  import opened Seqs
  import opened Chains
  import opened RingIndex
  import opened TxQueue
  import opened TxRings
  import opened TxDescs
  import opened XmitSpec
  import opened SendSpec
  import opened SendSteps
  import opened SendAcks
  import opened Senders

  /** What one packet of `t` is filled from: a position, a limit, a budget and a number of pieces. */
  datatype Job = Job(t: Tx, c: Ctx, seqMax: int, budget: int, segs: nat)

  ghost predicate Good(j: Job) {
    && Ready(j.t.descs, Lo(j.t), j.t.dataNxt, j.c, j.seqMax)
    && -HALF < j.seqMax - Lo(j.t) < HALF && -HALF < j.seqMax - j.t.dataNxt
  }

  /** What is left to do on the job when it stands at `c` with `data` filled in. */
  ghost predicate GoesOn(j: Job, c: Ctx, budget: int, segs: nat, data: seq<byte>)
    requires Good(j)
  {
    && Ready(j.t.descs, Lo(j.t), j.t.dataNxt, c, j.seqMax)
    && var r := Fill(j.t.descs, j.t.dataNxt, c, j.seqMax, budget, segs);
       Fill(j.t.descs, j.t.dataNxt, j.c, j.seqMax, j.budget, j.segs) == (r.0, data + r.1)
  }

  /** Where the job ends, and the payload. */
  ghost function Filled(j: Job): (Ctx, seq<byte>)
    requires Good(j)
  {
    Fill(j.t.descs, j.t.dataNxt, j.c, j.seqMax, j.budget, j.segs)
  }

  lemma JobStarts(j: Job)
    requires Good(j)
    ensures GoesOn(j, j.c, j.budget, j.segs, [])
  {
    hide Fill;
    hide SackedBelow;
    var r := Fill(j.t.descs, j.t.dataNxt, j.c, j.seqMax, j.budget, j.segs);
    assert [] + r.1 == r.1;
  }

  lemma JobStops(j: Job, c: Ctx, budget: int, segs: nat, data: seq<byte>)
    requires Good(j) && GoesOn(j, c, budget, segs, data) && Stops(j.t.descs, c, budget, segs)
    ensures Filled(j) == (c, data)
  {
    FillUnfold(j.t.descs, Lo(j.t), j.t.dataNxt, c, j.seqMax, budget, segs);
    hide Fill;
    hide Tiled;
    assert data + [] == data;
  }

  /** Where one turn of the loop leads to. */
  ghost function After(j: Job, c: Ctx, budget: int): Ctx
    requires c.idx < |j.t.descs| && budget > 0 && j.t.descs[c.idx].start <= c.seqno < j.t.descs[c.idx].End() && c.seqno <= j.seqMax
  {
    var d := j.t.descs[c.idx];
    var len := Take(d, c, j.seqMax, budget);
    if c.seqno + len == d.End() then NextDesc(j.t.descs, c) else c.(seqno := c.seqno + len)
  }

  lemma JobTurn(j: Job, c: Ctx, budget: int, segs: nat, data: seq<byte>)
    requires Good(j) && GoesOn(j, c, budget, segs, data) && !Stops(j.t.descs, c, budget, segs)
    ensures j.t.descs[c.idx].start <= c.seqno < j.t.descs[c.idx].End() && c.seqno <= j.seqMax
    ensures
      var d := j.t.descs[c.idx];
      var len := Take(d, c, j.seqMax, budget);
      GoesOn(j, After(j, c, budget), Left(d, c, j.seqMax, budget), segs - 1, data + d.data[c.seqno - d.start..c.seqno - d.start + len])
  {
    FillUnfold(j.t.descs, Lo(j.t), j.t.dataNxt, c, j.seqMax, budget, segs);
    hide Tiled;
    hide SackedBelow;
    var d := j.t.descs[c.idx];
    var len := Take(d, c, j.seqMax, budget);
    var piece := d.data[c.seqno - d.start..c.seqno - d.start + len];
    var c', left := After(j, c, budget), Left(d, c, j.seqMax, budget);
    if c.seqno + len == d.End() {
      hide Fill;
      Associative(data, piece, Fill(j.t.descs, j.t.dataNxt, c', j.seqMax, left, segs - 1).1);
    } else {
      assert left <= 0;
      FillUnfold(j.t.descs, Lo(j.t), j.t.dataNxt, c', j.seqMax, left, segs - 1);
      hide Fill;
      assert (data + piece) + [] == data + piece;
    }
  }

  // ---- one packet

  /** The arithmetic of one turn, on 32-bit numbers: where in the descriptor to start, how much to
      take, and the budget left. */
  method PieceLen(seqno: u32, start: u32, descLen: nat, budget: int, seqMax: u32, ghost d: Desc, ghost c: Ctx, ghost max: int)
    returns (off: nat, len: nat, left: int)
    requires seqno == Wrap(c.seqno) && start == Wrap(d.start) && seqMax == Wrap(max)
    requires descLen == d.Len() < HALF && budget > 0
    requires d.start <= c.seqno < d.End() && c.seqno <= max < c.seqno + HALF
    ensures off == c.seqno - d.start && len == Take(d, c, max, budget) && left == Left(d, c, max, budget)
  {
    WrapDiff(c.seqno, d.start);
    off := Wrap(seqno - start);
    len := if descLen - off < budget then descLen - off else budget;
    WrapAdd(c.seqno, len);
    DiffExact(c.seqno + len, max);
    if SeqGt(Wrap(seqno + len), seqMax) {
      WrapDiff(max, c.seqno);
      len := Wrap(seqMax - seqno);
      left := 0;
    } else {
      left := budget - len;
    }
  }

  /** tcp_txq_peek_for_write, for a queue that stands for `s.abs`. */
  method Peek(s: Sender, base: u16, off: u16, ghost b: nat) returns (desc: TxDesc?)
    requires s.Queue(0) && b <= |s.abs.descs| && base == Wrap16(s.ring.una + b)
    ensures desc == null <==> b + off >= |s.abs.descs|
    ensures desc != null ==> Holds(desc, s.abs.descs[b + off])
  {
    hide Stored;
    hide RingSize;
    hide Distinct;
    hide Wrap16;
    var d := s.ring.PeekForWrite(base, off, b);
    desc := if d.None? then null else d.value;
  }

  /** The second loop of xmit_one_packet: fills one packet from at most `j.segs` pieces, which
      stands for what can be allocated and for the longest chain. */
  method FillPacket(s: Sender, base: u16, off0: u16, seq0: u32, seqMax: u32, ghost b: nat, budget0: int, segs0: nat, ghost j: Job)
    returns (off: u16, seqno: u32, data: seq<byte>, ghost c: Ctx)
    requires s.Queue(0) && j.t == s.abs && Good(j) && j.budget == budget0 && j.segs == segs0
    requires b <= |s.abs.descs| <= 32768 && base == Wrap16(s.ring.una + b) && b + off0 == j.c.idx
    requires seq0 == Wrap(j.c.seqno) && seqMax == Wrap(j.seqMax)
    requires forall i | 0 <= i < |s.abs.descs| :: s.abs.descs[i].Len() < HALF
    ensures var (c', pay) := Filled(j); data == pay && b + off == c'.idx && seqno == Wrap(c'.seqno)
    ensures c == Filled(j).0
  {
    hide Fill;
    hide Wrap;
    hide Wrap16;
    hide GoesOn;
    hide Filled;
    hide Tiled;
    hide SackedBelow;
    hide HoldAll;
    hide Distinct;
    hide Stored;
    hide RingSize;
    off, seqno, data, c := off0, seq0, [], j.c;
    var budget, segs := budget0, segs0;
    JobStarts(j);
    var desc := Peek(s, base, off, b);
    while budget > 0
      invariant GoesOn(j, c, budget, segs, data) && b + off == c.idx <= |s.abs.descs| && seqno == Wrap(c.seqno)
      invariant desc == null <==> c.idx == |s.abs.descs|
      invariant desc != null ==> Holds(desc, s.abs.descs[c.idx])
      decreases if desc == null then 0 else 1 + |s.abs.descs| - c.idx, budget
    {
      if desc == null || desc.sacked || segs == 0 {
        break;
      }
      ghost var d := s.abs.descs[c.idx];
      JobTurn(j, c, budget, segs, data);
      JobNear(j, c);
      var o, len, left := PieceLen(seqno, desc.start, |desc.data|, budget, seqMax, d, c, j.seqMax);
      data := data + desc.data[o..o + len];
      WrapAdd(c.seqno, len);
      seqno := Wrap(seqno + len);
      c := After(j, c, budget);
      budget, segs := left, segs - 1;
      if o + len == |desc.data| {
        off := off + 1;
        desc := Peek(s, base, off, b);
      }
    }
    JobStops(j, c, budget, segs, data);
  }

  lemma JobNear(j: Job, c: Ctx)
    requires Good(j) && Ready(j.t.descs, Lo(j.t), j.t.dataNxt, c, j.seqMax) && c.idx < |j.t.descs|
    ensures j.seqMax < c.seqno + HALF
  {
    StartMonotone(j.t.descs, Lo(j.t), j.t.dataNxt, 0, c.idx);
  }

  /** A packet as it goes to the device. */
  datatype OutPacket = OutPacket(seqno: u32, data: seq<byte>)

  ghost predicate SamePackets(ps: seq<OutPacket>, ws: seq<Wire>) {
    |ps| == |ws| && forall i | 0 <= i < |ps| :: ps[i] == OutPacket(Wrap(ws[i].start), ws[i].data)
  }

  /** Where transmission stands, as the code keeps it. */
  datatype Pos = Pos(seqno: u32, base: u16, off: u16, budget: int)

  /** `p` stands for `c`, when `base` is `b` places behind `una`. */
  ghost predicate Stands(s: Sender, p: Pos, b: nat, c: Ctx)
    reads s, s.ring
  {
    && b <= |s.abs.descs| && p.base == Wrap16(s.ring.una + b) && b + p.off == c.idx
    && p.seqno == Wrap(c.seqno) && p.budget == c.budget
  }

  /** The state transmission works on, up to the limit `max`. */
  ghost predicate Source(s: Sender, c: Ctx, max: int)
    reads s, s.ring, s.ring.slots, s.ring.items, s.pool, s.pool.descs
  {
    && s.Queue(0) && |s.abs.descs| <= 32768 && Ready(s.abs.descs, Lo(s.abs), s.abs.dataNxt, c, max)
    && -HALF < max - Lo(s.abs) < HALF && -HALF < max - s.abs.dataNxt
    && (forall i | 0 <= i < |s.abs.descs| :: s.abs.descs[i].Len() < HALF)
  }

  /** The first loop of xmit_one_packet: over descriptors the peer reported. */
  method SkipReported(s: Sender, p0: Pos, ghost b: nat, ghost c0: Ctx, ghost max: int)
    returns (p: Pos, end: bool, ghost c: Ctx)
    requires Source(s, c0, max) && Stands(s, p0, b, c0)
    ensures var c' := SkipSacked(s.abs.descs, c0); Stands(s, p, b, c') && (end <==> c'.idx == |s.abs.descs|)
    ensures c == SkipSacked(s.abs.descs, c0) && c.budget == c0.budget && Source(s, c, max)
  {
    hide Wrap16;
    hide Tiled;
    hide SackedBelow;
    hide HoldAll;
    hide Distinct;
    hide Stored;
    hide RingSize;
    SkipSound(s.abs.descs, Lo(s.abs), s.abs.dataNxt, c0, max);
    p, c := p0, c0;
    while true
      invariant Stands(s, p, b, c) && c.idx <= |s.abs.descs| && SkipSacked(s.abs.descs, c) == SkipSacked(s.abs.descs, c0)
      decreases |s.abs.descs| - c.idx
    {
      var desc := Peek(s, p.base, p.off, b);
      if desc == null {
        end := true;
        break;
      }
      if !desc.sacked {
        end := false;
        break;
      }
      ghost var d := s.abs.descs[c.idx];
      WrapAdd(d.start, d.Len());
      p := p.(off := p.off + 1, seqno := Wrap(desc.start + |desc.data|));
      c := c.(idx := c.idx + 1, seqno := d.End());
    }
  }

  /** xmit_one_packet. */
  method XmitOnePacket(s: Sender, p0: Pos, seqMax: u32, env: Env, lim: Limits, ghost b: nat, ghost c0: Ctx, ghost max: int)
    returns (p: Pos, ps: seq<OutPacket>, ghost c: Ctx)
    requires Source(s, c0, max) && Stands(s, p0, b, c0) && seqMax == Wrap(max)
    ensures
      var (c', ws) := XmitOne(s.abs.descs, Lo(s.abs), s.abs.dataNxt, c0, max, env, lim);
      Stands(s, p, b, c') && SamePackets(ps, ws) && |ps| <= 1
    ensures c == XmitOne(s.abs.descs, Lo(s.abs), s.abs.dataNxt, c0, max, env, lim).0
  {
    hide Fill;
    hide Wrap;
    hide Wrap16;
    hide Tiled;
    hide SackedBelow;
    hide HoldAll;
    hide Distinct;
    hide Stored;
    hide RingSize;
    var end;
    ghost var c1;
    p, end, c1 := SkipReported(s, p0, b, c0, max);
    c, ps := c1, [];
    if end || !env.hdrOk {
      return;
    }
    var budget := if p.budget < lim.mss then p.budget else lim.mss;
    var segs := if env.segAllocs < lim.segs then env.segAllocs else lim.segs;
    ghost var j := Job(s.abs, c1, max, budget, segs);
    var off, seqno, data;
    off, seqno, data, c := FillPacket(s, p.base, p.off, p.seqno, seqMax, b, budget, segs, j);
    FillMoves(s.abs.descs, Lo(s.abs), s.abs.dataNxt, c1, max, budget, segs);
    var size, first := |data|, p.seqno;
    p := p.(off := off, seqno := seqno);
    if size == 0 || !env.enqueueOk {
      return;
    }
    WrapAdd(c.seqno, -size);
    assert Wrap(seqno - size) == Wrap(c1.seqno);
    ps := [OutPacket(Wrap(seqno - size), data)];
    p := p.(budget := p.budget - size);
    c := c.(budget := c.budget - size);
  }

  // ---- a burst

  /** What a burst works on: one packet per entry of `envs`. */
  datatype Burst = Burst(t: Tx, c: Ctx, seqMax: int, envs: seq<Env>, lim: Limits)

  ghost predicate BurstOk(u: Burst, c: Ctx) {
    Ready(u.t.descs, Lo(u.t), u.t.dataNxt, c, u.seqMax)
  }

  ghost function Outcome(u: Burst): (Ctx, seq<Wire>)
    requires BurstOk(u, u.c)
  {
    XmitMany(u.t.descs, Lo(u.t), u.t.dataNxt, u.c, u.seqMax, u.envs, u.lim)
  }

  /** The burst goes on from `c`, with `i` packets' environments used up and `ws` put out. */
  ghost predicate BurstGoesOn(u: Burst, c: Ctx, i: nat, ws: seq<Wire>)
    requires BurstOk(u, u.c)
  {
    && i <= |u.envs| && BurstOk(u, c)
    && var r := XmitMany(u.t.descs, Lo(u.t), u.t.dataNxt, c, u.seqMax, u.envs[i..], u.lim);
       Outcome(u) == (r.0, ws + r.1)
  }

  lemma BurstStarts(u: Burst)
    requires BurstOk(u, u.c)
    ensures BurstGoesOn(u, u.c, 0, [])
  {
    hide XmitMany;
    hide Ready;
    assert u.envs[0..] == u.envs;
    assert [] + Outcome(u).1 == Outcome(u).1;
  }

  lemma BurstStops(u: Burst, c: Ctx, i: nat, ws: seq<Wire>)
    requires BurstOk(u, u.c) && BurstGoesOn(u, c, i, ws) && (i == |u.envs| || c.budget <= 0)
    ensures Outcome(u) == (c, ws)
  {
    hide Ready;
    hide XmitOne;
    hide Outcome;
    assert ws + [] == ws;
  }

  lemma BurstTurn(u: Burst, c: Ctx, i: nat, ws: seq<Wire>)
    requires BurstOk(u, u.c) && BurstGoesOn(u, c, i, ws) && i < |u.envs| && c.budget > 0
    ensures
      var (c1, sent) := XmitOne(u.t.descs, Lo(u.t), u.t.dataNxt, c, u.seqMax, u.envs[i], u.lim);
      if sent == [] then Outcome(u) == (c1, ws) else BurstGoesOn(u, c1, i + 1, ws + sent)
  {
    hide Ready;
    hide XmitOne;
    hide Outcome;
    var rest := u.envs[i..];
    assert rest[0] == u.envs[i] && rest[1..] == u.envs[i + 1..];
    XmitOneReady(u.t.descs, Lo(u.t), u.t.dataNxt, c, u.seqMax, u.envs[i], u.lim);
    var (c1, sent) := XmitOne(u.t.descs, Lo(u.t), u.t.dataNxt, c, u.seqMax, u.envs[i], u.lim);
    if sent == [] {
      assert ws + [] == ws;
    } else {
      Associative(ws, sent, XmitMany(u.t.descs, Lo(u.t), u.t.dataNxt, c1, u.seqMax, rest[1..], u.lim).1);
    }
  }

  /** do_tcp_xmit_data. */
  method DoXmitData(s: Sender, p0: Pos, seqMax: u32, dev: Device, lim: Limits, ghost b: nat, ghost c0: Ctx, ghost max: int)
    returns (p: Pos, ps: seq<OutPacket>, ghost c: Ctx)
    requires Source(s, c0, max) && Stands(s, p0, b, c0) && seqMax == Wrap(max)
    ensures
      var (c', ws) := XmitMany(s.abs.descs, Lo(s.abs), s.abs.dataNxt, c0, max, Turns(dev), lim);
      Stands(s, p, b, c') && SamePackets(ps, ws)
    ensures c == XmitMany(s.abs.descs, Lo(s.abs), s.abs.dataNxt, c0, max, Turns(dev), lim).0
  {
    hide XmitMany;
    hide XmitOne;
    hide Ready;
    hide Wrap;
    hide Wrap16;
    hide BurstGoesOn;
    ghost var u, ws := Burst(s.abs, c0, max, Turns(dev), lim), [];
    p, ps, c := p0, [], c0;
    BurstStarts(u);
    var n, i, queued := BurstSize(dev), 0, dev.queued;
    while i < n && p.budget > 0
      invariant i <= n && queued == Queued(dev, i) && Source(s, c, max) && Stands(s, p, b, c)
      invariant BurstGoesOn(u, c, i, ws) && SamePackets(ps, ws)
    {
      assert queued < TXQ_BUF_SIZE;
      var turn := dev.turns(i);
      var env := Env(turn.hdrOk, turn.segAllocs, queued < TXQ_BUF_SIZE);
      assert u.envs[i] == env;
      BurstTurn(u, c, i, ws);
      XmitOneReady(s.abs.descs, Lo(s.abs), s.abs.dataNxt, c, max, env, lim);
      ghost var sent := XmitOne(s.abs.descs, Lo(s.abs), s.abs.dataNxt, c, max, env, lim).1;
      var out;
      p, out, c := XmitOnePacket(s, p, seqMax, env, lim, b, c, max);
      if out == [] {
        return;
      }
      ps, ws, queued, i := ps + out, ws + sent, Enqueued(queued, turn.flushed), i + 1;
    }
    BurstStops(u, c, i, ws);
  }

  // ---- new data

  lemma NewDataSource(s: Sender, budget: int)
    requires s.Valid() && !s.abs.finSent
    ensures Source(s, Ctx(s.abs.sndNxt, s.abs.nxt, budget), s.abs.dataNxt)
  {
    hide Stored;
    hide RingSize;
    hide Distinct;
    hide Core;
    hide Names;
    hide Ready;
    s.ring.Bounds();
    SpanSmall(s.abs);
    NewDataReady(s.abs, budget);
  }

  /** Transmission moved from `c` to `c'`: the two positions are equal exactly when their 32-bit
      numbers are. */
  lemma MovedExact(t: Tx, c: Ctx, c': Ctx, max: int)
    requires Core(t) && Ready(t.descs, Lo(t), t.dataNxt, c, max) && Ready(t.descs, Lo(t), t.dataNxt, c', max)
    requires c.seqno <= c'.seqno
    ensures c.idx <= c'.idx <= |t.descs|
    ensures Wrap(c'.seqno) == Wrap(c.seqno) <==> c'.seqno == c.seqno
    ensures c'.seqno == c.seqno ==> c'.idx == c.idx
  {
    hide SackedBytes;
    SpanSmall(t);
    StartMonotone(t.descs, Lo(t), t.dataNxt, 0, c.idx);
    StartMonotone(t.descs, Lo(t), t.dataNxt, c'.idx, |t.descs|);
    IdxMonotone(t.descs, Lo(t), t.dataNxt, c, c');
    if c'.seqno == c.seqno {
      WithinUnique(t.descs, Lo(t), t.dataNxt, c.idx, c'.idx, c.seqno);
    }
    hide Core;
    WrapInjective(c'.seqno, c.seqno);
  }

  /** The end of tcp_xmit_data. */
  method MoveNxt(s: Sender, p: Pos, ghost c: Ctx)
    requires s.Valid() && Stands(s, p, s.abs.nxt, c) && c.idx <= |s.abs.descs|
    requires Inv(s.abs.(sndNxt := c.seqno, nxt := c.idx))
    modifies s`sndNxt, s`abs, s.ring`nxt, s.ring`sent
    ensures s.Valid() && s.abs == old(s.abs).(sndNxt := c.seqno, nxt := c.idx)
  {
    hide Wrap;
    hide Wrap16;
    hide Stored;
    hide RingSize;
    hide Distinct;
    hide HoldAll;
    hide Inv;
    s.sndNxt := p.seqno;
    assert |s.ring.items[0..]| == |s.ring.items|;
    s.ItemsCount();
    s.ring.UpdateNxt(p.off);
    s.abs := s.abs.(sndNxt := c.seqno, nxt := c.idx);
  }

  /** tcp_xmit_data, with `wnd` the smaller of the two windows. */
  method XmitData(s: Sender, wnd: u32, dev: Device, lim: Limits) returns (ps: seq<OutPacket>)
    requires s.Valid() && wnd < HALF
    modifies s`sndNxt, s`abs, s.ring`nxt, s.ring`sent
    ensures s.Valid()
    ensures var (t', ws) := SendSpec.XmitData(old(s.abs), wnd, dev, lim); s.abs == t' && SamePackets(ps, ws)
  {
    hide Wrap;
    hide Wrap16;
    hide Core;
    hide Names;
    hide XmitMany;
    hide Ready;
    hide Stored;
    hide RingSize;
    hide Distinct;
    hide HoldAll;
    ps := [];
    s.ItemsCount();
    var unsent := s.ring.ToSendPkts();
    if wnd == 0 || unsent == 0 {
      return;
    }
    ghost var t := s.abs;
    FinLeavesNothing(t);
    SpanSmall(t);
    XmitKeeps(t, wnd, dev, lim);
    WrapDiff(t.sndNxt, t.sndUna);
    SignedExact(wnd - (t.sndNxt - t.sndUna));
    var budget := Signed(Wrap(wnd - Wrap(s.sndNxt - s.sndUna)));
    ghost var c0 := Ctx(t.sndNxt, t.nxt, budget);
    NewDataSource(s, budget);
    NewDataReady(t, budget);
    XmitManyReady(t.descs, Lo(t), t.dataNxt, c0, t.dataNxt, Turns(dev), lim);
    var p := Pos(s.sndNxt, s.ring.nxt, 0, budget);
    ghost var c;
    p, ps, c := DoXmitData(s, p, s.dataNxt, dev, lim, t.nxt, c0, t.dataNxt);
    MovedExact(t, c0, c, t.dataNxt);
    if p.seqno == s.sndNxt {
      return;
    }
    MoveNxt(s, p, c);
  }

  // ---- retransmission

  /** tcp_reset_retrans. */
  method SetPointers(s: Sender, seqno: u32, base: u16, ghost at: int, ghost idx: int)
    requires s.Queue(0) && s.Numbers() && seqno == Wrap(at) && base == Wrap16(idx)
    modifies s`rexSeq, s`rexBase, s`abs
    ensures s.Queue(0) && s.Numbers() && s.abs == old(s.abs).(rexSeq := at, rexIdx := idx)
  {
    hide Wrap;
    hide Wrap16;
    hide Stored;
    hide RingSize;
    hide Distinct;
    hide HoldAll;
    s.rexSeq, s.rexBase := seqno, base;
    s.abs := s.abs.(rexSeq := at, rexIdx := idx);
  }

  /** The regulation of the cached pointers both retransmit functions start with. */
  method RegulatePointers(s: Sender)
    requires s.Queue(0) && s.Numbers() && Usable(s.abs)
    modifies s`rexSeq, s`rexBase, s`abs
    ensures s.Queue(0) && s.Numbers() && s.abs == Regulate(old(s.abs)) && Core(s.abs) && Names(s.abs)
  {
    hide Core;
    hide Names;
    hide Wrap;
    hide Wrap16;
    hide Stored;
    hide RingSize;
    hide Distinct;
    hide HoldAll;
    RexNear(s.abs);
    RegulateNames(s.abs);
    DiffExact(s.abs.rexSeq, s.abs.sndUna);
    if SeqLt(s.rexSeq, s.sndUna) {
      SetPointers(s, s.sndUna, s.ring.una, s.abs.sndUna, s.abs.una);
    }
  }

  lemma RexNear(t: Tx)
    requires Usable(t)
    ensures -HALF < t.rexSeq - t.sndUna < HALF
  {
    hide Core;
    SpanSmall(t);
  }

  lemma RexSource(s: Sender, budget: int)
    requires s.Queue(0) && Core(s.abs) && Names(s.abs)
    ensures Source(s, Ctx(s.abs.rexSeq, s.abs.rexIdx - s.abs.una, budget), s.abs.sndNxt)
  {
    hide Stored;
    hide RingSize;
    hide Distinct;
    RexReady(s.abs, budget);
    SpanSmall(s.abs);
    hide Core;
    hide Ready;
    s.ring.Bounds();
  }

  /** do_tcp_retrans. */
  method DoRetrans(s: Sender, budget: int, dev: Device, lim: Limits) returns (ps: seq<OutPacket>)
    requires s.Queue(0) && s.Numbers() && Core(s.abs) && Names(s.abs)
    modifies s`rexSeq, s`rexBase, s`abs
    ensures s.Queue(0) && s.Numbers() && Core(s.abs) && Names(s.abs)
    ensures var (t', ws) := Rex(old(s.abs), budget, dev, lim); s.abs == t' && SamePackets(ps, ws)
  {
    hide Wrap;
    hide Core;
    hide XmitMany;
    hide Ready;
    hide Stored;
    hide RingSize;
    hide Distinct;
    hide HoldAll;
    ghost var t := s.abs;
    ghost var b := t.rexIdx - t.una;
    assert b >= 0 && b <= |t.descs|;
    hide Names;
    hide Wrap16;
    RexReady(t, budget);
    RexNames(t, budget, dev, lim);
    RexSource(s, budget);
    WrapAdd16(t.una, b);
    ghost var c0 := Ctx(t.rexSeq, b, budget);
    var p := Pos(s.rexSeq, s.rexBase, 0, budget);
    ghost var c;
    p, ps, c := DoXmitData(s, p, s.sndNxt, dev, lim, b, c0, t.sndNxt);
    WrapAdd16(t.una + b, p.off);
    SetPointers(s, p.seqno, Wrap16(p.base + p.off), c.seqno, t.una + c.idx);
  }

  /** tcp_retrans, with `wnd` the smaller of the two windows. */
  method Retransmit(s: Sender, wnd: u32, dev: Device, lim: Limits) returns (ps: seq<OutPacket>)
    requires s.Queue(0) && s.Numbers() && Usable(s.abs) && wnd < HALF
    modifies s`rexSeq, s`rexBase, s`abs
    ensures s.Queue(0) && s.Numbers() && Core(s.abs) && Names(s.abs)
    ensures var (t', ws) := Retrans(old(s.abs), wnd, dev, lim); s.abs == t' && SamePackets(ps, ws)
  {
    hide Wrap;
    hide Wrap16;
    hide Core;
    hide Rex;
    hide Stored;
    hide RingSize;
    hide Distinct;
    hide HoldAll;
    RegulatePointers(s);
    ghost var back := s.abs.rexSeq - s.abs.sndUna;
    SpanSmall(s.abs);
    hide Names;
    WrapDiff(s.abs.rexSeq, s.abs.sndUna);
    SignedExact(wnd - back);
    var budget := Signed(Wrap(wnd - Wrap(s.rexSeq - s.sndUna)));
    ps := DoRetrans(s, budget, dev, lim);
  }

  /** tcp_fast_retrans. */
  method FastRetransmit(s: Sender, budget0: u32, mss: u16, dev: Device, lim: Limits) returns (ps: seq<OutPacket>)
    requires s.Queue(0) && s.Numbers() && Usable(s.abs) && budget0 < HALF
    modifies s`rexSeq, s`rexBase, s`abs
    ensures s.Queue(0) && s.Numbers() && Core(s.abs) && Names(s.abs)
    ensures var (t', ws) := FastRex(old(s.abs), budget0, mss, dev, lim); s.abs == t' && SamePackets(ps, ws)
  {
    hide Wrap;
    hide Wrap16;
    hide Core;
    hide Rex;
    hide Stored;
    hide RingSize;
    hide Distinct;
    hide HoldAll;
    RegulatePointers(s);
    ghost var back := s.abs.rexSeq - s.abs.sndUna;
    SpanSmall(s.abs);
    hide Names;
    WrapDiff(s.abs.rexSeq, s.abs.sndUna);
    SignedExact(budget0 - back);
    var budget := Signed(Wrap(budget0 - Wrap(s.rexSeq - s.sndUna)));
    if budget < mss {
      budget := mss;
    }
    ps := DoRetrans(s, budget, dev, lim);
  }
}
