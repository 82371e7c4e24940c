/** What every operation of the send half keeps. */
module SendSteps {
  import opened SeqNum
  import opened Seqs
  import opened Chains
  import opened TxQueue
  import opened XmitSpec
  import opened SendSpec
  import opened Scoreboard

  // ---- writing

  /** Fresh descriptors that cover [lo, hi). */
  ghost predicate FreshPieces(ds: seq<Desc>, lo: int, hi: int, max: nat) {
    Tiled(ds, lo, hi) && forall i | 0 <= i < |ds| :: ds[i].Len() <= max && !ds[i].sacked
  }

  lemma FreshAppend(a: seq<Desc>, b: seq<Desc>, lo: int, mid: int, hi: int, max: nat)
    requires FreshPieces(a, lo, mid, max) && FreshPieces(b, mid, hi, max)
    ensures FreshPieces(a + b, lo, hi, max)
  {
    TiledAppend(a, b, lo, mid, hi);
    hide Tiled;
  }

  lemma FreshLooser(ds: seq<Desc>, lo: int, hi: int, max: nat, max': nat)
    requires FreshPieces(ds, lo, hi, max) && max <= max'
    ensures FreshPieces(ds, lo, hi, max')
  {
    hide Tiled;
  }

  lemma {:induction false} ChopTiles(data: seq<byte>, start: int, max: nat, id: nat)
    requires max > 0
    ensures FreshPieces(Chop(data, start, max, id), start, start + |data|, max)
    ensures Pending(Chop(data, start, max, id)) == (if data == [] then [] else [Completion(id, start + |data|)])
    decreases |data|
  {
    hide Pending;
    hide FreshPieces;
    if data == [] {
      FreshNone(start, max);
      PendingNone();
    } else if |data| <= max {
      FreshOne(Desc(start, data, false, Some(id)), max);
    } else {
      var d := Desc(start, data[..max], false, None);
      var rest := Chop(data[max..], start + max, max, id);
      ChopTiles(data[max..], start + max, max, id);
      FreshOne(d, max);
      FreshAppend([d], rest, start, start + max, start + |data|, max);
      PendingAppend([d], rest);
    }
  }

  lemma FreshNone(start: int, max: nat)
    ensures FreshPieces([], start, start, max)
  {
  }

  lemma FreshOne(d: Desc, max: nat)
    requires 0 < d.Len() <= max && !d.sacked
    ensures FreshPieces([d], d.start, d.End(), max) && Pending([d]) == Signal(d)
  {
    PendingUnfold([d]);
    PendingNone();
    assert [d][1..] == [];
    assert Signal(d) + [] == Signal(d);
  }

  /** The completions owed for the buffers that hold anything, in order. */
  function Owed(vs: seq<Iov>, start: int): seq<Completion> {
    if vs == [] then []
    else (if vs[0].data == [] then [] else [Completion(vs[0].id, start + |vs[0].data|)]) +
         Owed(vs[1..], start + |vs[0].data|)
  }

  lemma WriteUnfold(vs: seq<Iov>, start: int, chunk: nat, room: nat)
    requires chunk > 0 && room > 0 && vs != []
    ensures
      var mid := start + |vs[0].data|;
      && ChopAll(vs, start, chunk, room) ==
           Chop(vs[0].data, start, PieceMax(vs[0], chunk, room), vs[0].id) + ChopAll(vs[1..], mid, chunk, room)
      && TotalLen(vs) == |vs[0].data| + TotalLen(vs[1..])
      && Owed(vs, start) == (if vs[0].data == [] then [] else [Completion(vs[0].id, mid)]) + Owed(vs[1..], mid)
  {
  }

  lemma {:induction false} ChopAllTiles(vs: seq<Iov>, start: int, chunk: nat, room: nat)
    requires chunk > 0 && room > 0
    ensures FreshPieces(ChopAll(vs, start, chunk, room), start, start + TotalLen(vs), chunk)
    ensures Pending(ChopAll(vs, start, chunk, room)) == Owed(vs, start)
  {
    hide Pending;
    hide Chop;
    hide FreshPieces;
    hide ChopAll;
    hide TotalLen;
    hide Owed;
    if vs == [] {
      WriteNothing(start, chunk, room);
    } else {
      WriteUnfold(vs, start, chunk, room);
      var max, mid := PieceMax(vs[0], chunk, room), start + |vs[0].data|;
      var a, b := Chop(vs[0].data, start, max, vs[0].id), ChopAll(vs[1..], mid, chunk, room);
      ChopTiles(vs[0].data, start, max, vs[0].id);
      FreshLooser(a, start, mid, max, chunk);
      ChopAllTiles(vs[1..], mid, chunk, room);
      FreshAppend(a, b, start, mid, start + TotalLen(vs), chunk);
      PendingAppend(a, b);
    }
  }

  // ---- when a write is accepted

  /** The number of pieces of at most `max` bytes. */
  function Ceil(n: nat, max: nat): nat
    requires max > 0
  {
    (n + max - 1) / max
  }

  lemma CeilStep(n: nat, max: nat)
    requires max > 0
    ensures n > max ==> Ceil(n, max) == 1 + Ceil(n - max, max)
    ensures 0 < n <= max ==> Ceil(n, max) == 1
    ensures Ceil(0, max) == 0
  {
    if n > max {
      DivAdd(n - 1, max);
    } else if n > 0 {
      DivIs(n + max - 1, max, 1, n - 1);
    } else {
      DivIs(max - 1, max, 0, max - 1);
    }
  }

  lemma DivAdd(a: nat, m: nat)
    requires m > 0
    ensures (a + m) / m == a / m + 1
  {
    var q, r := a / m, a % m;
    assert a == q * m + r;
    assert (q + 1) * m == q * m + m;
    DivIs(a + m, m, q + 1, r);
  }

  /** A quotient is the only one with a remainder in range. */
  lemma DivIs(a: nat, m: nat, q: nat, r: nat)
    requires m > 0 && a == q * m + r && r < m
    ensures a / m == q
  {
    var p, s := a / m, a % m;
    assert a == p * m + s;
    assert (p + 1) * m == p * m + m && (q + 1) * m == q * m + m;
    if p < q {
      MulMonotone(p + 1, q, m);
    } else if q < p {
      MulMonotone(q + 1, p, m);
    }
  }

  /** Every piece of a buffer but the last one is as large as it may be. */
  lemma {:induction false} ChopSizes(data: seq<byte>, start: int, max: nat, id: nat)
    requires max > 0
    ensures
      var ds := Chop(data, start, max, id);
      |ds| == Ceil(|data|, max) && forall i | 0 <= i < |ds| - 1 :: ds[i].Len() == max
    decreases |data|
  {
    CeilStep(|data|, max);
    hide Ceil;
    if |data| > max {
      ChopSizes(data[max..], start + max, max, id);
    }
  }

  /** The largest piece of a buffer: `chunk` bytes, and no more than an mbuf holds if it has to be copied. */
  function Largest(v: Iov, chunk: nat, room: nat): nat {
    if v.phys then chunk else Min(chunk, room)
  }

  /** The pieces all buffers need, and those that need an mbuf. */
  function Slots(vs: seq<Iov>, chunk: nat, room: nat): nat
    requires chunk > 0 && room > 0
  {
    if vs == [] then 0 else Ceil(|vs[0].data|, Largest(vs[0], chunk, room)) + Slots(vs[1..], chunk, room)
  }

  function Copies(vs: seq<Iov>, chunk: nat, room: nat): nat
    requires chunk > 0 && room > 0
  {
    if vs == [] then 0
    else (if vs[0].phys then 0 else Ceil(|vs[0].data|, Min(chunk, room))) + Copies(vs[1..], chunk, room)
  }

  lemma {:induction false} SlotsNeeded(vs: seq<Iov>, start: int, chunk: nat, room: nat)
    requires chunk > 0 && room > 0
    ensures |ChopAll(vs, start, chunk, room)| == Slots(vs, chunk, room)
    ensures CopiesNeeded(vs, start, chunk, room) == Copies(vs, chunk, room)
    decreases |vs|
  {
    hide Ceil;
    hide Chop;
    if vs != [] {
      ChopSizes(vs[0].data, start, PieceMax(vs[0], chunk, room), vs[0].id);
      SlotsNeeded(vs[1..], start + |vs[0].data|, chunk, room);
    }
  }

  /** A write is accepted if and only if there is a slot of the ring and a free descriptor for each of its
      pieces, and an mbuf for each piece that has to be copied. */
  lemma WriteExact(t: Tx, vs: seq<Iov>, room: nat, mbufs: nat)
    requires t.chunk > 0 && room > 0
    ensures
      var ((t', ok), n) := (Zwritev(t, vs, room, mbufs), Slots(vs, t.chunk, room));
      && (ok <==> |t.descs| + n <= t.size && n <= t.free && Copies(vs, t.chunk, room) <= mbufs)
      && (ok ==> |t'.descs| == |t.descs| + n && t'.free == t.free - n)
  {
    SlotsNeeded(vs, t.dataNxt, t.chunk, room);
    hide ChopAll;
    hide CopiesNeeded;
    hide Slots;
    hide Copies;
  }

  lemma WriteNothing(start: int, chunk: nat, room: nat)
    requires chunk > 0 && room > 0
    ensures ChopAll([], start, chunk, room) == [] && TotalLen([]) == 0 && Owed([], start) == [] && Pending([]) == []
    ensures FreshPieces([], start, start, chunk)
  {
  }

  /** A position keeps its descriptor when more are queued behind. */
  lemma WithinAppend(ds: seq<Desc>, es: seq<Desc>, lo: int, mid: int, hi: int, i: nat, at: int)
    requires Tiled(ds, lo, mid) && Tiled(es, mid, hi) && Within(ds, mid, i, at)
    ensures Within(ds + es, hi, i, at)
  {
    if i == |ds| && es != [] {
      assert es[0].Len() > 0;
    }
  }

  /** Queueing fresh descriptors behind the others. */
  function Append(t: Tx, ds: seq<Desc>, hi: int): Tx {
    t.(descs := t.descs + ds, dataNxt := hi)
  }

  lemma AppendCore(t: Tx, ds: seq<Desc>, hi: int)
    requires Core(t) && !t.finSent && Tiled(ds, t.dataNxt, hi) && |t.descs| + |ds| <= t.size
    requires forall i | 0 <= i < |ds| :: ds[i].Len() <= t.chunk && !ds[i].sacked
    ensures Core(Append(t, ds, hi))
  {
    hide SackedBytes;
    hide Tiled;
    hide Within;
    var r := t.descs + ds;
    TiledAppend(t.descs, ds, Lo(t), t.dataNxt, hi);
    WithinAppend(t.descs, ds, Lo(t), t.dataNxt, hi, t.nxt, t.sndNxt);
    SackedAppend(t.descs, ds);
    SackedZero(ds);
    NoEmptyDesc(ds, t.dataNxt, hi);
    assert forall i | 0 <= i < |r| :: r[i] == if i < |t.descs| then t.descs[i] else ds[i - |t.descs|];
  }

  lemma NoEmptyDesc(ds: seq<Desc>, lo: int, hi: int)
    requires Tiled(ds, lo, hi)
    ensures ds != [] ==> ds[0].Len() > 0
  {
  }

  lemma AppendNames(t: Tx, ds: seq<Desc>, hi: int)
    requires Core(t) && Names(t) && Tiled(ds, t.dataNxt, hi)
    ensures Names(Append(t, ds, hi))
  {
    hide SackedBytes;
    hide Tiled;
    hide Within;
    WithinAppend(t.descs, ds, Lo(t), t.dataNxt, hi, t.rexIdx - t.una, t.rexSeq);
  }

  /** All or nothing: a write either changes nothing, or appends the data behind what is queued,
      takes one descriptor per piece, and registers its non-empty buffers for completion in order. */
  lemma WriteKeeps(t: Tx, vs: seq<Iov>, room: nat, mbufs: nat)
    requires Inv(t) && !t.finSent && t.chunk > 0 && room > 0
    ensures
      var (t', ok) := Zwritev(t, vs, room, mbufs);
      && Inv(t') && t'.free + |t'.descs| == t.free + |t.descs|
      && (!ok ==> t' == t)
      && (ok ==> Pending(t'.descs) == Pending(t.descs) + Owed(vs, t.dataNxt) && t'.dataNxt == t.dataNxt + TotalLen(vs))
      && t' == t.(descs := t'.descs, dataNxt := t'.dataNxt, free := t'.free)
  {
    hide Pending;
    hide SackedBytes;
    hide ChopAll;
    hide Tiled;
    var ds := ChopAll(vs, t.dataNxt, t.chunk, room);
    ChopAllTiles(vs, t.dataNxt, t.chunk, room);
    var (t', ok) := Zwritev(t, vs, room, mbufs);
    if ok {
      AppendCore(t, ds, t'.dataNxt);
      if t.stage != NoRetrans {
        AppendNames(t, ds, t'.dataNxt);
      }
      PendingAppend(t.descs, ds);
    }
  }

  // ---- transmitting

  /** No descriptor at or beyond snd_nxt is reported. */
  lemma FreshNotSacked(t: Tx)
    requires Core(t) && !t.finSent
    ensures forall i {:trigger t.descs[i].sacked} | t.nxt <= i < |t.descs| :: !t.descs[i].sacked
  {
    forall i {:trigger t.descs[i].sacked} | t.nxt <= i < |t.descs| ensures !t.descs[i].sacked {
      StartMonotone(t.descs, Lo(t), t.dataNxt, t.nxt, i);
      assert t.descs[i].Len() > 0;
    }
  }

  /** Sending new data keeps the invariant, whatever fails underneath, and never moves snd_nxt
      beyond the window. */
  lemma XmitKeeps(t: Tx, wnd: nat, dev: Device, lim: Limits)
    requires Inv(t)
    ensures
      var t' := XmitData(t, wnd, dev, lim).0;
      && Inv(t') && t.sndNxt <= t'.sndNxt
      && (t'.sndNxt > t.sndNxt ==> t'.sndNxt <= t.sndUna + wnd && t'.sndNxt <= t.dataNxt)
      && t' == t.(sndNxt := t'.sndNxt, nxt := t'.nxt)
  {
    hide XmitMany;
    hide Tiled;
    hide SackedBytes;
    if wnd != 0 && t.nxt != |t.descs| {
      var budget := wnd - (t.sndNxt - t.sndUna);
      var c := Ctx(t.sndNxt, t.nxt, budget);
      NewDataReady(t, budget);
      XmitManyReady(t.descs, Lo(t), t.dataNxt, c, t.dataNxt, Turns(dev), lim);
      FreshNotSacked(t);
      XmitManyBudget(t.descs, Lo(t), t.dataNxt, c, t.dataNxt, Turns(dev), lim);
    }
  }

  /** Every packet of new data carries the written bytes at its place, between the old and the
      new snd_nxt. */
  lemma XmitSafe(t: Tx, wnd: nat, dev: Device, lim: Limits, stream: int -> byte)
    requires Inv(t) && Matching(t.descs, stream)
    ensures var (t', ws) := XmitData(t, wnd, dev, lim);
            forall w | w in ws :: Safe(w, t.descs, t.sndNxt, Top(t'), stream)
  {
    hide XmitMany;
    hide Matching;
    hide AvoidsSacked;
    hide Slice;
    hide Ready;
    hide Tiled;
    hide SackedBytes;
    if wnd != 0 && t.nxt != |t.descs| {
      var budget := wnd - (t.sndNxt - t.sndUna);
      var c := Ctx(t.sndNxt, t.nxt, budget);
      NewDataReady(t, budget);
      XmitManySafe(t.descs, Lo(t), t.dataNxt, c, t.dataNxt, Turns(dev), lim, stream);
      XmitManyBelow(t.descs, Lo(t), t.dataNxt, c, t.dataNxt, Turns(dev), lim);
    }
  }

  lemma FinKeeps(t: Tx)
    requires Inv(t)
    ensures Inv(SendFin(t))
  {
    SpanBound(t.descs, Lo(t), t.dataNxt, t.chunk);
    hide Tiled;
    hide SackedBytes;
  }

  // ---- retransmitting

  lemma RegulateNames(t: Tx)
    requires Core(t) && (t.rexSeq < t.sndUna || Names(t))
    ensures Core(Regulate(t)) && Names(Regulate(t))
  {
    if t.rexSeq < t.sndUna {
      SpanBound(t.descs, Lo(t), t.dataNxt, t.chunk);
      assert Within(t.descs, t.dataNxt, 0, t.sndUna);
      hide Within;
      hide Tiled;
      hide Core;
      PointersDontMatter(t, Regulate(t));
    }
  }

  lemma PointersDontMatter(t: Tx, t': Tx)
    requires Core(t) && t' == t.(rexSeq := t'.rexSeq, rexIdx := t'.rexIdx)
    ensures Core(t')
  {
    hide SackedBytes;
    hide Tiled;
    hide Within;
  }

  /** Retransmitting leaves the cached pointers naming their descriptor. */
  lemma RexNames(t: Tx, budget: int, dev: Device, lim: Limits)
    requires Core(t) && Names(t)
    ensures
      var t' := Rex(t, budget, dev, lim).0;
      Core(t') && Names(t') && t' == t.(rexSeq := t'.rexSeq, rexIdx := t'.rexIdx)
  {
    hide XmitMany;
    hide SackedBytes;
    hide Tiled;
    hide SackedBelow;
    RexReady(t, budget);
    var c := Ctx(t.rexSeq, t.rexIdx - t.una, budget);
    XmitManyReady(t.descs, Lo(t), t.dataNxt, c, t.sndNxt, Turns(dev), lim);
    var (c', ws) := XmitMany(t.descs, Lo(t), t.dataNxt, c, t.sndNxt, Turns(dev), lim);
    var t' := Rex(t, budget, dev, lim).0;
    assert t'.rexSeq == c'.seqno;
    assert t'.rexIdx == t.una + c'.idx;
    assert Within(t.descs, t.dataNxt, c'.idx, c'.seqno);
    assert Names(t');
    hide Core;
    PointersDontMatter(t, t');
  }

  /** Retransmitting puts out only bytes between snd_una and snd_nxt, without the FIN, that the peer
      has not reported. */
  lemma RexSafe(t: Tx, budget: int, dev: Device, lim: Limits, stream: int -> byte)
    requires Core(t) && Names(t) && Matching(t.descs, stream)
    ensures forall w | w in Rex(t, budget, dev, lim).1 :: Safe(w, t.descs, t.sndUna, Top(t), stream)
  {
    hide XmitMany;
    hide Matching;
    hide AvoidsSacked;
    hide Slice;
    hide Core;
    hide Names;
    hide Ready;
    RexReady(t, budget);
    RexOutstanding(t);
    var c := Ctx(t.rexSeq, t.rexIdx - t.una, budget);
    XmitManyTop(t.descs, Lo(t), t.dataNxt, c, t.sndNxt, Turns(dev), lim);
    XmitManySafe(t.descs, Lo(t), t.dataNxt, c, t.sndNxt, Turns(dev), lim, stream);
  }

  lemma RexOutstanding(t: Tx)
    requires Core(t) && Names(t)
    ensures t.sndUna <= t.rexSeq && t.una <= t.rexIdx
  {
    hide Core;
  }

  /** No packet reaches beyond the queued data. */
  lemma XmitManyTop(ds: seq<Desc>, lo: int, hi: int, c: Ctx, seqMax: int, envs: seq<Env>, lim: Limits)
    requires Ready(ds, lo, hi, c, seqMax)
    ensures forall w | w in XmitMany(ds, lo, hi, c, seqMax, envs, lim).1 :: w.End() <= hi
  {
    hide XmitMany;
    hide SackedBelow;
    XmitManyReady(ds, lo, hi, c, seqMax, envs, lim);
    XmitManyBelow(ds, lo, hi, c, seqMax, envs, lim);
    AtBelow(ds, lo, hi, XmitMany(ds, lo, hi, c, seqMax, envs, lim).0);
  }

  lemma AtBelow(ds: seq<Desc>, lo: int, hi: int, c: Ctx)
    requires Tiled(ds, lo, hi) && At(ds, hi, c)
    ensures c.seqno <= hi
  {
    StartMonotone(ds, lo, hi, c.idx, |ds|);
  }
}
