/** The SACK scoreboard of the sender (sort_sack, mark_desc_sacked and tcp_rcv_sack of
    src/tcp/tcp_input.c, clear_sacked of src/tcp/tcp_timeout.c). */
module Scoreboard {
  import opened SeqNum
  import opened Chains
  import opened TxQueue
  import opened XmitSpec
  import opened SendSpec

  /** A block as the peer reports it: 32-bit numbers, not to be trusted. */
  datatype Report = Report(start: u32, end: u32)

  // ---- sorting

  /** Insertion by the comparison of sack_block_cmp. */
  function SortIn(b: Report, bs: seq<Report>): (r: seq<Report>) {
    if bs != [] && SeqGt(b.start, bs[0].start) then [bs[0]] + SortIn(b, bs[1..]) else [b] + bs
  }

  function Sort(bs: seq<Report>): (r: seq<Report>) {
    if bs == [] then [] else SortIn(bs[0], Sort(bs[1..]))
  }

  lemma {:induction false} SortInPermutes(b: Report, bs: seq<Report>)
    ensures multiset(SortIn(b, bs)) == multiset{b} + multiset(bs)
  {
    if bs != [] && SeqGt(b.start, bs[0].start) {
      SortInPermutes(b, bs[1..]);
      assert bs == [bs[0]] + bs[1..];
    }
  }

  /** Sorting neither loses nor invents a block. */
  lemma {:induction false} SortPermutes(bs: seq<Report>)
    ensures multiset(Sort(bs)) == multiset(bs)
  {
    if bs != [] {
      SortPermutes(bs[1..]);
      SortInPermutes(bs[0], Sort(bs[1..]));
      assert bs == [bs[0]] + bs[1..];
    }
  }

  /** No block starts before the one in front of it ends. */
  predicate NoIntersection(bs: seq<Report>) {
    forall i | 0 < i < |bs| :: !SeqLt(bs[i].start, bs[i - 1].end)
  }

  // ---- marking

  /** The descriptor lies in the block, which ends beyond it, and does not reach snd_nxt. */
  ghost predicate Inside(d: Desc, b: Report, sndNxt: int) {
    && d.End() < sndNxt
    && SeqLt(Wrap(d.End()), b.end) && SeqGe(Wrap(d.start), b.start)
    && !SeqGt(b.end, Wrap(sndNxt))
  }

  /** mark_desc_sacked. */
  function Mark(t: Tx, k: nat): Tx
    requires k < |t.descs|
  {
    if t.descs[k].sacked then t
    else t.(descs := t.descs[k := t.descs[k].(sacked := true)],
            sackedBytes := t.sackedBytes + t.descs[k].Len())
  }

  /** The inner loop of tcp_rcv_sack: marks from descriptor `off` on; also where it stopped. */
  function MarkBlock(t: Tx, b: Report, off: nat): (r: (Tx, nat))
    ensures r.0.sndNxt == t.sndNxt && |r.0.descs| == |t.descs|
    decreases |t.descs| - off
  {
    if off >= |t.descs| then (t, off + 1)
    else
      var d := t.descs[off];
      if d.End() >= t.sndNxt || SeqGe(Wrap(d.End()), b.end) then (t, off + 1)
      else MarkBlock(if SeqGe(Wrap(d.start), b.start) then Mark(t, off) else t, b, off + 1)
  }

  function MarkBlocks(t: Tx, bs: seq<Report>, off: nat): (t': Tx)
    decreases |bs|
  {
    if bs == [] then t
    else if SeqGt(bs[0].end, Wrap(t.sndNxt)) then MarkBlocks(t, bs[1..], off)
    else
      var (t1, off1) := MarkBlock(t, bs[0], off);
      MarkBlocks(t1, bs[1..], off1)
  }

  /** tcp_rcv_sack. */
  function RcvSack(t: Tx, bs: seq<Report>): (t': Tx) {
    var sorted := Sort(bs);
    if NoIntersection(sorted) then MarkBlocks(t, sorted, 0) else t
  }

  /** clear_sacked. */
  function ClearSacked(t: Tx): (t': Tx) {
    t.(descs := seq(|t.descs|, i requires 0 <= i < |t.descs| => t.descs[i].(sacked := false)), sackedBytes := 0)
  }

  /** Only marks were added, each on a descriptor that lies inside one of the blocks. */
  ghost predicate Marked(t: Tx, t': Tx, bs: seq<Report>) {
    && t' == t.(descs := t'.descs, sackedBytes := t'.sackedBytes)
    && SameButMarks(t.descs, t'.descs)
    && (forall i {:trigger t'.descs[i].sacked} | 0 <= i < |t.descs| ::
          (t.descs[i].sacked ==> t'.descs[i].sacked) &&
          (t'.descs[i].sacked && !t.descs[i].sacked ==> exists j | 0 <= j < |bs| :: Inside(t.descs[i], bs[j], t.sndNxt)))
  }

  lemma MarkKeeps(t: Tx, k: nat)
    requires Core(t) && k < |t.descs| && t.descs[k].End() < t.sndNxt
    ensures Core(Mark(t, k))
    ensures SameButMarks(t.descs, Mark(t, k).descs)
  {
    if !t.descs[k].sacked {
      var t' := Mark(t, k);
      SackedUpdate(t.descs, k);
      hide SackedBytes;
      SameTiled(t.descs, t'.descs, Lo(t), t.dataNxt);
      hide Tiled;
    }
  }

  lemma MarkMarks(t: Tx, k: nat, b: Report, bs: seq<Report>)
    requires k < |t.descs| && b in bs && Inside(t.descs[k], b, t.sndNxt)
    ensures Marked(t, Mark(t, k), bs)
  {
    var j :| 0 <= j < |bs| && bs[j] == b;
    assert Inside(t.descs[k], bs[j], t.sndNxt);
  }

  lemma MarkedTrans(t: Tx, t1: Tx, t2: Tx, bs: seq<Report>)
    requires Marked(t, t1, bs) && Marked(t1, t2, bs)
    ensures Marked(t, t2, bs)
  {
    forall i {:trigger t2.descs[i].sacked} | 0 <= i < |t.descs|
      ensures (t.descs[i].sacked ==> t2.descs[i].sacked) &&
              (t2.descs[i].sacked && !t.descs[i].sacked ==> exists j | 0 <= j < |bs| :: Inside(t.descs[i], bs[j], t.sndNxt))
    {
      if t2.descs[i].sacked && !t.descs[i].sacked && !t1.descs[i].sacked {
        var j :| 0 <= j < |bs| && Inside(t1.descs[i], bs[j], t1.sndNxt);
        assert Inside(t.descs[i], bs[j], t.sndNxt);
      }
    }
  }

  lemma MarkedRefl(t: Tx, bs: seq<Report>)
    ensures Marked(t, t, bs)
  {
  }

  lemma {:induction false} MarkBlockSound(t: Tx, b: Report, off: nat, bs: seq<Report>)
    requires Core(t) && b in bs && !SeqGt(b.end, Wrap(t.sndNxt))
    ensures var t' := MarkBlock(t, b, off).0; Core(t') && Marked(t, t', bs)
    decreases |t.descs| - off
  {
    hide Core;
    hide Marked;
    MarkedRefl(t, bs);
    if off < |t.descs| {
      var d := t.descs[off];
      if !(d.End() >= t.sndNxt || SeqGe(Wrap(d.End()), b.end)) {
        if SeqGe(Wrap(d.start), b.start) {
          MarkKeeps(t, off);
          MarkMarks(t, off, b, bs);
          MarkBlockSound(Mark(t, off), b, off + 1, bs);
          MarkedTrans(t, Mark(t, off), MarkBlock(t, b, off).0, bs);
        } else {
          MarkBlockSound(t, b, off + 1, bs);
        }
      }
    }
  }

  lemma {:induction false} MarkBlocksSound(t: Tx, ps: seq<Report>, off: nat, bs: seq<Report>)
    requires Core(t) && forall b | b in ps :: b in bs
    ensures var t' := MarkBlocks(t, ps, off); Core(t') && Marked(t, t', bs)
    decreases |ps|
  {
    hide Core;
    hide Marked;
    MarkedRefl(t, bs);
    if ps != [] {
      assert ps[0] in bs;
      if SeqGt(ps[0].end, Wrap(t.sndNxt)) {
        MarkBlocksSound(t, ps[1..], off, bs);
      } else {
        MarkBlockSound(t, ps[0], off, bs);
        var (t1, off1) := MarkBlock(t, ps[0], off);
        MarkBlocksSound(t1, ps[1..], off1, bs);
        MarkedTrans(t, t1, MarkBlocks(t, ps, off), bs);
      }
    }
  }

  /** Whatever blocks the peer reports, the byte count stays the summed length of the marked
      descriptors, and a descriptor is newly marked only if it lies inside a reported block. */
  lemma SackSound(t: Tx, bs: seq<Report>)
    requires Core(t)
    ensures Core(RcvSack(t, bs)) && Marked(t, RcvSack(t, bs), bs)
  {
    hide Core;
    hide Marked;
    MarkedRefl(t, bs);
    var sorted := Sort(bs);
    SortPermutes(bs);
    forall b | b in sorted ensures b in bs {
      assert b in multiset(sorted);
    }
    MarkBlocksSound(t, sorted, 0, bs);
  }

  // ---- exactly which descriptors are marked

  /** The queue spans less than half the sequence space, and its descriptors are in order. */
  lemma SpanNear(t: Tx, k: nat, i: nat)
    requires Core(t) && k <= i < |t.descs|
    ensures t.sndNxt - HALF < t.descs[k].start < t.descs[k].End() <= t.descs[i].End() < t.sndNxt + HALF
  {
    hide SackedBytes;
    SpanBound(t.descs, Lo(t), t.dataNxt, t.chunk);
    MulMonotone(|t.descs|, t.size, t.chunk);
    StartMonotone(t.descs, Lo(t), t.dataNxt, 0, k);
    StartMonotone(t.descs, Lo(t), t.dataNxt, k, i);
    StartMonotone(t.descs, Lo(t), t.dataNxt, i, |t.descs|);
    StartMonotone(t.descs, Lo(t), t.dataNxt, t.nxt, |t.descs|);
  }

  /** For a block given by unbounded numbers near the queue, the modular test is the true one. */
  lemma InsideExact(t: Tx, k: nat, s: int, e: int)
    requires Core(t) && k < |t.descs| && t.sndNxt - HALF < s <= e <= t.sndNxt
    ensures Inside(t.descs[k], Report(Wrap(s), Wrap(e)), t.sndNxt) <==>
            s <= t.descs[k].start && t.descs[k].End() < e
  {
    SpanNear(t, k, k);
    hide Core;
    hide Diff;
    hide Wrap;
    var d := t.descs[k];
    DiffExact(e, t.sndNxt);
    DiffExact(d.End(), e);
    DiffExact(d.start, s);
  }

  /** The scan of a block passes the descriptor: it ends before the block and before snd_nxt. */
  predicate Passes(d: Desc, b: Report, sndNxt: int) {
    d.End() < sndNxt && SeqLt(Wrap(d.End()), b.end)
  }

  /** Where the scan of a block stops. */
  function Stop(ds: seq<Desc>, b: Report, sndNxt: int, off: nat): (k: nat)
    ensures off <= k && forall i | off <= i < k && i < |ds| :: Passes(ds[i], b, sndNxt)
    ensures k < |ds| ==> !Passes(ds[k], b, sndNxt)
    decreases |ds| - off
  {
    if off < |ds| && Passes(ds[off], b, sndNxt) then Stop(ds, b, sndNxt, off + 1) else off
  }

  /** Where the scan of block `j` begins: one behind where the one before it stopped. */
  function Begin(ds: seq<Desc>, bs: seq<Report>, sndNxt: int, off: nat, j: nat): nat
    requires j < |bs|
    decreases j
  {
    if j == 0 then off
    else Begin(ds, bs[1..], sndNxt, if SeqGt(bs[0].end, Wrap(sndNxt)) then off else Stop(ds, bs[0], sndNxt, off) + 1, j - 1)
  }

  lemma {:induction false} StopSame(ds: seq<Desc>, es: seq<Desc>, b: Report, sndNxt: int, off: nat)
    requires SameButMarks(ds, es)
    ensures Stop(ds, b, sndNxt, off) == Stop(es, b, sndNxt, off)
    decreases |ds| - off
  {
    if off < |ds| && Passes(ds[off], b, sndNxt) {
      StopSame(ds, es, b, sndNxt, off + 1);
    }
  }

  lemma {:induction false} BeginSame(ds: seq<Desc>, es: seq<Desc>, bs: seq<Report>, sndNxt: int, off: nat, j: nat)
    requires SameButMarks(ds, es) && j < |bs|
    ensures Begin(ds, bs, sndNxt, off, j) == Begin(es, bs, sndNxt, off, j)
    decreases j
  {
    if j > 0 {
      StopSame(ds, es, bs[0], sndNxt, off);
      BeginSame(ds, es, bs[1..], sndNxt,
                if SeqGt(bs[0].end, Wrap(sndNxt)) then off else Stop(ds, bs[0], sndNxt, off) + 1, j - 1);
    }
  }

  /** Behind a descriptor the scan does not pass, there is none inside the block. */
  lemma NoneBehind(t: Tx, b: Report, k: nat, i: nat)
    requires Core(t) && !SeqGt(b.end, Wrap(t.sndNxt)) && k <= i < |t.descs| && !Passes(t.descs[k], b, t.sndNxt)
    ensures !Inside(t.descs[i], b, t.sndNxt)
  {
    SpanNear(t, k, i);
    hide Core;
    hide Diff;
    hide Wrap;
    hide Unwrap;
    var e := Unwrap(b.end, t.sndNxt);
    DiffExact(e, t.sndNxt);
    DiffExact(t.descs[k].End(), e);
    DiffExact(t.descs[i].End(), e);
  }

  /** Of the descriptors from `off` on, those inside the block are marked in addition. */
  ghost predicate MarksIn(t: Tx, t': Tx, b: Report, off: nat) {
    && SameButMarks(t.descs, t'.descs) && t'.sndNxt == t.sndNxt
    && (forall i {:trigger t'.descs[i].sacked} | 0 <= i < |t.descs| ::
          t'.descs[i].sacked <==> t.descs[i].sacked || (off <= i && Inside(t.descs[i], b, t.sndNxt)))
  }

  lemma InsideSame(ds: seq<Desc>, es: seq<Desc>, b: Report, sndNxt: int, i: nat)
    requires SameButMarks(ds, es) && i < |ds|
    ensures Inside(ds[i], b, sndNxt) == Inside(es[i], b, sndNxt)
  {
  }

  /** The turn of the loop at `off`, and what follows. */
  lemma MarksStep(t: Tx, t1: Tx, t': Tx, b: Report, off: nat)
    requires off < |t.descs| && t1.sndNxt == t.sndNxt && SameButMarks(t.descs, t1.descs) && MarksIn(t1, t', b, off + 1)
    requires forall i {:trigger t1.descs[i].sacked} | 0 <= i < |t.descs| ::
               t1.descs[i].sacked <==> t.descs[i].sacked || (i == off && Inside(t.descs[i], b, t.sndNxt))
    ensures MarksIn(t, t', b, off)
  {
    forall i | 0 <= i < |t.descs| ensures t'.descs[i].sacked <==> t.descs[i].sacked || (off <= i && Inside(t.descs[i], b, t.sndNxt)) {
      InsideSame(t.descs, t1.descs, b, t.sndNxt, i);
      hide Inside;
      assert t1.descs[i].sacked || !t1.descs[i].sacked;
    }
  }

  lemma MarksNothing(t: Tx, b: Report, off: nat)
    requires Core(t) && !SeqGt(b.end, Wrap(t.sndNxt)) && (off < |t.descs| ==> !Passes(t.descs[off], b, t.sndNxt))
    ensures MarksIn(t, t, b, off)
  {
    hide Core;
    hide Inside;
    hide Passes;
    hide SeqGt;
    forall i | off <= i < |t.descs| ensures !Inside(t.descs[i], b, t.sndNxt) {
      NoneBehind(t, b, off, i);
    }
  }

  lemma MarkOne(t: Tx, b: Report, k: nat)
    requires Core(t) && k < |t.descs| && !SeqGt(b.end, Wrap(t.sndNxt)) && Passes(t.descs[k], b, t.sndNxt)
    ensures
      var t1 := if SeqGe(Wrap(t.descs[k].start), b.start) then Mark(t, k) else t;
      && Core(t1) && t1.sndNxt == t.sndNxt && SameButMarks(t.descs, t1.descs)
      && forall i {:trigger t1.descs[i].sacked} | 0 <= i < |t.descs| ::
           t1.descs[i].sacked <==> t.descs[i].sacked || (i == k && Inside(t.descs[i], b, t.sndNxt))
  {
    MarkKeeps(t, k);
    hide Core;
    hide Wrap;
    hide Diff;
  }

  lemma {:induction false} MarkBlockExact(t: Tx, b: Report, off: nat)
    requires Core(t) && !SeqGt(b.end, Wrap(t.sndNxt))
    ensures
      var (t', k) := MarkBlock(t, b, off);
      Core(t') && MarksIn(t, t', b, off) && k == Stop(t.descs, b, t.sndNxt, off) + 1
    decreases |t.descs| - off
  {
    hide Core;
    hide MarksIn;
    hide SameButMarks;
    hide Inside;
    hide SeqGt;
    hide Wrap;
    hide Diff;
    if off < |t.descs| && Passes(t.descs[off], b, t.sndNxt) {
      MarkOne(t, b, off);
      var t1 := if SeqGe(Wrap(t.descs[off].start), b.start) then Mark(t, off) else t;
      hide Mark;
      StopSame(t.descs, t1.descs, b, t.sndNxt, off + 1);
      MarkBlockExact(t1, b, off + 1);
      MarksStep(t, t1, MarkBlock(t1, b, off + 1).0, b, off);
    } else {
      MarksNothing(t, b, off);
    }
  }

  /** The descriptor lies inside one of the blocks, and the scan of that block gets to see it. */
  ghost predicate Seen(t: Tx, bs: seq<Report>, off: nat, i: nat)
    requires i < |t.descs|
  {
    exists j {:trigger bs[j]} | 0 <= j < |bs| :: Begin(t.descs, bs, t.sndNxt, off, j) <= i && Inside(t.descs[i], bs[j], t.sndNxt)
  }

  lemma SeenFirst(t: Tx, bs: seq<Report>, off: nat, i: nat, j: nat)
    requires j < |bs| && i < |t.descs| && Begin(t.descs, bs, t.sndNxt, off, j) <= i && Inside(t.descs[i], bs[j], t.sndNxt)
    ensures Seen(t, bs, off, i)
  {
    hide Begin;
    hide Inside;
    assert bs[j] == bs[j];
  }

  /** Where the scan of a later block begins does not depend on the marks. */
  lemma BeginNext(t: Tx, bs: seq<Report>, off: nat, off1: nat, t1: Tx, j: nat)
    requires 0 < j < |bs| && SameButMarks(t.descs, t1.descs) && t1.sndNxt == t.sndNxt
    requires off1 == if SeqGt(bs[0].end, Wrap(t.sndNxt)) then off else Stop(t.descs, bs[0], t.sndNxt, off) + 1
    ensures Begin(t.descs, bs, t.sndNxt, off, j) == Begin(t1.descs, bs[1..], t.sndNxt, off1, j - 1)
  {
    BeginSame(t.descs, t1.descs, bs[1..], t.sndNxt, off1, j - 1);
  }

  lemma SeenUnfold(t: Tx, bs: seq<Report>, off: nat, off1: nat, t1: Tx, i: nat)
    requires bs != [] && i < |t.descs| && SameButMarks(t.descs, t1.descs) && t1.sndNxt == t.sndNxt
    requires off1 == if SeqGt(bs[0].end, Wrap(t.sndNxt)) then off else Stop(t.descs, bs[0], t.sndNxt, off) + 1
    ensures i < |t1.descs|
    ensures Seen(t, bs, off, i) <==> (off <= i && Inside(t.descs[i], bs[0], t.sndNxt)) || Seen(t1, bs[1..], off1, i)
  {
    SameLength(t.descs, t1.descs);
    hide Inside;
    hide Stop;
    hide SeqGt;
    hide SameButMarks;
    assert Begin(t.descs, bs, t.sndNxt, off, 0) == off;
    hide Begin;
    if Seen(t, bs, off, i) {
      var j :| 0 <= j < |bs| && Begin(t.descs, bs, t.sndNxt, off, j) <= i && Inside(t.descs[i], bs[j], t.sndNxt);
      if j > 0 {
        BeginNext(t, bs, off, off1, t1, j);
        InsideSame(t.descs, t1.descs, bs[j], t.sndNxt, i);
        SeenFirst(t1, bs[1..], off1, i, j - 1);
      }
    }
    if off <= i && Inside(t.descs[i], bs[0], t.sndNxt) {
      SeenFirst(t, bs, off, i, 0);
    }
    if Seen(t1, bs[1..], off1, i) {
      var j :| 0 <= j < |bs[1..]| && Begin(t1.descs, bs[1..], t1.sndNxt, off1, j) <= i && Inside(t1.descs[i], bs[1..][j], t1.sndNxt);
      BeginNext(t, bs, off, off1, t1, j + 1);
      InsideSame(t.descs, t1.descs, bs[j + 1], t.sndNxt, i);
      SeenFirst(t, bs, off, i, j + 1);
    }
  }

  lemma SameLength(ds: seq<Desc>, es: seq<Desc>)
    requires SameButMarks(ds, es)
    ensures |ds| == |es|
  {
  }

  lemma {:induction false} MarkBlocksExact(t: Tx, bs: seq<Report>, off: nat)
    requires Core(t)
    ensures
      var t' := MarkBlocks(t, bs, off);
      && SameButMarks(t.descs, t'.descs)
      && forall i {:trigger t'.descs[i].sacked} | 0 <= i < |t.descs| ::
           t'.descs[i].sacked <==> t.descs[i].sacked || Seen(t, bs, off, i)
    decreases |bs|
  {
    hide Core;
    hide Seen;
    hide Inside;
    if bs != [] {
      var skip := SeqGt(bs[0].end, Wrap(t.sndNxt));
      if !skip {
        MarkBlockExact(t, bs[0], off);
      }
      var (t1, off1) := if skip then (t, off) else MarkBlock(t, bs[0], off);
      MarkBlocksExact(t1, bs[1..], off1);
      forall i | 0 <= i < |t.descs| ensures Seen(t, bs, off, i) <==> (off <= i && Inside(t.descs[i], bs[0], t.sndNxt)) || Seen(t1, bs[1..], off1, i) {
        SeenUnfold(t, bs, off, off1, t1, i);
      }
      if skip {
        forall i | 0 <= i < |t.descs| ensures !Inside(t.descs[i], bs[0], t.sndNxt) {
          NotConsidered(t, bs[0], i);
        }
      }
    } else {
      forall i | 0 <= i < |t.descs| ensures !Seen(t, bs, off, i) {
        SeenNone(t, off, i);
      }
    }
  }

  lemma NotConsidered(t: Tx, b: Report, i: nat)
    requires i < |t.descs| && SeqGt(b.end, Wrap(t.sndNxt))
    ensures !Inside(t.descs[i], b, t.sndNxt)
  {
  }

  lemma SeenNone(t: Tx, off: nat, i: nat)
    requires i < |t.descs|
    ensures !Seen(t, [], off, i)
  {
  }

  /** A descriptor is marked exactly when it was, or lies inside a block whose scan begins at or
      before it; blocks that intersect mark nothing. */
  lemma SackExact(t: Tx, bs: seq<Report>, i: nat)
    requires Core(t) && i < |t.descs|
    ensures |RcvSack(t, bs).descs| == |t.descs|
    ensures RcvSack(t, bs).descs[i].sacked <==>
            t.descs[i].sacked || (NoIntersection(Sort(bs)) && Seen(t, Sort(bs), 0, i))
  {
    hide Core;
    hide Seen;
    MarkBlocksExact(t, Sort(bs), 0);
  }

  /** With a single block, every descriptor inside it is marked, and no other. */
  lemma OneBlockComplete(t: Tx, b: Report, i: nat)
    requires Core(t) && i < |t.descs|
    ensures |RcvSack(t, [b]).descs| == |t.descs|
    ensures RcvSack(t, [b]).descs[i].sacked <==> t.descs[i].sacked || Inside(t.descs[i], b, t.sndNxt)
  {
    hide Core;
    SackExact(t, [b], i);
    assert [b][1..] == [];
    assert Sort([b]) == [b];
    assert [b][0] == b && Begin(t.descs, [b], t.sndNxt, 0, 0) == 0;
  }

  /** With several it need not be: the scan of the first block stops at the first descriptor, which
      the scan of the second, though it covers that descriptor, no longer looks at. */
  lemma CoveredUnmarked(t: Tx)
    requires Core(t) && |t.descs| == 3 && t.sndUna == t.descs[0].start == 100 && !t.descs[0].sacked
    requires t.descs[0].End() == 110 && t.descs[1].End() == 120 && t.sndNxt == 130
    ensures
      var bs := [Report(10, 20), Report(100, 130)];
      NoIntersection(Sort(bs)) && Inside(t.descs[0], bs[1], t.sndNxt) && !RcvSack(t, bs).descs[0].sacked
  {
    hide Core;
    var bs := [Report(10, 20), Report(100, 130)];
    var a, b := bs[0], bs[1];
    assert bs[1..] == [b] && [b][1..] == [] && bs == [a] + [b];
    assert Sort([b]) == [b];
    assert !SeqGt(a.start, b.start);
    assert SortIn(a, [b]) == [a] + [b];
    MarkBlocksExact(t, bs, 0);
    assert Stop(t.descs, a, t.sndNxt, 0) == 0;
    assert Begin(t.descs, bs, t.sndNxt, 0, 1) == Begin(t.descs, [b], t.sndNxt, 1, 0) == 1;
    assert !Inside(t.descs[0], a, t.sndNxt);
    assert !Seen(t, bs, 0, 0);
    assert RcvSack(t, bs) == MarkBlocks(t, bs, 0);
  }

  /** A block that reports exactly one descriptor does not mark it, because it does not end beyond it. */
  lemma OwnBlockUnmarked(t: Tx, k: nat)
    requires Core(t) && k < |t.descs| && t.descs[k].End() <= t.sndNxt
    ensures |RcvSack(t, [Report(Wrap(t.descs[k].start), Wrap(t.descs[k].End()))]).descs| == |t.descs|
    ensures RcvSack(t, [Report(Wrap(t.descs[k].start), Wrap(t.descs[k].End()))]).descs[k].sacked == t.descs[k].sacked
  {
    SpanNear(t, k, k);
    InsideExact(t, k, t.descs[k].start, t.descs[k].End());
    OneBlockComplete(t, Report(Wrap(t.descs[k].start), Wrap(t.descs[k].End())), k);
    hide Core;
    hide RcvSack;
    hide Inside;
    hide Wrap;
  }

  /** Blocks that start within half the sequence space of each other come out in order. */
  lemma {:induction false} SortOrders(bs: seq<Report>, lo: int)
    requires forall b | b in bs :: lo <= Unwrap(b.start, lo)
    ensures Ordered(Sort(bs), lo)
  {
    if bs != [] {
      SortPermutes(bs[1..]);
      SortOrders(bs[1..], lo);
      forall b | b in Sort(bs[1..]) ensures lo <= Unwrap(b.start, lo) {
        assert b in multiset(bs[1..]);
      }
      SortInOrders(bs[0], Sort(bs[1..]), lo);
    }
  }

  ghost predicate Ordered(bs: seq<Report>, lo: int) {
    forall i, j | 0 <= i < j < |bs| :: Unwrap(bs[i].start, lo) <= Unwrap(bs[j].start, lo)
  }

  lemma {:induction false} SortInOrders(b: Report, bs: seq<Report>, lo: int)
    requires Ordered(bs, lo) && lo <= Unwrap(b.start, lo) && forall x | x in bs :: lo <= Unwrap(x.start, lo)
    ensures Ordered(SortIn(b, bs), lo)
  {
    if bs != [] {
      DiffExact(Unwrap(b.start, lo), Unwrap(bs[0].start, lo));
      if SeqGt(b.start, bs[0].start) {
        SortInOrders(b, bs[1..], lo);
        SortInPermutes(b, bs[1..]);
        hide Unwrap;
        var r := SortIn(b, bs[1..]);
        forall x | x in r ensures Unwrap(bs[0].start, lo) <= Unwrap(x.start, lo) {
          assert x in multiset(r);
        }
      }
    }
  }

  /** After a timeout no mark is left. */
  lemma ClearKeeps(t: Tx)
    requires Core(t)
    ensures var t' := ClearSacked(t);
            && Core(t') && SameButMarks(t.descs, t'.descs) && t' == t.(descs := t'.descs, sackedBytes := 0)
            && (forall i | 0 <= i < |t'.descs| :: !t'.descs[i].sacked)
  {
    var t' := ClearSacked(t);
    SackedZero(t'.descs);
    hide SackedBytes;
    SameTiled(t.descs, t'.descs, Lo(t), t.dataNxt);
  }
}
