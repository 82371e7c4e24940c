/** The SACK blocks a receiver reports (sack_merge, sack_try_merge_blocks, sack_update and
    sack_regulate of src/tcp/tcp_input.c), with unbounded sequence numbers that are compared,
    as the code does, modulo 2^32. */
module SackSpec {
  import opened SeqNum

  const MAX_BLOCKS := 3

  datatype Block = Block(start: int, end: int) {
    predicate Has(b: int) { start <= b < end }
  }

  predicate Lt(a: int, b: int) { SeqLt(Wrap(a), Wrap(b)) }

  predicate Gt(a: int, b: int) { SeqGt(Wrap(a), Wrap(b)) }

  predicate Touches(blk: Block, start: int, end: int) {
    !(Lt(end, blk.start) || Gt(start, blk.end))
  }

  function Merge(blk: Block, start: int, end: int): Block {
    Block(if Lt(start, blk.start) then start else blk.start,
          if Gt(end, blk.end) then end else blk.end)
  }

  /** Index of the first block that [start, end) overlaps or abuts, or the number of blocks. */
  function FindTouch(bs: seq<Block>, start: int, end: int): (i: nat)
    ensures i <= |bs|
    ensures i < |bs| ==> Touches(bs[i], start, end)
    ensures forall j | 0 <= j < i :: !Touches(bs[j], start, end)
  {
    if bs == [] || Touches(bs[0], start, end) then 0
    else
      var i := FindTouch(bs[1..], start, end);
      assert forall j | 1 <= j < i + 1 :: bs[j] == bs[1..][j - 1];
      i + 1
  }

  /** One pass over the other blocks, merging into `blk` those it touches. */
  function Absorb(blk: Block, rest: seq<Block>): (r: (Block, seq<Block>))
    ensures |r.1| <= |rest|
    decreases |rest|
  {
    if rest == [] then (blk, [])
    else if Touches(blk, rest[0].start, rest[0].end) then
      Absorb(Merge(blk, rest[0].start, rest[0].end), rest[1..])
    else
      var (b, kept) := Absorb(blk, rest[1..]);
      (b, [rest[0]] + kept)
  }

  function Update(bs: seq<Block>, start: int, end: int): (r: seq<Block>)
    ensures r != [] && (|bs| <= MAX_BLOCKS ==> |r| <= MAX_BLOCKS)
  {
    var i := FindTouch(bs, start, end);
    if i < |bs| then
      var (b, kept) := Absorb(Merge(bs[i], start, end), bs[i := bs[0]][1..]);
      [b] + kept
    else
      [Block(start, end)] + bs[..if |bs| < MAX_BLOCKS then |bs| else MAX_BLOCKS - 1]
  }

  /** Keeps the blocks above `nxt`. */
  function Regulate(bs: seq<Block>, nxt: int): (r: seq<Block>)
    ensures |r| <= |bs|
  {
    if bs == [] then []
    else if Gt(bs[0].start, nxt) then [bs[0]] + Regulate(bs[1..], nxt)
    else Regulate(bs[1..], nxt)
  }

  predicate Apart(a: Block, b: Block) {
    a.end < b.start || b.end < a.start
  }

  /** At most three non-empty blocks in [lo, hi], pairwise disjoint and not even adjacent. */
  ghost predicate Separate(bs: seq<Block>, lo: int, hi: int) {
    && (forall i | 0 <= i < |bs| :: lo <= bs[i].start < bs[i].end <= hi)
    && (forall i, j | 0 <= i < j < |bs| :: Apart(bs[i], bs[j]))
  }

  ghost predicate Reports(bs: seq<Block>, b: int) {
    exists i | 0 <= i < |bs| :: bs[i].Has(b)
  }

  lemma LtExact(a: int, b: int)
    requires -HALF <= a - b < HALF
    ensures Lt(a, b) <==> a < b
    ensures Gt(a, b) <==> a > b
  {
    DiffExact(a, b);
  }

  /** In a window below 2^31 merging two blocks that touch gives their union. */
  lemma MergeIsUnion(blk: Block, start: int, end: int, lo: int, hi: int)
    requires hi - lo < HALF
    requires lo <= blk.start < blk.end <= hi && lo <= start < end <= hi
    ensures Touches(blk, start, end) <==> !Apart(blk, Block(start, end))
    ensures Touches(blk, start, end) ==>
      var m := Merge(blk, start, end);
      && lo <= m.start < m.end <= hi
      && (forall b :: m.Has(b) <==> blk.Has(b) || start <= b < end)
      && (forall c: Block :: Apart(c, blk) && Apart(c, Block(start, end)) && c.start < c.end ==> Apart(c, m))
  {
    LtExact(end, blk.start);
    LtExact(start, blk.end);
    LtExact(start, blk.start);
    LtExact(end, blk.end);
  }

  /** Absorbing keeps clear of any block that was clear of everything absorbed. */
  lemma {:induction false} AbsorbStaysApart(c: Block, blk: Block, rest: seq<Block>, lo: int, hi: int)
    requires hi - lo < HALF
    requires Separate(rest, lo, hi) && lo <= blk.start < blk.end <= hi
    requires c.start < c.end && Apart(c, blk) && forall i | 0 <= i < |rest| :: Apart(c, rest[i])
    ensures var (b, kept) := Absorb(blk, rest);
            Apart(c, b) && forall i | 0 <= i < |kept| :: Apart(c, kept[i])
    decreases |rest|
  {
    if rest != [] {
      MergeIsUnion(blk, rest[0].start, rest[0].end, lo, hi);
      if Touches(blk, rest[0].start, rest[0].end) {
        AbsorbStaysApart(c, Merge(blk, rest[0].start, rest[0].end), rest[1..], lo, hi);
      } else {
        AbsorbStaysApart(c, blk, rest[1..], lo, hi);
      }
    }
  }

  /** One pass is enough: what it keeps is apart from the block it grew. */
  lemma {:induction false} AbsorbSeparates(blk: Block, rest: seq<Block>, lo: int, hi: int)
    requires hi - lo < HALF
    requires Separate(rest, lo, hi) && lo <= blk.start < blk.end <= hi
    ensures
      var (b, kept) := Absorb(blk, rest);
      && Separate([b] + kept, lo, hi)
      && (forall x | blk.Has(x) :: b.Has(x))
      && (forall x :: Reports([b] + kept, x) <==> blk.Has(x) || Reports(rest, x))
    decreases |rest|
  {
    var (b, kept) := Absorb(blk, rest);
    if rest == [] {
      assert kept == [] && ([b] + kept)[1..] == [];
      ReportsCons([b] + kept);
    } else {
      var r0, tail := rest[0], rest[1..];
      MergeIsUnion(blk, r0.start, r0.end, lo, hi);
      ReportsCons(rest);
      if Touches(blk, r0.start, r0.end) {
        AbsorbSeparates(Merge(blk, r0.start, r0.end), tail, lo, hi);
      } else {
        AbsorbSeparates(blk, tail, lo, hi);
        AbsorbStaysApart(r0, blk, tail, lo, hi);
        InsertSecond(b, r0, kept[1..], lo, hi);
      }
    }
  }

  lemma ReportsCons(bs: seq<Block>)
    requires bs != []
    ensures forall x :: Reports(bs, x) <==> bs[0].Has(x) || Reports(bs[1..], x)
  {
    forall x ensures Reports(bs, x) <==> bs[0].Has(x) || Reports(bs[1..], x) {
      if Reports(bs[1..], x) {
        var i :| 0 <= i < |bs[1..]| && bs[1..][i].Has(x);
        assert bs[i + 1].Has(x);
      }
      if Reports(bs, x) && !bs[0].Has(x) {
        var i :| 0 <= i < |bs| && bs[i].Has(x);
        assert bs[1..][i - 1].Has(x);
      }
    }
  }

  lemma InsertSecond(b: Block, c: Block, kept: seq<Block>, lo: int, hi: int)
    requires Separate([b] + kept, lo, hi)
    requires lo <= c.start < c.end <= hi
    requires Apart(c, b) && forall i | 0 <= i < |kept| :: Apart(c, kept[i])
    ensures Separate([b] + ([c] + kept), lo, hi)
    ensures forall x :: Reports([b] + ([c] + kept), x) <==> Reports([b] + kept, x) || c.Has(x)
  {
    var l, r := [b] + kept, [b] + ([c] + kept);
    assert forall i | 0 <= i < |r| :: r[i] == if i == 0 then l[0] else if i == 1 then c else l[i - 1];
    assert forall i | 1 <= i < |l| :: l[i] == kept[i - 1];
    forall x ensures Reports(r, x) <==> Reports(l, x) || c.Has(x) {
      ReportsSecond(b, c, kept, x);
    }
  }

  lemma ReportsSecond(b: Block, c: Block, kept: seq<Block>, x: int)
    ensures Reports([b] + ([c] + kept), x) <==> Reports([b] + kept, x) || c.Has(x)
  {
    var l, r := [b] + kept, [b] + ([c] + kept);
    assert r[0] == l[0] && r[1] == c;
    if Reports(l, x) {
      var i :| 0 <= i < |l| && l[i].Has(x);
      assert r[if i == 0 then 0 else i + 1].Has(x);
    }
    if Reports(r, x) && !c.Has(x) {
      var i :| 0 <= i < |r| && r[i].Has(x);
      assert l[if i == 0 then 0 else i - 1].Has(x);
    }
  }

  /** The blocks without the oldest one of three. */
  function ButOldest(bs: seq<Block>): seq<Block> {
    bs[..if |bs| < MAX_BLOCKS then |bs| else 2]
  }

  /** Reporting [start, end): at most three separate blocks again, the first of which holds the
      new bytes, and no byte is reported that was not.  A byte stops being reported only when a
      fourth block pushes the oldest one out, and then only if it is in that one. */
  ghost predicate Updated(bs: seq<Block>, start: int, end: int, lo: int, hi: int, r: seq<Block>) {
    && 0 < |r| <= MAX_BLOCKS && Separate(r, lo, hi)
    && r[0].start <= start && end <= r[0].end
    && (forall b | Reports(r, b) :: Reports(bs, b) || start <= b < end)
    && (|bs| < MAX_BLOCKS || !AllApart(bs, start, end) ==> forall b | Reports(bs, b) :: Reports(r, b))
    && (forall b | Reports(ButOldest(bs), b) :: Reports(r, b))
  }

  predicate AllApart(bs: seq<Block>, start: int, end: int) {
    forall i | 0 <= i < |bs| :: Apart(bs[i], Block(start, end))
  }

  lemma JoinUpdates(bs: seq<Block>, i: nat, start: int, end: int, lo: int, hi: int)
    requires hi - lo < HALF
    requires |bs| <= MAX_BLOCKS && Separate(bs, lo, hi) && lo <= start < end <= hi
    requires i < |bs| && Touches(bs[i], start, end)
    ensures
      var (b, kept) := Absorb(Merge(bs[i], start, end), bs[i := bs[0]][1..]);
      Updated(bs, start, end, lo, hi, [b] + kept)
  {
    var m := Merge(bs[i], start, end);
    MergeIsUnion(bs[i], start, end, lo, hi);
    SwapOut(bs, i, lo, hi);
    AbsorbSeparates(m, bs[i := bs[0]][1..], lo, hi);
    assert m.Has(start) && m.Has(end - 1);
    ReportsPrefix(bs, |ButOldest(bs)|);
    hide Absorb;
    hide Merge;
    hide Reports;
    hide Touches;
  }

  lemma NewUpdates(bs: seq<Block>, start: int, end: int, lo: int, hi: int)
    requires |bs| <= MAX_BLOCKS && Separate(bs, lo, hi) && lo <= start < end <= hi && AllApart(bs, start, end)
    ensures Updated(bs, start, end, lo, hi, [Block(start, end)] + ButOldest(bs))
  {
    var r := [Block(start, end)] + ButOldest(bs);
    ReportsCons(r);
    assert r[1..] == ButOldest(bs);
    ReportsPrefix(bs, |ButOldest(bs)|);
    hide Reports;
  }

  /** What sack_update does to the blocks. */
  lemma UpdateExact(bs: seq<Block>, start: int, end: int, lo: int, hi: int)
    requires hi - lo < HALF
    requires |bs| <= MAX_BLOCKS && Separate(bs, lo, hi) && lo <= start < end <= hi
    ensures Updated(bs, start, end, lo, hi, Update(bs, start, end))
  {
    var i := FindTouch(bs, start, end);
    if i < |bs| {
      JoinUpdates(bs, i, start, end, lo, hi);
    } else {
      forall j | 0 <= j < |bs| ensures Apart(bs[j], Block(start, end)) {
        MergeIsUnion(bs[j], start, end, lo, hi);
      }
      NewUpdates(bs, start, end, lo, hi);
    }
  }

  lemma ReportsPrefix(bs: seq<Block>, n: nat)
    requires n <= |bs|
    ensures forall b | Reports(bs[..n], b) :: Reports(bs, b)
    ensures n == |bs| ==> bs[..n] == bs
  {
    forall b | Reports(bs[..n], b) ensures Reports(bs, b) {
      var j :| 0 <= j < n && bs[..n][j].Has(b);
      assert bs[j].Has(b);
    }
  }

  /** Moving block `i` to the front leaves the others separate. */
  lemma SwapOut(bs: seq<Block>, i: nat, lo: int, hi: int)
    requires Separate(bs, lo, hi) && i < |bs|
    ensures Separate(bs[i := bs[0]][1..], lo, hi)
    ensures forall b :: Reports(bs, b) <==> bs[i].Has(b) || Reports(bs[i := bs[0]][1..], b)
  {
    var r := bs[i := bs[0]][1..];
    assert forall j | 0 <= j < |r| :: r[j] == bs[if j + 1 == i then 0 else j + 1];
    forall b ensures Reports(bs, b) <==> bs[i].Has(b) || Reports(r, b) {
      if Reports(bs, b) {
        var j :| 0 <= j < |bs| && bs[j].Has(b);
        if j != i {
          assert r[if j == 0 then i - 1 else j - 1].Has(b);
        }
      }
    }
  }

  /** Regulating keeps exactly the blocks above `nxt`, in their order. */
  lemma {:induction false} RegulateExact(bs: seq<Block>, nxt: int, lo: int, hi: int)
    requires Separate(bs, lo, hi) && lo <= hi
    requires nxt - lo < HALF && hi - nxt < HALF
    ensures
      var r := Regulate(bs, nxt);
      && Separate(r, lo, hi)
      && (forall b: Block :: b in r <==> b in bs && nxt < b.start)
      && (bs != [] && nxt < bs[0].start ==> r != [] && r[0] == bs[0])
  {
    if bs != [] {
      var r, t := Regulate(bs, nxt), Regulate(bs[1..], nxt);
      LtExact(bs[0].start, nxt);
      RegulateExact(bs[1..], nxt, lo, hi);
      assert forall b: Block :: b in bs <==> b == bs[0] || b in bs[1..];
      if nxt < bs[0].start {
        forall i | 0 <= i < |t| ensures Apart(bs[0], t[i]) {
          assert t[i] in bs[1..];
        }
        assert forall b: Block :: b in r <==> b == bs[0] || b in t;
      }
    }
  }
}
