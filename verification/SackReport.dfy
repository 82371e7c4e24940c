/** The SACK blocks of a socket, kept in a fixed array that is edited in place
    (sack_merge, sack_try_merge_blocks, sack_update and sack_regulate of src/tcp/tcp_input.c). */
module SackReports {
  import opened SeqNum
  import S = SackSpec

  datatype Blk = Blk(start: u32, end: u32)

  function WrapBlock(b: S.Block): Blk {
    Blk(Wrap(b.start), Wrap(b.end))
  }

  /** The first cells of the array hold the given blocks, wrapped. */
  ghost predicate Stores(cells: seq<Blk>, bs: seq<S.Block>) {
    |bs| <= |cells| && forall i | 0 <= i < |bs| :: cells[i] == WrapBlock(bs[i])
  }

  class SackReport {
    const cells: array<Blk>
    var nr: nat

    /** The blocks with unbounded sequence numbers. */
    ghost var blocks: seq<S.Block>

    ghost predicate Valid()
      reads this, cells
    {
      cells.Length == S.MAX_BLOCKS && nr == |blocks| && Stores(cells[..], blocks)
    }

    constructor ()
      ensures Valid() && blocks == [] && fresh(cells)
    {
      cells := new Blk[S.MAX_BLOCKS](_ => Blk(0, 0));
      nr, blocks := 0, [];
    }

    /** sack_merge on the block of cell `i`, whose unbounded form is `blk`. */
    method MergeCell(i: nat, start: u32, end: u32, ghost blk: S.Block, ghost s: int, ghost e: int)
      returns (merged: bool, ghost blk': S.Block)
      requires i < cells.Length && cells[i] == WrapBlock(blk)
      requires start == Wrap(s) && end == Wrap(e)
      modifies cells
      ensures merged == S.Touches(blk, s, e)
      ensures blk' == if merged then S.Merge(blk, s, e) else blk
      ensures cells[..] == old(cells[..])[i := WrapBlock(blk')]
    {
      blk' := blk;
      var c := cells[i];
      if SeqLt(end, c.start) || SeqGt(start, c.end) {
        return false, blk';
      }
      if SeqLt(start, c.start) {
        c := c.(start := start);
      }
      if SeqGt(end, c.end) {
        c := c.(end := end);
      }
      cells[i] := c;
      blk' := S.Merge(blk, s, e);
      return true, blk';
    }

    /** sack_try_merge_blocks. */
    method TryMergeBlocks()
      requires Valid() && nr > 0
      modifies this`nr, this`blocks, cells
      ensures Valid()
      ensures blocks == var (b, kept) := S.Absorb(old(blocks)[0], old(blocks)[1..]); [b] + kept
    {
      hide S.Absorb;
      hide S.Touches;
      hide S.Merge;
      ghost var bs := blocks;
      ghost var cur, kept := bs[0], [];
      var n, i := 1, 1;
      assert bs[1..] == bs[i..];
      while i < nr
        invariant nr == |bs| && bs == old(blocks)
        invariant 1 <= n <= i <= nr
        invariant n == 1 + |kept|
        invariant Stores(cells[..], [cur] + kept)
        invariant forall k | i <= k < |bs| :: cells[k] == WrapBlock(bs[k])
        invariant S.Absorb(bs[0], bs[1..]).0 == S.Absorb(cur, bs[i..]).0
        invariant S.Absorb(bs[0], bs[1..]).1 == kept + S.Absorb(cur, bs[i..]).1
      {
        AbsorbOne(cur, bs, i);
        assert cells[0] == WrapBlock(([cur] + kept)[0]);
        var merged;
        ghost var old0 := cells[..];
        merged, cur := MergeCell(0, cells[i].start, cells[i].end, cur, bs[i].start, bs[i].end);
        if !merged {
          cells[n] := cells[i];
          n := n + 1;
          kept := kept + [bs[i]];
        }
        i := i + 1;
      }
      assert bs[i..] == [];
      AbsorbNone(cur);
      nr := n;
      blocks := [cur] + kept;
    }

    /** sack_update. */
    method Update(start: u32, end: u32, ghost s: int, ghost e: int)
      requires Valid() && start == Wrap(s) && end == Wrap(e)
      modifies this`nr, this`blocks, cells
      ensures Valid() && blocks == S.Update(old(blocks), s, e)
    {
      hide S.Absorb;
      hide S.Touches;
      hide S.Merge;
      ghost var bs := blocks;
      for i := 0 to nr
        invariant Valid() && blocks == bs && nr == |bs|
        invariant forall k | 0 <= k < i :: !S.Touches(bs[k], s, e)
      {
        var merged;
        ghost var m;
        merged, m := MergeCell(i, start, end, bs[i], s, e);
        if merged {
          FirstTouch(bs, i, s, e);
          cells[i], cells[0] := cells[0], cells[i];
          blocks := bs[i := bs[0]][0 := m];
          assert blocks[1..] == bs[i := bs[0]][1..];
          TryMergeBlocks();
          return;
        }
      }
      FirstTouch(bs, nr, s, e);
      var shift := if nr < S.MAX_BLOCKS then nr else S.MAX_BLOCKS - 1;
      Shift(shift);
      nr := shift + 1;
      cells[0] := Blk(start, end);
      blocks := [S.Block(s, e)] + bs[..shift];
    }

    /** The memmove of sack_update: the first `n` cells move up by one. */
    method Shift(n: nat)
      requires n < cells.Length == S.MAX_BLOCKS
      modifies cells
      ensures forall k | 0 <= k < n :: cells[k + 1] == old(cells[k])
    {
      if n == 2 {
        cells[2] := cells[1];
      }
      if n >= 1 {
        cells[1] := cells[0];
      }
    }

    /** sack_regulate. */
    method Regulate(nxt: u32, ghost x: int)
      requires Valid() && nxt == Wrap(x)
      modifies this`nr, this`blocks, cells
      ensures Valid() && blocks == S.Regulate(old(blocks), x)
    {
      hide S.Regulate;
      hide SeqGt;
      hide Wrap;
      ghost var bs := blocks;
      ghost var kept := [];
      var n, i := 0, 0;
      assert bs[0..] == bs;
      while i < nr
        invariant nr == |bs| && bs == old(blocks)
        invariant 0 <= n <= i <= nr && n == |kept|
        invariant Stores(cells[..], kept)
        invariant forall k | i <= k < |bs| :: cells[k] == WrapBlock(bs[k])
        invariant S.Regulate(bs, x) == kept + S.Regulate(bs[i..], x)
      {
        RegulateOne(bs, i, x);
        if SeqGt(cells[i].start, nxt) {
          cells[n] := cells[i];
          n := n + 1;
          kept := kept + [bs[i]];
        }
        i := i + 1;
      }
      assert bs[i..] == [];
      RegulateNone(x);
      nr := n;
      blocks := kept;
    }

    /** Forgetting all blocks. */
    method Clear()
      requires Valid()
      modifies this`nr, this`blocks
      ensures Valid() && blocks == []
    {
      nr, blocks := 0, [];
    }
  }

  lemma AbsorbOne(cur: S.Block, bs: seq<S.Block>, i: nat)
    requires i < |bs|
    ensures S.Absorb(cur, bs[i..]) ==
            if S.Touches(cur, bs[i].start, bs[i].end)
            then S.Absorb(S.Merge(cur, bs[i].start, bs[i].end), bs[i + 1..])
            else var (b, more) := S.Absorb(cur, bs[i + 1..]); (b, [bs[i]] + more)
  {
    assert bs[i..][1..] == bs[i + 1..];
  }

  lemma AbsorbNone(cur: S.Block)
    ensures S.Absorb(cur, []) == (cur, [])
  {
  }

  lemma RegulateOne(bs: seq<S.Block>, i: nat, x: int)
    requires i < |bs|
    ensures S.Regulate(bs[i..], x) ==
            if S.Gt(bs[i].start, x) then [bs[i]] + S.Regulate(bs[i + 1..], x) else S.Regulate(bs[i + 1..], x)
  {
    assert bs[i..][1..] == bs[i + 1..];
  }

  lemma RegulateNone(x: int)
    ensures S.Regulate([], x) == []
  {
  }

  /** The index the scan stops at is the first block that touches. */
  lemma FirstTouch(bs: seq<S.Block>, i: nat, s: int, e: int)
    requires i <= |bs| && (i < |bs| ==> S.Touches(bs[i], s, e))
    requires forall k | 0 <= k < i :: !S.Touches(bs[k], s, e)
    ensures S.FindTouch(bs, s, e) == i
  {
    hide S.Touches;
  }
}
