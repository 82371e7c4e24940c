/** The out-of-order queue as a value: a sequence of segments ordered by sequence number
    (tcp_rcv_data_ooo and ooo_queue_insert of src/tcp/tcp_input.c). */
module OooQueue {
  import opened Chains

  /** A segment: the unbounded sequence number of its first byte, and its payload. */
  datatype Seg = Seg(start: int, chain: Chain) {
    ghost function Len(): nat { |Bytes(chain)| }

    ghost function End(): int { start + Len() }

    ghost predicate Has(b: int) { start <= b < End() }
  }

  ghost function CutHead(g: Seg, n: nat): (r: Seg)
    requires n <= g.Len()
    ensures r.End() == g.End() && r.Len() == g.Len() - n
    ensures Bytes(r.chain) == Bytes(g.chain)[n..]
  {
    DropBytesIsDrop(g.chain, n);
    Seg(g.start + n, DropBytes(g.chain, n))
  }

  ghost function CutTail(g: Seg, n: nat): (r: Seg)
    requires n <= g.Len()
    ensures r.start == g.start && r.Len() == g.Len() - n
    ensures Bytes(r.chain) == Bytes(g.chain)[..g.Len() - n]
  {
    TakeBytesIsTake(g.chain, g.Len() - n);
    Seg(g.start, TakeBytes(g.chain, g.Len() - n))
  }

  /** Ordered, pairwise disjoint, and no entry empty. */
  ghost predicate Sorted(q: seq<Seg>) {
    && (forall i | 0 <= i < |q| :: q[i].Len() > 0)
    && (forall i, j | 0 <= i < j < |q| :: q[i].End() <= q[j].start)
  }

  ghost predicate Covers(q: seq<Seg>, b: int) {
    exists i | 0 <= i < |q| :: q[i].Has(b)
  }

  ghost predicate Within(q: seq<Seg>, lo: int, hi: int) {
    forall i | 0 <= i < |q| :: lo <= q[i].start && q[i].End() <= hi
  }

  /** How many entries of the queue start at or before `at`: the scan for the insert position. */
  ghost function Position(q: seq<Seg>, at: int): (k: nat)
    ensures k <= |q|
    ensures forall i | 0 <= i < k :: q[i].start <= at
    ensures k < |q| ==> q[k].start > at
  {
    if q == [] || q[0].start > at then 0
    else
      var k := Position(q[1..], at);
      assert forall i | 1 <= i < k + 1 :: q[i] == q[1..][i - 1];
      k + 1
  }

  ghost function Remove(q: seq<Seg>, k: nat): seq<Seg>
    requires k < |q|
  {
    q[..k] + q[k + 1..]
  }

  ghost function InsertAt(q: seq<Seg>, k: nat, g: Seg): seq<Seg>
    requires k <= |q|
  {
    q[..k] + [g] + q[k..]
  }

  /** Drops the entries from index `k` on that `g` covers entirely, and cuts the tail of `g`
      where it runs into the first entry that it does not cover. */
  ghost function Trim(q: seq<Seg>, k: nat, g: Seg): (r: (seq<Seg>, Seg))
    requires k <= |q|
    requires k < |q| ==> g.start <= q[k].start
    requires Sorted(q)
    decreases |q| - k
  {
    if k < |q| && g.End() > q[k].start then
      if g.End() - q[k].start < q[k].Len() then
        (q, CutTail(g, g.End() - q[k].start))
      else
        SortedRemove(q, k);
        Trim(Remove(q, k), k, g)
    else
      (q, g)
  }

  lemma SortedRemove(q: seq<Seg>, k: nat)
    requires Sorted(q) && k < |q|
    ensures Sorted(Remove(q, k))
    ensures k + 1 < |q| ==> q[k].start < q[k + 1].start
    ensures forall lo, hi | Within(q, lo, hi) :: Within(Remove(q, k), lo, hi)
  {
    hide Bytes;
    var r := Remove(q, k);
    assert forall i | 0 <= i < |r| :: r[i] == if i < k then q[i] else q[i + 1];
  }

  lemma CoversRemove(q: seq<Seg>, k: nat, b: int)
    requires k < |q|
    ensures Covers(q, b) <==> Covers(Remove(q, k), b) || q[k].Has(b)
  {
    hide Bytes;
    var r := Remove(q, k);
    if Covers(q, b) {
      var i :| 0 <= i < |q| && q[i].Has(b);
      if i != k {
        assert r[if i < k then i else i - 1].Has(b);
      }
    }
    if Covers(r, b) {
      var i :| 0 <= i < |r| && r[i].Has(b);
      assert q[if i < k then i else i + 1].Has(b);
    }
  }

  lemma CoversInsert(q: seq<Seg>, k: nat, g: Seg, b: int)
    requires k <= |q|
    ensures Covers(InsertAt(q, k, g), b) <==> Covers(q, b) || g.Has(b)
  {
    var r := InsertAt(q, k, g);
    assert r[k] == g;
    assert Remove(r, k) == q;
    CoversRemove(r, k, b);
  }

  lemma SortedInsert(q: seq<Seg>, k: nat, g: Seg)
    requires Sorted(q) && k <= |q| && g.Len() > 0
    requires k > 0 ==> q[k - 1].End() <= g.start
    requires k < |q| ==> g.End() <= q[k].start
    ensures Sorted(InsertAt(q, k, g))
  {
    hide Bytes;
    var r := InsertAt(q, k, g);
    assert forall i | 0 <= i < |r| :: r[i] == if i < k then q[i] else if i == k then g else q[i - 1];
    forall i, j | 0 <= i < j < |r| ensures r[i].End() <= r[j].start {
      if i == k {
        assert k < |q| && q[k].start <= r[j].start;
      } else if j == k {
        assert q[i].End() <= q[k - 1].End();
      }
    }
  }

  lemma WithinInsert(q: seq<Seg>, k: nat, g: Seg, lo: int, hi: int)
    requires Within(q, lo, hi) && k <= |q| && lo <= g.start && g.End() <= hi
    ensures Within(InsertAt(q, k, g), lo, hi)
  {
    hide Bytes;
    var r := InsertAt(q, k, g);
    assert forall i | 0 <= i < |r| :: r[i] == if i < k then q[i] else if i == k then g else q[i - 1];
  }

  /** Trimming loses no byte and makes none up. */
  lemma {:induction false} TrimKeepsBytes(q: seq<Seg>, k: nat, g: Seg)
    requires k <= |q| && Sorted(q)
    requires k < |q| ==> g.start <= q[k].start
    ensures
      var (q', g') := Trim(q, k, g);
      && Sorted(q') && k <= |q'| <= |q| && q'[..k] == q[..k]
      && g'.start == g.start && g'.End() <= g.End()
      && Bytes(g'.chain) == Bytes(g.chain)[..g'.Len()]
      && (k < |q'| ==> g'.End() <= q'[k].start)
      && (forall lo, hi | Within(q, lo, hi) :: Within(q', lo, hi))
      && (forall b :: Covers(q', b) || g'.Has(b) <==> Covers(q, b) || g.Has(b))
    decreases |q| - k
  {
    var (q', g') := Trim(q, k, g);
    if k < |q| && g.End() > q[k].start {
      if g.End() - q[k].start < q[k].Len() {
        forall b ensures Covers(q', b) || g'.Has(b) <==> Covers(q, b) || g.Has(b) {
          if g.Has(b) && !g'.Has(b) {
            assert q[k].Has(b);
          }
        }
      } else {
        SortedRemove(q, k);
        TrimKeepsBytes(Remove(q, k), k, g);
        assert Remove(q, k)[..k] == q[..k];
        forall b ensures Covers(q', b) || g'.Has(b) <==> Covers(q, b) || g.Has(b) {
          CoversRemove(q, k, b);
          if q[k].Has(b) {
            assert g.Has(b);
          }
        }
      }
    }
  }

  /** A queue entry that starts where another one does is that entry. */
  lemma CoversFirst(q: seq<Seg>, lo: int, hi: int)
    requires Sorted(q) && Within(q, lo, hi)
    ensures Covers(q, lo) <==> q != [] && q[0].start == lo
  {
    if Covers(q, lo) {
      var i :| 0 <= i < |q| && q[i].Has(lo);
      assert q[0].start == lo;
    }
    if q != [] && q[0].start == lo {
      assert q[0].Has(lo);
    }
  }
}
