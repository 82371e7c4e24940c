/** Descriptors and the stack they are allocated from (include/tx_desc.h). */
module TxDescs {
  import opened SeqNum
  import opened Seqs
  import opened Chains
  import opened TxQueue

  class TxDesc {
    var start: u32
    var data: seq<byte>
    var sacked: bool
    var done: Option<nat>

    constructor () {
      start, data, sacked, done := 0, [], false, None;
    }
  }

  /** The descriptor stands for the value. */
  ghost predicate Holds(d: TxDesc?, v: Desc)
    reads d
  {
    d != null && d.start == Wrap(v.start) && d.data == v.data && d.sacked == v.sacked && d.done == v.done
  }

  /** The descriptors stand for the values, one by one. */
  ghost predicate HoldAll(ds: seq<TxDesc?>, vs: seq<Desc>)
    reads ds
  {
    |ds| == |vs| && forall i | 0 <= i < |ds| :: Holds(ds[i], vs[i])
  }

  class DescPool {
    const descs: array<TxDesc?>
    var off: nat

    /** The free descriptors; the top of the stack comes last. */
    ghost var free: seq<TxDesc>

    ghost predicate Valid()
      reads this, descs
    {
      && off == |free| <= descs.Length
      && (forall i | 0 <= i < off :: descs[i] == free[i])
    }

    /** tx_desc_alloc. */
    method Alloc() returns (d: TxDesc?)
      requires Valid()
      modifies this`off, this`free
      ensures Valid()
      ensures d == null <==> old(free) == []
      ensures if d == null then free == [] else old(free) == free + [d]
    {
      if off == 0 {
        return null;
      }
      off := off - 1;
      free := free[..off];
      d := descs[off];
    }

    /** tx_desc_free. */
    method Free(d: TxDesc)
      requires Valid() && off < descs.Length
      modifies this`off, this`free, descs
      ensures Valid() && free == old(free) + [d]
    {
      descs[off] := d;
      off := off + 1;
      free := free + [d];
    }

    /** tx_desc_pool_create. */
    constructor (nr: nat)
      ensures Valid() && |free| == nr == descs.Length && fresh(descs)
      ensures forall i | 0 <= i < nr :: fresh(free[i])
      ensures forall i, j | 0 <= i < j < nr :: free[i] != free[j]
    {
      descs := new TxDesc?[nr];
      off := 0;
      free := [];
      new;
      for k := 0 to nr
        invariant Valid() && |free| == k && fresh(descs)
        invariant forall i | 0 <= i < k :: fresh(free[i])
        invariant forall i, j | 0 <= i < j < k :: free[i] != free[j]
      {
        var d := new TxDesc();
        Free(d);
      }
    }
  }
}
