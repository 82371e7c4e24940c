/** The tx ring of include/tcp_queue.h: three 16-bit indices over one array.  A write in progress
    fills slots behind `write` before it is committed. */
module TxRings {
  import opened SeqNum
  import opened Seqs
  import opened RingIndex
  import opened TxQueue

  class TxRing<T(0)> {
    const size: u16
    const slots: array<T>
    var una: u16
    var nxt: u16
    var write: u16

    /** What is queued from `una` on, how much of it lies before `nxt`, and what a write in
        progress has filled in behind. */
    ghost var items: seq<T>
    ghost var sent: nat
    ghost var staged: seq<T>

    ghost predicate Valid()
      reads this, slots
    {
      && RingSize(size) && slots.Length == size
      && Stored(slots[..], una, items + staged)
      && sent <= |items| && nxt == Wrap16(una + sent) && write == Wrap16(una + |items|)
    }

    constructor (size: u16)
      requires RingSize(size)
      ensures Valid() && items == [] && staged == [] && sent == 0 && una == 0 && this.size == size && fresh(slots)
    {
      this.size := size;
      slots := new T[size];
      una, nxt, write := 0, 0, 0;
      items, sent, staged := [], 0, [];
    }

    lemma Bounds()
      requires Valid()
      ensures |items| + |staged| <= size <= 32768
    {
      hide Slot;
    }

    /** tcp_txq_inflight_pkts. */
    method InflightPkts() returns (n: u16)
      requires Valid()
      ensures n == sent
    {
      Bounds();
      hide Stored;
      WrapDiff16(una + sent, una);
      n := Wrap16(nxt - una);
    }

    /** tcp_txq_to_send_pkts. */
    method ToSendPkts() returns (n: u16)
      requires Valid()
      ensures n == |items| - sent
    {
      Bounds();
      hide Stored;
      WrapDiff16(una + |items|, una + sent);
      n := Wrap16(write - nxt);
    }

    /** tcp_txq_unfinished_pkts. */
    method UnfinishedPkts() returns (n: nat)
      requires Valid()
      ensures n == |items|
    {
      Bounds();
      hide Stored;
      var inflight := InflightPkts();
      var toSend := ToSendPkts();
      n := inflight + toSend;
    }

    /** tcp_txq_free_count. */
    method FreeCount() returns (n: u16)
      requires Valid()
      ensures n == size - |items|
    {
      Bounds();
      hide Stored;
      var used := UnfinishedPkts();
      n := Wrap16(size - used);
    }

    /** tcp_txq_peek_for_write, from `base`, which stands `b` places behind `una`. */
    method PeekForWrite(base: u16, off: u16, ghost b: nat) returns (r: Option<T>)
      requires Valid() && b <= |items| && base == Wrap16(una + b)
      ensures r == if b + off < |items| then Some(items[b + off]) else None
    {
      Bounds();
      hide RingSize;
      hide Slot;
      WrapDiff16(una + |items|, una + b);
      if off >= Wrap16(write - base) {
        return None;
      }
      SlotAt(una + b, off, size);
      assert items[b + off] == (items + staged)[b + off];
      return Some(slots[Slot(base + off, size)]);
    }

    /** tcp_txq_update_una. */
    method UpdateUna(count: u16)
      requires Valid() && count <= sent && staged == []
      modifies this`una, this`items, this`sent
      ensures Valid() && items == old(items)[count..] && una == Wrap16(old(una) + count)
      ensures sent == old(sent) - count
    {
      hide RingSize;
      hide Stored;
      hide Slot;
      assert items + staged == items;
      DropStored(slots[..], una, items, count);
      WrapAdd16(una + count, |items| - count);
      WrapAdd16(una + count, sent - count);
      una := Wrap16(una + count);
      items, sent := items[count..], sent - count;
      assert items + staged == items;
    }

    /** The end of ack_sent_data: `nxt` is pushed along if it has to be, then `una` moves. */
    method Acked(count: u16)
      requires Valid() && count <= |items| && staged == []
      modifies this`una, this`nxt, this`items, this`sent
      ensures Valid() && items == old(items)[count..] && una == Wrap16(old(una) + count)
      ensures sent == if old(sent) < count then 0 else old(sent) - count
    {
      hide RingSize;
      hide Stored;
      var inflight := InflightPkts();
      if inflight < count {
        nxt := Wrap16(una + count);
        sent := count;
      }
      UpdateUna(count);
    }

    /** tcp_txq_update_nxt. */
    method UpdateNxt(count: u16)
      requires Valid() && sent + count <= |items|
      modifies this`nxt, this`sent
      ensures Valid() && sent == old(sent) + count
    {
      hide RingSize;
      hide Stored;
      WrapAdd16(una + sent, count);
      nxt := Wrap16(nxt + count);
      sent := sent + count;
    }

    /** Filling the next slot behind the `n` a write in progress has filled. */
    method Stage(n: u16, x: T)
      requires Valid() && n == |staged| && |items| + n < size
      modifies this`staged, slots
      ensures Valid() && staged == old(staged) + [x]
    {
      hide RingSize;
      hide Slot;
      ghost var all, before := items + staged, slots[..];
      SlotAt(una + |items|, n, size);
      StoreNext(before, una, all, x);
      var k := Slot(write + n, size);
      slots[k] := x;
      staged := staged + [x];
      hide Stored;
      assert slots[..] == before[k := x];
      assert items + staged == all + [x];
    }

    /** The slot a write in progress filled as number `i`. */
    method Staged(i: u16) returns (x: T)
      requires Valid() && i < |staged|
      ensures x == staged[i]
    {
      Bounds();
      hide RingSize;
      hide Slot;
      SlotAt(una + |items|, i, size);
      assert staged[i] == (items + staged)[|items| + i];
      x := slots[Slot(write + i, size)];
    }

    /** write_commit. */
    method Commit(n: u16)
      requires Valid() && n == |staged|
      modifies this`write, this`items, this`staged
      ensures Valid() && items == old(items) + old(staged) && staged == []
    {
      hide RingSize;
      hide Stored;
      WrapAdd16(una + |items|, n);
      write := Wrap16(write + n);
      items, staged := items + staged, [];
      assert items + [] == items;
    }

    /** Giving up a write in progress: the slots behind `write` are free again. */
    ghost method Forget()
      requires Valid()
      modifies this`staged
      ensures Valid() && staged == []
    {
      hide RingSize;
      hide Slot;
      assert forall i | 0 <= i < |items| :: (items + staged)[i] == items[i];
      staged := [];
      assert items + [] == items;
    }
  }
}
