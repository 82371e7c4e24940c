/** Index arithmetic shared by the rings of include/tcp_queue.h: 16-bit indices that run
    freely and are masked only when a slot is addressed. */
module RingIndex {
  import opened SeqNum

  /** What tcp_rxq_init and tcp_txq_init assert, for a size a `uint16_t` can hold. */
  predicate RingSize(n: int) {
    n in {0, 1, 2, 4, 8, 16, 32, 64, 128, 256, 512, 1024, 2048, 4096, 8192, 16384, 32768}
  }

  /** `idx & mask`. */
  function Slot(idx: int, size: int): (s: nat)
    requires size > 0
    ensures s < size
  {
    idx % size
  }

  lemma MulAtLeast(k: int, n: int)
    requires k >= 1 && n > 0
    ensures k * n >= n
  {
    if k > 1 {
      MulAtLeast(k - 1, n);
      assert k * n == (k - 1) * n + n;
    }
  }

  lemma QuotientUnique(n: int, q: int, r: int, q': int, r': int)
    requires q * n + r == q' * n + r' && 0 <= r < n && 0 <= r' < n
    ensures q == q' && r == r'
  {
    assert (q - q') * n == q * n - q' * n;
    assert (q' - q) * n == q' * n - q * n;
    if q > q' {
      MulAtLeast(q - q', n);
    } else if q < q' {
      MulAtLeast(q' - q, n);
    }
  }

  lemma DivMod(x: int, n: int)
    requires n > 0
    ensures x == (x / n) * n + x % n && 0 <= x % n < n
  {
  }

  lemma DivModUnique(x: int, n: int, q: int, r: int)
    requires 0 <= r < n && x == q * n + r
    ensures x % n == r
  {
    DivMod(x, n);
    QuotientUnique(n, q, r, x / n, x % n);
  }

  /** Every ring size divides 2^16. */
  lemma Divides(size: int) returns (k: int)
    requires RingSize(size) && size > 0
    ensures k * size == M16
  {
    k :=
      if size == 1 then 65536 else if size == 2 then 32768 else if size == 4 then 16384
      else if size == 8 then 8192 else if size == 16 then 4096 else if size == 32 then 2048
      else if size == 64 then 1024 else if size == 128 then 512 else if size == 256 then 256
      else if size == 512 then 128 else if size == 1024 then 64 else if size == 2048 then 32
      else if size == 4096 then 16 else if size == 8192 then 8 else if size == 16384 then 4 else 2;
  }

  /** Wrapping an index to 16 bits does not change its slot. */
  lemma SlotWrap(x: int, size: int)
    requires RingSize(size) && size > 0
    ensures Slot(Wrap16(x), size) == Slot(x, size)
  {
    hide RingSize;
    var k := Divides(size);
    var q, y := x / M16, Wrap16(x);
    DivMod(y, size);
    assert q * (k * size) == (q * k) * size;
    assert (q * k + y / size) * size == (q * k) * size + (y / size) * size;
    DivModUnique(x, size, q * k + y / size, y % size);
  }

  /** Slots of a window no longer than the ring are distinct. */
  lemma SlotDistinct(base: int, i: int, j: int, size: int)
    requires size > 0 && 0 <= i < j < i + size
    ensures Slot(base + i, size) != Slot(base + j, size)
  {
    var a, b := base + i, base + j;
    DivMod(a, size);
    DivMod(b, size);
    if a % size == b % size {
      var k := b / size - a / size;
      assert k * size == (b / size) * size - (a / size) * size == j - i;
      if k >= 1 {
        MulAtLeast(k, size);
      }
    }
  }

  /** An index and an offset, both wrapped, address the slot of their sum. */
  lemma SlotAt(x: int, i: int, size: int)
    requires RingSize(size) && size > 0
    ensures Slot(Wrap16(x) + i, size) == Slot(x + i, size)
  {
    hide RingSize;
    hide Slot;
    SlotWrap(Wrap16(x) + i, size);
    SlotWrap(x + i, size);
    WrapAdd16(x, i);
  }

  /** The slots from `base` on hold `items`. */
  ghost predicate Stored<T>(slots: seq<T>, base: int, items: seq<T>) {
    && |items| <= |slots|
    && (forall i | 0 <= i < |items| :: slots[Slot(base + i, |slots|)] == items[i])
  }

  lemma StoreNext<T>(slots: seq<T>, base: int, items: seq<T>, x: T)
    requires Stored(slots, base, items) && |items| < |slots|
    ensures Stored(slots[Slot(base + |items|, |slots|) := x], base, items + [x])
  {
    hide Slot;
    var n := |items|;
    var slots' := slots[Slot(base + n, |slots|) := x];
    forall i | 0 <= i < n + 1 ensures slots'[Slot(base + i, |slots'|)] == (items + [x])[i] {
      if i < n {
        SlotDistinct(base, i, n, |slots|);
      }
    }
  }

  lemma DropStored<T>(slots: seq<T>, base: int, items: seq<T>, n: nat)
    requires Stored(slots, base, items) && n <= |items| && RingSize(|slots|)
    ensures Stored(slots, Wrap16(base + n), items[n..])
  {
    hide RingSize;
    hide Slot;
    hide Wrap16;
    forall i | 0 <= i < |items| - n
      ensures slots[Slot(Wrap16(base + n) + i, |slots|)] == items[n..][i]
    {
      SlotAt(base + n, i, |slots|);
      assert items[n..][i] == items[n + i];
    }
  }
}

/** The rx ring of include/tcp_queue.h. */
module RxRings {
  import opened SeqNum
  import opened Seqs
  import opened RingIndex

  class RxRing<T(0)> {
    const size: u16
    const objs: array<T>
    var unread: u16
    var max: u16

    /** What is queued, oldest first. */
    ghost var items: seq<T>

    ghost predicate Valid()
      reads this, objs
    {
      && RingSize(size) && objs.Length == size
      && Stored(objs[..], unread, items)
      && max == Wrap16(unread + |items|)
    }

    constructor (size: u16)
      requires RingSize(size)
      ensures Valid() && items == [] && this.size == size && fresh(objs)
    {
      this.size := size;
      objs := new T[size];
      unread, max, items := 0, 0, [];
    }

    lemma CountBound()
      requires Valid()
      ensures |items| <= 32768
    {
      hide Slot;
    }

    /** tcp_rxq_readable_count. */
    method ReadableCount() returns (n: u16)
      requires Valid()
      ensures n == |items|
    {
      hide Slot;
      assert |items| <= 32768;
      WrapDiff16(unread + |items|, unread);
      n := Wrap16(max - unread);
    }

    /** tcp_rxq_free_count. */
    method FreeCount() returns (n: u16)
      requires Valid()
      ensures n == size - |items|
    {
      hide Slot;
      hide RingSize;
      var used := ReadableCount();
      n := Wrap16(size - used);
    }

    /** tcp_rxq_enqueue_burst: as many as fit. */
    method EnqueueBurst(xs: seq<T>) returns (n: u16)
      requires Valid() && |xs| < M16
      modifies this`max, this`items, objs
      ensures Valid()
      ensures n == if |xs| <= size - |old(items)| then |xs| else size - |old(items)|
      ensures items == old(items) + xs[..n]
    {
      hide Slot;
      hide RingSize;
      hide Stored;
      var room := FreeCount();
      n := if room <= |xs| then room else |xs|;
      ghost var first := unread + |items|;
      for i := 0 to n
        invariant max == old(max)
        invariant items == old(items) + xs[..i]
        invariant Stored(objs[..], unread, items)
      {
        SlotAt(first, i, size);
        StoreNext(objs[..], unread, items, xs[i]);
        var k := Slot(max + i, size);
        ghost var before := objs[..];
        objs[k] := xs[i];
        items := items + [xs[i]];
        assert objs[..] == before[k := xs[i]];
        assert xs[..i] + [xs[i]] == xs[..i + 1];
      }
      WrapAdd16(first, n);
      max := Wrap16(max + n);
    }

    /** tcp_rxq_peek_unread. */
    method PeekUnread(off: u16) returns (r: Option<T>)
      requires Valid()
      ensures r == if off < |items| then Some(items[off]) else None
    {
      hide RingSize;
      var n := ReadableCount();
      if off >= n {
        return None;
      }
      return Some(objs[Slot(unread + off, size)]);
    }

    /** tcp_rxq_update_unread. */
    method UpdateUnread(count: u16)
      requires Valid() && count <= |items|
      modifies this`unread, this`items
      ensures Valid() && items == old(items)[count..]
    {
      hide Slot;
      hide RingSize;
      hide Stored;
      DropStored(objs[..], unread, items, count);
      WrapAdd16(unread + count, |items| - count);
      unread := Wrap16(unread + count);
      items := items[count..];
    }
  }
}
