/** The queue of include/flex_fifo.h: a bounded ring in front of an unbounded list.  A field of the
    node says where it is: 0 nowhere, 1 to RING_MAX_SIZE a place in the ring, more an address that
    the list put there. */
module FlexFifo {
  import opened SeqNum
  import opened Seqs
  import opened RingIndex

  const RING_MAX_SIZE := 0x1_0000

  /** What flex_fifo_create accepts. */
  predicate FifoSize(n: int) { RingSize(n) || n == RING_MAX_SIZE }

  /** Every size divides 2^32. */
  lemma Divides32(size: int) returns (m: int)
    requires FifoSize(size) && size > 0
    ensures m * size == M32
  {
    var k := 1;
    if size != RING_MAX_SIZE {
      k := Divides(size);
    }
    hide RingSize;
    m := k * M16;
    assert m * size == M16 * (k * size);
  }

  lemma Regroup(q: int, m: int, size: int, d: int)
    ensures (q * m + d) * size == q * (m * size) + d * size
  {
    assert q * (m * size) == (q * m) * size;
  }

  /** Wrapping an index to 32 bits does not change its slot. */
  lemma SlotWrap32(x: int, size: int)
    requires FifoSize(size) && size > 0
    ensures Slot(Wrap(x), size) == Slot(x, size)
  {
    var m := Divides32(size);
    hide FifoSize;
    var q, y := x / M32, Wrap(x);
    DivMod(x, M32);
    DivMod(y, size);
    Regroup(q, m, size, y / size);
    DivModUnique(x, size, q * m + y / size, y % size);
  }

  class Node {
    var tag: nat

    /** FLEX_FIFO_NODE_INIT. */
    constructor ()
      ensures tag == 0
    {
      tag := 0;
    }
  }

  predicate InRing(tag: nat) { 0 < tag < RING_MAX_SIZE + 1 }

  predicate InList(tag: nat) { tag > RING_MAX_SIZE + 1 }

  class Fifo {
    const size: nat
    const ring: array<Node?>
    var read: u32
    var write: u32
    var list: seq<Node>
    var listSize: nat

    /** `read` unbounded, what the ring holds, and the nodes that are used with this queue. */
    ghost var r: int
    ghost var front: seq<Node>
    ghost var nodes: set<Node>

    /** What is queued, oldest first. */
    ghost function Contents(): seq<Node>
      reads this
    {
      front + list
    }

    ghost predicate RingOk()
      reads this, ring, nodes
    {
      && FifoSize(size) && ring.Length == size && Stored(ring[..], r, front)
      && read == Wrap(r) && write == Wrap(r + |front|)
      && (forall i | 0 <= i < |front| :: front[i] in nodes && front[i].tag == Slot(r + i, size) + 1)
    }

    ghost predicate ListOk()
      reads this, nodes
    {
      listSize == |list| && forall n | n in list :: n in nodes && InList(n.tag)
    }

    /** No node is queued twice, and the tag tells where each node is. */
    ghost predicate Valid()
      reads this, ring, nodes
    {
      && RingOk() && ListOk() && Distinct(Contents())
      && (forall n | n in nodes && n !in front && n !in list :: n.tag == 0)
    }

    /** flex_fifo_create. */
    constructor (size: nat)
      requires FifoSize(size)
      ensures Valid() && Contents() == [] && nodes == {} && fresh(ring)
    {
      this.size := size;
      ring := new Node?[size](_ => null);
      read, write, list, listSize := 0, 0, [], 0;
      r, front, nodes := 0, [], {};
    }

    /** The tag of a node tells where it is. */
    lemma TagTells(n: Node)
      requires Valid() && n in nodes
      ensures InRing(n.tag) <==> n in front
      ensures InList(n.tag) <==> n in list
      ensures n.tag == 0 <==> n !in Contents()
    {
      hide Slot;
      hide Distinct;
    }

    /** flex_fifo_ring_count. */
    method RingCount() returns (n: u32)
      requires RingOk()
      ensures n == |front|
    {
      hide Slot;
      WrapDiff(r + |front|, r);
      n := Wrap(write - read);
    }

    /** flex_fifo_count. */
    method Count() returns (n: nat)
      requires Valid()
      ensures n == |Contents()|
    {
      var k := RingCount();
      n := k + listSize;
    }

    /** _ff_do_ring_push. */
    method DoRingPush(n: Node)
      requires Valid() && n in nodes && n !in Contents() && |front| < size
      modifies this`write, this`front, ring, n`tag
      ensures Valid() && front == old(front) + [n]
    {
      hide Slot;
      hide RingSize;
      hide Distinct;
      SlotWrap32(r + |front|, size);
      StoreNext(ring[..], r, front, n);
      DistinctInsert(front, n, list);
      WrapAdd(r + |front|, 1);
      hide Stored;
      var k := Slot(write, size);
      ghost var before := ring[..];
      ring[k] := n;
      assert ring[..] == before[k := n];
      n.tag := k + 1;
      write := Wrap(write + 1);
      front := front + [n];
    }

    /** _ff_ring_push. */
    method RingPush(n: Node) returns (ok: bool)
      requires Valid() && n in nodes && n !in Contents()
      modifies this`write, this`front, ring, n`tag
      ensures Valid() && ok == (list == [] && |old(front)| < size)
      ensures front == if ok then old(front) + [n] else old(front)
    {
      hide Slot;
      hide RingSize;
      hide Distinct;
      var count := RingCount();
      if |list| != 0 || size - count == 0 {
        return false;
      }
      RingFits();
      DoRingPush(n);
      return true;
    }

    lemma RingFits()
      requires RingOk()
      ensures |front| <= size <= RING_MAX_SIZE
    {
      hide Slot;
    }

    /** _ff_ring_pop. */
    method RingPop() returns (n: Node?)
      requires Valid()
      modifies this`read, this`r, this`front, nodes
      ensures Valid()
      ensures if old(front) == [] then n == null && front == [] else n == old(front)[0] && front == old(front)[1..]
      ensures n != null ==> n in nodes && n !in Contents()
      ensures forall m | m in nodes && m != n :: m.tag == old(m.tag)
    {
      hide RingSize;
      hide Slot;
      hide Stored;
      hide Distinct;
      RingFits();
      WrapInjective(r + |front|, r);
      if read == write {
        return null;
      }
      SlotWrap32(r, size);
      FirstStored(ring[..], r, front);
      n := ring[Slot(read, size)];
      StoredTail(ring[..], r, front);
      DistinctTail(front, list);
      WrapAdd(r, 1);
      read := Wrap(read + 1);
      n.tag := 0;
      r, front := r + 1, front[1..];
    }

    /** _ff_ring_remove: the others keep their order. */
    method RingRemove(n: Node) returns (ok: bool)
      requires Valid() && n in nodes
      modifies this`read, this`write, this`r, this`front, ring, nodes
      ensures Valid() && ok == (n in old(front)) && front == Without(old(front), n)
    {
      hide Without;
      hide Distinct;
      hide RingOk;
      hide ListOk;
      TagTells(n);
      if !InRing(n.tag) {
        WithoutAbsent(front, n);
        return false;
      }
      ghost var all := front;
      FrontDistinct();
      RingFits();
      var count := RingCount();
      RotateStart(all, n);
      for i := 0 to count
        invariant Valid() && front == Rotated(all, n, i) && |all| == count
      {
        RotateTurn(all, n, i);
        var curr := RingPop();
        if curr == n {
          continue;
        }
        DoRingPush(curr);
      }
      RotateEnd(all, n);
      return true;
    }

    lemma FrontDistinct()
      requires Valid()
      ensures Distinct(front) && |front| <= size
    {
      hide Slot;
      var all := Contents();
      assert forall i | 0 <= i < |front| :: front[i] == all[i];
    }

    // ---- the list

    /** _ff_list_push; `addr` is the address TAILQ_INSERT_TAIL leaves in the node. */
    method ListPush(n: Node, addr: nat)
      requires Valid() && n in nodes && n !in Contents() && InList(addr)
      modifies this`list, this`listSize, n`tag
      ensures Valid() && list == old(list) + [n]
    {
      hide Slot;
      hide Stored;
      hide RingSize;
      hide Distinct;
      DistinctAppend(Contents(), n);
      list := list + [n];
      n.tag := addr;
      listSize := listSize + 1;
      assert Contents() == old(Contents()) + [n];
    }

    /** _ff_do_list_remove: TAILQ_REMOVE hands the address in the node on to the node behind it. */
    method DoListRemove(n: Node)
      requires Valid() && n in nodes && n in list
      modifies this`list, this`listSize, nodes
      ensures Valid() && list == Without(old(list), n)
    {
      hide Slot;
      hide Stored;
      hide RingSize;
      hide Distinct;
      hide Without;
      ListDistinct(front, list, n);
      var i :| 0 <= i < |list| && list[i] == n;
      if i + 1 < |list| {
        list[i + 1].tag := n.tag;
      }
      list := Without(list, n);
      n.tag := 0;
      listSize := listSize - 1;
    }

    /** _ff_list_pop. */
    method ListPop() returns (n: Node?)
      requires Valid()
      modifies this`list, this`listSize, nodes
      ensures Valid()
      ensures if old(list) == [] then n == null && list == [] else n == old(list)[0] && list == old(list)[1..]
    {
      hide RingOk;
      hide Distinct;
      if |list| == 0 {
        return null;
      }
      n := list[0];
      assert n in list;
      DoListRemove(n);
    }

    /** _ff_list_remove. */
    method ListRemove(n: Node) returns (ok: bool)
      requires Valid() && n in nodes
      modifies this`list, this`listSize, nodes
      ensures Valid() && ok == (n in old(list)) && list == Without(old(list), n)
    {
      hide RingOk;
      hide Distinct;
      hide Without;
      TagTells(n);
      if !InList(n.tag) {
        WithoutAbsent(list, n);
        return false;
      }
      DoListRemove(n);
      return true;
    }

    // ---- both together

    /** flex_fifo_push. */
    method Push(n: Node, addr: nat)
      requires Valid() && n in nodes && n !in Contents() && InList(addr)
      modifies this`write, this`front, this`list, this`listSize, ring, n`tag
      ensures Valid() && Contents() == old(Contents()) + [n]
    {
      hide RingOk;
      hide ListOk;
      hide Distinct;
      var ok := RingPush(n);
      if !ok {
        ListPush(n, addr);
      }
    }

    /** flex_fifo_push_if_not_exist. */
    method PushIfNotExist(n: Node, addr: nat)
      requires Valid() && n in nodes && InList(addr)
      modifies this`write, this`front, this`list, this`listSize, ring, n`tag
      ensures Valid() && Contents() == if n in old(Contents()) then old(Contents()) else old(Contents()) + [n]
    {
      hide RingOk;
      hide ListOk;
      hide Distinct;
      TagTells(n);
      if n.tag != 0 {
        return;
      }
      Push(n, addr);
    }

    /** flex_fifo_pop. */
    method Pop() returns (n: Node?)
      requires Valid()
      modifies this`read, this`r, this`front, this`list, this`listSize, nodes
      ensures Valid()
      ensures if old(Contents()) == [] then n == null && Contents() == []
              else n == old(Contents())[0] && Contents() == old(Contents())[1..]
    {
      hide RingOk;
      hide ListOk;
      hide Distinct;
      n := RingPop();
      if n == null {
        n := ListPop();
      }
    }

    /** flex_fifo_peek. */
    method Peek() returns (n: Node?)
      requires Valid()
      ensures n == if Contents() == [] then null else Contents()[0]
    {
      hide RingSize;
      hide Slot;
      hide Stored;
      hide Distinct;
      RingFits();
      WrapInjective(r + |front|, r);
      if read != write {
        SlotWrap32(r, size);
        FirstStored(ring[..], r, front);
        return ring[Slot(read, size)];
      }
      return if |list| == 0 then null else list[0];
    }

    /** flex_fifo_remove. */
    method Remove(n: Node) returns (ok: bool)
      requires Valid() && n in nodes
      modifies this`read, this`write, this`r, this`front, this`list, this`listSize, ring, nodes
      ensures Valid() && ok == (n in old(Contents())) && Contents() == Without(old(Contents()), n)
    {
      hide RingOk;
      hide ListOk;
      hide Without;
      WithoutAppend(front, list, n);
      hide Distinct;
      ok := RingRemove(n);
      if !ok {
        WithoutAbsent(old(front), n);
        ok := ListRemove(n);
      }
    }

    /** FLEX_FIFO_NODE_INIT on a node to be used with this queue. */
    ghost method Adopt(n: Node)
      requires Valid() && n !in nodes && n.tag == 0
      modifies this`nodes
      ensures Valid() && nodes == old(nodes) + {n} && Contents() == old(Contents())
    {
      hide Slot;
      hide Stored;
      hide RingSize;
      hide Distinct;
      nodes := nodes + {n};
    }
  }

  lemma ListDistinct(front: seq<Node>, list: seq<Node>, n: Node)
    requires Distinct(front + list) && n in list
    ensures Distinct(front + Without(list, n)) && n !in Without(list, n)
    ensures forall m | m in list :: m !in front
    ensures forall m | m in Without(list, n) :: m in list
    ensures forall m | m in list && m != n :: m in Without(list, n)
    ensures |Without(list, n)| == |list| - 1
  {
    var all := front + list;
    forall i, j | 0 <= i < |front| && 0 <= j < |list| ensures front[i] != list[j] {
      assert all[i] == front[i] && all[|front| + j] == list[j];
    }
    WithoutAppend(front, list, n);
    WithoutExact(all, n);
    assert Distinct(list) by {
      assert forall i | 0 <= i < |list| :: list[i] == all[|front| + i];
    }
    WithoutExact(list, n);
  }

  /** The ring after `i` turns of the rotation that removes `n`. */
  function Rotated(all: seq<Node>, n: Node, i: nat): seq<Node>
    requires i <= |all|
  {
    all[i..] + Without(all[..i], n)
  }

  lemma RotateStart(all: seq<Node>, n: Node)
    ensures Rotated(all, n, 0) == all
  {
  }

  lemma RotateTurn(all: seq<Node>, n: Node, i: nat)
    requires i < |all| && Distinct(all)
    ensures
      var q := Rotated(all, n, i);
      && q != [] && q[0] == all[i] && |q| <= |all|
      && Rotated(all, n, i + 1) == if q[0] == n then q[1..] else q[1..] + [q[0]]
  {
    var q := Rotated(all, n, i);
    assert all[..i + 1] == all[..i] + [all[i]];
    WithoutAppend(all[..i], [all[i]], n);
    assert Distinct(all[..i]);
    WithoutExact(all[..i], n);
    hide Without;
    if n in all[..i] {
      assert all[i] != n;
    } else {
      WithoutAbsent(all[..i], n);
    }
    WithoutOne(all[i], n);
    assert q[1..] == all[i + 1..] + Without(all[..i], n);
  }

  lemma WithoutOne(x: Node, n: Node)
    ensures Without([x], n) == if x == n then [] else [x]
  {
  }

  lemma RotateEnd(all: seq<Node>, n: Node)
    ensures Rotated(all, n, |all|) == Without(all, n)
  {
    assert all[..|all|] == all;
    assert all[|all|..] == [];
  }

  lemma FirstStored<T>(slots: seq<T>, base: int, items: seq<T>)
    requires Stored(slots, base, items) && items != []
    ensures slots != [] && slots[Slot(base, |slots|)] == items[0]
  {
    assert slots[Slot(base + 0, |slots|)] == items[0];
  }

  lemma StoredTail<T>(slots: seq<T>, base: int, items: seq<T>)
    requires Stored(slots, base, items) && items != []
    ensures Stored(slots, base + 1, items[1..])
  {
    hide Slot;
    var rest := items[1..];
    forall i | 0 <= i < |rest| ensures slots[Slot(base + 1 + i, |slots|)] == rest[i] {
      assert rest[i] == items[i + 1];
    }
  }
}
