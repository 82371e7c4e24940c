/** Binding sockets to local ports (the second half of src/port_alloc.c): blocks of ports with
    reference counts, released by a timer once they are idle. */
module PortAlloc {
  import opened SeqNum
  import opened Seqs
  import opened SockTables
  import opened PortMaps

  const MAX_BLOCKS := PORTS / BLOCK

  class PortBlock {
    const start: u16
    const end: u16
    var refcnt: nat
    /** The timer of the block is running. */
    var armed: bool
    /** A socket was bound to one of its ports. */
    ghost var used: bool

    constructor (start: u16)
      ensures this.start == start && end == Wrap16(start + BLOCK) && refcnt == 0 && !armed && !used
    {
      this.start, this.end := start, Wrap16(start + BLOCK);
      refcnt, armed, used := 0, false, false;
    }
  }

  /** The sockets bound to a port of the block at `s`. */
  ghost function UserSet(m: map<Key, nat>, s: int): set<Key> {
    set k | k in m && s <= k.localPort < s + BLOCK
  }

  lemma UsersAdd(m: map<Key, nat>, k: Key, v: nat, s: int)
    requires k !in m
    ensures |UserSet(m[k := v], s)| == |UserSet(m, s)| + if s <= k.localPort < s + BLOCK then 1 else 0
  {
    var was, now := UserSet(m, s), UserSet(m[k := v], s);
    if s <= k.localPort < s + BLOCK {
      assert now == was + {k};
    } else {
      assert now == was;
    }
  }

  lemma UsersDel(m: map<Key, nat>, k: Key, s: int)
    requires k in m
    ensures |UserSet(m - {k}, s)| == |UserSet(m, s)| - if s <= k.localPort < s + BLOCK then 1 else 0
  {
    var was, now := UserSet(m, s), UserSet(m - {k}, s);
    if s <= k.localPort < s + BLOCK {
      assert was == now + {k};
    } else {
      assert now == was;
    }
  }

  /** Every port of the block at `s` is in use with this peer. */
  ghost predicate Exhausted(m: map<Key, nat>, s: int, key: Key) {
    forall p: u16 | s <= p < s + BLOCK :: key.(localPort := p) in m
  }

  /** A place for a block: aligned, and neither the first nor the last. */
  predicate Place(s: int) { s % BLOCK == 0 && BLOCK <= s < PORTS - BLOCK }

  lemma OtherRange(a: int, b: int, port: int)
    requires Place(a) && Place(b) && a <= port < a + BLOCK
    ensures b <= port < b + BLOCK <==> a == b
  {
  }

  /** This instance holds every port of the block. */
  ghost predicate RangeTaken(m: seq<int>, s: int) {
    forall i | s <= i < s + BLOCK && 0 <= i < |m| :: m[i] >= 0
  }

  class Worker {
    const ports: PortMap
    const table: SockTable
    var blocks: seq<PortBlock>

    ghost predicate BlockOk(bl: PortBlock)
      reads bl, table
    {
      && Place(bl.start) && bl.end == bl.start + BLOCK
      && bl.refcnt == |UserSet(table.table, bl.start)|
      && (bl.refcnt > 0 ==> bl.used && !bl.armed)
      && (bl.refcnt == 0 && bl.used ==> bl.armed)
    }

    ghost predicate Covered(port: int)
      reads this
    {
      exists i :: 0 <= i < |blocks| && blocks[i].start <= port < blocks[i].start + BLOCK
    }

    /** Blocks are disjoint; the count of each is the number of sockets bound to its ports; a block
        that was used and is idle has its timer running; every bound port lies in a block. */
    ghost predicate Valid()
      reads this, ports.ports, table, table.lists, blocks
    {
      && ports.Valid() && table.Valid() && |blocks| <= MAX_BLOCKS
      && (forall i | 0 <= i < |blocks| :: BlockOk(blocks[i]) && RangeTaken(ports.ports[..], blocks[i].start))
      && (forall i, j | 0 <= i < j < |blocks| :: blocks[i].start != blocks[j].start)
      && (forall k | k in table.table :: Covered(k.localPort))
    }

    constructor (ports: PortMap, hash: Key -> nat)
      requires ports.Valid()
      ensures Valid() && blocks == [] && this.ports == ports && table.table == map[]
    {
      this.ports := ports;
      table := new SockTable(hash);
      blocks := [];
    }

    /** port_block_find. */
    method Find(port: u16) returns (bl: PortBlock?)
      requires Valid()
      ensures bl == null <==> !Covered(port)
      ensures bl != null ==> bl in blocks && bl.start <= port < bl.start + BLOCK
    {
      hide SockTable.Valid;
      hide PortMap.Valid;
      hide UserSet;
      hide Place;
      for i := 0 to |blocks|
        invariant forall k | 0 <= k < i :: !(blocks[k].start <= port < blocks[k].start + BLOCK)
      {
        assert BlockOk(blocks[i]);
        if blocks[i].start <= port && port < blocks[i].end {
          return blocks[i];
        }
      }
      return null;
    }

    /** sock_table_add and, if it succeeds, port_block_get. */
    method BindAt(bl: PortBlock, key: Key, sock: nat, allocOk: bool) returns (ok: bool)
      requires Valid() && bl in blocks && bl.start <= key.localPort < bl.start + BLOCK
      modifies bl, table, table.lists
      ensures Valid() && ok == (key !in old(table.table) && allocOk)
      ensures table.table == if ok then old(table.table)[key := sock] else old(table.table)
    {
      hide SockTable.Valid;
      hide PortMap.Valid;
      hide UserSet;
      CoveredBy(bl, key.localPort);
      hide Covered;
      ghost var was := table.table;
      ok := table.Add(key, sock, allocOk);
      if !ok {
        return;
      }
      bl.refcnt, bl.armed, bl.used := bl.refcnt + 1, false, true;
      forall i | 0 <= i < |blocks| ensures BlockOk(blocks[i]) {
        UsersAdd(was, key, sock, blocks[i].start);
        assert old(BlockOk(blocks[i]));
        OnlyOne(i, bl, key.localPort);
      }
    }

    lemma CoveredBy(bl: PortBlock, port: int)
      requires bl in blocks && bl.start <= port < bl.start + BLOCK
      ensures Covered(port)
    {
    }

    lemma PlaceOf(bl: PortBlock)
      requires Valid() && bl in blocks
      ensures Place(bl.start)
    {
      hide SockTable.Valid;
      hide PortMap.Valid;
      hide UserSet;
      assert BlockOk(bl);
    }

    /** A port lies in one block only. */
    lemma OnlyOne(i: nat, bl: PortBlock, port: int)
      requires i < |blocks| && bl in blocks && bl.start <= port < bl.start + BLOCK
      requires Place(bl.start) && Place(blocks[i].start)
      requires forall i, j | 0 <= i < j < |blocks| :: blocks[i].start != blocks[j].start
      ensures blocks[i].start <= port < blocks[i].start + BLOCK <==> blocks[i] == bl
    {
      OtherRange(bl.start, blocks[i].start, port);
      hide Place;
      var j :| 0 <= j < |blocks| && blocks[j] == bl;
      if i != j {
        assert blocks[i].start != bl.start;
      }
    }

    /** port_unbind. */
    method Unbind(key: Key) returns (ok: bool)
      requires Valid()
      modifies blocks, table, table.lists
      ensures Valid() && ok == (key in old(table.table)) && table.table == old(table.table) - {key}
    {
      hide SockTable.Valid;
      hide PortMap.Valid;
      hide UserSet;
      hide BlockOk;
      var bl := Find(key.localPort);
      if bl == null {
        return false;
      }
      ok := UnbindAt(bl, key);
    }

    /** sock_table_del and, if it succeeds, port_block_put. */
    method UnbindAt(bl: PortBlock, key: Key) returns (ok: bool)
      requires Valid() && bl in blocks && bl.start <= key.localPort < bl.start + BLOCK
      modifies bl, table, table.lists
      ensures Valid() && ok == (key in old(table.table)) && table.table == old(table.table) - {key}
    {
      hide SockTable.Valid;
      hide PortMap.Valid;
      hide UserSet;
      hide Covered;
      ghost var was := table.table;
      CountPositive(bl, key);
      ok := table.Del(key);
      if !ok {
        assert table.table == was;
        return;
      }
      bl.refcnt := bl.refcnt - 1;
      if bl.refcnt == 0 {
        bl.armed := true;
      }
      forall i | 0 <= i < |blocks| ensures BlockOk(blocks[i]) {
        UsersDel(was, key, blocks[i].start);
        assert old(BlockOk(blocks[i]));
        OnlyOne(i, bl, key.localPort);
      }
    }

    /** The block of a bound port counts at least one socket. */
    lemma CountPositive(bl: PortBlock, key: Key)
      requires Valid() && bl in blocks && bl.start <= key.localPort < bl.start + BLOCK
      ensures key in table.table ==> bl.refcnt > 0
    {
      hide SockTable.Valid;
      hide PortMap.Valid;
      assert BlockOk(bl);
      if key in table.table {
        assert key in UserSet(table.table, bl.start);
      }
    }

    /** bind_from_port_block; `idx0` is the offset to start from. */
    method BindFromBlock(bl: PortBlock, key: Key, sock: nat, idx0: nat, allocOk: bool) returns (port: u16)
      requires Valid() && bl in blocks && idx0 < BLOCK
      modifies bl, table, table.lists
      ensures Valid()
      ensures port != 0 ==>
        && bl.start <= port < bl.start + BLOCK && key.(localPort := port) !in old(table.table)
        && table.table == old(table.table)[key.(localPort := port) := sock]
      ensures port == 0 ==> table.table == old(table.table)
      ensures port == 0 && allocOk ==> Exhausted(table.table, bl.start, key)
    {
      hide Worker.Valid;
      PlaceOf(bl);
      var idx, tries := idx0, 0;
      while tries < BLOCK
        invariant 0 <= tries <= BLOCK && idx < BLOCK && Valid() && table.table == old(table.table)
        invariant idx == if idx0 + tries < BLOCK then idx0 + tries else idx0 + tries - BLOCK
        invariant allocOk ==> forall j | 0 <= j < BLOCK && Ahead(j, BLOCK, idx0, tries) :: key.(localPort := bl.start + j) in table.table
      {
        tries := tries + 1;
        var ok := BindAt(bl, key.(localPort := bl.start + idx), sock, allocOk);
        if ok {
          return bl.start + idx;
        }
        assert forall j | 0 <= j < BLOCK && Ahead(j, BLOCK, idx0, tries) :: j == idx || Ahead(j, BLOCK, idx0, tries - 1);
        idx := idx + 1;
        if idx >= BLOCK {
          idx := 0;
        }
      }
      if allocOk {
        forall p: u16 | bl.start <= p < bl.start + BLOCK ensures key.(localPort := p) in table.table {
          assert Ahead(p - bl.start, BLOCK, idx0, BLOCK);
        }
      }
      return 0;
    }

    // ---- taking a block

    /** What holds of the worker while the ports are as in `m`. */
    ghost predicate Blocks(m: seq<int>)
      reads this, table, table.lists, blocks
    {
      && table.Valid() && |m| == PORTS && |blocks| <= MAX_BLOCKS
      && (forall i | 0 <= i < |blocks| :: BlockOk(blocks[i]) && RangeTaken(m, blocks[i].start))
      && (forall i, j | 0 <= i < j < |blocks| :: blocks[i].start != blocks[j].start)
      && (forall k | k in table.table :: Covered(k.localPort))
    }

    /** A block that is free is none of the worker's. */
    lemma FreeIsOther(m: seq<int>, s: int)
      requires Blocks(m) && Place(s) && RangeFree(m, s)
      ensures forall i | 0 <= i < |blocks| :: blocks[i].start != s && Place(blocks[i].start)
    {
      hide SockTable.Valid;
      hide UserSet;
      hide Covered;
      forall i | 0 <= i < |blocks| ensures blocks[i].start != s && Place(blocks[i].start) {
        assert BlockOk(blocks[i]);
        assert m[blocks[i].start] >= 0;
      }
    }

    /** No socket is bound to a port of a block that is free. */
    lemma NoUsers(m: seq<int>, s: int)
      requires Blocks(m) && Place(s) && RangeFree(m, s)
      ensures UserSet(table.table, s) == {}
    {
      hide SockTable.Valid;
      hide RangeFree;
      hide RangeTaken;
      hide BlockOk;
      hide Place;
      FreeIsOther(m, s);
      forall k | k in table.table ensures !(s <= k.localPort < s + BLOCK) {
        var i :| 0 <= i < |blocks| && blocks[i].start <= k.localPort < blocks[i].start + BLOCK;
        OtherRange(blocks[i].start, s, k.localPort);
      }
    }

    /** The end of worker_alloc_port_block: the ports at `s` are taken, and were free in `was`. */
    method Append(s: u16, ghost was: seq<int>) returns (bl: PortBlock)
      requires Blocks(was) && ports.Valid() && Place(s) && RangeFree(was, s) && Took(was, ports.ports[..], s)
      requires |blocks| < MAX_BLOCKS
      modifies this`blocks
      ensures Valid() && fresh(bl) && blocks == old(blocks) + [bl] && bl.start == s
      ensures UserSet(table.table, s) == {}
    {
      hide SockTable.Valid;
      hide PortMap.Valid;
      hide UserSet;
      FreeIsOther(was, s);
      NoUsers(was, s);
      bl := new PortBlock(s);
      blocks := blocks + [bl];
      forall i | 0 <= i < |blocks| ensures BlockOk(blocks[i]) && RangeTaken(ports.ports[..], blocks[i].start) {
        if i < |old(blocks)| {
          assert old(BlockOk(blocks[i])) && RangeTaken(was, old(blocks)[i].start);
        }
      }
      forall k | k in table.table ensures Covered(k.localPort) {
        var i :| 0 <= i < |old(blocks)| && old(blocks)[i].start <= k.localPort < old(blocks)[i].start + BLOCK;
        assert blocks[i] == old(blocks)[i];
      }
    }

    /** worker_alloc_port_block for a given port. */
    method AllocGiven(port: u16, fds: int -> int) returns (bl: PortBlock?)
      requires Valid() && BLOCK <= port < PORTS - BLOCK
      modifies this`blocks, ports.ports
      ensures Valid()
      ensures bl == null <==> |old(blocks)| >= MAX_BLOCKS || !Available(old(ports.ports[..]), fds, RoundDown(port))
      ensures bl == null ==> blocks == old(blocks)
      ensures bl != null ==> fresh(bl) && blocks == old(blocks) + [bl] && bl.start == RoundDown(port)
      ensures bl != null ==> UserSet(table.table, bl.start) == {}
    {
      hide SockTable.Valid;
      hide UserSet;
      hide BlockOk;
      hide Covered;
      if |blocks| >= MAX_BLOCKS {
        return null;
      }
      ghost var was := ports.ports[..];
      var start := port - port % BLOCK;
      RoundDownPlace(port);
      var ok, _ := ports.BlockAlloc(start, fds);
      if !ok {
        return null;
      }
      hide PortMap.Valid;
      hide RangeFree;
      hide RangeTaken;
      hide Place;
      hide Took;
      bl := Append(start, was);
    }

    /** worker_alloc_port_block without a port: any block of the local port range. */
    method AllocRandom(pmin: u16, pmax: u16, rnd: nat, fds: int -> int, busy: bool) returns (bl: PortBlock?)
      requires Valid() && BLOCK <= pmin < pmax < PORTS - BLOCK
      modifies this`blocks, ports.ports
      ensures Valid()
      ensures
        var lo, n := RoundUp(pmin), NrBlocks(pmin, pmax);
        var r := Search(old(ports.ports[..]), fds, lo, n, First(pmin, pmax, rnd), n, busy);
        && (bl == null <==> |old(blocks)| >= MAX_BLOCKS || r.None?)
        && (bl != null ==> bl.start == r.value)
      ensures bl == null ==> blocks == old(blocks)
      ensures bl != null ==> fresh(bl) && blocks == old(blocks) + [bl]
      ensures bl != null ==> UserSet(table.table, bl.start) == {}
    {
      hide SockTable.Valid;
      hide UserSet;
      hide BlockOk;
      hide Covered;
      hide First;
      hide NrBlocks;
      hide RoundUp;
      hide RoundDown;
      hide Search;
      hide RangeFree;
      hide RangeTaken;
      hide Place;
      hide Took;
      hide PortMap.Valid;
      if |blocks| >= MAX_BLOCKS {
        return null;
      }
      ghost var was := ports.ports[..];
      ports.Length();
      var lo, hi, start := SearchRange(pmin, pmax, rnd);
      if hi < lo {
        SearchNothing(was, fds, lo, First(pmin, pmax, rnd), busy);
        return null;
      }
      var found := ports.BlockSearch(lo, hi, start, fds, busy, First(pmin, pmax, rnd));
      if found.None? {
        return null;
      }
      FoundPlace(was, fds, pmin, pmax, rnd, busy);
      bl := Append(found.value, was);
    }

    // ---- binding

    /** port_bind_on_given_port. */
    method BindGiven(key: Key, sock: nat, fds: int -> int, allocOk: bool) returns (port: u16)
      requires Valid() && BLOCK <= key.localPort < PORTS - BLOCK
      modifies this`blocks, ports.ports, blocks, table, table.lists
      ensures Valid() && (port == 0 || port == key.localPort)
      ensures port != 0 <==>
        && (old(Covered(key.localPort)) ||
            (|old(blocks)| < MAX_BLOCKS && Available(old(ports.ports[..]), fds, RoundDown(key.localPort))))
        && key !in old(table.table) && allocOk
      ensures table.table == if port != 0 then old(table.table)[key := sock] else old(table.table)
    {
      hide Worker.Valid;
      hide Covered;
      hide Available;
      var bl := Find(key.localPort);
      if bl == null {
        RoundDownPlace(key.localPort);
        bl := AllocGiven(key.localPort, fds);
        if bl == null {
          return 0;
        }
      }
      var ok := BindAt(bl, key, sock, allocOk);
      return if ok then key.localPort else 0;
    }

    /** The first half of port_bind_on_random_port: the blocks the worker has, from number `idx0` on. */
    method BindFromAny(key: Key, sock: nat, idx0: nat, off: nat -> nat, allocOk: bool) returns (port: u16)
      requires Valid() && (blocks != [] ==> idx0 < |blocks|) && forall k :: off(k) < BLOCK
      modifies blocks, table, table.lists
      ensures Valid()
      ensures port != 0 ==>
        && Covered(port) && key.(localPort := port) !in old(table.table)
        && table.table == old(table.table)[key.(localPort := port) := sock]
      ensures port == 0 ==> table.table == old(table.table)
      ensures port == 0 && allocOk ==> forall i | 0 <= i < |blocks| :: Exhausted(table.table, blocks[i].start, key)
      ensures port != 0 ==> exists i :: 0 <= i < |blocks| && !Exhausted(old(table.table), blocks[i].start, key)
    {
      hide Worker.Valid;
      hide Covered;
      hide Exhausted;
      var n := |blocks|;
      var idx, tries := idx0, 0;
      while tries < n
        invariant 0 <= tries <= n && (n > 0 ==> idx < n) && Valid() && table.table == old(table.table)
        invariant n > 0 ==> idx == if idx0 + tries < n then idx0 + tries else idx0 + tries - n
        invariant allocOk ==> forall j | 0 <= j < n && Ahead(j, n, idx0, tries) :: Exhausted(table.table, blocks[j].start, key)
      {
        tries := tries + 1;
        port := BindFromBlock(blocks[idx], key, sock, off(tries), allocOk);
        if port != 0 {
          CoveredBy(blocks[idx], port);
          NotExhausted(old(table.table), blocks[idx].start, port, key);
          return;
        }
        assert forall j | 0 <= j < n && Ahead(j, n, idx0, tries) :: j == idx || Ahead(j, n, idx0, tries - 1);
        idx := idx + 1;
        if idx >= n {
          idx := 0;
        }
      }
      assert forall j | 0 <= j < n :: Ahead(j, n, idx0, n);
      return 0;
    }

    /** port_bind_on_random_port. */
    method BindRandom(key: Key, sock: nat, idx0: nat, off: nat -> nat, pmin: u16, pmax: u16, rnd: nat, fds: int -> int, busy: bool,
                      allocOk: bool)
      returns (port: u16)
      requires Valid() && (blocks != [] ==> idx0 < |blocks|) && forall k :: off(k) < BLOCK
      requires BLOCK <= pmin < pmax < PORTS - BLOCK
      modifies this`blocks, ports.ports, blocks, table, table.lists
      ensures Valid()
      ensures port != 0 ==>
        && Covered(port) && key.(localPort := port) !in old(table.table)
        && table.table == old(table.table)[key.(localPort := port) := sock]
      ensures port == 0 ==> table.table == old(table.table)
      ensures
        var n := NrBlocks(pmin, pmax);
        allocOk ==>
          (port == 0 <==>
             && (forall i | 0 <= i < |old(blocks)| :: Exhausted(old(table.table), old(blocks)[i].start, key))
             && (|old(blocks)| >= MAX_BLOCKS ||
                 Search(old(ports.ports[..]), fds, RoundUp(pmin), n, First(pmin, pmax, rnd), n, busy).None?))
    {
      hide Worker.Valid;
      hide Covered;
      hide Exhausted;
      hide Search;
      hide NrBlocks;
      hide First;
      hide UserSet;
      port := BindFromAny(key, sock, idx0, off, allocOk);
      if port != 0 {
        return;
      }
      var bl := AllocRandom(pmin, pmax, rnd, fds, busy);
      if bl == null {
        return 0;
      }
      PlaceOf(bl);
      FreshNotExhausted(table.table, bl.start, key);
      port := BindFromBlock(bl, key, sock, off(0), allocOk);
      if port != 0 {
        CoveredBy(bl, port);
      }
    }

    // ---- releasing a block

    /** port_block_timeout, called for a block whose timer ran out: it counts no socket (IdleBlock), so
        its ports are freed, and the last block of the worker takes its place. */
    method Timeout(bl: PortBlock)
      requires Valid() && bl in blocks && bl.armed
      modifies this`blocks, bl, ports.ports
      ensures Valid() && bl !in blocks && |blocks| == |old(blocks)| - 1
      ensures UserSet(table.table, bl.start) == {}
      ensures forall b | b in old(blocks) && b != bl :: b in blocks
      ensures forall i | 0 <= i < PORTS :: ports.ports[i] == if bl.start <= i < bl.start + BLOCK then -1 else old(ports.ports[i])
    {
      hide SockTable.Valid;
      hide UserSet;
      hide BlockOk;
      hide Covered;
      hide RangeTaken;
      hide Place;
      IdleBlock(bl);
      NoneBound(table.table, bl.start);
      ghost var was := ports.ports[..];
      forall i | 0 <= i < |blocks| && blocks[i] != bl ensures blocks[i].start != bl.start && Place(blocks[i].start) {
        OtherBlock(i, bl);
      }
      FreeAll(bl);
      forall i | 0 <= i < |blocks| && blocks[i] != bl
        ensures BlockOk(blocks[i]) && RangeTaken(ports.ports[..], blocks[i].start)
      {
        TakenElsewhere(was, ports.ports[..], bl.start, blocks[i].start);
      }
      DropBlock(bl);
    }

    /** The loop of port_block_free over the ports of the block. */
    method FreeAll(bl: PortBlock)
      requires ports.Valid() && bl.refcnt == 0 && bl.end == bl.start + BLOCK && Place(bl.start)
      modifies bl`armed, ports.ports
      ensures ports.Valid()
      ensures forall i | 0 <= i < PORTS :: ports.ports[i] == if bl.start <= i < bl.start + BLOCK then -1 else old(ports.ports[i])
    {
      bl.armed := false;
      ports.FreePorts(bl.start, bl.end - bl.start);
    }

    /** A block whose timer is running counts no socket. */
    lemma IdleBlock(bl: PortBlock)
      requires Valid() && bl in blocks && bl.armed
      ensures bl.refcnt == 0 && UserSet(table.table, bl.start) == {} && bl.end == bl.start + BLOCK && Place(bl.start)
    {
      hide SockTable.Valid;
      hide PortMap.Valid;
      assert BlockOk(bl);
    }

    /** What holds of the blocks but `bl`. */
    ghost predicate OthersOk(bl: PortBlock)
      reads this, ports.ports, table, table.lists, blocks
    {
      && ports.Valid() && table.Valid() && |blocks| <= MAX_BLOCKS
      && (forall i | 0 <= i < |blocks| && blocks[i] != bl :: BlockOk(blocks[i]) && RangeTaken(ports.ports[..], blocks[i].start))
      && (forall i, j | 0 <= i < j < |blocks| :: blocks[i].start != blocks[j].start)
      && (forall k | k in table.table :: Covered(k.localPort) && !(bl.start <= k.localPort < bl.start + BLOCK))
    }

    /** worker_drop_port_block. */
    method DropBlock(bl: PortBlock)
      requires OthersOk(bl) && bl in blocks
      modifies this`blocks
      ensures Valid() && bl !in blocks && |blocks| == |old(blocks)| - 1
      ensures forall b | b in old(blocks) && b != bl :: b in blocks
    {
      hide SockTable.Valid;
      hide PortMap.Valid;
      hide UserSet;
      hide BlockOk;
      hide RangeTaken;
      var i := Locate(bl);
      ghost var was := blocks;
      var last := |blocks| - 1;
      SwapDrop(blocks, i);
      blocks := blocks[i := blocks[last]][..last];
      forall k | k in table.table ensures Covered(k.localPort) {
        var b := OtherCovers(was, bl, k.localPort);
        CoveredBy(b, k.localPort);
      }
    }

    /** The scan of worker_drop_port_block. */
    method Locate(bl: PortBlock) returns (i: nat)
      requires bl in blocks
      ensures i < |blocks| && blocks[i] == bl
    {
      i := 0;
      while blocks[i] != bl
        invariant 0 <= i < |blocks| && bl in blocks[i..]
        decreases |blocks| - i
      {
        i := i + 1;
      }
    }

    /** Another block of the worker lies elsewhere. */
    lemma OtherBlock(i: nat, bl: PortBlock)
      requires Valid() && i < |blocks| && bl in blocks && blocks[i] != bl
      ensures blocks[i].start != bl.start && Place(blocks[i].start) && Place(bl.start)
    {
      hide SockTable.Valid;
      hide PortMap.Valid;
      hide UserSet;
      assert BlockOk(blocks[i]) && BlockOk(bl);
      var j :| 0 <= j < |blocks| && blocks[j] == bl;
    }
  }

  /** A port outside a block that some block covers is covered by another one. */
  lemma OtherCovers(bs: seq<PortBlock>, bl: PortBlock, port: int) returns (b: PortBlock)
    requires exists j :: 0 <= j < |bs| && bs[j].start <= port < bs[j].start + BLOCK
    requires !(bl.start <= port < bl.start + BLOCK)
    ensures b in bs && b != bl && b.start <= port < b.start + BLOCK
  {
    var j :| 0 <= j < |bs| && bs[j].start <= port < bs[j].start + BLOCK;
    b := bs[j];
  }

  /** Dropping number `i` by moving the last one to its place. */
  lemma SwapDrop(bs: seq<PortBlock>, i: nat)
    requires i < |bs| && forall i, j | 0 <= i < j < |bs| :: bs[i].start != bs[j].start
    ensures
      var r := bs[i := bs[|bs| - 1]][..|bs| - 1];
      && (forall k | 0 <= k < |r| :: r[k] in bs && r[k] != bs[i])
      && (forall i, j | 0 <= i < j < |r| :: r[i].start != r[j].start)
      && (forall b | b in bs && b != bs[i] :: b in r)
  {
    var n := |bs| - 1;
    var r := bs[i := bs[n]][..n];
    assert forall k | 0 <= k < n :: r[k] == bs[if k == i then n else k];
    forall b | b in bs && b != bs[i] ensures b in r {
      var k :| 0 <= k < |bs| && bs[k] == b;
      assert r[if k == n then i else k] == b;
    }
  }

  lemma NoneBound(m: map<Key, nat>, s: int)
    requires UserSet(m, s) == {}
    ensures forall k | k in m :: !(s <= k.localPort < s + BLOCK)
  {
    forall k | k in m ensures !(s <= k.localPort < s + BLOCK) {
      assert k !in UserSet(m, s);
    }
  }

  lemma TakenElsewhere(m: seq<int>, m': seq<int>, s: int, t: int)
    requires Place(s) && Place(t) && s != t && RangeTaken(m, t) && |m| == |m'|
    requires forall i | 0 <= i < |m| && !(s <= i < s + BLOCK) :: m'[i] == m[i]
    ensures RangeTaken(m', t)
  {
  }

  lemma NotExhausted(m: map<Key, nat>, s: u16, p: u16, key: Key)
    requires s <= p < s + BLOCK && key.(localPort := p) !in m
    ensures !Exhausted(m, s, key)
  {
  }

  lemma FreshNotExhausted(m: map<Key, nat>, s: u16, key: Key)
    requires UserSet(m, s) == {}
    ensures !Exhausted(m, s, key)
  {
    assert key.(localPort := s) !in UserSet(m, s);
  }

  function RoundDown(x: int): int { x - x % BLOCK }

  function RoundUp(x: int): int { RoundDown(x + BLOCK - 1) }

  /** How many whole blocks lie in [pmin, pmax). */
  function NrBlocks(pmin: int, pmax: int): nat {
    if RoundDown(pmax) <= RoundUp(pmin) then 0 else (RoundDown(pmax) - RoundUp(pmin)) / BLOCK
  }

  /** The block the search starts from. */
  function First(pmin: int, pmax: int, rnd: nat): nat
    requires pmin < pmax
  {
    var start := RoundDown(rnd % (pmax - pmin) + RoundUp(pmin));
    if start >= RoundDown(pmax) then 0 else (start - RoundUp(pmin)) / BLOCK
  }

  lemma RoundDownPlace(port: int)
    requires BLOCK <= port < PORTS - BLOCK
    ensures Place(RoundDown(port)) && RoundDown(port) <= port < RoundDown(port) + BLOCK
  {
  }

  lemma RangeBounds(pmin: int, pmax: int, rnd: nat)
    requires BLOCK <= pmin < pmax < PORTS - BLOCK
    ensures
      var lo, hi, start := RoundUp(pmin), RoundDown(pmax), RoundDown(rnd % (pmax - pmin) + RoundUp(pmin));
      && BLOCK <= lo <= start < PORTS && hi < PORTS - BLOCK && lo % BLOCK == 0 && (hi - lo) % BLOCK == 0
      && (hi > lo ==> First(pmin, pmax, rnd) < NrBlocks(pmin, pmax) && NrBlocks(pmin, pmax) == (hi - lo) / BLOCK)
      && (hi <= lo ==> NrBlocks(pmin, pmax) == 0)
      && (hi > lo ==> (if start >= hi then lo else start) == BlockAt(lo, First(pmin, pmax, rnd)))
  {
    var r := rnd % (pmax - pmin);
    assert 0 <= r < pmax - pmin;
  }

  /** The range port_block_alloc searches, and where in it it starts. */
  method SearchRange(pmin: u16, pmax: u16, rnd: nat) returns (lo: u16, hi: u16, start: u16)
    requires BLOCK <= pmin < pmax < PORTS - BLOCK
    ensures lo == RoundUp(pmin) && hi == RoundDown(pmax) && BLOCK <= lo <= start && hi < PORTS - BLOCK
    ensures lo % BLOCK == 0 && (hi - lo) % BLOCK == 0
    ensures hi > lo ==> First(pmin, pmax, rnd) < NrBlocks(pmin, pmax) == (hi - lo) / BLOCK
    ensures hi <= lo ==> NrBlocks(pmin, pmax) == 0
    ensures hi > lo ==> (if start >= hi then lo else start) == BlockAt(lo, First(pmin, pmax, rnd))
  {
    RangeBounds(pmin, pmax, rnd);
    hide First;
    hide NrBlocks;
    lo := (pmin + BLOCK - 1) - (pmin + BLOCK - 1) % BLOCK;
    hi := pmax - pmax % BLOCK;
    var x := rnd % (pmax - pmin) + lo;
    start := x - x % BLOCK;
  }

  lemma FoundPlace(m: seq<int>, fds: int -> int, pmin: int, pmax: int, rnd: nat, busy: bool)
    requires BLOCK <= pmin < pmax < PORTS - BLOCK
    ensures
      var lo, n := RoundUp(pmin), NrBlocks(pmin, pmax);
      var r := Search(m, fds, lo, n, First(pmin, pmax, rnd), n, busy);
      r.Some? ==> Place(r.value) && Available(m, fds, r.value)
  {
    hide Available;
    RangeBounds(pmin, pmax, rnd);
    hide First;
    hide NrBlocks;
    hide RoundDown;
    hide RoundUp;
    hide Search;
    var lo, hi, n := RoundUp(pmin), RoundDown(pmax), NrBlocks(pmin, pmax);
    if n > 0 {
      SearchExact(m, fds, lo, n, First(pmin, pmax, rnd), busy);
      forall j | 0 <= j < n ensures Place(BlockAt(lo, j)) {
        BlockAtPlace(lo, hi, n, j);
      }
    } else {
      SearchNothing(m, fds, lo, First(pmin, pmax, rnd), busy);
    }
  }

  lemma BlockAtPlace(lo: int, hi: int, n: nat, j: nat)
    requires BLOCK <= lo && lo % BLOCK == 0 && lo < hi < PORTS - BLOCK && n == (hi - lo) / BLOCK && j < n
    ensures Place(BlockAt(lo, j))
  {
  }

  lemma SearchNothing(m: seq<int>, fds: int -> int, lo: int, b: nat, busy: bool)
    ensures Search(m, fds, lo, 0, b, 0, busy) == None
  {
  }
}
