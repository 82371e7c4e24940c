/** The socket table of include/sock_table.h: hashed buckets that stand for one map. */
module SockTables {
  import opened SeqNum
  import opened Seqs

  const SOCK_TABLE_SIZE := 4096

  datatype Key = Key(localIp: nat, remoteIp: nat, localPort: u16, remotePort: u16)

  datatype Entry = Entry(key: Key, sock: nat)

  /** No key occurs twice. */
  ghost predicate UniqueKeys(es: seq<Entry>) {
    forall i, j | 0 <= i < j < |es| :: es[i].key != es[j].key
  }

  class SockTable {
    const lists: array<seq<Entry>>
    /** The CRC of the key. */
    const hash: Key -> nat

    /** What the buckets stand for. */
    ghost var table: map<Key, nat>

    function Idx(key: Key): (i: nat)
      ensures i < SOCK_TABLE_SIZE
    {
      hash(key) % SOCK_TABLE_SIZE
    }

    ghost predicate Valid()
      reads this, lists
    {
      && lists.Length == SOCK_TABLE_SIZE
      && (forall k | k in table :: Entry(k, table[k]) in lists[Idx(k)])
      && (forall b, e | 0 <= b < SOCK_TABLE_SIZE && e in lists[b] :: Idx(e.key) == b && e.key in table && table[e.key] == e.sock)
      && (forall b | 0 <= b < SOCK_TABLE_SIZE :: UniqueKeys(lists[b]))
    }

    /** sock_table_init. */
    constructor (hash: Key -> nat)
      ensures Valid() && table == map[] && fresh(lists)
    {
      this.hash := hash;
      lists := new seq<Entry>[SOCK_TABLE_SIZE](_ => []);
      table := map[];
    }

    /** Where in its bucket the key is; the length of the bucket when it is not there. */
    method Find(key: Key) returns (i: nat)
      requires Valid()
      ensures i <= |lists[Idx(key)]|
      ensures key in table <==> i < |lists[Idx(key)]|
      ensures i < |lists[Idx(key)]| ==> lists[Idx(key)][i] == Entry(key, table[key])
    {
      hide UniqueKeys;
      var list := lists[Idx(key)];
      i := 0;
      while i < |list|
        invariant i <= |list| && forall k | 0 <= k < i :: list[k].key != key
      {
        if list[i].key == key {
          assert list[i] in lists[Idx(key)];
          return;
        }
        i := i + 1;
      }
    }

    /** sock_table_lookup. */
    method Lookup(key: Key) returns (r: Option<nat>)
      requires Valid()
      ensures r == if key in table then Some(table[key]) else None
    {
      var i := Find(key);
      var list := lists[Idx(key)];
      return if i < |list| then Some(list[i].sock) else None;
    }

    /** sock_table_add; `allocOk` says whether malloc succeeds. */
    method Add(key: Key, sock: nat, allocOk: bool) returns (ok: bool)
      requires Valid()
      modifies this`table, lists
      ensures Valid() && ok == (key !in old(table) && allocOk)
      ensures table == if ok then old(table)[key := sock] else old(table)
    {
      hide UniqueKeys;
      hide Idx;
      var found := Lookup(key);
      if found.Some? || !allocOk {
        return false;
      }
      var b := Idx(key);
      ghost var before := lists[b];
      assert forall e | e in before :: e.key != key;
      KeysAppend(before, Entry(key, sock));
      lists[b] := lists[b] + [Entry(key, sock)];
      table := table[key := sock];
      assert Entry(key, sock) in lists[b];
      assert forall e | e in lists[b] :: e in before || e == Entry(key, sock);
      return true;
    }

    /** sock_table_del. */
    method Del(key: Key) returns (ok: bool)
      requires Valid()
      modifies this`table, lists
      ensures Valid() && ok == (key in old(table)) && table == old(table) - {key}
    {
      hide UniqueKeys;
      hide Idx;
      var i := Find(key);
      var b := Idx(key);
      var list := lists[b];
      if i == |list| {
        return false;
      }
      DropOne(list, i);
      lists[b] := list[..i] + list[i + 1..];
      table := table - {key};
      return true;
    }
  }

  lemma KeysAppend(es: seq<Entry>, x: Entry)
    requires UniqueKeys(es) && forall e | e in es :: e.key != x.key
    ensures UniqueKeys(es + [x])
  {
    assert forall i | 0 <= i < |es| :: es[i] in es;
  }

  lemma DropOne(list: seq<Entry>, i: nat)
    requires i < |list| && UniqueKeys(list)
    ensures var r := list[..i] + list[i + 1..];
            && UniqueKeys(r) && (forall e | e in r :: e in list && e.key != list[i].key)
            && (forall e | e in list && e.key != list[i].key :: e in r)
  {
    var r := list[..i] + list[i + 1..];
    assert forall k | 0 <= k < |r| :: r[k] == if k < i then list[k] else list[k + 1];
    forall e | e in list && e.key != list[i].key ensures e in r {
      var k :| 0 <= k < |list| && list[k] == e;
      assert e == r[if k < i then k else k - 1];
    }
  }
}
