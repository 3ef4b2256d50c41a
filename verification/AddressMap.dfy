/** AddressMap (addressmap-inl.h): a hash table of clusters of blocks of entries, proved to be a
    map from addresses to values. */
module AddressMap {
  import opened Options

  const WORD: nat := 0x1_0000_0000_0000_0000
  const BLOCK_SIZE: nat := 128            // 1 << kBlockBits
  const CLUSTER_BLOCKS: nat := 8192       // 1 << kClusterBits
  const CLUSTER_SIZE: nat := 0x10_0000    // both
  const HASH_SIZE: nat := 4096            // 1 << kHashBits
  const HASH_MULTIPLIER: nat := 2654435769

  datatype Entry<V> = Entry(key: nat, value: V)

  /** A cluster of consecutive blocks, each with its list of entries. */
  datatype Cluster<V> = Cluster(id: nat, blocks: seq<seq<Entry<V>>>)

  /** The top 12 bits of the low 32 bits of the product. */
  function HashInt(x: nat): (h: nat)
    ensures h < HASH_SIZE
  {
    var m := x % 0x1_0000_0000 * HASH_MULTIPLIER % 0x1_0000_0000;
    assert m / 0x10_0000 < HASH_SIZE;
    m / 0x10_0000
  }

  function BlockID(address: nat): (b: nat)
    ensures b < CLUSTER_BLOCKS
  {
    address / BLOCK_SIZE % CLUSTER_BLOCKS
  }

  function ClusterID(address: nat): nat {
    address / CLUSTER_SIZE
  }

  /** Addresses are in the same block if and only if cluster and block number agree. */
  lemma SameBlock(a: nat, b: nat)
    ensures a / BLOCK_SIZE == b / BLOCK_SIZE <==> ClusterID(a) == ClusterID(b) && BlockID(a) == BlockID(b)
  {
    BlockSplits(a);
    BlockSplits(b);
  }

  lemma BlockSplits(a: nat)
    ensures a / BLOCK_SIZE == ClusterID(a) * CLUSTER_BLOCKS + BlockID(a)
  {
    assert a / 128 / 8192 == a / 1048576;
  }

  /* ---- Lists ---- */

  function ClusterIndex<V>(chain: seq<Cluster<V>>, id: nat): (i: nat)
    ensures i <= |chain| && (i < |chain| ==> chain[i].id == id)
    ensures forall k | 0 <= k < i :: chain[k].id != id
  {
    if chain == [] || chain[0].id == id then 0 else 1 + ClusterIndex(chain[1..], id)
  }

  function EntryIndex<V>(list: seq<Entry<V>>, key: nat): (i: nat)
    ensures i <= |list| && (i < |list| ==> list[i].key == key)
    ensures forall k | 0 <= k < i :: list[k].key != key
  {
    if list == [] || list[0].key == key then 0 else 1 + EntryIndex(list[1..], key)
  }

  function Lookup<V>(list: seq<Entry<V>>, key: nat): Option<V> {
    var i := EntryIndex(list, key);
    if i < |list| then Some(list[i].value) else None
  }

  predicate DistinctKeys<V>(list: seq<Entry<V>>) {
    forall i, j | 0 <= i < j < |list| :: list[i].key != list[j].key
  }

  predicate DistinctIds<V>(chain: seq<Cluster<V>>) {
    forall i, j | 0 <= i < j < |chain| :: chain[i].id != chain[j].id
  }

  lemma IndexIs<V>(list: seq<Entry<V>>, i: nat)
    requires DistinctKeys(list) && i < |list|
    ensures EntryIndex(list, list[i].key) == i
  {
  }

  lemma ClusterIndexIs<V>(chain: seq<Cluster<V>>, i: nat)
    requires DistinctIds(chain) && i < |chain|
    ensures ClusterIndex(chain, chain[i].id) == i
  {
  }

  /* ---- The table ---- */

  type Table<V> = seq<seq<Cluster<V>>>

  /** Chains of distinct clusters that belong there, with all their blocks. */
  predicate Shaped<V>(t: Table<V>) {
    && |t| == HASH_SIZE
    && (forall h | 0 <= h < HASH_SIZE :: DistinctIds(t[h]))
    && (forall h, i | 0 <= h < HASH_SIZE && 0 <= i < |t[h]| ::
          HashInt(t[h][i].id) == h && |t[h][i].blocks| == CLUSTER_BLOCKS)
  }

  /** The list of the block that an address is in. */
  function BlockList<V>(t: Table<V>, address: nat): seq<Entry<V>> {
    var chain, b := ChainOf(t, address), BlockID(address);
    var i := ClusterIndex(chain, ClusterID(address));
    if i < |chain| && b < |chain[i].blocks| then chain[i].blocks[b] else []
  }

  function ChainOf<V>(t: Table<V>, address: nat): seq<Cluster<V>> {
    if |t| == HASH_SIZE then t[HashInt(ClusterID(address))] else []
  }

  predicate HasCluster<V>(t: Table<V>, address: nat) {
    ClusterIndex(ChainOf(t, address), ClusterID(address)) < |ChainOf(t, address)|
  }

  function Found<V>(t: Table<V>, key: nat): Option<V> {
    Lookup(BlockList(t, key), key)
  }

  /** Entries are in the lists of their own blocks, each key once. */
  ghost predicate Placed<V>(t: Table<V>) {
    forall a: nat :: ListOk(BlockList(t, a), a)
  }

  predicate ListOk<V>(list: seq<Entry<V>>, address: nat) {
    DistinctKeys(list) && forall i | 0 <= i < |list| :: list[i].key / BLOCK_SIZE == address / BLOCK_SIZE
  }

  ghost predicate Holds<V>(t: Table<V>, contents: map<nat, V>) {
    forall key: nat :: Found(t, key) == if key in contents then Some(contents[key]) else None
  }

  /** The block of an address gets another list, its cluster being created if need be. */
  function WithCluster<V>(t: Table<V>, address: nat): (t': Table<V>)
    requires Shaped(t)
  {
    var id, h := ClusterID(address), HashInt(ClusterID(address));
    if ClusterIndex(t[h], id) < |t[h]| then t
    else t[h := [Cluster(id, seq(CLUSTER_BLOCKS, _ => []))] + t[h]]
  }

  lemma WithClusterKeeps<V>(t: Table<V>, address: nat)
    requires Shaped(t)
    ensures var t' := WithCluster(t, address);
      && Shaped(t') && HasCluster(t', address)
      && forall a: nat :: BlockList(t', a) == BlockList(t, a)
  {
    var t', h := WithCluster(t, address), HashInt(ClusterID(address));
    WithClusterShaped(t, address);
    forall a: nat ensures BlockList(t', a) == BlockList(t, a) {
      if t' != t && HashInt(ClusterID(a)) == h {
        assert t'[h][1..] == t[h];
      }
    }
  }

  lemma WithClusterShaped<V>(t: Table<V>, address: nat)
    requires Shaped(t)
    ensures Shaped(WithCluster(t, address)) && HasCluster(WithCluster(t, address), address)
  {
    hide HashInt, ClusterID;
  }

  function WithList<V>(t: Table<V>, address: nat, list: seq<Entry<V>>): Table<V> {
    var h, b := HashInt(ClusterID(address)), BlockID(address);
    if |t| != HASH_SIZE || !HasCluster(t, address) then t
    else
      var i := ClusterIndex(t[h], ClusterID(address));
      var c := t[h][i];
      if b < |c.blocks| then t[h := t[h][i := Cluster(c.id, c.blocks[b := list])]] else t
  }

  lemma WithListKeeps<V>(t: Table<V>, address: nat, list: seq<Entry<V>>)
    requires Shaped(t) && HasCluster(t, address)
    ensures Shaped(WithList(t, address, list))
    ensures forall a: nat ::
      (a / BLOCK_SIZE == address / BLOCK_SIZE ==> BlockList(WithList(t, address, list), a) == list) &&
      (a / BLOCK_SIZE != address / BLOCK_SIZE ==> BlockList(WithList(t, address, list), a) == BlockList(t, a))
  {
    var t', h := WithList(t, address, list), HashInt(ClusterID(address));
    var i := ClusterIndex(t[h], ClusterID(address));
    assert Shaped(t');
    forall a: nat ensures BlockList(t', a) == if a / BLOCK_SIZE == address / BLOCK_SIZE then list else BlockList(t, a) {
      SameBlock(a, address);
      if HashInt(ClusterID(a)) == h {
        SameIds(t[h], t'[h], ClusterID(a));
      }
    }
  }

  lemma {:induction false} SameIds<V>(a: seq<Cluster<V>>, b: seq<Cluster<V>>, id: nat)
    requires |a| == |b| && forall k | 0 <= k < |a| :: a[k].id == b[k].id
    ensures ClusterIndex(a, id) == ClusterIndex(b, id)
  {
    if a != [] {
      SameIds(a[1..], b[1..], id);
    }
  }

  /* ---- The plain map ---- */

  /** A list has what the map has of its block. */
  ghost predicate Agrees<V>(list: seq<Entry<V>>, address: nat, contents: map<nat, V>) {
    forall key: nat | key / BLOCK_SIZE == address / BLOCK_SIZE ::
      Lookup(list, key) == if key in contents then Some(contents[key]) else None
  }

  lemma BlockAgrees<V>(t: Table<V>, address: nat, contents: map<nat, V>)
    requires Placed(t) && Holds(t, contents)
    ensures ListOk(BlockList(t, address), address) && Agrees(BlockList(t, address), address, contents)
  {
    hide BlockList, Lookup, ListOk;
    assert ListOk(BlockList(t, address), address);
    forall key: nat | key / BLOCK_SIZE == address / BLOCK_SIZE
      ensures Lookup(BlockList(t, address), key) == if key in contents then Some(contents[key]) else None
    {
      BlockOf(t, address, key);
      assert Found(t, key) == if key in contents then Some(contents[key]) else None;
    }
  }

  lemma BlockOf<V>(t: Table<V>, a: nat, b: nat)
    requires a / BLOCK_SIZE == b / BLOCK_SIZE
    ensures BlockList(t, a) == BlockList(t, b)
  {
    SameBlock(a, b);
  }

  /** If the list of one block is right for the new contents and nothing else changes, all is. */
  lemma ListReplaced<V>(t: Table<V>, key: nat, list: seq<Entry<V>>, before: map<nat, V>, after: map<nat, V>)
    requires Shaped(t) && HasCluster(t, key) && Placed(t) && Holds(t, before)
    requires ListOk(list, key) && Agrees(list, key, after) && before - {key} == after - {key}
    ensures var t' := WithList(t, key, list); Shaped(t') && Placed(t') && Holds(t', after)
  {
    hide BlockList, Shaped, Lookup, ListOk, HasCluster, WithList;
    var t' := WithList(t, key, list);
    WithListKeeps(t, key, list);
    forall a: nat ensures ListOk(BlockList(t', a), a) {
      assert ListOk(BlockList(t, a), a);
      if a / BLOCK_SIZE == key / BLOCK_SIZE {
        ListOkFor(list, key, a);
      }
    }
    forall k: nat ensures Found(t', k) == if k in after then Some(after[k]) else None {
      assert Found(t, k) == if k in before then Some(before[k]) else None;
      if k / BLOCK_SIZE != key / BLOCK_SIZE {
        assert k in before <==> k in after - {key};
        assert k in before ==> (before - {key})[k] == (after - {key})[k];
      }
    }
  }

  lemma ListOkFor<V>(list: seq<Entry<V>>, a: nat, b: nat)
    requires ListOk(list, a) && a / BLOCK_SIZE == b / BLOCK_SIZE
    ensures ListOk(list, b)
  {
  }

  /** Changing the value of the i-th entry, adding one in front, removing the i-th. */
  lemma Overwritten<V>(list: seq<Entry<V>>, i: nat, value: V, address: nat, key: nat)
    requires i < |list| && ListOk(list, address)
    ensures var list' := list[i := Entry(list[i].key, value)];
      && ListOk(list', address)
      && Lookup(list', key) == if key == list[i].key then Some(value) else Lookup(list, key)
  {
    var list' := list[i := Entry(list[i].key, value)];
    IndexIs(list, i);
    IndexIs(list', i);
    SameKeys(list, list', key);
  }

  lemma {:induction false} SameKeys<V>(a: seq<Entry<V>>, b: seq<Entry<V>>, key: nat)
    requires |a| == |b| && forall k | 0 <= k < |a| :: a[k].key == b[k].key
    ensures EntryIndex(a, key) == EntryIndex(b, key)
  {
    if a != [] {
      SameKeys(a[1..], b[1..], key);
    }
  }

  lemma Prepended<V>(list: seq<Entry<V>>, e: Entry<V>, key: nat)
    requires ListOk(list, e.key) && EntryIndex(list, e.key) == |list|
    ensures ListOk([e] + list, e.key)
    ensures Lookup([e] + list, key) == if key == e.key then Some(e.value) else Lookup(list, key)
  {
    assert ([e] + list)[1..] == list;
  }

  lemma Removed<V>(list: seq<Entry<V>>, i: nat, address: nat, key: nat)
    requires i < |list| && ListOk(list, address)
    ensures var list' := list[..i] + list[i + 1..];
      && ListOk(list', address)
      && Lookup(list', key) == if key == list[i].key then None else Lookup(list, key)
  {
    var list' := list[..i] + list[i + 1..];
    var j := EntryIndex(list, key);
    if key == list[i].key {
      IndexIs(list, i);
      assert forall k | 0 <= k < |list'| :: list'[k].key != key;
    } else if j < |list| {
      var j' := if j < i then j else j - 1;
      assert list'[j'] == list[j];
      IndexIs(list', j');
    } else {
      assert forall k | 0 <= k < |list'| :: list'[k].key != key;
    }
  }

  class AddressMap<V> {
    const hashtable: array<seq<Cluster<V>>>
    ghost var contents: map<nat, V>

    ghost predicate Valid()
      reads this, hashtable
    {
      && hashtable.Length == HASH_SIZE && Shaped(hashtable[..])
      && Placed(hashtable[..]) && Holds(hashtable[..], contents)
    }

    constructor ()
      ensures Valid() && contents == map[] && fresh(hashtable)
    {
      hashtable := new seq<Cluster<V>>[HASH_SIZE](_ => []);
      contents := map[];
    }

    /** The index of the cluster in its chain; -1 if there is none. */
    method FindCluster(address: nat) returns (i: int)
      requires Valid()
      ensures var chain := hashtable[HashInt(ClusterID(address))];
        var k := ClusterIndex(chain, ClusterID(address));
        i == if k < |chain| then k else -1
      ensures i >= 0 <==> HasCluster(hashtable[..], address)
    {
      var id := ClusterID(address);
      var chain := hashtable[HashInt(id)];
      i := 0;
      while i < |chain|
        invariant 0 <= i <= |chain| && forall k | 0 <= k < i :: chain[k].id != id
      {
        if chain[i].id == id {
          return;
        }
        i := i + 1;
      }
      return -1;
    }

    method FindEntry(list: seq<Entry<V>>, key: nat) returns (i: nat)
      ensures i == EntryIndex(list, key)
    {
      i := 0;
      while i < |list| && list[i].key != key
        invariant i <= |list| && forall k | 0 <= k < i :: list[k].key != key
      {
        i := i + 1;
      }
    }

    method Find(key: nat) returns (r: Option<V>)
      requires Valid()
      ensures r == if key in contents then Some(contents[key]) else None
    {
      hide Placed, DistinctKeys;
      assert Found(hashtable[..], key) == if key in contents then Some(contents[key]) else None;
      var i := FindCluster(key);
      if i >= 0 {
        var list := hashtable[HashInt(ClusterID(key))][i].blocks[BlockID(key)];
        var e := FindEntry(list, key);
        if e < |list| {
          return Some(list[e].value);
        }
      }
      return None;
    }

    /** FindCluster that creates the cluster, in front of its chain. */
    method FindOrCreateCluster(address: nat) returns (i: nat)
      requires Valid()
      modifies hashtable
      ensures Valid() && hashtable[..] == WithCluster(old(hashtable[..]), address)
      ensures var chain := hashtable[HashInt(ClusterID(address))];
        i == ClusterIndex(chain, ClusterID(address)) < |chain|
    {
      hide BlockList, Shaped, ListOk, Lookup;
      ghost var t := hashtable[..];
      WithClusterKeeps(t, address);
      SameListsHold(t, WithCluster(t, address), contents);
      var h := HashInt(ClusterID(address));
      var k := FindCluster(address);
      if k >= 0 {
        return k;
      }
      hashtable[h] := [Cluster(ClusterID(address), seq(CLUSTER_BLOCKS, _ => []))] + hashtable[h];
      assert hashtable[..] == WithCluster(t, address);
      return 0;
    }

    method SetList(address: nat, i: nat, list: seq<Entry<V>>)
      requires hashtable.Length == HASH_SIZE && Shaped(hashtable[..])
      requires var chain := hashtable[HashInt(ClusterID(address))];
        i == ClusterIndex(chain, ClusterID(address)) < |chain|
      modifies hashtable
      ensures hashtable[..] == WithList(old(hashtable[..]), address, list)
    {
      var h := HashInt(ClusterID(address));
      var c := hashtable[h][i];
      hashtable[h] := hashtable[h][i := Cluster(c.id, c.blocks[BlockID(address) := list])];
    }

    method Insert(key: nat, value: V)
      requires Valid()
      modifies this, hashtable
      ensures Valid() && contents == old(contents)[key := value]
    {
      hide BlockList, Placed, Holds, ListOk, Lookup, WithList, WithCluster, HashInt, ClusterID, BlockID;
      var i := FindOrCreateCluster(key);
      ghost var t := hashtable[..];
      ListAt(t, key, i);
      var list := hashtable[HashInt(ClusterID(key))][i].blocks[BlockID(key)];
      var e := FindEntry(list, key);
      InsertedHolds(t, key, value, contents);
      if e < |list| {
        SetList(key, i, list[e := Entry(list[e].key, value)]);
      } else {
        SetList(key, i, [Entry(key, value)] + list);
      }
      contents := contents[key := value];
    }

    method FindAndRemove(key: nat) returns (removed: Option<V>)
      requires Valid()
      modifies this, hashtable
      ensures Valid() && contents == old(contents) - {key}
      ensures removed == if key in old(contents) then Some(old(contents)[key]) else None
    {
      hide BlockList, Placed, Holds, ListOk, Lookup, WithList, HashInt, ClusterID, BlockID;
      ghost var t := hashtable[..];
      var i := FindCluster(key);
      AbsentKey(t, key, contents);
      if i < 0 {
        NoCluster(t, key);
        contents := contents - {key};
        return None;
      }
      ListAt(t, key, i);
      var list := hashtable[HashInt(ClusterID(key))][i].blocks[BlockID(key)];
      var e := FindEntry(list, key);
      if e == |list| {
        contents := contents - {key};
        return None;
      }
      RemovedHolds(t, key, contents);
      FoundValue(t, key, contents);
      removed := Some(list[e].value);
      SetList(key, i, list[..e] + list[e + 1..]);
      contents := contents - {key};
    }

    /* ---- Ranges ---- */

    /** The loop over one list: an entry whose range has the key, or whether an entry is at or
        before it. */
    method ScanList(list: seq<Entry<V>>, size: V -> nat, key: nat) returns (hit: int, hadSmallerKey: bool)
      requires forall i | 0 <= i < |list| :: list[i].key + size(list[i].value) < WORD
      ensures hit == -1 || 0 <= hit < |list|
      ensures hit >= 0 ==> Contains(list[hit].key, size(list[hit].value), key)
      ensures hit == -1 ==> forall i | 0 <= i < |list| :: !Contains(list[i].key, size(list[i].value), key)
      ensures hit == -1 ==> (hadSmallerKey <==> exists i :: 0 <= i < |list| && list[i].key <= key)
    {
      hadSmallerKey := false;
      var i := 0;
      while i < |list|
        invariant i <= |list|
        invariant forall j | 0 <= j < i :: !Contains(list[j].key, size(list[j].value), key)
        invariant hadSmallerKey <==> exists j :: 0 <= j < i && list[j].key <= key
      {
        var e := list[i];
        if e.key <= key {
          if e.key == key || key < (e.key + size(e.value)) % WORD {
            return i, hadSmallerKey;
          }
          hadSmallerKey := true;
        }
        i := i + 1;
      }
      return -1, hadSmallerKey;
    }

    /** The search goes back through the blocks of a cluster, then to the cluster before, as
        long as the end of the block is no further than maxSize from the key. */
    method FindInside(size: V -> nat, maxSize: nat, key: nat) returns (r: Option<Entry<V>>)
      requires Valid() && Ranges(contents, size)
      ensures r.Some? ==> r.value.key in contents && contents[r.value.key] == r.value.value
      ensures r.Some? ==> Contains(r.value.key, size(r.value.value), key) && InReach(r.value.key, key, maxSize)
      ensures r.None? ==> Nowhere(contents, size, maxSize, key)
    {
      hide Placed, Holds, Shaped, BlockList, Contains, InReach, Nowhere, Reached, Ranges, BlockID, ClusterID, HashInt,
        HasCluster;
      ghost var t := hashtable[..];
      var num: nat := key;
      StartsReached(key, maxSize);
      while true
        invariant num <= key && Reached(num, key, maxSize) && NoneAfter(contents, key, num / BLOCK_SIZE)
        decreases num
      {
        var i := FindCluster(num);
        var done, found, last := true, None, num;
        if i >= 0 {
          done, found, last := FindInCluster(size, maxSize, key, num, i);
        } else {
          NoCluster(t, num);
          EmptyCluster(t, contents, key, num);
          done := false;
        }
        if done {
          return found;
        }
        if last < CLUSTER_SIZE {
          NothingBefore(contents, size, maxSize, key, last);
          return None;
        }
        num := last - last % CLUSTER_SIZE + (CLUSTER_SIZE - 1) - CLUSTER_SIZE;
        PreviousCluster(contents, key, last, num);
        if key - num > maxSize {
          TooFar(contents, size, maxSize, key, num);
          return None;
        }
        IsReached(num, key, maxSize);
      }
    }

    /** The inner loop: from the block of num back to the first block of its cluster. */
    method FindInCluster(size: V -> nat, maxSize: nat, key: nat, from: nat, i: nat)
      returns (done: bool, found: Option<Entry<V>>, num: nat)
      requires Valid() && Ranges(contents, size)
      requires from <= key && Reached(from, key, maxSize) && NoneAfter(contents, key, from / BLOCK_SIZE)
      requires HasCluster(hashtable[..], from) &&
        i == ClusterIndex(hashtable[HashInt(ClusterID(from))], ClusterID(from))
      ensures done && found.Some? ==> found.value.key in contents && contents[found.value.key] == found.value.value
      ensures done && found.Some? ==>
        Contains(found.value.key, size(found.value.value), key) && InReach(found.value.key, key, maxSize)
      ensures done && found.None? ==> Nowhere(contents, size, maxSize, key)
      ensures !done ==> num <= from && ClusterID(num) == ClusterID(from) && NoneFrom(contents, key, ClusterID(num))
    {
      hide Placed, Holds, Shaped, BlockList, Contains, InReach, Nowhere, Reached, Ranges, BlockID, ClusterID, HashInt,
        HasCluster;
      ghost var t := hashtable[..];
      num := from;
      while true
        invariant num <= from && ClusterID(num) == ClusterID(from)
        invariant Reached(num, key, maxSize) && NoneAfter(contents, key, num / BLOCK_SIZE)
        decreases num
      {
        SameCluster(t, from, num);
        ListAt(t, num, i);
        var list := hashtable[HashInt(ClusterID(num))][i].blocks[BlockID(num)];
        EntriesHeld(t, contents, num, size);
        var hit, hadSmallerKey := ScanList(list, size, key);
        if hit >= 0 {
          HitInReach(list[hit].key, num, key, maxSize);
          return true, Some(list[hit]), num;
        }
        BlockSearched(t, contents, size, maxSize, key, num);
        if hadSmallerKey {
          return true, None, num;
        }
        if BlockID(num) == 0 {
          FirstBlock(contents, key, num);
          return false, None, num;
        }
        PreviousBlock(num);
        num := num - num % BLOCK_SIZE + (BLOCK_SIZE - 1) - BLOCK_SIZE;
        if key - num > maxSize {
          TooFar(contents, size, maxSize, key, num);
          return true, None, num;
        }
        IsReached(num, key, maxSize);
      }
    }

    /* ---- Iterate ---- */

    /** The callback sees every entry of a list and may change its value. */
    method VisitList(list: seq<Entry<V>>, callback: (nat, V) -> V) returns (after: seq<Entry<V>>)
      ensures after == Mapped(list, callback)
    {
      after := [];
      var i := 0;
      while i < |list|
        invariant i <= |list| && after == Mapped(list[..i], callback)
      {
        assert list[..i + 1] == list[..i] + [list[i]];
        after := after + [Entry(list[i].key, callback(list[i].key, list[i].value))];
        i := i + 1;
      }
      assert list[..i] == list;
    }

    method VisitCluster(h: nat, i: nat, callback: (nat, V) -> V, ghost t: Table<V>, seen: seq<Entry<V>>)
      returns (visited: seq<Entry<V>>)
      requires h < HASH_SIZE == hashtable.Length && Shaped(t) && i < |t[h]| && Placed(t) && Holds(t, contents)
      requires Half(hashtable[..], t, callback, h, i, 0) && Covers(t, contents, seen, h, i, 0)
      modifies hashtable
      ensures Half(hashtable[..], t, callback, h, i + 1, 0) && Covers(t, contents, visited, h, i + 1, 0)
    {
      hide Placed, Holds, Half, Covers, Shaped, BlockList, WithList;
      visited := seen;
      var b := 0;
      while b < CLUSTER_BLOCKS
        invariant 0 <= b <= CLUSTER_BLOCKS
        invariant Half(hashtable[..], t, callback, h, i, b) && Covers(t, contents, visited, h, i, b)
      {
        ghost var cur := hashtable[..];
        HalfLengths(cur, t, callback, h, i, b);
        HalfReads(cur, t, callback, h, i, b);
        var c := hashtable[h][i];
        var list := c.blocks[b];
        CoversStep(t, contents, visited, h, i, b);
        var after := VisitList(list, callback);
        HalfStep(cur, t, callback, h, i, b);
        hashtable[h] := hashtable[h][i := Cluster(c.id, c.blocks[b := after])];
        visited := visited + list;
        b := b + 1;
      }
      NextCluster(hashtable[..], t, callback, contents, visited, h, i);
    }

    /** Every entry is visited once, and its value is what the callback makes of it. */
    method Iterate(callback: (nat, V) -> V) returns (visited: seq<Entry<V>>)
      requires Valid()
      modifies this, hashtable
      ensures Valid() && contents == map k | k in old(contents) :: callback(k, old(contents)[k])
      ensures Lists(visited, old(contents))
    {
      hide Placed, Holds, Half, Covers, Shaped, BlockList, Lists;
      ghost var t := hashtable[..];
      visited := [];
      NothingVisited(t, callback, contents);
      var h := 0;
      while h < HASH_SIZE
        invariant 0 <= h <= HASH_SIZE && contents == old(contents)
        invariant Half(hashtable[..], t, callback, h, 0, 0) && Covers(t, contents, visited, h, 0, 0)
      {
        HalfLengths(hashtable[..], t, callback, h, 0, 0);
        var n, i := |hashtable[h]|, 0;
        while i < n
          invariant 0 <= i <= n == |t[h]| && contents == old(contents)
          invariant Half(hashtable[..], t, callback, h, i, 0) && Covers(t, contents, visited, h, i, 0)
        {
          visited := VisitCluster(h, i, callback, t, visited);
          i := i + 1;
        }
        NextChain(hashtable[..], t, callback, contents, visited, h);
        h := h + 1;
      }
      AllVisited(hashtable[..], t, callback, contents, visited);
      contents := map k | k in contents :: callback(k, contents[k]);
    }
  }

  /* ---- Iterating ---- */

  function Mapped<V>(list: seq<Entry<V>>, callback: (nat, V) -> V): (r: seq<Entry<V>>)
    ensures |r| == |list|
  {
    seq(|list|, i requires 0 <= i < |list| => Entry(list[i].key, callback(list[i].key, list[i].value)))
  }

  /** A listing of a map: every key once, with its value. */
  ghost predicate Lists<V>(visited: seq<Entry<V>>, contents: map<nat, V>) {
    && DistinctKeys(visited)
    && (forall i | 0 <= i < |visited| :: visited[i].key in contents && contents[visited[i].key] == visited[i].value)
    && (forall k | k in contents :: EntryIndex(visited, k) < |visited|)
  }

  /** The list of an address comes before the b-th block of the i-th cluster of chain h. */
  predicate Passed<V>(t: Table<V>, a: nat, h: nat, i: nat, b: nat) {
    var h', i' := HashInt(ClusterID(a)), ClusterIndex(ChainOf(t, a), ClusterID(a));
    h' < h || (h' == h && (i' < i || (i' == i && BlockID(a) < b)))
  }

  /** The state of the iteration: the lists passed have been mapped, the others have not. */
  ghost predicate Half<V>(cur: Table<V>, t: Table<V>, callback: (nat, V) -> V, h: nat, i: nat, b: nat) {
    && Shaped(cur) && Shaped(t)
    && (forall g | 0 <= g < HASH_SIZE :: SameChain(cur[g], t[g]))
    && (forall a: nat ::
      BlockList(cur, a) == if Passed(t, a, h, i, b) then Mapped(BlockList(t, a), callback) else BlockList(t, a))
  }

  predicate SameChain<V>(c: seq<Cluster<V>>, d: seq<Cluster<V>>) {
    |c| == |d| && forall i | 0 <= i < |c| :: c[i].id == d[i].id
  }

  /** The entries passed have been visited. */
  ghost predicate Covers<V>(t: Table<V>, contents: map<nat, V>, visited: seq<Entry<V>>, h: nat, i: nat, b: nat) {
    && DistinctKeys(visited)
    && (forall j | 0 <= j < |visited| :: visited[j].key in contents && contents[visited[j].key] == visited[j].value
          && Passed(t, visited[j].key, h, i, b))
    && (forall k | k in contents && Passed(t, k, h, i, b) :: EntryIndex(visited, k) < |visited|)
  }

  /** An address of the b-th block of the i-th cluster of chain h. */
  function AddressIn<V>(t: Table<V>, h: nat, i: nat, b: nat): nat {
    if h < |t| && i < |t[h]| then t[h][i].id * CLUSTER_SIZE + b * BLOCK_SIZE else 0
  }

  lemma AddressInIs<V>(t: Table<V>, h: nat, i: nat, b: nat)
    requires Shaped(t) && h < HASH_SIZE && i < |t[h]| && b < CLUSTER_BLOCKS
    ensures var a := AddressIn(t, h, i, b);
      && ClusterID(a) == t[h][i].id && HashInt(ClusterID(a)) == h && BlockID(a) == b
      && ClusterIndex(t[h], ClusterID(a)) == i && HasCluster(t, a)
  {
    var id := t[h][i].id;
    var a := AddressIn(t, h, i, b);
    assert a / CLUSTER_SIZE == id && a / BLOCK_SIZE == id * CLUSTER_BLOCKS + b;
    ClusterIndexIs(t[h], i);
  }

  /** The addresses that are passed with this block are those of this block. */
  lemma PassedNext<V>(t: Table<V>, h: nat, i: nat, b: nat, a: nat)
    requires Shaped(t) && h < HASH_SIZE && i < |t[h]| && b < CLUSTER_BLOCKS
    ensures Passed(t, a, h, i, b + 1) <==> Passed(t, a, h, i, b) || a / BLOCK_SIZE == AddressIn(t, h, i, b) / BLOCK_SIZE
    ensures a / BLOCK_SIZE == AddressIn(t, h, i, b) / BLOCK_SIZE ==> !Passed(t, a, h, i, b)
  {
    hide HashInt, ClusterID, BlockID, Shaped, AddressIn;
    AddressInIs(t, h, i, b);
    SameBlock(a, AddressIn(t, h, i, b));
  }

  lemma HalfLengths<V>(cur: Table<V>, t: Table<V>, callback: (nat, V) -> V, h: nat, i: nat, b: nat)
    requires Half(cur, t, callback, h, i, b)
    ensures |cur| == |t| == HASH_SIZE && Shaped(cur) && Shaped(t) && (h < HASH_SIZE ==> |cur[h]| == |t[h]|)
  {
  }

  lemma HalfReads<V>(cur: Table<V>, t: Table<V>, callback: (nat, V) -> V, h: nat, i: nat, b: nat)
    requires Half(cur, t, callback, h, i, b) && h < HASH_SIZE && |t| == HASH_SIZE && i < |t[h]| && b < CLUSTER_BLOCKS
    ensures |cur| == HASH_SIZE && i < |cur[h]| && b < |cur[h][i].blocks|
    ensures cur[h][i].blocks[b] == BlockList(t, AddressIn(t, h, i, b))
  {
    hide HashInt, ClusterID, BlockID, BlockList, Mapped;
    var a := AddressIn(t, h, i, b);
    AddressInIs(t, h, i, b);
    PassedNext(t, h, i, b, a);
    CurrentList(cur, t, h, i, b);
    assert BlockList(cur, a) == if Passed(t, a, h, i, b) then Mapped(BlockList(t, a), callback) else BlockList(t, a);
  }

  lemma CurrentList<V>(cur: Table<V>, t: Table<V>, h: nat, i: nat, b: nat)
    requires Shaped(cur) && Shaped(t) && h < HASH_SIZE && SameChain(cur[h], t[h]) && i < |t[h]| && b < CLUSTER_BLOCKS
    ensures var a := AddressIn(t, h, i, b);
      HasCluster(cur, a) && ClusterIndex(cur[h], ClusterID(a)) == i && BlockList(cur, a) == cur[h][i].blocks[b]
  {
    hide HashInt, ClusterID, BlockID;
    AddressInIs(t, h, i, b);
    SameIds(cur[h], t[h], ClusterID(AddressIn(t, h, i, b)));
  }

  lemma HalfStep<V>(cur: Table<V>, t: Table<V>, callback: (nat, V) -> V, h: nat, i: nat, b: nat)
    requires Half(cur, t, callback, h, i, b) && h < HASH_SIZE && |t| == HASH_SIZE && i < |t[h]| && b < CLUSTER_BLOCKS
    requires |cur| == HASH_SIZE && i < |cur[h]| && b < |cur[h][i].blocks|
    ensures var c := cur[h][i];
      var after := Mapped(c.blocks[b], callback);
      Half(cur[h := cur[h][i := Cluster(c.id, c.blocks[b := after])]], t, callback, h, i, b + 1)
  {
    hide HashInt, ClusterID, BlockID, BlockList, Mapped, Passed, DistinctIds;
    var a := AddressIn(t, h, i, b);
    var c := cur[h][i];
    var after := Mapped(c.blocks[b], callback);
    var cur' := cur[h := cur[h][i := Cluster(c.id, c.blocks[b := after])]];
    HalfReads(cur, t, callback, h, i, b);
    AddressInIs(t, h, i, b);
    CurrentList(cur, t, h, i, b);
    assert cur' == WithList(cur, a, after);
    WithListKeeps(cur, a, after);
    forall x: nat
      ensures BlockList(cur', x) == if Passed(t, x, h, i, b + 1) then Mapped(BlockList(t, x), callback)
        else BlockList(t, x)
    {
      PassedNext(t, h, i, b, x);
      assert BlockList(cur, x) == if Passed(t, x, h, i, b) then Mapped(BlockList(t, x), callback) else BlockList(t, x);
      if x / BLOCK_SIZE == a / BLOCK_SIZE {
        BlockOf(t, x, a);
      }
    }
  }

  lemma CoversStep<V>(t: Table<V>, contents: map<nat, V>, visited: seq<Entry<V>>, h: nat, i: nat, b: nat)
    requires Shaped(t) && Placed(t) && Holds(t, contents) && Covers(t, contents, visited, h, i, b)
    requires h < HASH_SIZE && i < |t[h]| && b < CLUSTER_BLOCKS
    ensures Covers(t, contents, visited + BlockList(t, AddressIn(t, h, i, b)), h, i, b + 1)
  {
    hide Shaped, Placed, Holds, BlockList, Passed, AddressIn;
    var a := AddressIn(t, h, i, b);
    var list := BlockList(t, a);
    var all := visited + list;
    EntriesKnown(t, contents, a);
    forall j | 0 <= j < |all|
      ensures all[j].key in contents && contents[all[j].key] == all[j].value && Passed(t, all[j].key, h, i, b + 1)
    {
      PassedNext(t, h, i, b, all[j].key);
      assert j >= |visited| ==> all[j] == list[j - |visited|];
    }
    forall j, k | 0 <= j < k < |all| ensures all[j].key != all[k].key {
      assert j >= |visited| ==> all[j] == list[j - |visited|];
      assert k >= |visited| ==> all[k] == list[k - |visited|];
      PassedNext(t, h, i, b, all[k].key);
    }
    forall k | k in contents && Passed(t, k, h, i, b + 1) ensures EntryIndex(all, k) < |all| {
      PassedNext(t, h, i, b, k);
      if Passed(t, k, h, i, b) {
        assert all[EntryIndex(visited, k)].key == k;
      } else {
        BlockOf(t, k, a);
        HeldEntry(t, contents, k);
        assert all[|visited| + EntryIndex(list, k)].key == k;
      }
    }
  }

  lemma NothingVisited<V>(t: Table<V>, callback: (nat, V) -> V, contents: map<nat, V>)
    requires Shaped(t)
    ensures Half(t, t, callback, 0, 0, 0) && Covers(t, contents, [], 0, 0, 0)
  {
    hide BlockList, Shaped;
  }

  lemma NextCluster<V>(cur: Table<V>, t: Table<V>, callback: (nat, V) -> V, contents: map<nat, V>,
                       visited: seq<Entry<V>>, h: nat, i: nat)
    requires Half(cur, t, callback, h, i, CLUSTER_BLOCKS) && Covers(t, contents, visited, h, i, CLUSTER_BLOCKS)
    ensures Half(cur, t, callback, h, i + 1, 0) && Covers(t, contents, visited, h, i + 1, 0)
  {
    hide BlockList, Shaped, HashInt, ClusterID, ClusterIndex, DistinctKeys, EntryIndex, SameChain, BlockID, Mapped;
    assert forall a: nat :: Passed(t, a, h, i + 1, 0) == Passed(t, a, h, i, CLUSTER_BLOCKS);
  }

  lemma NextChain<V>(cur: Table<V>, t: Table<V>, callback: (nat, V) -> V, contents: map<nat, V>,
                     visited: seq<Entry<V>>, h: nat)
    requires h < HASH_SIZE && |t| == HASH_SIZE && Holds(t, contents)
    requires Half(cur, t, callback, h, |t[h]|, 0) && Covers(t, contents, visited, h, |t[h]|, 0)
    ensures Half(cur, t, callback, h + 1, 0, 0) && Covers(t, contents, visited, h + 1, 0, 0)
  {
    hide BlockList, Shaped, HashInt, ClusterID, ClusterIndex, DistinctKeys, EntryIndex, SameChain, BlockID, Passed,
      Holds;
    forall a: nat
      ensures Passed(t, a, h + 1, 0, 0) == Passed(t, a, h, |t[h]|, 0) ||
        (BlockList(t, a) == [] && !Passed(t, a, h, |t[h]|, 0))
    {
      LastCluster(t, h, a);
    }
    forall k | k in contents ensures Passed(t, k, h + 1, 0, 0) == Passed(t, k, h, |t[h]|, 0) {
      HeldEntry(t, contents, k);
    }
    forall a: nat
      ensures BlockList(cur, a) == if Passed(t, a, h + 1, 0, 0) then Mapped(BlockList(t, a), callback)
        else BlockList(t, a)
    {
      assert BlockList(cur, a) == if Passed(t, a, h, |t[h]|, 0) then Mapped(BlockList(t, a), callback)
        else BlockList(t, a);
      assert Passed(t, a, h + 1, 0, 0) == Passed(t, a, h, |t[h]|, 0) || BlockList(t, a) == [];
    }
  }

  /** Past the last cluster of a chain there are only addresses without a cluster. */
  lemma LastCluster<V>(t: Table<V>, h: nat, a: nat)
    requires |t| == HASH_SIZE && h < HASH_SIZE
    ensures Passed(t, a, h + 1, 0, 0) == Passed(t, a, h, |t[h]|, 0) ||
      (BlockList(t, a) == [] && !Passed(t, a, h, |t[h]|, 0))
  {
    hide HashInt, ClusterID, BlockID;
  }

  lemma AllVisited<V>(cur: Table<V>, t: Table<V>, callback: (nat, V) -> V, contents: map<nat, V>,
                      visited: seq<Entry<V>>)
    requires Half(cur, t, callback, HASH_SIZE, 0, 0) && Covers(t, contents, visited, HASH_SIZE, 0, 0)
    requires Placed(t) && Holds(t, contents)
    ensures Lists(visited, contents)
    ensures Shaped(cur) && Placed(cur) && Holds(cur, map k | k in contents :: callback(k, contents[k]))
  {
    hide BlockList, Shaped, ListOk, Lookup;
    var after := map k | k in contents :: callback(k, contents[k]);
    forall a: nat ensures BlockList(cur, a) == Mapped(BlockList(t, a), callback) {
      assert Passed(t, a, HASH_SIZE, 0, 0);
    }
    forall a: nat ensures ListOk(BlockList(cur, a), a) {
      assert ListOk(BlockList(t, a), a);
      MappedList(BlockList(t, a), callback, a, a);
    }
    forall key: nat ensures Found(cur, key) == if key in after then Some(after[key]) else None {
      assert ListOk(BlockList(t, key), key);
      assert Found(t, key) == if key in contents then Some(contents[key]) else None;
      MappedList(BlockList(t, key), callback, key, key);
    }
  }

  lemma MappedList<V>(list: seq<Entry<V>>, callback: (nat, V) -> V, address: nat, key: nat)
    requires ListOk(list, address)
    ensures ListOk(Mapped(list, callback), address)
    ensures Lookup(Mapped(list, callback), key) ==
      match Lookup(list, key) case None => None case Some(v) => Some(callback(key, v))
  {
    SameKeys(list, Mapped(list, callback), key);
  }

  /* ---- Searching back ---- */

  /** The range [k, k + n) has the key; so does an empty range that starts there. */
  predicate Contains(k: nat, n: nat, key: nat) {
    k == key || (k < key && key < k + n)
  }

  /** The last address of the block that k is in. */
  function BlockEnd(k: nat): nat {
    k - k % BLOCK_SIZE + (BLOCK_SIZE - 1)
  }

  /** The search gets as far back as k: its block is that of the key, or ends close enough. */
  predicate InReach(k: nat, key: nat, maxSize: nat) {
    k / BLOCK_SIZE == key / BLOCK_SIZE || key - BlockEnd(k) <= maxSize
  }

  predicate Reached(num: nat, key: nat, maxSize: nat) {
    num == key || (num % BLOCK_SIZE == BLOCK_SIZE - 1 && key - num <= maxSize)
  }

  /** No range in reach has the key. */
  predicate Nowhere<V>(contents: map<nat, V>, size: V -> nat, maxSize: nat, key: nat) {
    forall k | k in contents && InReach(k, key, maxSize) :: !Contains(k, size(contents[k]), key)
  }

  /** If no range is longer than maxSize, every range is in reach of its own addresses. */
  lemma LongestIsInReach(k: nat, n: nat, key: nat, maxSize: nat)
    requires Contains(k, n, key) && n <= maxSize
    ensures InReach(k, key, maxSize)
  {
  }

  lemma StartsReached(key: nat, maxSize: nat)
    ensures Reached(key, key, maxSize)
  {
  }

  lemma IsReached(num: nat, key: nat, maxSize: nat)
    requires num % BLOCK_SIZE == BLOCK_SIZE - 1 && key - num <= maxSize
    ensures Reached(num, key, maxSize)
  {
  }

  lemma HitInReach(k: nat, num: nat, key: nat, maxSize: nat)
    requires Reached(num, key, maxSize) && k / BLOCK_SIZE == num / BLOCK_SIZE
    ensures InReach(k, key, maxSize)
  {
  }

  /** The keys are the starts of ranges of addresses of which none reaches the next start. */
  predicate Ranges<V>(contents: map<nat, V>, size: V -> nat) {
    && (forall k | k in contents :: k + size(contents[k]) < WORD)
    && (forall k, l | k in contents && l in contents && k < l :: k + size(contents[k]) <= l)
  }

  /** Keys up to the given one are in blocks up to b. */
  predicate NoneAfter<V>(contents: map<nat, V>, key: nat, b: nat) {
    forall k | k in contents && k <= key :: k / BLOCK_SIZE <= b
  }

  /** They are in clusters before c. */
  predicate NoneFrom<V>(contents: map<nat, V>, key: nat, c: nat) {
    forall k | k in contents && k <= key :: ClusterID(k) < c
  }

  /** At most one range contains a key. */
  lemma OnlyOne<V>(contents: map<nat, V>, size: V -> nat, key: nat, k: nat, l: nat)
    requires Ranges(contents, size) && k in contents && l in contents
    requires Contains(k, size(contents[k]), key) && Contains(l, size(contents[l]), key)
    ensures k == l
  {
  }

  lemma EntriesKnown<V>(t: Table<V>, contents: map<nat, V>, address: nat)
    requires Placed(t) && Holds(t, contents)
    ensures var list := BlockList(t, address);
      DistinctKeys(list) && forall i | 0 <= i < |list| ::
        && list[i].key in contents && contents[list[i].key] == list[i].value
        && list[i].key / BLOCK_SIZE == address / BLOCK_SIZE
  {
    hide BlockList;
    BlockAgrees(t, address, contents);
    var list := BlockList(t, address);
    forall i | 0 <= i < |list|
      ensures list[i].key in contents && contents[list[i].key] == list[i].value
    {
      IndexIs(list, i);
      assert Lookup(list, list[i].key) == Some(list[i].value);
    }
  }

  lemma EntriesHeld<V>(t: Table<V>, contents: map<nat, V>, address: nat, size: V -> nat)
    requires Placed(t) && Holds(t, contents) && Ranges(contents, size)
    ensures var list := BlockList(t, address);
      forall i | 0 <= i < |list| ::
        && list[i].key in contents && contents[list[i].key] == list[i].value
        && list[i].key / BLOCK_SIZE == address / BLOCK_SIZE
        && list[i].key + size(list[i].value) < WORD
  {
    hide BlockList, Placed, Holds;
    EntriesKnown(t, contents, address);
  }

  lemma HeldEntry<V>(t: Table<V>, contents: map<nat, V>, k: nat)
    requires Holds(t, contents) && k in contents
    ensures var list := BlockList(t, k); var i := EntryIndex(list, k);
      i < |list| && list[i] == Entry(k, contents[k])
  {
    hide BlockList;
    assert Found(t, k) == if k in contents then Some(contents[k]) else None;
  }

  /** With the block of num searched in vain: if a key of it is at or before the one looked for,
      no range has that; else every key that is, is in an earlier block. */
  lemma BlockSearched<V>(t: Table<V>, contents: map<nat, V>, size: V -> nat, maxSize: nat, key: nat, num: nat)
    requires Placed(t) && Holds(t, contents) && Ranges(contents, size)
    requires num <= key && NoneAfter(contents, key, num / BLOCK_SIZE)
    requires var list := BlockList(t, num);
      forall i | 0 <= i < |list| :: !Contains(list[i].key, size(list[i].value), key)
    ensures var list := BlockList(t, num);
      if exists i :: 0 <= i < |list| && list[i].key <= key
      then Nowhere(contents, size, maxSize, key)
      else forall k | k in contents && k <= key :: k / BLOCK_SIZE < num / BLOCK_SIZE
  {
    hide BlockList, Placed, Holds;
    var list := BlockList(t, num);
    EntriesHeld(t, contents, num, size);
    forall k | k in contents && k / BLOCK_SIZE == num / BLOCK_SIZE
      ensures exists i :: 0 <= i < |list| && list[i] == Entry(k, contents[k])
    {
      HeldEntry(t, contents, k);
      BlockOf(t, k, num);
    }
  }

  lemma EmptyCluster<V>(t: Table<V>, contents: map<nat, V>, key: nat, num: nat)
    requires Shaped(t) && Holds(t, contents) && !HasCluster(t, num)
    requires num <= key && NoneAfter(contents, key, num / BLOCK_SIZE)
    ensures NoneFrom(contents, key, ClusterID(num))
  {
    hide HashInt, ClusterID, Shaped, Holds, HasCluster, BlockList;
    forall k | k in contents && k <= key ensures ClusterID(k) < ClusterID(num) {
      HeldEntry(t, contents, k);
      ListHasCluster(t, k);
      SameCluster(t, k, num);
      ClusterOrder(k, num);
    }
  }

  lemma ListHasCluster<V>(t: Table<V>, address: nat)
    requires BlockList(t, address) != []
    ensures HasCluster(t, address)
  {
  }

  lemma SameCluster<V>(t: Table<V>, a: nat, b: nat)
    ensures ClusterID(a) == ClusterID(b) ==> HasCluster(t, a) == HasCluster(t, b)
  {
  }

  lemma ClusterOrder(a: nat, b: nat)
    requires a / BLOCK_SIZE <= b / BLOCK_SIZE
    ensures ClusterID(a) <= ClusterID(b)
  {
    BlockSplits(a);
    BlockSplits(b);
  }

  lemma FirstBlock<V>(contents: map<nat, V>, key: nat, num: nat)
    requires BlockID(num) == 0
    requires forall k | k in contents && k <= key :: k / BLOCK_SIZE < num / BLOCK_SIZE
    ensures NoneFrom(contents, key, ClusterID(num))
  {
    BlockSplits(num);
    forall k | k in contents && k <= key ensures ClusterID(k) < ClusterID(num) {
      BlockSplits(k);
    }
  }

  lemma PreviousBlock(num: nat)
    requires BlockID(num) != 0
    ensures num - num % BLOCK_SIZE >= 1
    ensures var p := num - num % BLOCK_SIZE - 1;
      ClusterID(p) == ClusterID(num) && p / BLOCK_SIZE == num / BLOCK_SIZE - 1
  {
    BlockSplits(num);
    var p := num - num % BLOCK_SIZE - 1;
    assert num == num / BLOCK_SIZE * BLOCK_SIZE + num % BLOCK_SIZE;
    assert p == (num / BLOCK_SIZE - 1) * BLOCK_SIZE + 127;
    assert p / BLOCK_SIZE == num / BLOCK_SIZE - 1;
    BlockSplits(p);
  }

  lemma PreviousCluster<V>(contents: map<nat, V>, key: nat, last: nat, num: nat)
    requires last >= CLUSTER_SIZE && num == last - last % CLUSTER_SIZE - 1 && NoneFrom(contents, key, ClusterID(last))
    ensures NoneAfter(contents, key, num / BLOCK_SIZE) && num % BLOCK_SIZE == BLOCK_SIZE - 1
  {
    var c := ClusterID(last);
    assert last == c * CLUSTER_SIZE + last % CLUSTER_SIZE;
    assert num == (c * CLUSTER_BLOCKS - 1) * BLOCK_SIZE + 127;
    assert num / BLOCK_SIZE == c * CLUSTER_BLOCKS - 1;
    forall k | k in contents && k <= key ensures k / BLOCK_SIZE <= num / BLOCK_SIZE {
      BlockSplits(k);
    }
  }

  lemma NothingBefore<V>(contents: map<nat, V>, size: V -> nat, maxSize: nat, key: nat, last: nat)
    requires last < CLUSTER_SIZE && NoneFrom(contents, key, ClusterID(last))
    ensures Nowhere(contents, size, maxSize, key)
  {
  }

  /** What starts in the block that ends at num, or before, is out of reach. */
  lemma TooFar<V>(contents: map<nat, V>, size: V -> nat, maxSize: nat, key: nat, num: nat)
    requires key - num > maxSize && num % BLOCK_SIZE == BLOCK_SIZE - 1
    requires NoneAfter(contents, key, num / BLOCK_SIZE)
    ensures Nowhere(contents, size, maxSize, key)
  {
    forall k | k in contents && k <= key ensures !InReach(k, key, maxSize) {
      assert k / BLOCK_SIZE <= num / BLOCK_SIZE;
      assert BlockEnd(k) <= num;
    }
  }

  lemma SameListsHold<V>(t: Table<V>, t': Table<V>, contents: map<nat, V>)
    requires Shaped(t) && Shaped(t') && Placed(t) && Holds(t, contents)
    requires forall a: nat :: BlockList(t', a) == BlockList(t, a)
    ensures Placed(t') && Holds(t', contents)
  {
    hide BlockList, Shaped, ListOk, Lookup;
    forall a: nat ensures ListOk(BlockList(t', a), a) {
      assert ListOk(BlockList(t, a), a);
    }
    forall key: nat ensures Found(t', key) == if key in contents then Some(contents[key]) else None {
      assert Found(t, key) == if key in contents then Some(contents[key]) else None;
    }
  }

  lemma ListAt<V>(t: Table<V>, address: nat, i: nat)
    requires Shaped(t) && HasCluster(t, address) &&
      i == ClusterIndex(t[HashInt(ClusterID(address))], ClusterID(address))
    ensures i < |t[HashInt(ClusterID(address))]|
    ensures BlockID(address) < |t[HashInt(ClusterID(address))][i].blocks|
    ensures t[HashInt(ClusterID(address))][i].blocks[BlockID(address)] == BlockList(t, address)
  {
  }

  lemma NoCluster<V>(t: Table<V>, address: nat)
    requires Shaped(t)
    requires !HasCluster(t, address)
    ensures BlockList(t, address) == []
  {
  }

  lemma InsertedHolds<V>(t: Table<V>, key: nat, value: V, contents: map<nat, V>)
    requires Shaped(t) && HasCluster(t, key) && Placed(t) && Holds(t, contents)
    ensures var t' := WithList(t, key, Inserted(BlockList(t, key), key, value));
      Shaped(t') && Placed(t') && Holds(t', contents[key := value])
  {
    hide BlockList, Shaped, HasCluster, WithList, Placed, Holds, ListOk, Agrees;
    BlockAgrees(t, key, contents);
    InsertedAgrees(BlockList(t, key), key, value, contents);
    assert contents - {key} == contents[key := value] - {key};
    ListReplaced(t, key, Inserted(BlockList(t, key), key, value), contents, contents[key := value]);
  }

  function Inserted<V>(list: seq<Entry<V>>, key: nat, value: V): seq<Entry<V>> {
    var e := EntryIndex(list, key);
    if e < |list| then list[e := Entry(list[e].key, value)] else [Entry(key, value)] + list
  }

  lemma InsertedAgrees<V>(list: seq<Entry<V>>, key: nat, value: V, contents: map<nat, V>)
    requires ListOk(list, key) && Agrees(list, key, contents)
    ensures ListOk(Inserted(list, key, value), key) && Agrees(Inserted(list, key, value), key, contents[key := value])
  {
    hide Lookup, DistinctKeys, ListOk;
    var e, list' := EntryIndex(list, key), Inserted(list, key, value);
    if e < |list| {
      Overwritten(list, e, value, key, key);
    } else {
      Prepended(list, Entry(key, value), key);
    }
    forall k: nat ensures Lookup(list', k) == if k == key then Some(value) else Lookup(list, k) {
      if e < |list| {
        Overwritten(list, e, value, key, k);
      } else {
        Prepended(list, Entry(key, value), k);
      }
    }
  }

  lemma FoundValue<V>(t: Table<V>, key: nat, contents: map<nat, V>)
    requires Holds(t, contents) && EntryIndex(BlockList(t, key), key) < |BlockList(t, key)|
    ensures key in contents && contents[key] == BlockList(t, key)[EntryIndex(BlockList(t, key), key)].value
  {
    hide BlockList;
    assert Found(t, key) == if key in contents then Some(contents[key]) else None;
  }

  lemma AbsentKey<V>(t: Table<V>, key: nat, contents: map<nat, V>)
    requires Holds(t, contents)
    ensures EntryIndex(BlockList(t, key), key) == |BlockList(t, key)| <==> key !in contents
    ensures key !in contents ==> contents - {key} == contents
  {
    hide BlockList;
    assert Found(t, key) == if key in contents then Some(contents[key]) else None;
  }

  function Dropped<V>(list: seq<Entry<V>>, key: nat): seq<Entry<V>> {
    var e := EntryIndex(list, key);
    if e < |list| then list[..e] + list[e + 1..] else list
  }

  lemma RemovedHolds<V>(t: Table<V>, key: nat, contents: map<nat, V>)
    requires Shaped(t) && HasCluster(t, key) && Placed(t) && Holds(t, contents)
    ensures var t' := WithList(t, key, Dropped(BlockList(t, key), key));
      Shaped(t') && Placed(t') && Holds(t', contents - {key})
  {
    hide BlockList, Shaped, HasCluster, WithList, Placed, Holds, ListOk, Agrees;
    BlockAgrees(t, key, contents);
    DroppedAgrees(BlockList(t, key), key, contents);
    assert contents - {key} == contents - {key} - {key};
    ListReplaced(t, key, Dropped(BlockList(t, key), key), contents, contents - {key});
  }

  lemma DroppedAgrees<V>(list: seq<Entry<V>>, key: nat, contents: map<nat, V>)
    requires ListOk(list, key) && Agrees(list, key, contents)
    ensures ListOk(Dropped(list, key), key) && Agrees(Dropped(list, key), key, contents - {key})
  {
    hide DistinctKeys, ListOk;
    var e, list' := EntryIndex(list, key), Dropped(list, key);
    if e < |list| {
      Removed(list, e, key, key);
    }
    forall k: nat ensures Lookup(list', k) == if k == key then None else Lookup(list, k) {
      if e < |list| {
        Removed(list, e, key, k);
      }
    }
  }
}
