/** The allocation map of the heap profile and its live bits (heap-profile-table.h,
    heap-profile-table.cc): marking, and the snapshot of what was not marked. */
module HeapProfile {
  import opened Options
  import AM = AddressMap

  /** A bucket's address with two flags in its low bits: buckets are aligned to four bytes. */
  datatype AllocValue = AllocValue(bytes: nat, bucketRep: nat) {
    function Bucket(): nat { bucketRep - bucketRep % 4 }

    predicate Live() { bucketRep % 4 == 1 || bucketRep % 4 == 3 }

    predicate Ignore() { bucketRep % 4 >= 2 }

    function SetLive(l: bool): AllocValue {
      this.(bucketRep := Bucket() + (if Ignore() then 2 else 0) + if l then 1 else 0)
    }

    function SetIgnore(r: bool): AllocValue {
      this.(bucketRep := Bucket() + (if r then 2 else 0) + if Live() then 1 else 0)
    }
  }

  /** set_bucket. */
  function NewValue(bytes: nat, bucket: nat): AllocValue {
    AllocValue(bytes, bucket)
  }

  lemma Low(bucket: nat, flags: nat)
    requires bucket % 4 == 0 && flags < 4
    ensures (bucket + flags) % 4 == flags
  {
  }

  /** The three parts of the packed word do not disturb each other. */
  lemma PackLive(v: AllocValue, f: bool)
    ensures v.SetLive(f).Live() == f && v.SetLive(f).Ignore() == v.Ignore() && v.SetLive(f).Bucket() == v.Bucket()
    ensures v.SetLive(f).bytes == v.bytes
  {
    Low(v.Bucket(), (if v.Ignore() then 2 else 0) + if f then 1 else 0);
  }

  lemma PackIgnore(v: AllocValue, f: bool)
    ensures v.SetIgnore(f).Ignore() == f && v.SetIgnore(f).Live() == v.Live() && v.SetIgnore(f).Bucket() == v.Bucket()
    ensures v.SetIgnore(f).bytes == v.bytes
  {
    Low(v.Bucket(), (if f then 2 else 0) + if v.Live() then 1 else 0);
  }

  lemma PackBucket(bytes: nat, bucket: nat)
    requires bucket % 4 == 0
    ensures var v := NewValue(bytes, bucket); v.Bucket() == bucket && !v.Live() && !v.Ignore()
  {
  }

  function Bytes(v: AllocValue): nat { v.bytes }

  function Live(contents: map<nat, AllocValue>): set<nat> {
    set k | k in contents && contents[k].Live()
  }

  function Ignored(contents: map<nat, AllocValue>): set<nat> {
    set k | k in contents && contents[k].Ignore()
  }

  function Buckets(contents: map<nat, AllocValue>): map<nat, nat> {
    map k | k in contents :: contents[k].Bucket()
  }

  function Sizes(contents: map<nat, AllocValue>): map<nat, nat> {
    map k | k in contents :: contents[k].bytes
  }

  /** What NonLiveSnapshot is to contain. The ignore bit plays no part. */
  function NonLive(contents: map<nat, AllocValue>, base: map<nat, AllocValue>): map<nat, AllocValue> {
    map k | k in contents && !contents[k].Live() && k !in base :: contents[k]
  }

  /** No ignored object is reported if and only if each of them is live or in the base. */
  lemma IgnoredAreSkipped(contents: map<nat, AllocValue>, base: map<nat, AllocValue>)
    ensures (forall k | k in NonLive(contents, base) :: !contents[k].Ignore()) <==>
      Ignored(contents) <= Live(contents) + base.Keys
  {
    forall k | k in contents && contents[k].Ignore()
      ensures k in NonLive(contents, base) <==> k !in Live(contents) + base.Keys
    {
    }
    if Ignored(contents) <= Live(contents) + base.Keys {
      forall k | k in NonLive(contents, base)
        ensures !contents[k].Ignore()
      {
        assert contents[k].Ignore() ==> k in Ignored(contents);
      }
    }
  }

  /** An object that is marked as ignored, and reported all the same. */
  lemma IgnoredIsReported()
    ensures var v := NewValue(8, 4).SetIgnore(true);
      v.Ignore() && NonLive(map[16 := v], map[]) == map[16 := v]
  {
    PackIgnore(NewValue(8, 4), true);
  }

  /** The bytes of a set of allocations. */
  ghost function Volume(sizes: map<nat, nat>, s: set<nat>): nat {
    if s == {} then 0 else var k :| k in s; (if k in sizes then sizes[k] else 0) + Volume(sizes, s - {k})
  }

  lemma {:induction false} VolumeWith(sizes: map<nat, nat>, s: set<nat>, k: nat)
    requires k in s
    ensures Volume(sizes, s) == (if k in sizes then sizes[k] else 0) + Volume(sizes, s - {k})
    decreases |s|
  {
    var j :| j in s && Volume(sizes, s) == (if j in sizes then sizes[j] else 0) + Volume(sizes, s - {j});
    if j != k {
      VolumeWith(sizes, s - {j}, k);
      VolumeWith(sizes, s - {k}, j);
      assert s - {j} - {k} == s - {k} - {j};
    }
  }

  lemma VolumeAdded(sizes: map<nat, nat>, s: set<nat>, k: nat)
    requires k !in s && k in sizes
    ensures Volume(sizes, s + {k}) == Volume(sizes, s) + sizes[k]
  {
    VolumeWith(sizes, s + {k}, k);
    assert s + {k} - {k} == s;
  }

  lemma {:induction false} VolumeSame(sizes: map<nat, nat>, sizes': map<nat, nat>, s: set<nat>)
    requires forall k | k in s :: k in sizes && k in sizes' && sizes[k] == sizes'[k]
    ensures Volume(sizes, s) == Volume(sizes', s)
    decreases |s|
  {
    if s != {} {
      var k :| k in s;
      VolumeWith(sizes, s, k);
      VolumeWith(sizes', s, k);
      VolumeSame(sizes, sizes', s - {k});
    }
  }

  /* ---- Statistics ---- */

  /** What a bucket, or the whole table, counts. */
  datatype Stats = Stats(allocs: int, frees: int, allocSize: int, freeSize: int) {
    function Allocated(bytes: nat): Stats { this.(allocs := allocs + 1, allocSize := allocSize + bytes) }

    function Freed(bytes: nat): Stats { this.(frees := frees + 1, freeSize := freeSize + bytes) }
  }

  const NO_STATS := Stats(0, 0, 0, 0)

  function Of(stats: map<nat, Stats>, bucket: nat): Stats {
    if bucket in stats then stats[bucket] else NO_STATS
  }

  function InBucket(buckets: map<nat, nat>, bucket: nat): set<nat> {
    set k | k in buckets && buckets[k] == bucket
  }

  /** What has been allocated and not freed is just these allocations. */
  ghost predicate Counts(s: Stats, sizes: map<nat, nat>, objects: set<nat>) {
    s.allocs - s.frees == |objects| && s.allocSize - s.freeSize == Volume(sizes, objects)
  }

  /** The table and every bucket count what is recorded. */
  ghost predicate Balanced(total: Stats, stats: map<nat, Stats>, sizes: map<nat, nat>, buckets: map<nat, nat>) {
    && Counts(total, sizes, sizes.Keys)
    && forall b: nat :: Counts(Of(stats, b), sizes, InBucket(buckets, b))
  }

  lemma CountsOne(s: Stats, sizes: map<nat, nat>, objects: set<nat>, ptr: nat, bytes: nat)
    requires objects <= sizes.Keys && ptr !in sizes
    ensures Counts(s, sizes, objects) <==> Counts(s, sizes[ptr := bytes], objects)
    ensures Counts(s, sizes, objects) <==> Counts(s.Allocated(bytes), sizes[ptr := bytes], objects + {ptr})
  {
    VolumeSame(sizes, sizes[ptr := bytes], objects);
    VolumeAdded(sizes[ptr := bytes], objects, ptr);
  }

  lemma CountsLess(s: Stats, sizes: map<nat, nat>, objects: set<nat>, ptr: nat)
    requires objects <= sizes.Keys && ptr in sizes
    ensures ptr !in objects ==> (Counts(s, sizes, objects) <==> Counts(s, sizes - {ptr}, objects))
    ensures ptr in objects ==>
      (Counts(s, sizes, objects) <==> Counts(s.Freed(sizes[ptr]), sizes - {ptr}, objects - {ptr}))
  {
    if ptr in objects {
      VolumeWith(sizes, objects, ptr);
      VolumeSame(sizes, sizes - {ptr}, objects - {ptr});
    } else {
      VolumeSame(sizes, sizes - {ptr}, objects);
    }
  }

  /** A new allocation keeps the balance if and only if its address is not recorded already. */
  lemma BalanceAllocated(total: Stats, stats: map<nat, Stats>, sizes: map<nat, nat>, buckets: map<nat, nat>,
                         ptr: nat, bytes: nat, bucket: nat)
    requires Balanced(total, stats, sizes, buckets) && sizes.Keys == buckets.Keys
    ensures var stats' := stats[bucket := Of(stats, bucket).Allocated(bytes)];
      ptr !in sizes <==> Balanced(total.Allocated(bytes), stats', sizes[ptr := bytes], buckets[ptr := bucket])
  {
    hide Counts, InBucket;
    var sizes', buckets', stats' :=
      sizes[ptr := bytes], buckets[ptr := bucket], stats[bucket := Of(stats, bucket).Allocated(bytes)];
    if ptr in sizes {
      assert sizes'.Keys == sizes.Keys;
      CountsAnother(total, sizes, sizes', sizes.Keys, bytes);
    } else {
      assert sizes'.Keys == sizes.Keys + {ptr};
      CountsOne(total, sizes, sizes.Keys, ptr, bytes);
      forall b: nat ensures Counts(Of(stats', b), sizes', InBucket(buckets', b)) {
        BucketAllocated(buckets, ptr, bucket, b);
        CountsOne(Of(stats, b), sizes, InBucket(buckets, b), ptr, bytes);
      }
    }
  }

  lemma CountsAnother(s: Stats, sizes: map<nat, nat>, sizes': map<nat, nat>, objects: set<nat>, bytes: nat)
    requires Counts(s, sizes, objects)
    ensures !Counts(s.Allocated(bytes), sizes', objects)
  {
  }

  lemma BucketAllocated(buckets: map<nat, nat>, ptr: nat, bucket: nat, b: nat)
    requires ptr !in buckets
    ensures InBucket(buckets, b) <= buckets.Keys
    ensures InBucket(buckets[ptr := bucket], b) == if b == bucket then InBucket(buckets, b) + {ptr}
      else InBucket(buckets, b)
  {
  }

  lemma BucketFreed(buckets: map<nat, nat>, ptr: nat, b: nat)
    requires ptr in buckets
    ensures InBucket(buckets, b) <= buckets.Keys && (ptr in InBucket(buckets, b) <==> b == buckets[ptr])
    ensures InBucket(buckets - {ptr}, b) == InBucket(buckets, b) - {ptr}
  {
  }

  lemma BalanceFreed(total: Stats, stats: map<nat, Stats>, sizes: map<nat, nat>, buckets: map<nat, nat>, ptr: nat)
    requires Balanced(total, stats, sizes, buckets) && sizes.Keys == buckets.Keys && ptr in sizes
    ensures Balanced(total.Freed(sizes[ptr]), stats[buckets[ptr] := Of(stats, buckets[ptr]).Freed(sizes[ptr])],
                     sizes - {ptr}, buckets - {ptr})
  {
    hide Counts, InBucket;
    var bucket := buckets[ptr];
    var sizes', buckets', stats' := sizes - {ptr}, buckets - {ptr},
      stats[bucket := Of(stats, bucket).Freed(sizes[ptr])];
    assert sizes'.Keys == sizes.Keys - {ptr};
    CountsLess(total, sizes, sizes.Keys, ptr);
    forall b: nat ensures Counts(Of(stats', b), sizes', InBucket(buckets', b)) {
      BucketFreed(buckets, ptr, b);
      CountsLess(Of(stats, b), sizes, InBucket(buckets, b), ptr);
      assert b != bucket ==> InBucket(buckets', b) == InBucket(buckets, b);
    }
  }

  /** Recorded allocations do not overlap. */
  predicate Disjoint(sizes: map<nat, nat>) {
    && (forall k | k in sizes :: k + sizes[k] < AM.WORD)
    && (forall k, l | k in sizes && l in sizes && k < l :: k + sizes[k] <= l)
  }

  class Snapshot {
    const map_: AM.AddressMap<AllocValue>
    var allocs: nat
    var allocSize: nat

    ghost predicate Valid()
      reads this, map_, map_.hashtable
    {
      map_.Valid() && allocs == |map_.contents|
    }

    constructor ()
      ensures Valid() && fresh(map_) && fresh(map_.hashtable) && map_.contents == map[] && allocSize == 0
    {
      map_ := new AM.AddressMap<AllocValue>();
      allocs, allocSize := 0, 0;
    }

    method Add(ptr: nat, v: AllocValue)
      requires Valid() && ptr !in map_.contents
      modifies this, map_, map_.hashtable
      ensures Valid() && map_.contents == old(map_.contents)[ptr := v]
      ensures allocSize == old(allocSize) + v.bytes
    {
      hide AM.AddressMap.Valid;
      map_.Insert(ptr, v);
      allocs := allocs + 1;
      allocSize := allocSize + v.bytes;
    }

    /** Nothing leaked. */
    predicate Empty()
      reads this
    {
      allocs == 0 && allocSize == 0
    }
  }

  class HeapProfileTable {
    const allocations: AM.AddressMap<AllocValue>
    var total: Stats
    var stats: map<nat, Stats>

    ghost predicate Valid()
      reads this, allocations, allocations.hashtable
    {
      allocations.Valid()
    }

    ghost predicate InBalance()
      reads this, allocations
    {
      Balanced(total, stats, Sizes(allocations.contents), Buckets(allocations.contents))
    }

    constructor ()
      ensures Valid() && fresh(allocations) && fresh(allocations.hashtable) && allocations.contents == map[]
      ensures InBalance()
    {
      hide AM.AddressMap.Valid, Balanced;
      allocations := new AM.AddressMap<AllocValue>();
      total, stats := NO_STATS, map[];
      NothingCounted();
    }

    /** Records what is allocated from the place that the bucket stands for. */
    method RecordAlloc(ptr: nat, bytes: nat, bucket: nat)
      requires Valid() && bucket % 4 == 0
      modifies this, allocations, allocations.hashtable
      ensures Valid() && allocations.contents == old(allocations.contents)[ptr := NewValue(bytes, bucket)]
      ensures var was := old(total);
        total == Stats(was.allocs + 1, was.frees, was.allocSize + bytes, was.freeSize)
      ensures var was := Of(old(stats), bucket);
        stats == old(stats)[bucket := Stats(was.allocs + 1, was.frees, was.allocSize + bytes, was.freeSize)]
      ensures old(InBalance()) ==> (InBalance() <==> ptr !in old(allocations.contents))
    {
      hide AM.AddressMap.Valid, Balanced;
      ghost var before := allocations.contents;
      stats := stats[bucket := Of(stats, bucket).Allocated(bytes)];
      total := total.Allocated(bytes);
      allocations.Insert(ptr, NewValue(bytes, bucket));
      ValueAdded(before, ptr, bytes, bucket);
      if old(InBalance()) {
        BalanceAllocated(old(total), old(stats), Sizes(before), Buckets(before), ptr, bytes, bucket);
      }
    }

    method RecordFree(ptr: nat)
      requires Valid()
      modifies this, allocations, allocations.hashtable
      ensures Valid() && allocations.contents == old(allocations.contents) - {ptr}
      ensures ptr !in old(allocations.contents) ==> total == old(total) && stats == old(stats)
      ensures ptr in old(allocations.contents) ==>
        var v := old(allocations.contents)[ptr];
        var was, b := old(total), Of(old(stats), v.Bucket());
        && total == Stats(was.allocs, was.frees + 1, was.allocSize, was.freeSize + v.bytes)
        && stats == old(stats)[v.Bucket() := Stats(b.allocs, b.frees + 1, b.allocSize, b.freeSize + v.bytes)]
      ensures old(InBalance()) ==> InBalance()
    {
      hide AM.AddressMap.Valid, Balanced, AllocValue.Bucket;
      ghost var before := allocations.contents;
      var v := allocations.FindAndRemove(ptr);
      if v.Some? {
        var b := v.value.Bucket();
        stats := stats[b := Of(stats, b).Freed(v.value.bytes)];
        total := total.Freed(v.value.bytes);
        ValueRemoved(before, ptr);
        if old(InBalance()) {
          BalanceFreed(old(total), old(stats), Sizes(before), Buckets(before), ptr);
        }
      } else {
        assert before - {ptr} == before;
      }
    }

    method MarkAsLive(ptr: nat) returns (marked: bool)
      requires Valid()
      modifies allocations, allocations.hashtable
      ensures Valid()
      ensures marked <==> ptr in old(allocations.contents) && ptr !in old(Live(allocations.contents))
      ensures Live(allocations.contents) == old(Live(allocations.contents)) + if marked then {ptr} else {}
      ensures Same(allocations.contents, old(allocations.contents))
      ensures InBalance() == old(InBalance())
    {
      hide AM.AddressMap.Valid, Live, AllocValue.Live, AllocValue.SetLive, Balanced;
      ghost var before := allocations.contents;
      var alloc := allocations.Find(ptr);
      LiveMeans(before, ptr);
      if alloc.Some? && !alloc.value.Live() {
        Marked(before, ptr);
        allocations.Insert(ptr, alloc.value.SetLive(true));
        return true;
      }
      Unmarked(before);
      return false;
    }

    method MarkAsIgnored(ptr: nat)
      requires Valid()
      modifies allocations, allocations.hashtable
      ensures Valid()
      ensures Ignored(allocations.contents) == old(Ignored(allocations.contents) + ({ptr} * allocations.contents.Keys))
      ensures Live(allocations.contents) == old(Live(allocations.contents))
      ensures Sizes(allocations.contents) == old(Sizes(allocations.contents))
      ensures Buckets(allocations.contents) == old(Buckets(allocations.contents))
      ensures InBalance() == old(InBalance())
    {
      hide AM.AddressMap.Valid, Live, Ignored, Sizes, Buckets, AllocValue.SetIgnore, Balanced;
      var alloc := allocations.Find(ptr);
      IgnoredMore(allocations.contents, ptr);
      if alloc.Some? {
        allocations.Insert(ptr, alloc.value.SetIgnore(true));
      }
    }

    /** The address and size of the allocation that an address is in. */
    method FindInsideAlloc(ptr: nat, maxSize: nat) returns (found: bool, start: nat, size: nat)
      requires Valid() && Disjoint(Sizes(allocations.contents))
      ensures found ==> Resolves(Sizes(allocations.contents), maxSize, ptr, start)
      ensures found ==> start in allocations.contents && size == allocations.contents[start].bytes
      ensures !found ==> forall k: nat :: !Resolves(Sizes(allocations.contents), maxSize, ptr, k)
    {
      hide AM.AddressMap.Valid, AM.Contains, AM.InReach;
      AreRanges(allocations.contents);
      var r := allocations.FindInside(Bytes, maxSize, ptr);
      if r == None {
        return false, 0, 0;
      }
      return true, r.value.key, r.value.value.bytes;
    }

    /** AddIfNonLive for every allocation: the live bits are cleared, and what was not live
        and is not in base goes to the snapshot. */
    method NonLiveSnapshot(base: Snapshot?) returns (s: Snapshot)
      requires Valid()
      requires base != null ==> base.Valid() && base.map_ != allocations && base.map_.hashtable != allocations.hashtable
      modifies allocations, allocations.hashtable
      ensures Valid() && Live(allocations.contents) == {}
      ensures Same(allocations.contents, old(allocations.contents))
      ensures fresh(s) && s.Valid()
      ensures s.map_.contents == old(NonLive(allocations.contents, if base == null then map[] else base.map_.contents))
      ensures s.Empty() <==> s.map_.contents == map[]
      ensures s.allocs == |s.map_.contents| && s.allocSize == Volume(Sizes(s.map_.contents), s.map_.contents.Keys)
    {
      hide AM.AddressMap.Valid, Live, Same, NonLive, AM.Lists, Collected, AllocValue.Live, AllocValue.SetLive,
        AllBytes;
      s := new Snapshot();
      ghost var before := allocations.contents;
      ghost var known := if base == null then map[] else base.map_.contents;
      var visited := allocations.Iterate(ClearLive);
      assert allocations.contents == map k | k in before :: ClearLive(k, before[k]);
      Cleared(before);
      AddAll(visited, base, s, before, known);
      CollectedAll(visited, before, known);
      EmptyHasNoVolume(s.map_.contents);
    }

    /** The calls that Iterate makes. */
    static method AddAll(visited: seq<AM.Entry<AllocValue>>, base: Snapshot?, dest: Snapshot,
                         ghost contents: map<nat, AllocValue>, ghost known: map<nat, AllocValue>)
      requires AM.Lists(visited, contents)
      requires dest.Valid() && dest.map_.contents == map[] && dest.allocSize == 0
      requires base != null ==>
        && base.Valid() && base.map_.contents == known && base != dest && base.map_ != dest.map_
        && base.map_.hashtable != dest.map_.hashtable
      requires base == null ==> known == map[]
      modifies dest, dest.map_, dest.map_.hashtable
      ensures dest.Valid() && dest.map_.contents == Collected(visited, known)
      ensures dest.allocSize == AllBytes(dest.map_.contents)
    {
      hide AM.AddressMap.Valid, AM.Lists, Collected, AllocValue.Live, AllBytes;
      EmptyHasNoVolume(map[]);
      CollectedNone(known);
      var i := 0;
      while i < |visited|
        invariant i <= |visited| && dest.Valid()
        invariant base != null ==> base.Valid() && base.map_.contents == known
        invariant dest.map_.contents == Collected(visited[..i], known)
        invariant dest.allocSize == AllBytes(dest.map_.contents)
      {
        CollectedSnoc(visited, i, known, contents);
        VolumeOneMore(dest.map_.contents, visited[i].key, visited[i].value);
        AddIfNonLive(visited[i], base, dest);
        i := i + 1;
      }
      assert visited[..i] == visited;
    }

    static method AddIfNonLive(e: AM.Entry<AllocValue>, base: Snapshot?, dest: Snapshot)
      requires dest.Valid() && e.key !in dest.map_.contents
      requires base != null ==> base.Valid()
      modifies dest, dest.map_, dest.map_.hashtable
      ensures dest.Valid()
      ensures dest.map_.contents ==
        if e.value.Live() || (base != null && e.key in old(base.map_.contents)) then old(dest.map_.contents)
        else old(dest.map_.contents)[e.key := e.value]
      ensures dest.allocSize == old(dest.allocSize) +
        if e.value.Live() || (base != null && e.key in old(base.map_.contents)) then 0 else e.value.bytes
    {
      hide AM.AddressMap.Valid, AllocValue.Live;
      if !e.value.Live() {
        var present := false;
        if base != null {
          var inBase := base.map_.Find(e.key);
          present := inBase.Some?;
        }
        if !present {
          dest.Add(e.key, e.value);
        }
      }
    }
  }

  /** The bytes of all of them. */
  ghost function AllBytes(contents: map<nat, AllocValue>): nat {
    Volume(Sizes(contents), contents.Keys)
  }

  lemma VolumeOneMore(contents: map<nat, AllocValue>, k: nat, v: AllocValue)
    requires k !in contents
    ensures AllBytes(contents[k := v]) == AllBytes(contents) + v.bytes
  {
    var after := contents[k := v];
    assert Sizes(after) == Sizes(contents)[k := v.bytes] && after.Keys == contents.Keys + {k};
    assert after.Keys - {k} == contents.Keys;
    VolumeWith(Sizes(after), after.Keys, k);
    VolumeSame(Sizes(contents), Sizes(after), contents.Keys);
  }

  lemma EmptyHasNoVolume(contents: map<nat, AllocValue>)
    ensures contents == map[] <==> |contents| == 0
    ensures contents == map[] ==> AllBytes(contents) == 0
    ensures AllBytes(contents) == Volume(Sizes(contents), contents.Keys)
  {
    assert contents == map[] ==> contents.Keys == {};
  }

  lemma NothingCounted()
    ensures Balanced(NO_STATS, map[], Sizes(map[]), Buckets(map[]))
  {
    assert Sizes(map[]).Keys == {} && forall b: nat :: InBucket(Buckets(map[]), b) == {};
  }

  lemma ValueAdded(contents: map<nat, AllocValue>, ptr: nat, bytes: nat, bucket: nat)
    requires bucket % 4 == 0
    ensures var after := contents[ptr := NewValue(bytes, bucket)];
      Sizes(after) == Sizes(contents)[ptr := bytes] && Buckets(after) == Buckets(contents)[ptr := bucket]
    ensures Sizes(contents).Keys == Buckets(contents).Keys == contents.Keys
  {
    PackBucket(bytes, bucket);
  }

  lemma ValueRemoved(contents: map<nat, AllocValue>, ptr: nat)
    requires ptr in contents
    ensures Sizes(contents - {ptr}) == Sizes(contents) - {ptr} && Buckets(contents - {ptr}) == Buckets(contents) - {ptr}
    ensures Sizes(contents).Keys == Buckets(contents).Keys == contents.Keys
    ensures Sizes(contents)[ptr] == contents[ptr].bytes && Buckets(contents)[ptr] == contents[ptr].Bucket()
  {
  }

  /** Nothing but live bits differs. */
  predicate Same(a: map<nat, AllocValue>, b: map<nat, AllocValue>) {
    Sizes(a) == Sizes(b) && Buckets(a) == Buckets(b) && Ignored(a) == Ignored(b)
  }

  lemma LiveMeans(contents: map<nat, AllocValue>, ptr: nat)
    ensures ptr in Live(contents) <==> ptr in contents && contents[ptr].Live()
  {
  }

  lemma Marked(contents: map<nat, AllocValue>, ptr: nat)
    requires ptr in contents
    ensures var after := contents[ptr := contents[ptr].SetLive(true)];
      Live(after) == Live(contents) + {ptr} && Same(after, contents)
  {
    hide AllocValue.Live, AllocValue.SetLive, AllocValue.Bucket, AllocValue.Ignore;
    PackLive(contents[ptr], true);
  }

  lemma Unmarked(contents: map<nat, AllocValue>)
    ensures Same(contents, contents) && Live(contents) + {} == Live(contents)
  {
  }

  lemma IgnoredMore(contents: map<nat, AllocValue>, ptr: nat)
    ensures ptr !in contents ==> {ptr} * contents.Keys == {} && Ignored(contents) + {} == Ignored(contents)
    ensures ptr in contents ==>
      var after := contents[ptr := contents[ptr].SetIgnore(true)];
      && Ignored(after) == Ignored(contents) + ({ptr} * contents.Keys)
      && Live(after) == Live(contents) && Sizes(after) == Sizes(contents) && Buckets(after) == Buckets(contents)
  {
    hide AllocValue.Live, AllocValue.SetIgnore, AllocValue.Bucket, AllocValue.Ignore;
    if ptr in contents {
      PackIgnore(contents[ptr], true);
      assert {ptr} * contents.Keys == {ptr};
    }
  }

  lemma Cleared(contents: map<nat, AllocValue>)
    ensures var after := map k | k in contents :: ClearLive(k, contents[k]);
      Live(after) == {} && Same(after, contents)
  {
    hide AllocValue.Live, AllocValue.SetLive, AllocValue.Bucket, AllocValue.Ignore;
    forall k | k in contents
      ensures var v := ClearLive(k, contents[k]);
        && !v.Live() && v.bytes == contents[k].bytes
        && v.Bucket() == contents[k].Bucket() && v.Ignore() == contents[k].Ignore()
    {
      PackLive(contents[k], false);
    }
  }

  lemma AreRanges(contents: map<nat, AllocValue>)
    requires Disjoint(Sizes(contents))
    ensures AM.Ranges(contents, Bytes)
  {
    assert forall k | k in contents :: Sizes(contents)[k] == Bytes(contents[k]);
  }

  lemma CollectedNone(base: map<nat, AllocValue>)
    ensures forall visited :: |visited| == 0 ==> Collected(visited, base) == map[]
  {
  }

  function ClearLive(ptr: nat, v: AllocValue): AllocValue {
    if v.Live() then v.SetLive(false) else v
  }

  /** The entries of a listing that AddIfNonLive adds. */
  function Collected(visited: seq<AM.Entry<AllocValue>>, base: map<nat, AllocValue>): map<nat, AllocValue> {
    if visited == [] then map[]
    else
      var e, rest := visited[|visited| - 1], Collected(visited[..|visited| - 1], base);
      if e.value.Live() || e.key in base then rest else rest[e.key := e.value]
  }

  lemma {:induction false} CollectedKeys(visited: seq<AM.Entry<AllocValue>>, base: map<nat, AllocValue>, k: nat)
    requires AM.DistinctKeys(visited)
    ensures k in Collected(visited, base) <==>
      exists i :: 0 <= i < |visited| && visited[i].key == k && !visited[i].value.Live() && k !in base
    ensures k in Collected(visited, base) ==>
      exists i :: 0 <= i < |visited| && visited[i].key == k && visited[i].value == Collected(visited, base)[k]
  {
    if visited != [] {
      var n := |visited| - 1;
      var rest := visited[..n];
      CollectedKeys(rest, base, k);
      assert forall i | 0 <= i < n :: rest[i] == visited[i];
    }
  }

  lemma CollectedSnoc(visited: seq<AM.Entry<AllocValue>>, i: nat, base: map<nat, AllocValue>,
                      contents: map<nat, AllocValue>)
    requires i < |visited| && AM.Lists(visited, contents)
    ensures visited[i].key !in Collected(visited[..i], base)
    ensures Collected(visited[..i + 1], base) ==
      if visited[i].value.Live() || visited[i].key in base then Collected(visited[..i], base)
      else Collected(visited[..i], base)[visited[i].key := visited[i].value]
  {
    assert visited[..i + 1][..i] == visited[..i];
    CollectedKeys(visited[..i], base, visited[i].key);
  }

  lemma CollectedAll(visited: seq<AM.Entry<AllocValue>>, contents: map<nat, AllocValue>, base: map<nat, AllocValue>)
    requires AM.Lists(visited, contents)
    ensures Collected(visited, base) == NonLive(contents, base)
  {
    var all := Collected(visited, base);
    forall k: nat
      ensures k in all <==> k in NonLive(contents, base)
      ensures k in all ==> all[k] == contents[k]
    {
      CollectedKeys(visited, base, k);
      if k in contents {
        assert visited[AM.EntryIndex(visited, k)].key == k;
      }
    }
  }

  /** HaveOnHeapLocked takes the address to the allocation k. */
  predicate Resolves(sizes: map<nat, nat>, maxSize: nat, address: nat, k: nat) {
    k in sizes && AM.Contains(k, sizes[k], address) && AM.InReach(k, address, maxSize)
  }
}
