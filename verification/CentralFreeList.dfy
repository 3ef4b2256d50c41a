/** CentralFreeList (central_freelist.h, central_freelist.cc). The methods up to "Whole calls"
    are the stretches run under the lock; the whole calls string them together, and where the
    code drops the lock they let other threads take any steps they can. */
module CentralCache {
  import opened Options
  import opened CentralState
  import opened CentralSteps

  const MEGABYTE: nat := 0x10_0000

  function Min(a: int, b: int): int { if a < b then a else b }

  function Max(a: int, b: int): int { if a > b then a else b }

  /** As many batches as a megabyte has room for, if that is any. */
  lemma MostSlots(maxEntries: nat, batchBytes: nat)
    requires batchBytes > 0
    ensures var most := Min(maxEntries, Max(1, MEGABYTE / batchBytes));
      && 0 <= most <= maxEntries && (most > 1 ==> most * batchBytes <= 0x10_0000) && (most == 0 ==> maxEntries == 0)
      && (most < maxEntries ==> 0x10_0000 < (most + 1) * batchBytes)
  {
    var q, most := MEGABYTE / batchBytes, Min(maxEntries, Max(1, MEGABYTE / batchBytes));
    assert MEGABYTE == q * batchBytes + MEGABYTE % batchBytes;
    assert (q + 1) * batchBytes == q * batchBytes + batchBytes;
    if 1 < most {
      assert (q - most) * batchBytes >= 0;
      assert q * batchBytes == most * batchBytes + (q - most) * batchBytes;
    }
    if most < maxEntries {
      assert most >= q;
      assert (most - q) * batchBytes >= 0;
      assert (most + 1) * batchBytes == (q + 1) * batchBytes + (most - q) * batchBytes;
    }
  }

  /** The objects that a step of another thread takes from the ones that are out. */
  function Takes(e: Event): multiset<int> {
    match e
    case Release(o) => multiset{o}
    case ToSlot(chain) => multiset(chain)
    case _ => multiset{}
  }

  /** What one thread holds: objects, and spans on their way to or from the page heap. */
  datatype Holding = Holding(objects: multiset<int>, leaving: multiset<int>, arriving: set<int>)

  predicate Has(st: State, h: Holding) {
    h.objects <= st.out && h.leaving <= st.leaving && h.arriving <= st.arriving
  }

  function With(h: Holding, chain: seq<int>): Holding {
    h.(objects := h.objects + multiset(chain))
  }

  /** A step that does not use anything held by the thread that is waiting. */
  predicate Spares(st: State, h: Holding, e: Event) {
    match e
    case Deleted(b) => b in st.leaving - h.leaving
    case Added(b) => b !in h.arriving
    case _ => Takes(e) <= st.out - h.objects
  }

  lemma HasMore(st: State, st': State, h: Holding, m: multiset<int>)
    requires Has(st, h) && st'.out == st.out + m && st'.leaving == st.leaving && st'.arriving == st.arriving
    ensures Has(st', h)
  {
  }

  lemma HasMine(st: State, st': State, h: Holding, chain: seq<int>)
    requires Has(st, h) && st'.out == st.out + multiset(chain) && st'.leaving == st.leaving &&
      st'.arriving == st.arriving
    ensures Has(st', With(h, chain))
  {
  }

  lemma HasLess(st: State, st': State, h: Holding, m: multiset<int>)
    requires Has(st, h) && m <= st.out - h.objects && st'.out == st.out - m
    requires st.leaving <= st'.leaving && st'.arriving == st.arriving
    ensures Has(st', h)
  {
    forall x ensures h.objects[x] <= st'.out[x] {
      assert m[x] <= (st.out - h.objects)[x];
    }
  }

  /** The thread's own objects: the first of the chain has been given up. */
  lemma HasRest(st: State, st': State, h: Holding, o: int, rest: seq<int>)
    requires Has(st, With(h, [o] + rest)) && st'.out == st.out - multiset{o}
    requires st'.leaving == st.leaving && st'.arriving == st.arriving
    ensures Has(st', With(h, rest))
  {
    assert multiset([o] + rest) == multiset{o} + multiset(rest);
    forall x ensures (h.objects + multiset(rest))[x] <= st'.out[x] {
      assert (h.objects + multiset([o] + rest))[x] <= st.out[x];
    }
  }

  lemma HasLeaving(st: State, h: Holding, o: int, rest: seq<int>, st': State, base: int)
    requires Has(st, With(h, [o] + rest)) && st'.out == st.out - multiset{o}
    requires st'.leaving == st.leaving + multiset{base} && st'.arriving == st.arriving
    ensures Has(st', Leaving(With(h, rest), base))
  {
    HasRest(st, st'.(leaving := st.leaving), h, o, rest);
  }

  lemma HasDeleted(st: State, st': State, h: Holding, base: int)
    requires Has(st, Leaving(h, base)) && st'.out == st.out
    requires st'.leaving == st.leaving - multiset{base} && st'.arriving == st.arriving
    ensures base in st.leaving && Has(st', h)
  {
    assert Leaving(h, base).leaving[base] >= 1;
    forall x ensures h.leaving[x] <= st'.leaving[x] {
      assert Leaving(h, base).leaving[x] <= st.leaving[x];
    }
  }

  lemma HasOthersDeleted(st: State, st': State, h: Holding, base: int)
    requires Has(st, h) && base in st.leaving - h.leaving && st'.out == st.out
    requires st'.leaving == st.leaving - multiset{base} && st'.arriving == st.arriving
    ensures Has(st', h)
  {
  }

  lemma HasOthersArrival(st: State, st': State, h: Holding)
    requires Has(st, h) && st.out <= st'.out && st'.leaving == st.leaving
    requires h.arriving * st.arriving <= st'.arriving
    ensures Has(st', h)
  {
    forall b | b in h.arriving ensures b in st'.arriving {
      assert b in h.arriving * st.arriving;
    }
  }

  /** The thread holds a span that has arrived from the page heap, and then its first object. */
  lemma HasArriving(st: State, st': State, h: Holding, base: int)
    requires Has(st, h) && st' == st.(arriving := st.arriving + {base})
    ensures Has(st', Arriving(h, base))
  {
  }

  lemma FreshArrival(c: Class, st: State, h: Holding, base: int)
    requires Sound(c) && Enabled(c, st, Allocated(base)) && Has(st, h)
    ensures base !in h.arriving
  {
  }

  lemma HasArrived(st: State, st': State, h: Holding, base: int)
    requires Has(st, Arriving(h, base)) && base !in h.arriving
    requires st'.arriving == st.arriving - {base} && st'.out == st.out + multiset{base} && st'.leaving == st.leaving
    ensures Has(st', With(h, [base]))
  {
  }

  lemma HasArrival(st: State, h: Holding, base: int)
    requires Has(st, Arriving(h, base))
    ensures base in st.arriving
  {
    assert base in Arriving(h, base).arriving;
  }

  function Leaving(h: Holding, base: int): Holding {
    h.(leaving := h.leaving + multiset{base})
  }

  function Arriving(h: Holding, base: int): Holding {
    h.(arriving := h.arriving + {base})
  }

  lemma HasObjects(st: State, h: Holding, chain: seq<int>)
    requires Has(st, With(h, chain))
    ensures Has(st, h) && multiset(chain) <= st.out
    ensures chain != [] ==> chain[0] in st.out
  {
    assert chain != [] ==> multiset(chain)[chain[0]] >= 1;
  }

  lemma EnabledMeans(c: Class, st: State, e: Event)
    requires Enabled(c, st, e)
    ensures match e
      case Release(o) => o in st.out
      case Deleted(b) => b in st.leaving
      case Added(b) => b in st.arriving
      case ToSlot(chain) => multiset(chain) <= st.out && |chain| == c.batch && |st.slots| < st.cacheSize
      case FromSlot => st.slots != []
      case _ => true
  {
  }

  class CentralFreeList {
    const cls: Class
    var nonempty: seq<Span>
    var empty: seq<Span>
    var numSpans: int
    var counter: int
    const tcSlots: array<seq<int>>
    var usedSlots: int
    var cacheSize: int
    // who has what outside of this list
    var out: multiset<int>
    var leaving: multiset<int>
    var arriving: set<int>

    function Current(): State
      requires 0 <= usedSlots <= tcSlots.Length
      reads this, tcSlots
    {
      State(nonempty, empty, numSpans, counter, tcSlots[..usedSlots], cacheSize, out, leaving, arriving)
    }

    ghost predicate Valid()
      reads this, tcSlots
    {
      && Sound(cls) && tcSlots.Length == cls.maxSlots && 0 <= usedSlots <= tcSlots.Length
      && Inv(cls, Current())
    }

    /** Init: at most a megabyte of objects in the slots, or one slot. Both entries are 0 when
        the transfer cache is disabled, else 64 and 16. */
    constructor (size: nat, bytes: nat, batch: nat, maxEntries: nat, startEntries: nat)
      requires 0 < size <= bytes && 0 < batch && startEntries <= maxEntries
      ensures Valid() && Current() == Start(cacheSize)
      ensures cls.size == size && cls.bytes == bytes && cls.batch == batch
      ensures cls.maxSlots <= maxEntries && (cls.maxSlots > 1 ==> cls.maxSlots * (size * batch) <= 0x10_0000)
      ensures cls.maxSlots == 0 ==> maxEntries == 0
      ensures cls.maxSlots < maxEntries ==> 0x10_0000 < (cls.maxSlots + 1) * (size * batch)
      ensures cacheSize == if startEntries <= cls.maxSlots then startEntries else cls.maxSlots
    {
      assert size * batch > 0;
      MostSlots(maxEntries, size * batch);
      var most := Min(maxEntries, Max(1, MEGABYTE / (size * batch)));
      cls := Class(size, bytes, batch, most);
      nonempty, empty := [], [];
      numSpans, counter := 0, 0;
      tcSlots := new seq<int>[most];
      usedSlots, cacheSize := 0, Min(startEntries, most);
      out, leaving, arriving := multiset{}, multiset{}, {};
      new;
      StartsWell(cls, cacheSize);
      assert tcSlots[..0] == [];
    }

    /* ---- Under the lock ---- */

    method FetchFromSpans() returns (r: Option<int>)
      requires Valid()
      modifies this`nonempty, this`empty, this`counter, this`out
      ensures Valid() && Current() == old(Apply(cls, Current(), Fetch))
      ensures r == None <==> old(nonempty) == []
      ensures r == None ==> Current() == old(Current())
      ensures r.Some? ==> old(nonempty[0].free) != [] && r.value == old(nonempty[0].free[0])
      ensures r.Some? ==> out == old(out) + multiset{r.value} && counter == old(counter) - 1
      ensures r.Some? ==>
        var s := old(nonempty[0]); var left := Span(s.base, s.free[1..], s.refcount + 1);
        if |s.free| == 1 then nonempty == old(nonempty)[1..] && empty == [left] + old(empty)
        else nonempty == [left] + old(nonempty)[1..] && empty == old(empty)
    {
      hide Inv;
      ghost var st := Current();
      FetchFromInv(cls, st);
      StepKeeps(cls, st, Fetch);
      if nonempty == [] {
        return None;
      }
      var result := PopHead();
      return Some(result);
    }

    method PopHead() returns (result: int)
      requires 0 <= usedSlots <= tcSlots.Length && nonempty != [] && HaveFree(nonempty)
      modifies this`nonempty, this`empty, this`counter, this`out
      ensures Current() == old(AfterFetch(Current()))
      ensures result == old(nonempty[0].free[0]) && out == old(out) + multiset{result}
    {
      var span := nonempty[0];
      result := span.free[0];
      span := Span(span.base, span.free[1..], span.refcount + 1);
      nonempty := nonempty[1..];
      if span.free == [] {
        empty := [span] + empty;
      } else {
        nonempty := [span] + nonempty;
      }
      counter := counter - 1;
      out := out + multiset{result};
    }

    /** ReleaseToSpans up to the point where it drops the lock; the span it took off the lists. */
    method ReleaseToSpans(obj: int) returns (freed: Option<int>, ghost s: Span)
      requires Valid() && obj in out
      modifies this`nonempty, this`empty, this`counter, this`numSpans, this`out, this`leaving
      ensures Valid() && Current() == old(Apply(cls, Current(), Release(obj)))
      ensures out == old(out) - multiset{obj}
      ensures freed.Some? ==> leaving == old(leaving) + multiset{freed.value}
      ensures freed.None? ==> leaving == old(leaving)
      ensures s in old(nonempty + empty) && s.base <= obj < s.base + cls.bytes
      ensures freed == if s.refcount == 1 then Some(s.base) else None
      ensures numSpans == old(numSpans) - if freed.Some? then 1 else 0
      ensures counter == old(counter) + 1 - if freed.Some? then cls.bytes / cls.size else 0
      ensures multiset(nonempty + empty) == old(multiset(nonempty + empty)) - multiset{s} +
        if freed.Some? then multiset{} else multiset{Span(s.base, [obj] + s.free, s.refcount - 1)}
      ensures s.free == [] && freed.None? ==> nonempty != [] && nonempty[0] == Span(s.base, [obj], s.refcount - 1)
    {
      hide Inv, Core, OwnerUp, Returned, Owner, Chunk;
      ghost var st := Current();
      s := ReleaseMeans(cls, st, obj);
      StepKeeps(cls, st, Release(obj));
      OwnerUpKeeps(cls, st, obj);
      MoveOwnerUp(obj);
      freed := TakeBack(obj);
    }

    /** If the span has no free objects, it moves to the front of the non-empty list. */
    method MoveOwnerUp(obj: int)
      requires 0 <= usedSlots <= tcSlots.Length
      modifies this`nonempty, this`empty
      ensures Current() == old(OwnerUp(cls, Current(), obj))
    {
      if Owner(cls, nonempty, obj) == |nonempty| {
        var j := Owner(cls, empty, obj);
        if j < |empty| {
          var span := empty[j];
          empty := Without(empty, j);
          nonempty := [span] + nonempty;
        }
      }
    }

    method TakeBack(obj: int) returns (freed: Option<int>)
      requires 0 <= usedSlots <= tcSlots.Length && Sound(cls) && Owner(cls, nonempty, obj) < |nonempty|
      modifies this`nonempty, this`counter, this`numSpans, this`out, this`leaving
      ensures Current() == old(Returned(cls, Current(), obj)) && out == old(out) - multiset{obj}
      ensures var s := old(nonempty[Owner(cls, nonempty, obj)]); freed == if s.refcount == 1 then Some(s.base) else None
      ensures freed.Some? ==> leaving == old(leaving) + multiset{freed.value}
      ensures freed.None? ==> leaving == old(leaving)
    {
      hide Owner, PerSpan, Without, Returned;
      ghost var st := Current();
      PerSpanIs(cls);
      ReturnedIs(cls, st, obj);
      var k := Owner(cls, nonempty, obj);
      var s := nonempty[k];
      counter := counter + 1;
      out := out - multiset{obj};
      if s.refcount - 1 == 0 {
        counter := counter - cls.bytes / cls.size;
        nonempty := Without(nonempty, k);
        numSpans := numSpans - 1;
        leaving := leaving + multiset{s.base};
        return Some(s.base);
      }
      nonempty := nonempty[k := Span(s.base, [obj] + s.free, s.refcount - 1)];
      return None;
    }

    /** The page heap has the span back. */
    method SpanDeleted(base: int)
      requires Valid() && base in leaving
      modifies this`leaving
      ensures Valid() && Current() == old(Apply(cls, Current(), Deleted(base)))
      ensures leaving == old(leaving) - multiset{base}
    {
      hide Inv;
      StepKeeps(cls, Current(), Deleted(base));
      leaving := leaving - multiset{base};
    }

    /** The page heap has handed out a span. */
    method SpanAllocated(base: int)
      requires Valid() && Enabled(cls, Current(), Allocated(base))
      modifies this`arriving
      ensures Valid() && Current() == old(Apply(cls, Current(), Allocated(base)))
      ensures arriving == old(arriving) + {base}
    {
      hide Inv;
      StepKeeps(cls, Current(), Allocated(base));
      arriving := arriving + {base};
    }

    /** Populate's loop that splits a block into pieces, before it has the lock back. */
    static method SplitBlock(c: Class, base: int) returns (pieces: seq<int>)
      requires Sound(c)
      ensures pieces == Chunk(c, base)
      ensures |pieces| == c.bytes / c.size && forall i | 0 <= i < |pieces| :: pieces[i] == base + i * c.size
    {
      pieces := [];
      PerSpanFits(c);
      ghost var n := PerSpan(c);
      var ptr, limit := base, base + c.bytes;
      while ptr + c.size <= limit
        invariant |pieces| <= n && ptr == base + |pieces| * c.size
        invariant pieces == Chunk(c, base)[..|pieces|]
        decreases limit - ptr
      {
        PieceFits(c, |pieces|);
        ChunkAt(c, base, |pieces|);
        UpTo(c.size, |pieces|, |pieces| + 1);
        pieces := pieces + [ptr];
        ptr := ptr + c.size;
      }
      NoPieceFits(c, |pieces|);
      PerSpanIs(c);
      forall i | 0 <= i < |pieces| ensures pieces[i] == base + i * c.size {
        ChunkAt(c, base, i);
      }
    }

    /** The end of Populate and the fetch that follows it under the same lock. */
    method AddSpanAndFetch(base: int, pieces: seq<int>) returns (r: int)
      requires Valid() && base in arriving && pieces == Chunk(cls, base)
      modifies this`nonempty, this`empty, this`counter, this`numSpans, this`arriving, this`out
      ensures Valid() && Current() == old(Apply(cls, Current(), Added(base)))
      ensures r == base && out == old(out) + multiset{base} && arriving == old(arriving) - {base}
      ensures numSpans == old(numSpans) + 1 && counter == old(counter) + cls.bytes / cls.size - 1
    {
      PerSpanIs(cls);
      hide Inv, Chunk, PerSpan;
      ghost var st := Current();
      StepKeeps(cls, st, Added(base));
      AddedKeeps(cls, st, base);
      ChunkAt(cls, base, 0);
      AddSpan(base, pieces);
      r := PopHead();
    }

    method AddSpan(base: int, pieces: seq<int>)
      requires 0 <= usedSlots <= tcSlots.Length && Sound(cls) && pieces == Chunk(cls, base)
      modifies this`nonempty, this`counter, this`numSpans, this`arriving
      ensures Current() == old(WithSpan(cls, Current(), base))
    {
      hide Chunk;
      nonempty := [Span(base, pieces, 0)] + nonempty;
      arriving := arriving - {base};
      numSpans := numSpans + 1;
      counter := counter + |pieces|;
    }

    method PutSlot(chain: seq<int>)
      requires Valid() && multiset(chain) <= out && |chain| == cls.batch && usedSlots < cacheSize
      modifies this`usedSlots, this`out, tcSlots
      ensures Valid() && Current() == old(Apply(cls, Current(), ToSlot(chain)))
      ensures out == old(out) - multiset(chain) && Current().slots == old(Current().slots) + [chain]
    {
      hide Inv;
      ghost var st := Current();
      StepKeeps(cls, st, ToSlot(chain));
      SizesAre(cls, st);
      tcSlots[usedSlots] := chain;
      usedSlots := usedSlots + 1;
      out := out - multiset(chain);
      assert Current().slots == st.slots + [chain];
    }

    method TakeSlot() returns (chain: seq<int>)
      requires Valid() && usedSlots > 0
      modifies this`usedSlots, this`out
      ensures Valid() && Current() == old(Apply(cls, Current(), FromSlot))
      ensures |chain| == cls.batch && out == old(out) + multiset(chain) && chain == old(tcSlots[usedSlots - 1])
    {
      hide Inv;
      ghost var st := Current();
      StepKeeps(cls, st, FromSlot);
      SizesAre(cls, st);
      usedSlots := usedSlots - 1;
      chain := tcSlots[usedSlots];
      out := out + multiset(chain);
      assert Current().slots == st.slots[..|st.slots| - 1];
    }

    /** ShrinkCache once it has this list's lock; the chain is for the caller to release. */
    method ShrinkLocked(force: bool) returns (shrunk: bool, chain: seq<int>)
      requires Valid()
      modifies this`usedSlots, this`cacheSize, this`out
      ensures Valid() && Current() == old(Apply(cls, Current(), Shrink(force)))
      ensures shrunk <==> 0 < old(cacheSize) && (force || old(usedSlots) < old(cacheSize))
      ensures cacheSize == old(cacheSize) - if shrunk then 1 else 0
      ensures !shrunk ==> Current() == old(Current())
      ensures var full := shrunk && old(usedSlots) == old(cacheSize);
        && usedSlots == old(usedSlots) - (if full then 1 else 0)
        && chain == if full then old(tcSlots[usedSlots - 1]) else []
      ensures out == old(out) + multiset(chain)
    {
      hide Inv;
      ghost var st := Current();
      StepKeeps(cls, st, Shrink(force));
      SizesAre(cls, st);
      chain := [];
      if cacheSize == 0 {
        return false, chain;
      }
      if usedSlots == cacheSize {
        if !force {
          return false, chain;
        }
        cacheSize := cacheSize - 1;
        usedSlots := usedSlots - 1;
        chain := tcSlots[usedSlots];
        out := out + multiset(chain);
        assert Current().slots == st.slots[..|st.slots| - 1];
        return true, chain;
      }
      cacheSize := cacheSize - 1;
      return true, chain;
    }

    /* ---- Other threads ---- */

    method Perform(e: Event, mine: Holding)
      requires Valid() && Enabled(cls, Current(), e) && Has(Current(), mine) && Spares(Current(), mine, e)
      modifies this, tcSlots
      ensures Valid() && Current() == old(Apply(cls, Current(), e)) && Has(Current(), mine)
    {
      hide Inv, Apply, Enabled, Has;
      EnabledMeans(cls, Current(), e);
      match e
      case Fetch => PerformFetch(mine);
      case Release(o) => PerformRelease(o, mine);
      case Deleted(_) => PerformOnSpan(e, mine);
      case Allocated(_) => PerformOnSpan(e, mine);
      case Added(_) => PerformOnSpan(e, mine);
      case _ => PerformOnCache(e, mine);
    }

    method PerformFetch(mine: Holding)
      requires Valid() && Has(Current(), mine)
      modifies this`nonempty, this`empty, this`counter, this`out
      ensures Valid() && Current() == old(Apply(cls, Current(), Fetch)) && Has(Current(), mine)
    {
      hide Inv, Apply, Has;
      ghost var st := Current();
      var r := FetchFromSpans();
      HasMore(st, Current(), mine, if r.Some? then multiset{r.value} else multiset{});
    }

    method PerformRelease(o: int, mine: Holding)
      requires Valid() && o in out && Has(Current(), mine) && Spares(Current(), mine, Release(o))
      modifies this`nonempty, this`empty, this`counter, this`numSpans, this`out, this`leaving
      ensures Valid() && Current() == old(Apply(cls, Current(), Release(o))) && Has(Current(), mine)
    {
      hide Inv, Apply, Has;
      ghost var st := Current();
      var _, _ := ReleaseToSpans(o);
      HasLess(st, Current(), mine, multiset{o});
    }

    method PerformOnSpan(e: Event, mine: Holding)
      requires Valid() && Enabled(cls, Current(), e) && Has(Current(), mine) && Spares(Current(), mine, e)
      requires e.Deleted? || e.Allocated? || e.Added?
      modifies this
      ensures Valid() && Current() == old(Apply(cls, Current(), e)) && Has(Current(), mine)
    {
      hide Inv, Apply, Enabled, Has;
      EnabledMeans(cls, Current(), e);
      ghost var st := Current();
      match e
      case Deleted(b) =>
        SpanDeleted(b);
        HasOthersDeleted(st, Current(), mine, b);
      case Allocated(b) =>
        SpanAllocated(b);
        HasOthersArrival(st, Current(), mine);
      case Added(b) =>
        var pieces := SplitBlock(cls, b);
        var _ := AddSpanAndFetch(b, pieces);
        HasOthersArrival(st, Current(), mine);
    }

    method PerformOnCache(e: Event, mine: Holding)
      requires Valid() && Enabled(cls, Current(), e) && Has(Current(), mine) && Spares(Current(), mine, e)
      requires e.ToSlot? || e.FromSlot? || e.Shrink?
      modifies this`usedSlots, this`cacheSize, this`out, tcSlots
      ensures Valid() && Current() == old(Apply(cls, Current(), e)) && Has(Current(), mine)
    {
      hide Inv, Apply, Enabled, Has;
      EnabledMeans(cls, Current(), e);
      ghost var st := Current();
      match e
      case ToSlot(chain) =>
        PutSlot(chain);
        HasLess(st, Current(), mine, multiset(chain));
      case FromSlot =>
        var chain := TakeSlot();
        HasMore(st, Current(), mine, multiset(chain));
      case Shrink(force) =>
        var _, chain := ShrinkLocked(force);
        HasMore(st, Current(), mine, multiset(chain));
    }

    /** The steps that other threads take while the lock is free. They are any steps that are
        possible then and leave alone what this thread holds. */
    method Others(mine: Holding, events: seq<Event>) returns (ghost log: seq<Step>)
      requires Valid() && Has(Current(), mine)
      modifies this, tcSlots
      ensures Valid() && Has(Current(), mine)
      ensures Went(cls, old(Current()), log, Current()) && Own(log) == []
      ensures events == [] ==> log == [] && Current() == old(Current())
    {
      hide Inv, Apply, Enabled, Has, Spares, Went, Own;
      ghost var st := Current();
      log := [];
      WentNowhere(cls, st);
      var i := 0;
      while i < |events|
        invariant i <= |events| && Valid() && Has(Current(), mine)
        invariant Went(cls, st, log, Current()) && Own(log) == [] && (i == 0 ==> log == [] && Current() == st)
      {
        if Enabled(cls, Current(), events[i]) && Spares(Current(), mine, events[i]) {
          WentStep(cls, Current(), false, events[i]);
          ghost var mid := Current();
          Perform(events[i], mine);
          WentThen(cls, st, log, mid, [Step(false, events[i])], Current());
          log := log + [Step(false, events[i])];
        }
        i := i + 1;
      }
    }

    /* ---- Whole calls ---- */

    /** One object of a chain, with the windows around the Delete of the page heap. */
    method ReleaseOne(obj: int, rest: seq<int>, mine: Holding, windows: (seq<Event>, seq<Event>))
      returns (ghost log: seq<Step>)
      requires Valid() && Has(Current(), With(mine, [obj] + rest))
      modifies this, tcSlots
      ensures Valid() && Has(Current(), With(mine, rest))
      ensures Went(cls, old(Current()), log, Current()) && GivenBack(Own(log)) == [obj]
      ensures windows == ([], []) ==> out == old(out) - multiset{obj}
    {
      hide Inv, Apply, Has, With, Leaving, Went, Own, GivenBack, Enabled;
      ghost var st := Current();
      HasObjects(st, mine, [obj] + rest);
      var hold := With(mine, rest);
      CanRelease(cls, st, obj);
      WentStep(cls, st, true, Release(obj));
      GivenBackOne(Release(obj));
      var freed, _ := ReleaseToSpans(obj);
      log := [Step(true, Release(obj))];
      if freed == None {
        HasRest(st, Current(), mine, obj, rest);
        return;
      }
      HasLeaving(st, mine, obj, rest, Current(), freed.value);
      ghost var gone := Current();
      ghost var before := Others(Leaving(hold, freed.value), windows.0);
      ghost var mid := Current();
      HasDeleted(mid, mid.(leaving := mid.leaving - multiset{freed.value}), hold, freed.value);
      CanDelete(cls, mid, freed.value);
      WentStep(cls, mid, true, Deleted(freed.value));
      SpanDeleted(freed.value);
      ghost var back := Current();
      ghost var after := Others(hold, windows.1);
      Windows(cls, st, log, gone, before, mid, [Step(true, Deleted(freed.value))], back, after, Current());
      GivenBackOne(Deleted(freed.value));
      GivenBackJoin([Release(obj)], [Deleted(freed.value)]);
      log := log + before + [Step(true, Deleted(freed.value))] + after;
    }

    /** The lock is dropped around every Delete of the page heap: others says what happens
        before and after the i-th one. Whatever that is, this call gives back the objects of the
        chain, one after the other. */
    method ReleaseListToSpans(chain: seq<int>, mine: Holding, others: seq<(seq<Event>, seq<Event>)>)
      returns (ghost log: seq<Step>)
      requires Valid() && Has(Current(), With(mine, chain))
      modifies this, tcSlots
      ensures Valid() && Has(Current(), mine)
      ensures Went(cls, old(Current()), log, Current()) && GivenBack(Own(log)) == chain
      ensures others == [] ==> out == old(out) - multiset(chain)
    {
      hide Inv, Apply, Has, With, Went, Own, GivenBack;
      ghost var st := Current();
      var i := 0;
      ChainParts(chain, 0);
      NothingOut(out);
      log := [];
      WentNowhere(cls, st);
      GivenBackOne(Fetch);
      while i < |chain|
        invariant i <= |chain| && Valid() && Has(Current(), With(mine, chain[i..]))
        invariant Went(cls, st, log, Current()) && GivenBack(Own(log)) == chain[..i]
        invariant others == [] ==> out == old(out) - multiset(chain[..i])
      {
        var windows := if i < |others| then others[i] else ([], []);
        ChainParts(chain, i);
        Counted(old(out), chain[..i], chain[i]);
        ghost var mid := Current();
        ghost var more := ReleaseOne(chain[i], chain[i + 1..], mine, windows);
        WentThen(cls, st, log, mid, more, Current());
        GivenBackJoin(Own(log), Own(more));
        log := log + more;
        i := i + 1;
      }
      ChainParts(chain, i);
      WithNothing(mine);
    }

    /** With DEEP, a full cache is never made larger: evicting from another class only opens a
        window, twice at most. */
    method MakeCacheSpace(mine: Holding, others: (seq<Event>, seq<Event>)) returns (room: bool, ghost log: seq<Step>)
      requires Valid() && Has(Current(), mine)
      modifies this, tcSlots
      ensures Valid() && Has(Current(), mine)
      ensures room == old(usedSlots < cacheSize) && (room ==> Current() == old(Current()) && log == [])
      ensures Went(cls, old(Current()), log, Current()) && Own(log) == [] && cacheSize <= old(cacheSize)
      ensures others == ([], []) ==> Current() == old(Current())
    {
      hide Inv, Went, Own, Has;
      ghost var st := Current();
      WentNowhere(cls, st);
      log := [];
      if usedSlots < cacheSize {
        return true, log;
      }
      if cacheSize == cls.maxSlots {
        return false, log;
      }
      log := Others(mine, others.0);
      ghost var mid := Current();
      ghost var more := Others(mine, others.1);
      WentThen(cls, st, log, mid, more, Current());
      log := log + more;
      DidNotGrow(cls, st, log, Current());
      return false, log;
    }

    /** A full batch goes to the transfer cache if there is room, else object by object home. */
    method InsertRange(chain: seq<int>, mine: Holding, evicting: (seq<Event>, seq<Event>),
                       others: seq<(seq<Event>, seq<Event>)>)
      returns (ghost log: seq<Step>)
      requires Valid() && Has(Current(), With(mine, chain))
      modifies this, tcSlots
      ensures Valid() && Has(Current(), mine) && Went(cls, old(Current()), log, Current())
      ensures |chain| == cls.batch && old(usedSlots < cacheSize) ==>
        Current() == old(Current().(slots := Current().slots + [chain], out := out - multiset(chain)))
      ensures |chain| == cls.batch && old(usedSlots < cacheSize) ==> Own(log) == [ToSlot(chain)]
      ensures !(|chain| == cls.batch && old(usedSlots < cacheSize)) ==> GivenBack(Own(log)) == chain
      ensures evicting == ([], []) && others == [] ==> out == old(out) - multiset(chain)
    {
      hide Inv, Apply, Went, Own, GivenBack, Enabled, Has, With;
      ghost var st := Current();
      log := [];
      WentNowhere(cls, st);
      if |chain| == cls.batch {
        var room;
        room, log := MakeCacheSpace(With(mine, chain), evicting);
        if room {
          HasObjects(st, mine, chain);
          CanStore(cls, st, chain);
          WentStep(cls, st, true, ToSlot(chain));
          PutSlot(chain);
          StoredIs(cls, st, chain, mine);
          return [Step(true, ToSlot(chain))];
        }
      }
      ghost var mid := Current();
      ghost var more := ReleaseListToSpans(chain, mine, others);
      WentThen(cls, st, log, mid, more, Current());
      assert [] + Own(more) == Own(more);
      log := log + more;
    }

    /** Populate and the fetches around it; reply is what the page heap answers, and a reply
        that names pages in use when it is asked is no reply. */
    method FetchFromSpansSafe(mine: Holding, reply: Option<int>, before: seq<Event>, after: seq<Event>)
      returns (r: Option<int>, failed: bool, ghost log: seq<Step>, ghost asked: State)
      requires Valid() && Has(Current(), mine)
      modifies this, tcSlots
      ensures Valid() && (r.Some? ==> Has(Current(), With(mine, [r.value])))
      ensures Went(cls, old(Current()), log, Current()) && GivenBack(Own(log)) == []
      ensures r == None ==> Has(Current(), mine) && nonempty == [] && failed
      ensures old(nonempty) != [] ==> r.Some? && !failed
      ensures old(nonempty) == [] ==> (failed <==> reply.None? || !Enabled(cls, asked, Allocated(reply.value)))
      ensures old(nonempty) == [] ==> exists first :: first <= log && Went(cls, old(Current()), first, asked)
      ensures old(nonempty) == [] && reply.Some? && !failed ==> r == reply
      ensures before == [] ==> asked == old(Current())
      ensures before == [] && after == [] ==> out == old(out) + if r.Some? then multiset{r.value} else multiset{}
    {
      hide Inv, Apply, Enabled, Has, With, Went, Own, GivenBack;
      failed := false;
      ghost var st := Current();
      asked := st;
      if nonempty == [] {
        NothingToFetch(cls, Current());
      }
      r, log := Fetch1(mine);
      if r.Some? {
        return;
      }
      ghost var first := Others(mine, before);
      asked := Current();
      WentThen(cls, st, log, st, first, asked);
      assert [Fetch] + [] == [Fetch];
      log := log + first;
      first := log;
      if reply.Some? && Enabled(cls, Current(), Allocated(reply.value)) {
        ghost var more;
        r, more := Populate(mine, reply.value, after);
        WentThen(cls, st, log, asked, more, Current());
        GivenBackJoin(Own(log), Own(more));
        log := log + more;
      } else {
        failed := true;
        ghost var more := Others(mine, after);
        WentThen(cls, st, log, asked, more, Current());
        ghost var mid := Current();
        GivenBackJoin(Own(log), []);
        log := log + more;
        r, more := Fetch1(mine);
        WentThen(cls, st, log, mid, more, Current());
        GivenBackJoin(Own(log), Own(more));
        log := log + more;
      }
      assert first <= log && Went(cls, st, first, asked);
    }

    /** The page heap's span is cut up without the lock. */
    method Populate(mine: Holding, base: int, after: seq<Event>) returns (r: Option<int>, ghost log: seq<Step>)
      requires Valid() && Has(Current(), mine) && Enabled(cls, Current(), Allocated(base))
      modifies this, tcSlots
      ensures Valid() && r == Some(base) && Has(Current(), With(mine, [base]))
      ensures Went(cls, old(Current()), log, Current()) && Own(log) == [Allocated(base), Added(base)]
      ensures GivenBack(Own(log)) == []
      ensures after == [] ==> out == old(out) + multiset{base} && numSpans == old(numSpans) + 1
      ensures after == [] ==> counter == old(counter) + cls.bytes / cls.size - 1
    {
      hide Inv, Apply, Enabled, Has, With, Went, Own, GivenBack;
      var pieces := SplitBlock(cls, base);
      ghost var st := Current();
      FreshArrival(cls, st, mine, base);
      HasArriving(st, st.(arriving := st.arriving + {base}), mine, base);
      WentStep(cls, st, true, Allocated(base));
      SpanAllocated(base);
      ghost var came := Current();
      log := Others(Arriving(mine, base), after);
      ghost var mid := Current();
      HasArrival(mid, mine, base);
      CanAdd(cls, mid, base);
      WentStep(cls, mid, true, Added(base));
      var got := AddSpanAndFetch(base, pieces);
      HasArrived(mid, Current(), mine, base);
      WentThen(cls, st, [Step(true, Allocated(base))], came, log, mid);
      log := [Step(true, Allocated(base))] + log;
      WentThen(cls, st, log, mid, [Step(true, Added(base))], Current());
      log := log + [Step(true, Added(base))];
      assert [Allocated(base)] + [] + [Added(base)] == [Allocated(base), Added(base)] ==
        [Allocated(base)] + [Added(base)];
      GivenBackOne(Allocated(base));
      GivenBackOne(Added(base));
      GivenBackJoin([Allocated(base)], [Added(base)]);
      r := Some(got);
    }

    method Fetch1(mine: Holding) returns (r: Option<int>, ghost log: seq<Step>)
      requires Valid() && Has(Current(), mine)
      modifies this`nonempty, this`empty, this`counter, this`out
      ensures Valid()
      ensures r == None <==> old(nonempty) == []
      ensures r == None ==> Current() == old(Current())
      ensures r.Some? ==> Has(Current(), With(mine, [r.value])) && out == old(out) + multiset{r.value}
      ensures log == [Step(true, Fetch)] && Went(cls, old(Current()), log, Current()) && Own(log) == [Fetch]
      ensures GivenBack(Own(log)) == []
    {
      hide Inv, Apply, Has, With, Went, Own, GivenBack;
      ghost var st := Current();
      WentStep(cls, st, true, Fetch);
      GivenBackOne(Fetch);
      log := [Step(true, Fetch)];
      r := FetchFromSpans();
      if r.Some? {
        HasMine(st, Current(), mine, [r.value]);
      }
    }

    /** A full batch may come from the transfer cache; otherwise up to n objects from the
        spans, the last one fetched at the head of the chain. */
    method RemoveRange(n: nat, mine: Holding, reply: Option<int>, before: seq<Event>, after: seq<Event>)
      returns (chain: seq<int>, ghost log: seq<Step>)
      requires Valid() && n > 0 && Has(Current(), mine)
      modifies this, tcSlots
      ensures Valid() && Has(Current(), With(mine, chain))
      ensures Went(cls, old(Current()), log, Current()) && GivenBack(Own(log)) == []
      ensures |chain| <= n && (|chain| == n || nonempty == [])
      ensures n == cls.batch && old(usedSlots) > 0 ==>
        |chain| == n && chain == old(tcSlots[usedSlots - 1]) && log == [Step(true, FromSlot)]
      ensures old(nonempty) != [] ==> chain != []
      ensures before == [] && reply.Some? && old(Enabled(cls, Current(), Allocated(reply.value))) ==> chain != []
      ensures before == [] && after == [] ==> out == old(out) + multiset(chain)
    {
      hide Inv, Apply, Enabled, Has, With, Went, Own, GivenBack;
      ghost var st := Current();
      if n == cls.batch && usedSlots > 0 {
        CanTake(cls, st);
        WentStep(cls, st, true, FromSlot);
        GivenBackOne(FromSlot);
        chain := TakeSlot();
        HasMine(st, Current(), mine, chain);
        return chain, [Step(true, FromSlot)];
      }
      var first, failed;
      ghost var asked;
      first, failed, log, asked := FetchFromSpansSafe(mine, reply, before, after);
      if first == None {
        WithNothing(mine);
        return [], log;
      }
      chain := [first.value];
      while |chain| < n
        invariant 0 < |chain| <= n && Valid() && Has(Current(), With(mine, chain))
        invariant Went(cls, st, log, Current()) && GivenBack(Own(log)) == []
        invariant before == [] && after == [] ==> out == old(out) + multiset(chain)
        decreases n - |chain|
      {
        WithMore(mine, chain, 0);
        ghost var mid := Current();
        ghost var more;
        var t;
        t, more := Fetch1(With(mine, chain));
        WentThen(cls, st, log, mid, more, Current());
        GivenBackJoin(Own(log), Own(more));
        log := log + more;
        if t == None {
          break;
        }
        WithMore(mine, chain, t.value);
        chain := [t.value] + chain;
      }
    }
  }

  /** The span s of the object takes it back, at the head of its list, or leaves. */
  lemma ReleaseMeans(c: Class, st: State, o: int) returns (s: Span)
    requires Sound(c) && Inv(c, st) && o in st.out
    ensures var up := OwnerUp(c, st, o);
      Owner(c, up.nonempty, o) < |up.nonempty| && s == up.nonempty[Owner(c, up.nonempty, o)]
    ensures s in st.nonempty + st.empty && s.base <= o < s.base + c.bytes
    ensures var st' := Apply(c, st, Release(o));
      && st'.numSpans == st.numSpans - (if s.refcount == 1 then 1 else 0)
      && st'.counter == st.counter + 1 - (if s.refcount == 1 then c.bytes / c.size else 0)
      && multiset(st'.nonempty + st'.empty) == multiset(st.nonempty + st.empty) - multiset{s} +
           (if s.refcount == 1 then multiset{} else multiset{Span(s.base, [o] + s.free, s.refcount - 1)})
      && (s.free == [] && s.refcount != 1 ==>
            st'.nonempty != [] && st'.nonempty[0] == Span(s.base, [o], s.refcount - 1))
  {
    hide Inv, Core, OwnerUp, Returned, Chunk, PerSpan, Owner, Without;
    var up := OwnerUp(c, st, o);
    OwnerUpKeeps(c, st, o);
    var k := Owner(c, up.nonempty, o);
    s := up.nonempty[k];
    SameSpans(c, st, o);
    ReturnedIs(c, up, o);
    PerSpanIs(c);
    OutOfList(up.nonempty, up.empty, k, Span(s.base, [o] + s.free, s.refcount - 1));
    assert s in up.nonempty + up.empty;
    assert s in multiset(up.nonempty + up.empty);
    FreeInFront(c, st, o, k);
    assert s.free == [] ==> [o] + s.free == [o];
  }

  lemma SameSpans(c: Class, st: State, o: int)
    ensures var up := OwnerUp(c, st, o);
      && multiset(up.nonempty + up.empty) == multiset(st.nonempty + st.empty)
      && up.numSpans == st.numSpans && up.counter == st.counter
  {
    hide Owner, Without;
    var j := Owner(c, st.empty, o);
    if j < |st.empty| {
      MovedToFront(st.nonempty, st.empty, j);
    }
  }

  lemma MovedToFront(a: seq<Span>, b: seq<Span>, j: nat)
    requires j < |b|
    ensures multiset([b[j]] + a + Without(b, j)) == multiset(a + b)
  {
    assert b == b[..j] + [b[j]] + b[j + 1..];
    assert multiset(b) == multiset(b[..j]) + multiset{b[j]} + multiset(b[j + 1..]);
    assert multiset(Without(b, j)) == multiset(b[..j]) + multiset(b[j + 1..]);
  }

  lemma OutOfList(a: seq<Span>, b: seq<Span>, k: nat, s: Span)
    requires k < |a|
    ensures multiset(Without(a, k) + b) == multiset(a + b) - multiset{a[k]}
    ensures multiset(a[k := s] + b) == multiset(a + b) - multiset{a[k]} + multiset{s}
  {
    assert a == a[..k] + [a[k]] + a[k + 1..];
    assert a[k := s] == a[..k] + [s] + a[k + 1..];
  }

  /** A span without free objects has just come to the front. */
  lemma FreeInFront(c: Class, st: State, o: int, k: nat)
    requires Sound(c) && Inv(c, st) && k < |OwnerUp(c, st, o).nonempty|
    ensures OwnerUp(c, st, o).nonempty[k].free == [] ==> k == 0
  {
    hide Core, Owner;
  }

  lemma CanRelease(c: Class, st: State, o: int)
    requires o in st.out
    ensures Enabled(c, st, Release(o))
  {
  }

  lemma CanDelete(c: Class, st: State, base: int)
    requires base in st.leaving
    ensures Enabled(c, st, Deleted(base))
  {
  }

  lemma CanAdd(c: Class, st: State, base: int)
    requires base in st.arriving
    ensures Enabled(c, st, Added(base))
  {
  }

  lemma CanStore(c: Class, st: State, chain: seq<int>)
    requires multiset(chain) <= st.out && |chain| == c.batch && |st.slots| < st.cacheSize
    ensures Enabled(c, st, ToSlot(chain))
  {
  }

  lemma CanTake(c: Class, st: State)
    requires st.slots != []
    ensures Enabled(c, st, FromSlot)
  {
  }

  lemma StoredIs(c: Class, st: State, chain: seq<int>, mine: Holding)
    requires Sound(c) && Inv(c, st) && Enabled(c, st, ToSlot(chain)) && Has(st, With(mine, chain))
    ensures var st' := Apply(c, st, ToSlot(chain));
      st' == st.(slots := st.slots + [chain], out := st.out - multiset(chain)) && Has(st', mine)
  {
  }

  lemma DidNotGrow(c: Class, st: State, log: seq<Step>, st': State)
    requires Went(c, st, log, st')
    ensures st'.cacheSize <= st.cacheSize
  {
    hide Inv;
    NeverGrows(c, st, Events(log));
  }

  /** A step, a window, a step and a window. */
  lemma Windows(c: Class, st: State, a: seq<Step>, gone: State, before: seq<Step>, mid: State, b: seq<Step>,
                back: State, after: seq<Step>, st': State)
    requires Went(c, st, a, gone) && Went(c, gone, before, mid) && Went(c, mid, b, back) && Went(c, back, after, st')
    requires Own(before) == [] == Own(after)
    ensures Went(c, st, a + before + b + after, st') && Own(a + before + b + after) == Own(a) + Own(b)
  {
    hide Went, Own;
    WentThen(c, st, a, gone, before, mid);
    WentThen(c, st, a + before, mid, b, back);
    WentThen(c, st, a + before + b, back, after, st');
    assert Own(a) + [] + Own(b) + [] == Own(a) + Own(b);
  }

  lemma WithMore(h: Holding, chain: seq<int>, o: int)
    ensures With(With(h, chain), [o]) == With(h, [o] + chain)
  {
    assert multiset([o] + chain) == multiset{o} + multiset(chain);
  }

  lemma ChainParts(chain: seq<int>, i: nat)
    requires i <= |chain|
    ensures i < |chain| ==> chain[i..] == [chain[i]] + chain[i + 1..] && chain[..i + 1] == chain[..i] + [chain[i]]
    ensures chain[0..] == chain == chain[..|chain|] && chain[|chain|..] == [] == chain[..0]
  {
  }

  lemma NothingOut(out: multiset<int>)
    ensures out - multiset([]) == out
  {
  }

  lemma WithNothing(h: Holding)
    ensures With(h, []) == h
  {
  }

  lemma Counted(out: multiset<int>, done: seq<int>, o: int)
    ensures out - multiset(done) - multiset{o} == out - multiset(done + [o])
  {
  }

  lemma NothingToFetch(c: Class, st: State)
    requires Sound(c) && Inv(c, st) && st.nonempty == []
    ensures Apply(c, st, Fetch) == st
  {
  }

  lemma SizesAre(c: Class, st: State)
    requires Sound(c) && Inv(c, st)
    ensures |st.slots| <= st.cacheSize <= c.maxSlots
    ensures forall i | 0 <= i < |st.slots| :: |st.slots[i]| == c.batch
  {
  }

  lemma ReturnedIs(c: Class, st: State, o: int)
    requires Sound(c) && Owner(c, st.nonempty, o) < |st.nonempty|
    ensures var k := Owner(c, st.nonempty, o); var s := st.nonempty[k];
      Returned(c, st, o) ==
      if s.refcount == 1 then
        State(Without(st.nonempty, k), st.empty, st.numSpans - 1, st.counter + 1 - PerSpan(c), st.slots, st.cacheSize,
          st.out - multiset{o}, st.leaving + multiset{s.base}, st.arriving)
      else
        State(st.nonempty[k := Span(s.base, [o] + s.free, s.refcount - 1)], st.empty, st.numSpans, st.counter + 1,
          st.slots, st.cacheSize, st.out - multiset{o}, st.leaving, st.arriving)
  {
  }

  lemma PerSpanIs(c: Class)
    requires Sound(c)
    ensures PerSpan(c) == c.bytes / c.size
  {
  }

  lemma PieceFits(c: Class, i: nat)
    requires Sound(c) && i * c.size + c.size <= c.bytes
    ensures i < PerSpan(c)
  {
    var n := PerSpan(c);
    assert c.bytes == n * c.size + c.bytes % c.size;
    assert (i - n) * c.size == i * c.size - n * c.size < 0;
  }

  lemma NoPieceFits(c: Class, i: nat)
    requires Sound(c) && i <= PerSpan(c) && i * c.size + c.size > c.bytes
    ensures i == PerSpan(c)
  {
    PerSpanFits(c);
    if i < PerSpan(c) {
      UpTo(c.size, i, PerSpan(c));
    }
  }
}
