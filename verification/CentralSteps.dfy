/** Every step of the central free list keeps its invariant. */
module CentralSteps {
  import opened CentralState

  /* ---- One span more or less ---- */

  predicate FarFromAll(c: Class, spans: seq<Span>, base: int) {
    forall i | 0 <= i < |spans| :: Far(c, spans[i].base, base)
  }

  predicate Fits(c: Class, spans: seq<Span>, s: Span, arriving: set<int>)
    requires Sound(c)
  {
    SpanInv(c, s) && FarFromAll(c, spans, s.base) && forall x | x in arriving :: Far(c, s.base, x)
  }

  lemma GoodInsert(c: Class, a: seq<Span>, s: Span, b: seq<Span>, arriving: set<int>)
    requires Sound(c)
    ensures Good(c, a + [s] + b, arriving) <==> Good(c, a + b, arriving) && Fits(c, a + b, s, arriving)
  {
    var all, rest, k := a + [s] + b, a + b, |a|;
    assert forall i | 0 <= i < k :: all[i] == rest[i];
    assert forall i | k <= i < |rest| :: all[i + 1] == rest[i];
    assert all[k] == s;
    if Good(c, all, arriving) {
      GoodRemove(c, a, s, b, arriving);
    } else if Good(c, rest, arriving) && Fits(c, rest, s, arriving) {
      forall i | 0 <= i < |all| ensures SpanInv(c, all[i]) {
        assert i > k ==> all[i] == rest[i - 1];
      }
      forall i, j | 0 <= i < j < |all| ensures Far(c, all[i].base, all[j].base) {
        assert i > k ==> all[i] == rest[i - 1];
        assert j > k ==> all[j] == rest[j - 1];
      }
      forall i, x | 0 <= i < |all| && x in arriving ensures Far(c, all[i].base, x) {
        assert i > k ==> all[i] == rest[i - 1];
      }
    }
  }

  lemma GoodRemove(c: Class, a: seq<Span>, s: Span, b: seq<Span>, arriving: set<int>)
    requires Sound(c) && Good(c, a + [s] + b, arriving)
    ensures Good(c, a + b, arriving) && Fits(c, a + b, s, arriving)
  {
    var all, rest, k := a + [s] + b, a + b, |a|;
    assert all[k] == s;
    forall i | 0 <= i < |rest| ensures SpanInv(c, rest[i]) && Far(c, rest[i].base, s.base) {
      var i' := if i < k then i else i + 1;
      assert rest[i] == all[i'];
    }
    forall i, j | 0 <= i < j < |rest| ensures Far(c, rest[i].base, rest[j].base) {
      var i', j' := if i < k then i else i + 1, if j < k then j else j + 1;
      assert rest[i] == all[i'] && rest[j] == all[j'];
    }
    forall i, x | 0 <= i < |rest| && x in arriving ensures Far(c, rest[i].base, x) {
      var i' := if i < k then i else i + 1;
      assert rest[i] == all[i'];
    }
  }

  lemma InUseInsert(a: seq<Span>, s: Span, b: seq<Span>)
    ensures InUse(a + [s] + b) <==> InUse(a + b) && s.refcount > 0
  {
    var all, rest, k := a + [s] + b, a + b, |a|;
    assert all[k] == s;
    assert forall i | 0 <= i < k :: all[i] == rest[i];
    assert forall i | k <= i < |rest| :: all[i + 1] == rest[i];
    assert forall i | k < i < |all| :: all[i] == rest[i - 1];
  }

  /** What the invariant says about the span s in the middle of the lists, and about the rest. */
  lemma TakeOut(c: Class, st: State, a: seq<Span>, s: Span, b: seq<Span>)
    requires Sound(c) && Core(c, st) && Listed(st) == a + [s] + b
    ensures Good(c, a + b, st.arriving) && Fits(c, a + b, s, st.arriving)
    ensures Free(Listed(st)) == Free(a + b) + multiset(s.free)
    ensures Free(a + b) + multiset(s.free) + InSlots(st.slots) + st.out == Carved(c, a + b) + multiset(Chunk(c, s.base))
    ensures st.counter == |Free(a + b)| + |s.free|
  {
    hide Good, Free, Carved, Chunk, Fits;
    GoodInsert(c, a, s, b, st.arriving);
    SumsInsert(c, a, s, b);
  }

  /** The other way round. */
  lemma PutBack(c: Class, st: State, a: seq<Span>, s: Span, b: seq<Span>)
    requires Sound(c) && Listed(st) == a + [s] + b
    requires Good(c, a + b, st.arriving) && Fits(c, a + b, s, st.arriving)
    requires Free(a + b) + multiset(s.free) + InSlots(st.slots) + st.out ==
      Carved(c, a + b) + multiset(Chunk(c, s.base))
    ensures Good(c, Listed(st), st.arriving) && Conserved(c, st)
    ensures |Free(Listed(st))| == |Free(a + b)| + |s.free|
  {
    hide Good, Free, Carved, Chunk, Fits;
    GoodInsert(c, a, s, b, st.arriving);
    SumsInsert(c, a, s, b);
  }

  /* ---- FetchFromSpans ---- */

  lemma HeadAndTail(s: seq<int>)
    requires s != []
    ensures multiset(s) == multiset{s[0]} + multiset(s[1..]) && |s| == 1 + |s[1..]|
  {
    assert s == [s[0]] + s[1..];
  }

  /** The head may be a span that has just been added, with no object in use yet. */
  lemma FetchKeeps(c: Class, st: State)
    requires Sound(c) && Core(c, st) && HaveFree(st.nonempty) && HaveNone(st.empty)
    requires InUse(Listed(st)) ||
      (st.nonempty != [] && InUse(st.nonempty[1..] + st.empty) && st.nonempty[0].refcount == 0)
    ensures Inv(c, AfterFetch(st))
  {
    hide Good, Free, Carved, Chunk, Fits, InUse, HaveFree, HaveNone, PerSpan, Conserved, InSlots;
    if st.nonempty != [] {
      var s, rest := st.nonempty[0], st.nonempty[1..];
      FreeTail(st.nonempty, s);
      var left := Span(s.base, s.free[1..], s.refcount + 1);
      var st' := AfterFetch(st);
      NoneHead(st.empty, left);
      FreeTail(st.nonempty, left);
      TakeOutHead(c, st);
      LeftFits(c, rest + st.empty, s, left, st.arriving);
      HeadAndTail(s.free);
      assert Listed(st) == [s] + (rest + st.empty);
      OthersInUse(s, rest + st.empty);
      if left.free == [] {
        assert Listed(st') == rest + [left] + st.empty;
        PutBack(c, st', rest, left, st.empty);
        InUseInsert(rest, left, st.empty);
      } else {
        PutBackHead(c, st', left, rest + st.empty);
      }
    }
  }

  lemma PutBackHead(c: Class, st: State, s: Span, rest: seq<Span>)
    requires Sound(c) && Listed(st) == [s] + rest
    requires Good(c, rest, st.arriving) && Fits(c, rest, s, st.arriving)
    requires Free(rest) + multiset(s.free) + InSlots(st.slots) + st.out == Carved(c, rest) + multiset(Chunk(c, s.base))
    ensures Good(c, Listed(st), st.arriving) && Conserved(c, st)
    ensures |Free(Listed(st))| == |Free(rest)| + |s.free|
    ensures InUse(rest) && s.refcount > 0 ==> InUse(Listed(st))
  {
    hide Good, Free, Carved, Chunk, Fits, Conserved, InSlots;
    assert [] + rest == rest && [] + [s] + rest == [s] + rest;
    PutBack(c, st, [], s, rest);
    InUseInsert([], s, rest);
  }

  lemma OthersInUse(s: Span, rest: seq<Span>)
    ensures InUse([s] + rest) ==> InUse(rest) && s.refcount > 0
  {
    assert [] + rest == rest && [] + [s] + rest == [s] + rest;
    InUseInsert([], s, rest);
  }

  lemma NoneHead(spans: seq<Span>, s: Span)
    ensures HaveNone(spans) && s.free == [] ==> HaveNone([s] + spans)
  {
  }

  lemma TakeOutHead(c: Class, st: State)
    requires Sound(c) && Core(c, st) && st.nonempty != []
    ensures var s, rest := st.nonempty[0], st.nonempty[1..] + st.empty;
      && Good(c, rest, st.arriving) && Fits(c, rest, s, st.arriving)
      && Free(rest) + multiset(s.free) + InSlots(st.slots) + st.out == Carved(c, rest) + multiset(Chunk(c, s.base))
      && st.counter == |Free(rest)| + |s.free|
  {
    hide Good, Free, Carved, Chunk, Fits, Conserved, InSlots;
    var s, rest := st.nonempty[0], st.nonempty[1..] + st.empty;
    assert Listed(st) == [] + [s] + rest && [] + rest == rest;
    TakeOut(c, st, [], s, rest);
  }

  lemma LeftFits(c: Class, spans: seq<Span>, s: Span, left: Span, arriving: set<int>)
    requires Sound(c) && s.free != [] && left == Span(s.base, s.free[1..], s.refcount + 1)
    requires Fits(c, spans, s, arriving)
    ensures Fits(c, spans, left, arriving) && left.refcount == s.refcount + 1
  {
    hide Chunk, PerSpan;
    HeadAndTail(s.free);
  }

  lemma FreeTail(spans: seq<Span>, s: Span)
    requires HaveFree(spans) && spans != []
    ensures HaveFree(spans[1..]) && spans[0].free != [] && (s.free != [] ==> HaveFree([s] + spans[1..]))
  {
  }

  /* ---- Populate ---- */

  lemma ArrivalFits(c: Class, st: State, b: int)
    requires Sound(c) && Core(c, st) && b in st.arriving
    ensures Fits(c, Listed(st), Span(b, Chunk(c, b), 0), st.arriving - {b})
    ensures Good(c, Listed(st), st.arriving - {b})
  {
    hide Chunk, PerSpan, Conserved, Listed;
  }

  lemma AddedKeeps(c: Class, st: State, b: int)
    requires Sound(c) && Inv(c, st) && b in st.arriving
    ensures HaveFree(WithSpan(c, st, b).nonempty) && Inv(c, AfterFetch(WithSpan(c, st, b)))
  {
    hide Good, Free, Carved, Chunk, PerSpan, Fits, InUse, HaveNone, Conserved, InSlots;
    var s, st' := Span(b, Chunk(c, b), 0), WithSpan(c, st, b);
    ArrivalFits(c, st, b);
    assert Listed(st') == [s] + Listed(st);
    ConservedMeans(c, st);
    PutBackHead(c, st', s, Listed(st));
    assert st'.nonempty[1..] == st.nonempty;
    FetchKeeps(c, st');
  }

  lemma ConservedMeans(c: Class, st: State)
    requires Sound(c)
    ensures Conserved(c, st) <==> Free(Listed(st)) + InSlots(st.slots) + st.out == Carved(c, Listed(st))
  {
  }

  lemma AllocatedKeeps(c: Class, st: State, b: int)
    requires Sound(c) && Inv(c, st) && Enabled(c, st, Allocated(b))
    ensures Inv(c, st.(arriving := st.arriving + {b}))
  {
    hide SpanInv, Free, Carved;
    var st' := st.(arriving := st.arriving + {b});
    assert Listed(st') == Listed(st);
  }

  /* ---- ReleaseToSpans ---- */

  /** The page map leads from an object that is out to the span it was cut from. */
  lemma {:induction false} OwnerFound(c: Class, spans: seq<Span>, o: int)
    requires Sound(c) && Apart(c, spans) && o in Carved(c, spans)
    ensures Owner(c, spans, o) < |spans| && o in Chunk(c, spans[Owner(c, spans, o)].base)
  {
    hide Chunk;
    if o in Chunk(c, spans[0].base) {
      ChunkInside(c, spans[0].base, o);
    } else {
      OwnerFound(c, spans[1..], o);
      var i := 1 + Owner(c, spans[1..], o);
      assert Far(c, spans[0].base, spans[i].base);
      ChunkInside(c, spans[i].base, o);
    }
  }

  lemma {:induction false} OwnerOfBoth(c: Class, a: seq<Span>, b: seq<Span>, o: int)
    ensures Owner(c, a + b, o) == if Owner(c, a, o) < |a| then Owner(c, a, o) else |a| + Owner(c, b, o)
  {
    if a == [] {
      assert a + b == b;
    } else {
      assert (a + b)[1..] == a[1..] + b;
      OwnerOfBoth(c, a[1..], b, o);
    }
  }

  lemma OutIsCarved(c: Class, st: State, o: int)
    requires Sound(c) && Core(c, st) && o in st.out
    ensures o in Carved(c, Listed(st)) && Apart(c, Listed(st)) && o !in Free(Listed(st)) && o !in InSlots(st.slots)
    ensures st.out[o] == 1
  {
    hide Free, Carved, InSlots, Listed, SpanInv;
    CarvedOnce(c, Listed(st), o);
    var all := Free(Listed(st)) + InSlots(st.slots) + st.out;
    assert all[o] == Free(Listed(st))[o] + InSlots(st.slots)[o] + st.out[o];
  }

  /** The owner of an object that is out: among the spans with free objects once it has been
      moved up. */
  lemma OwnerUpKeeps(c: Class, st: State, o: int)
    requires Sound(c) && Inv(c, st) && o in st.out
    ensures var st' := OwnerUp(c, st, o); var k := Owner(c, st'.nonempty, o);
      && Core(c, st') && InUse(Listed(st')) && HaveNone(st'.empty) && st'.out == st.out
      && k < |st'.nonempty| && o in Chunk(c, st'.nonempty[k].base)
      && (forall i | 0 <= i < |st'.nonempty| && i != k :: st'.nonempty[i].free != [])
  {
    hide Good, Free, Carved, Chunk, PerSpan, Fits, InUse, Conserved, InSlots, Apart;
    OutIsCarved(c, st, o);
    OwnerFound(c, Listed(st), o);
    OwnerOfBoth(c, st.nonempty, st.empty, o);
    var j := Owner(c, st.empty, o);
    if Owner(c, st.nonempty, o) == |st.nonempty| {
      MovedUpKeeps(c, st, j);
      assert Listed(st)[|st.nonempty| + j] == st.empty[j];
    }
  }

  lemma MovedUpKeeps(c: Class, st: State, j: nat)
    requires Sound(c) && Inv(c, st) && j < |st.empty|
    ensures var st' := st.(nonempty := [st.empty[j]] + st.nonempty, empty := Without(st.empty, j));
      Core(c, st') && InUse(Listed(st')) && HaveNone(st'.empty)
  {
    hide Good, Free, Carved, Chunk, PerSpan, Fits, InUse, Conserved, InSlots;
    var s, st' := st.empty[j], st.(nonempty := [st.empty[j]] + st.nonempty, empty := Without(st.empty, j));
    var a, b := st.nonempty + st.empty[..j], st.empty[j + 1..];
    var rest := st.nonempty + Without(st.empty, j);
    assert Listed(st) == a + [s] + b && a + b == rest;
    assert Listed(st') == [s] + rest;
    TakeOut(c, st, a, s, b);
    InUseInsert(a, s, b);
    PutBackHead(c, st', s, rest);
  }

  lemma EqualBySize(a: multiset<int>, b: multiset<int>)
    requires a <= b && |a| == |b|
    ensures a == b
  {
    assert b == a + (b - a);
    assert |b| == |a| + |b - a|;
  }

  /** The object is not among the free ones of its span. */
  lemma FreeWithObject(c: Class, s: Span, o: int)
    requires Sound(c) && SpanInv(c, s) && o in Chunk(c, s.base) && o !in multiset(s.free)
    ensures multiset([o] + s.free) == multiset(s.free) + multiset{o} <= multiset(Chunk(c, s.base))
    ensures s.refcount == 1 ==>
      multiset(s.free) + multiset{o} == multiset(Chunk(c, s.base)) && |s.free| + 1 == PerSpan(c)
  {
    hide PerSpan;
    var all := multiset(s.free) + multiset{o};
    assert multiset(Chunk(c, s.base))[o] >= 1;
    if s.refcount == 1 {
      EqualBySize(all, multiset(Chunk(c, s.base)));
    }
  }

  lemma AllBack(f: multiset<int>, free: multiset<int>, slots: multiset<int>, out: multiset<int>,
                carved: multiset<int>, chunk: multiset<int>, o: int)
    requires f + free + slots + out == carved + chunk && chunk == free + multiset{o} && o in out
    ensures f + slots + (out - multiset{o}) == carved
  {
    assert f + slots + (out - multiset{o}) + chunk == carved + chunk;
    forall x ensures (f + slots + (out - multiset{o}))[x] == carved[x] {
      assert (f + slots + (out - multiset{o}) + chunk)[x] == (carved + chunk)[x];
    }
  }

  lemma ReturnedKeeps(c: Class, st: State, o: int, k: nat)
    requires Sound(c) && Core(c, st) && InUse(Listed(st)) && HaveNone(st.empty) && o in st.out
    requires k == Owner(c, st.nonempty, o) < |st.nonempty| && o in Chunk(c, st.nonempty[k].base)
    requires forall i | 0 <= i < |st.nonempty| && i != k :: st.nonempty[i].free != []
    ensures Inv(c, Returned(c, st, o))
  {
    hide Good, Free, Carved, Chunk, PerSpan, Fits, InUse, HaveNone, HaveFree, Conserved, InSlots, Owner, SpanInv;
    var s, a, b := st.nonempty[k], st.nonempty[..k], st.nonempty[k + 1..] + st.empty;
    assert Listed(st) == a + [s] + b;
    TakeOut(c, st, a, s, b);
    InUseInsert(a, s, b);
    OutIsCarved(c, st, o);
    FitsSpan(c, a + b, s, st.arriving);
    FreeWithObject(c, s, o);
    if s.refcount == 1 {
      LastReturnedKeeps(c, st, o, k, a, s, b);
    } else {
      OneReturnedKeeps(c, st, o, k, a, s, b);
    }
  }

  /** The span leaves. */
  lemma LastReturnedKeeps(c: Class, st: State, o: int, k: nat, a: seq<Span>, s: Span, b: seq<Span>)
    requires Sound(c) && Core(c, st) && HaveNone(st.empty) && o in st.out
    requires k == Owner(c, st.nonempty, o) < |st.nonempty| && s == st.nonempty[k] && s.refcount == 1
    requires a == st.nonempty[..k] && b == st.nonempty[k + 1..] + st.empty && InUse(a + b)
    requires forall i | 0 <= i < |st.nonempty| && i != k :: st.nonempty[i].free != []
    requires Good(c, a + b, st.arriving) && st.counter == |Free(a + b)| + |s.free| && |s.free| + 1 == PerSpan(c)
    requires Free(a + b) + multiset(s.free) + InSlots(st.slots) + st.out ==
      Carved(c, a + b) + multiset(Chunk(c, s.base))
    requires multiset(s.free) + multiset{o} == multiset(Chunk(c, s.base))
    ensures Inv(c, Returned(c, st, o))
  {
    hide Good, Free, Carved, Chunk, PerSpan, Fits, InUse, HaveNone, HaveFree, Conserved, InSlots, Owner, SpanInv;
    var st' := Returned(c, st, o);
    assert Listed(st') == a + b;
    AllBack(Free(a + b), multiset(s.free), InSlots(st.slots), st.out, Carved(c, a + b), multiset(Chunk(c, s.base)), o);
    ConservedMeans(c, st');
    OthersHaveFree(st.nonempty, k);
  }

  /** The span stays, with one object more. */
  lemma OneReturnedKeeps(c: Class, st: State, o: int, k: nat, a: seq<Span>, s: Span, b: seq<Span>)
    requires Sound(c) && Core(c, st) && HaveNone(st.empty) && o in st.out
    requires k == Owner(c, st.nonempty, o) < |st.nonempty| && s == st.nonempty[k] && s.refcount > 1
    requires a == st.nonempty[..k] && b == st.nonempty[k + 1..] + st.empty && InUse(a + b)
    requires forall i | 0 <= i < |st.nonempty| && i != k :: st.nonempty[i].free != []
    requires Fits(c, a + b, s, st.arriving) && st.counter == |Free(a + b)| + |s.free|
    requires Free(a + b) + multiset(s.free) + InSlots(st.slots) + st.out ==
      Carved(c, a + b) + multiset(Chunk(c, s.base))
    requires multiset([o] + s.free) == multiset(s.free) + multiset{o} <= multiset(Chunk(c, s.base))
    requires Good(c, a + b, st.arriving)
    ensures Inv(c, Returned(c, st, o))
  {
    hide Good, Free, Carved, Chunk, PerSpan, Fits, InUse, HaveNone, HaveFree, Conserved, InSlots, Owner, SpanInv;
    var st', s' := Returned(c, st, o), Span(s.base, [o] + s.free, s.refcount - 1);
    assert Listed(st') == a + [s'] + b;
    FitsReplaced(c, a + b, s, s', st.arriving);
    PutBack(c, st', a, s', b);
    InUseInsert(a, s', b);
    HeadHasFree(st.nonempty, k, s');
  }

  lemma FitsReplaced(c: Class, spans: seq<Span>, s: Span, s': Span, arriving: set<int>)
    requires Sound(c) && Fits(c, spans, s, arriving) && s'.base == s.base
    requires |s'.free| + s'.refcount == |s.free| + s.refcount && multiset(s'.free) <= multiset(Chunk(c, s.base))
    ensures Fits(c, spans, s', arriving)
  {
    hide Chunk, PerSpan;
  }

  lemma FitsSpan(c: Class, spans: seq<Span>, s: Span, arriving: set<int>)
    requires Sound(c) && Fits(c, spans, s, arriving)
    ensures SpanInv(c, s)
  {
  }

  lemma OthersHaveFree(spans: seq<Span>, k: nat)
    requires k < |spans| && forall i | 0 <= i < |spans| && i != k :: spans[i].free != []
    ensures HaveFree(Without(spans, k))
  {
  }

  lemma HeadHasFree(spans: seq<Span>, k: nat, s: Span)
    requires k < |spans| && s.free != [] && forall i | 0 <= i < |spans| && i != k :: spans[i].free != []
    ensures HaveFree(spans[k := s])
  {
  }

  /* ---- The transfer cache ---- */

  lemma SlotAdded(slots: seq<seq<int>>, chain: seq<int>)
    ensures InSlots(slots + [chain]) == InSlots(slots) + multiset(chain)
  {
    assert (slots + [chain])[..|slots|] == slots;
  }

  lemma Swapped(f: multiset<int>, a: multiset<int>, b: multiset<int>, m: multiset<int>, all: multiset<int>)
    requires f + a + b == all && m <= b
    ensures f + (a + m) + (b - m) == all
  {
  }

  lemma ToSlotKeeps(c: Class, st: State, chain: seq<int>)
    requires Sound(c) && Inv(c, st) && Enabled(c, st, ToSlot(chain))
    ensures Inv(c, Apply(c, st, ToSlot(chain)))
  {
    hide Good, Free, Carved, InSlots, InUse, HaveFree, HaveNone, Conserved;
    var st' := Apply(c, st, ToSlot(chain));
    assert Listed(st') == Listed(st);
    ConservedMeans(c, st);
    ConservedMeans(c, st');
    SlotAdded(st.slots, chain);
    Swapped(Free(Listed(st)), InSlots(st.slots), st.out, multiset(chain), Carved(c, Listed(st)));
  }

  /** Taking the last chain out of the slots, whatever becomes of the cache's size. */
  lemma FromSlotKeeps(c: Class, st: State, size: int)
    requires Sound(c) && Inv(c, st) && st.slots != [] && |st.slots| - 1 <= size <= st.cacheSize
    ensures Inv(c, st.(cacheSize := size, slots := st.slots[..|st.slots| - 1],
      out := st.out + multiset(st.slots[|st.slots| - 1])))
  {
    hide Good, Free, Carved, InSlots, InUse, HaveFree, HaveNone, Conserved;
    var last := |st.slots| - 1;
    var st' := st.(cacheSize := size, slots := st.slots[..last], out := st.out + multiset(st.slots[last]));
    assert Listed(st') == Listed(st) && st.slots[..last] + [st.slots[last]] == st.slots;
    ConservedMeans(c, st);
    ConservedMeans(c, st');
    SlotAdded(st.slots[..last], st.slots[last]);
  }

  lemma ResizedKeeps(c: Class, st: State, size: int)
    requires Sound(c) && Inv(c, st) && |st.slots| <= size <= st.cacheSize
    ensures Inv(c, st.(cacheSize := size))
  {
    hide Good, Free, Carved, InSlots, InUse, HaveFree, HaveNone;
    assert Listed(st.(cacheSize := size)) == Listed(st);
  }

  lemma OtherKeeps(c: Class, st: State, leaving: multiset<int>)
    requires Sound(c) && Inv(c, st)
    ensures Inv(c, st.(leaving := leaving))
  {
    hide Good, Free, Carved, InSlots, InUse, HaveFree, HaveNone;
    assert Listed(st.(leaving := leaving)) == Listed(st);
  }

  /* ---- Every run ---- */

  /** Whichever thread takes the next step, the invariant holds when the lock is free again. */
  lemma StepKeeps(c: Class, st: State, e: Event)
    requires Sound(c) && Inv(c, st) && Enabled(c, st, e)
    ensures Inv(c, Apply(c, st, e))
  {
    hide Inv, Core, Good, Free, Carved, InSlots, Chunk, Owner;
    CacheBounds(c, st);
    match e
    case Fetch => FetchFromInv(c, st);
    case Release(o) =>
      OwnerUpKeeps(c, st, o);
      var up := OwnerUp(c, st, o);
      ReturnedKeeps(c, up, o, Owner(c, up.nonempty, o));
    case Deleted(b) => OtherKeeps(c, st, st.leaving - multiset{b});
    case Allocated(b) => AllocatedKeeps(c, st, b);
    case Added(b) => AddedKeeps(c, st, b);
    case ToSlot(chain) => ToSlotKeeps(c, st, chain);
    case FromSlot => FromSlotKeeps(c, st, st.cacheSize);
    case Shrink(force) =>
      if st.cacheSize == 0 {
      } else if |st.slots| == st.cacheSize {
        if force {
          FromSlotKeeps(c, st, st.cacheSize - 1);
        }
      } else {
        ResizedKeeps(c, st, st.cacheSize - 1);
      }
  }

  /** No object is in two places. */
  lemma OnePlace(c: Class, st: State, o: int)
    requires Sound(c) && Inv(c, st)
    ensures Free(Listed(st))[o] + InSlots(st.slots)[o] + st.out[o] <= 1
  {
    hide Free, Carved, InSlots, Listed, SpanInv, Chunk;
    CarvedOnce(c, Listed(st), o);
    assert (Free(Listed(st)) + InSlots(st.slots) + st.out)[o] == Free(Listed(st))[o] + InSlots(st.slots)[o] + st.out[o];
  }

  lemma CacheBounds(c: Class, st: State)
    requires Sound(c) && Inv(c, st)
    ensures |st.slots| <= st.cacheSize
  {
  }

  lemma FetchFromInv(c: Class, st: State)
    requires Sound(c) && Inv(c, st)
    ensures HaveFree(st.nonempty) && Inv(c, AfterFetch(st))
  {
    FetchKeeps(c, st);
  }

  ghost predicate Possible(c: Class, st: State, run: seq<Event>)
    requires Sound(c) && Inv(c, st)
    decreases |run|
  {
    run == [] || (Enabled(c, st, run[0]) && (StepKeeps(c, st, run[0]); Possible(c, Apply(c, st, run[0]), run[1..])))
  }

  ghost function Outcome(c: Class, st: State, run: seq<Event>): (st': State)
    requires Sound(c) && Inv(c, st) && Possible(c, st, run)
    ensures Inv(c, st')
    decreases |run|
  {
    if run == [] then st
    else
      StepKeeps(c, st, run[0]);
      Outcome(c, Apply(c, st, run[0]), run[1..])
  }

  function Start(cacheSize: int): State {
    State([], [], 0, 0, [], cacheSize, multiset{}, multiset{}, {})
  }

  lemma StartsWell(c: Class, cacheSize: int)
    requires Sound(c) && 0 <= cacheSize <= c.maxSlots
    ensures Inv(c, Start(cacheSize))
  {
  }

  lemma {:induction false} RefsCount(c: Class, spans: seq<Span>)
    requires Sound(c) && forall i | 0 <= i < |spans| :: SpanInv(c, spans[i])
    ensures |Free(spans)| + Refs(spans) == |Carved(c, spans)| == |spans| * PerSpan(c)
  {
    hide PerSpan, Chunk, SpanInv, Free, Carved, Refs, Sound;
    NothingCounted(c);
    if spans != [] {
      var rest := spans[1..];
      assert forall i | 0 <= i < |rest| :: rest[i] == spans[i + 1];
      RefsCount(c, rest);
      SpanCount(c, spans[0]);
      FirstCounted(c, spans);
      OneTimesMore(|rest|, PerSpan(c));
    } else {
      assert |spans| * PerSpan(c) == 0;
    }
  }

  lemma NothingCounted(c: Class)
    requires Sound(c)
    ensures Free([]) == multiset{} && Refs([]) == 0 && Carved(c, []) == multiset{}
  {
  }

  lemma FirstCounted(c: Class, spans: seq<Span>)
    requires Sound(c) && spans != []
    ensures |Free(spans)| == |spans[0].free| + |Free(spans[1..])| && Refs(spans) == spans[0].refcount + Refs(spans[1..])
    ensures |Carved(c, spans)| == |multiset(Chunk(c, spans[0].base))| + |Carved(c, spans[1..])|
  {
    hide Chunk;
  }

  lemma OneTimesMore(n: nat, p: int)
    ensures (n + 1) * p == n * p + p
  {
  }

  lemma SpanCount(c: Class, s: Span)
    requires Sound(c) && SpanInv(c, s)
    ensures |s.free| + s.refcount == PerSpan(c) == |multiset(Chunk(c, s.base))|
  {
  }

  lemma {:induction false} RefsPositive(spans: seq<Span>)
    requires InUse(spans)
    ensures Refs(spans) >= |spans|
  {
    if spans != [] {
      RefsPositive(spans[1..]);
    }
  }

  /** In every state of every run from the start: the free objects counted and those held
      outside make up all that the spans were cut into, so a span is listed only as long as
      one of its objects is held, and with nothing held nothing is listed. */
  lemma RunConserves(c: Class, cacheSize: int, run: seq<Event>)
    requires Sound(c) && 0 <= cacheSize <= c.maxSlots
    requires Inv(c, Start(cacheSize)) && Possible(c, Start(cacheSize), run)
    ensures var st := Outcome(c, Start(cacheSize), run);
      && Inv(c, st)
      && st.counter + |InSlots(st.slots)| + |st.out| == st.numSpans * PerSpan(c)
      && st.numSpans <= |InSlots(st.slots)| + |st.out|
      && (st.out == multiset{} && st.slots == [] ==> st.numSpans == 0 && st.counter == 0)
  {
    hide Chunk, PerSpan, Apart, ApartFrom, Possible, Start;
    var st := Outcome(c, Start(cacheSize), run);
    RefsCount(c, Listed(st));
    RefsPositive(Listed(st));
    ConservedMeans(c, st);
    assert |Listed(st)| == st.numSpans;
    assert |Free(Listed(st)) + InSlots(st.slots) + st.out| == |Free(Listed(st))| + |InSlots(st.slots)| + |st.out|;
    if st.out == multiset{} && st.slots == [] {
      assert InSlots(st.slots) == multiset{};
      assert Listed(st) == [];
    }
  }

  /* ---- Logs ---- */

  /** A step of the thread whose call is looked at, or of another one. */
  datatype Step = Step(own: bool, event: Event)

  function Events(log: seq<Step>): seq<Event> {
    seq(|log|, i requires 0 <= i < |log| => log[i].event)
  }

  /** The steps of the call itself. */
  function Own(log: seq<Step>): seq<Event> {
    if log == [] then [] else (if log[0].own then [log[0].event] else []) + Own(log[1..])
  }

  /** The steps of the log lead from one state to the other. */
  ghost predicate Went(c: Class, st: State, log: seq<Step>, st': State) {
    Sound(c) && Inv(c, st) && Possible(c, st, Events(log)) && st' == Outcome(c, st, Events(log))
  }

  lemma WentNowhere(c: Class, st: State)
    requires Sound(c) && Inv(c, st)
    ensures Went(c, st, [], st) && Own([]) == []
  {
    hide Inv;
    assert Events([]) == [];
  }

  lemma WentStep(c: Class, st: State, own: bool, e: Event)
    requires Sound(c) && Inv(c, st) && Enabled(c, st, e)
    ensures Went(c, st, [Step(own, e)], Apply(c, st, e)) && Own([Step(own, e)]) == if own then [e] else []
  {
    hide Inv, Apply, Enabled;
    var log := [Step(own, e)];
    assert Events(log) == [e] && [e][1..] == [] && log[1..] == [];
    StepKeeps(c, st, e);
    assert Possible(c, Apply(c, st, e), []) && Outcome(c, Apply(c, st, e), []) == Apply(c, st, e);
    assert Own([]) == [] && [e] + [] == [e];
  }

  lemma WentThen(c: Class, st: State, a: seq<Step>, mid: State, b: seq<Step>, st': State)
    requires Went(c, st, a, mid) && Went(c, mid, b, st')
    ensures Went(c, st, a + b, st') && Own(a + b) == Own(a) + Own(b)
  {
    hide Inv, Possible, Outcome, Own;
    assert Events(a + b) == Events(a) + Events(b);
    RunsJoin(c, st, Events(a), Events(b));
    OwnJoin(a, b);
  }

  lemma {:induction false} RunsJoin(c: Class, st: State, a: seq<Event>, b: seq<Event>)
    requires Sound(c) && Inv(c, st) && Possible(c, st, a) && Possible(c, Outcome(c, st, a), b)
    ensures Possible(c, st, a + b) && Outcome(c, st, a + b) == Outcome(c, Outcome(c, st, a), b)
    decreases |a|
  {
    hide Inv, Apply, Enabled;
    if a == [] {
      assert a + b == b;
    } else {
      StepKeeps(c, st, a[0]);
      RunsJoin(c, Apply(c, st, a[0]), a[1..], b);
      assert (a + b)[0] == a[0] && (a + b)[1..] == a[1..] + b;
    }
  }

  lemma {:induction false} OwnJoin(a: seq<Step>, b: seq<Step>)
    ensures Own(a + b) == Own(a) + Own(b)
  {
    if a == [] {
      assert a + b == b;
    } else {
      assert (a + b)[0] == a[0] && (a + b)[1..] == a[1..] + b;
      OwnJoin(a[1..], b);
    }
  }

  /** No step of any thread makes the transfer cache larger. */
  lemma {:induction false} NeverGrows(c: Class, st: State, run: seq<Event>)
    requires Sound(c) && Inv(c, st) && Possible(c, st, run)
    ensures Outcome(c, st, run).cacheSize <= st.cacheSize
    decreases |run|
  {
    hide Inv, Enabled;
    if run != [] {
      StepKeeps(c, st, run[0]);
      StepDoesNotGrow(c, st, run[0]);
      NeverGrows(c, Apply(c, st, run[0]), run[1..]);
    }
  }

  lemma StepDoesNotGrow(c: Class, st: State, e: Event)
    requires Sound(c) && Inv(c, st) && Enabled(c, st, e)
    ensures Apply(c, st, e).cacheSize <= st.cacheSize
  {
    hide Inv, Enabled, Owner, Chunk, PerSpan, Without;
  }

  /** The objects that steps give back to their spans, in turn. */
  function GivenBack(es: seq<Event>): seq<int> {
    if es == [] then [] else (if es[0].Release? then [es[0].obj] else []) + GivenBack(es[1..])
  }

  lemma {:induction false} GivenBackJoin(a: seq<Event>, b: seq<Event>)
    ensures GivenBack(a + b) == GivenBack(a) + GivenBack(b)
  {
    if a == [] {
      assert a + b == b;
    } else {
      assert (a + b)[0] == a[0] && (a + b)[1..] == a[1..] + b;
      GivenBackJoin(a[1..], b);
    }
  }

  lemma GivenBackOne(e: Event)
    ensures GivenBack([e]) == (if e.Release? then [e.obj] else []) && GivenBack([]) == []
  {
    assert [e][1..] == [];
  }
}
