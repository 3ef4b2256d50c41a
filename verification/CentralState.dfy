/** The central free list of one size class as a state machine (central_freelist.cc): its steps
    are the stretches of code run under the lock, and the page-heap calls made between two of
    them with the lock dropped, by any number of threads in any order. */
module CentralState {

  /** size: bytes of an object; bytes: of a span; batch: objects moved at a time. */
  datatype Class = Class(size: nat, bytes: nat, batch: nat, maxSlots: nat)

  predicate Sound(c: Class) {
    0 < c.size <= c.bytes && 0 < c.batch
  }

  function PerSpan(c: Class): (n: nat)
    requires Sound(c)
    ensures n > 0
  {
    PerSpanFits(c);
    c.bytes / c.size
  }

  lemma PerSpanFits(c: Class)
    requires Sound(c)
    ensures c.bytes / c.size > 0 && c.bytes / c.size * c.size <= c.bytes
  {
    var q := c.bytes / c.size;
    assert c.bytes == q * c.size + c.bytes % c.size;
    assert q * c.size > 0;
  }

  /** The objects that Populate cuts out of a span, in address order. */
  function Chunk(c: Class, base: int): (s: seq<int>)
    requires Sound(c)
    ensures |s| == PerSpan(c)
  {
    seq(PerSpan(c), i => base + i * c.size)
  }

  /** A span as the list sees it: its first address, its free objects and the others' number. */
  datatype Span = Span(base: int, free: seq<int>, refcount: int)

  datatype State = State(
    nonempty: seq<Span>, empty: seq<Span>, numSpans: int, counter: int,
    slots: seq<seq<int>>, cacheSize: int,
    // objects with callers, and the spans that some thread is taking to or from the page heap
    out: multiset<int>, leaving: multiset<int>, arriving: set<int>)

  function Listed(st: State): seq<Span> {
    st.nonempty + st.empty
  }

  /* ---- Sums over the listed spans ---- */

  function Free(spans: seq<Span>): multiset<int> {
    if spans == [] then multiset{} else multiset(spans[0].free) + Free(spans[1..])
  }

  function Carved(c: Class, spans: seq<Span>): multiset<int>
    requires Sound(c)
  {
    if spans == [] then multiset{} else multiset(Chunk(c, spans[0].base)) + Carved(c, spans[1..])
  }

  function Refs(spans: seq<Span>): int {
    if spans == [] then 0 else spans[0].refcount + Refs(spans[1..])
  }

  function InSlots(slots: seq<seq<int>>): multiset<int> {
    if slots == [] then multiset{} else multiset(slots[|slots| - 1]) + InSlots(slots[..|slots| - 1])
  }

  lemma {:induction false} SumsConcat(c: Class, a: seq<Span>, b: seq<Span>)
    requires Sound(c)
    ensures Free(a + b) == Free(a) + Free(b)
    ensures Carved(c, a + b) == Carved(c, a) + Carved(c, b)
    ensures Refs(a + b) == Refs(a) + Refs(b)
  {
    if a == [] {
      assert a + b == b;
    } else {
      assert (a + b)[1..] == a[1..] + b;
      SumsConcat(c, a[1..], b);
    }
  }

  function Without(spans: seq<Span>, i: nat): seq<Span>
    requires i < |spans|
  {
    spans[..i] + spans[i + 1..]
  }

  lemma SumsInsert(c: Class, a: seq<Span>, s: Span, b: seq<Span>)
    requires Sound(c)
    ensures Free(a + [s] + b) == Free(a + b) + multiset(s.free)
    ensures Carved(c, a + [s] + b) == Carved(c, a + b) + multiset(Chunk(c, s.base))
    ensures Refs(a + [s] + b) == Refs(a + b) + s.refcount
  {
    assert a + [s] + b == a + ([s] + b) && ([s] + b)[1..] == b;
    SumsConcat(c, a, b);
    SumsConcat(c, a, [s] + b);
  }

  /* ---- The invariant ---- */

  predicate Far(c: Class, a: int, b: int) {
    a + c.bytes <= b || b + c.bytes <= a
  }

  predicate Apart(c: Class, spans: seq<Span>) {
    forall i, j | 0 <= i < j < |spans| :: Far(c, spans[i].base, spans[j].base)
  }

  predicate ApartFrom(c: Class, spans: seq<Span>, bases: set<int>) {
    forall i, b | 0 <= i < |spans| && b in bases :: Far(c, spans[i].base, b)
  }

  /** Free objects and the others add up to the span's; none is foreign. */
  predicate SpanInv(c: Class, s: Span)
    requires Sound(c)
  {
    && |s.free| + s.refcount == PerSpan(c)
    && multiset(s.free) <= multiset(Chunk(c, s.base))
  }

  /** Spans that can be listed together, while the spans of arriving are on their way. */
  predicate Good(c: Class, spans: seq<Span>, arriving: set<int>)
    requires Sound(c)
  {
    && (forall i | 0 <= i < |spans| :: SpanInv(c, spans[i]))
    && Apart(c, spans) && ApartFrom(c, spans, arriving)
  }

  predicate InUse(spans: seq<Span>) {
    forall i | 0 <= i < |spans| :: spans[i].refcount > 0
  }

  /** Every object is in one place: on its span's list, in a slot's chain, or with a caller. */
  predicate Conserved(c: Class, st: State)
    requires Sound(c)
  {
    Free(Listed(st)) + InSlots(st.slots) + st.out == Carved(c, Listed(st))
  }

  /** What holds even in the middle of a step. */
  predicate Core(c: Class, st: State)
    requires Sound(c)
  {
    && st.numSpans == |st.nonempty| + |st.empty|
    && st.counter == |Free(Listed(st))|
    && |st.slots| <= st.cacheSize <= c.maxSlots
    && (forall i | 0 <= i < |st.slots| :: |st.slots[i]| == c.batch)
    && Good(c, Listed(st), st.arriving)
    && (forall a, b | a in st.arriving && b in st.arriving && a != b :: Far(c, a, b))
    && Conserved(c, st)
  }

  predicate HaveFree(spans: seq<Span>) {
    forall i | 0 <= i < |spans| :: spans[i].free != []
  }

  predicate HaveNone(spans: seq<Span>) {
    forall i | 0 <= i < |spans| :: spans[i].free == []
  }

  /** The state at every point where the lock is free. */
  predicate Inv(c: Class, st: State)
    requires Sound(c)
  {
    Core(c, st) && HaveFree(st.nonempty) && HaveNone(st.empty) && InUse(Listed(st))
  }

  /* ---- Whose object is it? ---- */

  lemma UpTo(size: nat, i: nat, n: nat)
    requires i < n && size > 0
    ensures 0 <= i * size && i * size + size <= n * size
    ensures i * size < n * size
  {
    assert (n - i - 1) * size >= 0;
    assert n * size == i * size + size + (n - i - 1) * size;
  }

  lemma ChunkAt(c: Class, base: int, i: nat)
    requires Sound(c) && i < PerSpan(c)
    ensures Chunk(c, base)[i] == base + i * c.size
    ensures base <= Chunk(c, base)[i] && Chunk(c, base)[i] + c.size <= base + c.bytes
  {
    PerSpanFits(c);
    UpTo(c.size, i, PerSpan(c));
  }

  lemma ChunkInside(c: Class, base: int, o: int)
    requires Sound(c) && o in Chunk(c, base)
    ensures base <= o < base + c.bytes
  {
    var i: nat :| i < PerSpan(c) && Chunk(c, base)[i] == o;
    ChunkAt(c, base, i);
  }

  lemma {:induction false} DistinctOnce(s: seq<int>, o: int)
    requires forall i, j | 0 <= i < j < |s| :: s[i] != s[j]
    ensures multiset(s)[o] <= 1
  {
    if s != [] {
      var t := s[1..];
      assert s == [s[0]] + t;
      assert multiset(s) == multiset{s[0]} + multiset(t);
      DistinctOnce(t, o);
      if o == s[0] {
        assert o !in t;
      }
    }
  }

  lemma ChunkOnce(c: Class, base: int, o: int)
    requires Sound(c)
    ensures multiset(Chunk(c, base))[o] <= 1
  {
    var s := Chunk(c, base);
    forall i, j | 0 <= i < j < |s| ensures s[i] != s[j] {
      UpTo(c.size, i, j);
    }
    DistinctOnce(s, o);
  }

  lemma {:induction false} CarvedMember(c: Class, spans: seq<Span>, o: int) returns (i: nat)
    requires Sound(c) && o in Carved(c, spans)
    ensures i < |spans| && o in Chunk(c, spans[i].base)
  {
    if o in Chunk(c, spans[0].base) {
      i := 0;
    } else {
      i := CarvedMember(c, spans[1..], o);
      i := i + 1;
    }
  }

  /** Disjoint spans have no object in common. */
  lemma {:induction false} CarvedOnce(c: Class, spans: seq<Span>, o: int)
    requires Sound(c) && Apart(c, spans)
    ensures Carved(c, spans)[o] <= 1
  {
    if spans != [] {
      CarvedOnce(c, spans[1..], o);
      ChunkOnce(c, spans[0].base, o);
      if o in Chunk(c, spans[0].base) && o in Carved(c, spans[1..]) {
        var i := CarvedMember(c, spans[1..], o);
        assert Far(c, spans[0].base, spans[i + 1].base);
        ChunkInside(c, spans[0].base, o);
        ChunkInside(c, spans[1..][i].base, o);
      }
    }
  }

  /** MapObjectToSpan: the span whose pages hold the object; |spans| if it is none of these. */
  function Owner(c: Class, spans: seq<Span>, o: int): (i: nat)
    ensures i <= |spans| && (i < |spans| ==> spans[i].base <= o < spans[i].base + c.bytes)
    ensures forall k | 0 <= k < i :: !(spans[k].base <= o < spans[k].base + c.bytes)
  {
    if spans == [] || spans[0].base <= o < spans[0].base + c.bytes then 0 else 1 + Owner(c, spans[1..], o)
  }

  /* ---- Steps ---- */

  datatype Event =
    | Fetch                     // FetchFromSpans
    | Release(obj: int)      // ReleaseToSpans, up to where it drops the lock
    | Deleted(base: int)        // the page heap has taken a span back
    | Allocated(base: int)      // the page heap has handed out a span
    | Added(base: int)          // the end of Populate and the fetch after it
    | ToSlot(chain: seq<int>)   // InsertRange into the transfer cache
    | FromSlot                  // RemoveRange from the transfer cache
    | Shrink(force: bool)       // ShrinkCache

  predicate Enabled(c: Class, st: State, e: Event) {
    match e
    case Fetch => true
    case Release(o) => o in st.out
    case Deleted(b) => b in st.leaving
    // the page heap hands out pages that no one has
    case Allocated(b) =>
      && (forall i | 0 <= i < |Listed(st)| :: Far(c, Listed(st)[i].base, b))
      && (forall a | a in st.arriving :: Far(c, a, b)) && (forall a | a in st.leaving :: Far(c, a, b))
    case Added(b) => b in st.arriving
    case ToSlot(chain) => multiset(chain) <= st.out && |chain| == c.batch && |st.slots| < st.cacheSize
    case FromSlot => st.slots != []
    case Shrink(_) => true
  }

  function AfterFetch(st: State): State
    requires HaveFree(st.nonempty)
  {
    if st.nonempty == [] then st
    else
      var s := st.nonempty[0];
      var left := Span(s.base, s.free[1..], s.refcount + 1);
      st.(nonempty := if left.free == [] then st.nonempty[1..] else [left] + st.nonempty[1..],
          empty := if left.free == [] then [left] + st.empty else st.empty,
          counter := st.counter - 1, out := st.out + multiset{s.free[0]})
  }

  /** An owner without free objects is moved to the front of the other list first. */
  function OwnerUp(c: Class, st: State, o: int): State {
    var j := Owner(c, st.empty, o);
    if Owner(c, st.nonempty, o) < |st.nonempty| || j == |st.empty| then st
    else st.(nonempty := [st.empty[j]] + st.nonempty, empty := Without(st.empty, j))
  }

  function Returned(c: Class, st: State, o: int): State
    requires Sound(c)
  {
    var k := Owner(c, st.nonempty, o);
    if k == |st.nonempty| then st
    else
      var s := st.nonempty[k];
      if s.refcount == 1 then
        st.(nonempty := Without(st.nonempty, k), numSpans := st.numSpans - 1,
            counter := st.counter + 1 - PerSpan(c),
            leaving := st.leaving + multiset{s.base}, out := st.out - multiset{o})
      else
        st.(nonempty := st.nonempty[k := Span(s.base, [o] + s.free, s.refcount - 1)],
            counter := st.counter + 1, out := st.out - multiset{o})
  }

  function WithSpan(c: Class, st: State, b: int): State
    requires Sound(c)
  {
    st.(nonempty := [Span(b, Chunk(c, b), 0)] + st.nonempty, numSpans := st.numSpans + 1,
        counter := st.counter + PerSpan(c), arriving := st.arriving - {b})
  }

  function Shrunk(st: State, force: bool): State {
    if st.cacheSize == 0 then st
    else if |st.slots| == st.cacheSize then
      if !force || st.slots == [] then st
      else st.(cacheSize := st.cacheSize - 1, slots := st.slots[..|st.slots| - 1],
               out := st.out + multiset(st.slots[|st.slots| - 1]))
    else st.(cacheSize := st.cacheSize - 1)
  }

  function Apply(c: Class, st: State, e: Event): State
    requires Sound(c) && Inv(c, st) && Enabled(c, st, e)
  {
    match e
    case Fetch => AfterFetch(st)
    case Release(o) => Returned(c, OwnerUp(c, st, o), o)
    case Deleted(b) => st.(leaving := st.leaving - multiset{b})
    case Allocated(b) => st.(arriving := st.arriving + {b})
    case Added(b) =>
      assert Chunk(c, b) != [];
      AfterFetch(WithSpan(c, st, b))
    case ToSlot(chain) => st.(slots := st.slots + [chain], out := st.out - multiset(chain))
    case FromSlot =>
      st.(slots := st.slots[..|st.slots| - 1], out := st.out + multiset(st.slots[|st.slots| - 1]))
    case Shrink(force) => Shrunk(st, force)
  }
}
