/** The mark phase of the heap leak checker (IgnoreLiveObjectsLocked, heap-checker.cc): what is
    live when its stack is empty is exactly what can be reached. */
module LeakFlood {
  import opened Arithmetic
  import opened Options
  import AM = AddressMap
  import opened HeapProfile

  const POINTER_SIZE: nat := 8

  datatype Place = MUST_BE_ON_HEAP | IGNORED_ON_HEAP | IN_GLOBAL_DATA | THREAD_DATA | THREAD_REGISTERS

  datatype AllocObject = AllocObject(ptr: nat, size: nat, place: Place)

  /* ---- Reachability ---- */

  /** The sizes of the allocations, the words of memory, and how the checker looks at them. */
  datatype Graph = Graph(sizes: map<nat, nat>, memory: nat -> nat, maxSize: nat, alignment: nat)

  predicate Sound(g: Graph) {
    Disjoint(g.sizes) && g.alignment > 0
  }

  /** An aligned address of a whole word of the range. */
  predicate Scanned(g: Graph, ptr: nat, size: nat, a: nat)
    requires g.alignment > 0
  {
    a % g.alignment == 0 && ptr <= a && a + POINTER_SIZE <= ptr + size
  }

  /** A word of the range at ptr leads to the allocation k. */
  ghost predicate Points(g: Graph, ptr: nat, size: nat, k: nat)
    requires g.alignment > 0
  {
    exists a: nat :: Scanned(g, ptr, size, a) && Resolves(g.sizes, g.maxSize, g.memory(a), k)
  }

  /** All that the range points to is in s. */
  ghost predicate Settled(g: Graph, s: set<nat>, ptr: nat, size: nat)
    requires g.alignment > 0
  {
    forall k: nat :: Points(g, ptr, size, k) ==> k in s
  }

  ghost predicate Closed(g: Graph, s: set<nat>)
    requires g.alignment > 0
  {
    forall k | k in s && k in g.sizes :: Settled(g, s, k, g.sizes[k])
  }

  /** A root contributes what it points to; one that must be on the heap also itself. */
  ghost predicate RootIn(g: Graph, o: AllocObject, s: set<nat>)
    requires g.alignment > 0
  {
    Settled(g, s, o.ptr, o.size) && (o.place == MUST_BE_ON_HEAP && o.ptr in g.sizes ==> o.ptr in s)
  }

  /** A set that reachability cannot lead out of. */
  ghost predicate Holds(g: Graph, roots: seq<AllocObject>, before: set<nat>, s: set<nat>)
    requires g.alignment > 0
  {
    before <= s && Closed(g, s) && forall o | o in roots :: RootIn(g, o, s)
  }

  /** The least such set of allocations. */
  ghost predicate Reachable(g: Graph, roots: seq<AllocObject>, before: set<nat>, live: set<nat>)
    requires g.alignment > 0
  {
    && live <= g.sizes.Keys && Holds(g, roots, before, live)
    && forall s: set<nat> | Holds(g, roots, before, s) :: live <= s
  }

  lemma ReachableIsUnique(g: Graph, roots: seq<AllocObject>, before: set<nat>, a: set<nat>, b: set<nat>)
    requires g.alignment > 0 && Reachable(g, roots, before, a) && Reachable(g, roots, before, b)
    ensures a == b
  {
    hide Holds;
  }

  /* ---- The flood ---- */

  ghost predicate Pending(g: Graph, stack: seq<AllocObject>, k: nat) {
    k in g.sizes && exists o :: o in stack && o.ptr == k && o.size == g.sizes[k]
  }

  /** Every live allocation has been scanned or waits on the stack, and so has every root; and
      none of it leads out of any set that reachability does not lead out of. */
  ghost predicate Flooding(g: Graph, roots: seq<AllocObject>, before: set<nat>, live: set<nat>, stack: seq<AllocObject>)
    requires g.alignment > 0
  {
    && before <= live <= g.sizes.Keys
    && (forall k | k in live :: Settled(g, live, k, g.sizes[k]) || Pending(g, stack, k))
    && (forall o | o in roots :: RootIn(g, o, live) || o in stack)
    && (forall o | o in stack && o.place == MUST_BE_ON_HEAP && o.ptr in g.sizes :: o.size == g.sizes[o.ptr])
    && (forall s: set<nat> | Holds(g, roots, before, s) :: live <= s && forall o | o in stack :: RootIn(g, o, s))
  }

  lemma FloodStarts(g: Graph, roots: seq<AllocObject>, live: set<nat>)
    requires g.alignment > 0 && live <= g.sizes.Keys && Closed(g, live)
    requires forall o | o in roots && o.place == MUST_BE_ON_HEAP && o.ptr in g.sizes :: o.size == g.sizes[o.ptr]
    ensures Flooding(g, roots, live, live, roots)
  {
    hide Settled, RootIn;
  }

  lemma FloodEnds(g: Graph, roots: seq<AllocObject>, before: set<nat>, live: set<nat>)
    requires g.alignment > 0 && Flooding(g, roots, before, live, [])
    ensures Reachable(g, roots, before, live)
  {
    hide Settled, RootIn;
  }

  /** What the scan of one range does: everything it newly marks is pushed, once, with its size. */
  ghost predicate ScanResult(g: Graph, ptr: nat, size: nat, live: set<nat>, stack: seq<AllocObject>,
                             live': set<nat>, stack': seq<AllocObject>)
    requires g.alignment > 0
  {
    && live <= live' <= g.sizes.Keys && stack <= stack'
    && Settled(g, live', ptr, size)
    && (forall k | k in live' - live :: Points(g, ptr, size, k) && Pending(g, stack', k))
    && (forall i | |stack| <= i < |stack'| :: stack'[i].place == IGNORED_ON_HEAP
          && stack'[i].ptr in live' - live && stack'[i].size == g.sizes[stack'[i].ptr])
    && (forall i, j | |stack| <= i < j < |stack'| :: stack'[i].ptr != stack'[j].ptr)
  }

  lemma SettledMore(g: Graph, s: set<nat>, t: set<nat>, ptr: nat, size: nat)
    requires g.alignment > 0 && Settled(g, s, ptr, size) && s <= t
    ensures Settled(g, t, ptr, size)
  {
    hide Points;
  }

  /** One round: the top object is taken off, marked if it has to be, and scanned. */
  lemma FloodRound(g: Graph, roots: seq<AllocObject>, before: set<nat>, live: set<nat>, stack: seq<AllocObject>,
                   top: AllocObject, live': set<nat>, stack': seq<AllocObject>)
    requires g.alignment > 0 && Flooding(g, roots, before, live, stack + [top])
    requires ScanResult(g, top.ptr, top.size, MarkedTop(g, live, top), stack, live', stack')
    ensures Flooding(g, roots, before, live', stack')
  {
    hide Settled, Points, RootIn, Holds, Pending;
    var marked := MarkedTop(g, live, top);
    assert top in stack + [top];
    forall k | k in live' ensures Settled(g, live', k, g.sizes[k]) || Pending(g, stack', k) {
      if k in live {
        WasPending(g, live, stack, top, k, live', stack');
      } else if k in marked {
        assert k == top.ptr && top.size == g.sizes[k];
      }
    }
    forall o | o in roots ensures RootIn(g, o, live') || o in stack' {
      if RootIn(g, o, live) {
        RootInMore(g, o, live, live');
      } else if o == top {
        RootInIs(g, o, live');
      } else {
        assert o in stack;
      }
    }
    forall s: set<nat> | Holds(g, roots, before, s)
      ensures live' <= s && forall o | o in stack' :: RootIn(g, o, s)
    {
      RootInIs(g, top, s);
      NothingNew(g, roots, before, s, top, marked, stack, live', stack');
    }
  }

  lemma RootInIs(g: Graph, o: AllocObject, s: set<nat>)
    requires g.alignment > 0
    ensures RootIn(g, o, s) <==>
      Settled(g, s, o.ptr, o.size) && (o.place == MUST_BE_ON_HEAP && o.ptr in g.sizes ==> o.ptr in s)
  {
  }

  lemma RootInMore(g: Graph, o: AllocObject, s: set<nat>, t: set<nat>)
    requires g.alignment > 0 && RootIn(g, o, s) && s <= t
    ensures RootIn(g, o, t)
  {
    hide Settled;
    SettledMore(g, s, t, o.ptr, o.size);
  }

  lemma WasPending(g: Graph, live: set<nat>, stack: seq<AllocObject>, top: AllocObject, k: nat, live': set<nat>,
                   stack': seq<AllocObject>)
    requires g.alignment > 0 && k in g.sizes && live <= live' && stack <= stack'
    requires Settled(g, live, k, g.sizes[k]) || Pending(g, stack + [top], k)
    requires Settled(g, live', top.ptr, top.size)
    ensures Settled(g, live', k, g.sizes[k]) || Pending(g, stack', k)
  {
    hide Settled;
    if Settled(g, live, k, g.sizes[k]) {
      SettledMore(g, live, live', k, g.sizes[k]);
    } else {
      var o :| o in stack + [top] && o.ptr == k && o.size == g.sizes[k];
      if o in stack {
        assert o in stack';
      }
    }
  }

  lemma NothingNew(g: Graph, roots: seq<AllocObject>, before: set<nat>, s: set<nat>, top: AllocObject,
                   marked: set<nat>, stack: seq<AllocObject>, live': set<nat>, stack': seq<AllocObject>)
    requires g.alignment > 0 && Holds(g, roots, before, s) && marked <= s && RootIn(g, top, s)
    requires forall o | o in stack :: RootIn(g, o, s)
    requires ScanResult(g, top.ptr, top.size, marked, stack, live', stack')
    ensures live' <= s && forall o | o in stack' :: RootIn(g, o, s)
  {
    hide Points, Pending;
    forall k | k in live' ensures k in s {
      assert k in marked || k in live' - marked;
    }
    forall o | o in stack' ensures RootIn(g, o, s) {
      var i :| 0 <= i < |stack'| && stack'[i] == o;
      if i < |stack| {
        assert stack[i] == o;
      } else {
        assert o.ptr in s;
      }
    }
  }

  /* ---- The checker ---- */

  /** The words below p of the range have been looked at, and so on. */
  ghost predicate Scanning(g: Graph, ptr: nat, size: nat, p: nat, live: set<nat>, stack: seq<AllocObject>,
                           live': set<nat>, stack': seq<AllocObject>)
    requires g.alignment > 0
  {
    && live <= live' <= g.sizes.Keys && stack <= stack'
    && (forall a: nat, k: nat | Scanned(g, ptr, size, a) && a < p && Resolves(g.sizes, g.maxSize, g.memory(a), k) ::
          k in live')
    && (forall k | k in live' - live :: Points(g, ptr, size, k) && Pending(g, stack', k))
    && (forall i | |stack| <= i < |stack'| :: stack'[i].place == IGNORED_ON_HEAP
          && stack'[i].ptr in live' - live && stack'[i].size == g.sizes[stack'[i].ptr])
    && (forall i, j | |stack| <= i < j < |stack'| :: stack'[i].ptr != stack'[j].ptr)
  }

  lemma ScanningStarts(g: Graph, ptr: nat, size: nat, p: nat, live: set<nat>, stack: seq<AllocObject>)
    requires g.alignment > 0 && live <= g.sizes.Keys
    requires forall a: nat | Scanned(g, ptr, size, a) :: p <= a
    ensures Scanning(g, ptr, size, p, live, stack, live, stack)
  {
  }

  lemma ScanningEnds(g: Graph, ptr: nat, size: nat, p: nat, live: set<nat>, stack: seq<AllocObject>,
                     live': set<nat>, stack': seq<AllocObject>)
    requires g.alignment > 0 && Scanning(g, ptr, size, p, live, stack, live', stack')
    requires forall a: nat | Scanned(g, ptr, size, a) :: a < p
    ensures ScanResult(g, ptr, size, live, stack, live', stack')
  {
    hide Resolves, Pending;
  }

  /** The word at p is not the address of an allocation, or of one that is live already. */
  lemma ScanningPasses(g: Graph, ptr: nat, size: nat, p: nat, live: set<nat>, stack: seq<AllocObject>,
                       live': set<nat>, stack': seq<AllocObject>)
    requires g.alignment > 0 && Scanning(g, ptr, size, p, live, stack, live', stack') && p % g.alignment == 0
    requires forall k: nat :: Resolves(g.sizes, g.maxSize, g.memory(p), k) ==> k in live'
    ensures Scanning(g, ptr, size, p + g.alignment, live, stack, live', stack') && (p + g.alignment) % g.alignment == 0
  {
    hide Resolves, Pending, Points;
    NextAligned(g, ptr, size, p);
  }

  /** Between two aligned addresses there is none. */
  lemma NextAligned(g: Graph, ptr: nat, size: nat, p: nat)
    requires g.alignment > 0 && p % g.alignment == 0
    ensures (p + g.alignment) % g.alignment == 0
    ensures forall a: nat | Scanned(g, ptr, size, a) && a < p + g.alignment :: a < p || a == p
  {
    var d := g.alignment;
    Multiples(p, d, p + d);
    forall a: nat | Scanned(g, ptr, size, a) && a < p + d ensures a < p || a == p {
      Multiples(p, d, a);
    }
  }

  lemma Multiples(p: nat, d: nat, a: nat)
    requires d > 0 && p % d == 0
    ensures (p + d) % d == 0
    ensures a % d == 0 && p < a ==> p + d <= a
  {
    var i, j := p / d, a / d;
    assert p == i * d + p % d && a == j * d + a % d;
    assert (i + 1) * d == i * d + d;
    ModIs(p + d, i + 1, d, 0);
    if j <= i {
      MulMono(j, i, d);
    } else {
      MulMono(i + 1, j, d);
    }
  }

  lemma ScanningMarks(g: Graph, ptr: nat, size: nat, p: nat, live: set<nat>, stack: seq<AllocObject>,
                      live': set<nat>, stack': seq<AllocObject>, k: nat)
    requires g.alignment > 0 && Scanning(g, ptr, size, p, live, stack, live', stack')
    requires Scanned(g, ptr, size, p) && Resolves(g.sizes, g.maxSize, g.memory(p), k) && k !in live'
    ensures k in g.sizes
    ensures Scanning(g, ptr, size, p, live, stack, live' + {k}, stack' + [AllocObject(k, g.sizes[k], IGNORED_ON_HEAP)])
  {
    hide Points, Pending;
    var stack'' := stack' + [AllocObject(k, g.sizes[k], IGNORED_ON_HEAP)];
    PointsNow(g, ptr, size, p, k);
    forall j | j in live' + {k} - live ensures Points(g, ptr, size, j) && Pending(g, stack'', j) {
      if j in live' {
        PendingMore(g, stack', stack'', j);
      } else {
        assert stack''[|stack'|] in stack'';
        PendingNow(g, stack'', AllocObject(k, g.sizes[k], IGNORED_ON_HEAP));
      }
    }
  }

  lemma PointsNow(g: Graph, ptr: nat, size: nat, p: nat, k: nat)
    requires g.alignment > 0 && Scanned(g, ptr, size, p) && Resolves(g.sizes, g.maxSize, g.memory(p), k)
    ensures Points(g, ptr, size, k) && k in g.sizes
  {
  }

  lemma PendingNow(g: Graph, stack: seq<AllocObject>, o: AllocObject)
    requires o in stack && o.ptr in g.sizes && o.size == g.sizes[o.ptr]
    ensures Pending(g, stack, o.ptr)
  {
  }

  lemma PendingMore(g: Graph, stack: seq<AllocObject>, stack': seq<AllocObject>, k: nat)
    requires Pending(g, stack, k) && stack <= stack'
    ensures Pending(g, stack', k)
  {
    var o :| o in stack && o.ptr == k && o.size == g.sizes[k];
    assert o in stack';
  }

  /** The bounds that NewHook keeps: no allocation is longer than maxSize, and every address of
      every allocation is between low and high. */
  predicate Bounded(sizes: map<nat, nat>, maxSize: nat, low: nat, high: nat) {
    forall k | k in sizes :: sizes[k] <= maxSize && low <= k && k + sizes[k] <= high
  }

  /** Where an allocation can be: apart from every one that is recorded. */
  predicate Apart(sizes: map<nat, nat>, ptr: nat, size: nat) {
    ptr !in sizes && ptr + size < AM.WORD && forall k | k in sizes :: k + sizes[k] <= ptr || ptr + size <= k
  }

  lemma Recorded(sizes: map<nat, nat>, maxSize: nat, low: nat, high: nat, ptr: nat, size: nat, maxSize': nat,
                 low': nat, high': nat)
    requires Disjoint(sizes) && Bounded(sizes, maxSize, low, high) && Apart(sizes, ptr, size)
    requires size <= maxSize' && maxSize <= maxSize' && low' <= ptr && low' <= low && ptr + size <= high' &&
      high <= high'
    ensures Disjoint(sizes[ptr := size]) && Bounded(sizes[ptr := size], maxSize', low', high')
  {
  }

  lemma Forgotten(sizes: map<nat, nat>, maxSize: nat, low: nat, high: nat, ptr: nat)
    requires Disjoint(sizes) && Bounded(sizes, maxSize, low, high)
    ensures Disjoint(sizes - {ptr}) && Bounded(sizes - {ptr}, maxSize, low, high)
  {
  }

  /** The address range of the heap lets every word through that leads to an allocation. */
  lemma Prefilter(sizes: map<nat, nat>, maxSize: nat, longest: nat, address: nat, low: nat, high: nat)
    requires Bounded(sizes, longest, low, high)
    ensures address > high || address < low ==> forall k: nat :: !Resolves(sizes, maxSize, address, k)
  {
  }

  /** With no allocation longer than the bound, an address leads to the allocation it is in. */
  lemma ResolvesExactly(sizes: map<nat, nat>, maxSize: nat, low: nat, high: nat, address: nat, k: nat)
    requires Bounded(sizes, maxSize, low, high)
    ensures Resolves(sizes, maxSize, address, k) <==> k in sizes && AddressIn(k, sizes[k], address)
  {
    if k in sizes && AM.Contains(k, sizes[k], address) {
      AM.LongestIsInReach(k, sizes[k], address, maxSize);
    }
  }

  /** Eight bytes of the range, at a multiple of the alignment. */
  predicate AlignedWord(g: Graph, ptr: nat, size: nat, a: nat)
    requires g.alignment > 0
  {
    a % g.alignment == 0 && ptr <= a && a + 8 <= ptr + size
  }

  /** The first address of n bytes at k, or one in them. */
  predicate AddressIn(k: nat, n: nat, address: nat) {
    address == k || k < address < k + n
  }

  /** A word of the range at ptr holds an address of the allocation k. */
  ghost predicate HoldsAddress(g: Graph, ptr: nat, size: nat, k: nat)
    requires g.alignment > 0
  {
    k in g.sizes && exists a: nat :: AlignedWord(g, ptr, size, a) && AddressIn(k, g.sizes[k], g.memory(a))
  }

  lemma PointsExactly(g: Graph, low: nat, high: nat, ptr: nat, size: nat, k: nat)
    requires g.alignment > 0 && Bounded(g.sizes, g.maxSize, low, high)
    ensures Points(g, ptr, size, k) <==> HoldsAddress(g, ptr, size, k)
  {
    hide Resolves, Bounded;
    if Points(g, ptr, size, k) {
      var a: nat :| Scanned(g, ptr, size, a) && Resolves(g.sizes, g.maxSize, g.memory(a), k);
      ResolvesExactly(g.sizes, g.maxSize, low, high, g.memory(a), k);
      assert AlignedWord(g, ptr, size, a) && AddressIn(k, g.sizes[k], g.memory(a));
    }
    if HoldsAddress(g, ptr, size, k) {
      var a: nat :| AlignedWord(g, ptr, size, a) && AddressIn(k, g.sizes[k], g.memory(a));
      assert Scanned(g, ptr, size, a);
      ResolvesExactly(g.sizes, g.maxSize, low, high, g.memory(a), k);
    }
  }

  /** The range holds no address of an allocation outside s. */
  ghost predicate HoldsWithin(g: Graph, s: set<nat>, ptr: nat, size: nat)
    requires g.alignment > 0
  {
    forall k: nat :: HoldsAddress(g, ptr, size, k) ==> k in s
  }

  /** A set with the roots that is closed under holding an address at or in an allocation. */
  ghost predicate Kept(g: Graph, roots: seq<AllocObject>, s: set<nat>)
    requires g.alignment > 0
  {
    && (forall k | k in s && k in g.sizes :: HoldsWithin(g, s, k, g.sizes[k]))
    && (forall o | o in roots :: HoldsWithin(g, s, o.ptr, o.size))
    && (forall o | o in roots && o.place == MUST_BE_ON_HEAP && o.ptr in g.sizes :: o.ptr in s)
  }

  /** The least such set: what can be reached by pointers to and into allocations. */
  ghost predicate Alive(g: Graph, roots: seq<AllocObject>, live: set<nat>)
    requires g.alignment > 0
  {
    live <= g.sizes.Keys && Kept(g, roots, live) && forall s: set<nat> | Kept(g, roots, s) :: live <= s
  }

  lemma SettledExactly(g: Graph, low: nat, high: nat, s: set<nat>, ptr: nat, size: nat)
    requires g.alignment > 0 && Bounded(g.sizes, g.maxSize, low, high)
    ensures Settled(g, s, ptr, size) <==> HoldsWithin(g, s, ptr, size)
  {
    hide Points, HoldsAddress, Bounded;
    forall k: nat {
      PointsExactly(g, low, high, ptr, size, k);
    }
  }

  lemma KeptExactly(g: Graph, low: nat, high: nat, roots: seq<AllocObject>, s: set<nat>)
    requires g.alignment > 0 && Bounded(g.sizes, g.maxSize, low, high)
    ensures Holds(g, roots, {}, s) <==> Kept(g, roots, s)
  {
    hide Settled, HoldsWithin, Bounded;
    forall k | k in s && k in g.sizes {
      SettledExactly(g, low, high, s, k, g.sizes[k]);
    }
    forall o | o in roots {
      SettledExactly(g, low, high, s, o.ptr, o.size);
    }
  }

  /** With no allocation longer than the bound, nothing is out of reach. */
  lemma AliveExactly(g: Graph, low: nat, high: nat, roots: seq<AllocObject>, live: set<nat>)
    requires g.alignment > 0 && Bounded(g.sizes, g.maxSize, low, high)
    ensures Reachable(g, roots, {}, live) <==> Alive(g, roots, live)
  {
    hide Holds, Kept, Bounded;
    forall s: set<nat> {
      KeptExactly(g, low, high, roots, s);
    }
  }

  /** With a smaller one, what is out of reach is what starts in another block of 128 addresses
      and whose block ends too far below the address. */
  lemma ResolvesWithin(sizes: map<nat, nat>, offset: nat, address: nat, k: nat)
    ensures Resolves(sizes, offset, address, k) <==>
      && k in sizes && (address == k || k < address < k + sizes[k])
      && (k / 128 == address / 128 || address <= k / 128 * 128 + 127 + offset)
  {
  }

  /** Nothing here depends on the bound. */
  lemma AliveIs(g: Graph, g': Graph, roots: seq<AllocObject>, live: set<nat>)
    requires g.alignment > 0 && g' == g.(maxSize := g'.maxSize)
    ensures Alive(g, roots, live) <==> Alive(g', roots, live)
  {
    assert forall ptr: nat, size: nat, k: nat :: HoldsAddress(g, ptr, size, k) <==> HoldsAddress(g', ptr, size, k);
    assert forall s: set<nat>, ptr: nat, size: nat :: HoldsWithin(g, s, ptr, size) <==> HoldsWithin(g', s, ptr, size);
    assert forall s: set<nat> :: Kept(g, roots, s) <==> Kept(g', roots, s);
  }

  lemma OneAllocation(sizes: map<nat, nat>, maxSize: nat, address: nat, k: nat)
    requires Disjoint(sizes) && Resolves(sizes, maxSize, address, k)
    ensures forall j: nat :: Resolves(sizes, maxSize, address, j) ==> j == k
  {
  }

  lemma IsScanned(g: Graph, ptr: nat, size: nat, p: nat)
    requires g.alignment > 0 && p % g.alignment == 0 && ptr <= p
    ensures p + POINTER_SIZE <= ptr + size ==> Scanned(g, ptr, size, p)
    ensures p + POINTER_SIZE > ptr + size ==> forall a: nat | Scanned(g, ptr, size, a) :: a < p
  {
  }

  lemma SizesKeys(contents: map<nat, AllocValue>)
    ensures Sizes(contents).Keys == contents.Keys && Live(contents) <= contents.Keys
  {
  }

  lemma ScanGrows(g: Graph, top: AllocObject, live: set<nat>, stack: seq<AllocObject>, live': set<nat>,
                  stack': seq<AllocObject>)
    requires g.alignment > 0 && ScanResult(g, top.ptr, top.size, MarkedTop(g, live, top), stack, live', stack')
    ensures live <= live' <= g.sizes.Keys
  {
  }

  lemma FirstAligned(g: Graph, ptr: nat, size: nat, p: nat)
    requires g.alignment > 0
    requires p == if ptr % g.alignment == 0 then ptr else ptr + (g.alignment - ptr % g.alignment)
    ensures p % g.alignment == 0 && forall a: nat | Scanned(g, ptr, size, a) :: p <= a
  {
    var d := g.alignment;
    var base := ptr - ptr % d;
    BaseAligned(ptr, d);
    Multiples(base, d, base + d);
    forall a: nat | Scanned(g, ptr, size, a) ensures p <= a {
      Multiples(base, d, a);
    }
  }

  lemma BaseAligned(ptr: nat, d: nat)
    requires d > 0
    ensures (ptr - ptr % d) % d == 0 && ptr - ptr % d >= 0
  {
    assert ptr == ptr / d * d + ptr % d;
    ModIs(ptr - ptr % d, ptr / d, d, 0);
  }

  /** The top of the stack marked, if it has to be. */
  function MarkedTop(g: Graph, live: set<nat>, top: AllocObject): set<nat> {
    if top.place == MUST_BE_ON_HEAP && top.ptr in g.sizes then live + {top.ptr} else live
  }

  class HeapLeakChecker {
    const heapProfile: HeapProfileTable
    const alignment: nat
    var heapCheckerOn: bool
    var liveObjects: seq<AllocObject>
    var liveObjectsTotal: int
    var liveBytesTotal: int
    var maxHeapObjectSize: nat
    var minHeapAddress: nat
    var maxHeapAddress: nat
    // the longest allocation; maxHeapObjectSize is less during a check if a flag caps it
    ghost var longest: nat

    ghost predicate Valid()
      reads this, heapProfile, heapProfile.allocations, heapProfile.allocations.hashtable
    {
      && heapProfile.Valid() && alignment > 0 && longest < AM.WORD && Disjoint(Sizes(Contents()))
      && Bounded(Sizes(Contents()), longest, minHeapAddress, maxHeapAddress)
    }

    ghost function Contents(): map<nat, AllocValue>
      reads this, heapProfile, heapProfile.allocations
    {
      heapProfile.allocations.contents
    }

    /** Memory as the scan reads it; g.memory is given, the rest is the checker's state. */
    ghost predicate Sees(g: Graph)
      reads this, heapProfile, heapProfile.allocations
    {
      g.sizes == Sizes(Contents()) && g.maxSize == maxHeapObjectSize && g.alignment == alignment
    }

    constructor (alignment: nat)
      requires alignment > 0
      ensures Valid() && Contents() == map[] && liveObjects == [] && this.alignment == alignment
      ensures heapCheckerOn && maxHeapObjectSize == longest
    {
      heapProfile := new HeapProfileTable();
      this.alignment := alignment;
      heapCheckerOn := true;
      liveObjects, liveObjectsTotal, liveBytesTotal := [], 0, 0;
      maxHeapObjectSize, minHeapAddress, maxHeapAddress := 0, AM.WORD - 1, 0;
      longest := 0;
    }

    /** The allocator has handed out a range; ignore says whether leaks of it are disabled. */
    method NewHook(ptr: nat, size: nat, bucket: nat, ignore: bool)
      requires Valid() && maxHeapObjectSize == longest
      requires ptr != 0 ==> Apart(Sizes(Contents()), ptr, size) && bucket % 4 == 0
      modifies this`maxHeapObjectSize, this`minHeapAddress, this`maxHeapAddress, this`longest,
        heapProfile, heapProfile.allocations, heapProfile.allocations.hashtable
      ensures Valid() && maxHeapObjectSize == longest
      ensures ptr == 0 || !heapCheckerOn ==> Contents() == old(Contents())
      ensures ptr != 0 && heapCheckerOn ==> Sizes(Contents()) == old(Sizes(Contents()))[ptr := size]
      ensures ptr != 0 && heapCheckerOn ==> Live(Contents()) == old(Live(Contents()))
      ensures ptr != 0 && heapCheckerOn ==>
        Ignored(Contents()) == old(Ignored(Contents())) + if ignore then {ptr} else {}
      ensures old(heapProfile.InBalance()) ==> heapProfile.InBalance()
    {
      hide HeapProfileTable.Valid, HeapProfileTable.InBalance, Disjoint, Bounded, Live, Ignored, Sizes;
      if ptr != 0 {
        ghost var before, low, high := Sizes(Contents()), minHeapAddress, maxHeapAddress;
        if size > maxHeapObjectSize {
          maxHeapObjectSize := size;
        }
        var address := ptr;
        if address < minHeapAddress {
          minHeapAddress := address;
        }
        address := address + size;
        if address > maxHeapAddress {
          maxHeapAddress := address;
        }
        Recorded(before, longest, low, high, ptr, size, maxHeapObjectSize, minHeapAddress, maxHeapAddress);
        Wider(before, longest, low, high, maxHeapObjectSize, minHeapAddress, maxHeapAddress);
        longest := maxHeapObjectSize;
        if heapCheckerOn {
          SizesKeys(Contents());
          NewEntry(Contents(), ptr, size, bucket);
          heapProfile.RecordAlloc(ptr, size, bucket);
          if ignore {
            heapProfile.MarkAsIgnored(ptr);
          }
        }
      }
    }

    method DeleteHook(ptr: nat)
      requires Valid()
      modifies heapProfile, heapProfile.allocations, heapProfile.allocations.hashtable
      ensures Valid() && (old(heapProfile.InBalance()) ==> heapProfile.InBalance())
      ensures Contents() == if ptr != 0 && heapCheckerOn then old(Contents()) - {ptr} else old(Contents())
    {
      hide HeapProfileTable.Valid, HeapProfileTable.InBalance, Disjoint, Bounded;
      if ptr != 0 {
        if heapCheckerOn {
          Forgotten(Sizes(Contents()), longest, minHeapAddress, maxHeapAddress, ptr);
          assert Sizes(Contents() - {ptr}) == Sizes(Contents()) - {ptr};
          heapProfile.RecordFree(ptr);
        }
      }
    }

    /** Tries every aligned word of a range as a pointer to or into an allocation. */
    method Scan(memory: nat -> nat, ghost g: Graph, ptr: nat, size: nat) returns (newlyLive: nat, newBytes: nat)
      requires Valid() && Sees(g) && g.memory == memory
      modifies this`liveObjects, heapProfile.allocations, heapProfile.allocations.hashtable
      ensures Valid() && Sees(g) && Same(Contents(), old(Contents()))
      ensures ScanResult(g, ptr, size, old(Live(Contents())), old(liveObjects), Live(Contents()), liveObjects)
      ensures newlyLive == |Live(Contents())| - |old(Live(Contents()))|
      ensures newBytes == Volume(g.sizes, Live(Contents())) - Volume(g.sizes, old(Live(Contents())))
      ensures newlyLive == 0 ==> liveObjects == old(liveObjects)
    {
      hide HeapProfileTable.Valid, Same, Live, Sizes, ScanResult, Scanning, Disjoint, Bounded, Pending, Settled,
        Resolves,
        Scanned, Volume;
      ghost var start, live, stack := Contents(), Live(Contents()), liveObjects;
      SameAsItself(start);
      LiveIsAllocated(start);
      newlyLive, newBytes := 0, 0;
      var p, left := ptr, size;
      var remainder := ptr % alignment;
      if remainder != 0 {
        p := p + (alignment - remainder);
        left := if left >= alignment - remainder then left - (alignment - remainder) else 0;
      }
      FirstAligned(g, ptr, size, p);
      ScanningStarts(g, ptr, size, p, live, stack);
      if left < POINTER_SIZE {
        IsScanned(g, ptr, size, p);
        ScanningEnds(g, ptr, size, p, live, stack, live, stack);
        return;
      }
      var last := p + left - POINTER_SIZE;
      while p <= last
        invariant p % alignment == 0 && ptr <= p && last + POINTER_SIZE == ptr + size
        invariant Valid() && Sees(g) && Same(Contents(), start)
        invariant Scanning(g, ptr, size, p, live, stack, Live(Contents()), liveObjects)
        invariant newlyLive == |Live(Contents())| - |live| && (newlyLive == 0 ==> liveObjects == stack)
        invariant newBytes == Volume(g.sizes, Live(Contents())) - Volume(g.sizes, live)
        decreases last - p
      {
        IsScanned(g, ptr, size, p);
        ghost var now, nowStack := Contents(), liveObjects;
        var k, objectSize := TryWord(memory(p));
        Transitive(Contents(), now, start);
        if k != None {
          newlyLive := newlyLive + 1;
          newBytes := newBytes + objectSize;
          ScanningMarks(g, ptr, size, p, live, stack, Live(now), nowStack, k.value);
          VolumeAdded(g.sizes, Live(now), k.value);
        }
        ScanningPasses(g, ptr, size, p, live, stack, Live(Contents()), liveObjects);
        p := p + alignment;
      }
      IsScanned(g, ptr, size, p);
      ScanningEnds(g, ptr, size, p, live, stack, Live(Contents()), liveObjects);
    }

    /** The inside of the loop: the prefilter, the lookup, the mark and the push. */
    method TryWord(address: nat) returns (k: Option<nat>, objectSize: nat)
      requires Valid()
      modifies this`liveObjects, heapProfile.allocations, heapProfile.allocations.hashtable
      ensures Valid() && Same(Contents(), old(Contents()))
      ensures k == None ==> Live(Contents()) == old(Live(Contents())) && liveObjects == old(liveObjects)
      ensures k == None ==>
        forall j: nat :: Resolves(Sizes(Contents()), maxHeapObjectSize, address, j) ==> j in Live(Contents())
      ensures k != None ==>
        && Resolves(Sizes(Contents()), maxHeapObjectSize, address, k.value) && k.value !in old(Live(Contents()))
        && Live(Contents()) == old(Live(Contents())) + {k.value} && objectSize == Sizes(Contents())[k.value]
        && liveObjects == old(liveObjects) + [AllocObject(k.value, objectSize, IGNORED_ON_HEAP)]
        && forall j: nat :: Resolves(Sizes(Contents()), maxHeapObjectSize, address, j) ==> j == k.value
    {
      hide HeapProfileTable.Valid, Same, Live, Disjoint, Bounded;
      ghost var start := Contents();
      SameAsItself(start);
      k, objectSize := None, 0;
      Prefilter(Sizes(start), maxHeapObjectSize, longest, address, minHeapAddress, maxHeapAddress);
      if address <= maxHeapAddress && minHeapAddress <= address {
        var found, start', size := heapProfile.FindInsideAlloc(address, maxHeapObjectSize);
        if found {
          OneAllocation(Sizes(start), maxHeapObjectSize, address, start');
          var marked := heapProfile.MarkAsLive(start');
          Transitive(Contents(), start, start);
          if marked {
            liveObjects := liveObjects + [AllocObject(start', size, IGNORED_ON_HEAP)];
            return Some(start'), size;
          }
        }
      }
    }

    /** One round: pops the top object, marks it if it must be on the heap, and scans it. */
    method IgnoreOne(memory: nat -> nat, ghost g: Graph) returns (newlyLive: nat, newBytes: nat)
      requires Valid() && Sees(g) && g.memory == memory && liveObjects != []
      requires forall o | o in liveObjects && o.place == MUST_BE_ON_HEAP && o.ptr in g.sizes :: o.size == g.sizes[o.ptr]
      modifies this`liveObjects, heapProfile.allocations, heapProfile.allocations.hashtable
      ensures Valid() && Sees(g) && Same(Contents(), old(Contents()))
      ensures var n := |old(liveObjects)| - 1; var top := old(liveObjects)[n];
        ScanResult(g, top.ptr, top.size, MarkedTop(g, old(Live(Contents())), top), old(liveObjects)[..n],
          Live(Contents()), liveObjects)
      ensures newlyLive == |Live(Contents())| - |old(Live(Contents()))|
      ensures newBytes == Volume(g.sizes, Live(Contents())) - Volume(g.sizes, old(Live(Contents())))
      ensures Live(Contents()) != old(Live(Contents())) || |liveObjects| < |old(liveObjects)|
    {
      hide HeapProfileTable.Valid, Same, Live, Sizes, ScanResult, Disjoint, Bounded, Pending, Settled, MarkedTop,
        Volume;
      var n := |liveObjects| - 1;
      var top := liveObjects[n];
      liveObjects := liveObjects[..n];
      newlyLive, newBytes := MarkTop(top, g);
      ghost var mid := Contents();
      var more, moreBytes := Scan(memory, g, top.ptr, top.size);
      Transitive(Contents(), mid, old(Contents()));
      newlyLive, newBytes := newlyLive + more, newBytes + moreBytes;
    }

    method MarkTop(top: AllocObject, ghost g: Graph) returns (newlyLive: nat, newBytes: nat)
      requires Valid() && Sees(g)
      requires top.place == MUST_BE_ON_HEAP && top.ptr in g.sizes ==> top.size == g.sizes[top.ptr]
      modifies heapProfile.allocations, heapProfile.allocations.hashtable
      ensures Valid() && Sees(g) && Same(Contents(), old(Contents()))
      ensures Live(Contents()) == MarkedTop(g, old(Live(Contents())), top)
      ensures newlyLive == |Live(Contents())| - |old(Live(Contents()))|
      ensures newBytes == Volume(g.sizes, Live(Contents())) - Volume(g.sizes, old(Live(Contents())))
    {
      hide HeapProfileTable.Valid, Same, Live, Sizes, Disjoint, Bounded, Volume;
      ghost var start := Contents();
      SameAsItself(start);
      SizesKeys(start);
      newlyLive, newBytes := 0, 0;
      if top.place == MUST_BE_ON_HEAP {
        var marked := heapProfile.MarkAsLive(top.ptr);
        Transitive(Contents(), start, start);
        if marked {
          newlyLive, newBytes := 1, top.size;
          VolumeAdded(g.sizes, Live(start), top.ptr);
        }
      }
    }

    /** The flood. With nothing on the stack that a live allocation of before points to, what is
        live afterwards is the least set with the roots that points to nothing outside. */
    method IgnoreLiveObjectsLocked(memory: nat -> nat, ghost g: Graph)
      requires Valid() && Sees(g) && g.memory == memory
      requires Closed(g, Live(Contents()))
      requires forall o | o in liveObjects && o.place == MUST_BE_ON_HEAP && o.ptr in g.sizes :: o.size == g.sizes[o.ptr]
      modifies this`liveObjects, this`liveObjectsTotal, this`liveBytesTotal,
        heapProfile.allocations, heapProfile.allocations.hashtable
      ensures Valid() && Sees(g) && liveObjects == []
      ensures Same(Contents(), old(Contents()))
      ensures Reachable(g, old(liveObjects), old(Live(Contents())), Live(Contents()))
      ensures liveObjectsTotal == old(liveObjectsTotal) + |Live(Contents())| - |old(Live(Contents()))|
      ensures liveBytesTotal ==
        old(liveBytesTotal) + Volume(g.sizes, Live(Contents())) - Volume(g.sizes, old(Live(Contents())))
    {
      hide HeapProfileTable.Valid, Same, Live, Sizes, Flooding, ScanResult, Closed, Disjoint, Bounded, Pending,
        Settled, Volume;
      ghost var roots, before := liveObjects, Live(Contents());
      LiveIsAllocated(Contents());
      FloodStarts(g, roots, before);
      SameAsItself(Contents());
      var count, bytes := 0, 0;
      while liveObjects != []
        invariant Valid() && Sees(g) && Same(Contents(), old(Contents()))
        invariant Flooding(g, roots, before, Live(Contents()), liveObjects)
        invariant count == |Live(Contents())| - |before| &&
          bytes == Volume(g.sizes, Live(Contents())) - Volume(g.sizes, before)
        invariant liveObjectsTotal == old(liveObjectsTotal) && liveBytesTotal == old(liveBytesTotal)
        invariant Live(Contents()) <= g.sizes.Keys
        decreases |g.sizes.Keys| - |Live(Contents())|, |liveObjects|
      {
        ghost var live, was := Live(Contents()), Contents();
        var n := |liveObjects| - 1;
        var top := liveObjects[n];
        ghost var rest := liveObjects[..n];
        assert liveObjects == rest + [top];
        RootSizes(g, roots, before, live, liveObjects);
        var newlyLive, newBytes := IgnoreOne(memory, g);
        Transitive(Contents(), was, old(Contents()));
        FloodRound(g, roots, before, live, rest, top, Live(Contents()), liveObjects);
        LiveIsAllocated(Contents());
        ScanGrows(g, top, live, rest, Live(Contents()), liveObjects);
        Grown(live, Live(Contents()), g.sizes.Keys);
        count, bytes := count + newlyLive, bytes + newBytes;
      }
      FloodEnds(g, roots, before, Live(Contents()));
      liveObjectsTotal, liveBytesTotal := liveObjectsTotal + count, liveBytesTotal + bytes;
    }

    /** IgnoreAllLiveObjectsLocked, given its roots: the reach of the search is capped by a flag for
        the time of the flood. -1 is no cap, and other negative flags are taken as unsigned. */
    method IgnoreAllLiveObjectsLocked(memory: nat -> nat, offset: int, ghost g: Graph)
      requires -0x8000_0000_0000_0000 <= offset < 0x8000_0000_0000_0000
      requires Valid() && maxHeapObjectSize == longest && Live(Contents()) == {}
      requires g.sizes == Sizes(Contents()) && g.memory == memory && g.alignment == alignment
      requires forall o | o in liveObjects && o.place == MUST_BE_ON_HEAP && o.ptr in g.sizes :: o.size == g.sizes[o.ptr]
      modifies this`liveObjects, this`liveObjectsTotal, this`liveBytesTotal, this`maxHeapObjectSize,
        heapProfile.allocations, heapProfile.allocations.hashtable
      ensures Valid() && maxHeapObjectSize == longest && liveObjects == [] && Same(Contents(), old(Contents()))
      ensures 0 <= offset < longest ==> Reachable(g.(maxSize := offset), old(liveObjects), {}, Live(Contents()))
      ensures offset < -1 && offset + AM.WORD < longest ==>
        Reachable(g.(maxSize := offset + AM.WORD), old(liveObjects), {}, Live(Contents()))
      ensures longest <= offset || offset == -1 || (offset < 0 && longest <= offset + AM.WORD) ==>
        Alive(g, old(liveObjects), Live(Contents()))
      ensures liveObjectsTotal == |Live(Contents())| && liveBytesTotal == Volume(g.sizes, Live(Contents()))
    {
      hide HeapProfileTable.Valid, Same, Live, Sizes, Reachable, Disjoint, Bounded, Alive;
      liveObjectsTotal, liveBytesTotal := 0, 0;
      var oldMaxHeapObjectSize := maxHeapObjectSize;
      if offset != -1 {
        var unsigned := if offset < 0 then offset + AM.WORD else offset;
        maxHeapObjectSize := if unsigned < maxHeapObjectSize then unsigned else maxHeapObjectSize;
      }
      ghost var capped, roots := g.(maxSize := maxHeapObjectSize), liveObjects;
      NoneClosed(capped);
      IgnoreLiveObjectsLocked(memory, capped);
      if maxHeapObjectSize == longest {
        AliveExactly(capped, minHeapAddress, maxHeapAddress, roots, Live(Contents()));
        AliveIs(capped, g, roots, Live(Contents()));
      }
      maxHeapObjectSize := oldMaxHeapObjectSize;
    }

    /** The end of a leak check: what is neither reached from the roots nor in the base snapshot
        is reported, and the live bits are as before the check. */
    method LeakSnapshot(memory: nat -> nat, offset: int, base: Snapshot?, ghost g: Graph)
      returns (s: Snapshot, ghost live: set<nat>)
      requires -0x8000_0000_0000_0000 <= offset < 0x8000_0000_0000_0000
      requires Valid() && maxHeapObjectSize == longest && Live(Contents()) == {}
      requires g.sizes == Sizes(Contents()) && g.memory == memory && g.alignment == alignment
      requires forall o | o in liveObjects && o.place == MUST_BE_ON_HEAP && o.ptr in g.sizes :: o.size == g.sizes[o.ptr]
      requires base != null ==> base.Valid() && base.map_ != heapProfile.allocations
      requires base != null ==> base.map_.hashtable != heapProfile.allocations.hashtable
      modifies this`liveObjects, this`liveObjectsTotal, this`liveBytesTotal, this`maxHeapObjectSize,
        heapProfile.allocations, heapProfile.allocations.hashtable
      ensures Valid() && maxHeapObjectSize == longest && Same(Contents(), old(Contents())) && Live(Contents()) == {}
      ensures 0 <= offset < longest ==> Reachable(g.(maxSize := offset), old(liveObjects), {}, live)
      ensures offset < -1 && offset + AM.WORD < longest ==>
        Reachable(g.(maxSize := offset + AM.WORD), old(liveObjects), {}, live)
      ensures longest <= offset || offset == -1 || (offset < 0 && longest <= offset + AM.WORD) ==>
        Alive(g, old(liveObjects), live)
      ensures s.Valid() && s.map_.contents.Keys == g.sizes.Keys - live - BaseKeys(base)
      ensures forall k | k in s.map_.contents :: s.map_.contents[k].bytes == g.sizes[k]
      ensures s.allocs == |s.map_.contents| && s.allocSize == Volume(Sizes(s.map_.contents), s.map_.contents.Keys)
      ensures s.Empty() <==> g.sizes.Keys <= live + BaseKeys(base)
    {
      hide HeapProfileTable.Valid, Same, Live, Sizes, Reachable, Alive, Disjoint, Bounded, NonLive, AM.AddressMap.Valid,
        Volume;
      ghost var start := Contents();
      IgnoreAllLiveObjectsLocked(memory, offset, g);
      live := Live(Contents());
      ghost var marked := Contents();
      s := heapProfile.NonLiveSnapshot(base);
      Transitive(Contents(), marked, start);
      Reported(marked, if base == null then map[] else base.map_.contents);
      NothingLeft(s.map_.contents, g.sizes.Keys, live, BaseKeys(base));
    }
  }

  lemma RootSizes(g: Graph, roots: seq<AllocObject>, before: set<nat>, live: set<nat>, stack: seq<AllocObject>)
    requires g.alignment > 0 && Flooding(g, roots, before, live, stack)
    ensures forall o | o in stack && o.place == MUST_BE_ON_HEAP && o.ptr in g.sizes :: o.size == g.sizes[o.ptr]
  {
    hide Settled, Pending, RootIn, Holds;
  }

  lemma Wider(sizes: map<nat, nat>, maxSize: nat, low: nat, high: nat, maxSize': nat, low': nat, high': nat)
    requires Bounded(sizes, maxSize, low, high) && maxSize <= maxSize' && low' <= low && high <= high'
    ensures Bounded(sizes, maxSize', low', high')
  {
  }

  /** A new entry has its size, and neither flag. */
  lemma NewEntry(contents: map<nat, AllocValue>, ptr: nat, size: nat, bucket: nat)
    requires bucket % 4 == 0 && ptr !in Sizes(contents)
    ensures var after := contents[ptr := NewValue(size, bucket)];
      && Sizes(after) == Sizes(contents)[ptr := size] && Live(after) == Live(contents) &&
        Ignored(after) == Ignored(contents)
      && {ptr} * after.Keys == {ptr}
  {
    PackBucket(size, bucket);
  }

  ghost function BaseKeys(base: Snapshot?): set<nat>
    reads base, if base == null then {} else {base.map_}
  {
    if base == null then {} else base.map_.contents.Keys
  }

  lemma NoneClosed(g: Graph)
    requires g.alignment > 0
    ensures Closed(g, {})
  {
  }

  lemma Reported(contents: map<nat, AllocValue>, base: map<nat, AllocValue>)
    ensures NonLive(contents, base).Keys == Sizes(contents).Keys - Live(contents) - base.Keys
    ensures forall k | k in NonLive(contents, base) :: NonLive(contents, base)[k].bytes == Sizes(contents)[k]
  {
  }

  lemma NothingLeft(m: map<nat, AllocValue>, all: set<nat>, live: set<nat>, base: set<nat>)
    requires m.Keys == all - live - base
    ensures m == map[] <==> all <= live + base
  {
    if all <= live + base {
      assert m.Keys == {};
    } else {
      var k :| k in all && k !in live + base;
      assert k in m.Keys;
    }
  }

  lemma LiveIsAllocated(contents: map<nat, AllocValue>)
    ensures Live(contents) <= Sizes(contents).Keys
  {
  }

  lemma SameAsItself(contents: map<nat, AllocValue>)
    ensures Same(contents, contents)
  {
  }

  lemma Transitive(a: map<nat, AllocValue>, b: map<nat, AllocValue>, c: map<nat, AllocValue>)
    requires Same(a, b) && Same(b, c)
    ensures Same(a, c) && Sizes(a) == Sizes(b)
  {
  }

  lemma Grown(a: set<nat>, b: set<nat>, all: set<nat>)
    requires a <= b <= all
    ensures |a| <= |b| <= |all| && (|a| == |b| ==> a == b)
  {
    assert b == a + (b - a) && all == b + (all - b);
  }
}
