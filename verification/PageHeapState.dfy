/** Facts about the page heap's bookkeeping that do not depend on how the heap changes
    it: which blocks the page map, the free lists and the span descriptors stand for,
    and what cutting, joining, listing and adding blocks does to them. */
module PageHeapState {
  import opened Tiling
  import opened SpanList

  const K_PAGE_SIZE := 8192
  const K_MAX_PAGES := 128
  const K_MIN_SYSTEM_ALLOC := K_MAX_PAGES
  /** The largest page count whose byte size fits in 64 bits. */
  const K_MAX_VALID_PAGES := 0x7_FFFF_FFFF_FFFF
  const K_MAX_RELEASE_DELAY := 0x10_0000
  const K_DEFAULT_RELEASE_DELAY := 0x4_0000
  const INT_LIMIT := 0x8000_0000
  const WORD: nat := 0x1_0000_0000_0000_0000

  /** The headers of the lists of one length: normal spans and returned spans. */
  datatype ListPair = ListPair(normal: Span, returned: Span)

  /** Names one of the free lists; index K_MAX_PAGES stands for the large list. */
  datatype Slot = Slot(index: nat, kind: Location)

  ghost predicate IsSlot(a: Slot) {
    a.index <= K_MAX_PAGES && a.kind != InUse
  }

  /** The list that the length and the location of a free block select. */
  ghost function SlotOf(b: Block): Slot {
    Slot(if b.length < K_MAX_PAGES then b.length else K_MAX_PAGES, b.location)
  }

  /** home gives the block each live descriptor describes.  Each free block's
      descriptor is on exactly the list that its length and location select, and
      nothing else is on a list. */
  ghost predicate Placed(blocks: Blocks, lists: map<Slot, seq<Span>>, home: map<Span, nat>) {
    && (forall a :: a in lists <==> IsSlot(a))
    && (forall a | a in lists :: Distinct(lists[a]))
    && (forall a, s | a in lists && s in lists[a] ::
         s in home && home[s] in blocks && SlotOf(blocks[home[s]]) == a)
    && (forall s | s in home && FreeAt(blocks, home[s]) ::
         s in lists[SlotOf(blocks[home[s]])])
    && (forall s, s' | s in home && s' in home && home[s] == home[s'] :: s == s')
  }

  lemma PlacedWithout(blocks: Blocks, lists: map<Slot, seq<Span>>, home: map<Span, nat>, span: Span)
    requires Placed(blocks, lists, home) && span in home && FreeAt(blocks, home[span])
    ensures var a := SlotOf(blocks[home[span]]);
      && a in lists && Distinct(lists[a])
      && Placed(Relocate(blocks, home[span], InUse), lists[a := Without(lists[a], span)], home)
  {
    hide Distinct;
  }

  lemma PlacedWith(blocks: Blocks, lists: map<Slot, seq<Span>>, home: map<Span, nat>, span: Span, loc: Location)
    requires Placed(blocks, lists, home) && span in home && home[span] in blocks
    requires blocks[home[span]].location == InUse && loc != InUse
    ensures var a := SlotOf(Block(blocks[home[span]].length, loc));
      Placed(Relocate(blocks, home[span], loc), lists[a := [span] + lists[a]], home)
  {
  }

  /* A change to blocks in use, none of which is on a list. */

  lemma PlacedCut(blocks: Blocks, lists: map<Slot, seq<Span>>, home: map<Span, nat>, p: nat, n: nat, leftover: Span)
    requires Placed(blocks, lists, home) && leftover !in home && Tiled(blocks)
    requires p in blocks && blocks[p].location == InUse && 0 < n < blocks[p].length
    requires forall s | s in home :: home[s] in blocks
    ensures Placed(Cut(blocks, p, n), lists, home[leftover := p + n])
  {
    hide Tiled, Distinct;
    CutTiled(blocks, p, n);
  }

  lemma PlacedJoin(blocks: Blocks, lists: map<Slot, seq<Span>>, home: map<Span, nat>, p: nat, gone: Span, s: Span)
    requires Placed(blocks, lists, home) && Tiled(blocks)
    requires p in blocks && blocks[p].location == InUse
    requires p + blocks[p].length in blocks && blocks[p + blocks[p].length].location == InUse
    requires gone in home && s in home && gone != s
    requires {home[gone], home[s]} == {p, p + blocks[p].length}
    ensures Placed(Join(blocks, p), lists, (home - {gone})[s := p])
  {
    hide Distinct;
  }

  lemma PlacedAdded(blocks: Blocks, lists: map<Slot, seq<Span>>, home: map<Span, nat>, p: nat, n: nat, s: Span)
    requires Placed(blocks, lists, home) && s !in home && p !in blocks
    requires forall s | s in home :: home[s] in blocks
    ensures Placed(Added(blocks, p, n), lists, home[s := p])
  {
  }

  /** Headers, live descriptors and descriptors that await reuse are different spans. */
  ghost predicate AllApart(headers: set<Span>, all: set<Span>, home: map<Span, nat>, pool: seq<Span>) {
    && headers <= all && home.Keys <= all && headers !! home.Keys
    && Distinct(pool)
    && (forall s | s in pool :: s in all && s !in headers && s !in home)
  }

  lemma ApartWith(headers: set<Span>, all: set<Span>, home: map<Span, nat>, pool: seq<Span>, s: Span, p: nat)
    requires AllApart(headers, all, home, pool) && s in all && s !in headers && s !in pool
    ensures AllApart(headers, all, home[s := p], pool)
  {
    assert home[s := p].Keys == home.Keys + {s};
  }

  lemma ApartJoined(headers: set<Span>, all: set<Span>, home: map<Span, nat>, pool: seq<Span>, gone: Span, s: Span,
                    p: nat)
    requires AllApart(headers, all, home, pool) && s in home && s != gone
    ensures AllApart(headers, all, (home - {gone})[s := p], pool)
  {
    assert (home - {gone})[s := p].Keys == home.Keys - {gone};
  }

  /** The page map knows the first and the last page of every block; entries of
      other pages may be stale, but no page outside the blocks has an entry. */
  ghost predicate Mapped(blocks: Blocks, home: map<Span, nat>, pagemap: map<nat, Span>) {
    Bounds(blocks, home, pagemap) && Inside(blocks, pagemap)
  }

  ghost predicate Inside(blocks: Blocks, pagemap: map<nat, Span>) {
    forall x {:trigger Owned(blocks, x)} | x in pagemap :: Owned(blocks, x)
  }

  ghost predicate Bounds(blocks: Blocks, home: map<Span, nat>, pagemap: map<nat, Span>) {
    && (forall p | p in blocks :: p in pagemap && pagemap[p] in home && home[pagemap[p]] == p)
    && (forall s | s in home ::
         && home[s] in blocks && home[s] in pagemap && pagemap[home[s]] == s
         && LastPage(blocks, home[s]) in pagemap && pagemap[LastPage(blocks, home[s])] == s)
  }

  ghost function LastPage(blocks: Blocks, p: nat): int
    requires p in blocks
  {
    p + blocks[p].length - 1
  }

  lemma BoundsRelocate(blocks: Blocks, home: map<Span, nat>, pagemap: map<nat, Span>, p: nat, loc: Location)
    requires Bounds(blocks, home, pagemap) && p in blocks
    ensures Bounds(Relocate(blocks, p, loc), home, pagemap)
  {
  }

  lemma MappedRelocate(blocks: Blocks, home: map<Span, nat>, pagemap: map<nat, Span>, p: nat, loc: Location)
    requires Tiled(blocks) && Mapped(blocks, home, pagemap) && p in blocks
    ensures Mapped(Relocate(blocks, p, loc), home, pagemap)
  {
    hide Tiled, Bounds;
    BoundsRelocate(blocks, home, pagemap, p, loc);
    RelocateEffect(blocks, p, loc);
    forall x | Owned(blocks, x) ensures Owned(Relocate(blocks, p, loc), x) {
      var q: nat :| Covers(blocks, q, x);
      assert Covers(Relocate(blocks, p, loc), q, x);
    }
  }

  /** A block is cut and a new descriptor records the second part. */
  lemma MappedCut(blocks: Blocks, home: map<Span, nat>, pagemap: map<nat, Span>, s: Span, n: nat, leftover: Span)
    requires Tiled(blocks) && Mapped(blocks, home, pagemap)
    requires s in home && leftover !in home && home[s] in blocks && 0 < n < blocks[home[s]].length
    ensures var p := home[s];
      Mapped(Cut(blocks, p, n), home[leftover := p + n],
             pagemap[p + n := leftover][LastPage(blocks, p) := leftover][p + n - 1 := s])
  {
    hide Bounds, Cut;
    var p := home[s];
    var blocks' := Cut(blocks, p, n);
    BoundsCut(blocks, home, pagemap, s, n, leftover);
    assert Covers(blocks, p, p) && Covers(blocks, p, p + n) && Covers(blocks, p, p + n - 1) &&
      Covers(blocks, p, LastPage(blocks, p));
    forall x {:trigger Owned(blocks', x)} | x in pagemap || x in {p + n, LastPage(blocks, p), p + n - 1}
      ensures Owned(blocks', x)
    {
      assert Owned(blocks, x);
      CutOwned(blocks, p, n, x);
    }
  }

  lemma BoundsCut(blocks: Blocks, home: map<Span, nat>, pagemap: map<nat, Span>, s: Span, n: nat, leftover: Span)
    requires Tiled(blocks) && Bounds(blocks, home, pagemap)
    requires s in home && leftover !in home && home[s] in blocks && 0 < n < blocks[home[s]].length
    ensures var p := home[s];
      Bounds(Cut(blocks, p, n), home[leftover := p + n],
             pagemap[p + n := leftover][LastPage(blocks, p) := leftover][p + n - 1 := s])
  {
    hide Tiled;
    var p := home[s];
    CutTiled(blocks, p, n);
    var blocks', home' := Cut(blocks, p, n), home[leftover := p + n];
    var pagemap' := pagemap[p + n := leftover][LastPage(blocks, p) := leftover][p + n - 1 := s];
    forall q | q in blocks' ensures q in pagemap' && pagemap'[q] in home' && home'[pagemap'[q]] == q {
      if q != p + n {
        OtherBlock(blocks, p, q);
        assert q in blocks && pagemap[q] in home;
      }
    }
    forall r | r in home'
      ensures var q := home'[r];
        && q in blocks' && q in pagemap' && pagemap'[q] == r
        && LastPage(blocks', q) in pagemap' && pagemap'[LastPage(blocks', q)] == r
    {
      if r in home { OtherBlock(blocks, p, home[r]); }
    }
  }

  lemma OtherBlock(blocks: Blocks, p: nat, q: nat)
    requires Tiled(blocks) && p in blocks && q in blocks
    ensures p <= LastPage(blocks, p) && q <= LastPage(blocks, q)
    ensures p != q ==> LastPage(blocks, q) < p || LastPage(blocks, p) < q
  {
  }

  /** The descriptor s takes over the block before its own. */
  lemma MappedJoinLeft(blocks: Blocks, home: map<Span, nat>, pagemap: map<nat, Span>, prev: Span, s: Span)
    requires Tiled(blocks) && Mapped(blocks, home, pagemap)
    requires s in home && prev in home && home[s] in blocks && home[prev] in blocks
    requires home[prev] + blocks[home[prev]].length == home[s]
    ensures Mapped(Join(blocks, home[prev]), (home - {prev})[s := home[prev]], pagemap[home[prev] := s])
  {
    hide Bounds, Join;
    var q := home[prev];
    var blocks' := Join(blocks, q);
    BoundsJoinLeft(blocks, home, pagemap, prev, s);
    assert Covers(blocks, q, q);
    forall x {:trigger Owned(blocks', x)} | x in pagemap || x == q ensures Owned(blocks', x) {
      assert Owned(blocks, x);
      JoinOwned(blocks, q, x);
    }
  }

  lemma BoundsJoinLeft(blocks: Blocks, home: map<Span, nat>, pagemap: map<nat, Span>, prev: Span, s: Span)
    requires Tiled(blocks) && Bounds(blocks, home, pagemap)
    requires s in home && prev in home && home[s] in blocks && home[prev] in blocks
    requires home[prev] + blocks[home[prev]].length == home[s]
    ensures Bounds(Join(blocks, home[prev]), (home - {prev})[s := home[prev]], pagemap[home[prev] := s])
  {
    hide Tiled;
    var q, p := home[prev], home[s];
    assert q < p by { OtherBlock(blocks, q, p); }
    forall r | r in home && r != s && r != prev
      ensures home[r] != q && home[r] != p && LastPage(blocks, home[r]) != q
    {
      OtherBlock(blocks, q, home[r]);
      OtherBlock(blocks, p, home[r]);
    }
  }

  /** The descriptor s takes over the block after its own. */
  lemma MappedJoinRight(blocks: Blocks, home: map<Span, nat>, pagemap: map<nat, Span>, s: Span, next: Span)
    requires Tiled(blocks) && Mapped(blocks, home, pagemap)
    requires s in home && next in home && home[s] in blocks && home[next] in blocks
    requires home[s] + blocks[home[s]].length == home[next]
    ensures Mapped(Join(blocks, home[s]), (home - {next})[s := home[s]], pagemap[LastPage(blocks, home[next]) := s])
  {
    hide Bounds, Join;
    var p, e := home[s], home[next];
    var blocks' := Join(blocks, p);
    BoundsJoinRight(blocks, home, pagemap, s, next);
    assert (home - {next})[s := p] == home - {next};
    assert Covers(blocks, e, LastPage(blocks, e));
    forall x {:trigger Owned(blocks', x)} | x in pagemap || x == LastPage(blocks, e) ensures Owned(blocks', x) {
      assert Owned(blocks, x);
      JoinOwned(blocks, p, x);
    }
  }

  lemma BoundsJoinRight(blocks: Blocks, home: map<Span, nat>, pagemap: map<nat, Span>, s: Span, next: Span)
    requires Tiled(blocks) && Bounds(blocks, home, pagemap)
    requires s in home && next in home && home[s] in blocks && home[next] in blocks
    requires home[s] + blocks[home[s]].length == home[next]
    ensures Bounds(Join(blocks, home[s]), home - {next}, pagemap[LastPage(blocks, home[next]) := s])
  {
    hide Tiled;
    var p, e := home[s], home[next];
    OtherBlock(blocks, p, e);
    forall r | r in home && r != s && r != next
      ensures home[r] != e && LastPage(blocks, home[r]) != LastPage(blocks, e) && home[r] != LastPage(blocks, e)
    {
      OtherBlock(blocks, e, home[r]);
    }
  }

  lemma MappedAdded(blocks: Blocks, home: map<Span, nat>, pagemap: map<nat, Span>, s: Span, p: nat, n: nat)
    requires Tiled(blocks) && Mapped(blocks, home, pagemap) && s !in home
    requires 0 < p && 0 < n && Unowned(blocks, p, n)
    ensures Mapped(Added(blocks, p, n), home[s := p], pagemap[p := s][p + n - 1 := s])
  {
    var blocks' := Added(blocks, p, n);
    forall x | Owned(blocks, x) || x == p || x == p + n - 1 ensures Owned(blocks', x) {
      if q: nat :| Covers(blocks, q, x) { assert Covers(blocks', q, x); } else { assert Covers(blocks', p, x); }
    }
  }

  /** Live descriptors hold what they describe, and free ones bear no marks; the location of
      those in F is about to change, and nothing is said of those in X. */
  ghost predicate Described(blocks: Blocks, home: map<Span, nat>, F: set<Span>, X: set<Span>)
    reads (home.Keys - X)`start, (home.Keys - X)`length, (home.Keys - X)`location
    reads (home.Keys - X)`sizeclass, (home.Keys - X)`sample
  {
    forall s | s in home && s !in X ::
      && home[s] in blocks && s.start == home[s] && s.length == blocks[home[s]].length && s.Unmarked()
      && (s in F || s.location == blocks[home[s]].location)
  }

  lemma DescribedBut(blocks: Blocks, home: map<Span, nat>, F: set<Span>, s: Span)
    requires Described(blocks, home, F, {}) && s in home
    ensures home[s] in blocks && s.start == home[s] && s.length == blocks[home[s]].length && s.Unmarked()
    ensures s in F || s.location == blocks[home[s]].location
    ensures Described(blocks, home, F, {s})
    ensures forall r | r in home :: home[r] in blocks
  {
  }

  lemma DescribedAgain(blocks: Blocks, home: map<Span, nat>, F: set<Span>, s: Span)
    requires Described(blocks, home, F, {s}) && s in home && home[s] in blocks
    requires s.start == home[s] && s.length == blocks[home[s]].length && s.Unmarked()
    requires s in F || s.location == blocks[home[s]].location
    ensures Described(blocks, home, F, {})
  {
  }

  lemma DescribedNow(blocks: Blocks, home: map<Span, nat>, s: Span)
    requires Described(blocks, home, {s}, {s}) && s in home && home[s] in blocks
    requires s.start == home[s] && s.length == blocks[home[s]].length && s.location == blocks[home[s]].location
    requires s.Unmarked()
    ensures Described(blocks, home, {}, {})
  {
  }

  lemma DescribedAdded(blocks: Blocks, home: map<Span, nat>, s: Span, p: nat, n: nat)
    requires Described(blocks, home, {}, {}) && s !in home && p !in blocks
    requires s.start == p && s.length == n && s.location == InUse
    ensures Described(Added(blocks, p, n), home[s := p], {}, {})
  {
  }

  lemma DescribedFloating(blocks: Blocks, home: map<Span, nat>, s: Span)
    requires Described(blocks, home, {}, {s}) && s in home && home[s] in blocks
    requires s.start == home[s] && s.length == blocks[home[s]].length && s.Unmarked()
    ensures Described(blocks, home, {s}, {})
  {
  }

  lemma DescribedRelocate(blocks: Blocks, home: map<Span, nat>, pagemap: map<nat, Span>, F: set<Span>, G: set<Span>,
                          s: Span, loc: Location)
    requires Mapped(blocks, home, pagemap) && Described(blocks, home, F, {}) && s in home && home[s] in blocks
    requires F <= G + {s} && (s in G || s.location == loc)
    ensures Described(Relocate(blocks, home[s], loc), home, G, {})
  {
  }

  lemma DescribedCut(blocks: Blocks, home: map<Span, nat>, pagemap: map<nat, Span>, F: set<Span>, s: Span, n: nat,
                     leftover: Span)
    requires Tiled(blocks) && Mapped(blocks, home, pagemap) && Described(blocks, home, {}, {s})
    requires s in home && home[s] in blocks && 0 < n < blocks[home[s]].length && leftover !in home
    requires s.start == home[s] && s.length == n && (s in F || s.location == blocks[home[s]].location)
    requires leftover.start == home[s] + n && leftover.length == blocks[home[s]].length - n
    requires leftover in F || leftover.location == blocks[home[s]].location
    requires s.Unmarked() && leftover.Unmarked()
    ensures Described(Cut(blocks, home[s], n), home[leftover := home[s] + n], F, {})
  {
    hide Tiled;
    CutTiled(blocks, home[s], n);
  }

  lemma DescribedBut2(blocks: Blocks, home: map<Span, nat>, F: set<Span>, s: Span, r: Span)
    requires Described(blocks, home, F, {})
    ensures Described(blocks, home, F, {s, r})
  {
  }

  lemma DescribedJoin(blocks: Blocks, home: map<Span, nat>, pagemap: map<nat, Span>, F: set<Span>, p: nat, s: Span,
                      gone: Span)
    requires Tiled(blocks) && Mapped(blocks, home, pagemap) && Described(blocks, home, F, {s, gone})
    requires p in blocks && p + blocks[p].length in blocks && s in home && gone in home && s in F && s != gone
    requires {home[gone], home[s]} == {p, p + blocks[p].length}
    requires s.start == p && s.length == blocks[p].length + blocks[p + blocks[p].length].length && s.Unmarked()
    ensures Described(Join(blocks, p), (home - {gone})[s := p], F - {gone}, {})
  {
    hide Tiled;
    var e := p + blocks[p].length;
    forall r | r in home && r != s && r != gone ensures home[r] != p && home[r] != e {
      assert pagemap[home[s]] == s && pagemap[home[gone]] == gone && pagemap[home[r]] == r;
    }
    Positive(blocks, p);
  }

  lemma JoinTotal(blocks: Blocks, p: nat, l: Location)
    requires Tiled(blocks) && p in blocks && p + blocks[p].length in blocks
    requires blocks[p].location == blocks[p + blocks[p].length].location
    ensures Tiled(Join(blocks, p)) && Total(Join(blocks, p), l) == Total(blocks, l)
  {
    JoinIsUncut(blocks, p);
    CutTotal(Join(blocks, p), p, blocks[p].length, l);
  }

  /** A block in use is cut and its second part becomes a free block. */
  lemma LeftoverMapped(blocks: Blocks, home: map<Span, nat>, pagemap: map<nat, Span>, s: Span, n: nat, leftover: Span,
                       loc: Location)
    requires Tiled(blocks) && Mapped(blocks, home, pagemap)
    requires s in home && leftover !in home && home[s] in blocks && 0 < n < blocks[home[s]].length
    ensures var p := home[s];
      var t := Relocate(Cut(blocks, p, n), p + n, loc);
      Tiled(t) && Mapped(t, home[leftover := p + n],
                         pagemap[p + n := leftover][LastPage(blocks, p) := leftover][p + n - 1 := s])
  {
    hide Tiled, Mapped, Cut, Relocate;
    var p := home[s];
    MappedCut(blocks, home, pagemap, s, n, leftover);
    CutTiled(blocks, p, n);
    CutParts(blocks, p, n);
    MappedRelocate(Cut(blocks, p, n), home[leftover := p + n],
      pagemap[p + n := leftover][LastPage(blocks, p) := leftover][p + n - 1 := s], p + n, loc);
    RelocateEffect(Cut(blocks, p, n), p + n, loc);
  }

  lemma LeftoverDescribed(blocks: Blocks, home: map<Span, nat>, pagemap: map<nat, Span>, s: Span, n: nat,
                          leftover: Span, loc: Location)
    requires Tiled(blocks) && Mapped(blocks, home, pagemap) && Described(blocks, home, {}, {s})
    requires s in home && home[s] in blocks && 0 < n < blocks[home[s]].length && leftover !in home
    requires s.start == home[s] && s.length == n && s.location == blocks[home[s]].location
    requires leftover.start == home[s] + n && leftover.length == blocks[home[s]].length - n && leftover.location == loc
    requires s.Unmarked() && leftover.Unmarked()
    ensures Described(Relocate(Cut(blocks, home[s], n), home[s] + n, loc), home[leftover := home[s] + n], {}, {})
  {
    hide Tiled, Mapped, Described, Cut, Relocate;
    var p := home[s];
    MappedCut(blocks, home, pagemap, s, n, leftover);
    CutParts(blocks, p, n);
    DescribedCut(blocks, home, pagemap, {leftover}, s, n, leftover);
    DescribedRelocate(Cut(blocks, p, n), home[leftover := p + n],
      pagemap[p + n := leftover][LastPage(blocks, p) := leftover][p + n - 1 := s], {leftover}, {}, leftover, loc);
  }

  /** Looking up the page before a block finds the block that ends there, if any. */
  lemma LookupBefore(blocks: Blocks, home: map<Span, nat>, pagemap: map<nat, Span>, p: nat)
    requires Tiled(blocks) && Mapped(blocks, home, pagemap) && p in blocks
    ensures p - 1 in pagemap ==>
      var s := pagemap[p - 1];
      s in home && home[s] in blocks && Precedes(blocks, home[s], p, blocks[home[s]].location)
    ensures p - 1 !in pagemap ==> forall q, loc :: !Precedes(blocks, q, p, loc)
  {
    hide Tiled;
    if p - 1 in pagemap {
      assert Owned(blocks, p - 1);
      var q: nat :| Covers(blocks, q, p - 1);
      EndsBefore(blocks, q, p);
      assert LastPage(blocks, home[pagemap[q]]) == p - 1;
    }
    if q, loc :| Precedes(blocks, q, p, loc) {
      assert LastPage(blocks, home[pagemap[q]]) == p - 1;
    }
  }

  /** x is the first page from start on that has an entry. */
  ghost predicate IsNext(pagemap: map<nat, Span>, start: nat, x: nat) {
    x in pagemap && start <= x && forall y | y in pagemap && start <= y :: x <= y
  }

  ghost predicate InsideBlock(blocks: Blocks, start: nat) {
    exists q: nat :: Covers(blocks, q, start) && q < start
  }

  /** The next entry from start on belongs to a block that begins there exactly when start
      is not inside a block.  Then it is the next block, and its descriptor is live. */
  lemma NextRange(blocks: Blocks, home: map<Span, nat>, pagemap: map<nat, Span>, start: nat, x: nat)
    requires Tiled(blocks) && Mapped(blocks, home, pagemap) && IsNext(pagemap, start, x)
    ensures x in blocks <==> !InsideBlock(blocks, start)
    ensures x in blocks ==>
      pagemap[x] in home && home[pagemap[x]] == x && forall q | q in blocks && start <= q :: x <= q
  {
    assert Owned(blocks, x);
    var p: nat :| Covers(blocks, p, x);
    if q: nat :| Covers(blocks, q, start) && q < start {
      assert LastPage(blocks, home[pagemap[q]]) in pagemap;
    } else if p < start {
      assert Covers(blocks, p, start);
    } else {
      assert p in pagemap;
    }
  }

  /** Entries inside a block may name descriptors that are not live. */
  lemma EntriesMayBeStale(s: Span, t: Span)
    requires s != t
    ensures var blocks, home, pagemap := map[10 := Block(4, InUse)], map[s := 10], map[10 := s, 12 := t, 13 := s];
      Tiled(blocks) && Mapped(blocks, home, pagemap) && IsNext(pagemap, 11, 12) && pagemap[12] !in home
  {
    var blocks: Blocks := map[10 := Block(4, InUse)];
    assert Covers(blocks, 10, 10) && Covers(blocks, 10, 12) && Covers(blocks, 10, 13);
  }

  lemma MappedInside(blocks: Blocks, home: map<Span, nat>, pagemap: map<nat, Span>, s: Span, x: nat)
    requires Tiled(blocks) && Mapped(blocks, home, pagemap) && s in home && Covers(blocks, home[s], x)
    ensures Mapped(blocks, home, pagemap[x := s])
  {
    hide Tiled;
    assert Owned(blocks, x);
    forall r | r in home && r != s ensures home[r] != x && LastPage(blocks, home[r]) != x {
      OtherBlock(blocks, home[s], home[r]);
    }
  }

  /** Looking up the page after a block finds the block that starts there, if any. */
  lemma LookupAfter(blocks: Blocks, home: map<Span, nat>, pagemap: map<nat, Span>, p: nat)
    requires Tiled(blocks) && Mapped(blocks, home, pagemap) && p in blocks
    ensures var e := p + blocks[p].length;
      (e in pagemap <==> e in blocks) && (e in blocks ==> pagemap[e] in home && home[pagemap[e]] == e)
  {
    hide Tiled;
    var e := p + blocks[p].length;
    if e in pagemap {
      assert Owned(blocks, e);
      var q: nat :| Covers(blocks, q, e);
      StartsAfter(blocks, p, q);
    }
  }

  /** An answer of the system allocator: NULL, or the address and size of fresh memory. */
  datatype Reply = Refused | Granted(address: nat, size: nat)

  /** What one attempt to grow meets: the answers to the request for at least
      K_MIN_SYSTEM_ALLOC pages and to the smaller one after it, and whether the page
      map can be extended over the new pages. */
  datatype System = System(first: Reply, second: Reply, mapGrows: bool)

  /** Granted memory is page-aligned, not at page zero, at least as large as asked for
      and not part of the heap, which stays below INT_LIMIT pages (16 TiB). */
  ghost predicate Sound(t: Blocks, bytes: nat, r: Reply) {
    r.Granted? ==>
      && r.address % K_PAGE_SIZE == 0 && K_PAGE_SIZE <= r.address && bytes <= r.size
      && Unowned(t, r.address / K_PAGE_SIZE, r.size / K_PAGE_SIZE)
      && TotalPages(t) + r.size / K_PAGE_SIZE < INT_LIMIT
  }

  /** What the system promises for the requests that are made: none if the size in bytes does not
      fit in 64 bits, and a second one only for less than a megabyte. */
  ghost predicate SoundSystem(t: Blocks, n: nat, os: System) {
    var bytes := n * K_PAGE_SIZE;
    bytes < WORD ==>
      && Sound(t, bytes, os.first) && Sound(t, 0x10_0000, os.first)
      && (bytes < 0x10_0000 ==> Sound(t, bytes, os.second))
  }

  /** The blocks once the memory that the system grants is part of the heap. */
  ghost function Grown(t: Blocks, os: System): Blocks {
    var r := if os.first.Granted? then os.first else os.second;
    if r.Granted? then
      Freed(Added(t, r.address / K_PAGE_SIZE, r.size / K_PAGE_SIZE), r.address / K_PAGE_SIZE, OnNormal)
    else t
  }

  /** A block at p serves at least as well as one at q: it is shorter, or as long and
      not at a higher address. */
  ghost predicate AsGood(t: Blocks, p: nat, q: nat)
    requires p in t && q in t
  {
    t[p].length < t[q].length || (t[p].length == t[q].length && p <= q)
  }

  /** The free block at p is a shortest one with at least n pages.  Of equally short
      ones it is the lowest if they are on the large list, and a normal one, if any
      is, otherwise. */
  ghost predicate BestFit(t: Blocks, p: nat, n: nat) {
    && FreeAt(t, p) && n <= t[p].length
    && (forall q | FreeAt(t, q) && n <= t[q].length ::
         && t[p].length <= t[q].length
         && (t[p].length == t[q].length >= K_MAX_PAGES ==> p <= q)
         && (t[p].length == t[q].length < K_MAX_PAGES && t[q].location == OnNormal ==> t[p].location == OnNormal))
  }

  /** What remains of a count stored in a 32-bit `int`. */
  function AsInt(x: int): int {
    if x % 0x1_0000_0000 < INT_LIMIT then x % 0x1_0000_0000 else x % 0x1_0000_0000 - 0x1_0000_0000
  }

  /** Blocks in use stay as they are, with the same descriptors, except that of x. */
  ghost predicate Kept(b0: Blocks, h0: map<Span, nat>, b1: Blocks, h1: map<Span, nat>, x: Span?) {
    forall s | s in h0 && s != x && h0[s] in b0 && b0[h0[s]].location == InUse ::
      s in h1 && h1[s] == h0[s] && h0[s] in b1 && b1[h0[s]] == b0[h0[s]]
  }

  /** A second change may touch x if x described no block in use before the first. */
  lemma KeptThrough(b0: Blocks, h0: map<Span, nat>, b1: Blocks, h1: map<Span, nat>, b2: Blocks, h2: map<Span, nat>,
                    x: Span?, y: Span?)
    requires Kept(b0, h0, b1, h1, x) && Kept(b1, h1, b2, h2, y)
    requires y != x && y in h0 ==> h0[y] !in b0 || b0[h0[y]].location != InUse
    ensures Kept(b0, h0, b2, h2, x)
  {
  }

  lemma KeptRelocate(b: Blocks, h: map<Span, nat>, pagemap: map<nat, Span>, s: Span, loc: Location)
    requires Mapped(b, h, pagemap) && s in h && h[s] in b
    ensures Kept(b, h, Relocate(b, h[s], loc), h, s)
    ensures b[h[s]].location != InUse ==> Kept(b, h, Relocate(b, h[s], loc), h, null)
  {
  }

  lemma KeptCarved(b: Blocks, h: map<Span, nat>, pagemap: map<nat, Span>, s: Span, n: nat, h1: map<Span, nat>)
    requires Mapped(b, h, pagemap) && Tiled(b) && s in h && FreeAt(b, h[s]) && 0 < n <= b[h[s]].length
    requires forall r | r in h :: r in h1 && h1[r] == h[r]
    ensures Kept(b, h, Carved(b, h[s], n), h1, null)
  {
    if n < b[h[s]].length { CutTiled(b, h[s], n); }
  }

  lemma KeptCut(b: Blocks, h: map<Span, nat>, pagemap: map<nat, Span>, s: Span, n: nat, leftover: Span)
    requires Mapped(b, h, pagemap) && Tiled(b) && s in h && leftover !in h && h[s] in b && 0 < n < b[h[s]].length
    ensures Kept(b, h, Cut(b, h[s], n), h[leftover := h[s] + n], s)
  {
    CutTiled(b, h[s], n);
  }

  lemma KeptJoin(b: Blocks, h: map<Span, nat>, pagemap: map<nat, Span>, p: nat, gone: Span, s: Span)
    requires Tiled(b) && Mapped(b, h, pagemap) && gone in h && s in h && FreeAt(b, h[gone])
    requires p in b && {h[gone], h[s]} == {p, p + b[p].length}
    ensures Kept(b, h, Join(Relocate(b, h[gone], InUse), p), (h - {gone})[s := p], s)
  {
    hide Tiled;
    forall r | r in h && r != s && r != gone ensures h[r] != p && h[r] != p + b[p].length {
      assert pagemap[h[s]] == s && pagemap[h[gone]] == gone && pagemap[h[r]] == r;
    }
  }

  /** The length that Carve gives to the leftover, which it makes only of a positive one. */
  function CarveLeftover(len: nat, n: nat): (extra: nat)
    requires n <= len
  {
    var extra := AsInt(len - n);
    if extra > 0 then extra else 0
  }

  /** The length that Split gives to the leftover: an `int` that becomes an unsigned word again. */
  function SplitLeftover(len: nat, n: nat): nat
    requires n <= len
  {
    AsInt(len - n) % WORD
  }

  /** The parts of a carved block add up exactly when the leftover fits in an `int`. */
  lemma CarveIsExact(len: nat, n: nat)
    requires n <= len
    ensures n + CarveLeftover(len, n) == len <==> len - n < INT_LIMIT
  {
  }

  /** The parts of a split block do so as well when the sign is extended to what it was. */
  lemma SplitIsExact(len: nat, n: nat)
    requires n <= len < WORD
    ensures n + SplitLeftover(len, n) == len <==> len - n < INT_LIMIT || WORD - INT_LIMIT <= len - n
  {
    var x: nat := len - n;
    var low := x % 0x1_0000_0000;
    assert 0 <= low < 0x1_0000_0000 && low <= x;
    if WORD - INT_LIMIT <= x {
      assert x == WORD - 0x1_0000_0000 + (x - (WORD - 0x1_0000_0000));
      assert low == x - (WORD - 0x1_0000_0000);
    }
  }

  /** A block of 2^32 + 2 pages cut after one page would lose 2^32 pages; one of 2^31 + 1 would lose
      all but the first to Carve, and get far too many from Split. */
  lemma TruncationLosesPages()
    ensures 1 + CarveLeftover(0x1_0000_0002, 1) == 2 == 1 + SplitLeftover(0x1_0000_0002, 1)
    ensures CarveLeftover(0x8000_0001, 1) == 0 && SplitLeftover(0x8000_0001, 1) == WORD - INT_LIMIT
  {
  }
}
