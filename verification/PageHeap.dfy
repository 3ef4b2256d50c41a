/** The page heap of tcmalloc (page_heap.h, page_heap.cc): best-fit allocation of
    runs of pages, eager coalescing and release of memory to the system.

    The heap never clears page-map entries that become interior to a block, and
    recycles span descriptors, so the invariant speaks of boundary entries only. */
module PageAllocator {
  import opened Options
  import opened Tiling
  import opened SpanList
  import opened PageHeapState

  /** All list headers are different spans. */
  ghost predicate DistinctPairs(pairs: seq<ListPair>) {
    forall i, j | 0 <= i < |pairs| && 0 <= j < |pairs| ::
      && pairs[i].normal != pairs[j].returned
      && (i != j ==> pairs[i].normal != pairs[j].normal && pairs[i].returned != pairs[j].returned)
  }

  class PageHeap {
    const large: ListPair
    const free: seq<ListPair>
    var pagemap: map<nat, Span>
    var freeBytes: int
    var unmappedBytes: int
    var systemBytes: int
    var scavengeCounter: int
    var releaseIndex: nat
    const releaseRate: real
    var pool: seq<Span>

    ghost const headers: set<Span>
    ghost var Repr: set<Span>
    ghost var blocks: Blocks
    ghost var home: map<Span, nat>
    ghost var lists: map<Slot, seq<Span>>
    ghost var lost: nat

    /* ---- invariant ---- */

    ghost function HeaderOf(a: Slot): Span
      requires IsSlot(a) && |free| == K_MAX_PAGES
    {
      var pair := if a.index < K_MAX_PAGES then free[a.index] else large;
      if a.kind == OnNormal then pair.normal else pair.returned
    }

    ghost predicate Headers()
      requires |free| == K_MAX_PAGES
    {
      && (forall a | IsSlot(a) :: HeaderOf(a) in headers)
      && (forall a, b | IsSlot(a) && IsSlot(b) && a != b :: HeaderOf(a) != HeaderOf(b))
    }

    ghost predicate Apart()
      reads `Repr, `home, `pool
    {
      AllApart(headers, Repr, home, pool)
    }

    /** Every list is a ring through its header. */
    ghost predicate Linked()
      requires |free| == K_MAX_PAGES
      reads `lists, `Repr, Repr`next, Repr`prev
    {
      forall a | a in lists :: IsSlot(a) && Nodes(HeaderOf(a), lists[a]) <= Repr && Ring(HeaderOf(a), lists[a])
    }

    ghost predicate Accounts()
      reads `blocks, `freeBytes, `unmappedBytes, `systemBytes, `lost
    {
      && freeBytes == Total(blocks, OnNormal) * K_PAGE_SIZE
      && unmappedBytes == Total(blocks, OnReturned) * K_PAGE_SIZE
      && systemBytes == (TotalPages(blocks) + lost) * K_PAGE_SIZE
    }

    ghost predicate ListsValid()
      reads `Repr, `home, `pool, `blocks, `lists, `freeBytes, `unmappedBytes, `systemBytes, `lost, Repr`next, Repr`prev
    {
      |free| == K_MAX_PAGES && Headers() && Apart() && Placed(blocks, lists, home) && Linked() && Accounts()
    }

    ghost predicate ValidBut(F: set<Span>)
      reads `Repr, `home, `pool, `pagemap, `blocks, `lists, `freeBytes, `unmappedBytes, `systemBytes, `lost, Repr
    {
      && ListsValid() && Described(blocks, home, F, {})
      && Tiled(blocks) && Mapped(blocks, home, pagemap)
      && TotalPages(blocks) < INT_LIMIT
    }

    /** The invariant between calls. */
    ghost predicate Valid()
      reads this, Repr
    {
      ValidBut({}) && Coalesced(blocks) && releaseIndex <= K_MAX_PAGES + 1
    }

    static method NewPairs(n: nat) returns (pairs: seq<ListPair>, ghost hs: set<Span>)
      ensures |pairs| == n && DistinctPairs(pairs) && fresh(hs)
      ensures forall i | 0 <= i < n ::
        && pairs[i].normal in hs && pairs[i].returned in hs
        && Ring(pairs[i].normal, []) && Ring(pairs[i].returned, [])
    {
      pairs, hs := [], {};
      while |pairs| < n
        invariant |pairs| <= n && DistinctPairs(pairs) && fresh(hs)
        invariant forall i | 0 <= i < |pairs| ::
          && pairs[i].normal in hs && pairs[i].returned in hs
          && Ring(pairs[i].normal, []) && Ring(pairs[i].returned, [])
      {
        var h := new Span.Header();
        var g := new Span.Header();
        pairs := pairs + [ListPair(h, g)];
        hs := hs + {h, g};
      }
    }

    static lemma EmptyHeap()
      ensures Mapped(map[], map[], map[]) && Tiled(map[]) && Coalesced(map[])
      ensures Described(map[], map[], {}, {}) && forall l :: Total(map[], l) == 0
    {
    }

    constructor (rate: real)
      ensures Valid() && fresh(Repr)
      ensures blocks == map[] && pagemap == map[] && systemBytes == 0
    {
      hide Mapped, Tiled, Coalesced, Total, Described, Ring;
      EmptyHeap();
      var pairs, hs := NewPairs(K_MAX_PAGES + 1);
      free, large := pairs[..K_MAX_PAGES], pairs[K_MAX_PAGES];
      headers, Repr := hs, hs;
      pagemap, pool, blocks, home, lost := map[], [], map[], map[], 0;
      freeBytes, unmappedBytes, systemBytes := 0, 0, 0;
      scavengeCounter, releaseIndex, releaseRate := 0, K_MAX_PAGES, rate;
      lists := map i: nat, k: Location | 0 <= i <= K_MAX_PAGES && k != InUse :: Slot(i, k) := [];
    }

    /* ---- free lists ---- */

    lemma RingsDisjoint(a: Slot)
      requires |free| == K_MAX_PAGES && Headers() && Apart() && Placed(blocks, lists, home)
      requires IsSlot(a)
      ensures a in lists
      ensures forall b | b in lists && b != a ::
        IsSlot(b) && Nodes(HeaderOf(a), lists[a]) !! Nodes(HeaderOf(b), lists[b])
    {
      forall b, s | b in lists && b != a && s in Nodes(HeaderOf(a), lists[a])
        ensures s !in Nodes(HeaderOf(b), lists[b])
      {
        if s in lists[a] { assert s in home; }
      }
    }

    lemma OnItsList(span: Span)
      requires Placed(blocks, lists, home) && span in home && FreeAt(blocks, home[span])
      ensures var a := SlotOf(blocks[home[span]]); IsSlot(a) && a in lists && span in lists[a]
    {
    }

    lemma RingIsLinked(a: Slot)
      requires |free| == K_MAX_PAGES && Headers() && Linked() && IsSlot(a) && a in lists
      ensures Distinct(lists[a])
      ensures Nodes(HeaderOf(a), lists[a]) <= Repr && Ring(HeaderOf(a), lists[a])
      ensures forall o | o in Nodes(HeaderOf(a), lists[a]) :: o.next != null
    {
      var h, ring := HeaderOf(a), lists[a];
      forall o | o in Nodes(h, ring) ensures o.next != null {
        if o != h { var i :| 0 <= i < |ring| && ring[i] == o; }
      }
    }

    /** Spans with null links stay off the lists. */
    method Unlink(span: Span, ghost a: Slot)
      requires |free| == K_MAX_PAGES && Headers() && Apart() && Placed(blocks, lists, home) && Linked()
      requires IsSlot(a) && a in lists && span in lists[a]
      modifies `lists, Repr`next, Repr`prev
      ensures Linked() && Distinct(old(lists[a])) && lists == old(lists)[a := Without(old(lists[a]), span)]
      ensures span.next == null && span.prev == null
      ensures forall o | o in Repr && old(o.next) == null && old(o.prev) == null :: o.next == null && o.prev == null
    {
      hide Placed, Headers, AllApart, Without, Ring, Distinct, HeaderOf, IsSlot;
      RingsDisjoint(a);
      RingIsLinked(a);
      ghost var h, ring := HeaderOf(a), lists[a];
      DLL_Remove(span, h, ring);
      lists := lists[a := Without(ring, span)];
    }

    method RemoveFromFreeList(span: Span, ghost F: set<Span>)
      requires ValidBut(F) && span in home && FreeAt(blocks, home[span]) && span !in F
      modifies `freeBytes, `unmappedBytes, `blocks, `lists, Repr`next, Repr`prev
      ensures ValidBut(F + {span})
      ensures blocks == Relocate(old(blocks), home[span], InUse)
      ensures span.next == null && span.prev == null
      ensures forall o | o in Repr && old(o.next) == null && old(o.prev) == null :: o.next == null && o.prev == null
    {
      hide ListsValid, Mapped, Described, Tiled, Total;
      DescribedBut(blocks, home, F, span);
      DescribedRelocate(blocks, home, pagemap, F, F + {span}, span, InUse);
      RelocateEffect(blocks, span.start, InUse);
      MappedRelocate(blocks, home, pagemap, span.start, InUse);
      TakeOffList(span);
    }

    /** The part of RemoveFromFreeList that concerns lists and counters. */
    method TakeOffList(span: Span)
      requires ListsValid() && span in home && FreeAt(blocks, home[span])
      requires span.start == home[span] && span.length == blocks[home[span]].length &&
        span.location == blocks[home[span]].location
      modifies `freeBytes, `unmappedBytes, `blocks, `lists, Repr`next, Repr`prev
      ensures ListsValid() && TotalPages(blocks) == TotalPages(old(blocks))
      ensures blocks == Relocate(old(blocks), span.start, InUse)
      ensures span.next == null && span.prev == null
      ensures forall o | o in Repr && old(o.next) == null && old(o.prev) == null :: o.next == null && o.prev == null
    {
      hide Placed, Total, Headers, AllApart, Without, Linked, Distinct, SlotOf, IsSlot;
      OnItsList(span);
      PlacedWithout(blocks, lists, home, span);
      RelocateTotal(blocks, span.start, InUse, InUse);
      RelocateTotal(blocks, span.start, InUse, OnNormal);
      RelocateTotal(blocks, span.start, InUse, OnReturned);
      if span.location == OnNormal {
        freeBytes := freeBytes - span.length * K_PAGE_SIZE;
      } else {
        unmappedBytes := unmappedBytes - span.length * K_PAGE_SIZE;
      }
      Unlink(span, SlotOf(blocks[span.start]));
      blocks := Relocate(blocks, span.start, InUse);
    }

    method PrependToFreeList(span: Span)
      requires ListsValid() && span in home && home[span] == span.start
      requires span.start in blocks && blocks[span.start] == Block(span.length, InUse) && span.location != InUse
      requires span.next == null && span.prev == null
      modifies `freeBytes, `unmappedBytes, `blocks, `lists, Repr`next, Repr`prev
      ensures ListsValid() && TotalPages(blocks) == TotalPages(old(blocks))
      ensures blocks == Relocate(old(blocks), span.start, span.location)
    {
      hide Placed, Total, Headers, AllApart, Linked, Distinct, SlotOf, IsSlot, HeaderOf;
      PlacedWith(blocks, lists, home, span, span.location);
      RelocateTotal(blocks, span.start, span.location, InUse);
      RelocateTotal(blocks, span.start, span.location, OnNormal);
      RelocateTotal(blocks, span.start, span.location, OnReturned);
      HeaderFor(Block(span.length, span.location));
      ghost var a := SlotOf(Block(span.length, span.location));
      var list := if span.length < K_MAX_PAGES then free[span.length] else large;
      if span.location == OnNormal {
        freeBytes := freeBytes + span.length * K_PAGE_SIZE;
        Link(list.normal, span, a);
      } else {
        unmappedBytes := unmappedBytes + span.length * K_PAGE_SIZE;
        Link(list.returned, span, a);
      }
      blocks := Relocate(blocks, span.start, span.location);
    }

    lemma HeaderFor(b: Block)
      requires |free| == K_MAX_PAGES && Headers() && b.location != InUse
      ensures IsSlot(SlotOf(b))
      ensures var pair := if b.length < K_MAX_PAGES then free[b.length] else large;
        HeaderOf(SlotOf(b)) == if b.location == OnNormal then pair.normal else pair.returned
    {
    }

    lemma NotLinked(span: Span)
      requires |free| == K_MAX_PAGES && Headers() && Apart() && Placed(blocks, lists, home) && Linked()
      requires span in home && home[span] in blocks && blocks[home[span]].location == InUse
      ensures forall a | a in lists :: IsSlot(a) && span !in Nodes(HeaderOf(a), lists[a])
    {
    }

    lemma NotLinkedInPool()
      requires |free| == K_MAX_PAGES && Headers() && Apart() && Placed(blocks, lists, home) && Linked()
      ensures forall a | a in lists :: IsSlot(a) && forall s | s in pool :: s !in Nodes(HeaderOf(a), lists[a])
    {
    }

    method Link(list: Span, span: Span, ghost a: Slot)
      requires |free| == K_MAX_PAGES && Headers() && Apart() && Placed(blocks, lists, home) && Linked()
      requires span in home && home[span] in blocks && blocks[home[span]].location == InUse
      requires IsSlot(a) && list == HeaderOf(a) && span.next == null && span.prev == null
      modifies `lists, Repr`next, Repr`prev
      ensures a in old(lists) && lists == old(lists)[a := [span] + old(lists[a])]
      ensures Linked()
    {
      hide Placed, Headers, AllApart, Ring, Distinct, HeaderOf, IsSlot;
      RingsDisjoint(a);
      RingIsLinked(a);
      NotLinked(span);
      LiveIsApart(span);
      ghost var ring := lists[a];
      DLL_Prepend(list, span, ring);
      lists := lists[a := [span] + ring];
    }

    lemma LiveIsApart(span: Span)
      requires Apart() && span in home
      ensures span in Repr
    {
    }

    lemma LiveInRepr(span: Span)
      requires ListsValid() && span in home
      ensures home.Keys <= Repr && span in Repr && span !in pool && span !in headers
      ensures forall s | s in pool :: s in Repr
    {
    }

    /* ---- descriptors ---- */

    /** Span allocator: reuses the descriptor deleted last, if any. */
    method NewSpan(p: nat, len: nat) returns (s: Span)
      requires ListsValid()
      modifies `pool, `Repr, pool
      ensures ListsValid() && s in Repr && s !in home && s !in headers && s !in pool
      ensures old(Repr) <= Repr && fresh(Repr - old(Repr)) && (s in old(pool) || fresh(s))
      ensures forall o: Span | o in old(Repr) && o != s :: unchanged(o)
      ensures s.start == p && s.length == len && s.next == null && s.prev == null
      ensures s.location == InUse && s.sizeclass == 0 && !s.sample
    {
      hide ListsValid;
      if pool == [] {
        s := FreshSpan(p, len);
      } else {
        PoolInRepr();
        s := ReusedSpan(p, len);
      }
    }

    method FreshSpan(p: nat, len: nat) returns (s: Span)
      requires ListsValid()
      modifies `Repr
      ensures ListsValid() && fresh(s) && Repr == old(Repr) + {s} && s !in home && s !in headers && s !in pool
      ensures forall o: Span | o in old(Repr) :: unchanged(o)
      ensures s.start == p && s.length == len && s.next == null && s.prev == null
      ensures s.location == InUse && s.sizeclass == 0 && !s.sample
    {
      hide Placed, Accounts, Headers, Ring;
      s := new Span(p, len);
      Repr := Repr + {s};
    }

    method ReusedSpan(p: nat, len: nat) returns (s: Span)
      requires ListsValid() && pool != []
      modifies `pool, pool
      ensures ListsValid() && s in old(pool) && s !in home && s !in headers && s !in pool
      ensures forall o: Span | o in Repr && o != s :: unchanged(o)
      ensures s.start == p && s.length == len && s.next == null && s.prev == null
      ensures s.location == InUse && s.sizeclass == 0 && !s.sample
    {
      hide Placed, Accounts, Headers, Ring;
      NotLinkedInPool();
      s, pool := pool[0], pool[1..];
      s.start, s.length, s.next, s.prev := p, len, null, null;
      s.sizeclass, s.sample, s.location := 0, false, InUse;
    }

    /** The contents of a deleted descriptor are lost: debug builds overwrite them. */
    method DeleteSpan(s: Span)
      requires ListsValid() && s in Repr && s !in home && s !in headers && s !in pool
      modifies `pool, s`start, s`length, s`sizeclass, s`sample, s`location
      ensures ListsValid()
    {
      hide Placed, Headers, Linked, Total;
      s.start, s.length, s.sizeclass, s.sample, s.location := *, *, *, *, *;
      pool := [s] + pool;
    }

    method RecordSpan(s: Span)
      requires 0 < s.length
      modifies `pagemap
      ensures pagemap == old(pagemap)[s.start := s][s.start + s.length - 1 := s]
    {
      pagemap := pagemap[s.start := s];
      if s.length > 1 {
        pagemap := pagemap[s.start + s.length - 1 := s];
      }
    }

    lemma CutTotals(p: nat, n: nat)
      requires Tiled(blocks) && p in blocks && 0 < n < blocks[p].length
      ensures forall l :: Total(Cut(blocks, p, n), l) == Total(blocks, l)
    {
      forall l ensures Total(Cut(blocks, p, n), l) == Total(blocks, l) {
        CutTotal(blocks, p, n, l);
      }
    }

    /** From here on the block at home[span] counts as two blocks. */
    ghost method CutBlock(span: Span, n: nat, leftover: Span)
      requires ListsValid() && Tiled(blocks) && Mapped(blocks, home, pagemap)
      requires span in home && home[span] in blocks && blocks[home[span]].location == InUse
      requires 0 < n < blocks[home[span]].length
      requires leftover in Repr && leftover !in home && leftover !in headers && leftover !in pool
      modifies `blocks, `home
      ensures ListsValid() && Tiled(blocks) && TotalPages(blocks) == TotalPages(old(blocks))
      ensures blocks == Cut(old(blocks), old(home[span]), n)
      ensures home == old(home)[leftover := old(home[span]) + n]
    {
      hide Placed, Tiled, Total, Headers, Linked, Distinct, AllApart;
      var p := home[span];
      HomesInBlocks();
      CutTotals(p, n);
      CutTiled(blocks, p, n);
      PlacedCut(blocks, lists, home, p, n, leftover);
      ApartWith(headers, Repr, home, pool, leftover, p + n);
      blocks, home := Cut(blocks, p, n), home[leftover := p + n];
    }

    lemma HomesInBlocks()
      requires Mapped(blocks, home, pagemap)
      ensures forall s | s in home :: home[s] in blocks
    {
    }

    /** Record leftover, which follows the first n pages of span, as a block in use. */
    method RecordParts(span: Span, n: nat, leftover: Span)
      requires ValidBut({}) && span in home && home[span] in blocks && blocks[home[span]].location == InUse
      requires leftover in Repr && leftover !in home && leftover !in headers && leftover !in pool
      requires leftover.start == home[span] + n && leftover.location == InUse
      requires 0 < n && 0 < leftover.length && n + leftover.length == blocks[home[span]].length
      modifies `pagemap, `blocks, `home, span`length
      ensures ValidBut({})
      ensures blocks == Cut(old(blocks), old(home[span]), n)
      ensures home == old(home)[leftover := old(home[span]) + n]
    {
      hide ListsValid, Mapped, Described, Tiled, Total, Cut;
      ghost var blocks0, home0, pagemap0 := blocks, home, pagemap;
      DescribedBut(blocks, home, {}, span);
      MappedCut(blocks, home, pagemap, span, n, leftover);
      CutBlock(span, n, leftover);
      RecordSpan(leftover);
      pagemap := pagemap[span.start + n - 1 := span];
      span.length := n;
      DescribedCut(blocks0, home0, pagemap0, {}, span, n, leftover);
    }

    method Split(span: Span, n: nat) returns (leftover: Span)
      requires Valid() && span in home && span.location == InUse && span.sizeclass == 0
      requires 0 < n < span.length
      modifies `Repr, `pool, `pagemap, `blocks, `home, Repr
      ensures Valid() && old(Repr) <= Repr && fresh(Repr - old(Repr))
      ensures Kept(old(blocks), old(home), blocks, home, span)
      ensures blocks == Cut(old(blocks), old(home[span]), n)
      ensures leftover !in old(home) && home == old(home)[leftover := old(home[span]) + n]
    {
      hide ListsValid, Mapped, Described, Tiled, Coalesced, Total, Cut, SplitLeftover;
      DescribedBut(blocks, home, {}, span);
      BlockFits(blocks, home[span]);
      CutCoalesced(blocks, home[span], n);
      PoolInRepr();
      SplitIsExact(span.length, n);
      var extra := SplitLeftover(span.length, n);
      leftover := NewSpan(span.start + n, extra);
      KeptCut(blocks, home, pagemap, span, n, leftover);
      RecordParts(span, n, leftover);
    }

    /** From here on the blocks of gone and s count as one, described by s. */
    ghost method JoinBlocks(p: nat, gone: Span, s: Span)
      requires ListsValid() && Tiled(blocks)
      requires p in blocks && blocks[p].location == InUse
      requires p + blocks[p].length in blocks && blocks[p + blocks[p].length].location == InUse
      requires gone in home && s in home && gone != s
      requires {home[gone], home[s]} == {p, p + blocks[p].length}
      modifies `blocks, `home
      ensures ListsValid() && Tiled(blocks) && TotalPages(blocks) == TotalPages(old(blocks))
      ensures blocks == Join(old(blocks), p) && home == (old(home) - {gone})[s := p]
    {
      hide Placed, Tiled, Total, Headers, Linked, Distinct, AllApart;
      JoinTotal(blocks, p, InUse);
      JoinTotal(blocks, p, OnNormal);
      JoinTotal(blocks, p, OnReturned);
      PlacedJoin(blocks, lists, home, p, gone, s);
      ApartJoined(headers, Repr, home, pool, gone, s, p);
      blocks, home := Join(blocks, p), (home - {gone})[s := p];
    }

    /** span takes over the block before it; neither block is on a list. */
    method AbsorbPrevious(span: Span, prev: Span)
      requires ValidBut({span} + {prev}) && span in home && prev in home && span != prev
      requires home[span] in blocks && blocks[home[span]].location == InUse
      requires Precedes(blocks, home[prev], home[span], InUse)
      requires span.next == null && span.prev == null
      modifies `pagemap, `pool, `blocks, `home, span`start, span`length,
               prev`start, prev`length, prev`sizeclass, prev`sample, prev`location
      ensures ValidBut({span})
      ensures blocks == Join(old(blocks), old(home[prev]))
      ensures home == (old(home) - {prev})[span := old(home[prev])]
    {
      hide ListsValid, Mapped, Described, Tiled, Total;
      ghost var q, blocks0, home0, pagemap0 := home[prev], blocks, home, pagemap;
      DescribedBut(blocks, home, {span} + {prev}, prev);
      DescribedBut(blocks, home, {span} + {prev}, span);
      DescribedBut2(blocks, home, {span} + {prev}, span, prev);
      MappedJoinLeft(blocks, home, pagemap, prev, span);
      LiveInRepr(prev);
      var len := prev.length;
      JoinBlocks(q, prev, span);
      DeleteSpan(prev);
      span.start := span.start - len;
      span.length := span.length + len;
      pagemap := pagemap[span.start := span];
      DescribedJoin(blocks0, home0, pagemap0, {span} + {prev}, q, span, prev);
      assert {span} + {prev} - {prev} == {span};
    }

    /** span takes over the block after it; neither block is on a list. */
    method AbsorbNext(span: Span, next: Span)
      requires ValidBut({span} + {next}) && span in home && next in home && span != next
      requires home[next] in blocks && blocks[home[next]].location == InUse
      requires Precedes(blocks, home[span], home[next], InUse)
      requires span.next == null && span.prev == null
      modifies `pagemap, `pool, `blocks, `home, span`length,
               next`start, next`length, next`sizeclass, next`sample, next`location
      ensures ValidBut({span})
      ensures blocks == Join(old(blocks), old(home[span]))
      ensures home == (old(home) - {next})[span := old(home[span])]
    {
      hide ListsValid, Mapped, Described, Tiled, Total;
      ghost var p, blocks0, home0, pagemap0 := home[span], blocks, home, pagemap;
      DescribedBut(blocks, home, {span} + {next}, next);
      DescribedBut(blocks, home, {span} + {next}, span);
      DescribedBut2(blocks, home, {span} + {next}, span, next);
      MappedJoinRight(blocks, home, pagemap, span, next);
      Positive(blocks, p);
      LiveInRepr(next);
      var len := next.length;
      JoinBlocks(p, next, span);
      DeleteSpan(next);
      span.length := span.length + len;
      pagemap := pagemap[span.start + span.length - 1 := span];
      DescribedJoin(blocks0, home0, pagemap0, {span} + {next}, p, span, next);
      assert {span} + {next} - {next} == {span};
    }

    /** GetDescriptor: the page map's entry for page p, which may be absent. */
    function GetDescriptor(p: int): Option<Span>
      reads `pagemap
    {
      if p in pagemap then Some(pagemap[p]) else None
    }

    method MergePrevious(span: Span)
      requires ValidBut({span}) && span in home && home[span] in blocks && blocks[home[span]].location == InUse
      requires span.location != InUse && span.next == null && span.prev == null
      modifies `pagemap, `pool, `freeBytes, `unmappedBytes, `blocks, `home, `lists, Repr
      ensures ValidBut({span}) && Repr == old(Repr)
      ensures span.next == null && span.prev == null && span.location == old(span.location)
      ensures blocks == AbsorbLeft(old(blocks), old(home[span]), old(span.location))
      ensures span in home && home[span] == LeftEnd(old(blocks), old(home[span]), old(span.location))
      ensures Kept(old(blocks), old(home), blocks, home, span)
    {
      hide ListsValid, Mapped, Described, Tiled, Total, Join, Relocate, LeftEnd, AbsorbLeft;
      DescribedBut(blocks, home, {span}, span);
      LiveInRepr(span);
      LookupBefore(blocks, home, pagemap, home[span]);
      var prev := GetDescriptor(span.start - 1);
      if prev.None? {
        NothingToAbsorb(blocks, home[span], span.location);
      } else {
        DescribedBut(blocks, home, {span}, prev.value);
        Positive(blocks, home[prev.value]);
        if prev.value.location != span.location {
          SolePredecessor(blocks, home[prev.value], home[span], blocks[home[prev.value]].location);
          NothingToAbsorb(blocks, home[span], span.location);
        } else {
          AbsorbLeftStep(blocks, home[prev.value], home[span], span.location);
          LiveInRepr(prev.value);
          KeptJoin(blocks, home, pagemap, home[prev.value], prev.value, span);
          RemoveFromFreeList(prev.value, {span});
          AbsorbPrevious(span, prev.value);
        }
      }
    }

    method MergeNext(span: Span, e: nat)
      requires ValidBut({span}) && span in home && home[span] in blocks && blocks[home[span]].location == InUse
      requires e == home[span] + blocks[home[span]].length
      requires span.location != InUse && span.next == null && span.prev == null
      modifies `pagemap, `pool, `freeBytes, `unmappedBytes, `blocks, `home, `lists, Repr
      ensures ValidBut({span}) && Repr == old(Repr)
      ensures span.next == null && span.prev == null && span.location == old(span.location)
      ensures blocks == AbsorbRight(old(blocks), old(home[span]), old(span.location))
      ensures span in home && home[span] == old(home[span])
      ensures Kept(old(blocks), old(home), blocks, home, span)
    {
      hide ListsValid, Mapped, Described, Tiled, Total;
      DescribedBut(blocks, home, {span}, span);
      LiveInRepr(span);
      LookupAfter(blocks, home, pagemap, home[span]);
      Positive(blocks, home[span]);
      var next := GetDescriptor(e);
      if next.Some? {
        DescribedBut(blocks, home, {span}, next.value);
        if next.value.location == span.location {
          LiveInRepr(next.value);
          KeptJoin(blocks, home, pagemap, home[span], next.value, span);
          RemoveFromFreeList(next.value, {span});
          AbsorbNext(span, next.value);
        }
      }
    }

    method MergeIntoFreeList(span: Span)
      requires ValidBut({span}) && Coalesced(blocks)
      requires span in home && home[span] in blocks && blocks[home[span]].location == InUse
      requires span.location != InUse && span.next == null && span.prev == null
      modifies `pagemap, `pool, `freeBytes, `unmappedBytes, `blocks, `home, `lists, Repr
      ensures ValidBut({}) && Coalesced(blocks) && Repr == old(Repr)
      ensures blocks == Freed(old(blocks), old(home[span]), old(span.location))
      ensures span in home && home[span] == LeftEnd(old(blocks), old(home[span]), old(span.location))
      ensures Kept(old(blocks), old(home), blocks, home, span)
    {
      hide ListsValid, Mapped, Described, Tiled, Coalesced, Total, LeftEnd, AbsorbLeft, AbsorbRight, Freed;
      DescribedBut(blocks, home, {span}, span);
      AbsorbLeftIs(blocks, home[span], span.location);
      MergeInSteps(blocks, home[span], span.location);
      FreedCoalesced(blocks, home[span], span.location);
      ghost var blocks0, home0 := blocks, home;
      var p, n := span.start, span.length;
      MergePrevious(span);
      Positive(blocks, home[span]);
      ghost var blocks1, home1 := blocks, home;
      AbsorbRightIs(blocks, home[span], span.location);
      MergeNext(span, p + n);
      DescribedBut(blocks, home, {span}, span);
      KeptThrough(blocks0, home0, blocks1, home1, blocks, home, span, span);
      KeptRelocate(blocks, home, pagemap, span, span.location);
      KeptThrough(blocks0, home0, blocks, home, Relocate(blocks, home[span], span.location), home, span, span);
      DescribedRelocate(blocks, home, pagemap, {span}, {}, span, span.location);
      MappedRelocate(blocks, home, pagemap, span.start, span.location);
      RelocateEffect(blocks, span.start, span.location);
      PrependToFreeList(span);
    }

    /* ---- freeing and releasing ---- */

    lemma ReleasedSome(before: Blocks, p: nat)
      requires Tiled(before) && Coalesced(before) && p in before && before[p].location == OnNormal
      ensures 0 < before[p].length
      ensures Total(Released(before, p), OnReturned) == Total(before, OnReturned) + before[p].length
    {
      ReleasedOnce(before, p);
    }

    lemma ValidParts()
      requires Valid()
      ensures ListsValid() && |free| == K_MAX_PAGES && Tiled(blocks) && Coalesced(blocks) &&
        Mapped(blocks, home, pagemap)
      ensures releaseIndex <= K_MAX_PAGES + 1
    {
    }

    ghost function LastOf(all: seq<Span>): Span
      requires all != []
    {
      all[|all| - 1]
    }

    /** Release the last span on the normal list of the given length. */
    method ReleaseLastNormalSpan(list: ListPair, ghost k: nat) returns (n: nat, ghost p: nat)
      requires Valid() && k <= K_MAX_PAGES && list == (if k < K_MAX_PAGES then free[k] else large)
      requires Slot(k, OnNormal) in lists && lists[Slot(k, OnNormal)] != []
      modifies `pagemap, `pool, `freeBytes, `unmappedBytes, `blocks, `home, `lists, Repr
      ensures Valid() && Repr == old(Repr)
      ensures Kept(old(blocks), old(home), blocks, home, null)
      ensures p in old(blocks) && old(blocks)[p] == Block(n, OnNormal) && blocks == Released(old(blocks), p)
      ensures var last := old(LastOf(lists[Slot(k, OnNormal)]));
        last in old(home) && p == old(home)[last]
    {
      hide ListsValid, Mapped, Described, Tiled, Coalesced, Total, Freed;
      LastOfList(k);
      var s := list.normal.prev;
      p := home[s];
      DescribedBut(blocks, home, {}, s);
      LiveInRepr(s);
      RelocateEffect(blocks, p, InUse);
      UseKeepsCoalesced(blocks, p);
      FreedForgets(blocks, p, OnReturned);
      KeptRelocate(blocks, home, pagemap, s, InUse);
      RemoveFromFreeList(s, {});
      ghost var blocks1, home1 := blocks, home;
      assert {} + {s} == {s};
      DescribedBut(blocks, home, {s}, s);
      n := s.length;
      s.location := OnReturned;
      DescribedAgain(blocks, home, {s}, s);
      MergeIntoFreeList(s);
      KeptThrough(old(blocks), old(home), blocks1, home1, blocks, home, null, s);
    }

    lemma LastOfList(k: nat)
      requires ListsValid() && k <= K_MAX_PAGES && Slot(k, OnNormal) in lists && lists[Slot(k, OnNormal)] != []
      ensures var h := (if k < K_MAX_PAGES then free[k] else large).normal;
        && h.prev != null && h.prev in home && h.prev == lists[Slot(k, OnNormal)][|lists[Slot(k, OnNormal)]| - 1]
        && home[h.prev] in blocks && blocks[home[h.prev]].location == OnNormal
    {
    }

    lemma NormalList(k: nat)
      requires ListsValid() && k <= K_MAX_PAGES
      ensures var a := Slot(k, OnNormal);
        a in lists && Ring((if k < K_MAX_PAGES then free[k] else large).normal, lists[a])
    {
      RingIsLinked(Slot(k, OnNormal));
    }

    ghost predicate NormalListEmpty(k: int)
      reads `lists
    {
      0 <= k <= K_MAX_PAGES ==> Slot(k, OnNormal) in lists && lists[Slot(k, OnNormal)] == []
    }

    lemma NoNormalLists()
      requires ListsValid() && Mapped(blocks, home, pagemap)
      requires forall k: nat | k <= K_MAX_PAGES :: NormalListEmpty(k)
      ensures Total(blocks, OnNormal) == 0
    {
      forall p | p in blocks ensures blocks[p].location != OnNormal {
        assert home[pagemap[p]] == p && NormalListEmpty(SlotOf(blocks[p]).index);
      }
      TotalOfNone(blocks, OnNormal);
    }

    /** Release the last normal span of the list with index k, if there is one. */
    method ReleaseFromList(k: nat) returns (n: nat, ghost ps: seq<nat>)
      requires Valid() && k <= K_MAX_PAGES
      modifies `pagemap, `pool, `freeBytes, `unmappedBytes, `blocks, `home, `lists, Repr
      ensures Valid() && Repr == old(Repr)
      ensures Kept(old(blocks), old(home), blocks, home, null)
      ensures blocks == ReleasedAll(old(blocks), ps)
      ensures n == Total(blocks, OnReturned) - Total(old(blocks), OnReturned)
      ensures n == 0 ==> NormalListEmpty(k) && lists == old(lists)
      ensures |ps| <= 1
    {
      hide ListsValid, Mapped, Described, Total, Tiled, Coalesced, Released, ValidBut, Ring;
      ValidParts();
      NormalList(k);
      var list := if k == K_MAX_PAGES then large else free[k];
      var empty := DLL_IsEmpty(list.normal, lists[Slot(k, OnNormal)]);
      n, ps := 0, [];
      if !empty {
        ghost var before, p := blocks, 0;
        n, p := ReleaseLastNormalSpan(list, k);
        ReleasedSome(before, p);
        ps := [p];
        assert ps[..0] == [];
      }
    }

    /** Release from the list whose turn it is; the next one has its turn then. */
    method ReleaseNext() returns (n: nat, ghost ps: seq<nat>)
      requires Valid()
      modifies `pagemap, `pool, `freeBytes, `unmappedBytes, `blocks, `home, `lists, `releaseIndex, Repr
      ensures Valid() && Repr == old(Repr)
      ensures Kept(old(blocks), old(home), blocks, home, null)
      ensures blocks == ReleasedAll(old(blocks), ps) && |ps| <= 1
      ensures n == Total(blocks, OnReturned) - Total(old(blocks), OnReturned)
      ensures var k := if old(releaseIndex) > K_MAX_PAGES then 0 else old(releaseIndex);
        releaseIndex == k + 1 && (n == 0 ==> NormalListEmpty(k) && lists == old(lists))
    {
      hide ListsValid, Mapped, Described, Total, Tiled, Coalesced, ReleasedAll, ValidBut, Kept;
      if releaseIndex > K_MAX_PAGES {
        releaseIndex := 0;
      }
      n, ps := ReleaseFromList(releaseIndex);
      releaseIndex := releaseIndex + 1;
    }

    lemma SameKept()
      ensures Kept(blocks, home, blocks, home, null)
    {
    }

    /** One round over all lists from releaseIndex on, cut short once enough is released. */
    method ReleaseRound(numPages: nat, released0: nat)
      returns (released: nat, ghost ps: seq<nat>, ghost visited: nat)
      requires Valid() && released0 < numPages
      modifies `pagemap, `pool, `freeBytes, `unmappedBytes, `blocks, `home, `lists, `releaseIndex, Repr
      ensures Valid() && Repr == old(Repr) && released0 <= released
      ensures Kept(old(blocks), old(home), blocks, home, null)
      ensures blocks == ReleasedAll(old(blocks), ps)
      ensures released - released0 == Total(blocks, OnReturned) - Total(old(blocks), OnReturned)
      ensures released == released0 ==> Total(blocks, OnNormal) == 0
      ensures |ps| <= visited <= K_MAX_PAGES + 1 && (released < numPages ==> visited == K_MAX_PAGES + 1)
      ensures visited > 0 ==>
        var start := if old(releaseIndex) > K_MAX_PAGES then 0 else old(releaseIndex);
        releaseIndex == start + visited - if start + visited > K_MAX_PAGES + 1 then K_MAX_PAGES + 1 else 0
      ensures visited > 0 && (ps != [] ==> released0 + ReleasedPages(old(blocks), ps[..|ps| - 1]) < numPages)
    {
      hide ListsValid, Mapped, Described, Total, Tiled, Coalesced, Released, ValidBut, ReleasedAll, Kept;
      SameKept();
      released, ps := released0, [];
      NothingReleased(blocks);
      ghost var r0 := if releaseIndex > K_MAX_PAGES then 0 else releaseIndex;
      var i := 0;
      while i < K_MAX_PAGES + 1 && released < numPages
        invariant Valid() && Repr == old(Repr) && released0 <= released && 0 <= i <= K_MAX_PAGES + 1
        invariant blocks == ReleasedAll(old(blocks), ps)
        invariant Kept(old(blocks), old(home), blocks, home, null)
        invariant released - released0 == Total(blocks, OnReturned) - Total(old(blocks), OnReturned)
        invariant |ps| <= i && (ps != [] ==> released0 + ReleasedPages(old(blocks), ps[..|ps| - 1]) < numPages)
        invariant releaseIndex ==
          (if i == 0 then old(releaseIndex) else if r0 + i <= K_MAX_PAGES + 1 then r0 + i else r0 + i - K_MAX_PAGES - 1)
        invariant released == released0 ==>
          forall k | r0 <= k < r0 + i || k + K_MAX_PAGES + 1 < r0 + i :: NormalListEmpty(k)
        decreases K_MAX_PAGES + 1 - i
      {
        ghost var blocks1, home1 := blocks, home;
        var n, qs := ReleaseNext();
        KeptThrough(old(blocks), old(home), blocks1, home1, blocks, home, null, null);
        ReleasedInTurn(old(blocks), ps, qs);
        assert qs != [] ==> (ps + qs)[..|ps + qs| - 1] == ps;
        assert qs == [] ==> ps + qs == ps;
        ps := ps + qs;
        released := released + n;
        i := i + 1;
      }
      visited := i;
      if released == released0 {
        ValidParts();
        NoNormalLists();
      }
    }

    method ReleaseAtLeastNPages(numPages: nat) returns (released: nat, ghost ps: seq<nat>)
      requires Valid()
      modifies `pagemap, `pool, `freeBytes, `unmappedBytes, `blocks, `home, `lists, `releaseIndex, Repr
      ensures Valid() && Repr == old(Repr)
      ensures Kept(old(blocks), old(home), blocks, home, null)
      ensures blocks == ReleasedAll(old(blocks), ps)
      ensures released == Total(blocks, OnReturned) - Total(old(blocks), OnReturned)
      ensures numPages <= released || Total(blocks, OnNormal) == 0
      ensures ps != [] ==> ReleasedPages(old(blocks), ps[..|ps| - 1]) < numPages
    {
      hide ListsValid, Mapped, Described, Total, Tiled, Coalesced, Released, ValidBut, ReleasedAll;
      released, ps := 0, [];
      NothingReleased(blocks);
      var previous: int := -1;
      while released < numPages
        invariant Valid() && Repr == old(Repr)
        invariant blocks == ReleasedAll(old(blocks), ps)
        invariant Kept(old(blocks), old(home), blocks, home, null)
        invariant released == Total(blocks, OnReturned) - Total(old(blocks), OnReturned)
        invariant released == previous ==> Total(blocks, OnNormal) == 0
        invariant ps != [] ==> ReleasedPages(old(blocks), ps[..|ps| - 1]) < numPages
        decreases numPages - released, if released == previous then 0 else 1
      {
        if released == previous {
          break;
        }
        previous := released;
        ghost var qs;
        ghost var blocks1, home1 := blocks, home;
        ghost var visited;
        released, qs, visited := ReleaseRound(numPages, released);
        KeptThrough(old(blocks), old(home), blocks1, home1, blocks, home, null, null);
        ReleasedInTurn(old(blocks), ps, qs);
        if qs != [] {
          ReleasedInTurn(old(blocks), ps, qs[..|qs| - 1]);
          assert (ps + qs)[..|ps + qs| - 1] == ps + qs[..|qs| - 1];
        } else {
          assert ps + qs == ps;
        }
        ps := ps + qs;
      }
    }

    lemma NothingReleased(t: Blocks)
      ensures ReleasedAll(t, []) == t
    {
    }

    /* ---- allocation ---- */

    /** The better of best0 and the spans on one list that have n pages or more. */
    method BestOnList(list: Span, n: nat, best0: Span?, ghost ring: seq<Span>) returns (best: Span?)
      requires Ring(list, ring) && Described(blocks, home, {}, {})
      requires forall s | s in ring :: s in home && home[s] in blocks
      requires best0 != null ==> best0 in home && home[best0] in blocks && n <= blocks[home[best0]].length
      ensures best == best0 || (best in ring && n <= blocks[home[best]].length)
      ensures best0 != null ==> best != null && AsGood(blocks, home[best], home[best0])
      ensures forall s | s in ring && n <= blocks[home[s]].length ::
        best != null && AsGood(blocks, home[best], home[s])
    {
      best := best0;
      var span := list.next;
      ghost var i := 0;
      while span != list
        invariant 0 <= i <= |ring| && span == At(list, ring, i)
        invariant best == best0 || (best in ring && n <= blocks[home[best]].length)
        invariant best0 != null ==> best != null && AsGood(blocks, home[best], home[best0])
        invariant forall s | s in ring[..i] && n <= blocks[home[s]].length ::
          best != null && AsGood(blocks, home[best], home[s])
        decreases |ring| - i
      {
        if span.length >= n {
          if best == null || span.length < best.length || (span.length == best.length && span.start < best.start) {
            best := span;
          }
        }
        span := span.next;
        i := i + 1;
      }
    }

    /** Record the free span leftover, which follows the first n pages of span. */
    method ListLeftover(span: Span, n: nat, leftover: Span)
      requires ValidBut({}) && span in home && home[span] in blocks && blocks[home[span]].location == InUse
      requires leftover in Repr && leftover !in home && leftover !in headers && leftover !in pool
      requires leftover.start == home[span] + n && leftover.next == null && leftover.prev == null
      requires leftover.location != InUse && leftover.sizeclass == 0 && !leftover.sample
      requires 0 < n && 0 < leftover.length && n + leftover.length == blocks[home[span]].length
      modifies `pagemap, `freeBytes, `unmappedBytes, `blocks, `home, `lists, span`length, Repr`next, Repr`prev
      ensures ValidBut({})
      ensures home == old(home)[leftover := old(home[span]) + n]
      ensures blocks == Relocate(Cut(old(blocks), home[span], n), home[span] + n, leftover.location)
    {
      hide ListsValid, Mapped, Described, Tiled, Total, Cut, Relocate;
      ghost var p, blocks0, home0, pagemap0 := home[span], blocks, home, pagemap;
      DescribedBut(blocks, home, {}, span);
      LeftoverMapped(blocks, home, pagemap, span, n, leftover, leftover.location);
      ListSecondPart(span, n, leftover);
      span.length := n;
      pagemap := pagemap[span.start + n - 1 := span];
      LeftoverDescribed(blocks0, home0, pagemap0, span, n, leftover, leftover.location);
    }

    /** The part of ListLeftover that concerns leftover. */
    method ListSecondPart(ghost span: Span, ghost n: nat, leftover: Span)
      requires ListsValid() && Tiled(blocks) && Mapped(blocks, home, pagemap)
      requires span in home && home[span] in blocks && blocks[home[span]].location == InUse
      requires leftover in Repr && leftover !in home && leftover !in headers && leftover !in pool
      requires leftover.start == home[span] + n && leftover.next == null && leftover.prev == null
      requires leftover.location != InUse
      requires 0 < n && 0 < leftover.length && n + leftover.length == blocks[home[span]].length
      modifies `pagemap, `freeBytes, `unmappedBytes, `blocks, `home, `lists, Repr`next, Repr`prev
      ensures ListsValid() && TotalPages(blocks) == TotalPages(old(blocks))
      ensures pagemap == old(pagemap)[leftover.start := leftover][leftover.start + leftover.length - 1 := leftover]
      ensures home == old(home)[leftover := old(home[span]) + n]
      ensures blocks == Relocate(Cut(old(blocks), old(home[span]), n), old(home[span]) + n, leftover.location)
    {
      hide ListsValid, Mapped, Described, Tiled, Total, Cut, Relocate;
      LiveInRepr(span);
      CutParts(blocks, home[span], n);
      CutBlock(span, n, leftover);
      RecordSpan(leftover);
      PrependToFreeList(leftover);
    }

    method TakeIntoUse(span: Span)
      requires ValidBut({}) && span in home && FreeAt(blocks, home[span])
      modifies `freeBytes, `unmappedBytes, `blocks, `lists, span`location, Repr`next, Repr`prev
      ensures ValidBut({}) && span.location == InUse
      ensures blocks == Relocate(old(blocks), home[span], InUse)
    {
      hide ListsValid, Mapped, Described, Tiled, Total;
      DescribedBut(blocks, home, {}, span);
      LiveInRepr(span);
      RemoveFromFreeList(span, {});
      assert {} + {span} == {span};
      DescribedBut(blocks, home, {span}, span);
      span.location := InUse;
      DescribedNow(blocks, home, span);
    }

    /** Cut span, which is in use, to n pages and list the other pages at the given place. */
    method ListRest(span: Span, n: nat, extra: nat, place: Location) returns (ghost leftover: Span)
      requires ValidBut({}) && span in home && home[span] in blocks && blocks[home[span]].location == InUse
      requires 0 < n && 0 < extra && n + extra == blocks[home[span]].length && place != InUse
      modifies `pagemap, `pool, `freeBytes, `unmappedBytes, `blocks, `home, `lists, `Repr, Repr
      ensures ValidBut({}) && old(Repr) <= Repr && fresh(Repr - old(Repr))
      ensures leftover !in old(home) && home == old(home)[leftover := old(home[span]) + n]
      ensures blocks == Relocate(Cut(old(blocks), old(home[span]), n), old(home[span]) + n, place)
      ensures span.sizeclass == old(span.sizeclass) && span.sample == old(span.sample)
    {
      hide ListsValid, Mapped, Described, Tiled, Total, Cut, Relocate;
      DescribedBut(blocks, home, {}, span);
      LiveInRepr(span);
      var rest := NewSpan(span.start + n, extra);
      rest.location := place;
      ListLeftover(span, n, rest);
      leftover := rest;
    }

    /** Take the span off its list, cut it to n pages and list the rest without coalescing. */
    method Carve(span: Span, n: nat) returns (result: Span)
      requires Valid() && span in home && FreeAt(blocks, home[span]) && 0 < n <= blocks[home[span]].length
      modifies `pagemap, `pool, `freeBytes, `unmappedBytes, `blocks, `home, `lists, `Repr, Repr
      ensures Valid() && old(Repr) <= Repr && fresh(Repr - old(Repr))
      ensures Kept(old(blocks), old(home), blocks, home, null)
      ensures result == span && span in home && home[span] == old(home[span])
      ensures result.sizeclass == 0 && !result.sample
      ensures blocks == Carved(old(blocks), old(home[span]), n)
    {
      hide ListsValid, Mapped, Described, Tiled, Coalesced, Total, Carved, Cut, Relocate, CarveLeftover, Kept;
      ghost var p := home[span];
      DescribedBut(blocks, home, {}, span);
      LiveInRepr(span);
      BlockFits(blocks, p);
      CarvedCoalesced(blocks, p, n);
      CarveInSteps(blocks, p, n);
      ghost var blocks0, home0, pagemap0 := blocks, home, pagemap;
      var oldLocation := span.location;
      TakeIntoUse(span);
      CarveIsExact(span.length, n);
      var extra := CarveLeftover(span.length, n);
      if extra > 0 {
        ghost var rest := ListRest(span, n, extra, oldLocation);
      }
      KeptCarved(blocks0, home0, pagemap0, span, n, home);
      result := span;
    }

    /** The spans on a list are live, free and of the lengths the list is for. */
    lemma ListContents(a: Slot)
      requires ListsValid() && IsSlot(a)
      ensures a in lists && Ring(HeaderOf(a), lists[a])
      ensures forall s | s in lists[a] :: s in home && FreeAt(blocks, home[s]) && SlotOf(blocks[home[s]]) == a
    {
      RingIsLinked(a);
    }

    /** A free block's descriptor is on its list. */
    lemma FreeIsListed(p: nat)
      requires ListsValid() && Mapped(blocks, home, pagemap) && FreeAt(blocks, p)
      ensures var a := SlotOf(blocks[p]);
        IsSlot(a) && a in lists && p in pagemap && pagemap[p] in lists[a] && pagemap[p] in home && home[pagemap[p]] == p
    {
    }

    /** Every free block that has n pages has at least s pages. */
    ghost predicate NoneShorter(n: nat, s: nat)
      reads `blocks
    {
      forall q | FreeAt(blocks, q) && n <= blocks[q].length :: s <= blocks[q].length
    }

    /** What is best on both large lists is best of all, if no small block will do. */
    lemma BestOfLarge(n: nat, best: Span?)
      requires ListsValid() && Mapped(blocks, home, pagemap) && NoneShorter(n, K_MAX_PAGES)
      requires best != null ==> best in home && FreeAt(blocks, home[best]) && n <= blocks[home[best]].length
      requires forall kind, s | kind != InUse && Slot(K_MAX_PAGES, kind) in lists
        && s in lists[Slot(K_MAX_PAGES, kind)] ::
        s in home && home[s] in blocks &&
          (n <= blocks[home[s]].length ==> best != null && AsGood(blocks, home[best], home[s]))
      ensures best == null ==> !CanServe(blocks, n)
      ensures best != null ==> BestFit(blocks, home[best], n)
    {
      hide ListsValid, Mapped, IsSlot;
      forall q | FreeAt(blocks, q) && n <= blocks[q].length
        ensures best != null && AsGood(blocks, home[best], q)
      {
        FreeIsListed(q);
        assert SlotOf(blocks[q]) == Slot(K_MAX_PAGES, blocks[q].location);
      }
    }

    /** The span that AllocLarge carves, or null if no large free span has n pages. */
    method BestLarge(n: nat) returns (best: Span?)
      requires Valid() && 0 < n && NoneShorter(n, K_MAX_PAGES)
      ensures best == null ==> !CanServe(blocks, n)
      ensures best != null ==> best in home && BestFit(blocks, home[best], n)
    {
      hide ListsValid, Mapped, Described, Tiled, Coalesced, Total, Ring, BestFit, CanServe, NoneShorter;
      ValidParts();
      ghost var a, b := Slot(K_MAX_PAGES, OnNormal), Slot(K_MAX_PAGES, OnReturned);
      ListContents(a);
      ListContents(b);
      best := BestOnList(large.normal, n, null, lists[a]);
      best := BestOnList(large.returned, n, best, lists[b]);
      assert forall kind | kind != InUse :: Slot(K_MAX_PAGES, kind) == a || Slot(K_MAX_PAGES, kind) == b;
      BestOfLarge(n, best);
    }

    method AllocLarge(n: nat) returns (result: Span?, ghost p: nat)
      requires Valid() && 0 < n && NoneShorter(n, K_MAX_PAGES)
      modifies `pagemap, `pool, `freeBytes, `unmappedBytes, `blocks, `home, `lists, `Repr, Repr
      ensures Valid() && old(Repr) <= Repr && fresh(Repr - old(Repr))
      ensures Kept(old(blocks), old(home), blocks, home, null)
      ensures result == null ==> !CanServe(old(blocks), n) && blocks == old(blocks) && home == old(home)
      ensures result != null ==>
        && BestFit(old(blocks), p, n) && blocks == Carved(old(blocks), p, n)
        && result in home && home[result] == p && result.sizeclass == 0 && !result.sample
    {
      hide ListsValid, Mapped, Described, Tiled, Coalesced, Total, Carved, CanServe;
      result, p := null, 0;
      var best := BestLarge(n);
      if best != null {
        p := home[best];
        result := Carve(best, n);
      }
    }

    lemma FirstOfList(a: Slot)
      requires ListsValid() && IsSlot(a) && a in lists && lists[a] != []
      ensures HeaderOf(a).next != null && HeaderOf(a).next in lists[a]
    {
      RingIsLinked(a);
    }

    /** Any span on the list for s pages is best if nothing shorter will do; a returned one
        if the normal list is empty. */
    lemma BestOfSmall(n: nat, s: nat, kind: Location, span: Span)
      requires ListsValid() && Mapped(blocks, home, pagemap) && NoneShorter(n, s) && n <= s < K_MAX_PAGES
      requires kind != InUse && Slot(s, kind) in lists && span in lists[Slot(s, kind)]
      requires kind == OnReturned ==> Slot(s, OnNormal) in lists && lists[Slot(s, OnNormal)] == []
      ensures span in home && BestFit(blocks, home[span], n)
    {
      hide ListsValid, Mapped;
      ListContents(Slot(s, kind));
      forall q | FreeAt(blocks, q) && n <= blocks[q].length && blocks[q].length == s && blocks[q].location == OnNormal
        ensures kind == OnNormal
      {
        FreeIsListed(q);
      }
    }

    lemma NothingAt(n: nat, s: nat)
      requires ListsValid() && Mapped(blocks, home, pagemap) && NoneShorter(n, s) && s < K_MAX_PAGES
      requires Slot(s, OnNormal) in lists && lists[Slot(s, OnNormal)] == []
      requires Slot(s, OnReturned) in lists && lists[Slot(s, OnReturned)] == []
      ensures NoneShorter(n, s + 1)
    {
      hide ListsValid, Mapped;
      forall q | FreeAt(blocks, q) && n <= blocks[q].length ensures s + 1 <= blocks[q].length {
        FreeIsListed(q);
      }
    }

    lemma BothLists(s: nat)
      requires ListsValid() && s < K_MAX_PAGES
      ensures var a := Slot(s, OnNormal);
        IsSlot(a) && a in lists && HeaderOf(a) == free[s].normal && Ring(free[s].normal, lists[a])
      ensures var b := Slot(s, OnReturned);
        IsSlot(b) && b in lists && HeaderOf(b) == free[s].returned && Ring(free[s].returned, lists[b])
    {
      ListContents(Slot(s, OnNormal));
      ListContents(Slot(s, OnReturned));
    }

    /** The first span on the first non-empty list for lengths from n up, normal before returned. */
    method FirstSmall(n: nat) returns (span: Span?)
      requires Valid() && 0 < n
      ensures span == null ==> NoneShorter(n, K_MAX_PAGES)
      ensures span != null ==> span in home && BestFit(blocks, home[span], n)
    {
      hide ListsValid, Mapped, Described, Tiled, Coalesced, Total, HeaderOf, IsSlot, Ring, BestFit;
      ValidParts();
      var s := n;
      while s < K_MAX_PAGES
        invariant n <= s && NoneShorter(n, s)
      {
        ghost var a, b := Slot(s, OnNormal), Slot(s, OnReturned);
        BothLists(s);
        var list := free[s].normal;
        var empty := DLL_IsEmpty(list, lists[a]);
        if !empty {
          FirstOfList(a);
          BestOfSmall(n, s, OnNormal, list.next);
          return list.next;
        }
        list := free[s].returned;
        empty := DLL_IsEmpty(list, lists[b]);
        if !empty {
          FirstOfList(b);
          BestOfSmall(n, s, OnReturned, list.next);
          return list.next;
        }
        NothingAt(n, s);
        s := s + 1;
      }
      return null;
    }

    method SearchFreeAndLargeLists(n: nat) returns (result: Span?, ghost p: nat)
      requires Valid() && 0 < n
      modifies `pagemap, `pool, `freeBytes, `unmappedBytes, `blocks, `home, `lists, `Repr, Repr
      ensures Valid() && old(Repr) <= Repr && fresh(Repr - old(Repr))
      ensures Kept(old(blocks), old(home), blocks, home, null)
      ensures result == null ==> !CanServe(old(blocks), n) && blocks == old(blocks) && home == old(home)
      ensures result != null ==>
        && BestFit(old(blocks), p, n) && blocks == Carved(old(blocks), p, n)
        && result in home && home[result] == p && result.sizeclass == 0 && !result.sample
    {
      hide ListsValid, Mapped, Described, Tiled, Coalesced, Total, Carved, CanServe;
      result := FirstSmall(n);
      if result != null {
        p := home[result];
        result := Carve(result, n);
      } else {
        result, p := AllocLarge(n);
      }
    }

    /* ---- freeing ---- */

    method IncrementalScavenge(n: nat) returns (ghost ps: seq<nat>)
      requires Valid()
      modifies `pagemap, `pool, `freeBytes, `unmappedBytes, `blocks, `home, `lists, `releaseIndex, `scavengeCounter,
        Repr
      ensures Valid() && Repr == old(Repr)
      ensures Kept(old(blocks), old(home), blocks, home, null)
      ensures blocks == ReleasedAll(old(blocks), ps)
      ensures old(scavengeCounter) >= n ==> ps == [] && scavengeCounter == old(scavengeCounter) - n
      ensures old(scavengeCounter) < n && releaseRate <= 0.000001 ==> ps == []
      ensures ps != [] ==> ReleasedPages(old(blocks), ps[..|ps| - 1]) < 1
      ensures old(scavengeCounter) < n ==>
        var released := Total(blocks, OnReturned) - Total(old(blocks), OnReturned);
        scavengeCounter ==
          if released == 0 then 0x4_0000
          else if 1000.0 * released as real > releaseRate * 0x10_0000 as real then 0x10_0000
          else (1000.0 * released as real / releaseRate).Floor
      ensures old(scavengeCounter) < n && releaseRate > 0.000001 ==>
        Total(blocks, OnReturned) > Total(old(blocks), OnReturned) || Total(blocks, OnNormal) == 0
    {
      hide ListsValid, Mapped, Described, Total, Tiled, Coalesced, ReleasedAll, ValidBut;
      NothingReleased(blocks);
      ps := [];
      scavengeCounter := scavengeCounter - n;
      if scavengeCounter >= 0 {
        return;
      }
      if releaseRate <= 0.000001 {
        scavengeCounter := K_DEFAULT_RELEASE_DELAY;
        return;
      }
      var released;
      released, ps := ReleaseAtLeastNPages(1);
      if released == 0 {
        scavengeCounter := K_DEFAULT_RELEASE_DELAY;
      } else {
        var wait := 1000.0 / releaseRate * released as real;
        if wait > K_MAX_RELEASE_DELAY as real {
          wait := K_MAX_RELEASE_DELAY as real;
        }
        scavengeCounter := wait.Floor;
      }
    }

    /** Give back a block in use; ps lists the blocks that scavenging releases afterwards. */
    method Delete(span: Span) returns (ghost ps: seq<nat>)
      requires Valid() && span in home && span.location == InUse
      requires span.next == null && span.prev == null
      modifies `pagemap, `pool, `freeBytes, `unmappedBytes, `blocks, `home, `lists, `releaseIndex, `scavengeCounter,
        Repr
      ensures Valid() && Repr == old(Repr)
      ensures Kept(old(blocks), old(home), blocks, home, span)
      ensures blocks == ReleasedAll(Freed(old(blocks), old(home[span]), OnNormal), ps)
    {
      hide ListsValid, Mapped, Described, Tiled, Coalesced, Total, Freed, ReleasedAll;
      DescribedBut(blocks, home, {}, span);
      LiveInRepr(span);
      var n := span.length;
      span.sizeclass, span.sample := 0, false;
      span.location := OnNormal;
      DescribedFloating(blocks, home, span);
      MergeIntoFreeList(span);
      ghost var blocks1, home1 := blocks, home;
      ps := IncrementalScavenge(n);
      KeptThrough(old(blocks), old(home), blocks1, home1, blocks, home, span, null);
    }

    /** Mark a block as used for small objects: all its pages get its descriptor. */
    method RegisterSizeClass(span: Span, sc: nat)
      requires Valid() && span in home && span.location == InUse
      modifies `pagemap, span`sizeclass
      ensures Valid() && span.sizeclass == sc
      ensures forall x: nat :: Covers(blocks, home[span], x) ==> x in pagemap && pagemap[x] == span
      ensures forall x: nat :: !Covers(blocks, home[span], x) ==>
        (x in pagemap <==> x in old(pagemap)) && (x in pagemap ==> pagemap[x] == old(pagemap)[x])
    {
      hide ListsValid, Described, Tiled, Mapped;
      DescribedBut(blocks, home, {}, span);
      EndsMapped(span);
      span.sizeclass := sc;
      DescribedAgain(blocks, home, {}, span);
      var i := 1;
      while i < span.length - 1
        invariant 1 <= i && Mapped(blocks, home, pagemap) && span.sizeclass == sc
        invariant span.start in pagemap && pagemap[span.start] == span
        invariant span.start + span.length - 1 in pagemap && pagemap[span.start + span.length - 1] == span
        invariant forall x: nat | span.start < x < span.start + i && x < span.start + span.length - 1 ::
          x in pagemap && pagemap[x] == span
        invariant forall x: nat :: !Covers(blocks, home[span], x) ==>
          (x in pagemap <==> x in old(pagemap)) && (x in pagemap ==> pagemap[x] == old(pagemap)[x])
      {
        MappedInside(blocks, home, pagemap, span, span.start + i);
        pagemap := pagemap[span.start + i := span];
        i := i + 1;
      }
    }

    lemma EndsMapped(span: Span)
      requires Mapped(blocks, home, pagemap) && Tiled(blocks) && span in home
      ensures home[span] in pagemap && pagemap[home[span]] == span
      ensures home[span] in blocks && 0 < blocks[home[span]].length
      ensures LastPage(blocks, home[span]) in pagemap && pagemap[LastPage(blocks, home[span])] == span
    {
    }

    /* ---- growing ---- */

    /** From here on the n pages at p, paid for but lost so far, are a block described by span. */
    ghost method AddBlock(span: Span, p: nat, n: nat)
      requires ListsValid() && Tiled(blocks) && Coalesced(blocks)
      requires forall s | s in home :: home[s] in blocks
      requires 0 < p && 0 < n <= lost && Unowned(blocks, p, n)
      requires span in Repr && span !in home && span !in headers && span !in pool
      modifies `blocks, `home, `lost
      ensures ListsValid() && Tiled(blocks) && Coalesced(blocks) && TotalPages(blocks) == TotalPages(old(blocks)) + n
      ensures blocks == Added(old(blocks), p, n) && home == old(home)[span := p]
    {
      hide Placed, Tiled, Total, Headers, Linked, Distinct, AllApart, Coalesced;
      AddedEffect(blocks, p, n);
      AddedTotals(blocks, p, n);
      PlacedAdded(blocks, lists, home, p, n, span);
      ApartWith(headers, Repr, home, pool, span, p);
      blocks, home, lost := Added(blocks, p, n), home[span := p], lost - n;
    }

    /** Memory from the system counts even if the page map cannot record it. */
    method CountGrowth(n: nat)
      requires ListsValid()
      modifies `systemBytes, `lost
      ensures ListsValid() && lost == old(lost) + n && systemBytes == old(systemBytes) + n * K_PAGE_SIZE
    {
      systemBytes := systemBytes + n * K_PAGE_SIZE;
      lost := lost + n;
    }

    lemma PoolInRepr()
      requires ListsValid()
      ensures home.Keys <= Repr && forall s | s in pool :: s in Repr
    {
    }

    /** Record the n pages at p, counted already, as a block in use. */
    method AddMemory(p: nat, n: nat) returns (span: Span)
      requires Valid() && 0 < p && 0 < n <= lost && Unowned(blocks, p, n) && TotalPages(blocks) + n < INT_LIMIT
      modifies `Repr, `pool, `pagemap, `blocks, `home, `lost, pool
      ensures Valid() && old(Repr) <= Repr && fresh(Repr - old(Repr))
      ensures Kept(old(blocks), old(home), blocks, home, null)
      ensures blocks == Added(old(blocks), p, n) && span in home && home[span] == p
      ensures span !in old(home)
      ensures span.location == InUse && span.next == null && span.prev == null
    {
      hide ListsValid, Mapped, Described, Tiled, Coalesced, Total;
      HomesInBlocks();
      PoolInRepr();
      span := NewSpan(p, n);
      MappedAdded(blocks, home, pagemap, span, p, n);
      AddedEffect(blocks, p, n);
      DescribedAdded(blocks, home, span, p, n);
      RecordSpan(span);
      AddBlock(span, p, n);
    }

    method GrowHeap(n: nat, os: System) returns (ok: bool, ghost ps: seq<nat>)
      requires Valid() && 0 < n && SoundSystem(blocks, n, os)
      modifies this, Repr
      ensures Valid() && old(Repr) <= Repr && fresh(Repr - old(Repr))
      ensures Kept(old(blocks), old(home), blocks, home, null)
      ensures ok <==>
        && n * K_PAGE_SIZE < 0x1_0000_0000_0000_0000 && os.mapGrows
        && (os.first.Granted? || (n * K_PAGE_SIZE < 0x10_0000 && os.second.Granted?))
      ensures !ok ==> blocks == old(blocks) && home == old(home)
      ensures ok ==> blocks == ReleasedAll(Grown(old(blocks), os), ps) && CanServe(blocks, n)
      ensures ok ==> var r := if os.first.Granted? then os.first else os.second;
        && TotalPages(blocks) == TotalPages(old(blocks)) + r.size / K_PAGE_SIZE
        && systemBytes == old(systemBytes) + r.size / K_PAGE_SIZE * K_PAGE_SIZE
        && forall x: nat :: Owned(blocks, x) <==>
             Owned(old(blocks), x) || r.address / K_PAGE_SIZE <= x < (r.address + r.size) / K_PAGE_SIZE
    {
      hide ListsValid, Mapped, Described, Tiled, Coalesced, Total, Freed, ReleasedAll, CanServe;
      ps := [];
      if n > K_MAX_VALID_PAGES {
        return false, ps;
      }
      var ask := if n > K_MIN_SYSTEM_ALLOC then n else K_MIN_SYSTEM_ALLOC;
      var reply := os.first;
      if reply.Refused? {
        if n < ask {
          reply := os.second;
        }
        if reply.Refused? {
          return false, ps;
        }
      }
      var p := reply.address / K_PAGE_SIZE;
      ask := reply.size / K_PAGE_SIZE;
      PoolInRepr();
      GrownServes(blocks, n, p, ask);
      CountGrowth(ask);
      if !os.mapGrows {
        return false, ps;
      }
      var span := AddMemory(p, ask);
      ghost var blocks1, home1 := blocks, home;
      ps := Delete(span);
      KeptThrough(old(blocks), old(home), blocks1, home1, blocks, home, null, span);
      ReleasedAllServes(Grown(old(blocks), os), ps, n);
      GrownOwns(old(blocks), p, ask, ps);
      ok := true;
    }

    lemma GrownOwns(t: Blocks, p: nat, n: nat, ps: seq<nat>)
      requires Tiled(t) && Coalesced(t) && 0 < p && 0 < n && Unowned(t, p, n)
      ensures var t' := ReleasedAll(Freed(Added(t, p, n), p, OnNormal), ps);
        && TotalPages(t') == TotalPages(t) + n
        && forall x: nat :: Owned(t', x) <==> Owned(t, x) || p <= x < p + n
    {
      hide Tiled, Coalesced, Unowned, Owned, Total, Freed, Added, ReleasedAll;
      EventEffect(t, Grow(p, n, ps));
      forall x: nat {
        EventOwns(t, Grow(p, n, ps), x);
      }
    }

    lemma GrownServes(t: Blocks, n: nat, p: nat, ask: nat)
      requires Tiled(t) && Coalesced(t) && 0 < p && 0 < n <= ask && Unowned(t, p, ask)
      ensures var t' := Freed(Added(t, p, ask), p, OnNormal);
        Tiled(t') && Coalesced(t') && CanServe(t', n)
    {
      AddedEffect(t, p, ask);
      FreedServes(Added(t, p, ask), p, OnNormal, n);
      FreedCoalesced(Added(t, p, ask), p, OnNormal);
      FreedTiled(Added(t, p, ask), p, OnNormal);
    }

    /** The source's contract for New, with the cases told apart: the block comes from the
        heap as it was, or from the heap after it grew and perhaps released memory. */
    method New(n: nat, os: System) returns (result: Span?, ghost p: nat, ghost ps: seq<nat>)
      requires Valid() && 0 < n && SoundSystem(blocks, n, os)
      modifies this, Repr
      ensures Valid() && old(Repr) <= Repr && fresh(Repr - old(Repr))
      ensures Kept(old(blocks), old(home), blocks, home, null)
      ensures result != null <==>
        || CanServe(old(blocks), n)
        || (n * K_PAGE_SIZE < 0x1_0000_0000_0000_0000 && os.mapGrows &&
            (os.first.Granted? || (n * K_PAGE_SIZE < 0x10_0000 && os.second.Granted?)))
      ensures result == null ==> blocks == old(blocks)
      ensures result != null ==>
        var t := if CanServe(old(blocks), n) then old(blocks) else ReleasedAll(Grown(old(blocks), os), ps);
        && BestFit(t, p, n) && blocks == Carved(t, p, n)
        && result in home && home[result] == p && result.sizeclass == 0 && !result.sample
        && result.start == p && result.length == n && result.location == InUse
    {
      hide ListsValid, Mapped, Described, Tiled, Coalesced, Total, Carved, CanServe, ReleasedAll, Grown;
      ps := [];
      result, p := SearchFreeAndLargeLists(n);
      if result != null {
        Allocated(old(blocks), p, n, result);
        return;
      }
      var ok;
      ok, ps := GrowHeap(n, os);
      if !ok {
        return;
      }
      ghost var t, home1 := blocks, home;
      result, p := SearchFreeAndLargeLists(n);
      KeptThrough(old(blocks), old(home), t, home1, blocks, home, null, null);
      Allocated(t, p, n, result);
    }

    lemma Allocated(t: Blocks, p: nat, n: nat, span: Span)
      requires ValidBut({}) && 0 < n && BestFit(t, p, n) && blocks == Carved(t, p, n) && span in home && home[span] == p
      ensures CanServe(t, n)
      ensures span.start == p && span.length == n && span.location == InUse
    {
    }
  }
}
