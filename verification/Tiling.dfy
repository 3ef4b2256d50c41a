/** The page heap seen as a map from the first page of each block to the block.

    This is what `PageHeap` (PageHeap.dfy) is proved to maintain with its span
    descriptors, its page map and its free lists: three primitive changes
    (relocate, cut, join) and the compositions the heap makes of them. */
module Tiling {

  datatype Location = InUse | OnNormal | OnReturned

  datatype Block = Block(length: nat, location: Location)

  type Blocks = map<nat, Block>

  /** Blocks are non-empty, start at a positive page and do not overlap. */
  ghost predicate Tiled(t: Blocks) {
    && (forall p | p in t :: 0 < p && 0 < t[p].length)
    && (forall p, q | p in t && q in t && p < q :: p + t[p].length <= q)
  }

  /** No two address-adjacent free blocks are on lists of the same kind. */
  ghost predicate Coalesced(t: Blocks) {
    forall p, q | p in t && q in t && q == p + t[p].length ::
      t[p].location == InUse || t[p].location != t[q].location
  }

  ghost predicate FreeAt(t: Blocks, p: nat) {
    p in t && t[p].location != InUse
  }

  /** Some free block has at least n pages. */
  ghost predicate CanServe(t: Blocks, n: nat) {
    exists p :: FreeAt(t, p) && n <= t[p].length
  }

  /** Page x belongs to the block that starts at p. */
  ghost predicate Covers(t: Blocks, p: nat, x: nat) {
    p in t && p <= x < p + t[p].length
  }

  /** Page x belongs to a block with the given location. */
  ghost predicate PageAt(t: Blocks, loc: Location, x: nat) {
    exists p :: Covers(t, p, x) && t[p].location == loc
  }

  ghost predicate Owned(t: Blocks, x: nat) {
    exists p :: Covers(t, p, x)
  }

  lemma CoverIsUnique(t: Blocks, p: nat, q: nat, x: nat)
    requires Tiled(t) && Covers(t, p, x) && Covers(t, q, x)
    ensures p == q
  {
  }

  lemma Positive(t: Blocks, p: nat)
    requires Tiled(t) && p in t
    ensures 0 < p && 0 < t[p].length
  {
  }

  lemma EndsBefore(t: Blocks, q: nat, p: nat)
    requires Tiled(t) && p in t && 0 < p && Covers(t, q, p - 1)
    ensures q + t[q].length == p
  {
  }

  lemma StartsAfter(t: Blocks, p: nat, q: nat)
    requires Tiled(t) && p in t && Covers(t, q, p + t[p].length)
    ensures q == p + t[p].length
  {
  }

  /** The blocks partition the pages: an owned page has exactly one location. */
  lemma OneLocation(t: Blocks, x: nat)
    requires Tiled(t) && Owned(t, x)
    ensures exists loc :: PageAt(t, loc, x) && forall l :: PageAt(t, l, x) ==> l == loc
  {
    var p :| Covers(t, p, x);
    assert PageAt(t, t[p].location, x);
    forall l | PageAt(t, l, x) ensures l == t[p].location {
      var q: nat :| Covers(t, q, x) && t[q].location == l;
      CoverIsUnique(t, p, q, x);
    }
  }

  /* ---- how many pages ---- */

  ghost function Weight(b: Block, loc: Location): nat {
    if b.location == loc then b.length else 0
  }

  /** The number of pages in blocks with the given location. */
  ghost function Total(t: Blocks, loc: Location): nat {
    if t == map[] then 0 else var p :| p in t; Weight(t[p], loc) + Total(t - {p}, loc)
  }

  ghost function TotalPages(t: Blocks): nat {
    Total(t, InUse) + Total(t, OnNormal) + Total(t, OnReturned)
  }

  lemma {:induction false} TotalWithout(t: Blocks, p: nat, loc: Location)
    requires p in t
    ensures Total(t, loc) == Weight(t[p], loc) + Total(t - {p}, loc)
    decreases |t|
  {
    var q :| q in t && Total(t, loc) == Weight(t[q], loc) + Total(t - {q}, loc);
    if q != p {
      TotalWithout(t - {q}, p, loc);
      TotalWithout(t - {p}, q, loc);
      assert t - {q} - {p} == t - {p} - {q};
    }
  }

  lemma TotalWith(t: Blocks, p: nat, b: Block, loc: Location)
    ensures Total(t[p := b], loc) ==
            Total(t, loc) + Weight(b, loc) - (if p in t then Weight(t[p], loc) else 0)
  {
    TotalWithout(t[p := b], p, loc);
    assert t[p := b] - {p} == t - {p};
    if p in t {
      TotalWithout(t, p, loc);
    } else {
      assert t - {p} == t;
    }
  }

  lemma {:induction false} TotalOfNone(t: Blocks, loc: Location)
    requires forall p | p in t :: t[p].location != loc
    ensures Total(t, loc) == 0
    decreases |t|
  {
    if t != map[] {
      var p :| p in t;
      TotalWithout(t, p, loc);
      TotalOfNone(t - {p}, loc);
    }
  }

  lemma BlockFits(t: Blocks, p: nat)
    requires p in t
    ensures t[p].length <= TotalPages(t)
  {
    TotalWithout(t, p, t[p].location);
  }

  /* ---- primitive changes ---- */

  ghost function Relocate(t: Blocks, p: nat, loc: Location): Blocks {
    if p in t then t[p := Block(t[p].length, loc)] else t
  }

  /** Cut the block at p into its first n pages and the rest. */
  ghost function Cut(t: Blocks, p: nat, n: nat): Blocks {
    if p in t && n < t[p].length
    then t[p := Block(n, t[p].location)][p + n := Block(t[p].length - n, t[p].location)]
    else t
  }

  /** Join the block at p with the block that follows it. */
  ghost function Join(t: Blocks, p: nat): Blocks {
    if p in t && p + t[p].length in t then
      var q := p + t[p].length;
      (t - {q})[p := Block(t[p].length + t[q].length, t[p].location)]
    else t
  }

  lemma RelocateEffect(t: Blocks, p: nat, loc: Location)
    requires Tiled(t) && p in t
    ensures Tiled(Relocate(t, p, loc))
    ensures forall q, x :: Covers(Relocate(t, p, loc), q, x) <==> Covers(t, q, x)
  {
  }

  lemma RelocateTotal(t: Blocks, p: nat, loc: Location, l: Location)
    requires p in t
    ensures Total(Relocate(t, p, loc), l) ==
            Total(t, l) + Weight(Block(t[p].length, loc), l) - Weight(t[p], l)
  {
    TotalWith(t, p, Block(t[p].length, loc), l);
  }

  lemma CutParts(t: Blocks, p: nat, n: nat)
    requires p in t && 0 < n < t[p].length
    ensures var u := Cut(t, p, n);
      && p in u && u[p] == Block(n, t[p].location)
      && p + n in u && u[p + n] == Block(t[p].length - n, t[p].location)
  {
  }

  lemma CutTiled(t: Blocks, p: nat, n: nat)
    requires Tiled(t) && p in t && 0 < n < t[p].length
    ensures p + n !in t
    ensures Tiled(Cut(t, p, n))
  {
    var t' := Cut(t, p, n);
    forall a, b | a in t' && b in t' && a < b ensures a + t'[a].length <= b {
      if a == p && b != p + n {
        assert b in t;
      } else if a == p + n {
        assert b in t && p < b;
      } else if b == p + n {
        if a != p { assert a in t && a + t[a].length <= p; }
      }
    }
  }

  lemma CutPage(t: Blocks, p: nat, n: nat, l: Location, x: nat)
    requires Tiled(t) && p in t && 0 < n < t[p].length
    ensures PageAt(Cut(t, p, n), l, x) <==> PageAt(t, l, x)
  {
    hide Tiled;
    CutTiled(t, p, n);
    if PageAt(t, l, x) {
      var q: nat :| Covers(t, q, x) && t[q].location == l;
      PageStillThere(t, p, n, l, q, x);
    }
    if PageAt(Cut(t, p, n), l, x) {
      var q: nat :| Covers(Cut(t, p, n), q, x) && Cut(t, p, n)[q].location == l;
      PageWasThere(t, p, n, l, q, x);
    }
  }

  lemma PageStillThere(t: Blocks, p: nat, n: nat, l: Location, q: nat, x: nat)
    requires p in t && 0 < n < t[p].length && p + n !in t && Covers(t, q, x) && t[q].location == l
    ensures PageAt(Cut(t, p, n), l, x)
  {
    var t' := Cut(t, p, n);
    if q == p && p + n <= x {
      assert Covers(t', p + n, x) && t'[p + n].location == l;
    } else {
      assert Covers(t', q, x) && t'[q].location == l;
    }
  }

  lemma PageWasThere(t: Blocks, p: nat, n: nat, l: Location, q: nat, x: nat)
    requires p in t && 0 < n < t[p].length && p + n !in t && Covers(Cut(t, p, n), q, x) && Cut(t, p, n)[q].location == l
    ensures PageAt(t, l, x)
  {
    assert Covers(t, if q == p + n then p else q, x);
  }

  lemma CutOwned(t: Blocks, p: nat, n: nat, x: nat)
    requires Tiled(t) && p in t && 0 < n < t[p].length && Owned(t, x)
    ensures Owned(Cut(t, p, n), x)
  {
    var q: nat :| Covers(t, q, x);
    assert q != p + n ==> q in Cut(t, p, n);
    if q == p && p + n <= x {
      assert Covers(Cut(t, p, n), p + n, x);
    } else if q != p + n {
      assert Covers(Cut(t, p, n), q, x);
    }
  }

  lemma JoinOwned(t: Blocks, p: nat, x: nat)
    requires Tiled(t) && p in t && p + t[p].length in t && Owned(t, x)
    ensures Owned(Join(t, p), x)
  {
    var q: nat :| Covers(t, q, x);
    assert Covers(Join(t, p), if q == p + t[p].length then p else q, x);
  }

  lemma CutTotal(t: Blocks, p: nat, n: nat, l: Location)
    requires Tiled(t) && p in t && 0 < n < t[p].length
    ensures Total(Cut(t, p, n), l) == Total(t, l)
  {
    var u := t[p := Block(n, t[p].location)];
    CutTiled(t, p, n);
    TotalWith(t, p, Block(n, t[p].location), l);
    TotalWith(u, p + n, Block(t[p].length - n, t[p].location), l);
  }

  /** Joining two neighbours with the same location is undone by a cut. */
  lemma JoinIsUncut(t: Blocks, p: nat)
    requires Tiled(t) && p in t && p + t[p].length in t
    requires t[p + t[p].length].location == t[p].location
    ensures Tiled(Join(t, p))
    ensures t[p].length < Join(t, p)[p].length && Cut(Join(t, p), p, t[p].length) == t
  {
    var t' := Join(t, p);
    assert Cut(t', p, t[p].length) == t;
  }

  /* ---- what the page heap makes of the primitive changes ---- */

  /** Take the first n pages of the free block at p into use; the rest keeps its place. */
  ghost function Carved(t: Blocks, p: nat, n: nat): Blocks {
    if p in t && n < t[p].length
    then t[p := Block(n, InUse)][p + n := Block(t[p].length - n, t[p].location)]
    else t[p := Block(n, InUse)]
  }

  lemma CarvedTiled(t: Blocks, p: nat, n: nat)
    requires Tiled(t) && FreeAt(t, p) && 0 < n <= t[p].length
    ensures Tiled(Carved(t, p, n))
  {
    if n < t[p].length {
      CutTiled(t, p, n);
      var u, t' := Cut(t, p, n), Carved(t, p, n);
      assert forall q | q in t' :: q in u && t'[q].length == u[q].length;
    }
  }

  lemma CarvedCoalesced(t: Blocks, p: nat, n: nat)
    requires Tiled(t) && Coalesced(t) && FreeAt(t, p) && 0 < n <= t[p].length
    ensures Coalesced(Carved(t, p, n))
  {
    var t' := Carved(t, p, n);
    forall a, b | a in t' && b in t' && b == a + t'[a].length
      ensures t'[a].location == InUse || t'[a].location != t'[b].location
    {
      if a != p && a != p + n {
        assert a in t && t[a] == t'[a];
        assert b != p + n;
      }
      if a == p + n && n < t[p].length { assert b in t && b == p + t[p].length; }
    }
  }

  lemma CarveInSteps(t: Blocks, p: nat, n: nat)
    requires p in t && 0 < n <= t[p].length
    ensures var u := Relocate(t, p, InUse);
      && p in u && u[p] == Block(t[p].length, InUse)
      && (n < t[p].length ==> Carved(t, p, n) == Relocate(Cut(u, p, n), p + n, t[p].location))
      && (n == t[p].length ==> Carved(t, p, n) == u)
  {
  }

  lemma CarvedTotal(t: Blocks, p: nat, n: nat, l: Location)
    requires Tiled(t) && FreeAt(t, p) && 0 < n <= t[p].length
    ensures Total(Carved(t, p, n), l) == Total(t, l) + Weight(Block(n, InUse), l) - Weight(Block(n, t[p].location), l)
  {
    var u := t[p := Block(n, InUse)];
    TotalWith(t, p, Block(n, InUse), l);
    if n < t[p].length {
      CutTiled(t, p, n);
      TotalWith(u, p + n, Block(t[p].length - n, t[p].location), l);
    }
  }

  /** The block at q ends where p starts and has location loc. */
  ghost predicate Precedes(t: Blocks, q: nat, p: nat, loc: Location) {
    q in t && q + t[q].length == p && t[q].location == loc
  }

  /** Where the free block made of the block at p begins. */
  ghost function LeftEnd(t: Blocks, p: nat, loc: Location): nat {
    if q: nat :| Precedes(t, q, p, loc) then q else p
  }

  /** Where the free block made of the block at p ends. */
  ghost function RightEnd(t: Blocks, p: nat, loc: Location): nat {
    var e := if p in t then p + t[p].length else p;
    if e in t && t[e].location == loc then e + t[e].length else e
  }

  /** Put the block at p on a list of the given kind together with its neighbours on such lists. */
  ghost function Freed(t: Blocks, p: nat, loc: Location): Blocks {
    var l, r := LeftEnd(t, p, loc), RightEnd(t, p, loc);
    (map q | q in t && !(l <= q < r) :: t[q])[l := Block(if l < r then r - l else 0, loc)]
  }

  lemma LeftEndIs(t: Blocks, q: nat, p: nat, loc: Location)
    requires Tiled(t) && Precedes(t, q, p, loc)
    ensures LeftEnd(t, p, loc) == q < p
  {
    var l := LeftEnd(t, p, loc);
    assert Precedes(t, l, p, loc);
  }

  lemma SolePredecessor(t: Blocks, q: nat, p: nat, loc: Location)
    requires Tiled(t) && Precedes(t, q, p, loc)
    ensures forall r, l :: Precedes(t, r, p, l) ==> r == q && l == loc
  {
  }

  /** The new free block is made of whole blocks. */
  lemma Ends(t: Blocks, p: nat, loc: Location)
    requires Tiled(t) && p in t
    ensures var l, r := LeftEnd(t, p, loc), RightEnd(t, p, loc);
      && 0 < l <= p < p + t[p].length <= r && l in t
      && (l != p ==> Precedes(t, l, p, loc))
      && (forall q | q in t :: q < l ==> q + t[q].length <= l)
      && (forall q | q in t && l <= q < r :: q == l || q == p || q == p + t[p].length)
      && (forall q | q in t && l <= q < r :: q + t[q].length <= r)
  {
    var l := LeftEnd(t, p, loc);
    if l != p {
      LeftEndIs(t, l, p, loc);
    }
  }

  lemma FreedTiled(t: Blocks, p: nat, loc: Location)
    requires Tiled(t) && p in t
    ensures Tiled(Freed(t, p, loc))
  {
    Ends(t, p, loc);
  }

  lemma FreedCoalesced(t: Blocks, p: nat, loc: Location)
    requires Tiled(t) && Coalesced(t) && p in t && loc != InUse
    ensures Coalesced(Freed(t, p, loc))
  {
    Ends(t, p, loc);
    var l, r, t' := LeftEnd(t, p, loc), RightEnd(t, p, loc), Freed(t, p, loc);
    forall a, b | a in t' && b in t' && b == a + t'[a].length
      ensures t'[a].location == InUse || t'[a].location != t'[b].location
    {
      if b == l {
        if t'[a].location == loc && l == p { LeftEndIs(t, a, p, loc); }
      } else if a == l {
        assert b == r && b in t;
      }
    }
  }

  /** t without the block at p and the free neighbours it merges with. */
  ghost function Rest(t: Blocks, p: nat, loc: Location): Blocks
    requires p in t
  {
    var u := t - {p} - {LeftEnd(t, p, loc)};
    var e := p + t[p].length;
    if RightEnd(t, p, loc) == e then u else u - {e}
  }

  lemma FreedFromRest(t: Blocks, p: nat, loc: Location)
    requires Tiled(t) && p in t
    ensures var l, r := LeftEnd(t, p, loc), RightEnd(t, p, loc);
      l <= r && l !in Rest(t, p, loc) && Freed(t, p, loc) == Rest(t, p, loc)[l := Block(r - l, loc)]
  {
    hide Tiled, LeftEnd;
    Ends(t, p, loc);
    var l, r, u := LeftEnd(t, p, loc), RightEnd(t, p, loc), Rest(t, p, loc);
    forall q
      ensures q in u <==> q in t && !(l <= q < r)
    {
    }
  }

  lemma RestTotal(t: Blocks, p: nat, loc: Location, k: Location)
    requires Tiled(t) && p in t
    ensures Total(t, k) == Total(Rest(t, p, loc), k) + Weight(t[p], k) +
              Weight(Block(RightEnd(t, p, loc) - LeftEnd(t, p, loc) - t[p].length, loc), k)
  {
    hide Total;
    Ends(t, p, loc);
    var l, e := LeftEnd(t, p, loc), p + t[p].length;
    TotalWithout(t, p, k);
    var u := t - {p};
    if l != p { TotalWithout(u, l, k); } else { assert u - {l} == u; }
    if RightEnd(t, p, loc) != e { TotalWithout(u - {l}, e, k); }
  }

  lemma FreedTotal(t: Blocks, p: nat, loc: Location, k: Location)
    requires Tiled(t) && p in t
    ensures Total(Freed(t, p, loc), k) == Total(t, k) + Weight(Block(t[p].length, loc), k) - Weight(t[p], k)
  {
    hide Total, Freed, LeftEnd, RightEnd, Rest, Tiled;
    Ends(t, p, loc);
    var l, r := LeftEnd(t, p, loc), RightEnd(t, p, loc);
    FreedFromRest(t, p, loc);
    RestTotal(t, p, loc, k);
    TotalWith(Rest(t, p, loc), l, Block(r - l, loc), k);
  }

  /** Which of the merged blocks holds x. */
  ghost function Part(t: Blocks, p: nat, loc: Location, x: nat): nat {
    if x < p then LeftEnd(t, p, loc) else if p in t && x >= p + t[p].length then p + t[p].length else p
  }

  lemma FreedInside(t: Blocks, p: nat, loc: Location, x: nat)
    requires Tiled(t) && p in t && LeftEnd(t, p, loc) <= x < RightEnd(t, p, loc)
    ensures var q := Part(t, p, loc, x);
      Covers(t, q, x) && (q == p || t[q].location == loc) && (q == p <==> Covers(t, p, x))
    ensures var l := LeftEnd(t, p, loc); Covers(Freed(t, p, loc), l, x) && Freed(t, p, loc)[l].location == loc
  {
    Ends(t, p, loc);
  }

  lemma FreedOutside(t: Blocks, p: nat, loc: Location, k: Location, x: nat)
    requires Tiled(t) && p in t && !(LeftEnd(t, p, loc) <= x < RightEnd(t, p, loc))
    ensures !Covers(t, p, x) && (PageAt(Freed(t, p, loc), k, x) <==> PageAt(t, k, x))
  {
    Ends(t, p, loc);
    var t' := Freed(t, p, loc);
    forall q: nat ensures Covers(t, q, x) <==> Covers(t', q, x)
      ensures Covers(t, q, x) ==> t[q] == t'[q]
    {
    }
  }

  /** Freeing moves the pages of the freed block and no others. */
  lemma FreedPage(t: Blocks, p: nat, loc: Location, k: Location, x: nat)
    requires Tiled(t) && p in t
    ensures PageAt(Freed(t, p, loc), k, x) <==> if Covers(t, p, x) then k == loc else PageAt(t, k, x)
  {
    hide Freed, LeftEnd, RightEnd, Tiled, PageAt, Part;
    if LeftEnd(t, p, loc) <= x < RightEnd(t, p, loc) {
      FreedTiled(t, p, loc);
      FreedInside(t, p, loc, x);
      SoleLocation(Freed(t, p, loc), LeftEnd(t, p, loc), k, x);
      SoleLocation(t, Part(t, p, loc, x), k, x);
    } else {
      FreedOutside(t, p, loc, k, x);
    }
  }

  lemma SoleLocation(t: Blocks, p: nat, k: Location, x: nat)
    requires Tiled(t) && Covers(t, p, x)
    ensures PageAt(t, k, x) <==> t[p].location == k
  {
    if q: nat :| Covers(t, q, x) && t[q].location == k {
      CoverIsUnique(t, p, q, x);
    }
  }

  /** The block in use at p takes over the free block before it. */
  ghost function AbsorbLeft(t: Blocks, p: nat, loc: Location): Blocks {
    var l := LeftEnd(t, p, loc);
    if Precedes(t, l, p, loc) && p in t then Join(Relocate(t, l, InUse), l) else t
  }

  /** The block in use at l takes over the free block after it. */
  ghost function AbsorbRight(t: Blocks, l: nat, loc: Location): Blocks {
    if l in t && l + t[l].length in t && t[l + t[l].length].location == loc
    then Join(Relocate(t, l + t[l].length, InUse), l) else t
  }

  lemma AbsorbLeftStep(t: Blocks, q: nat, p: nat, loc: Location)
    requires Tiled(t) && Precedes(t, q, p, loc) && p in t && t[p].location == InUse && loc != InUse
    ensures var u := Relocate(t, q, InUse);
      && LeftEnd(t, p, loc) == q && AbsorbLeft(t, p, loc) == Join(u, q)
      && Precedes(u, q, p, InUse) && p in u && u[p] == t[p]
  {
    LeftEndIs(t, q, p, loc);
  }

  lemma NothingToAbsorb(t: Blocks, p: nat, loc: Location)
    requires Tiled(t) && p in t && t[p].location == InUse && loc != InUse
    requires forall q :: !Precedes(t, q, p, loc)
    ensures LeftEnd(t, p, loc) == p && AbsorbLeft(t, p, loc) == t
  {
  }

  lemma AbsorbLeftIs(t: Blocks, p: nat, loc: Location)
    requires Tiled(t) && p in t && t[p].location == InUse && loc != InUse
    ensures var l := LeftEnd(t, p, loc);
      l <= p && AbsorbLeft(t, p, loc) == (t - {p})[l := Block(p + t[p].length - l, InUse)]
  {
    hide LeftEnd, Tiled;
    Ends(t, p, loc);
  }

  lemma AbsorbRightIs(u: Blocks, l: nat, loc: Location)
    requires l in u && u[l].location == InUse && 0 < u[l].length && loc != InUse
    ensures var e := l + u[l].length;
      AbsorbRight(u, l, loc) ==
        if e in u && u[e].location == loc then (u - {e})[l := Block(u[l].length + u[e].length, InUse)] else u
  {
  }

  /** Merging one side after the other and listing the result frees the block. */
  lemma MergeInSteps(t: Blocks, p: nat, loc: Location)
    requires Tiled(t) && p in t && t[p].location == InUse && loc != InUse
    ensures var l := LeftEnd(t, p, loc);
      var u := AbsorbRight(AbsorbLeft(t, p, loc), l, loc);
      l in u && Relocate(u, l, loc) == Freed(t, p, loc)
  {
    hide LeftEnd, Tiled, AbsorbLeft, AbsorbRight;
    Ends(t, p, loc);
    AbsorbLeftIs(t, p, loc);
    var l, e := LeftEnd(t, p, loc), p + t[p].length;
    var v := AbsorbLeft(t, p, loc);
    AbsorbRightIs(v, l, loc);
    assert v[l].length == e - l && l + v[l].length == e;
    assert e in v <==> e in t;
    var u, r := AbsorbRight(v, l, loc), RightEnd(t, p, loc);
    if e in t && t[e].location == loc {
      Positive(t, e);
      assert u == (t - {p} - {e})[l := Block(r - l, InUse)];
    } else {
      assert u == (t - {p})[l := Block(r - l, InUse)];
    }
    assert forall q | q in t :: l <= q < r <==> (q == l || q == p || (q == e && r != e));
    assert Relocate(u, l, loc) == Freed(t, p, loc);
  }

  /** A free block never shrinks when another block is freed or released. */
  lemma FreedServes(t: Blocks, p: nat, loc: Location, n: nat)
    requires Tiled(t) && p in t && loc != InUse
    requires CanServe(t, n) || n <= t[p].length
    ensures CanServe(Freed(t, p, loc), n)
  {
    Ends(t, p, loc);
    var l, r, t' := LeftEnd(t, p, loc), RightEnd(t, p, loc), Freed(t, p, loc);
    assert FreeAt(t', l);
    if n > t[p].length {
      var q :| FreeAt(t, q) && n <= t[q].length;
      if !(l <= q < r) {
        assert FreeAt(t', q);
      }
    }
  }

  /** Freeing what was carved from a normal block puts everything back; carving from a
      returned block does not, since the memory is mapped again. */
  lemma FreeUndoesCarve(t: Blocks, p: nat, n: nat)
    requires Tiled(t) && Coalesced(t) && FreeAt(t, p) && 0 < n <= t[p].length
    ensures Freed(Carved(t, p, n), p, OnNormal) == t <==> t[p].location == OnNormal
  {
    hide Tiled, Coalesced, Freed, Carved;
    if t[p].location == OnNormal {
      PutBack(t, p, n);
    } else {
      NotPutBack(t, p, n);
    }
  }

  lemma PutBack(t: Blocks, p: nat, n: nat)
    requires Tiled(t) && Coalesced(t) && FreeAt(t, p) && 0 < n <= t[p].length && t[p].location == OnNormal
    ensures Freed(Carved(t, p, n), p, OnNormal) == t
  {
    hide Coalesced;
    CarvedTiled(t, p, n);
    CarvedNeighbours(t, p, n);
  }

  lemma NotPutBack(t: Blocks, p: nat, n: nat)
    requires Tiled(t) && FreeAt(t, p) && 0 < n <= t[p].length && t[p].location != OnNormal
    ensures Freed(Carved(t, p, n), p, OnNormal) != t
  {
    hide Freed;
    var u := Carved(t, p, n);
    CarvedTiled(t, p, n);
    FreedPage(u, p, OnNormal, OnNormal, p);
    assert Covers(u, p, p) && Covers(t, p, p);
    SoleLocation(t, p, OnNormal, p);
  }

  lemma CarvedNeighbours(t: Blocks, p: nat, n: nat)
    requires Tiled(t) && Coalesced(t) && FreeAt(t, p) && 0 < n <= t[p].length
    requires t[p].location == OnNormal
    ensures LeftEnd(Carved(t, p, n), p, OnNormal) == p
    ensures RightEnd(Carved(t, p, n), p, OnNormal) == p + t[p].length
  {
    var u := Carved(t, p, n);
    CarvedTiled(t, p, n);
    if q: nat :| Precedes(u, q, p, OnNormal) {
      assert false;
    }
    if n < t[p].length { assert p + n in u && u[p + n].location == OnNormal; }
  }

  /** Where a block was before it is freed does not matter. */
  lemma FreedForgets(t: Blocks, p: nat, loc: Location)
    requires Tiled(t) && p in t && loc != InUse
    ensures Freed(Relocate(t, p, InUse), p, loc) == Freed(t, p, loc)
  {
    hide LeftEnd, Tiled;
    SameLeftEnd(t, p, loc);
    Ends(t, p, loc);
    var u, l, r := Relocate(t, p, InUse), LeftEnd(t, p, loc), RightEnd(t, p, loc);
    Positive(t, p);
    assert RightEnd(u, p, loc) == r && l <= p < r;
    assert (map q | q in u && !(l <= q < r) :: u[q]) == (map q | q in t && !(l <= q < r) :: t[q]);
  }

  lemma SameLeftEnd(t: Blocks, p: nat, loc: Location)
    requires Tiled(t) && p in t && loc != InUse
    ensures LeftEnd(Relocate(t, p, InUse), p, loc) == LeftEnd(t, p, loc)
  {
    var u := Relocate(t, p, InUse);
    RelocateEffect(t, p, InUse);
    forall q: nat ensures Precedes(u, q, p, loc) <==> Precedes(t, q, p, loc) {
    }
    if q: nat :| Precedes(t, q, p, loc) {
      LeftEndIs(t, q, p, loc);
      LeftEndIs(u, q, p, loc);
    }
  }

  lemma UseKeepsCoalesced(t: Blocks, p: nat)
    requires Coalesced(t) && p in t
    ensures Coalesced(Relocate(t, p, InUse))
  {
  }

  /* ---- releasing memory to the system ---- */

  /** Release the normal block at p, if there is one. */
  ghost function Released(t: Blocks, p: nat): Blocks {
    if p in t && t[p].location == OnNormal then Freed(t, p, OnReturned) else t
  }

  ghost function ReleasedAll(t: Blocks, ps: seq<nat>): Blocks {
    if ps == [] then t else Released(ReleasedAll(t, ps[..|ps| - 1]), ps[|ps| - 1])
  }

  /** How many pages they take off the normal lists. */
  ghost function ReleasedPages(t: Blocks, ps: seq<nat>): int {
    Total(ReleasedAll(t, ps), OnReturned) - Total(t, OnReturned)
  }

  lemma {:induction false} ReleasedInTurn(t: Blocks, ps: seq<nat>, qs: seq<nat>)
    ensures ReleasedAll(ReleasedAll(t, ps), qs) == ReleasedAll(t, ps + qs)
    decreases |qs|
  {
    if qs == [] {
      assert ps + qs == ps;
    } else {
      ReleasedInTurn(t, ps, qs[..|qs| - 1]);
      assert (ps + qs)[..|ps + qs| - 1] == ps + qs[..|qs| - 1];
    }
  }

  lemma ReleasedOnce(t: Blocks, p: nat)
    requires Tiled(t) && Coalesced(t)
    ensures Tiled(Released(t, p)) && Coalesced(Released(t, p))
    ensures Total(Released(t, p), InUse) == Total(t, InUse)
    ensures Total(Released(t, p), OnNormal) + Total(Released(t, p), OnReturned) ==
      Total(t, OnNormal) + Total(t, OnReturned)
    ensures Total(Released(t, p), OnReturned) >= Total(t, OnReturned)
    ensures p in t && t[p].location == OnNormal ==>
              Total(Released(t, p), OnReturned) == Total(t, OnReturned) + t[p].length
  {
    if p in t && t[p].location == OnNormal {
      FreedTiled(t, p, OnReturned);
      FreedCoalesced(t, p, OnReturned);
      FreedTotal(t, p, OnReturned, InUse);
      FreedTotal(t, p, OnReturned, OnNormal);
      FreedTotal(t, p, OnReturned, OnReturned);
    }
  }

  /** Releases leave every block in use where it is and turn normal pages into returned ones. */
  lemma {:induction false} ReleasedAllEffect(t: Blocks, ps: seq<nat>)
    requires Tiled(t) && Coalesced(t)
    ensures var t' := ReleasedAll(t, ps);
      && Tiled(t') && Coalesced(t')
      && Total(t', InUse) == Total(t, InUse)
      && Total(t', OnNormal) + Total(t', OnReturned) == Total(t, OnNormal) + Total(t, OnReturned)
      && Total(t', OnReturned) >= Total(t, OnReturned)
  {
    if ps != [] {
      ReleasedAllEffect(t, ps[..|ps| - 1]);
      ReleasedOnce(ReleasedAll(t, ps[..|ps| - 1]), ps[|ps| - 1]);
    }
  }

  /** A page in use stays in use, a returned page stays returned, and a normal page stays normal or
      is returned. */
  ghost predicate OnlyReleased(t: Blocks, t': Blocks, x: nat) {
    && (PageAt(t', InUse, x) <==> PageAt(t, InUse, x))
    && (PageAt(t, OnReturned, x) ==> PageAt(t', OnReturned, x))
    && (PageAt(t, OnNormal, x) ==> PageAt(t', OnNormal, x) || PageAt(t', OnReturned, x))
    && (PageAt(t', OnNormal, x) ==> PageAt(t, OnNormal, x))
    && (PageAt(t', OnReturned, x) ==> PageAt(t, OnNormal, x) || PageAt(t, OnReturned, x))
  }

  lemma ReleasedPage(t: Blocks, p: nat, x: nat)
    requires Tiled(t)
    ensures OnlyReleased(t, Released(t, p), x)
  {
    hide PageAt, Tiled, Freed;
    if p in t && t[p].location == OnNormal {
      FreedPage(t, p, OnReturned, InUse, x);
      FreedPage(t, p, OnReturned, OnNormal, x);
      FreedPage(t, p, OnReturned, OnReturned, x);
      if Covers(t, p, x) {
        SoleLocation(t, p, InUse, x);
        SoleLocation(t, p, OnNormal, x);
        SoleLocation(t, p, OnReturned, x);
      }
    }
  }

  lemma {:induction false} ReleasedAllPages(t: Blocks, ps: seq<nat>, x: nat)
    requires Tiled(t) && Coalesced(t)
    ensures OnlyReleased(t, ReleasedAll(t, ps), x)
    decreases |ps|
  {
    hide PageAt, Tiled, Released, Coalesced;
    if ps != [] {
      ReleasedAllPages(t, ps[..|ps| - 1], x);
      ReleasedAllEffect(t, ps[..|ps| - 1]);
      ReleasedPage(ReleasedAll(t, ps[..|ps| - 1]), ps[|ps| - 1], x);
    }
  }

  lemma {:induction false} ReleasedAllServes(t: Blocks, ps: seq<nat>, n: nat)
    requires Tiled(t) && Coalesced(t) && CanServe(t, n)
    ensures CanServe(ReleasedAll(t, ps), n)
  {
    if ps != [] {
      var u, p := ReleasedAll(t, ps[..|ps| - 1]), ps[|ps| - 1];
      ReleasedAllServes(t, ps[..|ps| - 1], n);
      ReleasedAllEffect(t, ps[..|ps| - 1]);
      if p in u && u[p].location == OnNormal { FreedServes(u, p, OnReturned, n); }
    }
  }

  /* ---- new memory ---- */

  /** No page of p .. p+n-1 belongs to a block. */
  ghost predicate Unowned(t: Blocks, p: nat, n: nat) {
    forall q | q in t :: q + t[q].length <= p || p + n <= q
  }

  /** n fresh pages at p, as a block in use. */
  ghost function Added(t: Blocks, p: nat, n: nat): Blocks {
    t[p := Block(n, InUse)]
  }

  lemma AddedTotals(t: Blocks, p: nat, n: nat)
    requires p !in t
    ensures forall l :: Total(Added(t, p, n), l) == Total(t, l) + Weight(Block(n, InUse), l)
  {
    forall l ensures Total(Added(t, p, n), l) == Total(t, l) + Weight(Block(n, InUse), l) {
      TotalWith(t, p, Block(n, InUse), l);
    }
  }

  lemma AddedEffect(t: Blocks, p: nat, n: nat)
    requires Tiled(t) && Coalesced(t) && 0 < p && 0 < n && Unowned(t, p, n)
    ensures p !in t && Tiled(Added(t, p, n)) && Coalesced(Added(t, p, n))
    ensures TotalPages(Added(t, p, n)) == TotalPages(t) + n
  {
    hide Total;
    TotalWith(t, p, Block(n, InUse), InUse);
    TotalWith(t, p, Block(n, InUse), OnNormal);
    TotalWith(t, p, Block(n, InUse), OnReturned);
  }

  /* ---- whole runs ---- */

  /** What one call of the page heap does to the blocks; ps lists what it releases. */
  datatype Event =
    | Allocate(p: nat, n: nat)
    | Deallocate(p: nat, ps: seq<nat>)
    | SplitBlock(p: nat, n: nat)
    | Grow(p: nat, n: nat, ps: seq<nat>)
    | Release(ps: seq<nat>)

  ghost predicate Enabled(t: Blocks, e: Event) {
    match e
    case Allocate(p, n) => FreeAt(t, p) && 0 < n <= t[p].length
    case Deallocate(p, _) => p in t && t[p].location == InUse
    case SplitBlock(p, n) => p in t && t[p].location == InUse && 0 < n < t[p].length
    case Grow(p, n, _) => 0 < p && 0 < n && Unowned(t, p, n)
    case Release(_) => true
  }

  ghost function Apply(t: Blocks, e: Event): Blocks {
    match e
    case Allocate(p, n) => Carved(t, p, n)
    case Deallocate(p, ps) => ReleasedAll(Freed(t, p, OnNormal), ps)
    case SplitBlock(p, n) => Cut(t, p, n)
    case Grow(p, n, ps) => ReleasedAll(Freed(Added(t, p, n), p, OnNormal), ps)
    case Release(ps) => ReleasedAll(t, ps)
  }

  ghost predicate Possible(t: Blocks, es: seq<Event>)
    decreases |es|
  {
    es == [] || (Enabled(t, es[0]) && Possible(Apply(t, es[0]), es[1..]))
  }

  ghost function Outcome(t: Blocks, es: seq<Event>): Blocks
    decreases |es|
  {
    if es == [] then t else Outcome(Apply(t, es[0]), es[1..])
  }

  /** Pages brought in and pages handed out less pages given back, over a run. */
  ghost function PagesGranted(es: seq<Event>): nat {
    if es == [] then 0 else (if es[0].Grow? then es[0].n else 0) + PagesGranted(es[1..])
  }

  ghost function HeldBy(t: Blocks, e: Event): int {
    match e
    case Allocate(_, n) => n as int
    case Deallocate(p, _) => if p in t then 0 - t[p].length else 0
    case _ => 0
  }

  ghost function PagesHeld(t: Blocks, es: seq<Event>): int
    decreases |es|
  {
    if es == [] then 0 else HeldBy(t, es[0]) + PagesHeld(Apply(t, es[0]), es[1..])
  }

  lemma FreedThenReleased(t: Blocks, p: nat, ps: seq<nat>)
    requires Tiled(t) && Coalesced(t) && p in t && t[p].location == InUse
    ensures var t' := ReleasedAll(Freed(t, p, OnNormal), ps);
      && Tiled(t') && Coalesced(t') && TotalPages(t') == TotalPages(t)
      && Total(t', InUse) == Total(t, InUse) - t[p].length
  {
    hide Tiled, Coalesced, Total, Freed, ReleasedAll;
    FreedTiled(t, p, OnNormal);
    FreedCoalesced(t, p, OnNormal);
    FreedTotal(t, p, OnNormal, InUse);
    FreedTotal(t, p, OnNormal, OnNormal);
    FreedTotal(t, p, OnNormal, OnReturned);
    ReleasedAllEffect(Freed(t, p, OnNormal), ps);
  }

  lemma EventEffect(t: Blocks, e: Event)
    requires Tiled(t) && Coalesced(t) && Enabled(t, e)
    ensures var t' := Apply(t, e);
      && Tiled(t') && Coalesced(t')
      && TotalPages(t') == TotalPages(t) + (if e.Grow? then e.n else 0)
      && Total(t', InUse) == Total(t, InUse) + HeldBy(t, e)
  {
    hide Tiled, Coalesced, Total, Freed, ReleasedAll, Carved, Cut;
    match e {
      case Allocate(p, n) =>
        CarvedTiled(t, p, n);
        CarvedCoalesced(t, p, n);
        CarvedTotal(t, p, n, InUse);
        CarvedTotal(t, p, n, OnNormal);
        CarvedTotal(t, p, n, OnReturned);
      case Deallocate(p, ps) =>
        FreedThenReleased(t, p, ps);
      case SplitBlock(p, n) =>
        CutTiled(t, p, n);
        CutCoalesced(t, p, n);
        CutTotal(t, p, n, InUse);
        CutTotal(t, p, n, OnNormal);
        CutTotal(t, p, n, OnReturned);
      case Grow(p, n, ps) =>
        AddedEffect(t, p, n);
        AddedTotals(t, p, n);
        FreedThenReleased(Added(t, p, n), p, ps);
      case Release(ps) =>
        ReleasedAllEffect(t, ps);
    }
  }

  lemma CutCoalesced(t: Blocks, p: nat, n: nat)
    requires Tiled(t) && Coalesced(t) && p in t && t[p].location == InUse && 0 < n < t[p].length
    ensures Coalesced(Cut(t, p, n))
  {
    var u := Cut(t, p, n);
    CutTiled(t, p, n);
    forall a, b | a in u && b in u && b == a + u[a].length
      ensures u[a].location == InUse || u[a].location != u[b].location
    {
      if a != p && a != p + n { assert b != p + n; }
    }
  }

  lemma RelocatedPage(t: Blocks, p: nat, loc: Location, l: Location, x: nat)
    requires Tiled(t) && p in t
    ensures PageAt(Relocate(t, p, loc), l, x) <==> if Covers(t, p, x) then l == loc else PageAt(t, l, x)
  {
    hide Tiled;
    RelocateEffect(t, p, loc);
    if Covers(t, p, x) {
      assert Covers(Relocate(t, p, loc), p, x);
      SoleLocation(Relocate(t, p, loc), p, l, x);
    } else {
      forall q: nat | Covers(t, q, x)
        ensures Covers(Relocate(t, p, loc), q, x) && Relocate(t, p, loc)[q] == t[q]
      {
      }
    }
  }

  /** A carve takes its n pages into use and moves no others. */
  lemma CarvedPage(t: Blocks, p: nat, n: nat, l: Location, x: nat)
    requires Tiled(t) && FreeAt(t, p) && 0 < n <= t[p].length
    ensures PageAt(Carved(t, p, n), l, x) <==> if p <= x < p + n then l == InUse else PageAt(t, l, x)
  {
    hide Tiled, PageAt;
    var u := Relocate(t, p, InUse);
    CarveInSteps(t, p, n);
    RelocateEffect(t, p, InUse);
    RelocatedPage(t, p, InUse, l, x);
    if Covers(t, p, x) {
      SoleLocation(t, p, l, x);
    }
    if n < t[p].length {
      CutPage(u, p, n, l, x);
      CutTiled(u, p, n);
      CutParts(u, p, n);
      RelocatedPage(Cut(u, p, n), p + n, t[p].location, l, x);
    }
  }

  /** The page is free: on a normal list, or on a returned one. */
  ghost predicate FreePage(t: Blocks, x: nat) {
    !PageAt(t, InUse, x) && (PageAt(t, OnNormal, x) || PageAt(t, OnReturned, x))
  }

  lemma FreedAndReleasedPage(t: Blocks, p: nat, ps: seq<nat>, x: nat)
    requires Tiled(t) && Coalesced(t) && p in t
    ensures var t' := ReleasedAll(Freed(t, p, OnNormal), ps);
      if Covers(t, p, x) then FreePage(t', x) else OnlyReleased(t, t', x)
  {
    hide Tiled, Coalesced, PageAt, Freed, ReleasedAll, Covers;
    FreedTiled(t, p, OnNormal);
    FreedCoalesced(t, p, OnNormal);
    FreedPage(t, p, OnNormal, InUse, x);
    FreedPage(t, p, OnNormal, OnNormal, x);
    FreedPage(t, p, OnNormal, OnReturned, x);
    ReleasedAllPages(Freed(t, p, OnNormal), ps, x);
  }

  lemma AddedPage(t: Blocks, p: nat, n: nat, l: Location, x: nat)
    requires Tiled(t) && 0 < p && 0 < n && Unowned(t, p, n)
    ensures PageAt(Added(t, p, n), l, x) <==> if p <= x < p + n then l == InUse else PageAt(t, l, x)
  {
    var t' := Added(t, p, n);
    if p <= x < p + n {
      assert Covers(t', p, x);
    }
    forall q: nat | Covers(t, q, x)
      ensures Covers(t', q, x) && t'[q] == t[q]
    {
    }
  }

  /** What each call means for a single page. */
  lemma EventPages(t: Blocks, e: Event, x: nat)
    requires Tiled(t) && Coalesced(t) && Enabled(t, e)
    ensures var t' := Apply(t, e);
      match e
      case Allocate(p, n) => forall l :: PageAt(t', l, x) <==> if p <= x < p + n then l == InUse else PageAt(t, l, x)
      case Deallocate(p, _) => if Covers(t, p, x) then FreePage(t', x) else OnlyReleased(t, t', x)
      case SplitBlock(_, _) => forall l :: PageAt(t', l, x) <==> PageAt(t, l, x)
      case Grow(p, n, _) => if p <= x < p + n then FreePage(t', x) else OnlyReleased(t, t', x)
      case Release(_) => OnlyReleased(t, t', x)
  {
    hide Tiled, Coalesced, PageAt, Freed, ReleasedAll, Carved, Cut;
    match e {
      case Allocate(p, n) =>
        forall l { CarvedPage(t, p, n, l, x); }
      case Deallocate(p, ps) =>
        FreedAndReleasedPage(t, p, ps, x);
      case SplitBlock(p, n) =>
        forall l { CutPage(t, p, n, l, x); }
      case Grow(p, n, ps) =>
        AddedEffect(t, p, n);
        AddedPage(t, p, n, InUse, x);
        AddedPage(t, p, n, OnNormal, x);
        AddedPage(t, p, n, OnReturned, x);
        FreedAndReleasedPage(Added(t, p, n), p, ps, x);
      case Release(ps) =>
        ReleasedAllPages(t, ps, x);
    }
  }

  /** Over any run the blocks keep tiling the pages without unmerged free neighbours; every
      page granted stays accounted for, and the pages in use are those handed out and not
      given back. */
  lemma {:induction false} RunEffect(t: Blocks, es: seq<Event>)
    requires Tiled(t) && Coalesced(t) && Possible(t, es)
    ensures var t' := Outcome(t, es);
      && Tiled(t') && Coalesced(t')
      && TotalPages(t') == TotalPages(t) + PagesGranted(es)
      && Total(t', InUse) == Total(t, InUse) + PagesHeld(t, es)
    decreases |es|
  {
    hide Tiled, Coalesced, Total, Apply, Enabled;
    if es != [] {
      EventEffect(t, es[0]);
      RunEffect(Apply(t, es[0]), es[1..]);
    }
  }

  ghost predicate GrantedBy(e: Event, x: nat) {
    e.Grow? && e.p <= x < e.p + e.n
  }

  ghost predicate Granted(es: seq<Event>, x: nat) {
    exists i | 0 <= i < |es| :: GrantedBy(es[i], x)
  }

  lemma OwnedSomehow(t: Blocks, x: nat)
    ensures Owned(t, x) <==> PageAt(t, InUse, x) || PageAt(t, OnNormal, x) || PageAt(t, OnReturned, x)
  {
    if Owned(t, x) {
      var p :| Covers(t, p, x);
      assert PageAt(t, t[p].location, x);
    }
  }

  lemma EventOwns(t: Blocks, e: Event, x: nat)
    requires Tiled(t) && Coalesced(t) && Enabled(t, e)
    ensures Owned(Apply(t, e), x) <==> Owned(t, x) || GrantedBy(e, x)
  {
    hide Tiled, Coalesced, PageAt, Apply, Owned;
    EventPages(t, e, x);
    OwnedSomehow(t, x);
    OwnedSomehow(Apply(t, e), x);
    if e.Deallocate? && Covers(t, e.p, x) {
      Covered(t, e.p, x);
    }
    if e.Allocate? && e.p <= x < e.p + e.n {
      assert Covers(t, e.p, x);
      Covered(t, e.p, x);
    }
  }

  lemma Covered(t: Blocks, p: nat, x: nat)
    requires Covers(t, p, x)
    ensures Owned(t, x)
  {
  }

  /** Over any run the heap owns what it owned before and what it has been granted, no more and
      no less. */
  lemma {:induction false} OwnedIsGranted(t: Blocks, es: seq<Event>, x: nat)
    requires Tiled(t) && Coalesced(t) && Possible(t, es)
    ensures Owned(Outcome(t, es), x) <==> Owned(t, x) || Granted(es, x)
    decreases |es|
  {
    hide Tiled, Coalesced, Owned, Apply, Enabled, GrantedBy;
    if es != [] {
      EventEffect(t, es[0]);
      EventOwns(t, es[0], x);
      OwnedIsGranted(Apply(t, es[0]), es[1..], x);
      assert Granted(es, x) <==> GrantedBy(es[0], x) || Granted(es[1..], x) by {
        if i :| 0 <= i < |es| && GrantedBy(es[i], x) {
          assert i > 0 ==> es[1..][i - 1] == es[i];
        }
        if i :| 0 <= i < |es| - 1 && GrantedBy(es[1..][i], x) {
          assert es[i + 1] == es[1..][i];
        }
      }
    }
  }

  /** No page is granted twice in a run from the start. */
  lemma GrantedOnce(es: seq<Event>, p: nat, n: nat, ps: seq<nat>, x: nat)
    requires Possible(map[], es + [Grow(p, n, ps)]) && p <= x < p + n
    ensures !Granted(es, x)
  {
    hide Apply;
    PossibleBefore(map[], es, Grow(p, n, ps));
    OwnedIsGranted(map[], es, x);
    assert !Owned(map[], x);
  }

  lemma {:induction false} PossibleBefore(t: Blocks, es: seq<Event>, e: Event)
    requires Possible(t, es + [e])
    ensures Possible(t, es) && Enabled(Outcome(t, es), e)
    decreases |es|
  {
    hide Apply, Enabled;
    if es != [] {
      assert (es + [e])[1..] == es[1..] + [e];
      PossibleBefore(Apply(t, es[0]), es[1..], e);
    } else {
      assert (es + [e])[0] == e;
    }
  }
}
