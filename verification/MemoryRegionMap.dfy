/** MemoryRegionMap (memory_region_map.h, memory_region_map.cc): an ordered set of the memory
    regions in use, under insertion, subtraction and lookup, with the calls that come back
    from the allocator while the set is being changed. */
module MemoryRegionMap {
  import opened Options

  datatype Region = Region(start: nat, end: nat, callStack: seq<nat>, isStack: bool)

  predicate Has(r: Region, a: nat) {
    r.start <= a < r.end
  }

  predicate Overlaps(r: Region, x: Region) {
    r.start < x.end && r.end > x.start
  }

  predicate Inside(r: Region, x: Region) {
    x.start <= r.start && r.end <= x.end
  }

  /** In the order of their ends, pairwise disjoint, none empty. */
  predicate Ordered(regions: seq<Region>) {
    && (forall i | 0 <= i < |regions| :: regions[i].start < regions[i].end)
    && (forall i, j | 0 <= i < j < |regions| :: regions[i].end <= regions[j].start)
  }

  predicate Covered(regions: seq<Region>, a: nat) {
    exists i :: 0 <= i < |regions| && Has(regions[i], a)
  }

  /** The first region that does not end before key. */
  function LowerBound(regions: seq<Region>, key: nat): (i: nat)
    ensures i <= |regions| && (i < |regions| ==> key <= regions[i].end)
    ensures forall k | 0 <= k < i :: regions[k].end < key
  {
    if regions == [] || key <= regions[0].end then 0 else 1 + LowerBound(regions[1..], key)
  }

  lemma LowerBoundRest(regions: seq<Region>, key: nat, k: nat)
    requires Ordered(regions) && LowerBound(regions, key) <= k < |regions|
    ensures key <= regions[k].end
  {
  }

  /* ---- Insertion ---- */

  /** DoInsertRegionLocked: a region inside a recorded one changes nothing, and the set takes no
      two regions with the same end. */
  function Inserted(regions: seq<Region>, r: Region): seq<Region> {
    var i := LowerBound(regions, r.end);
    if i < |regions| && regions[i].start <= r.start then regions else Added(regions, r)
  }

  /** The test of DoInsertRegionLocked. */
  predicate Contained(regions: seq<Region>, r: Region) {
    var i := LowerBound(regions, r.end);
    i < |regions| && regions[i].start <= r.start
  }

  lemma ContainedStays(regions: seq<Region>, r: Region)
    ensures Contained(regions, r) ==> Inserted(regions, r) == regions
  {
  }

  /** std::set::insert, with the regions in the order of their ends. */
  function Added(regions: seq<Region>, r: Region): seq<Region> {
    var i := LowerBound(regions, r.end);
    if i < |regions| && regions[i].end == r.end then regions else regions[..i] + [r] + regions[i..]
  }

  /** The set has a region with the same end that starts later. */
  predicate Refused(regions: seq<Region>, r: Region) {
    var i := LowerBound(regions, r.end);
    i < |regions| && regions[i].end == r.end && r.start < regions[i].start
  }

  /** What the debug checks of DoInsertRegionLocked demand. */
  predicate Compatible(regions: seq<Region>, r: Region) {
    forall i | 0 <= i < |regions| :: Overlaps(r, regions[i]) ==> Inside(r, regions[i])
  }

  lemma CompatibleNotRefused(regions: seq<Region>, r: Region)
    requires Compatible(regions, r) && Ordered(regions) && r.start < r.end
    ensures !Refused(regions, r)
  {
    var i := LowerBound(regions, r.end);
    if i < |regions| && regions[i].end == r.end && r.start < regions[i].start {
      assert Overlaps(r, regions[i]);
    }
  }

  lemma OrderedInsert(a: seq<Region>, r: Region, b: seq<Region>)
    requires Ordered(a + b) && r.start < r.end
    requires forall k | 0 <= k < |a| :: a[k].end <= r.start
    requires forall k | 0 <= k < |b| :: r.end <= b[k].start
    ensures Ordered(a + [r] + b)
  {
    var all, old', n := a + [r] + b, a + b, |a|;
    assert forall k | 0 <= k < n :: all[k] == old'[k] == a[k];
    assert forall k | n < k < |all| :: all[k] == old'[k - 1] == b[k - n - 1];
    assert all[n] == r;
  }

  lemma InsertedOrdered(regions: seq<Region>, r: Region)
    requires Ordered(regions) && r.start < r.end && Compatible(regions, r)
    ensures Ordered(Inserted(regions, r))
  {
    var i := LowerBound(regions, r.end);
    if !(i < |regions| && regions[i].start <= r.start) {
      assert regions[..i] + regions[i..] == regions;
      CompatibleNotRefused(regions, r);
      forall k | 0 <= k < |regions| - i ensures r.end <= regions[i..][k].start {
        assert regions[i..][k] == regions[i + k] && regions[i].start <= regions[i + k].start;
      }
      OrderedInsert(regions[..i], r, regions[i..]);
    }
  }

  lemma CoveredConcat(x: seq<Region>, y: seq<Region>, a: nat)
    ensures Covered(x + y, a) <==> Covered(x, a) || Covered(y, a)
  {
    if Covered(x, a) {
      var i :| 0 <= i < |x| && Has(x[i], a);
      assert (x + y)[i] == x[i];
    }
    if Covered(y, a) {
      var i :| 0 <= i < |y| && Has(y[i], a);
      assert (x + y)[|x| + i] == y[i];
    }
  }

  lemma CoveredOne(r: Region, a: nat)
    ensures Covered([r], a) <==> Has(r, a)
  {
    assert [r][0] == r;
  }

  /** Compatible or not, the region is covered afterwards unless the set refuses it. */
  lemma InsertedCovers(regions: seq<Region>, r: Region, a: nat)
    requires r.start < r.end
    ensures Covered(Inserted(regions, r), a) <==> Covered(regions, a) || (Has(r, a) && !Refused(regions, r))
  {
    var i := LowerBound(regions, r.end);
    if i < |regions| && regions[i].start <= r.start {
      assert Has(r, a) ==> Has(regions[i], a);
    } else if !Refused(regions, r) {
      assert regions[..i] + regions[i..] == regions;
      CoveredConcat(regions[..i], regions[i..], a);
      CoveredConcat(regions[..i], [r], a);
      CoveredConcat(regions[..i] + [r], regions[i..], a);
      CoveredOne(r, a);
    }
  }

  /* ---- Lookup ---- */

  /** DoFindRegionLocked. */
  function Found(regions: seq<Region>, a: nat): Option<Region> {
    var i := LowerBound(regions, a);
    if i < |regions| && Has(regions[i], a) then Some(regions[i]) else None
  }

  /** The lookup finds the region that has an address, unless another region ends just there:
      then it looks at that one only. */
  lemma FoundExactly(regions: seq<Region>, a: nat, r: Region)
    requires Ordered(regions)
    ensures Found(regions, a) == Some(r) <==>
      r in regions && Has(r, a) && !exists i :: 0 <= i < |regions| && regions[i].end == a
  {
    var i := LowerBound(regions, a);
    if r in regions && Has(r, a) && !exists i :: 0 <= i < |regions| && regions[i].end == a {
      var k :| 0 <= k < |regions| && regions[k] == r;
      LowerBoundIs(regions, a, k);
    }
    if i < |regions| && Has(regions[i], a) {
      forall k | 0 <= k < |regions| ensures regions[k].end != a {
        if k > i {
          LowerBoundRest(regions, a, k);
        }
      }
    }
  }

  lemma LowerBoundIs(regions: seq<Region>, a: nat, k: nat)
    requires Ordered(regions) && k < |regions| && Has(regions[k], a)
    requires !exists i :: 0 <= i < |regions| && regions[i].end == a
    ensures LowerBound(regions, a) == k
  {
    var i := LowerBound(regions, a);
    assert forall j | 0 <= j < k :: regions[j].end <= regions[k].start;
  }

  /** With adjacent regions the first address of the second one is not found. */
  lemma FirstAddressMissed(p: nat, a: nat, q: nat)
    requires p < a < q
    ensures var regions := [Region(p, a, [], false), Region(a, q, [], false)];
      Ordered(regions) && Covered(regions, a) && Found(regions, a) == None
  {
    var regions := [Region(p, a, [], false), Region(a, q, [], false)];
    assert Has(regions[1], a);
  }

  /* ---- Subtraction ---- */

  predicate Straddles(r: Region, s: nat, e: nat) {
    r.start < s && e < r.end
  }

  /** What the set keeps of one region at the end of a subtraction. Of a region cut in two that
      is only the tail; and in a call that comes back from the allocator (deferred), a part
      before the range is not in the set either: it is saved. */
  function Left(r: Region, s: nat, e: nat, deferred: bool): seq<Region> {
    if s <= r.start && r.end <= e then []
    else if Straddles(r, s, e) then [r.(start := e)]
    else if e > r.start && s <= r.start then [r.(start := e)]
    else if s > r.start && s < r.end then if deferred then [] else [r.(end := s)]
    else [r]
  }

  function Subtracted(regions: seq<Region>, s: nat, e: nat, deferred: bool): seq<Region> {
    if regions == [] then []
    else Subtracted(regions[..|regions| - 1], s, e, deferred) + Left(regions[|regions| - 1], s, e, deferred)
  }

  /** The parts that are saved. */
  function Heads(regions: seq<Region>, s: nat, e: nat): seq<Region> {
    if regions == [] then []
    else
      var r := regions[|regions| - 1];
      Heads(regions[..|regions| - 1], s, e) + if r.start < s < r.end then [r.(end := s)] else []
  }

  lemma LeftHas(r: Region, s: nat, e: nat, deferred: bool, a: nat)
    requires s < e && r.start < r.end
    ensures Covered(Left(r, s, e, deferred), a) <==> Has(r, a) && !(s <= a < e) && !HeadLost(r, s, e, deferred, a)
    ensures forall i | 0 <= i < |Left(r, s, e, deferred)| ::
      var x := Left(r, s, e, deferred)[i];
      x.start < x.end && PieceOf(x, r) && !Meets(x, s, e)
    ensures |Left(r, s, e, deferred)| <= 1
  {
    var left := Left(r, s, e, deferred);
    if |left| == 1 {
      assert Covered(left, a) <==> Has(left[0], a);
    }
  }

  predicate PieceOf(x: Region, r: Region) {
    Inside(x, r) && x.callStack == r.callStack && x.isStack == r.isStack
  }

  predicate Stems(x: Region, regions: seq<Region>) {
    exists k :: 0 <= k < |regions| && PieceOf(x, regions[k])
  }

  lemma StemsMore(x: Region, regions: seq<Region>, r: Region)
    ensures Stems(x, regions) ==> Stems(x, regions + [r])
    ensures PieceOf(x, r) ==> Stems(x, regions + [r])
  {
    assert (regions + [r])[|regions|] == r;
    if Stems(x, regions) {
      var k :| 0 <= k < |regions| && PieceOf(x, regions[k]);
      assert (regions + [r])[k] == regions[k];
    }
  }

  predicate Meets(x: Region, s: nat, e: nat) {
    x.start < e && s < x.end
  }

  /** Clear of the range, and every piece a part of a region that was there, with its call
      stack. */
  predicate Clear(all: seq<Region>, regions: seq<Region>, s: nat, e: nat) {
    forall i | 0 <= i < |all| :: !Meets(all[i], s, e) && Stems(all[i], regions)
  }

  lemma {:induction false} SubtractedOrdered(regions: seq<Region>, s: nat, e: nat, deferred: bool)
    requires Ordered(regions) && s < e
    ensures Ordered(Subtracted(regions, s, e, deferred)) && Clear(Subtracted(regions, s, e, deferred), regions, s, e)
  {
    hide Left, Stems, PieceOf, Meets, Clear, Ordered;
    if regions == [] {
      NothingLeft(s, e);
    } else {
      var n := |regions| - 1;
      var front, r := regions[..n], regions[n];
      var rest, last := Subtracted(front, s, e, deferred), Left(r, s, e, deferred);
      assert front + [r] == regions;
      FrontOrdered(front, r);
      SubtractedOrdered(front, s, e, deferred);
      ClearMore(rest, front, r, s, e);
      LeftAtEnd(rest, regions, r, s, e, deferred);
    }
  }

  lemma NothingLeft(s: nat, e: nat)
    ensures Ordered([]) && Clear([], [], s, e)
  {
  }

  lemma FrontOrdered(front: seq<Region>, r: Region)
    requires Ordered(front + [r])
    ensures Ordered(front) && r.start < r.end
  {
    assert (front + [r])[|front|] == r;
    assert forall k | 0 <= k < |front| :: (front + [r])[k] == front[k];
  }

  lemma ClearMore(rest: seq<Region>, front: seq<Region>, r: Region, s: nat, e: nat)
    requires Ordered(front + [r]) && Clear(rest, front, s, e)
    ensures Clear(rest, front + [r], s, e) && Stems(r, front + [r])
    ensures forall i | 0 <= i < |rest| :: rest[i].end <= r.start
  {
    hide Meets, PieceOf;
    forall i | 0 <= i < |rest| ensures Stems(rest[i], front + [r]) && rest[i].end <= r.start {
      StemsMore(rest[i], front, r);
      EndsBefore(rest[i], front, r);
    }
    PieceOfItself(r);
    StemsMore(r, front, r);
  }

  lemma PieceOfItself(r: Region)
    ensures PieceOf(r, r)
  {
  }

  lemma EndsBefore(x: Region, front: seq<Region>, r: Region)
    requires Ordered(front + [r]) && Stems(x, front)
    ensures x.end <= r.start
  {
    assert (front + [r])[|front|] == r;
    assert forall k | 0 <= k < |front| :: (front + [r])[k] == front[k];
  }

  lemma LeftAtEnd(rest: seq<Region>, regions: seq<Region>, r: Region, s: nat, e: nat, deferred: bool)
    requires s < e && r.start < r.end && Ordered(rest) && Clear(rest, regions, s, e) && Stems(r, regions)
    requires forall i | 0 <= i < |rest| :: rest[i].end <= r.start
    ensures Ordered(rest + Left(r, s, e, deferred)) && Clear(rest + Left(r, s, e, deferred), regions, s, e)
  {
    hide Meets, PieceOf, Left;
    var last := Left(r, s, e, deferred);
    LeftHas(r, s, e, deferred, 0);
    if last == [] {
      assert rest + last == rest;
    } else {
      assert last == [last[0]];
      PieceStems(last[0], r, regions);
      PieceInside(last[0], r);
      AtEnd(rest, last[0]);
    }
  }

  lemma PieceInside(x: Region, r: Region)
    requires PieceOf(x, r)
    ensures Inside(x, r)
  {
  }

  lemma PieceStems(x: Region, r: Region, regions: seq<Region>)
    requires PieceOf(x, r) && Stems(r, regions)
    ensures Stems(x, regions)
  {
    var k :| 0 <= k < |regions| && PieceOf(r, regions[k]);
    assert PieceOf(x, regions[k]);
  }

  lemma AtEnd(front: seq<Region>, r: Region)
    requires Ordered(front) && r.start < r.end && forall k | 0 <= k < |front| :: front[k].end <= r.start
    ensures Ordered(front + [r])
  {
    assert front + [] == front && front + [r] + [] == front + [r];
    OrderedInsert(front, r, []);
  }

  /** The part of a region before the range is gone from the set when the range is in its
      middle, or when it was only saved. */
  predicate HeadLost(r: Region, s: nat, e: nat, deferred: bool, a: nat) {
    r.start < s < r.end && (e < r.end || deferred) && r.start <= a < s
  }

  predicate Lost(regions: seq<Region>, s: nat, e: nat, deferred: bool, a: nat) {
    exists i :: 0 <= i < |regions| && HeadLost(regions[i], s, e, deferred, a)
  }

  lemma LostConcat(regions: seq<Region>, r: Region, s: nat, e: nat, deferred: bool, a: nat)
    ensures Lost(regions + [r], s, e, deferred, a) <==>
      Lost(regions, s, e, deferred, a) || HeadLost(r, s, e, deferred, a)
  {
    assert (regions + [r])[|regions|] == r;
    if Lost(regions, s, e, deferred, a) {
      var k :| 0 <= k < |regions| && HeadLost(regions[k], s, e, deferred, a);
      assert (regions + [r])[k] == regions[k];
    }
  }

  lemma NothingCovered(s: nat, e: nat, deferred: bool, a: nat)
    ensures !Covered([], a) && !Lost([], s, e, deferred, a)
  {
  }

  /** What is covered afterwards, exactly. */
  lemma {:induction false} SubtractedCovers(regions: seq<Region>, s: nat, e: nat, deferred: bool, a: nat)
    requires Ordered(regions) && s < e
    ensures Covered(Subtracted(regions, s, e, deferred), a) <==>
      Covered(regions, a) && !(s <= a < e) && !Lost(regions, s, e, deferred, a)
  {
    hide Left, Covered, Lost, HeadLost, Has;
    if regions == [] {
      NothingCovered(s, e, deferred, a);
    } else {
      var n := |regions| - 1;
      var front, r := regions[..n], regions[n];
      SubtractedCovers(front, s, e, deferred, a);
      LeftHas(r, s, e, deferred, a);
      CoveredConcat(Subtracted(front, s, e, deferred), Left(r, s, e, deferred), a);
      assert front + [r] == regions;
      CoveredConcat(front, [r], a);
      CoveredOne(r, a);
      LostConcat(front, r, s, e, deferred, a);
      Apart(front, r, s, e, deferred, a);
    }
  }

  lemma Apart(front: seq<Region>, r: Region, s: nat, e: nat, deferred: bool, a: nat)
    requires Ordered(front + [r]) && s < e
    ensures Covered(front, a) ==> !Has(r, a) && !HeadLost(r, s, e, deferred, a)
    ensures Has(r, a) ==> !Lost(front, s, e, deferred, a)
  {
    assert (front + [r])[|front|] == r;
    assert forall k | 0 <= k < |front| :: (front + [r])[k] == front[k] && front[k].end <= r.start;
    if Has(r, a) {
      forall k | 0 <= k < |front| ensures !HeadLost(front[k], s, e, deferred, a) {
        assert front[k].end <= r.start;
      }
    }
  }

  /** The subtraction is complete and exact if and only if no single region has the range
      strictly inside. */
  lemma ExactUnlessStraddled(regions: seq<Region>, s: nat, e: nat)
    requires Ordered(regions) && s < e
    ensures (forall a: nat :: Covered(Subtracted(regions, s, e, false), a) <==> Covered(regions, a) && !(s <= a < e))
      <==> !exists i :: 0 <= i < |regions| && Straddles(regions[i], s, e)
  {
    forall a: nat
      ensures Covered(Subtracted(regions, s, e, false), a) <==>
        Covered(regions, a) && !(s <= a < e) && !Lost(regions, s, e, false, a)
    {
      SubtractedCovers(regions, s, e, false, a);
    }
    if i :| 0 <= i < |regions| && Straddles(regions[i], s, e) {
      var a := regions[i].start;
      assert HeadLost(regions[i], s, e, false, a) && Has(regions[i], a);
      assert Covered(regions, a) && Lost(regions, s, e, false, a);
    }
  }

  lemma LowerBoundAt(regions: seq<Region>, key: nat, k: nat)
    requires Ordered(regions) && k < |regions| && key <= regions[k].end
    requires forall j | 0 <= j < k :: regions[j].end < key
    ensures LowerBound(regions, key) == k
  {
  }

  /** Why the head is lost: it is inserted before the tail is cut, so it lies inside a recorded
      region. */
  lemma HeadDropped(regions: seq<Region>, k: nat, s: nat, e: nat)
    requires Ordered(regions) && k < |regions| && Straddles(regions[k], s, e) && s < e
    ensures Inserted(regions, regions[k].(end := s)) == regions
  {
    LowerBoundAt(regions, s, k);
  }

  /** In the other order both pieces stay. */
  lemma HeadKept(regions: seq<Region>, k: nat, s: nat, e: nat)
    requires Ordered(regions) && k < |regions| && Straddles(regions[k], s, e) && s < e
    ensures var head, tail := regions[k].(end := s), regions[k].(start := e);
      && Inserted(regions[k := tail], head) == regions[..k] + [head] + ([tail] + regions[k + 1..])
      && Ordered(Inserted(regions[k := tail], head))
  {
    hide Inserted;
    var r, front, back := regions[k], regions[..k], regions[k + 1..];
    var head, tail := r.(end := s), r.(start := e);
    assert regions == front + [r] + back && regions[k := tail] == front + ([tail] + back);
    assert front + [tail] + back == front + ([tail] + back);
    Neighbours(front, r, back);
    ReplacedOrdered(front, r, back, [tail]);
    InsertAt(front, [tail] + back, head);
    Neighbours(front, tail, back);
    OrderedInsert(front, head, [tail] + back);
  }

  lemma Neighbours(a: seq<Region>, r: Region, b: seq<Region>)
    requires Ordered(a + [r] + b)
    ensures r.start < r.end && (forall i | 0 <= i < |a| :: a[i].end <= r.start)
    ensures forall i | 0 <= i < |b| :: r.end <= b[i].start < b[i].end
  {
    var all, n := a + [r] + b, |a|;
    assert all[n] == r;
    assert forall i | 0 <= i < n :: all[i] == a[i];
    assert forall i | 0 <= i < |b| :: all[n + 1 + i] == b[i];
  }

  /** Between those before it and those after it. */
  lemma InsertAt(a: seq<Region>, b: seq<Region>, head: Region)
    requires head.start < head.end && forall i | 0 <= i < |a| :: a[i].end <= head.start
    requires b != [] ==> head.end <= b[0].start < b[0].end
    ensures Inserted(a + b, head) == a + [head] + b
  {
    var all := a + b;
    assert forall i | 0 <= i < |a| :: all[i] == a[i];
    if b != [] {
      assert all[|a|] == b[0];
    }
    assert LowerBound(all, head.end) == |a|;
    assert all[..|a|] == a && all[|a|..] == b;
  }

  /** Nothing but the range is then taken away. */
  lemma HeadKeptCovers(regions: seq<Region>, k: nat, s: nat, e: nat, a: nat)
    requires Ordered(regions) && k < |regions| && Straddles(regions[k], s, e) && s < e
    ensures var all := Inserted(regions[k := regions[k].(start := e)], regions[k].(end := s));
      Covered(all, a) <==> Covered(regions, a) && !(s <= a < e)
  {
    hide Ordered, Inserted, Covered;
    var r := regions[k];
    var head, tail := r.(end := s), r.(start := e);
    var front, back := regions[..k], regions[k + 1..];
    HeadKept(regions, k, s, e);
    assert regions == front + ([r] + back);
    CoveredConcat(front, [r] + back, a);
    CoveredConcat([r], back, a);
    CoveredConcat(front + [head], [tail] + back, a);
    CoveredConcat(front, [head], a);
    CoveredConcat([tail], back, a);
    CoveredOne(r, a);
    CoveredOne(head, a);
    CoveredOne(tail, a);
    if s <= a < e {
      Elsewhere(regions, k, s, e, a);
    }
  }

  lemma Elsewhere(regions: seq<Region>, k: nat, s: nat, e: nat, a: nat)
    requires Ordered(regions) && k < |regions| && Straddles(regions[k], s, e) && s <= a < e
    ensures !Covered(regions[..k], a) && !Covered(regions[k + 1..], a)
  {
    var back := regions[k + 1..];
    assert forall i | 0 <= i < |back| :: back[i] == regions[k + 1 + i];
  }

  /* ---- Regions that come up while one is being inserted ---- */

  /** Nothing overlaps. */
  predicate Separate(list: seq<Region>) {
    && (forall i | 0 <= i < |list| :: list[i].start < list[i].end)
    && (forall i, j | 0 <= i < j < |list| :: !Overlaps(list[i], list[j]))
  }

  predicate Fit(regions: seq<Region>, list: seq<Region>) {
    forall i | 0 <= i < |list| :: Compatible(regions, list[i])
  }

  function Flat(nested: seq<seq<Region>>): seq<Region> {
    if nested == [] then [] else nested[0] + Flat(nested[1..])
  }

  /** Regions and those still to be inserted. */
  predicate Ready(regions: seq<Region>, waiting: seq<Region>) {
    Ordered(regions) && Separate(waiting) && Fit(regions, waiting)
  }

  predicate InEither(regions: seq<Region>, waiting: seq<Region>, a: nat) {
    Covered(regions, a) || Covered(waiting, a)
  }

  /** Recorded and saved regions have nothing in common. */
  predicate Disjoint(regions: seq<Region>, saved: seq<Region>) {
    && Ordered(regions) && Separate(saved)
    && forall i, j | 0 <= i < |regions| && 0 <= j < |saved| :: !Overlaps(regions[i], saved[j])
  }

  /** No address is lost or made up, and no region either when nothing overlaps. */
  ghost predicate Keeps(regions: seq<Region>, waiting: seq<Region>, regions': seq<Region>, waiting': seq<Region>) {
    && (forall a: nat :: InEither(regions', waiting', a) <==> InEither(regions, waiting, a))
    && (Disjoint(regions, waiting) ==> Disjoint(regions', waiting'))
    && (Disjoint(regions, waiting) ==>
          multiset(regions') + multiset(waiting') == multiset(regions) + multiset(waiting))
  }

  /** The regions that have not come up yet are some of those that come up. */
  predicate PartOf(later: seq<seq<Region>>, nested: seq<seq<Region>>) {
    multiset(Flat(later)) <= multiset(Flat(nested))
  }

  /** Those that have come up. */
  function Used(nested: seq<seq<Region>>, later: seq<seq<Region>>): multiset<Region> {
    multiset(Flat(nested)) - multiset(Flat(later))
  }

  lemma PartOfItself(nested: seq<seq<Region>>)
    ensures PartOf(nested, nested)
  {
  }

  lemma PartOfThen(nested: seq<seq<Region>>, mid: seq<seq<Region>>, later: seq<seq<Region>>)
    requires PartOf(mid, nested) && PartOf(later, mid)
    ensures PartOf(later, nested)
  {
  }

  lemma UsedNone(nested: seq<seq<Region>>)
    ensures Used(nested, nested) == multiset{}
  {
  }

  lemma UsedThen(nested: seq<seq<Region>>, mid: seq<seq<Region>>, later: seq<seq<Region>>)
    requires PartOf(mid, nested) && PartOf(later, mid)
    ensures Used(nested, later) == Used(nested, mid) + Used(mid, later)
  {
  }

  lemma NothingFlat()
    ensures Flat([]) == []
  {
  }

  lemma UsedNext(nested: seq<seq<Region>>)
    requires nested != []
    ensures PartOf(nested[1..], nested) && Flat(nested) == nested[0] + Flat(nested[1..])
  {
  }

  lemma UsedAmong(nested: seq<seq<Region>>, later: seq<seq<Region>>)
    requires PartOf(later, nested)
    ensures forall x | x in Used(nested, later) :: x in Flat(nested)
  {
  }

  lemma KeepsSame(regions: seq<Region>, waiting: seq<Region>)
    ensures Keeps(regions, waiting, regions, waiting)
  {
  }

  lemma KeepsThen(r0: seq<Region>, w0: seq<Region>, r1: seq<Region>, w1: seq<Region>, r2: seq<Region>, w2: seq<Region>)
    requires Keeps(r0, w0, r1, w1) && Keeps(r1, w1, r2, w2)
    ensures Keeps(r0, w0, r2, w2)
  {
    hide InEither, Disjoint;
  }

  lemma InsertOneReady(regions: seq<Region>, x: seq<Region>, r: Region, y: seq<Region>)
    requires Ready(regions, x + [r] + y)
    ensures Ready(Inserted(regions, r), x + y) && Keeps(regions, x + [r] + y, Inserted(regions, r), x + y)
  {
    hide Keeps, Inserted, Compatible, Ordered;
    var all := x + [r] + y;
    assert all[|x|] == r;
    InsertedOrdered(regions, r);
    SeparateWithout(x, r, y);
    forall i | 0 <= i < |x + y| ensures Compatible(Inserted(regions, r), (x + y)[i]) {
      assert (x + y)[i] in all && !Overlaps((x + y)[i], r);
      StillCompatible(regions, r, (x + y)[i]);
    }
    InsertOneKeeps(regions, x, r, y);
  }

  lemma SeparateWithout(x: seq<Region>, r: Region, y: seq<Region>)
    requires Separate(x + [r] + y)
    ensures Separate(x + y) && r.start < r.end
    ensures forall i | 0 <= i < |x + y| :: (x + y)[i] in x + [r] + y && !Overlaps((x + y)[i], r)
  {
    var all, rest, n := x + [r] + y, x + y, |x|;
    assert all[n] == r;
    assert forall i | 0 <= i < n :: all[i] == rest[i];
    assert forall i | n <= i < |rest| :: all[i + 1] == rest[i];
  }

  lemma InsertOneKeeps(regions: seq<Region>, x: seq<Region>, r: Region, y: seq<Region>)
    requires r.start < r.end && Compatible(regions, r) && Ordered(regions)
    ensures Keeps(regions, x + [r] + y, Inserted(regions, r), x + y)
  {
    hide Inserted, Compatible, Ordered, Disjoint;
    var all, rest := x + [r] + y, x + y;
    CompatibleNotRefused(regions, r);
    forall a: nat ensures InEither(Inserted(regions, r), rest, a) <==> InEither(regions, all, a) {
      InsertedCovers(regions, r, a);
      CoveredConcat(x, [r], a);
      CoveredConcat(x + [r], y, a);
      CoveredConcat(x, y, a);
      CoveredOne(r, a);
    }
    if Disjoint(regions, all) {
      InsertOneDisjoint(regions, x, r, y);
    }
  }

  lemma InsertOneDisjoint(regions: seq<Region>, x: seq<Region>, r: Region, y: seq<Region>)
    requires Disjoint(regions, x + [r] + y)
    ensures Disjoint(Inserted(regions, r), x + y)
    ensures multiset(Inserted(regions, r)) + multiset(x + y) == multiset(regions) + multiset(x + [r] + y)
  {
    hide Inserted, Ordered, Separate, Overlaps;
    var all, rest, grown := x + [r] + y, x + y, Inserted(regions, r);
    assert all[|x|] == r;
    SeparateWithout(x, r, y);
    DisjointFits(regions, all, r);
    InsertedOrdered(regions, r);
    InsertedNew(regions, r);
    forall i, j | 0 <= i < |grown| && 0 <= j < |rest| ensures !Overlaps(grown[i], rest[j]) {
      assert grown[i] in multiset(grown) && rest[j] in all;
      OverlapsBoth(r, rest[j]);
    }
  }

  lemma OverlapsBoth(r: Region, x: Region)
    ensures Overlaps(r, x) == Overlaps(x, r)
  {
  }

  lemma DisjointFits(regions: seq<Region>, all: seq<Region>, r: Region)
    requires Disjoint(regions, all) && r in all
    ensures Compatible(regions, r) && r.start < r.end
    ensures forall i | 0 <= i < |regions| :: !Overlaps(regions[i], r)
  {
    hide Ordered;
  }

  lemma InsertedNew(regions: seq<Region>, r: Region)
    requires Ordered(regions) && r.start < r.end && forall i | 0 <= i < |regions| :: !Overlaps(regions[i], r)
    ensures multiset(Inserted(regions, r)) == multiset(regions) + multiset{r}
  {
    hide Inserted, Ordered, Overlaps;
    var i := LowerBound(regions, r.end);
    InsertedAt(regions, r);
    assert regions == regions[..i] + regions[i..];
  }

  lemma InsertedAt(regions: seq<Region>, r: Region)
    requires Ordered(regions) && r.start < r.end && forall i | 0 <= i < |regions| :: !Overlaps(regions[i], r)
    ensures var i := LowerBound(regions, r.end); Inserted(regions, r) == regions[..i] + [r] + regions[i..]
  {
    hide Ordered, LowerBound;
    var i := LowerBound(regions, r.end);
    if i < |regions| {
      NotEmpty(regions, i);
      assert !Overlaps(regions[i], r);
    }
  }

  lemma NotEmpty(regions: seq<Region>, i: nat)
    requires Ordered(regions) && i < |regions|
    ensures regions[i].start < regions[i].end
  {
  }

  lemma FlatFirst(nested: seq<seq<Region>>)
    requires nested != []
    ensures Flat(nested) == nested[0] + Flat(nested[1..])
  {
  }

  lemma InsertNextReady(regions: seq<Region>, x: seq<Region>, r: Region, y: seq<Region>, z: seq<Region>)
    requires Ready(regions, x + [r] + y + z)
    ensures Ready(regions, x) && Ready(Inserted(regions, r), x) && Ready(Inserted(regions, r), x + y + z)
    ensures Keeps(regions, x + [r] + y + z, Inserted(regions, r), x + y + z)
  {
    hide Ready, Inserted, Keeps;
    assert x + [r] + y + z == x + [r] + (y + z) == x + ([r] + (y + z));
    assert x + y + z == x + (y + z);
    InsertOneReady(regions, x, r, y + z);
    Prefix(regions, x, [r] + (y + z));
    Prefix(Inserted(regions, r), x, y + z);
  }

  lemma StillCompatible(regions: seq<Region>, r: Region, x: Region)
    requires Compatible(regions, x) && !Overlaps(x, r)
    ensures Compatible(Inserted(regions, r), x)
  {
    var i, all := LowerBound(regions, r.end), Inserted(regions, r);
    if all != regions {
      assert all[i] == r;
      assert forall k | 0 <= k < i :: all[k] == regions[k];
      assert forall k | i < k < |all| :: all[k] == regions[k - 1];
    }
  }

  /* ---- Regions that are removed ---- */

  lemma DisjointReady(regions: seq<Region>, saved: seq<Region>)
    requires Disjoint(regions, saved)
    ensures Ready(regions, saved)
  {
  }

  /** One region in the middle is replaced by a part of it, or by none, and another part, or
      none, is saved. */
  predicate Parts(r: Region, mid: seq<Region>, head: seq<Region>) {
    && |mid| <= 1 && |head| <= 1
    && (mid != [] ==> Inside(mid[0], r) && mid[0].start < mid[0].end)
    && (head != [] ==> Inside(head[0], r) && head[0].start < head[0].end)
    && (mid != [] && head != [] ==> !Overlaps(mid[0], head[0]))
  }

  lemma ReplacedOrdered(a: seq<Region>, r: Region, b: seq<Region>, mid: seq<Region>)
    requires Ordered(a + [r] + b) && Parts(r, mid, [])
    ensures Ordered(a + mid + b)
    ensures forall i | 0 <= i < |a + mid + b| ::
      ((a + mid + b)[i] in mid || (a + mid + b)[i].end <= r.start || r.end <= (a + mid + b)[i].start)
      && ((a + mid + b)[i] in mid || (a + mid + b)[i] in a + [r] + b)
  {
    var all, all', n, d := a + [r] + b, a + mid + b, |a|, 1 - |mid|;
    assert all[n] == r;
    assert forall i | 0 <= i < n :: all'[i] == all[i] && all[i].end <= r.start;
    assert forall i | n + |mid| <= i < |all'| :: all'[i] == all[i + d] && r.end <= all[i + d].start;
    if mid != [] {
      assert all'[n] == mid[0];
    }
  }

  lemma Replaced(a: seq<Region>, r: Region, b: seq<Region>, saved: seq<Region>, mid: seq<Region>, head: seq<Region>)
    requires Disjoint(a + [r] + b, saved) && Parts(r, mid, head)
    ensures Disjoint(a + mid + b, saved + head)
  {
    hide Ordered;
    var all, all', n := a + [r] + b, a + mid + b, |a|;
    assert all[n] == r;
    ReplacedOrdered(a, r, b, mid);
    forall i, j | 0 <= i < |all'| && 0 <= j < |saved + head| ensures !Overlaps(all'[i], (saved + head)[j]) {
      var x, y := all'[i], (saved + head)[j];
      if j < |saved| {
        assert y == saved[j] && !Overlaps(r, y);
        if x !in mid {
          var k :| 0 <= k < |all| && all[k] == x;
          assert !Overlaps(all[k], y);
        }
      }
    }
  }

  /** The part before the range fits while its region is still recorded whole. */
  lemma HeadReady(a: seq<Region>, r: Region, b: seq<Region>, saved: seq<Region>, head: Region)
    requires Disjoint(a + [r] + b, saved) && Inside(head, r) && head.start < head.end
    ensures Ready(a + [r] + b, saved + [head])
  {
    var all, n := a + [r] + b, |a|;
    assert all[n] == r;
    forall i | 0 <= i < |all| ensures Overlaps(head, all[i]) ==> Inside(head, all[i]) {
      assert i < n ==> all[i].end <= r.start;
      assert i > n ==> r.end <= all[i].start;
    }
  }

  lemma HeadContained(a: seq<Region>, r: Region, b: seq<Region>, head: Region)
    requires Ordered(a + [r] + b) && head.start == r.start && head.start < head.end <= r.end
    ensures Contained(a + [r] + b, head)
  {
    var all, n := a + [r] + b, |a|;
    assert all[n] == r;
    LowerBoundAt(all, head.end, n);
  }

  lemma LeftStays(r: Region, s: nat, e: nat, deferred: bool)
    requires r.start < r.end && s < e && (r.end < s || e <= r.start)
    ensures Left(r, s, e, deferred) == [r] && !(r.start < s < r.end)
  {
  }

  predicate AllBefore(regions: seq<Region>, s: nat) {
    forall i | 0 <= i < |regions| :: regions[i].start < regions[i].end < s
  }

  /** Regions that end before the range, or start after it, stay. */
  lemma {:induction false} StaysBefore(regions: seq<Region>, s: nat, e: nat, deferred: bool)
    requires s < e && AllBefore(regions, s)
    ensures Subtracted(regions, s, e, deferred) == regions && Heads(regions, s, e) == []
  {
    hide Left;
    if regions != [] {
      var n := |regions| - 1;
      StaysBefore(regions[..n], s, e, deferred);
      LeftStays(regions[n], s, e, deferred);
      assert regions[..n] + [regions[n]] == regions;
    }
  }

  lemma {:induction false} StaysAfter(front: seq<Region>, regions: seq<Region>, s: nat, e: nat, deferred: bool)
    requires s < e && forall i | 0 <= i < |regions| :: e <= regions[i].start < regions[i].end
    ensures Subtracted(front + regions, s, e, deferred) == Subtracted(front, s, e, deferred) + regions
    ensures Heads(front + regions, s, e) == Heads(front, s, e)
  {
    hide Left;
    if regions == [] {
      assert front + regions == front;
    } else {
      var all, n := front + regions, |regions| - 1;
      assert all[..|all| - 1] == front + regions[..n] && all[|all| - 1] == regions[n];
      StaysAfter(front, regions[..n], s, e, deferred);
      LeftStays(regions[n], s, e, deferred);
      assert regions[..n] + [regions[n]] == regions;
    }
  }

  /** What one region adds to the saved ones. */
  function SavedPart(r: Region, s: nat, deferred: bool): seq<Region> {
    if deferred && r.start < s < r.end then [r.(end := s)] else []
  }

  /** With the saved parts nothing but the range is gone. */
  lemma {:induction false} DeferredCovers(regions: seq<Region>, s: nat, e: nat, a: nat)
    requires Ordered(regions) && s < e
    ensures InEither(Subtracted(regions, s, e, true), Heads(regions, s, e), a) <==> Covered(regions, a) && !(s <= a < e)
  {
    hide Left, Covered;
    if regions == [] {
      NothingCovered(s, e, true, a);
    } else {
      var n := |regions| - 1;
      var front, r := regions[..n], regions[n];
      var head := if r.start < s < r.end then [r.(end := s)] else [];
      DeferredCovers(front, s, e, a);
      LeftHas(r, s, e, true, a);
      CoveredConcat(Subtracted(front, s, e, true), Left(r, s, e, true), a);
      CoveredConcat(Heads(front, s, e), head, a);
      assert front + [r] == regions;
      CoveredConcat(front, [r], a);
      CoveredOne(r, a);
      CoveredOne(r.(end := s), a);
      NothingCovered(s, e, true, a);
    }
  }

  /** The saved regions other than the one that is removed. */
  function Others(saved: seq<Region>, s: nat, e: nat): seq<Region> {
    if saved == [] then []
    else
      var r := saved[|saved| - 1];
      Others(saved[..|saved| - 1], s, e) + if r.start == s && r.end == e then [] else [r]
  }

  /** What is not covered any more: the range, and the heads that are lost. */
  lemma RemovalMeans(regions: seq<Region>, s: nat, e: nat, deferred: bool)
    requires Ordered(regions) && s < e
    ensures forall a: nat ::
      Covered(Subtracted(regions, s, e, deferred), a) <==> Covered(regions, a) && !(s <= a < e) && !exists i ::
        && 0 <= i < |regions| && regions[i].start <= a < s < regions[i].end && (e < regions[i].end || deferred)
  {
    hide Covered, Subtracted, Ordered;
    forall a: nat
      ensures Covered(Subtracted(regions, s, e, deferred), a) <==> Covered(regions, a) && !(s <= a < e) && !exists i ::
        && 0 <= i < |regions| && regions[i].start <= a < s < regions[i].end && (e < regions[i].end || deferred)
    {
      SubtractedCovers(regions, s, e, deferred, a);
      assert forall i | 0 <= i < |regions| :: HeadLost(regions[i], s, e, deferred, a) <==>
        regions[i].start <= a < s < regions[i].end && (e < regions[i].end || deferred);
    }
  }

  /** What is saved: all but the region that is removed, and the heads. */
  lemma SavedMeans(regions: seq<Region>, saved: seq<Region>, s: nat, e: nat)
    ensures forall x :: x in Others(saved, s, e) <==> x in saved && !(x.start == s && x.end == e)
    ensures forall x :: x in Heads(regions, s, e) <==>
      exists i :: 0 <= i < |regions| && regions[i].start < s < regions[i].end && x == regions[i].(end := s)
  {
    forall x: Region
      ensures x in Others(saved, s, e) <==> x in saved && !(x.start == s && x.end == e)
      ensures x in Heads(regions, s, e) <==>
        exists i :: 0 <= i < |regions| && regions[i].start < s < regions[i].end && x == regions[i].(end := s)
    {
      InOthers(saved, s, e, x);
      InHeads(regions, s, e, x);
    }
  }

  lemma {:induction false} InOthers(saved: seq<Region>, s: nat, e: nat, x: Region)
    ensures x in Others(saved, s, e) <==> x in saved && !(x.start == s && x.end == e)
  {
    if saved != [] {
      var n := |saved| - 1;
      InOthers(saved[..n], s, e, x);
      assert saved == saved[..n] + [saved[n]];
    }
  }

  lemma {:induction false} InHeads(regions: seq<Region>, s: nat, e: nat, x: Region)
    ensures x in Heads(regions, s, e) <==>
      exists i :: 0 <= i < |regions| && regions[i].start < s < regions[i].end && x == regions[i].(end := s)
  {
    if regions != [] {
      var n := |regions| - 1;
      InHeads(regions[..n], s, e, x);
      assert forall i | 0 <= i < n :: regions[..n][i] == regions[i];
    }
  }

  const MAX_SAVED: nat := 20

  class MemoryRegionMap {
    var regions: seq<Region>
    var created: bool
    const savedRegions: array<Region>
    var savedRegionsCount: nat
    var recursiveInsert: bool
    var mapSize: int
    var unmapSize: int

    ghost predicate Valid()
      reads this, savedRegions
    {
      && savedRegions.Length == MAX_SAVED && savedRegionsCount <= MAX_SAVED
      && (!created ==> regions == []) && Ready(regions, Saved())
    }

    ghost function Saved(): seq<Region>
      reads this, savedRegions
    {
      if savedRegionsCount <= savedRegions.Length then savedRegions[..savedRegionsCount] else []
    }

    constructor ()
      ensures Valid() && regions == [] && Saved() == [] && !recursiveInsert && mapSize == 0 && unmapSize == 0
      ensures savedRegions.Length == 20
    {
      regions, created := [], false;
      savedRegions := new Region[MAX_SAVED](_ => Region(0, 0, [], false));
      savedRegionsCount, recursiveInsert := 0, false;
      mapSize, unmapSize := 0, 0;
    }

    /** FindRegion, apart from the lock. */
    method FindRegion(address: nat) returns (r: Option<Region>)
      requires Valid()
      ensures r == Found(regions, address)
    {
      if !created {
        return None;
      }
      var i := LowerBound(regions, address);
      if i < |regions| && regions[i].start <= address && address < regions[i].end {
        return Some(regions[i]);
      }
      return None;
    }

    /** A call from the allocator while a region is being inserted. */
    method Save(region: Region)
      requires savedRegionsCount < savedRegions.Length
      modifies this`savedRegionsCount, savedRegions
      ensures savedRegionsCount == old(savedRegionsCount) + 1 && Saved() == old(Saved()) + [region]
    {
      savedRegions[savedRegionsCount] := region;
      savedRegionsCount := savedRegionsCount + 1;
    }

    /** DoInsertRegionLocked. If it really inserts, the allocator maps the regions nested[0]
        meanwhile, which are saved. */
    method DoInsertRegionLocked(region: Region, nested: seq<seq<Region>>, ghost waiting: seq<Region>)
      returns (later: seq<seq<Region>>)
      requires recursiveInsert && created && Valid()
      requires Ready(regions, Saved() + [region] + Flat(nested) + waiting)
      requires savedRegionsCount + |Flat(nested)| <= MAX_SAVED
      modifies this`regions, this`savedRegionsCount, savedRegions
      ensures Valid() && regions == Inserted(old(regions), region)
      ensures Saved() + Flat(later) == old(Saved()) + Flat(nested)
      ensures Ready(regions, Saved() + Flat(later) + waiting) && savedRegionsCount + |Flat(later)| <= MAX_SAVED
      ensures old(Contained(regions, region)) ==> later == nested
      ensures PartOf(later, nested)
    {
      hide Ready, PartOf, Keeps, Flat;
      InsertNextReady(regions, Saved(), region, Flat(nested), waiting);
      PartOfItself(nested);
      var i := LowerBound(regions, region.end);
      if i < |regions| && regions[i].start <= region.start {
        return nested;
      }
      regions := Added(regions, region);
      later := SaveNext(nested);
      assert Saved() + Flat(later) + waiting == Saved() + (Flat(later) + waiting);
      Prefix(regions, Saved(), Flat(later) + waiting);
    }

    /** What the allocator maps during one call comes back and is saved. */
    method SaveNext(nested: seq<seq<Region>>) returns (later: seq<seq<Region>>)
      requires savedRegions.Length == MAX_SAVED && savedRegionsCount + |Flat(nested)| <= MAX_SAVED
      modifies this`savedRegionsCount, savedRegions
      ensures savedRegionsCount + |Flat(later)| <= MAX_SAVED && PartOf(later, nested)
      ensures Saved() + Flat(later) == old(Saved()) + Flat(nested) && (nested == [] ==> later == [])
    {
      hide PartOf, Flat;
      PartOfItself(nested);
      later := nested;
      if nested != [] {
        ghost var before := Saved();
        later := nested[1..];
        UsedNext(nested);
        FlatFirst(nested);
        var k := 0;
        while k < |nested[0]|
          invariant k <= |nested[0]| && savedRegionsCount == |before| + k && savedRegionsCount <= MAX_SAVED
          invariant Saved() == before + nested[0][..k]
        {
          Save(nested[0][k]);
          assert nested[0][..k + 1] == nested[0][..k] + [nested[0][k]];
          k := k + 1;
        }
        assert nested[0][..k] == nested[0];
        assert before + nested[0] + Flat(later) == before + Flat(nested);
      }
    }

    /** HandleSavedRegionsLocked: the last one saved is inserted first. The region that is to be
        inserted after them, if any, still fits. */
    method HandleSavedRegionsLocked(nested: seq<seq<Region>>, ghost waiting: seq<Region>)
      returns (later: seq<seq<Region>>)
      requires recursiveInsert && created && Valid() && Ready(regions, Saved() + Flat(nested) + waiting)
      requires savedRegionsCount + |Flat(nested)| <= MAX_SAVED
      modifies this`regions, this`savedRegionsCount, savedRegions
      ensures Valid() && Saved() == [] && Ready(regions, Flat(later) + waiting)
      ensures old(Saved()) == [] ==> regions == old(regions) && later == nested
      ensures |Flat(later)| <= old(savedRegionsCount) + |Flat(nested)|
      ensures PartOf(later, nested)
      ensures Keeps(old(regions), old(Saved()) + Flat(nested) + waiting, regions, Flat(later) + waiting)
    {
      hide Ready, Inserted, Keeps, Contained, PartOf, Flat, InEither;
      ghost var all, waits := regions, Saved() + Flat(nested) + waiting;
      KeepsSame(all, waits);
      PartOfItself(nested);
      later := nested;
      while savedRegionsCount > 0
        invariant Valid() && Ready(regions, Saved() + Flat(later) + waiting)
        invariant savedRegionsCount + |Flat(later)| <= old(savedRegionsCount) + |Flat(nested)|
        invariant Keeps(all, waits, regions, Saved() + Flat(later) + waiting)
        invariant PartOf(later, nested)
        invariant old(Saved()) == [] ==> regions == old(regions) && savedRegionsCount == 0 && later == nested
        decreases savedRegionsCount + |Flat(later)|
      {
        ghost var now, saved, before, next := regions, Saved(), later, Flat(later);
        savedRegionsCount := savedRegionsCount - 1;
        var r := savedRegions[savedRegionsCount];
        assert saved == Saved() + [r];
        InsertNextReady(regions, Saved(), r, next, waiting);
        later := DoInsertRegionLocked(r, later, waiting);
        KeepsThen(all, waits, now, saved + next + waiting, regions, Saved() + Flat(later) + waiting);
        PartOfThen(nested, before, later);
      }
      assert Saved() + Flat(later) + waiting == Flat(later) + waiting;
    }

    /** The first insertion constructs the set; the regions that are mapped meanwhile are in it
        before any other. */
    method Create(nested: seq<seq<Region>>, ghost region: Region) returns (later: seq<seq<Region>>)
      requires !recursiveInsert && !created && Valid() && Ready(regions, Saved() + [region] + Flat(nested))
      requires savedRegionsCount + |Flat(nested)| < MAX_SAVED
      modifies this`regions, this`savedRegionsCount, this`created, this`recursiveInsert, savedRegions
      ensures Valid() && created && !recursiveInsert && Ready(regions, [region] + Flat(later)) && Saved() == []
      ensures |Flat(later)| < MAX_SAVED && PartOf(later, nested)
      ensures old(Saved()) == [] && nested == [] ==> regions == [] && later == []
      ensures Keeps(old(regions), old(Saved()) + [region] + Flat(nested), regions, [region] + Flat(later))
    {
      hide Ready, Keeps, PartOf, Flat, InEither;
      created, recursiveInsert := true, true;
      NothingFlat();
      ghost var all, waits := regions, Saved() + [region] + Flat(nested);
      Swap(regions, Saved(), region, Flat(nested));
      later := SaveNext(nested);
      assert Saved() + Flat(later) + [region] == Saved() + (Flat(later) + [region]);
      Prefix(regions, Saved(), Flat(later) + [region]);
      ghost var waits', next := Saved() + Flat(later) + [region], later;
      later := HandleSavedRegionsLocked(later, [region]);
      PartOfThen(nested, next, later);
      recursiveInsert := false;
      assert Flat(later) + [region] == [] + Flat(later) + [region];
      assert [region] + Flat(later) == [] + [region] + Flat(later);
      Swap(regions, [], region, Flat(later));
      KeepsThen(all, waits, all, waits', regions, Flat(later) + [region]);
      KeepsThen(all, waits, regions, Flat(later) + [region], regions, [region] + Flat(later));
    }

    /** InsertRegionLocked: in a call that comes back from the allocator the region is saved. */
    method InsertRegionLocked(region: Region, nested: seq<seq<Region>>) returns (later: seq<seq<Region>>)
      requires Valid() && Ready(regions, Saved() + [region] + Flat(nested))
      requires savedRegionsCount + |Flat(nested)| < 20
      modifies this`regions, this`savedRegionsCount, this`created, this`recursiveInsert, savedRegions
      ensures Valid() && recursiveInsert == old(recursiveInsert)
      ensures recursiveInsert ==> regions == old(regions) && Saved() == old(Saved()) + [region] && later == nested
      ensures recursiveInsert ==> created == old(created)
      ensures !recursiveInsert ==> Saved() == [] && created
      ensures PartOf(later, nested)
      ensures !recursiveInsert ==> Keeps(old(regions), old(Saved()) + [region] + Flat(nested), regions, Flat(later))
      ensures !recursiveInsert && old(Saved()) == [] && nested == [] ==> regions == old(Inserted(regions, region))
      ensures !recursiveInsert && old(created && Saved() == [] && Contained(regions, region)) ==>
        regions == old(regions) && later == nested
    {
      hide Ready, Inserted, Keeps, Contained, PartOf, Flat, InEither;
      ghost var all, waits := regions, Saved() + [region] + Flat(nested);
      PartOfItself(nested);
      later := nested;
      if recursiveInsert {
        Prefix(regions, Saved() + [region], Flat(nested));
        Save(region);
        return;
      }
      KeepsSame(all, waits);
      if !created {
        later := Create(nested, region);
        assert Saved() + [region] + Flat(later) == [region] + Flat(later);
      }
      ghost var next := later;
      later := InsertFresh(region, later, all, waits);
      PartOfThen(nested, next, later);
    }

    /** The part of InsertRegionLocked once the set is there. */
    method InsertFresh(region: Region, nested: seq<seq<Region>>, ghost all: seq<Region>, ghost waits: seq<Region>)
      returns (later: seq<seq<Region>>)
      requires Valid() && created && !recursiveInsert && Ready(regions, Saved() + [region] + Flat(nested))
      requires Keeps(all, waits, regions, Saved() + [region] + Flat(nested))
      requires savedRegionsCount + |Flat(nested)| < MAX_SAVED
      modifies this`regions, this`savedRegionsCount, this`recursiveInsert, savedRegions
      ensures Valid() && !recursiveInsert && Saved() == [] && Keeps(all, waits, regions, Flat(later))
      ensures PartOf(later, nested)
      ensures old(Saved()) == [] && nested == [] ==> regions == old(Inserted(regions, region))
      ensures old(Saved()) == [] && old(Contained(regions, region)) ==> regions == old(regions) && later == nested
    {
      hide Ready, Inserted, Keeps, Contained, PartOf, Flat, InEither;
      NothingFlat();
      ghost var now, before, next := regions, Saved(), Flat(nested);
      InsertOneReady(now, before, region, next);
      ContainedStays(now, region);
      assert before + [region] + next + [] == before + [region] + next;
      recursiveInsert := true;
      later := DoInsertRegionLocked(region, nested, []);
      ghost var mid := later;
      ghost var waits' := Saved() + Flat(later) + [];
      assert waits' == before + next && (waits' == [] ==> Saved() == []);
      ghost var now' := regions;
      later := HandleSavedRegionsLocked(later, []);
      assert Flat(later) + [] == Flat(later);
      PartOfThen(nested, mid, later);
      recursiveInsert := false;
      KeepsThen(all, waits, now, before + [region] + next, now', waits');
      KeepsThen(all, waits, now', waits', regions, Flat(later));
    }

    /** RecordRegionAddition, apart from the lock and the call stack. */
    method RecordRegionAddition(region: Region, nested: seq<seq<Region>>) returns (later: seq<seq<Region>>)
      requires Valid() && Ready(regions, Saved() + [region] + Flat(nested))
      requires savedRegionsCount + |Flat(nested)| < 20
      modifies this, savedRegions
      ensures Valid() && recursiveInsert == old(recursiveInsert)
      ensures recursiveInsert ==> regions == old(regions) && Saved() == old(Saved()) + [region]
      ensures !recursiveInsert ==> Saved() == []
      ensures !recursiveInsert ==> Keeps(old(regions), old(Saved()) + [region] + Flat(nested), regions, Flat(later))
      ensures mapSize == old(mapSize) + (region.end - region.start) && unmapSize == old(unmapSize)
    {
      mapSize := mapSize + (region.end - region.start);
      later := InsertRegionLocked(region, nested);
    }

    /** One round of the loop of RecordRegionRemoval, for the region at pos. While a part of it
        is inserted the allocator may map regions; next is the place of the region that came
        after it. */
    method Subtract(pos: nat, s: nat, e: nat, nested: seq<seq<Region>>)
      returns (next: nat, later: seq<seq<Region>>)
      requires created && savedRegions.Length == MAX_SAVED && savedRegionsCount <= MAX_SAVED
      requires pos < |regions| && regions[pos].start < s ==> savedRegionsCount + |Flat(nested)| < MAX_SAVED
      requires Disjoint(regions, Saved() + Flat(nested)) && pos < |regions| && s < e
      requires Turn(recursiveInsert, Saved(), nested)
      modifies this`regions, this`savedRegionsCount, this`created, this`recursiveInsert, savedRegions
      ensures created && savedRegionsCount <= MAX_SAVED && recursiveInsert == old(recursiveInsert)
      ensures Moved(old(regions), pos, old(Left(regions[pos], s, e, recursiveInsert)), regions, next,
                    Used(nested, later))
      ensures PartOf(later, nested)
      ensures Saved() == old(Saved()) + old(SavedPart(regions[pos], s, recursiveInsert))
      ensures Disjoint(regions, Saved() + Flat(later)) && Turn(recursiveInsert, Saved(), later)
    {
      hide Ready, Inserted, Disjoint, InEither, SavedPart, Moved, Keeps, PartOf, Used, Flat;
      UsedNone(nested);
      PartOfItself(nested);
      ghost var all := regions;
      var r, front, back := regions[pos], regions[..pos], regions[pos + 1..];
      ghost var others := Saved() + Flat(nested);
      later := nested;
      assert regions == front + [r] + back;
      Nonempty(front, r, back, others);
      NoPart(r, s, recursiveInsert);
      assert others + [] == others && Saved() + [] == Saved();
      if r.start < s && e < r.end {
        later := CutMiddle(pos, s, e, nested);
        return pos + 1, later;
      } else if s > r.start && s < r.end {
        next, later := CutEnd(pos, s, e, nested);
        return;
      }
      ghost var left := Left(r, s, e, recursiveInsert);
      next := pos + 1;
      if s <= r.start && r.end <= e {
        Replaced(front, r, back, others, [], []);
        assert front + [] + back == front + back;
        regions := front + back;
        next := pos;
      } else if e > r.start && s <= r.start {
        Replaced(front, r, back, others, [r.(start := e)], []);
        regions := regions[pos := r.(start := e)];
        assert regions == front + [r.(start := e)] + back;
      }
      MovedInPlace(all, pos, left, others);
    }

    /** The part before the range is inserted, or saved, before the rest is cut. */
    method CutMiddle(pos: nat, s: nat, e: nat, nested: seq<seq<Region>>) returns (later: seq<seq<Region>>)
      requires created && savedRegions.Length == MAX_SAVED && savedRegionsCount + |Flat(nested)| < MAX_SAVED
      requires Disjoint(regions, Saved() + Flat(nested)) && pos < |regions| && s < e
      requires Turn(recursiveInsert, Saved(), nested) && Straddles(regions[pos], s, e)
      modifies this`regions, this`savedRegionsCount, this`created, this`recursiveInsert, savedRegions
      ensures created && savedRegionsCount <= MAX_SAVED && recursiveInsert == old(recursiveInsert) && later == nested
      ensures Moved(old(regions), pos, old(Left(regions[pos], s, e, recursiveInsert)), regions, pos + 1, multiset{})
      ensures Saved() == old(Saved()) + old(SavedPart(regions[pos], s, recursiveInsert))
      ensures Disjoint(regions, Saved() + Flat(later)) && Turn(recursiveInsert, Saved(), later)
    {
      hide Ready, Inserted, Disjoint, InEither, Moved, Keeps, Contained, PartOf, Used, Flat;
      ghost var all, others := regions, Saved() + Flat(nested);
      var r, front, back := regions[pos], regions[..pos], regions[pos + 1..];
      var head, tail := r.(end := s), r.(start := e);
      assert regions == front + [r] + back;
      HeadReady(front, r, back, others, head);
      Swap(regions, Saved(), head, Flat(nested));
      DisjointReady(regions, Saved() + Flat(nested));
      Prefix(regions, Saved(), Flat(nested));
      DisjointOrdered(regions, others);
      HeadContained(front, r, back, head);
      Replaced(front, r, back, others, [tail], SavedPart(r, s, recursiveInsert));
      NothingFlat();
      later := InsertRegionLocked(head, nested);
      regions := regions[pos := tail];
      assert regions == front + [tail] + back;
      assert Saved() + Flat(later) == others + SavedPart(r, s, recursiveInsert);
      MovedInPlace(all, pos, [tail], Saved() + Flat(later));
    }

    /** The region is erased, and what is before the range is inserted or saved. */
    method CutEnd(pos: nat, s: nat, e: nat, nested: seq<seq<Region>>)
      returns (next: nat, later: seq<seq<Region>>)
      requires created && savedRegions.Length == MAX_SAVED && savedRegionsCount + |Flat(nested)| < MAX_SAVED
      requires Disjoint(regions, Saved() + Flat(nested)) && pos < |regions| && s < e
      requires Turn(recursiveInsert, Saved(), nested) && regions[pos].start < s < regions[pos].end <= e
      modifies this`regions, this`savedRegionsCount, this`created, this`recursiveInsert, savedRegions
      ensures created && savedRegionsCount <= MAX_SAVED && recursiveInsert == old(recursiveInsert)
      ensures Moved(old(regions), pos, old(Left(regions[pos], s, e, recursiveInsert)), regions, next,
                    Used(nested, later))
      ensures PartOf(later, nested)
      ensures Saved() == old(Saved()) + old(SavedPart(regions[pos], s, recursiveInsert))
      ensures Disjoint(regions, Saved() + Flat(later)) && Turn(recursiveInsert, Saved(), later)
    {
      hide Ready, Inserted, Disjoint, InEither, Moved, Keeps, Contained, PartOf, Used, Flat;
      ghost var all, others := regions, Saved() + Flat(nested);
      var r, front, back := regions[pos], regions[..pos], regions[pos + 1..];
      var head := r.(end := s);
      assert regions == front + [r] + back && front + [] + back == front + back;
      Replaced(front, r, back, others, [], [head]);
      Swap(front + back, Saved(), head, Flat(nested));
      Replaced(front, r, back, others, [], []);
      assert others + [] == others;
      regions := front + back;
      DisjointReady(regions, Saved() + [head] + Flat(nested));
      DisjointReady(regions, others);
      Prefix(regions, Saved(), Flat(nested));
      ghost var waits := Saved() + [head] + Flat(nested);
      later := InsertRegionLocked(head, nested);
      next := if back == [] then |regions| else if recursiveInsert then pos else LowerBound(regions, back[0].end);
      if recursiveInsert {
        assert Saved() + Flat(later) == waits;
        UsedNone(nested);
      PartOfItself(nested);
        MovedInPlace(all, pos, [], waits);
      } else {
        assert waits == [head] + Flat(nested) && Saved() + Flat(later) == Flat(later);
        MovedAway(all, pos, head, regions, nested, later);
      }
    }

    /** The saved regions without those that are just this range, moved up in place. */
    method DropSaved(s: nat, e: nat)
      requires savedRegions.Length == MAX_SAVED && savedRegionsCount <= MAX_SAVED
      modifies this`savedRegionsCount, savedRegions
      ensures savedRegionsCount <= MAX_SAVED && Saved() == old(Others(Saved(), s, e))
      ensures savedRegionsCount <= old(savedRegionsCount)
    {
      ghost var saved := Saved();
      var putPos, i, oldCount := 0, 0, savedRegionsCount;
      while i < oldCount
        invariant putPos <= i <= oldCount && savedRegionsCount == oldCount - (i - putPos)
        invariant savedRegions[..putPos] == Others(saved[..i], s, e)
        invariant savedRegions[i..oldCount] == saved[i..]
      {
        var r := savedRegions[i];
        assert saved[..i + 1][..i] == saved[..i] && r == saved[i];
        assert savedRegions[i + 1..oldCount] == saved[i..][1..] == saved[i + 1..];
        if r.start == s && r.end == e {
          savedRegionsCount := savedRegionsCount - 1;
        } else {
          if putPos < i {
            savedRegions[putPos] := savedRegions[i];
          }
          putPos := putPos + 1;
        }
        i := i + 1;
      }
      assert saved[..i] == saved;
    }

    /** RecordRegionRemoval, apart from the lock. Between calls that do not come back from the
        allocator nothing is saved, so there is nothing to insert first. What the allocator maps
        meanwhile is not in the range, which is still in use. */
    method RecordRegionRemoval(s: nat, size: nat, nested: seq<seq<Region>>) returns (later: seq<seq<Region>>)
      requires Valid() && size > 0 && Disjoint(regions, Saved() + Flat(nested))
      requires savedRegionsCount + |Flat(nested)| < 20 && Turn(recursiveInsert, Saved(), nested)
      requires forall x | x in Flat(nested) :: !Meets(x, s, s + size)
      modifies this, savedRegions
      ensures Valid() && recursiveInsert == old(recursiveInsert) && Disjoint(regions, Saved() + Flat(later))
      ensures PartOf(later, nested)
      ensures multiset(regions) ==
        multiset(old(Subtracted(regions, s, s + size, recursiveInsert))) + Used(nested, later)
      ensures nested == [] ==> regions == old(Subtracted(regions, s, s + size, recursiveInsert))
      ensures Saved() ==
        old(Others(Saved(), s, s + size)) + old(if recursiveInsert then Heads(regions, s, s + size) else [])
      ensures unmapSize == old(unmapSize) + (if old(created) then size else 0) && mapSize == old(mapSize)
      ensures nested == [] ==> forall a: nat ::
        Covered(regions, a) <==> Covered(old(regions), a) && !(s <= a < s + size) && !exists i ::
          && 0 <= i < |old(regions)| && old(regions)[i].start <= a < s < old(regions)[i].end
          && (s + size < old(regions)[i].end || recursiveInsert)
      ensures forall x :: x in Saved() <==>
        || (x in old(Saved()) && !(x.start == s && x.end == s + size))
        || (recursiveInsert && exists i ::
              0 <= i < |old(regions)| && old(regions)[i].start < s < old(regions)[i].end &&
              x == old(regions)[i].(end := s))
    {
      hide Ready, Disjoint, Left, Others, Heads, SavedPart, Subtracted, PartOf, Used, Flat, Covered, Ordered;
      var e := s + size;
      DisjointOrdered(regions, Saved() + Flat(nested));
      ghost var before, wasSaved := regions, Saved();
      UsedNone(nested);
      PartOfItself(nested);
      NothingSubtracted(s, e, recursiveInsert);
      ghost var saved := Others(Saved(), s, e);
      OthersDisjoint(regions, Saved(), Flat(nested), s, e);
      NoOthers(s, e);
      later := nested;
      if recursiveInsert {
        DropSaved(s, e);
      }
      assert saved + [] == saved;
      DisjointReady(regions, Saved() + Flat(later));
      Prefix(regions, Saved(), Flat(later));
      if created {
        later := SubtractAll(s, e, nested);
        DisjointReady(regions, Saved() + Flat(later));
        Prefix(regions, Saved(), Flat(later));
        unmapSize := unmapSize + size;
      }
      RemovalMeans(before, s, e, recursiveInsert);
      SavedMeans(before, wasSaved, s, e);
    }

    /** The loop over the regions that may overlap the range. */
    method SubtractAll(s: nat, e: nat, nested: seq<seq<Region>>) returns (later: seq<seq<Region>>)
      requires created && savedRegions.Length == MAX_SAVED && savedRegionsCount + |Flat(nested)| < MAX_SAVED && s < e
      requires Disjoint(regions, Saved() + Flat(nested)) && Turn(recursiveInsert, Saved(), nested)
      requires forall x | x in Flat(nested) :: !Meets(x, s, e)
      modifies this`regions, this`savedRegionsCount, this`created, this`recursiveInsert, savedRegions
      ensures created && savedRegionsCount <= MAX_SAVED && recursiveInsert == old(recursiveInsert)
      ensures PartOf(later, nested)
      ensures multiset(regions) == multiset(old(Subtracted(regions, s, e, recursiveInsert))) + Used(nested, later)
      ensures nested == [] ==> regions == old(Subtracted(regions, s, e, recursiveInsert))
      ensures Saved() == old(Saved()) + old(if recursiveInsert then Heads(regions, s, e) else [])
      ensures Disjoint(regions, Saved() + Flat(later)) && Turn(recursiveInsert, Saved(), later)
    {
      hide Ready, Disjoint, Left, Heads, SavedPart, Subtracted, Halfway, Moved, Meets, PartOf, Used, Flat, Ordered,
        Turn;
      ghost var all, saved := regions, Saved();
      DisjointOrdered(all, saved + Flat(nested));
      UsedNone(nested);
      PartOfItself(nested);
      var pos: nat := LowerBound(regions, s);
      ghost var k: nat := pos;
      later := nested;
      HalfwayStarts(all, saved, s, e, recursiveInsert);
      while pos < |regions| && regions[pos].start < e
        invariant created && recursiveInsert == old(recursiveInsert) && LowerBound(all, s) <= k <= |all|
        invariant PartOf(later, nested) && savedRegionsCount <= MAX_SAVED
        invariant Halfway(all, regions, saved, Saved(), Used(nested, later), k, pos, s, e, recursiveInsert)
        invariant Disjoint(regions, Saved() + Flat(later)) && Turn(recursiveInsert, Saved(), later)
        invariant k == LowerBound(all, s) ==> savedRegionsCount + |Flat(later)| < MAX_SAVED
        decreases |all| - k
      {
        ghost var now, nowSaved, was, mid := regions, Saved(), pos, later;
        HalfwayReads(all, now, saved, nowSaved, Used(nested, mid), k, pos, s, e, recursiveInsert);
        pos, later := Subtract(pos, s, e, later);
        HalfwayNext(all, now, regions, saved, nowSaved, Saved(), nested, mid, later, k, was, pos, s, e,
                    recursiveInsert);
        k := k + 1;
      }
      HalfwayEnds(all, regions, saved, Saved(), Used(nested, later), k, pos, s, e, recursiveInsert);
      NothingMapped(all, regions, nested, later, s, e, recursiveInsert);
    }
  }

  /** Between calls nothing is saved, and a call that comes back maps nothing itself. */
  predicate Turn(recursive: bool, saved: seq<Region>, nested: seq<seq<Region>>) {
    if recursive then nested == [] else saved == []
  }

  lemma NothingUsed(later: seq<seq<Region>>)
    ensures Used([], later) == multiset{}
  {
  }

  /** Regions in order are determined by which they are. */
  lemma {:induction false} OrderIsUnique(a: seq<Region>, b: seq<Region>)
    requires Ordered(a) && Ordered(b) && multiset(a) == multiset(b)
    ensures a == b
  {
    hide Ordered;
    assert |a| == |multiset(a)| == |b|;
    if a != [] {
      assert a[0] in multiset(b) && b[0] in multiset(a);
      FirstIsLeast(a, b[0]);
      FirstIsLeast(b, a[0]);
      WithoutFirst(a, b);
      OrderIsUnique(a[1..], b[1..]);
    }
  }

  lemma WithoutFirst(a: seq<Region>, b: seq<Region>)
    requires a != [] && b != [] && a[0] == b[0] && multiset(a) == multiset(b)
    ensures multiset(a[1..]) == multiset(b[1..])
  {
    assert a == [a[0]] + a[1..] && b == [b[0]] + b[1..];
    assert multiset(a[1..]) == multiset(a) - multiset{a[0]} && multiset(b[1..]) == multiset(b) - multiset{a[0]};
  }

  lemma FirstIsLeast(a: seq<Region>, x: Region)
    requires Ordered(a) && x in a
    ensures a[0].start <= x.start && (x == a[0] || a[0].start < x.start) && Ordered(a[1..])
  {
  }

  predicate Holds(now: seq<Region>, kept: seq<Region>, added: multiset<Region>) {
    multiset(now) == multiset(kept) + added
  }

  /** In the place of one region there is what is left of it, and fresh regions are in their
      places; next is where the region after it is now. */
  ghost predicate Moved(now: seq<Region>, pos: nat, left: seq<Region>, now': seq<Region>, next: nat,
                        added: multiset<Region>) {
    && pos < |now| && Ordered(now') && next <= |now'|
    && Holds(now', now[..pos] + left + now[pos + 1..], added)
    && (pos + 1 < |now| ==> next < |now'| && now'[next] == now[pos + 1])
    && (pos + 1 == |now| ==> next == |now'|)
  }

  lemma MovedInPlace(now: seq<Region>, pos: nat, left: seq<Region>, others: seq<Region>)
    requires pos < |now| && Disjoint(now[..pos] + left + now[pos + 1..], others)
    ensures Moved(now, pos, left, now[..pos] + left + now[pos + 1..], pos + |left|, multiset{})
  {
  }

  lemma MovedAway(now: seq<Region>, pos: nat, head: Region, now': seq<Region>,
                  nested: seq<seq<Region>>, later: seq<seq<Region>>)
    requires pos < |now| && PartOf(later, nested)
    requires Disjoint(now[..pos] + now[pos + 1..], [head] + Flat(nested))
    requires Keeps(now[..pos] + now[pos + 1..], [head] + Flat(nested), now', Flat(later))
    ensures Disjoint(now', Flat(later))
    ensures Moved(now, pos, [head], now',
      if pos + 1 == |now| then |now'| else LowerBound(now', now[pos + 1].end), Used(nested, later))
  {
    hide Ordered, Disjoint, Flat, Holds, Keeps, PartOf, Used;
    var front, back := now[..pos], now[pos + 1..];
    HeldAway(front, head, back, now', nested, later);
    DisjointOrdered(now', Flat(later));
    if back != [] {
      assert back[0] in back;
      PlaceOf(now', back[0]);
    }
  }

  lemma HeldAway(front: seq<Region>, head: Region, back: seq<Region>, now': seq<Region>,
                 nested: seq<seq<Region>>, later: seq<seq<Region>>)
    requires PartOf(later, nested) && Disjoint(front + back, [head] + Flat(nested))
    requires Keeps(front + back, [head] + Flat(nested), now', Flat(later))
    ensures Disjoint(now', Flat(later)) && Holds(now', front + [head] + back, Used(nested, later))
    ensures forall x | x in back :: x in now'
  {
    hide InEither, Disjoint, Flat;
    AddedBag(multiset(front), head, multiset(back), multiset(Flat(nested)), multiset(now'), multiset(Flat(later)));
    forall x | x in back ensures x in now' {
      assert x in multiset(back) && x in multiset(now');
    }
  }

  lemma AddedBag(a: multiset<Region>, x: Region, b: multiset<Region>, nested: multiset<Region>,
                 all: multiset<Region>, later: multiset<Region>)
    requires later <= nested && all + later == a + b + (multiset{x} + nested)
    ensures all == a + multiset{x} + b + (nested - later) && b <= all
  {
    forall y: Region ensures all[y] == (a + multiset{x} + b + (nested - later))[y] && b[y] <= all[y] {
      assert (all + later)[y] == (a + b + (multiset{x} + nested))[y];
    }
  }

  lemma PlaceOf(regions: seq<Region>, x: Region)
    requires Ordered(regions) && x in regions
    ensures var i := LowerBound(regions, x.end); i < |regions| && regions[i] == x
  {
    var k :| 0 <= k < |regions| && regions[k] == x;
    assert forall j | 0 <= j < k :: regions[j].end <= regions[k].start;
    LowerBoundAt(regions, x.end, k);
  }

  /** The next region to look at is the one at pos, if any is left that starts before e. */
  predicate At(all: seq<Region>, now: seq<Region>, k: nat, pos: nat, e: nat) {
    if k < |all| && all[k].start < e then pos < |now| && now[pos] == all[k]
    else pos < |now| ==> e <= now[pos].start
  }

  /** The first k regions have been subtracted from; fresh ones have been inserted. */
  ghost predicate Halfway(all: seq<Region>, now: seq<Region>, before: seq<Region>, saved: seq<Region>,
                          added: multiset<Region>, k: nat, pos: nat, s: nat, e: nat, deferred: bool) {
    && Ordered(all) && Ordered(now) && s < e && LowerBound(all, s) <= k <= |all| && At(all, now, k, pos, e)
    && Holds(now, Subtracted(all[..k], s, e, deferred) + all[k..], added)
    && saved == before + if deferred then Heads(all[..k], s, e) else []
  }

  lemma HalfwayStarts(all: seq<Region>, saved: seq<Region>, s: nat, e: nat, deferred: bool)
    requires Ordered(all) && s < e
    ensures Halfway(all, all, saved, saved, multiset{}, LowerBound(all, s), LowerBound(all, s), s, e, deferred)
  {
    hide Subtracted, Heads, Ordered;
    var k := LowerBound(all, s);
    EndBefore(all, s);
    StaysBefore(all[..k], s, e, deferred);
    Joined(all, k);
    assert saved + [] == saved;
  }

  lemma EndBefore(all: seq<Region>, s: nat)
    requires Ordered(all)
    ensures AllBefore(all[..LowerBound(all, s)], s)
  {
  }

  lemma Joined(all: seq<Region>, k: nat)
    requires k <= |all|
    ensures all[..k] + all[k..] == all && |all[..k]| == k
  {
  }

  lemma HalfwayReads(all: seq<Region>, now: seq<Region>, before: seq<Region>, saved: seq<Region>,
                     added: multiset<Region>, k: nat, pos: nat, s: nat, e: nat, deferred: bool)
    requires Halfway(all, now, before, saved, added, k, pos, s, e, deferred) && pos < |now| && now[pos].start < e
    ensures k < |all| && now[pos] == all[k] && (all[k].start < s ==> k == LowerBound(all, s))
  {
    hide Subtracted, Heads;
    if k < |all| {
      StartsWithin(all, s, k);
    }
  }

  lemma HalfwayStep(all: seq<Region>, now: seq<Region>, now': seq<Region>, before: seq<Region>, saved: seq<Region>,
                    saved': seq<Region>, added: multiset<Region>, more: multiset<Region>,
                    k: nat, pos: nat, next: nat, s: nat, e: nat, deferred: bool)
    requires Halfway(all, now, before, saved, added, k, pos, s, e, deferred) && pos < |now| && now[pos].start < e
    requires Moved(now, pos, Left(now[pos], s, e, deferred), now', next, more)
    requires saved' == saved + SavedPart(now[pos], s, deferred)
    requires forall x | x in added :: !Meets(x, s, e)
    ensures Halfway(all, now', before, saved', added + more, k + 1, next, s, e, deferred)
  {
    hide Subtracted, Heads, Left, SavedPart, Ordered, Meets, Holds;
    HalfwayReads(all, now, before, saved, added, k, pos, s, e, deferred);
    HeadsStep(all, k, s, e, deferred);
    SubtractedStep(all, k, s, e, deferred);
    NextInPlace(all, now, added, k, pos, s, e, deferred);
    var done, left := Subtracted(all[..k], s, e, deferred), Left(all[k], s, e, deferred);
    Exchange(now, pos, now', done, all, k, left, added, more);
  }

  lemma HalfwayNext(all: seq<Region>, now: seq<Region>, now': seq<Region>, before: seq<Region>, saved: seq<Region>,
                    saved': seq<Region>, nested: seq<seq<Region>>, mid: seq<seq<Region>>, later: seq<seq<Region>>,
                    k: nat, pos: nat, next: nat, s: nat, e: nat, deferred: bool)
    requires Halfway(all, now, before, saved, Used(nested, mid), k, pos, s, e, deferred)
    requires pos < |now| && now[pos].start < e && PartOf(mid, nested) && PartOf(later, mid)
    requires Moved(now, pos, Left(now[pos], s, e, deferred), now', next, Used(mid, later))
    requires saved' == saved + SavedPart(now[pos], s, deferred)
    requires forall x | x in Flat(nested) :: !Meets(x, s, e)
    ensures Halfway(all, now', before, saved', Used(nested, later), k + 1, next, s, e, deferred)
    ensures PartOf(later, nested)
  {
    hide Halfway, Moved, Left, SavedPart, Meets, Flat, PartOf, Used;
    PartOfThen(nested, mid, later);
    UsedThen(nested, mid, later);
    UsedAmong(nested, mid);
    HalfwayStep(all, now, now', before, saved, saved', Used(nested, mid), Used(mid, later),
                k, pos, next, s, e, deferred);
  }

  lemma NothingMapped(all: seq<Region>, now: seq<Region>, nested: seq<seq<Region>>, later: seq<seq<Region>>,
                      s: nat, e: nat, deferred: bool)
    requires Ordered(all) && Ordered(now) && s < e
    requires multiset(now) == multiset(Subtracted(all, s, e, deferred)) + Used(nested, later)
    ensures nested == [] ==> now == Subtracted(all, s, e, deferred)
  {
    hide Ordered, Clear, Subtracted;
    if nested == [] {
      NothingUsed(later);
      SubtractedOrdered(all, s, e, deferred);
      OrderIsUnique(now, Subtracted(all, s, e, deferred));
    }
  }

  lemma Exchange(now: seq<Region>, pos: nat, now': seq<Region>, done: seq<Region>, all: seq<Region>, k: nat,
                 left: seq<Region>, added: multiset<Region>, more: multiset<Region>)
    requires pos < |now| && k < |all| && now[pos] == all[k]
    requires Holds(now, done + all[k..], added) && Holds(now', now[..pos] + left + now[pos + 1..], more)
    ensures Holds(now', done + left + all[k + 1..], added + more)
  {
    var r, rest := all[k], all[k + 1..];
    assert all[k..] == [r] + rest && now == now[..pos] + [r] + now[pos + 1..];
    ExchangeBags(multiset(now[..pos]), r, multiset(now[pos + 1..]), multiset(done), multiset(rest),
                 multiset(left), added);
  }

  lemma ExchangeBags(a: multiset<Region>, r: Region, b: multiset<Region>, c: multiset<Region>, d: multiset<Region>,
                     left: multiset<Region>, added: multiset<Region>)
    requires a + multiset{r} + b == c + (multiset{r} + d) + added
    ensures a + left + b == c + left + d + added
  {
    forall x: Region ensures (a + left + b)[x] == (c + left + d + added)[x] {
      assert (a + multiset{r} + b)[x] == (c + (multiset{r} + d) + added)[x];
    }
  }

  /** The region after this one is the next of those that were there, or starts behind the
      range. */
  lemma NextInPlace(all: seq<Region>, now: seq<Region>, added: multiset<Region>, k: nat, pos: nat,
                    s: nat, e: nat, deferred: bool)
    requires Ordered(all) && Ordered(now) && s < e && LowerBound(all, s) <= k < |all|
    requires pos < |now| && now[pos] == all[k] && forall x | x in added :: !Meets(x, s, e)
    requires Holds(now, Subtracted(all[..k], s, e, deferred) + all[k..], added)
    ensures if pos + 1 < |now| then At(all, now, k + 1, pos + 1, e) else k + 1 < |all| ==> e <= all[k + 1].start
  {
    hide Subtracted, Meets, Ordered, Holds;
    LowerBoundRest(all, s, k);
    if pos + 1 < |now| {
      NowIsBefore(all, now, added, k, pos, s, e, deferred);
    }
    if k + 1 < |all| {
      NextIsThere(all, now, added, k, pos, s, e, deferred);
      SuffixOrdered(all, k + 1);
      SuffixOrdered(now, pos + 1);
      FirstIsLeast(now[pos + 1..], all[k + 1]);
      if now[pos + 1].start < e {
        FirstIsLeast(all[k + 1..], now[pos + 1]);
      }
    }
  }

  /** What comes after it starts behind the range or was there and comes after it there. */
  lemma NowIsBefore(all: seq<Region>, now: seq<Region>, added: multiset<Region>, k: nat, pos: nat,
                    s: nat, e: nat, deferred: bool)
    requires Ordered(all) && Ordered(now) && s < e && k < |all| && s <= all[k].end
    requires pos + 1 < |now| && now[pos] == all[k] && forall x | x in added :: !Meets(x, s, e)
    requires Holds(now, Subtracted(all[..k], s, e, deferred) + all[k..], added)
    ensures e <= now[pos + 1].start || now[pos + 1] in all[k + 1..]
  {
    hide Subtracted, Meets;
    var done, y := Subtracted(all[..k], s, e, deferred), now[pos + 1];
    DoneBefore(all, k, s, e, deferred);
    assert y in multiset(now) && all[k].end <= y.start < y.end;
    if y in added {
      BehindRange(y, s, e);
    } else {
      assert y in done + all[k..];
      assert all[k..] == [all[k]] + all[k + 1..];
    }
  }

  /** And the next of those that were there comes after it. */
  lemma NextIsThere(all: seq<Region>, now: seq<Region>, added: multiset<Region>, k: nat, pos: nat,
                    s: nat, e: nat, deferred: bool)
    requires Ordered(all) && Ordered(now) && k + 1 < |all| && pos < |now| && now[pos] == all[k]
    requires Holds(now, Subtracted(all[..k], s, e, deferred) + all[k..], added)
    ensures all[k + 1] in now[pos + 1..]
  {
    hide Subtracted;
    var done, z := Subtracted(all[..k], s, e, deferred), all[k + 1];
    assert z == all[k..][1] && z in multiset(done + all[k..]);
    assert z in multiset(now);
    var j :| 0 <= j < |now| && now[j] == z;
    assert all[k].end <= z.start && j > pos;
    assert z == now[pos + 1..][j - pos - 1];
  }

  lemma SuffixOrdered(regions: seq<Region>, k: nat)
    requires Ordered(regions) && k <= |regions|
    ensures Ordered(regions[k..])
  {
  }

  lemma BehindRange(y: Region, s: nat, e: nat)
    requires !Meets(y, s, e) && s < y.end
    ensures e <= y.start
  {
  }

  lemma DoneBefore(all: seq<Region>, k: nat, s: nat, e: nat, deferred: bool)
    requires Ordered(all) && k < |all| && s < e
    ensures forall x | x in Subtracted(all[..k], s, e, deferred) :: x.start < x.end <= all[k].start
  {
    hide Subtracted, Stems, Meets;
    var front, done := all[..k], Subtracted(all[..k], s, e, deferred);
    SubtractedOrdered(front, s, e, deferred);
    forall i | 0 <= i < |done| ensures done[i].end <= all[k].start {
      assert Stems(done[i], front);
      StemEnds(done[i], front, all[k]);
    }
  }

  lemma StemEnds(x: Region, front: seq<Region>, r: Region)
    requires Stems(x, front) && forall i | 0 <= i < |front| :: front[i].end <= r.start
    ensures x.end <= r.start
  {
  }

  lemma SubtractedStep(regions: seq<Region>, k: nat, s: nat, e: nat, deferred: bool)
    requires k < |regions|
    ensures Subtracted(regions[..k + 1], s, e, deferred) ==
      Subtracted(regions[..k], s, e, deferred) + Left(regions[k], s, e, deferred)
  {
    hide Left;
    assert regions[..k + 1][..k] == regions[..k];
  }

  lemma HalfwayEnds(all: seq<Region>, now: seq<Region>, before: seq<Region>, saved: seq<Region>,
                    added: multiset<Region>, k: nat, pos: nat, s: nat, e: nat, deferred: bool)
    requires Halfway(all, now, before, saved, added, k, pos, s, e, deferred)
    requires pos < |now| ==> now[pos].start >= e
    ensures multiset(now) == multiset(Subtracted(all, s, e, deferred)) + added && Ordered(now)
    ensures saved == before + if deferred then Heads(all, s, e) else []
  {
    hide Subtracted, Heads;
    RestStartsAfter(all, k, e);
    StaysAfter(all[..k], all[k..], s, e, deferred);
    assert all[..k] + all[k..] == all;
  }

  /** Only the first region that is looked at can start before the range. */
  lemma StartsWithin(regions: seq<Region>, s: nat, k: nat)
    requires Ordered(regions) && LowerBound(regions, s) <= k < |regions|
    ensures k > LowerBound(regions, s) ==> s <= regions[k].start
  {
    var i := LowerBound(regions, s);
    if i < k {
      assert regions[i].end <= regions[k].start;
    }
  }

  lemma HeadsStep(regions: seq<Region>, k: nat, s: nat, e: nat, deferred: bool)
    requires k < |regions|
    ensures Heads(regions[..k + 1], s, e) == Heads(regions[..k], s, e) + SavedPart(regions[k], s, true)
    ensures SavedPart(regions[k], s, false) == []
    ensures (if deferred then Heads(regions[..k + 1], s, e) else []) ==
      (if deferred then Heads(regions[..k], s, e) else []) + SavedPart(regions[k], s, deferred)
  {
    assert regions[..k + 1][..k] == regions[..k];
  }

  lemma RestStartsAfter(regions: seq<Region>, k: nat, e: nat)
    requires Ordered(regions) && k <= |regions| && (k < |regions| ==> e <= regions[k].start)
    ensures forall i | 0 <= i < |regions[k..]| :: e <= regions[k..][i].start < regions[k..][i].end
  {
    forall i | k <= i < |regions| ensures e <= regions[i].start < regions[i].end {
      if i > k {
        assert regions[k].end <= regions[i].start;
      }
    }
    var rest := regions[k..];
    assert forall i | 0 <= i < |rest| :: rest[i] == regions[k + i];
  }

  lemma NothingSubtracted(s: nat, e: nat, deferred: bool)
    ensures Subtracted([], s, e, deferred) == []
  {
  }

  lemma NoOthers(s: nat, e: nat)
    ensures Others([], s, e) == [] && Heads([], s, e) == []
  {
  }

  lemma {:induction false} OthersAmong(saved: seq<Region>, s: nat, e: nat)
    requires Separate(saved)
    ensures Separate(Others(saved, s, e)) && forall x | x in Others(saved, s, e) :: x in saved
  {
    if saved != [] {
      var n := |saved| - 1;
      OthersAmong(saved[..n], s, e);
      var rest := Others(saved[..n], s, e);
      forall i | 0 <= i < |rest| ensures !Overlaps(rest[i], saved[n]) {
        assert rest[i] in saved[..n];
      }
    }
  }

  lemma OthersDisjoint(regions: seq<Region>, saved: seq<Region>, more: seq<Region>, s: nat, e: nat)
    requires Disjoint(regions, saved + more)
    ensures Disjoint(regions, Others(saved, s, e) + more)
  {
    hide Others, Ordered;
    var rest, all := Others(saved, s, e) + more, saved + more;
    assert forall i | 0 <= i < |saved| :: all[i] == saved[i];
    assert forall i | 0 <= i < |more| :: all[|saved| + i] == more[i];
    OthersAmong(saved, s, e);
    forall j | 0 <= j < |rest| ensures rest[j] in all {
      if j < |Others(saved, s, e)| {
        assert rest[j] in saved;
      }
    }
    forall i, j | 0 <= i < j < |rest| ensures !Overlaps(rest[i], rest[j]) {
      if i < |Others(saved, s, e)| <= j {
        assert rest[i] in saved && rest[j] == more[j - |Others(saved, s, e)|];
        var a :| 0 <= a < |saved| && saved[a] == rest[i];
        assert !Overlaps(all[a], all[|saved| + (j - |Others(saved, s, e)|)]);
      }
    }
  }

  lemma DisjointOrdered(regions: seq<Region>, saved: seq<Region>)
    requires Disjoint(regions, saved)
    ensures Ordered(regions)
  {
  }

  lemma Nonempty(a: seq<Region>, r: Region, b: seq<Region>, saved: seq<Region>)
    requires Disjoint(a + [r] + b, saved)
    ensures r.start < r.end
  {
    assert (a + [r] + b)[|a|] == r;
  }

  lemma NoPart(r: Region, s: nat, deferred: bool)
    ensures !(r.start < s < r.end) ==> SavedPart(r, s, deferred) == []
  {
  }

  /** The order of those that wait does not matter. */
  lemma Swap(regions: seq<Region>, x: seq<Region>, r: Region, y: seq<Region>)
    ensures Ready(regions, x + [r] + y) <==> Ready(regions, x + y + [r])
    ensures Disjoint(regions, x + [r] + y) <==> Disjoint(regions, x + y + [r])
    ensures Keeps(regions, x + [r] + y, regions, x + y + [r]) && Keeps(regions, x + y + [r], regions, x + [r] + y)
  {
    hide Ordered, Covered;
    var all, all', n := x + [r] + y, x + y + [r], |x|;
    assert all[n] == r == all'[|all'| - 1];
    assert forall i | 0 <= i < n :: all[i] == all'[i];
    assert forall i | n < i < |all| :: all[i] == all'[i - 1];
    assert forall i | n <= i < |all'| - 1 :: all'[i] == all[i + 1];
    forall a: nat ensures InEither(regions, all, a) <==> InEither(regions, all', a) {
      CoveredConcat(x, [r], a);
      CoveredConcat(x + [r], y, a);
      CoveredConcat(x, y, a);
      CoveredConcat(x + y, [r], a);
    }
  }

  lemma Prefix(regions: seq<Region>, x: seq<Region>, y: seq<Region>)
    requires Ready(regions, x + y)
    ensures Ready(regions, x)
  {
    var all := x + y;
    assert forall i | 0 <= i < |x| :: all[i] == x[i];
  }
}
