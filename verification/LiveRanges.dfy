/** The filtering of a library's live ranges (IgnoreNonThreadLiveObjectsLocked, heap-checker.cc):
    from global data that may be live, the memory that was mapped by ordinary callers is cut out. */
module LiveRanges {
  import opened Options
  import opened LeakFlood
  import R = MemoryRegionMap

  predicate In(o: AllocObject, a: nat) {
    o.ptr <= a < o.ptr + o.size
  }

  predicate Covered(objects: seq<AllocObject>, a: nat) {
    exists i :: 0 <= i < |objects| && In(objects[i], a)
  }

  /** No two ranges have an address in common. */
  predicate Apart(objects: seq<AllocObject>) {
    forall i, j | 0 <= i < j < |objects| ::
      objects[i].ptr + objects[i].size <= objects[j].ptr || objects[j].ptr + objects[j].size <= objects[i].ptr
  }

  /* ---- Special callers ---- */

  /** Code addresses of a system library, strictly between start and end. */
  datatype CallerRange = CallerRange(start: nat, end: nat)

  /** A map from the ends to the starts, of ranges that do not overlap. */
  predicate RangesOk(ranges: seq<CallerRange>) {
    forall i, j | 0 <= i < j < |ranges| :: ranges[i].end <= ranges[j].start && ranges[i].end < ranges[j].end
  }

  /** The first range that ends after the caller. */
  function UpperBound(ranges: seq<CallerRange>, caller: nat): (i: nat)
    ensures i <= |ranges| && (i < |ranges| ==> caller < ranges[i].end)
    ensures forall k | 0 <= k < i :: ranges[k].end <= caller
  {
    if ranges == [] || caller < ranges[0].end then 0 else 1 + UpperBound(ranges[1..], caller)
  }

  predicate IsSpecial(ranges: seq<CallerRange>, caller: nat) {
    exists i :: 0 <= i < |ranges| && ranges[i].start < caller < ranges[i].end
  }

  /** Looking at one range is enough. */
  lemma OneRangeDecides(ranges: seq<CallerRange>, caller: nat)
    requires RangesOk(ranges)
    ensures var i := UpperBound(ranges, caller);
      IsSpecial(ranges, caller) <==> i < |ranges| && ranges[i].start < caller
  {
    var i := UpperBound(ranges, caller);
    if IsSpecial(ranges, caller) {
      var k :| 0 <= k < |ranges| && ranges[k].start < caller < ranges[k].end;
      assert forall j | 0 <= j < k :: ranges[j].end < caller;
      assert k == i;
    }
  }

  function Caller(r: R.Region): nat {
    if r.callStack == [] then 0 else r.callStack[0]
  }

  /** Stacks are cut out, and what ordinary callers have mapped; without ranges everything is. */
  predicate IsCut(r: R.Region, ranges: Option<seq<CallerRange>>) {
    r.isStack || ranges.None? || Caller(r) == 0 || !IsSpecial(ranges.value, Caller(r))
  }

  /* ---- Cutting ---- */

  /** What is left of a range: two pieces, one or none. */
  ghost predicate IsRest(o: AllocObject, r: R.Region, pieces: seq<AllocObject>) {
    && (forall a: nat :: Covered(pieces, a) <==> In(o, a) && !R.Has(r, a))
    && (forall p | p in pieces :: o.ptr <= p.ptr && p.ptr + p.size <= o.ptr + o.size && p.place == IN_GLOBAL_DATA)
    && Apart(pieces) && |pieces| <= 2
  }

  lemma NoPiece(o: AllocObject, r: R.Region)
    requires forall a: nat | In(o, a) :: R.Has(r, a)
    ensures IsRest(o, r, [])
  {
  }

  lemma OnePiece(o: AllocObject, r: R.Region, p: AllocObject)
    requires forall a: nat :: In(p, a) <==> In(o, a) && !R.Has(r, a)
    requires o.ptr <= p.ptr && p.ptr + p.size <= o.ptr + o.size && p.place == IN_GLOBAL_DATA
    ensures IsRest(o, r, [p])
  {
    forall a: nat
      ensures Covered([p], a) <==> In(o, a) && !R.Has(r, a)
    {
      assert In([p][0], a) ==> Covered([p], a);
    }
  }

  lemma TwoPieces(o: AllocObject, r: R.Region)
    requires o.ptr < r.start <= r.end < o.ptr + o.size
    ensures IsRest(o, r, [AllocObject(o.ptr, r.start - o.ptr, IN_GLOBAL_DATA),
                          AllocObject(r.end, o.ptr + o.size - r.end, IN_GLOBAL_DATA)])
  {
    var pieces := [AllocObject(o.ptr, r.start - o.ptr, IN_GLOBAL_DATA),
                   AllocObject(r.end, o.ptr + o.size - r.end, IN_GLOBAL_DATA)];
    forall a: nat
      ensures Covered(pieces, a) <==> In(o, a) && !R.Has(r, a)
    {
      assert In(pieces[0], a) || In(pieces[1], a) ==> Covered(pieces, a);
    }
  }

  /** One region subtracted from one range. */
  method Cut(o: AllocObject, r: R.Region) returns (pieces: seq<AllocObject>)
    requires r.start < r.end
    ensures IsRest(o, r, pieces)
  {
    hide IsRest;
    var start, end := o.ptr, o.ptr + o.size;
    if r.start <= start && end <= r.end {
      NoPiece(o, r);
      pieces := [];
    } else if start < r.start && r.end < end {
      TwoPieces(o, r);
      pieces := [AllocObject(o.ptr, r.start - start, IN_GLOBAL_DATA), AllocObject(r.end, end - r.end, IN_GLOBAL_DATA)];
    } else if r.end > start && r.start <= start {
      pieces := [AllocObject(r.end, end - r.end, IN_GLOBAL_DATA)];
      OnePiece(o, r, pieces[0]);
    } else if r.start > start && r.start < end {
      pieces := [AllocObject(o.ptr, r.start - start, IN_GLOBAL_DATA)];
      OnePiece(o, r, pieces[0]);
    } else {
      pieces := [AllocObject(o.ptr, o.size, IN_GLOBAL_DATA)];
      OnePiece(o, r, pieces[0]);
    }
  }

  lemma CoveredConcat(x: seq<AllocObject>, y: seq<AllocObject>, a: nat)
    ensures Covered(x + y, a) <==> Covered(x, a) || Covered(y, a)
  {
    if Covered(x, a) {
      var i :| 0 <= i < |x| && In(x[i], a);
      assert In((x + y)[i], a);
    } else if Covered(y, a) {
      var i :| 0 <= i < |y| && In(y[i], a);
      assert In((x + y)[|x| + i], a);
    }
  }

  /** Every piece lies in the range it was cut from. */
  predicate Within(pieces: seq<AllocObject>, objects: seq<AllocObject>) {
    forall p | p in pieces ::
      exists i :: 0 <= i < |objects| && objects[i].ptr <= p.ptr && p.ptr + p.size <= objects[i].ptr + objects[i].size
  }

  ghost predicate SubtractedTo(objects: seq<AllocObject>, r: R.Region, rest: seq<AllocObject>) {
    && (forall a: nat :: Covered(rest, a) <==> Covered(objects, a) && !R.Has(r, a))
    && Within(rest, objects) && (Apart(objects) ==> Apart(rest))
  }

  lemma SubtractOne(objects: seq<AllocObject>, r: R.Region, rest: seq<AllocObject>, o: AllocObject,
                    pieces: seq<AllocObject>)
    requires SubtractedTo(objects, r, rest) && IsRest(o, r, pieces)
    ensures SubtractedTo(objects + [o], r, rest + pieces)
  {
    hide Apart, Within;
    forall a: nat
      ensures Covered(rest + pieces, a) <==> Covered(objects + [o], a) && !R.Has(r, a)
    {
      CoveredConcat(rest, pieces, a);
      CoveredConcat(objects, [o], a);
      assert In([o][0], a) ==> Covered([o], a);
    }
    WithinMore(objects, r, rest, o, pieces);
    if Apart(objects + [o]) {
      ApartFront(objects, o);
      ApartMore(objects, r, rest, o, pieces);
    }
  }

  lemma WithinMore(objects: seq<AllocObject>, r: R.Region, rest: seq<AllocObject>, o: AllocObject,
                   pieces: seq<AllocObject>)
    requires Within(rest, objects) && IsRest(o, r, pieces)
    ensures Within(rest + pieces, objects + [o])
  {
    var all := objects + [o];
    forall p | p in rest + pieces
      ensures exists i :: 0 <= i < |all| && all[i].ptr <= p.ptr && p.ptr + p.size <= all[i].ptr + all[i].size
    {
      if p in rest {
        var i :| 0 <= i < |objects| && objects[i].ptr <= p.ptr && p.ptr + p.size <= objects[i].ptr + objects[i].size;
        assert all[i] == objects[i];
      } else {
        assert all[|objects|] == o;
      }
    }
  }

  lemma ApartFront(objects: seq<AllocObject>, o: AllocObject)
    requires Apart(objects + [o])
    ensures Apart(objects)
  {
    var all := objects + [o];
    assert forall i | 0 <= i < |objects| :: all[i] == objects[i];
  }

  lemma ApartMore(objects: seq<AllocObject>, r: R.Region, rest: seq<AllocObject>, o: AllocObject,
                  pieces: seq<AllocObject>)
    requires Apart(objects + [o]) && Apart(rest) && Within(rest, objects) && IsRest(o, r, pieces)
    ensures Apart(rest + pieces)
  {
    var result, all := rest + pieces, objects + [o];
    forall i, j | 0 <= i < j < |result|
      ensures result[i].ptr + result[i].size <= result[j].ptr || result[j].ptr + result[j].size <= result[i].ptr
    {
      if i < |rest| <= j {
        assert rest[i] in rest && pieces[j - |rest|] in pieces;
        var k :| 0 <= k < |objects| && objects[k].ptr <= rest[i].ptr &&
          rest[i].ptr + rest[i].size <= objects[k].ptr + objects[k].size;
        assert all[k] == objects[k] && all[|objects|] == o;
      } else if |rest| <= i {
        assert result[i] == pieces[i - |rest|] && result[j] == pieces[j - |rest|];
      }
    }
  }

  /** One region subtracted from all the ranges: exactly its addresses go, and what is apart
      stays apart. */
  method Subtract(objects: seq<AllocObject>, r: R.Region) returns (rest: seq<AllocObject>)
    requires r.start < r.end
    ensures SubtractedTo(objects, r, rest)
  {
    hide IsRest, SubtractedTo;
    rest := [];
    NothingToSubtract(r);
    var i := 0;
    while i < |objects|
      invariant i <= |objects| && SubtractedTo(objects[..i], r, rest)
    {
      var pieces := Cut(objects[i], r);
      SubtractOne(objects[..i], r, rest, objects[i], pieces);
      assert objects[..i] + [objects[i]] == objects[..i + 1];
      rest := rest + pieces;
      i := i + 1;
    }
    assert objects[..i] == objects;
  }

  lemma NothingToSubtract(r: R.Region)
    ensures SubtractedTo([], r, [])
  {
  }

  /** An address in a region that is cut out. */
  predicate CutOut(regions: seq<R.Region>, ranges: Option<seq<CallerRange>>, a: nat) {
    exists i :: 0 <= i < |regions| && IsCut(regions[i], ranges) && R.Has(regions[i], a)
  }

  ghost predicate FilteredTo(objects: seq<AllocObject>, regions: seq<R.Region>, ranges: Option<seq<CallerRange>>,
                             rest: seq<AllocObject>) {
    && (forall a: nat :: Covered(rest, a) <==> Covered(objects, a) && !CutOut(regions, ranges, a))
    && (Apart(objects) ==> Apart(rest))
  }

  lemma FilterOne(objects: seq<AllocObject>, regions: seq<R.Region>, ranges: Option<seq<CallerRange>>,
                  rest: seq<AllocObject>, r: R.Region, rest': seq<AllocObject>)
    requires FilteredTo(objects, regions, ranges, rest)
    requires if IsCut(r, ranges) then SubtractedTo(rest, r, rest') else rest' == rest
    ensures FilteredTo(objects, regions + [r], ranges, rest')
  {
    hide Apart, Covered, IsCut, Within;
    var all := regions + [r];
    forall a: nat
      ensures Covered(rest', a) <==> Covered(objects, a) && !CutOut(all, ranges, a)
    {
      CutOutMore(regions, ranges, r, a);
    }
  }

  lemma CutOutMore(regions: seq<R.Region>, ranges: Option<seq<CallerRange>>, r: R.Region, a: nat)
    ensures CutOut(regions + [r], ranges, a) <==> CutOut(regions, ranges, a) || (IsCut(r, ranges) && R.Has(r, a))
  {
    hide IsCut;
    var all := regions + [r];
    if CutOut(regions, ranges, a) {
      var i :| 0 <= i < |regions| && IsCut(regions[i], ranges) && R.Has(regions[i], a);
      assert all[i] == regions[i];
    }
    assert all[|regions|] == r;
  }

  /** All the regions: what remains is what was there and is in no region that is to be cut out. */
  method Filter(objects: seq<AllocObject>, regions: seq<R.Region>, ranges: Option<seq<CallerRange>>)
    returns (rest: seq<AllocObject>, nullCallers: bool)
    requires R.Ordered(regions) && (ranges.Some? ==> RangesOk(ranges.value))
    ensures FilteredTo(objects, regions, ranges, rest)
    ensures forall a: nat :: Covered(rest, a) <==> Covered(objects, a) && !exists i ::
      && 0 <= i < |regions| && regions[i].start <= a < regions[i].end
      && (regions[i].isStack || ranges == None || regions[i].callStack == [] || regions[i].callStack[0] == 0 ||
          forall k | 0 <= k < |ranges.value| ::
            !(ranges.value[k].start < regions[i].callStack[0] < ranges.value[k].end))
    ensures nullCallers <==>
      ranges.Some? && exists i :: 0 <= i < |regions| && !regions[i].isStack && Caller(regions[i]) == 0
  {
    hide FilteredTo, SubtractedTo, IsSpecial;
    rest, nullCallers := objects, false;
    NothingToFilter(objects, ranges);
    var i := 0;
    while i < |regions|
      invariant i <= |regions| && FilteredTo(objects, regions[..i], ranges, rest)
      invariant nullCallers <==>
        ranges.Some? && exists k :: 0 <= k < i && !regions[k].isStack && Caller(regions[k]) == 0
    {
      var r := regions[i];
      var subtract := true;
      if !r.isStack && ranges.Some? {
        if Caller(r) == 0 {
          nullCallers := true;
        } else {
          OneRangeDecides(ranges.value, Caller(r));
          var iter := UpperBound(ranges.value, Caller(r));
          if iter < |ranges.value| && ranges.value[iter].start < Caller(r) {
            subtract := false;
          }
        }
      }
      ghost var before := rest;
      if subtract {
        rest := Subtract(rest, r);
      }
      FilterOne(objects, regions[..i], ranges, before, r, rest);
      assert regions[..i] + [r] == regions[..i + 1];
      i := i + 1;
    }
    assert regions[..i] == regions;
    Filtered(objects, regions, ranges, rest);
  }

  lemma Filtered(objects: seq<AllocObject>, regions: seq<R.Region>, ranges: Option<seq<CallerRange>>,
                 rest: seq<AllocObject>)
    requires FilteredTo(objects, regions, ranges, rest)
    ensures forall a: nat :: Covered(rest, a) <==> Covered(objects, a) && !exists i ::
      && 0 <= i < |regions| && regions[i].start <= a < regions[i].end
      && (regions[i].isStack || ranges == None || regions[i].callStack == [] || regions[i].callStack[0] == 0 ||
          forall k | 0 <= k < |ranges.value| ::
            !(ranges.value[k].start < regions[i].callStack[0] < ranges.value[k].end))
  {
    hide Covered, Apart;
    forall i | 0 <= i < |regions|
      ensures IsCut(regions[i], ranges) <==>
        (regions[i].isStack || ranges == None || regions[i].callStack == [] || regions[i].callStack[0] == 0 ||
         forall k | 0 <= k < |ranges.value| ::
           !(ranges.value[k].start < regions[i].callStack[0] < ranges.value[k].end))
    {
    }
  }

  lemma NothingToFilter(objects: seq<AllocObject>, ranges: Option<seq<CallerRange>>)
    ensures FilteredTo(objects, [], ranges, objects)
  {
  }
}
