/** SizeMap (common.cc, common.h): the size classes of small objects, for any page size of at
    least 128 bytes; tcmalloc has pages of 2^13 or 2^15 bytes. */
module SizeMap {
  import opened Arithmetic

  const ALIGNMENT: nat := 8
  const MAX_SIZE: nat := 0x4_0000
  const MAX_SMALL_SIZE: nat := 1024
  const CLASS_ARRAY_SIZE: nat := 2169

  /* ---- Alignment ---- */

  /** The position of the highest bit. */
  function Lg(n: nat): (log: nat)
    requires n > 0
    ensures Pow2(log) <= n < Pow2(log + 1)
  {
    if n == 1 then 0 else Lg(n / 2) + 1
  }

  lemma {:induction false} LgIs(n: nat, k: nat)
    requires Pow2(k) <= n < Pow2(k + 1)
    ensures n > 0 && Lg(n) == k
  {
    var l := Lg(n);
    if l < k {
      Pow2Mono(l + 1, k);
    } else if k < l {
      Pow2Mono(k + 1, l);
    }
  }

  lemma Powers()
    ensures Pow2(3) == 8 && Pow2(4) == 16 && Pow2(7) == 128 && Pow2(10) == 1024 && Pow2(18) == MAX_SIZE
  {
    assert Pow2(5) == 32 && Pow2(9) == 512 && Pow2(13) == 8192;
  }

  lemma LgAtLeast(n: nat, lo: nat)
    requires Pow2(lo) <= n
    ensures n > 0 && lo <= Lg(n)
  {
    hide Lg;
    var l := Lg(n);
    if l < lo {
      Pow2Mono(l + 1, lo);
    }
  }

  /** The bits of a size that its alignment clears. */
  function WantedShift(size: nat, pageShift: nat): nat {
    if size > MAX_SIZE then pageShift
    else if size >= 128 then
      Powers();
      LgAtLeast(size, 7);
      Lg(size) - 3
    else if size >= 16 then 4
    else 3
  }

  /** No alignment is above the page size. */
  function AlignmentShift(size: nat, pageShift: nat): (r: nat)
    ensures r <= pageShift
  {
    var shift := WantedShift(size, pageShift);
    if shift > pageShift then pageShift else shift
  }

  function Alignment(size: nat, pageShift: nat): nat {
    Pow2(AlignmentShift(size, pageShift))
  }

  lemma MultiplesAdd(x: nat, y: nat, d: nat)
    requires d > 0 && x % d == 0 && y % d == 0
    ensures (x + y) % d == 0 && (x < y ==> x + d <= y)
  {
    var q, q' := x / d, y / d;
    assert x == q * d && y == q' * d;
    assert (q + q') * d == x + y;
    ModIs(x + y, q + q', d, 0);
    if x < y {
      if q' <= q {
        MulMono(q', q, d);
      }
      MulMono(q + 1, q', d);
      assert (q + 1) * d == q * d + d;
    }
  }

  lemma Pow2Divides(a: nat, b: nat)
    requires a <= b
    ensures Pow2(b) % Pow2(a) == 0
  {
    Pow2Adds(b - a, a);
    ModIs(Pow2(b), Pow2(b - a), Pow2(a), 0);
  }

  lemma DividesTrans(x: nat, a: nat, b: nat)
    requires a <= b && x % Pow2(b) == 0
    ensures x % Pow2(a) == 0
  {
    hide Pow2;
    Pow2Adds(b - a, a);
    var q := x / Pow2(b);
    Distribute(q, Pow2(b - a), 0, Pow2(a));
    ModIs(x, q * Pow2(b - a), Pow2(a), 0);
  }

  /** What the loop over sizes checks at each, and needs for the index of a class. */
  predicate Aligned(size: nat, pageShift: nat) {
    size > 0 && size % Alignment(size, pageShift) == 0
  }

  /** Going up by its own alignment, a size stays aligned and does not jump over the maximum. */
  lemma NextSize(size: nat, pageShift: nat)
    requires 8 <= size <= MAX_SIZE && pageShift >= 7 && Aligned(size, pageShift)
    ensures var next := size + Alignment(size, pageShift);
      size < next && (size < MAX_SIZE ==> next <= MAX_SIZE && Aligned(next, pageShift))
  {
    hide Pow2, Lg;
    Powers();
    var a := AlignmentShift(size, pageShift);
    var next := size + Pow2(a);
    if 128 <= size < MAX_SIZE {
      var k := Lg(size);
      LgRange(size, 7, 18);
      Pow2Divides(a, k + 1);
      MultiplesAdd(size, Pow2(k + 1), Pow2(a));
      MultiplesAdd(size, Pow2(a), Pow2(a));
      Pow2Mono(k + 1, 18);
      if next < Pow2(k + 1) {
        LgIs(next, k);
      } else {
        Pow2Mono(k + 1, k + 2);
        LgOfPower(k + 1);
        Pow2Divides(AlignmentShift(next, pageShift), k + 1);
      }
    } else if size < 128 {
      SmallNext(size, pageShift);
    }
  }

  lemma SmallNext(size: nat, pageShift: nat)
    requires 8 <= size < 128 && pageShift >= 7 && Aligned(size, pageShift)
    ensures Aligned(size + Alignment(size, pageShift), pageShift)
  {
    hide Pow2, Lg;
    Powers();
    LgOfPower(7);
  }

  lemma LgOfPower(k: nat)
    ensures Lg(Pow2(k)) == k
  {
    LgIs(Pow2(k), k);
  }

  lemma LgRange(n: nat, lo: nat, hi: nat)
    requires Pow2(lo) <= n < Pow2(hi)
    ensures n > 0 && lo <= Lg(n) < hi
  {
    hide Lg;
    var l := Lg(n);
    if l < lo {
      Pow2Mono(l + 1, lo);
    } else if l >= hi {
      Pow2Mono(hi, l);
    }
  }

  /** Sizes are multiples of 8, those above 1024 of 128: ClassIndex relies on it. */
  lemma AlignedMultiples(size: nat, pageShift: nat)
    requires 8 <= size <= MAX_SIZE && pageShift >= 7 && Aligned(size, pageShift)
    ensures size % 8 == 0 && (size >= 16 ==> size % 16 == 0) && (size > MAX_SMALL_SIZE ==> size % 128 == 0)
  {
    hide Pow2, Lg;
    Powers();
    if size >= 128 {
      LgAtLeast(size, 7);
    }
    DividesTrans(size, 3, AlignmentShift(size, pageShift));
    if size >= 16 {
      DividesTrans(size, 4, AlignmentShift(size, pageShift));
    }
    if size > MAX_SMALL_SIZE {
      LgAtLeast(size, 10);
      DividesTrans(size, 7, AlignmentShift(size, pageShift));
    }
  }

  /* ---- Spans ---- */

  /** How many objects go at a time; the source divides in floating point and truncates. */
  function NumMoveSize(size: nat): (num: nat)
    ensures num <= 32 && (size > 0 ==> num >= 2)
  {
    if size == 0 then 0
    else
      var num := 65536 / size;
      if num < 2 then 2 else if num > 32 then 32 else num
  }

  /** As many as fit in 64 KB, within bounds. */
  lemma MoveAbout64K(size: nat)
    requires size > 0
    ensures var num := NumMoveSize(size);
      && 2 <= num <= 32 && (num > 2 ==> num * size <= 0x1_0000) && (num < 32 ==> 0x1_0000 < (num + 1) * size)
  {
    var q, num := 65536 / size, NumMoveSize(size);
    assert 65536 == q * size + 65536 % size;
    if num > 2 {
      MulMono(num, q, size);
    }
    if num < 32 {
      MulMono(q + 1, num + 1, size);
      assert (q + 1) * size == q * size + size;
    }
  }

  function Objects(size: nat, pages: nat, pageShift: nat): nat
    requires size > 0
  {
    pages * Pow2(pageShift) / size
  }

  function Leftover(size: nat, pages: nat, pageShift: nat): nat
    requires size > 0
  {
    pages * Pow2(pageShift) % size
  }

  /** At most an eighth is left over, and there are objects enough to move. */
  predicate Suits(size: nat, pages: nat, pageShift: nat)
    requires size > 0
  {
    Leftover(size, pages, pageShift) <= pages * Pow2(pageShift) / 8 &&
      Objects(size, pages, pageShift) >= NumMoveSize(size) / 4
  }

  lemma EightTimes(psize: nat, size: nat)
    requires size > 0 && psize >= 8 * size
    ensures psize % size <= psize / 8 && psize / size >= 8
  {
    assert psize == psize / size * size + psize % size;
    if psize / size < 8 {
      MulMono(psize / size, 7, size);
    }
  }

  /** Eight times the size is enough. */
  lemma LargeSuits(size: nat, pages: nat, pageShift: nat)
    requires size > 0 && pages * Pow2(pageShift) >= 8 * size
    ensures Suits(size, pages, pageShift)
  {
    hide Pow2;
    EightTimes(pages * Pow2(pageShift), size);
  }

  /** The first number of pages, from the given one on, that suits. */
  function SpanPages(size: nat, pages: nat, pageShift: nat): (r: nat)
    requires size > 0
    ensures r >= pages && Suits(size, r, pageShift)
    ensures forall p | pages <= p < r :: !Suits(size, p, pageShift)
    decreases 8 * size - pages
  {
    if Suits(size, pages, pageShift) then pages
    else
      LargePages(size, pages, pageShift);
      SpanPages(size, pages + 1, pageShift)
  }

  lemma LargePages(size: nat, pages: nat, pageShift: nat)
    requires size > 0 && !Suits(size, pages, pageShift)
    ensures pages < 8 * size && pages * Pow2(pageShift) < 8 * size
  {
    if pages * Pow2(pageShift) >= 8 * size {
      LargeSuits(size, pages, pageShift);
    } else {
      MulMono(1, Pow2(pageShift), pages);
    }
  }

  /* ---- Classes ---- */

  datatype Class = Class(size: nat, pages: nat)

  /** The next size: in the previous class, if a span of that class has as many objects of it. */
  function WithSize(classes: seq<Class>, size: nat, pageShift: nat): seq<Class>
    requires size > 0 && |classes| > 0 && (|classes| > 1 ==> classes[|classes| - 1].size > 0)
  {
    var n := |classes| - 1;
    var c := Class(size, SpanPages(size, 1, pageShift));
    if n > 0 && c.pages == classes[n].pages &&
      Objects(size, c.pages, pageShift) == Objects(classes[n].size, classes[n].pages, pageShift)
    then classes[..n] + [c]
    else classes + [c]
  }

  predicate ClassOk(c: Class, pageShift: nat) {
    && c.size > 0 && c.pages > 0 && Suits(c.size, c.pages, pageShift)
    && c.size % 8 == 0 && (c.size >= 16 ==> c.size % 16 == 0) && (c.size > MAX_SMALL_SIZE ==> c.size % 128 == 0)
  }

  /** Class 0 is for large sizes; the others are in order. */
  predicate ClassesOk(classes: seq<Class>, pageShift: nat) {
    && |classes| > 0 && classes[0].size == 0
    && (forall c | 0 < c < |classes| :: ClassOk(classes[c], pageShift))
    && (forall c, d | 0 <= c < d < |classes| :: classes[c].size < classes[d].size)
  }

  lemma WithSizeKeeps(classes: seq<Class>, size: nat, pageShift: nat)
    requires ClassesOk(classes, pageShift) && classes[|classes| - 1].size < size <= MAX_SIZE
    requires 8 <= size && pageShift >= 7 && Aligned(size, pageShift)
    ensures var classes' := WithSize(classes, size, pageShift);
      ClassesOk(classes', pageShift) && classes'[|classes'| - 1].size == size
  {
    hide Suits, Objects, Aligned;
    AlignedMultiples(size, pageShift);
    assert ClassOk(Class(size, SpanPages(size, 1, pageShift)), pageShift);
  }

  lemma ClassMeans(classes: seq<Class>, pageShift: nat, c: nat)
    requires ClassesOk(classes, pageShift) && 0 < c < |classes|
    ensures var size, bytes, moved := classes[c].size, classes[c].pages * Pow2(pageShift), NumMoveSize(classes[c].size);
      && size % (if size < 16 then 8 else 16) == 0
      && 0 < size <= bytes && bytes % size <= bytes / 8 && bytes / size >= moved / 4
      && 2 <= moved <= 32 && (moved > 2 ==> moved * size <= 0x1_0000) && (moved < 32 ==> 0x1_0000 < (moved + 1) * size)
  {
    hide Pow2, NumMoveSize;
    var size, bytes := classes[c].size, classes[c].pages * Pow2(pageShift);
    assert ClassOk(classes[c], pageShift);
    MoveAbout64K(size);
    MulMono(1, Pow2(pageShift), classes[c].pages);
    if bytes < size {
      SmallMod(bytes, size);
    }
  }

  lemma SmallMod(a: nat, b: nat)
    requires 0 < a < b
    ensures a % b == a > a / 8
  {
  }

  /** c is the smallest class for s. */
  predicate IsClassOf(classes: seq<Class>, s: nat, c: nat) {
    0 < c < |classes| && s <= classes[c].size && (c > 1 ==> classes[c - 1].size < s)
  }

  lemma SmallestClass(classes: seq<Class>, pageShift: nat, s: nat, c: nat)
    requires ClassesOk(classes, pageShift) && IsClassOf(classes, s, c)
    ensures forall d | 0 < d < |classes| :: s <= classes[d].size <==> c <= d
  {
    forall d | 0 < d < |classes|
      ensures s <= classes[d].size <==> c <= d
    {
      assert d < c - 1 ==> classes[d].size < classes[c - 1].size;
      assert c < d ==> classes[c].size < classes[d].size;
    }
  }

  /* ---- The index of a class ---- */

  function ClassIndex(s: nat): nat {
    if s > MAX_SMALL_SIZE then (s + 127 + 120 * 128) / 128 else (s + 7) / 8
  }

  /** Two multiples of 8 with the same index are above 1024, between the same multiples of 128. */
  lemma SameIndex(s: nat, t: nat, m: nat)
    requires s < t && s % 8 == 0 && t % 8 == 0 && ClassIndex(s) == ClassIndex(t)
    requires s <= m < t
    ensures m > MAX_SMALL_SIZE && m % 128 != 0
  {
  }

  lemma IndexOfMultiple(s: nat)
    requires s <= MAX_SIZE
    ensures var k := (s + 7) / 8;
      s <= 8 * k <= MAX_SIZE && 8 * k < s + 8 && ClassIndex(8 * k) == ClassIndex(s) < CLASS_ARRAY_SIZE
  {
    var k, m := (s + 7) / 8, ClassIndex(s);
    assert s <= 8 * k < s + 8 && k <= 0x8000;
    if s > MAX_SMALL_SIZE {
      assert 128 * m <= s + 15487 < 128 * m + 128;
      assert k <= 16 * (m - 120);
      assert 128 * m <= 8 * k + 15487 < 128 * m + 128;
    } else {
      assert k <= 128;
    }
  }

  /** The array gives every multiple of 8 below next its class. */
  ghost predicate Mapped(classes: seq<Class>, index: seq<nat>, next: nat) {
    |index| == CLASS_ARRAY_SIZE &&
    forall k: nat | 8 * k < next && 8 * k <= MAX_SIZE :: IsClassOf(classes, 8 * k, ClassAt(index, 8 * k))
  }

  function ClassAt(index: seq<nat>, s: nat): nat {
    if ClassIndex(s) < |index| then index[ClassIndex(s)] else 0
  }

  lemma MappedMore(classes: seq<Class>, pageShift: nat, index: seq<nat>, s: nat, c: nat)
    requires ClassesOk(classes, pageShift) && Mapped(classes, index, s) && s % 8 == 0 && s <= MAX_SIZE &&
      IsClassOf(classes, s, c)
    ensures ClassIndex(s) < |index| && Mapped(classes, index[ClassIndex(s) := c], s + 8)
  {
    hide ClassesOk, ClassIndex, ClassAt, IsClassOf;
    IndexOfMultiple(s);
    var index' := index[ClassIndex(s) := c];
    forall k: nat | 8 * k < s + 8 && 8 * k <= MAX_SIZE
      ensures IsClassOf(classes, 8 * k, ClassAt(index', 8 * k))
    {
      MappedOne(classes, pageShift, index, s, c, k);
    }
  }

  lemma MappedOne(classes: seq<Class>, pageShift: nat, index: seq<nat>, s: nat, c: nat, k: nat)
    requires ClassesOk(classes, pageShift) && IsClassOf(classes, s, c) && s % 8 == 0 && s <= MAX_SIZE
    requires 8 * k < s + 8 && 8 * k <= MAX_SIZE && |index| == CLASS_ARRAY_SIZE && ClassIndex(s) < |index|
    requires 8 * k < s ==> IsClassOf(classes, 8 * k, ClassAt(index, 8 * k))
    ensures IsClassOf(classes, 8 * k, ClassAt(index[ClassIndex(s) := c], 8 * k))
  {
    hide ClassesOk, ClassIndex, IsClassOf;
    IndexOfMultiple(8 * k);
    if 8 * k < s {
      if ClassIndex(8 * k) == ClassIndex(s) {
        SameClass(classes, pageShift, 8 * k, s, c);
      }
    } else {
      assert 8 * k == s;
    }
  }

  lemma SameClass(classes: seq<Class>, pageShift: nat, t: nat, s: nat, c: nat)
    requires ClassesOk(classes, pageShift) && IsClassOf(classes, s, c)
    requires t < s && t % 8 == 0 && s % 8 == 0 && ClassIndex(t) == ClassIndex(s)
    ensures IsClassOf(classes, t, c)
  {
    hide Suits, ClassIndex;
    if c > 1 {
      assert ClassOk(classes[c - 1], pageShift);
      var m := classes[c - 1].size;
      if t <= m {
        SameIndex(t, s, m);
      }
    }
  }

  /** Then it gives every size its class. */
  lemma EverySizeMapped(classes: seq<Class>, pageShift: nat, index: seq<nat>, s: nat)
    requires ClassesOk(classes, pageShift) && Mapped(classes, index, MAX_SIZE + 8) && s <= MAX_SIZE
    ensures ClassIndex(s) < |index| && IsClassOf(classes, s, index[ClassIndex(s)])
  {
    hide Suits, ClassIndex;
    IndexOfMultiple(s);
    var k := (s + 7) / 8;
    var c := ClassAt(index, 8 * k);
    assert IsClassOf(classes, 8 * k, c);
    if c > 1 {
      assert ClassOk(classes[c - 1], pageShift);
    }
  }

  /** The classes that the loop over sizes adds, from the given size on. */
  function Classes(classes: seq<Class>, size: nat, pageShift: nat): seq<Class>
    requires size > 0 && |classes| > 0 && (|classes| > 1 ==> classes[|classes| - 1].size > 0)
    decreases MAX_SIZE + 1 - size
  {
    if size > MAX_SIZE then classes
    else Classes(WithSize(classes, size, pageShift), size + Alignment(size, pageShift), pageShift)
  }

  class SizeMap {
    const pageShift: nat
    const numClasses: nat
    // class_to_size_ and class_to_pages_
    var classes: seq<Class>
    const classArray: array<nat>
    var numObjectsToMove: seq<nat>

    constructor (pageShift: nat, numClasses: nat)
      ensures this.pageShift == pageShift && this.numClasses == numClasses
      ensures fresh(classArray) && classArray.Length == CLASS_ARRAY_SIZE
    {
      this.pageShift, this.numClasses := pageShift, numClasses;
      classes, numObjectsToMove := [], [];
      classArray := new nat[CLASS_ARRAY_SIZE];
    }

    /** What Init sets up. */
    ghost predicate Valid()
      reads this, classArray
    {
      && ClassesOk(classes, pageShift) && |classes| == numClasses == |numObjectsToMove|
      && Mapped(classes, classArray[..], MAX_SIZE + 8)
      && forall c | 0 < c < numClasses :: numObjectsToMove[c] == NumMoveSize(classes[c].size)
    }

    static method LgFloor(size: nat) returns (log: nat)
      requires 0 < size < 0x1_0000_0000
      ensures log == Lg(size)
    {
      hide Lg, Pow2;
      var n := size;
      log := 0;
      var i := 4;
      LgStart(size);
      while i >= 0
        invariant -1 <= i <= 4 && n > 0 && Halved(size, n, log) && n < Pow2(Pow2(i + 1))
        decreases i
      {
        var shift := Pow2(i);
        var x := n / Pow2(shift);
        LgStep(size, n, log, i);
        if x != 0 {
          n := x;
          log := log + shift;
        }
        i := i - 1;
      }
      LgEnd(size, n, log);
    }

    method AlignmentForSize(size: nat) returns (alignment: nat)
      requires pageShift >= 7 && size < 0x1_0000_0000
      ensures alignment == Alignment(size, pageShift)
    {
      hide Pow2, Lg;
      Powers();
      Pow2Mono(7, pageShift);
      alignment := ALIGNMENT;
      if size > MAX_SIZE {
        alignment := Pow2(pageShift);
      } else if size >= 128 {
        var log := LgFloor(size);
        LgAtLeast(size, 7);
        EighthOf(log);
        alignment := Pow2(log) / 8;
      } else if size >= 16 {
        alignment := 16;
      }
      Capped(size, pageShift);
      if alignment > Pow2(pageShift) {
        alignment := Pow2(pageShift);
      }
    }

    /** Pages for a span of objects of a size. */
    method SpanSize(size: nat) returns (pages: nat)
      requires size > 0
      ensures pages == SpanPages(size, 1, pageShift)
    {
      hide Pow2, Suits;
      var blocksToMove := NumMoveSize(size) / 4;
      var kPageSize := Pow2(pageShift);
      var psize := 0;
      pages := 0;
      while pages == 0 || psize / size < blocksToMove
        invariant psize == pages * kPageSize
        invariant pages > 0 ==> psize % size <= psize / 8
        invariant forall p | 1 <= p < pages :: !Suits(size, p, pageShift)
        decreases 8 * size - pages
      {
        if pages > 0 {
          NotYet(size, pages, psize, pageShift);
        }
        psize, pages := psize + kPageSize, pages + 1;
        while psize % size > psize / 8
          invariant psize == pages * kPageSize && pages > 0
          invariant forall p | 1 <= p < pages :: !Suits(size, p, pageShift)
          decreases 8 * size - pages
        {
          NotYet(size, pages, psize, pageShift);
          psize, pages := psize + kPageSize, pages + 1;
        }
      }
      LeastIs(size, pages, psize, pageShift);
    }

    /** The source stops the program when the classes found are not as many as expected. */
    method Init() returns (ok: bool)
      requires pageShift >= 7 && classArray.Length == CLASS_ARRAY_SIZE
      modifies this, classArray
      ensures ok <==> |Classes([Class(0, 0)], ALIGNMENT, pageShift)| == numClasses
      ensures ok ==> Valid()
      ensures ok ==> forall c | 0 < c < numClasses ::
        var size, bytes, moved := classes[c].size, classes[c].pages * Pow2(pageShift), numObjectsToMove[c];
        && size % (if size < 16 then 8 else 16) == 0
        && 0 < size <= bytes && bytes % size <= bytes / 8 && bytes / size >= moved / 4
        && 2 <= moved <= 32
        && (moved > 2 ==> moved * size <= 0x1_0000) && (moved < 32 ==> 0x1_0000 < (moved + 1) * size)
    {
      hide Classes, ClassesOk, Mapped;
      FindClasses();
      if |classes| != numClasses {
        return false;
      }
      MapClasses();
      CountMoves();
      forall c | 0 < c < numClasses {
        ClassMeans(classes, pageShift, c);
      }
      ok := true;
    }

    method CountMoves()
      requires |classes| > 0
      modifies this`numObjectsToMove
      ensures |numObjectsToMove| == |classes|
      ensures forall c | 0 < c < |classes| :: numObjectsToMove[c] == NumMoveSize(classes[c].size)
    {
      numObjectsToMove := [0];
      var c := 1;
      while c < |classes|
        invariant 1 <= c <= |classes| && |numObjectsToMove| == c
        invariant forall d | 0 < d < c :: numObjectsToMove[d] == NumMoveSize(classes[d].size)
      {
        numObjectsToMove := numObjectsToMove + [NumMoveSize(classes[c].size)];
        c := c + 1;
      }
    }

    method FindClasses()
      requires pageShift >= 7
      modifies this`classes
      ensures classes == Classes([Class(0, 0)], ALIGNMENT, pageShift)
      ensures ClassesOk(classes, pageShift) && |classes| > 1 && classes[|classes| - 1].size == MAX_SIZE
    {
      hide Aligned, AlignmentShift, ClassOk, Suits, Objects, WithSize;
      classes := [Class(0, 0)];
      var size := ALIGNMENT;
      FirstAligned(pageShift);
      while size <= MAX_SIZE
        invariant ClassesOk(classes, pageShift) && 8 <= size && classes[|classes| - 1].size < size
        invariant size <= MAX_SIZE ==> Aligned(size, pageShift)
        invariant size > MAX_SIZE ==> |classes| > 1 && classes[|classes| - 1].size == MAX_SIZE
        invariant Classes([Class(0, 0)], ALIGNMENT, pageShift) == Classes(classes, size, pageShift)
        decreases MAX_SIZE + 1 - size
      {
        var alignment := AlignmentForSize(size);
        WithSizeKeeps(classes, size, pageShift);
        NextSize(size, pageShift);
        AddSize(size);
        size := size + alignment;
      }
    }

    method AddSize(size: nat)
      requires size > 0 && |classes| > 0 && (|classes| > 1 ==> classes[|classes| - 1].size > 0)
      modifies this`classes
      ensures classes == WithSize(old(classes), size, pageShift)
    {
      var pages := SpanSize(size);
      var n := |classes| - 1;
      if n > 0 && pages == classes[n].pages &&
        Objects(size, pages, pageShift) == Objects(classes[n].size, classes[n].pages, pageShift) {
        classes := classes[n := Class(size, pages)];
      } else {
        classes := classes + [Class(size, pages)];
      }
    }

    /** class_array_. */
    method MapClasses()
      requires ClassesOk(classes, pageShift) && classArray.Length == CLASS_ARRAY_SIZE
      requires |classes| > 1 && classes[|classes| - 1].size == MAX_SIZE
      modifies classArray
      ensures Mapped(classes, classArray[..], MAX_SIZE + 8)
    {
      hide Mapped, ClassOk, ClassIndex, IsClassOf;
      var nextSize := 0;
      var c := 1;
      NothingMapped(classes, classArray[..]);
      while c < |classes|
        invariant 1 <= c <= |classes| && nextSize == if c == 1 then 0 else classes[c - 1].size + 8
        invariant Mapped(classes, classArray[..], nextSize)
      {
        MapClass(c, nextSize);
        nextSize := classes[c].size + 8;
        c := c + 1;
      }
    }

    method MapClass(c: nat, nextSize: nat)
      requires ClassesOk(classes, pageShift) && classArray.Length == CLASS_ARRAY_SIZE &&
        classes[|classes| - 1].size == MAX_SIZE
      requires 0 < c < |classes| && nextSize == if c == 1 then 0 else classes[c - 1].size + 8
      requires Mapped(classes, classArray[..], nextSize)
      modifies classArray
      ensures Mapped(classes, classArray[..], classes[c].size + 8)
    {
      hide Mapped, Suits, ClassIndex;
      var s := nextSize;
      assert ClassOk(classes[c], pageShift) && (c > 1 ==> ClassOk(classes[c - 1], pageShift));
      assert c < |classes| - 1 ==> classes[c].size < MAX_SIZE;
      while s <= classes[c].size
        invariant nextSize <= s <= classes[c].size + 8 && s % 8 == 0
        invariant Mapped(classes, classArray[..], s)
      {
        MappedMore(classes, pageShift, classArray[..], s, c);
        ghost var index := classArray[..];
        classArray[ClassIndex(s)] := c;
        assert classArray[..] == index[ClassIndex(s) := c];
        s := s + 8;
      }
      assert s == classes[c].size + 8;
    }

    /** The smallest class whose objects are large enough. */
    method SizeClass(size: nat) returns (c: nat)
      requires Valid() && size <= MAX_SIZE
      ensures 0 < c < numClasses && size <= classes[c].size
      ensures forall d | 0 < d < numClasses && size <= classes[d].size :: c <= d
    {
      hide ClassesOk, Mapped, ClassIndex;
      EverySizeMapped(classes, pageShift, classArray[..], size);
      c := classArray[ClassIndex(size)];
      SmallestClass(classes, pageShift, size, c);
    }
  }

  /** log is what has been found, n what is left to look at. */
  predicate Halved(size: nat, n: nat, log: nat) {
    n == size / Pow2(log)
  }

  lemma LgStart(size: nat)
    requires 0 < size < 0x1_0000_0000
    ensures Halved(size, size, 0) && size < Pow2(Pow2(5))
  {
    Powers();
    assert Pow2(5) == 32;
    Pow2Adds(18, 14);
    assert Pow2(14) == 16384;
  }

  lemma LgStep(size: nat, n: nat, log: nat, i: nat)
    requires n > 0 && Halved(size, n, log) && n < Pow2(Pow2(i + 1))
    ensures var x := n / Pow2(Pow2(i));
      if x != 0 then Halved(size, x, log + Pow2(i)) && x < Pow2(Pow2(i)) else n < Pow2(Pow2(i))
  {
    hide Pow2;
    var shift := Pow2(i);
    assert Pow2(i + 1) == shift + shift by {
      TwicePow2(i);
    }
    Pow2Adds(shift, shift);
    QuotientBelow(n, Pow2(shift), Pow2(shift));
    Pow2Adds(log, shift);
    DivTwice(size, Pow2(log), Pow2(shift));
    assert n == n / Pow2(shift) * Pow2(shift) + n % Pow2(shift);
  }

  lemma TwicePow2(i: nat)
    ensures Pow2(i + 1) == 2 * Pow2(i)
  {
  }

  lemma LgEnd(size: nat, n: nat, log: nat)
    requires size > 0 && n > 0 && Halved(size, n, log) && n < Pow2(Pow2(0))
    ensures log == Lg(size) && n == 1
  {
    hide Lg;
    assert Pow2(0) == 1 && Pow2(1) == 2;
    Between(size, 1, Pow2(log));
    TwicePow2(log);
    LgIs(size, log);
  }

  lemma EighthOf(log: nat)
    requires log >= 3
    ensures Pow2(log) / 8 == Pow2(log - 3)
  {
    Powers();
    Pow2Adds(log - 3, 3);
  }

  lemma Capped(size: nat, pageShift: nat)
    ensures var alignment := Pow2(WantedShift(size, pageShift));
      (if alignment > Pow2(pageShift) then Pow2(pageShift) else alignment) == Alignment(size, pageShift)
  {
    hide Pow2, WantedShift;
    var shift := WantedShift(size, pageShift);
    if shift > pageShift {
      Pow2Mono(pageShift, shift);
    } else {
      Pow2Mono(shift, pageShift);
    }
  }

  /** While one of the loops goes on, the pages do not suit. */
  lemma NotYet(size: nat, pages: nat, psize: nat, pageShift: nat)
    requires size > 0 && psize == pages * Pow2(pageShift)
    requires psize % size > psize / 8 || psize / size < NumMoveSize(size) / 4
    ensures !Suits(size, pages, pageShift) && pages < 8 * size &&
      psize + Pow2(pageShift) == (pages + 1) * Pow2(pageShift)
  {
    hide Pow2;
    LargePages(size, pages, pageShift);
  }

  lemma LeastIs(size: nat, pages: nat, psize: nat, pageShift: nat)
    requires size > 0 && pages > 0 && psize == pages * Pow2(pageShift)
    requires psize % size <= psize / 8 && psize / size >= NumMoveSize(size) / 4
    requires forall p | 1 <= p < pages :: !Suits(size, p, pageShift)
    ensures pages == SpanPages(size, 1, pageShift)
  {
    hide Pow2;
    assert Suits(size, pages, pageShift);
    assert SpanPages(size, 1, pageShift) >= 1;
  }

  lemma FirstAligned(pageShift: nat)
    requires pageShift >= 7
    ensures Aligned(8, pageShift)
  {
    Powers();
  }

  lemma NothingMapped(classes: seq<Class>, index: seq<nat>)
    requires |index| == CLASS_ARRAY_SIZE
    ensures Mapped(classes, index, 0)
  {
  }
}
