/** The tables that SizeMap's Init makes for the two page sizes of tcmalloc: it finds exactly the
    number of classes that common.h expects, 86 for pages of 8K and 78 for pages of 32K. */
module SizeTable {
  import opened Arithmetic
  import opened SizeMap

  /** How many classes there are, class 0 included, and the last one. */
  datatype Found = Found(count: nat, size: nat, pages: nat)

  /** One size more: a class of its own, unless a span holds as many objects of the last class. */
  function More(f: Found, size: nat, pages: nat, pageBytes: nat): Found {
    if f.count > 1 && pages == f.pages && size > 0 && f.size > 0 &&
      pages * pageBytes / size == f.pages * pageBytes / f.size
    then Found(f.count, size, pages)
    else Found(f.count + 1, size, pages)
  }

  /** How many classes there are in the end. */
  function Total(f: Found, size: nat, pageShift: nat): nat
    decreases MAX_SIZE + 1 - size
  {
    if size == 0 || size > MAX_SIZE then f.count
    else
      var g := More(f, size, SpanPages(size, 1, pageShift), Pow2(pageShift));
      Total(g, size + Alignment(size, pageShift), pageShift)
  }

  lemma {:induction false} TotalIs(classes: seq<Class>, size: nat, pageShift: nat)
    requires size > 0 && |classes| > 0 && (|classes| > 1 ==> classes[|classes| - 1].size > 0)
    ensures var last := classes[|classes| - 1];
      |Classes(classes, size, pageShift)| == Total(Found(|classes|, last.size, last.pages), size, pageShift)
    decreases MAX_SIZE + 1 - size
  {
    hide Pow2, Suits, AlignmentShift, SpanPages;
    if size <= MAX_SIZE {
      TotalIs(WithSize(classes, size, pageShift), size + Alignment(size, pageShift), pageShift);
    }
  }

  /** A number of pages that leaves at most an eighth over and holds enough objects. */
  predicate Enough(size: nat, pages: nat, pageBytes: nat)
    requires size > 0
  {
    pages * pageBytes % size <= pages * pageBytes / 8 && pages * pageBytes / size >= NumMoveSize(size) / 4
  }

  /** The least one. */
  predicate Least(size: nat, pages: nat, pageBytes: nat) {
    && size > 0 && pages > 0 && Enough(size, pages, pageBytes)
    && forall q | 1 <= q < pages :: !Enough(size, q, pageBytes)
  }

  lemma SmallPowers()
    ensures Pow2(4) == 16 && Pow2(5) == 32 && Pow2(6) == 64 && Pow2(7) == 128 && Pow2(8) == 256 && Pow2(9) == 512
    ensures Pow2(10) == 1024
  {
    assert Pow2(3) == 8;
  }

  lemma LargePowers()
    ensures Pow2(11) == 2048 && Pow2(12) == 4096 && Pow2(13) == 8192 && Pow2(14) == 16384 && Pow2(15) == 32768
    ensures Pow2(16) == 65536 && Pow2(17) == 131072 && Pow2(18) == 262144
  {
    SmallPowers();
    Pow2Adds(10, 4);
    Pow2Adds(10, 8);
    assert Pow2(13) == 8192 && Pow2(17) == 131072;
  }

  lemma LeastIs(size: nat, pages: nat, pageShift: nat)
    requires Least(size, pages, Pow2(pageShift))
    ensures SpanPages(size, 1, pageShift) == pages
  {
    hide Pow2, NumMoveSize;
    assert forall q: nat :: Enough(size, q, Pow2(pageShift)) <==> Suits(size, q, pageShift);
    var r := SpanPages(size, 1, pageShift);
    assert Suits(size, r, pageShift) && Suits(size, pages, pageShift);
  }

  /** From a power of two to the next, sizes go up in steps of an eighth of it, or of a page. */
  lemma Steps(low: nat, k: nat, pageShift: nat, step: nat)
    requires 7 <= k < 18 && pageShift >= 7 && low == Pow2(k)
    requires step == Pow2(if k - 3 <= pageShift then k - 3 else pageShift)
    ensures forall size: nat | low <= size < 2 * low :: Alignment(size, pageShift) == step
  {
    hide Pow2, Lg;
    Powers();
    Pow2Adds(1, k);
    assert Pow2(1) == 2 && Pow2(k + 1) == 2 * low by {
      TwicePow2(k);
    }
    Pow2Mono(7, k);
    Pow2Mono(k + 1, 18);
    forall size: nat | low <= size < 2 * low ensures Alignment(size, pageShift) == step {
      LgIs(size, k);
    }
  }

  lemma Next(f: Found, size: nat, step: nat, pages: nat, pageShift: nat, pageBytes: nat) returns (g: Found)
    requires 0 < size <= MAX_SIZE && Alignment(size, pageShift) == step && pageBytes == Pow2(pageShift)
    requires Least(size, pages, pageBytes)
    ensures g == More(f, size, pages, pageBytes) && Total(f, size, pageShift) == Total(g, size + step, pageShift)
  {
    hide Pow2, Least, Alignment, SpanPages, More;
    LeastIs(size, pages, pageShift);
    g := More(f, size, pages, pageBytes);
  }

  /** Eight sizes, with the pages of their spans. */
  lemma Eight(f: Found, size: nat, step: nat, a: nat, b: nat, c: nat, d: nat, p: nat, q: nat, r: nat, s: nat,
              pageShift: nat, pageBytes: nat) returns (g: Found)
    requires 0 < size && size + 7 * step <= MAX_SIZE && pageBytes == Pow2(pageShift)
    requires forall x | size <= x < size + 8 * step :: Alignment(x, pageShift) == step
    requires step > 0 && Least(size, a, pageBytes) && Least(size + step, b, pageBytes)
    requires Least(size + 2 * step, c, pageBytes) && Least(size + 3 * step, d, pageBytes)
    requires Least(size + 4 * step, p, pageBytes) && Least(size + 5 * step, q, pageBytes)
    requires Least(size + 6 * step, r, pageBytes) && Least(size + 7 * step, s, pageBytes)
    ensures var h := More(More(More(More(f, size, a, pageBytes), size + step, b, pageBytes),
                               size + 2 * step, c, pageBytes), size + 3 * step, d, pageBytes);
      g == More(More(More(More(h, size + 4 * step, p, pageBytes), size + 5 * step, q, pageBytes),
                     size + 6 * step, r, pageBytes), size + 7 * step, s, pageBytes)
    ensures Total(f, size, pageShift) == Total(g, size + 8 * step, pageShift)
  {
    hide Pow2, Least, Alignment, More, Total;
    g := Next(f, size, step, a, pageShift, pageBytes);
    g := Next(g, size + step, step, b, pageShift, pageBytes);
    g := Next(g, size + 2 * step, step, c, pageShift, pageBytes);
    g := Next(g, size + 3 * step, step, d, pageShift, pageBytes);
    g := Next(g, size + 4 * step, step, p, pageShift, pageBytes);
    g := Next(g, size + 5 * step, step, q, pageShift, pageBytes);
    g := Next(g, size + 6 * step, step, r, pageShift, pageBytes);
    g := Next(g, size + 7 * step, step, s, pageShift, pageBytes);
  }

  lemma SomeAlignment(pageShift: nat)
    ensures Alignment(MAX_SIZE, pageShift) > 0
  {
  }

  lemma Finished(f: Found, size: nat, pageShift: nat)
    requires size > MAX_SIZE
    ensures Total(f, size, pageShift) == f.count
  {
  }

  lemma SmallAlignment(pageShift: nat)
    requires pageShift >= 7
    ensures Alignment(8, pageShift) == 8 && forall size: nat | 16 <= size < 128 :: Alignment(size, pageShift) == 16
  {
    hide Lg;
    Powers();
  }

  lemma K8Pages128()
    ensures Least(128, 1, 8192) && Least(144, 1, 8192) && Least(160, 1, 8192) && Least(176, 1, 8192)
    ensures Least(192, 1, 8192) && Least(208, 1, 8192) && Least(224, 1, 8192) && Least(240, 1, 8192)
  {
  }

  lemma K8From128()
    ensures Total(Found(9, 112, 1), 128, 13) == Total(Found(17, 240, 1), 256, 13)
  {
    hide Total, Alignment, Pow2, Least;
    SmallPowers();
    LargePowers();
    Steps(128, 7, 13, 16);
    K8Pages128();
    var _ := Eight(Found(9, 112, 1), 128, 16, 1, 1, 1, 1, 1, 1, 1, 1, 13, 8192);
  }

  lemma K8Pages256()
    ensures Least(256, 1, 8192) && Least(288, 1, 8192) && Least(320, 1, 8192) && Least(352, 1, 8192)
    ensures Least(384, 1, 8192) && Least(416, 1, 8192) && Least(448, 1, 8192) && Least(480, 1, 8192)
  {
  }

  lemma K8From256()
    ensures Total(Found(17, 240, 1), 256, 13) == Total(Found(25, 480, 1), 512, 13)
  {
    hide Total, Alignment, Pow2, Least;
    SmallPowers();
    LargePowers();
    Steps(256, 8, 13, 32);
    K8Pages256();
    var _ := Eight(Found(17, 240, 1), 256, 32, 1, 1, 1, 1, 1, 1, 1, 1, 13, 8192);
  }

  lemma K8Pages512()
    ensures Least(512, 1, 8192) && Least(576, 1, 8192) && Least(640, 1, 8192) && Least(704, 1, 8192)
    ensures Least(768, 1, 8192) && Least(832, 1, 8192) && Least(896, 1, 8192) && Least(960, 1, 8192)
  {
  }

  lemma K8From512()
    ensures Total(Found(25, 480, 1), 512, 13) == Total(Found(32, 960, 1), 1024, 13)
  {
    hide Total, Alignment, Pow2, Least;
    SmallPowers();
    LargePowers();
    Steps(512, 9, 13, 64);
    K8Pages512();
    var _ := Eight(Found(25, 480, 1), 512, 64, 1, 1, 1, 1, 1, 1, 1, 1, 13, 8192);
  }

  lemma K8Pages1024()
    ensures Least(1024, 1, 8192) && Least(1152, 2, 8192) && Least(1280, 2, 8192) && Least(1408, 2, 8192)
    ensures Least(1536, 2, 8192) && Least(1664, 2, 8192) && Least(1792, 2, 8192) && Least(1920, 2, 8192)
  {
  }

  lemma K8From1024()
    ensures Total(Found(32, 960, 1), 1024, 13) == Total(Found(38, 1920, 2), 2048, 13)
  {
    hide Total, Alignment, Pow2, Least;
    SmallPowers();
    LargePowers();
    Steps(1024, 10, 13, 128);
    K8Pages1024();
    var _ := Eight(Found(32, 960, 1), 1024, 128, 1, 2, 2, 2, 2, 2, 2, 2, 13, 8192);
  }

  lemma K8Pages2048()
    ensures Least(2048, 2, 8192) && Least(2304, 2, 8192) && Least(2560, 2, 8192) && Least(2816, 3, 8192)
    ensures Least(3072, 2, 8192) && Least(3328, 3, 8192) && Least(3584, 2, 8192) && Least(3840, 2, 8192)
  {
  }

  lemma K8From2048()
    ensures Total(Found(38, 1920, 2), 2048, 13) == Total(Found(44, 3840, 2), 4096, 13)
  {
    hide Total, Alignment, Pow2, Least;
    SmallPowers();
    LargePowers();
    Steps(2048, 11, 13, 256);
    K8Pages2048();
    var _ := Eight(Found(38, 1920, 2), 2048, 256, 2, 2, 2, 3, 2, 3, 2, 2, 13, 8192);
  }

  lemma K8Pages4096()
    ensures Least(4096, 2, 8192) && Least(4608, 3, 8192) && Least(5120, 2, 8192) && Least(5632, 3, 8192)
    ensures Least(6144, 3, 8192) && Least(6656, 5, 8192) && Least(7168, 2, 8192) && Least(7680, 2, 8192)
  {
  }

  lemma K8From4096()
    ensures Total(Found(44, 3840, 2), 4096, 13) == Total(Found(49, 7680, 2), 8192, 13)
  {
    hide Total, Alignment, Pow2, Least;
    SmallPowers();
    LargePowers();
    Steps(4096, 12, 13, 512);
    K8Pages4096();
    var _ := Eight(Found(44, 3840, 2), 4096, 512, 2, 3, 2, 3, 3, 5, 2, 2, 13, 8192);
  }

  lemma K8Pages8192()
    ensures Least(8192, 2, 8192) && Least(9216, 5, 8192) && Least(10240, 4, 8192) && Least(11264, 3, 8192)
    ensures Least(12288, 3, 8192) && Least(13312, 5, 8192) && Least(14336, 2, 8192) && Least(15360, 2, 8192)
  {
  }

  lemma K8From8192()
    ensures Total(Found(49, 7680, 2), 8192, 13) == Total(Found(54, 15360, 2), 16384, 13)
  {
    hide Total, Alignment, Pow2, Least;
    SmallPowers();
    LargePowers();
    Steps(8192, 13, 13, 1024);
    K8Pages8192();
    var _ := Eight(Found(49, 7680, 2), 8192, 1024, 2, 5, 4, 3, 3, 5, 2, 2, 13, 8192);
  }

  lemma K8Pages16384()
    ensures Least(16384, 2, 8192) && Least(18432, 5, 8192) && Least(20480, 5, 8192) && Least(22528, 3, 8192)
    ensures Least(24576, 3, 8192) && Least(26624, 7, 8192) && Least(28672, 4, 8192) && Least(30720, 4, 8192)
  {
  }

  lemma K8From16384()
    ensures Total(Found(54, 15360, 2), 16384, 13) == Total(Found(58, 30720, 4), 32768, 13)
  {
    hide Total, Alignment, Pow2, Least;
    SmallPowers();
    LargePowers();
    Steps(16384, 14, 13, 2048);
    K8Pages16384();
    var _ := Eight(Found(54, 15360, 2), 16384, 2048, 2, 5, 5, 3, 3, 7, 4, 4, 13, 8192);
  }

  lemma K8Pages32768()
    ensures Least(32768, 4, 8192) && Least(36864, 5, 8192) && Least(40960, 5, 8192) && Least(45056, 6, 8192)
    ensures Least(49152, 6, 8192) && Least(53248, 7, 8192) && Least(57344, 7, 8192) && Least(61440, 8, 8192)
  {
  }

  lemma K8From32768()
    ensures Total(Found(58, 30720, 4), 32768, 13) == Total(Found(62, 61440, 8), 65536, 13)
  {
    hide Total, Alignment, Pow2, Least;
    SmallPowers();
    LargePowers();
    Steps(32768, 15, 13, 4096);
    K8Pages32768();
    var _ := Eight(Found(58, 30720, 4), 32768, 4096, 4, 5, 5, 6, 6, 7, 7, 8, 13, 8192);
  }

  lemma K8Pages65536()
    ensures Least(65536, 8, 8192) && Least(73728, 9, 8192) && Least(81920, 10, 8192) && Least(90112, 11, 8192)
    ensures Least(98304, 12, 8192) && Least(106496, 13, 8192) && Least(114688, 14, 8192) && Least(122880, 15, 8192)
  {
  }

  lemma K8From65536()
    ensures Total(Found(62, 61440, 8), 65536, 13) == Total(Found(69, 122880, 15), 131072, 13)
  {
    hide Total, Alignment, Pow2, Least;
    SmallPowers();
    LargePowers();
    Steps(65536, 16, 13, 8192);
    K8Pages65536();
    var _ := Eight(Found(62, 61440, 8), 65536, 8192, 8, 9, 10, 11, 12, 13, 14, 15, 13, 8192);
  }

  lemma K8Pages131072()
    ensures Least(131072, 16, 8192) && Least(139264, 17, 8192) && Least(147456, 18, 8192) && Least(155648, 19, 8192)
    ensures Least(163840, 20, 8192) && Least(172032, 21, 8192) && Least(180224, 22, 8192) && Least(188416, 23, 8192)
  {
  }

  lemma K8From131072()
    ensures Total(Found(69, 122880, 15), 131072, 13) == Total(Found(77, 188416, 23), 196608, 13)
  {
    hide Total, Alignment, Pow2, Least;
    SmallPowers();
    LargePowers();
    Steps(131072, 17, 13, 8192);
    K8Pages131072();
    var _ := Eight(Found(69, 122880, 15), 131072, 8192, 16, 17, 18, 19, 20, 21, 22, 23, 13, 8192);
  }

  lemma K8Pages196608()
    ensures Least(196608, 24, 8192) && Least(204800, 25, 8192) && Least(212992, 26, 8192) && Least(221184, 27, 8192)
    ensures Least(229376, 28, 8192) && Least(237568, 29, 8192) && Least(245760, 30, 8192) && Least(253952, 31, 8192)
  {
  }

  lemma K8From196608()
    ensures Total(Found(77, 188416, 23), 196608, 13) == Total(Found(85, 253952, 31), 262144, 13)
  {
    hide Total, Alignment, Pow2, Least;
    SmallPowers();
    LargePowers();
    Steps(131072, 17, 13, 8192);
    K8Pages196608();
    var _ := Eight(Found(77, 188416, 23), 196608, 8192, 24, 25, 26, 27, 28, 29, 30, 31, 13, 8192);
  }

  lemma K8Small()
    ensures Total(Found(1, 0, 0), 8, 13) == Total(Found(9, 112, 1), 128, 13)
  {
    hide Total, Pow2;
    SmallPowers();
    LargePowers();
    SmallAlignment(13);
    var f := Next(Found(1, 0, 0), 8, 8, 1, 13, 8192);
    f := Next(f, 16, 16, 1, 13, 8192);
    f := Next(f, 32, 16, 1, 13, 8192);
    f := Next(f, 48, 16, 1, 13, 8192);
    f := Next(f, 64, 16, 1, 13, 8192);
    f := Next(f, 80, 16, 1, 13, 8192);
    f := Next(f, 96, 16, 1, 13, 8192);
    f := Next(f, 112, 16, 1, 13, 8192);
  }

  lemma K8Last()
    ensures Total(Found(85, 253952, 31), MAX_SIZE, 13) == 86
  {
    hide Total, Alignment, Pow2;
    LargePowers();
    SomeAlignment(13);
    var a := Alignment(MAX_SIZE, 13);
    var f := Next(Found(85, 253952, 31), MAX_SIZE, a, 32, 13, 8192);
    Finished(f, MAX_SIZE + a, 13);
  }

  /** Init does not stop the program. */
  lemma K8Classes()
    ensures |Classes([Class(0, 0)], ALIGNMENT, 13)| == 86
  {
    hide Total, Classes;
    TotalIs([Class(0, 0)], ALIGNMENT, 13);
    K8Small();
    K8From128();
    K8From256();
    K8From512();
    K8From1024();
    K8From2048();
    K8From4096();
    K8From8192();
    K8From16384();
    K8From32768();
    K8From65536();
    K8From131072();
    K8From196608();
    K8Last();
  }

  lemma K32Pages128()
    ensures Least(128, 1, 32768) && Least(144, 1, 32768) && Least(160, 1, 32768) && Least(176, 1, 32768)
    ensures Least(192, 1, 32768) && Least(208, 1, 32768) && Least(224, 1, 32768) && Least(240, 1, 32768)
  {
  }

  lemma K32From128()
    ensures Total(Found(9, 112, 1), 128, 15) == Total(Found(17, 240, 1), 256, 15)
  {
    hide Total, Alignment, Pow2, Least;
    SmallPowers();
    LargePowers();
    Steps(128, 7, 15, 16);
    K32Pages128();
    var _ := Eight(Found(9, 112, 1), 128, 16, 1, 1, 1, 1, 1, 1, 1, 1, 15, 32768);
  }

  lemma K32Pages256()
    ensures Least(256, 1, 32768) && Least(288, 1, 32768) && Least(320, 1, 32768) && Least(352, 1, 32768)
    ensures Least(384, 1, 32768) && Least(416, 1, 32768) && Least(448, 1, 32768) && Least(480, 1, 32768)
  {
  }

  lemma K32From256()
    ensures Total(Found(17, 240, 1), 256, 15) == Total(Found(25, 480, 1), 512, 15)
  {
    hide Total, Alignment, Pow2, Least;
    SmallPowers();
    LargePowers();
    Steps(256, 8, 15, 32);
    K32Pages256();
    var _ := Eight(Found(17, 240, 1), 256, 32, 1, 1, 1, 1, 1, 1, 1, 1, 15, 32768);
  }

  lemma K32Pages512()
    ensures Least(512, 1, 32768) && Least(576, 1, 32768) && Least(640, 1, 32768) && Least(704, 1, 32768)
    ensures Least(768, 1, 32768) && Least(832, 1, 32768) && Least(896, 1, 32768) && Least(960, 1, 32768)
  {
  }

  lemma K32From512()
    ensures Total(Found(25, 480, 1), 512, 15) == Total(Found(33, 960, 1), 1024, 15)
  {
    hide Total, Alignment, Pow2, Least;
    SmallPowers();
    LargePowers();
    Steps(512, 9, 15, 64);
    K32Pages512();
    var _ := Eight(Found(25, 480, 1), 512, 64, 1, 1, 1, 1, 1, 1, 1, 1, 15, 32768);
  }

  lemma K32Pages1024()
    ensures Least(1024, 1, 32768) && Least(1152, 1, 32768) && Least(1280, 1, 32768) && Least(1408, 1, 32768)
    ensures Least(1536, 1, 32768) && Least(1664, 1, 32768) && Least(1792, 1, 32768) && Least(1920, 1, 32768)
  {
  }

  lemma K32From1024()
    ensures Total(Found(33, 960, 1), 1024, 15) == Total(Found(41, 1920, 1), 2048, 15)
  {
    hide Total, Alignment, Pow2, Least;
    SmallPowers();
    LargePowers();
    Steps(1024, 10, 15, 128);
    K32Pages1024();
    var _ := Eight(Found(33, 960, 1), 1024, 128, 1, 1, 1, 1, 1, 1, 1, 1, 15, 32768);
  }

  lemma K32Pages2048()
    ensures Least(2048, 1, 32768) && Least(2304, 1, 32768) && Least(2560, 1, 32768) && Least(2816, 1, 32768)
    ensures Least(3072, 1, 32768) && Least(3328, 1, 32768) && Least(3584, 1, 32768) && Least(3840, 1, 32768)
  {
  }

  lemma K32From2048()
    ensures Total(Found(41, 1920, 1), 2048, 15) == Total(Found(48, 3840, 1), 4096, 15)
  {
    hide Total, Alignment, Pow2, Least;
    SmallPowers();
    LargePowers();
    Steps(2048, 11, 15, 256);
    K32Pages2048();
    var _ := Eight(Found(41, 1920, 1), 2048, 256, 1, 1, 1, 1, 1, 1, 1, 1, 15, 32768);
  }

  lemma K32Pages4096()
    ensures Least(4096, 1, 32768) && Least(4608, 1, 32768) && Least(5120, 1, 32768) && Least(5632, 2, 32768)
    ensures Least(6144, 1, 32768) && Least(6656, 2, 32768) && Least(7168, 1, 32768) && Least(7680, 1, 32768)
  {
  }

  lemma K32From4096()
    ensures Total(Found(48, 3840, 1), 4096, 15) == Total(Found(54, 7680, 1), 8192, 15)
  {
    hide Total, Alignment, Pow2, Least;
    SmallPowers();
    LargePowers();
    Steps(4096, 12, 15, 512);
    K32Pages4096();
    var _ := Eight(Found(48, 3840, 1), 4096, 512, 1, 1, 1, 2, 1, 2, 1, 1, 15, 32768);
  }

  lemma K32Pages8192()
    ensures Least(8192, 1, 32768) && Least(9216, 2, 32768) && Least(10240, 1, 32768) && Least(11264, 3, 32768)
    ensures Least(12288, 2, 32768) && Least(13312, 3, 32768) && Least(14336, 1, 32768) && Least(15360, 1, 32768)
  {
  }

  lemma K32From8192()
    ensures Total(Found(54, 7680, 1), 8192, 15) == Total(Found(60, 15360, 1), 16384, 15)
  {
    hide Total, Alignment, Pow2, Least;
    SmallPowers();
    LargePowers();
    Steps(8192, 13, 15, 1024);
    K32Pages8192();
    var _ := Eight(Found(54, 7680, 1), 8192, 1024, 1, 2, 1, 3, 2, 3, 1, 1, 15, 32768);
  }

  lemma K32Pages16384()
    ensures Least(16384, 1, 32768) && Least(18432, 3, 32768) && Least(20480, 2, 32768) && Least(22528, 3, 32768)
    ensures Least(24576, 3, 32768) && Least(26624, 5, 32768) && Least(28672, 1, 32768) && Least(30720, 1, 32768)
  {
  }

  lemma K32From16384()
    ensures Total(Found(60, 15360, 1), 16384, 15) == Total(Found(65, 30720, 1), 32768, 15)
  {
    hide Total, Alignment, Pow2, Least;
    SmallPowers();
    LargePowers();
    Steps(16384, 14, 15, 2048);
    K32Pages16384();
    var _ := Eight(Found(60, 15360, 1), 16384, 2048, 1, 3, 2, 3, 3, 5, 1, 1, 15, 32768);
  }

  lemma K32Pages32768()
    ensures Least(32768, 1, 32768) && Least(36864, 5, 32768) && Least(40960, 4, 32768) && Least(45056, 3, 32768)
    ensures Least(49152, 3, 32768) && Least(53248, 5, 32768) && Least(57344, 2, 32768) && Least(61440, 2, 32768)
  {
  }

  lemma K32From32768()
    ensures Total(Found(65, 30720, 1), 32768, 15) == Total(Found(70, 61440, 2), 65536, 15)
  {
    hide Total, Alignment, Pow2, Least;
    SmallPowers();
    LargePowers();
    Steps(32768, 15, 15, 4096);
    K32Pages32768();
    var _ := Eight(Found(65, 30720, 1), 32768, 4096, 1, 5, 4, 3, 3, 5, 2, 2, 15, 32768);
  }

  lemma K32Pages65536()
    ensures Least(65536, 2, 32768) && Least(73728, 5, 32768) && Least(81920, 5, 32768) && Least(90112, 3, 32768)
    ensures Least(98304, 3, 32768) && Least(106496, 7, 32768) && Least(114688, 4, 32768) && Least(122880, 4, 32768)
  {
  }

  lemma K32From65536()
    ensures Total(Found(70, 61440, 2), 65536, 15) == Total(Found(74, 122880, 4), 131072, 15)
  {
    hide Total, Alignment, Pow2, Least;
    SmallPowers();
    LargePowers();
    Steps(65536, 16, 15, 8192);
    K32Pages65536();
    var _ := Eight(Found(70, 61440, 2), 65536, 8192, 2, 5, 5, 3, 3, 7, 4, 4, 15, 32768);
  }

  lemma K32Pages131072()
    ensures Least(131072, 4, 32768) && Least(147456, 5, 32768) && Least(163840, 5, 32768) && Least(180224, 6, 32768)
    ensures Least(196608, 6, 32768) && Least(212992, 7, 32768) && Least(229376, 7, 32768) && Least(245760, 8, 32768)
  {
  }

  lemma K32From131072()
    ensures Total(Found(74, 122880, 4), 131072, 15) == Total(Found(78, 245760, 8), 262144, 15)
  {
    hide Total, Alignment, Pow2, Least;
    SmallPowers();
    LargePowers();
    Steps(131072, 17, 15, 16384);
    K32Pages131072();
    var _ := Eight(Found(74, 122880, 4), 131072, 16384, 4, 5, 5, 6, 6, 7, 7, 8, 15, 32768);
  }

  lemma K32Small()
    ensures Total(Found(1, 0, 0), 8, 15) == Total(Found(9, 112, 1), 128, 15)
  {
    hide Total, Pow2;
    SmallPowers();
    LargePowers();
    SmallAlignment(15);
    var f := Next(Found(1, 0, 0), 8, 8, 1, 15, 32768);
    f := Next(f, 16, 16, 1, 15, 32768);
    f := Next(f, 32, 16, 1, 15, 32768);
    f := Next(f, 48, 16, 1, 15, 32768);
    f := Next(f, 64, 16, 1, 15, 32768);
    f := Next(f, 80, 16, 1, 15, 32768);
    f := Next(f, 96, 16, 1, 15, 32768);
    f := Next(f, 112, 16, 1, 15, 32768);
  }

  lemma K32Last()
    ensures Total(Found(78, 245760, 8), MAX_SIZE, 15) == 78
  {
    hide Total, Alignment, Pow2;
    LargePowers();
    SomeAlignment(15);
    var a := Alignment(MAX_SIZE, 15);
    var f := Next(Found(78, 245760, 8), MAX_SIZE, a, 8, 15, 32768);
    Finished(f, MAX_SIZE + a, 15);
  }

  /** Init does not stop the program. */
  lemma K32Classes()
    ensures |Classes([Class(0, 0)], ALIGNMENT, 15)| == 78
  {
    hide Total, Classes;
    TotalIs([Class(0, 0)], ALIGNMENT, 15);
    K32Small();
    K32From128();
    K32From256();
    K32From512();
    K32From1024();
    K32From2048();
    K32From4096();
    K32From8192();
    K32From16384();
    K32From32768();
    K32From65536();
    K32From131072();
    K32Last();
  }

  /** With the numbers of common.h, for small pages and large ones, Init succeeds. */
  method SetUp(large: bool) returns (sizes: SizeMap)
    ensures sizes.Valid() && fresh(sizes) && fresh(sizes.classArray)
    ensures sizes.pageShift == (if large then 15 else 13) && sizes.numClasses == if large then 78 else 86
  {
    hide Classes, SizeMap.Valid;
    K8Classes();
    K32Classes();
    sizes := new SizeMap(if large then 15 else 13, if large then 78 else 86);
    var ok := sizes.Init();
    assert ok;
  }
}
