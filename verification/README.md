# Models of FABRIC's bundled allocator, XML parser and queue

FABRIC carries copies of tcmalloc with its heap checker and CPU profiler (GooglePerfTools 2.0.0),
of TinyXML-2 1.0.9 and of a lock-free message queue. This project models the parts of them that
keep invariants, and proves those invariants and what they are for. Source files are named
relative to the repository's root.

`dafny verify dfyconfig.toml` checks everything.

## What is modelled

Each class here has the fields of the class it models. A ghost field or a function gives its
abstract value, the methods are proved against functions on such values, and lemmas prove what
the functions are good for. Concurrent code is a state machine whose steps are single loads and
stores, or stretches under a lock, in any interleaving.

* **Page heap** (`Tiling`, `SpanList`, `PageHeapState`, `PageAllocator`, `PageMap`). The heap is a
  map from the first page of a block to its length and location. Three changes, relocating,
  cutting and joining, make up everything the heap does, and `Tiling` proves of any run that the
  blocks tile the pages. `PageAllocator.PageHeap` has the span descriptors, the rings of the free
  lists, the page map and the counters. Its invariant says that the page map is right at both ends
  of every block, and nothing about the entries inside: these are never cleared and may name
  descriptors that have been reused. Every method is proved to make one of the changes of
  `Tiling`, and to leave blocks in use alone. `PageMap` proves that the radix tree is a map.
* **TinyXML** (`XmlChars`, `XmlText`, `LazyString`, `XmlTree`, `XmlGrammar`, `XmlRoundTrip`,
  `XmlPrinter`, `XmlPretty`, `LazyTree`, `XmlParser`, `LazyReading`). `XmlTree` has the grammar the code accepts, as functions
  on byte strings, and the print of a tree, with line breaks or without. `XmlPrinter` and
  `XmlParser` are proved to compute them. As in the code, the strings of the parsed tree are pairs
  of positions in the buffer, decoded where they stand when they are first read (`LazyString`), and
  names already while the parse goes on: no write reaches another string or what is still to be
  parsed (`LazyTree`), so they can be read in any order (`LazyReading`). `XmlGrammar` writes the
  markup out in characters, with either quote and white space wherever it may be, and proves that
  the parser reads every spelling of a tree as that tree, and which inputs it refuses; it also says
  what the printer writes, as does `XmlPretty` for line breaks. `XmlRoundTrip` proves exactly when
  parsing undoes printing. A tree can be carried when its names are names (those of attributes
  distinct and starting with a letter), its texts are neither blank nor adjacent nor outermost and
  last, no string has NUL or CR, and no comment, CDATA, declaration or unknown contains its own end
  or could be taken for another kind.
* **Central free list** (`CentralState`, `CentralSteps`, `CentralCache`). The state of one size
  class at the points where its lock is free, and the class whose methods open those windows:
  other threads then take any steps that do not use what the waiting thread holds.
* **Heap profile and leak checker** (`AddressMap`, `HeapProfile`, `LeakFlood`, `LiveRanges`). The
  address map is proved to be a map with a predecessor search. The hooks record allocations, with
  counts for each bucket and bounds for the search. The flood marks the least set that has the
  roots and is closed under following words, and the snapshot reports the rest.
* **Memory region map** (`MemoryRegionMap`, `RecursiveLock`). Insertion, subtraction and lookup of
  disjoint regions, with the calls that come back from the allocator while the set is constructed,
  a region inserted or the rest of one put back, and the recursive lock over all interleavings.
* **Lock-free code** (`Hooks`, `MessageQueue`), **lossy tables** (`ProfileData`, `PackedCache`) and
  **size classes** (`SizeMap`, and `SizeTable` with the classes of both page sizes).

`Arithmetic` has facts about products, quotients and powers of two that several modules use, and
`Options` the type of a value that may be missing.

## Where the code does not do what it seems to

The models follow the code. Each of these has lemmas that say exactly when the code does what is
expected, or that it never does otherwise, and most have a case in which it does not.

* `Carve` and `Split` keep the length of a leftover in an `int`. Below 2^31 pages (16 TiB) this is
  exact, and the heap is assumed to stay below that (`CarveIsExact`, `SplitIsExact`,
  `TruncationLosesPages`).
* `GetNextRange` finds the next block exactly when it does not start inside one (`NextRange`).
* An unknown entity makes `GetStr` step over a byte without copying it. The result is the pure
  decoding if and only if that byte is an ampersand already (`InPlaceIsDecoded`, `StaleByte`).
* `XMLDocument::Parse` detects a byte-order mark, but parses from the start of its buffer, so the
  mark also becomes text; and text at the outermost level, which the printer does not keep apart
  from line breaks, takes them up (`MarkBecomesText`, `RoundTrip`, `ComesBack`).
* A comment in `XMLElement::ParseAttributes` says that a repeated attribute is not detected. It is:
  the code rejects it, and so does the model (`AttributeLinked`).
* An end tag at the outermost level ends the parse without an error, and what follows is not read
  (`EndTagEndsParse`, `UnreadAfterEndTag`). Text whose next tag is the last byte of the input is
  refused (`PlainTextParsed`).
* In a straddled region `RecordRegionRemoval` inserts the head before it cuts the tail. The head
  is then inside a recorded region and is dropped, unless the call comes back from the allocator
  and the head is saved (`ExactUnlessStraddled`, `HeadDropped`, `HeadKept`, `DeferredCovers`).
* `DoFindRegionLocked` looks at the first region that does not end before the address. If that one
  ends just there, the region that starts there is not found (`FoundExactly`).
* `LockIsHeld` can say yes to the previous owner (`HeldOrStale`).
* A hook that is in its slot, but whose `Add` has not published the new end, is not seen by a
  traversal (`OccupiedIsReturned`, `TraverseReturns`, `OccupiedButMissed`).
* `NonLiveSnapshot` is documented as skipping ignored objects. The code looks at the live bit only
  (`IgnoredAreSkipped`, `IgnoredIsReported`).
* Recording an allocation at an address that is recorded already leaves the old one in the counts
  (`BalanceAllocated`).
* `MakeCacheSpace` never enlarges a cache: that branch is disabled in this copy (`NeverGrows`).
* With a bound below the largest size, `FindInside` still finds a range whose block is close
  enough to the key: the bound counts from the end of a block (`InReach`, `FindInside`). Only the
  cap on offsets sets such a bound (`ResolvesExactly`).
* The count of dequeued messages can be ahead of that of enqueued ones (`CountAhead`, `AheadOnce`).

## Model

| member | source | states |
|---|---|---|
| Tiling.RunEffect | THIRDPARTY/GooglePerfTools/v2.0.0/src/page_heap.cc:93-261 | over any run of allocating, deallocating, splitting, growing and releasing, the blocks never overlap, no two adjacent free blocks are on lists of one kind, every page granted stays in a block, and the pages in use are those handed out less those given back |
| Tiling.EventEffect | THIRDPARTY/GooglePerfTools/v2.0.0/src/page_heap.cc:93-261 | the same for one call, whichever it is |
| Tiling.EventPages | THIRDPARTY/GooglePerfTools/v2.0.0/src/page_heap.cc:93-261 | and page by page: a call changes the location of the pages it names and of no others, but that scavenging may turn normal pages into returned ones |
| Tiling.OwnedIsGranted | THIRDPARTY/GooglePerfTools/v2.0.0/src/page_heap.cc:405-452 | over any run of calls the heap owns the pages it owned before and those it was granted, and no others |
| Tiling.GrantedOnce | THIRDPARTY/GooglePerfTools/v2.0.0/src/page_heap.cc:405-452 | in a run from the start no page is granted twice |
| Tiling.OneLocation | THIRDPARTY/GooglePerfTools/v2.0.0/src/page_heap.cc:145-261 | a page of the heap is in exactly one of: in use, on a normal list, on a returned list |
| Tiling.FreedPage | THIRDPARTY/GooglePerfTools/v2.0.0/src/page_heap.cc:202-239 | merging a freed block changes the location of its own pages and of no others |
| Tiling.FreedTotal | THIRDPARTY/GooglePerfTools/v2.0.0/src/page_heap.cc:202-261 | merging moves exactly the freed pages from one byte count to another |
| Tiling.FreedCoalesced | THIRDPARTY/GooglePerfTools/v2.0.0/src/page_heap.cc:202-239 | after a merge no adjacent free blocks of one kind remain, if there were none before |
| Tiling.MergeInSteps | THIRDPARTY/GooglePerfTools/v2.0.0/src/page_heap.cc:214-238 | absorbing the previous block, then the next, then listing the result, is freeing |
| Tiling.FreedServes | THIRDPARTY/GooglePerfTools/v2.0.0/src/page_heap.cc:202-239 | freeing or releasing never loses the ability to serve a request of n pages |
| Tiling.FreeUndoesCarve | THIRDPARTY/GooglePerfTools/v2.0.0/src/page_heap.cc:163-200 | freeing what was carved restores the blocks if and only if it was carved from a normal block |
| Tiling.CarvedCoalesced | THIRDPARTY/GooglePerfTools/v2.0.0/src/page_heap.cc:163-184 | what a carve leaves over needs no merging |
| Tiling.ReleasedAllEffect | THIRDPARTY/GooglePerfTools/v2.0.0/src/page_heap.cc:294-331 | any sequence of releases keeps the tiling and the pages in use; pages go from the normal count to the returned one, never back |
| Tiling.ReleasedAllServes | THIRDPARTY/GooglePerfTools/v2.0.0/src/page_heap.cc:294-331 | nor does it lose the ability to serve a request |
| PageHeapState.MappedCut | THIRDPARTY/GooglePerfTools/v2.0.0/src/page_heap.cc:145-161 | the page map knows the first and last page of every block after a cut that records only the new boundaries |
| PageHeapState.MappedJoinLeft | THIRDPARTY/GooglePerfTools/v2.0.0/src/page_heap.cc:214-225 | and after a block takes over the one before it, although the entries that are now inside stay |
| PageHeapState.MappedJoinRight | THIRDPARTY/GooglePerfTools/v2.0.0/src/page_heap.cc:226-236 | and after it takes over the one after it |
| PageHeapState.LookupBefore | THIRDPARTY/GooglePerfTools/v2.0.0/src/page_heap.cc:214-217 | looking up the page before a block finds exactly the block that ends there, stale entries notwithstanding |
| PageHeapState.LookupAfter | THIRDPARTY/GooglePerfTools/v2.0.0/src/page_heap.cc:226-229 | looking up the page after a block finds exactly the block that starts there |
| PageHeapState.EntriesMayBeStale | THIRDPARTY/GooglePerfTools/v2.0.0/src/page_heap.cc:202-239 | an entry inside a block may name a descriptor that is deleted |
| PageHeapState.NextRange | THIRDPARTY/GooglePerfTools/v2.0.0/src/page_heap.cc:366-370 | the next entry from a page on is that of the next block, with a live descriptor, if and only if the page is not inside a block |
| PageHeapState.CarveIsExact | THIRDPARTY/GooglePerfTools/v2.0.0/src/page_heap.cc:163-184 | the parts that Carve makes add up if and only if the leftover, kept in an `int`, is not too long for one |
| PageHeapState.SplitIsExact | THIRDPARTY/GooglePerfTools/v2.0.0/src/page_heap.cc:145-161 | the same for Split, whose leftover may also come out with a negative length |
| PageHeapState.TruncationLosesPages | THIRDPARTY/GooglePerfTools/v2.0.0/src/page_heap.cc:145-184 | a larger block would lose pages to either: 2^32 + 2 pages, cut after one |
| SpanList.RingWithout | THIRDPARTY/GooglePerfTools/v2.0.0/src/span.cc:77-82 | linking the neighbours of a span past it leaves the ring of the others |
| SpanList.DLL_Remove | THIRDPARTY/GooglePerfTools/v2.0.0/src/span.cc:77-82 | the span is off its list, the other spans keep their order, its links are null |
| SpanList.DLL_Prepend | THIRDPARTY/GooglePerfTools/v2.0.0/src/span.cc:92-99 | the list is the span followed by what it was |
| PageAllocator.PageHeap.RemoveFromFreeList | THIRDPARTY/GooglePerfTools/v2.0.0/src/page_heap.cc:253-261 | the invariant holds with the span off its list, and the byte count of its kind is less by its size |
| PageAllocator.PageHeap.PrependToFreeList | THIRDPARTY/GooglePerfTools/v2.0.0/src/page_heap.cc:241-251 | the span is on the list that its length and location select, and counted there |
| PageAllocator.PageHeap.Split | THIRDPARTY/GooglePerfTools/v2.0.0/src/page_heap.cc:145-161 | the block in use becomes two adjacent blocks in use, each with its descriptor in the page map; other blocks in use are as they were |
| PageAllocator.PageHeap.Carve | THIRDPARTY/GooglePerfTools/v2.0.0/src/page_heap.cc:163-184 | the first n pages are in use, the rest stays on a list of the kind it was on; other blocks in use are as they were |
| PageAllocator.PageHeap.MergePrevious | THIRDPARTY/GooglePerfTools/v2.0.0/src/page_heap.cc:214-225 | the block before is absorbed if it is free on a list of the same kind, otherwise nothing happens |
| PageAllocator.PageHeap.MergeNext | THIRDPARTY/GooglePerfTools/v2.0.0/src/page_heap.cc:226-236 | the same for the block after |
| PageAllocator.PageHeap.MergeIntoFreeList | THIRDPARTY/GooglePerfTools/v2.0.0/src/page_heap.cc:202-239 | the block with its free neighbours of the kind is one free block on its list |
| PageAllocator.PageHeap.Delete | THIRDPARTY/GooglePerfTools/v2.0.0/src/page_heap.cc:186-200 | the block in use is freed and merged, and scavenging may then release normal blocks; other blocks in use are untouched; no free span keeps a size class or a sample mark |
| PageAllocator.PageHeap.BestLarge | THIRDPARTY/GooglePerfTools/v2.0.0/src/page_heap.cc:109-143 | no large span will do, or the one chosen is a shortest adequate one over both large lists, the lowest of equally short ones |
| PageAllocator.PageHeap.FirstSmall | THIRDPARTY/GooglePerfTools/v2.0.0/src/page_heap.cc:70-88 | the first non-empty list from n up gives a shortest adequate span, a normal one before a returned one |
| PageAllocator.PageHeap.SearchFreeAndLargeLists | THIRDPARTY/GooglePerfTools/v2.0.0/src/page_heap.cc:70-91 | null if and only if no free block has n pages; otherwise exactly n pages carved from a best-fitting block |
| PageAllocator.PageHeap.GrowHeap | THIRDPARTY/GooglePerfTools/v2.0.0/src/page_heap.cc:405-452 | succeeds if and only if the bytes asked for are below 2^64, the page map grows and the system grants its first reply or, for less than a megabyte, its second; then exactly the granted pages are owned besides, merged in, possibly some are released, and n pages can be served; otherwise nothing changes |
| PageAllocator.PageHeap.New | THIRDPARTY/GooglePerfTools/v2.0.0/src/page_heap.cc:93-107 | null if and only if no free block has n pages and the heap cannot grow, as GrowHeap says; otherwise a span of exactly n pages, without size class or sample mark, from a best-fitting block of the heap as it was, or as it is after growing and scavenging |
| PageAllocator.PageHeap.ReleaseLastNormalSpan | THIRDPARTY/GooglePerfTools/v2.0.0/src/page_heap.cc:294-304 | the last span of the normal list given, and no other, goes to the returned lists, merged there |
| PageAllocator.PageHeap.ReleaseRound | THIRDPARTY/GooglePerfTools/v2.0.0/src/page_heap.cc:317-329 | a round over the lists goes on from where the last one stopped, and stops once enough is released: what was released before the last span is less than asked for; a whole round releases something unless no normal span is left |
| PageAllocator.PageHeap.ReleaseAtLeastNPages | THIRDPARTY/GooglePerfTools/v2.0.0/src/page_heap.cc:306-331 | returns exactly the pages moved from normal to returned lists; at least as many as asked for unless no normal page is left, and fewer before the last span |
| PageAllocator.PageHeap.IncrementalScavenge | THIRDPARTY/GooglePerfTools/v2.0.0/src/page_heap.cc:263-292 | only counts while there is time left, and releases nothing at a rate of at most 0.000001; otherwise releases one span, if a normal one is left, and waits in proportion to its pages, a megapage at most; blocks in use are as they were |
| PageAllocator.PageHeap.RegisterSizeClass | THIRDPARTY/GooglePerfTools/v2.0.0/src/page_heap.cc:333-343 | every page of the block is mapped to its span, no other entry changes |
| PageAllocator.PageHeap.FreeIsListed | THIRDPARTY/GooglePerfTools/v2.0.0/src/page_heap.cc:241-251 | the page map leads from the first page of a free block to a descriptor on the list for its length and location |
| PageMap.LevelsFit | THIRDPARTY/GooglePerfTools/v2.0.0/src/pagemap.h:210-216 | the three levels divide a key of any number of bits without rest, except one bit |
| PageMap.SetHolds | THIRDPARTY/GooglePerfTools/v2.0.0/src/pagemap.h:258-264 | storing through the indices changes one key of the map the tree holds |
| PageMap.PageMap3.Lookup | THIRDPARTY/GooglePerfTools/v2.0.0/src/pagemap.h:247-256 | the value of the key in the abstract map, null for absent nodes, leaves and keys of too many bits |
| PageMap.PageMap3.Set | THIRDPARTY/GooglePerfTools/v2.0.0/src/pagemap.h:258-264 | one key of the map changes; what can be set stays the same |
| PageMap.PageMap3.Ensure | THIRDPARTY/GooglePerfTools/v2.0.0/src/pagemap.h:266-294 | no value changes; on success every key up to the last one, taken modulo 2^64, can be set; failure means that memory or key bits ran out |
| PageMap.LastIs | THIRDPARTY/GooglePerfTools/v2.0.0/src/pagemap.h:266-267 | what the last key of the range is when the range is empty or wraps |
| PageMap.PageMap3.Next | THIRDPARTY/GooglePerfTools/v2.0.0/src/pagemap.h:299-320 | the value at the least key from k on that has one; null only if there is none |
| PageMap.NodeAbsent | THIRDPARTY/GooglePerfTools/v2.0.0/src/pagemap.h:301-305 | skipping an absent node skips no key |
| PageMap.LeafAbsent | THIRDPARTY/GooglePerfTools/v2.0.0/src/pagemap.h:306-316 | nor does skipping an absent leaf |
| XmlText.Utf8IsReadBack | THIRDPARTY/TinyXML/v1.0.9/tinyxml2.cpp:289-332 | the bytes of a code point spell it again, as section 3 of RFC 3629 has them |
| XmlText.Utf8Shape | THIRDPARTY/TinyXML/v1.0.9/tinyxml2.cpp:289-332 | the first byte tells the length, the others are continuation bytes |
| LazyString.StrPair.ConvertUTF32ToUTF8 | THIRDPARTY/TinyXML/v1.0.9/tinyxml2.cpp:289-332 | writing the bytes from the last to the first gives that encoding |
| XmlText.ScanIsNumber | THIRDPARTY/TinyXML/v1.0.9/tinyxml2.cpp:358-403 | the backward scan computes the number, in spite of its 32-bit multiplier, for all numbers below 2^32 |
| XmlText.ReferenceDecodes | THIRDPARTY/TinyXML/v1.0.9/tinyxml2.cpp:335-410 | a decimal or hexadecimal reference is read as the UTF-8 of its number |
| XmlText.InPlaceIsDecoded | THIRDPARTY/TinyXML/v1.0.9/tinyxml2.cpp:185-267 | decoding in place gives the pure decoding if and only if the write pointer is on an ampersand at every unknown entity |
| XmlText.WellFormedIsDecoded | THIRDPARTY/TinyXML/v1.0.9/tinyxml2.cpp:217-250 | that is so when every ampersand starts a known entity or a reference that can be read |
| XmlText.StaleByte | THIRDPARTY/TinyXML/v1.0.9/tinyxml2.cpp:244-248 | a string for which it is not so |
| XmlText.DecodedEncoded | THIRDPARTY/TinyXML/v1.0.9/tinyxml2.cpp:1804-1839 | decoding undoes PrintString on every string without NUL and CR, for both entity sets and with entities off |
| XmlText.LinesDecoded | THIRDPARTY/TinyXML/v1.0.9/tinyxml2.cpp:196-216 | without entity processing such a string stands for itself |
| XmlText.PlainLinesNormalised | THIRDPARTY/TinyXML/v1.0.9/tinyxml2.cpp:196-216 | lines joined by any one of CR, LF, CR LF and LF CR are read as the lines joined by LF |
| XmlText.LinesNormalised | THIRDPARTY/TinyXML/v1.0.9/tinyxml2.cpp:185-267 | the same with entity processing, where each line is read as if it stood alone |
| XmlText.EncodedBytes | THIRDPARTY/TinyXML/v1.0.9/tinyxml2.cpp:1804-1839 | what PrintString never writes: NUL, CR, and the characters of its entity set other than the ampersand, which starts every entity |
| LazyString.BeforeIsFirst | THIRDPARTY/TinyXML/v1.0.9/tinyxml2.cpp:113-130 | the text ends at the first occurrence of the end tag, and is refused only if there is none |
| LazyString.StrPair.Set | THIRDPARTY/TinyXML/v1.0.9/tinyxml2.h:143-148 | the pair is the range given, yet to be decoded |
| LazyString.StrPair.ParseText | THIRDPARTY/TinyXML/v1.0.9/tinyxml2.cpp:113-130 | the pair is the text before the first end tag and the result the position after it; null, and nothing changed, without one |
| LazyString.StrPair.ParseName | THIRDPARTY/TinyXML/v1.0.9/tinyxml2.cpp:133-155 | the pair is the longest name; null without one |
| LazyString.StrPair.GetCharacterRef | THIRDPARTY/TinyXML/v1.0.9/tinyxml2.cpp:335-410 | reads one reference; null if it is malformed |
| LazyString.StrPair.FindEntity | THIRDPARTY/TinyXML/v1.0.9/tinyxml2.cpp:232-243 | the first entity of the table that stands there |
| LazyString.StrPair.ReadUnit | THIRDPARTY/TinyXML/v1.0.9/tinyxml2.cpp:195-256 | one round of the loop writes what one unit stands for and changes no other byte; after a malformed reference the pointer is null |
| LazyString.StrPair.GetStr | THIRDPARTY/TinyXML/v1.0.9/tinyxml2.cpp:185-267 | unless a reference is malformed, and then ok is false: the buffer holds the decoded string, collapsed if asked for, and a NUL; bytes outside the pair are untouched; a second call changes nothing |
| LazyString.StrPair.CollapseWhitespace | THIRDPARTY/TinyXML/v1.0.9/tinyxml2.cpp:158-182 | white space is trimmed at the start, and each run of it is one space or, at the end, nothing |
| XmlRoundTrip.RoundTrip | THIRDPARTY/TinyXML/v1.0.9/tinyxml2.cpp:495-567 | parsing the print of any tree the grammar can carry, with or without line breaks, gives the tree back without an error, but that text at the outermost level has taken up the line breaks next to it |
| XmlRoundTrip.ComesBack | THIRDPARTY/TinyXML/v1.0.9/tinyxml2.cpp:1668-1693 | a tree comes back from its print if and only if that has no byte-order mark and, in the print with line breaks, no outermost text has one next to it |
| XmlRoundTrip.PaddedUnchanged | THIRDPARTY/TinyXML/v1.0.9/tinyxml2.cpp:1854-2043 | the line breaks change nothing if and only if no outermost text comes after an element, or before a tag when something other than text was printed |
| XmlRoundTrip.PrintIsInjective | THIRDPARTY/TinyXML/v1.0.9/tinyxml2.cpp:1804-2098 | different trees that come back print differently |
| XmlRoundTrip.MarkBecomesText | THIRDPARTY/TinyXML/v1.0.9/tinyxml2.cpp:1668-1693 | with a byte-order mark the mark comes back as text, a node of its own or the start of the first one, since the parse starts before it |
| XmlRoundTrip.LevelParsed | THIRDPARTY/TinyXML/v1.0.9/tinyxml2.cpp:777-853 | a list of siblings printed at any depth and followed by anything is read as those siblings, and then the rest is read |
| XmlRoundTrip.ElementParsed | THIRDPARTY/TinyXML/v1.0.9/tinyxml2.cpp:1407-1435 | an element with its attributes, children and end tag is read back |
| XmlRoundTrip.AttributesParsed | THIRDPARTY/TinyXML/v1.0.9/tinyxml2.cpp:1346-1400 | the attributes are read back in order, with the way the tag is sealed |
| XmlRoundTrip.AttributeLinked | THIRDPARTY/TinyXML/v1.0.9/tinyxml2.cpp:1346-1400 | an attribute is linked if and only if none of that name is; otherwise the parse fails |
| XmlRoundTrip.DelimitedParsed | THIRDPARTY/TinyXML/v1.0.9/tinyxml2.cpp:856-1022 | comments, CDATA, declarations and unknowns are read back |
| XmlRoundTrip.PlainTextParsed | THIRDPARTY/TinyXML/v1.0.9/tinyxml2.cpp:856-881 | text is read back up to the next tag, and refused if that is one byte at the end of the input |
| XmlRoundTrip.FoundAtEnd | THIRDPARTY/TinyXML/v1.0.9/tinyxml2.cpp:113-130 | an end tag is found where it was printed, even where text and tag overlap |
| XmlRoundTrip.NodesReadBack | THIRDPARTY/TinyXML/v1.0.9/tinyxml2.cpp:185-267 | decoding the strings of the tree that was read gives the tree that was printed |
| XmlRoundTrip.EndTagEndsParse | THIRDPARTY/TinyXML/v1.0.9/tinyxml2.cpp:777-853 | an end tag at the outermost level ends the parse without an error, whatever follows |
| XmlRoundTrip.UnreadAfterEndTag | THIRDPARTY/TinyXML/v1.0.9/tinyxml2.cpp:777-853 | a parse without an error leaves input unread if and only if it met such a tag, and then exactly what follows it |
| XmlGrammar.NamesAre | THIRDPARTY/TinyXML/v1.0.9/tinyxml2.cpp:133-155 | names, written out: letters, bytes above 127, digits, underscores and colons, and from the second byte on hyphens and dots |
| XmlGrammar.SpaceIsBlank | THIRDPARTY/TinyXML/v1.0.9/tinyxml2.h:464-466 | white space, written out |
| XmlGrammar.AttributeRead | THIRDPARTY/TinyXML/v1.0.9/tinyxml2.cpp:1047-1072 | any name, with any white space on either side of the equals sign and either quote, is read with exactly the value between the quotes, whatever follows |
| XmlGrammar.AttributesAreRead | THIRDPARTY/TinyXML/v1.0.9/tinyxml2.cpp:1346-1400 | any attributes of different names are linked in their order, up to the end of the tag, sealed or not |
| XmlGrammar.AttributeTaken | THIRDPARTY/TinyXML/v1.0.9/tinyxml2.cpp:1356-1376 | one that is read is linked if and only if its name is new |
| XmlGrammar.StartIsRead | THIRDPARTY/TinyXML/v1.0.9/tinyxml2.cpp:1407-1435 | a start tag, with white space anywhere it may be, is read as an element of that name and those attributes |
| XmlGrammar.EndIsRead | THIRDPARTY/TinyXML/v1.0.9/tinyxml2.cpp:811-843 | an end tag with white space in it ends the level |
| XmlGrammar.DelimitedIsRead | THIRDPARTY/TinyXML/v1.0.9/tinyxml2.cpp:856-1022 | CDATA, comments, declarations and unknowns are read with whatever they contain but their own end |
| XmlGrammar.TextIsRead | THIRDPARTY/TinyXML/v1.0.9/tinyxml2.cpp:856-881 | text is read up to the next tag, with the white space around it |
| XmlGrammar.ItemIsRead | THIRDPARTY/TinyXML/v1.0.9/tinyxml2.cpp:777-853 | whatever way a node is spelled, it is read as its tree if its end tag has its name, and refused as mismatched if it has any other |
| XmlGrammar.LevelIsRead | THIRDPARTY/TinyXML/v1.0.9/tinyxml2.cpp:777-853 | any siblings, at any depth and followed by anything, are read as their trees, and then the rest is read |
| XmlGrammar.DocumentIsRead | THIRDPARTY/TinyXML/v1.0.9/tinyxml2.cpp:1668-1693 | any document is read as its trees, without an error and to its end |
| XmlGrammar.AttributeRefused | THIRDPARTY/TinyXML/v1.0.9/tinyxml2.cpp:1047-1072 | no attribute without an equals sign, without a quote, or without the second quote |
| XmlGrammar.TagNotEnded | THIRDPARTY/TinyXML/v1.0.9/tinyxml2.cpp:1346-1400 | a tag that ends the input, or has anything but attributes before its end, is an error |
| XmlGrammar.StartRefused | THIRDPARTY/TinyXML/v1.0.9/tinyxml2.cpp:1407-1435 | an error in a tag is that of the element |
| XmlGrammar.CommentNotEnded | THIRDPARTY/TinyXML/v1.0.9/tinyxml2.cpp:919-927 | a comment that does not end is an error |
| XmlGrammar.CDataNotEnded | THIRDPARTY/TinyXML/v1.0.9/tinyxml2.cpp:856-881 | so is CDATA |
| XmlGrammar.DeclarationNotEnded | THIRDPARTY/TinyXML/v1.0.9/tinyxml2.cpp:966-975 | so is a declaration |
| XmlGrammar.UnknownNotEnded | THIRDPARTY/TinyXML/v1.0.9/tinyxml2.cpp:1012-1022 | so is an unknown |
| XmlGrammar.TextWithoutTag | THIRDPARTY/TinyXML/v1.0.9/tinyxml2.cpp:856-881 | so is text that no tag follows |
| XmlGrammar.Unclosed | THIRDPARTY/TinyXML/v1.0.9/tinyxml2.cpp:777-853 | so is an element without an end tag |
| XmlGrammar.ErrorEndsParse | THIRDPARTY/TinyXML/v1.0.9/tinyxml2.cpp:796-809 | the first error ends the level, with the nodes before it |
| XmlGrammar.NoDocument | THIRDPARTY/TinyXML/v1.0.9/tinyxml2.cpp:1668-1693 | white space alone is an empty document, an error |
| XmlGrammar.EntityWritten | THIRDPARTY/TinyXML/v1.0.9/tinyxml2.cpp:1804-1839 | the five entities as they are written; quotes stay in text |
| XmlGrammar.EntityRead | THIRDPARTY/TinyXML/v1.0.9/tinyxml2.cpp:217-250 | and as they are read |
| XmlGrammar.DigitsAre | THIRDPARTY/TinyXML/v1.0.9/tinyxml2.cpp:358-403 | the digits of references, decimal and hexadecimal in either case |
| XmlGrammar.NumberIs | THIRDPARTY/TinyXML/v1.0.9/tinyxml2.cpp:358-403 | a number has its digit of highest value first |
| XmlGrammar.ReferencesRead | THIRDPARTY/TinyXML/v1.0.9/tinyxml2.cpp:335-410 | references, written out, are read as the UTF-8 of their number |
| XmlGrammar.LinesOfNodes | THIRDPARTY/TinyXML/v1.0.9/tinyxml2.cpp:185-267 | comments, declarations, unknowns and CDATA are read line by line as they stand; text and attribute values too, unless entities are processed |
| XmlGrammar.CollapsedWords | THIRDPARTY/TinyXML/v1.0.9/tinyxml2.cpp:158-182 | with white space collapsed, words are set apart by single spaces, with none at either end |
| XmlGrammar.MarkIs | THIRDPARTY/TinyXML/v1.0.9/tinyxml2.cpp:274-286 | the byte-order mark is the encoding of U+FEFF |
| XmlGrammar.IndentIs | THIRDPARTY/TinyXML/v1.0.9/tinyxml2.cpp:1796-1801 | four bytes for each level, all of them spaces |
| XmlGrammar.NodesPrinted | THIRDPARTY/TinyXML/v1.0.9/tinyxml2.cpp:1854-2098 | without line breaks the print is one spelling: one space before each attribute, double quotes, no other white space, elements without children sealed |
| XmlPretty.PrettyPrinted | THIRDPARTY/TinyXML/v1.0.9/tinyxml2.cpp:1854-2098 | with line breaks, when no text stands beside other nodes: an element has its text on its own line and each other child on a line of its own, four spaces further in; an outermost element is followed by a line end |
| XmlParser.XMLDocument.Identify | THIRDPARTY/TinyXML/v1.0.9/tinyxml2.cpp:495-567 | the kind of node is decided by the first header that fits; text starts before its white space |
| XmlParser.XMLDocument.StringEqual | THIRDPARTY/TinyXML/v1.0.9/tinyxml2.h:468-482 | two positions compare equal if and only if the C strings there are the same |
| XmlParser.XMLDocument.ParseAttribute | THIRDPARTY/TinyXML/v1.0.9/tinyxml2.cpp:1047-1072 | the recursive-descent specification of one attribute, on the buffer; its name and value are pairs of positions that hold those of the specification |
| XmlParser.XMLDocument.Linked | THIRDPARTY/TinyXML/v1.0.9/tinyxml2.cpp:1200-1209 | decoding the names in the buffer and comparing them there finds a name if and only if it was read before, and no string read so far is lost |
| XmlParser.XMLDocument.ParseAttributes | THIRDPARTY/TinyXML/v1.0.9/tinyxml2.cpp:1346-1400 | the same as ParseAttribute for a start tag: a repeated name is an error; nothing is written before the tag or in what is still to be read |
| XmlParser.XMLDocument.ParseElement | THIRDPARTY/TinyXML/v1.0.9/tinyxml2.cpp:1407-1435 | the same for an element and all in it |
| XmlParser.XMLDocument.MatchTag | THIRDPARTY/TinyXML/v1.0.9/tinyxml2.cpp:822-843 | the end tag and the name of the element, terminated in the buffer and compared there, match if and only if they were read as the same; the strings of the children stay |
| XmlParser.XMLDocument.Next | THIRDPARTY/TinyXML/v1.0.9/tinyxml2.cpp:796-848 | one round of the loop adds the node the specification reads, to the children and their strings, or ends the level as the specification does |
| XmlParser.XMLDocument.ParseDeep | THIRDPARTY/TinyXML/v1.0.9/tinyxml2.cpp:777-853 | the same as ParseElement for a level of children |
| XmlParser.XMLDocument.Parse | THIRDPARTY/TinyXML/v1.0.9/tinyxml2.cpp:1668-1693 | error, byte-order flag and the shape of the tree are those of the specification, and so is every string its pairs hold, for a C string, for a length that stops short of its end or goes beyond it, and for the null pointer |
| LazyTree.ShowsFlushed | THIRDPARTY/TinyXML/v1.0.9/tinyxml2.cpp:185-267 | decoding one string of a tree in place leaves every other one, decoded or not, as it is: each ends before the next one starts |
| XmlParser.XMLDocument.Flush | THIRDPARTY/TinyXML/v1.0.9/tinyxml2.cpp:185-267 | GetStr on any string of the tree shows that string, and the tree still holds all its strings |
| XmlParser.XMLDocument.ReadAll | THIRDPARTY/TinyXML/v1.0.9/tinyxml2.h:607-610 | any of the strings, in any order and as often as asked, are each what decoding it alone gives |
| LazyReading.AllStringsDecoded | THIRDPARTY/TinyXML/v1.0.9/tinyxml2.cpp:185-267 | the strings of the decoded tree are the decoded strings of the tree, in the same order |
| LazyReading.ReadingIsDecoded | THIRDPARTY/TinyXML/v1.0.9/tinyxml2.cpp:185-267 | a string is left in the buffer as the decoded tree has it if and only if no unknown ampersand is stepped over with another byte under the write pointer |
| LazyReading.CarriedReading | THIRDPARTY/TinyXML/v1.0.9/tinyxml2.cpp:185-267 | in the print of a tree that can be carried every string is read as it was printed |
| LazyReading.SameNodes | THIRDPARTY/TinyXML/v1.0.9/tinyxml2.cpp:777-853 | two trees of the shape that was parsed are the same if their strings are |
| LazyReading.ParseAndRead | THIRDPARTY/TinyXML/v1.0.9/tinyxml2.cpp:1668-1693 | parsing a print and reading any strings in any order gives the strings of the document that was printed, in either mode |
| LazyReading.ParseMarkup | THIRDPARTY/TinyXML/v1.0.9/tinyxml2.cpp:1668-1693 | whatever way a document is spelled, Parse builds its tree without an error, and its pairs hold the strings of that tree |
| XmlPrinter.XMLPrinter.PrintString | THIRDPARTY/TinyXML/v1.0.9/tinyxml2.cpp:1804-1839 | the runs between entities and the entities together are the encoded string |
| XmlPrinter.XMLPrinter.PrintSpace | THIRDPARTY/TinyXML/v1.0.9/tinyxml2.cpp:1796-1801 | four spaces for each level |
| XmlPrinter.XMLPrinter.OpenElement | THIRDPARTY/TinyXML/v1.0.9/tinyxml2.cpp:1854-1870 | seals the element before, starts a new line where one is due, and starts a tag |
| XmlPrinter.XMLPrinter.CloseElement | THIRDPARTY/TinyXML/v1.0.9/tinyxml2.cpp:1914-1937 | seals an empty element or writes the end tag of the element on top of the stack, with the line breaks that are due |
| XmlPrinter.XMLPrinter.PushText | THIRDPARTY/TinyXML/v1.0.9/tinyxml2.cpp:1947-1962 | writes text or CDATA as the specification has it, and stays on the line until the element ends |
| XmlPrinter.XMLPrinter.PushComment | THIRDPARTY/TinyXML/v1.0.9/tinyxml2.cpp:2004-2015 | writes a comment, on a new line where one is due |
| XmlPrinter.XMLPrinter.PushDeclaration | THIRDPARTY/TinyXML/v1.0.9/tinyxml2.cpp:2018-2029 | writes a declaration, on a new line where one is due |
| XmlPrinter.XMLPrinter.PushUnknown | THIRDPARTY/TinyXML/v1.0.9/tinyxml2.cpp:2032-2043 | writes an unknown, on a new line where one is due |
| XmlPrinter.XMLPrinter.Accept | THIRDPARTY/TinyXML/v1.0.9/tinyxml2.cpp:1477-1487 | the visit of a node writes the text of its subtree, in either mode, and leaves the stack and the depth as they were |
| XmlPrinter.XMLPrinter.PrintDocument | THIRDPARTY/TinyXML/v1.0.9/tinyxml2.cpp:570-580 | the buffer holds the text of the document, in either mode |
| CentralSteps.StepKeeps | THIRDPARTY/GooglePerfTools/v2.0.0/src/central_freelist.cc:81-361 | whichever thread takes the next step, when the lock is free again: free objects and references of each span make up its capacity, the counters are right, spans with free objects are on the one list and the others on the other, the slots are within bounds, and no object is lost |
| CentralSteps.NeverGrows | THIRDPARTY/GooglePerfTools/v2.0.0/src/central_freelist.cc:166-189 | over any run of any threads the cache does not get larger: the branch that would enlarge it is disabled |
| CentralSteps.RunConserves | THIRDPARTY/GooglePerfTools/v2.0.0/src/central_freelist.cc:81-361 | over any run from the start: free, cached and handed-out objects together are all that the listed spans were cut into, and with nothing out no span is kept |
| CentralSteps.OnePlace | THIRDPARTY/GooglePerfTools/v2.0.0/src/central_freelist.cc:103-148 | no object is in two of: a span's list, a slot, a caller |
| CentralSteps.OwnerFound | THIRDPARTY/GooglePerfTools/v2.0.0/src/central_freelist.cc:97-101 | the page map leads from an object that is out to the span it was cut from |
| CentralSteps.ReturnedKeeps | THIRDPARTY/GooglePerfTools/v2.0.0/src/central_freelist.cc:103-148 | returning an object keeps the invariant, with the span leaving when all its objects are back |
| CentralSteps.AddedKeeps | THIRDPARTY/GooglePerfTools/v2.0.0/src/central_freelist.cc:314-361 | a new span, cut up and fetched from at once, keeps it |
| CentralSteps.FetchKeeps | THIRDPARTY/GooglePerfTools/v2.0.0/src/central_freelist.cc:295-311 | a fetch keeps it |
| CentralState.CarvedOnce | THIRDPARTY/GooglePerfTools/v2.0.0/src/central_freelist.cc:339-351 | disjoint spans have no object in common |
| CentralCache.MostSlots | THIRDPARTY/GooglePerfTools/v2.0.0/src/central_freelist.cc:48-80 | a cache holds at most a megabyte, but one batch at least, and not more slots than there are; with one slot more it would hold more |
| CentralCache.ReleaseMeans | THIRDPARTY/GooglePerfTools/v2.0.0/src/central_freelist.cc:103-148 | a release in any state: the span that the object lies in has it back as its first free object, or leaves if it was the last one out; other spans are as they were |
| CentralCache.CentralFreeList.constructor | THIRDPARTY/GooglePerfTools/v2.0.0/src/central_freelist.cc:48-80 | a cache of at most sixteen slots to begin with, none of them used |
| CentralCache.CentralFreeList.SplitBlock | THIRDPARTY/GooglePerfTools/v2.0.0/src/central_freelist.cc:339-353 | the pieces are as many as fit, each the size of the class after the one before |
| CentralCache.CentralFreeList.FetchFromSpans | THIRDPARTY/GooglePerfTools/v2.0.0/src/central_freelist.cc:295-311 | null if and only if no span has a free object; otherwise one object goes out, and its span changes lists when it was the last |
| CentralCache.CentralFreeList.ReleaseToSpans | THIRDPARTY/GooglePerfTools/v2.0.0/src/central_freelist.cc:103-148 | the object is back on its span, which goes back to the page heap when it is the last |
| CentralCache.CentralFreeList.ShrinkLocked | THIRDPARTY/GooglePerfTools/v2.0.0/src/central_freelist.cc:206-232 | a cache with unused slots shrinks by one; a full one only if force is set, and then its last chain is for the caller to return; an empty one does not |
| CentralCache.CentralFreeList.ReleaseListToSpans | THIRDPARTY/GooglePerfTools/v2.0.0/src/central_freelist.cc:81-90 | the thread gives back exactly the objects of the chain, whatever other threads do in the windows around the page heap |
| CentralCache.CentralFreeList.MakeCacheSpace | THIRDPARTY/GooglePerfTools/v2.0.0/src/central_freelist.cc:166-189 | true only if a slot is free; the thread moves no object, and the cache is no larger than it was, whatever other threads do |
| CentralCache.CentralFreeList.InsertRange | THIRDPARTY/GooglePerfTools/v2.0.0/src/central_freelist.cc:234-247 | a full batch fills a slot if one is free, otherwise every object goes home: the thread gives up exactly the chain, by a slot or one by one, and nothing is lost in the windows |
| CentralCache.CentralFreeList.FetchFromSpansSafe | THIRDPARTY/GooglePerfTools/v2.0.0/src/central_freelist.cc:286-293 | one object, populating if need be; none if and only if the spans had none and the page heap, asked then, had nothing |
| CentralCache.CentralFreeList.Populate | THIRDPARTY/GooglePerfTools/v2.0.0/src/central_freelist.cc:314-361 | the span that the page heap grants is cut up and its first object handed out; without interference there is one span more, and the rest of its objects are free |
| CentralCache.CentralFreeList.RemoveRange | THIRDPARTY/GooglePerfTools/v2.0.0/src/central_freelist.cc:249-283 | at most n objects, n unless the spans ran out, a whole slot for a full batch; all are then the caller's |
| Hooks.HookList.Add | THIRDPARTY/GooglePerfTools/v2.0.0/src/malloc_hook.cc:205-226 | succeeds if and only if the value is not null and a slot is free; fills the first free slot and keeps the end tight |
| Hooks.HookList.Remove | THIRDPARTY/GooglePerfTools/v2.0.0/src/malloc_hook.cc:229-254 | succeeds if and only if the value is there; clears its first slot and lowers the end to just past the last value |
| Hooks.HookList.Traverse | THIRDPARTY/GooglePerfTools/v2.0.0/src/malloc_hook.cc:257-271 | without interference, the first n values in slot order |
| Hooks.StepKeeps | THIRDPARTY/GooglePerfTools/v2.0.0/src/malloc_hook.cc:204-271 | every single load and store of one writer and one reader keeps the invariant |
| Hooks.ReadKeeps | THIRDPARTY/GooglePerfTools/v2.0.0/src/malloc_hook.cc:257-271 | in particular every step of the reader |
| Hooks.TightWhenFree | THIRDPARTY/GooglePerfTools/v2.0.0/src/malloc_hook-inl.h:130-138 | in every state of every run: whenever the spin lock is free, slots from the end on are zero and the one before it is not |
| Hooks.PublishedOrAdding | THIRDPARTY/GooglePerfTools/v2.0.0/src/malloc_hook.cc:205-226 | an occupied slot is past the end if and only if the Add that filled it has not published it yet |
| Hooks.TraverseReturns | THIRDPARTY/GooglePerfTools/v2.0.0/src/malloc_hook.cc:257-271 | over any interleaving a traversal returns values in slot order, each present at some moment of it; of the slots that stayed occupied it returns those below the end it read, room permitting, and no others |
| Hooks.SteadyIsCovered | THIRDPARTY/GooglePerfTools/v2.0.0/src/malloc_hook.cc:257-271 | an occupied slot is below that end if and only if no Add was about to publish it |
| Hooks.OccupiedIsReturned | THIRDPARTY/GooglePerfTools/v2.0.0/src/malloc_hook.cc:205-271 | over whole runs: a slot occupied from the load of the end to the end of the traversal is returned if and only if no Add was about to publish it at the load and fewer than n slots before it were returned |
| Hooks.OccupiedButMissed | THIRDPARTY/GooglePerfTools/v2.0.0/src/malloc_hook.cc:205-271 | a run in which a slot is occupied throughout a traversal and not returned |
| Hooks.ListedAre | THIRDPARTY/GooglePerfTools/v2.0.0/src/malloc_hook.cc:257-271 | the first n values in slot order are what they should be: at most n, in the order of all, no value left out unless there are n, and no null |
| Hooks.UpdateTakesEffect | THIRDPARTY/GooglePerfTools/v2.0.0/src/malloc_hook.cc:205-254 | whatever readers do meanwhile, an Add that is over has filled the first slot that was empty, a Remove has cleared the first one with its value, and nothing else has changed |
| AddressMap.AddressMap.Find | THIRDPARTY/GooglePerfTools/v2.0.0/src/addressmap-inl.h:288-305 | the value of the key in the abstract map |
| AddressMap.AddressMap.Insert | THIRDPARTY/GooglePerfTools/v2.0.0/src/addressmap-inl.h:307-337 | the map with the key set |
| AddressMap.AddressMap.FindAndRemove | THIRDPARTY/GooglePerfTools/v2.0.0/src/addressmap-inl.h:339-356 | the map without the key, and the value it had |
| AddressMap.AddressMap.FindCluster | THIRDPARTY/GooglePerfTools/v2.0.0/src/addressmap-inl.h:213-233 | the cluster of the address, if its chain has it |
| AddressMap.AddressMap.FindInside | THIRDPARTY/GooglePerfTools/v2.0.0/src/addressmap-inl.h:358-402 | for ranges that do not contain each other's keys: the one range that contains the key if its block is in reach of the bound, else nothing |
| AddressMap.LongestIsInReach | THIRDPARTY/GooglePerfTools/v2.0.0/src/addressmap-inl.h:358-402 | with a bound no smaller than any size every range is in reach |
| AddressMap.OnlyOne | THIRDPARTY/GooglePerfTools/v2.0.0/src/addressmap-inl.h:358-402 | there is at most one such range |
| AddressMap.SameBlock | THIRDPARTY/GooglePerfTools/v2.0.0/src/addressmap-inl.h:213-237 | cluster and block number together tell the block of an address |
| AddressMap.AddressMap.Iterate | THIRDPARTY/GooglePerfTools/v2.0.0/src/addressmap-inl.h:404-419 | every entry is visited once, and its value becomes what the callback makes of it |
| AddressMap.WithListKeeps | THIRDPARTY/GooglePerfTools/v2.0.0/src/addressmap-inl.h:307-356 | replacing the list of one block changes what is found in that block only |
| HeapProfile.PackLive | THIRDPARTY/GooglePerfTools/v2.0.0/src/heap-profile-table.h:214-243 | live bit, ignore bit and bucket share a word without disturbing each other |
| HeapProfile.PackIgnore | THIRDPARTY/GooglePerfTools/v2.0.0/src/heap-profile-table.h:214-243 | the same for the ignore bit |
| HeapProfile.PackBucket | THIRDPARTY/GooglePerfTools/v2.0.0/src/heap-profile-table.h:214-243 | a new bucket has neither bit set |
| HeapProfile.HeapProfileTable.RecordAlloc | THIRDPARTY/GooglePerfTools/v2.0.0/src/heap-profile-table.cc:224-238 | the allocation is recorded and counted, for the table and its bucket; the counts stay those of what is recorded if and only if the address was not |
| HeapProfile.HeapProfileTable.RecordFree | THIRDPARTY/GooglePerfTools/v2.0.0/src/heap-profile-table.cc:240-249 | it is forgotten and counted as freed, if it was recorded; the counts stay those of what is recorded |
| HeapProfile.BalanceAllocated | THIRDPARTY/GooglePerfTools/v2.0.0/src/heap-profile-table.cc:224-238 | in-use counts and bytes, of the table and of every bucket, after an allocation |
| HeapProfile.BalanceFreed | THIRDPARTY/GooglePerfTools/v2.0.0/src/heap-profile-table.cc:240-249 | and after a free |
| HeapProfile.HeapProfileTable.FindInsideAlloc | THIRDPARTY/GooglePerfTools/v2.0.0/src/heap-profile-table.cc:268-276 | the allocation that an address is in or at |
| HeapProfile.HeapProfileTable.MarkAsLive | THIRDPARTY/GooglePerfTools/v2.0.0/src/heap-profile-table.cc:278-285 | true if and only if it was allocated and not live; then it is live |
| HeapProfile.HeapProfileTable.MarkAsIgnored | THIRDPARTY/GooglePerfTools/v2.0.0/src/heap-profile-table.cc:287-293 | the ignore bit is set; live bits, buckets and counts are not touched |
| HeapProfile.HeapProfileTable.AddIfNonLive | THIRDPARTY/GooglePerfTools/v2.0.0/src/heap-profile-table.cc:490-501 | an entry goes to the snapshot if it is not live and not in the base; NonLiveSnapshot clears the live bits |
| HeapProfile.HeapProfileTable.NonLiveSnapshot | THIRDPARTY/GooglePerfTools/v2.0.0/src/heap-profile-table.cc:567-582 | exactly the allocations that are not live and not in the base, and no live bit is left |
| HeapProfile.CollectedAll | THIRDPARTY/GooglePerfTools/v2.0.0/src/heap-profile-table.cc:490-501 | collecting over any listing gives that set |
| HeapProfile.IgnoredAreSkipped | THIRDPARTY/GooglePerfTools/v2.0.0/src/heap-profile-table.h:184-190 | no ignored object is reported if and only if every one is live or in the base |
| HeapProfile.IgnoredIsReported | THIRDPARTY/GooglePerfTools/v2.0.0/src/heap-profile-table.h:184-190 | an ignored object that is reported |
| LeakFlood.FloodRound | THIRDPARTY/GooglePerfTools/v2.0.0/src/heap-checker.cc:1387-1490 | popping, marking and scanning one object keeps: every live allocation is scanned or waiting, and nothing live is outside any closed set that has the roots |
| LeakFlood.FloodEnds | THIRDPARTY/GooglePerfTools/v2.0.0/src/heap-checker.cc:1387-1490 | with the stack empty, what is live is the least set with the roots that is closed under following words |
| LeakFlood.ReachableIsUnique | THIRDPARTY/GooglePerfTools/v2.0.0/src/heap-checker.cc:1382-1497 | there is only one such set |
| LeakFlood.Prefilter | THIRDPARTY/GooglePerfTools/v2.0.0/src/heap-checker.cc:1443-1456 | with the bounds that the hooks keep, every word passes that leads to an allocation |
| LeakFlood.HeapLeakChecker.NewHook | THIRDPARTY/GooglePerfTools/v2.0.0/src/heap-checker.cc:566-591 | the allocation is recorded, and the three bounds hold of all allocations, this one included |
| LeakFlood.HeapLeakChecker.DeleteHook | THIRDPARTY/GooglePerfTools/v2.0.0/src/heap-checker.cc:593-601 | it is forgotten; the bounds still hold |
| LeakFlood.ResolvesExactly | THIRDPARTY/GooglePerfTools/v2.0.0/src/heap-checker.cc:2348-2362 | so, without the cap, a word leads to an allocation if and only if it points at or into it |
| LeakFlood.PointsExactly | THIRDPARTY/GooglePerfTools/v2.0.0/src/heap-checker.cc:1440-1487 | and a word of a scanned object keeps an allocation alive if and only if it points at or into it |
| LeakFlood.AliveExactly | THIRDPARTY/GooglePerfTools/v2.0.0/src/heap-checker.cc:1382-1497 | what the flood marks without a cap, with no mention of how words are looked up |
| LeakFlood.ResolvesWithin | THIRDPARTY/GooglePerfTools/v2.0.0/src/addressmap-inl.h:358-402 | with a cap, what is out of reach starts in another block of 128 addresses, and that block ends too far below the address |
| LeakFlood.HeapLeakChecker.TryWord | THIRDPARTY/GooglePerfTools/v2.0.0/src/heap-checker.cc:1440-1487 | a word either leads to an allocation that was not live, which is marked and pushed, or to nothing new |
| LeakFlood.HeapLeakChecker.Scan | THIRDPARTY/GooglePerfTools/v2.0.0/src/heap-checker.cc:1401-1489 | every aligned word of the object is tried; each allocation that is newly marked is pushed, and once only |
| LeakFlood.HeapLeakChecker.IgnoreOne | THIRDPARTY/GooglePerfTools/v2.0.0/src/heap-checker.cc:1387-1490 | each round marks something new or makes the stack shorter |
| LeakFlood.HeapLeakChecker.IgnoreLiveObjectsLocked | THIRDPARTY/GooglePerfTools/v2.0.0/src/heap-checker.cc:1382-1497 | terminates, with exactly the reachable allocations live, and as many objects and bytes counted |
| LeakFlood.HeapLeakChecker.IgnoreAllLiveObjectsLocked | THIRDPARTY/GooglePerfTools/v2.0.0/src/heap-checker.cc:1252-1345 | without a cap on offsets, or with one that no allocation is longer than: live is the least set with the roots that has every allocation that a word of it or of a root points at or into; with a smaller one, the least set within that reach; the cap is taken off again |
| LeakFlood.HeapLeakChecker.LeakSnapshot | THIRDPARTY/GooglePerfTools/v2.0.0/src/heap-profile-table.cc:567-582 | flood and snapshot together report exactly the allocations that are in neither that set nor the base, with their sizes, number and bytes |
| LiveRanges.OneRangeDecides | THIRDPARTY/GooglePerfTools/v2.0.0/src/heap-checker.cc:1165-1172 | looking at the first range that ends after the caller decides whether any range has it |
| LiveRanges.Cut | THIRDPARTY/GooglePerfTools/v2.0.0/src/heap-checker.cc:1179-1205 | a region cut out of a range leaves exactly the addresses outside it, in at most two pieces |
| LiveRanges.Subtract | THIRDPARTY/GooglePerfTools/v2.0.0/src/heap-checker.cc:1177-1209 | the same for all ranges; ranges that are apart stay apart |
| LiveRanges.Filter | THIRDPARTY/GooglePerfTools/v2.0.0/src/heap-checker.cc:1149-1212 | what remains is what was there and is in no region that is a stack or was mapped by an ordinary caller |
| LiveRanges.Filtered | THIRDPARTY/GooglePerfTools/v2.0.0/src/heap-checker.cc:1149-1212 | which regions those are, written out |
| MemoryRegionMap.InsertedOrdered | THIRDPARTY/GooglePerfTools/v2.0.0/src/memory_region_map.cc:351-380 | regions stay disjoint and in the order of their ends |
| MemoryRegionMap.InsertedCovers | THIRDPARTY/GooglePerfTools/v2.0.0/src/memory_region_map.cc:351-380 | exactly the addresses of the region are added, unless the set refuses it for a region with the same end that starts later |
| MemoryRegionMap.FoundExactly | THIRDPARTY/GooglePerfTools/v2.0.0/src/memory_region_map.cc:297-312 | the lookup finds the region of an address if and only if no region ends just there |
| MemoryRegionMap.FirstAddressMissed | THIRDPARTY/GooglePerfTools/v2.0.0/src/memory_region_map.cc:297-312 | so of two adjacent regions the first address of the second is not found |
| MemoryRegionMap.SubtractedOrdered | THIRDPARTY/GooglePerfTools/v2.0.0/src/memory_region_map.cc:519-573 | after a removal the regions are disjoint and in order, none meets the range, and each is a part of one that was there |
| MemoryRegionMap.SubtractedCovers | THIRDPARTY/GooglePerfTools/v2.0.0/src/memory_region_map.cc:519-573 | exactly what is covered afterwards |
| MemoryRegionMap.ExactUnlessStraddled | THIRDPARTY/GooglePerfTools/v2.0.0/src/memory_region_map.cc:519-573 | the removal takes away exactly the range if and only if no region has it strictly inside |
| MemoryRegionMap.HeadDropped | THIRDPARTY/GooglePerfTools/v2.0.0/src/memory_region_map.cc:537-549 | in that case the head is inserted while the region is still whole, and so not inserted |
| MemoryRegionMap.HeadKept | THIRDPARTY/GooglePerfTools/v2.0.0/src/memory_region_map.cc:537-549 | cutting the tail first would keep both parts |
| MemoryRegionMap.HeadKeptCovers | THIRDPARTY/GooglePerfTools/v2.0.0/src/memory_region_map.cc:537-549 | and take away exactly the range |
| MemoryRegionMap.DeferredCovers | THIRDPARTY/GooglePerfTools/v2.0.0/src/memory_region_map.cc:407-433 | in a call that comes back from the allocator, regions and saved heads together lose exactly the range |
| MemoryRegionMap.MemoryRegionMap.FindRegion | THIRDPARTY/GooglePerfTools/v2.0.0/src/memory_region_map.cc:314-320 | the lookup of the regions |
| MemoryRegionMap.MemoryRegionMap.DoInsertRegionLocked | THIRDPARTY/GooglePerfTools/v2.0.0/src/memory_region_map.cc:351-380 | the region is inserted unless one covers it; regions mapped meanwhile are saved |
| MemoryRegionMap.MemoryRegionMap.HandleSavedRegionsLocked | THIRDPARTY/GooglePerfTools/v2.0.0/src/memory_region_map.cc:395-405 | all saved regions are inserted, those saved meanwhile too; nothing is saved at the end and no address is lost |
| MemoryRegionMap.MemoryRegionMap.InsertRegionLocked | THIRDPARTY/GooglePerfTools/v2.0.0/src/memory_region_map.cc:407-433 | the first call constructs the set, with the regions mapped meanwhile; then the region is inserted with all that is saved, or saved itself in a call that comes back; no address is lost, and when nothing overlaps no region is |
| MemoryRegionMap.MemoryRegionMap.Create | THIRDPARTY/GooglePerfTools/v2.0.0/src/memory_region_map.cc:423-431 | what the allocator maps during the construction is in the set before the region is |
| MemoryRegionMap.MemoryRegionMap.RecordRegionAddition | THIRDPARTY/GooglePerfTools/v2.0.0/src/memory_region_map.cc:450-472 | the same, with the size counted |
| MemoryRegionMap.MemoryRegionMap.Subtract | THIRDPARTY/GooglePerfTools/v2.0.0/src/memory_region_map.cc:528-571 | one region becomes what is left of it, those mapped meanwhile are in their places, and the iterator is at the region that came after it |
| MemoryRegionMap.MemoryRegionMap.RecordRegionRemoval | THIRDPARTY/GooglePerfTools/v2.0.0/src/memory_region_map.cc:474-581 | the regions are what is left of all of them, and those mapped meanwhile; covered is what was, but for the range and for the heads of straddled regions, or of all that begin before it in a call that comes back; saved regions that are just the range are dropped and such heads are saved |
| MemoryRegionMap.RemovalMeans | THIRDPARTY/GooglePerfTools/v2.0.0/src/memory_region_map.cc:519-573 | what a removal leaves covered, written out: all but the range, and but the heads that are lost |
| MemoryRegionMap.SavedMeans | THIRDPARTY/GooglePerfTools/v2.0.0/src/memory_region_map.cc:476-507 | and what it leaves saved |
| RecursiveLock.StepKeeps | THIRDPARTY/GooglePerfTools/v2.0.0/src/memory_region_map.cc:258-290 | every step of Lock and Unlock of any thread keeps the invariant, and passes the run-time checks unless it is a sixth Lock |
| RecursiveLock.MutualExclusion | THIRDPARTY/GooglePerfTools/v2.0.0/src/memory_region_map.cc:258-290 | over any run: at most one thread is inside, it is the recorded owner, the count is its nesting depth, 0 when the lock is free, and only it re-enters |
| RecursiveLock.HeldOrStale | THIRDPARTY/GooglePerfTools/v2.0.0/src/memory_region_map.cc:292-295 | LockIsHeld is right except for the last owner while another thread has yet to record itself |
| RecursiveLock.StaleOwner | THIRDPARTY/GooglePerfTools/v2.0.0/src/memory_region_map.cc:292-295 | such a run |
| ProfileData.RecordsReadBack | THIRDPARTY/GooglePerfTools/v2.0.0/src/profiledata.cc:65-77 | any sequence of records written, with or without the end marker, can be read back |
| ProfileData.ProfileReadsBack | THIRDPARTY/GooglePerfTools/v2.0.0/src/profiledata.cc:107-124 | the same with the header |
| ProfileData.AlwaysAccounted | THIRDPARTY/GooglePerfTools/v2.0.0/src/profiledata.cc:260-331 | at any time the log with the eviction buffer can be read back, and its counts with those of the table are all samples added |
| ProfileData.AllAccounted | THIRDPARTY/GooglePerfTools/v2.0.0/src/profiledata.cc:164-188 | with an empty table the log alone has them |
| ProfileData.AccountHit | THIRDPARTY/GooglePerfTools/v2.0.0/src/profiledata.cc:278-297 | counting a trace where it is keeps that account |
| ProfileData.AccountTake | THIRDPARTY/GooglePerfTools/v2.0.0/src/profiledata.cc:299-318 | so does evicting an entry for it |
| ProfileData.AccountClear | THIRDPARTY/GooglePerfTools/v2.0.0/src/profiledata.cc:244-254 | and writing out an entry and forgetting it |
| ProfileData.ProfileData.Start | THIRDPARTY/GooglePerfTools/v2.0.0/src/profiledata.cc:91-129 | the five words of the header, an empty table and no samples, unless it is enabled or the file cannot be opened: then nothing changes |
| ProfileData.ProfileData.Evict | THIRDPARTY/GooglePerfTools/v2.0.0/src/profiledata.cc:65-77 | one record is added to the output; the buffer never overflows |
| ProfileData.ProfileData.FlushEvicted | THIRDPARTY/GooglePerfTools/v2.0.0/src/profiledata.cc:323-331 | the buffer becomes part of the log, and is counted |
| ProfileData.ProfileData.FindEntry | THIRDPARTY/GooglePerfTools/v2.0.0/src/profiledata.cc:278-297 | the entry of the bucket that has the trace |
| ProfileData.ProfileData.Victim | THIRDPARTY/GooglePerfTools/v2.0.0/src/profiledata.cc:300-306 | the first entry with the smallest count |
| ProfileData.ProfileData.HashOf | THIRDPARTY/GooglePerfTools/v2.0.0/src/profiledata.cc:268-276 | the hash of the frames counted |
| ProfileData.ProfileData.Add | THIRDPARTY/GooglePerfTools/v2.0.0/src/profiledata.cc:260-319 | one sample more, of the first 64 frames or all if there are fewer; its entry is counted if the bucket has it, otherwise the first with the smallest count makes room and becomes a record, if it was in use; nothing else changes |
| ProfileData.ProfileData.FlushTable | THIRDPARTY/GooglePerfTools/v2.0.0/src/profiledata.cc:239-258 | the table is empty and the log has everything |
| ProfileData.ProfileData.Stop | THIRDPARTY/GooglePerfTools/v2.0.0/src/profiledata.cc:164-196 | the log ends with the marker and accounts for every sample |
| ProfileData.Profile | THIRDPARTY/GooglePerfTools/v2.0.0/src/profiledata.cc:91-331 | a whole profile: from the log of any ticks can be read back the traces of all of them, cut after 64 frames, each as often as it was met |
| PackedCache.NothingCutOff | THIRDPARTY/GooglePerfTools/v2.0.0/src/packed-cache-inl.h:194-206 | a whole key, or its bits above the hash, fit the entry |
| PackedCache.Packed | THIRDPARTY/GooglePerfTools/v2.0.0/src/packed-cache-inl.h:156-160 | packing a key and a value loses neither |
| PackedCache.MatchIsEquality | THIRDPARTY/GooglePerfTools/v2.0.0/src/packed-cache-inl.h:208-217 | hash and kept bits match if and only if the keys are equal, in both layouts |
| PackedCache.LastPutDecides | THIRDPARTY/GooglePerfTools/v2.0.0/src/packed-cache-inl.h:77-98 | after any run of Puts the last one to the position decides what is found |
| PackedCache.PutThenGet | THIRDPARTY/GooglePerfTools/v2.0.0/src/packed-cache-inl.h:80-85 | a value put is found until another Put to its position |
| PackedCache.PutOnlyForgets | THIRDPARTY/GooglePerfTools/v2.0.0/src/packed-cache-inl.h:94-98 | a Put of one key changes Has of another only from true to false, exactly when they share a position; otherwise its value stays |
| PackedCache.PackedCache.Put | THIRDPARTY/GooglePerfTools/v2.0.0/src/packed-cache-inl.h:156-160 | one cell changes; its word has the value in the seven low bits, and above them the key or its part above the hash |
| PackedCache.PackedCache.Has | THIRDPARTY/GooglePerfTools/v2.0.0/src/packed-cache-inl.h:162-165 | whether the cell of the key has the key |
| PackedCache.PackedCache.GetOrDefault | THIRDPARTY/GooglePerfTools/v2.0.0/src/packed-cache-inl.h:167-175 | its value, or the default |
| PackedCache.PackedCache.Clear | THIRDPARTY/GooglePerfTools/v2.0.0/src/packed-cache-inl.h:177-183 | every position has its own number as key |
| SizeMap.SizeMap.LgFloor | THIRDPARTY/GooglePerfTools/v2.0.0/src/common.cc:41-53 | the position of the highest bit |
| SizeMap.SizeMap.AlignmentForSize | THIRDPARTY/GooglePerfTools/v2.0.0/src/common.cc:55-75 | an eighth of the power of two below the size, at least 8 or 16, at most a page |
| SizeMap.NextSize | THIRDPARTY/GooglePerfTools/v2.0.0/src/common.cc:114-116 | stepping by the alignment keeps sizes aligned and reaches the maximum |
| SizeMap.LargeSuits | THIRDPARTY/GooglePerfTools/v2.0.0/src/common.cc:118-130 | a span of eight times the size has little enough waste and enough objects, so the search ends |
| SizeMap.SizeMap.SpanSize | THIRDPARTY/GooglePerfTools/v2.0.0/src/common.cc:118-131 | the fewest pages with at most an eighth left over and a quarter of a move's objects |
| SizeMap.WithSizeKeeps | THIRDPARTY/GooglePerfTools/v2.0.0/src/common.cc:133-149 | each class added or merged wastes at most an eighth of its span, has the objects, and is larger than the class before |
| SizeMap.SizeMap.FindClasses | THIRDPARTY/GooglePerfTools/v2.0.0/src/common.cc:110-150 | the classes end at the maximum size, all in order |
| SizeMap.SameIndex | THIRDPARTY/GooglePerfTools/v2.0.0/src/common.h:172-179 | sizes that share an entry of the class array have no class boundary between them |
| SizeMap.EverySizeMapped | THIRDPARTY/GooglePerfTools/v2.0.0/src/common.h:172-179 | an array filled for the multiples of 8 is right for all sizes |
| SizeMap.SizeMap.MapClasses | THIRDPARTY/GooglePerfTools/v2.0.0/src/common.cc:156-164 | the array has the class of every multiple of 8 |
| SizeMap.SizeMap.Init | THIRDPARTY/GooglePerfTools/v2.0.0/src/common.cc:99-188 | everything is set up if and only if as many classes are found as expected; then a class wastes at most an eighth of its span, its sizes are aligned to 8 or 16 bytes, and a move has 2 to 32 objects, about 64 kilobytes |
| SizeMap.MoveAbout64K | THIRDPARTY/GooglePerfTools/v2.0.0/src/common.cc:77-97 | more than two objects are at most 64 kilobytes, and if fewer than 32 one more would exceed that |
| SizeTable.K8Classes | THIRDPARTY/GooglePerfTools/v2.0.0/src/common.cc:110-155 | with pages of 8 kilobytes there are 86 classes |
| SizeTable.K32Classes | THIRDPARTY/GooglePerfTools/v2.0.0/src/common.cc:110-155 | and with pages of 32 kilobytes 78 |
| SizeTable.SetUp | THIRDPARTY/GooglePerfTools/v2.0.0/src/common.h:66-110 | so with the numbers of the code everything is set up |
| SizeMap.SizeMap.SizeClass | THIRDPARTY/GooglePerfTools/v2.0.0/src/common.h:197-199 | the smallest class whose objects are large enough |
| SizeMap.SmallestClass | THIRDPARTY/GooglePerfTools/v2.0.0/src/common.cc:166-182 | a larger size than a class has does not fit it, and every later class fits |
| MessageQueue.PowerTest | THIRDPARTY/q/q.c:71-75 | the test is true of powers of two and of nothing else above zero |
| MessageQueue.Mask | THIRDPARTY/q/q.c:141-167 | masking a counter is the remainder by the size |
| MessageQueue.WrappedSlot | THIRDPARTY/q/q.c:141-167 | also when the 32-bit counter has wrapped |
| MessageQueue.SlotTests | THIRDPARTY/q/q.c:171-184 | the in-use flags tell full and empty exactly |
| MessageQueue.Queue.Create | THIRDPARTY/q/q.c:88-122 | succeeds if and only if the size is a power of two above one and both allocations do; tells the two errors apart |
| MessageQueue.Queue.Enq | THIRDPARTY/q/q.c:141-154 | appends, unless size - 1 messages are held |
| MessageQueue.Queue.Deq | THIRDPARTY/q/q.c:158-167 | takes the oldest, unless none is held |
| MessageQueue.Queue.IsEmpty | THIRDPARTY/q/q.c:171-175 | whether none is held |
| MessageQueue.Queue.IsFull | THIRDPARTY/q/q.c:179-184 | whether size - 1 are held |
| MessageQueue.StepKeeps | THIRDPARTY/q/q.c:141-167 | every single read and write of producer and consumer keeps the invariant |
| MessageQueue.InOrder | THIRDPARTY/q/q.c:141-167 | over any interleaving what comes out is a prefix of what went in, at most size - 1 are held, and the counters lag by at most one, modulo 2^32 |
| MessageQueue.Reports | THIRDPARTY/q/q.c:141-167 | full and empty are reported if and only if they are true at the moment of the check |
| MessageQueue.CountAhead | THIRDPARTY/q/q.c:141-167 | over any run, for sizes up to 2^31: the count of dequeued messages is ahead, by one, if and only if the producer has stored its message and not counted it, the consumer has counted all of its, and none is held; otherwise the counters differ by at most the size |
| MessageQueue.AheadOnce | THIRDPARTY/q/q.c:141-167 | a run in which it is ahead |

## Left out

Page heap and page map:

- PageAllocator.PageHeap: the page map is a map here; that the radix tree is one is proved in `PageMap`, and the two are not one object. Every page set there is owned, and so was granted to GrowHeap (`Tiling.OwnedIsGranted`), which calls Ensure for it first.
- PageAllocator.PageHeap.IncrementalScavenge: computes the waiting time over the reals, so how the code's doubles round is not modelled.
- PageAllocator.PageHeap.GrowHeap: the system's answers and those of the page map's Ensure are parameters, assumed page-aligned, disjoint from the heap and large enough.
- PageMap.PageMap3.constructor: requires fewer than 64 key bits, since the code computes 1 << BITS in 64 bits.
- The event history, the objects and refcount fields of spans, GetSmallSpanStats and GetLargeSpanStats, preallocation of page-map memory, the large-page configuration, and the one- and two-level page maps.
- Loads of the page map without the page-heap lock.

TinyXML:

- XmlParser.XMLDocument.ReadAll: requires that what is asked for has no malformed reference; GetStr says when there is one, and what the code does then is not known.
- XmlParser.XMLDocument.Parse: the names that SetError decodes for its message after a failed parse are not decoded here.
- The links between nodes, memory pools, visitors other than the printer, the file functions, conversions of numbers, SetStr, and COLLAPSE_WHITESPACE in the round trip.
- Bit operations of the UTF-8 encoder are written as products, quotients and remainders, and a byte above 127 counts as a letter as it does in the code.

Central free list:

- CentralCache.CentralFreeList: the span lists and object chains are sequences, so how their nodes are linked is not modelled, and MapObjectToSpan looks at this class's spans only.
- CentralCache.CentralFreeList.MakeCacheSpace: which other class is evicted from is left open; it only opens a window here.
- CentralCache.CentralFreeList.FetchFromSpansSafe: the page heap's reply is a parameter; one that names pages in use counts as none.
- The order in which locks of different classes are taken.

Heap profile, leak checker and region map:

- AddressMap.AddressMap: clusters and lists are values in one array of chains; the list of free entries and the memory of removed ones are not modelled, and addresses are 64 bits wide.
- HeapProfile.HeapProfileTable.RecordAlloc: does not model how a stack trace is hashed to its bucket; a bucket is a number, and counts do not overflow.
- LeakFlood.HeapLeakChecker.IgnoreLiveObjectsLocked: memory is a function from addresses to words.
- LiveRanges.Filter: the regions are given; that the loop itself may add regions is not modelled.
- MemoryRegionMap.MemoryRegionMap.RecordRegionRemoval: saved regions are at most 20, as the code checks; what the allocator unmaps, rather than maps, while a region is put back is not modelled.
- MemoryRegionMap.MemoryRegionMap.RecordRegionAddition: captures no call stack; the region comes with one.
- RecursiveLock.MutualExclusion: does not model the time before the thread library is initialised, when every caller counts as the owner.

Profiler, cache and size classes:

- ProfileData.ProfileData.Stop: does not model the list of libraries written after the profile.
- ProfileData.ProfileData.Add: counts and slots do not overflow; the write of the buffer always succeeds.
- PackedCache.PackedCache: entries read while another thread writes are not modelled, and shifts and masks are written as quotients and remainders.
- SizeMap.SizeMap.Init: requires pages of at least 128 bytes, which the index of a class relies on; where the code stops the program, Init returns false. The check of all sizes after it is what SizeClass guarantees.

Lock-free code:

- Hooks.StepKeeps and MessageQueue.StepKeeps: memory is sequentially consistent; reordering by compiler or processor is not modelled.
- MessageQueue.Queue.Create: does not model the fence word.

The rest of the repository: the database server itself, system-call wrappers, thread caches,
logging, symbolising and signal handling, the other allocator front ends, and the JSON parser.
