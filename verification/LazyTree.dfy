/** The tree that the parser builds: its strings are pairs of positions in the buffer, which are
    decoded where they stand, one at a time and in any order. */
module LazyTree {
  import opened LazyString
  import opened XmlChars
  import opened XmlText
  import opened XmlTree

  datatype LazyAttribute = LazyAttribute(name: StrPair, value: StrPair)

  datatype LazyNode =
    | LazyElement(name: StrPair, attributes: seq<LazyAttribute>, children: seq<LazyNode>)
    | LazyText(value: StrPair, cdata: bool)
    | LazyComment(value: StrPair)
    | LazyDeclaration(value: StrPair)
    | LazyUnknown(value: StrPair)

  /* ---- Strings in the order of the text ---- */

  /** The bytes between the tags, and how they are to be read. */
  datatype Str = Str(text: bytes, flags: Flags)

  /** What GetStr shows of a string: a C string, decoded in place. */
  function Reading(s: Str): bytes {
    CString(InPlace(s.flags, s.text, 0, 0), 0)
  }

  /** The code gets no null pointer while it decodes the strings asked for. */
  predicate CanAnswer(strs: seq<Str>, order: seq<nat>) {
    forall k | 0 <= k < |order| ::
      order[k] < |strs| && var s := strs[order[k]]; !s.flags.collapse && Readable(s.flags, s.text)
  }

  /** The first strings asked for, as they are read. */
  predicate Answers(strs: seq<Str>, order: seq<nat>, texts: seq<bytes>) {
    |texts| <= |order| && forall k | 0 <= k < |texts| :: order[k] < |strs| && texts[k] == Reading(strs[order[k]])
  }

  function AttributePairs(attributes: seq<LazyAttribute>): (r: seq<StrPair>)
    ensures |r| == 2 * |attributes|
    ensures forall i | 0 <= i < |attributes| :: r[2 * i] == attributes[i].name && r[2 * i + 1] == attributes[i].value
  {
    if attributes == [] then []
    else
      var n := |attributes| - 1;
      AttributePairs(attributes[..n]) + [attributes[n].name, attributes[n].value]
  }

  function AttributeStrings(pe: bool, attributes: seq<Attribute>): (r: seq<Str>)
    ensures |r| == 2 * |attributes|
    ensures forall i | 0 <= i < |attributes| ::
      r[2 * i] == Str(attributes[i].name, RAW) && r[2 * i + 1] == Str(attributes[i].value, ValueFlags(pe))
  {
    if attributes == [] then []
    else
      var n := |attributes| - 1;
      AttributeStrings(pe, attributes[..n]) + [Str(attributes[n].name, RAW), Str(attributes[n].value, ValueFlags(pe))]
  }

  function Pairs(n: LazyNode): seq<StrPair>
    decreases n, 1
  {
    match n
    case LazyElement(name, attributes, children) => [name] + AttributePairs(attributes) + AllPairs(children)
    case _ => [n.value]
  }

  function AllPairs(ns: seq<LazyNode>): seq<StrPair>
    decreases ns, 0
  {
    if ns == [] then [] else AllPairs(ns[..|ns| - 1]) + Pairs(ns[|ns| - 1])
  }

  function Strings(pe: bool, n: Node): seq<Str>
    decreases n, 1
  {
    match n
    case Element(name, attributes, children) =>
      [Str(name, RAW)] + AttributeStrings(pe, attributes) + AllStrings(pe, children)
    case Text(value, cdata) => [Str(value, if cdata then LINES else ValueFlags(pe))]
    case _ => [Str(n.value, LINES)]
  }

  function AllStrings(pe: bool, ns: seq<Node>): seq<Str>
    decreases ns, 0
  {
    if ns == [] then [] else AllStrings(pe, ns[..|ns| - 1]) + Strings(pe, ns[|ns| - 1])
  }

  /** The same tree, but for what its strings are. */
  predicate Alike(n: LazyNode, m: Node)
    decreases n, 1
  {
    match n
    case LazyElement(_, attributes, children) =>
      m.Element? && |attributes| == |m.attributes| && AllAlike(children, m.children)
    case LazyText(_, cdata) => m.Text? && m.cdata == cdata
    case LazyComment(_) => m.Comment?
    case LazyDeclaration(_) => m.Declaration?
    case LazyUnknown(_) => m.Unknown?
  }

  predicate AllAlike(ns: seq<LazyNode>, ms: seq<Node>)
    decreases ns, 0
  {
    |ns| == |ms| && forall i | 0 <= i < |ns| :: Alike(ns[i], ms[i])
  }

  lemma OneMore(pe: bool, ns: seq<LazyNode>, n: LazyNode, ms: seq<Node>, m: Node)
    ensures AllPairs(ns + [n]) == AllPairs(ns) + Pairs(n)
    ensures AllStrings(pe, ms + [m]) == AllStrings(pe, ms) + Strings(pe, m)
    ensures AllAlike(ns, ms) && Alike(n, m) ==> AllAlike(ns + [n], ms + [m])
  {
    assert (ns + [n])[..|ns|] == ns && (ms + [m])[..|ms|] == ms;
  }

  lemma OneAttributeMore(pe: bool, ls: seq<LazyAttribute>, l: LazyAttribute, attributes: seq<Attribute>, a: Attribute)
    ensures AttributePairs(ls + [l]) == AttributePairs(ls) + [l.name, l.value]
    ensures AttributeStrings(pe, attributes + [a]) ==
      AttributeStrings(pe, attributes) + [Str(a.name, RAW), Str(a.value, ValueFlags(pe))]
  {
    assert (ls + [l])[..|ls|] == ls && (attributes + [a])[..|attributes|] == attributes;
  }

  /* ---- What the buffer holds for them ---- */

  datatype View = View(start: nat, end: nat, flags: Flags, needsFlush: bool)

  ghost function ViewOf(x: StrPair): View
    reads x
  {
    View(x.start, x.end, x.flags, x.needsFlush)
  }

  ghost function Views(ps: seq<StrPair>): (r: seq<View>)
    reads ps
    ensures |r| == |ps| && forall i | 0 <= i < |ps| :: r[i] == ViewOf(ps[i])
  {
    if ps == [] then [] else Views(ps[..|ps| - 1]) + [ViewOf(ps[|ps| - 1])]
  }

  /** The text has been put at the start, and a NUL behind it. */
  predicate Flushed(b: bytes, v: View, text: bytes) {
    && v.start + |text| <= v.end < |b|
    && b[v.start..v.start + |text|] == text && b[v.start + |text|] == 0
  }

  /** The string of a pair, decoded already or not. */
  predicate Holds(b: bytes, v: View, s: Str) {
    && v.start <= v.end < |b|
    && if v.needsFlush then v.flags == s.flags && b[v.start..v.end] == s.text
       else Flushed(b, v, InPlace(s.flags, s.text, 0, 0))
  }

  /** Each pair ends before the next one starts, and where it ends is no part of the next. */
  predicate Laid(vs: seq<View>, lo: int, hi: int) {
    && (forall i | 0 <= i < |vs| :: lo <= vs[i].start <= vs[i].end < hi)
    && (forall i, j | 0 <= i < j < |vs| :: vs[i].end < vs[j].start)
  }

  predicate ShowsAll(b: bytes, vs: seq<View>, strs: seq<Str>, lo: int, hi: int) {
    && |vs| == |strs| && 0 <= lo <= hi <= |b| && Laid(vs, lo, hi)
    && forall i | 0 <= i < |vs| :: Holds(b, vs[i], strs[i])
  }

  lemma HoldsStill(b: bytes, b': bytes, v: View, s: Str)
    requires Holds(b, v, s) && |b| == |b'| && forall k | v.start <= k <= v.end :: b'[k] == b[k]
    ensures Holds(b', v, s)
  {
    hide InPlace;
    assert b[v.start..v.end] == b'[v.start..v.end];
    if !v.needsFlush {
      var n := |InPlace(s.flags, s.text, 0, 0)|;
      assert b[v.start..v.start + n] == b'[v.start..v.start + n];
    }
  }

  /** What is written elsewhere does not matter. */
  lemma ShowsStill(b: bytes, b': bytes, vs: seq<View>, strs: seq<Str>, lo: int, hi: int)
    requires ShowsAll(b, vs, strs, lo, hi) && |b| == |b'| && forall k | lo <= k < hi :: b'[k] == b[k]
    ensures ShowsAll(b', vs, strs, lo, hi)
  {
    hide Holds;
    forall i | 0 <= i < |vs| ensures Holds(b', vs[i], strs[i]) {
      HoldsStill(b, b', vs[i], strs[i]);
    }
  }

  lemma ShowsBoth(b: bytes, vs: seq<View>, strs: seq<Str>, lo: int, mid: int, vs': seq<View>, strs': seq<Str>,
                  lo': int, hi: int)
    requires ShowsAll(b, vs, strs, lo, mid) && ShowsAll(b, vs', strs', lo', hi) && mid <= lo'
    ensures ShowsAll(b, vs + vs', strs + strs', lo, hi)
  {
    hide Holds;
  }

  lemma ShowsPart(b: bytes, vs: seq<View>, strs: seq<Str>, lo: int, hi: int, n: nat)
    requires ShowsAll(b, vs, strs, lo, hi) && n <= |vs|
    ensures ShowsAll(b, vs[..n], strs[..n], lo, hi)
  {
    hide Holds;
  }

  lemma ShowsWider(b: bytes, vs: seq<View>, strs: seq<Str>, lo: int, hi: int, lo': int, hi': int)
    requires ShowsAll(b, vs, strs, lo, hi) && 0 <= lo' <= lo && hi <= hi' <= |b|
    ensures ShowsAll(b, vs, strs, lo', hi')
  {
    hide Holds;
  }

  lemma ShowsNothing(b: bytes, lo: int, hi: int)
    requires 0 <= lo <= hi <= |b|
    ensures ShowsAll(b, [], [], lo, hi)
  {
  }

  lemma ShowsOne(b: bytes, v: View, s: Str, lo: int, hi: int)
    requires Holds(b, v, s) && 0 <= lo <= v.start && v.end < hi <= |b|
    ensures ShowsAll(b, [v], [s], lo, hi)
  {
    hide InPlace;
  }

  /** Decoding one string leaves the others as they are. */
  lemma ShowsFlushed(b: bytes, b': bytes, vs: seq<View>, strs: seq<Str>, lo: int, hi: int, i: nat, v: View)
    requires ShowsAll(b, vs, strs, lo, hi) && i < |vs| && v.start == vs[i].start && v.end == vs[i].end
    requires SameOutside(b, b', v.start, v.end + 1) && Holds(b', v, strs[i])
    ensures ShowsAll(b', vs[i := v], strs, lo, hi)
  {
    hide Holds;
    forall j | 0 <= j < |vs| ensures Holds(b', vs[i := v][j], strs[j]) {
      if j != i {
        assert if j < i then vs[j].end < vs[i].start else vs[i].end < vs[j].start;
        HoldsStill(b, b', vs[j], strs[j]);
      }
    }
  }

  lemma {:induction false} NulFreeIsString(s: bytes, p: nat)
    requires NulFree(s) && p <= |s|
    ensures CString(s, p) == s[p..]
    decreases |s| - p
  {
    if p < |s| {
      NulFreeIsString(s, p + 1);
    }
  }

  /** A name is read as it stands. */
  lemma NameStays(name: bytes)
    requires NulFree(name)
    ensures InPlace(RAW, name, 0, 0) == name && Readable(RAW, name) && CString(name, 0) == name
  {
    RawStays(name, 0);
    NulFreeIsString(name, 0);
    assert name[0..] == name;
  }
}
