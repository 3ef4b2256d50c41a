/** Reading the strings of a parsed document where they stand: what GetStr shows is the string of
    the decoded tree, whatever has been read before; and for a document that can be carried it is
    the string that was printed. */
module LazyReading {
  import opened Options
  import opened XmlChars
  import opened XmlText
  import opened LazyString
  import opened LazyTree
  import opened XmlTree
  import opened XmlRoundTrip
  import XmlGrammar
  import opened XmlParser

  /* ---- The strings of the decoded tree ---- */

  function DecodedStr(s: Str): Str {
    Str(Decoded(s.flags, s.text), s.flags)
  }

  predicate DecodedAll(strs: seq<Str>, read: seq<Str>) {
    |strs| == |read| && forall i | 0 <= i < |strs| :: read[i] == DecodedStr(strs[i])
  }

  lemma {:induction false} RawDecoded(s: bytes)
    ensures Decoded(RAW, s) == s
    decreases |s|
  {
    if s != [] {
      assert NextUnit(RAW, s) == Unit(1, [s[0]]) && [s[0]] + s[1..] == s;
      RawDecoded(s[1..]);
    }
  }

  lemma {:induction false} ReadAttributesEach(pe: bool, attributes: seq<Attribute>)
    ensures var r := ReadAttributes(pe, attributes);
      |r| == |attributes| && forall i | 0 <= i < |r| ::
        r[i] == Attribute(attributes[i].name, Decoded(ValueFlags(pe), attributes[i].value))
  {
    if attributes != [] {
      ReadAttributesEach(pe, attributes[1..]);
    }
  }

  lemma {:induction false} ReadNodesEach(pe: bool, ns: seq<Node>)
    ensures var r := ReadNodes(pe, ns); |r| == |ns| && forall i | 0 <= i < |r| :: r[i] == ReadNode(pe, ns[i])
  {
    hide ReadNode;
    if ns != [] {
      ReadNodesEach(pe, ns[1..]);
    }
  }

  lemma DecodedBoth(a: seq<Str>, a': seq<Str>, b: seq<Str>, b': seq<Str>)
    requires DecodedAll(a, a') && DecodedAll(b, b')
    ensures DecodedAll(a + b, a' + b')
  {
    hide DecodedStr;
  }

  lemma AttributesDecoded(pe: bool, attributes: seq<Attribute>)
    ensures DecodedAll(AttributeStrings(pe, attributes), AttributeStrings(pe, ReadAttributes(pe, attributes)))
  {
    hide Decoded, ReadAttributes, AttributeStrings;
    var strs, read := AttributeStrings(pe, attributes), AttributeStrings(pe, ReadAttributes(pe, attributes));
    ReadAttributesEach(pe, attributes);
    forall i | 0 <= i < |strs| ensures read[i] == DecodedStr(strs[i]) {
      var a := attributes[i / 2];
      RawDecoded(a.name);
      assert i == 2 * (i / 2) || i == 2 * (i / 2) + 1;
      assert ReadAttributes(pe, attributes)[i / 2] == Attribute(a.name, Decoded(ValueFlags(pe), a.value));
    }
  }

  lemma {:induction false} StringsDecoded(pe: bool, n: Node)
    ensures DecodedAll(Strings(pe, n), Strings(pe, ReadNode(pe, n)))
    decreases n, 1
  {
    hide Decoded, AttributeStrings, ReadAttributes;
    if n.Element? {
      RawDecoded(n.name);
      AttributesDecoded(pe, n.attributes);
      AllStringsDecoded(pe, n.children);
      var read := ReadNode(pe, n);
      var name := [Str(n.name, RAW)];
      DecodedBoth(name, name, AttributeStrings(pe, n.attributes), AttributeStrings(pe, read.attributes));
      DecodedBoth(name + AttributeStrings(pe, n.attributes), name + AttributeStrings(pe, read.attributes),
                  AllStrings(pe, n.children), AllStrings(pe, read.children));
    }
  }

  /** The strings of the tree as GetStr shows it are the decoded strings of the tree. */
  lemma {:induction false} AllStringsDecoded(pe: bool, ns: seq<Node>)
    ensures DecodedAll(AllStrings(pe, ns), AllStrings(pe, ReadNodes(pe, ns)))
    decreases ns, 0
  {
    hide ReadNode, ReadNodes, Strings;
    ReadNodesEach(pe, ns);
    if ns != [] {
      var n, read := |ns| - 1, ReadNodes(pe, ns);
      ReadNodesEach(pe, ns[..n]);
      assert read[..n] == ReadNodes(pe, ns[..n]);
      AllStringsDecoded(pe, ns[..n]);
      StringsDecoded(pe, ns[n]);
      DecodedBoth(AllStrings(pe, ns[..n]), AllStrings(pe, read[..n]), Strings(pe, ns[n]), Strings(pe, read[n]));
    }
  }

  /** Position by position: what is left in the buffer is the string of the decoded tree if and
      only if no unknown ampersand was stepped over with another byte under the write pointer. */
  lemma ReadingIsDecoded(pe: bool, ns: seq<Node>, i: nat)
    requires i < |AllStrings(pe, ns)|
    ensures var s := AllStrings(pe, ns)[i];
      && |AllStrings(pe, ReadNodes(pe, ns))| == |AllStrings(pe, ns)|
      && var read := AllStrings(pe, ReadNodes(pe, ns))[i].text;
      && (InPlace(s.flags, s.text, 0, 0) == read <==> NothingStale(s.flags, s.text, 0, 0))
      && (NothingStale(s.flags, s.text, 0, 0) ==> Reading(s) == CString(read, 0))
  {
    hide AllStrings, ReadNodes, InPlace, NothingStale, Decoded, CString;
    var s := AllStrings(pe, ns)[i];
    AllStringsDecoded(pe, ns);
    InPlaceIsDecoded(s.flags, s.text, 0, 0);
    assert s.text[0..] == s.text;
  }

  /* ---- The tree is its shape and its strings ---- */

  lemma Halves<T>(a: seq<T>, b: seq<T>, a': seq<T>, b': seq<T>)
    requires a + b == a' + b' && (|a| == |a'| || |b| == |b'|)
    ensures a == a' && b == b'
  {
    assert |a + b| == |a' + b'|;
    assert a == (a + b)[..|a|] && a' == (a' + b')[..|a'|];
    assert b == (a + b)[|a|..] && b' == (a' + b')[|a'|..];
  }

  lemma SameAttributes(pe: bool, a: seq<Attribute>, b: seq<Attribute>)
    requires AttributeStrings(pe, a) == AttributeStrings(pe, b)
    ensures a == b
  {
    forall i | 0 <= i < |a| ensures a[i] == b[i] {
      assert AttributeStrings(pe, a)[2 * i] == AttributeStrings(pe, b)[2 * i];
      assert AttributeStrings(pe, a)[2 * i + 1] == AttributeStrings(pe, b)[2 * i + 1];
    }
  }

  lemma {:induction false} AsManyStrings(pe: bool, l: LazyNode, n: Node)
    requires Alike(l, n)
    ensures |Strings(pe, n)| == |Pairs(l)|
    decreases l, 1
  {
    hide AttributeStrings, AttributePairs;
    if l.LazyElement? {
      AllAsManyStrings(pe, l.children, n.children);
    }
  }

  lemma {:induction false} AllAsManyStrings(pe: bool, ls: seq<LazyNode>, ns: seq<Node>)
    requires AllAlike(ls, ns)
    ensures |AllStrings(pe, ns)| == |AllPairs(ls)|
    decreases ls, 0
  {
    hide Alike, Strings, Pairs;
    if ls != [] {
      var k := |ls| - 1;
      AllAsManyStrings(pe, ls[..k], ns[..k]);
      AsManyStrings(pe, ls[k], ns[k]);
    }
  }

  lemma {:induction false} SameNode(pe: bool, l: LazyNode, a: Node, b: Node)
    requires Alike(l, a) && Alike(l, b) && Strings(pe, a) == Strings(pe, b)
    ensures a == b
    decreases l, 1
  {
    hide AttributeStrings, AllStrings;
    if l.LazyElement? {
      Halves([Str(a.name, RAW)] + AttributeStrings(pe, a.attributes), AllStrings(pe, a.children),
             [Str(b.name, RAW)] + AttributeStrings(pe, b.attributes), AllStrings(pe, b.children));
      Halves([Str(a.name, RAW)], AttributeStrings(pe, a.attributes),
             [Str(b.name, RAW)], AttributeStrings(pe, b.attributes));
      assert [Str(a.name, RAW)][0] == [Str(b.name, RAW)][0];
      SameAttributes(pe, a.attributes, b.attributes);
      SameNodes(pe, l.children, a.children, b.children);
    } else {
      assert Strings(pe, a)[0] == Strings(pe, b)[0];
    }
  }

  lemma AlikeButLast(ls: seq<LazyNode>, ns: seq<Node>)
    requires AllAlike(ls, ns) && ls != []
    ensures var k := |ls| - 1; |ns| == |ls| && AllAlike(ls[..k], ns[..k]) && Alike(ls[k], ns[k])
  {
    hide Alike;
  }

  lemma LastStrings(pe: bool, ls: seq<LazyNode>, ns: seq<Node>)
    requires AllAlike(ls, ns) && ls != []
    ensures var k := |ls| - 1;
      && |ns| == |ls| && AllAlike(ls[..k], ns[..k]) && Alike(ls[k], ns[k])
      && AllStrings(pe, ns) == AllStrings(pe, ns[..k]) + Strings(pe, ns[k])
      && |Strings(pe, ns[k])| == |Pairs(ls[k])| && ns == ns[..k] + [ns[k]]
  {
    hide Alike, AllAlike, Strings, Pairs;
    AlikeButLast(ls, ns);
    AsManyStrings(pe, ls[|ls| - 1], ns[|ls| - 1]);
  }

  /** Two trees of the shape that the parser has built are the same if their strings are. */
  lemma {:induction false} SameNodes(pe: bool, ls: seq<LazyNode>, xs: seq<Node>, ys: seq<Node>)
    requires AllAlike(ls, xs) && AllAlike(ls, ys) && AllStrings(pe, xs) == AllStrings(pe, ys)
    ensures xs == ys
    decreases ls, 0
  {
    hide Alike, Strings, Pairs, AllAlike, AllStrings;
    if ls == [] {
      NoNodes(xs);
      NoNodes(ys);
    } else {
      var k := |ls| - 1;
      LastStrings(pe, ls, xs);
      LastStrings(pe, ls, ys);
      Halves(AllStrings(pe, xs[..k]), Strings(pe, xs[k]), AllStrings(pe, ys[..k]), Strings(pe, ys[k]));
      SameNodes(pe, ls[..k], xs[..k], ys[..k]);
      SameNode(pe, ls[k], xs[k], ys[k]);
    }
  }

  lemma NoNodes(ns: seq<Node>)
    requires AllAlike([], ns)
    ensures ns == []
  {
  }

  /* ---- Documents that can be carried ---- */

  /** Decoded in place, the raw string is the other one, all of it. */
  predicate ReadsAs(raw: Str, s: Str) {
    && raw.flags == s.flags && !s.flags.collapse && NulFree(s.text)
    && Decoded(raw.flags, raw.text) == s.text && WellFormed(raw.flags, raw.text)
  }

  predicate AllReadAs(raws: seq<Str>, strs: seq<Str>) {
    |raws| == |strs| && forall i | 0 <= i < |strs| :: ReadsAs(raws[i], strs[i])
  }

  lemma ReadAsBoth(a: seq<Str>, a': seq<Str>, b: seq<Str>, b': seq<Str>)
    requires AllReadAs(a, a') && AllReadAs(b, b')
    ensures AllReadAs(a + b, a' + b')
  {
    hide ReadsAs;
  }

  lemma {:induction false} NameReads(name: bytes)
    requires NulFree(name)
    ensures ReadsAs(Str(name, RAW), Str(name, RAW))
    decreases |name|
  {
    RawDecoded(name);
    if name != [] {
      NameReads(name[1..]);
    }
  }

  lemma NameHasNoNul(name: bytes)
    requires NameLength(name, true) == |name|
    ensures NulFree(name)
  {
    assert forall i | 0 <= i < |name| :: IsNameByte(name[i], i == 0);
  }

  lemma AttributeReadAs(pe: bool, a: Attribute)
    requires CarriedAttribute(pe, a)
    ensures ReadsAs(Str(a.name, RAW), Str(a.name, RAW))
    ensures ReadsAs(Str(Encoded(pe, false, a.value), ValueFlags(pe)), Str(a.value, ValueFlags(pe)))
  {
    NameHasNoNul(a.name);
    NameReads(a.name);
    DecodedEncoded(pe, false, a.value);
  }

  lemma AttributesReadAs(pe: bool, attributes: seq<Attribute>)
    requires CarriedAttributes(pe, attributes)
    ensures AllReadAs(AttributeStrings(pe, RawAttributes(pe, attributes)), AttributeStrings(pe, attributes))
  {
    hide Encoded, ReadsAs, CarriedAttribute, RawAttributes, AttributeStrings;
    var raw := RawAttributes(pe, attributes);
    var raws, strs := AttributeStrings(pe, raw), AttributeStrings(pe, attributes);
    RawAttributesEach(pe, attributes);
    forall i | 0 <= i < |strs| ensures ReadsAs(raws[i], strs[i]) {
      var k := i / 2;
      AttributeReadAs(pe, attributes[k]);
      assert raw[k] == Attribute(attributes[k].name, Encoded(pe, false, attributes[k].value));
      assert i == 2 * k || i == 2 * k + 1;
    }
  }

  lemma {:induction false} RawAttributesEach(pe: bool, attributes: seq<Attribute>)
    ensures forall i | 0 <= i < |attributes| ::
      RawAttributes(pe, attributes)[i] == Attribute(attributes[i].name, Encoded(pe, false, attributes[i].value))
  {
    if attributes != [] {
      RawAttributesEach(pe, attributes[1..]);
    }
  }

  lemma {:induction false} NodeReadAs(pe: bool, n: Node)
    requires CarriedNode(pe, n)
    ensures AllReadAs(Strings(pe, RawNode(pe, n)), Strings(pe, n))
    decreases n, 1
  {
    hide Decoded, WellFormed, Encoded, AttributeStrings, CarriedAttributes, RawAttributes;
    if n.Element? {
      NameHasNoNul(n.name);
      NameReads(n.name);
      AttributesReadAs(pe, n.attributes);
      NodesReadAs(pe, n.children);
      var raw, name := RawNode(pe, n), [Str(n.name, RAW)];
      ReadAsBoth(name, name, AttributeStrings(pe, raw.attributes), AttributeStrings(pe, n.attributes));
      ReadAsBoth(name + AttributeStrings(pe, raw.attributes), name + AttributeStrings(pe, n.attributes),
                 AllStrings(pe, raw.children), AllStrings(pe, n.children));
    } else {
      DecodedEncoded(pe, true, n.value);
      LinesDecoded(n.value);
    }
  }

  lemma {:induction false} NodesReadAs(pe: bool, ns: seq<Node>)
    requires CarriedNodes(pe, ns)
    ensures AllReadAs(AllStrings(pe, RawNodes(pe, ns)), AllStrings(pe, ns))
    decreases ns, 0
  {
    hide RawNode, CarriedNode, Strings;
    if ns != [] {
      var n, raws := |ns| - 1, RawNodes(pe, ns);
      RawNodesEach(pe, ns);
      RawNodesEach(pe, ns[..n]);
      CarriedEach(pe, ns, n);
      assert raws[..n] == RawNodes(pe, ns[..n]);
      NodesReadAs(pe, ns[..n]);
      NodeReadAs(pe, ns[n]);
      ReadAsBoth(AllStrings(pe, raws[..n]), AllStrings(pe, ns[..n]), Strings(pe, raws[n]), Strings(pe, ns[n]));
    }
  }

  lemma {:induction false} RawNodesEach(pe: bool, ns: seq<Node>)
    ensures forall i | 0 <= i < |ns| :: RawNodes(pe, ns)[i] == RawNode(pe, ns[i])
  {
    hide RawNode;
    if ns != [] {
      RawNodesEach(pe, ns[1..]);
    }
  }

  lemma {:induction false} CarriedEach(pe: bool, ns: seq<Node>, n: nat)
    requires CarriedNodes(pe, ns) && n < |ns|
    ensures CarriedNode(pe, ns[n]) && CarriedNodes(pe, ns[..n])
  {
    hide CarriedNode;
    if n > 0 {
      CarriedEach(pe, ns[1..], n - 1);
      assert ns[1..][..n - 1] == ns[..n][1..];
    }
  }

  /** Whatever has been read before, the string is read as it was printed. */
  lemma CarriedReading(pe: bool, ns: seq<Node>, i: nat)
    requires CarriedNodes(pe, ns) && i < |AllStrings(pe, ns)|
    ensures |AllStrings(pe, RawNodes(pe, ns))| == |AllStrings(pe, ns)|
    ensures var raw := AllStrings(pe, RawNodes(pe, ns))[i];
      !raw.flags.collapse && Readable(raw.flags, raw.text) && Reading(raw) == AllStrings(pe, ns)[i].text
  {
    hide AllStrings, RawNodes, InPlace, NothingStale, Decoded, CString, CarriedNodes, WellFormed, Readable;
    NodesReadAs(pe, ns);
    var raw, s := AllStrings(pe, RawNodes(pe, ns))[i], AllStrings(pe, ns)[i];
    assert ReadsAs(raw, s) && raw.text[0..] == raw.text && s.text[0..] == s.text;
    WellFormedIsDecoded(raw.flags, raw.text, 0, 0);
    InPlaceIsDecoded(raw.flags, raw.text, 0, 0);
    NulFreeIsString(s.text, 0);
  }

  /* ---- The print has no NUL ---- */

  lemma {:induction false} AttributesNulFree(pe: bool, attributes: seq<Attribute>, k: bytes)
    requires CarriedAttributes(pe, attributes) && NulFree(k)
    ensures NulFree(AttributesText(pe, attributes, k))
  {
    hide Encoded;
    if attributes != [] {
      var a := attributes[0];
      AttributesNulFree(pe, attributes[1..], k);
      NameHasNoNul(a.name);
      EncodedNulFree(pe, false, a.value);
    }
  }

  lemma EncodedNulFree(pe: bool, restricted: bool, v: bytes)
    requires Carried(v)
    ensures NulFree(Encoded(pe, restricted, v))
  {
    forall i: nat | i < |Encoded(pe, restricted, v)| ensures Encoded(pe, restricted, v)[i] != 0 {
      EncodedBytes(pe, restricted, v, i);
    }
  }

  lemma {:induction false} IndentNulFree(depth: int)
    ensures NulFree(Indent(depth))
  {
    if depth > 0 {
      IndentNulFree(depth - 1);
    }
  }

  lemma LinesNulFree(l: Layout, textDepth: int)
    ensures NulFree(Break(l)) && NulFree(LastLine(l)) && NulFree(NewLine(l.pretty, textDepth, l.depth))
  {
    IndentNulFree(l.depth);
  }

  lemma {:induction false} NodeNulFree(pe: bool, l: Layout, n: Node, k: bytes)
    requires CarriedNode(pe, n) && NulFree(k)
    ensures NulFree(NodeText(pe, l, n, k))
    decreases n, 2
  {
    hide Encoded, TagText, CarriedAttributes, Break;
    LinesNulFree(l, 0);
    if PlainText(n) {
      EncodedNulFree(pe, true, n.value);
    } else {
      TagNulFree(pe, l, n, k);
    }
  }

  lemma {:induction false} TagNulFree(pe: bool, l: Layout, n: Node, k: bytes)
    requires !PlainText(n) && CarriedNode(pe, n) && NulFree(k)
    ensures NulFree(TagText(pe, l, n, k))
    decreases n, 1
  {
    hide AttributesText, CarriedAttributes, ContentText, LastLine;
    if n.Element? {
      LinesNulFree(l, 0);
      NameHasNoNul(n.name);
      ContentNulFree(pe, l, n, LastLine(l) + k);
      AttributesNulFree(pe, n.attributes, ContentText(pe, l, n, LastLine(l) + k));
    }
  }

  lemma {:induction false} ContentNulFree(pe: bool, l: Layout, n: Node, k: bytes)
    requires n.Element? && CarriedNode(pe, n) && NulFree(k)
    ensures NulFree(ContentText(pe, l, n, k))
    decreases n, 0
  {
    hide NodesText, Indent, AfterAll, CarriedAttributes;
    if n.children != [] {
      NameHasNoNul(n.name);
      LinesNulFree(l, AfterAll(Inside(l), n.children).textDepth);
      NodesNulFree(pe, Inside(l), n.children, ClosingLine(l, n.children) + EndTagText(n.name, k));
    }
  }

  lemma {:induction false} NodesNulFree(pe: bool, l: Layout, ns: seq<Node>, k: bytes)
    requires CarriedNodes(pe, ns) && NulFree(k)
    ensures NulFree(NodesText(pe, l, ns, k))
    decreases ns, 0
  {
    hide NodeText, After, CarriedNode;
    if ns != [] {
      NodesNulFree(pe, After(l, ns[0]), ns[1..], k);
      NodeNulFree(pe, l, ns[0], NodesText(pe, After(l, ns[0]), ns[1..], k));
    }
  }

  /* ---- Print, parse, read ---- */

  lemma {:induction false} DecodedAlike(pe: bool, l: LazyNode, n: Node)
    requires Alike(l, n)
    ensures Alike(l, ReadNode(pe, n))
    decreases l, 1
  {
    hide Decoded;
    if l.LazyElement? {
      ReadAttributesEach(pe, n.attributes);
      AllDecodedAlike(pe, l.children, n.children);
    }
  }

  /** Reading changes no shape. */
  lemma {:induction false} AllDecodedAlike(pe: bool, ls: seq<LazyNode>, ns: seq<Node>)
    requires AllAlike(ls, ns)
    ensures AllAlike(ls, ReadNodes(pe, ns))
    decreases ls, 0
  {
    hide Alike, ReadNode;
    ReadNodesEach(pe, ns);
    forall i | 0 <= i < |ls| ensures Alike(ls[i], ReadNodes(pe, ns)[i]) {
      DecodedAlike(pe, ls[i], ns[i]);
    }
  }

  /** What the parser makes of the print. */
  lemma PrintedIs(pe: bool, pretty: bool, ns: seq<Node>, memory: bytes)
    requires CarriedDocument(pe, ns) && memory == DocumentText(pe, pretty, false, ns) + [0]
    ensures var d := ParseDocument(CString(memory, 0)); d.nodes == Printed(pe, pretty, ns) && d.error == None
  {
    hide CString, NodesText, RawNodes, ReadNodes, Padded, CarriedNodes, ParseBuffer;
    NodesNulFree(pe, Start(pretty), ns, []);
    CStringIs(memory, 0, DocumentText(pe, pretty, false, ns));
    RoundTrip(pe, pretty, ns);
  }

  /** The tree with its strings as they stand in the print. */
  function Printed(pe: bool, pretty: bool, ns: seq<Node>): seq<Node> {
    RawNodes(pe, Padded(Start(pretty), [], ns))
  }

  lemma PrintedAlike(pe: bool, pretty: bool, ns: seq<Node>, ls: seq<LazyNode>)
    requires CarriedDocument(pe, ns) && AllAlike(ls, Printed(pe, pretty, ns))
    ensures AllAlike(ls, Padded(Start(pretty), [], ns))
  {
    hide AllAlike, RawNodes, ReadNodes, Padded, CarriedNodes;
    PaddedCarried(pe, Start(pretty), [], ns);
    AllDecodedAlike(pe, ls, Printed(pe, pretty, ns));
    NodesReadBack(pe, Padded(Start(pretty), [], ns));
  }

  lemma PrintedAnswers(pe: bool, pretty: bool, ns: seq<Node>, order: seq<nat>)
    requires CarriedDocument(pe, ns)
    requires forall k | 0 <= k < |order| :: order[k] < |AllStrings(pe, Padded(Start(pretty), [], ns))|
    ensures var raws := AllStrings(pe, Printed(pe, pretty, ns));
      && CanAnswer(raws, order)
      && forall k | 0 <= k < |order| ::
        Reading(raws[order[k]]) == AllStrings(pe, Padded(Start(pretty), [], ns))[order[k]].text
  {
    hide AllStrings, RawNodes, Padded, Readable, Reading, CarriedNodes;
    PaddedCarried(pe, Start(pretty), [], ns);
    forall k | 0 <= k < |order|
      ensures var raws := AllStrings(pe, Printed(pe, pretty, ns));
        && order[k] < |raws| && !raws[order[k]].flags.collapse
        && Readable(raws[order[k]].flags, raws[order[k]].text)
        && Reading(raws[order[k]]) == AllStrings(pe, Padded(Start(pretty), [], ns))[order[k]].text
    {
      CarriedReading(pe, Padded(Start(pretty), [], ns), order[k]);
    }
  }

  /** The strings of the parsed print, asked for in any order, are those of the document that was
      printed, with the line breaks next to text in the text. */
  method ParseAndRead(pe: bool, ghost pretty: bool, ghost ns: seq<Node>, memory: bytes, order: seq<nat>)
    returns (d: XMLDocument, texts: seq<bytes>)
    requires CarriedDocument(pe, ns) && memory == DocumentText(pe, pretty, false, ns) + [0]
    requires forall k | 0 <= k < |order| :: order[k] < |AllStrings(pe, Padded(Start(pretty), [], ns))|
    ensures var padded := Padded(Start(pretty), [], ns);
      && AllAlike(d.nodes, padded) && d.error == None && |texts| == |order|
      && forall k | 0 <= k < |order| :: texts[k] == AllStrings(pe, padded)[order[k]].text
  {
    hide CString, ParseBuffer, NodesText, Printed, AllStrings, Padded, CanAnswer, CarriedDocument, AllAlike, Reading,
      XMLDocument.Parsed;
    PrintedIs(pe, pretty, ns, memory);
    PrintedAnswers(pe, pretty, ns, order);
    d := new XMLDocument(pe);
    d.Parse(memory, None);
    d.ParsedAlike(Printed(pe, pretty, ns));
    PrintedAlike(pe, pretty, ns, d.nodes);
    texts := d.ReadAll(Printed(pe, pretty, ns), order);
  }

  /** Whatever way a document is spelled, the parser builds its tree, with its strings. */
  method ParseMarkup(pe: bool, ghost ms: seq<XmlGrammar.Markup>, ghost w: bytes, memory: bytes)
    returns (d: XMLDocument)
    requires ms != [] && XmlGrammar.ProperAll(ms) && !XmlGrammar.EndsInText(ms) && XmlGrammar.Space(w)
    requires memory == XmlGrammar.AllSpelled(ms, w) + [0] && NulFree(XmlGrammar.AllSpelled(ms, w))
    ensures d.error == None && d.processEntities == pe
    ensures AllAlike(d.nodes, XmlGrammar.Trees(ms)) && d.Parsed(XmlGrammar.Trees(ms))
  {
    hide CString, ParseBuffer, XmlGrammar.AllSpelled, XmlGrammar.Trees, XmlGrammar.ProperAll, XmlGrammar.Space,
      AllAlike, XMLDocument.Parsed;
    CStringIs(memory, 0, XmlGrammar.AllSpelled(ms, w));
    XmlGrammar.DocumentIsRead(ms, w);
    d := new XMLDocument(pe);
    d.Parse(memory, None);
    d.ParsedAlike(XmlGrammar.Trees(ms));
  }
}
