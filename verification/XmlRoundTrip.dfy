/** Parsing undoes the print of TinyXML-2, for every tree the grammar can carry; what becomes of
    text at the outermost level in the print with line breaks, exactly. */
module XmlRoundTrip {
  import opened Options
  import opened XmlChars
  import opened XmlText
  import opened LazyString
  import opened XmlTree

  /* ---- The trees that can be carried ---- */

  predicate ValidName(name: bytes) {
    name != [] && NameLength(name, true) == |name|
  }

  predicate CarriedAttribute(pe: bool, a: Attribute) {
    ValidName(a.name) && IsAlpha(a.name[0]) && Carried(a.value) && (pe || QUOTE !in a.value)
  }

  predicate CarriedAttributes(pe: bool, attributes: seq<Attribute>) {
    && (forall i | 0 <= i < |attributes| :: CarriedAttribute(pe, attributes[i]))
    && (forall i, j | 0 <= i < j < |attributes| :: attributes[i].name != attributes[j].name)
  }

  /** No terminator inside, and text is neither blank nor next to text. */
  predicate CarriedNode(pe: bool, n: Node)
    decreases n, 1
  {
    match n
    case Element(name, attributes, children) =>
      ValidName(name) && CarriedAttributes(pe, attributes) && CarriedNodes(pe, children)
    case Text(value, cdata) =>
      Carried(value) && if cdata then Before(value, CDATA_END).None? else SkipWhite(value) != [] && (pe || LT !in value)
    case Comment(value) => Carried(value) && Before(value, COMMENT_END).None?
    case Declaration(value) => Carried(value) && Before(value, XML_END).None?
    case Unknown(value) =>
      && Carried(value) && Before(value, [GT]).None?
      && !([MINUS, MINUS] <= value) && !(CDATA_HEADER[2..] <= value)
  }

  predicate CarriedNodes(pe: bool, ns: seq<Node>)
    decreases ns, 0
  {
    ns == [] || (CarriedNode(pe, ns[0]) && CarriedNodes(pe, ns[1..]) &&
      !(|ns| > 1 && PlainText(ns[0]) && PlainText(ns[1])))
  }

  /** Text needs a tag after it. */
  predicate Followed(ns: seq<Node>, k: bytes) {
    ns != [] && PlainText(ns[|ns| - 1]) ==> |k| > 1 && k[0] == LT
  }

  /* ---- What the parser stores ---- */

  function RawNode(pe: bool, n: Node): Node
    decreases n, 1
  {
    match n
    case Element(name, attributes, children) => Element(name, RawAttributes(pe, attributes), RawNodes(pe, children))
    case Text(value, false) => Text(Encoded(pe, true, value), false)
    case _ => n
  }

  function RawNodes(pe: bool, ns: seq<Node>): (r: seq<Node>)
    ensures |r| == |ns|
    decreases ns, 0
  {
    if ns == [] then [] else [RawNode(pe, ns[0])] + RawNodes(pe, ns[1..])
  }

  function RawAttributes(pe: bool, attributes: seq<Attribute>): (r: seq<Attribute>)
    ensures |r| == |attributes| && forall i | 0 <= i < |r| :: r[i].name == attributes[i].name
  {
    if attributes == [] then []
    else
      var a := attributes[0];
      [Attribute(a.name, Encoded(pe, false, a.value))] + RawAttributes(pe, attributes[1..])
  }

  /* ---- Names and delimited text ---- */

  lemma {:induction false} NameEnds(name: bytes, first: bool, k: bytes)
    requires NameLength(name, first) == |name|
    requires k == [] || !IsNameByte(k[0], first && name == [])
    ensures NameLength(name + k, first) == |name|
  {
    if name == [] {
      assert name + k == k;
    } else {
      assert (name + k)[0] == name[0] && (name + k)[1..] == name[1..] + k;
      NameEnds(name[1..], false, k);
    }
  }

  lemma NameRead(name: bytes, k: bytes)
    requires ValidName(name) && (k == [] || !IsNameByte(k[0], false))
    ensures NameLength(name + k, true) == |name|
    ensures (name + k)[..|name|] == name && (name + k)[|name|..] == k
    ensures (name + k)[0] == name[0] && IsNameByte(name[0], true) && SkipWhite(name + k) == name + k
  {
    NameEnds(name, true, k);
  }

  predicate LastIsUnique(tag: bytes) {
    tag != [] && tag[|tag| - 1] !in tag[..|tag| - 1]
  }

  lemma NotYet(v: bytes, tag: bytes, k: bytes)
    requires LastIsUnique(tag) && v != [] && !(tag <= v)
    ensures !(tag <= v + (tag + k))
  {
    var s, last := v + (tag + k), |tag| - 1;
    assert |tag| <= |v| ==> s[..|tag|] == v[..|tag|];
    assert |tag| > |v| ==> s[last] == tag[last - |v|] == tag[..last][last - |v|];
  }

  /** A tag that is not in the text is first found at its end, even if the two overlap. */
  lemma {:induction false} FoundAtEnd(v: bytes, tag: bytes, k: bytes)
    requires LastIsUnique(tag) && Before(v, tag).None?
    ensures Before(v + (tag + k), tag) == Some(|v|)
  {
    var s := v + (tag + k);
    if v == [] {
      assert s == tag + k;
    } else {
      NotYet(v, tag, k);
      assert s[1..] == v[1..] + (tag + k);
      FoundAtEnd(v[1..], tag, k);
    }
  }

  lemma DelimitedRead(v: bytes, tag: bytes, k: bytes)
    requires LastIsUnique(tag) && Before(v, tag).None?
    ensures UpTo(v + (tag + k), tag) == Some(Piece(v, k))
  {
    var s := v + (tag + k);
    FoundAtEnd(v, tag, k);
    assert s[..|v|] == v && s[|v| + |tag|..] == k;
  }

  /** A single byte is found where it first stands. */
  lemma {:induction false} ByteAbsent(v: bytes, c: byte)
    requires c !in v
    ensures Before(v, [c]).None?
  {
    if v != [] {
      assert !([c] <= v) by {
        assert v[0] != c;
      }
      assert forall i | 0 <= i < |v[1..]| :: v[1..][i] == v[i + 1];
      ByteAbsent(v[1..], c);
    }
  }

  lemma TagsEnd()
    ensures LastIsUnique(CDATA_END) && LastIsUnique(COMMENT_END) && LastIsUnique(XML_END)
    ensures forall c: byte :: LastIsUnique([c])
  {
    assert CDATA_END[..2] == [RBRACKET, RBRACKET];
    assert COMMENT_END[..2] == [MINUS, MINUS];
    assert XML_END[..1] == [QUEST];
  }

  /* ---- Attributes ---- */

  lemma AttributeParsed(pe: bool, a: Attribute, k: bytes)
    requires CarriedAttribute(pe, a)
    ensures var value := Encoded(pe, false, a.value);
      ParseAttribute(a.name + ([EQ, QUOTE] + (value + ([QUOTE] + k)))) ==
        Some(AttributeRead(Attribute(a.name, value), k))
  {
    hide NameLength, Encoded, Before, UpTo;
    var value := Encoded(pe, false, a.value);
    var w := [QUOTE] + (value + ([QUOTE] + k));
    var u := [EQ, QUOTE] + (value + ([QUOTE] + k));
    assert u[1..] == w && w[1..] == value + ([QUOTE] + k);
    NameRead(a.name, u);
    NoQuote(pe, a.value);
    TagsEnd();
    DelimitedRead(value, [QUOTE], k);
  }

  lemma NoQuote(pe: bool, v: bytes)
    requires Carried(v) && (pe || QUOTE !in v)
    ensures Before(Encoded(pe, false, v), [QUOTE]).None?
  {
    var e := Encoded(pe, false, v);
    forall i | 0 <= i < |e| ensures e[i] != QUOTE {
      EncodedBytes(pe, false, v, i);
    }
    ByteAbsent(e, QUOTE);
  }

  lemma NoTag(pe: bool, v: bytes)
    requires Carried(v) && (pe || LT !in v)
    ensures Before(Encoded(pe, true, v), [LT]).None?
  {
    var e := Encoded(pe, true, v);
    forall i | 0 <= i < |e| ensures e[i] != LT {
      EncodedBytes(pe, true, v, i);
    }
    ByteAbsent(e, LT);
  }

  predicate SealsElement(k: bytes) {
    k != [] && (k[0] == GT || (k[0] == SLASH && Peek(k, 1) == GT))
  }

  predicate Apart(attributes: seq<Attribute>, linked: seq<Attribute>) {
    forall i, j | 0 <= i < |attributes| && 0 <= j < |linked| :: attributes[i].name != linked[j].name
  }

  lemma ApartStep(pe: bool, attributes: seq<Attribute>, linked: seq<Attribute>, a: Attribute)
    requires attributes != [] && CarriedAttributes(pe, attributes) && Apart(attributes, linked) &&
      a.name == attributes[0].name
    ensures CarriedAttribute(pe, attributes[0]) && CarriedAttributes(pe, attributes[1..])
    ensures Apart(attributes[1..], linked + [a]) && forall j | 0 <= j < |linked| :: a.name != linked[j].name
  {
    hide CarriedAttribute;
  }

  lemma {:induction false} AttributesParsed(pe: bool, attributes: seq<Attribute>, k: bytes, linked: seq<Attribute>)
    requires CarriedAttributes(pe, attributes) && SealsElement(k)
    requires Apart(attributes, linked)
    ensures ParseAttributes(AttributesText(pe, attributes, k), linked) ==
      AttributesRead(linked + RawAttributes(pe, attributes), k[0] == SLASH, k[if k[0] == SLASH then 2 else 1..])
    decreases attributes
  {
    hide NameLength, Encoded, Before, ParseAttributes, CarriedAttribute, CarriedAttributes, Apart;
    if attributes == [] {
      SealRead(k, linked);
      assert linked + [] == linked;
    } else {
      var a := attributes[0];
      var raw := Attribute(a.name, Encoded(pe, false, a.value));
      var rest := AttributesText(pe, attributes[1..], k);
      ApartStep(pe, attributes, linked, raw);
      AttributeLinked(pe, a, rest, linked);
      assert !HasAttribute(linked, a.name);
      AttributesParsed(pe, attributes[1..], k, linked + [raw]);
      assert linked + [raw] + RawAttributes(pe, attributes[1..]) == linked + RawAttributes(pe, attributes);
    }
  }

  /** An attribute is linked if and only if none of its name is linked already. */
  lemma AttributeLinked(pe: bool, a: Attribute, rest: bytes, linked: seq<Attribute>)
    requires CarriedAttribute(pe, a)
    ensures var raw := Attribute(a.name, Encoded(pe, false, a.value));
      ParseAttributes([SPACE] + (a.name + ([EQ, QUOTE] + (Encoded(pe, false, a.value) + ([QUOTE] + rest)))), linked) ==
      if HasAttribute(linked, a.name) then AttributesFailed(ParsingAttribute)
      else ParseAttributes(rest, linked + [raw])
  {
    hide NameLength, Encoded, Before, ParseAttribute;
    var t := a.name + ([EQ, QUOTE] + (Encoded(pe, false, a.value) + ([QUOTE] + rest)));
    var s := [SPACE] + t;
    AttributeParsed(pe, a, rest);
    assert s[1..] == t && t[0] == a.name[0];
    assert SkipWhite(t) == t;
    assert SkipWhite(s) == t;
  }

  /* ---- Nodes ---- */

  /** The first byte after the headers tells the kinds of node apart. */
  lemma OpensElement(s: bytes, t: bytes)
    requires s == [LT] + t && t != [] && t[0] != QUEST && t[0] != BANG
    ensures ParseItem(s) == ParseElement(t)
  {
    assert s[1..] == t && s[1] == t[0];
    assert SkipWhite(s) == s;
  }

  lemma EndTagParsed(name: bytes, k: bytes)
    requires ValidName(name)
    ensures ParseLevel(EndTagText(name, k)) == Closed([], name, k)
    ensures TagNext(EndTagText(name, k)) && SkipWhite(EndTagText(name, k)) != []
    ensures |EndTagText(name, k)| > 1 && EndTagText(name, k)[0] == LT
  {
    hide NameLength, ParseItem;
    var u := [GT] + k;
    var t := [SLASH] + (name + u);
    assert EndTagText(name, k) == [LT] + t;
    assert t[1..] == name + u && SkipWhite(t) == t;
    OpensElement(EndTagText(name, k), t);
    NameRead(name, u);
    SealRead(u, []);
    assert u[1..] == k;
  }

  lemma SealRead(k: bytes, linked: seq<Attribute>)
    requires SealsElement(k)
    ensures ParseAttributes(k, linked) == AttributesRead(linked, k[0] == SLASH, k[if k[0] == SLASH then 2 else 1..])
  {
    assert SkipWhite(k) == k;
  }

  lemma {:induction false} ElementParsed(pe: bool, l: Layout, n: Node, k: bytes)
    requires n.Element? && CarriedNode(pe, n) && (l.pretty ==> l.depth >= 0)
    ensures ParseItem(TagText(pe, l, n, k)) == Child(RawNode(pe, n), LastLine(l) + k)
    decreases n, 1
  {
    hide NameLength, ParseLevel, RawAttributes, ParseAttributes, AttributesText, CarriedAttributes, ContentText;
    var k' := LastLine(l) + k;
    var tail := ContentText(pe, l, n, k');
    var u := AttributesText(pe, n.attributes, tail);
    var t := n.name + u;
    ContentParsed(pe, l, n, k');
    AttributesStart(pe, n.attributes, tail);
    NameRead(n.name, u);
    assert IsNameByte(t[0], true);
    OpensElement(TagText(pe, l, n, k), t);
    NothingLinked(n.attributes);
    AttributesParsed(pe, n.attributes, tail, []);
    assert [] + RawAttributes(pe, n.attributes) == RawAttributes(pe, n.attributes);
    NoChildren(pe);
  }

  lemma {:induction false} ContentParsed(pe: bool, l: Layout, n: Node, k: bytes)
    requires n.Element? && CarriedNode(pe, n) && (l.pretty ==> l.depth >= 0)
    ensures var tail := ContentText(pe, l, n, k);
      && SealsElement(tail)
      && if n.children == [] then tail == [SLASH, GT] + k && tail[2..] == k
         else tail[0] == GT && tail[1..] != [] && ParseLevel(tail[1..]) == Closed(RawNodes(pe, n.children), n.name, k)
    decreases n, 0
  {
    hide NameLength, ParseLevel, NodesText, RawNodes, CarriedNodes, Padded, AfterAll, SkipWhite;
    var tail := ContentText(pe, l, n, k);
    if n.children == [] {
      assert tail[2..] == k;
    } else {
      var e := ClosingLine(l, n.children) + EndTagText(n.name, k);
      var inner := NodesText(pe, Inside(l), n.children, e);
      assert tail[1..] == inner;
      EndTagParsed(n.name, k);
      LinesAreBlank(l, AfterAll(Inside(l), n.children).textDepth);
      BlankBefore(ClosingLine(l, n.children), EndTagText(n.name, k));
      LastIsText(Inside(l), n.children);
      LevelParsed(pe, Inside(l), [], n.children, e);
      assert [] + inner == inner;
      NotPadded(Inside(l), n.children);
      assert RawNodes(pe, n.children) + [] == RawNodes(pe, n.children);
      NothingLeft();
    }
  }

  lemma NothingLeft()
    ensures !ParseLevel([]).Closed?
  {
  }

  /** Text directly in an element keeps the printer on the line. */
  lemma {:induction false} LastIsText(l: Layout, ns: seq<Node>)
    ensures ns != [] && ns[|ns| - 1].Text? ==> AfterAll(l, ns).textDepth == l.depth - 1
    decreases ns
  {
    hide After;
    if ns != [] {
      LastIsText(After(l, ns[0]), ns[1..]);
      TextDepth(l, ns[0]);
      assert |ns| > 1 ==> ns[1..][|ns| - 2] == ns[|ns| - 1];
    }
  }

  lemma TextDepth(l: Layout, n: Node)
    ensures n.Text? ==> After(l, n).textDepth == l.depth - 1
  {
  }

  lemma NothingLinked(attributes: seq<Attribute>)
    ensures Apart(attributes, [])
  {
  }

  lemma NoChildren(pe: bool)
    ensures RawNodes(pe, []) == []
  {
  }

  lemma AttributesStart(pe: bool, attributes: seq<Attribute>, k: bytes)
    requires SealsElement(k)
    ensures var u := AttributesText(pe, attributes, k); u != [] && !IsNameByte(u[0], false)
  {
  }

  lemma Unwrap(header: bytes, v: bytes, tag: bytes, k: bytes)
    requires header != [] && header[0] == LT && LastIsUnique(tag) && Before(v, tag).None?
    ensures var s := header + (v + (tag + k));
      && SkipWhite(s) == s && header <= s && (forall i | 0 <= i < |header| :: s[i] == header[i])
      && UpTo(s[|header|..], tag) == Some(Piece(v, k))
  {
    var s := header + (v + (tag + k));
    assert s[0] == LT;
    assert s[|header|..] == v + (tag + k);
    DelimitedRead(v, tag, k);
  }

  lemma DelimitedParsed(pe: bool, l: Layout, n: Node, k: bytes)
    requires (n.Comment? || n.Declaration? || n.Unknown? || (n.Text? && n.cdata)) && CarriedNode(pe, n)
    ensures ParseItem(TagText(pe, l, n, k)) == Child(RawNode(pe, n), k)
  {
    hide Before, ParseElement, ParsePlainText, UpTo, SkipWhite, Carried;
    TagsEnd();
    match n
    case Comment(v) =>
      Unwrap(COMMENT_HEADER, v, COMMENT_END, k);
      assert TagText(pe, l, n, k)[1] == BANG;
    case Declaration(v) => Unwrap(XML_HEADER, v, XML_END, k);
    case Text(v, _) =>
      Unwrap(CDATA_HEADER, v, CDATA_END, k);
      assert TagText(pe, l, n, k)[1] == BANG && TagText(pe, l, n, k)[2] == LBRACKET;
    case Unknown(v) =>
      Unwrap(DTD_HEADER, v, [GT], k);
      UnknownStarts(v, [GT] + k, TagText(pe, l, n, k));
  }

  /** A header that runs into a byte it does not have cannot fit. */
  lemma WithinText(p: bytes, h: bytes, v: bytes, k: bytes)
    requires k != [] && k[0] !in h && p + h <= p + (v + k)
    ensures h <= v
  {
    var s := p + (v + k);
    assert forall i | 0 <= i < |h| :: s[|p| + i] == (p + h)[|p| + i] == h[i];
    assert s[|p| + |v|] == k[0];
    assert forall i | 0 <= i < |v| :: s[|p| + i] == v[i];
  }

  lemma UnknownStarts(v: bytes, k: bytes, s: bytes)
    requires s == DTD_HEADER + (v + k) && k != [] && k[0] == GT
    requires !([MINUS, MINUS] <= v) && !(CDATA_HEADER[2..] <= v)
    ensures !(COMMENT_HEADER <= s) && !(CDATA_HEADER <= s) && !(XML_HEADER <= s) && DTD_HEADER <= s
  {
    assert s[1] == BANG;
    assert COMMENT_HEADER == DTD_HEADER + [MINUS, MINUS];
    assert CDATA_HEADER == DTD_HEADER + CDATA_HEADER[2..];
    if COMMENT_HEADER <= s {
      WithinText(DTD_HEADER, [MINUS, MINUS], v, k);
    }
    if CDATA_HEADER <= s {
      WithinText(DTD_HEADER, CDATA_HEADER[2..], v, k);
    }
  }

  /** Text is read up to the next tag, and refused if that is a single byte at the very end. */
  lemma PlainTextParsed(pe: bool, n: Node, k: bytes)
    requires PlainText(n) && CarriedNode(pe, n) && k != [] && k[0] == LT
    ensures ParseItem(Encoded(pe, true, n.value) + k) == if |k| > 1 then Child(RawNode(pe, n), k) else Wrong(Parsing)
    ensures Encoded(pe, true, n.value) + k != []
  {
    hide Before, UpTo, SkipWhite, ParseItem, Encoded;
    var e := Encoded(pe, true, n.value);
    var s := e + k;
    NoTag(pe, n.value);
    TagsEnd();
    var rest := k[1..];
    assert s == e + ([LT] + rest);
    DelimitedRead(e, [LT], rest);
    assert s[|e|..] == k && (|k| > 1 <==> rest != []);
    EncodedNotBlank(pe, n.value, k);
    TextItem(s);
  }

  lemma TextItem(s: bytes)
    requires s != [] && s[0] != LT && SkipWhite(s) != [] && SkipWhite(s)[0] != LT
    ensures ParseItem(s) == ParsePlainText(s)
  {
    hide ParsePlainText, ParseElement, SkipWhite;
  }

  /** Printing does not touch leading white space. */
  lemma {:induction false} EncodedNotBlank(pe: bool, v: bytes, k: bytes)
    requires Carried(v) && (pe || LT !in v) && SkipWhite(v) != []
    ensures var t := SkipWhite(Encoded(pe, true, v) + k); t != [] && t[0] != LT && (Encoded(pe, true, v) + k)[0] != LT
  {
    var e := Encoded(pe, true, v);
    var s := e + k;
    assert s[0] == e[0] == if pe then EncodedByte(true, v[0])[0] else v[0];
    if IsWhiteSpace(v[0]) {
      assert s[1..] == Encoded(pe, true, v[1..]) + k;
      EncodedNotBlank(pe, v[1..], k);
    }
  }

  /* ---- Line breaks ---- */

  predicate Blank(w: bytes) {
    forall i | 0 <= i < |w| :: IsWhiteSpace(w[i])
  }

  lemma {:induction false} SkipBlank(w: bytes, s: bytes)
    requires Blank(w)
    ensures SkipWhite(w + s) == SkipWhite(s)
  {
    if w == [] {
      assert w + s == s;
    } else {
      assert (w + s)[1..] == w[1..] + s;
      SkipBlank(w[1..], s);
    }
  }

  lemma {:induction false} IndentIsBlank(depth: int)
    ensures Blank(Indent(depth))
    decreases depth
  {
    if depth > 0 {
      IndentIsBlank(depth - 1);
    }
  }

  lemma LinesAreBlank(l: Layout, textDepth: int)
    ensures Blank(NewLine(l.pretty, textDepth, l.depth)) && Blank(Break(l)) && Blank(LastLine(l))
  {
    IndentIsBlank(l.depth);
  }

  /** What comes next, if anything, is a tag. */
  predicate TagNext(s: bytes) {
    SkipWhite(s) == [] || SkipWhite(s)[0] == LT
  }

  /** Before a tag white space does not matter. */
  lemma BlankBefore(w: bytes, s: bytes)
    requires Blank(w) && TagNext(s)
    ensures TagNext(w + s) && ParseLevel(w + s) == ParseLevel(s)
    ensures SkipWhite(s) != [] ==> ParseItem(w + s) == ParseItem(s)
  {
    hide ParseElement, SkipWhite;
    SkipBlank(w, s);
    if SkipWhite(s) == [] {
      BlankEnds(w + s);
      BlankEnds(s);
    }
    SkipWhiteIsSuffix(s);
    SkipWhiteIsSuffix(w + s);
  }

  /** A line break, or none: what may be put next to text at the outermost level. */
  predicate Pad(w: bytes) {
    w == [] || w == [LF]
  }

  /** Where the lead may stand, and what may come at the end. */
  predicate Settled(l: Layout, lead: bytes) {
    && Pad(lead) && (l.pretty ==> l.depth >= 0)
    && (lead != [] ==> l.pretty && l.depth == 0)
  }

  /** The white space after a node that is not part of the next one. */
  function Trail(l: Layout, n: Node): bytes {
    if n.Element? then LastLine(l) else []
  }

  /** The white space before the next node. */
  function NextGap(l: Layout, ns: seq<Node>): bytes {
    if ns == [] then [] else Gap(l, ns[0])
  }

  /** The nodes as they come back: text has become longer by the line breaks next to it. */
  function Padded(l: Layout, lead: bytes, ns: seq<Node>): (r: seq<Node>)
    ensures |r| == |ns|
    decreases ns
  {
    if ns == [] then []
    else
      var l', rest := After(l, ns[0]), ns[1..];
      if PlainText(ns[0]) then
        [Text(lead + ns[0].value + NextGap(l', rest), false)] + Padded(l', [], rest)
      else [ns[0]] + Padded(l', Trail(l, ns[0]), rest)
  }

  /** Inside an element there are none. */
  lemma {:induction false} NotPadded(l: Layout, ns: seq<Node>)
    requires l.pretty ==> l.depth > 0
    ensures Padded(l, [], ns) == ns
    decreases ns
  {
    hide After;
    if ns != [] {
      var l' := After(l, ns[0]);
      NotPadded(l', ns[1..]);
      TextDepth(l, ns[0]);
      assert ns == [ns[0]] + ns[1..];
      if PlainText(ns[0]) {
        assert [] + ns[0].value + [] == ns[0].value;
        assert NextGap(l', ns[1..]) == [];
      }
    }
  }

  lemma GapIsPad(l: Layout, n: Node, rest: seq<Node>)
    requires PlainText(n) && (l.pretty ==> l.depth >= 0)
    ensures Pad(NextGap(After(l, n), rest))
  {
    assert Indent(0) == [];
    assert [LF] + [] == [LF];
  }

  lemma PadCarried(pe: bool, v: bytes, lead: bytes, gap: bytes)
    requires CarriedNode(pe, Text(v, false)) && Pad(lead) && Pad(gap)
    ensures CarriedNode(pe, Text(lead + v + gap, false))
    ensures Encoded(pe, true, lead + v + gap) == lead + Encoded(pe, true, v) + gap
  {
    hide EncodedByte, Encoded;
    var w := lead + v;
    PlainByte(LF);
    if lead == [] {
      assert w == v && lead + Encoded(pe, true, v) == Encoded(pe, true, v);
    } else {
      EncodedFirst(pe, LF, v);
      assert w[1..] == v;
    }
    if gap == [] {
      assert w + gap == w && Encoded(pe, true, w) + gap == Encoded(pe, true, w);
    } else {
      EncodedSnoc(pe, true, w, LF);
    }
    SkipBlank(lead, v + gap);
    assert lead + (v + gap) == lead + v + gap;
    SkipWhiteMore(v, gap);
  }

  lemma PlainByte(c: byte)
    requires c < 32 || c > 127
    ensures EncodedByte(true, c) == [c]
  {
  }

  lemma {:induction false} SkipWhiteMore(v: bytes, k: bytes)
    requires SkipWhite(v) != []
    ensures SkipWhite(v + k) != []
  {
    assert (v + k)[0] == v[0];
    if IsWhiteSpace(v[0]) {
      assert (v + k)[1..] == v[1..] + k;
      SkipWhiteMore(v[1..], k);
    }
  }

  /** What is printed for nodes is the white space before the first one, and then a tag. */
  lemma RestStarts(pe: bool, l: Layout, ns: seq<Node>, k: bytes) returns (rest: bytes)
    requires TagNext(k) && (ns == [] ==> |k| > 1 && k[0] == LT) && (ns != [] ==> !PlainText(ns[0]))
    ensures NodesText(pe, l, ns, k) == NextGap(l, ns) + rest && |rest| > 1 && rest[0] == LT
    ensures ParseLevel(NodesText(pe, l, ns, k)) == ParseLevel(rest)
  {
    hide ParseLevel;
    if ns == [] {
      rest := k;
      assert [] + k == k;
    } else {
      rest := TagText(pe, l, ns[0], NodesText(pe, After(l, ns[0]), ns[1..], k));
      TagStarts(pe, l, ns[0], NodesText(pe, After(l, ns[0]), ns[1..], k));
      LinesAreBlank(l, 0);
      BlankBefore(Gap(l, ns[0]), rest);
    }
  }

  lemma TagStarts(pe: bool, l: Layout, n: Node, k: bytes)
    requires !PlainText(n)
    ensures var s := TagText(pe, l, n, k); |s| > 1 && s[0] == LT && SkipWhite(s) == s
  {
    hide AttributesText, ContentText;
    if n.Element? {
      ContentStarts(pe, l, n, LastLine(l) + k);
      AttributesLonger(pe, n.attributes, ContentText(pe, l, n, LastLine(l) + k));
    }
  }

  lemma AttributesLonger(pe: bool, attributes: seq<Attribute>, k: bytes)
    requires k != []
    ensures AttributesText(pe, attributes, k) != []
  {
  }

  lemma ContentStarts(pe: bool, l: Layout, n: Node, k: bytes)
    requires n.Element?
    ensures ContentText(pe, l, n, k) != []
  {
  }

  /** A node that is not text, with white space before it. */
  lemma {:induction false} TaggedParsed(pe: bool, l: Layout, lead: bytes, n: Node, k: bytes)
    requires !PlainText(n) && CarriedNode(pe, n) && Settled(l, lead)
    ensures ParseItem(lead + NodeText(pe, l, n, k)) == Child(RawNode(pe, n), Trail(l, n) + k)
    ensures lead + NodeText(pe, l, n, k) != []
    decreases n, 2
  {
    hide CarriedNode, ParseItem, TagText, RawNode;
    var s := TagText(pe, l, n, k);
    if n.Element? {
      ElementParsed(pe, l, n, k);
    } else {
      DelimitedParsed(pe, l, n, k);
      assert [] + k == k;
    }
    TagStarts(pe, l, n, k);
    LinesAreBlank(l, 0);
    BlankBefore(lead + Gap(l, n), s);
    assert lead + (Gap(l, n) + s) == lead + Gap(l, n) + s;
  }

  /** Text, with the white space before and after it. */
  lemma PaddedTextParsed(pe: bool, l: Layout, lead: bytes, ns: seq<Node>, k: bytes)
    requires ns != [] && CarriedNodes(pe, ns) && PlainText(ns[0]) && Settled(l, lead) && Followed(ns, k) && TagNext(k)
    ensures var l' := After(l, ns[0]);
      ParseLevel(lead + NodesText(pe, l, ns, k)) ==
      Prepend([RawNode(pe, Text(lead + ns[0].value + NextGap(l', ns[1..]), false))],
              ParseLevel(NodesText(pe, l', ns[1..], k)))
  {
    hide ParseLevel, ParseItem, Encoded, After, NextGap, TagNext, RawNode, CarriedNode, TagText;
    var v, l', rest := ns[0].value, After(l, ns[0]), ns[1..];
    var gap := NextGap(l', rest);
    assert ns[0] == Text(v, false);
    GapIsPad(l, ns[0], rest);
    PadCarried(pe, v, lead, gap);
    var r := RestStarts(pe, l', rest, k);
    var k1 := NodesText(pe, l', rest, k);
    var s := lead + (Encoded(pe, true, v) + k1);
    assert s == lead + Encoded(pe, true, v) + gap + r;
    PlainTextParsed(pe, Text(lead + v + gap, false), r);
    ChildStep(s);
  }

  lemma {:induction false} LevelParsed(pe: bool, l: Layout, lead: bytes, ns: seq<Node>, k: bytes)
    requires CarriedNodes(pe, ns) && Followed(ns, k) && Settled(l, lead) && TagNext(k)
    ensures ParseLevel(lead + NodesText(pe, l, ns, k)) == Prepend(RawNodes(pe, Padded(l, lead, ns)), ParseLevel(k))
    decreases ns, 0
  {
    hide ParseItem, ParseLevel, NodeText, RawNode, CarriedNode, TagNext, After, NextGap, Encoded;
    if ns == [] {
      LeadIsBlank(lead);
      BlankBefore(lead, k);
      var level := ParseLevel(k);
      assert [] + level.nodes == level.nodes;
    } else {
      var l', rest := After(l, ns[0]), ns[1..];
      var k1, level := NodesText(pe, l', rest, k), ParseLevel(k);
      var padded := Padded(l, lead, ns);
      if PlainText(ns[0]) {
        PaddedTextParsed(pe, l, lead, ns, k);
        LevelParsed(pe, l', [], rest, k);
        assert [] + k1 == k1;
      } else {
        TaggedParsed(pe, l, lead, ns[0], k1);
        ChildStep(lead + NodeText(pe, l, ns[0], k1));
        LevelParsed(pe, l', Trail(l, ns[0]), rest, k);
      }
      RawFirst(pe, padded, level);
    }
  }

  lemma RawFirst(pe: bool, ns: seq<Node>, l: Level)
    requires ns != []
    ensures Prepend([RawNode(pe, ns[0])], Prepend(RawNodes(pe, ns[1..]), l)) == Prepend(RawNodes(pe, ns), l)
  {
    assert [RawNode(pe, ns[0])] + (RawNodes(pe, ns[1..]) + l.nodes) == RawNodes(pe, ns) + l.nodes;
  }

  lemma LeadIsBlank(lead: bytes)
    requires Pad(lead)
    ensures Blank(lead)
  {
  }

  /* ---- Reading the stored strings ---- */

  lemma {:induction false} AttributesReadBack(pe: bool, attributes: seq<Attribute>)
    requires CarriedAttributes(pe, attributes)
    ensures ReadAttributes(pe, RawAttributes(pe, attributes)) == attributes
  {
    hide Encoded, Decoded, CarriedAttribute;
    if attributes != [] {
      var raw, a := RawAttributes(pe, attributes), attributes[0];
      AttributeReadBack(pe, a);
      AttributesReadBack(pe, attributes[1..]);
      assert raw[1..] == RawAttributes(pe, attributes[1..]);
      assert raw[0] == Attribute(a.name, Encoded(pe, false, a.value));
      assert [a] + attributes[1..] == attributes;
    }
  }

  lemma AttributeReadBack(pe: bool, a: Attribute)
    requires CarriedAttribute(pe, a)
    ensures Attribute(a.name, Decoded(ValueFlags(pe), Encoded(pe, false, a.value))) == a
  {
    DecodedEncoded(pe, false, a.value);
  }

  lemma {:induction false} NodeReadBack(pe: bool, n: Node)
    requires CarriedNode(pe, n)
    ensures ReadNode(pe, RawNode(pe, n)) == n
    decreases n, 1
  {
    match n
    case Element(name, attributes, children) =>
      AttributesReadBack(pe, attributes);
      NodesReadBack(pe, children);
    case Text(value, cdata) =>
      DecodedEncoded(pe, true, value);
      LinesDecoded(value);
    case Comment(value) => LinesDecoded(value);
    case Declaration(value) => LinesDecoded(value);
    case Unknown(value) => LinesDecoded(value);
  }

  lemma {:induction false} NodesReadBack(pe: bool, ns: seq<Node>)
    requires CarriedNodes(pe, ns)
    ensures ReadNodes(pe, RawNodes(pe, ns)) == ns
    decreases ns, 0
  {
    hide RawNode, ReadNode;
    if ns != [] {
      NodeReadBack(pe, ns[0]);
      NodesReadBack(pe, ns[1..]);
      var raw := RawNodes(pe, ns);
      assert raw[1..] == RawNodes(pe, ns[1..]);
      assert [ns[0]] + ns[1..] == ns;
    }
  }

  /* ---- The round trip ---- */

  /** Trees that can be a whole document: something comes last that is not text. */
  predicate CarriedDocument(pe: bool, ns: seq<Node>) {
    ns != [] && CarriedNodes(pe, ns) && !PlainText(ns[|ns| - 1])
  }

  lemma {:induction false} PaddedCarried(pe: bool, l: Layout, lead: bytes, ns: seq<Node>)
    requires CarriedNodes(pe, ns) && Settled(l, lead)
    ensures CarriedNodes(pe, Padded(l, lead, ns))
    ensures ns != [] ==> PlainText(Padded(l, lead, ns)[0]) == PlainText(ns[0])
    decreases ns
  {
    hide CarriedNode, After, NextGap;
    if ns != [] {
      var l', rest, all := After(l, ns[0]), ns[1..], Padded(l, lead, ns);
      if PlainText(ns[0]) {
        GapIsPad(l, ns[0], rest);
        assert ns[0] == Text(ns[0].value, false);
        PadCarried(pe, ns[0].value, lead, NextGap(l', rest));
        PaddedCarried(pe, l', [], rest);
        assert all[1..] == Padded(l', [], rest);
      } else {
        PaddedCarried(pe, l', Trail(l, ns[0]), rest);
        assert all[1..] == Padded(l', Trail(l, ns[0]), rest);
      }
    }
  }

  /** Text is not put on a line of its own: it does not come after an element, and what comes
      after it is text, or nothing before it was anything else. */
  predicate KeptApart(first: bool, broken: bool, ns: seq<Node>) {
    forall i | 0 <= i < |ns| && PlainText(ns[i]) :: OnTheLine(first, broken, ns, i)
  }

  predicate OnTheLine(first: bool, broken: bool, ns: seq<Node>, i: nat)
    requires i < |ns|
  {
    && (if i == 0 then !broken else !ns[i - 1].Element?)
    && (i + 1 < |ns| && !ns[i + 1].Text? ==> first && forall j | 0 <= j < i :: ns[j].Text?)
  }

  lemma KeptApartStep(first: bool, broken: bool, ns: seq<Node>)
    requires ns != []
    ensures KeptApart(first, broken, ns) <==>
      && (PlainText(ns[0]) ==> !broken && (|ns| > 1 && !ns[1].Text? ==> first))
      && KeptApart(first && ns[0].Text?, ns[0].Element?, ns[1..])
  {
    var rest, f := ns[1..], first && ns[0].Text?;
    forall i: nat | i < |rest|
      ensures OnTheLine(f, ns[0].Element?, rest, i) <==> OnTheLine(first, broken, ns, i + 1)
    {
      assert forall j | 0 <= j < i :: rest[j] == ns[j + 1];
      assert (forall j | 0 <= j < i + 1 :: ns[j].Text?) <==> ns[0].Text? && forall j | 0 <= j < i :: rest[j].Text?;
    }
    if KeptApart(first, broken, ns) {
      forall i: nat | i < |rest| && PlainText(rest[i]) ensures OnTheLine(f, ns[0].Element?, rest, i) {
        assert PlainText(ns[i + 1]);
      }
    }
    if KeptApart(f, ns[0].Element?, rest) && (PlainText(ns[0]) ==> OnTheLine(first, broken, ns, 0)) {
      forall i: nat | i < |ns| && PlainText(ns[i]) ensures OnTheLine(first, broken, ns, i) {
        if i > 0 {
          assert PlainText(rest[i - 1]);
        }
      }
    }
  }

  /** The line breaks change nothing if and only if text is kept apart from them. */
  lemma {:induction false} PaddedUnchanged(l: Layout, lead: bytes, ns: seq<Node>)
    requires l.pretty && l.depth == 0 && Pad(lead)
    ensures Padded(l, lead, ns) == ns <==> KeptApart(l.first, lead != [], ns)
    decreases ns
  {
    hide KeptApart, After;
    if ns == [] {
      NothingApart(l.first, lead != []);
    } else {
      var l', rest, all := After(l, ns[0]), ns[1..], Padded(l, lead, ns);
      KeptApartStep(l.first, lead != [], ns);
      FirstAfter(l, ns[0]);
      if PlainText(ns[0]) {
        var gap := NextGap(l', rest);
        PaddedUnchanged(l', [], rest);
        assert all[1..] == Padded(l', [], rest);
        assert lead == [] && gap == [] ==> [] + ns[0].value + [] == ns[0].value;
        assert all[0] == ns[0] <==> lead == [] && gap == [] by {
          assert |all[0].value| == |lead| + |ns[0].value| + |gap|;
        }
        assert gap == [] <==> (|ns| > 1 && !ns[1].Text? ==> l.first);
      } else {
        PaddedUnchanged(l', Trail(l, ns[0]), rest);
        assert all[1..] == Padded(l', Trail(l, ns[0]), rest);
      }
      assert all == ns <==> all[0] == ns[0] && all[1..] == rest by {
        assert all == [all[0]] + all[1..] && ns == [ns[0]] + rest;
      }
    }
  }

  lemma NothingApart(first: bool, broken: bool)
    ensures KeptApart(first, broken, [])
  {
  }

  lemma FirstAfter(l: Layout, n: Node)
    ensures var l' := After(l, n);
      l'.pretty == l.pretty && l'.depth == l.depth && l'.first == (l.first && n.Text?) &&
      (n.Text? ==> l'.textDepth == l.depth - 1)
  {
  }

  /** Parsing the print of a document gives it back, without an error, with the line breaks next
      to text in the text. The only other effect is that a text that starts like a byte-order
      mark is taken for one. */
  lemma RoundTrip(pe: bool, pretty: bool, ns: seq<Node>)
    requires CarriedDocument(pe, ns)
    ensures var s := DocumentText(pe, pretty, false, ns);
      var padded := Padded(Start(pretty), [], ns);
      && ParseDocument(s) == Document(RawNodes(pe, padded), BOM <= SkipWhite(s), None, [])
      && ReadNodes(pe, ParseDocument(s).nodes) == padded
  {
    hide ParseLevel, NodesText, ReadNodes, RawNodes, CarriedNodes, Padded;
    var s, padded := DocumentText(pe, pretty, false, ns), Padded(Start(pretty), [], ns);
    assert s == [] + NodesText(pe, Start(pretty), ns, []);
    LevelParsed(pe, Start(pretty), [], ns, []);
    PaddedCarried(pe, Start(pretty), [], ns);
    NodesReadBack(pe, padded);
    AtTheEnd();
    assert RawNodes(pe, padded) + [] == RawNodes(pe, padded);
    SomethingIsThere(RawNodes(pe, padded), s);
  }

  lemma AtTheEnd()
    ensures ParseLevel([]) == End([])
  {
  }

  /** A text that is nothing but white space and a byte-order mark has no node that is carried. */
  lemma SomethingIsThere(ns: seq<Node>, s: bytes)
    requires ns != [] && ParseLevel(s) == End(ns)
    ensures SkipWhite(s) != [] && SkipWhite(s) != BOM
  {
    hide ParseElement;
    SkipWhiteIsSuffix(s);
    var t := SkipWhite(s);
    if t == BOM {
      assert t[0] == 0xEF;
      forall i | 0 <= i < |s| ensures s[i] != LT {
        assert i >= |s| - |t| ==> s[i] == t[i - (|s| - |t|)];
      }
      ByteAbsent(s, LT);
    }
  }

  /** The tree that comes back from a print with a byte-order mark: Parse looks for the mark, but
      starts at the beginning of its buffer all the same. */
  function Marked(ns: seq<Node>): seq<Node>
    requires ns != []
  {
    if PlainText(ns[0]) then [Text(BOM + ns[0].value, false)] + ns[1..] else [Text(BOM, false)] + ns
  }

  lemma MarkBecomesText(pe: bool, pretty: bool, ns: seq<Node>)
    requires CarriedDocument(pe, ns)
    ensures var s := DocumentText(pe, pretty, true, ns);
      var padded := Padded(Start(pretty), [], Marked(ns));
      && ParseDocument(s) == Document(RawNodes(pe, padded), true, None, [])
      && ReadNodes(pe, ParseDocument(s).nodes) == padded
  {
    hide ParseLevel, SkipWhite, ParseDocument, ReadNodes, RawNodes, NodesText, CarriedNodes, Marked, Padded;
    MarkedCarried(pe, ns);
    RoundTrip(pe, pretty, Marked(ns));
    MarkText(pe, pretty, ns);
    var all := NodesText(pe, Start(pretty), Marked(ns), []);
    assert [] + all == all;
    MarkStarts(DocumentText(pe, pretty, true, ns));
  }

  lemma MarkedCarried(pe: bool, ns: seq<Node>)
    requires CarriedDocument(pe, ns)
    ensures CarriedDocument(pe, Marked(ns))
  {
    hide CarriedNode;
    var v := if PlainText(ns[0]) then ns[0].value else [];
    var rest := if PlainText(ns[0]) then ns[1..] else ns;
    assert PlainText(ns[0]) ==> ns[0] == Text(v, false);
    MarkIsText(pe, v);
    assert BOM + [] == BOM;
    assert Marked(ns) == [Text(BOM + v, false)] + rest && Marked(ns)[1..] == rest;
    assert rest != [] && rest[|rest| - 1] == ns[|ns| - 1];
  }

  lemma MarkText(pe: bool, pretty: bool, ns: seq<Node>)
    requires CarriedDocument(pe, ns)
    ensures NodesText(pe, Start(pretty), Marked(ns), []) == BOM + NodesText(pe, Start(pretty), ns, [])
  {
    hide NodesText, NodeText, CarriedNode;
    var v := if PlainText(ns[0]) then ns[0].value else [];
    MarkIsText(pe, v);
    if PlainText(ns[0]) {
      var k := NodesText(pe, Start(pretty), ns[1..], []);
      TextFirst(pe, pretty, v, ns[1..]);
      TextFirst(pe, pretty, BOM + v, ns[1..]);
      assert ns == [Text(v, false)] + ns[1..];
      assert BOM + Encoded(pe, true, v) + k == BOM + (Encoded(pe, true, v) + k);
    } else {
      TextFirst(pe, pretty, BOM, ns);
      assert BOM + [] == BOM && Encoded(pe, true, []) == [];
    }
  }

  /** Text that comes first leaves the printer as it was. */
  lemma TextFirst(pe: bool, pretty: bool, v: bytes, rest: seq<Node>)
    ensures NodesText(pe, Start(pretty), [Text(v, false)] + rest, []) ==
      Encoded(pe, true, v) + NodesText(pe, Start(pretty), rest, [])
  {
    assert ([Text(v, false)] + rest)[1..] == rest;
    assert After(Start(pretty), Text(v, false)) == Start(pretty);
  }

  /** A document comes back from its print if and only if that has no byte-order mark and no text
      of it is put on a line of its own. */
  lemma ComesBack(pe: bool, pretty: bool, bom: bool, ns: seq<Node>)
    requires CarriedDocument(pe, ns)
    ensures ReadNodes(pe, ParseDocument(DocumentText(pe, pretty, bom, ns)).nodes) == ns <==>
      !bom && (pretty ==> KeptApart(true, false, ns))
  {
    hide ParseDocument, ReadNodes, CarriedNodes, DocumentText, KeptApart, Padded;
    if bom {
      MarkBecomesText(pe, pretty, ns);
      MarkShows(Start(pretty), ns);
    } else {
      RoundTrip(pe, pretty, ns);
      if pretty {
        PaddedUnchanged(Start(pretty), [], ns);
      } else {
        NotPadded(Start(pretty), ns);
      }
    }
  }

  lemma MarkShows(l: Layout, ns: seq<Node>)
    requires ns != []
    ensures Padded(l, [], Marked(ns)) != ns
  {
    var all := Padded(l, [], Marked(ns));
    assert !PlainText(ns[0]) ==> |all| > |ns|;
    assert PlainText(ns[0]) ==> |all[0].value| > |ns[0].value|;
  }

  lemma MarkIsText(pe: bool, v: bytes)
    requires v == [] || CarriedNode(pe, Text(v, false))
    ensures CarriedNode(pe, Text(BOM + v, false)) && Encoded(pe, true, BOM + v) == BOM + Encoded(pe, true, v)
  {
    hide Encoded;
    MarkEncoded(pe, v);
    assert (BOM + v)[0] == 0xEF && SkipWhite(BOM + v) == BOM + v;
  }

  lemma MarkEncoded(pe: bool, v: bytes)
    ensures Encoded(pe, true, BOM + v) == BOM + Encoded(pe, true, v)
  {
    hide Encoded;
    var e := Encoded(pe, true, v);
    EncodedFirst(pe, 0xBF, v);
    EncodedFirst(pe, 0xBB, [0xBF] + v);
    EncodedFirst(pe, 0xEF, [0xBB] + ([0xBF] + v));
    assert [0xEF] + ([0xBB] + ([0xBF] + v)) == BOM + v;
    assert [0xEF] + ([0xBB] + ([0xBF] + e)) == BOM + e;
  }

  lemma EncodedFirst(pe: bool, c: byte, v: bytes)
    requires c < 32 || c > 127
    ensures Encoded(pe, true, [c] + v) == [c] + Encoded(pe, true, v)
  {
    assert ([c] + v)[1..] == v;
  }

  lemma MarkStarts(s: bytes)
    requires BOM <= s
    ensures BOM <= SkipWhite(s)
  {
    assert s[0] == BOM[0];
  }

  /** Printing is injective on the trees that come back. */
  lemma PrintIsInjective(pe: bool, pretty: bool, a: seq<Node>, b: seq<Node>)
    requires CarriedDocument(pe, a) && CarriedDocument(pe, b)
    requires pretty ==> KeptApart(true, false, a) && KeptApart(true, false, b)
    requires DocumentText(pe, pretty, false, a) == DocumentText(pe, pretty, false, b)
    ensures a == b
  {
    hide KeptApart, DocumentText;
    ComesBack(pe, pretty, false, a);
    ComesBack(pe, pretty, false, b);
  }

  /* ---- End tags at the outermost level ---- */

  /** Whatever follows an end tag at the outermost level is not looked at, and there is no error. */
  lemma EndTagEndsParse(pe: bool, pretty: bool, ns: seq<Node>, name: bytes, k: bytes)
    requires CarriedNodes(pe, ns) && ValidName(name)
    ensures var s := NodesText(pe, Start(pretty), ns, EndTagText(name, k));
      ParseDocument(s) == Document(RawNodes(pe, Padded(Start(pretty), [], ns)), BOM <= SkipWhite(s), None, k)
  {
    hide ParseLevel, NodesText, RawNodes, CarriedNodes, Padded, SkipWhite;
    var s := NodesText(pe, Start(pretty), ns, EndTagText(name, k));
    EndTagParsed(name, k);
    LevelParsed(pe, Start(pretty), [], ns, EndTagText(name, k));
    assert [] + s == s;
    var raw := RawNodes(pe, Padded(Start(pretty), [], ns));
    assert raw + [] == raw;
    assert ParseLevel(s) == Closed(raw, name, k);
    ClosedHasTag(s);
  }

  lemma ClosedHasTag(s: bytes)
    requires ParseLevel(s).Closed?
    ensures SkipWhite(s) != [] && SkipWhite(s) != BOM
  {
    hide ParseElement;
    SkipWhiteIsSuffix(s);
    var t := SkipWhite(s);
    if t == BOM {
      assert t[0] == 0xEF;
      forall i | 0 <= i < |s| ensures s[i] != LT {
        assert i >= |s| - |t| ==> s[i] == t[i - (|s| - |t|)];
      }
      ByteAbsent(s, LT);
    }
  }

  /** What a level is made of: nodes to the end, or nodes up to an end tag. */
  lemma {:induction false} LevelIs(s: bytes)
    ensures match ParseLevel(s)
      case End(ns) => AllRead(s, ns)
      case Closed(ns, name, rest) => MeetsEndTag(s, ns, name, rest)
      case Failed(_, _) => true
    decreases |s|
  {
    hide SkipWhite, ParseElement;
    if s == [] || ParseItem(s).Nothing? || ParseItem(s).EndTag? {
      assert Reads(s, [], s);
      assert s == [] ==> SkipWhite(s) == [];
    } else if ParseItem(s).Child? {
      var n, rest := ParseItem(s).node, ParseItem(s).rest;
      LevelIs(rest);
      var l := ParseLevel(rest);
      assert ([n] + l.nodes)[1..] == l.nodes;
      if l.End? {
        var t :| Reads(rest, l.nodes, t) && SkipWhite(t) == [];
        assert Reads(s, [n] + l.nodes, t);
      } else if l.Closed? {
        var t :| Reads(rest, l.nodes, t) && t != [] && ParseItem(t) == EndTag(l.name, l.rest);
        assert Reads(s, [n] + l.nodes, t);
      }
    }
  }

  /** And there is only one way to read it. */
  lemma {:induction false} LevelFrom(s: bytes, ns: seq<Node>, t: bytes)
    requires Reads(s, ns, t)
    ensures ParseLevel(s) == Prepend(ns, ParseLevel(t))
    decreases |ns|
  {
    hide ParseItem, ParseLevel;
    if ns == [] {
      assert [] + ParseLevel(t).nodes == ParseLevel(t).nodes;
    } else {
      ChildStep(s);
      LevelFrom(ParseItem(s).rest, ns[1..], t);
      assert [ns[0]] + (ns[1..] + ParseLevel(t).nodes) == ns + ParseLevel(t).nodes;
    }
  }

  lemma ChildStep(s: bytes)
    requires s != [] && ParseItem(s).Child?
    ensures ParseLevel(s) == Prepend([ParseItem(s).node], ParseLevel(ParseItem(s).rest))
  {
    hide ParseItem;
  }

  /** A parse without an error has read all of its input if and only if no end tag was met at the
      outermost level; if one was, what is left is what follows it. */
  lemma UnreadAfterEndTag(s: bytes)
    requires ParseDocument(s).error == None
    ensures var d := ParseDocument(s);
      && (AllRead(s, d.nodes) <==> forall name, rest :: !MeetsEndTag(s, d.nodes, name, rest))
      && (forall name, rest | MeetsEndTag(s, d.nodes, name, rest) :: rest == d.rest)
  {
    hide ParseItem, SkipWhite, ParseLevel;
    LevelIs(s);
    var l := ParseLevel(s);
    if AllRead(s, l.nodes) {
      var t :| Reads(s, l.nodes, t) && SkipWhite(t) == [];
      LevelFrom(s, l.nodes, t);
      BlankEnds(t);
    }
    forall name, rest | MeetsEndTag(s, l.nodes, name, rest)
      ensures l.Closed? && l.rest == rest
    {
      var t :| Reads(s, l.nodes, t) && t != [] && ParseItem(t) == EndTag(name, rest);
      LevelFrom(s, l.nodes, t);
      TagCloses(t);
    }
  }

  lemma BlankEnds(t: bytes)
    requires SkipWhite(t) == []
    ensures ParseLevel(t) == End([])
  {
  }

  lemma TagCloses(t: bytes)
    requires t != [] && ParseItem(t).EndTag?
    ensures ParseLevel(t) == Closed([], ParseItem(t).name, ParseItem(t).rest)
  {
  }
}
