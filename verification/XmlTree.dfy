/** The document tree of TinyXML-2: what the printer writes for it and what the
    recursive-descent parser makes of a text, as functions of byte sequences, and the law
    that connects them. */
module XmlTree {
  import opened Options
  import opened XmlChars
  import opened XmlText
  import opened LazyString

  datatype Attribute = Attribute(name: bytes, value: bytes)

  datatype Node =
    | Element(name: bytes, attributes: seq<Attribute>, children: seq<Node>)
    | Text(value: bytes, cdata: bool)
    | Comment(value: bytes)
    | Declaration(value: bytes)
    | Unknown(value: bytes)

  const BOM: bytes := [0xEF, 0xBB, 0xBF]
  const CDATA_HEADER: bytes := [LT, BANG, LBRACKET, 67, 68, 65, 84, 65, LBRACKET]
  const CDATA_END: bytes := [RBRACKET, RBRACKET, GT]
  const COMMENT_HEADER: bytes := [LT, BANG, MINUS, MINUS]
  const COMMENT_END: bytes := [MINUS, MINUS, GT]
  const XML_HEADER: bytes := [LT, QUEST]
  const XML_END: bytes := [QUEST, GT]
  const DTD_HEADER: bytes := [LT, BANG]

  /* ---- The print ---- */

  /** What the printer goes by when it starts a new line: whether it starts any, whether it has
      opened nothing yet, and how deep it and the last text are. */
  datatype Layout = Layout(pretty: bool, first: bool, depth: int, textDepth: int)

  function Start(pretty: bool): Layout {
    Layout(pretty, true, 0, -1)
  }

  function Indent(depth: int): bytes {
    if depth <= 0 then [] else Indent(depth - 1) + [SPACE, SPACE, SPACE, SPACE]
  }

  function NewLine(pretty: bool, textDepth: int, depth: int): bytes {
    if pretty && textDepth < 0 then [LF] + Indent(depth) else []
  }

  /** What comes before a node that is not text. */
  function Break(l: Layout): bytes {
    if l.first then [] else NewLine(l.pretty, l.textDepth, l.depth)
  }

  /** What comes after an element. */
  function LastLine(l: Layout): bytes {
    if l.pretty && l.depth == 0 then [LF] else []
  }

  function Inside(l: Layout): Layout {
    l.(first := false, depth := l.depth + 1)
  }

  /** The layout after the end tag, from the one after the children. */
  function Outside(l: Layout, inner: Layout): Layout {
    l.(first := false, textDepth := if inner.textDepth == l.depth then -1 else inner.textDepth)
  }

  function After(l: Layout, n: Node): (r: Layout)
    ensures r.pretty == l.pretty && r.depth == l.depth && (!l.first ==> !r.first)
    decreases n, 1
  {
    match n
    case Element(_, _, children) => Outside(l, AfterAll(Inside(l), children))
    case Text(_, _) => l.(textDepth := l.depth - 1)
    case _ => l.(first := false)
  }

  function AfterAll(l: Layout, ns: seq<Node>): (r: Layout)
    ensures r.pretty == l.pretty && r.depth == l.depth && (!l.first ==> !r.first)
    decreases ns, 0
  {
    if ns == [] then l else AfterAll(After(l, ns[0]), ns[1..])
  }

  /** The attributes, followed by k. */
  function AttributesText(pe: bool, attributes: seq<Attribute>, k: bytes): bytes {
    if attributes == [] then k
    else
      var a := attributes[0];
      [SPACE] + (a.name + ([EQ, QUOTE] +
        (Encoded(pe, false, a.value) + ([QUOTE] + AttributesText(pe, attributes[1..], k)))))
  }

  function EndTagText(name: bytes, k: bytes): bytes {
    [LT, SLASH] + (name + ([GT] + k))
  }

  predicate PlainText(n: Node) {
    n.Text? && !n.cdata
  }

  /** What comes before the tag of a node that has one. */
  function Gap(l: Layout, n: Node): bytes {
    if n.Text? then [] else Break(l)
  }

  /** One node, followed by k. */
  function NodeText(pe: bool, l: Layout, n: Node, k: bytes): bytes
    decreases n, 2
  {
    if PlainText(n) then Encoded(pe, true, n.value) + k else Gap(l, n) + TagText(pe, l, n, k)
  }

  /** From the first tag on. */
  function TagText(pe: bool, l: Layout, n: Node, k: bytes): bytes
    requires !PlainText(n)
    decreases n, 1
  {
    match n
    case Element(name, attributes, _) =>
      [LT] + (name + AttributesText(pe, attributes, ContentText(pe, l, n, LastLine(l) + k)))
    case Text(value, _) => CDATA_HEADER + (value + (CDATA_END + k))
    case Comment(value) => COMMENT_HEADER + (value + (COMMENT_END + k))
    case Declaration(value) => XML_HEADER + (value + (XML_END + k))
    case Unknown(value) => DTD_HEADER + (value + ([GT] + k))
  }

  /** From the end of the start tag on. An element without children is sealed at once. */
  function ContentText(pe: bool, l: Layout, n: Node, k: bytes): bytes
    requires n.Element?
    decreases n, 0
  {
    if n.children == [] then [SLASH, GT] + k
    else [GT] + NodesText(pe, Inside(l), n.children, ClosingLine(l, n.children) + EndTagText(n.name, k))
  }

  /** What comes before the end tag. */
  function ClosingLine(l: Layout, children: seq<Node>): bytes {
    NewLine(l.pretty, AfterAll(Inside(l), children).textDepth, l.depth)
  }

  function NodesText(pe: bool, l: Layout, ns: seq<Node>, k: bytes): bytes
    decreases ns, 0
  {
    if ns == [] then k else NodeText(pe, l, ns[0], NodesText(pe, After(l, ns[0]), ns[1..], k))
  }

  function DocumentText(pe: bool, pretty: bool, bom: bool, ns: seq<Node>): bytes {
    (if bom then BOM else []) + NodesText(pe, Start(pretty), ns, [])
  }

  /* ---- The parser ---- */

  datatype Error =
    | EmptyDocument | Parsing | ParsingElement | ParsingAttribute | ParsingText | ParsingCData
    | ParsingComment | ParsingDeclaration | ParsingUnknown | MismatchedElement

  datatype Piece = Piece(text: bytes, rest: bytes)

  /** StrPair::ParseText: the text before the tag and what follows the tag. */
  function UpTo(s: bytes, tag: bytes): (r: Option<Piece>)
    ensures r.Some? ==> |r.value.text| + |tag| + |r.value.rest| == |s|
  {
    match Before(s, tag)
    case None => None
    case Some(n) => Some(Piece(s[..n], s[n + |tag|..]))
  }

  datatype AttributeRead = AttributeRead(attribute: Attribute, rest: bytes)

  /** XMLAttribute::ParseDeep. */
  function ParseAttribute(s: bytes): (r: Option<AttributeRead>)
    ensures r.Some? ==> |r.value.rest| < |s|
  {
    var n := NameLength(s, true);
    if n == 0 || n == |s| then None
    else
      var u := SkipWhite(s[n..]);
      if u == [] || u[0] != EQ then None
      else
        var w := SkipWhite(u[1..]);
        if w == [] || (w[0] != QUOTE && w[0] != APOS) then None
        else match UpTo(w[1..], [w[0]])
          case None => None
          case Some(v) => Some(AttributeRead(Attribute(s[..n], v.text), v.rest))
  }

  predicate HasAttribute(attributes: seq<Attribute>, name: bytes) {
    exists i | 0 <= i < |attributes| :: attributes[i].name == name
  }

  datatype AttributesRead =
    | AttributesRead(attributes: seq<Attribute>, closed: bool, rest: bytes)
    | AttributesFailed(error: Error)

  /** XMLElement::ParseAttributes, with the attributes linked so far. */
  function ParseAttributes(s: bytes, linked: seq<Attribute>): (r: AttributesRead)
    ensures r.AttributesRead? ==> |r.rest| < |s|
    decreases |s|
  {
    var t := SkipWhite(s);
    if t == [] then AttributesFailed(ParsingElement)
    else if IsAlpha(t[0]) then
      match ParseAttribute(t)
      case None => AttributesFailed(ParsingAttribute)
      case Some(a) =>
        if HasAttribute(linked, a.attribute.name) then AttributesFailed(ParsingAttribute)
        else ParseAttributes(a.rest, linked + [a.attribute])
    else if t[0] == SLASH && Peek(t, 1) == GT then AttributesRead(linked, true, t[2..])
    else if t[0] == GT then AttributesRead(linked, false, t[1..])
    else AttributesFailed(ParsingElement)
  }

  /** One round of the loop of XMLNode::ParseDeep. */
  datatype Item =
    | Nothing
    | Child(node: Node, rest: bytes)
    | EndTag(name: bytes, rest: bytes)
    | Wrong(error: Error)

  /** The loop at one level: the children linked, and how it came to its end. */
  datatype Level =
    | End(nodes: seq<Node>)
    | Closed(nodes: seq<Node>, name: bytes, rest: bytes)
    | Failed(nodes: seq<Node>, error: Error)

  function Prepend(ns: seq<Node>, l: Level): Level {
    l.(nodes := ns + l.nodes)
  }

  function Delimited(s: bytes, tag: bytes, make: bytes -> Node, error: Error): (r: Item)
    ensures r.Child? ==> |r.rest| + |tag| <= |s|
    ensures !r.EndTag?
  {
    match UpTo(s, tag)
    case None => Wrong(error)
    case Some(v) => Child(make(v.text), v.rest)
  }

  /** Text up to the next tag; the null pointer if the tag's first byte is the last one. */
  function ParsePlainText(s: bytes): (r: Item)
    requires s != [] && s[0] != LT
    ensures r.Child? ==> |r.rest| < |s|
    ensures r.Child? || r.Wrong?
  {
    match UpTo(s, [LT])
    case None => Wrong(ParsingText)
    case Some(v) => if v.rest == [] then Wrong(Parsing) else Child(Text(v.text, false), s[|v.text|..])
  }

  function ParseItem(s: bytes): (r: Item)
    ensures r.Child? || r.EndTag? ==> |r.rest| < |s|
    decreases |s|, 0
  {
    var t := SkipWhite(s);
    if t == [] then Nothing
    else if XML_HEADER <= t then Delimited(t[2..], XML_END, v => Declaration(v), ParsingDeclaration)
    else if COMMENT_HEADER <= t then Delimited(t[4..], COMMENT_END, v => Comment(v), ParsingComment)
    else if CDATA_HEADER <= t then Delimited(t[9..], CDATA_END, v => Text(v, true), ParsingCData)
    else if DTD_HEADER <= t then Delimited(t[2..], [GT], v => Unknown(v), ParsingUnknown)
    else if t[0] == LT then ParseElement(t[1..])
    else assert s != [] && s[0] != LT; ParsePlainText(s)
  }

  /** XMLElement::ParseDeep, and what the caller's loop makes of its result. */
  function ParseElement(s: bytes): (r: Item)
    ensures r.Child? || r.EndTag? ==> |r.rest| < |s|
    ensures r != Nothing
    decreases |s|, 2
  {
    var t := SkipWhite(s);
    var closing := t != [] && t[0] == SLASH;
    var u := if closing then t[1..] else t;
    var n := NameLength(u, true);
    if n == 0 then Wrong(Parsing)
    else match ParseAttributes(u[n..], [])
      case AttributesFailed(e) => Wrong(e)
      case AttributesRead(attributes, closed, rest) =>
        if closed then Child(Element(u[..n], attributes, []), rest)
        else if closing then EndTag(u[..n], rest)
        else ParseContent(u[..n], attributes, rest)
  }

  /** The children of an open element and its end tag. */
  function ParseContent(name: bytes, attributes: seq<Attribute>, s: bytes): (r: Item)
    ensures r.Child? ==> |r.rest| < |s|
    ensures r.Child? || r.Wrong?
    decreases |s|, 4
  {
    if s == [] then Wrong(MismatchedElement)
    else match ParseLevel(s)
      case End(_) => Wrong(Parsing)
      case Failed(_, e) => Wrong(e)
      case Closed(children, endName, rest) =>
        if endName == name then Child(Element(name, attributes, children), rest) else Wrong(MismatchedElement)
  }

  function ParseLevel(s: bytes): (r: Level)
    ensures r.Closed? ==> |r.rest| < |s|
    decreases |s|, 3
  {
    if s == [] then End([])
    else match ParseItem(s)
      case Nothing => End([])
      case EndTag(name, rest) => Closed([], name, rest)
      case Wrong(e) => Failed([], e)
      case Child(n, rest) => Prepend([n], ParseLevel(rest))
  }

  /** XMLDocument::Parse: the nodes linked, the byte-order mark, the error, and what comes after an
      end tag that has ended the parse. */
  datatype Document = Document(nodes: seq<Node>, bom: bool, error: Option<Error>, rest: bytes)

  /** The mark is looked for in the caller's text; what is parsed is the buffer. */
  function ParseBuffer(text: bytes, buffer: bytes): Document {
    var t := SkipWhite(text);
    var bom := BOM <= t;
    var u := if bom then t[3..] else t;
    if u == [] then Document([], text != [] && bom, Some(EmptyDocument), [])
    else match ParseLevel(buffer)
      case End(ns) => Document(ns, bom, None, [])
      case Closed(ns, _, rest) => Document(ns, bom, None, rest)
      case Failed(ns, e) => Document(ns, bom, Some(e), [])
  }

  function ParseDocument(s: bytes): Document {
    ParseBuffer(s, s)
  }

  /** Item by item, the nodes ns are read from s, and t is left. */
  ghost predicate Reads(s: bytes, ns: seq<Node>, t: bytes)
    decreases |ns|
  {
    if ns == [] then s == t
    else s != [] && ParseItem(s).Child? && ParseItem(s).node == ns[0] && Reads(ParseItem(s).rest, ns[1..], t)
  }

  /** All of s can be read as nodes. */
  ghost predicate AllRead(s: bytes, ns: seq<Node>) {
    exists t :: Reads(s, ns, t) && SkipWhite(t) == []
  }

  /** After the nodes ns there is an end tag, and then rest. */
  ghost predicate MeetsEndTag(s: bytes, ns: seq<Node>, name: bytes, rest: bytes) {
    exists t :: Reads(s, ns, t) && t != [] && ParseItem(t) == EndTag(name, rest)
  }

  /* ---- Reading the strings ---- */

  /** The tree as GetStr shows it. */
  function ReadNode(pe: bool, n: Node): Node {
    match n
    case Element(name, attributes, children) =>
      Element(name, ReadAttributes(pe, attributes), ReadNodes(pe, children))
    case Text(value, cdata) => Text(Decoded(if cdata then LINES else ValueFlags(pe), value), cdata)
    case Comment(value) => Comment(Decoded(LINES, value))
    case Declaration(value) => Declaration(Decoded(LINES, value))
    case Unknown(value) => Unknown(Decoded(LINES, value))
  }

  function ReadNodes(pe: bool, ns: seq<Node>): seq<Node> {
    if ns == [] then [] else [ReadNode(pe, ns[0])] + ReadNodes(pe, ns[1..])
  }

  function ReadAttributes(pe: bool, attributes: seq<Attribute>): seq<Attribute> {
    if attributes == [] then []
    else
      var a := attributes[0];
      [Attribute(a.name, Decoded(ValueFlags(pe), a.value))] + ReadAttributes(pe, attributes[1..])
  }
}
