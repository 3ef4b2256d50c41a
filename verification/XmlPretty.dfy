/** The print with line breaks, spelled out: every element on a line of its own, four spaces
    further in than the one around it. */
module XmlPretty {
  import opened Options
  import opened XmlChars
  import opened XmlText
  import opened XmlTree
  import opened XmlGrammar

  function Spaces(n: nat): bytes {
    seq(n, _ => ' ' as int)
  }

  function LineAt(depth: nat): bytes {
    Ascii("\n") + Spaces(4 * depth)
  }

  predicate AllText(ns: seq<Node>) {
    forall i | 0 <= i < |ns| :: ns[i].Text?
  }

  /** No text stands beside an element, a comment, a declaration or an unknown. */
  predicate Tidy(n: Node)
    decreases n, 1
  {
    n.Element? ==> AllText(n.children) || AllTidy(n.children)
  }

  predicate AllTidy(ns: seq<Node>)
    decreases ns, 0
  {
    ns == [] || (!ns[0].Text? && Tidy(ns[0]) && AllTidy(ns[1..]))
  }

  /** An element holds its text on one line, and its other children on lines of their own. */
  function PrettyNode(pe: bool, depth: nat, gap: bytes, n: Node): Markup
    decreases n, 1
  {
    match n
    case Element(name, attributes, children) =>
      if children == [] then Sealed(gap, [], name, PrintedAttributes(pe, attributes), [])
      else if AllText(children) then
        Markup.Tagged(gap, [], name, PrintedAttributes(pe, attributes), [], PrintedNodes(pe, children),
                      EndMarkup([], [], name, []))
      else
        Markup.Tagged(gap, [], name, PrintedAttributes(pe, attributes), [],
                      PrettyNodes(pe, depth + 1, LineAt(depth + 1), children), EndMarkup(LineAt(depth), [], name, []))
    case Text(value, cdata) => if cdata then CData(gap, value) else Characters(Encoded(pe, true, value))
    case Comment(value) => Remark(gap, value)
    case Declaration(value) => Instruction(gap, value)
    case Unknown(value) => Other(gap, value)
  }

  /** An empty line follows each element outside all others. */
  function PrettyNodes(pe: bool, depth: nat, gap: bytes, ns: seq<Node>): seq<Markup>
    decreases ns, 0
  {
    if ns == [] then []
    else [PrettyNode(pe, depth, gap, ns[0])] + PrettyNodes(pe, depth, LineAfter(depth, ns[0]) + LineAt(depth), ns[1..])
  }

  function LineAfter(depth: nat, n: Node): bytes {
    if depth == 0 && n.Element? then Ascii("\n") else []
  }

  predicate Between(l: Layout) {
    l.pretty && l.textDepth == -1 && l.depth >= 0
  }

  lemma LineIs(depth: nat)
    ensures [LF] + Indent(depth) == LineAt(depth) && Ascii("\n") == [LF]
  {
    IndentIs(depth);
  }

  lemma {:induction false} TextsPrinted(pe: bool, l: Layout, ns: seq<Node>, k: bytes)
    requires AllText(ns)
    ensures NodesText(pe, l, ns, k) == AllSpelled(PrintedNodes(pe, ns), k)
    ensures AfterAll(l, ns) == if ns == [] then l else l.(textDepth := l.depth - 1)
    decreases |ns|
  {
    hide Encoded;
    Tokens();
    if ns != [] {
      var l', rest := l.(textDepth := l.depth - 1), ns[1..];
      var u := NodesText(pe, l', rest, k);
      TextsPrinted(pe, l', rest, k);
      assert NodesText(pe, l, ns, k) == NodeText(pe, l, ns[0], u);
      assert AllSpelled(PrintedNodes(pe, ns), k) == Spelled(PrintedNode(pe, ns[0]), u);
      if !PlainText(ns[0]) {
        var t := CDATA_HEADER + (ns[0].value + (CDATA_END + u));
        assert [] + t == t;
      }
    }
  }

  lemma TagPrinted(pe: bool, w: bytes, b: bytes, name: bytes, attributes: seq<Attribute>, tail: bytes)
    ensures w + (b + ([LT] + (name + AttributesText(pe, attributes, tail)))) ==
      (w + b) + (Ascii("<") + ([] + (name + AttributesSpelled(PrintedAttributes(pe, attributes), [] + tail))))
  {
    hide AttributesText, AttributesSpelled, PrintedAttributes;
    Tokens();
    AttributesPrinted(pe, attributes, tail);
    assert [] + tail == tail;
    var t := name + AttributesText(pe, attributes, tail);
    assert [] + t == t;
    assert w + (b + ([LT] + t)) == (w + b) + ([LT] + t);
  }

  lemma EndOnLine(line: bytes, name: bytes, k: bytes)
    ensures line + EndTagText(name, k) == EndSpelled(EndMarkup(line, [], name, []), k)
  {
    Tokens();
    assert [] + ([GT] + k) == [GT] + k;
    assert [LT] + ([] + ([SLASH] + (name + ([GT] + k)))) == [LT, SLASH] + (name + ([GT] + k));
  }

  /** What follows the start tag of an element with children. */
  lemma PrettyContent(pe: bool, l: Layout, gap: bytes, n: Node, k: bytes)
    requires Between(l) && Tidy(n) && n.Element? && n.children != []
    ensures var m := PrettyNode(pe, l.depth, gap, n);
      m.Tagged? && ContentText(pe, l, n, k) == Ascii(">") + AllSpelled(m.children, EndSpelled(m.end, k))
    ensures After(l, n) == l.(first := false)
    decreases n, 0
  {
    hide AfterAll, AllSpelled, PrettyNodes, PrintedNodes, EndSpelled, ContentText, LineAt, PrintedAttributes, Indent;
    Tokens();
    if AllText(n.children) {
      TextContent(pe, l, n, k);
    } else {
      TidyContent(pe, l, n, k);
    }
  }

  lemma TextContent(pe: bool, l: Layout, n: Node, k: bytes)
    requires Between(l) && n.Element? && n.children != [] && AllText(n.children)
    ensures ContentText(pe, l, n, k) ==
      [GT] + AllSpelled(PrintedNodes(pe, n.children), EndSpelled(EndMarkup([], [], n.name, []), k))
    ensures AfterAll(Inside(l), n.children) == Inside(l).(textDepth := l.depth)
  {
    hide Encoded, NodesText, AllSpelled, AfterAll, PrintedNodes, EndSpelled, EndTagText;
    var end := ClosingLine(l, n.children) + EndTagText(n.name, k);
    TextsPrinted(pe, Inside(l), n.children, end);
    EndOnLine([], n.name, k);
  }

  lemma TidyContent(pe: bool, l: Layout, n: Node, k: bytes)
    requires Between(l) && n.Element? && n.children != [] && AllTidy(n.children)
    ensures ContentText(pe, l, n, k) ==
      [GT] + AllSpelled(PrettyNodes(pe, l.depth + 1, LineAt(l.depth + 1), n.children),
                        EndSpelled(EndMarkup(LineAt(l.depth), [], n.name, []), k))
    ensures AfterAll(Inside(l), n.children) == Inside(l)
    decreases n.children, 1
  {
    hide Encoded, NodesText, AllSpelled, AfterAll, PrettyNodes, EndSpelled, EndTagText, LineAt, Indent, AllTidy;
    LineIs(l.depth);
    LineIs(l.depth + 1);
    var line := ClosingLine(l, n.children);
    var end := line + EndTagText(n.name, k);
    EndOnLine(line, n.name, k);
    PrettyNodesPrinted(pe, Inside(l), [], n.children, end);
    assert [] + LineAt(l.depth + 1) == LineAt(l.depth + 1);
    assert [] + NodesText(pe, Inside(l), n.children, end) == NodesText(pe, Inside(l), n.children, end);
    assert [] + end == end;
  }

  lemma {:induction false} PrettyNodePrinted(pe: bool, l: Layout, w: bytes, n: Node, k: bytes)
    requires Between(l) && Tidy(n) && !n.Text?
    ensures w + NodeText(pe, l, n, k) == Spelled(PrettyNode(pe, l.depth, w + Break(l), n), LineAfter(l.depth, n) + k)
    ensures After(l, n) == l.(first := false)
    decreases n, 1
  {
    hide Encoded, AttributesText, AttributesSpelled, NodesText, AllSpelled, PrettyNodes, PrintedNodes,
      PrintedAttributes, Break, AfterAll, EndSpelled;
    Tokens();
    LineIs(0);
    if n.Element? {
      var k' := LastLine(l) + k;
      assert k' == LineAfter(l.depth, n) + k;
      TagPrinted(pe, w, Break(l), n.name, n.attributes, ContentText(pe, l, n, k'));
      if n.children != [] {
        PrettyContent(pe, l, w + Break(l), n, k');
      } else {
        NothingAfter(Inside(l));
      }
    } else {
      var t := TagText(pe, l, n, k);
      assert w + (Break(l) + t) == (w + Break(l)) + t;
      assert [] + k == k;
    }
  }

  lemma NothingAfter(l: Layout)
    ensures AfterAll(l, []) == l
  {
  }

  /** With line breaks, tidy nodes are printed as PrettyNodes has them. */
  lemma {:induction false} PrettyNodesPrinted(pe: bool, l: Layout, w: bytes, ns: seq<Node>, k: bytes)
    requires Between(l) && AllTidy(ns)
    ensures ns != [] ==>
      w + NodesText(pe, l, ns, k) ==
        AllSpelled(PrettyNodes(pe, l.depth, w + Break(l), ns), LineAfter(l.depth, ns[|ns| - 1]) + k)
    ensures AfterAll(l, ns) == if ns == [] then l else l.(first := false)
    decreases ns, 0
  {
    hide NodeText, Spelled, PrettyNode, After, Tidy, LineAfter;
    if ns != [] {
      var l', rest := l.(first := false), ns[1..];
      var u := NodesText(pe, l', rest, k);
      PrettyNodePrinted(pe, l, w, ns[0], u);
      PrettyNodesPrinted(pe, l', LineAfter(l.depth, ns[0]), rest, k);
      LineIs(l.depth);
      if rest != [] {
        assert Break(l') == LineAt(l.depth);
        assert rest[|rest| - 1] == ns[|ns| - 1];
      }
    }
  }

  /** A document with line breaks: the first node is at its very start. */
  lemma PrettyPrinted(pe: bool, ns: seq<Node>)
    requires AllTidy(ns)
    ensures DocumentText(pe, true, false, ns) ==
      AllSpelled(PrettyNodes(pe, 0, [], ns), if ns != [] && ns[|ns| - 1].Element? then Ascii("\n") else [])
  {
    hide NodesText, AllSpelled, PrettyNode, AllTidy, PrettyNodes;
    var l, t := Start(true), NodesText(pe, Start(true), ns, []);
    assert [] + t == t && DocumentText(pe, true, false, ns) == t;
    if ns == [] {
      NoNodes(pe, l);
    } else {
      PrettyNodesPrinted(pe, l, [], ns, []);
      assert [] + Break(l) == [];
      assert LineAfter(0, ns[|ns| - 1]) + [] == LineAfter(0, ns[|ns| - 1]);
    }
  }

  lemma NoNodes(pe: bool, l: Layout)
    ensures NodesText(pe, l, [], []) == [] == AllSpelled(PrettyNodes(pe, 0, [], []), [])
  {
  }
}
