/** XMLPrinter (tinyxml2.h, tinyxml2.cpp), printing to memory. */
module XmlPrinter {
  import opened XmlChars
  import opened XmlText
  import opened XmlTree

  const ENTITY_RANGE: nat := 64

  /* ---- Printed text grows at its end ---- */

  lemma Reassociate(a: bytes, b: bytes, c: bytes)
    ensures a + (b + c) == a + b + c
  {
  }

  lemma {:induction false} AttributesTextAppends(pe: bool, attributes: seq<Attribute>, k: bytes)
    ensures AttributesText(pe, attributes, k) == AttributesText(pe, attributes, []) + k
  {
    hide Encoded;
    if attributes == [] {
      assert [] + k == k;
    } else {
      var a := attributes[0];
      var e, rest := Encoded(pe, false, a.value), AttributesText(pe, attributes[1..], []);
      AttributesTextAppends(pe, attributes[1..], k);
      Reassociate([QUOTE], rest, k);
      Reassociate(e, [QUOTE] + rest, k);
      Reassociate([EQ, QUOTE], e + ([QUOTE] + rest), k);
      Reassociate(a.name, [EQ, QUOTE] + (e + ([QUOTE] + rest)), k);
      Reassociate([SPACE], a.name + ([EQ, QUOTE] + (e + ([QUOTE] + rest))), k);
    }
  }

  lemma {:induction false} NodeTextAppends(pe: bool, l: Layout, n: Node, k: bytes)
    ensures NodeText(pe, l, n, k) == NodeText(pe, l, n, []) + k
    decreases n, 2
  {
    hide Encoded, TagText;
    if PlainText(n) {
      Reassociate(Encoded(pe, true, n.value), [], k);
    } else {
      TagTextAppends(pe, l, n, k);
      Reassociate(Gap(l, n), TagText(pe, l, n, []), k);
    }
  }

  lemma {:induction false} TagTextAppends(pe: bool, l: Layout, n: Node, k: bytes)
    requires !PlainText(n)
    ensures TagText(pe, l, n, k) == TagText(pe, l, n, []) + k
    decreases n, 1
  {
    hide AttributesText, ContentText;
    match n
    case Element(name, attributes, _) =>
      var x := LastLine(l);
      var tail, tail0, u := ContentText(pe, l, n, x + k), ContentText(pe, l, n, x + []),
        AttributesText(pe, attributes, []);
      assert x + [] == x;
      ContentTextAppends(pe, l, n, x, k);
      AttributesTextAppends(pe, attributes, tail);
      AttributesTextAppends(pe, attributes, tail0);
      Reassociate(u, tail0, k);
      Reassociate(name, u + tail0, k);
      Reassociate([LT], name + (u + tail0), k);
    case Text(v, _) => Appended(CDATA_HEADER, v, CDATA_END, k);
    case Comment(v) => Appended(COMMENT_HEADER, v, COMMENT_END, k);
    case Declaration(v) => Appended(XML_HEADER, v, XML_END, k);
    case Unknown(v) => Appended(DTD_HEADER, v, [GT], k);
  }

  lemma {:induction false} ContentTextAppends(pe: bool, l: Layout, n: Node, x: bytes, k: bytes)
    requires n.Element?
    ensures ContentText(pe, l, n, x + k) == ContentText(pe, l, n, x) + k
    decreases n, 0
  {
    hide NodesText, ClosingLine;
    if n.children == [] {
      Reassociate([SLASH, GT], x, k);
    } else {
      var line, end := ClosingLine(l, n.children), EndTagText(n.name, x);
      EndTagTextAppends(n.name, x, k);
      Reassociate(line, end, k);
      var inner := NodesText(pe, Inside(l), n.children, []);
      NodesTextAppends(pe, Inside(l), n.children, line + end + k);
      NodesTextAppends(pe, Inside(l), n.children, line + end);
      Reassociate(inner, line + end, k);
      Reassociate([GT], inner + (line + end), k);
    }
  }

  lemma EndTagTextAppends(name: bytes, x: bytes, k: bytes)
    ensures EndTagText(name, x + k) == EndTagText(name, x) + k
  {
    Reassociate([GT], x, k);
    Reassociate(name, [GT] + x, k);
    Reassociate([LT, SLASH], name + ([GT] + x), k);
  }

  lemma Appended(header: bytes, v: bytes, tag: bytes, k: bytes)
    ensures header + (v + (tag + k)) == header + (v + (tag + [])) + k
    ensures header + (v + (tag + [])) == header + v + tag
  {
    assert tag + [] == tag;
    Reassociate(v, tag, k);
    Reassociate(header, v + tag, k);
  }

  lemma {:induction false} NodesTextAppends(pe: bool, l: Layout, ns: seq<Node>, k: bytes)
    ensures NodesText(pe, l, ns, k) == NodesText(pe, l, ns, []) + k
    decreases ns, 0
  {
    hide NodeText, After;
    if ns == [] {
      assert [] + k == k;
    } else {
      var l' := After(l, ns[0]);
      var rest := NodesText(pe, l', ns[1..], []);
      NodesTextAppends(pe, l', ns[1..], k);
      NodeTextAppends(pe, l, ns[0], rest + k);
      NodeTextAppends(pe, l, ns[0], rest);
      Reassociate(NodeText(pe, l, ns[0], []), rest, k);
    }
  }

  lemma {:induction false} NodesTextSnoc(pe: bool, l: Layout, ns: seq<Node>, n: Node, k: bytes)
    ensures NodesText(pe, l, ns + [n], k) == NodesText(pe, l, ns, NodeText(pe, AfterAll(l, ns), n, k))
    ensures AfterAll(l, ns + [n]) == After(AfterAll(l, ns), n)
    decreases ns
  {
    hide NodeText, After;
    if ns == [] {
      assert ns + [n] == [n] && [n][1..] == [];
    } else {
      assert (ns + [n])[1..] == ns[1..] + [n] && (ns + [n])[0] == ns[0];
      NodesTextSnoc(pe, After(l, ns[0]), ns[1..], n, k);
    }
  }

  lemma {:induction false} AttributesTextSnoc(pe: bool, attributes: seq<Attribute>, a: Attribute, k: bytes)
    ensures AttributesText(pe, attributes + [a], k) == AttributesText(pe, attributes, AttributesText(pe, [a], k))
    decreases attributes
  {
    hide Encoded;
    if attributes == [] {
      assert attributes + [a] == [a];
    } else {
      assert (attributes + [a])[1..] == attributes[1..] + [a] && (attributes + [a])[0] == attributes[0];
      AttributesTextSnoc(pe, attributes[1..], a, k);
    }
  }

  /* ---- The printer ---- */

  /** What is still to be written for an element whose start tag is open. */
  function Pending(justOpened: bool): bytes {
    if justOpened then [GT] else []
  }

  /** The end of an element that starts at depth l.depth. */
  function CloseText(l: Layout, textDepth: int, justOpened: bool, name: bytes): bytes {
    (if justOpened then [SLASH, GT] else NewLine(l.pretty, textDepth, l.depth) + EndTagText(name, [])) + LastLine(l)
  }

  predicate IsEntity(c: int) {
    c == QUOTE || c == AMP || c == APOS || c == LT || c == GT
  }

  predicate IsRestrictedEntity(c: int) {
    c == AMP || c == LT || c == GT
  }

  lemma EntityValues()
    ensures |ENTITIES| == 5 && ENTITIES[0].value == QUOTE && ENTITIES[1].value == AMP && ENTITIES[2].value == APOS
    ensures ENTITIES[3].value == LT && ENTITIES[4].value == GT
  {
  }

  lemma EncodedNothing(pe: bool, restricted: bool)
    ensures Encoded(pe, restricted, []) == []
  {
  }

  lemma {:induction false} EncodedAsIs(restricted: bool, s: bytes)
    ensures Encoded(false, restricted, s) == s
  {
    if s != [] {
      EncodedAsIs(restricted, s[1..]);
      assert [s[0]] + s[1..] == s;
    }
  }

  lemma EncodedFlag(restricted: bool, c: byte)
    ensures EncodedByte(restricted, c) ==
      if (if restricted then IsRestrictedEntity(c) else IsEntity(c)) then EncodedByte(false, c) else [c]
  {
  }

  /** The children of an element, or of the document, and the seal of the start tag. */
  function ChildrenText(pe: bool, l: Layout, justOpened: bool, ns: seq<Node>): bytes {
    if ns == [] then [] else Pending(justOpened) + NodesText(pe, l, ns, [])
  }

  lemma ChildrenTextSnoc(pe: bool, l: Layout, justOpened: bool, ns: seq<Node>, n: Node, before: bytes)
    ensures before + ChildrenText(pe, l, justOpened, ns) + Pending(justOpened && ns == []) +
      NodeText(pe, AfterAll(l, ns), n, []) == before + ChildrenText(pe, l, justOpened, ns + [n])
    ensures AfterAll(l, ns + [n]) == After(AfterAll(l, ns), n)
  {
    hide NodesText, NodeText;
    var p, all, one := Pending(justOpened), NodesText(pe, l, ns, []), NodeText(pe, AfterAll(l, ns), n, []);
    NoChildren(pe, l);
    NodesTextSnoc(pe, l, ns, n, []);
    NodesTextAppends(pe, l, ns, one);
    NoChildrenThen(pe, l, one);
    Reassociate(p, all, one);
    if ns == [] {
      assert before + [] == before;
      Reassociate(before, p, one);
    } else {
      assert before + (p + all) + [] == before + (p + all);
      Reassociate(before, p + all, one);
    }
  }

  lemma NoChildren(pe: bool, l: Layout)
    ensures NodesText(pe, l, [], []) == [] && AfterAll(l, []) == l
  {
  }

  lemma NoChildrenThen(pe: bool, l: Layout, k: bytes)
    ensures NodesText(pe, l, [], k) == k
  {
  }

  lemma NoAttributes(pe: bool)
    ensures AttributesText(pe, [], []) == []
  {
  }

  /** The pieces that the visit of an element writes. */
  lemma ElementText(pe: bool, l: Layout, n: Node, before: bytes, begun: bytes, tagged: bytes, inner: bytes,
                    after: bytes)
    requires n.Element? && begun == before + Break(l) + ([LT] + n.name)
    requires tagged == begun + AttributesText(pe, n.attributes, [])
    requires inner == tagged + ChildrenText(pe, Inside(l), true, n.children)
    requires after == inner + CloseText(l, AfterAll(Inside(l), n.children).textDepth, n.children == [], n.name)
    ensures after == before + NodeText(pe, l, n, [])
  {
    hide NodesText, AttributesText, Break, ContentText, CloseText, ChildrenText;
    var u, c := AttributesText(pe, n.attributes, []), ChildrenText(pe, Inside(l), true, n.children);
    var e := CloseText(l, AfterAll(Inside(l), n.children).textDepth, n.children == [], n.name);
    var tail := ContentText(pe, l, n, LastLine(l) + []);
    ContentIs(pe, l, n);
    AttributesTextAppends(pe, n.attributes, tail);
    Reassociate(tagged, c, e);
    Reassociate(begun, u, tail);
    Reassociate(before + Break(l), [LT] + n.name, u + tail);
    Reassociate([LT], n.name, u + tail);
    Reassociate(before, Break(l), [LT] + (n.name + (u + tail)));
  }

  lemma ContentIs(pe: bool, l: Layout, n: Node)
    requires n.Element?
    ensures ContentText(pe, l, n, LastLine(l) + []) ==
      ChildrenText(pe, Inside(l), true, n.children) +
      CloseText(l, AfterAll(Inside(l), n.children).textDepth, n.children == [], n.name)
  {
    hide NodesText;
    var x := LastLine(l);
    assert x + [] == x;
    if n.children == [] {
      assert [] + ([SLASH, GT] + x) == [SLASH, GT] + x;
    } else {
      var line, inner := ClosingLine(l, n.children), NodesText(pe, Inside(l), n.children, []);
      EndTagTextAppends(n.name, [], x);
      assert [] + x == x;
      Reassociate(line, EndTagText(n.name, []), x);
      var e := line + EndTagText(n.name, x);
      NodesTextAppends(pe, Inside(l), n.children, e);
      Reassociate([GT], inner, e);
    }
  }

  function Header(n: Node): bytes {
    if n.Text? then CDATA_HEADER else if n.Comment? then COMMENT_HEADER else if n.Declaration? then XML_HEADER
      else DTD_HEADER
  }

  function Footer(n: Node): bytes {
    if n.Text? then CDATA_END else if n.Comment? then COMMENT_END else if n.Declaration? then XML_END else [GT]
  }

  lemma TaggedIs(pe: bool, l: Layout, n: Node, before: bytes)
    requires !n.Element? && !PlainText(n)
    ensures before + Gap(l, n) + (Header(n) + n.value + Footer(n)) == before + NodeText(pe, l, n, [])
  {
    Appended(Header(n), n.value, Footer(n), []);
    Reassociate(before, Gap(l, n), TagText(pe, l, n, []));
  }

  class XMLPrinter {
    var elementJustOpened: bool
    var firstElement: bool
    var depth: int
    var textDepth: int
    var processEntities: bool
    const compactMode: bool
    const entityFlag: array<bool>
    const restrictedEntityFlag: array<bool>
    var stack: seq<bytes>
    var buffer: bytes

    ghost predicate Valid()
      reads this, entityFlag, restrictedEntityFlag
    {
      && entityFlag.Length == ENTITY_RANGE == restrictedEntityFlag.Length
      && (forall i | 0 <= i < ENTITY_RANGE :: entityFlag[i] == IsEntity(i))
      && (forall i | 0 <= i < ENTITY_RANGE :: restrictedEntityFlag[i] == IsRestrictedEntity(i))
    }

    function Current(): Layout
      reads this
    {
      Layout(!compactMode, firstElement, depth, textDepth)
    }

    /** Everything but the output, the layout and the state of the start tag is as it was. */
    twostate predicate Nested()
      reads this
    {
      stack == old(stack) && processEntities == old(processEntities)
    }

    constructor (compact: bool)
      ensures Valid() && compactMode == compact && processEntities
      ensures buffer == [] && stack == [] && !elementJustOpened && Current() == Start(!compact)
    {
      elementJustOpened, firstElement := false, true;
      depth, textDepth := 0, -1;
      processEntities, compactMode := true, compact;
      stack, buffer := [], [];
      var flags, restricted := XMLPrinter.EntityFlags();
      entityFlag, restrictedEntityFlag := flags, restricted;
    }

    static method EntityFlags() returns (flags: array<bool>, restricted: array<bool>)
      ensures fresh(flags) && fresh(restricted) && flags.Length == ENTITY_RANGE == restricted.Length
      ensures forall i | 0 <= i < ENTITY_RANGE :: flags[i] == IsEntity(i) && restricted[i] == IsRestrictedEntity(i)
    {
      flags := new bool[ENTITY_RANGE](_ => false);
      restricted := new bool[ENTITY_RANGE](_ => false);
      EntityValues();
      var i := 0;
      while i < |ENTITIES|
        invariant i <= |ENTITIES|
        invariant forall c | 0 <= c < ENTITY_RANGE :: flags[c] <==> exists j | 0 <= j < i :: ENTITIES[j].value == c
        invariant forall c | 0 <= c < ENTITY_RANGE :: !restricted[c]
      {
        flags[ENTITIES[i].value] := true;
        i := i + 1;
      }
      restricted[AMP], restricted[LT], restricted[GT] := true, true, true;
    }

    method Print(s: bytes)
      modifies this`buffer
      ensures buffer == old(buffer) + s
    {
      buffer := buffer + s;
    }

    method PrintSpace(spaces: int)
      modifies this`buffer
      ensures buffer == old(buffer) + Indent(spaces)
    {
      var i := 0;
      assert buffer + [] == buffer;
      while i < spaces
        invariant i <= spaces || i == 0
        invariant buffer == old(buffer) + Indent(i)
      {
        Print([SPACE, SPACE, SPACE, SPACE]);
        Reassociate(old(buffer), Indent(i), [SPACE, SPACE, SPACE, SPACE]);
        i := i + 1;
      }
    }

    /** The line break that comes before what is printed next, outside of text. */
    method PrintLine()
      modifies this`buffer
      ensures buffer == old(buffer) + NewLine(!compactMode, textDepth, depth)
    {
      if textDepth < 0 && !compactMode {
        Print([LF]);
        PrintSpace(depth);
        Reassociate(old(buffer), [LF], Indent(depth));
      } else {
        assert buffer + [] == buffer;
      }
    }

    /** Writes runs of bytes between entities; s is the C string before its NUL. */
    method PrintString(s: bytes, restricted: bool)
      requires Valid()
      modifies this`buffer
      ensures Valid() && buffer == old(buffer) + Encoded(processEntities, restricted, s)
    {
      hide EncodedByte, Encoded;
      var p, q := 0, 0;
      var flag := if restricted then restrictedEntityFlag else entityFlag;
      if processEntities {
        EncodedNothing(true, restricted);
        while q < |s|
          invariant p <= q <= |s| && Valid()
          invariant buffer + s[p..q] == old(buffer) + Encoded(true, restricted, s[..q])
        {
          EncodedSnoc(true, restricted, s[..q], s[q]);
          assert s[..q + 1] == s[..q] + [s[q]] && s[p..q + 1] == s[p..q] + [s[q]];
          EncodedFlag(restricted, s[q]);
          Reassociate(old(buffer), Encoded(true, restricted, s[..q]), EncodedByte(restricted, s[q]));
          Reassociate(buffer, s[p..q], [s[q]]);
          if 0 < s[q] < ENTITY_RANGE && flag[s[q]] {
            Flush(s, p, q);
            PrintEntity(s[q]);
            p := q + 1;
          }
          q := q + 1;
        }
        assert s[..|s|] == s;
      } else {
        EncodedAsIs(restricted, s);
      }
      if !processEntities || q - p > 0 {
        Print(s[p..]);
      }
    }

    method Flush(s: bytes, from: nat, to: nat)
      requires from <= to <= |s|
      modifies this`buffer
      ensures buffer == old(buffer) + s[from..to]
    {
      var p := from;
      while p < to
        invariant from <= p <= to && buffer == old(buffer) + s[from..p]
      {
        Print([s[p]]);
        p := p + 1;
      }
    }

    method PrintEntity(c: byte)
      requires IsEntity(c)
      modifies this`buffer
      ensures buffer == old(buffer) + EncodedByte(false, c)
    {
      EntityValues();
      var i := 0;
      while i < |ENTITIES|
        invariant i <= |ENTITIES| && buffer == old(buffer)
        invariant forall j | 0 <= j < i :: ENTITIES[j].value != c
      {
        if ENTITIES[i].value == c {
          Print([AMP] + ENTITIES[i].pattern + [SEMI]);
          return;
        }
        i := i + 1;
      }
    }

    method SealElement()
      modifies this`elementJustOpened, this`buffer
      ensures !elementJustOpened && buffer == old(buffer) + [GT]
    {
      elementJustOpened := false;
      Print([GT]);
    }

    /** Seals the element before, and starts a new line outside of text. */
    method StartNode()
      modifies this`elementJustOpened, this`buffer
      ensures !elementJustOpened
      ensures buffer == old(buffer + Pending(elementJustOpened) + Break(Current()))
    {
      if elementJustOpened {
        SealElement();
      } else {
        assert buffer + [] == buffer;
      }
      if !firstElement {
        PrintLine();
      } else {
        assert buffer + [] == buffer;
      }
    }

    method OpenElement(name: bytes)
      modifies this
      ensures elementJustOpened && stack == old(stack) + [name] && Current() == Inside(old(Current()))
      ensures processEntities == old(processEntities)
      ensures buffer == old(buffer + Pending(elementJustOpened) + Break(Current())) + ([LT] + name)
    {
      stack := stack + [name];
      StartNode();
      Print([LT] + name);
      elementJustOpened := true;
      firstElement := false;
      depth := depth + 1;
    }

    method PushAttribute(a: Attribute)
      requires Valid() && elementJustOpened
      modifies this`buffer
      ensures buffer == old(buffer) + AttributesText(processEntities, [a], [])
    {
      Print([SPACE] + a.name + [EQ, QUOTE]);
      PrintString(a.value, false);
      Print([QUOTE]);
      var e := Encoded(processEntities, false, a.value);
      assert [a][1..] == [];
      assert old(buffer) + ([SPACE] + a.name + [EQ, QUOTE]) + e + [QUOTE]
        == old(buffer) + ([SPACE] + (a.name + ([EQ, QUOTE] + (e + ([QUOTE] + [])))));
    }

    method CloseElement()
      requires stack != []
      modifies this
      ensures !elementJustOpened && stack == old(stack)[..|old(stack)| - 1]
      ensures processEntities == old(processEntities)
      ensures var l := old(Current()).(depth := old(depth) - 1);
        && Current() == l.(textDepth := if l.textDepth == l.depth then -1 else l.textDepth)
        && buffer == old(buffer) + CloseText(l, l.textDepth, old(elementJustOpened), old(stack)[|old(stack)| - 1])
    {
      depth := depth - 1;
      var name := stack[|stack| - 1];
      stack := stack[..|stack| - 1];
      ghost var line := NewLine(!compactMode, textDepth, depth);
      ghost var end := if elementJustOpened then [SLASH, GT] else line + EndTagText(name, []);
      if elementJustOpened {
        Print([SLASH, GT]);
      } else {
        PrintLine();
        Print([LT, SLASH] + (name + ([GT] + [])));
        Reassociate(old(buffer), line, EndTagText(name, []));
      }
      if textDepth == depth {
        textDepth := -1;
      }
      if depth == 0 && !compactMode {
        Print([LF]);
        Reassociate(old(buffer), end, [LF]);
      } else {
        assert end + [] == end;
      }
      elementJustOpened := false;
    }

    method PushText(text: bytes, cdata: bool)
      requires Valid()
      modifies this
      ensures Valid() && Nested() && !elementJustOpened && Current() == After(old(Current()), Text(text, cdata))
      ensures buffer ==
        old(buffer + Pending(elementJustOpened)) + NodeText(processEntities, old(Current()), Text(text, cdata), [])
    {
      hide TagText, Encoded;
      textDepth := depth - 1;
      if elementJustOpened {
        SealElement();
      }
      if cdata {
        ghost var before := buffer;
        Print(CDATA_HEADER);
        Print(text);
        Print(CDATA_END);
        TaggedIs(processEntities, old(Current()), Text(text, true), before);
        assert before + [] == before;
        Reassociate(before, CDATA_HEADER, text);
        Reassociate(before, CDATA_HEADER + text, CDATA_END);
      } else {
        PrintString(text, true);
        assert Encoded(processEntities, true, text) + [] == Encoded(processEntities, true, text);
      }
    }

    method PushComment(value: bytes)
      modifies this
      ensures Nested() && !elementJustOpened && Current() == After(old(Current()), Comment(value))
      ensures buffer ==
        old(buffer + Pending(elementJustOpened)) + NodeText(processEntities, old(Current()), Comment(value), [])
    {
      hide TagText, Break;
      ghost var before := buffer + Pending(elementJustOpened);
      StartNode();
      firstElement := false;
      Print(COMMENT_HEADER + value + COMMENT_END);
      TaggedIs(processEntities, old(Current()), Comment(value), before);
    }

    method PushDeclaration(value: bytes)
      modifies this
      ensures Nested() && !elementJustOpened && Current() == After(old(Current()), Declaration(value))
      ensures buffer ==
        old(buffer + Pending(elementJustOpened)) + NodeText(processEntities, old(Current()), Declaration(value), [])
    {
      hide TagText, Break;
      ghost var before := buffer + Pending(elementJustOpened);
      StartNode();
      firstElement := false;
      Print(XML_HEADER + value + XML_END);
      TaggedIs(processEntities, old(Current()), Declaration(value), before);
    }

    method PushUnknown(value: bytes)
      modifies this
      ensures Nested() && !elementJustOpened && Current() == After(old(Current()), Unknown(value))
      ensures buffer ==
        old(buffer + Pending(elementJustOpened)) + NodeText(processEntities, old(Current()), Unknown(value), [])
    {
      hide TagText, Break;
      ghost var before := buffer + Pending(elementJustOpened);
      StartNode();
      firstElement := false;
      Print(DTD_HEADER + value + [GT]);
      TaggedIs(processEntities, old(Current()), Unknown(value), before);
    }

    /** The visit of one node: VisitEnter, its children and VisitExit, or Visit. */
    method Accept(n: Node)
      requires Valid()
      modifies this
      ensures Valid() && Nested() && !elementJustOpened && Current() == After(old(Current()), n)
      ensures buffer == old(buffer + Pending(elementJustOpened)) + NodeText(processEntities, old(Current()), n, [])
      decreases n, 1
    {
      match n
      case Element(name, attributes, children) => AcceptElement(n);
      case Text(value, cdata) => PushText(value, cdata);
      case Comment(value) => PushComment(value);
      case Declaration(value) => PushDeclaration(value);
      case Unknown(value) => PushUnknown(value);
    }

    method AcceptElement(n: Node)
      requires Valid() && n.Element?
      modifies this
      ensures Valid() && Nested() && !elementJustOpened && Current() == After(old(Current()), n)
      ensures buffer == old(buffer + Pending(elementJustOpened)) + NodeText(processEntities, old(Current()), n, [])
      decreases n, 0
    {
      hide AttributesText, NodesText, NodeText, Pending, EndTagText, AfterAll, Break, ChildrenText;
      ghost var l := Current();
      OpenElement(n.name);
      ghost var begun := buffer;
      PushAttributes(n.attributes);
      ghost var tagged := buffer;
      AcceptChildren(n.children);
      ghost var inner := buffer;
      CloseElement();
      ElementText(processEntities, l, n, old(buffer + Pending(elementJustOpened)), begun, tagged, inner, buffer);
    }

    method PushAttributes(attributes: seq<Attribute>)
      requires Valid() && elementJustOpened
      modifies this`buffer
      ensures Valid() && buffer == old(buffer) + AttributesText(processEntities, attributes, [])
    {
      hide AttributesText;
      NoAttributes(processEntities);
      var i := 0;
      while i < |attributes|
        invariant i <= |attributes| && Valid()
        invariant buffer == old(buffer) + AttributesText(processEntities, attributes[..i], [])
      {
        ghost var now := buffer;
        PushAttribute(attributes[i]);
        ghost var one := AttributesText(processEntities, [attributes[i]], []);
        AttributesTextSnoc(processEntities, attributes[..i], attributes[i], []);
        AttributesTextAppends(processEntities, attributes[..i], one);
        Reassociate(old(buffer), AttributesText(processEntities, attributes[..i], []), one);
        assert attributes[..i + 1] == attributes[..i] + [attributes[i]];
        i := i + 1;
      }
      assert attributes[..|attributes|] == attributes;
    }

    method AcceptChildren(ns: seq<Node>)
      requires Valid()
      modifies this
      ensures Valid() && Nested() && Current() == AfterAll(old(Current()), ns)
      ensures elementJustOpened == (old(elementJustOpened) && ns == [])
      ensures buffer == old(buffer) + ChildrenText(processEntities, old(Current()), old(elementJustOpened), ns)
      decreases ns, 2
    {
      hide NodesText, NodeText, After;
      ghost var l := Current();
      NoChildren(processEntities, l);
      var i := 0;
      while i < |ns|
        invariant i <= |ns| && Valid() && Nested() && Current() == AfterAll(l, ns[..i])
        invariant elementJustOpened == (old(elementJustOpened) && i == 0)
        invariant buffer == old(buffer) + ChildrenText(processEntities, l, old(elementJustOpened), ns[..i])
      {
        ghost var now := buffer;
        Accept(ns[i]);
        assert ns[..i + 1] == ns[..i] + [ns[i]];
        ChildrenTextSnoc(processEntities, l, old(elementJustOpened), ns[..i], ns[i], old(buffer));
        i := i + 1;
      }
      assert ns[..|ns|] == ns;
    }

    /** XMLDocument::Accept, for a printer that has not printed anything. */
    method PrintDocument(pe: bool, bom: bool, ns: seq<Node>)
      requires Valid() && buffer == [] && !elementJustOpened && Current() == Start(!compactMode)
      modifies this
      ensures Valid() && processEntities == pe && stack == old(stack)
      ensures buffer == DocumentText(pe, !compactMode, bom, ns)
    {
      processEntities := pe;
      if bom {
        Print(BOM);
      }
      ghost var mark := buffer;
      assert mark == if bom then BOM else [];
      AcceptChildren(ns);
      NoChildren(pe, Start(!compactMode));
    }
  }
}
