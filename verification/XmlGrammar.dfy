/** What the parser of TinyXML-2 accepts, however it is spelled: either quote, white space wherever
    the grammar has it, sealed and unsealed elements. The grammar is written out here in characters;
    that the parser reads it is proved for every markup and whatever follows it. */
module XmlGrammar {
  import opened Options
  import opened XmlChars
  import opened XmlText
  import opened LazyString
  import opened XmlTree
  import opened XmlRoundTrip

  /* ---- Characters ---- */

  function Ascii(s: string): (r: bytes)
    ensures |r| == |s| && forall i | 0 <= i < |s| :: s[i] as int < 256 ==> r[i] == s[i] as int
  {
    seq(|s|, i requires 0 <= i < |s| => s[i] as int % 256)
  }

  predicate Letter(c: byte) {
    'A' as int <= c <= 'Z' as int || 'a' as int <= c <= 'z' as int || c > 127
  }

  predicate NameStart(c: byte) {
    Letter(c) || c == '_' as int || c == ':' as int || '0' as int <= c <= '9' as int
  }

  predicate NameByte(c: byte) {
    NameStart(c) || c == '-' as int || c == '.' as int
  }

  predicate Name(s: bytes) {
    s != [] && NameStart(s[0]) && forall i | 0 < i < |s| :: NameByte(s[i])
  }

  /** A blank, tab, line end or form feed. */
  predicate SpaceByte(c: byte) {
    c == ' ' as int || 9 <= c <= 13
  }

  predicate Space(w: bytes) {
    forall i | 0 <= i < |w| :: SpaceByte(w[i])
  }

  predicate Occurs(tag: bytes, s: bytes) {
    exists i | 0 <= i <= |s| :: tag <= s[i..]
  }

  lemma Tokens()
    ensures Ascii("<") == [LT] && Ascii(">") == [GT] && Ascii("/") == [SLASH] && Ascii("=") == [EQ]
    ensures Ascii("/>") == [SLASH, GT] && Ascii("\"") == [QUOTE] && Ascii("'") == [APOS]
    ensures Ascii("<?") == XML_HEADER && Ascii("?>") == XML_END
    ensures Ascii("<!--") == COMMENT_HEADER && Ascii("-->") == COMMENT_END
    ensures Ascii("<![CDATA[") == CDATA_HEADER && Ascii("]]>") == CDATA_END && Ascii("<!") == DTD_HEADER
    ensures Ascii("--") == [MINUS, MINUS] && Ascii("[CDATA[") == CDATA_HEADER[2..]
  {
  }

  lemma {:induction false} NameIs(s: bytes, first: bool)
    requires forall i | 0 <= i < |s| :: if first && i == 0 then NameStart(s[i]) else NameByte(s[i])
    ensures NameLength(s, first) == |s|
  {
    if s != [] {
      assert forall i | 0 <= i < |s[1..]| :: s[1..][i] == s[i + 1];
      NameIs(s[1..], false);
    }
  }

  /** The names are what NameLength takes whole. */
  lemma NamesAre(s: bytes)
    ensures Name(s) <==> ValidName(s)
  {
    if Name(s) {
      NameIs(s, true);
    }
    if ValidName(s) {
      assert forall k | 0 <= k < |s| :: IsNameByte(s[k], k == 0);
    }
  }

  lemma SpaceIsBlank(w: bytes)
    ensures Space(w) <==> Blank(w)
  {
    assert forall c: byte :: IsWhiteSpace(c) <==> SpaceByte(c);
  }

  lemma NoOccurrence(s: bytes, tag: bytes)
    requires !Occurs(tag, s)
    ensures Before(s, tag).None?
  {
    if Before(s, tag).Some? {
      var n := Before(s, tag).value;
      BeforeIsFirst(s, tag, n);
    }
  }

  /* ---- Markup ---- */

  /** An attribute with the white space before it and on both sides of the equals sign. */
  datatype AttributeMarkup =
    AttributeMarkup(gap: bytes, name: bytes, left: bytes, right: bytes, quote: byte, value: bytes)

  datatype EndMarkup = EndMarkup(gap: bytes, lead: bytes, name: bytes, trail: bytes)

  /** gap is the white space before a node, lead what follows the opening bracket, and trail what
      comes before the end of the tag. */
  datatype Markup =
    | Sealed(gap: bytes, lead: bytes, name: bytes, attributes: seq<AttributeMarkup>, trail: bytes)
    | Tagged(gap: bytes, lead: bytes, name: bytes, attributes: seq<AttributeMarkup>, trail: bytes,
             children: seq<Markup>, end: EndMarkup)
    | Characters(value: bytes)
    | CData(gap: bytes, value: bytes)
    | Remark(gap: bytes, value: bytes)
    | Instruction(gap: bytes, value: bytes)
    | Other(gap: bytes, value: bytes)

  function AttributeSpelled(a: AttributeMarkup, k: bytes): bytes {
    a.name + (a.left + (Ascii("=") + (a.right + ([a.quote] + (a.value + ([a.quote] + k))))))
  }

  function AttributesSpelled(attributes: seq<AttributeMarkup>, k: bytes): bytes {
    if attributes == [] then k
    else attributes[0].gap + AttributeSpelled(attributes[0], AttributesSpelled(attributes[1..], k))
  }

  function EndSpelled(e: EndMarkup, k: bytes): bytes {
    e.gap + (Ascii("<") + (e.lead + (Ascii("/") + (e.name + (e.trail + (Ascii(">") + k))))))
  }

  /** Up to the end of its start tag. */
  function StartSpelled(m: Markup, k: bytes): bytes
    requires m.Sealed? || m.Tagged?
  {
    m.gap + (Ascii("<") + (m.lead + (m.name + AttributesSpelled(m.attributes, m.trail + k))))
  }

  function Spelled(m: Markup, k: bytes): bytes
    decreases m, 1
  {
    match m
    case Sealed(_, _, _, _, _) => StartSpelled(m, Ascii("/>") + k)
    case Tagged(_, _, _, _, _, children, end) =>
      StartSpelled(m, Ascii(">") + AllSpelled(children, EndSpelled(end, k)))
    case Characters(value) => value + k
    case CData(gap, value) => gap + (Ascii("<![CDATA[") + (value + (Ascii("]]>") + k)))
    case Remark(gap, value) => gap + (Ascii("<!--") + (value + (Ascii("-->") + k)))
    case Instruction(gap, value) => gap + (Ascii("<?") + (value + (Ascii("?>") + k)))
    case Other(gap, value) => gap + (Ascii("<!") + (value + (Ascii(">") + k)))
  }

  function AllSpelled(ms: seq<Markup>, k: bytes): bytes
    decreases ms, 0
  {
    if ms == [] then k else Spelled(ms[0], AllSpelled(ms[1..], k))
  }

  /* ---- Its tree ---- */

  function AttributesOf(attributes: seq<AttributeMarkup>): (r: seq<Attribute>)
    ensures |r| == |attributes|
    ensures forall i | 0 <= i < |r| :: r[i] == Attribute(attributes[i].name, attributes[i].value)
  {
    seq(|attributes|, i requires 0 <= i < |attributes| => Attribute(attributes[i].name, attributes[i].value))
  }

  function Tree(m: Markup): Node
    decreases m, 1
  {
    match m
    case Sealed(_, _, name, attributes, _) => Element(name, AttributesOf(attributes), [])
    case Tagged(_, _, name, attributes, _, children, _) => Element(name, AttributesOf(attributes), Trees(children))
    case Characters(value) => Text(value, false)
    case CData(_, value) => Text(value, true)
    case Remark(_, value) => Comment(value)
    case Instruction(_, value) => Declaration(value)
    case Other(_, value) => Unknown(value)
  }

  function Trees(ms: seq<Markup>): seq<Node>
    decreases ms, 0
  {
    if ms == [] then [] else [Tree(ms[0])] + Trees(ms[1..])
  }

  /* ---- What is proper ---- */

  predicate ProperAttribute(a: AttributeMarkup) {
    && Space(a.gap) && Space(a.left) && Space(a.right) && Name(a.name) && Letter(a.name[0])
    && (a.quote == '"' as int || a.quote == '\'' as int) && a.quote !in a.value
  }

  /** White space before the first one, at least; and no name twice. */
  predicate ProperAttributes(attributes: seq<AttributeMarkup>) {
    && (forall i | 0 <= i < |attributes| :: ProperAttribute(attributes[i]))
    && (forall i, j | 0 <= i < j < |attributes| :: attributes[i].name != attributes[j].name)
  }

  predicate ProperStart(m: Markup)
    requires m.Sealed? || m.Tagged?
  {
    && Space(m.gap) && Space(m.lead) && Name(m.name) && Space(m.trail)
    && ProperAttributes(m.attributes) && (m.attributes != [] ==> m.attributes[0].gap != [])
  }

  predicate ProperEnd(e: EndMarkup) {
    Space(e.gap) && Space(e.lead) && Name(e.name) && Space(e.trail)
  }

  /** A node, but for whether its own end tag matches. */
  predicate WellNested(m: Markup)
    decreases m, 1
  {
    match m
    case Sealed(_, _, _, _, _) => ProperStart(m)
    case Tagged(_, _, _, _, _, children, end) =>
      ProperStart(m) && ProperAll(children) && ProperEnd(end) && (EndsInText(children) ==> end.gap == [])
    case Characters(value) => !Space(value) && '<' as int !in value
    case CData(gap, value) => Space(gap) && !Occurs(Ascii("]]>"), value)
    case Remark(gap, value) => Space(gap) && !Occurs(Ascii("-->"), value)
    case Instruction(gap, value) => Space(gap) && !Occurs(Ascii("?>"), value)
    case Other(gap, value) =>
      && Space(gap) && '>' as int !in value
      && !(Ascii("--") <= value) && !(Ascii("[CDATA[") <= value)
  }

  predicate Matches(m: Markup) {
    m.Tagged? ==> m.end.name == m.name
  }

  predicate EndsInText(ms: seq<Markup>) {
    ms != [] && ms[|ms| - 1].Characters?
  }

  /** White space after text belongs to it. */
  predicate ProperAll(ms: seq<Markup>)
    decreases ms, 0
  {
    ms == [] ||
    (&& WellNested(ms[0]) && Matches(ms[0]) && ProperAll(ms[1..])
     && (ms[0].Characters? && |ms| > 1 ==> !ms[1].Characters? && ms[1].gap == []))
  }

  /* ---- Attributes ---- */

  lemma SkipTo(w: bytes, s: bytes)
    requires Space(w) && s != [] && !IsWhiteSpace(s[0])
    ensures SkipWhite(w + s) == s == SkipWhite(s)
  {
    SpaceIsBlank(w);
    SkipBlank(w, s);
  }

  lemma NameThen(name: bytes, w: bytes, s: bytes)
    requires Name(name) && Space(w) && s != [] && !IsNameByte(s[0], false) && !IsWhiteSpace(s[0])
    ensures var t := name + (w + s);
      && NameLength(t, true) == |name| && t[..|name|] == name && t[|name|..] == w + s && SkipWhite(t) == t
      && name != [] && t != [] && t[0] == name[0] && |w + s| > 0
  {
    NamesAre(name);
    SpaceIsBlank(w);
    assert w != [] ==> (w + s)[0] == w[0] && IsWhiteSpace(w[0]);
    assert w == [] ==> (w + s)[0] == s[0];
    NameRead(name, w + s);
  }

  /** One attribute, in either quote, with white space on either side of the equals sign. */
  lemma AttributeRead(a: AttributeMarkup, k: bytes)
    requires ProperAttribute(a)
    ensures ParseAttribute(AttributeSpelled(a, k)) ==
      Some(XmlTree.AttributeRead.AttributeRead(Attribute(a.name, a.value), k))
    ensures SkipWhite(AttributeSpelled(a, k)) == AttributeSpelled(a, k) && AttributeSpelled(a, k) != []
    ensures a.name != [] && AttributeSpelled(a, k)[0] == a.name[0] && Letter(a.name[0])
  {
    hide NameLength, Before, UpTo, SkipWhite, Name, Space;
    Tokens();
    var quoted := [a.quote] + (a.value + ([a.quote] + k));
    var equals := [EQ] + (a.right + quoted);
    NameThen(a.name, a.left, equals);
    SkipTo(a.left, equals);
    assert equals[1..] == a.right + quoted;
    SkipTo(a.right, quoted);
    assert quoted[1..] == a.value + ([a.quote] + k);
    TagsEnd();
    ByteAbsent(a.value, a.quote);
    DelimitedRead(a.value, [a.quote], k);
  }

  lemma LetterIsAlpha(c: byte)
    ensures Letter(c) <==> IsAlpha(c)
    ensures Letter(c) ==> !IsWhiteSpace(c)
  {
  }

  /** The names linked so far and those still to come are all different. */
  predicate AllApart(attributes: seq<AttributeMarkup>, linked: seq<Attribute>) {
    forall i, j | 0 <= i < |attributes| && 0 <= j < |linked| :: attributes[i].name != linked[j].name
  }

  /** A start tag from its first attribute on: all of them are linked, in their order. */
  lemma {:induction false} AttributesAreRead(attributes: seq<AttributeMarkup>, w: bytes, k: bytes,
                                             linked: seq<Attribute>)
    requires ProperAttributes(attributes) && Space(w) && SealsElement(k) && AllApart(attributes, linked)
    ensures ParseAttributes(AttributesSpelled(attributes, w + k), linked) ==
      AttributesRead(linked + AttributesOf(attributes), k[0] == SLASH, k[if k[0] == SLASH then 2 else 1..])
  {
    hide ParseAttributes, ProperAttribute, SkipWhite, Space, ParseAttribute, AttributeSpelled;
    if attributes == [] {
      SealRead(k, linked);
      SkipTo(w, k);
      SameAfterSpace(w + k, k, linked);
      assert linked + [] == linked;
    } else {
      var a, rest := attributes[0], AttributesSpelled(attributes[1..], w + k);
      AttributeTaken(a, rest, linked);
      assert !HasAttribute(linked, a.name);
      var linked' := linked + [Attribute(a.name, a.value)];
      forall i, j | 0 <= i < |attributes[1..]| && 0 <= j < |linked'|
        ensures attributes[1..][i].name != linked'[j].name
      {
        assert attributes[1..][i] == attributes[i + 1];
      }
      AttributesAreRead(attributes[1..], w, k, linked');
      assert linked' + AttributesOf(attributes[1..]) == linked + AttributesOf(attributes);
    }
  }

  lemma SameAfterSpace(s: bytes, t: bytes, linked: seq<Attribute>)
    requires SkipWhite(s) == SkipWhite(t)
    ensures ParseAttributes(s, linked) == ParseAttributes(t, linked)
  {
    hide SkipWhite, ParseAttribute, HasAttribute;
  }

  /** An attribute is linked if no other of its name is; otherwise the parse fails. */
  lemma AttributeTaken(a: AttributeMarkup, rest: bytes, linked: seq<Attribute>)
    requires ProperAttribute(a)
    ensures ParseAttributes(a.gap + AttributeSpelled(a, rest), linked) ==
      if HasAttribute(linked, a.name) then AttributesFailed(ParsingAttribute)
      else ParseAttributes(rest, linked + [Attribute(a.name, a.value)])
  {
    hide ParseAttribute, SkipWhite, AttributeSpelled, HasAttribute, Name, Space;
    AttributeRead(a, rest);
    LetterIsAlpha(a.name[0]);
    SkipTo(a.gap, AttributeSpelled(a, rest));
  }

  /* ---- Nodes ---- */

  lemma AttributesStartApart(attributes: seq<AttributeMarkup>, w: bytes, k: bytes)
    requires ProperAttributes(attributes) && Space(w) && SealsElement(k)
    requires attributes != [] ==> attributes[0].gap != []
    ensures var u := AttributesSpelled(attributes, w + k); u != [] && !IsNameByte(u[0], false)
  {
    hide AttributeSpelled;
    SpaceIsBlank(w);
    if attributes == [] {
      assert w == [] ==> w + k == k;
    } else {
      assert ProperAttribute(attributes[0]);
      SpaceIsBlank(attributes[0].gap);
      assert AttributesSpelled(attributes, w + k)[0] == attributes[0].gap[0];
    }
  }

  /** What the start tag comes to when what follows it has been read. */
  lemma StartIsRead(m: Markup, k: bytes)
    requires (m.Sealed? || m.Tagged?) && ProperStart(m) && SealsElement(k)
    ensures var attributes, rest := AttributesOf(m.attributes), k[if k[0] == SLASH then 2 else 1..];
      ParseItem(StartSpelled(m, k)) ==
      if k[0] == SLASH then Child(Element(m.name, attributes, []), rest) else ParseContent(m.name, attributes, rest)
    ensures StartSpelled(m, k) != []
  {
    hide NameLength, ParseAttributes, ParseContent, SkipWhite, Space, Name, ProperAttributes, AttributesSpelled,
      IsNameByte;
    Tokens();
    var u := AttributesSpelled(m.attributes, m.trail + k);
    var t := m.name + u;
    var s := [LT] + (m.lead + t);
    AttributesStartApart(m.attributes, m.trail, k);
    NamesAre(m.name);
    NameRead(m.name, u);
    NameIsVisible(m.name[0]);
    SkipTo(m.lead, t);
    SkipTo(m.gap, s);
    SpaceFirst(m.lead, t);
    TagHere(m.gap + s, s, m.lead + t);
    NothingYet(m.attributes);
    AttributesAreRead(m.attributes, m.trail, k, []);
    assert [] + AttributesOf(m.attributes) == AttributesOf(m.attributes);
  }

  lemma NothingYet(attributes: seq<AttributeMarkup>)
    ensures AllApart(attributes, [])
  {
  }

  lemma NameIsVisible(c: byte)
    ensures IsNameByte(c, true) ==> !IsWhiteSpace(c) && c != SLASH && c != BANG && c != QUEST
    ensures !IsWhiteSpace(LT) && !IsWhiteSpace(SLASH) && !IsWhiteSpace(GT) && !IsNameByte(GT, false)
  {
  }

  lemma SpaceFirst(w: bytes, s: bytes)
    requires Space(w) && s != []
    ensures (w + s)[0] == s[0] || IsWhiteSpace((w + s)[0])
    ensures !IsWhiteSpace(BANG) && !IsWhiteSpace(QUEST) && !IsWhiteSpace(SLASH)
  {
  }

  /** A left bracket and then no mark of another kind of node. */
  lemma TagHere(s: bytes, t: bytes, u: bytes)
    requires SkipWhite(s) == t && t == [LT] + u && u != [] && u[0] != QUEST && u[0] != BANG
    ensures ParseItem(s) == ParseElement(u)
  {
    hide SkipWhite, ParseElement;
    assert t[1..] == u && t[1] == u[0];
  }

  lemma EndIsRead(e: EndMarkup, k: bytes)
    requires ProperEnd(e)
    ensures ParseLevel(EndSpelled(e, k)) == Closed([], e.name, k)
    ensures TagNext(EndSpelled(e, k)) && |EndSpelled(e, k)| > 1
    ensures e.gap == [] ==> EndSpelled(e, k)[0] == LT
  {
    hide NameLength, ParseAttributes, ParseContent, SkipWhite, Space, Name, IsNameByte, ParseItem, ParseElement;
    Tokens();
    var u := e.trail + ([GT] + k);
    var t := [SLASH] + (e.name + u);
    var s := [LT] + (e.lead + t);
    NameIsVisible(0);
    NameThen(e.name, e.trail, [GT] + k);
    SkipTo(e.lead, t);
    SkipTo(e.gap, s);
    SpaceFirst(e.lead, t);
    TagHere(e.gap + s, s, e.lead + t);
    assert t[1..] == e.name + u;
    SealRead([GT] + k, []);
    SkipTo(e.trail, [GT] + k);
    SameAfterSpace(u, [GT] + k, []);
    assert ([GT] + k)[1..] == k;
    EndTagItem(e.lead + t, t, e.name, u, k);
  }

  lemma EndTagItem(s: bytes, t: bytes, name: bytes, u: bytes, k: bytes)
    requires SkipWhite(s) == t && t != [] && t[0] == SLASH && t[1..] == name + u
    requires NameLength(name + u, true) == |name| > 0 && ParseAttributes(u, []) == AttributesRead([], false, k)
    ensures ParseElement(s) == EndTag(name, k)
  {
    hide NameLength, ParseAttributes, SkipWhite, ParseContent;
    assert (name + u)[..|name|] == name && (name + u)[|name|..] == u;
  }

  /** Comments, CDATA, declarations and unknowns. */
  lemma DelimitedIsRead(m: Markup, k: bytes)
    requires (m.CData? || m.Remark? || m.Instruction? || m.Other?) && WellNested(m)
    ensures ParseItem(Spelled(m, k)) == Child(Tree(m), k) && Spelled(m, k) != []
  {
    hide Before, ParseElement, ParsePlainText, UpTo, SkipWhite, Space, Occurs;
    Tokens();
    TagsEnd();
    match m {
      case CData(gap, v) =>
        NoOccurrence(v, CDATA_END);
        Unwrapped(gap, CDATA_HEADER, v, CDATA_END, k);
        assert SkipWhite(Spelled(m, k))[1] == BANG && SkipWhite(Spelled(m, k))[2] == LBRACKET;
      case Remark(gap, v) =>
        NoOccurrence(v, COMMENT_END);
        Unwrapped(gap, COMMENT_HEADER, v, COMMENT_END, k);
        assert SkipWhite(Spelled(m, k))[1] == BANG;
      case Instruction(gap, v) =>
        NoOccurrence(v, XML_END);
        Unwrapped(gap, XML_HEADER, v, XML_END, k);
      case Other(gap, v) =>
        ByteAbsent(v, GT);
        Unwrapped(gap, DTD_HEADER, v, [GT], k);
        UnknownStarts(v, [GT] + k, DTD_HEADER + (v + ([GT] + k)));
    }
  }

  lemma Unwrapped(gap: bytes, header: bytes, v: bytes, tag: bytes, k: bytes)
    requires Space(gap) && |header| > 1 && header[0] == LT && LastIsUnique(tag) && Before(v, tag).None?
    ensures var s := header + (v + (tag + k));
      && SkipWhite(gap + s) == s && header <= s && (forall i | 0 <= i < |header| :: s[i] == header[i])
      && UpTo(s[|header|..], tag) == Some(Piece(v, k))
  {
    hide UpTo, Before, Space;
    Unwrap(header, v, tag, k);
    SkipTo(gap, header + (v + (tag + k)));
  }

  lemma {:induction false} TextIsThere(v: bytes, k: bytes)
    requires !Space(v) && LT !in v
    ensures var t := SkipWhite(v + k); t != [] && t[0] != LT && (v + k)[0] != LT
  {
    if IsWhiteSpace(v[0]) {
      assert (v + k)[1..] == v[1..] + k;
      assert !Space(v[1..]);
      TextIsThere(v[1..], k);
    }
  }

  /** Text, with all the white space around it, up to the next tag. */
  lemma TextIsRead(m: Markup, k: bytes)
    requires m.Characters? && WellNested(m) && |k| > 1 && k[0] == LT
    ensures ParseItem(Spelled(m, k)) == Child(Tree(m), k) && Spelled(m, k) != []
  {
    hide UpTo, SkipWhite, ParseItem, ParsePlainText, Space;
    TextIsThere(m.value, k);
    TextItem(m.value + k);
    PlainTextIs(m.value, k);
  }

  lemma PlainTextIs(v: bytes, k: bytes)
    requires LT !in v && |k| > 1 && k[0] == LT && v + k != [] && (v + k)[0] != LT
    ensures ParsePlainText(v + k) == Child(Text(v, false), k)
  {
    hide Before, UpTo;
    ByteAbsent(v, LT);
    TagsEnd();
    assert k == [LT] + k[1..];
    DelimitedRead(v, [LT], k[1..]);
    assert (v + k)[|v|..] == k;
  }

  /* ---- Levels ---- */

  /** An element with its children is read if the end tag has its name, and refused otherwise. */
  lemma {:induction false} ItemIsRead(m: Markup, k: bytes)
    requires WellNested(m) && (m.Characters? ==> |k| > 1 && k[0] == LT)
    ensures ParseItem(Spelled(m, k)) == if Matches(m) then Child(Tree(m), k) else Wrong(MismatchedElement)
    ensures Spelled(m, k) != []
    decreases m, 1
  {
    hide ParseItem, ParseLevel, SkipWhite, Space, StartSpelled, EndSpelled;
    match m {
      case Sealed(_, _, _, _, _) =>
        Tokens();
        StartIsRead(m, [SLASH, GT] + k);
        assert ([SLASH, GT] + k)[2..] == k;
      case Tagged(_, _, _, _, _, children, end) =>
        Tokens();
        var rest := AllSpelled(children, EndSpelled(end, k));
        StartIsRead(m, [GT] + rest);
        assert ([GT] + rest)[1..] == rest;
        EndIsRead(end, k);
        LevelIsRead(children, EndSpelled(end, k));
        assert Trees(children) + [] == Trees(children);
        NothingLeft();
      case Characters(_) => TextIsRead(m, k);
      case _ => DelimitedIsRead(m, k);
    }
  }

  /** Siblings, and what comes after them. */
  lemma {:induction false} LevelIsRead(ms: seq<Markup>, k: bytes)
    requires ProperAll(ms) && (EndsInText(ms) ==> |k| > 1 && k[0] == LT)
    ensures ParseLevel(AllSpelled(ms, k)) == Prepend(Trees(ms), ParseLevel(k))
    decreases ms, 0
  {
    hide ParseItem, ParseLevel, Spelled, WellNested, Tree;
    if ms == [] {
      assert [] + ParseLevel(k).nodes == ParseLevel(k).nodes;
    } else {
      var rest := AllSpelled(ms[1..], k);
      TextEnds(ms, k);
      ItemIsRead(ms[0], rest);
      LevelIsRead(ms[1..], k);
      ChildStep(Spelled(ms[0], rest));
      assert [Tree(ms[0])] + (Trees(ms[1..]) + ParseLevel(k).nodes) == Trees(ms) + ParseLevel(k).nodes;
    }
  }

  lemma TextEnds(ms: seq<Markup>, k: bytes)
    requires ms != [] && ProperAll(ms) && (EndsInText(ms) ==> |k| > 1 && k[0] == LT)
    ensures EndsInText(ms[1..]) ==> |k| > 1 && k[0] == LT
    ensures var rest := AllSpelled(ms[1..], k); ms[0].Characters? ==> |rest| > 1 && rest[0] == LT
  {
    hide Spelled, WellNested;
    assert |ms| > 1 ==> ms[1..][|ms| - 2] == ms[|ms| - 1];
    if ms[0].Characters? && |ms| > 1 {
      assert ms[1..][0] == ms[1];
      BracketFirst(ms[1], AllSpelled(ms[1..][1..], k));
    }
  }

  lemma BracketFirst(m: Markup, k: bytes)
    requires !m.Characters? && m.gap == [] && WellNested(m)
    ensures |Spelled(m, k)| > 1 && Spelled(m, k)[0] == LT
  {
    hide AttributesSpelled, AllSpelled, EndSpelled, ProperAll, Space, Occurs;
    Tokens();
  }

  /** A document, with white space at its end. */
  lemma DocumentIsRead(ms: seq<Markup>, w: bytes)
    requires ms != [] && ProperAll(ms) && !EndsInText(ms) && Space(w)
    ensures var s := AllSpelled(ms, w); var d := ParseDocument(s);
      d.nodes == Trees(ms) && d.error == None && d.rest == []
  {
    hide ParseLevel, AllSpelled, SkipWhite, Space, ProperAll, Trees;
    var s := AllSpelled(ms, w);
    LevelIsRead(ms, w);
    SpaceIsBlank(w);
    SpaceEnds(w);
    assert Trees(ms) + [] == Trees(ms);
    SomeTrees(ms);
    SomethingIsThere(Trees(ms), s);
  }

  lemma SomeTrees(ms: seq<Markup>)
    requires ms != []
    ensures Trees(ms) != []
  {
  }

  lemma SpaceEnds(w: bytes)
    requires Blank(w)
    ensures ParseLevel(w) == End([])
  {
    hide ParseElement, ParsePlainText;
    SkipBlank(w, []);
    assert w + [] == w;
  }

  /* ---- What is refused ---- */

  /** A comment without its end. */
  lemma CommentNotEnded(gap: bytes, v: bytes)
    requires Space(gap) && !Occurs(Ascii("-->"), v)
    ensures ParseItem(gap + (Ascii("<!--") + v)) == Wrong(ParsingComment)
  {
    hide Before, ParseElement, ParsePlainText, SkipWhite, Space, Occurs;
    Tokens();
    Headed(gap, COMMENT_HEADER, v);
    NoOccurrence(v, COMMENT_END);
  }

  lemma CDataNotEnded(gap: bytes, v: bytes)
    requires Space(gap) && !Occurs(Ascii("]]>"), v)
    ensures ParseItem(gap + (Ascii("<![CDATA[") + v)) == Wrong(ParsingCData)
  {
    hide Before, ParseElement, ParsePlainText, SkipWhite, Space, Occurs;
    Tokens();
    Headed(gap, CDATA_HEADER, v);
    NoOccurrence(v, CDATA_END);
  }

  lemma DeclarationNotEnded(gap: bytes, v: bytes)
    requires Space(gap) && !Occurs(Ascii("?>"), v)
    ensures ParseItem(gap + (Ascii("<?") + v)) == Wrong(ParsingDeclaration)
  {
    hide Before, ParseElement, ParsePlainText, SkipWhite, Space, Occurs;
    Tokens();
    Headed(gap, XML_HEADER, v);
    NoOccurrence(v, XML_END);
  }

  lemma UnknownNotEnded(gap: bytes, v: bytes)
    requires Space(gap) && '>' as int !in v && !(Ascii("--") <= v) && !(Ascii("[CDATA[") <= v)
    ensures ParseItem(gap + (Ascii("<!") + v)) == Wrong(ParsingUnknown)
  {
    hide Before, ParseElement, ParsePlainText, SkipWhite, Space;
    Tokens();
    Headed(gap, DTD_HEADER, v);
    ByteAbsent(v, GT);
    OtherHeader(v);
  }

  lemma Headed(gap: bytes, header: bytes, v: bytes)
    requires Space(gap) && |header| > 1 && header[0] == LT
    ensures var s := header + v;
      SkipWhite(gap + s) == s && header <= s && s[|header|..] == v && s[0] == LT && s[1] == header[1]
    ensures |header| > 2 ==> (header + v)[2] == header[2]
  {
    hide Space;
    SkipTo(gap, header + v);
  }

  lemma OtherHeader(v: bytes)
    requires !([MINUS, MINUS] <= v) && !(CDATA_HEADER[2..] <= v)
    ensures !(COMMENT_HEADER <= DTD_HEADER + v) && !(CDATA_HEADER <= DTD_HEADER + v) && !(XML_HEADER <= DTD_HEADER + v)
  {
    PrefixAfter(DTD_HEADER, [MINUS, MINUS], v);
    PrefixAfter(DTD_HEADER, CDATA_HEADER[2..], v);
    assert COMMENT_HEADER == DTD_HEADER + [MINUS, MINUS] && CDATA_HEADER == DTD_HEADER + CDATA_HEADER[2..];
    assert (DTD_HEADER + v)[1] == BANG;
  }

  lemma PrefixAfter(a: bytes, b: bytes, s: bytes)
    ensures a + b <= a + s <==> b <= s
  {
    if |b| <= |s| {
      assert (a + s)[..|a + b|] == a + s[..|b|];
      assert (a + b)[|a|..] == b && (a + s[..|b|])[|a|..] == s[..|b|];
    }
  }

  /** Text that no tag comes after. */
  lemma TextWithoutTag(v: bytes)
    requires !Space(v) && '<' as int !in v
    ensures ParseItem(v) == Wrong(ParsingText)
  {
    hide Before, SkipWhite, Space, ParseItem;
    TextIsThere(v, []);
    assert v + [] == v;
    TextItem(v);
    ByteAbsent(v, LT);
  }

  /** What comes after the attributes decides, with those linked. */
  lemma {:induction false} AttributesThen(attributes: seq<AttributeMarkup>, k: bytes, linked: seq<Attribute>)
    requires ProperAttributes(attributes) && AllApart(attributes, linked)
    ensures ParseAttributes(AttributesSpelled(attributes, k), linked) ==
      ParseAttributes(k, linked + AttributesOf(attributes))
  {
    hide ParseAttributes, ProperAttribute, AttributeSpelled;
    if attributes == [] {
      assert linked + [] == linked;
    } else {
      var a := attributes[0];
      AttributeTaken(a, AttributesSpelled(attributes[1..], k), linked);
      assert !HasAttribute(linked, a.name);
      var linked' := linked + [Attribute(a.name, a.value)];
      forall i, j | 0 <= i < |attributes[1..]| && 0 <= j < |linked'|
        ensures attributes[1..][i].name != linked'[j].name
      {
        assert attributes[1..][i] == attributes[i + 1];
      }
      AttributesThen(attributes[1..], k, linked');
      assert linked' + AttributesOf(attributes[1..]) == linked + AttributesOf(attributes);
    }
  }

  /** An attribute that has no equals sign, no quote or no end to its value. */
  lemma AttributeRefused(name: bytes, w: bytes, w': bytes, quote: byte, k: bytes)
    requires Name(name) && Letter(name[0]) && Space(w) && Space(w')
    ensures k != [] && k[0] != '=' as int && !NameByte(k[0]) && !SpaceByte(k[0]) ==>
      ParseAttribute(name + (w + k)) == None
    ensures k != [] && !SpaceByte(k[0]) && k[0] != '"' as int && k[0] != '\'' as int ==>
      ParseAttribute(name + (w + (Ascii("=") + (w' + k)))) == None
    ensures (quote == '"' as int || quote == '\'' as int) && quote !in k ==>
      ParseAttribute(name + (w + (Ascii("=") + (w' + ([quote] + k))))) == None
  {
    hide NameLength, Before, SkipWhite, Name, Space, ParseAttribute;
    Tokens();
    if k != [] {
      SpaceIs(k[0]);
    }
    SpaceIs(EQ);
    SpaceIs(quote);
    if k != [] && k[0] != EQ && !NameByte(k[0]) && !SpaceByte(k[0]) {
      NameThen(name, w, k);
      SkipTo(w, k);
      NoEquals(name, w + k);
    }
    if k != [] && !SpaceByte(k[0]) && k[0] != QUOTE && k[0] != APOS {
      var tail := [EQ] + (w' + k);
      NameThen(name, w, tail);
      SkipTo(w, tail);
      SkipTo(w', k);
      assert tail[1..] == w' + k;
      NoQuoteAfter(name, w + tail, tail, k);
    }
    if (quote == QUOTE || quote == APOS) && quote !in k {
      var quoted := [quote] + k;
      var tail := [EQ] + (w' + quoted);
      NameThen(name, w, tail);
      SkipTo(w, tail);
      SkipTo(w', quoted);
      assert tail[1..] == w' + quoted && quoted[1..] == k;
      ByteAbsent(k, quote);
      NoQuoteAfter(name, w + tail, tail, quoted);
    }
  }

  lemma SpaceIs(c: byte)
    ensures SpaceByte(c) <==> IsWhiteSpace(c)
    ensures NameByte(c) <==> IsNameByte(c, false)
    ensures c == EQ || c == QUOTE || c == APOS ==> !IsWhiteSpace(c) && !IsNameByte(c, false)
  {
  }

  lemma NoEquals(name: bytes, u: bytes)
    requires name != [] && NameLength(name + u, true) == |name| && u != []
    requires SkipWhite(u) == [] || SkipWhite(u)[0] != EQ
    ensures ParseAttribute(name + u) == None
  {
    hide NameLength, SkipWhite;
    assert (name + u)[|name|..] == u;
  }

  lemma NoQuoteAfter(name: bytes, u: bytes, t: bytes, w: bytes)
    requires name != [] && NameLength(name + u, true) == |name| && u != []
    requires SkipWhite(u) == t && t != [] && t[0] == EQ && SkipWhite(t[1..]) == w && w != []
    requires (w[0] != QUOTE && w[0] != APOS) || Before(w[1..], [w[0]]).None?
    ensures ParseAttribute(name + u) == None
  {
    hide NameLength, SkipWhite, Before;
    assert (name + u)[|name|..] == u;
  }

  /** A start tag that goes wrong among its attributes, or is never ended. */
  lemma StartRefused(m: Markup, k: bytes)
    requires (m.Sealed? || m.Tagged?) && ProperStart(m) && k != [] && !IsNameByte(k[0], false)
    ensures var read := ParseAttributes(k, AttributesOf(m.attributes));
      read.AttributesFailed? ==>
        ParseItem(m.gap + (Ascii("<") + (m.lead + (m.name + AttributesSpelled(m.attributes, k))))) == Wrong(read.error)
  {
    hide NameLength, ParseAttributes, ParseContent, SkipWhite, Space, Name, AttributesSpelled, IsNameByte;
    Tokens();
    var u := AttributesSpelled(m.attributes, k);
    var t := m.name + u;
    var s := [LT] + (m.lead + t);
    NotNameAfter(m.attributes, k);
    NamesAre(m.name);
    NameRead(m.name, u);
    NameIsVisible(m.name[0]);
    SkipTo(m.lead, t);
    SkipTo(m.gap, s);
    SpaceFirst(m.lead, t);
    TagHere(m.gap + s, s, m.lead + t);
    NothingYet(m.attributes);
    AttributesThen(m.attributes, k, []);
    assert [] + AttributesOf(m.attributes) == AttributesOf(m.attributes);
  }

  lemma NotNameAfter(attributes: seq<AttributeMarkup>, k: bytes)
    requires ProperAttributes(attributes) && k != [] && !IsNameByte(k[0], false)
    requires attributes != [] ==> attributes[0].gap != []
    ensures var u := AttributesSpelled(attributes, k); u != [] && !IsNameByte(u[0], false)
  {
    hide AttributeSpelled;
    if attributes != [] {
      assert ProperAttribute(attributes[0]);
      SpaceIsBlank(attributes[0].gap);
      assert AttributesSpelled(attributes, k)[0] == attributes[0].gap[0];
    }
  }

  lemma SealStarts(k: bytes)
    ensures [SLASH, GT] <= k <==> k != [] && k[0] == SLASH && Peek(k, 1) == GT
  {
    if |k| >= 2 {
      assert k[..2] == [k[0], k[1]];
    }
  }

  /** The input ends in the tag, or goes on with what is neither an attribute nor the tag's end. */
  lemma TagNotEnded(w: bytes, k: bytes, linked: seq<Attribute>)
    requires Space(w)
    ensures ParseAttributes(w, linked) == AttributesFailed(ParsingElement)
    ensures k != [] && !SpaceByte(k[0]) && !Letter(k[0]) && k[0] != '>' as int && !(Ascii("/>") <= k) ==>
      ParseAttributes(w + k, linked) == AttributesFailed(ParsingElement)
  {
    hide SkipWhite, Space, ParseAttribute, HasAttribute;
    Tokens();
    SpaceIsBlank(w);
    SkipBlank(w, []);
    assert w + [] == w;
    if k != [] && !SpaceByte(k[0]) && !Letter(k[0]) && k[0] != GT && !([SLASH, GT] <= k) {
      SpaceIs(k[0]);
      LetterIsAlpha(k[0]);
      SkipTo(w, k);
      SealStarts(k);
    }
  }

  /** An element whose end tag is missing at the end of the input. */
  lemma Unclosed(m: Markup, w: bytes)
    requires m.Tagged? && ProperStart(m) && ProperAll(m.children) && !EndsInText(m.children) && Space(w)
    ensures ParseItem(StartSpelled(m, Ascii(">") + AllSpelled(m.children, w))) ==
      Wrong(if m.children == [] && w == [] then MismatchedElement else Parsing)
  {
    hide ParseItem, ParseLevel, SkipWhite, Space, StartSpelled, ProperStart;
    Tokens();
    var rest := AllSpelled(m.children, w);
    StartIsRead(m, [GT] + rest);
    assert ([GT] + rest)[1..] == rest;
    LevelIsRead(m.children, w);
    SpaceIsBlank(w);
    SpaceEnds(w);
    if m.children != [] {
      TextEnds(m.children, w);
      ItemIsRead(m.children[0], AllSpelled(m.children[1..], w));
    }
  }

  /** After an error the nodes before it are kept, and nothing that comes after it is read. */
  lemma ErrorEndsParse(ms: seq<Markup>, k: bytes, e: Error)
    requires ProperAll(ms) && (EndsInText(ms) ==> |k| > 1 && k[0] == LT) && k != [] && ParseItem(k) == Wrong(e)
    ensures ParseLevel(AllSpelled(ms, k)) == Failed(Trees(ms), e)
  {
    hide ParseItem, Trees, AllSpelled, ProperAll;
    LevelIsRead(ms, k);
    assert Trees(ms) + [] == Trees(ms);
  }

  /** White space is no document. */
  lemma NoDocument(w: bytes)
    requires Space(w)
    ensures ParseDocument(w) == Document([], false, Some(EmptyDocument), [])
  {
    SpaceIsBlank(w);
    SkipBlank(w, []);
    assert w + [] == w;
  }

  /* ---- The print, spelled out ---- */

  /** Four spaces for each level. */
  lemma {:induction false} IndentIs(depth: int)
    ensures |Indent(depth)| == if depth > 0 then 4 * depth else 0
    ensures forall i | 0 <= i < |Indent(depth)| :: Indent(depth)[i] == ' ' as int
  {
    if depth > 0 {
      IndentIs(depth - 1);
    }
  }

  function PrintedAttribute(pe: bool, a: Attribute): AttributeMarkup {
    AttributeMarkup(Ascii(" "), a.name, [], [], '"' as int, Encoded(pe, false, a.value))
  }

  function PrintedAttributes(pe: bool, attributes: seq<Attribute>): seq<AttributeMarkup> {
    if attributes == [] then []
    else [PrintedAttribute(pe, attributes[0])] + PrintedAttributes(pe, attributes[1..])
  }

  function PrintedNode(pe: bool, n: Node): Markup
    decreases n, 1
  {
    match n
    case Element(name, attributes, children) =>
      if children == [] then Sealed([], [], name, PrintedAttributes(pe, attributes), [])
      else
        Markup.Tagged([], [], name, PrintedAttributes(pe, attributes), [], PrintedNodes(pe, children),
                      EndMarkup([], [], name, []))
    case Text(value, cdata) => if cdata then CData([], value) else Characters(Encoded(pe, true, value))
    case Comment(value) => Remark([], value)
    case Declaration(value) => Instruction([], value)
    case Unknown(value) => Other([], value)
  }

  function PrintedNodes(pe: bool, ns: seq<Node>): seq<Markup>
    decreases ns, 0
  {
    if ns == [] then [] else [PrintedNode(pe, ns[0])] + PrintedNodes(pe, ns[1..])
  }

  lemma {:induction false} AttributesPrinted(pe: bool, attributes: seq<Attribute>, k: bytes)
    ensures AttributesText(pe, attributes, k) == AttributesSpelled(PrintedAttributes(pe, attributes), k)
  {
    hide Encoded;
    Tokens();
    assert Ascii(" ") == [SPACE];
    if attributes != [] {
      var a, rest := attributes[0], AttributesText(pe, attributes[1..], k);
      AttributesPrinted(pe, attributes[1..], k);
      var value := Encoded(pe, false, a.value) + ([QUOTE] + rest);
      assert [EQ] + ([] + ([QUOTE] + value)) == [EQ, QUOTE] + value;
      assert [] + ([EQ, QUOTE] + value) == [EQ, QUOTE] + value;
    }
  }

  lemma {:induction false} NodePrinted(pe: bool, l: Layout, n: Node, k: bytes)
    requires !l.pretty
    ensures NodeText(pe, l, n, k) == Spelled(PrintedNode(pe, n), k)
    decreases n, 1
  {
    hide Encoded, AttributesText, AttributesSpelled, AfterAll;
    Tokens();
    if n.Element? {
      AttributesPrinted(pe, n.attributes, [SLASH, GT] + k);
      var end := ClosingLine(l, n.children) + EndTagText(n.name, k);
      assert end == EndTagText(n.name, k);
      NodesPrinted(pe, Inside(l), n.children, end);
      AttributesPrinted(pe, n.attributes, [GT] + NodesText(pe, Inside(l), n.children, end));
      EndPrinted(n.name, k);
      ElementPrinted(pe, l, n, k);
    } else if !PlainText(n) {
      assert [] + TagText(pe, l, n, k) == TagText(pe, l, n, k);
    }
  }

  lemma EndPrinted(name: bytes, k: bytes)
    ensures EndTagText(name, k) == EndSpelled(EndMarkup([], [], name, []), k)
  {
    Tokens();
    assert [] + ([GT] + k) == [GT] + k;
    assert [LT] + ([] + ([SLASH] + (name + ([GT] + k)))) == [LT, SLASH] + (name + ([GT] + k));
  }

  lemma ElementPrinted(pe: bool, l: Layout, n: Node, k: bytes)
    requires !l.pretty && n.Element?
    requires AttributesText(pe, n.attributes, [SLASH, GT] + k) ==
      AttributesSpelled(PrintedAttributes(pe, n.attributes), [SLASH, GT] + k)
    requires var content := NodesText(pe, Inside(l), n.children, ClosingLine(l, n.children) + EndTagText(n.name, k));
      && content == AllSpelled(PrintedNodes(pe, n.children), EndSpelled(EndMarkup([], [], n.name, []), k))
      && AttributesText(pe, n.attributes, [GT] + content) ==
         AttributesSpelled(PrintedAttributes(pe, n.attributes), [GT] + content)
    ensures NodeText(pe, l, n, k) == Spelled(PrintedNode(pe, n), k)
  {
    hide AttributesText, AttributesSpelled, AfterAll, NodesText, AllSpelled, EndSpelled, EndTagText, PrintedNodes,
      PrintedAttributes;
    Tokens();
    assert [] + k == k;
    var u := AttributesText(pe, n.attributes, ContentText(pe, l, n, k));
    assert [] + ([LT] + ([] + (n.name + u))) == [] + ([LT] + (n.name + u));
    assert [] + ([SLASH, GT] + k) == [SLASH, GT] + k;
    if n.children != [] {
      var tail := [GT] + AllSpelled(PrintedNodes(pe, n.children), EndSpelled(EndMarkup([], [], n.name, []), k));
      assert [] + tail == tail;
    }
  }

  /** Without line breaks the printer spells everything in one way: one space before an attribute,
      double quotes, and elements without children sealed. */
  lemma {:induction false} NodesPrinted(pe: bool, l: Layout, ns: seq<Node>, k: bytes)
    requires !l.pretty
    ensures NodesText(pe, l, ns, k) == AllSpelled(PrintedNodes(pe, ns), k)
    decreases ns, 0
  {
    hide NodeText, Spelled, PrintedNode, After;
    if ns != [] {
      var rest := NodesText(pe, After(l, ns[0]), ns[1..], k);
      StaysCompact(l, ns[0]);
      NodesPrinted(pe, After(l, ns[0]), ns[1..], k);
      NodePrinted(pe, l, ns[0], rest);
    }
  }

  lemma StaysCompact(l: Layout, n: Node)
    ensures After(l, n).pretty == l.pretty
  {
  }

  /* ---- Digits, lines and words ---- */

  /** The digits of character references, in either case. */
  lemma DigitsAre(c: byte)
    ensures Digit(c, 10) == if '0' as int <= c <= '9' as int then Some(c - '0' as int) else None
    ensures Digit(c, 16) ==
      if '0' as int <= c <= '9' as int then Some(c - '0' as int)
      else if 'a' as int <= c <= 'f' as int then Some(10 + c - 'a' as int)
      else if 'A' as int <= c <= 'F' as int then Some(10 + c - 'A' as int)
      else None
  {
  }

  /** A number is written with the digit of highest value first. */
  lemma NumberIs(digits: bytes, c: byte, base: nat)
    requires Digit(c, base).Some?
    ensures Number([], base) == 0 && Number(digits + [c], base) == Number(digits, base) * base + Digit(c, base).value
  {
    hide Digit;
    var s := digits + [c];
    assert s[..|s| - 1] == digits && s[|s| - 1] == c;
  }

  /** References by number, decimal or hexadecimal, stand for the character of that number. */
  lemma ReferencesRead(digits: bytes, k: bytes)
    ensures digits != [] && Digits(digits, 10) && Number(digits, 10) < 0x1_0000_0000 ==>
      NextUnit(ValueFlags(true), Ascii("&#") + digits + Ascii(";") + k) ==
        Unit(3 + |digits|, Utf8(Number(digits, 10)))
    ensures digits != [] && Digits(digits, 16) && Number(digits, 16) < 0x1_0000_0000 ==>
      NextUnit(ValueFlags(true), Ascii("&#x") + digits + Ascii(";") + k) ==
        Unit(4 + |digits|, Utf8(Number(digits, 16)))
  {
    hide NextUnit;
    assert Ascii("&#") == [AMP, HASH] && Ascii("&#x") == [AMP, HASH, CH_X] && Ascii(";") == [SEMI];
    if digits != [] && Digits(digits, 10) && Number(digits, 10) < WORD {
      ReferenceDecodes(false, digits, k, Ascii("&#") + digits + Ascii(";") + k);
    }
    if digits != [] && Digits(digits, 16) && Number(digits, 16) < WORD {
      ReferenceDecodes(true, digits, k, Ascii("&#x") + digits + Ascii(";") + k);
    }
  }

  /** Whatever line ends a node or attribute value has, it is read with line feeds; only in text and
      attribute values, and only if they are processed, do ampersands mean anything. */
  lemma LinesOfNodes(pe: bool, lines: seq<bytes>, sep: bytes)
    requires sep in {[CR], [LF], [CR, LF], [LF, CR]} && forall i | 0 <= i < |lines| :: OneLine(lines[i])
    ensures var s, t := Joined(lines, sep), Joined(lines, [LF]);
      && ReadNode(pe, Text(s, true)) == Text(t, true) && ReadNode(pe, Comment(s)) == Comment(t)
      && ReadNode(pe, Declaration(s)) == Declaration(t) && ReadNode(pe, Unknown(s)) == Unknown(t)
      && ReadNode(false, Text(s, false)) == Text(t, false)
    ensures (forall i | 0 <= i < |lines| :: WholeLine(ValueFlags(true), lines[i])) ==>
      var s, t := Joined(lines, sep), Joined(DecodedLines(ValueFlags(true), lines), [LF]);
      && ReadNode(true, Text(s, false)) == Text(t, false)
      && forall name: bytes :: ReadAttributes(true, [Attribute(name, s)]) == [Attribute(name, t)]
  {
    hide Decoded, Joined, OneLine, WholeLine;
    PlainLinesNormalised(lines, sep);
    assert ValueFlags(false) == LINES;
    if forall i | 0 <= i < |lines| :: WholeLine(ValueFlags(true), lines[i]) {
      LinesNormalised(ValueFlags(true), lines, sep);
    }
  }

  /** A word and the white space after it. */
  datatype WordThenGap = WordThenGap(word: bytes, gap: bytes)

  function Spread(lead: bytes, text: seq<WordThenGap>): bytes
    decreases |text|
  {
    if text == [] then lead else lead + (text[0].word + Spread(text[0].gap, text[1..]))
  }

  function Words(text: seq<WordThenGap>): (r: seq<bytes>)
    ensures |r| == |text| && forall i | 0 <= i < |r| :: r[i] == text[i].word
  {
    seq(|text|, i requires 0 <= i < |text| => text[i].word)
  }

  /** Words without white space in them, and some between any two. */
  predicate Apart(text: seq<WordThenGap>) {
    && (forall i | 0 <= i < |text| :: Space(text[i].gap) && Word(text[i].word))
    && (forall i | 0 <= i < |text| - 1 :: text[i].gap != [])
  }

  predicate Word(w: bytes) {
    w != [] && forall i | 0 <= i < |w| :: !SpaceByte(w[i])
  }

  lemma {:induction false} WordSqueezed(w: bytes, k: bytes)
    requires forall i | 0 <= i < |w| :: !SpaceByte(w[i])
    ensures Squeezed(w + k) == w + Squeezed(k)
  {
    hide Squeezed;
    if w == [] {
      assert w + k == k && [] + Squeezed(k) == Squeezed(k);
    } else {
      SpaceIs(w[0]);
      SqueezedStep(w + k);
      assert (w + k)[1..] == w[1..] + k;
      WordSqueezed(w[1..], k);
      assert [w[0]] + (w[1..] + Squeezed(k)) == w + Squeezed(k);
    }
  }

  lemma GapSqueezed(gap: bytes, k: bytes)
    requires Space(gap) && gap != [] && (k == [] || !SpaceByte(k[0]))
    ensures Squeezed(gap + k) == if k == [] then [] else [SPACE] + Squeezed(k)
  {
    hide Squeezed, SkipWhite;
    SpaceIs(gap[0]);
    assert (gap + k)[0] == gap[0];
    SqueezedStep(gap + k);
    if k == [] {
      SpaceIsBlank(gap);
      SkipBlank(gap, []);
      NothingToSkip();
    } else {
      SpaceIs(k[0]);
      SkipTo(gap, k);
      SqueezedStep(k);
      assert [SPACE, k[0]] + Squeezed(k[1..]) == [SPACE] + ([k[0]] + Squeezed(k[1..]));
    }
  }

  lemma NothingToSkip()
    ensures SkipWhite([]) == []
  {
  }

  lemma {:induction false} SqueezedWords(text: seq<WordThenGap>)
    requires Apart(text) && text != []
    ensures Squeezed(Spread([], text)) == Joined(Words(text), [SPACE])
    decreases |text|
  {
    hide Squeezed, Space, Word;
    var p, rest := text[0], text[1..];
    var k := Spread([], rest);
    assert [] + (p.word + Spread(p.gap, rest)) == p.word + Spread(p.gap, rest);
    WordStarts(p.word);
    WordSqueezed(p.word, Spread(p.gap, rest));
    assert Words(rest) == Words(text)[1..];
    if rest == [] {
      SqueezedEnd(p.gap);
      assert p.word + [] == p.word;
    } else {
      assert rest[0] == text[1] && k == rest[0].word + Spread(rest[0].gap, rest[1..]);
      WordStarts(rest[0].word);
      GapSqueezed(p.gap, k);
      SqueezedWords(rest);
      assert Spread(p.gap, rest) == p.gap + k;
    }
  }

  lemma WordStarts(w: bytes)
    requires Word(w)
    ensures w != [] && !SpaceByte(w[0]) && forall i | 0 <= i < |w| :: !SpaceByte(w[i])
  {
  }

  lemma SqueezedEnd(gap: bytes)
    requires Space(gap)
    ensures Squeezed(gap) == []
  {
    if gap == [] {
      SqueezedStep([]);
    } else {
      assert gap + [] == gap;
      GapSqueezed(gap, []);
    }
  }

  /** With white space collapsed, words are set apart by one space each, and there is none before
      the first or after the last. */
  lemma CollapsedWords(lead: bytes, text: seq<WordThenGap>)
    requires Space(lead) && Apart(text)
    ensures Collapsed(Spread(lead, text)) == Joined(Words(text), [SPACE])
  {
    hide Squeezed, SkipWhite, Space, Word;
    if text == [] {
      SpaceIsBlank(lead);
      SkipBlank(lead, []);
      NothingToSkip();
      assert lead + [] == lead;
      SqueezedStep([]);
    } else {
      var k := Spread([], text);
      WordStarts(text[0].word);
      assert k == text[0].word + Spread(text[0].gap, text[1..]) && Spread(lead, text) == lead + k;
      SpaceIs(k[0]);
      SkipTo(lead, k);
      SqueezedWords(text);
    }
  }
}
