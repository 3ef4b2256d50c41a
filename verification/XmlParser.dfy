/** The parser of TinyXML-2 (tinyxml2.cpp): character positions moved by loops over the document
    buffer. Each method computes the function of XmlTree for what is left of the buffer, and the
    strings of what it builds are pairs of positions. Names are decoded, and so terminated in the
    buffer, while the parse goes on; the other strings when they are asked for. */
module XmlParser {
  import opened Options
  import opened XmlChars
  import opened XmlText
  import opened LazyString
  import opened LazyTree
  import opened XmlTree

  /** What XMLDocument::Identify found. */
  datatype Kind = NoKind | DeclarationKind | CommentKind | CDataKind | UnknownKind | ElementKind | TextKind

  lemma {:induction false} Advance(b: bytes, p: nat, k: nat)
    requires p <= |b| && k <= |CString(b, p)|
    ensures CString(b, p + k) == CString(b, p)[k..]
    decreases k
  {
    if k > 0 {
      CStringStep(b, p);
      Advance(b, p + 1, k - 1);
    }
  }

  lemma TextIsNotTag(s: bytes)
    requires SkipWhite(s) != [] && SkipWhite(s)[0] != LT
    ensures s != [] && s[0] != LT
  {
  }

  lemma LevelPrepended(ns: seq<Node>, l: Level)
    ensures ns == [] ==> Prepend(ns, l) == l
  {
  }

  lemma EndsHere(ns: seq<Node>)
    ensures ns + [] == ns
  {
  }

  lemma LevelStep(s: bytes, n: Node, rest: bytes, before: seq<Node>)
    requires s != [] && ParseItem(s) == Child(n, rest)
    ensures Prepend(before, ParseLevel(s)) == Prepend(before + [n], ParseLevel(rest))
  {
    var l := ParseLevel(rest);
    assert before + ([n] + l.nodes) == before + [n] + l.nodes;
  }

  /** One round of the loop of XMLElement::ParseAttributes. */
  lemma AttributesRound(s: bytes, linked: seq<Attribute>)
    ensures var t := SkipWhite(s);
      XmlTree.ParseAttributes(s, linked) ==
      if t == [] then AttributesFailed(ParsingElement)
      else if IsAlpha(t[0]) then
        match XmlTree.ParseAttribute(t)
        case None => AttributesFailed(ParsingAttribute)
        case Some(a) =>
          if HasAttribute(linked, a.attribute.name) then AttributesFailed(ParsingAttribute)
          else XmlTree.ParseAttributes(a.rest, linked + [a.attribute])
      else if t[0] == SLASH && Peek(t, 1) == GT then AttributesRead(linked, true, t[2..])
      else if t[0] == GT then AttributesRead(linked, false, t[1..])
      else AttributesFailed(ParsingElement)
  {
    hide SkipWhite, XmlTree.ParseAttribute, HasAttribute, IsAlpha;
  }

  /** What an element comes to, from its name on. */
  function Tagged(name: bytes, closing: bool, s: bytes): Item {
    match XmlTree.ParseAttributes(s, [])
    case AttributesFailed(e) => Wrong(e)
    case AttributesRead(attributes, closed, rest) =>
      if closed then Child(Element(name, attributes, []), rest)
      else if closing then EndTag(name, rest)
      else XmlTree.ParseContent(name, attributes, rest)
  }

  lemma TaggedIs(name: bytes, closing: bool, s: bytes)
    ensures var a := XmlTree.ParseAttributes(s, []);
      Tagged(name, closing, s) ==
      if a.AttributesFailed? then Wrong(a.error)
      else if a.closed then Child(Element(name, a.attributes, []), a.rest)
      else if closing then EndTag(name, a.rest)
      else XmlTree.ParseContent(name, a.attributes, a.rest)
  {
    hide XmlTree.ParseAttributes, XmlTree.ParseContent;
  }

  lemma ElementIs(s: bytes, u: bytes, closing: bool)
    requires var t := SkipWhite(s);
      (closing <==> t != [] && t[0] == SLASH) && u == if closing then t[1..] else t
    ensures var n := NameLength(u, true);
      ParseElement(s) == if n == 0 then Wrong(Parsing) else Tagged(u[..n], closing, u[n..])
  {
    hide SkipWhite, NameLength, ParseAttributes, ParseContent;
  }

  /** Where the strings of what starts at p can start: text ends at the first byte of the tag after
      it, which has none of them. */
  function Edge(b: bytes, p: int): int {
    if 0 <= p < |b| && b[p] == LT then p + 1 else p
  }

  class XMLDocument {
    var charBuffer: array<byte>
    var error: Option<Error>
    var writeBOM: bool
    const processEntities: bool
    var nodes: seq<LazyNode>

    predicate Terminated(p: int)
      reads this, charBuffer
    {
      0 <= p < charBuffer.Length && charBuffer[charBuffer.Length - 1] == 0
    }

    ghost function Rest(p: nat): bytes
      requires Terminated(p)
      reads this, charBuffer
    {
      CString(charBuffer[..], p)
    }

    /** Position r is what is left when rest is left. */
    ghost predicate At(r: int, rest: bytes)
      reads this, charBuffer
    {
      Terminated(r) && Rest(r) == rest
    }

    /** The pairs have these strings, in this order, between lo and hi. */
    ghost predicate Shows(ps: seq<StrPair>, strs: seq<Str>, lo: int, hi: int)
      reads this`charBuffer, charBuffer, ps
    {
      (forall x | x in ps :: x.buffer == charBuffer) && ShowsAll(charBuffer[..], Views(ps), strs, lo, hi)
    }

    constructor (processEntities: bool)
      ensures error == None && !writeBOM && nodes == [] && this.processEntities == processEntities
    {
      charBuffer := new byte[1](_ => 0);
      this.processEntities := processEntities;
      error, writeBOM, nodes := None, false, [];
    }

    method SetError(e: Error)
      modifies this`error
      ensures error == Some(e)
    {
      error := Some(e);
    }

    method SkipWhiteSpace(p: nat) returns (r: nat)
      requires Terminated(p)
      ensures p <= r && At(r, SkipWhite(Rest(p)))
    {
      hide CString, SkipWhite, IsWhiteSpace;
      ghost var b := charBuffer[..];
      NulIsNotWhite();
      CStringStep(b, p);
      SkipWhiteStep(CString(b, p));
      r := p;
      while IsWhiteSpace(charBuffer[r])
        invariant p <= r && Terminated(r) && charBuffer[..] == b
        invariant SkipWhite(CString(b, r)) == SkipWhite(CString(b, p))
        decreases charBuffer.Length - r
      {
        CStringStep(b, r);
        SkipWhiteStep(CString(b, r));
        r := r + 1;
      }
      CStringStep(b, r);
      SkipWhiteStep(CString(b, r));
    }

    /** StringEqual with a length: one string starts with the other. */
    method StartsWith(p: nat, header: bytes) returns (starts: bool)
      requires Terminated(p) && NulFree(header)
      ensures starts <==> header <= Rest(p)
    {
      var value := new StrPair(charBuffer);
      starts := value.TagAt(p, header);
    }

    method Identify(p: nat) returns (r: nat, kind: Kind)
      requires Terminated(p)
      ensures var t := SkipWhite(Rest(p));
        match kind
        case NoKind => t == []
        case DeclarationKind => XML_HEADER <= t && At(r, t[2..])
        case CommentKind => COMMENT_HEADER <= t && !(XML_HEADER <= t) && At(r, t[4..])
        case CDataKind => CDATA_HEADER <= t && !(XML_HEADER <= t) && !(COMMENT_HEADER <= t) && At(r, t[9..])
        case UnknownKind =>
          DTD_HEADER <= t && !(XML_HEADER <= t) && !(COMMENT_HEADER <= t) && !(CDATA_HEADER <= t) && At(r, t[2..])
        case ElementKind => !(XML_HEADER <= t) && !(DTD_HEADER <= t) && [LT] <= t && At(r, t[1..])
        case TextKind => t != [] && t[0] != LT && r == p
      ensures p <= r && (kind != TextKind && kind != NoKind ==> p < r)
    {
      hide CString, SkipWhite;
      ghost var b := charBuffer[..];
      var q := SkipWhiteSpace(p);
      ghost var t := CString(b, q);
      CStringStep(b, q);
      if charBuffer[q] == 0 {
        return q, NoKind;
      }
      var declaration := StartsWith(q, XML_HEADER);
      var comment := StartsWith(q, COMMENT_HEADER);
      var cdata := StartsWith(q, CDATA_HEADER);
      var dtd := StartsWith(q, DTD_HEADER);
      var element := StartsWith(q, [LT]);
      HeadersNest(t);
      var length := if declaration then 2 else if comment then 4 else if cdata then 9 else if dtd then 2 else 1;
      if element {
        Advance(b, q, length);
        CStringInside(b, q);
      }
      if declaration {
        return q + 2, DeclarationKind;
      } else if comment {
        return q + 4, CommentKind;
      } else if cdata {
        return q + 9, CDataKind;
      } else if dtd {
        return q + 2, UnknownKind;
      } else if element {
        return q + 1, ElementKind;
      }
      return p, TextKind;
    }

    /** A pair that has just been set. */
    lemma Unread(x: StrPair, text: bytes, lo: int, hi: int)
      requires x.buffer == charBuffer && x.needsFlush && 0 <= lo <= x.start <= x.end < hi <= charBuffer.Length
      requires charBuffer[..][x.start..x.end] == text
      ensures Shows([x], [Str(text, x.flags)], lo, hi)
    {
      hide InPlace;
      OneView(x);
      ShowsOne(charBuffer[..], ViewOf(x), Str(text, x.flags), lo, hi);
    }

    /** StrPair::GetStr on one of the pairs: whichever it is, and whichever have been read, the
        others stay as they are. */
    method Flush(ghost ps: seq<StrPair>, ghost strs: seq<Str>, ghost i: nat, x: StrPair,
                 ghost lo: int, ghost hi: int) returns (r: nat)
      requires Shows(ps, strs, lo, hi) && i < |ps| && ps[i] == x && i < |strs|
      requires !strs[i].flags.collapse && Readable(strs[i].flags, strs[i].text)
      modifies x, charBuffer
      ensures Shows(ps, strs, lo, hi) && SameOutside(old(charBuffer[..]), charBuffer[..], x.start, x.end + 1)
      ensures r == x.start == old(x.start) && x.end == old(x.end) && lo <= r <= x.end < hi
      ensures r < charBuffer.Length && !x.needsFlush
      ensures CString(charBuffer[..], r) == Reading(strs[i]) && r + |Reading(strs[i])| <= x.end
    {
      hide InPlace, Readable, CString, ShowsAll, Holds;
      ghost var b, vs := charBuffer[..], Views(ps);
      ShowsEach(b, vs, strs, lo, hi, i);
      HoldsWhat(b, vs[i], strs[i]);
      var ok;
      r, ok := x.GetStr();
      HoldsFlushed(b, charBuffer[..], vs[i], ViewOf(x), strs[i]);
      forall j | 0 <= j < |ps| && j != i ensures ps[j] != x {
        ShowsApart(b, vs, strs, lo, hi, i, j);
      }
      assert Views(ps) == vs[i := ViewOf(x)];
      ShowsFlushed(b, charBuffer[..], vs, strs, lo, hi, i, ViewOf(x));
    }

    /** GetStr and a look at its result, for any of the strings, in any order and as often as the
        caller likes: each is what decoding it alone would give. */
    method ReadAll(ghost ns: seq<Node>, order: seq<nat>) returns (texts: seq<bytes>)
      requires Parsed(ns) && CanAnswer(AllStrings(processEntities, ns), order)
      modifies charBuffer, set x | x in AllPairs(nodes)
      ensures Parsed(ns) && |texts| == |order| && Answers(AllStrings(processEntities, ns), order, texts)
    {
      hide Readable, Shows, AllPairs, AllStrings, AllAlike, Reading;
      var ps := AllPairs(nodes);
      ghost var strs, end := AllStrings(processEntities, ns), charBuffer.Length;
      assert allocated(ps);
      Within(ps, strs, 0, end);
      texts := [];
      while |texts| < |order|
        invariant Shows(ps, strs, 0, end) && Answers(strs, order, texts)
        decreases |order| - |texts|
      {
        var i := order[|texts|];
        var p := Flush(ps, strs, i, ps[i], 0, end);
        var text := Look(p);
        texts := texts + [text];
      }
    }

    /** What a reader of the C string at p sees. */
    method Look(p: nat) returns (text: bytes)
      requires p < charBuffer.Length && p + |CString(charBuffer[..], p)| < charBuffer.Length
      ensures text == CString(charBuffer[..], p)
    {
      ghost var s := CString(charBuffer[..], p);
      CStringBytes(charBuffer[..], p);
      text := [];
      while charBuffer[p + |text|] != 0
        invariant |text| <= |s| && text == s[..|text|]
        decreases |s| - |text|
      {
        text := text + [charBuffer[p + |text|]];
      }
    }

    /** Whether two C strings are the same. */
    method StringEqual(p: nat, q: nat) returns (equal: bool)
      requires Terminated(p) && Terminated(q)
      ensures equal <==> Rest(p) == Rest(q)
    {
      hide CString;
      ghost var b := charBuffer[..];
      if p == q {
        return true;
      }
      var i := 0;
      CStringStep(b, p);
      CStringStep(b, q);
      while charBuffer[p + i] != 0 && charBuffer[q + i] != 0 && charBuffer[p + i] == charBuffer[q + i]
        invariant p + i < charBuffer.Length && q + i < charBuffer.Length
        invariant CString(b, p) == CString(b, q) <==> CString(b, p + i) == CString(b, q + i)
        decreases charBuffer.Length - p - i
      {
        CStringStep(b, p + i);
        CStringStep(b, q + i);
        i := i + 1;
      }
      CStringStep(b, p + i);
      CStringStep(b, q + i);
      equal := charBuffer[p + i] == 0 && charBuffer[q + i] == 0;
    }

    method ParseText(p: nat, tag: bytes, fl: Flags) returns (r: int, value: StrPair)
      requires Terminated(p) && tag != [] && NulFree(tag)
      ensures fresh(value) && value.buffer == charBuffer
      ensures match UpTo(Rest(p), tag)
        case None => r == -1
        case Some(v) =>
          && r == p + |v.text| + |tag| && At(r, v.rest) && NulFree(v.text)
          && Shows([value], [Str(v.text, fl)], p, r) && value.end == p + |v.text|
    {
      hide CString, Before, ShowsAll, Views;
      ghost var b := charBuffer[..];
      value := new StrPair(charBuffer);
      r := value.ParseText(p, tag, fl);
      if r >= 0 {
        Advance(b, p, r - p);
        CStringBytes(b, p);
        CStringInside(b, p);
        ghost var text := CString(b, p)[..value.end - p];
        assert text == b[p..p + |CString(b, p)|][..value.end - p] == b[p..value.end];
        Unread(value, text, p, r);
      }
    }

    method ParseName(p: nat) returns (r: int, name: StrPair)
      requires Terminated(p)
      ensures fresh(name) && name.buffer == charBuffer
      ensures var s, n := Rest(p), NameLength(Rest(p), true);
        if n == 0 then r == -1
        else
          && p < r && At(r, s[n..]) && !IsAlpha(charBuffer[r]) && NulFree(s[..n])
          && Shows([name], [Str(s[..n], RAW)], p, r + 1)
    {
      hide CString, NameLength, ShowsAll, Views, IsNameByte, IsAlpha;
      ghost var b := charBuffer[..];
      name := new StrPair(charBuffer);
      r := name.ParseName(p);
      if r >= 0 {
        Advance(b, p, r - p);
        CStringBytes(b, p);
        CStringInside(b, p);
        ghost var text := CString(b, p)[..r - p];
        assert b[p..r] == text == b[p..p + |CString(b, p)|][..r - p];
        CStringStep(b, r);
        NotInName(CString(b, p));
        Unread(name, text, p, r + 1);
      }
    }

    /** XMLAttribute::ParseDeep. */
    method ParseAttribute(p: nat) returns (r: int, a: LazyAttribute)
      requires Terminated(p)
      ensures fresh(a.name) && fresh(a.value)
      ensures match XmlTree.ParseAttribute(Rest(p))
        case None => r == -1
        case Some(read) =>
          && p < r && At(r, read.rest) && NulFree(read.attribute.name)
          && Shows([a.name, a.value],
                   [Str(read.attribute.name, RAW), Str(read.attribute.value, ValueFlags(processEntities))], p, r)
    {
      hide CString, NameLength, SkipWhite, UpTo, Shows, IsAlpha;
      ghost var b := charBuffer[..];
      var q, name := ParseName(p);
      a := LazyAttribute(name, name);
      if q < 0 {
        return -1, a;
      }
      ghost var named := q;
      CStringStep(b, q);
      if charBuffer[q] == 0 {
        return -1, a;
      }
      q := SkipWhiteSpace(q);
      CStringStep(b, q);
      if charBuffer[q] != EQ {
        return -1, a;
      }
      q := SkipWhiteSpace(q + 1);
      CStringStep(b, q);
      if charBuffer[q] != QUOTE && charBuffer[q] != APOS {
        return -1, a;
      }
      var value;
      r, value := ParseText(q + 1, [charBuffer[q]], ValueFlags(processEntities));
      if r >= 0 {
        ghost var read := XmlTree.ParseAttribute(CString(b, p)).value;
        a := LazyAttribute(name, value);
        ghost var s, t := Str(read.attribute.name, RAW), Str(read.attribute.value, ValueFlags(processEntities));
        Joined([name], [s], p, named + 1, [value], [t], q + 1, r);
        assert [name] + [value] == [name, value] && [s] + [t] == [s, t];
      }
    }

    /** FindAttribute: the names are compared as C strings, and so decoded. */
    method Linked(attributes: seq<LazyAttribute>, a: LazyAttribute, ghost raws: seq<Attribute>, ghost raw: Attribute,
                  ghost lo: int, ghost hi: int) returns (found: bool)
      requires |attributes| == |raws| && NulFree(raw.name) && forall i | 0 <= i < |raws| :: NulFree(raws[i].name)
      requires Shows(AttributePairs(attributes + [a]), AttributeStrings(processEntities, raws + [raw]), lo, hi)
      requires 0 <= lo <= hi < charBuffer.Length && charBuffer[charBuffer.Length - 1] == 0
      modifies charBuffer, set x | x in AttributePairs(attributes + [a])
      ensures Shows(AttributePairs(attributes + [a]), AttributeStrings(processEntities, raws + [raw]), lo, hi)
      ensures SameOutside(old(charBuffer[..]), charBuffer[..], lo, hi)
      ensures found <==> HasAttribute(raws, raw.name)
    {
      hide CString, InPlace, Readable, Shows, SameOutside;
      ghost var ps := AttributePairs(attributes + [a]);
      ghost var strs := AttributeStrings(processEntities, raws + [raw]);
      ghost var b, n := charBuffer[..], |attributes|;
      assert (attributes + [a])[n] == a && (raws + [raw])[n] == raw;
      assert ps[2 * n] == a.name && strs[2 * n] == Str(raw.name, RAW);
      NameStays(raw.name);
      SameItself(b, lo, hi);
      Within(ps, strs, lo, hi);
      var own := Flush(ps, strs, 2 * n, a.name, lo, hi);
      WrittenWithin(b, b, charBuffer[..], lo, hi, own, a.name.end + 1);
      LastByte(b, charBuffer[..], lo, hi);
      var i := 0;
      while i < |attributes|
        invariant i <= |attributes| && Shows(ps, strs, lo, hi) && SameOutside(b, charBuffer[..], lo, hi)
        invariant own == a.name.start && !a.name.needsFlush
        invariant forall j | 0 <= j < i :: raws[j].name != raw.name
      {
        assert (attributes + [a])[i] == attributes[i] && (raws + [raw])[i] == raws[i];
        assert ps[2 * i] == attributes[i].name && strs[2 * i] == Str(raws[i].name, RAW);
        NameStays(raws[i].name);
        DistinctPairs(ps, strs, lo, hi, 2 * i, 2 * n);
        ghost var now := charBuffer[..];
        var other := Flush(ps, strs, 2 * i, attributes[i].name, lo, hi);
        WrittenWithin(b, now, charBuffer[..], lo, hi, other, attributes[i].name.end + 1);
        LastByte(b, charBuffer[..], lo, hi);
        ReadPair(ps, strs, lo, hi, 2 * n);
        assert allocated(ps);
        var same := StringEqual(other, own);
        if same {
          return true;
        }
        i := i + 1;
      }
      return false;
    }

    /** One of the pairs that has been read. */
    lemma ReadPair(ps: seq<StrPair>, strs: seq<Str>, lo: int, hi: int, i: nat)
      requires Shows(ps, strs, lo, hi) && i < |ps| && !ps[i].needsFlush
      ensures ps[i].start < charBuffer.Length
      ensures CString(charBuffer[..], ps[i].start) == CString(InPlace(strs[i].flags, strs[i].text, 0, 0), 0)
    {
      hide InPlace, CString;
      var text := InPlace(strs[i].flags, strs[i].text, 0, 0);
      assert Holds(charBuffer[..], Views(ps)[i], strs[i]);
      CStringCopied(charBuffer[..], ps[i].start, text, 0);
    }

    lemma DistinctPairs(ps: seq<StrPair>, strs: seq<Str>, lo: int, hi: int, i: nat, j: nat)
      requires Shows(ps, strs, lo, hi) && i < |ps| && j < |ps| && i != j
      ensures ps[i] != ps[j]
    {
      var vs := Views(ps);
      assert vs[i] == ViewOf(ps[i]) && vs[j] == ViewOf(ps[j]);
      assert if i < j then vs[i].end < vs[j].start else vs[j].end < vs[i].start;
    }

    /** The attributes linked so far. */
    ghost predicate Attached(raws: seq<Attribute>, lo: int, hi: int, attributes: seq<LazyAttribute>)
      reads this`charBuffer, charBuffer, AttributePairs(attributes)
    {
      && |attributes| == |raws| && (forall i | 0 <= i < |raws| :: NulFree(raws[i].name))
      && Shows(AttributePairs(attributes), AttributeStrings(processEntities, raws), lo, hi)
    }

    /** An attribute is read, and linked unless its name is linked already. */
    method LinkNext(p: nat, attributes: seq<LazyAttribute>, ghost raws: seq<Attribute>, ghost lo: nat, ghost mid: nat)
      returns (r: int, more: seq<LazyAttribute>)
      requires Terminated(p) && Attached(raws, lo, mid, attributes) && lo <= mid <= p
      modifies charBuffer, set x | x in AttributePairs(attributes)
      ensures forall x | x in AttributePairs(more) :: x in AttributePairs(attributes) || fresh(x)
      ensures SameOutside(old(charBuffer[..]), charBuffer[..], lo, if r < 0 then charBuffer.Length else r)
      ensures match XmlTree.ParseAttribute(old(Rest(p)))
        case None => r == -1
        case Some(read) =>
          if HasAttribute(raws, read.attribute.name) then r == -1
          else
            p < r && At(r, read.rest) && Attached(raws + [read.attribute], lo, r, more)
    {
      hide CString, XmlTree.ParseAttribute, HasAttribute, Shows, NulFree, SameOutside, AttributePairs, AttributeStrings;
      ghost var b := charBuffer[..];
      SameItself(b, lo, charBuffer.Length);
      assert allocated(AttributePairs(attributes));
      var a;
      r, a := ParseAttribute(p);
      if r < 0 {
        return -1, attributes;
      }
      ghost var raw := XmlTree.ParseAttribute(CString(b, p)).value.attribute;
      OneAttributeMore(processEntities, attributes, a, raws, raw);
      Joined(AttributePairs(attributes), AttributeStrings(processEntities, raws), lo, mid, [a.name, a.value],
             [Str(raw.name, RAW), Str(raw.value, ValueFlags(processEntities))], p, r);
      var duplicate := Linked(attributes, a, raws, raw, lo, r);
      SameAfter(b, charBuffer[..], lo, r);
      SameWider(b, charBuffer[..], lo, r, lo, charBuffer.Length);
      if duplicate {
        return -1, attributes;
      }
      more := attributes + [a];
    }

    /** The two ways to seal a start tag; -1 if it is neither. */
    method TagEnd(p: nat) returns (r: int, closed: bool)
      requires Terminated(p) && charBuffer[p] != 0
      ensures var t := Rest(p);
        && t != []
        && if t[0] == SLASH && Peek(t, 1) == GT then r == p + 2 && closed && At(r, t[2..])
           else if t[0] == GT then r == p + 1 && !closed && At(r, t[1..])
           else r == -1
    {
      hide CString;
      ghost var b := charBuffer[..];
      CStringStep(b, p);
      CStringStep(b, p + 1);
      if charBuffer[p] == SLASH && charBuffer[p + 1] == GT {
        return p + 2, true;
      } else if charBuffer[p] == GT {
        return p + 1, false;
      }
      return -1, false;
    }

    /** What the attributes of a start tag come to. */
    ghost predicate AttributesCome(read: AttributesRead, lo: int, r: int, attributes: seq<LazyAttribute>, closed: bool)
      reads this, charBuffer, AttributePairs(attributes)
    {
      match read
      case AttributesFailed(e) => r == -1 && error == Some(e)
      case AttributesRead(all, sealed, rest) =>
        && At(r, rest) && closed == sealed && |attributes| == |all|
        && Shows(AttributePairs(attributes), AttributeStrings(processEntities, all), lo, r)
    }

    lemma AttributesFail(e: Error, lo: int, attributes: seq<LazyAttribute>, closed: bool)
      requires error == Some(e)
      ensures AttributesCome(AttributesFailed(e), lo, -1, attributes, closed)
    {
    }

    lemma AttributesDone(all: seq<Attribute>, sealed: bool, rest: bytes, lo: int, mid: int, r: int,
                         attributes: seq<LazyAttribute>)
      requires At(r, rest) && Attached(all, lo, mid, attributes) && 0 <= lo && mid <= r
      ensures AttributesCome(AttributesRead(all, sealed, rest), lo, r, attributes, sealed)
    {
      hide Shows, AttributePairs, AttributeStrings;
      Wider(AttributePairs(attributes), AttributeStrings(processEntities, all), lo, mid, lo, r);
    }

    lemma AttributesOut(read: AttributesRead, lo: int, r: int, attributes: seq<LazyAttribute>, closed: bool)
      requires AttributesCome(read, lo, r, attributes, closed)
      ensures read.AttributesFailed? ==> r == -1 && error == Some(read.error)
      ensures read.AttributesRead? ==>
        && At(r, read.rest) && closed == read.closed && |attributes| == |read.attributes|
        && Shows(AttributePairs(attributes), AttributeStrings(processEntities, read.attributes), lo, r)
    {
    }

    method ParseAttributes(p: nat) returns (r: int, attributes: seq<LazyAttribute>, closed: bool)
      requires Terminated(p) && !IsAlpha(charBuffer[p])
      modifies this`error, charBuffer
      ensures forall x | x in AttributePairs(attributes) :: fresh(x)
      ensures SameOutside(old(charBuffer[..]), charBuffer[..], p + 1, if r < 0 then charBuffer.Length else r)
      ensures AttributesCome(XmlTree.ParseAttributes(old(Rest(p)), []), p + 1, r, attributes, closed)
      ensures r >= 0 ==> p < r && error == old(error)
    {
      hide CString, SkipWhite, XmlTree.ParseAttribute, HasAttribute, SameOutside, IsAlpha, NulFree, AttributePairs,
        AttributeStrings, XmlTree.ParseAttributes, AttributesCome, Attached, Edge;
      ghost var b := charBuffer[..];
      ghost var raws: seq<Attribute>, mid := [], p + 1;
      attributes, closed := [], false;
      r := p;
      NoAttributes(p + 1);
      SameItself(b, p + 1, p + 1);
      while true
        invariant p <= r && Terminated(r) && error == old(error)
        invariant mid == (if r == p then p + 1 else r) && (r == p ==> !IsAlpha(charBuffer[p]))
        invariant SameOutside(b, charBuffer[..], p + 1, mid) && CString(charBuffer[..], r) == CString(b, r)
        invariant Attached(raws, p + 1, mid, attributes) && forall x | x in AttributePairs(attributes) :: fresh(x)
        invariant XmlTree.ParseAttributes(CString(b, p), []) == XmlTree.ParseAttributes(CString(b, r), raws)
        decreases charBuffer.Length - r
      {
        ghost var now := charBuffer[..];
        SameWider(b, now, p + 1, mid, p + 1, charBuffer.Length);
        assert allocated(AttributePairs(attributes));
        AttributesRound(CString(b, r), raws);
        r := SkipWhiteSpace(r);
        CStringStep(now, r);
        if charBuffer[r] != 0 && IsAlpha(charBuffer[r]) {
          var q, more := LinkNext(r, attributes, raws, p + 1, mid);
          ghost var to := if q < 0 then charBuffer.Length else q;
          Onward(b, now, charBuffer[..], p + 1, mid, p + 1, to);
          if q < 0 {
            SetError(ParsingAttribute);
            AttributesFail(ParsingAttribute, p + 1, attributes, false);
            return -1, attributes, false;
          }
          raws := raws + [XmlTree.ParseAttribute(CString(now, r)).value.attribute];
          attributes, r, mid := more, q, q;
        } else {
          var end := -1;
          if charBuffer[r] != 0 {
            end, closed := TagEnd(r);
          }
          if end < 0 {
            SetError(ParsingElement);
            AttributesFail(ParsingElement, p + 1, attributes, closed);
            return -1, attributes, closed;
          }
          AttributesDone(raws, closed, CString(now, end), p + 1, mid, end, attributes);
          SameWider(b, now, p + 1, mid, p + 1, end);
          return end, attributes, closed;
        }
      }
    }

    lemma NoAttributes(lo: int)
      requires 0 <= lo <= charBuffer.Length
      ensures Attached([], lo, lo, []) && AttributePairs([]) == []
    {
      ShowsNothing(charBuffer[..], lo, lo);
    }

    /** Two lists of pairs, one after the other. */
    lemma Joined(ps: seq<StrPair>, strs: seq<Str>, lo: int, mid: int, ps': seq<StrPair>, strs': seq<Str>,
                 lo': int, hi: int)
      requires Shows(ps, strs, lo, mid) && Shows(ps', strs', lo', hi) && mid <= lo'
      ensures Shows(ps + ps', strs + strs', lo, hi)
    {
      hide ShowsAll;
      ShowsBoth(charBuffer[..], Views(ps), strs, lo, mid, Views(ps'), strs', lo', hi);
      assert Views(ps + ps') == Views(ps) + Views(ps');
    }

    /** What one round of the loop of XMLNode::ParseDeep comes to: the position after the node,
        the node, or the name of the end tag that was read instead; its strings are from lo on. */
    ghost predicate Comes(item: Item, lo: int, r: int, node: Option<LazyNode>, ending: Option<StrPair>)
      reads this, charBuffer, if node.Some? then Pairs(node.value) else [],
        if ending.Some? then [ending.value] else []
    {
      match item
      case Nothing => r == -1 && node == None && ending == None
      case Child(n, rest) =>
        && At(r, rest) && node.Some? && ending == None && Alike(node.value, n)
        && Shows(Pairs(node.value), Strings(processEntities, n), lo, Edge(charBuffer[..], r))
      case EndTag(name, rest) =>
        && At(r, rest) && node == None && ending.Some? && NulFree(name)
        && Shows([ending.value], [Str(name, RAW)], lo, r)
      case Wrong(e) => r == -1 && error == Some(e)
    }

    lemma WrongComes(e: Error, lo: int)
      requires error == Some(e)
      ensures Comes(Wrong(e), lo, -1, None, None)
    {
    }

    lemma NothingComes(lo: int)
      ensures Comes(Nothing, lo, -1, None, None)
    {
    }

    lemma ChildComes(n: Node, rest: bytes, lo: int, r: int, node: LazyNode)
      requires At(r, rest) && Alike(node, n)
      requires Shows(Pairs(node), Strings(processEntities, n), lo, Edge(charBuffer[..], r))
      ensures Comes(Child(n, rest), lo, r, Some(node), None)
    {
    }

    lemma EndTagComes(name: bytes, rest: bytes, lo: int, r: int, ending: StrPair)
      requires At(r, rest) && NulFree(name) && Shows([ending], [Str(name, RAW)], lo, r)
      ensures Comes(EndTag(name, rest), lo, r, None, Some(ending))
    {
    }

    lemma ComesWider(item: Item, lo: int, r: int, node: Option<LazyNode>, ending: Option<StrPair>, lo': int)
      requires Comes(item, lo, r, node, ending) && 0 <= lo' <= lo
      ensures Comes(item, lo', r, node, ending)
      ensures (r >= 0 ==> r < charBuffer.Length) && (item.Child? || item.EndTag? ==> r >= 0)
    {
      hide Shows, Pairs, Strings, Alike, NulFree, Edge;
      match item {
        case Child(n, _) =>
          EdgeBounds(charBuffer[..], r);
          var hi := Edge(charBuffer[..], r);
          Wider(Pairs(node.value), Strings(processEntities, n), lo, hi, lo', hi);
        case EndTag(name, _) => Wider([ending.value], [Str(name, RAW)], lo, r, lo', r);
        case _ =>
      }
    }

    /** The ParseDeep of comments, declarations, unknowns and CDATA. */
    method Delimited(p: nat, kind: Kind) returns (r: int, node: Option<LazyNode>)
      requires Terminated(p) && kind in {DeclarationKind, CommentKind, CDataKind, UnknownKind} && error == None
      modifies this`error
      ensures node.Some? ==> forall x | x in Pairs(node.value) :: fresh(x)
      ensures Comes(DelimitedItem(Rest(p), kind), p, r, node, None)
      ensures r >= 0 ==> p < r && error == None
    {
      hide CString, UpTo, ShowsAll, Edge;
      var value;
      r, value := ParseText(p, EndOf(kind), LINES);
      if r < 0 {
        SetError(KindError(kind));
        return r, None;
      }
      node := Some(MakeLazy(kind, value));
      ghost var item := DelimitedItem(Rest(p), kind);
      EdgeBounds(charBuffer[..], r);
      Wider([value], Strings(processEntities, item.node), p, r, p, Edge(charBuffer[..], r));
    }

    /** XMLText::ParseDeep for text that is not CDATA: the tag's first byte is given back. */
    method ParsePlainText(p: nat) returns (r: int, node: Option<LazyNode>)
      requires Terminated(p) && Rest(p) != [] && Rest(p)[0] != LT && error == None
      modifies this`error
      ensures node.Some? ==> forall x | x in Pairs(node.value) :: fresh(x)
      ensures Comes(XmlTree.ParsePlainText(Rest(p)), p, r, node, None)
      ensures r >= 0 ==> p < r && error == None
    {
      hide CString, Before, ShowsAll;
      ghost var b := charBuffer[..];
      var value;
      r, value := ParseText(p, [LT], ValueFlags(processEntities));
      if r < 0 {
        SetError(ParsingText);
        return r, None;
      }
      CStringStep(b, p);
      CStringStep(b, r);
      if charBuffer[r] != 0 {
        ghost var n := value.end - p;
        Advance(b, p, n);
        BeforeStep(CString(b, p), [LT]);
        BeforeIsFirst(CString(b, p), [LT], n);
        CStringStep(b, r - 1);
        return r - 1, Some(LazyText(value, false));
      }
      SetError(Parsing);
      return -1, None;
    }

    /** Identify and the node's ParseDeep. */
    method ParseItem(p: nat) returns (r: int, node: Option<LazyNode>, ending: Option<StrPair>)
      requires Terminated(p) && error == None
      modifies this`error, charBuffer
      ensures node.Some? ==> forall x | x in Pairs(node.value) :: fresh(x)
      ensures ending.Some? ==> fresh(ending.value)
      ensures SameOutside(old(charBuffer[..]), charBuffer[..], Edge(old(charBuffer[..]), p),
                          if r < 0 then charBuffer.Length else r)
      ensures Comes(XmlTree.ParseItem(old(Rest(p))), Edge(old(charBuffer[..]), p), r, node, ending)
      ensures r >= 0 ==> p < r < charBuffer.Length
      ensures !XmlTree.ParseItem(old(Rest(p))).Wrong? ==> error == None
      decreases charBuffer.Length - p, 0
    {
      hide CString, SkipWhite, XmlTree.ParseItem, XmlTree.ParseElement, XmlTree.ParsePlainText, DelimitedItem, Comes,
        SameOutside, Pairs;
      ghost var b, item := charBuffer[..], XmlTree.ParseItem(Rest(p));
      var q, kind := Identify(p);
      ItemIs(CString(b, p), kind);
      CStringStep(b, p);
      r, node, ending := -1, None, None;
      ghost var from := q;
      match kind {
        case NoKind =>
          from := Edge(b, p);
          NothingComes(from);
        case ElementKind => r, node, ending := ParseElement(q);
        case TextKind => r, node := ParsePlainText(p);
        case _ => r, node := Delimited(q, kind);
      }
      ComesWider(item, from, r, node, ending, Edge(b, p));
      ghost var to := if r < 0 then charBuffer.Length else r;
      if kind == ElementKind {
        SameWider(b, charBuffer[..], q, to, Edge(b, p), to);
      } else {
        SameItself(b, Edge(b, p), to);
      }
    }

    lemma Wider(ps: seq<StrPair>, strs: seq<Str>, lo: int, hi: int, lo': int, hi': int)
      requires Shows(ps, strs, lo, hi) && 0 <= lo' <= lo && hi <= hi' <= charBuffer.Length
      ensures Shows(ps, strs, lo', hi')
    {
      ShowsWider(charBuffer[..], Views(ps), strs, lo, hi, lo', hi');
    }

    /** XMLElement::ParseDeep and the caller's checks of the end tag. */
    method ParseElement(p: nat) returns (r: int, node: Option<LazyNode>, ending: Option<StrPair>)
      requires Terminated(p) && error == None
      modifies this`error, charBuffer
      ensures node.Some? ==> forall x | x in Pairs(node.value) :: fresh(x)
      ensures ending.Some? ==> fresh(ending.value)
      ensures SameOutside(old(charBuffer[..]), charBuffer[..], p, if r < 0 then charBuffer.Length else r)
      ensures Comes(XmlTree.ParseElement(old(Rest(p))), p, r, node, ending)
      ensures r >= 0 ==> p < r
      ensures !XmlTree.ParseElement(old(Rest(p))).Wrong? ==> error == None
      decreases charBuffer.Length - p, 0
    {
      hide CString, SkipWhite, Tagged, NameLength, Shows, SameOutside, Pairs, NulFree, IsAlpha, XmlTree.ParseElement;
      ghost var b := charBuffer[..];
      r, node, ending := -1, None, None;
      SameItself(b, p, charBuffer.Length);
      var q := SkipWhiteSpace(p);
      CStringStep(b, q);
      var closing := charBuffer[q] == SLASH;
      if closing {
        q := q + 1;
      }
      ElementIs(CString(b, p), CString(b, q), closing);
      var afterName, name := ParseName(q);
      if afterName < 0 {
        SetError(Parsing);
        return;
      }
      ghost var rawName := CString(b, q)[..NameLength(CString(b, q), true)];
      Wider([name], [Str(rawName, RAW)], q, afterName + 1, p, afterName + 1);
      r, node, ending := ParseTag(name, closing, afterName, rawName, p);
    }

    /** From the name of an element on. */
    method ParseTag(name: StrPair, closing: bool, p: nat, ghost rawName: bytes, ghost lo: nat)
      returns (r: int, node: Option<LazyNode>, ending: Option<StrPair>)
      requires Terminated(p) && error == None && !IsAlpha(charBuffer[p]) && NulFree(rawName) && lo <= p
      requires Shows([name], [Str(rawName, RAW)], lo, p + 1)
      modifies this`error, charBuffer, name
      ensures node.Some? ==> forall x | x in Pairs(node.value) :: x == name || fresh(x)
      ensures ending.Some? ==> ending.value == name
      ensures SameOutside(old(charBuffer[..]), charBuffer[..], lo, if r < 0 then charBuffer.Length else r)
      ensures Comes(Tagged(rawName, closing, old(Rest(p))), lo, r, node, ending)
      ensures r >= 0 ==> p < r
      ensures !Tagged(rawName, closing, old(Rest(p))).Wrong? ==> error == None
      decreases charBuffer.Length - p, 4
    {
      hide CString, XmlTree.ParseAttributes, XmlTree.ParseContent, Shows, SameOutside, Alike, Edge, Tagged, Comes,
        AttributePairs, AttributeStrings, AttributesCome, Pairs, Strings, NulFree, IsAlpha;
      ghost var b := charBuffer[..];
      r, node, ending := -1, None, None;
      ghost var own, ownStrs, vs := [name], [Str(rawName, RAW)], Views([name]);
      Shown(own, ownStrs, lo, p + 1);
      TaggedIs(rawName, closing, Rest(p));
      var afterTag, attributes, closed := ParseAttributes(p);
      ghost var now, to := charBuffer[..], if afterTag < 0 then charBuffer.Length else afterTag;
      SameWider(b, now, p + 1, to, lo, to);
      AttributesOut(XmlTree.ParseAttributes(CString(b, p), []), p + 1, afterTag, attributes, closed);
      if afterTag < 0 {
        WrongComes(XmlTree.ParseAttributes(CString(b, p), []).error, lo);
        return;
      }
      ghost var raws := XmlTree.ParseAttributes(CString(b, p), []).attributes;
      Kept(b, vs, own, ownStrs, lo, p + 1, p + 1, afterTag);
      CStringStep(now, afterTag);
      if closed {
        Empty(name, attributes, rawName, raws, lo, p, afterTag);
        ChildComes(Element(rawName, raws, []), CString(now, afterTag), lo, afterTag, LazyElement(name, attributes, []));
        return afterTag, Some(LazyElement(name, attributes, [])), None;
      } else if closing {
        Wider([name], [Str(rawName, RAW)], lo, p + 1, lo, afterTag);
        EndTagComes(rawName, CString(now, afterTag), lo, afterTag, name);
        return afterTag, None, Some(name);
      }
      Joined([name], [Str(rawName, RAW)], lo, p + 1, AttributePairs(attributes),
             AttributeStrings(processEntities, raws), p + 1, afterTag);
      TagIs(processEntities, name, attributes, rawName, raws);
      r, node := ParseContent(name, attributes, afterTag, rawName, raws, lo);
      to := if r < 0 then charBuffer.Length else r;
      SameWider(b, now, lo, afterTag, lo, to);
      WrittenWithin(b, now, charBuffer[..], lo, to, lo, to);
    }

    lemma Empty(name: StrPair, attributes: seq<LazyAttribute>, rawName: bytes, raws: seq<Attribute>,
                lo: nat, end: nat, hi: nat)
      requires hi < charBuffer.Length && |attributes| == |raws|
      requires Shows([name], [Str(rawName, RAW)], lo, end + 1)
      requires Shows(AttributePairs(attributes), AttributeStrings(processEntities, raws), end + 1, hi)
      ensures Shows(Pairs(LazyElement(name, attributes, [])), Strings(processEntities, Element(rawName, raws, [])),
                    lo, Edge(charBuffer[..], hi))
      ensures Alike(LazyElement(name, attributes, []), Element(rawName, raws, []))
      ensures forall x | x in Pairs(LazyElement(name, attributes, [])) :: x == name || x in AttributePairs(attributes)
    {
      hide ShowsAll;
      var ps := [name] + AttributePairs(attributes);
      var strs := [Str(rawName, RAW)] + AttributeStrings(processEntities, raws);
      Joined([name], [Str(rawName, RAW)], lo, end + 1, AttributePairs(attributes),
             AttributeStrings(processEntities, raws), end + 1, hi);
      Wider(ps, strs, lo, hi, lo, Edge(charBuffer[..], hi));
      assert ps + [] == ps && strs + [] == strs;
    }

    method ParseContent(name: StrPair, attributes: seq<LazyAttribute>, p: nat,
                        ghost rawName: bytes, ghost raws: seq<Attribute>, ghost lo: nat)
      returns (r: int, node: Option<LazyNode>)
      requires Terminated(p) && error == None && NulFree(rawName) && |attributes| == |raws| && lo <= p
      requires Shows(TagPairs(name, attributes), TagStrings(processEntities, rawName, raws), lo, p)
      modifies this`error, charBuffer, name
      ensures node.Some? ==> forall x | x in Pairs(node.value) :: x in TagPairs(name, attributes) || fresh(x)
      ensures SameOutside(old(charBuffer[..]), charBuffer[..], lo, if r < 0 then charBuffer.Length else r)
      ensures Comes(XmlTree.ParseContent(rawName, raws, old(Rest(p))), lo, r, node, None)
      ensures r >= 0 ==> p < r
      ensures !XmlTree.ParseContent(rawName, raws, old(Rest(p))).Wrong? ==> error == None
      decreases charBuffer.Length - p, 3
    {
      hide CString, XmlTree.ParseLevel, Shows, SameOutside, Alike, AllAlike, TagPairs, TagStrings, AllPairs,
        AllStrings, Pairs, Strings, NulFree, Comes, Edge, LevelComes, SoFar;
      ghost var b, level := charBuffer[..], ParseLevel(Rest(p));
      r, node := -1, None;
      SameItself(b, lo, charBuffer.Length);
      CStringStep(b, p);
      if charBuffer[p] == 0 {
        SetError(MismatchedElement);
        WrongComes(MismatchedElement, lo);
        return;
      }
      ghost var own, ownStrs := TagPairs(name, attributes), TagStrings(processEntities, rawName, raws);
      assert allocated(own);
      Shown(own, ownStrs, lo, p);
      EdgeBounds(b, p);
      ghost var vs := Views(own);
      var children, endName;
      r, children, endName := ParseDeep(p);
      ghost var now, to := charBuffer[..], if r < 0 then charBuffer.Length else r;
      SameWider(b, now, Edge(b, p), to, lo, to);
      if r < 0 {
        LevelOut(level, Edge(b, p), r, children, endName);
        if error == None {
          SetError(Parsing);
        }
        WrongComes(error.value, lo);
        return;
      }
      LevelOut(level, Edge(b, p), r, children, endName);
      Kept(b, vs, own, ownStrs, lo, p, Edge(b, p), r);
      ghost var end := r;
      r, node := MatchTag(name, attributes, children, endName.value, r, rawName, raws, level, lo, p, Edge(b, p));
      WrittenWithin(b, now, charBuffer[..], lo, end, lo, end);
      SameWider(b, charBuffer[..], lo, end, lo, charBuffer.Length);
    }

    lemma LevelOut(l: Level, lo: int, r: int, children: seq<LazyNode>, endName: Option<StrPair>)
      requires LevelComes(l, lo, r, children, endName)
      ensures AllAlike(children, l.nodes) && error == if l.Failed? then Some(l.error) else None
      ensures if l.Closed? then At(r, l.rest) && endName.Some? && NulFree(l.name) else r == -1
      ensures l.Closed? ==>
        Shows(AllPairs(children) + [endName.value], AllStrings(processEntities, l.nodes) + [Str(l.name, RAW)], lo, r)
      ensures !l.Closed? ==> SoFar(l.nodes, lo, charBuffer.Length, children)
    {
      hide Shows, AllPairs, AllStrings, AllAlike, SoFar;
    }

    /** Whether the end tag has the name of the element; and the element, if so. */
    method MatchTag(name: StrPair, attributes: seq<LazyAttribute>, children: seq<LazyNode>, endName: StrPair, p: nat,
                    ghost rawName: bytes, ghost raws: seq<Attribute>, ghost level: Level,
                    ghost lo: nat, ghost mid: nat, ghost from: nat) returns (r: int, node: Option<LazyNode>)
      requires level.Closed? && NulFree(rawName) && NulFree(level.name) && error == None
      requires |attributes| == |raws| && AllAlike(children, level.nodes) && mid <= from && At(p, level.rest)
      requires Shows(TagPairs(name, attributes), TagStrings(processEntities, rawName, raws), lo, mid)
      requires Shows(AllPairs(children) + [endName],
                     AllStrings(processEntities, level.nodes) + [Str(level.name, RAW)], from, p)
      modifies this`error, name, endName, charBuffer
      ensures SameOutside(old(charBuffer[..]), charBuffer[..], lo, p) && (r == -1 || r == p)
      ensures node.Some? ==>
        forall x | x in Pairs(node.value) :: x in TagPairs(name, attributes) || x in AllPairs(children)
      ensures var n := Element(rawName, raws, level.nodes);
        Comes(if level.name == rawName then Child(n, level.rest) else Wrong(MismatchedElement), lo, r, node, None)
      ensures level.name == rawName ==> error == None && r == p
    {
      hide CString, Shows, SameOutside, Alike, AllAlike, TagPairs, TagStrings, AllPairs, AllStrings, NulFree, Edge,
        Comes, Pairs, Strings;
      ghost var b := charBuffer[..];
      ghost var own, ownStrs := TagPairs(name, attributes), TagStrings(processEntities, rawName, raws);
      ghost var kids, kidStrs := AllPairs(children), AllStrings(processEntities, level.nodes);
      TagStarts(processEntities, name, attributes, children, rawName, raws, level.nodes);
      Joined(own, ownStrs, lo, mid, kids + [endName], kidStrs + [Str(level.name, RAW)], from, p);
      ghost var ps, strs := own + (kids + [endName]), ownStrs + (kidStrs + [Str(level.name, RAW)]);
      Within(ps, strs, lo, p);
      var same := SameName(ps, strs, lo, p, name, endName, rawName, level.name);
      SameAfter(b, charBuffer[..], lo, p);
      if !same {
        SetError(MismatchedElement);
        WrongComes(MismatchedElement, lo);
        return -1, None;
      }
      AllButLast(ps, strs, lo, p, own + kids, ownStrs + kidStrs);
      AlikeElement(name, attributes, children, rawName, raws, level.nodes);
      ChildComes(Element(rawName, raws, level.nodes), level.rest, lo, p, LazyElement(name, attributes, children));
      return p, Some(LazyElement(name, attributes, children));
    }

    /** The end tag and the name of the element, both decoded and compared. */
    method SameName(ghost ps: seq<StrPair>, ghost strs: seq<Str>, ghost lo: int, ghost hi: int,
                    name: StrPair, endName: StrPair, ghost raw: bytes, ghost end: bytes) returns (same: bool)
      requires |ps| > 1 && ps[0] == name && ps[|ps| - 1] == endName && |strs| == |ps|
      requires strs[0] == Str(raw, RAW) && strs[|ps| - 1] == Str(end, RAW) && NulFree(raw) && NulFree(end)
      requires Shows(ps, strs, lo, hi) && hi < charBuffer.Length && charBuffer[charBuffer.Length - 1] == 0
      modifies name, endName, charBuffer
      ensures Shows(ps, strs, lo, hi) && SameOutside(old(charBuffer[..]), charBuffer[..], lo, hi)
      ensures same <==> raw == end
    {
      hide CString, ShowsAll, InPlace, Readable, SameOutside;
      ghost var b := charBuffer[..];
      NameStays(raw);
      NameStays(end);
      Within(ps, strs, lo, hi);
      DistinctPairs(ps, strs, lo, hi, 0, |ps| - 1);
      SameItself(b, lo, hi);
      var e := Flush(ps, strs, |ps| - 1, endName, lo, hi);
      ghost var now := charBuffer[..];
      WrittenWithin(b, b, now, lo, hi, e, endName.end + 1);
      var n := Flush(ps, strs, 0, name, lo, hi);
      WrittenWithin(b, now, charBuffer[..], lo, hi, n, name.end + 1);
      LastByte(b, charBuffer[..], lo, hi);
      ReadPair(ps, strs, lo, hi, |ps| - 1);
      same := StringEqual(e, n);
    }

    lemma Within(ps: seq<StrPair>, strs: seq<Str>, lo: int, hi: int)
      requires Shows(ps, strs, lo, hi)
      ensures 0 <= lo <= hi <= charBuffer.Length && |ps| == |strs|
    {
    }

    lemma Shown(ps: seq<StrPair>, strs: seq<Str>, lo: int, hi: int)
      requires Shows(ps, strs, lo, hi)
      ensures ShowsAll(charBuffer[..], Views(ps), strs, lo, hi) && forall x | x in ps :: x.buffer == charBuffer
    {
    }

    /** What is read and written further on leaves pairs as they are. */
    lemma Kept(b: bytes, vs: seq<View>, ps: seq<StrPair>, strs: seq<Str>, lo: int, hi: int, from: nat, to: nat)
      requires (forall x | x in ps :: x.buffer == charBuffer) && Views(ps) == vs && ShowsAll(b, vs, strs, lo, hi)
      requires hi <= from && SameOutside(b, charBuffer[..], from, to)
      ensures Shows(ps, strs, lo, hi)
    {
      hide ShowsAll;
      ShowsBounds(b, vs, strs, lo, hi);
      ShowsStill(b, charBuffer[..], vs, strs, lo, hi);
    }

    lemma AllButLast(ps: seq<StrPair>, strs: seq<Str>, lo: int, hi: int, ps': seq<StrPair>, strs': seq<Str>)
      requires Shows(ps, strs, lo, hi) && |ps'| == |ps| - 1 && ps' <= ps && strs' <= strs && |strs'| == |strs| - 1
      requires hi < charBuffer.Length
      ensures Shows(ps', strs', lo, Edge(charBuffer[..], hi))
    {
      hide Holds;
      ShowsPart(charBuffer[..], Views(ps), strs, lo, hi, |ps'|);
      assert Views(ps)[..|ps'|] == Views(ps') && strs[..|ps'|] == strs';
      Wider(ps', strs', lo, hi, lo, Edge(charBuffer[..], hi));
    }

    /** The children linked at one level so far. */
    ghost predicate SoFar(raws: seq<Node>, lo: int, hi: int, children: seq<LazyNode>)
      reads this`charBuffer, charBuffer, AllPairs(children)
    {
      AllAlike(children, raws) && Shows(AllPairs(children), AllStrings(processEntities, raws), lo, hi)
    }

    /** What a level comes to, with the end tag that ended it. */
    ghost predicate LevelComes(l: Level, lo: int, r: int, children: seq<LazyNode>, endName: Option<StrPair>)
      reads this, charBuffer, AllPairs(children), if endName.Some? then [endName.value] else []
    {
      && AllAlike(children, l.nodes)
      && match l
        case Closed(all, name, rest) =>
          && At(r, rest) && error == None && endName.Some? && NulFree(name)
          && Shows(AllPairs(children) + [endName.value], AllStrings(processEntities, all) + [Str(name, RAW)], lo, r)
        case End(all) => r == -1 && error == None && SoFar(all, lo, charBuffer.Length, children)
        case Failed(all, e) => r == -1 && error == Some(e) && SoFar(all, lo, charBuffer.Length, children)
    }

    lemma SoFarShown(raws: seq<Node>, lo: int, hi: int, children: seq<LazyNode>)
      requires SoFar(raws, lo, hi, children)
      ensures ShowsAll(charBuffer[..], Views(AllPairs(children)), AllStrings(processEntities, raws), lo, hi)
      ensures (forall x | x in AllPairs(children) :: x.buffer == charBuffer) && AllAlike(children, raws)
    {
      hide ShowsAll, Views, AllAlike;
    }

    lemma SoFarKept(b: bytes, vs: seq<View>, raws: seq<Node>, lo: int, hi: int, children: seq<LazyNode>,
                    from: nat, to: nat)
      requires (forall x | x in AllPairs(children) :: x.buffer == charBuffer) && AllAlike(children, raws)
      requires Views(AllPairs(children)) == vs && ShowsAll(b, vs, AllStrings(processEntities, raws), lo, hi)
      requires hi <= from && SameOutside(b, charBuffer[..], from, to)
      ensures SoFar(raws, lo, hi, children)
    {
      hide ShowsAll, Views, AllAlike, Shows, SameOutside, AllPairs, AllStrings;
      Kept(b, vs, AllPairs(children), AllStrings(processEntities, raws), lo, hi, from, to);
    }

    lemma SoFarWider(raws: seq<Node>, lo: int, hi: int, children: seq<LazyNode>, hi': int)
      requires SoFar(raws, lo, hi, children) && hi <= hi' <= charBuffer.Length
      ensures SoFar(raws, lo, hi', children)
    {
      hide Shows, AllAlike, AllPairs, AllStrings;
      Within(AllPairs(children), AllStrings(processEntities, raws), lo, hi);
      Wider(AllPairs(children), AllStrings(processEntities, raws), lo, hi, lo, hi');
    }

    lemma SoFarEnds(raws: seq<Node>, lo: int, hi: int, children: seq<LazyNode>)
      requires SoFar(raws, lo, hi, children) && hi <= charBuffer.Length && error == None
      ensures LevelComes(End(raws), lo, -1, children, None)
    {
      hide Shows, AllPairs, AllStrings;
      SoFarWider(raws, lo, hi, children, charBuffer.Length);
    }

    lemma SoFarStops(item: Item, raws: seq<Node>, lo: int, hi: int, children: seq<LazyNode>, node: Option<LazyNode>,
                     ending: Option<StrPair>)
      requires SoFar(raws, lo, hi, children) && hi <= charBuffer.Length && Comes(item, hi, -1, node, ending)
      requires !item.Wrong? ==> error == None
      ensures item.Nothing? || item.Wrong?
      ensures LevelComes(if item.Nothing? then End(raws) else Failed(raws, item.error), lo, -1, children, None)
    {
      hide Shows, AllPairs, AllStrings;
      SoFarWider(raws, lo, hi, children, charBuffer.Length);
    }

    lemma SoFarCloses(item: Item, raws: seq<Node>, lo: int, hi: int, children: seq<LazyNode>, r: nat, ending: StrPair)
      requires SoFar(raws, lo, hi, children) && Comes(item, hi, r, None, Some(ending)) && error == None
      ensures item.EndTag? && LevelComes(Closed(raws, item.name, item.rest), lo, r, children, Some(ending))
    {
      hide Shows, AllPairs, AllStrings;
      Joined(AllPairs(children), AllStrings(processEntities, raws), lo, hi, [ending], [Str(item.name, RAW)], hi, r);
    }

    lemma SoFarGrows(item: Item, raws: seq<Node>, lo: int, hi: int, children: seq<LazyNode>, r: nat, node: LazyNode)
      requires SoFar(raws, lo, hi, children) && Comes(item, hi, r, Some(node), None)
      ensures item.Child? && At(r, item.rest)
      ensures SoFar(raws + [item.node], lo, Edge(charBuffer[..], r), children + [node])
      ensures AllPairs(children + [node]) == AllPairs(children) + Pairs(node)
    {
      hide Shows, AllPairs, AllStrings, Pairs, Strings, Alike, AllAlike, Edge;
      OneMore(processEntities, children, node, raws, item.node);
      Joined(AllPairs(children), AllStrings(processEntities, raws), lo, hi, Pairs(node),
             Strings(processEntities, item.node), hi, Edge(charBuffer[..], r));
    }

    /** What one round of the loop makes of the level. */
    lemma Round(item: Item, raws: seq<Node>, lo: int, hi: int, children: seq<LazyNode>, r: int,
                node: Option<LazyNode>, ending: Option<StrPair>)
      requires SoFar(raws, lo, hi, children) && hi <= charBuffer.Length && (!item.Wrong? ==> error == None)
      requires Comes(item, hi, r, node, ending)
      ensures r < 0 ==> r == -1 && (item.Nothing? || item.Wrong?)
      ensures r < 0 ==>
        LevelComes(if item.Nothing? then End(raws) else Failed(raws, item.error), lo, -1, children, None)
      ensures r >= 0 ==> (item.Child? || item.EndTag?) && error == None && At(r, item.rest)
      ensures r >= 0 && ending.Some? ==>
        item.EndTag? && LevelComes(Closed(raws, item.name, item.rest), lo, r, children, ending)
      ensures r >= 0 && ending == None ==>
        && item.Child? && node.Some? && AllPairs(children + [node.value]) == AllPairs(children) + Pairs(node.value)
        && SoFar(raws + [item.node], lo, Edge(charBuffer[..], r), children + [node.value])
    {
      hide SoFar, LevelComes, Shows, AllPairs, AllStrings, Pairs, Strings, Alike, AllAlike, Edge;
      if r < 0 {
        SoFarStops(item, raws, lo, hi, children, node, ending);
      } else if ending.Some? {
        SoFarCloses(item, raws, lo, hi, children, r, ending.value);
      } else {
        SoFarGrows(item, raws, lo, hi, children, r, node.value);
      }
    }

    /** One round of the loop of XMLNode::ParseDeep: the children are one more, or the level is over. */
    method Next(p: nat, children: seq<LazyNode>, ghost raws: seq<Node>, ghost lo: nat)
      returns (r: int, more: seq<LazyNode>, ending: Option<StrPair>)
      requires Terminated(p) && error == None && SoFar(raws, lo, Edge(charBuffer[..], p), children)
      modifies this`error, charBuffer
      ensures forall x | x in AllPairs(more) :: x in AllPairs(children) || fresh(x)
      ensures ending.Some? ==> fresh(ending.value)
      ensures SameOutside(old(charBuffer[..]), charBuffer[..], Edge(old(charBuffer[..]), p),
                          if r < 0 then charBuffer.Length else r)
      ensures r >= 0 ==> p < r < charBuffer.Length && error == None
      ensures var item := XmlTree.ParseItem(old(Rest(p)));
        if r < 0 then
          r == -1 && (item.Nothing? || item.Wrong?) && ending == None
          && LevelComes(if item.Nothing? then End(raws) else Failed(raws, item.error), lo, r, more, ending)
        else if ending.Some? then item.EndTag? && LevelComes(Closed(raws, item.name, item.rest), lo, r, more, ending)
        else item.Child? && At(r, item.rest) && SoFar(raws + [item.node], lo, Edge(charBuffer[..], r), more)
      decreases charBuffer.Length - p, 1
    {
      hide CString, XmlTree.ParseItem, SameOutside, AllPairs, AllStrings, Pairs, Edge, SoFar, LevelComes, Comes, Views,
        ShowsAll, AllAlike;
      ghost var b, ps, edge := charBuffer[..], AllPairs(children), Edge(charBuffer[..], p);
      ghost var item := XmlTree.ParseItem(Rest(p));
      assert allocated(ps);
      EdgeBounds(b, p);
      SoFarShown(raws, lo, edge, children);
      ghost var vs := Views(ps);
      var node;
      r, node, ending := ParseItem(p);
      assert Views(ps) == vs;
      SoFarKept(b, vs, raws, lo, edge, children, edge, if r < 0 then charBuffer.Length else r);
      Round(item, raws, lo, edge, children, r, node, ending);
      if r < 0 {
        return -1, children, None;
      }
      more := if ending.Some? then children else children + [node.value];
    }

    /** XMLNode::ParseDeep: the children at one level, and the end tag that ended it. */
    method ParseDeep(p: nat) returns (r: int, children: seq<LazyNode>, endName: Option<StrPair>)
      requires Terminated(p) && error == None
      modifies this`error, charBuffer
      ensures forall x | x in AllPairs(children) :: fresh(x)
      ensures endName.Some? ==> fresh(endName.value)
      ensures SameOutside(old(charBuffer[..]), charBuffer[..], Edge(old(charBuffer[..]), p),
                          if r < 0 then charBuffer.Length else r)
      ensures r >= 0 ==> p < r
      ensures LevelComes(ParseLevel(old(Rest(p))), Edge(old(charBuffer[..]), p), r, children, endName)
      decreases charBuffer.Length - p, 2
    {
      hide CString, XmlTree.ParseItem, SameOutside, AllPairs, AllStrings, Pairs, Edge, SoFar, LevelComes, AllAlike;
      ghost var b, lo := charBuffer[..], Edge(charBuffer[..], p);
      ghost var raws: seq<Node> := [];
      r, children, endName := p, [], None;
      LevelPrepended([], ParseLevel(CString(b, p)));
      EdgeBounds(b, p);
      NothingYet(lo, lo);
      SameItself(b, lo, p);
      while charBuffer[r] != 0
        invariant p <= r && Terminated(r) && error == None && SameOutside(b, charBuffer[..], lo, r)
        invariant CString(charBuffer[..], r) == CString(b, r) && Edge(charBuffer[..], r) == Edge(b, r)
        invariant ParseLevel(CString(b, p)) == Prepend(raws, ParseLevel(CString(b, r))) && lo <= Edge(b, r) <= |b|
        invariant SoFar(raws, lo, Edge(b, r), children) && forall x | x in AllPairs(children) :: fresh(x)
        decreases charBuffer.Length - r
      {
        ghost var now, item := charBuffer[..], XmlTree.ParseItem(CString(b, r));
        CStringStep(now, r);
        EndsHere(raws);
        var q;
        q, children, endName := Next(r, children, raws, lo);
        Onward(b, now, charBuffer[..], lo, r, Edge(b, r), if q < 0 then charBuffer.Length else q);
        if q < 0 || endName.Some? {
          return q, children, endName;
        }
        LevelStep(CString(b, r), item.node, CString(b, q), raws);
        raws := raws + [item.node];
        r := q;
      }
      CStringStep(charBuffer[..], r);
      EndsHere(raws);
      SoFarEnds(raws, lo, Edge(b, r), children);
      SameWider(b, charBuffer[..], lo, r, lo, charBuffer.Length);
      return -1, children, None;
    }

    lemma NothingYet(lo: int, hi: int)
      requires 0 <= lo <= hi <= charBuffer.Length
      ensures SoFar([], lo, hi, []) && AllPairs([]) == []
    {
      ShowsNothing(charBuffer[..], lo, hi);
    }

    /** All that the parse has made of these nodes. */
    ghost predicate Parsed(ns: seq<Node>)
      reads this`charBuffer, this`nodes, charBuffer, AllPairs(nodes)
    {
      SoFar(ns, 0, charBuffer.Length, nodes)
    }

    /** The white space that the caller's text starts with. */
    static method TextStart(memory: bytes) returns (p: nat)
      requires memory != [] && memory[|memory| - 1] == 0
      ensures p < |memory| && CString(memory, p) == SkipWhite(CString(memory, 0))
    {
      hide CString, SkipWhite, IsWhiteSpace;
      NulIsNotWhite();
      CStringStep(memory, 0);
      SkipWhiteStep(CString(memory, 0));
      p := 0;
      while IsWhiteSpace(memory[p])
        invariant p < |memory| && SkipWhite(CString(memory, p)) == SkipWhite(CString(memory, 0))
        decreases |memory| - p
      {
        CStringStep(memory, p);
        SkipWhiteStep(CString(memory, p));
        p := p + 1;
      }
      CStringStep(memory, p);
      SkipWhiteStep(CString(memory, p));
    }

    /** ReadBOM. */
    static method HasBOM(memory: bytes, p: nat) returns (bom: bool)
      requires p < |memory| && memory[|memory| - 1] == 0
      ensures bom <==> BOM <= CString(memory, p)
      ensures bom ==> p + 3 < |memory| && CString(memory, p + 3) == CString(memory, p)[3..]
    {
      hide CString;
      ghost var t := CString(memory, p);
      assert BOM <= t ==> t[0] == 0xEF && t[1..][0] == 0xBB && t[1..][1..][0] == 0xBF;
      CStringStep(memory, p);
      bom := memory[p] == 0xEF;
      if bom {
        CStringStep(memory, p + 1);
        bom := memory[p + 1] == 0xBB;
        if bom {
          CStringStep(memory, p + 2);
          bom := memory[p + 2] == 0xBF;
          if bom {
            assert t == [t[0], t[1], t[2]] + t[3..];
            Advance(memory, p, 3);
          }
        }
      }
    }

    /** XMLDocument::Parse of the C string in memory, or of the first len bytes there. A length may
        stop short of the string's end or reach beyond it; no memory is the null pointer. */
    method Parse(memory: bytes, len: Option<nat>)
      requires memory != [] ==> memory[|memory| - 1] == 0 && (len.Some? ==> len.value <= |memory|)
      modifies this
      ensures var text := CString(memory, 0);
        var d := ParseBuffer(text, if len.Some? && memory != [] then CString(memory[..len.value] + [0], 0) else text);
        && Parsed(d.nodes) && error == d.error
        && (text != [] ==> writeBOM == d.bom) && (text == [] ==> writeBOM == old(writeBOM))
      ensures fresh(charBuffer) && forall x | x in AllPairs(nodes) :: fresh(x)
    {
      hide CString, ParseLevel, SkipWhite, SoFar;
      nodes, error := [], None;
      charBuffer := new byte[1](_ => 0);
      NothingYet(0, charBuffer.Length);
      var text := CString(memory, 0);
      if memory != [] {
        CStringStep(memory, 0);
      }
      if memory == [] || memory[0] == 0 {
        NothingThere();
        SkipWhiteStep(text);
        error := Some(EmptyDocument);
        return;
      }
      Load(memory[..if len.Some? then len.value else |text|]);
      if len.None? {
        CStringBytes(memory, 0);
        CStringIs(charBuffer[..], 0, text);
      }
      NothingYet(0, charBuffer.Length);
      var p := TextStart(memory);
      writeBOM := HasBOM(memory, p);
      p := if writeBOM then p + 3 else p;
      CStringStep(memory, p);
      if memory[p] == 0 {
        error := Some(EmptyDocument);
        return;
      }
      ParseAll();
    }

    /** The buffer, with a NUL of its own. */
    method Load(text: bytes)
      modifies this`charBuffer
      ensures fresh(charBuffer) && charBuffer[..] == text + [0]
    {
      charBuffer := new byte[|text| + 1](i requires 0 <= i => if i < |text| then text[i] else 0);
    }

    /** The nodes at the outermost level; an end tag there ends the parse. */
    method ParseAll()
      requires Terminated(0) && error == None
      modifies this`error, this`nodes, charBuffer
      ensures var l := ParseLevel(old(Rest(0)));
        Parsed(l.nodes) && error == if l.Failed? then Some(l.error) else None
      ensures forall x | x in AllPairs(nodes) :: fresh(x)
    {
      hide CString, ParseLevel, SameOutside, Edge, SoFar, LevelComes;
      ghost var b, level := charBuffer[..], ParseLevel(Rest(0));
      EdgeBounds(b, 0);
      var r, children, endName;
      r, children, endName := ParseDeep(0);
      LevelOut(level, Edge(b, 0), r, children, endName);
      if r >= 0 {
        DropEnd(level, Edge(b, 0), r, children, endName.value);
      }
      SoFarFrom(level.nodes, Edge(b, 0), children);
      nodes := children;
    }

    lemma DropEnd(l: Level, lo: int, r: nat, children: seq<LazyNode>, endName: StrPair)
      requires l.Closed? && LevelComes(l, lo, r, children, Some(endName))
      ensures SoFar(l.nodes, lo, charBuffer.Length, children)
    {
      hide Shows, AllAlike, Edge;
      var ps, strs := AllPairs(children), AllStrings(processEntities, l.nodes);
      Within(ps + [endName], strs + [Str(l.name, RAW)], lo, r);
      AllButLast(ps + [endName], strs + [Str(l.name, RAW)], lo, r, ps, strs);
      EdgeBounds(charBuffer[..], r);
      Wider(ps, strs, lo, Edge(charBuffer[..], r), lo, charBuffer.Length);
    }

    lemma ParsedAlike(ns: seq<Node>)
      requires Parsed(ns)
      ensures AllAlike(nodes, ns)
    {
      hide Shows, AllAlike, AllPairs, AllStrings;
    }

    lemma SoFarFrom(raws: seq<Node>, lo: int, children: seq<LazyNode>)
      requires SoFar(raws, lo, charBuffer.Length, children) && 0 <= lo
      ensures SoFar(raws, 0, charBuffer.Length, children)
    {
      hide Shows, AllAlike, AllPairs, AllStrings;
      Within(AllPairs(children), AllStrings(processEntities, raws), lo, charBuffer.Length);
      Wider(AllPairs(children), AllStrings(processEntities, raws), lo, charBuffer.Length, 0, charBuffer.Length);
    }
  }

  lemma EdgeBounds(b: bytes, p: int)
    ensures p <= Edge(b, p) <= p + 1 && (0 <= p < |b| ==> Edge(b, p) <= |b|)
  {
  }

  lemma NothingThere()
    ensures CString([], 0) == []
  {
  }

  /** Every header starts with that of an element, and all but one with that of a DTD. */
  lemma HeadersNest(t: bytes)
    ensures XML_HEADER <= t ==> [LT] <= t && t[0] == LT && |t| >= 2
    ensures COMMENT_HEADER <= t ==> DTD_HEADER <= t && |t| >= 4
    ensures CDATA_HEADER <= t ==> DTD_HEADER <= t && |t| >= 9
    ensures DTD_HEADER <= t ==> [LT] <= t && |t| >= 2
    ensures [LT] <= t <==> t != [] && t[0] == LT
  {
    if COMMENT_HEADER <= t {
      assert t[0] == LT && t[1] == BANG;
    }
    if CDATA_HEADER <= t {
      assert t[0] == LT && t[1] == BANG;
    }
  }

  lemma CStringInside(b: bytes, p: nat)
    requires p < |b| && b[|b| - 1] == 0
    ensures p + |CString(b, p)| < |b|
  {
    CStringBytes(b, p);
    assert forall i | 0 <= i < |CString(b, p)| :: CString(b, p)[i] == b[p + i];
  }

  /* ---- What is written where ---- */

  lemma SameItself(b: bytes, lo: nat, hi: nat)
    ensures SameOutside(b, b, lo, hi)
  {
  }

  lemma SameWider(b: bytes, b': bytes, lo: nat, hi: nat, lo': nat, hi': nat)
    requires SameOutside(b, b', lo, hi) && lo' <= lo && hi <= hi'
    ensures SameOutside(b, b', lo', hi')
  {
  }

  lemma WrittenWithin(b: bytes, now: bytes, after: bytes, lo: nat, hi: nat, from: nat, to: nat)
    requires SameOutside(b, now, lo, hi) && SameOutside(now, after, from, to) && lo <= from && to <= hi
    ensures SameOutside(b, after, lo, hi)
  {
  }

  /** What has not been read yet is as it was. */
  lemma SameAfter(b: bytes, b': bytes, lo: nat, hi: nat)
    requires SameOutside(b, b', lo, hi) && hi < |b|
    ensures CString(b', hi) == CString(b, hi) && Edge(b', hi) == Edge(b, hi) && b'[|b| - 1] == b[|b| - 1]
  {
    CStringFrom(b', b, hi);
  }

  /** What was written before, and what has been written now, is all before what comes next. */
  lemma Onward(b: bytes, now: bytes, after: bytes, lo: nat, r: nat, from: nat, to: nat)
    requires SameOutside(b, now, lo, r) && SameOutside(now, after, from, to) && lo <= from && r <= to <= |b|
    ensures SameOutside(b, after, lo, to)
    ensures to < |b| ==> CString(after, to) == CString(b, to) && Edge(after, to) == Edge(b, to)
    ensures to < |b| ==> after[|b| - 1] == b[|b| - 1] && to <= Edge(b, to) <= |b|
  {
    hide CString;
    if to < |b| {
      SameAfter(b, after, lo, to);
    }
  }

  lemma LastByte(b: bytes, b': bytes, lo: nat, hi: nat)
    requires SameOutside(b, b', lo, hi) && hi < |b|
    ensures b'[|b| - 1] == b[|b| - 1]
  {
  }

  lemma ShowsBounds(b: bytes, vs: seq<View>, strs: seq<Str>, lo: int, hi: int)
    requires ShowsAll(b, vs, strs, lo, hi)
    ensures 0 <= lo <= hi <= |b|
  {
  }

  /* ---- Pairs of one node ---- */

  function TagPairs(name: StrPair, attributes: seq<LazyAttribute>): seq<StrPair> {
    [name] + AttributePairs(attributes)
  }

  function TagStrings(pe: bool, name: bytes, attributes: seq<Attribute>): seq<Str> {
    [Str(name, RAW)] + AttributeStrings(pe, attributes)
  }

  lemma TagIs(pe: bool, name: StrPair, attributes: seq<LazyAttribute>, rawName: bytes, raws: seq<Attribute>)
    ensures TagPairs(name, attributes) == [name] + AttributePairs(attributes)
    ensures TagStrings(pe, rawName, raws) == [Str(rawName, RAW)] + AttributeStrings(pe, raws)
  {
  }

  lemma TagStarts(pe: bool, name: StrPair, attributes: seq<LazyAttribute>, children: seq<LazyNode>,
                  rawName: bytes, raws: seq<Attribute>, nodes: seq<Node>)
    ensures |TagPairs(name, attributes)| > 0 && TagPairs(name, attributes)[0] == name
    ensures |TagStrings(pe, rawName, raws)| > 0 && TagStrings(pe, rawName, raws)[0] == Str(rawName, RAW)
    ensures Pairs(LazyElement(name, attributes, children)) == TagPairs(name, attributes) + AllPairs(children)
    ensures Strings(pe, Element(rawName, raws, nodes)) == TagStrings(pe, rawName, raws) + AllStrings(pe, nodes)
  {
  }

  /** The byte after a name is no letter. */
  lemma NotInName(s: bytes)
    ensures var n := NameLength(s, true); 0 < n < |s| ==> !IsAlpha(s[n])
    ensures !IsAlpha(0)
  {
  }

  lemma ShowsEach(b: bytes, vs: seq<View>, strs: seq<Str>, lo: int, hi: int, i: nat)
    requires ShowsAll(b, vs, strs, lo, hi) && i < |vs|
    ensures |strs| == |vs| && Holds(b, vs[i], strs[i]) && 0 <= lo <= vs[i].start <= vs[i].end < hi <= |b|
  {
    hide Holds;
  }

  lemma ShowsApart(b: bytes, vs: seq<View>, strs: seq<Str>, lo: int, hi: int, i: nat, j: nat)
    requires ShowsAll(b, vs, strs, lo, hi) && i < |vs| && j < |vs| && i != j
    ensures vs[i] != vs[j]
  {
    hide Holds;
    assert if i < j then vs[i].end < vs[j].start else vs[j].end < vs[i].start;
  }

  lemma HoldsWhat(b: bytes, v: View, s: Str)
    requires Holds(b, v, s)
    ensures v.start <= v.end < |b| && (v.needsFlush ==> v.flags == s.flags && b[v.start..v.end] == s.text)
  {
  }

  /** What GetStr leaves. */
  lemma HoldsFlushed(b: bytes, b': bytes, v: View, v': View, s: Str)
    requires Holds(b, v, s) && |b| == |b'| && v'.start == v.start && v'.end == v.end && !v'.needsFlush
    requires !v.needsFlush ==> b' == b
    requires v.needsFlush ==> var text := InPlace(s.flags, s.text, 0, 0);
      b'[v.start..v.start + |text|] == text && b'[v.start + |text|] == 0
    ensures Holds(b', v', s)
    ensures CString(b', v'.start) == Reading(s) && v.start + |Reading(s)| <= v.end
  {
    hide InPlace, CString;
    CStringCopied(b', v.start, InPlace(s.flags, s.text, 0, 0), 0);
  }

  lemma OneView(x: StrPair)
    ensures Views([x]) == [ViewOf(x)]
  {
    assert Views([x])[0] == ViewOf(x);
  }

  function MakeLazy(kind: Kind, value: StrPair): LazyNode {
    match kind
    case DeclarationKind => LazyDeclaration(value)
    case CommentKind => LazyComment(value)
    case CDataKind => LazyText(value, true)
    case _ => LazyUnknown(value)
  }

  lemma AlikeElement(name: StrPair, attributes: seq<LazyAttribute>, children: seq<LazyNode>,
                     rawName: bytes, raws: seq<Attribute>, nodes: seq<Node>)
    requires |attributes| == |raws| && AllAlike(children, nodes)
    ensures Alike(LazyElement(name, attributes, children), Element(rawName, raws, nodes))
  {
  }

  function EndOf(kind: Kind): (tag: bytes)
    ensures tag != [] && NulFree(tag)
  {
    match kind
    case DeclarationKind => XML_END
    case CommentKind => COMMENT_END
    case CDataKind => CDATA_END
    case _ => [GT]
  }

  function DelimitedItem(s: bytes, kind: Kind): (r: Item)
    ensures r.Child? || r.Wrong?
  {
    match UpTo(s, EndOf(kind))
    case None => Wrong(KindError(kind))
    case Some(v) => Child(Make(kind, v.text), v.rest)
  }

  /** What Identify finds decides what one round of the loop does. */
  lemma ItemIs(s: bytes, kind: Kind)
    ensures var t := SkipWhite(s);
      match kind
      case NoKind => t == [] ==> ParseItem(s) == Nothing
      case DeclarationKind => XML_HEADER <= t ==> ParseItem(s) == DelimitedItem(t[2..], kind)
      case CommentKind => COMMENT_HEADER <= t && !(XML_HEADER <= t) ==> ParseItem(s) == DelimitedItem(t[4..], kind)
      case CDataKind =>
        CDATA_HEADER <= t && !(XML_HEADER <= t) && !(COMMENT_HEADER <= t) ==>
          ParseItem(s) == DelimitedItem(t[9..], kind)
      case UnknownKind =>
        DTD_HEADER <= t && !(XML_HEADER <= t) && !(COMMENT_HEADER <= t) && !(CDATA_HEADER <= t) ==>
          ParseItem(s) == DelimitedItem(t[2..], kind)
      case ElementKind => !(XML_HEADER <= t) && !(DTD_HEADER <= t) && [LT] <= t ==> ParseItem(s) == ParseElement(t[1..])
      case TextKind => t != [] && t[0] != LT ==> s != [] && s[0] != LT && ParseItem(s) == ParsePlainText(s)
  {
    hide SkipWhite, ParseElement, ParsePlainText, UpTo;
    HeadersNest(SkipWhite(s));
    if kind == TextKind && SkipWhite(s) != [] && SkipWhite(s)[0] != LT {
      TextIsNotTag(s);
    }
  }

  function KindError(kind: Kind): Error {
    match kind
    case DeclarationKind => ParsingDeclaration
    case CommentKind => ParsingComment
    case CDataKind => ParsingCData
    case _ => ParsingUnknown
  }

  function Make(kind: Kind, text: bytes): Node {
    match kind
    case DeclarationKind => Declaration(text)
    case CommentKind => Comment(text)
    case CDataKind => Text(text, true)
    case _ => Unknown(text)
  }
}
