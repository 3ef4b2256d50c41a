/** The strings of TinyXML-2 (StrPair and XMLPrinter, tinyxml2.cpp): entities, numeric
    character references and line ends, as a decoder and an encoder of byte sequences. */
module XmlText {
  import opened Options
  import opened XmlChars

  /** What StrPair's flags ask for when the string is first read. */
  datatype Flags = Flags(entities: bool, newlines: bool, collapse: bool)

  const RAW := Flags(false, false, false)
  const LINES := Flags(false, true, false)

  /** TEXT_ELEMENT and ATTRIBUTE_VALUE, or their LEAVE_ENTITIES forms. */
  function ValueFlags(processEntities: bool): Flags {
    Flags(processEntities, true, false)
  }

  /* ---- UTF-8 ---- */

  /** The encoding of section 3 of RFC 3629, extended to 21 bits as the code extends it;
      empty for larger numbers. */
  function Utf8(c: nat): (r: bytes)
    ensures |r| <= 4
    ensures |r| == if c < 0x80 then 1 else if c < 0x800 then 2 else if c < 0x1_0000 then 3
                   else if c < 0x20_0000 then 4 else 0
  {
    if c < 0x80 then [c]
    else if c < 0x800 then [0xC0 + c / 64, 0x80 + c % 64]
    else if c < 0x1_0000 then [0xE0 + c / 4096, 0x80 + c / 64 % 64, 0x80 + c % 64]
    else if c < 0x20_0000 then [0xF0 + c / 262144, 0x80 + c / 4096 % 64, 0x80 + c / 64 % 64, 0x80 + c % 64]
    else []
  }

  /** The number that the payload bits of a UTF-8 sequence spell. */
  function FromUtf8(s: bytes): int {
    if |s| == 1 then s[0] as int
    else if |s| == 2 then Join((s[0] as int) - 0xC0, s[1])
    else if |s| == 3 then Join(Join((s[0] as int) - 0xE0, s[1]), s[2])
    else if |s| == 4 then Join(Join(Join((s[0] as int) - 0xF0, s[1]), s[2]), s[3])
    else 0
  }

  function Join(high: int, trail: int): int {
    high * 64 + (trail - 0x80)
  }

  /** RFC 3629: the encoding is unique and its bytes give the number back. */
  lemma Utf8IsReadBack(c: nat)
    requires c < 0x20_0000
    ensures FromUtf8(Utf8(c)) == c
  {
    assert c == c / 64 * 64 + c % 64;
    assert c / 64 == c / 4096 * 64 + c / 64 % 64;
    assert c / 4096 == c / 262144 * 64 + c / 4096 % 64;
  }

  /** Lead and continuation bytes never mix, so the length can be read off the first byte. */
  lemma Utf8Shape(c: nat, k: nat)
    requires c < 0x20_0000 && k < |Utf8(c)|
    ensures k == 0 ==> (Utf8(c)[0] < 0x80 <==> |Utf8(c)| == 1) && !(0x80 <= Utf8(c)[0] < 0xC0)
    ensures k > 0 ==> 0x80 <= Utf8(c)[k] < 0xC0
    ensures 0xC0 <= Utf8(c)[0] < 0xE0 <==> |Utf8(c)| == 2
    ensures 0xE0 <= Utf8(c)[0] < 0xF0 <==> |Utf8(c)| == 3
    ensures 0xF0 <= Utf8(c)[0] < 0xF8 <==> |Utf8(c)| == 4
  {
  }

  /* ---- Numeric character references ---- */

  const WORD: nat := 0x1_0000_0000

  function Digit(c: byte, base: nat): Option<nat> {
    if IsDigit(c) then Some(c - 48)
    else if base == 16 && 97 <= c <= 102 then Some(c - 97 + 10)
    else if base == 16 && 65 <= c <= 70 then Some(c - 65 + 10)
    else None
  }

  /** The backward scan from s[i] to the byte stop: mult is a 32-bit unsigned that wraps. */
  function Scan(s: bytes, i: nat, stop: byte, base: nat, mult: nat, ucs: nat): Option<nat>
    requires i < |s|
  {
    if s[i] == stop then Some(ucs)
    else match Digit(s[i], base)
      case None => None
      case Some(d) =>
        if i == 0 then None
        else Scan(s, i - 1, stop, base, mult * base % WORD, ucs + mult * d % WORD)
  }

  /** The index of c in s from i on, before any NUL; |s| if it is not there. */
  function IndexOf(s: bytes, c: byte, i: nat): (r: nat)
    requires c != 0 && i <= |s|
    ensures i <= r <= |s| && (r < |s| ==> s[r] == c)
    ensures forall k | i <= k < r && r < |s| :: s[k] != c && s[k] != 0
    decreases |s| - i
  {
    if i == |s| || s[i] == 0 then |s|
    else if s[i] == c then i
    else IndexOf(s, c, i + 1)
  }

  /** The number written by a string of digits. */
  function Number(s: bytes, base: nat): nat {
    if s == [] then 0
    else Number(s[..|s| - 1], base) * base + (match Digit(s[|s| - 1], base) case Some(d) => d case None => 0)
  }

  predicate Digits(s: bytes, base: nat) {
    forall i | 0 <= i < |s| :: Digit(s[i], base).Some?
  }

  lemma WrappedProduct(p: nat, b: nat)
    ensures p % WORD * b % WORD == p * b % WORD
  {
    var m, q := p % WORD, p / WORD;
    assert p * b == WORD * (q * b) + m * b by {
      assert p == WORD * q + m;
    }
    assert (WORD * (q * b) + m * b) % WORD == m * b % WORD;
  }

  /** The scan computes the number, as long as that fits 32 bits, however many digits it has. */
  lemma {:induction false} ScanIsNumber(s: bytes, a: nat, i: nat, stop: byte, base: nat, power: nat, ucs: nat)
    requires 0 < a <= i + 1 && i < |s| && s[a - 1] == stop && Digit(stop, base).None? && base > 0
    requires Digits(s[a..i + 1], base) && power * Number(s[a..i + 1], base) < WORD
    ensures Scan(s, i, stop, base, power % WORD, ucs) == Some(ucs + power * Number(s[a..i + 1], base))
    decreases i
  {
    if a == i + 1 {
      assert s[a..i + 1] == [];
      assert power * 0 == 0;
    } else {
      var head := s[a..i];
      var d, n := Digit(s[i], base).value, Number(head, base);
      NumberStep(s, a, i, base);
      Distribute(power, base, n, d);
      WrappedDigit(power, d);
      WrappedProduct(power, base);
      ScanIsNumber(s, a, i - 1, stop, base, power * base, ucs + power * d);
    }
  }

  lemma NumberStep(s: bytes, a: nat, i: nat, base: nat)
    requires a <= i < |s| && Digits(s[a..i + 1], base)
    ensures Digit(s[i], base).Some? && Digits(s[a..i], base)
    ensures Number(s[a..i + 1], base) == Number(s[a..i], base) * base + Digit(s[i], base).value
  {
    var t, head := s[a..i + 1], s[a..i];
    assert t[..|t| - 1] == head && t[|t| - 1] == s[i];
    forall k | 0 <= k < |head| ensures Digit(head[k], base).Some? {
      assert head[k] == t[k];
    }
  }

  lemma Distribute(p: nat, b: nat, n: nat, d: nat)
    ensures p * (n * b + d) == p * b * n + p * d
    ensures p * b * n >= 0 && p * d >= 0
  {
    assert p * (n * b + d) == p * (n * b) + p * d;
    assert p * (n * b) == p * b * n;
    assert p * b >= 0;
  }

  lemma WrappedDigit(p: nat, d: nat)
    requires p * d < WORD
    ensures p % WORD * d % WORD == p * d
  {
    if d == 0 {
      assert p % WORD * 0 == 0 && p * 0 == 0;
    } else {
      assert p * d == p + p * (d - 1) && p * (d - 1) >= 0;
      assert p < WORD && p % WORD == p;
    }
  }

  /* ---- Entities and decoding ---- */

  datatype Entity = Entity(pattern: bytes, value: byte)

  /** quot, amp, apos, lt and gt. */
  const ENTITIES: seq<Entity> := [
    Entity([113, 117, 111, 116], QUOTE),
    Entity([97, 109, 112], AMP),
    Entity([97, 112, 111, 115], APOS),
    Entity([108, 116], LT),
    Entity([103, 116], GT)
  ]

  /** The first entity from index i on whose pattern and semicolon start s. */
  function EntityAt(s: bytes, i: nat): (r: nat)
    requires i <= |ENTITIES|
    ensures i <= r <= |ENTITIES|
    ensures r < |ENTITIES| ==> ENTITIES[r].pattern + [SEMI] <= s
    decreases |ENTITIES| - i
  {
    if i == |ENTITIES| || ENTITIES[i].pattern + [SEMI] <= s then i else EntityAt(s, i + 1)
  }

  /** What one round of GetStr's loop reads and writes: len bytes are consumed and out is
      written; or an ampersand is skipped and whatever is at the write position stays; or
      the reference is malformed, for which the code gets a null pointer. */
  datatype Unit = Unit(len: nat, out: bytes) | Stray | Broken

  /** GetCharacterRef at s, which starts with an ampersand and a hash sign. */
  function CharRef(s: bytes): (u: Unit)
    requires |s| >= 2 && s[0] == AMP && s[1] == HASH
    ensures u != Stray
  {
    if Peek(s, 2) == 0 then Unit(1, [])
    else if s[2] == CH_X then
      if Peek(s, 3) == 0 then Broken else Reference(s, 3, CH_X, 16)
    else Reference(s, 2, HASH, 10)
  }

  /** A result of four bytes takes four bytes to write; no digits at all give one. */
  function Reference(s: bytes, first: nat, stop: byte, base: nat): (u: Unit)
    requires 2 <= first < |s| && s[first - 1] == stop
    ensures u != Stray
    ensures u.Unit? ==> 0 < u.len <= |s| && |u.out| <= u.len
  {
    var semi := IndexOf(s, SEMI, first);
    if semi == |s| then Broken
    else match Scan(s, semi - 1, stop, base, 1, 0)
      case None => Broken
      case Some(ucs) => Unit(semi + 1, Utf8(ucs))
  }

  function NextUnit(fl: Flags, s: bytes): (u: Unit)
    requires s != []
    ensures u.Unit? ==> 0 < u.len <= |s| && |u.out| <= u.len
    ensures u == Stray ==> s[0] == AMP
  {
    if fl.newlines && s[0] == CR then Unit(if Peek(s, 1) == LF then 2 else 1, [LF])
    else if fl.newlines && s[0] == LF then Unit(if Peek(s, 1) == CR then 2 else 1, [LF])
    else if fl.entities && s[0] == AMP then
      if Peek(s, 1) == HASH then CharRef(s)
      else
        var e := EntityAt(s[1..], 0);
        if e == |ENTITIES| then Stray else Unit(|ENTITIES[e].pattern| + 2, [ENTITIES[e].value])
    else Unit(1, [s[0]])
  }

  /** Every ampersand starts a table entity or a reference that can be scanned. */
  predicate WellFormed(fl: Flags, s: bytes)
    decreases |s|
  {
    s == [] || (NextUnit(fl, s).Unit? && WellFormed(fl, s[NextUnit(fl, s).len..]))
  }

  /** The code gets no null pointer while it decodes s. */
  predicate Readable(fl: Flags, s: bytes)
    decreases |s|
  {
    s == [] || match NextUnit(fl, s)
      case Unit(len, _) => Readable(fl, s[len..])
      case Stray => Readable(fl, s[1..])
      case Broken => false
  }

  /** The decoded string; an unknown ampersand stands for itself. */
  function Decoded(fl: Flags, s: bytes): (r: bytes)
    ensures |r| <= |s|
    decreases |s|
  {
    if s == [] then []
    else match NextUnit(fl, s)
      case Unit(len, out) => out + Decoded(fl, s[len..])
      case Stray => [AMP] + Decoded(fl, s[1..])
      case Broken => []
  }

  /** What GetStr leaves in place of raw[p..] with its write pointer at q: for an unknown
      ampersand it steps over the byte at q, whatever that is by now. */
  function InPlace(fl: Flags, raw: bytes, p: nat, q: nat): (r: bytes)
    requires q <= p <= |raw|
    ensures |r| <= |raw| - p
    decreases |raw| - p
  {
    if p == |raw| then []
    else match NextUnit(fl, raw[p..])
      case Unit(len, out) => out + InPlace(fl, raw, p + len, q + |out|)
      case Stray => [raw[q]] + InPlace(fl, raw, p + 1, q + 1)
      case Broken => []
  }

  /** At every unknown ampersand the write pointer points at an ampersand. */
  predicate NothingStale(fl: Flags, raw: bytes, p: nat, q: nat)
    requires q <= p <= |raw|
    decreases |raw| - p
  {
    p == |raw| || match NextUnit(fl, raw[p..])
      case Unit(len, out) => NothingStale(fl, raw, p + len, q + |out|)
      case Stray => raw[q] == AMP && NothingStale(fl, raw, p + 1, q + 1)
      case Broken => true
  }

  lemma OneUnit(fl: Flags, raw: bytes, p: nat, q: nat, u: Unit)
    requires q <= p < |raw| && u == NextUnit(fl, raw[p..])
    ensures u.Unit? ==>
      && InPlace(fl, raw, p, q) == u.out + InPlace(fl, raw, p + u.len, q + |u.out|)
      && Decoded(fl, raw[p..]) == u.out + Decoded(fl, raw[p + u.len..])
      && NothingStale(fl, raw, p, q) == NothingStale(fl, raw, p + u.len, q + |u.out|)
    ensures u.Stray? ==>
      && InPlace(fl, raw, p, q) == [raw[q]] + InPlace(fl, raw, p + 1, q + 1)
      && Decoded(fl, raw[p..]) == [AMP] + Decoded(fl, raw[p + 1..])
      && NothingStale(fl, raw, p, q) == (raw[q] == AMP && NothingStale(fl, raw, p + 1, q + 1))
    ensures u.Broken? ==>
      InPlace(fl, raw, p, q) == [] == Decoded(fl, raw[p..]) && NothingStale(fl, raw, p, q)
  {
    hide NextUnit;
    if u.Unit? {
      assert raw[p..][u.len..] == raw[p + u.len..];
    } else {
      assert raw[p..][1..] == raw[p + 1..];
    }
  }

  /** GetStr computes the pure decoding exactly when no unknown ampersand is reached with the
      write pointer on another byte. */
  lemma {:induction false} InPlaceIsDecoded(fl: Flags, raw: bytes, p: nat, q: nat)
    requires q <= p <= |raw|
    ensures InPlace(fl, raw, p, q) == Decoded(fl, raw[p..]) <==> NothingStale(fl, raw, p, q)
    decreases |raw| - p
  {
    hide NextUnit;
    if p < |raw| {
      InPlaceStep(fl, raw, p, q);
    }
  }

  lemma {:induction false} InPlaceStep(fl: Flags, raw: bytes, p: nat, q: nat)
    requires q <= p < |raw|
    ensures InPlace(fl, raw, p, q) == Decoded(fl, raw[p..]) <==> NothingStale(fl, raw, p, q)
    decreases |raw| - p, 0
  {
    hide NextUnit, InPlace, Decoded, NothingStale;
    var u := NextUnit(fl, raw[p..]);
    OneUnit(fl, raw, p, q, u);
    if u.Unit? {
      InPlaceIsDecoded(fl, raw, p + u.len, q + |u.out|);
      SamePrefix(u.out, InPlace(fl, raw, p + u.len, q + |u.out|), Decoded(fl, raw[p + u.len..]));
    } else if u.Stray? {
      InPlaceIsDecoded(fl, raw, p + 1, q + 1);
      SameHead(raw[q], AMP, InPlace(fl, raw, p + 1, q + 1), Decoded(fl, raw[p + 1..]));
    }
  }

  lemma SameHead(a: byte, b: byte, s: bytes, t: bytes)
    ensures [a] + s == [b] + t <==> a == b && s == t
  {
    assert ([a] + s)[0] == a && ([b] + t)[0] == b;
    assert ([a] + s)[1..] == s && ([b] + t)[1..] == t;
  }

  lemma SamePrefix(a: bytes, b: bytes, c: bytes)
    ensures a + b == a + c <==> b == c
  {
    assert (a + b)[|a|..] == b && (a + c)[|a|..] == c;
  }

  /** Without unknown ampersands there is nothing to step over. */
  lemma {:induction false} WellFormedIsDecoded(fl: Flags, raw: bytes, p: nat, q: nat)
    requires q <= p <= |raw| && WellFormed(fl, raw[p..])
    ensures NothingStale(fl, raw, p, q) && Readable(fl, raw[p..])
    decreases |raw| - p
  {
    hide NextUnit;
    if p < |raw| {
      var u := NextUnit(fl, raw[p..]);
      assert raw[p..][u.len..] == raw[p + u.len..];
      WellFormedIsDecoded(fl, raw, p + u.len, q + |u.out|);
    }
  }

  /** "&lt;&x" is stored as "<lx": the second ampersand is lost to the byte before it. */
  lemma StaleByte(raw: bytes)
    requires raw == [AMP, 108, 116, SEMI, AMP, CH_X]
    ensures InPlace(ValueFlags(true), raw, 0, 0) == [LT, 108, CH_X]
    ensures Decoded(ValueFlags(true), raw) == [LT, AMP, CH_X]
  {
    var fl := ValueFlags(true);
    assert raw[1..] == [108, 116, SEMI, AMP, CH_X];
    assert raw[4..] == [AMP, CH_X] && raw[4..][1..] == [CH_X] == raw[5..];
    FirstEntity(3, [AMP, CH_X], raw[1..]);
    assert NextUnit(fl, raw) == Unit(4, [LT]);
    assert NextUnit(fl, raw[4..]) == Stray;
    assert NextUnit(fl, raw[5..]) == Unit(1, [CH_X]);
    assert raw[0..] == raw;
    OneUnit(fl, raw, 0, 0, Unit(4, [LT]));
    OneUnit(fl, raw, 4, 1, Stray);
    OneUnit(fl, raw, 5, 2, Unit(1, [CH_X]));
    assert raw[6..] == [];
  }

  /* ---- Line ends ---- */

  /** The lines, one after the other, with sep between them. */
  function Joined(lines: seq<bytes>, sep: bytes): bytes {
    if lines == [] then []
    else if |lines| == 1 then lines[0]
    else lines[0] + (sep + Joined(lines[1..], sep))
  }

  predicate OneLine(s: bytes) {
    CR !in s && LF !in s
  }

  /** A line whose ampersands all start entities or references that end in the line. */
  predicate WholeLine(fl: Flags, line: bytes) {
    && OneLine(line) && WellFormed(fl, line)
    && (fl.entities && |line| >= 2 ==> line[|line| - 2..] != [AMP, HASH])
  }

  function DecodedLines(fl: Flags, lines: seq<bytes>): (r: seq<bytes>)
    ensures |r| == |lines| && forall i | 0 <= i < |r| :: r[i] == Decoded(fl, lines[i])
  {
    seq(|lines|, i requires 0 <= i < |lines| => Decoded(fl, lines[i]))
  }

  lemma {:induction false} IndexOfFollowed(s: bytes, c: byte, i: nat, k: bytes)
    requires c != 0 && i <= |s| && IndexOf(s, c, i) < |s|
    ensures IndexOf(s + k, c, i) == IndexOf(s, c, i)
    decreases |s| - i
  {
    if i < |s| && s[i] != 0 && s[i] != c {
      IndexOfFollowed(s, c, i + 1, k);
    }
  }

  lemma {:induction false} ScanFollowed(s: bytes, i: nat, stop: byte, base: nat, mult: nat, ucs: nat, k: bytes)
    requires i < |s|
    ensures Scan(s + k, i, stop, base, mult, ucs) == Scan(s, i, stop, base, mult, ucs)
    decreases i
  {
    if s[i] != stop && Digit(s[i], base).Some? && i > 0 {
      var d := Digit(s[i], base).value;
      ScanFollowed(s, i - 1, stop, base, mult * base % WORD, ucs + mult * d % WORD, k);
    }
  }

  lemma TagFollowed(tag: bytes, s: bytes, k: bytes)
    requires CR !in tag && LF !in tag && (k == [] || k[0] == CR || k[0] == LF)
    ensures tag <= s + k <==> tag <= s
  {
    if |tag| <= |s| {
      assert (s + k)[..|tag|] == s[..|tag|];
    } else if k != [] {
      assert (s + k)[|s|] == k[0] && tag[|s|] in tag;
    }
  }

  lemma {:induction false} EntityFollowed(s: bytes, i: nat, k: bytes)
    requires i <= |ENTITIES| && (k == [] || k[0] == CR || k[0] == LF)
    ensures EntityAt(s + k, i) == EntityAt(s, i)
    decreases |ENTITIES| - i
  {
    if i < |ENTITIES| {
      var tag := ENTITIES[i].pattern + [SEMI];
      assert CR !in tag && LF !in tag;
      TagFollowed(tag, s, k);
      if !(tag <= s) {
        EntityFollowed(s, i + 1, k);
      }
    }
  }

  lemma ReferenceFollowed(s: bytes, first: nat, stop: byte, base: nat, k: bytes)
    requires 2 <= first < |s| && s[first - 1] == stop && Reference(s, first, stop, base).Unit?
    ensures Reference(s + k, first, stop, base) == Reference(s, first, stop, base)
  {
    IndexOfFollowed(s, SEMI, first, k);
    ScanFollowed(s, IndexOf(s, SEMI, first) - 1, stop, base, 1, 0, k);
  }

  /** A unit that is whole in its line is read in the same way before a line end. */
  lemma UnitFollowed(fl: Flags, s: bytes, k: bytes)
    requires s != [] && NextUnit(fl, s).Unit? && OneLine(s) && !(fl.entities && s == [AMP, HASH])
    requires k == [] || k[0] == CR || k[0] == LF
    ensures NextUnit(fl, s + k) == NextUnit(fl, s)
  {
    assert s[0] in s && (s + k)[0] == s[0];
    if fl.entities && s[0] == AMP {
      if Peek(s, 1) == HASH {
        assert (s + k)[1] == s[1];
        ReferenceStarts(s, k);
      } else {
        assert Peek(s + k, 1) != HASH;
        assert (s + k)[1..] == s[1..] + k;
        EntityFollowed(s[1..], 0, k);
      }
    }
  }

  lemma ReferenceStarts(s: bytes, k: bytes)
    requires |s| > 2 && s[0] == AMP && s[1] == HASH && CharRef(s).Unit?
    ensures CharRef(s + k) == CharRef(s)
  {
    hide Reference;
    assert (s + k)[2] == s[2];
    if s[2] == CH_X {
      if |s| > 3 {
        assert (s + k)[3] == s[3];
        if s[3] != 0 {
          ReferenceFollowed(s, 3, CH_X, 16, k);
        }
      }
    } else if s[2] != 0 {
      ReferenceFollowed(s, 2, HASH, 10, k);
    }
  }

  /** Decoding goes on after the line as if it came first. */
  lemma {:induction false} LineFollowed(fl: Flags, line: bytes, k: bytes)
    requires WholeLine(fl, line) && (k == [] || k[0] == CR || k[0] == LF) && WellFormed(fl, k)
    ensures Decoded(fl, line + k) == Decoded(fl, line) + Decoded(fl, k) && WellFormed(fl, line + k)
    decreases |line|
  {
    hide NextUnit;
    if line == [] {
      assert line + k == k && [] + Decoded(fl, k) == Decoded(fl, k);
    } else {
      var u := NextUnit(fl, line);
      var rest := line[u.len..];
      UnitFollowed(fl, line, k);
      assert (line + k)[u.len..] == rest + k;
      WholeRest(fl, line, u.len);
      LineFollowed(fl, rest, k);
      assert u.out + (Decoded(fl, rest) + Decoded(fl, k)) == u.out + Decoded(fl, rest) + Decoded(fl, k);
    }
  }

  lemma WholeRest(fl: Flags, line: bytes, n: nat)
    requires WholeLine(fl, line) && 0 < n <= |line| && WellFormed(fl, line[n..])
    ensures WholeLine(fl, line[n..])
  {
    var rest := line[n..];
    assert |rest| >= 2 ==> rest[|rest| - 2..] == line[|line| - 2..];
  }

  /** One line end, of one byte or two, is one line feed. */
  lemma LineEndRead(fl: Flags, sep: bytes, k: bytes)
    requires fl.newlines && sep in {[CR], [LF], [CR, LF], [LF, CR]}
    requires |sep| == 1 ==> k == [] || (k[0] != CR && k[0] != LF) || k[0] == sep[0]
    requires WellFormed(fl, k)
    ensures Decoded(fl, sep + k) == [LF] + Decoded(fl, k) && WellFormed(fl, sep + k)
  {
    assert (sep + k)[|sep|..] == k && (sep + k)[0] == sep[0];
    assert NextUnit(fl, sep + k) == Unit(|sep|, [LF]) by {
      assert |sep| == 2 ==> (sep + k)[1] == sep[1];
      assert |sep| == 1 && k != [] ==> (sep + k)[1] == k[0];
    }
  }

  /** What StrPair says of line ends (tinyxml2.cpp): whichever of CR, LF, CR LF and LF CR a text
      has between its lines, it is read with LF between them, and the lines are read as if each
      stood alone. */
  lemma {:induction false} LinesNormalised(fl: Flags, lines: seq<bytes>, sep: bytes)
    requires fl.newlines && sep in {[CR], [LF], [CR, LF], [LF, CR]}
    requires forall i | 0 <= i < |lines| :: WholeLine(fl, lines[i])
    ensures Decoded(fl, Joined(lines, sep)) == Joined(DecodedLines(fl, lines), [LF])
    ensures WellFormed(fl, Joined(lines, sep))
    decreases |lines|
  {
    hide WholeLine, NextUnit;
    var read := DecodedLines(fl, lines);
    if |lines| > 1 {
      var rest := Joined(lines[1..], sep);
      LinesNormalised(fl, lines[1..], sep);
      assert DecodedLines(fl, lines[1..]) == read[1..];
      JoinedStarts(lines[1..], sep, fl);
      LineEndRead(fl, sep, rest);
      LineFollowed(fl, lines[0], sep + rest);
      assert [LF] + Joined(read[1..], [LF]) == [LF] + Decoded(fl, rest);
    } else if |lines| == 1 {
      LineIsWhole(fl, lines[0]);
    }
  }

  lemma LineIsWhole(fl: Flags, line: bytes)
    requires WholeLine(fl, line)
    ensures WellFormed(fl, line) && OneLine(line)
  {
  }

  lemma JoinedStarts(lines: seq<bytes>, sep: bytes, fl: Flags)
    requires lines != [] && sep in {[CR], [LF], [CR, LF], [LF, CR]}
    requires forall i | 0 <= i < |lines| :: WholeLine(fl, lines[i])
    ensures var s := Joined(lines, sep); s == [] || (s[0] != CR && s[0] != LF) || s[0] == sep[0]
  {
    LineIsWhole(fl, lines[0]);
    if lines[0] != [] {
      assert lines[0][0] in lines[0];
    }
  }

  /** Without entity processing every line is whole and stands for itself. */
  lemma {:induction false} LineStands(line: bytes)
    requires OneLine(line)
    ensures WholeLine(LINES, line) && Decoded(LINES, line) == line
    decreases |line|
  {
    if line != [] {
      assert line[0] in line;
      assert NextUnit(LINES, line) == Unit(1, [line[0]]);
      LineStands(line[1..]);
      assert [line[0]] + line[1..] == line;
    }
  }

  lemma {:induction false} PlainLinesNormalised(lines: seq<bytes>, sep: bytes)
    requires sep in {[CR], [LF], [CR, LF], [LF, CR]} && forall i | 0 <= i < |lines| :: OneLine(lines[i])
    ensures Decoded(LINES, Joined(lines, sep)) == Joined(lines, [LF])
  {
    forall i | 0 <= i < |lines| ensures WholeLine(LINES, lines[i]) && Decoded(LINES, lines[i]) == lines[i] {
      LineStands(lines[i]);
    }
    LinesNormalised(LINES, lines, sep);
    assert DecodedLines(LINES, lines) == lines;
  }

  lemma IndexOfFirst(s: bytes, c: byte, i: nat, k: nat)
    requires c != 0 && i <= k < |s| && s[k] == c
    requires forall j | i <= j < k :: s[j] != c && s[j] != 0
    ensures IndexOf(s, c, i) == k
    decreases k - i
  {
    if i < k {
      IndexOfFirst(s, c, i + 1, k);
    }
  }

  /** A decimal or hexadecimal reference is read as the UTF-8 of its number. */
  lemma ReferenceDecodes(hex: bool, digits: bytes, rest: bytes, s: bytes)
    requires Digits(digits, if hex then 16 else 10) && Number(digits, if hex then 16 else 10) < WORD
    requires s == (if hex then [AMP, HASH, CH_X] else [AMP, HASH]) + digits + [SEMI] + rest
    ensures var base := if hex then 16 else 10;
      NextUnit(ValueFlags(true), s) == Unit(|s| - |rest|, Utf8(Number(digits, base)))
  {
    var base, first := if hex then 16 else 10, if hex then 3 else 2;
    var semi := first + |digits|;
    assert s[first..semi] == digits && s[semi] == SEMI;
    forall j | first <= j < semi ensures s[j] != SEMI && s[j] != 0 && s[j] != CH_X {
      assert s[j] == digits[j - first];
    }
    IndexOfFirst(s, SEMI, first, semi);
    ScanIsNumber(s, first, semi - 1, s[first - 1], base, 1, 0);
    assert Number(digits, base) == 1 * Number(digits, base);
  }

  /* ---- Encoding ---- */

  /** The bytes PrintString writes for c; text has the restricted entity set. */
  function EncodedByte(restricted: bool, c: byte): (r: bytes)
    ensures r != []
  {
    if c == AMP then [AMP] + ENTITIES[1].pattern + [SEMI]
    else if c == LT then [AMP] + ENTITIES[3].pattern + [SEMI]
    else if c == GT then [AMP] + ENTITIES[4].pattern + [SEMI]
    else if c == QUOTE && !restricted then [AMP] + ENTITIES[0].pattern + [SEMI]
    else if c == APOS && !restricted then [AMP] + ENTITIES[2].pattern + [SEMI]
    else [c]
  }

  function Encoded(processEntities: bool, restricted: bool, v: bytes): (r: bytes) {
    if v == [] then []
    else
      var first := if processEntities then EncodedByte(restricted, v[0]) else [v[0]];
      first + Encoded(processEntities, restricted, v[1..])
  }

  lemma {:induction false} EncodedSnoc(pe: bool, restricted: bool, v: bytes, c: byte)
    ensures Encoded(pe, restricted, v + [c]) ==
      Encoded(pe, restricted, v) + if pe then EncodedByte(restricted, c) else [c]
  {
    hide EncodedByte;
    var e := if pe then EncodedByte(restricted, c) else [c];
    if v == [] {
      assert [c][1..] == [] && v + [c] == [c];
      assert e + [] == e && [] + e == e;
    } else {
      var first := if pe then EncodedByte(restricted, v[0]) else [v[0]];
      assert (v + [c])[1..] == v[1..] + [c] && (v + [c])[0] == v[0];
      EncodedSnoc(pe, restricted, v[1..], c);
      assert first + (Encoded(pe, restricted, v[1..]) + e) == first + Encoded(pe, restricted, v[1..]) + e;
    }
  }

  /** Bytes that survive printing and reading: no NUL and no CR. */
  predicate Carried(v: bytes) {
    forall i | 0 <= i < |v| :: v[i] != 0 && v[i] != CR
  }

  lemma EncodedUnit(pe: bool, restricted: bool, c: byte, rest: bytes)
    requires c != CR && (rest == [] || rest[0] != CR)
    ensures var e := if pe then EncodedByte(restricted, c) else [c];
      NextUnit(ValueFlags(pe), e + rest) == Unit(|e|, [c]) && (e + rest)[0] != CR && (e + rest)[|e|..] == rest
  {
    var e := if pe then EncodedByte(restricted, c) else [c];
    var s := e + rest;
    assert s[|e|..] == rest;
    assert s[0] == e[0];
    if |e| == 1 {
      assert Peek(s, 1) != CR;
    } else {
      EncodedEntity(restricted, c, rest);
    }
  }

  lemma EncodedEntity(restricted: bool, c: byte, rest: bytes)
    requires |EncodedByte(restricted, c)| > 1
    ensures var e := EncodedByte(restricted, c); NextUnit(ValueFlags(true), e + rest) == Unit(|e|, [c])
  {
    var e := EncodedByte(restricted, c);
    var s := e + rest;
    var k := if c == QUOTE then 0 else if c == AMP then 1 else if c == APOS then 2 else if c == LT then 3 else 4;
    assert s[1..] == ENTITIES[k].pattern + [SEMI] + rest;
    FirstEntity(k, rest, s[1..]);
  }

  /** No pattern of the table starts like another one. */
  lemma FirstEntity(k: nat, rest: bytes, s: bytes)
    requires k < |ENTITIES| && s == ENTITIES[k].pattern + [SEMI] + rest
    ensures EntityAt(s, 0) == k && s[0] != HASH
  {
    var tag := ENTITIES[k].pattern + [SEMI];
    assert tag <= s;
    assert s[0] == ENTITIES[k].pattern[0];
    assert |s| > 1 && s[1] == ENTITIES[k].pattern[1];
    forall j | 0 <= j < k ensures !(ENTITIES[j].pattern + [SEMI] <= s) {
      assert (ENTITIES[j].pattern + [SEMI])[0] == ENTITIES[j].pattern[0];
      assert (ENTITIES[j].pattern + [SEMI])[1] == ENTITIES[j].pattern[1];
    }
    SkipsTo(s, 0, k);
  }

  lemma SkipsTo(s: bytes, i: nat, k: nat)
    requires i <= k < |ENTITIES| && ENTITIES[k].pattern + [SEMI] <= s
    requires forall j | i <= j < k :: !(ENTITIES[j].pattern + [SEMI] <= s)
    ensures EntityAt(s, i) == k
    decreases k - i
  {
    if i < k {
      SkipsTo(s, i + 1, k);
    }
  }

  /** Printing and reading a string gives it back, for both entity sets and with entities off. */
  lemma {:induction false} DecodedEncoded(pe: bool, restricted: bool, v: bytes)
    requires Carried(v)
    ensures var e := Encoded(pe, restricted, v);
      && Decoded(ValueFlags(pe), e) == v && WellFormed(ValueFlags(pe), e)
      && (e == [] || e[0] != CR)
  {
    hide NextUnit, EncodedByte;
    if v != [] {
      var rest := Encoded(pe, restricted, v[1..]);
      DecodedEncoded(pe, restricted, v[1..]);
      EncodedUnit(pe, restricted, v[0], rest);
      assert [v[0]] + v[1..] == v;
    }
  }

  /** Read back without entity processing, the printed form itself comes back. */
  lemma {:induction false} LinesDecoded(v: bytes)
    requires Carried(v)
    ensures Decoded(LINES, v) == v && WellFormed(LINES, v)
  {
    if v != [] {
      assert NextUnit(LINES, v) == Unit(1, [v[0]]);
      LinesDecoded(v[1..]);
      assert [v[0]] + v[1..] == v;
    }
  }

  /** What printing keeps out of the output. */
  lemma {:induction false} EncodedBytes(pe: bool, restricted: bool, v: bytes, i: nat)
    requires Carried(v) && i < |Encoded(pe, restricted, v)|
    ensures var c := Encoded(pe, restricted, v)[i];
      && c != 0 && c != CR
      && (pe ==> c != LT && c != GT && (!restricted ==> c != QUOTE && c != APOS))
      && (!pe ==> c in v)
  {
    var e := if pe then EncodedByte(restricted, v[0]) else [v[0]];
    if i >= |e| {
      EncodedBytes(pe, restricted, v[1..], i - |e|);
    }
  }
}
