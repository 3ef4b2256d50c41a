/** StrPair (tinyxml2.h, tinyxml2.cpp): a piece of the document buffer, found by its end tag or
    by the name rules, and decoded in place the first time it is read. */
module LazyString {
  import opened Options
  import opened XmlChars
  import opened XmlText

  /* ---- Specifications ---- */

  /** The C string that starts at p. */
  function CString(s: bytes, p: nat): (r: bytes)
    requires p <= |s|
    ensures p + |r| <= |s|
    decreases |s| - p
  {
    if p == |s| || s[p] == 0 then [] else [s[p]] + CString(s, p + 1)
  }

  lemma {:induction false} CStringBytes(s: bytes, p: nat)
    requires p <= |s|
    ensures var r := CString(s, p); r == s[p..p + |r|] && NulFree(r) && (p + |r| < |s| ==> s[p + |r|] == 0)
    decreases |s| - p
  {
    if p < |s| && s[p] != 0 {
      CStringBytes(s, p + 1);
    }
  }

  lemma CStringIs(s: bytes, p: nat, r: bytes)
    requires p + |r| < |s| && s[p..p + |r|] == r && NulFree(r) && s[p + |r|] == 0
    ensures CString(s, p) == r
    decreases |r|
  {
    if r != [] {
      assert s[p] == r[0] != 0;
      assert s[p + 1..p + |r|] == r[1..];
      CStringIs(s, p + 1, r[1..]);
      assert [r[0]] + r[1..] == r;
    }
  }

  /** How many bytes of s come before the first occurrence of tag. */
  function Before(s: bytes, tag: bytes): (n: Option<nat>)
    ensures n.Some? ==> n.value + |tag| <= |s|
  {
    if tag <= s then Some(0)
    else if s == [] then None
    else Later(Before(s[1..], tag), 1)
  }

  /** It is the first occurrence, and there is none only if there is none. */
  lemma {:induction false} BeforeIsFirst(s: bytes, tag: bytes, k: nat)
    requires k <= |s|
    ensures Before(s, tag).Some? && k <= Before(s, tag).value ==> (tag <= s[k..] <==> k == Before(s, tag).value)
    ensures Before(s, tag).None? ==> !(tag <= s[k..])
  {
    if k == 0 {
      assert s[0..] == s;
    } else {
      assert s[1..][k - 1..] == s[k..];
      BeforeIsFirst(s[1..], tag, k - 1);
    }
  }

  function Later(n: Option<nat>, k: nat): Option<nat> {
    match n case None => None case Some(i) => Some(k + i)
  }

  lemma CStringStep(s: bytes, p: nat)
    requires p < |s|
    ensures s[p] == 0 ==> CString(s, p) == []
    ensures s[p] != 0 ==> CString(s, p) == [s[p]] + CString(s, p + 1) && CString(s, p)[1..] == CString(s, p + 1)
  {
  }

  lemma BeforeStep(s: bytes, tag: bytes)
    requires tag != []
    ensures s == [] ==> Before(s, tag) == None
    ensures tag <= s ==> Before(s, tag) == Some(0)
    ensures s != [] && !(tag <= s) ==> Before(s, tag) == Later(Before(s[1..], tag), 1)
  {
  }

  /** The length of the name that s starts with; 0 if there is none. */
  function NameLength(s: bytes, first: bool): (n: nat)
    ensures n <= |s| && forall k | 0 <= k < n :: IsNameByte(s[k], first && k == 0)
    ensures n < |s| ==> !IsNameByte(s[n], first && n == 0)
  {
    if s == [] || !IsNameByte(s[0], first) then 0 else 1 + NameLength(s[1..], false)
  }

  lemma NameStep(s: bytes, first: bool)
    ensures s == [] || !IsNameByte(s[0], first) ==> NameLength(s, first) == 0
    ensures s != [] && IsNameByte(s[0], first) ==> NameLength(s, first) == 1 + NameLength(s[1..], false)
  {
  }

  /** White space trimmed at both ends and every run of it a single space. */
  function Collapsed(s: bytes): bytes {
    Squeezed(SkipWhite(s))
  }

  function Squeezed(s: bytes): (r: bytes)
    ensures |r| <= |s|
    decreases |s|
  {
    if s == [] then []
    else if !IsWhiteSpace(s[0]) then [s[0]] + Squeezed(s[1..])
    else
      var t := SkipWhite(s);
      if t == [] then [] else [SPACE, t[0]] + Squeezed(t[1..])
  }

  /** The bytes of out were written at q. */
  predicate Written(before: bytes, after: bytes, q: nat, out: bytes) {
    && |before| == |after| && q + |out| <= |before|
    && (forall k | 0 <= k < |out| :: after[q + k] == out[k])
    && SameOutside(before, after, q, q + |out|)
  }

  /** Only the bytes of lo..hi may differ. */
  predicate SameOutside(before: bytes, after: bytes, lo: nat, hi: nat) {
    |before| == |after| && forall k | 0 <= k < |before| && !(lo <= k < hi) :: after[k] == before[k]
  }

  lemma SkipWhiteStep(s: bytes)
    ensures s == [] || !IsWhiteSpace(s[0]) ==> SkipWhite(s) == s
    ensures s != [] && IsWhiteSpace(s[0]) ==> SkipWhite(s) == SkipWhite(s[1..])
  {
  }

  lemma NulIsNotWhite()
    ensures !IsWhiteSpace(0)
  {
  }

  lemma SqueezedStep(s: bytes)
    ensures s == [] ==> Squeezed(s) == []
    ensures s != [] && !IsWhiteSpace(s[0]) ==> Squeezed(s) == [s[0]] + Squeezed(s[1..])
    ensures s != [] && IsWhiteSpace(s[0]) ==>
      Squeezed(s) == if SkipWhite(s) == [] then [] else [SPACE, SkipWhite(s)[0]] + Squeezed(SkipWhite(s)[1..])
  {
  }

  lemma {:induction false} NoNulSqueezed(s: bytes)
    requires NulFree(s)
    ensures NulFree(Squeezed(s))
    decreases |s|
  {
    if s != [] {
      var t := SkipWhite(s);
      SkipWhiteIsSuffix(s);
      NoNulSqueezed(s[1..]);
      if t != [] {
        NoNulSqueezed(t[1..]);
      }
    }
  }

  lemma SqueezedNulFree(s: bytes, p: nat)
    requires p <= |s|
    ensures NulFree(Squeezed(CString(s, p)))
  {
    CStringBytes(s, p);
    NoNulSqueezed(CString(s, p));
  }

  /** A C string does not depend on the bytes before it. */
  lemma {:induction false} CStringFrom(s: bytes, t: bytes, p: nat)
    requires p <= |s| == |t| && forall k | p <= k < |s| :: s[k] == t[k]
    ensures CString(s, p) == CString(t, p)
    decreases |s| - p
  {
    if p < |s| {
      CStringFrom(s, t, p + 1);
    }
  }

  lemma {:induction false} CStringCopied(s: bytes, p: nat, text: bytes, i: nat)
    requires i <= |text| && p + |text| < |s| && s[p..p + |text|] == text && s[p + |text|] == 0
    ensures CString(s, p + i) == CString(text, i)
    decreases |text| - i
  {
    if i < |text| {
      assert s[p + i] == text[i];
      CStringCopied(s, p, text, i + 1);
    }
  }

  lemma InPlaceEnd(fl: Flags, raw: bytes, q: nat)
    requires q <= |raw|
    ensures InPlace(fl, raw, |raw|, q) == []
  {
  }

  lemma ReadableStep(fl: Flags, raw: bytes, p: nat, u: Unit)
    requires p < |raw| && u == NextUnit(fl, raw[p..])
    ensures u == Broken ==> !Readable(fl, raw[p..])
    ensures u != Broken ==> (Readable(fl, raw[p..]) <==> Readable(fl, raw[p + if u.Unit? then u.len else 1..]))
  {
    hide NextUnit;
    if u != Broken {
      assert raw[p..][if u.Unit? then u.len else 1..] == raw[p + if u.Unit? then u.len else 1..];
    }
  }

  /** Without flags nothing is decoded. */
  lemma {:induction false} RawStays(raw: bytes, p: nat)
    requires p <= |raw|
    ensures InPlace(RAW, raw, p, p) == raw[p..] && Readable(RAW, raw[p..])
    decreases |raw| - p
  {
    if p < |raw| {
      assert NextUnit(RAW, raw[p..]) == Unit(1, [raw[p]]) && raw[p..][1..] == raw[p + 1..];
      RawStays(raw, p + 1);
    }
  }

  /** The state of the decoding loop: start..q is written, p..end is still to be read, and
      together they give what decoding the whole string gives. */
  predicate Decoding(fl: Flags, before: bytes, now: bytes, start: nat, end: nat, p: nat, q: nat) {
    && start <= q <= p <= end < |before|
    && SameOutside(before, now, start, q)
    && (Readable(fl, before[start..end]) <==> Readable(fl, before[p..end]))
    && InPlace(fl, before[start..end], 0, 0) == now[start..q] + InPlace(fl, before[start..end], p - start, q - start)
  }

  lemma DecodingStarts(fl: Flags, b: bytes, start: nat, end: nat)
    requires start <= end < |b|
    ensures Decoding(fl, b, b, start, end, start, start)
  {
    hide Readable, InPlace;
  }

  lemma DecodingReads(fl: Flags, before: bytes, now: bytes, start: nat, end: nat, p: nat, q: nat)
    requires Decoding(fl, before, now, start, end, p, q) && p < end
    ensures |before| == |now| && now[p..end] == before[p..end] == before[start..end][p - start..] && now[q] == before[q]
    ensures now[end] == before[end] && SameOutside(before, now, start, end + 1)
    ensures NextUnit(fl, before[p..end]) == Broken ==> !Readable(fl, before[start..end])
  {
    hide NextUnit, Readable;
    var raw := before[start..end];
    assert before[p..end] == raw[p - start..];
    ReadableStep(fl, raw, p - start, NextUnit(fl, raw[p - start..]));
  }

  lemma DecodingRound(fl: Flags, before: bytes, now: bytes, after: bytes, start: nat, end: nat, p: nat, q: nat, u: Unit)
    requires Decoding(fl, before, now, start, end, p, q) && p < end && u == NextUnit(fl, before[p..end])
    requires u != Broken
    requires u.Unit? ==> Written(now, after, q, u.out)
    requires !u.Unit? ==> after == now
    ensures u.Unit? ==> Decoding(fl, before, after, start, end, p + u.len, q + |u.out|)
    ensures !u.Unit? ==> Decoding(fl, before, after, start, end, p + 1, q + 1)
  {
    hide NextUnit, InPlace, Readable, Decoded, NothingStale;
    var raw := before[start..end];
    DecodingReads(fl, before, now, start, end, p, q);
    OneUnit(fl, raw, p - start, q - start, u);
    ReadableStep(fl, raw, p - start, u);
    var out := if u.Unit? then u.out else [now[q]];
    RoundWrites(now, after, start, q, out);
    assert raw[p - start + if u.Unit? then u.len else 1..] == before[p + if u.Unit? then u.len else 1..end];
    assert now[q] == raw[q - start];
  }

  lemma RoundWrites(b: bytes, b': bytes, start: nat, q: nat, out: bytes)
    requires start <= q && Written(b, b', q, out)
    ensures b'[start..q + |out|] == b[start..q] + out
  {
  }

  lemma DecodingDone(fl: Flags, before: bytes, now: bytes, start: nat, end: nat, q: nat)
    requires Decoding(fl, before, now, start, end, end, q)
    ensures |before| == |now| && InPlace(fl, before[start..end], 0, 0) == now[start..q] &&
      SameOutside(before, now, start, q)
    ensures Readable(fl, before[start..end])
  {
    InPlaceEnd(fl, before[start..end], q - start);
  }

  /** The state of the squeezing loop. */
  predicate Squeezing(before: bytes, now: bytes, start: nat, end: nat, p: nat, q: nat) {
    && start <= q <= p <= end < |before|
    && SameOutside(before, now, start, q)
    && Squeezed(CString(before, start)) == now[start..q] + Squeezed(CString(before, p))
  }

  lemma SqueezingStarts(b: bytes, start: nat, end: nat)
    requires start <= end < |b|
    ensures Squeezing(b, b, start, end, start, start)
  {
  }

  lemma SqueezingReads(before: bytes, now: bytes, start: nat, end: nat, p: nat, q: nat)
    requires Squeezing(before, now, start, end, p, q)
    ensures |before| == |now| && now[end] == before[end]
    ensures forall k | p <= k < |now| :: now[k] == before[k]
    ensures CString(before, p) == CString(now, p)
  {
    CStringFrom(before, now, p);
  }

  lemma SqueezingTrims(before: bytes, now: bytes, start: nat, end: nat, p: nat, q: nat, p': nat)
    requires Squeezing(before, now, start, end, p, q) && p <= p' <= end && before[p] != 0
    requires |now| == |before| && now[p'] == 0 && IsWhiteSpace(before[p]) &&
      CString(now, p') == SkipWhite(CString(now, p))
    ensures Squeezing(before, now, start, end, p', q)
  {
    hide CString, Squeezed, SkipWhite, IsWhiteSpace;
    CStringStep(before, p);
    CStringFrom(before, now, p);
    CStringFrom(before, now, p');
    CStringStep(before, p');
    SqueezedStep(CString(before, p));
    SqueezedStep([]);
  }

  lemma SqueezingByte(before: bytes, now: bytes, after: bytes, start: nat, end: nat, p: nat, q: nat)
    requires Squeezing(before, now, start, end, p, q) && p < end && before[p] != 0 && !IsWhiteSpace(before[p])
    requires Written(now, after, q, [before[p]])
    ensures Squeezing(before, after, start, end, p + 1, q + 1)
  {
    hide CString, Squeezed, IsWhiteSpace;
    RoundWrites(now, after, start, q, [before[p]]);
    CStringStep(before, p);
    SqueezedStep(CString(before, p));
  }

  lemma SqueezingRun(before: bytes, now: bytes, after: bytes, start: nat, end: nat, p: nat, q: nat, p': nat)
    requires Squeezing(before, now, start, end, p, q) && p < p' < end && before[p'] != 0
    requires before[p] != 0 && IsWhiteSpace(before[p]) && CString(before, p') == SkipWhite(CString(before, p))
    requires Written(now, after, q, [SPACE, before[p']])
    ensures Squeezing(before, after, start, end, p' + 1, q + 2)
  {
    hide CString, Squeezed, SkipWhite, IsWhiteSpace;
    RoundWrites(now, after, start, q, [SPACE, before[p']]);
    CStringStep(before, p);
    CStringStep(before, p');
    SqueezedStep(CString(before, p));
  }

  lemma SqueezingDone(before: bytes, now: bytes, after: bytes, start: nat, end: nat, p: nat, q: nat)
    requires Squeezing(before, now, start, end, p, q) && |now| == |before| && now[p] == 0
    requires after == now[q := 0]
    ensures CString(after, start) == Squeezed(CString(before, start)) && SameOutside(before, after, start, end + 1)
  {
    hide Squeezed;
    CStringStep(before, p);
    SqueezedStep([]);
    SqueezedNulFree(before, start);
    CStringIs(after, start, Squeezed(CString(before, start)));
  }

  class StrPair {
    const buffer: array<byte>
    var start: nat
    var end: nat
    var flags: Flags
    var needsFlush: bool

    ghost predicate Valid()
      reads this
    {
      start <= end < buffer.Length
    }

    constructor (buffer: array<byte>)
      ensures this.buffer == buffer && Empty()
    {
      this.buffer := buffer;
      start, end := 0, 0;
      flags, needsFlush := RAW, false;
    }

    predicate Empty()
      reads this
    {
      start == end
    }

    method Set(from: nat, to: nat, fl: Flags)
      modifies this
      ensures start == from && end == to && flags == fl && needsFlush
    {
      start, end := from, to;
      flags, needsFlush := fl, true;
    }

    /** Looks for the end tag from p on and keeps what comes before it; -1 is the null pointer. */
    method ParseText(p: nat, endTag: bytes, fl: Flags) returns (r: int)
      requires p < buffer.Length && buffer[buffer.Length - 1] == 0
      requires endTag != [] && NulFree(endTag)
      modifies this
      ensures match Before(CString(buffer[..], p), endTag)
        case None => r == -1 && unchanged(this)
        case Some(n) => r == p + n + |endTag| && start == p && end == p + n && flags == fl && needsFlush
      ensures r >= 0 ==> Valid()
    {
      hide CString, Before, NulFree;
      ghost var b := buffer[..];
      var i := p;
      while buffer[i] != 0
        invariant p <= i < buffer.Length && unchanged(this) && buffer[..] == b
        invariant Before(CString(b, p), endTag) == Later(Before(CString(b, i), endTag), i - p)
        decreases buffer.Length - i
      {
        CStringStep(b, i);
        BeforeStep(CString(b, i), endTag);
        var found := TagAt(i, endTag);
        if found {
          Set(p, i, fl);
          return i + |endTag|;
        }
        i := i + 1;
      }
      CStringStep(b, i);
      BeforeStep([], endTag);
      return -1;
    }

    /** strncmp of the end tag, which stops at a NUL of the buffer. */
    method TagAt(p: nat, tag: bytes) returns (found: bool)
      requires p < buffer.Length && buffer[buffer.Length - 1] == 0
      requires NulFree(tag)
      ensures found <==> tag <= CString(buffer[..], p)
    {
      var k := 0;
      ghost var s := CString(buffer[..], p);
      CStringBytes(buffer[..], p);
      while k < |tag| && buffer[p + k] == tag[k]
        invariant k <= |tag| && k <= |s| && p + k < buffer.Length
        invariant tag[..k] == s[..k]
        decreases |tag| - k
      {
        assert k < |s|;
        k := k + 1;
      }
      found := k == |tag|;
    }

    /** Takes the longest name at p, if there is one. */
    method ParseName(p: nat) returns (r: int)
      requires p < buffer.Length && buffer[buffer.Length - 1] == 0
      modifies this
      ensures var n := NameLength(CString(buffer[..], p), true);
        if n == 0 then r == -1 && unchanged(this)
        else r == p + n && start == p && end == p + n && flags == RAW && needsFlush
      ensures r >= 0 ==> Valid()
    {
      hide CString, NameLength, IsNameByte;
      ghost var b := buffer[..];
      CStringStep(b, p);
      NameStep(CString(b, p), true);
      if buffer[p] == 0 {
        return -1;
      }
      var i := p;
      while buffer[i] != 0 && IsNameByte(buffer[i], i == p)
        invariant p <= i < buffer.Length && unchanged(this) && buffer[..] == b
        invariant NameLength(CString(b, p), true) == i - p + NameLength(CString(b, i), i == p)
        decreases buffer.Length - i
      {
        CStringStep(b, i);
        NameStep(CString(b, i), i == p);
        i := i + 1;
      }
      CStringStep(b, i);
      NameStep(CString(b, i), i == p);
      if i > p {
        Set(p, i, RAW);
        return i;
      }
      return -1;
    }

    /* ---- Decoding in place ---- */

    /** strchr, for a string that ends at the pair's end. */
    method IndexFrom(p: nat, from: nat, c: byte) returns (r: int)
      requires Valid() && p <= from <= end && c != 0 && buffer[end] == 0
      ensures var i := IndexOf(buffer[p..end], c, from - p); r == if i == end - p then -1 else p + i
    {
      ghost var s := buffer[p..end];
      var i := from;
      while buffer[i] != 0 && buffer[i] != c
        invariant from <= i <= end
        invariant IndexOf(s, c, from - p) == IndexOf(s, c, i - p)
        decreases end - i
      {
        assert s[i - p] == buffer[i];
        i := i + 1;
      }
      if i < end {
        assert s[i - p] == buffer[i];
      }
      r := if buffer[i] == 0 then -1 else i;
    }

    /** The digits from the semicolon back to the stop byte. */
    method Digits(p: nat, first: nat, semi: nat, stop: byte, base: nat) returns (ucs: Option<nat>)
      requires Valid() && p < first <= semi < end && buffer[first - 1] == stop
      ensures ucs == Scan(buffer[p..end], semi - 1 - p, stop, base, 1, 0)
    {
      ghost var s := buffer[p..end];
      var sum: nat, mult: nat := 0, 1;
      var q := semi - 1;
      while buffer[q] != stop
        invariant first - 1 <= q < semi
        invariant Scan(s, semi - 1 - p, stop, base, 1, 0) == Scan(s, q - p, stop, base, mult, sum)
        decreases q
      {
        assert s[q - p] == buffer[q];
        var d := Digit(buffer[q], base);
        if d == None {
          return None;
        }
        assert q > p;
        sum := sum + mult * d.value % WORD;
        mult := mult * base % WORD;
        q := q - 1;
      }
      assert s[q - p] == stop;
      return Some(sum);
    }

    /** The bytes are put down from the last to the first, six bits at a time. */
    static method ConvertUTF32ToUTF8(input: nat) returns (output: bytes)
      ensures output == Utf8(input)
    {
      output := [];
      if input >= 0x20_0000 {
        return;
      }
      assert input / 64 / 64 == input / 4096 && input / 4096 / 64 == input / 262144;
      var length := if input < 0x80 then 1 else if input < 0x800 then 2 else if input < 0x1_0000 then 3 else 4;
      var rest := input;
      if length >= 4 {
        output := [0x80 + rest % 64];
        rest := rest / 64;
      }
      if length >= 3 {
        output := [0x80 + rest % 64] + output;
        rest := rest / 64;
      }
      if length >= 2 {
        output := [0x80 + rest % 64] + output;
        rest := rest / 64;
      }
      var mark := if length == 1 then 0 else if length == 2 then 0xC0 else if length == 3 then 0xE0 else 0xF0;
      output := [mark + rest] + output;
    }

    method GetCharacterRef(p: nat) returns (r: int, value: bytes)
      requires Valid() && start <= p && p + 1 < end && buffer[end] == 0
      requires buffer[p] == AMP && buffer[p + 1] == HASH
      ensures match CharRef(buffer[p..end])
        case Unit(len, out) => r == p + len && value == out
        case _ => r == -1
    {
      ghost var s := buffer[p..end];
      value := [];
      if buffer[p + 2] == 0 {
        return p + 1, value;
      }
      assert s[2] == buffer[p + 2];
      var hex := buffer[p + 2] == CH_X;
      var first := if hex then p + 3 else p + 2;
      if buffer[first] == 0 {
        return -1, value;
      }
      assert s[first - p] == buffer[first];
      var semi := IndexFrom(p, first, SEMI);
      if semi < 0 {
        return -1, value;
      }
      var ucs := Digits(p, first, semi, if hex then CH_X else HASH, if hex then 16 else 10);
      if ucs == None {
        return -1, value;
      }
      value := ConvertUTF32ToUTF8(ucs.value);
      r := semi + 1;
    }

    /** The entity of the table that starts after the ampersand at p. */
    method FindEntity(p: nat) returns (i: nat)
      requires Valid() && p < end && buffer[end] == 0
      ensures i == EntityAt(buffer[p + 1..end], 0)
    {
      i := 0;
      while i < |ENTITIES| && !(ENTITIES[i].pattern + [SEMI] <= buffer[p + 1..end])
        invariant i <= |ENTITIES| && EntityAt(buffer[p + 1..end], 0) == EntityAt(buffer[p + 1..end], i)
      {
        i := i + 1;
      }
    }

    /** One round of the loop: reads the unit at p and writes what it stands for at q. After a
        reference that cannot be read the pointer is null. */
    method ReadUnit(p: nat, q: nat) returns (p': int, q': nat)
      requires Valid() && start <= q <= p < end && buffer[end] == 0
      modifies buffer
      ensures match old(NextUnit(flags, buffer[p..end]))
        case Unit(len, out) => p' == p + len && q' == q + |out| && Written(old(buffer[..]), buffer[..], q, out)
        case Broken => p' == -1 && buffer[..] == old(buffer[..])
        case Stray => p' == p + 1 && q' == q + 1 && buffer[..] == old(buffer[..])
    {
      hide Scan, IndexOf, EntityAt, CharRef, Utf8;
      ghost var s := buffer[p..end];
      assert s[0] == buffer[p] && Peek(s, 1) == buffer[p + 1];
      if flags.newlines && buffer[p] == CR {
        p' := if buffer[p + 1] == LF then p + 2 else p + 1;
        buffer[q] := LF;
        q' := q + 1;
      } else if flags.newlines && buffer[p] == LF {
        p' := if buffer[p + 1] == CR then p + 2 else p + 1;
        buffer[q] := LF;
        q' := q + 1;
      } else if flags.entities && buffer[p] == AMP {
        if buffer[p + 1] == HASH {
          var r, value := GetCharacterRef(p);
          assert NextUnit(flags, s) == CharRef(s);
          if r < 0 {
            return -1, q;
          }
          p' := r;
          q' := Copy(q, value);
        } else {
          var i := FindEntity(p);
          assert s[1..] == buffer[p + 1..end];
          if i == |ENTITIES| {
            p', q' := p + 1, q + 1;
          } else {
            buffer[q] := ENTITIES[i].value;
            p', q' := p + |ENTITIES[i].pattern| + 2, q + 1;
          }
        }
      } else {
        buffer[q] := buffer[p];
        p', q' := p + 1, q + 1;
      }
    }

    method Copy(q: nat, value: bytes) returns (q': nat)
      requires q + |value| <= buffer.Length
      modifies buffer
      ensures q' == q + |value| && Written(old(buffer[..]), buffer[..], q, value)
    {
      q' := q;
      var i := 0;
      while i < |value|
        invariant i <= |value| && q' == q + i
        invariant Written(old(buffer[..]), buffer[..], q, value[..i])
      {
        buffer[q'] := value[i];
        q', i := q' + 1, i + 1;
      }
    }

    /** Decodes the string where it stands, once. If a reference cannot be read, the loop goes on at
        a null pointer, and what it does then is not known: ok is false. */
    method GetStr() returns (r: nat, ok: bool)
      requires Valid()
      modifies this, buffer
      ensures Valid() && r == start && !needsFlush && end == old(end)
      ensures ok <==> old(needsFlush ==> Readable(flags, buffer[start..end]))
      ensures !old(needsFlush) ==> start == old(start) && buffer[..] == old(buffer[..])
      ensures SameOutside(old(buffer[..]), buffer[..], old(start), old(end) + 1)
      ensures old(needsFlush) && ok ==>
        var text := old(InPlace(flags, buffer[start..end], 0, 0));
        if old(flags.collapse) then CString(buffer[..], r) == Collapsed(CString(text, 0))
        else r == old(start) && buffer[r..r + |text|] == text && buffer[r + |text|] == 0
    {
      hide NextUnit, InPlace, Readable, CString, Collapsed;
      if needsFlush {
        ghost var raw := buffer[start..end];
        buffer[end] := 0;
        assert buffer[start..end] == raw;
        needsFlush := false;
        ghost var text := InPlace(flags, raw, 0, 0);
        ok := true;
        if flags != RAW {
          ok := DecodeInPlace();
          if !ok {
            return start, false;
          }
        } else {
          RawStays(raw, 0);
        }
        CStringCopied(buffer[..], start, text, 0);
        if flags.collapse {
          CollapseWhitespace();
        }
        flags := RAW;
      }
      r, ok := start, true;
    }

    method DecodeInPlace() returns (ok: bool)
      requires Valid() && buffer[end] == 0
      modifies buffer
      ensures ok <==> old(Readable(flags, buffer[start..end]))
      ensures ok ==> var text := old(InPlace(flags, buffer[start..end], 0, 0));
        && start + |text| <= end && buffer[start..start + |text|] == text && buffer[start + |text|] == 0
      ensures SameOutside(old(buffer[..]), buffer[..], start, end + 1) && buffer[end] == 0
    {
      hide NextUnit, InPlace, Readable, NothingStale, Decoded, Decoding;
      ghost var before := buffer[..];
      assert before[start..end] == buffer[start..end];
      var p, q := start, start;
      DecodingStarts(flags, before, start, end);
      while p < end
        invariant start <= q <= p <= end
        invariant Decoding(flags, before, buffer[..], start, end, p, q)
        decreases end - p
      {
        ghost var now := buffer[..];
        DecodingReads(flags, before, now, start, end, p, q);
        assert buffer[p..end] == now[p..end];
        ghost var u := NextUnit(flags, before[p..end]);
        ghost var p0, q0 := p, q;
        var next;
        next, q := ReadUnit(p, q);
        if next < 0 {
          return false;
        }
        p := next;
        DecodingRound(flags, before, now, buffer[..], start, end, p0, q0, u);
      }
      DecodingDone(flags, before, buffer[..], start, end, q);
      buffer[q] := 0;
      ok := true;
    }

    method SkipWhiteSpace(p: nat) returns (r: nat)
      requires Valid() && p <= end && buffer[end] == 0
      ensures p <= r <= end && !IsWhiteSpace(buffer[r])
      ensures CString(buffer[..], r) == SkipWhite(CString(buffer[..], p))
      ensures IsWhiteSpace(buffer[p]) ==> p < r
    {
      hide CString, SkipWhite, IsWhiteSpace;
      ghost var b := buffer[..];
      CStringStep(b, p);
      SkipWhiteStep(CString(b, p));
      r := p;
      while IsWhiteSpace(buffer[r])
        invariant p <= r <= end && buffer[..] == b
        invariant SkipWhite(CString(b, r)) == SkipWhite(CString(b, p))
        decreases end - r
      {
        CStringStep(b, r);
        SkipWhiteStep(CString(b, r));
        NulIsNotWhite();
        r := r + 1;
      }
      CStringStep(b, r);
      SkipWhiteStep(CString(b, r));
    }

    method CollapseWhitespace()
      requires Valid() && buffer[end] == 0
      modifies this`start, buffer
      ensures Valid() && CString(buffer[..], start) == old(Collapsed(CString(buffer[..], start)))
      ensures SameOutside(old(buffer[..]), buffer[..], old(start), end + 1)
    {
      start := SkipWhiteSpace(start);
      if buffer[start] != 0 {
        Squeeze();
      }
    }

    method Squeeze()
      requires Valid() && buffer[end] == 0
      modifies buffer
      ensures CString(buffer[..], start) == old(Squeezed(CString(buffer[..], start)))
      ensures SameOutside(old(buffer[..]), buffer[..], start, end + 1)
    {
      hide CString, Squeezed, IsWhiteSpace, SkipWhite, Squeezing;
      ghost var before := buffer[..];
      NulIsNotWhite();
      SqueezingStarts(before, start, end);
      var p, q := start, start;
      while buffer[p] != 0
        invariant start <= q <= p <= end
        invariant Squeezing(before, buffer[..], start, end, p, q)
        decreases end - p
      {
        ghost var now, p0, q0 := buffer[..], p, q;
        SqueezingReads(before, now, start, end, p, q);
        if IsWhiteSpace(buffer[p]) {
          p := SkipWhiteSpace(p);
          CStringFrom(before, now, p);
          if buffer[p] == 0 {
            SqueezingTrims(before, now, start, end, p0, q, p);
            break;
          }
          buffer[q] := SPACE;
          q := q + 1;
        }
        buffer[q] := buffer[p];
        q := q + 1;
        p := p + 1;
        if IsWhiteSpace(before[p0]) {
          SqueezingRun(before, now, buffer[..], start, end, p0, q0, p - 1);
        } else {
          SqueezingByte(before, now, buffer[..], start, end, p0, q0);
        }
      }
      ghost var last := buffer[..];
      buffer[q] := 0;
      SqueezingDone(before, last, buffer[..], start, end, p, q);
    }
  }
}
