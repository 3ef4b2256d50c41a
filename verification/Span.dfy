/** Span descriptors and the circular doubly linked lists they are linked into
    (span.h, span.cc).  A list is a header span; the spans on it form a ring
    through the header. */
module SpanList {
  import opened Tiling

  class Span {
    var start: nat
    var length: nat
    var next: Span?
    var prev: Span?
    var sizeclass: nat
    var sample: bool
    var location: Location

    constructor (p: nat, len: nat)
      ensures start == p && length == len && next == null && prev == null
      ensures sizeclass == 0 && !sample && location == InUse
    {
      start, length, next, prev := p, len, null, null;
      sizeclass, sample, location := 0, false, InUse;
    }

    /** A span that is free has no size class and is no sample. */
    ghost predicate Unmarked()
      reads `location, `sizeclass, `sample
    {
      location != InUse ==> sizeclass == 0 && !sample
    }

    /** An empty list header. */
    constructor Header()
      ensures Ring(this, [])
    {
      start, length := 0, 0;
      sizeclass, sample, location := 0, false, InUse;
      new;
      DLL_Init(this);
    }
  }

  ghost predicate Distinct<T>(s: seq<T>) {
    forall i, j | 0 <= i < j < |s| :: s[i] != s[j]
  }

  /** The list with header h holds exactly the spans s, front first. */
  ghost predicate Ring(h: Span, s: seq<Span>)
    reads Nodes(h, s)`next, Nodes(h, s)`prev
  {
    && h !in s && Distinct(s)
    && h.next == At(h, s, 0)
    && h.prev == At(h, s, |s| - 1)
    && (forall i {:trigger s[i].next} | 0 <= i < |s| :: s[i].next == At(h, s, i + 1))
    && (forall i {:trigger s[i].prev} | 0 <= i < |s| :: s[i].prev == At(h, s, i - 1))
  }

  /** The i-th span of the list, or the header past either end. */
  ghost function At(h: Span, s: seq<Span>, i: int): Span {
    if 0 <= i < |s| then s[i] else h
  }

  /** Position i of a list once position k is skipped. */
  ghost function Skip(i: int, k: int): int {
    if i < k then i else i + 1
  }

  ghost function RemoveAt<T>(s: seq<T>, k: nat): (r: seq<T>)
    requires k < |s|
    ensures |r| == |s| - 1
    ensures forall i | 0 <= i < |r| :: r[i] == s[Skip(i, k)]
  {
    seq(|s| - 1, i requires 0 <= i < |s| - 1 => s[Skip(i, k)])
  }

  lemma DistinctRemoveAt<T>(s: seq<T>, k: nat)
    requires Distinct(s) && k < |s|
    ensures Distinct(RemoveAt(s, k)) && s[k] !in RemoveAt(s, k)
    ensures forall y | y in RemoveAt(s, k) :: y in s
    ensures forall y | y in s && y != s[k] :: y in RemoveAt(s, k)
  {
    hide RemoveAt;
    var r := RemoveAt(s, k);
    forall y | y in s && y != s[k] ensures y in r {
      var i :| 0 <= i < |s| && s[i] == y;
      assert r[if i < k then i else i - 1] == y;
    }
  }

  /** s without its (only) occurrence of x. */
  ghost function Without<T>(s: seq<T>, x: T): (r: seq<T>)
    requires Distinct(s)
    ensures Distinct(r) && x !in r && (x in s ==> |r| + 1 == |s|)
    ensures forall y | y in r :: y in s
    ensures forall y | y in s && y != x :: y in r
  {
    if x in s then
      var k :| 0 <= k < |s| && s[k] == x;
      DistinctRemoveAt(s, k);
      RemoveAt(s, k)
    else s
  }

  ghost function Nodes(h: Span, s: seq<Span>): set<Span> {
    {h} + set x | x in s
  }

  /** Every span but the k-th is linked past the k-th. */
  ghost predicate LinkedPast(h: Span, s: seq<Span>, k: nat)
    requires k < |s|
    reads Nodes(h, s)`next, Nodes(h, s)`prev
  {
    && h.next == At(h, s, Skip(0, k))
    && h.prev == At(h, s, if k + 1 == |s| then k - 1 else |s| - 1)
    && (forall i {:trigger s[i].next} | 0 <= i < |s| && i != k ::
         s[i].next == At(h, s, if i + 1 == k then k + 1 else i + 1))
    && (forall i {:trigger s[i].prev} | 0 <= i < |s| && i != k ::
         s[i].prev == At(h, s, if i - 1 == k then k - 1 else i - 1))
  }

  lemma RingWithout(h: Span, s: seq<Span>, k: nat)
    requires k < |s| && h !in s && Distinct(s) && LinkedPast(h, s, k)
    ensures Ring(h, RemoveAt(s, k))
  {
    hide RemoveAt, Distinct, At;
    DistinctRemoveAt(s, k);
    var r := RemoveAt(s, k);
    assert h.next == At(h, r, 0) && h.prev == At(h, r, |r| - 1) by {
      AtAfterRemove(h, s, k, 0);
      AtAfterRemove(h, s, k, |r| - 1);
    }
    forall i | 0 <= i < |r|
      ensures r[i].next == At(h, r, i + 1) && r[i].prev == At(h, r, i - 1)
    {
      assert r[i] == s[Skip(i, k)];
      AtAfterRemove(h, s, k, i + 1);
      AtAfterRemove(h, s, k, i - 1);
    }
  }

  lemma AtAfterRemove(h: Span, s: seq<Span>, k: nat, i: int)
    requires k < |s| && -1 <= i <= |s| - 1
    ensures At(h, RemoveAt(s, k), i) ==
            At(h, s, if i == -1 then -1 else Skip(i, k))
  {
    hide RemoveAt;
  }

  method DLL_Init(list: Span)
    modifies list`next, list`prev
    ensures Ring(list, [])
  {
    list.next := list;
    list.prev := list;
  }

  method DLL_IsEmpty(list: Span, ghost s: seq<Span>) returns (empty: bool)
    requires Ring(list, s)
    ensures empty <==> s == []
  {
    empty := list.next == list;
  }

  /** The source unlinks a span without naming its list; h and s only say which ring it is on. */
  method DLL_Remove(span: Span, ghost h: Span, ghost s: seq<Span>)
    requires Ring(h, s) && span in s
    modifies Nodes(h, s)`next, Nodes(h, s)`prev
    ensures Ring(h, Without(s, span))
    ensures span.next == null && span.prev == null
  {
    ghost var k :| 0 <= k < |s| && s[k] == span && Without(s, span) == RemoveAt(s, k);
    var before, after := span.prev, span.next;
    assert before == At(h, s, k - 1);
    assert after == At(h, s, k + 1);
    before.next := after;
    after.prev := before;
    span.prev := null;
    span.next := null;
    RingWithout(h, s, k);
  }

  method DLL_Prepend(list: Span, span: Span, ghost s: seq<Span>)
    requires Ring(list, s) && span !in s && span != list
    requires span.next == null && span.prev == null
    modifies span`next, span`prev, Nodes(list, s)`next, Nodes(list, s)`prev
    ensures Ring(list, [span] + s)
  {
    ghost var r := [span] + s;
    var first := list.next;
    assert first == At(list, s, 0);
    span.next := first;
    span.prev := list;
    first.prev := span;
    list.next := span;
    assert forall i | 1 <= i < |r| :: r[i] == s[i - 1];
  }
}
