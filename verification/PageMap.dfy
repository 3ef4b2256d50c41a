/** TCMalloc_PageMap3 (pagemap.h): a three-level radix tree, for any number of key bits, proved
    to be a map from page numbers to pointers. */
module PageMap {
  import opened Arithmetic
  import opened Options

  const WORD: nat := 0x1_0000_0000_0000_0000

  /** INTERIOR_BITS and LEAF_BITS. */
  function InteriorBits(bits: nat): nat {
    (bits + 2) / 3
  }

  function LeafBits(bits: nat): int {
    bits - 2 * InteriorBits(bits)
  }

  /** The levels divide the key without rest, for every number of bits but one. */
  lemma LevelsFit(bits: nat)
    ensures LeafBits(bits) >= 0 <==> bits != 1
    ensures bits != 1 ==> Pow2(bits) == Pow2(InteriorBits(bits)) * Pow2(InteriorBits(bits)) * Pow2(LeafBits(bits))
  {
    if bits != 1 {
      var i, l := InteriorBits(bits), LeafBits(bits);
      Pow2Adds(i, i);
      Pow2Adds(2 * i, l);
    }
  }

  /* ---- Indices: the shifts and masks of a key ---- */

  function Div(a: nat, b: nat): nat
    requires b > 0
  {
    a / b
  }

  function Mod(a: nat, b: nat): (r: nat)
    requires b > 0
    ensures r < b
  {
    a % b
  }

  lemma Splits(a: nat, b: nat)
    requires b > 0
    ensures a == Div(a, b) * b + Mod(a, b)
  {
  }

  /** A number is determined by its two parts. */
  lemma SameParts(a: nat, b: nat, n: nat)
    requires n > 0
    ensures a == b <==> Div(a, n) == Div(b, n) && Mod(a, n) == Mod(b, n)
  {
    Splits(a, n);
    Splits(b, n);
  }

  /* ---- The tree ---- */

  type Leaf<V> = seq<Option<V>>
  type Node<V> = seq<Option<Leaf<V>>>
  type Root<V> = seq<Option<Node<V>>>

  /** n entries in the root and in a node, m in a leaf. */
  predicate Shaped<V>(root: Root<V>, n: nat, m: nat) {
    && n > 0 && m > 0 && |root| == n
    && (forall i | 0 <= i < n && root[i].Some? :: |root[i].value| == n)
    && (forall i, j | 0 <= i < n && root[i].Some? && 0 <= j < |root[i].value| && root[i].value[j].Some? ::
          |root[i].value[j].value| == m)
  }

  /** The leaf numbered l, if it is there. */
  function LeafAt<V>(root: Root<V>, n: nat, l: nat): Option<Leaf<V>> {
    if n == 0 || Div(l, n) >= |root| || root[Div(l, n)] == None || Mod(l, n) >= |root[Div(l, n)].value| then None
    else root[Div(l, n)].value[Mod(l, n)]
  }

  /** get. */
  function Get<V>(root: Root<V>, n: nat, m: nat, k: nat): Option<V> {
    if m == 0 then None
    else match LeafAt(root, n, Div(k, m))
      case None => None
      case Some(leaf) => if Mod(k, m) < |leaf| then leaf[Mod(k, m)] else None
  }

  /** The tree holds the map. */
  ghost predicate Holds<V>(root: Root<V>, n: nat, m: nat, contents: map<nat, V>) {
    forall k: nat :: Get(root, n, m, k) == if k in contents then Some(contents[k]) else None
  }

  lemma HoldsAt<V>(root: Root<V>, n: nat, m: nat, contents: map<nat, V>, k: nat)
    requires Holds(root, n, m, contents)
    ensures Get(root, n, m, k) == if k in contents then Some(contents[k]) else None
  {
  }

  lemma ShapedMeans<V>(root: Root<V>, n: nat, m: nat)
    requires Shaped(root, n, m)
    ensures n > 0 && m > 0 && |root| == n
  {
  }

  lemma NodeShape<V>(root: Root<V>, n: nat, m: nat, i: nat)
    requires Shaped(root, n, m) && i < n
    ensures |root| == n && (root[i].Some? ==> |root[i].value| == n)
    ensures root[i].Some? ==> forall j | 0 <= j < n && root[i].value[j].Some? :: |root[i].value[j].value| == m
  {
  }

  lemma LeafShape<V>(root: Root<V>, n: nat, m: nat, l: nat)
    requires Shaped(root, n, m)
    ensures LeafAt(root, n, l).Some? ==> |LeafAt(root, n, l).value| == m && Div(l, n) < n
    ensures Div(l, n) >= n ==> LeafAt(root, n, l) == None
  {
    hide Div, Mod;
  }

  /** One leaf is put in place, in a new node if there is none. */
  function WithLeaf<V>(root: Root<V>, n: nat, l: nat, leaf: Leaf<V>): Root<V> {
    if n == 0 || Div(l, n) >= |root| then root
    else
      var i := Div(l, n);
      var node := if root[i].Some? then root[i].value else seq(n, _ => None);
      if Mod(l, n) < |node| then root[i := Some(node[Mod(l, n) := Some(leaf)])] else root
  }

  lemma WithLeafIs<V>(root: Root<V>, n: nat, m: nat, l: nat, leaf: Leaf<V>, x: nat)
    requires Shaped(root, n, m) && |leaf| == m && Div(l, n) < n
    ensures Shaped(WithLeaf(root, n, l, leaf), n, m)
    ensures LeafAt(WithLeaf(root, n, l, leaf), n, x) == if x == l then Some(leaf) else LeafAt(root, n, x)
  {
    hide Div, Mod;
    SameParts(x, l, n);
  }

  /** The value at k is replaced, in the leaf that has k. */
  function WithValue<V>(root: Root<V>, n: nat, m: nat, k: nat, v: Option<V>): Root<V> {
    if m == 0 then root
    else match LeafAt(root, n, Div(k, m))
      case None => root
      case Some(leaf) => if Mod(k, m) < |leaf| then WithLeaf(root, n, Div(k, m), leaf[Mod(k, m) := v]) else root
  }

  lemma WithValueIs<V>(root: Root<V>, n: nat, m: nat, k: nat, v: Option<V>, x: nat)
    requires Shaped(root, n, m) && LeafAt(root, n, Div(k, m)).Some?
    ensures var root' := WithValue(root, n, m, k, v);
      && Shaped(root', n, m) && Get(root', n, m, x) == (if x == k then v else Get(root, n, m, x))
      && (LeafAt(root', n, x).Some? <==> LeafAt(root, n, x).Some?)
  {
    hide Shaped, WithLeaf, LeafAt, Div, Mod;
    ShapedMeans(root, n, m);
    LeafShape(root, n, m, Div(k, m));
    var leaf := LeafAt(root, n, Div(k, m)).value;
    WithLeafIs(root, n, m, Div(k, m), leaf[Mod(k, m) := v], Div(x, m));
    WithLeafIs(root, n, m, Div(k, m), leaf[Mod(k, m) := v], x);
    SameParts(x, k, m);
  }

  lemma SetHolds<V>(root: Root<V>, n: nat, m: nat, contents: map<nat, V>, k: nat, v: Option<V>)
    requires Shaped(root, n, m) && Holds(root, n, m, contents) && LeafAt(root, n, Div(k, m)).Some?
    ensures var root' := WithValue(root, n, m, k, v);
      && Shaped(root', n, m) && Holds(root', n, m, Stored(contents, k, v))
      && forall l: nat :: LeafAt(root', n, l).Some? <==> LeafAt(root, n, l).Some?
  {
    hide Shaped, WithValue, LeafAt, Get, Div, Mod;
    var root' := WithValue(root, n, m, k, v);
    WithValueIs(root, n, m, k, v, 0);
    forall x: nat
      ensures Get(root', n, m, x) == if x in Stored(contents, k, v) then Some(Stored(contents, k, v)[x]) else None
    {
      WithValueIs(root, n, m, k, v, x);
      HoldsAt(root, n, m, contents, x);
    }
    forall l: nat ensures LeafAt(root', n, l).Some? <==> LeafAt(root, n, l).Some? {
      WithValueIs(root, n, m, k, v, l);
    }
  }

  /** A null pointer is no entry. */
  function Stored<V>(contents: map<nat, V>, k: nat, v: Option<V>): map<nat, V> {
    if v.Some? then contents[k := v.value] else contents - {k}
  }

  /** An empty leaf adds nothing. */
  lemma EmptyLeafHolds<V>(root: Root<V>, n: nat, m: nat, contents: map<nat, V>, l: nat)
    requires Shaped(root, n, m) && Holds(root, n, m, contents) && LeafAt(root, n, l).None? && Div(l, n) < n
    ensures var root' := WithLeaf(root, n, l, seq(m, _ => None));
      && Shaped(root', n, m) && Holds(root', n, m, contents)
      && forall x: nat :: LeafAt(root', n, x).Some? <==> x == l || LeafAt(root, n, x).Some?
  {
    hide Shaped, WithLeaf, LeafAt, Div, Mod;
    ShapedMeans(root, n, m);
    var leaf: Leaf<V> := seq(m, _ => None);
    var root' := WithLeaf(root, n, l, leaf);
    WithLeafIs(root, n, m, l, leaf, 0);
    forall x: nat ensures Get(root', n, m, x) == if x in contents then Some(contents[x]) else None {
      WithLeafIs(root, n, m, l, leaf, Div(x, m));
      HoldsAt(root, n, m, contents, x);
    }
    forall x: nat ensures LeafAt(root', n, x).Some? <==> x == l || LeafAt(root, n, x).Some? {
      WithLeafIs(root, n, m, l, leaf, x);
    }
  }

  lemma EmptyTree<V>(n: nat, m: nat)
    requires n > 0 && m > 0
    ensures var root: Root<V> := seq(n, _ => None); Shaped(root, n, m) && Holds(root, n, m, map[])
  {
    hide Div, Mod;
  }

  /** A node without leaves changes nothing. */
  lemma EmptyNodeHolds<V>(root: Root<V>, n: nat, m: nat, contents: map<nat, V>, i: nat)
    requires Shaped(root, n, m) && Holds(root, n, m, contents) && i < n && |root| == n && root[i] == None
    ensures var root' := root[i := Some(seq(n, _ => None))];
      && Shaped(root', n, m) && Holds(root', n, m, contents)
      && forall l: nat :: LeafAt(root', n, l) == LeafAt(root, n, l)
  {
    hide Div, Mod, Holds;
    var root' := root[i := Some(seq(n, _ => None))];
    assert Shaped(root', n, m);
    SameLeavesHold(root, root', n, m, contents);
  }

  lemma SameLeavesHold<V>(root: Root<V>, root': Root<V>, n: nat, m: nat, contents: map<nat, V>)
    requires Holds(root, n, m, contents) && forall l: nat :: LeafAt(root', n, l) == LeafAt(root, n, l)
    ensures Holds(root', n, m, contents)
  {
    hide LeafAt, Div, Mod;
    forall k: nat ensures Get(root', n, m, k) == if k in contents then Some(contents[k]) else None {
      HoldsAt(root, n, m, contents, k);
    }
  }

  /** The first index is in range exactly for keys of at most so many bits. */
  lemma InRange(k: nat, n: nat, m: nat)
    requires n > 0 && m > 0
    ensures k < n * n * m <==> Div(Div(k, m), n) < n
  {
    var l := Div(k, m);
    var i := Div(l, n);
    Splits(k, m);
    Splits(l, n);
    if i < n {
      MulMono(i + 1, n, n);
      Distribute(i, 1, 1, n);
      MulMono(l + 1, n * n, m);
      Distribute(l, 1, 1, m);
    } else {
      MulMono(n, i, n);
      MulMono(n * n, l, m);
    }
  }

  class PageMap3<V> {
    const bits: nat
    const interiorLength: nat
    const leafLength: nat
    const root: array<Option<Node<V>>>
    var allocations: nat
    ghost var contents: map<nat, V>

    ghost predicate Valid()
      reads this, root
    {
      && Fits(bits, interiorLength, leafLength)
      && Shaped(root[..], interiorLength, leafLength) && Holds(root[..], interiorLength, leafLength, contents)
    }

    /** Keys that can be set: their leaf has been allocated. */
    ghost predicate Settable(k: nat)
      reads this, root
    {
      leafLength > 0 && LeafAt(root[..], interiorLength, Div(k, leafLength)).Some?
    }

    constructor (bits: nat)
      requires bits != 1 && Pow2(bits) < WORD
      ensures Valid() && this.bits == bits && contents == map[] && forall k :: !Settable(k)
    {
      LevelsFit(bits);
      this.bits := bits;
      interiorLength, leafLength := Pow2(InteriorBits(bits)), Pow2(LeafBits(bits));
      root := new Option<Node<V>>[Pow2(InteriorBits(bits))](_ => None);
      allocations, contents := 0, map[];
      new;
      hide Shaped, Holds, Pow2, InteriorBits, LeafBits, Div, Mod;
      EmptyTree<V>(interiorLength, leafLength);
      assert root[..] == seq(interiorLength, _ => None);
    }

    method Lookup(k: nat) returns (v: Option<V>)
      requires Valid()
      ensures v == if k in contents then Some(contents[k]) else None
    {
      hide Shaped, Holds, Div, Mod, Fits;
      ShapedMeans(root[..], interiorLength, leafLength);
      HoldsAt(root[..], interiorLength, leafLength, contents, k);
      var l := Div(k, leafLength);
      var i1, i2, i3 := Div(l, interiorLength), Mod(l, interiorLength), Mod(k, leafLength);
      FitsMeans(bits, interiorLength, leafLength, k);
      if k >= Pow2(bits) {
        return None;
      }
      NodeShape(root[..], interiorLength, leafLength, i1);
      if root[i1] == None || root[i1].value[i2] == None {
        return None;
      }
      return root[i1].value[i2].value[i3];
    }

    method Set(k: nat, v: Option<V>)
      requires Valid() && k < Pow2(bits) && Settable(k)
      modifies this, root
      ensures Valid() && contents == Stored(old(contents), k, v)
      ensures forall x: nat :: Settable(x) <==> old(Settable(x))
    {
      hide Shaped, Holds, Div, Mod, Fits, Pow2;
      ghost var t := root[..];
      ShapedMeans(t, interiorLength, leafLength);
      FitsMeans(bits, interiorLength, leafLength, k);
      var l := Div(k, leafLength);
      var i1, i2, i3 := Div(l, interiorLength), Mod(l, interiorLength), Mod(k, leafLength);
      NodeShape(t, interiorLength, leafLength, i1);
      SetHolds(t, interiorLength, leafLength, contents, k, v);
      var node := root[i1].value;
      root[i1] := Some(node[i2 := Some(node[i2].value[i3 := v])]);
      assert root[..] == WithValue(t, interiorLength, leafLength, k, v);
      contents := Stored(contents, k, v);
    }

    /** Makes the node and the leaf of one key, as far as they are missing; fails(i) says whether
        the i-th request for memory is turned down. */
    method EnsureLeaf(l: nat, fails: nat -> bool) returns (ok: bool)
      requires Valid() && Div(l, interiorLength) < interiorLength
      modifies this`allocations, root
      ensures Valid() && allocations >= old(allocations)
      ensures forall x: nat :: Grown(old(root[..]), root[..], interiorLength, l, x, ok)
      ensures !ok ==> Refused(fails, old(allocations), allocations)
    {
      hide Shaped, Holds, Div, Mod, Fits, LeafAt, WithLeaf, Pow2;
      var n, m := interiorLength, leafLength;
      ghost var t := root[..];
      ShapedMeans(t, n, m);
      var i1, i2 := Div(l, n), Mod(l, n);
      NodeShape(t, n, m, i1);
      LeafIs(t, n, m, l);
      if root[i1] == None {
        allocations := allocations + 1;
        if fails(allocations - 1) {
          return false;
        }
        EmptyNodeHolds(t, n, m, contents, i1);
        root[i1] := Some(seq(n, _ => None));
        assert root[..] == t[i1 := Some(seq(n, _ => None))];
      }
      ghost var t' := root[..];
      NodeShape(t', n, m, i1);
      LeafIs(t', n, m, l);
      if root[i1].value[i2] == None {
        allocations := allocations + 1;
        if fails(allocations - 1) {
          return false;
        }
        EmptyLeafHolds(t', n, m, contents, l);
        WithLeafInNode(t', n, m, l, seq(m, _ => None));
        root[i1] := Some(root[i1].value[i2 := Some(seq(m, _ => None))]);
        assert root[..] == WithLeaf(t', n, l, seq(m, _ => None));
      }
      ok := true;
    }

    /** Ensure, in 64-bit arithmetic: the last key of the range may have wrapped. */
    method Ensure(start: nat, count: nat, fails: nat -> bool) returns (ok: bool)
      requires Valid() && start < WORD && count < WORD
      modifies this`allocations, root
      ensures Valid() && contents == old(contents)
      ensures forall x: nat :: old(Settable(x)) ==> Settable(x)
      ensures ok ==> forall x: nat | start <= x <= Last(start, count) :: x < Pow2(bits) && Settable(x)
      ensures !ok ==> start <= Last(start, count)
      ensures !ok ==> Last(start, count) >= Pow2(bits) || Refused(fails, old(allocations), allocations)
    {
      hide Shaped, Holds, Div, Mod, Fits, LeafAt, Pow2, Last, Grown;
      var n, m := interiorLength, leafLength;
      var last := Last(start, count);
      var key := start;
      while key <= last
        invariant Valid() && contents == old(contents) && allocations >= old(allocations)
        invariant forall x: nat :: old(Settable(x)) ==> Settable(x)
        invariant forall x: nat | start <= x < key && x <= last :: x < Pow2(bits) && Settable(x)
        invariant start <= key
        decreases last + 1 - key
      {
        ShapedMeans(root[..], n, m);
        FitsMeans(bits, n, m, key);
        var l := Div(key, m);
        var i1 := Div(l, n);
        if i1 >= n {
          return false;
        }
        ghost var t, calls := root[..], allocations;
        assert forall x: nat | start <= x < key && x <= last :: Settable(x) && LeafAt(t, n, Div(x, m)).Some?;
        var made := EnsureLeaf(l, fails);
        forall x: nat ensures LeafAt(t, n, x).Some? ==> LeafAt(root[..], n, x).Some? {
          GrownMeans(t, root[..], n, l, x, made);
        }
        if !made {
          RefusedLater(fails, old(allocations), calls, allocations);
          return false;
        }
        GrownMeans(t, root[..], n, l, l, made);
        NextLeaf(key, n, m, l, Pow2(bits));
        var next := (l + 1) * m % WORD;
        forall x: nat | start <= x < next && x <= last ensures x < Pow2(bits) && Settable(x) {
          if x >= key {
            SameLeafNumber(x, key, m, l);
            FitsMeans(bits, n, m, x);
          } else {
            assert LeafAt(t, n, Div(x, m)).Some?;
          }
        }
        key := next;
      }
      ok := true;
    }

    /** The rest of one leaf. */
    method ScanLeaf(leaf: Leaf<V>, l: nat, base: nat, from: nat) returns (v: Option<V>, ghost at: nat)
      requires Valid() && LeafAt(root[..], interiorLength, l) == Some(leaf) && from < leafLength &&
        base == l * leafLength
      ensures v.Some? ==> base + from <= at && at in contents && contents[at] == v.value
      ensures v.Some? ==> NoneBetween(contents, base + from, at)
      ensures v.None? ==> NoneBetween(contents, base + from, base + leafLength)
    {
      hide Shaped, Holds, Div, Mod, Fits, LeafAt, NoneBetween;
      var m := leafLength;
      var i := from;
      at := 0;
      NothingBetween(contents, base + from);
      while i < m
        invariant from <= i <= m && NoneBetween(contents, base + from, base + i)
      {
        LeafValue(root[..], interiorLength, m, contents, l, i);
        if leaf[i] != None {
          return leaf[i], base + i;
        }
        OneFurther(contents, base + from, base + i);
        i := i + 1;
      }
      v := None;
    }

    /** The value at the least key from k on that has one; absent nodes and leaves are skipped
        whole. */
    method Next(from: nat) returns (v: Option<V>, ghost at: nat)
      requires Valid()
      ensures v.Some? ==> from <= at && at in contents && contents[at] == v.value && NoneBetween(contents, from, at)
      ensures v.None? ==> forall j | j in contents :: j < from
    {
      hide Shaped, Holds, Div, Mod, Fits, LeafAt, Pow2, NoneBetween;
      var n, m := interiorLength, leafLength;
      ghost var t := root[..];
      ShapedMeans(t, n, m);
      var k := from;
      at := 0;
      NothingBetween(contents, from);
      while k < Pow2(bits)
        invariant from <= k && NoneBetween(contents, from, k)
        decreases Pow2(bits) - k
      {
        FitsMeans(bits, n, m, k);
        var l := Div(k, m);
        var i1, i2 := Div(l, n), Mod(l, n);
        NodeShape(t, n, m, i1);
        LeafIs(t, n, m, l);
        NextLeaf(k, n, m, l, Pow2(bits));
        if root[i1] == None {
          NextNode(k, n, m, Pow2(bits));
          NodeAbsent(t, n, m, contents, k, i1);
          NoneFurther(contents, from, k, (i1 + 1) * (n * m));
          k := (i1 + 1) * (n * m);
        } else {
          var leaf := root[i1].value[i2];
          if leaf != None {
            Splits(k, m);
            v, at := ScanLeaf(leaf.value, l, l * m, Mod(k, m));
            if v != None {
              NoneFurther(contents, from, k, at);
              return;
            }
            Distribute(l, 1, 1, m);
          } else {
            LeafAbsent(t, n, m, contents, k, l);
          }
          NoneFurther(contents, from, k, (l + 1) * m);
          k := (l + 1) * m;
        }
      }
      v := None;
      NoneBeyond(t, n, m, contents, bits);
      NoneAtAll(contents, from, k, Pow2(bits));
    }
  }

  predicate NoneBetween<V>(contents: map<nat, V>, from: nat, to: nat) {
    forall j | j in contents :: !(from <= j < to)
  }

  lemma NothingBetween<V>(contents: map<nat, V>, from: nat)
    ensures NoneBetween(contents, from, from)
  {
  }

  lemma OneFurther<V>(contents: map<nat, V>, from: nat, to: nat)
    requires NoneBetween(contents, from, to) && to !in contents
    ensures NoneBetween(contents, from, to + 1)
  {
  }

  lemma NoneFurther<V>(contents: map<nat, V>, from: nat, mid: nat, to: nat)
    requires NoneBetween(contents, from, mid) && NoneBetween(contents, mid, to)
    ensures NoneBetween(contents, from, to)
  {
  }

  lemma NoneAtAll<V>(contents: map<nat, V>, from: nat, to: nat, total: nat)
    requires NoneBetween(contents, from, to) && total <= to && forall j | j in contents :: j < total
    ensures forall j | j in contents :: j < from
  {
  }

  /** No key has more bits than the tree. */
  lemma NoneBeyond<V>(root: Root<V>, n: nat, m: nat, contents: map<nat, V>, bits: nat)
    requires Fits(bits, n, m) && Shaped(root, n, m) && Holds(root, n, m, contents)
    ensures forall j | j in contents :: j < Pow2(bits)
  {
    hide Div, Mod, Pow2, Fits, Shaped, Holds, LeafAt;
    FitsMeans(bits, n, m, 0);
    forall j | j in contents ensures j < Pow2(bits) {
      FitsMeans(bits, n, m, j);
      HoldsAt(root, n, m, contents, j);
      LeafShape(root, n, m, Div(j, m));
    }
  }

  lemma LeafAbsent<V>(root: Root<V>, n: nat, m: nat, contents: map<nat, V>, k: nat, l: nat)
    requires Holds(root, n, m, contents) && m > 0 && LeafAt(root, n, l) == None && l == Div(k, m)
    ensures NoneBetween(contents, k, (l + 1) * m)
  {
    hide Div, Mod, Holds, LeafAt;
    Splits(k, m);
    forall j | j in contents ensures !(k <= j < (l + 1) * m) {
      HoldsAt(root, n, m, contents, j);
      DivBetween(j, l, m);
    }
  }

  lemma DivBetween(x: nat, q: nat, d: nat)
    requires d > 0
    ensures q * d <= x < (q + 1) * d <==> Div(x, d) == q
  {
    Between(x, q, d);
  }

  lemma NodeAbsent<V>(root: Root<V>, n: nat, m: nat, contents: map<nat, V>, k: nat, i: nat)
    requires Shaped(root, n, m) && Holds(root, n, m, contents) && m > 0 && n > 0 && i < n && |root| == n &&
      root[i] == None
    requires i == Div(Div(k, m), n)
    ensures NoneBetween(contents, k, (i + 1) * (n * m))
  {
    hide Div, Mod, Holds, Shaped;
    forall j | j in contents ensures !(k <= j < (i + 1) * (n * m)) {
      HoldsAt(root, n, m, contents, j);
      if k <= j < (i + 1) * (n * m) {
        SameNode(k, j, n, m, i);
      }
    }
  }

  lemma SameNode(k: nat, j: nat, n: nat, m: nat, i: nat)
    requires n > 0 && m > 0 && i == Div(Div(k, m), n) && k <= j < (i + 1) * (n * m)
    ensures Div(Div(j, m), n) == i
  {
    DivMono(k, j, m);
    DivMono(k / m, j / m, n);
    Distribute(i + 1, n, 0, m);
    if (i + 1) * n <= j / m {
      MulMono((i + 1) * n, j / m, m);
      Splits(j, m);
    }
    Between(j / m, j / m / n, n);
    if i + 1 <= j / m / n {
      MulMono(i + 1, j / m / n, n);
    }
  }

  lemma LeafValue<V>(root: Root<V>, n: nat, m: nat, contents: map<nat, V>, l: nat, i: nat)
    requires Shaped(root, n, m) && Holds(root, n, m, contents) && LeafAt(root, n, l).Some? && i < m
    ensures i < |LeafAt(root, n, l).value|
    ensures LeafAt(root, n, l).value[i] == if l * m + i in contents then Some(contents[l * m + i]) else None
  {
    hide Holds, Shaped, LeafAt;
    LeafShape(root, n, m, l);
    ModIs(l * m + i, l, m, i);
    HoldsAt(root, n, m, contents, l * m + i);
  }

  /** The first key of the next node does not wrap either. */
  lemma NextNode(k: nat, n: nat, m: nat, total: nat)
    requires n > 0 && m > 0 && Div(Div(k, m), n) < n && total == n * n * m
    ensures var i := Div(Div(k, m), n); k < (i + 1) * (n * m) <= total
  {
    var l := Div(k, m);
    var i := Div(l, n);
    Splits(k, m);
    Splits(l, n);
    Distribute(i, 1, 1, n);
    Distribute(l, 1, 1, m);
    MulMono(l + 1, (i + 1) * n, m);
    Distribute(i + 1, n, 0, m);
    MulMono(i + 1, n, n * m);
    Distribute(n, n, 0, m);
  }

  /** start + n - 1 in 64 bits. */
  function Last(start: nat, n: nat): nat {
    (start + n + WORD - 1) % WORD
  }

  /** As long as the range does not wrap, the last key is what it should be; an empty range is
      one whose last key comes before its first, except at 0. */
  lemma LastIs(start: nat, n: nat)
    requires start < WORD && n < WORD
    ensures 1 <= n && start + n <= WORD ==> Last(start, n) == start + n - 1
    ensures n == 0 && start > 0 ==> Last(start, n) == start - 1
    ensures n == 0 && start == 0 ==> Last(start, n) == WORD - 1
    ensures start + n > WORD ==> Last(start, n) == start + n - 1 - WORD < start
  {
  }

  ghost predicate Refused(fails: nat -> bool, from: nat, to: nat) {
    exists i: nat :: from <= i < to && fails(i)
  }

  lemma RefusedLater(fails: nat -> bool, from: nat, mid: nat, to: nat)
    requires from <= mid && Refused(fails, mid, to)
    ensures Refused(fails, from, to)
  {
  }

  /** No leaf goes away; with success the leaf l is there. */
  predicate Grown<V>(before: Root<V>, after: Root<V>, n: nat, l: nat, x: nat, ok: bool) {
    (LeafAt(before, n, x).Some? ==> LeafAt(after, n, x).Some?) && (ok && x == l ==> LeafAt(after, n, x).Some?)
  }

  lemma GrownMeans<V>(before: Root<V>, after: Root<V>, n: nat, l: nat, x: nat, ok: bool)
    requires Grown(before, after, n, l, x, ok)
    ensures LeafAt(before, n, x).Some? ==> LeafAt(after, n, x).Some?
    ensures ok && x == l ==> LeafAt(after, n, x).Some?
  {
  }

  lemma LeafIs<V>(root: Root<V>, n: nat, m: nat, l: nat)
    requires Shaped(root, n, m) && Div(l, n) < n
    ensures |root| == n && (root[Div(l, n)] == None ==> LeafAt(root, n, l) == None)
    ensures root[Div(l, n)].Some? ==>
      |root[Div(l, n)].value| == n && LeafAt(root, n, l) == root[Div(l, n)].value[Mod(l, n)]
  {
    hide Div, Mod;
  }

  lemma WithLeafInNode<V>(root: Root<V>, n: nat, m: nat, l: nat, leaf: Leaf<V>)
    requires Shaped(root, n, m) && Div(l, n) < n && |root| == n && root[Div(l, n)].Some? && |root[Div(l, n)].value| == n
    ensures WithLeaf(root, n, l, leaf) == root[Div(l, n) := Some(root[Div(l, n)].value[Mod(l, n) := Some(leaf)])]
  {
    hide Div, Mod;
  }

  /** The first key of the next leaf does not wrap. */
  lemma NextLeaf(key: nat, n: nat, m: nat, l: nat, total: nat)
    requires n > 0 && m > 0 && l == Div(key, m) && Div(l, n) < n && total == n * n * m < WORD
    ensures (l + 1) * m % WORD == (l + 1) * m && key < (l + 1) * m <= total
  {
    Splits(key, m);
    Splits(l, n);
    Distribute(l, 1, 1, m);
    MulMono(Div(l, n) + 1, n, n);
    Distribute(Div(l, n), 1, 1, n);
    MulMono(l + 1, n * n, m);
  }

  lemma SameLeafNumber(x: nat, key: nat, m: nat, l: nat)
    requires m > 0 && l == Div(key, m) && key <= x < (l + 1) * m
    ensures Div(x, m) == l
  {
    Splits(key, m);
    Between(x, l, m);
  }

  predicate Fits(bits: nat, n: nat, m: nat) {
    bits != 1 && Pow2(bits) < WORD && n == Pow2(InteriorBits(bits)) && LeafBits(bits) >= 0 && m == Pow2(LeafBits(bits))
  }

  lemma FitsMeans(bits: nat, n: nat, m: nat, k: nat)
    requires Fits(bits, n, m)
    ensures n > 0 && m > 0 && Pow2(bits) == n * n * m < WORD
    ensures k < Pow2(bits) <==> Div(Div(k, m), n) < n
  {
    hide Div, Pow2;
    LevelsFit(bits);
    InRange(k, n, m);
  }
}
