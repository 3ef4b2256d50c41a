/** PackedCache (packed-cache-inl.h): a direct-mapped cache whose entry packs a value with as
    much of its key as the position does not tell. Shifts and masks are products, quotients and
    remainders by powers of two; a cast to the entry type keeps the low bits. */
module PackedCache {
  import opened Arithmetic

  const VALUE_BITS: nat := 7

  /** The template's sizes: kKeybits, kHashbits, and the bits of an entry. */
  datatype Layout = Layout(keyBits: nat, hashBits: nat, entryBits: nat)

  /** The compile-time assertions, and kHashbits >= kValuebits. */
  predicate Sound(l: Layout) {
    VALUE_BITS <= l.hashBits <= l.keyBits && l.keyBits - l.hashBits + VALUE_BITS <= l.entryBits
  }

  predicate WholeKeys(l: Layout) {
    l.keyBits + VALUE_BITS <= l.entryBits
  }

  function Hash(l: Layout, key: nat): nat {
    key % Pow2(l.hashBits)
  }

  function UpperBits(l: Layout): nat
    requires Sound(l)
  {
    if WholeKeys(l) then l.keyBits else l.keyBits - l.hashBits
  }

  /** A key, or its upper part, where it is kept in an entry. */
  function KeyToUpper(l: Layout, key: nat): nat
    requires Sound(l)
  {
    if WholeKeys(l) then key % Pow2(l.entryBits) * Pow2(VALUE_BITS) % Pow2(l.entryBits)
    else Upper(l, key / Pow2(l.hashBits - VALUE_BITS) % Pow2(l.entryBits)) * Pow2(VALUE_BITS)
  }

  /** The bits that kUpperMask selects. */
  function Upper(l: Layout, entry: nat): nat
    requires Sound(l)
  {
    entry / Pow2(VALUE_BITS) % Pow2(UpperBits(l))
  }

  predicate KeyMatch(l: Layout, entry: nat, key: nat)
    requires Sound(l)
  {
    if WholeKeys(l) then entry / Pow2(VALUE_BITS) == key else Upper(l, KeyToUpper(l, key)) == Upper(l, entry)
  }

  function EntryToValue(entry: nat): nat {
    entry % Pow2(VALUE_BITS)
  }

  predicate IsKey(l: Layout, key: nat) {
    key < Pow2(l.keyBits)
  }

  predicate IsValue(value: nat) {
    value < Pow2(VALUE_BITS)
  }

  /** What is kept of a key is all of it or its bits above the hash: no bit is cut off. */
  lemma NothingCutOff(l: Layout, key: nat)
    requires Sound(l) && IsKey(l, key)
    ensures KeyToUpper(l, key) == (if WholeKeys(l) then key else key / Pow2(l.hashBits)) * Pow2(VALUE_BITS)
    ensures (if WholeKeys(l) then key else key / Pow2(l.hashBits)) < Pow2(UpperBits(l))
  {
    hide Pow2;
    if WholeKeys(l) {
      WholeKeyFits(l, key);
    } else {
      UpperPartFits(l, key);
    }
  }

  /** Seven bits are for the value. */
  lemma ValueBits(l: Layout, key: nat)
    requires Sound(l) && IsKey(l, key)
    ensures Pow2(VALUE_BITS) == 128
    ensures KeyToUpper(l, key) == 128 * if l.keyBits + 7 <= l.entryBits then key else key / Pow2(l.hashBits)
  {
    assert Pow2(VALUE_BITS) == 128;
    NothingCutOff(l, key);
  }

  lemma WholeKeyFits(l: Layout, key: nat)
    requires Sound(l) && IsKey(l, key) && WholeKeys(l)
    ensures key % Pow2(l.entryBits) * Pow2(VALUE_BITS) % Pow2(l.entryBits) == key * Pow2(VALUE_BITS)
  {
    hide Pow2;
    Pow2Adds(l.keyBits, VALUE_BITS);
    Pow2Mono(l.keyBits + VALUE_BITS, l.entryBits);
    Pow2Mono(l.keyBits, l.entryBits);
    MulMono(key + 1, Pow2(l.keyBits), Pow2(VALUE_BITS));
    Distribute(1, 1, key, Pow2(VALUE_BITS));
    SmallMod(key, Pow2(l.entryBits));
    SmallMod(key * Pow2(VALUE_BITS), Pow2(l.entryBits));
  }

  lemma UpperPartFits(l: Layout, key: nat)
    requires Sound(l) && IsKey(l, key) && !WholeKeys(l)
    ensures Upper(l, key / Pow2(l.hashBits - VALUE_BITS) % Pow2(l.entryBits)) ==
      key / Pow2(l.hashBits) < Pow2(UpperBits(l))
  {
    hide Pow2;
    var shift := l.hashBits - VALUE_BITS;
    var x := key / Pow2(shift);
    Pow2Adds(l.keyBits - shift, shift);
    QuotientBelow(key, Pow2(l.keyBits - shift), Pow2(shift));
    Pow2Mono(l.keyBits - shift, l.entryBits);
    SmallMod(x, Pow2(l.entryBits));
    Pow2Adds(UpperBits(l), VALUE_BITS);
    QuotientBelow(x, Pow2(UpperBits(l)), Pow2(VALUE_BITS));
    SmallMod(x / Pow2(VALUE_BITS), Pow2(UpperBits(l)));
    Pow2Adds(shift, VALUE_BITS);
    DivTwice(key, Pow2(shift), Pow2(VALUE_BITS));
  }

  /** The key of an entry, told by it and by its position. */
  function KeyOf(l: Layout, entry: nat, slot: nat): nat {
    if WholeKeys(l) then entry / Pow2(VALUE_BITS) else entry / Pow2(VALUE_BITS) * Pow2(l.hashBits) + slot
  }

  predicate EntryOk(l: Layout, entry: nat, slot: nat)
    requires Sound(l)
  {
    entry / Pow2(VALUE_BITS) < Pow2(UpperBits(l)) && Hash(l, KeyOf(l, entry, slot)) == slot
  }

  /** Packing loses nothing. */
  lemma Packed(l: Layout, key: nat, value: nat)
    requires Sound(l) && IsKey(l, key) && IsValue(value)
    ensures var entry := KeyToUpper(l, key) + value;
      EntryToValue(entry) == value && KeyOf(l, entry, Hash(l, key)) == key && EntryOk(l, entry, Hash(l, key))
  {
    hide Pow2, KeyToUpper;
    NothingCutOff(l, key);
    var upper := if WholeKeys(l) then key else key / Pow2(l.hashBits);
    ModIs(KeyToUpper(l, key) + value, upper, Pow2(VALUE_BITS), value);
    assert key == key / Pow2(l.hashBits) * Pow2(l.hashBits) + key % Pow2(l.hashBits);
  }

  /** The hash and the bits kept determine the key. */
  lemma MatchIsEquality(l: Layout, entry: nat, key: nat)
    requires Sound(l) && IsKey(l, key) && EntryOk(l, entry, Hash(l, key))
    ensures KeyMatch(l, entry, key) <==> KeyOf(l, entry, Hash(l, key)) == key
  {
    hide Pow2, KeyToUpper;
    if !WholeKeys(l) {
      NothingCutOff(l, key);
      var upper := key / Pow2(l.hashBits);
      ModIs(KeyToUpper(l, key), upper, Pow2(VALUE_BITS), 0);
      SmallMod(upper, Pow2(UpperBits(l)));
      var e := entry / Pow2(VALUE_BITS);
      SmallMod(e, Pow2(UpperBits(l)));
      assert key == upper * Pow2(l.hashBits) + key % Pow2(l.hashBits);
      if e * Pow2(l.hashBits) == upper * Pow2(l.hashBits) {
        ModIs(e * Pow2(l.hashBits), e, Pow2(l.hashBits), 0);
        ModIs(upper * Pow2(l.hashBits), upper, Pow2(l.hashBits), 0);
      }
    }
  }

  /* ---- What the cache holds ---- */

  /** A key with its value; position h of the cache holds a key whose hash is h. */
  datatype Cell = Cell(key: nat, value: nat)

  predicate Holds(l: Layout, cells: seq<Cell>, key: nat)
    requires |cells| == Pow2(l.hashBits)
  {
    cells[Hash(l, key)].key == key
  }

  function Lookup(l: Layout, cells: seq<Cell>, key: nat, default: nat): nat
    requires |cells| == Pow2(l.hashBits)
  {
    if Holds(l, cells, key) then cells[Hash(l, key)].value else default
  }

  /** A run of Put calls. */
  function AfterPuts(l: Layout, cells: seq<Cell>, puts: seq<Cell>): (r: seq<Cell>)
    requires |cells| == Pow2(l.hashBits)
    ensures |r| == |cells|
  {
    if puts == [] then cells
    else
      var last := puts[|puts| - 1];
      AfterPuts(l, cells, puts[..|puts| - 1])[Hash(l, last.key) := last]
  }

  /** The last Put to a position, if there has been one. */
  function LastPut(l: Layout, puts: seq<Cell>, slot: nat): (i: int)
    ensures -1 <= i < |puts|
    ensures i >= 0 ==> Hash(l, puts[i].key) == slot
    ensures forall j | i < j < |puts| :: Hash(l, puts[j].key) != slot
  {
    if puts == [] then -1
    else if Hash(l, puts[|puts| - 1].key) == slot then |puts| - 1
    else LastPut(l, puts[..|puts| - 1], slot)
  }

  /** For any run: a key has the value of the last Put to its position when that Put was of the
      key, nothing when it was of another, and what it had before when there was none. */
  lemma {:induction false} LastPutDecides(l: Layout, cells: seq<Cell>, puts: seq<Cell>, key: nat, default: nat)
    requires |cells| == Pow2(l.hashBits)
    ensures var i := LastPut(l, puts, Hash(l, key));
      Lookup(l, AfterPuts(l, cells, puts), key, default) ==
      if i < 0 then Lookup(l, cells, key, default)
      else if puts[i].key == key then puts[i].value else default
    ensures var i := LastPut(l, puts, Hash(l, key));
      Holds(l, AfterPuts(l, cells, puts), key) <==> if i < 0 then Holds(l, cells, key) else puts[i].key == key
  {
    hide Pow2;
    if puts != [] {
      LastPutDecides(l, cells, puts[..|puts| - 1], key, default);
    }
  }

  /** A value that was put is returned until another Put to its position. */
  lemma PutThenGet(l: Layout, cells: seq<Cell>, puts: seq<Cell>, i: nat, default: nat)
    requires |cells| == Pow2(l.hashBits) && i < |puts|
    requires forall j | i < j < |puts| :: Hash(l, puts[j].key) != Hash(l, puts[i].key)
    ensures Lookup(l, AfterPuts(l, cells, puts), puts[i].key, default) == puts[i].value
  {
    hide Pow2;
    LastPutDecides(l, cells, puts, puts[i].key, default);
  }

  /** A Put of one key can only make the cache forget another, and while it does not, the other
      keeps its value. */
  lemma PutOnlyForgets(l: Layout, cells: seq<Cell>, put: Cell, key: nat, default: nat)
    requires |cells| == Pow2(l.hashBits) && key != put.key
    ensures var cells' := AfterPuts(l, cells, [put]);
      && (Holds(l, cells', key) <==> Holds(l, cells, key) && Hash(l, key) != Hash(l, put.key))
      && (Holds(l, cells', key) == Holds(l, cells, key) ==>
            Lookup(l, cells', key, default) == Lookup(l, cells, key, default))
  {
    hide Pow2;
    LastPutDecides(l, cells, [put], key, default);
  }

  class PackedCache {
    const l: Layout
    const entries: array<nat>

    ghost predicate Valid()
      reads entries
    {
      Sound(l) && entries.Length == Pow2(l.hashBits) && forall h | 0 <= h < entries.Length :: EntryOk(l, entries[h], h)
    }

    ghost function Cells(): (r: seq<Cell>)
      requires Valid()
      reads entries
      ensures |r| == Pow2(l.hashBits)
    {
      seq(entries.Length, h requires 0 <= h < entries.Length reads entries =>
        Cell(KeyOf(l, entries[h], h), EntryToValue(entries[h])))
    }

    constructor (l: Layout, initial: nat)
      requires Sound(l) && IsValue(initial)
      ensures Valid() && this.l == l && fresh(entries)
      ensures forall h | 0 <= h < Pow2(l.hashBits) :: Cells()[h] == Cell(h, initial)
    {
      this.l := l;
      entries := new nat[Pow2(l.hashBits)];
      new;
      Clear(initial);
    }

    /** Every position gets the key that is its number. */
    method Clear(value: nat)
      requires Sound(l) && entries.Length == Pow2(l.hashBits) && IsValue(value)
      modifies entries
      ensures Valid() && forall h | 0 <= h < Pow2(l.hashBits) :: Cells()[h] == Cell(h, value)
    {
      hide Pow2, KeyToUpper, EntryOk, KeyOf, EntryToValue;
      var i := 0;
      while i < Pow2(l.hashBits)
        invariant i <= Pow2(l.hashBits)
        invariant forall h | 0 <= h < i ::
          EntryOk(l, entries[h], h) && KeyOf(l, entries[h], h) == h && EntryToValue(entries[h]) == value
      {
        ClearedEntry(l, i, value);
        entries[i] := if WholeKeys(l) then KeyToUpper(l, i) + value else value;
        i := i + 1;
      }
    }

    method Put(key: nat, value: nat)
      requires Valid() && IsKey(l, key) && value < 128
      modifies entries
      ensures Valid() && Cells() == AfterPuts(l, old(Cells()), [Cell(key, value)])
      ensures key % Pow2(l.hashBits) < entries.Length
      ensures entries[key % Pow2(l.hashBits)] == value + 128 *
        if l.keyBits + 7 <= l.entryBits then key else key / Pow2(l.hashBits)
    {
      ValueBits(l, key);
      hide Pow2, KeyToUpper, EntryOk, KeyOf, EntryToValue;
      Packed(l, key, value);
      entries[Hash(l, key)] := KeyToUpper(l, key) + value;
      assert AfterPuts(l, old(Cells()), []) == old(Cells());
      assert [Cell(key, value)][..0] == [];
    }

    method Has(key: nat) returns (has: bool)
      requires Valid() && IsKey(l, key)
      ensures has == Holds(l, Cells(), key)
    {
      hide Pow2, KeyToUpper, EntryOk, KeyOf, KeyMatch;
      MatchIsEquality(l, entries[Hash(l, key)], key);
      has := KeyMatch(l, entries[Hash(l, key)], key);
    }

    method GetOrDefault(key: nat, default: nat) returns (value: nat)
      requires Valid() && IsKey(l, key)
      ensures value == Lookup(l, Cells(), key, default)
    {
      hide Pow2, KeyToUpper, EntryOk, KeyOf, KeyMatch, EntryToValue;
      var entry := entries[Hash(l, key)];
      MatchIsEquality(l, entry, key);
      value := if KeyMatch(l, entry, key) then EntryToValue(entry) else default;
    }
  }

  /** With split keys the upper part of a position's own number is nothing. */
  lemma ClearedEntry(l: Layout, slot: nat, value: nat)
    requires Sound(l) && slot < Pow2(l.hashBits) && IsValue(value)
    ensures var entry := if WholeKeys(l) then KeyToUpper(l, slot) + value else value;
      EntryOk(l, entry, slot) && KeyOf(l, entry, slot) == slot && EntryToValue(entry) == value
  {
    hide Pow2, KeyToUpper, EntryOk, KeyOf, EntryToValue;
    Pow2Mono(l.hashBits, l.keyBits);
    Packed(l, slot, value);
    NothingCutOff(l, slot);
    SmallMod(slot, Pow2(l.hashBits));
    if !WholeKeys(l) {
      assert slot / Pow2(l.hashBits) == 0;
    }
  }
}
