/** ProfileData (profiledata.h, profiledata.cc): the CPU profiler's table of stack traces, which
    forgets entries into an eviction buffer and from there into the profile. No sample is lost
    on the way. */
module ProfileData {
  import opened Options

  type Slot = x: int | 0 <= x < 0x1_0000_0000_0000_0000

  type Trace = seq<Slot>

  const WORD: nat := 0x1_0000_0000_0000_0000
  const MAX_STACK_DEPTH: nat := 64
  const ASSOCIATIVITY: nat := 4
  const BUCKETS: nat := 1024
  const BUFFER_LENGTH: nat := 0x4_0000

  datatype Entry = Entry(count: nat, stack: Trace)

  const NO_ENTRY := Entry(0, [])

  /* ---- The profile as a sequence of slots ---- */

  /** The header, a record, the end-of-data marker. A count is a slot of the profile. */
  function Header(period: nat): seq<nat> {
    [0, 3, 0, period, 0]
  }

  const TRAILER: seq<nat> := [0, 1, 0]

  lemma Frame(period: nat)
    ensures Header(period) == [0, 3, 0, period, 0] && TRAILER == [0, 1, 0]
  {
  }

  function Record(e: Entry): seq<nat> {
    [e.count, |e.stack|] + Slots(e.stack)
  }

  function Slots(stack: Trace): (r: seq<nat>)
    ensures |r| == |stack|
  {
    seq(|stack|, i requires 0 <= i < |stack| => stack[i])
  }

  function Encoded(records: seq<Entry>): seq<nat> {
    if records == [] then [] else Encoded(records[..|records| - 1]) + Record(records[|records| - 1])
  }

  /** Reads records until the end, or until the marker. */
  function Decoded(slots: seq<nat>): Option<seq<Entry>>
    decreases |slots|
  {
    if slots == [] || slots == TRAILER then Some([])
    else if |slots| < 2 || slots[1] == 0 || |slots| < 2 + slots[1] then None
    else if exists i | 2 <= i < 2 + slots[1] :: slots[i] >= WORD then None
    else
      var n := 2 + slots[1];
      match Decoded(slots[n..])
      case None => None
      case Some(rest) => Some([Entry(slots[0], Stack(slots[2..n]))] + rest)
  }

  function Stack(slots: seq<nat>): Trace
    requires forall i | 0 <= i < |slots| :: slots[i] < WORD
  {
    seq(|slots|, i requires 0 <= i < |slots| => slots[i])
  }

  function DecodedProfile(slots: seq<nat>, period: nat): Option<seq<Entry>> {
    if |slots| < 5 || slots[..5] != Header(period) then None else Decoded(slots[5..])
  }

  predicate Recordable(e: Entry) {
    e.count > 0 && 0 < |e.stack| <= MAX_STACK_DEPTH
  }

  lemma {:induction false} EncodedFront(e: Entry, records: seq<Entry>)
    ensures Encoded([e] + records) == Record(e) + Encoded(records)
  {
    hide Record;
    if records == [] {
      assert [e] + records == [e] && [e][..0] == [];
      assert Record(e) + [] == Record(e) && [] + Record(e) == Record(e);
    } else {
      var n := |records| - 1;
      var all := [e] + records;
      assert all[..|all| - 1] == [e] + records[..n] && all[|all| - 1] == records[n];
      EncodedFront(e, records[..n]);
      assert Record(e) + Encoded(records[..n]) + Record(records[n]) ==
        Record(e) + (Encoded(records[..n]) + Record(records[n]));
    }
  }

  lemma RecordDecoded(e: Entry, rest: seq<nat>)
    requires Recordable(e)
    ensures Decoded(Record(e) + rest) == match Decoded(rest) case None => None case Some(r) => Some([e] + r)
  {
    var slots := Record(e) + rest;
    var n := 2 + |e.stack|;
    assert slots[0] == e.count && slots[1] == |e.stack|;
    assert slots[n..] == rest;
    assert forall i | 0 <= i < |e.stack| :: slots[2 + i] == e.stack[i];
    assert slots != TRAILER;
    assert slots[2..n] == Slots(e.stack);
    assert Stack(slots[2..n]) == e.stack;
  }

  /** Whatever has been recorded can be read back, with or without the marker. */
  lemma {:induction false} RecordsReadBack(records: seq<Entry>, end: seq<nat>)
    requires (forall i | 0 <= i < |records| :: Recordable(records[i])) && (end == [] || end == TRAILER)
    ensures Decoded(Encoded(records) + end) == Some(records)
    decreases |records|
  {
    hide Record;
    if records == [] {
      assert [] + end == end;
    } else {
      var e, rest := records[0], records[1..];
      assert [e] + rest == records;
      EncodedFront(e, rest);
      assert Record(e) + Encoded(rest) + end == Record(e) + (Encoded(rest) + end);
      RecordsReadBack(rest, end);
      RecordDecoded(e, Encoded(rest) + end);
    }
  }

  lemma ProfileReadsBack(records: seq<Entry>, period: nat, end: seq<nat>)
    requires (forall i | 0 <= i < |records| :: Recordable(records[i])) && (end == [] || end == TRAILER)
    ensures DecodedProfile(Header(period) + Encoded(records) + end, period) == Some(records)
  {
    hide Encoded, Decoded, TRAILER, Record;
    var slots := Header(period) + Encoded(records) + end;
    assert slots == Header(period) + (Encoded(records) + end);
    assert slots[..5] == Header(period) && slots[5..] == Encoded(records) + end;
    RecordsReadBack(records, end);
  }

  /* ---- Samples ---- */

  /** One sample for each hit. */
  function Hits(e: Entry): multiset<Trace> {
    multiset{}[e.stack := e.count]
  }

  function Samples(entries: seq<Entry>): multiset<Trace> {
    if entries == [] then multiset{} else Samples(entries[..|entries| - 1]) + Hits(entries[|entries| - 1])
  }

  function TableSamples(buckets: seq<seq<Entry>>): multiset<Trace> {
    if buckets == [] then multiset{} else TableSamples(buckets[..|buckets| - 1]) + Samples(buckets[|buckets| - 1])
  }

  lemma Rearranged<T>(a: multiset<T>, x: multiset<T>, b: multiset<T>, y: multiset<T>, m: multiset<T>)
    requires a + x == b + y
    ensures a + m + x == b + m + y
  {
    assert a + m + x == a + x + m;
    assert b + m + y == b + y + m;
  }

  lemma {:induction false} SamplesUpdated(entries: seq<Entry>, i: nat, e: Entry)
    requires i < |entries|
    ensures Samples(entries[i := e]) + Hits(entries[i]) == Samples(entries) + Hits(e)
  {
    hide Hits;
    var n := |entries| - 1;
    var entries' := entries[i := e];
    if i == n {
      assert entries'[..n] == entries[..n];
    } else {
      assert entries'[..n] == entries[..n][i := e] && entries'[n] == entries[n];
      SamplesUpdated(entries[..n], i, e);
      Rearranged(Samples(entries'[..n]), Hits(entries[i]), Samples(entries[..n]), Hits(e), Hits(entries[n]));
    }
  }

  lemma {:induction false} TableUpdated(buckets: seq<seq<Entry>>, b: nat, bucket: seq<Entry>)
    requires b < |buckets|
    ensures TableSamples(buckets[b := bucket]) + Samples(buckets[b]) == TableSamples(buckets) + Samples(bucket)
  {
    hide Samples;
    var n := |buckets| - 1;
    var buckets' := buckets[b := bucket];
    if b == n {
      assert buckets'[..n] == buckets[..n];
    } else {
      assert buckets'[..n] == buckets[..n][b := bucket] && buckets'[n] == buckets[n];
      TableUpdated(buckets[..n], b, bucket);
      Rearranged(TableSamples(buckets'[..n]), Samples(buckets[b]), TableSamples(buckets[..n]), Samples(bucket),
                 Samples(buckets[n]));
    }
  }

  /* ---- The table ---- */

  /** The hash of a trace: rotated by a byte and added to, in 64 bits. */
  function Hash(stack: Trace): (h: nat)
    ensures h < WORD
  {
    if stack == [] then 0
    else
      var h: int := Hash(stack[..|stack| - 1]);
      var slot: int := stack[|stack| - 1];
      (h * 0x100 % WORD + h / 0x100_0000_0000_0000 + (slot * 31 + slot * 7 + slot * 3)) % WORD
  }

  /** No trace twice, every live one where its hash puts it, the others empty. */
  predicate BucketOk(bucket: seq<Entry>, b: nat) {
    && |bucket| == ASSOCIATIVITY
    && (forall a | 0 <= a < ASSOCIATIVITY ::
          if bucket[a].count == 0 then bucket[a].stack == []
          else Recordable(bucket[a]) && Hash(bucket[a].stack) % BUCKETS == b)
    && (forall a, c | 0 <= a < c < ASSOCIATIVITY && bucket[a].count > 0 :: bucket[a].stack != bucket[c].stack)
  }

  predicate TableOk(buckets: seq<seq<Entry>>) {
    |buckets| == BUCKETS && forall b | 0 <= b < BUCKETS :: BucketOk(buckets[b], b)
  }

  lemma HitOnce(e: Entry)
    ensures Hits(Entry(e.count + 1, e.stack)) == Hits(e) + multiset{e.stack}
    ensures Hits(Entry(1, e.stack)) == multiset{e.stack} && Hits(NO_ENTRY) == multiset{}
    ensures e.count == 0 ==> Hits(e) == multiset{}
  {
  }

  lemma Counted(bucket: seq<Entry>, b: nat, a: nat)
    requires BucketOk(bucket, b) && a < ASSOCIATIVITY && bucket[a].count > 0
    ensures BucketOk(bucket[a := Entry(bucket[a].count + 1, bucket[a].stack)], b)
  {
    hide Hash;
  }

  lemma Replaced(bucket: seq<Entry>, b: nat, a: nat, stack: Trace)
    requires BucketOk(bucket, b) && a < ASSOCIATIVITY && 0 < |stack| <= MAX_STACK_DEPTH && Hash(stack) % BUCKETS == b
    requires forall c | 0 <= c < ASSOCIATIVITY :: bucket[c].stack != stack
    ensures BucketOk(bucket[a := Entry(1, stack)], b)
  {
    hide Hash;
  }

  lemma Cleared(bucket: seq<Entry>, b: nat, a: nat)
    requires BucketOk(bucket, b) && a < ASSOCIATIVITY
    ensures BucketOk(bucket[a := NO_ENTRY], b)
  {
    hide Hash;
  }

  /** The records with the table account for every sample. */
  predicate Conserved(records: seq<Entry>, buckets: seq<seq<Entry>>, added: multiset<Trace>) {
    Samples(records) + TableSamples(buckets) == added
  }

  lemma RecordedSamples(records: seq<Entry>, e: Entry)
    ensures Samples(records + [e]) == Samples(records) + Hits(e)
    ensures Encoded(records + [e]) == Encoded(records) + Record(e)
  {
    hide Record, Hits;
    assert (records + [e])[..|records|] == records;
  }

  /** One entry of the table becomes another: e goes to the records if it is evicted. */
  lemma EntryChanged(records: seq<Entry>, buckets: seq<seq<Entry>>, added: multiset<Trace>, b: nat, a: nat, e: Entry,
                     records': seq<Entry>, more: multiset<Trace>)
    requires Conserved(records, buckets, added) && b < |buckets| && a < |buckets[b]|
    requires Samples(records') + Hits(e) == Samples(records) + Hits(buckets[b][a]) + more
    ensures Conserved(records', buckets[b := buckets[b][a := e]], added + more)
  {
    hide Samples, TableSamples, Hits;
    var bucket := buckets[b];
    SamplesUpdated(bucket, a, e);
    TableUpdated(buckets, b, bucket[a := e]);
    Balance(Samples(records), Samples(records'), TableSamples(buckets), TableSamples(buckets[b := bucket[a := e]]),
      Samples(bucket), Samples(bucket[a := e]), Hits(bucket[a]), Hits(e), more);
  }

  lemma Balance<T>(r: multiset<T>, r': multiset<T>, t: multiset<T>, t': multiset<T>, s: multiset<T>, s': multiset<T>,
                   h: multiset<T>, h': multiset<T>, more: multiset<T>)
    requires r' + h' == r + h + more && s' + h == s + h' && t' + s == t + s'
    ensures r' + t' == r + t + more
  {
    forall x ensures (r' + t')[x] == (r + t + more)[x] {
      assert (r' + h')[x] == (r + h + more)[x] && (s' + h)[x] == (s + h')[x] && (t' + s)[x] == (t + s')[x];
    }
  }

  /** The output is a header and records; records and table together have every sample. */
  predicate Account(records: seq<Entry>, buckets: seq<seq<Entry>>, added: multiset<Trace>, output: seq<nat>,
                    period: nat) {
    && output == Header(period) + Encoded(records)
    && (forall i | 0 <= i < |records| :: Recordable(records[i]))
    && TableOk(buckets) && Conserved(records, buckets, added)
  }

  lemma AccountTable(records: seq<Entry>, buckets: seq<seq<Entry>>, added: multiset<Trace>, output: seq<nat>,
                     period: nat, b: nat, a: nat)
    requires Account(records, buckets, added, output, period) && b < BUCKETS && a < ASSOCIATIVITY
    ensures |buckets| == BUCKETS && |buckets[b]| == ASSOCIATIVITY
    ensures buckets[b][a].count > 0 ==> Recordable(buckets[b][a])
    ensures buckets[b][a].count == 0 ==> buckets[b][a].stack == []
  {
    hide Hash;
  }

  /** A trace that the table has is counted. */
  lemma AccountHit(records: seq<Entry>, buckets: seq<seq<Entry>>, added: multiset<Trace>, output: seq<nat>, period: nat,
                   b: nat, a: nat)
    requires Account(records, buckets, added, output, period) && b < BUCKETS == |buckets| &&
      a < ASSOCIATIVITY == |buckets[b]|
    requires buckets[b][a].count > 0
    ensures var e := buckets[b][a];
      Account(records, buckets[b := buckets[b][a := Entry(e.count + 1, e.stack)]], added + multiset{e.stack}, output,
              period)
  {
    hide Hash, Samples, Hits, Encoded, Conserved, BucketOk;
    var e := buckets[b][a];
    HitOnce(e);
    Counted(buckets[b], b, a);
    EntryChanged(records, buckets, added, b, a, Entry(e.count + 1, e.stack), records, multiset{e.stack});
  }

  /** A trace that it does not have takes an entry, whose own samples go to the output. */
  lemma AccountTake(records: seq<Entry>, buckets: seq<seq<Entry>>, added: multiset<Trace>, output: seq<nat>,
                    period: nat, b: nat, a: nat, stack: Trace)
    requires Account(records, buckets, added, output, period) && b < BUCKETS == |buckets| &&
      a < ASSOCIATIVITY == |buckets[b]|
    requires 0 < |stack| <= MAX_STACK_DEPTH && Hash(stack) % BUCKETS == b
    requires forall c | 0 <= c < ASSOCIATIVITY :: buckets[b][c].stack != stack
    ensures var e := buckets[b][a]; var buckets' := buckets[b := buckets[b][a := Entry(1, stack)]];
      if e.count > 0 then Account(records + [e], buckets', added + multiset{stack}, output + Record(e), period)
      else Account(records, buckets', added + multiset{stack}, output, period)
  {
    hide Hash, Samples, Hits, Encoded, Conserved, BucketOk, Record, Header;
    var e := buckets[b][a];
    HitOnce(e);
    HitOnce(Entry(1, stack));
    AccountTable(records, buckets, added, output, period, b, a);
    Replaced(buckets[b], b, a, stack);
    RecordedSamples(records, e);
    if e.count > 0 {
      EntryChanged(records, buckets, added, b, a, Entry(1, stack), records + [e], multiset{stack});
      assert Header(period) + Encoded(records) + Record(e) == Header(period) + (Encoded(records) + Record(e));
    } else {
      EntryChanged(records, buckets, added, b, a, Entry(1, stack), records, multiset{stack});
    }
  }

  /** A live entry that is written out and forgotten. */
  lemma AccountClear(records: seq<Entry>, buckets: seq<seq<Entry>>, added: multiset<Trace>, output: seq<nat>,
                     period: nat, b: nat, a: nat)
    requires Account(records, buckets, added, output, period) && b < BUCKETS == |buckets| &&
      a < ASSOCIATIVITY == |buckets[b]|
    requires buckets[b][a].count > 0
    ensures var e := buckets[b][a];
      Account(records + [e], buckets[b := buckets[b][a := NO_ENTRY]], added, output + Record(e), period)
  {
    hide Hash, Samples, Hits, Encoded, Conserved, BucketOk, Record, Header;
    var e := buckets[b][a];
    HitOnce(e);
    AccountTable(records, buckets, added, output, period, b, a);
    Cleared(buckets[b], b, a);
    RecordedSamples(records, e);
    EntryChanged(records, buckets, added, b, a, NO_ENTRY, records + [e], multiset{});
    assert added + multiset{} == added;
    assert Header(period) + Encoded(records) + Record(e) == Header(period) + (Encoded(records) + Record(e));
  }

  class ProfileData {
    var enabled: bool
    var hash: array<seq<Entry>>
    var evict: array<nat>
    var numEvicted: nat
    var log: seq<nat>
    var count: int
    var evictions: int
    var totalBytes: int
    // what has gone to the eviction buffer, and every sample added, since Start
    ghost var period: nat
    ghost var records: seq<Entry>
    ghost var added: multiset<Trace>

    ghost predicate Valid()
      reads this, hash, evict
    {
      enabled ==>
        && evict.Length == BUFFER_LENGTH && numEvicted <= BUFFER_LENGTH
        && Account(records, hash[..], added, Output(), period)
        && totalBytes == 8 * |log|
    }

    /** What has been written, with what is waiting in the buffer. */
    ghost function Output(): seq<nat>
      reads this, evict
    {
      if numEvicted <= evict.Length then log + evict[..numEvicted] else log
    }

    constructor ()
      ensures Valid() && !enabled
    {
      enabled := false;
      hash := new seq<Entry>[0];
      evict := new nat[0];
      numEvicted, log := 0, [];
      count, evictions, totalBytes := 0, 0, 0;
      period, records, added := 0, [], multiset{};
    }

    /** Start; opens tells whether the output file can be opened. */
    method Start(frequency: nat, opens: bool) returns (ok: bool)
      requires Valid() && frequency > 0
      modifies this
      ensures Valid() && ok == (!old(enabled) && opens) && enabled == (old(enabled) || opens)
      ensures ok ==> fresh(hash) && fresh(evict) && records == [] && added == multiset{} && count == 0
      ensures ok ==> period == 1000000 / frequency && Output() == [0, 3, 0, period, 0]
      ensures ok ==> hash.Length == 1024 && evict.Length == 0x4_0000
      ensures !ok ==> unchanged(this)
    {
      if enabled {
        return false;
      }
      if !opens {
        return false;
      }
      Prepare(1000000 / frequency);
      enabled := true;
      ok := true;
    }

    /** Counters, table and buffer of a new profile, and its header. */
    method Prepare(usec: nat)
      modifies this
      ensures fresh(hash) && fresh(evict) && records == [] && added == multiset{} && count == 0 && period == usec
      ensures hash.Length == BUCKETS && evict.Length == BUFFER_LENGTH && numEvicted <= BUFFER_LENGTH
      ensures totalBytes == 8 * |log|
      ensures Account(records, hash[..], added, Output(), period) && Output() == Header(usec)
    {
      hide Account, Header, TableOk, Conserved;
      numEvicted, log := 0, [];
      count, evictions, totalBytes := 0, 0, 0;
      hash := NewTable();
      evict := new nat[BUFFER_LENGTH];
      period, records, added := usec, [], multiset{};
      FreshAccount(hash[..], usec);
      PushHeader(usec);
    }

    static method NewTable() returns (table: array<seq<Entry>>)
      ensures fresh(table) && table.Length == BUCKETS && TableOk(table[..]) && Conserved([], table[..], multiset{})
    {
      hide TableOk, Conserved;
      table := new seq<Entry>[BUCKETS](_ => NO_ENTRIES);
      EmptyTable(table[..]);
    }

    /** The special entries: count, depth, version, period and padding. */
    method PushHeader(usec: nat)
      requires numEvicted == 0 && log == [] && evict.Length == BUFFER_LENGTH
      modifies this`numEvicted, evict
      ensures numEvicted == 5 && Output() == Header(usec)
    {
      Push(0);
      Push(3);
      Push(0);
      Push(usec);
      Push(0);
    }

    /** evict_[num_evicted_++] = x. */
    method Push(x: nat)
      requires numEvicted < evict.Length
      modifies this`numEvicted, evict
      ensures numEvicted == old(numEvicted) + 1 && Output() == old(Output()) + [x]
    {
      evict[numEvicted] := x;
      numEvicted := numEvicted + 1;
    }

    method FlushEvicted()
      requires numEvicted <= evict.Length
      modifies this`log, this`numEvicted, this`totalBytes
      ensures numEvicted == 0 && Output() == log == old(Output())
      ensures totalBytes - 8 * |log| == old(totalBytes - 8 * |log|)
    {
      if numEvicted > 0 {
        totalBytes := totalBytes + 8 * numEvicted;
        log := log + evict[..numEvicted];
      }
      numEvicted := 0;
    }

    /** One record to the buffer, which is written out first if there is no room. */
    method Evict(e: Entry)
      requires evict.Length == BUFFER_LENGTH && numEvicted <= BUFFER_LENGTH && |e.stack| <= MAX_STACK_DEPTH
      modifies this`log, this`numEvicted, this`totalBytes, evict
      ensures numEvicted <= BUFFER_LENGTH && Output() == old(Output()) + Record(e)
      ensures Output() == old(Output()) + [e.count, |e.stack|] + e.stack
      ensures totalBytes - 8 * |log| == old(totalBytes - 8 * |log|)
    {
      var d := |e.stack|;
      if numEvicted + (d + 2) > BUFFER_LENGTH {
        FlushEvicted();
      }
      ghost var before := Output();
      Push(e.count);
      Push(d);
      PushStack(e.stack);
      assert before + [e.count] + [d] + Slots(e.stack) == before + Record(e);
    }

    /** The memcpy of the stack. */
    method PushStack(stack: Trace)
      requires numEvicted + |stack| <= evict.Length
      modifies this`numEvicted, evict
      ensures numEvicted == old(numEvicted) + |stack| && Output() == old(Output()) + Slots(stack)
    {
      ghost var before := Output();
      var i := 0;
      while i < |stack|
        invariant i <= |stack| && numEvicted == old(numEvicted) + i
        invariant Output() == before + Slots(stack)[..i]
      {
        assert Slots(stack)[..i + 1] == Slots(stack)[..i] + [stack[i]];
        Push(stack[i]);
        i := i + 1;
      }
      assert Slots(stack)[..i] == Slots(stack);
    }

    /** The entry of a bucket that has the trace; 4 if there is none. */
    method FindEntry(bucket: seq<Entry>, stack: Trace) returns (a: nat)
      requires |bucket| == ASSOCIATIVITY
      ensures a <= ASSOCIATIVITY && (a < ASSOCIATIVITY ==> bucket[a].stack == stack)
      ensures forall c | 0 <= c < a :: bucket[c].stack != stack
    {
      a := 0;
      while a < ASSOCIATIVITY && bucket[a].stack != stack
        invariant a <= ASSOCIATIVITY && forall c | 0 <= c < a :: bucket[c].stack != stack
      {
        a := a + 1;
      }
    }

    /** The first entry with the smallest count. */
    method Victim(bucket: seq<Entry>) returns (v: nat)
      requires |bucket| == ASSOCIATIVITY
      ensures v < ASSOCIATIVITY && SmallestFirst(bucket, v)
    {
      v := 0;
      var a := 1;
      while a < ASSOCIATIVITY
        invariant v < a <= ASSOCIATIVITY && forall c | 0 <= c < a :: bucket[v].count <= bucket[c].count
        invariant forall c | 0 <= c < v :: bucket[v].count < bucket[c].count
      {
        if bucket[a].count < bucket[v].count {
          v := a;
        }
        a := a + 1;
      }
    }

    /** One sample, of at most 64 frames: its trace is counted where it is, or takes the place of the
        first entry of its bucket with the smallest count, which goes to the output if it is in use.
        b is the bucket and a the entry. */
    method Add(depth: nat, frames: Trace) returns (ghost b: nat, ghost a: nat)
      requires Valid() && 0 < depth <= |frames|
      modifies this, hash, evict
      ensures Valid() && enabled == old(enabled) && period == old(period) && hash == old(hash) && evict == old(evict)
      ensures enabled ==>
        count == old(count) + 1 && added == old(added) + multiset{frames[..if depth <= 64 then depth else 64]}
      ensures enabled ==> b < |old(hash[..])| && a < |old(hash[b])|
      ensures enabled ==>
        var stack, e := frames[..if depth <= 64 then depth else 64], old(hash[b][a]);
        b == Hash(stack) % 1024 &&
        if exists c | 0 <= c < |old(hash[b])| :: old(hash[b])[c].stack == stack then
          && e.stack == stack && hash[..] == old(hash[..])[b := old(hash[b])[a := Entry(e.count + 1, stack)]]
          && records == old(records) && evictions == old(evictions)
        else
          && SmallestFirst(old(hash[b]), a) && hash[..] == old(hash[..])[b := old(hash[b])[a := Entry(1, stack)]]
          && records == old(records) + (if e.count > 0 then [e] else [])
          && evictions == old(evictions) + if e.count > 0 then 1 else 0
      ensures !enabled ==> unchanged(this) && hash[..] == old(hash[..])
    {
      hide Account, Hash, BucketOk, Samples, TableSamples, Encoded, Recordable;
      b, a := 0, 0;
      if !enabled {
        return;
      }
      var d := if depth > MAX_STACK_DEPTH then MAX_STACK_DEPTH else depth;
      var h := HashOf(frames, d);
      var stack := frames[..d];
      count := count + 1;
      var i := h % BUCKETS;
      ghost var table := hash[..];
      AccountTable(records, table, added, Output(), period, i, 0);
      var bucket := hash[i];
      var k := FindEntry(bucket, stack);
      b, a := i, k;
      if k < ASSOCIATIVITY {
        AccountTable(records, table, added, Output(), period, i, k);
        TraceIsLive(records, table, added, Output(), period, i, k);
        CountHit(i, k);
      } else {
        var v := Victim(bucket);
        a := v;
        AccountTable(records, table, added, Output(), period, i, v);
        TakeEntry(i, v, stack);
      }
    }

    /** The loop over the frames. */
    static method HashOf(frames: Trace, depth: nat) returns (h: nat)
      requires depth <= |frames|
      ensures h == Hash(frames[..depth])
    {
      hide Hash;
      h := 0;
      HashStep(frames, 0);
      for i := 0 to depth
        invariant h == Hash(frames[..i]) && h < WORD
      {
        HashStep(frames, i);
        var slot: int := frames[i];
        h := (h * 0x100 % WORD + h / 0x100_0000_0000_0000 + (slot * 31 + slot * 7 + slot * 3)) % WORD;
      }
    }

    method CountHit(b: nat, a: nat)
      requires Valid() && enabled && b < BUCKETS == hash.Length && a < ASSOCIATIVITY == |hash[b]| &&
        hash[b][a].count > 0
      modifies this`added, hash
      ensures Valid() && added == old(added + multiset{hash[b][a].stack})
      ensures var e := old(hash[b][a]); hash[..] == old(hash[..])[b := old(hash[b])[a := Entry(e.count + 1, e.stack)]]
    {
      hide Account;
      ghost var table := hash[..];
      AccountHit(records, table, added, Output(), period, b, a);
      var e := hash[b][a];
      hash[b] := hash[b][a := Entry(e.count + 1, e.stack)];
      assert hash[..] == table[b := hash[b]];
      added := added + multiset{e.stack};
    }

    /** The evicted entry, if it was in use, is used for the trace. */
    method TakeEntry(b: nat, v: nat, stack: Trace)
      requires Valid() && enabled && b < BUCKETS == hash.Length && v < ASSOCIATIVITY == |hash[b]|
      requires 0 < |stack| <= MAX_STACK_DEPTH && Hash(stack) % BUCKETS == b
      requires forall c | 0 <= c < ASSOCIATIVITY :: hash[b][c].stack != stack
      modifies this`added, this`records, this`evictions, this`log, this`numEvicted, this`totalBytes, hash, evict
      ensures Valid() && added == old(added) + multiset{stack}
      ensures evictions == old(evictions) + (if old(hash[b][v].count) > 0 then 1 else 0)
      ensures records == old(records) + (if old(hash[b][v].count) > 0 then [old(hash[b][v])] else [])
      ensures hash[..] == old(hash[..])[b := old(hash[b])[v := Entry(1, stack)]]
    {
      hide Account, Hash, Record;
      ghost var table := hash[..];
      AccountTable(records, table, added, Output(), period, b, v);
      AccountTake(records, table, added, Output(), period, b, v, stack);
      if hash[b][v].count > 0 {
        evictions := evictions + 1;
        records := records + [hash[b][v]];
        Evict(hash[b][v]);
      }
      hash[b] := hash[b][v := Entry(1, stack)];
      assert hash[..] == table[b := hash[b]];
      added := added + multiset{stack};
    }

    /** An entry that is in use goes to the output; table is what is left of the table. */
    method EvictLive(b: nat, a: nat, ghost table: seq<seq<Entry>>)
      requires evict.Length == BUFFER_LENGTH && numEvicted <= BUFFER_LENGTH
      requires b < BUCKETS == hash.Length == |table| && a < ASSOCIATIVITY == |hash[b]| == |table[b]|
      requires table[b][a] == hash[b][a]
      requires Account(records, table, added, Output(), period)
      modifies this`records, this`log, this`numEvicted, this`totalBytes, evict
      ensures numEvicted <= BUFFER_LENGTH && totalBytes - 8 * |log| == old(totalBytes - 8 * |log|)
      ensures Account(records, table[b := table[b][a := NO_ENTRY]], added, Output(), period)
    {
      hide Account, Record;
      AccountTable(records, table, added, Output(), period, b, a);
      var e := hash[b][a];
      if e.count > 0 {
        AccountClear(records, table, added, Output(), period, b, a);
        records := records + [e];
        Evict(e);
      } else {
        assert e == NO_ENTRY;
        assert table[b][a := NO_ENTRY] == table[b];
        assert table[b := table[b][a := NO_ENTRY]] == table;
      }
    }

    /** Every live entry goes to the output, and the buffer with it. */
    method FlushTable()
      requires Valid()
      modifies this`records, this`log, this`numEvicted, this`totalBytes, hash, evict
      ensures Valid() && (enabled ==> numEvicted == 0 && Output() == log && hash.Length == BUCKETS)
      ensures enabled ==> forall b | 0 <= b < BUCKETS :: hash[b] == NO_ENTRIES
    {
      hide Account;
      if !enabled {
        return;
      }
      AccountSizes(records, hash[..], added, Output(), period);
      var b := 0;
      while b < BUCKETS
        invariant b <= BUCKETS && Valid() && hash.Length == BUCKETS
        invariant forall c | 0 <= c < b :: hash[c] == NO_ENTRIES
      {
        FlushBucket(b);
        b := b + 1;
      }
      FlushEvicted();
    }

    method FlushBucket(b: nat)
      requires Valid() && enabled && b < BUCKETS == hash.Length
      modifies this`records, this`log, this`numEvicted, this`totalBytes, hash, evict
      ensures Valid() && hash[b] == NO_ENTRIES
      ensures forall c | 0 <= c < BUCKETS && c != b :: hash[c] == old(hash[c])
    {
      hide Account;
      AccountTable(records, hash[..], added, Output(), period, b, 0);
      var a := 0;
      while a < ASSOCIATIVITY
        invariant a <= ASSOCIATIVITY && Valid() && |hash[b]| == ASSOCIATIVITY
        invariant forall c | 0 <= c < a :: hash[b][c] == NO_ENTRY
        invariant forall c | 0 <= c < BUCKETS && c != b :: hash[c] == old(hash[c])
      {
        ghost var table := hash[..];
        EvictLive(b, a, table);
        hash[b] := hash[b][a := NO_ENTRY];
        assert hash[..] == table[b := hash[b]];
        a := a + 1;
      }
    }

    /** Stop, but for the list of libraries that is written after the profile. */
    method Stop()
      requires Valid()
      modifies this, evict
      ensures !enabled && count == old(count) && added == old(added) && period == old(period)
      ensures old(enabled) ==> log == [0, 3, 0, period, 0] + Encoded(records) + [0, 1, 0]
      ensures old(enabled) ==> DecodedProfile(log, period) == Some(records) && Samples(records) == added
      ensures old(enabled) ==> totalBytes == 8 * |log|
      ensures !old(enabled) ==> log == old(log)
    {
      hide Account, Samples, Header, Encoded, DecodedProfile, AllEmpty, TRAILER;
      if !enabled {
        return;
      }
      AccountSizes(records, hash[..], added, Output(), period);
      ghost var left := EvictTable();
      ghost var profile := Output();
      if numEvicted + 3 > BUFFER_LENGTH {
        FlushEvicted();
      }
      PushTrailer();
      FlushEvicted();
      AllAccounted(records, left, added, profile, period);
      Frame(period);
      enabled := false;
    }

    /** The end-of-data marker. */
    method PushTrailer()
      requires numEvicted + 3 <= evict.Length
      modifies this`numEvicted, evict
      ensures numEvicted == old(numEvicted) + 3 && Output() == old(Output()) + TRAILER
    {
      ghost var before := Output();
      Push(0);
      Push(1);
      Push(0);
      assert before + [0] + [1] + [0] == before + TRAILER;
    }

    /** The live entries of every bucket. */
    method EvictTable() returns (ghost left: seq<seq<Entry>>)
      requires evict.Length == BUFFER_LENGTH && numEvicted <= BUFFER_LENGTH && hash.Length == BUCKETS
      requires Account(records, hash[..], added, Output(), period) && totalBytes == 8 * |log|
      modifies this`records, this`log, this`numEvicted, this`totalBytes, evict
      ensures numEvicted <= BUFFER_LENGTH && totalBytes == 8 * |log|
      ensures Account(records, left, added, Output(), period) && AllEmpty(left)
    {
      hide Account;
      left := hash[..];
      var b := 0;
      while b < BUCKETS
        invariant b <= BUCKETS && |left| == BUCKETS && numEvicted <= BUFFER_LENGTH
        invariant forall c | 0 <= c < b :: left[c] == NO_ENTRIES
        invariant forall c | b <= c < BUCKETS :: left[c] == hash[c]
        invariant Account(records, left, added, Output(), period) && totalBytes == 8 * |log|
      {
        left := EvictBucket(b, left);
        b := b + 1;
      }
    }

    /** The entries of one bucket, which is not changed: the table is dropped afterwards. */
    method EvictBucket(b: nat, ghost table: seq<seq<Entry>>) returns (ghost left: seq<seq<Entry>>)
      requires evict.Length == BUFFER_LENGTH && numEvicted <= BUFFER_LENGTH && b < BUCKETS == hash.Length == |table|
      requires table[b] == hash[b] && Account(records, table, added, Output(), period) && totalBytes == 8 * |log|
      modifies this`records, this`log, this`numEvicted, this`totalBytes, evict
      ensures numEvicted <= BUFFER_LENGTH && totalBytes == 8 * |log|
      ensures left == table[b := NO_ENTRIES] && Account(records, left, added, Output(), period)
    {
      hide Account;
      AccountTable(records, table, added, Output(), period, b, 0);
      left := table;
      var a := 0;
      while a < ASSOCIATIVITY
        invariant a <= ASSOCIATIVITY && numEvicted <= BUFFER_LENGTH && totalBytes == 8 * |log| && |left| == BUCKETS
        invariant |left[b]| == ASSOCIATIVITY && left == table[b := left[b]]
        invariant forall c | 0 <= c < a :: left[b][c] == NO_ENTRY
        invariant forall c | a <= c < ASSOCIATIVITY :: left[b][c] == hash[b][c]
        invariant Account(records, left, added, Output(), period)
      {
        EvictLive(b, a, left);
        left := left[b := left[b][a := NO_ENTRY]];
        a := a + 1;
      }
      assert left[b] == NO_ENTRIES;
    }
  }

  const NO_ENTRIES: seq<Entry> := [NO_ENTRY, NO_ENTRY, NO_ENTRY, NO_ENTRY]

  predicate AllEmpty(buckets: seq<seq<Entry>>) {
    |buckets| == BUCKETS && forall b | 0 <= b < BUCKETS :: buckets[b] == NO_ENTRIES
  }

  lemma AccountSizes(records: seq<Entry>, buckets: seq<seq<Entry>>, added: multiset<Trace>, output: seq<nat>,
                     period: nat)
    requires Account(records, buckets, added, output, period)
    ensures |buckets| == BUCKETS
  {
  }

  /** With an empty table the output alone has every sample. */
  lemma AllAccounted(records: seq<Entry>, buckets: seq<seq<Entry>>, added: multiset<Trace>, output: seq<nat>,
                     period: nat)
    requires Account(records, buckets, added, output, period)
    requires AllEmpty(buckets)
    ensures output + TRAILER == Header(period) + Encoded(records) + TRAILER
    ensures DecodedProfile(output + TRAILER, period) == Some(records) && Samples(records) == added
  {
    hide Hash, Samples, Header, Encoded, DecodedProfile, TableSamples;
    EmptyTable(buckets);
    assert Samples(records) + multiset{} == Samples(records);
    ProfileReadsBack(records, period, TRAILER);
  }

  /** At any time, what has been written and what waits can be read back, and with the table it
      has every sample. */
  lemma AlwaysAccounted(records: seq<Entry>, buckets: seq<seq<Entry>>, added: multiset<Trace>, output: seq<nat>,
                        period: nat)
    requires Account(records, buckets, added, output, period)
    ensures DecodedProfile(output, period) == Some(records) && Samples(records) + TableSamples(buckets) == added
  {
    hide Hash, Samples, Header, Encoded, DecodedProfile, TableSamples, TableOk;
    ProfileReadsBack(records, period, []);
    assert Header(period) + Encoded(records) + [] == output;
  }

  /** A whole profile: the traces of all ticks can be read back from the log, each as often as it was
      met, cut after 64 frames. */
  method Profile(frequency: nat, ticks: seq<Trace>) returns (log: seq<nat>, ghost records: seq<Entry>)
    requires frequency > 0 && forall i | 0 <= i < |ticks| :: ticks[i] != []
    ensures DecodedProfile(log, 1000000 / frequency) == Some(records)
    ensures Samples(records) ==
      multiset(seq(|ticks|, i requires 0 <= i < |ticks| => ticks[i][..if |ticks[i]| <= 64 then |ticks[i]| else 64]))
  {
    hide Samples, DecodedProfile, ProfileData.Valid;
    ghost var traces :=
      seq(|ticks|, i requires 0 <= i < |ticks| => ticks[i][..if |ticks[i]| <= 64 then |ticks[i]| else 64]);
    var data := new ProfileData();
    var ok := data.Start(frequency, true);
    for i := 0 to |ticks|
      invariant data.Valid() && data.enabled && fresh(data) && fresh(data.hash) && fresh(data.evict)
      invariant data.period == 1000000 / frequency && data.added == multiset(traces[..i])
    {
      ghost var b, a := data.Add(|ticks[i]|, ticks[i]);
      assert traces[..i + 1] == traces[..i] + [traces[i]];
    }
    assert traces[..|ticks|] == traces;
    data.Stop();
    log, records := data.log, data.records;
  }

  /** The first entry with the smallest count. */
  predicate SmallestFirst(bucket: seq<Entry>, v: nat) {
    && v < |bucket| && (forall c | 0 <= c < |bucket| :: bucket[v].count <= bucket[c].count)
    && forall c | 0 <= c < v :: bucket[v].count < bucket[c].count
  }

  lemma HashStep(frames: Trace, i: nat)
    requires i <= |frames|
    ensures i == 0 ==> Hash(frames[..i]) == 0
    ensures i < |frames| ==>
      var h: int, slot: int := Hash(frames[..i]), frames[i];
      Hash(frames[..i + 1]) ==
        (h * 0x100 % WORD + h / 0x100_0000_0000_0000 + (slot * 31 + slot * 7 + slot * 3)) % WORD
  {
    if i < |frames| {
      assert frames[..i + 1][..i] == frames[..i];
    }
  }

  /** An entry with frames is in use. */
  lemma TraceIsLive(records: seq<Entry>, buckets: seq<seq<Entry>>, added: multiset<Trace>, output: seq<nat>,
                    period: nat, b: nat, a: nat)
    requires Account(records, buckets, added, output, period) && b < |buckets| && a < |buckets[b]|
    ensures buckets[b][a].stack != [] ==> buckets[b][a].count > 0
  {
    hide Hash;
  }

  lemma {:induction false} EmptyTable(buckets: seq<seq<Entry>>)
    requires forall b | 0 <= b < |buckets| :: buckets[b] == NO_ENTRIES
    ensures |buckets| == BUCKETS ==> TableOk(buckets)
    ensures TableSamples(buckets) == multiset{} && Conserved([], buckets, multiset{})
  {
    hide Hash;
    if buckets != [] {
      EmptyTable(buckets[..|buckets| - 1]);
      NoSamples(buckets[|buckets| - 1]);
    }
  }

  lemma {:induction false} NoSamples(entries: seq<Entry>)
    requires forall i | 0 <= i < |entries| :: entries[i] == NO_ENTRY
    ensures Samples(entries) == multiset{}
  {
    if entries != [] {
      HitOnce(NO_ENTRY);
      NoSamples(entries[..|entries| - 1]);
    }
  }

  lemma FreshAccount(buckets: seq<seq<Entry>>, period: nat)
    requires TableOk(buckets) && Conserved([], buckets, multiset{})
    ensures Account([], buckets, multiset{}, Header(period), period)
  {
    assert Header(period) + Encoded([]) == Header(period);
  }
}
