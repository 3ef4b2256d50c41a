/** HookList (malloc_hook-inl.h, malloc_hook.cc): seven words that Add and Remove change under a
    lock while Traverse reads them without it. First the calls on their own; then every
    interleaving of their single loads and stores. */
module Hooks {

  /** kHookListMaxValues. */
  const MAX_VALUES: nat := 7

  /** The published end is as low as it can be: zeroes from there on, and none just before. */
  predicate Tight(end: int, data: seq<int>) {
    && |data| == MAX_VALUES && 0 <= end <= MAX_VALUES
    && (forall j | end <= j < MAX_VALUES :: data[j] == 0)
    && (end > 0 ==> data[end - 1] != 0)
  }

  /** The index of the first x, or |data|. */
  function First(data: seq<int>, x: int): (i: nat)
    ensures i <= |data| && (i < |data| ==> data[i] == x) && forall j | 0 <= j < i :: data[j] != x
  {
    if data == [] || data[0] == x then 0 else 1 + First(data[1..], x)
  }

  lemma FirstIs(data: seq<int>, x: int, i: nat)
    requires i <= |data| && (forall j | 0 <= j < i :: data[j] != x) && (i < |data| ==> data[i] == x)
    ensures First(data, x) == i
  {
  }

  /** At most n hooks, in slot order. */
  function Listed(data: seq<int>, n: nat): seq<int> {
    if data == [] || n == 0 then []
    else if data[0] == 0 then Listed(data[1..], n)
    else [data[0]] + Listed(data[1..], n - 1)
  }

  /** They are the first n of the hooks, and all of them if there are not more. */
  lemma {:induction false} ListedAre(data: seq<int>, n: nat)
    ensures |Listed(data, n)| <= n && Listed(data, n) <= Listed(data, |data|)
    ensures |Listed(data, n)| < n ==> Listed(data, n) == Listed(data, |data|)
    ensures forall x: int ::
      multiset(Listed(data, |data|))[x] == if x == 0 then 0 else multiset(data)[x]
  {
    if data != [] {
      var rest := data[1..];
      assert data == [data[0]] + rest && multiset(data) == multiset{data[0]} + multiset(rest);
      ListedAre(rest, n);
      ListedAre(rest, |data|);
      ListedAre(rest, |rest|);
      assert Listed(rest, |data|) == Listed(rest, |rest|);
      if n > 0 {
        ListedAre(rest, n - 1);
        assert data[0] != 0 ==> Listed(data, n) == [data[0]] + Listed(rest, n - 1);
        assert data[0] != 0 ==> Listed(data, |data|) == [data[0]] + Listed(rest, |rest|);
      }
    }
  }

  lemma {:induction false} ListedZeroes(data: seq<int>, n: nat)
    requires forall j | 0 <= j < |data| :: data[j] == 0
    ensures Listed(data, n) == []
  {
    if data != [] {
      ListedZeroes(data[1..], n);
    }
  }

  class HookList {
    var privEnd: int
    const privData: array<int>

    ghost predicate Valid()
      reads this, privData
    {
      Tight(privEnd, privData[..])
    }

    /** INIT_HOOK_LIST, or INIT_HOOK_LIST_WITH_VALUE of a hook. */
    constructor (initial: int)
      ensures Valid() && privData[..] == [initial, 0, 0, 0, 0, 0, 0]
    {
      privData := new int[MAX_VALUES](i => if i == 0 then initial else 0);
      privEnd := if initial == 0 then 0 else 1;
    }

    method Add(value: int) returns (ok: bool)
      requires Valid()
      modifies this, privData
      ensures Valid()
      ensures ok <==> value != 0 && 0 in old(privData[..])
      ensures privData[..] == if ok then old(privData[..][First(privData[..], 0) := value]) else old(privData[..])
    {
      if value == 0 {
        return false;
      }
      var index := 0;
      while index < MAX_VALUES && privData[index] != 0
        invariant index <= MAX_VALUES && forall j | 0 <= j < index :: privData[j] != 0
      {
        index := index + 1;
      }
      FirstIs(privData[..], 0, index);
      if index == MAX_VALUES {
        return false;
      }
      assert privData[..][index] == 0;
      var numHooks := privEnd;
      privData[index] := value;
      if numHooks <= index {
        privEnd := index + 1;
      }
      return true;
    }

    method Remove(value: int) returns (ok: bool)
      requires Valid()
      modifies this, privData
      ensures Valid()
      ensures ok <==> value != 0 && value in old(privData[..])
      ensures privData[..] == if ok then old(privData[..][First(privData[..], value) := 0]) else old(privData[..])
    {
      if value == 0 {
        return false;
      }
      var hooksEnd := privEnd;
      var index := 0;
      while index < hooksEnd && value != privData[index]
        invariant index <= hooksEnd && forall j | 0 <= j < index :: privData[j] != value
      {
        index := index + 1;
      }
      if index == hooksEnd {
        return false;
      }
      assert privData[..][index] == value;
      FirstIs(privData[..], value, index);
      privData[index] := 0;
      if hooksEnd == index + 1 {
        hooksEnd := index;
        while hooksEnd > 0 && privData[hooksEnd - 1] == 0
          invariant 0 <= hooksEnd <= index
          invariant forall j | hooksEnd <= j < MAX_VALUES :: privData[j] == 0
        {
          hooksEnd := hooksEnd - 1;
        }
        privEnd := hooksEnd;
      }
      return true;
    }

    method Traverse(n: nat) returns (output: seq<int>)
      requires Valid()
      ensures output == Listed(privData[..], n)
    {
      var hooksEnd := privEnd;
      output := [];
      var left := n;
      var i := 0;
      while i < hooksEnd && left > 0
        invariant 0 <= i <= hooksEnd
        invariant Listed(privData[..], n) == output + Listed(privData[i..], left)
      {
        var data := privData[i];
        assert privData[i..] == [data] + privData[i + 1..];
        if data != 0 {
          output := output + [data];
          left := left - 1;
        }
        i := i + 1;
      }
      ListedZeroes(privData[hooksEnd..], left);
    }
  }

  /* ---- Every interleaving ---- */

  /** Where the thread that has the lock is, between two of its loads and stores. */
  datatype Writer =
    | Idle
    | AddScan(value: int, i: nat)                 // about to load data[i]
    | AddLoadEnd(value: int, i: nat)
    | AddStore(value: int, i: nat, seen: int)
    | AddPublish(i: nat, seen: int)               // about to store the end, if it has to
    | RemoveLoadEnd(value: int)
    | RemoveScan(value: int, i: nat, end: int)
    | RemoveStore(i: nat, end: int)
    | Lower(h: nat)                               // about to load data[h - 1]
    | RemovePublish(h: nat)

  /** A thread in Traverse: slots from which the values of out were loaded; and, for the proof,
      the slots that have not changed since it loaded the end, and all that was ever stored
      in a slot since. */
  datatype Reader =
    | Outside
    | Loading(n: nat)
    | Reading(n: nat, end: int, i: nat, left: nat, slots: seq<nat>, out: seq<int>,
              steady: map<nat, int>, present: set<(nat, int)>)

  datatype State = State(end: int, data: seq<int>, writer: Writer, reader: Reader)

  datatype Event = StartAdd(value: int) | StartRemove(value: int) | StartTraverse(n: nat) | Write | Read

  predicate Enabled(s: State, e: Event) {
    match e
    case StartAdd(v) => s.writer.Idle? && v != 0
    case StartRemove(v) => s.writer.Idle? && v != 0
    case StartTraverse(_) => s.reader.Outside?
    case Write => !s.writer.Idle?
    case Read => s.reader.Loading? || (s.reader.Reading? && !Finished(s.reader))
  }

  predicate Finished(r: Reader) {
    r.Reading? && (r.i >= r.end || r.left == 0)
  }

  /** A store to a slot, as the reader's history sees it. */
  function Stored(r: Reader, i: nat, x: int): Reader {
    if r.Reading? then r.(steady := r.steady - {i}, present := r.present + {(i, x)}) else r
  }

  function Occupied(data: seq<int>): map<nat, int> {
    map i: nat | i < |data| && data[i] != 0 :: data[i]
  }

  function Pairs(data: seq<int>): set<(nat, int)> {
    set i: nat | i < |data| :: (i, data[i])
  }

  function WriterStep(s: State): State
    requires |s.data| == MAX_VALUES && WriterInside(s.writer)
  {
    match s.writer
    case Idle => s
    case AddScan(v, i) =>
      if i == MAX_VALUES then s.(writer := Idle)
      else if s.data[i] != 0 then s.(writer := AddScan(v, i + 1))
      else s.(writer := AddLoadEnd(v, i))
    case AddLoadEnd(v, i) => s.(writer := AddStore(v, i, s.end))
    case AddStore(v, i, seen) =>
      s.(data := s.data[i := v], writer := AddPublish(i, seen), reader := Stored(s.reader, i, v))
    case AddPublish(i, seen) => s.(end := if seen <= i then i + 1 else s.end, writer := Idle)
    case RemoveLoadEnd(v) => s.(writer := RemoveScan(v, 0, s.end))
    case RemoveScan(v, i, end) =>
      if i == end then s.(writer := Idle)
      else if s.data[i] != v then s.(writer := RemoveScan(v, i + 1, end))
      else s.(writer := RemoveStore(i, end))
    case RemoveStore(i, end) =>
      s.(data := s.data[i := 0], writer := if end == i + 1 then Lower(i) else Idle, reader := Stored(s.reader, i, 0))
    case Lower(h) =>
      if h > 0 && s.data[h - 1] == 0 then s.(writer := Lower(h - 1)) else s.(writer := RemovePublish(h))
    case RemovePublish(h) => s.(end := h, writer := Idle)
  }

  predicate WriterInside(w: Writer) {
    match w
    case AddScan(_, i) => i <= MAX_VALUES
    case AddLoadEnd(_, i) => i < MAX_VALUES
    case AddStore(_, i, _) => i < MAX_VALUES
    case AddPublish(i, _) => i < MAX_VALUES
    case RemoveScan(_, i, end) => i <= end <= MAX_VALUES
    case RemoveStore(i, end) => i < end <= MAX_VALUES
    case Lower(h) => h <= MAX_VALUES
    case RemovePublish(h) => h <= MAX_VALUES
    case _ => true
  }

  function ReaderStep(s: State): Reader
    requires |s.data| == MAX_VALUES && Enabled(s, Read)
    requires s.reader.Reading? ==> s.reader.end <= MAX_VALUES
  {
    match s.reader
    case Outside => s.reader
    case Loading(n) => Reading(n, s.end, 0, n, [], [], Occupied(s.data), Pairs(s.data))
    case Reading(_, _, i, left, slots, out, _, _) =>
      if s.data[i] != 0 then s.reader.(i := i + 1, left := left - 1, slots := slots + [i], out := out + [s.data[i]])
      else s.reader.(i := i + 1)
  }

  function Apply(s: State, e: Event): State
    requires Inv(s) && Enabled(s, e)
  {
    match e
    case StartAdd(v) => s.(writer := AddScan(v, 0))
    case StartRemove(v) => s.(writer := RemoveLoadEnd(v))
    case StartTraverse(n) => s.(reader := Loading(n))
    case Write => WriterStep(s)
    case Read => s.(reader := ReaderStep(s))
  }

  /** What the data looks like at each point of Add and Remove. */
  predicate WriterInv(end: int, data: seq<int>, w: Writer)
    requires |data| == MAX_VALUES
  {
    match w
    case Idle => Tight(end, data)
    case AddScan(v, i) => Tight(end, data) && v != 0
    case AddLoadEnd(v, i) => Tight(end, data) && v != 0 && i < MAX_VALUES && data[i] == 0
    case AddStore(v, i, seen) => Tight(end, data) && v != 0 && i < MAX_VALUES && data[i] == 0 && seen == end
    case AddPublish(i, seen) =>
      && i < MAX_VALUES && seen == end && data[i] != 0 && 0 <= end <= MAX_VALUES
      && (forall j | end <= j < MAX_VALUES && j != i :: data[j] == 0)
      && (end > 0 ==> data[end - 1] != 0)
    case RemoveLoadEnd(v) => Tight(end, data) && v != 0
    case RemoveScan(v, i, e) => Tight(end, data) && v != 0 && e == end
    case RemoveStore(i, e) => Tight(end, data) && e == end && i < e
    case Lower(h) => 0 <= h < end <= MAX_VALUES && forall j | h <= j < MAX_VALUES :: data[j] == 0
    case RemovePublish(h) =>
      && 0 <= h < end <= MAX_VALUES && (forall j | h <= j < MAX_VALUES :: data[j] == 0)
      && (h > 0 ==> data[h - 1] != 0)
  }

  /** What the reader has so far. */
  predicate ReaderInv(data: seq<int>, r: Reader) {
    r.Reading? ==>
      && 0 <= r.i <= r.end <= MAX_VALUES && |r.slots| == |r.out| == r.n - r.left
      && (forall j | 0 <= j < |data| :: (j, data[j]) in r.present)
      && (forall j | j in r.steady :: j < |data| && r.steady[j] == data[j] != 0)
      && (forall k | 0 <= k < |r.out| :: r.slots[k] < r.i && (r.slots[k], r.out[k]) in r.present && r.out[k] != 0)
      && (forall k, l | 0 <= k < l < |r.slots| :: r.slots[k] < r.slots[l])
      && (forall j | j in r.steady && j < r.i :: Has(r, j))
  }

  /** The reader has put out what slot j holds. */
  predicate Has(r: Reader, j: nat)
    requires r.Reading? && |r.slots| == |r.out| && j in r.steady
  {
    exists k :: 0 <= k < |r.slots| && r.slots[k] == j && r.out[k] == r.steady[j]
  }

  predicate Inv(s: State) {
    && |s.data| == MAX_VALUES && WriterInside(s.writer)
    && WriterInv(s.end, s.data, s.writer) && ReaderInv(s.data, s.reader)
  }

  lemma StartKeeps(s: State, e: Event)
    requires Inv(s) && Enabled(s, e) && (e.StartAdd? || e.StartRemove? || e.StartTraverse?)
    ensures Inv(Apply(s, e))
  {
  }

  predicate WriterOk(s: State) {
    |s.data| == MAX_VALUES && WriterInside(s.writer) && WriterInv(s.end, s.data, s.writer)
  }

  lemma AddKeeps(s: State)
    requires WriterOk(s) && (s.writer.AddScan? || s.writer.AddLoadEnd? || s.writer.AddStore? || s.writer.AddPublish?)
    ensures WriterOk(WriterStep(s))
  {
    hide Stored;
  }

  lemma RemoveKeeps(s: State)
    requires WriterOk(s) && (s.writer.RemoveLoadEnd? || s.writer.RemoveScan? || s.writer.RemoveStore?)
    ensures WriterOk(WriterStep(s))
  {
    hide Stored;
  }

  lemma LowerKeeps(s: State)
    requires WriterOk(s) && (s.writer.Lower? || s.writer.RemovePublish? || s.writer.Idle?)
    ensures WriterOk(WriterStep(s))
  {
    hide Stored;
  }

  /** The writer's next load or store. */
  lemma WriterKeeps(s: State)
    requires WriterOk(s)
    ensures WriterOk(WriterStep(s))
  {
    hide WriterOk, WriterInv, Stored;
    match s.writer
    case RemoveLoadEnd(_) => RemoveKeeps(s);
    case RemoveScan(_, _, _) => RemoveKeeps(s);
    case RemoveStore(_, _) => RemoveKeeps(s);
    case Lower(_) => LowerKeeps(s);
    case RemovePublish(_) => LowerKeeps(s);
    case Idle => LowerKeeps(s);
    case _ => AddKeeps(s);
  }

  /** A store takes its slot out of the steady ones and puts its value among the present ones. */
  lemma StoredKeeps(data: seq<int>, r: Reader, i: nat, x: int)
    requires i < |data| && ReaderInv(data, r)
    ensures ReaderInv(data[i := x], Stored(r, i, x))
  {
    if r.Reading? {
      var r' := Stored(r, i, x);
      forall j | j in r'.steady && j < r'.i ensures Has(r', j) {
        assert Has(r, j);
      }
    }
  }

  lemma WriteKeeps(s: State)
    requires Inv(s) && Enabled(s, Write)
    ensures Inv(Apply(s, Write))
  {
    hide WriterInv, ReaderInv, WriterInside, Stored;
    WriterKeeps(s);
    StoreInside(s.writer);
    match s.writer
    case AddStore(v, i, _) => StoredKeeps(s.data, s.reader, i, v);
    case RemoveStore(i, _) => StoredKeeps(s.data, s.reader, i, 0);
    case _ =>
  }

  lemma StoreInside(w: Writer)
    requires WriterInside(w)
    ensures w.AddStore? || w.RemoveStore? ==> w.i < MAX_VALUES
  {
  }

  lemma ReadKeeps(s: State)
    requires Inv(s) && Enabled(s, Read)
    ensures Inv(Apply(s, Read))
  {
    var r, r' := s.reader, Apply(s, Read).reader;
    EndInside(s);
    if r.Reading? {
      forall j | j in r'.steady && j < r'.i ensures Has(r', j) {
        if j < r.i {
          assert Has(r, j);
          var k :| 0 <= k < |r.slots| && r.slots[k] == j && r.out[k] == r.steady[j];
          assert r'.slots[k] == j && r'.out[k] == r'.steady[j];
        } else {
          assert r'.slots[|r.slots|] == j;
        }
      }
    }
  }

  lemma EndInside(s: State)
    requires Inv(s)
    ensures 0 <= s.end <= MAX_VALUES
  {
  }

  lemma StepKeeps(s: State, e: Event)
    requires Inv(s) && Enabled(s, e)
    ensures Inv(Apply(s, e))
  {
    hide Inv, Apply;
    match e
    case Write => WriteKeeps(s);
    case Read => ReadKeeps(s);
    case _ => StartKeeps(s, e);
  }

  ghost predicate Possible(s: State, run: seq<Event>)
    requires Inv(s)
    decreases |run|
  {
    run == [] || (Enabled(s, run[0]) && (StepKeeps(s, run[0]); Possible(Apply(s, run[0]), run[1..])))
  }

  ghost function Outcome(s: State, run: seq<Event>): (s': State)
    requires Inv(s) && Possible(s, run)
    ensures Inv(s')
    decreases |run|
  {
    if run == [] then s
    else
      StepKeeps(s, run[0]);
      Outcome(Apply(s, run[0]), run[1..])
  }

  /* ---- What Traverse returns ---- */

  const NO_HOOKS := State(0, [0, 0, 0, 0, 0, 0, 0], Idle, Outside)

  lemma NoHooks()
    ensures Inv(NO_HOOKS)
  {
  }

  /** The first x from slot i on is replaced. */
  function Replaced(data: seq<int>, i: nat, x: int, y: int): seq<int>
    requires i <= |data|
  {
    var k := i + First(data[i..], x);
    if k < |data| then data[k := y] else data
  }

  /** The slots as the writer will leave them. */
  function Target(data: seq<int>, w: Writer): seq<int>
    requires |data| == MAX_VALUES && WriterInside(w)
  {
    match w
    case AddScan(v, i) => Replaced(data, i, 0, v)
    case AddLoadEnd(v, i) => data[i := v]
    case AddStore(v, i, _) => data[i := v]
    case RemoveLoadEnd(v) => Replaced(data, 0, v, 0)
    case RemoveScan(v, i, _) => Replaced(data, i, v, 0)
    case RemoveStore(i, _) => data[i := 0]
    case _ => data
  }

  lemma ReplacedAt(data: seq<int>, i: nat, x: int, y: int)
    requires i < |data|
    ensures Replaced(data, i, x, y) == if data[i] == x then data[i := y] else Replaced(data, i + 1, x, y)
  {
    assert data[i..][1..] == data[i + 1..];
  }

  lemma NothingReplaced(data: seq<int>, i: nat, x: int, y: int)
    requires i <= |data| && forall j | i <= j < |data| :: data[j] != x
    ensures Replaced(data, i, x, y) == data
  {
    FirstIs(data[i..], x, |data| - i);
  }

  /** No step changes what the writer is about to leave. */
  lemma TargetStays(s: State, e: Event)
    requires Inv(s) && Enabled(s, e) && !e.StartAdd? && !e.StartRemove?
    ensures var t := Apply(s, e);
      WriterOk(t) && Target(t.data, t.writer) == Target(s.data, s.writer)
  {
    hide Replaced, ReaderInv, ReaderStep, Stored;
    if e == Write {
      WriterKeeps(s);
      match s.writer
      case AddScan(v, i) =>
        if i < MAX_VALUES { ReplacedAt(s.data, i, 0, v); } else { NothingReplaced(s.data, i, 0, v); }
      case RemoveScan(v, i, end) =>
        if i < end { ReplacedAt(s.data, i, v, 0); } else { NothingReplaced(s.data, i, v, 0); }
      case _ =>
    }
  }

  lemma {:induction false} TargetReached(s: State, run: seq<Event>)
    requires Inv(s) && Possible(s, run)
    requires forall i | 0 <= i < |run| :: !run[i].StartAdd? && !run[i].StartRemove?
    ensures var t := Outcome(s, run); Target(t.data, t.writer) == Target(s.data, s.writer)
    decreases |run|
  {
    hide Apply, Target, WriterInv, ReaderInv, Enabled;
    if run != [] {
      StepKeeps(s, run[0]);
      TargetStays(s, run[0]);
      assert forall i | 0 <= i < |run[1..]| :: run[1..][i] == run[i + 1];
      TargetReached(Apply(s, run[0]), run[1..]);
    }
  }

  /** Whatever readers do meanwhile, once an Add or a Remove is over it has changed one slot, the first
      empty one or the first with its value, or none if there is no such slot. */
  lemma UpdateTakesEffect(s: State, e: Event, run: seq<Event>)
    requires Inv(s) && (e.StartAdd? || e.StartRemove?) && Enabled(s, e)
    requires Inv(Apply(s, e)) && Possible(Apply(s, e), run) && Outcome(Apply(s, e), run).writer.Idle?
    requires forall i | 0 <= i < |run| :: !run[i].StartAdd? && !run[i].StartRemove?
    ensures var x := if e.StartAdd? then 0 else e.value;
      Outcome(Apply(s, e), run).data ==
        if x in s.data then s.data[First(s.data, x) := if e.StartAdd? then e.value else 0] else s.data
  {
    hide Possible, Outcome, ReaderInv;
    TargetReached(Apply(s, e), run);
    assert s.data[0..] == s.data;
  }

  /** In every state of every run: whenever the lock is free, the end is tight. */
  lemma TightWhenFree(run: seq<Event>)
    requires Inv(NO_HOOKS) && Possible(NO_HOOKS, run)
    ensures var s := Outcome(NO_HOOKS, run); s.writer == Idle ==> Tight(s.end, s.data)
  {
    hide Possible;
  }

  /** An occupied slot is within the published end, except while the Add that filled it has
      yet to publish it. */
  lemma PublishedOrAdding(s: State, j: nat)
    requires Inv(s) && j < MAX_VALUES && s.data[j] != 0
    ensures j >= s.end <==> s.writer.AddPublish? && s.writer.i == j && s.writer.seen <= j
  {
  }

  /** When a traversal of any run ends: its values come from increasing slots below the end it
      read, each was in its slot at some moment of the traversal, there are at most n; and a slot
      that stayed as it was since the end was loaded is among them if and only if it lies below
      that end and not n slots before it were returned. */
  lemma TraverseReturns(s: State, run: seq<Event>)
    requires Inv(s) && Possible(s, run) && Finished(Outcome(s, run).reader)
    ensures var r := Outcome(s, run).reader;
      && |r.out| == |r.slots| <= r.n
      && (forall k, l | 0 <= k < l < |r.slots| :: r.slots[k] < r.slots[l])
      && (forall k | 0 <= k < |r.out| :: r.slots[k] < r.end && (r.slots[k], r.out[k]) in r.present)
      && (forall j | j in r.steady :: Has(r, j) <==> j < r.end && !FullBefore(r, j))
  {
    hide Outcome, Possible;
    var r := Outcome(s, run).reader;
    forall j | j in r.steady
      ensures Has(r, j) <==> j < r.end && !FullBefore(r, j)
    {
      if j < r.i {
        assert Has(r, j);
      }
    }
  }

  /** As many values as were asked for came from slots before j. */
  predicate FullBefore(r: Reader, j: nat)
    requires r.Reading?
  {
    |r.out| == r.n && forall k | 0 <= k < |r.slots| :: r.slots[k] < j
  }

  /** An Add has filled slot j and is yet to publish it. */
  predicate Unpublished(s: State, j: nat) {
    s.writer.AddPublish? && s.writer.i == j && s.writer.seen <= j
  }

  /** At the moment the end is loaded, the occupied slots below it are those that are published. */
  lemma SteadyIsCovered(s: State, j: nat)
    requires Inv(s) && s.reader.Loading? && j < MAX_VALUES && s.data[j] != 0
    ensures var r := Apply(s, Read).reader;
      r.end == s.end && j in r.steady && r.steady[j] == s.data[j] && (j < r.end <==> !Unpublished(s, j))
  {
    hide Inv;
    LoadingStep(s);
    PublishedOrAdding(s, j);
    assert j in Occupied(s.data);
  }

  /** The end that was loaded is not looked at again. */
  lemma {:induction false} EndStays(s: State, run: seq<Event>)
    requires Inv(s) && s.reader.Reading? && Possible(s, run)
    ensures var r := Outcome(s, run).reader;
      r.Reading? && r.end == s.reader.end && r.n == s.reader.n &&
      forall j | j in r.steady :: j in s.reader.steady && r.steady[j] == s.reader.steady[j]
    decreases |run|
  {
    hide Inv;
    if run != [] {
      StepKeeps(s, run[0]);
      ReadingStep(s, run[0]);
      EndStays(Apply(s, run[0]), run[1..]);
    }
  }

  lemma ReadingStep(s: State, e: Event)
    requires Inv(s) && s.reader.Reading? && Enabled(s, e)
    ensures var r := Apply(s, e).reader;
      r.Reading? && r.end == s.reader.end && r.n == s.reader.n &&
      forall j | j in r.steady :: j in s.reader.steady && r.steady[j] == s.reader.steady[j]
  {
  }

  /** A slot that is occupied when the end is loaded, and stays as it is until the traversal is
      over, is returned if and only if no Add was about to publish it at that moment and not n
      slots before it are returned. */
  lemma OccupiedIsReturned(s: State, run: seq<Event>, j: nat)
    requires Inv(s) && s.reader.Loading? && j < MAX_VALUES && s.data[j] != 0
    requires Possible(s, [Read] + run)
    requires var r := Outcome(s, [Read] + run).reader; Finished(r) && j in r.steady
    ensures var r := Outcome(s, [Read] + run).reader;
      && (Has(r, j) <==> !Unpublished(s, j) && !FullBefore(r, j))
      && (Has(r, j) ==> s.data[j] in r.out)
  {
    hide Inv, Has, FullBefore;
    var all := [Read] + run;
    assert all[0] == Read && all[1..] == run;
    SteadyIsCovered(s, j);
    StepKeeps(s, Read);
    EndStays(Apply(s, Read), run);
    TraverseReturns(s, all);
    var r := Outcome(s, all).reader;
    if Has(r, j) {
      HasValue(r, j);
    }
  }

  lemma HasValue(r: Reader, j: nat)
    requires r.Reading? && |r.slots| == |r.out| && j in r.steady && Has(r, j)
    ensures r.steady[j] in r.out
  {
  }

  lemma LoadingStep(s: State)
    requires Inv(s) && s.reader.Loading?
    ensures |s.data| == MAX_VALUES
  {
  }

  /** Being occupied all the time is not enough: here slot 0 is filled before the traversal
      starts, and still not returned. */
  lemma OccupiedButMissed()
    ensures Inv(NO_HOOKS)
    ensures var run := [StartAdd(5), Write, Write, Write, StartTraverse(7), Read, Write];
      && Possible(NO_HOOKS, run) && Finished(Outcome(NO_HOOKS, run).reader)
      && Outcome(NO_HOOKS, run).data[0] == 5 && Outcome(NO_HOOKS, run).end == 1
      && Outcome(NO_HOOKS, run).reader.steady == map[0 := 5] && Outcome(NO_HOOKS, run).reader.out == []
  {
    NoHooks();
  }
}
