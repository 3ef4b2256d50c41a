/** The single-producer, single-consumer queue of q.c. First the calls on their own; then every
    interleaving of the loads and stores of one producer and one consumer. */
module MessageQueue {
  import opened Arithmetic

  /** Counters are 32-bit unsigned. */
  const WORD: nat := 0x1_0000_0000

  /* ---- Bits ---- */

  /** The bitwise conjunction. */
  function And(a: nat, b: nat): nat {
    if a == 0 || b == 0 then 0 else 2 * And(a / 2, b / 2) + if a % 2 == 1 && b % 2 == 1 then 1 else 0
  }

  predicate PowerOfTwo(n: nat) {
    n == 1 || (n > 1 && n % 2 == 0 && PowerOfTwo(n / 2))
  }

  lemma {:induction false} AndSelf(x: nat)
    ensures And(x, x) == x
  {
    if x > 0 {
      AndSelf(x / 2);
    }
  }

  /** is_power_2. */
  lemma {:induction false} PowerTest(n: nat)
    requires n > 0
    ensures And(n - 1, n) == 0 <==> PowerOfTwo(n)
  {
    if n > 1 {
      if n % 2 == 0 {
        assert (n - 1) / 2 == n / 2 - 1;
        PowerTest(n / 2);
      } else {
        assert (n - 1) / 2 == n / 2;
        AndSelf(n / 2);
      }
    }
  }

  /** Masking a counter is taking it modulo the size. */
  lemma {:induction false} Mask(x: nat, size: nat)
    requires PowerOfTwo(size)
    ensures And(x, size - 1) == x % size
  {
    if size > 1 && x > 0 {
      var m := size / 2;
      assert size == 2 * m && (size - 1) / 2 == m - 1 && (size - 1) % 2 == 1;
      Mask(x / 2, m);
      HalfMod(x, m);
    } else if x == 0 {
      ModIs(0, 0, size, 0);
    }
  }

  lemma HalfMod(x: nat, m: nat)
    requires m > 0
    ensures x % (2 * m) == 2 * (x / 2 % m) + x % 2
  {
    var q, r := x / 2 / m, x / 2 % m;
    assert x / 2 == q * m + r;
    Distribute(q, 2, 0, m);
    assert q * 2 * m == 2 * (q * m);
    ModIs(x, q, 2 * m, 2 * r + x % 2);
  }

  lemma {:induction false} PowerDivides(n: nat, p: nat)
    requires PowerOfTwo(n) && PowerOfTwo(p) && n <= p
    ensures p % n == 0
  {
    if n > 1 {
      PowerDivides(n / 2, p / 2);
      HalfMod(p, n / 2);
    }
  }

  lemma WordIsPower()
    ensures PowerOfTwo(WORD)
  {
    assert PowerOfTwo(0x1_0000) by {
      assert PowerOfTwo(0x100);
    }
    PowerTimes(0x1_0000, 0x1_0000);
  }

  lemma {:induction false} PowerTimes(a: nat, b: nat)
    requires PowerOfTwo(a) && PowerOfTwo(b)
    ensures PowerOfTwo(a * b)
  {
    if a > 1 {
      var m := a / 2;
      PowerTimes(m, b);
      PowerDoubled(m * b);
      assert a * b == 2 * (m * b);
    } else {
      assert 1 * b == b;
    }
  }

  lemma PowerDoubled(x: nat)
    requires PowerOfTwo(x)
    ensures PowerOfTwo(2 * x)
  {
  }

  /** A counter that has wrapped still gives the right slot. */
  lemma WrappedSlot(n: nat, size: nat)
    requires PowerOfTwo(size) && 0 < size <= WORD
    ensures n % WORD % size == n % size
  {
    hide PowerOfTwo;
    WordIsPower();
    PowerDivides(size, WORD);
    assert WORD == WORD / size * size + WORD % size;
    ModOfMod(n, WORD / size, size, WORD);
  }

  lemma ModOfMod(n: nat, k: nat, d: nat, w: nat)
    requires d > 0 && w > 0 && w == k * d
    ensures n % w % d == n % d
  {
    var q, r := n / w, n % w;
    var t := r / d;
    assert n == q * w + r && r == t * d + r % d;
    Distribute(q, k, t, d);
    ModIs(n, q * k + t, d, r % d);
  }

  /* ---- The calls ---- */

  datatype Slot<M> = Slot(d: M, inUse: bool)

  datatype Error = OK | BADSIZE | MALLOCERR | FULL | EMPTY

  /** The messages numbered from deq up to enq are in the slots of their numbers modulo the
      size, and no other slot is in use. */
  predicate Holds<M(==)>(slots: seq<Slot<M>>, enqueued: seq<M>, deq: nat) {
    && |slots| > 0 && deq <= |enqueued| < deq + |slots|
    && (forall n | deq <= n < |enqueued| :: slots[n % |slots|] == Slot(enqueued[n], true))
    && (forall i | 0 <= i < |slots| && slots[i].inUse :: exists n :: deq <= n < |enqueued| && n % |slots| == i)
  }

  /** Fewer than size numbers apart, equal slots mean equal numbers. */
  lemma SlotsDiffer(a: nat, b: nat, size: nat)
    requires size > 0 && a <= b < a + size && a % size == b % size
    ensures a == b
  {
    var i, j := a / size, b / size;
    assert a == i * size + a % size && b == j * size + b % size;
    if i + 1 <= j {
      MulMono(i + 1, j, size);
      Distribute(i, 1, 1, size);
    } else {
      MulMono(j, i, size);
    }
  }

  lemma NextSlot(n: nat, size: nat)
    requires size > 1
    ensures (n % size + 1) % size == (n + 1) % size
  {
    var q, r := n / size, n % size;
    assert n == q * size + r;
    if r + 1 == size {
      Distribute(q, 1, 1, size);
      ModIs(n + 1, q + 1, size, 0);
      ModIs(r + 1, 1, size, 0);
    } else {
      ModIs(n + 1, q, size, r + 1);
      ModIs(r + 1, 0, size, r + 1);
    }
  }

  /** The slot after the next one to be filled is in use exactly when the queue has size - 1
      messages; the next one to be emptied, exactly when it has any. */
  lemma SlotTests<M>(slots: seq<Slot<M>>, enqueued: seq<M>, deq: nat)
    requires |slots| > 1 && Holds(slots, enqueued, deq)
    ensures slots[(|enqueued| + 1) % |slots|].inUse <==> |enqueued| - deq == |slots| - 1
    ensures slots[deq % |slots|].inUse <==> deq < |enqueued|
    ensures !slots[|enqueued| % |slots|].inUse
  {
    var size, e := |slots|, |enqueued|;
    if slots[(e + 1) % size].inUse {
      var n :| deq <= n < e && n % size == (e + 1) % size;
      if n + size > e + 1 {
        SlotsDiffer(n, e + 1, size);
      }
    }
    if e - deq == size - 1 {
      Around(deq, size);
      assert slots[deq % size] == Slot(enqueued[deq], true);
    }
    if slots[deq % size].inUse {
      var n :| deq <= n < e && n % size == deq % size;
    }
    if slots[e % size].inUse {
      var n :| deq <= n < e && n % size == e % size;
      SlotsDiffer(n, e, size);
    }
  }

  lemma Around(n: nat, size: nat)
    requires size > 0
    ensures (n + size) % size == n % size
  {
    var q := n / size;
    assert n == q * size + n % size;
    Distribute(q, 1, 1, size);
    ModIs(n + size, q + 1, size, n % size);
  }

  lemma Filled<M>(slots: seq<Slot<M>>, enqueued: seq<M>, deq: nat, m: M)
    requires Holds(slots, enqueued, deq) && |enqueued| + 1 < deq + |slots|
    ensures Holds(slots[|enqueued| % |slots| := Slot(m, true)], enqueued + [m], deq)
  {
    var size, e := |slots|, |enqueued|;
    var slots', all := slots[e % size := Slot(m, true)], enqueued + [m];
    forall n | deq <= n < |all| ensures slots'[n % size] == Slot(all[n], true) {
      if n < e && n % size == e % size {
        SlotsDiffer(n, e, size);
      }
    }
    forall i | 0 <= i < size && slots'[i].inUse ensures exists n :: deq <= n < |all| && n % size == i {
      if i == e % size {
        assert deq <= e < |all|;
      } else {
        var n :| deq <= n < e && n % size == i;
        assert deq <= n < |all|;
      }
    }
  }

  lemma Emptied<M>(slots: seq<Slot<M>>, enqueued: seq<M>, deq: nat, d: M)
    requires Holds(slots, enqueued, deq) && deq < |enqueued|
    ensures Holds(slots[deq % |slots| := Slot(d, false)], enqueued, deq + 1)
  {
    var size, e := |slots|, |enqueued|;
    var slots' := slots[deq % size := Slot(d, false)];
    forall n | deq + 1 <= n < e ensures slots'[n % size] == Slot(enqueued[n], true) {
      if n % size == deq % size {
        SlotsDiffer(deq, n, size);
      }
    }
    forall i | 0 <= i < size && slots'[i].inUse ensures exists n :: deq + 1 <= n < e && n % size == i {
      var n :| deq <= n < e && n % size == i;
    }
  }

  /** A slot that is not in use may hold anything. */
  lemma Stored<M>(slots: seq<Slot<M>>, enqueued: seq<M>, deq: nat, i: nat, m: M)
    requires Holds(slots, enqueued, deq) && i < |slots| && !slots[i].inUse
    ensures Holds(slots[i := Slot(m, false)], enqueued, deq)
  {
    var slots' := slots[i := Slot(m, false)];
    forall j | 0 <= j < |slots| && slots'[j].inUse ensures exists n :: deq <= n < |enqueued| && n % |slots| == j {
      assert slots[j].inUse;
    }
  }

  class Queue<M(==)> {
    var enqCnt: nat
    var deqCnt: nat
    const msgs: array<Slot<M>>
    const sizeMask: nat
    // all the messages ever accepted, and how many of them have been handed out
    ghost var enqueued: seq<M>
    ghost var taken: nat

    ghost predicate Valid()
      reads this, msgs
    {
      && 1 < msgs.Length <= WORD && PowerOfTwo(msgs.Length) && sizeMask == msgs.Length - 1
      && enqCnt == |enqueued| % WORD && deqCnt == taken % WORD
      && Holds(msgs[..], enqueued, taken)
    }

    constructor (size: nat, filler: M)
      requires 1 < size <= WORD && PowerOfTwo(size)
      ensures Valid() && fresh(msgs) && msgs.Length == size && enqueued == [] && taken == 0
    {
      msgs := new Slot<M>[size](_ => Slot(filler, false));
      sizeMask := size - 1;
      enqCnt, deqCnt := 0, 0;
      enqueued, taken := [], 0;
    }

    /** q_create of an unsigned size; the allocations of the queue and of its messages may fail. */
    static method Create(size: nat, filler: M, gotQueue: bool, gotMessages: bool)
      returns (error: Error, q: Queue?<M>)
      requires size < WORD
      ensures error == BADSIZE <==> size <= 1 || !PowerOfTwo(size)
      ensures error == OK <==> size > 1 && PowerOfTwo(size) && gotQueue && gotMessages
      ensures error == OK ==> q != null && fresh(q) && q.Valid() && fresh(q.msgs)
      ensures error == OK ==> q.msgs.Length == size && q.enqueued == []
      ensures error !in {OK, BADSIZE} ==> error == MALLOCERR
      ensures error != OK ==> q == null
    {
      if size <= 1 {
        return BADSIZE, null;
      }
      PowerTest(size);
      if And(size - 1, size) != 0 {
        return BADSIZE, null;
      }
      if !gotQueue {
        return MALLOCERR, null;
      }
      if !gotMessages {
        return MALLOCERR, null;
      }
      q := new Queue(size, filler);
      error := OK;
    }

    method Enq(m: M) returns (error: Error)
      requires Valid()
      modifies this, msgs
      ensures Valid() && taken == old(taken)
      ensures error == (if |old(enqueued)| - taken == msgs.Length - 1 then FULL else OK)
      ensures enqueued == if error == OK then old(enqueued) + [m] else old(enqueued)
    {
      hide And, PowerOfTwo, Holds;
      var size := msgs.Length;
      var tail := And(enqCnt, sizeMask);
      var nextTail := And(tail + 1, sizeMask);
      Counted(msgs[..], enqueued, taken);
      CountedSlot(|enqueued|, size);
      SlotTests(msgs[..], enqueued, taken);
      if msgs[nextTail].inUse {
        return FULL;
      }
      Filled(msgs[..], enqueued, taken, m);
      ghost var slots := msgs[..];
      msgs[tail] := Slot(m, msgs[tail].inUse);
      msgs[tail] := Slot(msgs[tail].d, true);
      assert msgs[..] == slots[tail := Slot(m, true)];
      enqCnt := (enqCnt + 1) % WORD;
      NextCount(|enqueued|);
      enqueued := enqueued + [m];
      error := OK;
    }

    method Deq() returns (error: Error, m: M)
      requires Valid()
      modifies this, msgs
      ensures Valid() && enqueued == old(enqueued)
      ensures error == (if old(taken) == |enqueued| then EMPTY else OK)
      ensures error == OK ==> m == enqueued[old(taken)] && taken == old(taken) + 1
      ensures error != OK ==> taken == old(taken)
    {
      hide And, PowerOfTwo, Holds;
      var size := msgs.Length;
      var head := And(deqCnt, sizeMask);
      Counted(msgs[..], enqueued, taken);
      CountedSlot(taken, size);
      SlotTests(msgs[..], enqueued, taken);
      m := msgs[head].d;
      if !msgs[head].inUse {
        return EMPTY, m;
      }
      Front(msgs[..], enqueued, taken);
      Emptied(msgs[..], enqueued, taken, m);
      msgs[head] := Slot(msgs[head].d, false);
      deqCnt := (deqCnt + 1) % WORD;
      NextCount(taken);
      taken := taken + 1;
      error := OK;
    }

    method IsEmpty() returns (b: bool)
      requires Valid()
      ensures b <==> taken == |enqueued|
    {
      hide And, PowerOfTwo, Holds;
      Counted(msgs[..], enqueued, taken);
      CountedSlot(taken, msgs.Length);
      SlotTests(msgs[..], enqueued, taken);
      var head := And(deqCnt, sizeMask);
      b := !msgs[head].inUse;
    }

    method IsFull() returns (b: bool)
      requires Valid()
      ensures b <==> |enqueued| - taken == msgs.Length - 1
    {
      hide And, PowerOfTwo, Holds;
      Counted(msgs[..], enqueued, taken);
      CountedSlot(|enqueued|, msgs.Length);
      SlotTests(msgs[..], enqueued, taken);
      var tail := And(enqCnt, sizeMask);
      b := msgs[And(tail + 1, sizeMask)].inUse;
    }
  }

  lemma Counted<M>(slots: seq<Slot<M>>, enqueued: seq<M>, deq: nat)
    requires Holds(slots, enqueued, deq)
    ensures deq <= |enqueued| < deq + |slots|
  {
  }

  lemma Front<M>(slots: seq<Slot<M>>, enqueued: seq<M>, deq: nat)
    requires Holds(slots, enqueued, deq) && deq < |enqueued|
    ensures slots[deq % |slots|] == Slot(enqueued[deq], true)
  {
  }

  /** The slot of the n-th message, and the one after it, from a 32-bit counter. */
  lemma CountedSlot(n: nat, size: nat)
    requires 1 < size <= WORD && PowerOfTwo(size)
    ensures And(n % WORD, size - 1) == n % size
    ensures And(n % size + 1, size - 1) == (n + 1) % size
  {
    Mask(n % WORD, size);
    WrappedSlot(n, size);
    Mask(n % size + 1, size);
    NextSlot(n, size);
  }

  lemma NextCount(n: nat)
    ensures (n % WORD + 1) % WORD == (n + 1) % WORD
  {
  }

  /* ---- Every interleaving ---- */

  /** Between two loads or stores of q_enq. */
  datatype Producer<M> =
    | Resting
    | LoadTail(m: M)
    | CheckNext(m: M, tail: nat)
    | StoreMessage(m: M, tail: nat)
    | StoreInUse(m: M, tail: nat)
    | CountUp

  /** Between two loads or stores of q_deq. */
  datatype Consumer<M> =
    | Waiting
    | LoadHead
    | CheckHead(head: nat)
    | LoadMessage(head: nat)
    | ClearInUse(head: nat, m: M)
    | CountDown

  /** The shared words and the threads; a message counts as enqueued once its slot is marked in
      use, and as dequeued once the mark is cleared. */
  datatype State<M> = State(
    slots: seq<Slot<M>>, enqCnt: nat, deqCnt: nat, producer: Producer<M>, consumer: Consumer<M>,
    enqueued: seq<M>, dequeued: seq<M>)

  datatype Event<M> = StartEnq(m: M) | StartDeq | Produce | Consume

  predicate Enabled<M>(s: State<M>, e: Event<M>) {
    match e
    case StartEnq(_) => s.producer.Resting?
    case StartDeq => s.consumer.Waiting?
    case Produce => !s.producer.Resting?
    case Consume => !s.consumer.Waiting?
  }

  predicate Inv<M(==)>(s: State<M>) {
    var size, e, d := |s.slots|, |s.enqueued|, |s.dequeued|;
    && 1 < size <= WORD && PowerOfTwo(size)
    && Holds(s.slots, s.enqueued, d) && s.dequeued <= s.enqueued
    && ProducerInv(s) && ConsumerInv(s)
  }

  predicate ProducerInv<M(==)>(s: State<M>)
    requires |s.slots| > 0
  {
    var size, e, d := |s.slots|, |s.enqueued|, |s.dequeued|;
    && (if s.producer.CountUp? then e > 0 && s.enqCnt == (e - 1) % WORD else s.enqCnt == e % WORD)
    && match s.producer
      case CheckNext(_, tail) => tail == e % size
      case StoreMessage(_, tail) => tail == e % size && e + 1 < d + size
      case StoreInUse(m, tail) => tail == e % size && e + 1 < d + size && s.slots[tail] == Slot(m, false)
      case _ => true
  }

  predicate ConsumerInv<M(==)>(s: State<M>)
    requires |s.slots| > 0
  {
    var size, e, d := |s.slots|, |s.enqueued|, |s.dequeued|;
    && (if s.consumer.CountDown? then d > 0 && s.deqCnt == (d - 1) % WORD else s.deqCnt == d % WORD)
    && match s.consumer
      case CheckHead(head) => head == d % size
      case LoadMessage(head) => head == d % size && d < e
      case ClearInUse(head, m) => head == d % size && d < e && m == s.enqueued[d]
      case _ => true
  }

  function ProducerStep<M>(s: State<M>): State<M>
    requires |s.slots| > 0
    requires match s.producer
      case StoreMessage(_, tail) => tail < |s.slots|
      case StoreInUse(_, tail) => tail < |s.slots|
      case _ => true
  {
    var mask := |s.slots| - 1;
    match s.producer
    case Resting => s
    case LoadTail(m) => s.(producer := CheckNext(m, And(s.enqCnt, mask)))
    case CheckNext(m, tail) =>
      var next := And(tail + 1, mask);
      if next < |s.slots| && s.slots[next].inUse then s.(producer := Resting) else s.(producer := StoreMessage(m, tail))
    case StoreMessage(m, tail) =>
      s.(slots := s.slots[tail := Slot(m, s.slots[tail].inUse)], producer := StoreInUse(m, tail))
    case StoreInUse(m, tail) =>
      s.(slots := s.slots[tail := Slot(s.slots[tail].d, true)], producer := CountUp, enqueued := s.enqueued + [m])
    case CountUp => s.(enqCnt := (s.enqCnt + 1) % WORD, producer := Resting)
  }

  function ConsumerStep<M>(s: State<M>): State<M>
    requires |s.slots| > 0
    requires match s.consumer
      case CheckHead(head) => head < |s.slots|
      case LoadMessage(head) => head < |s.slots|
      case ClearInUse(head, _) => head < |s.slots|
      case _ => true
  {
    match s.consumer
    case Waiting => s
    case LoadHead => s.(consumer := CheckHead(And(s.deqCnt, |s.slots| - 1)))
    case CheckHead(head) => s.(consumer := if s.slots[head].inUse then LoadMessage(head) else Waiting)
    case LoadMessage(head) => s.(consumer := ClearInUse(head, s.slots[head].d))
    case ClearInUse(head, m) =>
      s.(slots := s.slots[head := Slot(s.slots[head].d, false)], consumer := CountDown, dequeued := s.dequeued + [m])
    case CountDown => s.(deqCnt := (s.deqCnt + 1) % WORD, consumer := Waiting)
  }

  function Apply<M>(s: State<M>, e: Event<M>): State<M>
    requires Inv(s) && Enabled(s, e)
  {
    match e
    case StartEnq(m) => s.(producer := LoadTail(m))
    case StartDeq => s.(consumer := LoadHead)
    case Produce => ProducerStep(s)
    case Consume => ConsumerStep(s)
  }

  lemma ProduceKeeps<M>(s: State<M>)
    requires Inv(s) && Enabled(s, Produce)
    ensures Inv(ProducerStep(s))
  {
    hide And, PowerOfTwo, Holds;
    var size, e, d := |s.slots|, |s.enqueued|, |s.dequeued|;
    Counted(s.slots, s.enqueued, d);
    CountedSlot(e, size);
    SlotTests(s.slots, s.enqueued, d);
    match s.producer
    case StoreMessage(m, tail) =>
      Stored(s.slots, s.enqueued, d, tail, m);
    case StoreInUse(m, tail) =>
      Filled(s.slots, s.enqueued, d, m);
    case CountUp => NextCount(e - 1);
    case _ =>
  }

  lemma ConsumeKeeps<M>(s: State<M>)
    requires Inv(s) && Enabled(s, Consume)
    ensures Inv(ConsumerStep(s))
  {
    hide And, PowerOfTwo, Holds;
    var size, e, d := |s.slots|, |s.enqueued|, |s.dequeued|;
    Counted(s.slots, s.enqueued, d);
    CountedSlot(d, size);
    SlotTests(s.slots, s.enqueued, d);
    match s.consumer
    case LoadMessage(head) => Front(s.slots, s.enqueued, d);
    case ClearInUse(head, m) => Emptied(s.slots, s.enqueued, d, s.slots[head].d);
    case CountDown => NextCount(d - 1);
    case _ =>
  }

  lemma StepKeeps<M>(s: State<M>, e: Event<M>)
    requires Inv(s) && Enabled(s, e)
    ensures Inv(Apply(s, e))
  {
    match e
    case Produce => ProduceKeeps(s);
    case Consume => ConsumeKeeps(s);
    case _ =>
  }

  ghost predicate Possible<M>(s: State<M>, run: seq<Event<M>>)
    requires Inv(s)
    decreases |run|
  {
    run == [] || (Enabled(s, run[0]) && (StepKeeps(s, run[0]); Possible(Apply(s, run[0]), run[1..])))
  }

  ghost function Outcome<M>(s: State<M>, run: seq<Event<M>>): (s': State<M>)
    requires Inv(s) && Possible(s, run)
    ensures Inv(s')
    decreases |run|
  {
    if run == [] then s
    else
      StepKeeps(s, run[0]);
      Outcome(Apply(s, run[0]), run[1..])
  }

  function Created<M>(size: nat, filler: M): State<M> {
    State(seq(size, _ => Slot(filler, false)), 0, 0, Resting, Waiting, [], [])
  }

  lemma CreatedWell<M>(size: nat, filler: M)
    requires 1 < size <= WORD && PowerOfTwo(size)
    ensures Inv(Created(size, filler))
  {
  }

  /** In every state of every run: what has come out is a prefix of what has gone in, at most
      size - 1 messages are held, and the counters, wrapped, are at most one behind. */
  lemma InOrder<M>(size: nat, filler: M, run: seq<Event<M>>)
    requires 1 < size <= WORD && PowerOfTwo(size)
    requires Inv(Created(size, filler)) && Possible(Created(size, filler), run)
    ensures var s := Outcome(Created(size, filler), run);
      && s.dequeued <= s.enqueued && |s.enqueued| - |s.dequeued| < |s.slots|
      && s.enqCnt == (|s.enqueued| - if s.producer.CountUp? then 1 else 0) % 0x1_0000_0000
      && s.deqCnt == (|s.dequeued| - if s.consumer.CountDown? then 1 else 0) % 0x1_0000_0000
  {
    hide Outcome, Possible, Created, PowerOfTwo;
  }

  /** A full queue is reported exactly when size - 1 messages are held at the moment of the
      check, and an empty one when none is. */
  lemma Reports<M>(s: State<M>)
    requires Inv(s)
    ensures s.producer.CheckNext? ==>
      (ProducerStep(s).producer.Resting? <==> |s.enqueued| - |s.dequeued| == |s.slots| - 1)
    ensures s.consumer.CheckHead? ==>
      (ConsumerStep(s).consumer.Waiting? <==> s.dequeued == s.enqueued)
  {
    hide And, PowerOfTwo, Holds;
    Counted(s.slots, s.enqueued, |s.dequeued|);
    CountedSlot(|s.enqueued|, |s.slots|);
    SlotTests(s.slots, s.enqueued, |s.dequeued|);
  }

  /** A message that its producer has stored but not counted may be dequeued and counted: then,
      and only then, the count of dequeued messages is ahead of the other, and by one. Otherwise
      the difference of the counters, unsigned, is at most the size. */
  lemma CountAhead<M>(size: nat, filler: M, run: seq<Event<M>>)
    requires 1 < size <= WORD / 2 && PowerOfTwo(size)
    requires Inv(Created(size, filler)) && Possible(Created(size, filler), run)
    ensures var s := Outcome(Created(size, filler), run);
      var ahead := s.producer.CountUp? && !s.consumer.CountDown? && s.dequeued == s.enqueued;
      && (s.deqCnt == (s.enqCnt + 1) % WORD <==> ahead)
      && (!ahead ==> (s.enqCnt - s.deqCnt) % WORD <= size)
  {
    hide Outcome, Possible, PowerOfTwo, Inv;
    var s := Outcome(Created(size, filler), run);
    InOrder(size, filler, run);
    SlotsStay(Created(size, filler), run);
    CountersApart(size, |s.enqueued|, |s.dequeued|,
                  if s.producer.CountUp? then 1 else 0, if s.consumer.CountDown? then 1 else 0);
    assert s.dequeued == s.enqueued <==> |s.dequeued| == |s.enqueued|;
  }

  lemma CountersApart(size: nat, e: nat, d: nat, i: nat, j: nat)
    requires 1 < size <= WORD / 2 && d <= e < d + size && i <= 1 && j <= 1
    ensures (d - j) % WORD == ((e - i) % WORD + 1) % WORD <==> i == 1 && j == 0 && d == e
    ensures !(i == 1 && j == 0 && d == e) ==> ((e - i) % WORD - (d - j) % WORD) % WORD <= size
  {
    var n := e - i - (d - j);
    Wrapped(e - i, d - j, n);
  }

  lemma Wrapped(a: int, b: int, n: int)
    requires n == a - b && -1 <= n <= WORD / 2
    ensures (a % WORD - b % WORD) % WORD == n % WORD
    ensures b % WORD == (a % WORD + 1) % WORD <==> n == -1
  {
  }

  lemma SizeStays<M>(s: State<M>, e: Event<M>)
    requires Inv(s) && Enabled(s, e)
    ensures |Apply(s, e).slots| == |s.slots|
  {
    hide And, PowerOfTwo, Holds;
  }

  lemma {:induction false} SlotsStay<M>(s: State<M>, run: seq<Event<M>>)
    requires Inv(s) && Possible(s, run)
    ensures |Outcome(s, run).slots| == |s.slots|
    decreases |run|
  {
    hide Inv, Enabled, Apply;
    if run != [] {
      StepKeeps(s, run[0]);
      SizeStays(s, run[0]);
      SlotsStay(Apply(s, run[0]), run[1..]);
    }
  }

  lemma {:induction false} InTwoParts<M>(s: State<M>, a: seq<Event<M>>, b: seq<Event<M>>)
    requires Inv(s) && Possible(s, a) && Possible(Outcome(s, a), b)
    ensures Possible(s, a + b) && Outcome(s, a + b) == Outcome(Outcome(s, a), b)
    decreases |a|
  {
    hide Inv, Apply, Enabled;
    if a == [] {
      assert a + b == b;
    } else {
      StepKeeps(s, a[0]);
      assert (a + b)[0] == a[0] && (a + b)[1..] == a[1..] + b;
      InTwoParts(Apply(s, a[0]), a[1..], b);
    }
  }

  const ENQUEUE: seq<Event<int>> := [StartEnq(7), Produce, Produce, Produce, Produce]
  const LOAD: seq<Event<int>> := [StartDeq, Consume, Consume]
  const CLEAR: seq<Event<int>> := [Consume, Consume, Consume]
  const ENQUEUED: State<int> := State([Slot(7, true), Slot(0, false)], 0, 0, CountUp, Waiting, [7], [])
  const LOADING: State<int> := ENQUEUED.(consumer := LoadMessage(0))
  const DEQUEUED: State<int> := State([Slot(7, false), Slot(0, false)], 0, 1, CountUp, Waiting, [7], [7])

  lemma AllButCounted()
    ensures Inv(Created(2, 0)) && Possible(Created(2, 0), ENQUEUE)
    ensures Outcome(Created(2, 0), ENQUEUE) == ENQUEUED
  {
    CreatedWell(2, 0);
    assert Created(2, 0).slots == [Slot(0, false), Slot(0, false)];
  }

  lemma Loaded()
    ensures Inv(ENQUEUED) ==> Possible(ENQUEUED, LOAD) && Outcome(ENQUEUED, LOAD) == LOADING
  {
  }

  lemma Cleared()
    ensures Inv(LOADING) ==> Possible(LOADING, CLEAR) && Outcome(LOADING, CLEAR) == DEQUEUED
  {
  }

  /** So it does happen. */
  lemma AheadOnce()
    ensures Inv(Created(2, 0)) && Possible(Created(2, 0), ENQUEUE + (LOAD + CLEAR))
    ensures var s := Outcome(Created(2, 0), ENQUEUE + (LOAD + CLEAR)); s.enqCnt == 0 && s.deqCnt == 1
  {
    hide Inv, Possible, Outcome, Created;
    AllButCounted();
    Loaded();
    Cleared();
    InTwoParts(ENQUEUED, LOAD, CLEAR);
    InTwoParts(Created(2, 0), ENQUEUE, LOAD + CLEAR);
  }
}
