/** The recursive lock of MemoryRegionMap (memory_region_map.cc), built from a spin lock and a
    recursion count under another: every interleaving of the steps of any number of threads. */
module RecursiveLock {
  import opened Options

  type Thread = nat

  const MAX_NESTING: nat := 5

  /** Between two steps of Lock: waiting for lock_, or holding it without having recorded it. */
  datatype Phase = Elsewhere | WantsLock | HasLock

  /** lock_, recursion_count_ and lock_owner_tid_; then, for each thread, where it is in Lock and
      how many calls of Lock it has not undone. */
  datatype State = State(lock: Option<Thread>, recursionCount: nat, owner: Thread,
                         phases: map<Thread, Phase>, depths: map<Thread, nat>)

  function PhaseOf(s: State, t: Thread): Phase {
    if t in s.phases then s.phases[t] else Elsewhere
  }

  function Depth(s: State, t: Thread): nat {
    if t in s.depths then s.depths[t] else 0
  }

  const FREE := State(None, 0, 0, map[], map[])

  /** Each event is one critical section of owner_lock_, or the acquisition of lock_. */
  datatype Event =
    | EnterLock(t: Thread)    // the first section of Lock
    | Acquire(t: Thread)      // lock_.Lock() returns
    | RecordOwner(t: Thread)  // the second section of Lock
    | Unlock(t: Thread)

  predicate Enabled(s: State, e: Event) {
    match e
    case EnterLock(t) => PhaseOf(s, t) == Elsewhere
    case Acquire(t) => PhaseOf(s, t) == WantsLock && s.lock == None
    case RecordOwner(t) => PhaseOf(s, t) == HasLock
    // a thread undoes only its own calls of Lock
    case Unlock(t) => PhaseOf(s, t) == Elsewhere && Depth(s, t) > 0
  }

  /** The test for the re-entrant path. */
  predicate Reenters(s: State, t: Thread) {
    s.recursionCount > 0 && s.owner == t
  }

  function Apply(s: State, e: Event): State {
    match e
    case EnterLock(t) =>
      if Reenters(s, t) then s.(recursionCount := s.recursionCount + 1, depths := s.depths[t := Depth(s, t) + 1])
      else s.(phases := s.phases[t := WantsLock])
    case Acquire(t) => s.(lock := Some(t), phases := s.phases[t := HasLock])
    case RecordOwner(t) =>
      s.(owner := t, recursionCount := 1, phases := s.phases[t := Elsewhere], depths := s.depths[t := Depth(s, t) + 1])
    case Unlock(t) =>
      var n := if s.recursionCount > 0 then s.recursionCount - 1 else 0;
      s.(recursionCount := n, lock := if n == 0 then None else s.lock,
          depths := s.depths[t := if Depth(s, t) > 0 then Depth(s, t) - 1 else 0])
  }

  /** The lock is free, or held but not recorded, or recorded by its owner; nobody else is in. */
  ghost predicate Inv(s: State) {
    && (s.lock == None ==> s.recursionCount == 0)
    && (s.recursionCount > 0 ==> s.lock == Some(s.owner))
    && (forall t: Thread :: PhaseOf(s, t) == HasLock <==> s.lock == Some(t) && s.recursionCount == 0)
    && (forall t: Thread :: Depth(s, t) == if s.recursionCount > 0 && t == s.owner then s.recursionCount else 0)
    && (forall t: Thread :: Depth(s, t) > 0 ==> PhaseOf(s, t) == Elsewhere)
  }

  /** What Lock and Unlock check at run time. */
  predicate Checks(s: State, e: Event) {
    match e
    case EnterLock(t) => Reenters(s, t) ==> s.lock != None && s.recursionCount + 1 <= MAX_NESTING
    case Acquire(_) => true
    case RecordOwner(_) => s.recursionCount == 0
    case Unlock(t) => s.recursionCount > 0 && s.lock != None && s.owner == t
  }

  /** The checks pass, but for a thread that is as deep inside as it may be and locks again. */
  lemma StepKeeps(s: State, e: Event)
    requires Inv(s) && Enabled(s, e)
    ensures Inv(Apply(s, e))
    ensures Checks(s, e) <==> !(e.EnterLock? && Depth(s, e.t) >= 5)
  {
    var s' := Apply(s, e);
    forall t: Thread
      ensures PhaseOf(s', t) == if t == e.t then PhaseOf(s', e.t) else PhaseOf(s, t)
      ensures Depth(s', t) == if t == e.t then Depth(s', e.t) else Depth(s, t)
    {
    }
    assert PhaseOf(s, e.t) == HasLock <==> s.lock == Some(e.t) && s.recursionCount == 0;
    assert Depth(s, e.t) > 0 ==> PhaseOf(s, e.t) == Elsewhere;
  }

  ghost predicate Possible(s: State, run: seq<Event>)
    decreases |run|
  {
    run == [] || (Enabled(s, run[0]) && Possible(Apply(s, run[0]), run[1..]))
  }

  ghost function Outcome(s: State, run: seq<Event>): State
    decreases |run|
  {
    if run == [] then s else Outcome(Apply(s, run[0]), run[1..])
  }

  lemma {:induction false} RunKeeps(s: State, run: seq<Event>)
    requires Inv(s) && Possible(s, run)
    ensures Inv(Outcome(s, run))
    decreases |run|
  {
    hide Inv;
    if run != [] {
      StepKeeps(s, run[0]);
      RunKeeps(Apply(s, run[0]), run[1..]);
    }
  }

  /** Inside: Lock has returned and Unlock has not undone it. */
  predicate Inside(s: State, t: Thread) {
    Depth(s, t) > 0
  }

  /** In every state of every run: at most one thread is inside; it is the recorded owner and the
      count is its nesting depth; the count is 0 when the lock is free; and the re-entrant path
      is taken by a thread if and only if it is inside. */
  lemma MutualExclusion(run: seq<Event>, t: Thread, u: Thread)
    requires Possible(FREE, run)
    ensures var s := Outcome(FREE, run);
      && (Inside(s, t) && Inside(s, u) ==> t == u)
      && (Inside(s, t) ==> s.lock == Some(t) && s.owner == t && s.recursionCount == Depth(s, t))
      && (s.lock == None ==> s.recursionCount == 0)
      && (Reenters(s, t) <==> Inside(s, t))
  {
    hide Outcome, Possible, Depth;
    FreeWell();
    RunKeeps(FREE, run);
  }

  lemma FreeWell()
    ensures Inv(FREE)
  {
  }

  /** LockIsHeld, as called by a thread. */
  predicate LockIsHeld(s: State, t: Thread) {
    s.lock != None && s.owner == t
  }

  /** It also says yes to the last owner while another thread has the lock without having
      recorded it yet. */
  lemma HeldOrStale(run: seq<Event>, t: Thread)
    requires Possible(FREE, run)
    ensures var s := Outcome(FREE, run);
      LockIsHeld(s, t) <==> Inside(s, t) || (s.owner == t && s.lock != None && PhaseOf(s, s.lock.value) == HasLock)
  {
    hide Outcome, Possible;
    FreeWell();
    RunKeeps(FREE, run);
  }

  lemma StaleOwner()
    ensures var run := [EnterLock(1), Acquire(1), RecordOwner(1), Unlock(1), EnterLock(2), Acquire(2)];
      Possible(FREE, run) && LockIsHeld(Outcome(FREE, run), 1) && !Inside(Outcome(FREE, run), 1)
  {
  }
}
