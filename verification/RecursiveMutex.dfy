/** The recursive mutex (kernel/src/locking/recursive_mutex.cpp) over the spinning
    semaphore (kernel/src/locking/semaphore.cpp), as a state machine in which every load,
    store and atomic read-modify-write of a shared variable is one step of one thread.
    Any number of threads interleave in any order. */
module RecursiveMutex {

  /** Thread ids are non-zero: 0 in `owner` means "nobody". */
  type Tid = t: int | t > 0 witness 1

  /** What an idle thread does next. */
  datatype Call = Lock | Unlock | TryLock

  /** The shared access a thread performs next. `++f_recursion` is not atomic in the source,
      so it is a load followed by a store. */
  datatype Pc =
    | Idle
    | LockAdd                   // lock: fetch_add(f_counter, 1)
    | LockReadOwner             // lock: somebody is ahead, compare f_owner with our id
    | AcquireSpin               // acquire: load f_current, wait while it is <= 0
    | AcquireTake               // acquire: fetch_add(f_current, -1)
    | AcquireGiveBack           // acquire: took too much, fetch_add(f_current, 1)
    | LockSetOwner              // lock, try_lock: f_owner = tid
    | LockReadRecursion         // lock, try_lock: load half of ++f_recursion
    | LockWriteRecursion(n: int)
    | UnlockCheckOwner          // unlock: ASSERT(tid == f_owner)
    | UnlockReadRecursion       // unlock: load half of --f_recursion
    | UnlockWriteRecursion(n: int)
    | UnlockClearOwner          // unlock: the last level, f_owner = 0
    | UnlockSub(r: int)         // unlock: fetch_add(f_counter, -1)
    | Release                   // release: fetch_add(f_current, 1), ASSERT(old < f_max)
    | TryReadOwner              // try_lock: compare f_owner with our id
    | TryAdd                    // try_lock: already ours, fetch_add(f_counter, 1)
    | TryCompareExchange        // try_lock: CAS(f_counter, 0, 1)
    | PanicNotOwner             // the assertion in unlock failed
    | PanicOverRelease          // the assertion in release failed

  /** The call a thread is in, or has last made: its depth when it began, and what a try_lock()
      answered. */
  datatype Record = NoCall | Called(call: Call, before: nat, answer: bool)

  /** `depth` counts the levels of the mutex this thread has taken and not given up; `depth` and
      `record` are never read by a step. */
  datatype Local = Local(pc: Pc, depth: nat, record: Record)

  datatype State = State(counter: int, recursion: int, owner: int, current: int, threads: map<Tid, Local>)

  const SEMAPHORE_MAX := 1
  const INITIAL := State(0, 0, 0, 0, map[])

  function LocalOf(s: State, t: Tid): Local {
    if t in s.threads then s.threads[t] else Local(Idle, 0, NoCall)
  }

  function Goto(s: State, t: Tid, pc: Pc): State {
    s.(threads := s.threads[t := LocalOf(s, t).(pc := pc)])
  }

  function GotoDepth(s: State, t: Tid, pc: Pc, depth: nat): State {
    s.(threads := s.threads[t := LocalOf(s, t).(pc := pc, depth := depth)])
  }

  /** A call begins. */
  function Begin(s: State, t: Tid, call: Call, pc: Pc): State {
    s.(threads := s.threads[t := Local(pc, LocalOf(s, t).depth, Called(call, LocalOf(s, t).depth, false))])
  }

  /** A call ends; a try_lock() answers. */
  function Return(s: State, t: Tid, answer: bool): State {
    var r := LocalOf(s, t).record;
    s.(threads := s.threads[t := LocalOf(s, t).(pc := Idle, record := if r.Called? then r.(answer := answer) else r)])
  }

  /** The next step of thread `t`; `call` matters only when `t` is idle. */
  function Exec(s: State, t: Tid, call: Call): State {
    var l := LocalOf(s, t);
    match l.pc
    case Idle =>
      (match call
       case Lock => Begin(s, t, call, LockAdd)
       case Unlock => Begin(s, t, call, UnlockCheckOwner)
       case TryLock => Begin(s, t, call, TryReadOwner))
    // lock()
    case LockAdd => Goto(s, t, if s.counter > 0 then LockReadOwner else LockSetOwner).(counter := s.counter + 1)
    case LockReadOwner => Goto(s, t, if t != s.owner then AcquireSpin else LockSetOwner)
    case LockSetOwner => Goto(s, t, LockReadRecursion).(owner := t)
    case LockReadRecursion => Goto(s, t, LockWriteRecursion(s.recursion + 1))
    case LockWriteRecursion(n) => Return(GotoDepth(s, t, l.pc, l.depth + 1), t, true).(recursion := n)
    // Semaphore::acquire()
    case AcquireSpin => if s.current <= 0 then Goto(s, t, AcquireSpin) else Goto(s, t, AcquireTake)
    case AcquireTake => Goto(s, t, if s.current > 0 then LockSetOwner else AcquireGiveBack).(current := s.current - 1)
    case AcquireGiveBack => Goto(s, t, AcquireSpin).(current := s.current + 1)
    // unlock()
    case UnlockCheckOwner => Goto(s, t, if s.owner == t then UnlockReadRecursion else PanicNotOwner)
    case UnlockReadRecursion => Goto(s, t, UnlockWriteRecursion(s.recursion - 1))
    case UnlockWriteRecursion(n) =>
      GotoDepth(s, t, if n == 0 then UnlockClearOwner else UnlockSub(n), if l.depth > 0 then l.depth - 1 else 0)
        .(recursion := n)
    case UnlockClearOwner => Goto(s, t, UnlockSub(0)).(owner := 0)
    case UnlockSub(r) => Goto(s, t, if s.counter > 1 && r == 0 then Release else Idle).(counter := s.counter - 1)
    // Semaphore::release()
    case Release => Goto(s, t, if s.current < SEMAPHORE_MAX then Idle else PanicOverRelease).(current := s.current + 1)
    // try_lock()
    case TryReadOwner => Goto(s, t, if s.owner == t then TryAdd else TryCompareExchange)
    case TryAdd => Goto(s, t, LockReadRecursion).(counter := s.counter + 1)
    case TryCompareExchange =>
      if s.counter == 0 then Goto(s, t, LockSetOwner).(counter := 1) else Return(s, t, false)
    case PanicNotOwner => s
    case PanicOverRelease => s
  }

  datatype Turn = Turn(tid: Tid, call: Call)

  /** The state after an arbitrary schedule. */
  function Run(s: State, schedule: seq<Turn>): State
    decreases |schedule|
  {
    if schedule == [] then s
    else
      var last := schedule[|schedule| - 1];
      Exec(Run(s, schedule[..|schedule| - 1]), last.tid, last.call)
  }

  // ----- Who has the mutex -----

  /** The thread is between winning the mutex and giving it up. */
  predicate Inside(l: Local) {
    l.depth > 0 || l.pc.LockSetOwner? || l.pc.LockReadRecursion? || l.pc.LockWriteRecursion?
    || l.pc.UnlockClearOwner? || l.pc.UnlockSub?
  }

  /** The thread has announced itself in `counter` and does not have the mutex. */
  predicate Waiting(l: Local) {
    l.depth == 0 && (l.pc.LockReadOwner? || l.pc.AcquireSpin? || l.pc.AcquireTake? || l.pc.AcquireGiveBack?)
  }

  /** What an inside thread contributes to `counter`: its depth, plus a level being taken or dropped. */
  function Units(l: Local): nat {
    l.depth + if l.pc.LockReadOwner? || l.pc.LockSetOwner? || l.pc.LockReadRecursion? || l.pc.LockWriteRecursion?
                 || l.pc.UnlockClearOwner? || l.pc.UnlockSub? then 1 else 0
  }

  ghost function Waiters(s: State): set<Tid> {
    set t | t in s.threads && Waiting(s.threads[t])
  }

  /** Threads that drove the semaphore below its true value and still owe the add-back. */
  ghost function Owing(s: State): set<Tid> {
    set t | t in s.threads && s.threads[t].pc.AcquireGiveBack?
  }

  /** Where the right to run is. */
  datatype Baton = Nobody | Held(tid: Tid) | Token | Releasing(tid: Tid)

  /** Facts about one thread's program counter and registers. */
  predicate LocalInv(l: Local, recursion: int) {
    match l.pc
    case AcquireSpin | AcquireTake | AcquireGiveBack | Release | UnlockClearOwner | TryCompareExchange | PanicNotOwner => l.depth == 0
    case LockWriteRecursion(n) => n == recursion + 1
    case UnlockReadRecursion => l.depth > 0
    case UnlockWriteRecursion(n) => l.depth > 0 && n == recursion - 1
    case UnlockSub(r) => r == l.depth
    case TryAdd => l.depth > 0
    case PanicOverRelease => false
    case _ => true
  }

  /** The owner field is set: from the store in lock() to the store of 0 in unlock(). */
  predicate OwnerSet(l: Local) {
    l.depth > 0 || l.pc.LockReadRecursion? || l.pc.LockWriteRecursion? || l.pc.UnlockClearOwner?
  }

  ghost predicate Inv(s: State, b: Baton) {
    && (forall t | t in s.threads :: LocalInv(s.threads[t], s.recursion))
    && (forall t | t in s.threads :: Inside(s.threads[t]) <==> b == Held(t))
    && (forall t | t in s.threads :: s.threads[t].pc.Release? <==> b == Releasing(t))
    && (b.Held? || b.Releasing? ==> b.tid in s.threads)
    && s.owner == (if b.Held? && OwnerSet(s.threads[b.tid]) then b.tid else 0)
    && s.recursion == (if b.Held? then s.threads[b.tid].depth else 0)
    && s.counter == |Waiters(s)| + (if b.Held? then Units(s.threads[b.tid]) else 0)
    && s.current + |Owing(s)| == (if b.Token? then 1 else 0)
    && (b.Token? || b.Releasing? ==> Waiters(s) != {})
    && (b.Nobody? ==> Waiters(s) == {})
  }

  lemma CardWith(a: set<Tid>, t: Tid, b: set<Tid>, present: bool)
    requires b == if present then a + {t} else a - {t}
    ensures |b| == |a| + (if present then 1 else 0) - (if t in a then 1 else 0)
  {
  }

  /** Changing one thread changes the two counted sets by at most that thread. */
  lemma WaitersAfterUpdate(s: State, t: Tid, l: Local, s': State)
    requires s'.threads == s.threads[t := l]
    ensures |Waiters(s')| == |Waiters(s)| + (if Waiting(l) then 1 else 0) - (if Waiting(LocalOf(s, t)) then 1 else 0)
  {
    assert Waiters(s') == if Waiting(l) then Waiters(s) + {t} else Waiters(s) - {t};
    CardWith(Waiters(s), t, Waiters(s'), Waiting(l));
  }

  lemma OwingAfterUpdate(s: State, t: Tid, l: Local, s': State)
    requires s'.threads == s.threads[t := l]
    ensures |Owing(s')| == |Owing(s)| + (if l.pc.AcquireGiveBack? then 1 else 0)
                           - (if LocalOf(s, t).pc.AcquireGiveBack? then 1 else 0)
  {
    assert Owing(s') == if l.pc.AcquireGiveBack? then Owing(s) + {t} else Owing(s) - {t};
    CardWith(Owing(s), t, Owing(s'), l.pc.AcquireGiveBack?);
  }

  /** A thread can only move the baton to or from itself, the semaphore or nobody. */
  predicate MovesBaton(b: Baton, t: Tid, b': Baton) {
    b' == b || ((b.Nobody? || b.Token? || b.tid == t) && (b'.Nobody? || b'.Token? || b'.tid == t))
  }

  /** The invariant after a step of `t`, from facts about `t` and the totals alone. */
  lemma InvAfterStepOf(s: State, b: Baton, t: Tid, s': State, b': Baton)
    requires Inv(s, b)
    requires t in s'.threads && s'.threads == s.threads[t := s'.threads[t]]
    requires MovesBaton(b, t, b')
    requires s'.recursion == s.recursion || b == Held(t)
    requires LocalInv(s'.threads[t], s'.recursion)
    requires Inside(s'.threads[t]) <==> b' == Held(t)
    requires s'.threads[t].pc.Release? <==> b' == Releasing(t)
    ensures forall u | u in s'.threads :: LocalInv(s'.threads[u], s'.recursion)
    ensures forall u | u in s'.threads :: Inside(s'.threads[u]) <==> b' == Held(u)
    ensures forall u | u in s'.threads :: s'.threads[u].pc.Release? <==> b' == Releasing(u)
  {
  }

  /** How a step of `t` moves the baton. */
  ghost function NextBaton(s: State, t: Tid, b: Baton): Baton {
    match LocalOf(s, t).pc
    case LockAdd => if s.counter > 0 then b else Held(t)
    case AcquireTake => if s.current > 0 then Held(t) else b
    case UnlockSub(r) => if r != 0 then b else if s.counter > 1 then Releasing(t) else Nobody
    case Release => Token
    case TryCompareExchange => if s.counter == 0 then Held(t) else b
    case _ => b
  }

  /** The invariant after a step of `t` in terms of the old counts. */
  lemma CountsAndInv(s: State, b: Baton, t: Tid, l: Local, s': State, b': Baton)
    requires Inv(s, b)
    requires s'.threads == s.threads[t := l]
    requires MovesBaton(b, t, b')
    requires s'.recursion == s.recursion || b == Held(t)
    requires LocalInv(l, s'.recursion)
    requires Inside(l) <==> b' == Held(t)
    requires l.pc.Release? <==> b' == Releasing(t)
    requires s'.owner == if b'.Held? && OwnerSet(s'.threads[b'.tid]) then b'.tid else 0
    requires s'.recursion == if b'.Held? then s'.threads[b'.tid].depth else 0
    ensures t in Waiters(s) <==> Waiting(LocalOf(s, t))
    ensures t in Waiters(s') <==> Waiting(l)
    ensures |Waiters(s')| == |Waiters(s)| + (if Waiting(l) then 1 else 0) - (if Waiting(LocalOf(s, t)) then 1 else 0)
    ensures |Owing(s')| == |Owing(s)| + (if l.pc.AcquireGiveBack? then 1 else 0)
                           - (if LocalOf(s, t).pc.AcquireGiveBack? then 1 else 0)
    ensures (&& s'.counter == |Waiters(s')| + (if b'.Held? then Units(s'.threads[b'.tid]) else 0)
             && s'.current + |Owing(s')| == (if b'.Token? then 1 else 0)
             && (b'.Token? || b'.Releasing? ==> |Waiters(s')| > 0)
             && (b'.Nobody? ==> |Waiters(s')| == 0)) ==> Inv(s', b')
  {
    WaitersAfterUpdate(s, t, l, s');
    OwingAfterUpdate(s, t, l, s');
    InvAfterStepOf(s, b, t, s', b');
  }

  /** Calling an operation. */
  lemma CallSteps(s: State, t: Tid, call: Call, b: Baton)
    requires Inv(s, b)
    requires LocalOf(s, t).pc.Idle?
    ensures Inv(Exec(s, t, call), NextBaton(s, t, b))
  {
    var s', b' := Exec(s, t, call), NextBaton(s, t, b);
    CountsAndInv(s, b, t, s'.threads[t], s', b');
  }

  /** The steps that only look at the owner. */
  lemma OwnerTests(s: State, t: Tid, call: Call, b: Baton)
    requires Inv(s, b)
    requires LocalOf(s, t).pc.UnlockCheckOwner? || LocalOf(s, t).pc.TryReadOwner?
    ensures Inv(Exec(s, t, call), NextBaton(s, t, b))
  {
    var s', b' := Exec(s, t, call), NextBaton(s, t, b);
    CountsAndInv(s, b, t, s'.threads[t], s', b');
  }

  /** Announcing oneself in lock(), alone or behind somebody. */
  lemma LockSteps(s: State, t: Tid, call: Call, b: Baton)
    requires Inv(s, b)
    requires LocalOf(s, t).pc.LockAdd? || LocalOf(s, t).pc.LockReadOwner?
    ensures Inv(Exec(s, t, call), NextBaton(s, t, b))
  {
    var s', b' := Exec(s, t, call), NextBaton(s, t, b);
    CountsAndInv(s, b, t, s'.threads[t], s', b');
  }

  /** Announcing oneself in try_lock(). */
  lemma TryLockSteps(s: State, t: Tid, call: Call, b: Baton)
    requires Inv(s, b)
    requires LocalOf(s, t).pc.TryAdd? || LocalOf(s, t).pc.TryCompareExchange?
    ensures Inv(Exec(s, t, call), NextBaton(s, t, b))
  {
    var s', b' := Exec(s, t, call), NextBaton(s, t, b);
    CountsAndInv(s, b, t, s'.threads[t], s', b');
  }

  /** The semaphore's acquire loop. */
  lemma AcquireSteps(s: State, t: Tid, call: Call, b: Baton)
    requires Inv(s, b)
    requires LocalOf(s, t).pc.AcquireSpin? || LocalOf(s, t).pc.AcquireTake? || LocalOf(s, t).pc.AcquireGiveBack?
    ensures Inv(Exec(s, t, call), NextBaton(s, t, b))
  {
    var s', b' := Exec(s, t, call), NextBaton(s, t, b);
    CountsAndInv(s, b, t, s'.threads[t], s', b');
  }

  /** The stores made after the mutex is won. */
  lemma TakingSteps(s: State, t: Tid, call: Call, b: Baton)
    requires Inv(s, b)
    requires LocalOf(s, t).pc.LockSetOwner? || LocalOf(s, t).pc.LockReadRecursion? || LocalOf(s, t).pc.LockWriteRecursion?
    ensures Inv(Exec(s, t, call), NextBaton(s, t, b))
  {
    var s', b' := Exec(s, t, call), NextBaton(s, t, b);
    CountsAndInv(s, b, t, s'.threads[t], s', b');
  }

  /** The stores made before the mutex is given up. */
  lemma UnlockSteps(s: State, t: Tid, call: Call, b: Baton)
    requires Inv(s, b)
    requires LocalOf(s, t).pc.UnlockReadRecursion? || LocalOf(s, t).pc.UnlockWriteRecursion? || LocalOf(s, t).pc.UnlockClearOwner?
    ensures Inv(Exec(s, t, call), NextBaton(s, t, b))
  {
    var s', b' := Exec(s, t, call), NextBaton(s, t, b);
    CountsAndInv(s, b, t, s'.threads[t], s', b');
  }

  /** Giving the mutex up, to nobody or through the semaphore. */
  lemma HandOverSteps(s: State, t: Tid, call: Call, b: Baton)
    requires Inv(s, b)
    requires LocalOf(s, t).pc.UnlockSub? || LocalOf(s, t).pc.Release?
    ensures Inv(Exec(s, t, call), NextBaton(s, t, b))
  {
    var s', b' := Exec(s, t, call), NextBaton(s, t, b);
    CountsAndInv(s, b, t, s'.threads[t], s', b');
  }

  /** Every atomic step of every thread keeps the invariant. */
  lemma StepKeepsInv(s: State, t: Tid, call: Call, b: Baton)
    requires Inv(s, b)
    ensures Inv(Exec(s, t, call), NextBaton(s, t, b))
  {
    match LocalOf(s, t).pc
    case Idle => CallSteps(s, t, call, b);
    case UnlockCheckOwner => OwnerTests(s, t, call, b);
    case TryReadOwner => OwnerTests(s, t, call, b);
    case LockAdd => LockSteps(s, t, call, b);
    case LockReadOwner => LockSteps(s, t, call, b);
    case TryAdd => TryLockSteps(s, t, call, b);
    case TryCompareExchange => TryLockSteps(s, t, call, b);
    case AcquireSpin => AcquireSteps(s, t, call, b);
    case AcquireTake => AcquireSteps(s, t, call, b);
    case AcquireGiveBack => AcquireSteps(s, t, call, b);
    case LockSetOwner => TakingSteps(s, t, call, b);
    case LockReadRecursion => TakingSteps(s, t, call, b);
    case LockWriteRecursion(_) => TakingSteps(s, t, call, b);
    case UnlockReadRecursion => UnlockSteps(s, t, call, b);
    case UnlockWriteRecursion(_) => UnlockSteps(s, t, call, b);
    case UnlockClearOwner => UnlockSteps(s, t, call, b);
    case UnlockSub(_) => HandOverSteps(s, t, call, b);
    case Release => HandOverSteps(s, t, call, b);
    case PanicNotOwner =>
    case PanicOverRelease =>
  }

  /** The invariant holds after every schedule. */
  lemma {:induction false} RunKeepsInv(schedule: seq<Turn>) returns (b: Baton)
    ensures Inv(Run(INITIAL, schedule), b)
    decreases |schedule|
  {
    if schedule == [] {
      b := Nobody;
      assert Waiters(INITIAL) == {} && Owing(INITIAL) == {};
    } else {
      var before := schedule[..|schedule| - 1];
      var last := schedule[|schedule| - 1];
      b := RunKeepsInv(before);
      StepKeepsInv(Run(INITIAL, before), last.tid, last.call, b);
      b := NextBaton(Run(INITIAL, before), last.tid, b);
    }
  }

  ghost function Holders(s: State): set<Tid> {
    set t | t in s.threads && Inside(s.threads[t])
  }

  ghost function Releasers(s: State): set<Tid> {
    set t | t in s.threads && s.threads[t].pc.Release?
  }

  /** Mutual exclusion: after every schedule at most one thread is inside; a thread that holds
      the mutex is named by `owner`, `recursion` is its nesting depth and `counter` is what it
      holds plus the number of waiters. */
  lemma MutualExclusion(schedule: seq<Turn>, t: Tid)
    requires t in Run(INITIAL, schedule).threads && Inside(Run(INITIAL, schedule).threads[t])
    ensures var s := Run(INITIAL, schedule);
            && Holders(s) == {t}
            && s.recursion == s.threads[t].depth
            && s.counter == Units(s.threads[t]) + |Waiters(s)|
            && (s.threads[t].depth > 0 ==> s.owner == t)
            && (s.owner == t || s.owner == 0)
  {
    var b := RunKeepsInv(schedule);
  }

  /** Conservation of the right to run: it is with a holder, with an unlocker about to release
      or in the semaphore (counting takers that owe their add-back), exactly once whenever the
      mutex is taken and nowhere otherwise. */
  lemma NoWakeupLostOrDuplicated(schedule: seq<Turn>)
    ensures var s := Run(INITIAL, schedule);
            && |Holders(s)| + |Releasers(s)| + (s.current + |Owing(s)|) == (if s.counter > 0 then 1 else 0)
            && s.counter >= 0
  {
    var s := Run(INITIAL, schedule);
    var b := RunKeepsInv(schedule);
    assert Holders(s) == if b.Held? then {b.tid} else {};
    assert Releasers(s) == if b.Releasing? then {b.tid} else {};
  }

  /** The semaphore's assertion never fires, and the mutex's assertion fires only in a call of
      unlock() by a thread that does not hold the mutex. */
  lemma AssertionsHold(schedule: seq<Turn>, t: Tid)
    ensures var l := LocalOf(Run(INITIAL, schedule), t);
            && !l.pc.PanicOverRelease?
            && (l.pc.PanicNotOwner? ==> l.depth == 0)
            && (l.pc.UnlockCheckOwner? ==>
                (LocalOf(Exec(Run(INITIAL, schedule), t, Unlock), t).pc.PanicNotOwner? <==> l.depth == 0))
  {
    var b := RunKeepsInv(schedule);
  }

  // ----- What a call does for its caller -----

  /** What the record says while a call runs and when it is over. */
  predicate Recorded(l: Local) {
    var r := l.record;
    match l.pc
    case Idle =>
      r.NoCall?
      || (match r.call
          case Lock => l.depth == r.before + 1
          case Unlock => l.depth + 1 == r.before
          case TryLock => l.depth == r.before + if r.answer then 1 else 0)
    case LockAdd | LockReadOwner | AcquireSpin | AcquireTake | AcquireGiveBack => r.Called? && r.call.Lock? && l.depth == r.before
    case LockSetOwner | LockReadRecursion | LockWriteRecursion(_) => r.Called? && !r.call.Unlock? && l.depth == r.before
    case UnlockCheckOwner | UnlockReadRecursion | UnlockWriteRecursion(_) => r.Called? && r.call.Unlock? && l.depth == r.before
    case UnlockClearOwner | UnlockSub(_) | Release => r.Called? && r.call.Unlock? && l.depth + 1 == r.before
    case TryReadOwner | TryAdd | TryCompareExchange => r.Called? && r.call.TryLock? && l.depth == r.before
    case PanicNotOwner | PanicOverRelease => true
  }

  /** No step touches another thread. */
  lemma OthersStay(s: State, t: Tid, call: Call, u: Tid)
    requires u != t
    ensures LocalOf(Exec(s, t, call), u) == LocalOf(s, u)
  {
  }

  lemma OwnRecord(s: State, t: Tid, call: Call)
    requires LocalInv(LocalOf(s, t), s.recursion) && Recorded(LocalOf(s, t))
    ensures Recorded(LocalOf(Exec(s, t, call), t))
  {
  }

  lemma InvIsLocal(s: State, b: Baton, t: Tid)
    requires Inv(s, b)
    ensures LocalInv(LocalOf(s, t), s.recursion)
  {
  }

  lemma StepKeepsRecord(s: State, t: Tid, call: Call, b: Baton, u: Tid)
    requires Inv(s, b) && Recorded(LocalOf(s, t)) && Recorded(LocalOf(s, u))
    ensures Recorded(LocalOf(Exec(s, t, call), u))
  {
    if u == t {
      InvIsLocal(s, b, t);
      OwnRecord(s, t, call);
    } else {
      OthersStay(s, t, call, u);
    }
  }

  lemma {:induction false} RunKeepsRecord(schedule: seq<Turn>, u: Tid)
    ensures Recorded(LocalOf(Run(INITIAL, schedule), u))
    decreases |schedule|
  {
    if schedule != [] {
      var before, last := schedule[..|schedule| - 1], schedule[|schedule| - 1];
      var b := RunKeepsInv(before);
      RunKeepsRecord(before, u);
      RunKeepsRecord(before, last.tid);
      StepKeepsRecord(Run(INITIAL, before), last.tid, last.call, b, u);
    }
  }

  /** A step of an idle thread begins the call asked for. */
  lemma CallBegins(s: State, t: Tid, call: Call)
    requires LocalOf(s, t).pc.Idle?
    ensures var l, l' := LocalOf(s, t), LocalOf(Exec(s, t, call), t);
            !l'.pc.Idle? && l'.depth == l.depth && l'.record == Called(call, l.depth, false)
  {
  }

  /** While a call runs its record stays. */
  lemma CallRuns(s: State, t: Tid, call: Call)
    requires !LocalOf(s, t).pc.Idle? && LocalOf(s, t).record.Called?
    ensures var r, r' := LocalOf(s, t).record, LocalOf(Exec(s, t, call), t).record;
            r'.Called? && r'.call == r.call && r'.before == r.before
  {
  }

  /** The steps after which a call is over. */
  lemma LastSteps(s: State, t: Tid, call: Call)
    requires !LocalOf(s, t).pc.Idle? && LocalOf(Exec(s, t, call), t).pc.Idle?
    ensures var pc, r' := LocalOf(s, t).pc, LocalOf(Exec(s, t, call), t).record;
            && (pc.LockWriteRecursion? || pc.UnlockSub? || pc.Release? || pc.TryCompareExchange?)
            && (pc.TryCompareExchange? ==> s.counter != 0)
            && (r'.Called? ==> (pc.LockWriteRecursion? ==> r'.answer) && (pc.TryCompareExchange? ==> !r'.answer))
  {
  }

  /** The last store of lock() and try_lock() leaves the thread inside, alone. */
  lemma TakenBy(s: State, t: Tid, call: Call, b: Baton)
    requires Inv(s, b) && LocalOf(s, t).pc.LockWriteRecursion?
    ensures Holders(Exec(s, t, call)) == {t} && Exec(s, t, call).owner == t
  {
    var s' := Exec(s, t, call);
    assert Inside(LocalOf(s, t)) && b == Held(t);
    assert s'.threads == s.threads[t := s'.threads[t]] && Inside(s'.threads[t]);
    forall u | u in s'.threads && u != t ensures !Inside(s'.threads[u]) { assert Inside(s.threads[u]) <==> b == Held(u); }
  }

  /** What has become of the depth, and who has the mutex, when a call is over. */
  ghost predicate Ended(s: State, s': State, t: Tid, before: nat, call: Call, answer: bool) {
    match call
    case Lock => LocalOf(s', t).depth == before + 1 && Holders(s') == {t} && s'.owner == t
    case Unlock => LocalOf(s', t).depth + 1 == before
    case TryLock =>
      if answer then LocalOf(s', t).depth == before + 1 && Holders(s') == {t} && s'.owner == t
      else LocalOf(s', t).depth == before && exists u | u in Holders(s) + Waiters(s) :: u != t
  }

  /** The step that ends a call, after any schedule. lock() returns with the mutex and one level
      more, unlock() with one level less; try_lock() answers true with the mutex and one level
      more, or false with none, and then only if another thread holds the mutex or waits for it. */
  lemma CallEnds(schedule: seq<Turn>, t: Tid, call: Call)
    requires !LocalOf(Run(INITIAL, schedule), t).pc.Idle? && LocalOf(Exec(Run(INITIAL, schedule), t, call), t).pc.Idle?
    ensures var s := Run(INITIAL, schedule);
            var s' := Exec(s, t, call);
            var r, r' := LocalOf(s, t).record, LocalOf(s', t).record;
            && r.Called? && r'.Called? && r'.call == r.call && r'.before == r.before
            && Ended(s, s', t, r.before, r.call, r'.answer)
  {
    var s := Run(INITIAL, schedule);
    var b := RunKeepsInv(schedule);
    RunKeepsRecord(schedule, t);
    StepKeepsRecord(s, t, call, b, t);
    LastSteps(s, t, call);
    CallRuns(s, t, call);
    if LocalOf(s, t).pc.LockWriteRecursion? { TakenBy(s, t, call, b); }
    if LocalOf(s, t).pc.TryCompareExchange? { SomebodyElse(s, b, t); }
  }

  /** If the counter is not zero for a thread that is not counted, somebody else is. */
  lemma SomebodyElse(s: State, b: Baton, t: Tid)
    requires Inv(s, b) && LocalOf(s, t).pc.TryCompareExchange? && s.counter != 0
    ensures exists u | u in Holders(s) + Waiters(s) :: u != t
  {
    NotCounted(s, b, t);
    if b.Held? {
      assert b.tid in Holders(s) + Waiters(s);
    } else {
      assert Waiters(s) != {};
      var u :| u in Waiters(s);
      assert u in Holders(s) + Waiters(s);
    }
  }

  lemma NotCounted(s: State, b: Baton, t: Tid)
    requires Inv(s, b) && LocalOf(s, t).pc.TryCompareExchange?
    ensures t !in Holders(s) && t !in Waiters(s) && b != Held(t)
  {
    InvIsLocal(s, b, t);
  }

  // ----- Refinement of a plain recursive lock -----

  /** The specification: nobody, or one thread with a positive number of levels. */
  datatype Abstract = Free | Taken(tid: int, levels: nat)

  function Abs(s: State): Abstract {
    if s.recursion > 0 then Taken(s.owner, s.recursion) else Free
  }

  /** Thread `t` may take a free lock, add or drop one level of its own lock, or do nothing. */
  predicate AbstractStep(a: Abstract, t: Tid, a': Abstract) {
    || a' == a
    || (a == Free && a' == Taken(t, 1))
    || (a.Taken? && a.tid == t && a' == Taken(t, a.levels + 1))
    || (a.Taken? && a.tid == t && a.levels > 1 && a' == Taken(t, a.levels - 1))
    || (a == Taken(t, 1) && a' == Free)
  }

  lemma AbsOfInv(s: State, b: Baton)
    requires Inv(s, b)
    ensures Abs(s) == if b.Held? && s.threads[b.tid].depth > 0 then Taken(b.tid, s.threads[b.tid].depth) else Free
    ensures forall u: Tid :: LocalOf(s, u).depth == if Abs(s).Taken? && Abs(s).tid == u then Abs(s).levels else 0
  {
  }

  /** Every step of every reachable state is a step of the specification, and the levels of the
      specification are those of the threads themselves. */
  lemma StepRefinesRecursiveLock(schedule: seq<Turn>, t: Tid, call: Call)
    ensures var s := Run(INITIAL, schedule);
            && AbstractStep(Abs(s), t, Abs(Exec(s, t, call)))
            && (forall u: Tid :: LocalOf(s, u).depth == if Abs(s).Taken? && Abs(s).tid == u then Abs(s).levels else 0)
  {
    var s := Run(INITIAL, schedule);
    var b := RunKeepsInv(schedule);
    AbsOfInv(s, b);
    AbstractStepOf(s, t, call, b);
  }

  lemma AbstractStepOf(s: State, t: Tid, call: Call, b: Baton)
    requires Inv(s, b)
    ensures AbstractStep(Abs(s), t, Abs(Exec(s, t, call)))
  {
    AbsOfInv(s, b);
  }

  // ----- Progress -----

  lemma {:induction false} RunAppend(s: State, first: seq<Turn>, second: seq<Turn>)
    ensures Run(s, first + second) == Run(Run(s, first), second)
    decreases |second|
  {
    if second == [] {
      assert first + second == first;
    } else {
      var before := second[..|second| - 1];
      assert (first + second)[..|first + second| - 1] == first + before;
      RunAppend(s, first, before);
    }
  }

  lemma RunOne(s: State, turn: Turn, rest: seq<Turn>)
    ensures Run(s, [turn]) == Exec(s, turn.tid, turn.call)
    ensures Run(s, [turn] + rest) == Run(Exec(s, turn.tid, turn.call), rest)
  {
    assert [turn][..0] == [];
    assert Run(s, [turn]) == Exec(Run(s, []), turn.tid, turn.call);
    RunAppend(s, [turn], rest);
  }

  lemma PayOne(s: State, t: Tid)
    requires Inv(s, Token) && t in Owing(s)
    ensures var s' := Exec(s, t, Lock); Inv(s', Token) && Waiters(s') == Waiters(s) && Owing(s') == Owing(s) - {t}
    ensures t in Waiters(s)
  {
    StepKeepsInv(s, t, Lock, Token);
    assert Exec(s, t, Lock).threads == s.threads[t := s.threads[t].(pc := AcquireSpin)];
  }

  lemma ReleaseOne(s: State, t: Tid)
    requires Inv(s, Releasing(t))
    ensures var s' := Exec(s, t, Unlock); Inv(s', Token) && Waiters(s') == Waiters(s) && Owing(s') == Owing(s)
    ensures t in Releasers(s)
  {
    StepKeepsInv(s, t, Unlock, Releasing(t));
    assert Exec(s, t, Unlock).threads == s.threads[t := s.threads[t].(pc := Idle)];
  }

  /** Takers that owe an add-back can always pay it. */
  lemma {:induction false} PayBack(s: State) returns (more: seq<Turn>)
    requires Inv(s, Token)
    ensures Inv(Run(s, more), Token) && Owing(Run(s, more)) == {} && Waiters(Run(s, more)) == Waiters(s)
    ensures |more| == |Owing(s)| && forall turn | turn in more :: turn.tid in Waiters(s)
    decreases |Owing(s)|
  {
    if Owing(s) == {} {
      more := [];
    } else {
      var t :| t in Owing(s);
      var s' := Exec(s, t, Lock);
      PayOne(s, t);
      var rest := PayBack(s');
      more := [Turn(t, Lock)] + rest;
      RunOne(s, Turn(t, Lock), rest);
    }
  }

  function Rank(pc: Pc): nat {
    if pc.LockReadOwner? then 2 else if pc.AcquireSpin? then 1 else 0
  }

  /** With a token and no debts, any waiter gets in within three of its own steps. */
  lemma {:induction false} Enter(s: State, w: Tid) returns (more: seq<Turn>)
    requires Inv(s, Token) && Owing(s) == {} && w in Waiters(s)
    ensures Inside(LocalOf(Run(s, more), w))
    ensures |more| <= 1 + Rank(s.threads[w].pc) && forall turn | turn in more :: turn.tid == w
    decreases Rank(s.threads[w].pc)
  {
    var turn := Turn(w, Lock);
    var pc := s.threads[w].pc;
    assert pc.AcquireGiveBack? ==> w in Owing(s);
    var s' := Exec(s, w, Lock);
    if pc.AcquireTake? {
      more := [turn];
      RunOne(s, turn, []);
    } else {
      StepKeepsInv(s, w, Lock, Token);
      assert s'.threads == s.threads[w := s'.threads[w]] && Owing(s') == {} && w in Waiters(s');
      var rest := Enter(s', w);
      more := [turn] + rest;
      RunOne(s, turn, rest);
    }
  }

  /** No deadlock: whenever threads wait and nobody is inside, steps of the waiters and of the
      releasing unlocker alone bring a waiter inside. */
  lemma WaiterCanEnter(schedule: seq<Turn>) returns (more: seq<Turn>, w: Tid)
    requires Waiters(Run(INITIAL, schedule)) != {} && Holders(Run(INITIAL, schedule)) == {}
    ensures var s := Run(INITIAL, schedule);
            && w in Waiters(s)
            && Inside(LocalOf(Run(INITIAL, schedule + more), w))
            && |more| <= |Owing(s)| + 4
            && (forall turn | turn in more :: turn.tid in Waiters(s) + Releasers(s))
  {
    var s := Run(INITIAL, schedule);
    var b := RunKeepsInv(schedule);
    assert forall t :: b == Held(t) ==> t in Holders(s);
    var first: seq<Turn> := [];
    var s1 := s;
    if b.Releasing? {
      first := [Turn(b.tid, Unlock)];
      s1 := Exec(s, b.tid, Unlock);
      RunOne(s, first[0], []);
      ReleaseOne(s, b.tid);
    }
    var second := PayBack(s1);
    var s2 := Run(s1, second);
    w :| w in Waiters(s2);
    var third := Enter(s2, w);
    more := first + second + third;
    RunAppend(s, first, second);
    RunAppend(s, first + second, third);
    RunAppend(INITIAL, schedule, more);
  }
}
