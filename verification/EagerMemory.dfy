/** The specification of private memory: every process owns its bytes, and `fork` copies all of
    them at once. Nothing is shared, nothing is faulted in, nothing is counted. */
module EagerMemory {
  type Byte = b: int | 0 <= b < 256

  const PAGE_SIZE: int := 4096
  /** The user range: kernel/include/tasking/syscalls/map.hpp and kernel/include/memory/virtual.hpp. */
  const MIN_PAGE: int := 0x100
  const KERNEL_PAGE: int := 0xF_FFFF_FFF8_0000

  /** The bytes of one page, by offset. */
  type Page = seq<Byte>

  function ZeroPage(n: nat): (r: Page)
    ensures |r| == n && forall i | 0 <= i < n :: r[i] == 0
  {
    if n == 0 then [] else ZeroPage(n - 1) + [0]
  }

  const ZERO_PAGE: Page := ZeroPage(PAGE_SIZE)

  /** A page of the address space of one process. */
  datatype Place = Place(pid: int, page: int)

  /** Private bytes with a protection, or a guard page (EMPTY). */
  datatype Region = Private(content: Page, writable: bool, executable: bool) | Guard

  datatype World = World(pids: set<int>, regions: map<Place, Region>)

  datatype Op =
    | MapAnonymous(pid: int, first: int, count: nat, writable: bool, executable: bool, zero: bool)
    | MapGuard(pid: int, first: int, count: nat)
    | Unmap(pid: int, first: int, count: nat)
    | Fork(pid: int, child: int)
    | Exit(pid: int)
    | Read(pid: int, addr: nat)
    | Write(pid: int, addr: nat, value: Byte)

  datatype Outcome = Done | Value(value: Byte) | Fault

  predicate InUserRange(first: int, count: nat) {
    MIN_PAGE <= first && first + count <= KERNEL_PAGE
  }

  /** What the callers of the kernel guarantee: live processes, a new child, a checked range. */
  predicate Legal(w: World, op: Op) {
    op.pid in w.pids &&
    match op
    case MapAnonymous(_, first, count, _, _, _) => InUserRange(first, count)
    case MapGuard(_, first, count) => InUserRange(first, count)
    case Unmap(_, first, count) => InUserRange(first, count)
    case Fork(_, child) => child !in w.pids
    case _ => true
  }

  function AddressPlace(pid: int, addr: nat): Place {
    Place(pid, addr / PAGE_SIZE)
  }

  function ByteAt(content: Page, addr: nat): Byte {
    if addr % PAGE_SIZE < |content| then content[addr % PAGE_SIZE] else 0
  }

  function WithByte(content: Page, addr: nat, value: Byte): Page {
    if addr % PAGE_SIZE < |content| then content[addr % PAGE_SIZE := value] else content
  }

  predicate InRange(l: Place, pid: int, first: int, count: nat) {
    l.pid == pid && first <= l.page < first + count
  }

  function Mapped(w: World, pid: int, first: int, count: nat, region: Region): World
    decreases count
  {
    if count == 0 then w
    else Mapped(w, pid, first, count - 1, region).(regions := Mapped(w, pid, first, count - 1, region).regions[Place(pid, first + count - 1) := region])
  }

  function Unmapped(w: World, pid: int, first: int, count: nat): World {
    w.(regions := map l | l in w.regions && !InRange(l, pid, first, count) :: w.regions[l])
  }

  /** The child gets a copy of every page of the parent. */
  function Forked(w: World, pid: int, child: int): World {
    var copies := set l | l in w.regions && l.pid == pid :: Place(child, l.page);
    World(w.pids + {child}, w.regions + map l | l in copies :: w.regions[Place(pid, l.page)])
  }

  function Exited(w: World, pid: int): World {
    World(w.pids - {pid}, map l | l in w.regions && l.pid != pid :: w.regions[l])
  }

  predicate Readable(w: World, l: Place) {
    l in w.regions && w.regions[l].Private?
  }

  predicate Writable(w: World, l: Place) {
    l in w.regions && w.regions[l].Private? && w.regions[l].writable
  }

  function Written(w: World, l: Place, addr: nat, value: Byte): World {
    if Writable(w, l) then
      w.(regions := w.regions[l := w.regions[l].(content := WithByte(w.regions[l].content, addr, value))])
    else w
  }

  function OutcomeOf(w: World, op: Op): Outcome {
    match op
    case Read(pid, addr) =>
      var l := AddressPlace(pid, addr);
      if Readable(w, l) then Value(ByteAt(w.regions[l].content, addr)) else Fault
    case Write(pid, addr, _) => if Writable(w, AddressPlace(pid, addr)) then Done else Fault
    case _ => Done
  }

  function Apply(w: World, op: Op): World {
    match op
    case MapAnonymous(pid, first, count, writable, executable, _) =>
      Mapped(w, pid, first, count, Private(ZERO_PAGE, writable, executable))
    case MapGuard(pid, first, count) => Mapped(w, pid, first, count, Guard)
    case Unmap(pid, first, count) => Unmapped(w, pid, first, count)
    case Fork(pid, child) => Forked(w, pid, child)
    case Exit(pid) => Exited(w, pid)
    case Read(_, _) => w
    case Write(pid, addr, value) => Written(w, AddressPlace(pid, addr), addr, value)
  }

  /** The world after a run. */
  function After(w: World, ops: seq<Op>): World
    decreases |ops|
  {
    if ops == [] then w else Apply(After(w, ops[..|ops| - 1]), ops[|ops| - 1])
  }

  /** What the operations of a run are told, in order. */
  function Outcomes(w: World, ops: seq<Op>): seq<Outcome>
    decreases |ops|
  {
    if ops == [] then []
    else
      var before := ops[..|ops| - 1];
      Outcomes(w, before) + [OutcomeOf(After(w, before), ops[|ops| - 1])]
  }

  ghost predicate LegalRun(w: World, ops: seq<Op>) {
    forall i | 0 <= i < |ops| :: Legal(After(w, ops[..i]), ops[i])
  }

  // ----- What the specification itself promises -----

  lemma {:induction false} MappedAt(w: World, pid: int, first: int, count: nat, region: Region, l: Place)
    ensures var w' := Mapped(w, pid, first, count, region);
            && w'.pids == w.pids
            && (l in w'.regions <==> l in w.regions || InRange(l, pid, first, count))
            && (InRange(l, pid, first, count) ==> w'.regions[l] == region)
            && (!InRange(l, pid, first, count) && l in w.regions ==> w'.regions[l] == w.regions[l])
    decreases count
  {
    if count > 0 { MappedAt(w, pid, first, count - 1, region, l); }
  }

  /** Isolation: an operation changes only the pages of its process, and of the child it makes. */
  lemma Isolation(w: World, op: Op, l: Place)
    requires Legal(w, op) && l.pid != op.pid && !(op.Fork? && l.pid == op.child)
    ensures l in Apply(w, op).regions <==> l in w.regions
    ensures l in w.regions ==> Apply(w, op).regions[l] == w.regions[l]
  {
    match op
    case MapAnonymous(pid, first, count, writable, executable, _) =>
      MappedAt(w, pid, first, count, Private(ZERO_PAGE, writable, executable), l);
    case MapGuard(pid, first, count) => MappedAt(w, pid, first, count, Guard, l);
    case _ =>
  }

  /** Every page has all its bytes. */
  ghost predicate Sized(w: World) {
    forall l | l in w.regions :: w.regions[l].Private? ==> |w.regions[l].content| == PAGE_SIZE
  }

  lemma ApplyKeepsSized(w: World, op: Op)
    requires Legal(w, op) && Sized(w)
    ensures Sized(Apply(w, op))
  {
    var w' := Apply(w, op);
    forall l | l in w'.regions ensures w'.regions[l].Private? ==> |w'.regions[l].content| == PAGE_SIZE {
      match op
      case MapAnonymous(pid, first, count, writable, executable, _) =>
        MappedAt(w, pid, first, count, Private(ZERO_PAGE, writable, executable), l);
      case MapGuard(pid, first, count) => MappedAt(w, pid, first, count, Guard, l);
      case _ =>
    }
  }

  lemma {:induction false} RunKeepsSized(w: World, ops: seq<Op>)
    requires Sized(w) && LegalRun(w, ops)
    ensures Sized(After(w, ops))
    decreases |ops|
  {
    if ops != [] {
      var before := ops[..|ops| - 1];
      assert forall i | 0 <= i < |before| :: before[..i] == ops[..i] && before[i] == ops[i];
      RunKeepsSized(w, before);
      ApplyKeepsSized(After(w, before), ops[|ops| - 1]);
    }
  }

  /** A store that succeeds is read back, and changes no other byte anywhere. */
  lemma ReadAfterWrite(w: World, pid: int, addr: nat, value: Byte, reader: int, at: nat)
    requires Sized(w) && Writable(w, AddressPlace(pid, addr))
    ensures OutcomeOf(Apply(w, Write(pid, addr, value)), Read(reader, at))
         == if reader == pid && at == addr then Value(value) else OutcomeOf(w, Read(reader, at))
  {
    assert addr == addr / PAGE_SIZE * PAGE_SIZE + addr % PAGE_SIZE;
    assert at == at / PAGE_SIZE * PAGE_SIZE + at % PAGE_SIZE;
  }

  /** So it is after every run. */
  lemma ReadAfterWriteInRun(w: World, ops: seq<Op>, pid: int, addr: nat, value: Byte, reader: int, at: nat)
    requires Sized(w) && LegalRun(w, ops) && Writable(After(w, ops), AddressPlace(pid, addr))
    ensures OutcomeOf(Apply(After(w, ops), Write(pid, addr, value)), Read(reader, at))
         == if reader == pid && at == addr then Value(value) else OutcomeOf(After(w, ops), Read(reader, at))
  {
    RunKeepsSized(w, ops);
    ReadAfterWrite(After(w, ops), pid, addr, value, reader, at);
  }

  // ----- What each operation does to every load and store -----

  /** A page belongs to a live process. */
  ghost predicate Owned(w: World) {
    forall l | l in w.regions :: l.pid in w.pids
  }

  lemma ApplyKeepsOwned(w: World, op: Op)
    requires Legal(w, op) && Owned(w)
    ensures Owned(Apply(w, op))
  {
    var w' := Apply(w, op);
    forall l | l in w'.regions ensures l.pid in w'.pids {
      match op
      case MapAnonymous(pid, first, count, writable, executable, _) =>
        MappedAt(w, pid, first, count, Private(ZERO_PAGE, writable, executable), l);
      case MapGuard(pid, first, count) => MappedAt(w, pid, first, count, Guard, l);
      case _ =>
    }
  }

  predicate IsAccess(a: Op) {
    a.Read? || a.Write?
  }

  /** The same access by another process. */
  function By(a: Op, pid: int): Op
    requires IsAccess(a)
  {
    if a.Read? then Read(pid, a.addr) else Write(pid, a.addr, a.value)
  }

  /** The access is to one of `count` pages of the process, from `first` on. */
  predicate Within(a: Op, pid: int, first: int, count: nat)
    requires IsAccess(a)
  {
    a.pid == pid && first * 4096 <= a.addr < (first + count) * 4096
  }

  lemma WithinIsInRange(a: Op, pid: int, first: int, count: nat)
    requires IsAccess(a)
    ensures Within(a, pid, first, count) <==> InRange(AddressPlace(a.pid, a.addr), pid, first, count)
  {
  }

  /** After fork every access of the child has the outcome that the same access of the parent had,
      and nobody else's outcome changes. */
  lemma ForkLaw(w: World, pid: int, child: int, a: Op)
    requires Legal(w, Fork(pid, child)) && Owned(w) && IsAccess(a)
    ensures OutcomeOf(Apply(w, Fork(pid, child)), a) == OutcomeOf(w, if a.pid == child then By(a, pid) else a)
  {
  }

  /** New memory reads as zero, and can be written exactly if it was asked for writable. */
  lemma MapLaw(w: World, pid: int, first: int, count: nat, writable: bool, executable: bool, zero: bool, a: Op)
    requires IsAccess(a)
    ensures OutcomeOf(Apply(w, MapAnonymous(pid, first, count, writable, executable, zero)), a)
         == if Within(a, pid, first, count) then (if a.Read? then Value(0) else if writable then Done else Fault)
            else OutcomeOf(w, a)
  {
    WithinIsInRange(a, pid, first, count);
    MappedAt(w, pid, first, count, Private(ZERO_PAGE, writable, executable), AddressPlace(a.pid, a.addr));
  }

  lemma GuardLaw(w: World, pid: int, first: int, count: nat, a: Op)
    requires IsAccess(a)
    ensures OutcomeOf(Apply(w, MapGuard(pid, first, count)), a) == if Within(a, pid, first, count) then Fault else OutcomeOf(w, a)
  {
    WithinIsInRange(a, pid, first, count);
    MappedAt(w, pid, first, count, Guard, AddressPlace(a.pid, a.addr));
  }

  lemma UnmapLaw(w: World, pid: int, first: int, count: nat, a: Op)
    requires IsAccess(a)
    ensures OutcomeOf(Apply(w, Unmap(pid, first, count)), a) == if Within(a, pid, first, count) then Fault else OutcomeOf(w, a)
  {
    WithinIsInRange(a, pid, first, count);
  }

  lemma ExitLaw(w: World, pid: int, a: Op)
    requires IsAccess(a)
    ensures OutcomeOf(Apply(w, Exit(pid)), a) == if a.pid == pid then Fault else OutcomeOf(w, a)
  {
  }

  /** A store that is done is read back by its process at its address; nothing else changes, and
      nothing at all if it faults. A load changes nothing. */
  lemma AccessLaw(w: World, op: Op, a: Op)
    requires Sized(w) && IsAccess(op) && IsAccess(a)
    ensures OutcomeOf(Apply(w, op), a)
         == if op.Write? && OutcomeOf(w, op) == Done && a == Read(op.pid, op.addr) then Value(op.value) else OutcomeOf(w, a)
  {
    if op.Write? && Writable(w, AddressPlace(op.pid, op.addr)) {
      if a.Read? { ReadAfterWrite(w, op.pid, op.addr, op.value, a.pid, a.addr); }
    }
  }

  predicate Executable(w: World, pid: int, addr: nat) {
    var l := AddressPlace(pid, addr);
    l in w.regions && w.regions[l].Private? && w.regions[l].executable
  }

  /** Where a process may run code: new memory that was asked for executable, in a child what its
      parent may run, and elsewhere as before. */
  lemma ExecuteLaw(w: World, op: Op, pid: int, addr: nat)
    requires Legal(w, op) && Owned(w)
    ensures var a, x := Read(pid, addr), Executable(Apply(w, op), pid, addr);
            match op
            case MapAnonymous(p, first, count, _, executable, _) =>
              x == if Within(a, p, first, count) then executable else Executable(w, pid, addr)
            case MapGuard(p, first, count) => x == (!Within(a, p, first, count) && Executable(w, pid, addr))
            case Unmap(p, first, count) => x == (!Within(a, p, first, count) && Executable(w, pid, addr))
            case Fork(p, child) => x == Executable(w, if pid == child then p else pid, addr)
            case Exit(p) => x == (pid != p && Executable(w, pid, addr))
            case _ => x == Executable(w, pid, addr)
  {
    var a := Read(pid, addr);
    match op
    case MapAnonymous(p, first, count, writable, executable, _) =>
      WithinIsInRange(a, p, first, count);
      MappedAt(w, p, first, count, Private(ZERO_PAGE, writable, executable), AddressPlace(pid, addr));
    case MapGuard(p, first, count) =>
      WithinIsInRange(a, p, first, count);
      MappedAt(w, p, first, count, Guard, AddressPlace(pid, addr));
    case Unmap(p, first, count) => WithinIsInRange(a, p, first, count);
    case _ =>
  }

  /** Who is alive: fork adds the child, exit takes the process away. */
  lemma AliveLaw(w: World, op: Op, pid: int)
    requires Legal(w, op)
    ensures pid in Apply(w, op).pids <==> (pid in w.pids && op != Exit(pid)) || (op.Fork? && op.child == pid)
  {
    match op
    case MapAnonymous(p, first, count, writable, executable, _) =>
      MappedAt(w, p, first, count, Private(ZERO_PAGE, writable, executable), Place(p, first));
    case MapGuard(p, first, count) => MappedAt(w, p, first, count, Guard, Place(p, first));
    case _ =>
  }

  /** The outcome of an access after a run, from the operations of the run and from accesses in the
      world it began in. */
  function Recall(w: World, ops: seq<Op>, a: Op): Outcome
    requires IsAccess(a)
    decreases |ops|
  {
    if ops == [] then OutcomeOf(w, a)
    else
      var before := ops[..|ops| - 1];
      match ops[|ops| - 1]
      case MapAnonymous(pid, first, count, writable, _, _) =>
        if Within(a, pid, first, count) then (if a.Read? then Value(0) else if writable then Done else Fault)
        else Recall(w, before, a)
      case MapGuard(pid, first, count) => if Within(a, pid, first, count) then Fault else Recall(w, before, a)
      case Unmap(pid, first, count) => if Within(a, pid, first, count) then Fault else Recall(w, before, a)
      case Fork(pid, child) => Recall(w, before, if a.pid == child then By(a, pid) else a)
      case Exit(pid) => if a.pid == pid then Fault else Recall(w, before, a)
      case Read(_, _) => Recall(w, before, a)
      case Write(pid, addr, value) =>
        if a == Read(pid, addr) && Recall(w, before, Write(pid, addr, value)) == Done then Value(value) else Recall(w, before, a)
  }

  lemma RecallNext(w: World, ops: seq<Op>, a: Op)
    requires ops != [] && IsAccess(a)
    requires var before := ops[..|ops| - 1];
             && Sized(After(w, before)) && Owned(After(w, before)) && Legal(After(w, before), ops[|ops| - 1])
             && forall b | IsAccess(b) :: OutcomeOf(After(w, before), b) == Recall(w, before, b)
    ensures OutcomeOf(After(w, ops), a) == Recall(w, ops, a)
  {
    var v, op := After(w, ops[..|ops| - 1]), ops[|ops| - 1];
    match op
    case MapAnonymous(pid, first, count, writable, executable, zero) => MapLaw(v, pid, first, count, writable, executable, zero, a);
    case MapGuard(pid, first, count) => GuardLaw(v, pid, first, count, a);
    case Unmap(pid, first, count) => UnmapLaw(v, pid, first, count, a);
    case Fork(pid, child) => ForkLaw(v, pid, child, a);
    case Exit(pid) => ExitLaw(v, pid, a);
    case Read(_, _) => AccessLaw(v, op, a);
    case Write(_, _, _) => AccessLaw(v, op, a);
  }

  /** After every run the outcome of every access is what the run recalls. */
  lemma {:induction false} Recalled(w: World, ops: seq<Op>, a: Op)
    requires Sized(w) && Owned(w) && LegalRun(w, ops) && IsAccess(a)
    ensures OutcomeOf(After(w, ops), a) == Recall(w, ops, a)
    ensures Sized(After(w, ops)) && Owned(After(w, ops))
    decreases |ops|
  {
    if ops != [] {
      var before := ops[..|ops| - 1];
      assert forall i | 0 <= i < |before| :: before[..i] == ops[..i] && before[i] == ops[i];
      forall b | IsAccess(b) ensures OutcomeOf(After(w, before), b) == Recall(w, before, b) { Recalled(w, before, b); }
      Recalled(w, before, a);
      RecallNext(w, ops, a);
      ApplyKeepsSized(After(w, before), ops[|ops| - 1]);
      ApplyKeepsOwned(After(w, before), ops[|ops| - 1]);
    }
  }

  /** Every access of a run was told what the operations before it make of it; everything else is
      done. */
  predicate Told(w: World, ops: seq<Op>, outs: seq<Outcome>) {
    |outs| == |ops| && forall i | 0 <= i < |ops| :: outs[i] == if IsAccess(ops[i]) then Recall(w, ops[..i], ops[i]) else Done
  }

  lemma ToldNext(w: World, ops: seq<Op>, outs: seq<Outcome>, out: Outcome)
    requires ops != [] && Told(w, ops[..|ops| - 1], outs)
    requires out == if IsAccess(ops[|ops| - 1]) then Recall(w, ops[..|ops| - 1], ops[|ops| - 1]) else Done
    ensures Told(w, ops, outs + [out])
  {
    var before := ops[..|ops| - 1];
    forall i | 0 <= i < |before| ensures before[..i] == ops[..i] && before[i] == ops[i] {}
  }

  lemma LegalPrefix(w: World, ops: seq<Op>, n: nat)
    requires LegalRun(w, ops) && n <= |ops|
    ensures LegalRun(w, ops[..n])
  {
    assert forall i | 0 <= i < n :: ops[..n][..i] == ops[..i] && ops[..n][i] == ops[i];
  }

  lemma {:induction false} OutcomesTold(w: World, ops: seq<Op>)
    requires Sized(w) && Owned(w) && LegalRun(w, ops)
    ensures Told(w, ops, Outcomes(w, ops))
    decreases |ops|
  {
    if ops != [] {
      var n := |ops| - 1;
      LegalPrefix(w, ops, n);
      OutcomesTold(w, ops[..n]);
      if IsAccess(ops[n]) { Recalled(w, ops[..n], ops[n]); }
      ToldNext(w, ops, Outcomes(w, ops[..n]), OutcomeOf(After(w, ops[..n]), ops[n]));
    }
  }
}
