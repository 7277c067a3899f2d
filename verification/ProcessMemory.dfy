/** The operations of kernel/src/tasking/process.cpp that loop over pages, proved to be those of
    EagerMemory: what every process sees is what it would see if fork copied all its pages. */
module ProcessMemory {
  import opened EagerMemory
  import opened CopyOnWrite

  /** The first byte of the kernel half. */
  const KERNEL_START: int := KERNEL_PAGE * PAGE_SIZE

  /** A fault at `l` is one the handler resolves: the first touch of an anonymous page, or a store
      to a copy-on-write page. */
  predicate Resolvable(m: Machine, l: Place, write: bool) {
    l in m.entries &&
    (m.entries[l].Anonymous? ||
     (m.entries[l].Memory? && m.entries[l].frame in m.pages && write && m.pages[m.entries[l].frame].copyOnWrite))
  }

  /** Resolving it takes a frame from palloc(). The last reference to a frame is reused. */
  predicate NeedsFrame(m: Machine, l: Place, write: bool) {
    Resolvable(m, l, write) && (m.entries[l].Memory? ==> m.pages[m.entries[l].frame].refCount > 1)
  }

  /** Frame `g` will do for the fault; an anonymous page cannot be made of frame 0. */
  predicate FrameServes(m: Machine, l: Place, write: bool, g: Frame) {
    NeedsFrame(m, l, write) ==> IsFree(m, g) && (m.entries[l].Anonymous? ==> g != 0)
  }

  /** Frame `g` will do for the operation. Only accesses ever take a frame. */
  predicate Serves(m: Machine, op: Op, g: Frame) {
    match op
    case Read(pid, addr) => FrameServes(m, AddressPlace(pid, addr), false, g)
    case Write(pid, addr, _) => FrameServes(m, AddressPlace(pid, addr), true, g)
    case _ => true
  }

  /** How many more faults an access at `l` can take. */
  function Rank(m: Machine, l: Place, write: bool): nat {
    if Resolvable(m, l, write) then 1 else 0
  }

  /** What the page table lets the process do at `l`. */
  predicate Allowed(m: Machine, l: Place, write: bool) {
    l in m.ptes && (write ==> m.ptes[l].flags.writable)
  }

  /** What the process may do at `l`. */
  predicate Entitled(w: World, l: Place, write: bool) {
    if write then Writable(w, l) else Readable(w, l)
  }

  /** An access the page table allows is one the process is entitled to, and one it refuses
      without a fault to resolve is one it is not. */
  lemma AllowedIsEntitled(m: Machine, l: Place, write: bool)
    requires Inv(m)
    ensures Allowed(m, l, write) ==> Entitled(View(m), l, write)
    ensures !Allowed(m, l, write) && !Resolvable(m, l, write) ==> !Entitled(View(m), l, write)
    ensures l in m.ptes <==> l in m.entries && m.entries[l].Memory?
    ensures Allowed(m, l, write) ==> !Resolvable(m, l, write)
    ensures l in m.ptes && Resolvable(m, l, write) ==> Entitled(View(m), l, write)
  {
    if l in m.entries {
      assert EntryInv(m, l);
      if m.entries[l].Memory? { assert FrameInv(m, m.entries[l].frame); }
    }
  }

  /** A page in the page table is executable exactly if the process may run code there. */
  lemma ExecutableIsEntitled(m: Machine, pid: int, addr: nat)
    requires Inv(m) && AddressPlace(pid, addr) in m.ptes
    ensures m.ptes[AddressPlace(pid, addr)].flags.executable <==> Executable(View(m), pid, addr)
  {
    var l := AddressPlace(pid, addr);
    AllowedIsEntitled(m, l, false);
    assert EntryInv(m, l) && FrameInv(m, m.entries[l].frame);
  }

  lemma UnmapOneMore(w: World, pid: int, first: int, i: nat)
    ensures var v := Unmapped(w, pid, first, i);
            Unmapped(w, pid, first, i + 1) == v.(regions := v.regions - {Place(pid, first + i)})
  {
    assert Unmapped(w, pid, first, i + 1).regions == Unmapped(w, pid, first, i).regions - {Place(pid, first + i)};
  }

  class Kernel {
    var m: Machine

    /** A machine on which no process has any memory mapped. */
    constructor (pids: set<int>, ram: map<Frame, Page>)
      ensures Inv(m) && View(m) == World(pids, map[]) && m.ram == ram && m.inUse == {}
    {
      m := Machine(pids, map[], map[], map[], {}, ram);
    }

    /** Process::unmap_pages: exactly the named pages of exactly this process disappear. */
    method UnmapPages(pid: int, first: int, count: nat)
      requires Inv(m)
      modifies this
      ensures Inv(m) && View(m) == Unmapped(old(View(m)), pid, first, count)
    {
      ghost var w := View(m);
      for i := 0 to count
        invariant Inv(m) && View(m) == Unmapped(w, pid, first, i)
      {
        UnmapPageCorrect(m, Place(pid, first + i));
        UnmapOneMore(w, pid, first, i);
        m := UnmapPage(m, Place(pid, first + i));
      }
    }

    /** Process::alloc_pages for a private mapping: the range reads as zero pages. */
    method AllocPages(pid: int, first: int, count: nat, writable: bool, executable: bool, zero: bool)
      requires Inv(m) && pid in m.pids && InUserRange(first, count)
      modifies this
      ensures Inv(m) && View(m) == Mapped(old(View(m)), pid, first, count, Private(ZERO_PAGE, writable, executable))
    {
      var entry := Anonymous(PageFlags(writable, executable), zero);
      MapEntry(pid, first, count, entry);
    }

    /** Process::null_pages: the range becomes guard pages. */
    method NullPages(pid: int, first: int, count: nat)
      requires Inv(m) && pid in m.pids && InUserRange(first, count)
      modifies this
      ensures Inv(m) && View(m) == Mapped(old(View(m)), pid, first, count, Guard)
    {
      MapEntry(pid, first, count, Empty);
    }

    /** The loop of both: one shared entry is put at every page. */
    method MapEntry(pid: int, first: int, count: nat, entry: Entry)
      requires Inv(m) && pid in m.pids && InUserRange(first, count) && !entry.Memory?
      modifies this
      ensures Inv(m) && View(m) == Mapped(old(View(m)), pid, first, count, RegionOf(old(m), entry))
    {
      for i := 0 to count
        invariant Inv(m) && pid in m.pids && View(m) == Mapped(old(View(m)), pid, first, i, RegionOf(old(m), entry))
      {
        SetPageMappingCorrect(m, Place(pid, first + i), entry);
        m := SetPageMapping(m, Place(pid, first + i), entry);
      }
    }

    /** Process::handle_page_fault, for a fault that may be out of date: `present` is what the
        processor found when it faulted, and other threads of the process may have been served
        since. Whatever the answer, no process sees a difference. It is yes exactly if the fault
        can be resolved, and then it is, or if a page that was missing is there now. `g` is the
        frame palloc() returns if asked. */
    method HandlePageFault(pid: int, addr: nat, present: bool, write: bool, g: Frame) returns (ok: bool)
      requires Inv(m) && pid in m.pids && FrameServes(m, AddressPlace(pid, addr), write, g)
      modifies this
      ensures Inv(m) && View(m) == old(View(m))
      ensures ok <==> old(Resolvable(m, AddressPlace(pid, addr), write)) || (!present && old(AddressPlace(pid, addr) in m.ptes))
      ensures !Resolvable(m, AddressPlace(pid, addr), write)
      ensures !old(Resolvable(m, AddressPlace(pid, addr), write)) ==> m == old(m)
      ensures !ok ==> !Entitled(View(m), AddressPlace(pid, addr), write) || (present && Allowed(m, AddressPlace(pid, addr), write))
    {
      var l := AddressPlace(pid, addr);
      AllowedIsEntitled(m, l, write);
      if addr >= KERNEL_START || addr == 0 || l !in m.entries {
        assert forall k | k in m.entries :: EntryInv(m, k);
        return false;
      }
      match m.entries[l]
      case Memory(f) =>
        assert EntryInv(m, l) && FrameInv(m, f);
        if write && m.pages[f].copyOnWrite {
          if m.pages[f].refCount > 1 {
            CopyPageCorrect(m, l, g);
            m := CopyPage(m, l, g);
          } else {
            ReusePageCorrect(m, l);
            m := ReusePage(m, l);
          }
          AllowedIsEntitled(m, l, write);
          return true;
        }
        return !present;
      case Empty => return false;
      case Anonymous(flags, _) =>
        ResolveAnonymousCorrect(m, l, g, AttachFresh(UnmapPage(m, l), l, g, ZERO_PAGE, flags));
        var r := ResolveAnonymous(m, l, g);
        m := r.0;
        ok := r.1;
    }

    /** Two threads of one process store to a copy-on-write page and both fault before either is
        served. The second fault says that the page was present, finds it writable by now, and is
        refused, although the process is entitled to the store. */
    method TwoStores(pid: int, addr: nat, g: Frame) returns (first: bool, second: bool)
      requires Inv(m) && pid in m.pids && FrameServes(m, AddressPlace(pid, addr), true, g)
      requires AddressPlace(pid, addr) in m.ptes && Resolvable(m, AddressPlace(pid, addr), true)
      modifies this
      ensures Inv(m) && View(m) == old(View(m))
      ensures first && !second && Entitled(View(m), AddressPlace(pid, addr), true)
    {
      AllowedIsEntitled(m, AddressPlace(pid, addr), true);
      first := HandlePageFault(pid, addr, true, true, g);
      AllowedIsEntitled(m, AddressPlace(pid, addr), true);
      second := HandlePageFault(pid, addr, true, true, g);
    }

    /** A user access: the processor consults the page table, faults while it refuses, and gives
        up when the handler does. It ends, and succeeds exactly for accesses the process is
        entitled to. */
    method Touch(pid: int, addr: nat, write: bool, g: Frame) returns (ok: bool)
      requires Inv(m) && pid in m.pids
      requires FrameServes(m, AddressPlace(pid, addr), write, g)
      modifies this
      ensures Inv(m) && View(m) == old(View(m))
      ensures ok == Entitled(View(m), AddressPlace(pid, addr), write)
      ensures ok ==> Allowed(m, AddressPlace(pid, addr), write)
    {
      var l := AddressPlace(pid, addr);
      AllowedIsEntitled(m, l, write);
      while !Allowed(m, l, write)
        invariant Inv(m) && View(m) == old(View(m)) && pid in m.pids
        invariant FrameServes(m, l, write, g)
        decreases Rank(m, l, write)
      {
        var resolved := HandlePageFault(pid, addr, l in m.ptes, write, g);
        if !resolved { return false; }
      }
      AllowedIsEntitled(m, l, write);
      ok := true;
    }

    /** A one-byte load. */
    method ReadByte(pid: int, addr: nat, g: Frame) returns (out: Outcome)
      requires Inv(m) && pid in m.pids
      requires FrameServes(m, AddressPlace(pid, addr), false, g)
      modifies this
      ensures Inv(m) && View(m) == old(View(m))
      ensures out == OutcomeOf(old(View(m)), Read(pid, addr))
    {
      var l := AddressPlace(pid, addr);
      var ok := Touch(pid, addr, false, g);
      if !ok { return Fault; }
      AllowedIsEntitled(m, l, false);
      assert EntryInv(m, l) && FrameInv(m, m.ptes[l].frame);
      out := Value(ByteAt(m.ram[m.ptes[l].frame], addr));
    }

    /** A one-byte store. */
    method WriteByte(pid: int, addr: nat, value: Byte, g: Frame) returns (out: Outcome)
      requires Inv(m) && pid in m.pids
      requires FrameServes(m, AddressPlace(pid, addr), true, g)
      modifies this
      ensures Inv(m) && View(m) == Apply(old(View(m)), Write(pid, addr, value))
      ensures out == OutcomeOf(old(View(m)), Write(pid, addr, value))
    {
      var l := AddressPlace(pid, addr);
      var ok := Touch(pid, addr, true, g);
      if !ok { return Fault; }
      var f := m.ptes[l].frame;
      StoreCorrect(m, l, WithByte(View(m).regions[l].content, addr, value));
      m := m.(ram := m.ram[f := WithByte(m.ram[f], addr, value)]);
      out := Done;
    }

    /** Process::fork: the child sees a copy of everything the parent has, now and, by the
        other contracts, for ever. The map is walked in any order. */
    method Fork(parent: int, child: int)
      requires Inv(m) && parent in m.pids && child !in m.pids
      modifies this
      ensures Inv(m) && View(m) == Forked(old(View(m)), parent, child)
    {
      ghost var w := View(m);
      var todo := set l | l in m.entries && l.pid == parent;
      NewProcess(child);
      while todo != {}
        invariant Inv(m) && child in m.pids && View(m).pids == w.pids + {child}
        invariant forall l | l in todo :: l in w.regions && l.pid == parent
        invariant CopiedSoFar(w, View(m), parent, child, todo)
        decreases todo
      {
        var l :| l in todo;
        ForkStep(m, w, parent, child, todo, l);
        m := ForkPage(m, l, child);
        todo := todo - {l};
      }
      CopiedAll(w, View(m), parent, child);
    }

    /** Process::minimize: the memory map is cleared without counting the mappings down, then
        the page table goes. The frames of the process may leak; nobody else notices. */
    method Exit(pid: int)
      requires Inv(m) && pid in m.pids
      modifies this
      ensures Inv(m) && View(m) == Exited(old(View(m)), pid)
    {
      ghost var w := View(m);
      ghost var n := m;
      var todo := set l | l in m.entries && l.pid == pid;
      while todo != {}
        invariant ExitSoFar(m, n, w, pid, todo)
        decreases todo
      {
        var l :| l in todo;
        ExitLoop(m, n, w, pid, todo, l);
        n := Detach(n, l, false);
        m := EraseEntry(m, l);
        todo := todo - {l};
      }
      ExitEnd(m, n, w, pid);
      m := m.(ptes := PtesOfOthers(m.ptes, pid), pids := m.pids - {pid});
    }

    /** A run of the whole machine: every process, at every step, observes exactly what it would
        observe if fork copied all memory at once: each access is told what the operations before it
        make of it. The run stops early only at an access that
        takes a frame when no frame is left that will do. */
    method Run(ops: seq<Op>) returns (outs: seq<Outcome>)
      requires Inv(m) && LegalRun(View(m), ops)
      modifies this
      ensures |outs| <= |ops| && outs == Outcomes(old(View(m)), ops[..|outs|])
      ensures Sized(old(View(m))) ==> Told(old(View(m)), ops[..|outs|], outs)
      ensures Inv(m) && View(m) == After(old(View(m)), ops[..|outs|])
      ensures |outs| < |ops| ==> forall g :: !Serves(m, ops[|outs|], g)
    {
      ghost var w := View(m);
      InvOwned(m);
      outs := RunAll(ops);
      if Sized(w) {
        LegalPrefix(w, ops, |outs|);
        OutcomesTold(w, ops[..|outs|]);
      }
    }

    method RunAll(ops: seq<Op>) returns (outs: seq<Outcome>)
      requires Inv(m) && LegalRun(View(m), ops)
      modifies this
      ensures |outs| <= |ops| && outs == Outcomes(old(View(m)), ops[..|outs|])
      ensures Inv(m) && View(m) == After(old(View(m)), ops[..|outs|])
      ensures |outs| < |ops| ==> forall g :: !Serves(m, ops[|outs|], g)
    {
      outs := [];
      ghost var w := View(m);
      while |outs| < |ops|
        invariant InStep(w, ops, outs)
      {
        var stop, out := RunOne(w, ops, outs);
        if stop { return; }
        outs := outs + [out];
      }
    }

    /** The machine agrees with the specification after as many operations as there are outcomes. */
    ghost predicate InStep(w: World, ops: seq<Op>, outs: seq<Outcome>)
      reads this
    {
      Inv(m) && Reached(View(m), w, ops, outs)
    }

    method RunOne(ghost w: World, ops: seq<Op>, outs: seq<Outcome>) returns (stop: bool, out: Outcome)
      requires LegalRun(w, ops) && InStep(w, ops, outs) && |outs| < |ops|
      modifies this
      ensures stop ==> InStep(w, ops, outs) && forall g :: !Serves(m, ops[|outs|], g)
      ensures !stop ==> InStep(w, ops, outs + [out])
    {
      ReachedNext(View(m), w, ops, outs);
      stop, out := Attempt(ops[|outs|]);
    }

    method Attempt(op: Op) returns (stop: bool, out: Outcome)
      requires Inv(m) && Legal(View(m), op)
      modifies this
      ensures stop ==> m == old(m) && forall g :: !Serves(m, op, g)
      ensures !stop ==> Inv(m) && View(m) == Apply(old(View(m)), op) && out == OutcomeOf(old(View(m)), op)
    {
      var found, g := PickFrame(op);
      if !found { return true, Fault; }
      out := Execute(op, g);
      stop := false;
    }

    /** Any free frame that will do, if one is needed. */
    method PickFrame(op: Op) returns (found: bool, g: Frame)
      ensures if found then Serves(m, op, g) else forall f :: !Serves(m, op, f)
    {
      if Serves(m, op, 0) { return true, 0; }
      var frames := set f | f in m.ram && Serves(m, op, f);
      if frames == {} {
        assert forall f | Serves(m, op, f) :: f in m.ram && f in frames;
        return false, 0;
      }
      g :| g in frames;
      found := true;
    }

    /** One operation of the machine is the same operation of the specification. */
    method Execute(op: Op, g: Frame) returns (out: Outcome)
      requires Inv(m) && Legal(View(m), op) && Serves(m, op, g)
      modifies this
      ensures Inv(m) && View(m) == Apply(old(View(m)), op) && out == OutcomeOf(old(View(m)), op)
    {
      out := Done;
      match op
      case MapAnonymous(pid, first, count, writable, executable, zero) =>
        AllocPages(pid, first, count, writable, executable, zero);
      case MapGuard(pid, first, count) => NullPages(pid, first, count);
      case Unmap(pid, first, count) => UnmapPages(pid, first, count);
      case Fork(pid, child) => Fork(pid, child);
      case Exit(pid) => Exit(pid);
      case Read(pid, addr) => out := ReadByte(pid, addr, g);
      case Write(pid, addr, value) => out := WriteByte(pid, addr, value, g);
    }

    method NewProcess(child: int)
      requires Inv(m)
      modifies this
      ensures m == old(m).(pids := old(m).pids + {child})
      ensures Inv(m) && View(m) == World(old(View(m)).pids + {child}, old(View(m)).regions)
    {
      ghost var m0 := m;
      m := m.(pids := m.pids + {child});
      assert forall l | l in m.entries :: EntryInv(m0, l);
      forall f | f in m.pages ensures FrameInv(m, f) {
        assert FrameInv(m0, f) && Holders(m, f) == Holders(m0, f);
      }
    }
  }

  lemma InvOwned(m: Machine)
    requires Inv(m)
    ensures Owned(View(m))
  {
    forall l | l in m.entries ensures l.pid in m.pids { assert EntryInv(m, l); }
  }

  /** The world `v` and the outcomes are those of as many operations from `w`. */
  ghost predicate Reached(v: World, w: World, ops: seq<Op>, outs: seq<Outcome>) {
    |outs| <= |ops| && v == After(w, ops[..|outs|]) && outs == Outcomes(w, ops[..|outs|])
  }

  lemma ReachedNext(v: World, w: World, ops: seq<Op>, outs: seq<Outcome>)
    requires LegalRun(w, ops) && Reached(v, w, ops, outs) && |outs| < |ops|
    ensures Legal(v, ops[|outs|]) && Reached(Apply(v, ops[|outs|]), w, ops, outs + [OutcomeOf(v, ops[|outs|])])
  {
    var n := |outs|;
    AfterOneMore(w, ops, n);
    assert |outs + [OutcomeOf(v, ops[n])]| == n + 1;
  }

  lemma AfterOneMore(w: World, ops: seq<Op>, i: nat)
    requires LegalRun(w, ops) && i < |ops|
    ensures After(w, ops[..i + 1]) == Apply(After(w, ops[..i]), ops[i]) && Legal(After(w, ops[..i]), ops[i])
    ensures Outcomes(w, ops[..i + 1]) == Outcomes(w, ops[..i]) + [OutcomeOf(After(w, ops[..i]), ops[i])]
  {
    assert ops[..i + 1][..i] == ops[..i];
  }

  /** The loop of fork(): `v` is `w` with the pages of the parent outside `todo` copied. */
  ghost predicate CopiedSoFar(w: World, v: World, parent: int, child: int, todo: set<Place>) {
    && (forall k | k in w.regions :: k.pid != child && k in v.regions && v.regions[k] == w.regions[k])
    && (forall k | k in v.regions && k !in w.regions ::
          var from := Place(parent, k.page);
          k.pid == child && from in w.regions && from !in todo && v.regions[k] == w.regions[from])
    && (forall l | l in w.regions && l.pid == parent && l !in todo :: Place(child, l.page) in v.regions)
  }

  predicate SamePtesBut(a: map<Place, Pte>, b: map<Place, Pte>, pid: int) {
    && (forall k | k in a :: k.pid == pid || (k in b && a[k] == b[k]))
    && (forall k | k in b :: k in a && a[k] == b[k])
  }

  lemma ExitView(n: Machine, l: Place)
    requires Inv(n) && l in n.entries && Counted(n, l)
    ensures View(Detach(n, l, false)).pids == n.pids && Exited(View(Detach(n, l, false)), l.pid) == Exited(View(n), l.pid)
  {
    DetachView(n, l, false);
    assert Exited(View(Detach(n, l, false)), l.pid).regions == Exited(View(n), l.pid).regions;
  }

  lemma ExitErases(n: Machine, l: Place)
    requires l in n.entries && Counted(n, l)
    ensures var n' := Detach(n, l, false);
            && n'.entries == n.entries - {l} && n'.ptes == n.ptes - {l} && EraseEntry(n, l) == n'.(ptes := n.ptes)
  {
  }

  lemma ExitStep(n: Machine, l: Place)
    requires Inv(n) && l in n.entries
    ensures Counted(n, l)
    ensures var n' := Detach(n, l, false);
            && Inv(n') && n'.entries == n.entries - {l} && n'.ptes == n.ptes - {l}
            && View(n').pids == n.pids && Exited(View(n'), l.pid) == Exited(View(n), l.pid)
            && EraseEntry(n, l) == n'.(ptes := n.ptes)
  {
    DetachKeepsInv(n, l, false);
    ExitView(n, l);
    ExitErases(n, l);
  }

  /** The loop of minimize(): `n` is the machine with the page table cleaned up as well. */
  ghost predicate ExitSoFar(m: Machine, n: Machine, w: World, pid: int, todo: set<Place>) {
    && Inv(n) && m == n.(ptes := m.ptes) && SamePtesBut(m.ptes, n.ptes, pid)
    && (forall l :: l in todo <==> l in n.entries && l.pid == pid)
    && View(n).pids == w.pids && Exited(View(n), pid) == Exited(w, pid)
  }

  lemma ExitLoop(m: Machine, n: Machine, w: World, pid: int, todo: set<Place>, l: Place)
    requires ExitSoFar(m, n, w, pid, todo) && l in todo
    ensures Counted(n, l) && l in m.entries
    ensures m.entries[l].Memory? ==> m.entries[l].frame in m.pages && m.pages[m.entries[l].frame].objRefCount > 0
    ensures ExitSoFar(EraseEntry(m, l), Detach(n, l, false), w, pid, todo - {l})
  {
    ExitStep(n, l);
    var n', m' := Detach(n, l, false), EraseEntry(m, l);
    assert m' == n'.(ptes := m.ptes);
    assert SamePtesBut(m.ptes, n'.ptes, pid);
  }

  function PtesOfOthers(ptes: map<Place, Pte>, pid: int): map<Place, Pte> {
    map k | k in ptes && k.pid != pid :: ptes[k]
  }

  lemma ExitEnd(m: Machine, n: Machine, w: World, pid: int)
    requires ExitSoFar(m, n, w, pid, {})
    ensures var m' := m.(ptes := PtesOfOthers(m.ptes, pid), pids := m.pids - {pid});
            Inv(m') && View(m') == Exited(w, pid)
  {
    assert PtesOfOthers(m.ptes, pid) == n.ptes;
    assert View(n).regions == Exited(View(n), pid).regions;
  }

  lemma ForkStep(m: Machine, w: World, parent: int, child: int, todo: set<Place>, l: Place)
    requires Inv(m) && child in m.pids && l in todo && l in w.regions && l.pid == parent
    requires CopiedSoFar(w, View(m), parent, child, todo)
    ensures l in m.entries && Place(child, l.page) !in m.entries
    ensures m.entries[l].Memory? ==> m.entries[l].frame in m.pages
    ensures Inv(ForkPage(m, l, child)) && View(ForkPage(m, l, child)).pids == m.pids
    ensures CopiedSoFar(w, View(ForkPage(m, l, child)), parent, child, todo - {l})
  {
    assert l in View(m).regions;
    assert Place(child, l.page) in View(m).regions <==> Place(child, l.page) in m.entries;
    ForkPageCorrect(m, l, child);
    CopyOneMore(w, View(m), View(ForkPage(m, l, child)), parent, child, todo, l);
  }

  lemma CopiedAll(w: World, v: World, parent: int, child: int)
    requires CopiedSoFar(w, v, parent, child, {}) && v.pids == w.pids + {child}
    ensures v == Forked(w, parent, child)
  {
    var f := Forked(w, parent, child).regions;
    assert forall k | k in v.regions && k !in w.regions :: Place(parent, k.page) in w.regions;
    assert forall k | k in f && k !in w.regions :: k.pid == child && Place(parent, k.page) in w.regions;
    assert v.regions.Keys == f.Keys;
    assert v.regions == f;
  }

  lemma CopyOneMore(w: World, v: World, v': World, parent: int, child: int, todo: set<Place>, l: Place)
    requires CopiedSoFar(w, v, parent, child, todo) && l in todo && l in w.regions && l.pid == parent
    requires l in v.regions && v'.regions == v.regions[Place(child, l.page) := v.regions[l]]
    ensures CopiedSoFar(w, v', parent, child, todo - {l})
  {
  }
}
