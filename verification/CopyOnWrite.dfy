/** Copy-on-write process memory: kernel/src/tasking/process.cpp, fork() in
    kernel/src/tasking/syscalls/process.cpp, the counted pages of kernel/src/memory/ppage.cpp
    and kernel/src/memory/page/anonpage.cpp, for private anonymous memory. */
module CopyOnWrite {
  import opened EagerMemory

  type Frame = nat

  datatype PageFlags = PageFlags(writable: bool, executable: bool)

  /** PhysicalPage::Data. It is keyed by the frame it owns: `refCount` counts mappings,
      `objRefCount` counts PhysicalPage handles. */
  datatype PageData = PageData(refCount: nat, objRefCount: nat, flags: PageFlags, copyOnWrite: bool)

  /** Process::MemoryEntry. A MEMORY entry owns one handle on its frame. */
  datatype Entry = Memory(frame: Frame) | Anonymous(flags: PageFlags, zero: bool) | Empty

  /** A present page-table entry. */
  datatype Pte = Pte(frame: Frame, flags: PageFlags)

  /** The whole machine. `entries` is every process's f_memorymap and `ptes` every process's page
      table, both keyed by process and page; `ram` is all physical memory, `inUse` the frames
      palloc() has handed out, `pages` the live PhysicalPage::Data records. */
  datatype Machine = Machine(pids: set<int>, entries: map<Place, Entry>, ptes: map<Place, Pte>,
                             pages: map<Frame, PageData>, inUse: set<Frame>, ram: map<Frame, Page>)

  // ----- PhysicalPage (ppage.cpp) -----

  /** A frame palloc() may return. */
  predicate IsFree(m: Machine, f: Frame) {
    f in m.ram && f !in m.inUse
  }

  function NewPage(m: Machine, f: Frame): Machine
    requires IsFree(m, f)
  {
    m.(pages := m.pages[f := PageData(0, 1, PageFlags(false, false), false)], inUse := m.inUse + {f})
  }

  function CopyHandle(m: Machine, f: Frame): Machine
    requires f in m.pages
  {
    m.(pages := m.pages[f := m.pages[f].(objRefCount := m.pages[f].objRefCount + 1)])
  }

  /** The destructor: the last handle deletes the record, and frees the frame if nothing counts
      a mapping of it. */
  function DropHandle(m: Machine, f: Frame): Machine
    requires f in m.pages && m.pages[f].objRefCount > 0
  {
    var d := m.pages[f];
    if d.objRefCount > 1 then m.(pages := m.pages[f := d.(objRefCount := d.objRefCount - 1)])
    else m.(pages := m.pages - {f}, inUse := if d.refCount == 0 && f != 0 then m.inUse - {f} else m.inUse)
  }

  function Ref(m: Machine, f: Frame): Machine
    requires f in m.pages
  {
    m.(pages := m.pages[f := m.pages[f].(refCount := m.pages[f].refCount + 1)])
  }

  /** The precondition is the assertion in unref(). */
  function Unref(m: Machine, f: Frame): Machine
    requires f in m.pages && m.pages[f].refCount > 0
  {
    m.(pages := m.pages[f := m.pages[f].(refCount := m.pages[f].refCount - 1)])
  }

  function SetFlags(m: Machine, f: Frame, flags: PageFlags, copyOnWrite: bool): Machine
    requires f in m.pages
  {
    m.(pages := m.pages[f := m.pages[f].(flags := flags, copyOnWrite := copyOnWrite)])
  }

  // ----- The page table and the memory map -----

  function PagerMap(m: Machine, l: Place, pte: Pte): Machine {
    m.(ptes := m.ptes[l := pte])
  }

  function PagerUnmap(m: Machine, l: Place): Machine {
    m.(ptes := m.ptes - {l})
  }

  function PutEntry(m: Machine, l: Place, e: Entry): Machine {
    m.(entries := m.entries[l := e])
  }

  /** The entry at `l` holds a counted handle, if it is a MEMORY entry. */
  predicate Counted(m: Machine, l: Place) {
    l in m.entries && m.entries[l].Memory? ==>
      var f := m.entries[l].frame; f in m.pages && m.pages[f].objRefCount > 0 && m.pages[f].refCount > 0
  }

  /** Erasing an entry runs its destructor. */
  function EraseEntry(m: Machine, l: Place): Machine
    requires l in m.entries
    requires m.entries[l].Memory? ==> m.entries[l].frame in m.pages && m.pages[m.entries[l].frame].objRefCount > 0
  {
    var e := m.entries[l];
    var m1 := m.(entries := m.entries - {l});
    if e.Memory? then DropHandle(m1, e.frame) else m1
  }

  /** One iteration of Process::unmap_pages. */
  function UnmapPage(m: Machine, l: Place): Machine
    requires Counted(m, l)
  {
    if l !in m.entries then m
    else if m.entries[l].Memory? then EraseEntry(Unref(PagerUnmap(m, l), m.entries[l].frame), l)
    else EraseEntry(m, l)
  }

  /** Process::set_page_mapping. */
  function SetPageMapping(m: Machine, l: Place, e: Entry): Machine
    requires Counted(m, l)
  {
    PutEntry(UnmapPage(m, l), l, e)
  }

  // ----- The invariant -----

  /** The places that hold a handle on `f`. */
  ghost function Holders(m: Machine, f: Frame): set<Place> {
    set l | l in m.entries && m.entries[l] == Memory(f)
  }

  /** A resolved entry is mapped with the flags of its frame. */
  predicate EntryInv(m: Machine, l: Place)
    requires l in m.entries
  {
    && l.pid in m.pids && MIN_PAGE <= l.page < KERNEL_PAGE
    && (m.entries[l].Memory? ==>
        var f := m.entries[l].frame; f in m.pages && l in m.ptes && m.ptes[l] == Pte(f, m.pages[f].flags))
  }

  /** Handles are counted exactly, mappings at least; a writable frame has one holder. */
  ghost predicate FrameInv(m: Machine, f: Frame)
    requires f in m.pages
  {
    var d := m.pages[f];
    && f in m.inUse && f in m.ram
    && d.objRefCount == |Holders(m, f)| > 0
    && d.refCount >= d.objRefCount
    && (d.flags.writable ==> d.objRefCount == 1 && !d.copyOnWrite)
  }

  ghost predicate Inv(m: Machine) {
    && (forall l | l in m.entries :: EntryInv(m, l))
    && (forall l | l in m.ptes :: l in m.entries && m.entries[l].Memory?)
    && (forall f | f in m.pages :: FrameInv(m, f))
  }

  // ----- What the processes see -----

  /** A copy-on-write frame is one the process may write. */
  function RegionOf(m: Machine, e: Entry): Region {
    match e
    case Memory(f) =>
      if f in m.pages && f in m.ram then
        Private(m.ram[f], m.pages[f].flags.writable || m.pages[f].copyOnWrite, m.pages[f].flags.executable)
      else Guard
    case Anonymous(flags, _) => Private(ZERO_PAGE, flags.writable, flags.executable)
    case Empty => Guard
  }

  function View(m: Machine): World {
    World(m.pids, map l | l in m.entries :: RegionOf(m, m.entries[l]))
  }

  // ----- Attaching and detaching one page -----

  lemma OneElement<T>(s: set<T>, a: T, b: T)
    requires |s| == 1 && a in s && b in s
    ensures a == b
  {
    assert |s - {a}| == 0;
  }

  /** Give the empty place `l` a frame of its own. */
  function AttachFresh(m: Machine, l: Place, g: Frame, content: Page, flags: PageFlags): Machine {
    m.(entries := m.entries[l := Memory(g)], ptes := m.ptes[l := Pte(g, flags)],
       pages := m.pages[g := PageData(1, 1, flags, false)], inUse := m.inUse + {g}, ram := m.ram[g := content])
  }

  lemma AttachFreshKeepsInv(m: Machine, l: Place, g: Frame, content: Page, flags: PageFlags)
    requires Inv(m) && l.pid in m.pids && l !in m.entries && InUserRange(l.page, 1) && IsFree(m, g)
    ensures Inv(AttachFresh(m, l, g, content, flags))
  {
    var m' := AttachFresh(m, l, g, content, flags);
    assert g !in m.pages by { assert forall f | f in m.pages :: FrameInv(m, f); }
    assert Holders(m', g) == {l} by { assert forall k | k in m.entries :: EntryInv(m, k); }
    forall f | f in m'.pages ensures FrameInv(m', f) {
      if f != g { assert FrameInv(m, f) && Holders(m', f) == Holders(m, f); }
    }
    forall k | k in m'.entries ensures EntryInv(m', k) {
      if k != l { assert EntryInv(m, k); }
    }
  }

  lemma AttachFreshView(m: Machine, l: Place, g: Frame, content: Page, flags: PageFlags)
    requires Inv(m) && l !in m.entries && IsFree(m, g)
    ensures View(AttachFresh(m, l, g, content, flags)).regions
         == View(m).regions[l := Private(content, flags.writable, flags.executable)]
  {
    var m' := AttachFresh(m, l, g, content, flags);
    forall k | k in m.entries ensures RegionOf(m', m.entries[k]) == RegionOf(m, m.entries[k]) {
      assert EntryInv(m, k);
      if m.entries[k].Memory? { assert FrameInv(m, m.entries[k].frame); }
    }
  }

  /** Erasing the entry at `l` takes `l`, and nothing else, from the holders of its frame. */
  lemma HoldersWithout(m: Machine, m': Machine, l: Place, f: Frame)
    requires l in m.entries && m'.entries == m.entries - {l}
    ensures Holders(m', f) == Holders(m, f) - {l}
    ensures |Holders(m', f)| == |Holders(m, f)| - if m.entries[l] == Memory(f) then 1 else 0
  {
  }

  /** Detaching a page: unmap_pages drops the mapping count, minimize() does not. */
  function Detach(m: Machine, l: Place, unref: bool): Machine
    requires l in m.entries && Counted(m, l)
  {
    var m1 := PagerUnmap(m, l);
    EraseEntry(if unref && m.entries[l].Memory? then Unref(m1, m.entries[l].frame) else m1, l)
  }

  lemma DetachKeepsInv(m: Machine, l: Place, unref: bool)
    requires Inv(m) && l in m.entries && Counted(m, l)
    ensures Inv(Detach(m, l, unref))
  {
    forall f | f in Detach(m, l, unref).pages ensures FrameInv(Detach(m, l, unref), f) {
      DetachKeepsFrame(m, l, unref, f);
    }
    DetachKeepsEntries(m, l, unref);
  }

  /** The frames that are left, and their counts. */
  lemma DetachedFrame(m: Machine, l: Place, unref: bool, f: Frame)
    requires l in m.entries && Counted(m, l) && f in Detach(m, l, unref).pages
    ensures var m', here, d := Detach(m, l, unref), if m.entries[l] == Memory(f) then 1 else 0, Detach(m, l, unref).pages[f];
            && m'.entries == m.entries - {l} && m'.ram == m.ram && f in m.pages && (f in m.inUse ==> f in m'.inUse)
            && (d.flags, d.copyOnWrite) == (m.pages[f].flags, m.pages[f].copyOnWrite)
            && d.objRefCount == m.pages[f].objRefCount - here && (here == 1 ==> d.objRefCount > 0)
            && d.refCount == m.pages[f].refCount - if unref then here else 0
  {
  }

  lemma DetachKeepsFrame(m: Machine, l: Place, unref: bool, f: Frame)
    requires Inv(m) && l in m.entries && Counted(m, l) && f in Detach(m, l, unref).pages
    ensures FrameInv(Detach(m, l, unref), f)
  {
    DetachedFrame(m, l, unref, f);
    assert FrameInv(m, f);
    HoldersWithout(m, Detach(m, l, unref), l, f);
  }

  lemma DetachKeepsEntries(m: Machine, l: Place, unref: bool)
    requires Inv(m) && l in m.entries && Counted(m, l)
    ensures var m' := Detach(m, l, unref); forall k | k in m'.entries :: EntryInv(m', k)
  {
    var m' := Detach(m, l, unref);
    forall k | k in m'.entries ensures EntryInv(m', k) {
      assert EntryInv(m, k);
      if m.entries[k].Memory? {
        var f := m.entries[k].frame;
        assert FrameInv(m, f);
        if m.entries[l] == Memory(f) && m.pages[f].objRefCount == 1 { OneElement(Holders(m, f), k, l); }
      }
    }
  }

  lemma DetachView(m: Machine, l: Place, unref: bool)
    requires Inv(m) && l in m.entries && Counted(m, l)
    ensures View(Detach(m, l, unref)).regions == View(m).regions - {l}
  {
    var m' := Detach(m, l, unref);
    forall k | k in m'.entries ensures RegionOf(m', m.entries[k]) == RegionOf(m, m.entries[k]) {
      assert EntryInv(m, k);
      if m.entries[k].Memory? {
        var f := m.entries[k].frame;
        assert FrameInv(m, f);
        if m.entries[l] == Memory(f) && m.pages[f].objRefCount == 1 { OneElement(Holders(m, f), k, l); }
      }
    }
  }

  /** unmap_pages keeps the invariant and removes exactly one page from what is seen. */
  lemma UnmapPageCorrect(m: Machine, l: Place)
    requires Inv(m)
    ensures Counted(m, l)
    ensures Inv(UnmapPage(m, l)) && UnmapPage(m, l).entries == m.entries - {l}
    ensures UnmapPage(m, l).inUse <= m.inUse && UnmapPage(m, l).ram == m.ram
    ensures View(UnmapPage(m, l)) == View(m).(regions := View(m).regions - {l})
  {
    if l in m.entries {
      assert !m.entries[l].Memory? ==> l !in m.ptes && m.ptes - {l} == m.ptes;
      assert UnmapPage(m, l) == Detach(m, l, true);
      DetachKeepsInv(m, l, true);
      DetachView(m, l, true);
    }
  }

  // ----- Page faults -----

  /** Process::map_page, for a private page. */
  function MapPage(m: Machine, l: Place, f: Frame): Machine
    requires f in m.pages && Counted(m, l)
  {
    var m1 := Ref(m, f);
    var m2 := PagerMap(m1, l, Pte(f, m1.pages[f].flags));
    var m3 := CopyHandle(m2, f);
    SetPageMapping(m3, l, Memory(f))
  }

  /** map_page maps the page first and then removes the old mapping of the same address: the new
      page stays mapped exactly when no resolved page was there. Its two callers, the fault
      handler and fork, only meet that case. */
  lemma MapPageStaysMapped(m: Machine, l: Place, f: Frame)
    requires f in m.pages && Counted(m, l)
    ensures l in MapPage(m, l, f).ptes <==> !(l in m.entries && m.entries[l].Memory?)
    ensures MapPage(m, l, f).entries[l] == Memory(f)
  {
  }

  /** The ANONYMOUS case of handle_page_fault with AnonymousPage::resolve; `g` is what palloc()
      returns. A page at physical address 0 counts as no page at all. */
  function ResolveAnonymous(m: Machine, l: Place, g: Frame): (Machine, bool)
    requires l in m.entries && m.entries[l].Anonymous? && IsFree(m, g)
  {
    var m1 := SetFlags(NewPage(m, g), g, m.entries[l].flags, false);
    var m2 := if m.entries[l].zero then m1.(ram := m1.ram[g := ZERO_PAGE]) else m1;
    if g == 0 then (DropHandle(m2, g), false)
    else
      var m3 := MapPage(m2, l, g);
      var m4 := m3.(ram := m3.ram[g := ZERO_PAGE]);
      (DropHandle(m4, g), true)
  }

  /** A copy-on-write page with more than one reference is copied to `g` and mapped writable... */
  function MapCopy(m: Machine, l: Place, g: Frame): Machine
    requires l in m.entries && m.entries[l].Memory? && IsFree(m, g)
    requires m.entries[l].frame in m.pages && m.entries[l].frame in m.ram
  {
    var f := m.entries[l].frame;
    var m1 := NewPage(m, g);
    var m2 := m1.(ram := m1.ram[g := m1.ram[f]]);
    var m3 := Ref(m2, g);
    var m4 := SetFlags(m3, g, m3.pages[f].flags.(writable := true), false);
    PagerMap(m4, l, Pte(g, m4.pages[g].flags))
  }

  /** ... and the entry gives up its old frame for the copy. */
  function CopyPage(m: Machine, l: Place, g: Frame): Machine
    requires l in m.entries && m.entries[l].Memory? && Counted(m, l) && IsFree(m, g) && g !in m.pages
    requires m.entries[l].frame in m.ram
  {
    var f := m.entries[l].frame;
    var m1 := DropHandle(Unref(MapCopy(m, l, g), f), f);
    var m2 := PutEntry(CopyHandle(m1, g), l, Memory(g));
    DropHandle(m2, g)
  }

  /** The last reference of a copy-on-write page becomes writable in place. */
  function ReusePage(m: Machine, l: Place): Machine
    requires l in m.entries && m.entries[l].Memory? && m.entries[l].frame in m.pages
  {
    var f := m.entries[l].frame;
    var m1 := SetFlags(m, f, m.pages[f].flags.(writable := true), false);
    PagerMap(m1, l, Pte(f, m1.pages[f].flags))
  }

  lemma ResolveAnonymousShape(m: Machine, l: Place, g: Frame)
    requires l in m.entries && m.entries[l].Anonymous? && IsFree(m, g) && g !in m.pages && l !in m.ptes && g != 0
    ensures ResolveAnonymous(m, l, g) == (AttachFresh(UnmapPage(m, l), l, g, ZERO_PAGE, m.entries[l].flags), true)
  {
    var m', n := ResolveAnonymous(m, l, g).0, AttachFresh(UnmapPage(m, l), l, g, ZERO_PAGE, m.entries[l].flags);
    ResolvedPages(m, l, g);
    assert m'.ram == n.ram;
    assert m'.entries == n.entries;
  }

  lemma ResolvedPages(m: Machine, l: Place, g: Frame)
    requires l in m.entries && m.entries[l].Anonymous? && IsFree(m, g) && g !in m.pages && l !in m.ptes && g != 0
    ensures ResolveAnonymous(m, l, g).0.pages == m.pages[g := PageData(1, 1, m.entries[l].flags, false)]
  {
  }

  lemma MapCopyShape(m: Machine, l: Place, g: Frame)
    requires l in m.entries && m.entries[l].Memory? && IsFree(m, g) && g !in m.pages
    requires m.entries[l].frame in m.pages && m.entries[l].frame in m.ram
    ensures var f := m.entries[l].frame;
            var flags := m.pages[f].flags.(writable := true);
            MapCopy(m, l, g) == AttachFresh(m, l, g, m.ram[f], flags).(entries := m.entries)
  {
    var f := m.entries[l].frame;
    assert MapCopy(m, l, g).pages == m.pages[g := PageData(1, 1, m.pages[f].flags.(writable := true), false)];
  }

  lemma CopyPageShape(m: Machine, l: Place, g: Frame)
    requires l in m.entries && m.entries[l].Memory? && Counted(m, l) && IsFree(m, g) && g !in m.pages
    requires m.entries[l].frame in m.ram && m.pages[m.entries[l].frame].refCount > 1
    ensures var f := m.entries[l].frame;
            CopyPage(m, l, g) == AttachFresh(UnmapPage(m, l), l, g, m.ram[f], m.pages[f].flags.(writable := true))
  {
    var f := m.entries[l].frame;
    MapCopyShape(m, l, g);
    var m', n := CopyPage(m, l, g), AttachFresh(UnmapPage(m, l), l, g, m.ram[f], m.pages[f].flags.(writable := true));
    assert m'.entries == n.entries;
    assert m'.ptes == n.ptes;
    CopyPagePages(m, l, g);
  }

  lemma CopyPagePages(m: Machine, l: Place, g: Frame)
    requires l in m.entries && m.entries[l].Memory? && Counted(m, l) && IsFree(m, g) && g !in m.pages
    requires m.entries[l].frame in m.ram && m.pages[m.entries[l].frame].refCount > 1
    ensures var f := m.entries[l].frame;
            CopyPage(m, l, g).pages == AttachFresh(UnmapPage(m, l), l, g, m.ram[f], m.pages[f].flags.(writable := true)).pages
  {
    MapCopyShape(m, l, g);
  }

  lemma PutBack<T>(a: map<Place, T>, l: Place, x: T)
    requires l in a
    ensures (a - {l})[l := x] == a[l := x]
    ensures a[l := a[l]] == a
  {
  }

  /** Putting a fresh frame with the same visible bytes and protection where a page was removed. */
  lemma ReplacePageCorrect(m: Machine, n: Machine, l: Place, g: Frame, content: Page, flags: PageFlags)
    requires Inv(n) && l.pid in n.pids && InUserRange(l.page, 1) && IsFree(n, g)
    requires l in m.entries && n.entries == m.entries - {l}
    requires View(n) == View(m).(regions := View(m).regions - {l})
    requires View(m).regions[l] == Private(content, flags.writable, flags.executable)
    ensures var m' := AttachFresh(n, l, g, content, flags);
            Inv(m') && View(m') == View(m) && m'.entries == m.entries[l := Memory(g)]
  {
    AttachFreshKeepsInv(n, l, g, content, flags);
    AttachFreshView(n, l, g, content, flags);
    PutBack(View(m).regions, l, View(m).regions[l]);
    PutBack(m.entries, l, Memory(g));
  }

  /** First touch of an anonymous page: nobody sees a difference. */
  lemma ResolveAnonymousCorrect(m: Machine, l: Place, g: Frame, m': Machine)
    requires Inv(m) && l in m.entries && m.entries[l].Anonymous? && IsFree(m, g) && g != 0
    requires m' == AttachFresh(UnmapPage(m, l), l, g, ZERO_PAGE, m.entries[l].flags)
    ensures ResolveAnonymous(m, l, g) == (m', true)
    ensures Inv(m') && View(m') == View(m) && m'.entries == m.entries[l := Memory(g)]
  {
    assert l !in m.ptes && EntryInv(m, l);
    ResolveAnonymousShape(m, l, g);
    UnmapPageCorrect(m, l);
    ReplacePageCorrect(m, UnmapPage(m, l), l, g, ZERO_PAGE, m.entries[l].flags);
  }

  /** When palloc() returns physical address 0 the fault fails although the page is mapped. */
  lemma ResolveAnonymousAtZero(m: Machine, l: Place)
    requires Inv(m) && l in m.entries && m.entries[l].Anonymous? && IsFree(m, 0)
    ensures !ResolveAnonymous(m, l, 0).1 && ResolveAnonymous(m, l, 0).0.entries == m.entries
    ensures Readable(View(m), l)
  {
  }

  /** Copying a copy-on-write page: nobody sees a difference, and the page becomes writable. */
  lemma CopyPageCorrect(m: Machine, l: Place, g: Frame)
    requires Inv(m) && l in m.entries && m.entries[l].Memory? && IsFree(m, g)
    requires var f := m.entries[l].frame; f in m.pages && m.pages[f].copyOnWrite && m.pages[f].refCount > 1
    ensures Counted(m, l) && g !in m.pages && m.entries[l].frame in m.ram
    ensures Inv(CopyPage(m, l, g)) && View(CopyPage(m, l, g)) == View(m)
    ensures CopyPage(m, l, g).entries == m.entries[l := Memory(g)]
    ensures l in CopyPage(m, l, g).ptes && CopyPage(m, l, g).ptes[l].flags.writable
  {
    var f := m.entries[l].frame;
    UnmapPageCorrect(m, l);
    assert FrameInv(m, f) && EntryInv(m, l);
    CopyPageShape(m, l, g);
    ReplacePageCorrect(m, UnmapPage(m, l), l, g, m.ram[f], m.pages[f].flags.(writable := true));
  }

  lemma ReusePageCorrect(m: Machine, l: Place)
    requires Inv(m) && l in m.entries && m.entries[l].Memory?
    requires var f := m.entries[l].frame; f in m.pages && m.pages[f].copyOnWrite && m.pages[f].refCount <= 1
    ensures Inv(ReusePage(m, l)) && View(ReusePage(m, l)) == View(m)
    ensures ReusePage(m, l).entries == m.entries && l in ReusePage(m, l).ptes && ReusePage(m, l).ptes[l].flags.writable
  {
    var m' := ReusePage(m, l);
    var f := m.entries[l].frame;
    assert EntryInv(m, l);
    forall h | h in m'.pages ensures FrameInv(m', h) {
      assert FrameInv(m, h) && Holders(m', h) == Holders(m, h);
    }
    forall k | k in m'.entries ensures EntryInv(m', k) && RegionOf(m', m.entries[k]) == RegionOf(m, m.entries[k]) {
      assert EntryInv(m, k);
      if m.entries[k] == Memory(f) { assert FrameInv(m, f); OneElement(Holders(m, f), k, l); }
    }
  }

  // ----- Mapping, forking, writing -----

  lemma PutPlainCorrect(m: Machine, l: Place, e: Entry)
    requires Inv(m) && l !in m.entries && !e.Memory? && l.pid in m.pids && InUserRange(l.page, 1)
    ensures Inv(PutEntry(m, l, e))
    ensures View(PutEntry(m, l, e)) == View(m).(regions := View(m).regions[l := RegionOf(m, e)])
  {
    PutPlainKeepsInv(m, l, e);
    var m' := PutEntry(m, l, e);
    assert View(m').regions == View(m).regions[l := RegionOf(m, e)];
  }

  lemma PutPlainKeepsInv(m: Machine, l: Place, e: Entry)
    requires Inv(m) && l !in m.entries && !e.Memory? && l.pid in m.pids && InUserRange(l.page, 1)
    ensures Inv(PutEntry(m, l, e))
  {
    var m' := PutEntry(m, l, e);
    forall f | f in m'.pages ensures FrameInv(m', f) {
      assert FrameInv(m, f) && Holders(m', f) == Holders(m, f);
    }
    forall k | k in m'.entries ensures EntryInv(m', k) {
      if k != l { assert EntryInv(m, k); }
    }
  }

  /** set_page_mapping with an unresolved entry replaces whatever was mapped there. */
  lemma SetPageMappingCorrect(m: Machine, l: Place, e: Entry)
    requires Inv(m) && !e.Memory? && l.pid in m.pids && InUserRange(l.page, 1)
    ensures Counted(m, l) && Inv(SetPageMapping(m, l, e))
    ensures View(SetPageMapping(m, l, e)) == View(m).(regions := View(m).regions[l := RegionOf(m, e)])
  {
    UnmapPageCorrect(m, l);
    var n := UnmapPage(m, l);
    PutPlainCorrect(n, l, e);
    if l in m.entries { PutBack(View(m).regions, l, RegionOf(m, e)); }
    else { assert View(m).regions - {l} == View(m).regions; }
  }

  /** fork() takes write access away from a private page and marks it copy-on-write. */
  function Protect(m: Machine, l: Place): Machine
    requires l in m.entries && m.entries[l].Memory? && m.entries[l].frame in m.pages
  {
    var f := m.entries[l].frame;
    if m.pages[f].flags.writable then
      var m1 := SetFlags(m, f, m.pages[f].flags.(writable := false), true);
      PagerMap(m1, l, Pte(f, m1.pages[f].flags))
    else m
  }

  lemma ProtectCorrect(m: Machine, l: Place)
    requires Inv(m) && l in m.entries && m.entries[l].Memory? && m.entries[l].frame in m.pages
    ensures var m' := Protect(m, l);
            Inv(m') && View(m') == View(m) && m'.entries == m.entries && m'.pages.Keys == m.pages.Keys
            && !m'.pages[m.entries[l].frame].flags.writable
  {
    var m' := Protect(m, l);
    var f := m.entries[l].frame;
    assert EntryInv(m, l);
    forall h | h in m'.pages ensures FrameInv(m', h) {
      assert FrameInv(m, h) && Holders(m', h) == Holders(m, h);
    }
    forall k | k in m'.entries ensures EntryInv(m', k) && RegionOf(m', m.entries[k]) == RegionOf(m, m.entries[k]) {
      assert EntryInv(m, k);
      if m.entries[k] == Memory(f) && m.pages[f].flags.writable { assert FrameInv(m, f); OneElement(Holders(m, f), k, l); }
    }
  }

  /** One more holder of a frame that is not writable. */
  function AttachShared(m: Machine, k: Place, f: Frame): Machine
    requires f in m.pages
  {
    var d := m.pages[f];
    m.(entries := m.entries[k := Memory(f)], ptes := m.ptes[k := Pte(f, d.flags)],
       pages := m.pages[f := d.(refCount := d.refCount + 1, objRefCount := d.objRefCount + 1)])
  }

  lemma AttachSharedKeepsInv(m: Machine, k: Place, f: Frame)
    requires Inv(m) && k !in m.entries && k.pid in m.pids && InUserRange(k.page, 1)
    requires f in m.pages && !m.pages[f].flags.writable
    ensures Inv(AttachShared(m, k, f))
  {
    var m' := AttachShared(m, k, f);
    forall h | h in m'.pages ensures FrameInv(m', h) {
      assert FrameInv(m, h);
      assert Holders(m', h) == if h == f then Holders(m, h) + {k} else Holders(m, h);
    }
    forall l | l in m'.entries ensures EntryInv(m', l) {
      if l != k { assert EntryInv(m, l); }
    }
  }

  lemma AttachSharedView(m: Machine, k: Place, f: Frame)
    requires k !in m.entries && f in m.pages
    ensures View(AttachShared(m, k, f)) == View(m).(regions := View(m).regions[k := RegionOf(m, Memory(f))])
    ensures AttachShared(m, k, f) == MapPage(m, k, f)
  {
    forall e ensures RegionOf(AttachShared(m, k, f), e) == RegionOf(m, e) {
    }
    AttachSharedIsMap(m, k, f);
  }

  lemma AttachSharedIsMap(m: Machine, k: Place, f: Frame)
    requires k !in m.entries && f in m.pages
    ensures AttachShared(m, k, f) == MapPage(m, k, f)
  {
  }

  /** One iteration of the loop in fork(): the child gets what the parent has at `l`. */
  function ForkPage(m: Machine, l: Place, child: int): Machine
    requires l in m.entries && (m.entries[l].Memory? ==> m.entries[l].frame in m.pages)
    requires Place(child, l.page) !in m.entries
  {
    if m.entries[l].Memory? then MapPage(Protect(m, l), Place(child, l.page), m.entries[l].frame)
    else PutEntry(m, Place(child, l.page), m.entries[l])
  }

  lemma ForkPageCorrect(m: Machine, l: Place, child: int)
    requires Inv(m) && l in m.entries && Place(child, l.page) !in m.entries && child in m.pids
    ensures m.entries[l].Memory? ==> m.entries[l].frame in m.pages
    ensures Inv(ForkPage(m, l, child))
    ensures View(ForkPage(m, l, child)) == View(m).(regions := View(m).regions[Place(child, l.page) := View(m).regions[l]])
  {
    assert EntryInv(m, l);
    if m.entries[l].Memory? {
      ProtectCorrect(m, l);
      var n := Protect(m, l);
      AttachSharedKeepsInv(n, Place(child, l.page), m.entries[l].frame);
      AttachSharedView(n, Place(child, l.page), m.entries[l].frame);
      assert View(n).regions[l] == RegionOf(n, n.entries[l]);
    } else {
      PutPlainCorrect(m, Place(child, l.page), m.entries[l]);
    }
  }

  /** A store through a writable mapping changes one page of one process. */
  lemma StoreCorrect(m: Machine, l: Place, content: Page)
    requires Inv(m) && l in m.ptes && m.ptes[l].flags.writable
    ensures l in m.entries && m.entries[l] == Memory(m.ptes[l].frame) && m.ptes[l].frame in m.ram
    ensures Writable(View(m), l) && View(m).regions[l].content == m.ram[m.ptes[l].frame]
    ensures var m' := m.(ram := m.ram[m.ptes[l].frame := content]);
            Inv(m') && View(m') == View(m).(regions := View(m).regions[l := View(m).regions[l].(content := content)])
  {
    var f := m.ptes[l].frame;
    var m' := m.(ram := m.ram[f := content]);
    assert EntryInv(m, l) && FrameInv(m, f);
    forall h | h in m'.pages ensures FrameInv(m', h) {
      assert FrameInv(m, h) && Holders(m', h) == Holders(m, h);
    }
    forall k | k in m'.entries ensures EntryInv(m', k) && (k != l ==> RegionOf(m', m.entries[k]) == RegionOf(m, m.entries[k])) {
      assert EntryInv(m, k);
      if m.entries[k] == Memory(f) { OneElement(Holders(m, f), k, l); }
    }
  }
}
