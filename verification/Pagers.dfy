/** The operations of Pager in kernel/src/memory/virtual.cpp, proved to change the flat map from
    pages to entries on exactly the pages they name. */
module Pagers {
  import opened PageTables

  /** The first page of the window through which page tables are accessed, the last 512 pages. The
      operations are not for pages of the window, and they change what it shows. */
  const WINDOW: nat := 0xF_FFFF_FE00

  datatype PageFlags = PageFlags(writable: bool, userAccessible: bool, executable: bool, isGlobal: bool,
                                 cacheDisable: bool, dirty: bool)

  /** The stores of Pager::flags. */
  function WithFlags(e: Entry, flags: PageFlags): Entry {
    e.(present := true, write := flags.writable, user := flags.userAccessible, executeDisable := !flags.executable,
       isGlobal := flags.isGlobal, cacheDisabled := flags.cacheDisable, dirty := flags.dirty)
  }

  /** The entry gives the page these rights. */
  predicate HasFlags(e: Entry, flags: PageFlags) {
    && e.present && e.write == flags.writable && e.user == flags.userAccessible && e.executeDisable == !flags.executable
    && e.isGlobal == flags.isGlobal && e.cacheDisabled == flags.cacheDisable && e.dirty == flags.dirty
  }

  /** What one of the loops does to the entry of page `u`. */
  datatype Change = MapFrom(phys: Frame, virt: nat, flags: PageFlags) | SetFlags(flags: PageFlags) | Clear

  function Changed(c: Change, e: Entry, u: nat): Entry {
    match c
    case MapFrom(phys, virt, flags) => WithFlags(e.(address := if u >= virt then phys + (u - virt) else phys), flags)
    case SetFlags(flags) => WithFlags(e, flags)
    case Clear => ZERO
  }

  /** The address spaces of all pagers. */
  datatype World = World(s: Forest, roots: map<int, Frame>, kernelPd: seq<Frame>)

  predicate Ok(w: World) {
    PagersOk(w.s, w.roots, w.kernelPd)
  }

  function At(w: World, p: int, v: nat): Entry
    requires Ok(w) && p in w.roots
  {
    Lookup(w.s, w.roots, w.kernelPd, p, v)
  }

  function TableAt(w: World, p: int, v: nat): seq<Frame>
    requires Ok(w) && p in w.roots
  {
    PageTableOf(w.s, w.roots, w.kernelPd, p, v)
  }

  /** A change made through pager `p` shows in pager `q` too: its own pages, and kernel pages. */
  predicate Shows(p: int, q: int, u: nat) {
    q == p || u >= KERNEL_START_PAGE
  }

  /** The flat map itself: what each pager has for each page. */
  type Flat = (int, nat) -> Entry

  ghost function FlatOf(w: World): Flat {
    (q: int, u: nat) => if Ok(w) && q in w.roots then At(w, q, u) else ZERO
  }

  /** `a'` is `a` with the pages `virt`, ..., `virt + n - 1` of pager `p` changed, wherever that
      shows, and nothing else. */
  ghost predicate ChangedFrom(a: Flat, a': Flat, pagers: set<int>, p: int, virt: nat, n: nat, c: Change) {
    forall q: int, u: nat | q in pagers && u < WINDOW ::
      a'(q, u) == if virt <= u < virt + n && Shows(p, q, u) then Changed(c, a(q, u), u) else a(q, u)
  }

  /** The n pages from `virt`, through every pager that shows them, are present with the flags and
      lead to the n frames from `phys`; no other page has changed. */
  ghost predicate LeadTo(a: Flat, a': Flat, pagers: set<int>, p: int, virt: nat, n: nat, phys: Frame, flags: PageFlags) {
    forall q: int, u: nat | q in pagers && u < WINDOW ::
      if virt <= u < virt + n && Shows(p, q, u) then
        a'(q, u).address == phys + (u - virt) && HasFlags(a'(q, u), flags) && a'(q, u).other == a(q, u).other
      else a'(q, u) == a(q, u)
  }

  /** They are present with the flags and lead where they led. */
  ghost predicate HaveFlags(a: Flat, a': Flat, pagers: set<int>, p: int, virt: nat, n: nat, flags: PageFlags) {
    forall q: int, u: nat | q in pagers && u < WINDOW ::
      if virt <= u < virt + n && Shows(p, q, u) then
        a'(q, u).address == a(q, u).address && HasFlags(a'(q, u), flags) && a'(q, u).other == a(q, u).other
      else a'(q, u) == a(q, u)
  }

  /** They are not present, and nothing is left of their entries. */
  ghost predicate AreGone(a: Flat, a': Flat, pagers: set<int>, p: int, virt: nat, n: nat) {
    forall q: int, u: nat | q in pagers && u < WINDOW ::
      if virt <= u < virt + n && Shows(p, q, u) then a'(q, u) == Entry(false, false, false, false, false, false, 0, false, 0)
      else a'(q, u) == a(q, u)
  }

  /** `a'` is `a` with one page of pager `p` set to `e`, wherever that shows. */
  ghost predicate OneWritten(a: Flat, a': Flat, pagers: set<int>, p: int, v: nat, e: Entry) {
    forall q: int, u: nat | q in pagers && u < WINDOW :: a'(q, u) == if u == v && Shows(p, q, u) then e else a(q, u)
  }

  ghost predicate SameMaps(a: Flat, a': Flat, pagers: set<int>) {
    forall q: int, u: nat | q in pagers && u < WINDOW :: a'(q, u) == a(q, u)
  }

  /** Kernel pages look the same through every pager. */
  ghost predicate KernelShared(a: Flat, pagers: set<int>) {
    forall p: int, q: int, u: nat | p in pagers && q in pagers && u < WINDOW && Shows(p, q, u) :: a(p, u) == a(q, u)
  }

  /** The three changes in plain terms. */
  lemma ChangedMeans(a: Flat, a': Flat, pagers: set<int>, p: int, virt: nat, n: nat, c: Change)
    requires ChangedFrom(a, a', pagers, p, virt, n, c) && (c.MapFrom? ==> c.virt == virt)
    ensures c.MapFrom? ==> LeadTo(a, a', pagers, p, virt, n, c.phys, c.flags)
    ensures c.SetFlags? ==> HaveFlags(a, a', pagers, p, virt, n, c.flags)
    ensures c.Clear? ==> AreGone(a, a', pagers, p, virt, n)
  {
  }

  /** Tables are only added: what was present stays. */
  predicate Kept(s: Forest, s': Forest) {
    forall h | h in s.tables :: h in s'.tables && |s'.tables[h]| == |s.tables[h]|
      && (h in s.place ==> h in s'.place && s'.place[h] == s.place[h])
      && forall k | 0 <= k < |s.tables[h]| && s.tables[h][k].present :: s'.tables[h][k] == s.tables[h][k]
  }

  lemma KeptPagers(w: World, s': Forest)
    requires Ok(w) && Inv(s') && Kept(w.s, s')
    ensures Ok(w.(s := s'))
  {
    forall p | p in w.roots ensures PagerOk(s', p, w.roots[p], w.kernelPd) {
      assert PagerOk(w.s, p, w.roots[p], w.kernelPd);
      assert TableOk(w.s, w.roots[p]);
    }
  }

  lemma TableAdded(w: World, f: Frame, i: nat, g: Frame)
    requires Ok(w) && f in w.s.tables && i < ENTRIES && Depth(w.s.place[f]) > 1 && g !in w.s.tables
    requires !w.s.tables[f][i].present
    ensures var s' := WithTable(w.s, f, i, g);
            && Inv(s') && Kept(w.s, s') && Ok(w.(s := s')) && SameMaps(FlatOf(w), FlatOf(w.(s := s')), w.roots.Keys)
            && s'.tables[f][i] == Link(g) && g in s'.tables && s'.place[g] == Child(w.s.place[f], i)
  {
    var s' := WithTable(w.s, f, i, g);
    WithTableKeepsInv(w.s, f, i, g);
    assert TableOk(w.s, f);
    KeptPagers(w, s');
    forall q: int, u: nat | q in w.roots && u < WINDOW ensures FlatOf(w.(s := s'))(q, u) == FlatOf(w)(q, u) {
      assert PagerOk(w.s, q, w.roots[q], w.kernelPd);
      WithTableKeepsWalks(w.s, f, i, g, w.roots[q], Path(u));
    }
  }

  /** Three present links are a walk. */
  lemma WalkOfLinks(w: World, p: int, v: nat, t3: Frame, t2: Frame, pt: Frame)
    requires Ok(w) && p in w.roots && w.roots[p] in w.s.tables && |w.s.tables[w.roots[p]]| == ENTRIES
    requires w.s.tables[w.roots[p]][Path(v)[0]].present && w.s.tables[w.roots[p]][Path(v)[0]].address == t3
    requires t3 in w.s.tables && |w.s.tables[t3]| == ENTRIES && w.s.tables[t3][Path(v)[1]].present && w.s.tables[t3][Path(v)[1]].address == t2
    requires t2 in w.s.tables && |w.s.tables[t2]| == ENTRIES && w.s.tables[t2][Path(v)[2]].present && w.s.tables[t2][Path(v)[2]].address == pt
    ensures TableAt(w, p, v) == [pt]
  {
    var root, path := w.roots[p], Path(v);
    assert PagerOk(w.s, p, root, w.kernelPd) && TableOk(w.s, root) && TableOk(w.s, t3) && TableOk(w.s, t2);
    assert WalkTo(w.s, root, path) == WalkTo(w.s, t3, path[1..]);
    assert WalkTo(w.s, t3, path[1..]) == WalkTo(w.s, t2, path[1..][1..]);
    assert path[1..][1..][0] == path[2];
    assert WalkTo(w.s, t2, path[1..][1..]) == [pt];
  }

  /** One turn of the loops: the entry read is the one the flat map has, and writing it changes
      one page. */
  lemma EntryRead(w: World, p: int, v: nat, pt: Frame)
    requires Ok(w) && p in w.roots && TableAt(w, p, v) == [pt]
    ensures pt in w.s.tables && |w.s.tables[pt]| == ENTRIES && pt in w.s.place && Depth(w.s.place[pt]) == 1
    ensures w.s.tables[pt][Path(v)[3]] == At(w, p, v)
  {
    assert PagerOk(w.s, p, w.roots[p], w.kernelPd);
    WalkToIsWalk(w.s, w.roots[p], Path(v));
  }

  lemma EntryWritten(w: World, p: int, v: nat, pt: Frame, e: Entry)
    requires Ok(w) && p in w.roots && v < WINDOW && TableAt(w, p, v) == [pt]
    requires pt in w.s.tables && |w.s.tables[pt]| == ENTRIES && pt in w.s.place && Depth(w.s.place[pt]) == 1
    ensures var w' := w.(s := WithEntry(w.s, pt, Path(v)[3], e));
            Ok(w') && OneWritten(FlatOf(w), FlatOf(w'), w.roots.Keys, p, v, e)
  {
    var i := Path(v)[3];
    var s' := WithEntry(w.s, pt, i, e);
    EntryWrittenOk(w, pt, i, e);
    forall q: int, u: nat | q in w.roots && u < WINDOW
      ensures FlatOf(w.(s := s'))(q, u) == if u == v && Shows(p, q, u) then e else FlatOf(w)(q, u)
    {
      WrittenLookup(w.s, w.roots, w.kernelPd, p, v, pt, e, q, u);
    }
  }

  lemma EntryWrittenOk(w: World, pt: Frame, i: nat, e: Entry)
    requires Ok(w) && pt in w.s.tables && i < |w.s.tables[pt]| && pt in w.s.place && Depth(w.s.place[pt]) == 1
    ensures Ok(w.(s := WithEntry(w.s, pt, i, e)))
  {
    var s' := WithEntry(w.s, pt, i, e);
    forall q | q in w.roots ensures PagerOk(s', q, w.roots[q], w.kernelPd) {
      assert PagerOk(w.s, q, w.roots[q], w.kernelPd) && TableOk(w.s, w.roots[q]);
    }
  }

  lemma WorldShares(w: World)
    requires Ok(w)
    ensures KernelShared(FlatOf(w), w.roots.Keys)
  {
    forall p: int, q: int, u: nat | p in w.roots && q in w.roots && u < WINDOW && Shows(p, q, u)
      ensures FlatOf(w)(p, u) == FlatOf(w)(q, u)
    {
      KernelPages(u);
      if p != q { KernelIsShared(w.s, w.roots, w.kernelPd, p, q, u); }
    }
  }

  lemma ChangedOneMore(a: Flat, a1: Flat, a2: Flat, pagers: set<int>, p: int, virt: nat, n: nat, c: Change)
    requires KernelShared(a, pagers) && p in pagers && virt + n < WINDOW
    requires ChangedFrom(a, a1, pagers, p, virt, n, c)
    requires OneWritten(a1, a2, pagers, p, virt + n, Changed(c, a1(p, virt + n), virt + n))
    ensures ChangedFrom(a, a2, pagers, p, virt, n + 1, c) && a1(p, virt + n) == a(p, virt + n)
  {
    assert a1(p, virt + n) == a(p, virt + n);
  }

  /** Frames palloc() has yet to return: distinct, and none of them a table. */
  predicate FreshFrames(free: seq<Frame>, tables: map<Frame, Table>) {
    && (forall i, j | 0 <= i < j < |free| :: free[i] != free[j])
    && (forall i | 0 <= i < |free| :: free[i] !in tables)
  }

  /** address | 0x03. */
  function KernelLink(f: Frame): Entry {
    ZERO.(present := true, write := true, address := f)
  }

  /** kernel_pd[0] and kernel_pd[1] are the shared directories. */
  predicate KernelDirectories(w: World) {
    |w.kernelPd| == 2 && forall i | 0 <= i < 2 ::
      w.kernelPd[i] in w.s.tables && w.kernelPd[i] in w.s.place && w.s.place[w.kernelPd[i]] == KernelPd(510 + i)
  }

  /** Two new tables that only link to each other and to the kernel directories. */
  function WithPager(w: World, id: int, pml4: Frame, pdpt: Frame): World
    requires |w.kernelPd| == 2
  {
    World(Forest(w.s.tables[pml4 := ZeroTable(ENTRIES)[511 := KernelLink(pdpt)]]
                          [pdpt := ZeroTable(ENTRIES)[510 := KernelLink(w.kernelPd[0])][511 := KernelLink(w.kernelPd[1])]],
                 w.s.place[pml4 := Root(id)][pdpt := Pdpt(id, 511)]),
          w.roots[id := pml4], w.kernelPd)
  }

  lemma NewPagerOk(w: World, id: int, pml4: Frame, pdpt: Frame)
    requires Ok(w) && KernelDirectories(w) && id !in w.roots
    requires pml4 != pdpt && pml4 !in w.s.tables && pdpt !in w.s.tables
    ensures Ok(WithPager(w, id, pml4, pdpt)) && KernelDirectories(WithPager(w, id, pml4, pdpt))
  {
    var w' := WithPager(w, id, pml4, pdpt);
    NewPagerTables(w, id, pml4, pdpt);
    forall q | q in w'.roots ensures PagerOk(w'.s, q, w'.roots[q], w'.kernelPd) {
      if q != id {
        assert PagerOk(w.s, q, w.roots[q], w.kernelPd);
        assert TableOk(w.s, w.roots[q]);
      }
    }
  }

  lemma NewPagerTables(w: World, id: int, pml4: Frame, pdpt: Frame)
    requires Ok(w) && KernelDirectories(w) && pml4 != pdpt && pml4 !in w.s.tables && pdpt !in w.s.tables
    ensures var w' := WithPager(w, id, pml4, pdpt); forall h | h in w'.s.tables :: TableOk(w'.s, h)
  {
    var w' := WithPager(w, id, pml4, pdpt);
    forall h | h in w'.s.tables ensures TableOk(w'.s, h) {
      if h in w.s.tables { assert TableOk(w.s, h); }
    }
  }

  lemma {:induction false} OldWalks(w: World, id: int, pml4: Frame, pdpt: Frame, x: Frame, path: seq<nat>)
    requires Ok(w) && KernelDirectories(w) && Ok(WithPager(w, id, pml4, pdpt))
    requires pml4 != pdpt && pml4 !in w.s.tables && pdpt !in w.s.tables
    requires PathOk(path) && x in w.s.tables && |path| == Depth(w.s.place[x]) > 0
    ensures Walk(WithPager(w, id, pml4, pdpt).s, x, path) == Walk(w.s, x, path)
    decreases |path|
  {
    assert TableOk(w.s, x);
    if |path| > 1 && w.s.tables[x][path[0]].present { OldWalks(w, id, pml4, pdpt, w.s.tables[x][path[0]].address, path[1..]); }
  }

  lemma NewPagerMaps(w: World, id: int, pml4: Frame, pdpt: Frame)
    requires Ok(w) && KernelDirectories(w) && Ok(WithPager(w, id, pml4, pdpt)) && id !in w.roots
    requires pml4 != pdpt && pml4 !in w.s.tables && pdpt !in w.s.tables
    ensures var a, a' := FlatOf(w), FlatOf(WithPager(w, id, pml4, pdpt));
            && SameMaps(a, a', w.roots.Keys)
            && (forall u: nat | u < KERNEL_START_PAGE :: a'(id, u) == ZERO)
            && (forall q: int, u: nat | q in w.roots && KERNEL_START_PAGE <= u < WINDOW :: a'(id, u) == a(q, u))
  {
    var w' := WithPager(w, id, pml4, pdpt);
    forall q: int, u: nat | q in w.roots && u < WINDOW ensures FlatOf(w')(q, u) == FlatOf(w)(q, u) {
      assert PagerOk(w.s, q, w.roots[q], w.kernelPd);
      OldWalks(w, id, pml4, pdpt, w.roots[q], Path(u));
    }
    forall u: nat | u < KERNEL_START_PAGE ensures FlatOf(w')(id, u) == ZERO {
      EmptyUserHalf(w', id, pml4, pdpt, u);
    }
    WorldShares(w');
    forall q: int, u: nat | q in w.roots && KERNEL_START_PAGE <= u < WINDOW ensures FlatOf(w')(id, u) == FlatOf(w)(q, u) {
      assert Shows(id, q, u);
    }
  }

  lemma EmptyUserHalf(w: World, id: int, pml4: Frame, pdpt: Frame, u: nat)
    requires Ok(w) && id in w.roots && w.roots[id] == pml4 && u < KERNEL_START_PAGE
    requires pml4 in w.s.tables && w.s.tables[pml4] == ZeroTable(ENTRIES)[511 := KernelLink(pdpt)]
    requires pdpt in w.s.tables && |w.s.tables[pdpt]| == ENTRIES
    requires forall i | 0 <= i < 510 :: w.s.tables[pdpt][i] == ZERO
    ensures At(w, id, u) == ZERO
  {
    KernelPages(u);
    var path := Path(u);
    assert PagerOk(w.s, id, pml4, w.kernelPd) && TableOk(w.s, pml4);
    if path[0] == 511 {
      assert !IsKernelSlot(path[0], path[1]) && path[1] < 510;
      assert Walk(w.s, pml4, path) == Walk(w.s, pdpt, path[1..]);
      assert path[1..][0] == path[1];
    }
  }

  class PagerSystem {
    /** Physical memory, as far as it holds tables; the frame of each pager's PML4; kernel_pd. */
    var tables: map<Frame, Table>
    var roots: map<int, Frame>
    var kernelPd: seq<Frame>
    var free: seq<Frame>
    ghost var place: map<Frame, Place>

    ghost function W(): World
      reads this
    {
      World(Forest(tables, place), roots, kernelPd)
    }

    ghost predicate Valid()
      reads this
    {
      Ok(W()) && KernelDirectories(W()) && FreshFrames(free, tables)
    }

    /** What every pager has for every page. */
    ghost function Maps(): Flat
      reads this
    {
      FlatOf(W())
    }

    /** Two empty kernel directories, and no address space yet. */
    constructor (frames: seq<Frame>)
      requires |frames| >= 2 && forall i, j | 0 <= i < j < |frames| :: frames[i] != frames[j]
      ensures Valid() && roots == map[] && free == frames[2..]
    {
      tables := map[frames[0] := ZeroTable(ENTRIES), frames[1] := ZeroTable(ENTRIES)];
      place := map[frames[0] := KernelPd(510), frames[1] := KernelPd(511)];
      roots := map[];
      kernelPd := [frames[0], frames[1]];
      free := frames[2..];
    }

    /** Pager::Pager: an address space with no pages but those of the kernel. */
    method NewPager(id: int)
      requires Valid() && id !in roots && |free| >= 2
      modifies this
      ensures Valid() && roots.Keys == old(roots.Keys) + {id} && |free| == |old(free)| - 2
      ensures SameMaps(old(Maps()), Maps(), old(roots).Keys)
      ensures forall u: nat | u < KERNEL_START_PAGE :: Maps()(id, u) == ZERO
      ensures forall q: int, u: nat | q in old(roots) && KERNEL_START_PAGE <= u < WINDOW :: Maps()(id, u) == old(Maps())(q, u)
    {
      var pml4, pdpt := free[0], free[1];
      ghost var w := W();
      free := free[2..];
      tables := tables[pml4 := ZeroTable(ENTRIES)[511 := KernelLink(pdpt)]];
      tables := tables[pdpt := ZeroTable(ENTRIES)[510 := KernelLink(kernelPd[0])][511 := KernelLink(kernelPd[1])]];
      place := place[pml4 := Root(id)][pdpt := Pdpt(id, 511)];
      roots := roots[id := pml4];
      assert W() == WithPager(w, id, pml4, pdpt);
      NewPagerOk(w, id, pml4, pdpt);
      NewPagerMaps(w, id, pml4, pdpt);
    }

    /** One level of mapStructures: the table below entry `i` of `f`, allocated if missing. */
    method NextTable(f: Frame, i: nat) returns (child: Frame)
      requires Valid() && f in tables && i < ENTRIES && Depth(place[f]) > 1 && |free| > 0
      modifies this`tables, this`place, this`free
      ensures Valid() && |free| >= |old(free)| - 1
      ensures Kept(old(W()).s, W().s) && SameMaps(old(Maps()), Maps(), roots.Keys)
      ensures f in tables && |tables[f]| == ENTRIES && tables[f][i].present && tables[f][i].address == child
      ensures child in tables && child in place && place[child] == Child(old(place)[f], i)
    {
      assert TableOk(W().s, f);
      if tables[f][i].present {
        child := tables[f][i].address;
      } else {
        child := free[0];
        free := free[1..];
        TableAdded(W(), f, i, child);
        ghost var s' := WithTable(W().s, f, i, child);
        tables := tables[f := tables[f][i := Link(child)]];
        tables := tables[child := ZeroTable(ENTRIES)];
        place := s'.place;
        assert W().s == s';
      }
    }

    /** mapStructures: after it the page has a page table; no address space changes. */
    method MapStructures(p: int, v: nat) returns (pt: Frame)
      requires Valid() && p in roots && |free| >= 3
      modifies this`tables, this`place, this`free
      ensures Valid() && |free| >= |old(free)| - 3
      ensures SameMaps(old(Maps()), Maps(), roots.Keys)
      ensures TableAt(W(), p, v) == [pt]
    {
      assert PagerOk(W().s, p, roots[p], kernelPd);
      var d := Path(v);
      var t3 := NextTable(roots[p], d[0]);
      ghost var m1 := Maps();
      var t2 := NextTable(t3, d[1]);
      ghost var m2 := Maps();
      pt := NextTable(t2, d[2]);
      WalkOfLinks(W(), p, v, t3, t2, pt);
    }

    /** The stores of one turn of a loop. */
    method Store(p: int, v: nat, pt: Frame, e: Entry)
      requires Valid() && p in roots && v < WINDOW && TableAt(W(), p, v) == [pt]
      requires pt in tables && |tables[pt]| == ENTRIES
      modifies this`tables
      ensures Valid() && OneWritten(old(Maps()), Maps(), roots.Keys, p, v, e)
    {
      EntryRead(W(), p, v, pt);
      EntryWritten(W(), p, v, pt, e);
      tables := tables[pt := tables[pt][Path(v)[3] := e]];
    }

    /** The page table of a page, and the entry in it. */
    method ReadEntry(p: int, v: nat) returns (pt: Frame, entry: Entry)
      requires Valid() && p in roots && v < WINDOW && |free| >= 3
      modifies this`tables, this`place, this`free
      ensures Valid() && |free| >= |old(free)| - 3
      ensures SameMaps(old(Maps()), Maps(), roots.Keys)
      ensures TableAt(W(), p, v) == [pt] && pt in tables && |tables[pt]| == ENTRIES
      ensures entry == Maps()(p, v)
    {
      pt := MapStructures(p, v);
      EntryRead(W(), p, v, pt);
      entry := tables[pt][Path(v)[3]];
    }

    /** Pager::map: exactly the named pages, in exactly the address spaces that share them, now
        lead to the consecutive frames with the given flags. */
    method Map(p: int, phys: Frame, virt: nat, length: nat, flags: PageFlags)
      requires Valid() && p in roots && virt > 0 && virt + length <= WINDOW && |free| >= 3 * length
      modifies this`tables, this`place, this`free
      ensures Valid()
      ensures LeadTo(old(Maps()), Maps(), roots.Keys, p, virt, length, phys, flags)
    {
      ghost var before := Maps();
      MapPages(p, phys, virt, length, flags);
      ChangedMeans(before, Maps(), roots.Keys, p, virt, length, MapFrom(phys, virt, flags));
    }

    method MapPages(p: int, phys: Frame, virt: nat, length: nat, flags: PageFlags)
      requires Valid() && p in roots && virt + length <= WINDOW && |free| >= 3 * length
      modifies this`tables, this`place, this`free
      ensures Valid()
      ensures ChangedFrom(old(Maps()), Maps(), roots.Keys, p, virt, length, MapFrom(phys, virt, flags))
    {
      WorldShares(W());
      for i := 0 to length
        invariant Valid() && p in roots && roots == old(roots) && |free| >= 3 * (length - i)
        invariant ChangedFrom(old(Maps()), Maps(), roots.Keys, p, virt, i, MapFrom(phys, virt, flags))
      {
        var _ := Step(p, virt, i, MapFrom(phys, virt, flags), old(Maps()));
      }
    }

    /** Pager::flags: exactly the named pages get the flags; the frames stay. */
    method Flags(p: int, virt: nat, length: nat, flags: PageFlags)
      requires Valid() && p in roots && virt > 0 && virt + length <= WINDOW && |free| >= 3 * length
      modifies this`tables, this`place, this`free
      ensures Valid()
      ensures HaveFlags(old(Maps()), Maps(), roots.Keys, p, virt, length, flags)
    {
      ghost var before := Maps();
      FlagPages(p, virt, length, flags);
      ChangedMeans(before, Maps(), roots.Keys, p, virt, length, SetFlags(flags));
    }

    method FlagPages(p: int, virt: nat, length: nat, flags: PageFlags)
      requires Valid() && p in roots && virt + length <= WINDOW && |free| >= 3 * length
      modifies this`tables, this`place, this`free
      ensures Valid()
      ensures ChangedFrom(old(Maps()), Maps(), roots.Keys, p, virt, length, SetFlags(flags))
    {
      WorldShares(W());
      for i := 0 to length
        invariant Valid() && p in roots && roots == old(roots) && |free| >= 3 * (length - i)
        invariant ChangedFrom(old(Maps()), Maps(), roots.Keys, p, virt, i, SetFlags(flags))
      {
        var _ := Step(p, virt, i, SetFlags(flags), old(Maps()));
      }
    }

    /** One turn of the loops of map, flags and unmap. */
    method Step(p: int, virt: nat, i: nat, c: Change, ghost before: Flat) returns (entry: Entry)
      requires Valid() && p in roots && virt + i < WINDOW && |free| >= 3
      requires KernelShared(before, roots.Keys) && ChangedFrom(before, Maps(), roots.Keys, p, virt, i, c)
      modifies this`tables, this`place, this`free
      ensures Valid() && |free| >= |old(free)| - 3
      ensures ChangedFrom(before, Maps(), roots.Keys, p, virt, i + 1, c)
      ensures entry == before(p, virt + i)
    {
      ghost var first := Maps();
      entry := Rewrite(p, virt + i, c);
      ChangedOneMore(before, first, Maps(), roots.Keys, p, virt, i, c);
    }

    /** One page: its table is made if need be, its entry read and written back changed. */
    method Rewrite(p: int, v: nat, c: Change) returns (entry: Entry)
      requires Valid() && p in roots && v < WINDOW && |free| >= 3
      modifies this`tables, this`place, this`free
      ensures Valid() && |free| >= |old(free)| - 3
      ensures entry == old(Maps())(p, v)
      ensures OneWritten(old(Maps()), Maps(), roots.Keys, p, v, Changed(c, entry, v))
    {
      var pt;
      pt, entry := ReadEntry(p, v);
      ghost var middle := Maps();
      Store(p, v, pt, Changed(c, entry, v));
    }

    /** Pager::unmap: exactly the named pages are gone; the answer is the first frame they had. */
    method Unmap(p: int, virt: nat, length: nat) returns (addr: Frame)
      requires Valid() && p in roots && virt + length <= WINDOW && |free| >= 3 * length
      modifies this`tables, this`place, this`free
      ensures Valid()
      ensures AreGone(old(Maps()), Maps(), roots.Keys, p, virt, length)
      ensures IsFirstFrame(old(Maps()), p, virt, length, addr)
    {
      ghost var before := Maps();
      addr := ClearPages(p, virt, length);
      ChangedMeans(before, Maps(), roots.Keys, p, virt, length, Clear);
    }

    method ClearPages(p: int, virt: nat, length: nat) returns (addr: Frame)
      requires Valid() && p in roots && virt + length <= WINDOW && |free| >= 3 * length
      modifies this`tables, this`place, this`free
      ensures Valid()
      ensures ChangedFrom(old(Maps()), Maps(), roots.Keys, p, virt, length, Clear)
      ensures IsFirstFrame(old(Maps()), p, virt, length, addr)
    {
      WorldShares(W());
      ghost var before := Maps();
      addr := 0;
      for i := 0 to length
        invariant Valid() && p in roots && roots == old(roots) && |free| >= 3 * (length - i)
        invariant ChangedFrom(before, Maps(), roots.Keys, p, virt, i, Clear)
        invariant IsFirstFrame(before, p, virt, i, addr)
      {
        var entry := Step(p, virt, i, Clear, before);
        FirstFrameNext(before, p, virt, i, addr, entry);
        if addr == 0 { addr := entry.address; }
      }
    }

    /** Pager::getPhysicalAddress: the frame of the flat map, which does not change. */
    method GetPhysicalAddress(p: int, v: nat) returns (frame: Frame)
      requires Valid() && p in roots && v < WINDOW && |free| >= 3
      modifies this`tables, this`place, this`free
      ensures Valid() && SameMaps(old(Maps()), Maps(), roots.Keys)
      ensures frame == old(Maps())(p, v).address
    {
      var pt, entry := ReadEntry(p, v);
      frame := entry.address;
    }

    /** Pager::getFlags: the flags of the flat map if the page is present, which does not change. */
    method GetFlags(p: int, v: nat) returns (present: bool, flags: PageFlags)
      requires Valid() && p in roots && v < WINDOW && |free| >= 3
      modifies this`tables, this`place, this`free
      ensures Valid() && SameMaps(old(Maps()), Maps(), roots.Keys)
      ensures present == old(Maps())(p, v).present
      ensures present ==> HasFlags(old(Maps())(p, v), flags)
    {
      var pt, entry := ReadEntry(p, v);
      present, flags := entry.present, PageFlags(false, false, false, false, false, false);
      if present {
        flags := PageFlags(entry.write, entry.user, !entry.executeDisable, entry.isGlobal, entry.cacheDisabled, entry.dirty);
      }
    }
  }

  /** `addr` is the first non-zero frame among the pages, or 0. */
  ghost predicate IsFirstFrame(a: Flat, p: int, virt: nat, n: nat, addr: Frame) {
    if addr == 0 then forall v: nat | virt <= v < virt + n :: a(p, v).address == 0
    else exists v: nat | virt <= v < virt + n :: a(p, v).address == addr && forall u: nat | virt <= u < v :: a(p, u).address == 0
  }

  lemma FirstFrameNext(a: Flat, p: int, virt: nat, n: nat, addr: Frame, e: Entry)
    requires IsFirstFrame(a, p, virt, n, addr) && e == a(p, virt + n)
    ensures IsFirstFrame(a, p, virt, n + 1, if addr == 0 then e.address else addr)
  {
  }
}
