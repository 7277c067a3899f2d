/** The four-level page tables of kernel/src/memory/virtual.cpp (section 4.5 of the Intel SDM,
    volume 3A): every address space is a tree of tables, and all of them share the two page
    directories of the kernel. */
module PageTables {

  type Frame = nat

  /** A page-structure entry. `other` stands for the bits no operation here changes. */
  datatype Entry = Entry(present: bool, write: bool, user: bool, cacheDisabled: bool, dirty: bool, isGlobal: bool,
                         address: Frame, executeDisable: bool, other: nat)

  const ZERO: Entry := Entry(false, false, false, false, false, false, 0, false, 0)
  const ENTRIES: nat := 512

  type Table = seq<Entry>

  function ZeroTable(n: nat): (t: Table)
    ensures |t| == n && forall i | 0 <= i < n :: t[i] == ZERO
  {
    if n == 0 then [] else ZeroTable(n - 1) + [ZERO]
  }

  /** address | 0x07. */
  function Link(f: Frame): Entry {
    ZERO.(present := true, write := true, user := true, address := f)
  }

  /** Where a table is in the forest: which tree and which indices lead to it. The two kernel
      directories, and what is below them, belong to all trees. */
  datatype Place =
    | Root(pager: int)
    | Pdpt(pager: int, i4: nat)
    | Pd(pager: int, i4: nat, i3: nat)
    | KernelPd(i3: nat)
    | Pt(pager: int, i4: nat, i3: nat, i2: nat)
    | KernelPt(i3: nat, i2: nat)

  function Depth(p: Place): nat {
    match p
    case Root(_) => 4
    case Pdpt(_, _) => 3
    case Pd(_, _, _) => 2
    case KernelPd(_) => 2
    case Pt(_, _, _, _) => 1
    case KernelPt(_, _) => 1
  }

  predicate IsKernelSlot(i4: nat, i3: nat) {
    i4 == 511 && (i3 == 510 || i3 == 511)
  }

  function Child(p: Place, i: nat): (c: Place)
    requires Depth(p) > 1
    ensures Depth(c) == Depth(p) - 1
  {
    match p
    case Root(pager) => Pdpt(pager, i)
    case Pdpt(pager, i4) => if IsKernelSlot(i4, i) then KernelPd(i) else Pd(pager, i4, i)
    case Pd(pager, i4, i3) => Pt(pager, i4, i3, i)
    case KernelPd(i3) => KernelPt(i3, i)
  }

  datatype Forest = Forest(tables: map<Frame, Table>, place: map<Frame, Place>)

  /** Every table is whole and has a place, and a present entry of an inner table leads to the
      table of that place. */
  predicate TableOk(s: Forest, f: Frame)
    requires f in s.tables
  {
    && |s.tables[f]| == ENTRIES && f in s.place
    && (Depth(s.place[f]) > 1 ==>
        forall i | 0 <= i < ENTRIES && s.tables[f][i].present ::
          var child := s.tables[f][i].address;
          child in s.tables && child in s.place && s.place[child] == Child(s.place[f], i))
  }

  predicate Inv(s: Forest) {
    forall f | f in s.tables :: TableOk(s, f)
  }

  predicate PathOk(path: seq<nat>) {
    forall k | 0 <= k < |path| :: path[k] < ENTRIES
  }

  /** The last-level table a walk from `f` along `path` arrives at. */
  function WalkTo(s: Forest, f: Frame, path: seq<nat>): (r: seq<Frame>)
    requires Inv(s) && PathOk(path) && f in s.tables && |path| == Depth(s.place[f]) > 0
    decreases |path|
  {
    if |path| == 1 then [f]
    else if s.tables[f][path[0]].present then WalkTo(s, s.tables[f][path[0]].address, path[1..])
    else []
  }

  /** What the processor finds for a page: the entry at the end of the walk, or nothing. */
  function Walk(s: Forest, f: Frame, path: seq<nat>): Entry
    requires Inv(s) && PathOk(path) && f in s.tables && |path| == Depth(s.place[f]) > 0
    decreases |path|
  {
    if |path| == 1 then s.tables[f][path[0]]
    else if s.tables[f][path[0]].present then Walk(s, s.tables[f][path[0]].address, path[1..])
    else ZERO
  }

  lemma {:induction false} WalkToIsWalk(s: Forest, f: Frame, path: seq<nat>)
    requires Inv(s) && PathOk(path) && f in s.tables && |path| == Depth(s.place[f]) > 0
    ensures var r := WalkTo(s, f, path);
            if r == [] then Walk(s, f, path) == ZERO
            else |r| == 1 && r[0] in s.tables && |s.tables[r[0]]| == ENTRIES && Walk(s, f, path) == s.tables[r[0]][path[|path| - 1]]
                 && r[0] in s.place && Depth(s.place[r[0]]) == 1
    decreases |path|
  {
    assert TableOk(s, f);
    if |path| > 1 && s.tables[f][path[0]].present { WalkToIsWalk(s, s.tables[f][path[0]].address, path[1..]); }
  }

  // ----- Adding a missing table -----

  function WithTable(s: Forest, f: Frame, i: nat, g: Frame): Forest
    requires Inv(s) && f in s.tables && i < ENTRIES && Depth(s.place[f]) > 1
  {
    assert TableOk(s, f);
    Forest(s.tables[f := s.tables[f][i := Link(g)]][g := ZeroTable(ENTRIES)], s.place[g := Child(s.place[f], i)])
  }

  lemma WithTableKeepsInv(s: Forest, f: Frame, i: nat, g: Frame)
    requires Inv(s) && f in s.tables && i < ENTRIES && Depth(s.place[f]) > 1 && g !in s.tables
    ensures Inv(WithTable(s, f, i, g))
  {
    var s' := WithTable(s, f, i, g);
    assert TableOk(s, f);
    forall h | h in s'.tables ensures TableOk(s', h) {
      if h != g {
        assert TableOk(s, h);
        if Depth(s.place[h]) > 1 {
          forall k | 0 <= k < ENTRIES && s'.tables[h][k].present
            ensures var child := s'.tables[h][k].address;
                    child in s'.tables && child in s'.place && s'.place[child] == Child(s'.place[h], k)
          {
          }
        }
      }
    }
  }

  /** A new table changes no walk: what was missing is now there and empty. */
  lemma {:induction false} WithTableKeepsWalks(s: Forest, f: Frame, i: nat, g: Frame, x: Frame, path: seq<nat>)
    requires Inv(s) && f in s.tables && i < ENTRIES && Depth(s.place[f]) > 1 && g !in s.tables
    requires !s.tables[f][i].present && Inv(WithTable(s, f, i, g))
    requires PathOk(path) && x in s.tables && |path| == Depth(s.place[x]) > 0
    ensures Walk(WithTable(s, f, i, g), x, path) == Walk(s, x, path)
    decreases |path|
  {
    var s' := WithTable(s, f, i, g);
    assert TableOk(s, f) && TableOk(s, x);
    if |path| > 1 {
      if x == f && path[0] == i {
        assert s'.tables[x][path[0]] == Link(g);
        assert s'.place[g] == Child(s.place[f], i);
        assert Walk(s', g, path[1..]) == ZERO;
      } else {
        assert s'.tables[x][path[0]] == s.tables[x][path[0]];
        if s.tables[x][path[0]].present { WithTableKeepsWalks(s, f, i, g, s.tables[x][path[0]].address, path[1..]); }
      }
    }
  }

  // ----- Writing a last-level entry -----

  function WithEntry(s: Forest, f: Frame, i: nat, e: Entry): Forest
    requires f in s.tables && i < |s.tables[f]|
  {
    s.(tables := s.tables[f := s.tables[f][i := e]])
  }

  /** A written entry is seen by exactly the walks that arrive at its table with its index. */
  lemma {:induction false} WithEntryWalks(s: Forest, f: Frame, i: nat, e: Entry, x: Frame, path: seq<nat>)
    requires Inv(s) && f in s.tables && i < |s.tables[f]| && f in s.place && Depth(s.place[f]) == 1
    requires Inv(WithEntry(s, f, i, e))
    requires PathOk(path) && x in s.tables && |path| == Depth(s.place[x]) > 0
    ensures WalkTo(WithEntry(s, f, i, e), x, path) == WalkTo(s, x, path)
    ensures Walk(WithEntry(s, f, i, e), x, path) ==
              if WalkTo(s, x, path) == [f] && path[|path| - 1] == i then e else Walk(s, x, path)
    decreases |path|
  {
    assert TableOk(s, x);
    if |path| > 1 && s.tables[x][path[0]].present {
      WithEntryWalks(s, f, i, e, s.tables[x][path[0]].address, path[1..]);
    }
  }

  // ----- Pages and address spaces -----

  /** Page numbers: the 36 bits of a canonical address that the tables translate. */
  const PAGES: nat := 0x10_0000_0000
  /** The page of KERNEL_START. */
  const KERNEL_START_PAGE: nat := 0xF_FFF8_0000

  function Path(v: nat): (path: seq<nat>)
    ensures |path| == 4 && PathOk(path)
  {
    [v / 0x800_0000 % 512, v / 0x4_0000 % 512, v / 0x200 % 512, v % 512]
  }

  lemma PathInjective(u: nat, v: nat)
    requires u < PAGES && v < PAGES && Path(u) == Path(v)
    ensures u == v
  {
    assert u / 0x800_0000 < 512 && v / 0x800_0000 < 512;
    assert Path(u)[0] == Path(v)[0] && Path(u)[1] == Path(v)[1] && Path(u)[2] == Path(v)[2] && Path(u)[3] == Path(v)[3];
    SplitDigits(u);
    SplitDigits(v);
  }

  lemma SplitDigits(v: nat)
    requires v < PAGES
    ensures v == Path(v)[0] * 0x800_0000 + Path(v)[1] * 0x4_0000 + Path(v)[2] * 0x200 + Path(v)[3]
  {
    var q1, q2 := v / 0x200, v / 0x200 / 512;
    assert v / 0x4_0000 == q2 && v / 0x800_0000 == q2 / 512;
    assert v == q1 * 0x200 + v % 512 && q1 == q2 * 512 + q1 % 512 && q2 == q2 / 512 * 512 + q2 % 512;
  }

  lemma KernelPages(v: nat)
    requires v < PAGES
    ensures v >= KERNEL_START_PAGE <==> IsKernelSlot(Path(v)[0], Path(v)[1])
  {
    SplitDigits(v);
  }

  /** The place reached from `p` along some indices. */
  function Descend(p: Place, path: seq<nat>): Place
    requires Depth(p) > |path|
    decreases |path|
  {
    if path == [] then p else Descend(Child(p, path[0]), path[1..])
  }

  lemma {:induction false} WalkPlace(s: Forest, f: Frame, path: seq<nat>)
    requires Inv(s) && PathOk(path) && f in s.tables && |path| == Depth(s.place[f]) > 0
    ensures WalkTo(s, f, path) != [] ==>
              WalkTo(s, f, path)[0] in s.tables && s.place[WalkTo(s, f, path)[0]] == Descend(s.place[f], path[..|path| - 1])
    decreases |path|
  {
    assert TableOk(s, f);
    if |path| > 1 && s.tables[f][path[0]].present {
      WalkPlace(s, s.tables[f][path[0]].address, path[1..]);
      assert path[..|path| - 1][0] == path[0] && path[..|path| - 1][1..] == path[1..][..|path[1..]| - 1];
    }
  }

  function PtPlace(pager: int, path: seq<nat>): Place
    requires |path| == 4
  {
    if IsKernelSlot(path[0], path[1]) then KernelPt(path[1], path[2]) else Pt(pager, path[0], path[1], path[2])
  }

  lemma DescendIsPtPlace(pager: int, path: seq<nat>)
    requires |path| == 4
    ensures Descend(Root(pager), path[..3]) == PtPlace(pager, path)
  {
    var p3 := path[..3];
    assert p3[1..] == [path[1], path[2]] && p3[1..][1..] == [path[2]] && p3[1..][1..][1..] == [];
    assert Descend(Root(pager), p3) == Descend(Pdpt(pager, path[0]), p3[1..]);
    var pd := Child(Pdpt(pager, path[0]), path[1]);
    assert Descend(Pdpt(pager, path[0]), p3[1..]) == Descend(pd, [path[2]]);
    assert [path[2]][1..] == [];
    assert Descend(pd, [path[2]]) == Child(pd, path[2]);
  }

  /** Every pager has its own root, and under it the two kernel directories. */
  predicate PagerOk(s: Forest, p: int, root: Frame, kernelPd: seq<Frame>)
    requires Inv(s) && |kernelPd| == 2
  {
    && root in s.tables && s.place[root] == Root(p) && |s.tables[root]| == ENTRIES && s.tables[root][511].present
    && var pdpt := s.tables[root][511].address;
    && pdpt in s.tables && |s.tables[pdpt]| == ENTRIES
    && s.tables[pdpt][510].present && s.tables[pdpt][510].address == kernelPd[0]
    && s.tables[pdpt][511].present && s.tables[pdpt][511].address == kernelPd[1]
  }

  predicate PagersOk(s: Forest, roots: map<int, Frame>, kernelPd: seq<Frame>) {
    && Inv(s) && |kernelPd| == 2
    && forall p | p in roots :: PagerOk(s, p, roots[p], kernelPd)
  }

  /** The flat map from pages to entries that a pager stands for. */
  function Lookup(s: Forest, roots: map<int, Frame>, kernelPd: seq<Frame>, p: int, v: nat): Entry
    requires PagersOk(s, roots, kernelPd) && p in roots
  {
    assert PagerOk(s, p, roots[p], kernelPd);
    Walk(s, roots[p], Path(v))
  }

  function PageTableOf(s: Forest, roots: map<int, Frame>, kernelPd: seq<Frame>, p: int, v: nat): seq<Frame>
    requires PagersOk(s, roots, kernelPd) && p in roots
  {
    assert PagerOk(s, p, roots[p], kernelPd);
    WalkTo(s, roots[p], Path(v))
  }

  lemma PageTablePlace(s: Forest, roots: map<int, Frame>, kernelPd: seq<Frame>, p: int, v: nat)
    requires PagersOk(s, roots, kernelPd) && p in roots
    ensures var r := PageTableOf(s, roots, kernelPd, p, v);
            r != [] ==> r[0] in s.tables && r[0] in s.place && s.place[r[0]] == PtPlace(p, Path(v))
  {
    assert PagerOk(s, p, roots[p], kernelPd);
    WalkPlace(s, roots[p], Path(v));
    DescendIsPtPlace(p, Path(v));
  }

  /** Two pagers walk through the same tables for every kernel page. */
  lemma KernelIsShared(s: Forest, roots: map<int, Frame>, kernelPd: seq<Frame>, p: int, q: int, v: nat)
    requires PagersOk(s, roots, kernelPd) && p in roots && q in roots && IsKernelSlot(Path(v)[0], Path(v)[1])
    ensures PageTableOf(s, roots, kernelPd, p, v) == PageTableOf(s, roots, kernelPd, q, v)
    ensures Lookup(s, roots, kernelPd, p, v) == Lookup(s, roots, kernelPd, q, v)
  {
    KernelWalk(s, roots, kernelPd, p, v);
    KernelWalk(s, roots, kernelPd, q, v);
  }

  lemma KernelWalk(s: Forest, roots: map<int, Frame>, kernelPd: seq<Frame>, p: int, v: nat)
    requires PagersOk(s, roots, kernelPd) && p in roots && IsKernelSlot(Path(v)[0], Path(v)[1])
    ensures var pd := kernelPd[Path(v)[1] - 510];
            pd in s.tables && Depth(s.place[pd]) == 2
            && PageTableOf(s, roots, kernelPd, p, v) == WalkTo(s, pd, Path(v)[2..])
            && Lookup(s, roots, kernelPd, p, v) == Walk(s, pd, Path(v)[2..])
  {
    var root, path := roots[p], Path(v);
    assert PagerOk(s, p, root, kernelPd) && TableOk(s, root);
    var pdpt := s.tables[root][511].address;
    assert TableOk(s, pdpt);
    assert path[1..][1..] == path[2..];
    assert WalkTo(s, root, path) == WalkTo(s, pdpt, path[1..]);
    assert WalkTo(s, pdpt, path[1..]) == WalkTo(s, kernelPd[path[1] - 510], path[2..]);
    assert Walk(s, root, path) == Walk(s, pdpt, path[1..]);
    assert Walk(s, pdpt, path[1..]) == Walk(s, kernelPd[path[1] - 510], path[2..]);
  }

  /** The effect of one written entry on every address space. */
  lemma WrittenLookup(s: Forest, roots: map<int, Frame>, kernelPd: seq<Frame>, p: int, v: nat, f: Frame, e: Entry, q: int, u: nat)
    requires PagersOk(s, roots, kernelPd) && p in roots && q in roots && v < PAGES && u < PAGES
    requires PageTableOf(s, roots, kernelPd, p, v) == [f] && f in s.tables && |s.tables[f]| == ENTRIES
    requires PagersOk(WithEntry(s, f, Path(v)[3], e), roots, kernelPd)
    ensures Lookup(WithEntry(s, f, Path(v)[3], e), roots, kernelPd, q, u)
         == if u == v && (q == p || v >= KERNEL_START_PAGE) then e else Lookup(s, roots, kernelPd, q, u)
  {
    PageTablePlace(s, roots, kernelPd, p, v);
    PageTablePlace(s, roots, kernelPd, q, u);
    assert PagerOk(s, q, roots[q], kernelPd);
    WithEntryWalks(s, f, Path(v)[3], e, roots[q], Path(u));
    KernelPages(v);
    if PageTableOf(s, roots, kernelPd, q, u) == [f] && Path(u)[3] == Path(v)[3] {
      assert PtPlace(q, Path(u)) == PtPlace(p, Path(v));
      assert Path(u) == Path(v);
      PathInjective(u, v);
    } else if u == v && (q == p || v >= KERNEL_START_PAGE) {
      KernelIsSharedOrSame(s, roots, kernelPd, p, q, v);
    }
  }

  lemma KernelIsSharedOrSame(s: Forest, roots: map<int, Frame>, kernelPd: seq<Frame>, p: int, q: int, v: nat)
    requires PagersOk(s, roots, kernelPd) && p in roots && q in roots && (p == q || IsKernelSlot(Path(v)[0], Path(v)[1]))
    ensures PageTableOf(s, roots, kernelPd, p, v) == PageTableOf(s, roots, kernelPd, q, v)
  {
    if p != q { KernelIsShared(s, roots, kernelPd, p, q, v); }
  }
}
