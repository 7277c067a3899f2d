/** The kernel heap as a whole: malloc and free of liballoc.c on top of the page source of
    kernel/src/memory/liballoc_plugs.cpp, a bitmap over the 16 MiB of `initial_heap` with a
    first-free hint. */
module KernelHeap {
  import opened HeapBlocks
  import opened HeapList
  import opened LibAlloc
  import opened PhysicalAllocator
  import opened Wrappers

  const HEAP_PAGES: nat := 4096
  const HEAP_BYTES: int := 16777216

  class HeapPages {
    /** heap_usage_bitmap and heap_first_potential_page. */
    const bitmap: array<bv8>
    var first: nat

    ghost function Used(): seq<bool>
      reads bitmap
    {
      UsedOf(bitmap[..])
    }

    ghost predicate Valid()
      reads this, bitmap
    {
      bitmap.Length == 512 && forall p | 0 <= p < first && p < |Used()| :: Used()[p]
    }

    constructor Init()
      ensures Valid() && fresh(bitmap) && forall p | 0 <= p < |Used()| :: !Used()[p]
    {
      bitmap := new bv8[512](_ => 0);
      first := 0;
      new;
    }

    method IsPageUsed(page: nat) returns (status: bool)
      requires bitmap.Length == 512 && page < HEAP_PAGES
      ensures status == Used()[page]
    {
      var usageByte := bitmap[page / 8];
      var usageMask: bv8 := 1 << BitOffset(page);
      status := usageByte & usageMask != 0;
    }

    method SetRun(a: nat, n: nat, status: bool)
      requires bitmap.Length == 512 && a + n <= HEAP_PAGES
      modifies bitmap
      ensures Used() == WithRun(old(Used()), a, n, status)
    {
      for i := 0 to n
        invariant Used() == WithRun(old(Used()), a, i, status)
      {
        SetPageUsed(a + i, status);
      }
    }

    method SetPageUsed(page: nat, status: bool)
      requires bitmap.Length == 512 && page < HEAP_PAGES
      modifies bitmap
      ensures Used() == old(Used())[page := status]
    {
      UpdateBit(bitmap[..], page, status);
      ghost var before := bitmap[..];
      bitmap[page / 8] := WithBit(bitmap[page / 8], BitOffset(page), status);
      assert bitmap[..] == before[page / 8 := WithBit(before[page / 8], BitOffset(page), status)];
    }

    /** The search of liballoc_alloc: the lowest run of free pages of the local heap, if any. */
    method FindRun(n: nat) returns (addr: Option<nat>)
      requires Valid()
      ensures n > 0 ==> (addr.Some? <==> exists b: nat :: FreeRun(Used(), b, n))
      ensures addr.Some? ==> FreeRun(Used(), addr.value, n) && addr.value < HEAP_PAGES
      ensures n > 0 && addr.Some? ==> LowestRun(Used(), addr.value, n)
    {
      var page := first;
      BelowHint(Used(), first, n);
      while page < HEAP_PAGES
        invariant n > 0 ==> forall b: nat | b < page :: !FreeRun(Used(), b, n)
        decreases HEAP_PAGES - page
      {
        var ok, i := Fits(page, n);
        if ok { return Some(page); }
        if page + i >= HEAP_PAGES {
          NoRoomFrom(Used(), page, i, n);
          page := HEAP_PAGES;
        } else {
          page := page + i;
        }
        page := page + 1;
      }
      addr := None;
    }

    /** The inner loop: whether `n` pages from `page` are free, and else how far it got. */
    method Fits(page: nat, n: nat) returns (ok: bool, i: nat)
      requires bitmap.Length == 512 && page < HEAP_PAGES
      ensures ok ==> FreeRun(Used(), page, n)
      ensures !ok ==> i < n && (page + i >= HEAP_PAGES || Used()[page + i])
    {
      i := 0;
      while i < n
        invariant i <= n && page + i <= HEAP_PAGES
        invariant forall k | page <= k < page + i :: !Used()[k]
      {
        if i + page >= HEAP_PAGES { return false, i; }
        var status := IsPageUsed(page + i);
        if status { return false, i; }
        i := i + 1;
      }
      ok := true;
    }

    /** The rest of liballoc_alloc: the run is marked and the hint moves past it. */
    method Take(page: nat, n: nat)
      requires Valid() && page + n <= HEAP_PAGES
      modifies this`first, bitmap
      ensures Valid() && Used() == WithRun(old(Used()), page, n, true)
    {
      if first == page { first := page + n; }
      SetRun(page, n, true);
    }

    method Give(page: nat, n: nat)
      requires Valid() && page + n <= HEAP_PAGES
      modifies this`first, bitmap
      ensures Valid() && Used() == WithRun(old(Used()), page, n, false)
    {
      SetRun(page, n, false);
      if page < first { first := page; }
    }
  }

  lemma NoRoomFrom(used: seq<bool>, page: nat, i: nat, n: nat)
    requires i < n && page + i >= |used| && forall b: nat | b < page :: !FreeRun(used, b, n)
    ensures forall b: nat :: !FreeRun(used, b, n)
  {
  }

  // ----- Which pages belong to which block -----

  predicate InHeap(base: int, b: Major) {
    base <= b.addr && b.addr + b.size <= base + HEAP_BYTES && (b.addr - base) % PAGE_SIZE == 0
  }

  predicate Outside(base: int, b: Major) {
    b.addr + b.size <= base || base + HEAP_BYTES <= b.addr
  }

  predicate Covers(base: int, b: Major, p: nat) {
    b.addr <= base + PAGE_SIZE * p < b.addr + b.size
  }

  predicate Covered(base: int, majors: seq<Major>, p: nat) {
    exists i | 0 <= i < |majors| :: Covers(base, majors[i], p)
  }

  /** The used pages of the local heap are exactly those of the listed blocks. */
  predicate Owns(base: int, used: seq<bool>, majors: seq<Major>) {
    && |used| == HEAP_PAGES
    && (forall i | 0 <= i < |majors| :: InHeap(base, majors[i]) || Outside(base, majors[i]))
    && (forall p: nat | p < HEAP_PAGES :: used[p] <==> Covered(base, majors, p))
  }

  /** A free run overlaps no listed block, wherever that is. */
  lemma FreeRunIsApart(base: int, used: seq<bool>, majors: seq<Major>, a: nat, b: Major, i: nat)
    requires Owns(base, used, majors) && i < |majors| && MajorOk(majors[i])
    requires b.pages > 0 && FreeRun(used, a, b.pages) && b.addr == base + PAGE_SIZE * a && b.size == b.pages * PAGE_SIZE
    ensures Apart(majors[i], b)
  {
    assert InHeap(base, b);
    if InHeap(base, majors[i]) {
      var q := (majors[i].addr - base) / PAGE_SIZE;
      var p := if a < q then q else a;
      if p < a + b.pages {
        assert !used[p];
        assert !Covers(base, majors[i], p);
      }
    }
  }

  /** Only addresses and sizes of blocks matter here. */
  predicate SameExtents(before: seq<Major>, after: seq<Major>) {
    && |after| == |before|
    && forall i | 0 <= i < |before| :: after[i].addr == before[i].addr && after[i].size == before[i].size
  }

  lemma OwnsExtents(base: int, used: seq<bool>, before: seq<Major>, after: seq<Major>)
    requires Owns(base, used, before) && SameExtents(before, after)
    ensures Owns(base, used, after)
  {
    forall p: nat | p < HEAP_PAGES ensures Covered(base, before, p) <==> Covered(base, after, p) {
      if Covered(base, before, p) {
        var i :| 0 <= i < |before| && Covers(base, before[i], p);
        assert Covers(base, after[i], p);
      }
      if Covered(base, after, p) {
        var i :| 0 <= i < |after| && Covers(base, after[i], p);
        assert Covers(base, before[i], p);
      }
    }
  }

  lemma CoveredAppend(base: int, majors: seq<Major>, b: Major, p: nat)
    ensures Covered(base, majors + [b], p) <==> Covered(base, majors, p) || Covers(base, b, p)
  {
    if Covered(base, majors, p) {
      var i :| 0 <= i < |majors| && Covers(base, majors[i], p);
      assert Covers(base, (majors + [b])[i], p);
    }
    if Covers(base, b, p) { assert Covers(base, (majors + [b])[|majors|], p); }
  }

  /** The pages the local heap gives to, or takes back from, a block. */
  function Marking(base: int, used: seq<bool>, b: Major, status: bool): (r: seq<bool>)
    requires |used| == HEAP_PAGES && b.size == b.pages * PAGE_SIZE && b.pages > 0
    ensures |r| == HEAP_PAGES
    ensures InHeap(base, b) || Outside(base, b) ==>
              forall p: nat | p < HEAP_PAGES :: r[p] == if Covers(base, b, p) then status else used[p]
  {
    if InHeap(base, b) then
      assert forall p: nat :: Covers(base, b, p) <==> (b.addr - base) / PAGE_SIZE <= p < (b.addr - base) / PAGE_SIZE + b.pages by {
        forall p: nat
          ensures Covers(base, b, p) <==> (b.addr - base) / PAGE_SIZE <= p < (b.addr - base) / PAGE_SIZE + b.pages
        {
        }
      }
      WithRun(used, (b.addr - base) / PAGE_SIZE, b.pages, status)
    else
      used
  }

  lemma OwnsAppend(base: int, used: seq<bool>, majors: seq<Major>, b: Major)
    requires Owns(base, used, majors) && b.size == b.pages * PAGE_SIZE && b.pages > 0
    requires InHeap(base, b) || Outside(base, b)
    ensures Owns(base, Marking(base, used, b, true), majors + [b])
  {
    forall p: nat | p < HEAP_PAGES ensures Marking(base, used, b, true)[p] <==> Covered(base, majors + [b], p) {
      CoveredAppend(base, majors, b, p);
    }
  }

  lemma CoveredWithout(base: int, majors: seq<Major>, m: nat, p: nat)
    requires m < |majors|
    ensures Covered(base, majors, p) <==> Covered(base, Without(majors, m), p) || Covers(base, majors[m], p)
  {
    var after := Without(majors, m);
    if Covered(base, majors, p) && !Covers(base, majors[m], p) {
      var i :| 0 <= i < |majors| && Covers(base, majors[i], p);
      assert Covers(base, after[if i < m then i else i - 1], p);
    }
    if Covered(base, after, p) {
      var i :| 0 <= i < |after| && Covers(base, after[i], p);
      assert Covers(base, majors[if i < m then i else i + 1], p);
    }
  }

  lemma OwnsUnlink(base: int, used: seq<bool>, majors: seq<Major>, m: nat)
    requires Owns(base, used, majors) && Listed(majors) && m < |majors| && majors[m].pages > 0 && majors[m].size == majors[m].pages * PAGE_SIZE
    ensures Owns(base, Marking(base, used, majors[m], false), Without(majors, m))
  {
    forall p: nat | p < HEAP_PAGES
      ensures Marking(base, used, majors[m], false)[p] <==> Covered(base, Without(majors, m), p)
    {
      CoveredWithout(base, majors, m, p);
    }
  }

  lemma AfterFreeExtents(majors: seq<Major>, m: nat, k: nat)
    requires Listed(majors) && m < |majors| && k < |majors[m].minors|
    ensures var left := majors[m := Removed(majors[m], k)];
            SameExtents(majors, left) && Listed(left) && AfterFree(majors, m, k) == if left[m].minors == [] then Without(left, m) else left
  {
    RemoveKeepsSound(majors, m, k, 0);
  }

  /** After malloc the marks are right again: the pages of the new block, if one was made, and no
      other, have become used. */
  lemma MallocOwns(base: int, used: seq<bool>, before: seq<Major>, block: Option<int>, m: int, k: int, x: Minor,
                   after: seq<Major>, used': seq<bool>)
    requires Owns(base, used, before) && Placed(before, block, m, k, x, after)
    requires m == |before| ==> InHeap(base, NewMajor(block.value, x.size)) || Outside(base, NewMajor(block.value, x.size))
    requires used' == if m == |before| then Marking(base, used, NewMajor(block.value, x.size), true) else used
    ensures Owns(base, used', after)
  {
    if m == |before| { OwnsAppend(base, used, before, NewMajor(block.value, x.size)); }
    OwnsExtents(base, used', Grown(before, block, m, x.size), after);
  }

  /** And after free: the pages of an unlinked block become free, and no other. */
  lemma FreeOwns(base: int, used: seq<bool>, before: seq<Major>, m: nat, k: nat)
    requires Owns(base, used, before) && Listed(before) && m < |before| && k < |before[m].minors|
    ensures var b := Removed(before[m], k);
            && b.pages > 0 && b.size == b.pages * PAGE_SIZE && (InHeap(base, b) || Outside(base, b))
            && Owns(base, if b.minors == [] then Marking(base, used, b, false) else used, AfterFree(before, m, k))
  {
    AfterFreeExtents(before, m, k);
    var left := before[m := Removed(before[m], k)];
    OwnsExtents(base, used, before, left);
    assert MajorOk(left[m]);
    if left[m].minors == [] { OwnsUnlink(base, used, left, m); }
  }

  ghost predicate HasRun(used: seq<bool>, n: nat) {
    exists a: nat :: FreeRun(used, a, n)
  }

  class SystemHeap {
    /** The address of initial_heap. */
    const base: int
    const pages: HeapPages
    const heap: Heap

    ghost predicate Valid()
      reads heap, pages, pages.bitmap
    {
      base > 0 && pages.Valid() && heap.Valid() && Owns(base, pages.Used(), heap.majors)
    }

    constructor Init(base: int)
      requires base > 0
      ensures Valid() && heap.majors == []
    {
      this.base := base;
      pages := new HeapPages.Init();
      heap := new Heap();
    }

    /** What the pager may answer when the local heap is exhausted. */
    ghost predicate Fallback(block: Option<int>, size: int)
      reads heap
    {
      heap.PageSource(block, size) && (block.Some? ==> Outside(base, NewMajor(block.value, size)))
    }

    /** Whatever run the local heap finds, it is away from every listed block. */
    lemma RunIsPageSource(a: nat, size: int)
      requires Valid() && size >= 0 && FreeRun(pages.Used(), a, PagesFor(size))
      ensures heap.PageSource(Some(base + PAGE_SIZE * a), size)
      ensures InHeap(base, NewMajor(base + PAGE_SIZE * a, size))
      ensures (base + PAGE_SIZE * a - base) / PAGE_SIZE == a
    {
      var b := NewMajor(base + PAGE_SIZE * a, size);
      forall i | 0 <= i < |heap.majors| ensures Apart(heap.majors[i], b) {
        FreeRunIsApart(base, pages.Used(), heap.majors, a, b, i);
      }
    }

    /** The search of liballoc_alloc: a run of the local heap, else what the pager answers. */
    method Ask(size: int, fallback: Option<int>) returns (run: Option<nat>, block: Option<int>)
      requires Valid() && size >= 0 && Fallback(fallback, size)
      ensures heap.PageSource(block, size)
      ensures block.None? <==> fallback.None? && !HasRun(pages.Used(), PagesFor(size))
      ensures run.Some? ==> block.Some? && run.value + PagesFor(size) <= HEAP_PAGES
      ensures block.Some? ==> InHeap(base, NewMajor(block.value, size)) || Outside(base, NewMajor(block.value, size))
      ensures block.Some? ==> Marking(base, pages.Used(), NewMajor(block.value, size), true)
                              == if run.Some? then WithRun(pages.Used(), run.value, PagesFor(size), true) else pages.Used()
    {
      run := pages.FindRun(PagesFor(size));
      block := fallback;
      if run.Some? {
        RunIsPageSource(run.value, size);
        block := Some(base + PAGE_SIZE * run.value);
      }
    }

    /** malloc with liballoc_alloc under it. The search for a run has no effect, so it can come
        first; the run is marked only if malloc asked for it. */
    method Malloc(reqSize: nat, fallback: Option<int>) returns (ptr: int)
      requires Valid() && Fallback(fallback, Need(reqSize) - MINOR_HEADER)
      modifies heap, pages, pages.bitmap
      ensures Valid()
      ensures ptr == NULL <==> && !SomeGap(old(heap.majors), Need(reqSize)) && fallback.None?
                               && !HasRun(old(pages.Used()), PagesFor(Need(reqSize) - MINOR_HEADER))
      ensures ptr == NULL ==> heap.majors == old(heap.majors) && pages.Used() == old(pages.Used())
      ensures ptr != NULL ==> ptr % ALIGNMENT == 0 && forall r :: !Live(old(heap.majors), ptr, r)
      ensures ptr != NULL ==> forall p, r :: (Live(heap.majors, p, r) <==> Live(old(heap.majors), p, r) || (p == ptr && r == reqSize))
      ensures pages.Used() != old(pages.Used()) ==> !SomeGap(old(heap.majors), Need(reqSize))
    {
      var size := Need(reqSize) - MINOR_HEADER;
      var run, block := Ask(size, fallback);
      ghost var m, k, x;
      var asked;
      ptr, asked, m, k, x := heap.Malloc(reqSize, block);
      if ptr != NULL {
        Mark(run, asked, size, old(heap.majors), block, m, k, x);
      }
    }

    /** The marking half of liballoc_alloc, if malloc came to it. */
    method Mark(run: Option<nat>, asked: bool, size: int, ghost before: seq<Major>, ghost block: Option<int>,
                ghost m: int, ghost k: int, ghost x: Minor)
      requires pages.Valid() && Owns(base, pages.Used(), before) && (asked <==> m == |before|)
      requires Placed(before, block, m, k, x, heap.majors) && x.size == size >= 0
      requires block.Some? ==> InHeap(base, NewMajor(block.value, size)) || Outside(base, NewMajor(block.value, size))
      requires run.Some? ==> run.value + PagesFor(size) <= HEAP_PAGES
      requires block.Some? ==> Marking(base, pages.Used(), NewMajor(block.value, size), true)
                               == if run.Some? then WithRun(pages.Used(), run.value, PagesFor(size), true) else pages.Used()
      modifies pages, pages.bitmap
      ensures pages.Valid() && Owns(base, pages.Used(), heap.majors)
      ensures !asked ==> pages.Used() == old(pages.Used())
    {
      ghost var used := pages.Used();
      if asked && run.Some? { pages.Take(run.value, PagesFor(size)); }
      MallocOwns(base, used, before, block, m, k, x, heap.majors, pages.Used());
    }

    /** liballoc_free. */
    method GiveBack(block: Block, ghost b: Major)
      requires block == Block(b.addr, b.pages)
      requires pages.Valid() && b.pages > 0 && b.size == b.pages * PAGE_SIZE && (InHeap(base, b) || Outside(base, b))
      modifies pages, pages.bitmap
      ensures pages.Valid() && pages.Used() == Marking(base, old(pages.Used()), b, false)
    {
      if base <= block.addr < base + HEAP_BYTES { pages.Give((block.addr - base) / PAGE_SIZE, block.pages); }
    }

    /** free with liballoc_free under it. */
    method Free(ptr: int)
      requires Valid() && (ptr == NULL || exists r :: Live(heap.majors, ptr, r))
      modifies heap, pages, pages.bitmap
      ensures Valid()
      ensures ptr == NULL ==> heap.majors == old(heap.majors)
      ensures ptr != NULL ==> forall p, r :: (Live(heap.majors, p, r) <==> Live(old(heap.majors), p, r) && p != ptr)
    {
      var released;
      ghost var m, k;
      released, m, k := heap.Free(ptr);
      if ptr != NULL {
        Reclaim(released, old(heap.majors), m, k);
      }
    }

    method Reclaim(released: Option<Block>, ghost before: seq<Major>, ghost m: nat, ghost k: nat)
      requires pages.Valid() && Owns(base, pages.Used(), before) && Listed(before) && m < |before| && k < |before[m].minors|
      requires released == ReleasedBy(before, m, k)
      modifies pages, pages.bitmap
      ensures pages.Valid() && Owns(base, pages.Used(), AfterFree(before, m, k))
    {
      FreeOwns(base, pages.Used(), before, m, k);
      if released.Some? { GiveBack(released.value, Removed(before[m], k)); }
    }

    /** The live pointers and their sizes are those of a plain map. */
    ghost predicate Agrees(live: map<int, int>)
      reads heap
    {
      Described(heap.majors, live)
    }

    /** A client: any sequence of allocations, and of releases of what it was given and has not
        given back. The heap is a map from pointers to sizes, whose entries never overlap. */
    method Serve(requests: seq<Request>) returns (answers: seq<int>)
      requires Valid() && heap.majors == []
      modifies heap, pages, pages.bitmap
      ensures Valid() && |answers| == |requests| && Agrees(LiveAfter(requests, answers))
      ensures forall p, q | p in LiveAfter(requests, answers) && q in LiveAfter(requests, answers) ::
                Separate(LiveAfter(requests, answers), p, q)
    {
      answers := [];
      while |answers| < |requests|
        invariant Valid() && |answers| <= |requests| && Agrees(LiveAfter(requests[..|answers|], answers))
      {
        var answer := ServeOne(requests[|answers|], answers, LiveAfter(requests[..|answers|], answers));
        OneMoreRequest(requests, answers, answer);
        answers := answers + [answer];
      }
      assert requests[..|answers|] == requests;
      AllSeparate(heap.majors, LiveAfter(requests, answers));
    }

    method ServeOne(request: Request, answers: seq<int>, live: map<int, int>) returns (answer: int)
      requires Valid() && Agrees(live)
      modifies heap, pages, pages.bitmap
      ensures Valid() && Agrees(Updated(live, request, answers, answer))
    {
      answer := NULL;
      match request
      case Allocate(size) =>
        answer := Malloc(size, None);
      case Release(i) =>
        if i < |answers| && answers[i] in live { GiveUp(answers[i], live); }
    }

    method GiveUp(ptr: int, live: map<int, int>)
      requires Valid() && Agrees(live) && ptr in live
      modifies heap, pages, pages.bitmap
      ensures Valid() && Agrees(live - {ptr})
    {
      DescribedIsLive(heap.majors, live, ptr);
      Free(ptr);
    }
  }

  datatype Request = Allocate(size: nat) | Release(request: nat)

  /** The live pointers after one more request: a new one, or one less. */
  function Updated(live: map<int, int>, request: Request, answers: seq<int>, answer: int): map<int, int> {
    match request
    case Allocate(size) => if answer == NULL then live else live[answer := size]
    case Release(i) => if i < |answers| && answers[i] in live then live - {answers[i]} else live
  }

  function LiveAfter(requests: seq<Request>, answers: seq<int>): map<int, int>
    requires |requests| == |answers|
  {
    if requests == [] then map[]
    else
      var n := |requests| - 1;
      Updated(LiveAfter(requests[..n], answers[..n]), requests[n], answers[..n], answers[n])
  }

  lemma OneMoreRequest(requests: seq<Request>, answers: seq<int>, answer: int)
    requires |answers| < |requests|
    ensures LiveAfter(requests[..|answers| + 1], answers + [answer])
         == Updated(LiveAfter(requests[..|answers|], answers), requests[|answers|], answers, answer)
  {
    var n := |answers|;
    assert requests[..n + 1][..n] == requests[..n] && (answers + [answer])[..n] == answers;
  }

  predicate Separate(live: map<int, int>, p: int, q: int)
    requires p in live && q in live
  {
    p % ALIGNMENT == 0 && p > 0 && (p != q ==> p + live[p] <= q || q + live[q] <= p)
  }

  /** The live pointers of the blocks and their sizes are those of the map. */
  ghost predicate Described(majors: seq<Major>, live: map<int, int>) {
    forall p, r :: Live(majors, p, r) <==> p in live && live[p] == r
  }

  lemma DescribedIsLive(majors: seq<Major>, live: map<int, int>, ptr: int)
    requires Listed(majors) && Described(majors, live) && ptr in live
    ensures ptr != NULL && exists r :: Live(majors, ptr, r)
  {
    assert Live(majors, ptr, live[ptr]);
    LiveDisjoint(majors, ptr, live[ptr], ptr, live[ptr]);
  }

  lemma AllSeparate(majors: seq<Major>, live: map<int, int>)
    requires Listed(majors) && Described(majors, live)
    ensures forall p, q | p in live && q in live :: Separate(live, p, q)
  {
    forall p, q | p in live && q in live ensures Separate(live, p, q) {
      LiveDisjoint(majors, p, live[p], q, live[q]);
    }
  }
}
