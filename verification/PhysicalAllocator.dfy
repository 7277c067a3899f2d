/** The physical page allocator of kernel/src/memory/physical.cpp, over one status block: a bit
    per page, and a hint below which everything is used. Pages are numbered by address >> 12. */
module PhysicalAllocator {
  import opened Wrappers

  /** address & 7, as a shift count. */
  function BitOffset(page: nat): (k: bv8)
    ensures k < 8
  {
    var r := page % 8;
    if r == 0 then 0 else if r == 1 then 1 else if r == 2 then 2 else if r == 3 then 3
    else if r == 4 then 4 else if r == 5 then 5 else if r == 6 then 6 else 7
  }

  lemma BitOffsetsDiffer(p: nat, q: nat)
    ensures BitOffset(p) == BitOffset(q) <==> p % 8 == q % 8
  {
  }

  predicate BitSet(byte: bv8, k: bv8)
    requires k < 8
  {
    (byte >> k) & 1 == 1
  }

  /** The two updates of set_page_status. */
  function WithBit(byte: bv8, k: bv8, status: bool): bv8
    requires k < 8
  {
    (byte & !(1 << k)) | ((if status then 1 else 0) << k)
  }

  lemma WithBitSet(byte: bv8, k: bv8, status: bool, j: bv8)
    requires k < 8 && j < 8
    ensures BitSet(WithBit(byte, k, status), j) == if j == k then status else BitSet(byte, j)
  {
  }

  /** The status of every page, as a plain sequence. */
  ghost predicate Represents(bitmap: seq<bv8>, used: seq<bool>) {
    |used| == 8 * |bitmap| && forall p: nat | p < |used| :: used[p] == BitSet(bitmap[p / 8], BitOffset(p))
  }

  function UsedOf(bitmap: seq<bv8>): (used: seq<bool>)
    ensures Represents(bitmap, used)
  {
    seq(8 * |bitmap|, (p: nat) requires p < 8 * |bitmap| => BitSet(bitmap[p / 8], BitOffset(p)))
  }

  lemma UpdateBit(bitmap: seq<bv8>, page: nat, status: bool)
    requires page < 8 * |bitmap|
    ensures UsedOf(bitmap[page / 8 := WithBit(bitmap[page / 8], BitOffset(page), status)]) == UsedOf(bitmap)[page := status]
  {
    var bitmap' := bitmap[page / 8 := WithBit(bitmap[page / 8], BitOffset(page), status)];
    forall q: nat | q < 8 * |bitmap| ensures UsedOf(bitmap')[q] == UsedOf(bitmap)[page := status][q] {
      WithBitSet(bitmap[page / 8], BitOffset(page), status, BitOffset(q));
      BitOffsetsDiffer(page, q);
      assert q / 8 == page / 8 && q % 8 == page % 8 ==> q == page;
    }
  }

  // ----- Runs of free pages -----

  predicate FreeRun(used: seq<bool>, a: nat, n: nat) {
    a + n <= |used| && forall i | a <= i < a + n :: !used[i]
  }

  /** The lowest place for `n` pages. */
  ghost predicate LowestRun(used: seq<bool>, a: nat, n: nat) {
    FreeRun(used, a, n) && forall b: nat | FreeRun(used, b, n) :: a <= b
  }

  /** `used` with the pages from `a` to `a + n` set to `status`. */
  function WithRun(used: seq<bool>, a: nat, n: nat, status: bool): (r: seq<bool>)
    requires a + n <= |used|
    ensures |r| == |used|
    ensures forall i | 0 <= i < |used| :: r[i] == if a <= i < a + n then status else used[i]
  {
    if n == 0 then used else WithRun(used, a, n - 1, status)[a + n - 1 := status]
  }

  function Count(used: seq<bool>): nat {
    if used == [] then 0 else Count(used[..|used| - 1]) + if used[|used| - 1] then 1 else 0
  }

  lemma {:induction false} CountUpdate(used: seq<bool>, p: nat, status: bool)
    requires p < |used|
    ensures Count(used[p := status]) == Count(used) + (if status then 1 else 0) - (if used[p] then 1 else 0)
  {
    var last := |used| - 1;
    if p == last {
      assert used[p := status][..last] == used[..last];
    } else {
      CountUpdate(used[..last], p, status);
      assert used[p := status][..last] == used[..last][p := status];
    }
  }

  /** Taking free pages counts them all. */
  lemma {:induction false} CountTaken(used: seq<bool>, a: nat, n: nat)
    requires FreeRun(used, a, n)
    ensures Count(WithRun(used, a, n, true)) == Count(used) + n
  {
    if n > 0 {
      CountTaken(used, a, n - 1);
      var before := WithRun(used, a, n - 1, true);
      CountUpdate(before, a + n - 1, true);
      assert !before[a + n - 1];
    }
  }

  predicate UsedRun(used: seq<bool>, a: nat, n: nat)
    requires a + n <= |used|
  {
    forall i | a <= i < a + n :: used[i]
  }

  /** Freeing counts exactly the pages that were used. */
  lemma {:induction false} CountFreed(used: seq<bool>, a: nat, n: nat)
    requires a + n <= |used|
    ensures Count(WithRun(used, a, n, false)) >= Count(used) - n
    ensures Count(WithRun(used, a, n, false)) == Count(used) - n <==> UsedRun(used, a, n)
  {
    if n > 0 {
      CountFreed(used, a, n - 1);
      CountUpdate(WithRun(used, a, n - 1, false), a + n - 1, false);
    }
  }

  /** What init_pmm reads from the boot loader's memory map: page-aligned areas. */
  datatype Area = Area(base: nat, pages: nat, usable: bool)

  predicate Usable(areas: seq<Area>, p: nat) {
    exists i | 0 <= i < |areas| :: areas[i].usable && areas[i].base <= p < areas[i].base + areas[i].pages
  }

  /** The hint when no area is usable: ~0 >> 12. */
  const NO_PAGE: nat := 0xF_FFFF_FFFF_FFFF
  const FIRST_MIB: nat := 256

  class PhysicalMemory {
    /** used_bitmap of the status block. */
    var bitmap: array<bv8>
    /** pmm_first_potential_page. */
    var first: nat
    /** allocated_ppages; the source counts modulo 2^64. */
    var allocatedPages: int

    ghost function Used(): seq<bool>
      reads this, bitmap
    {
      UsedOf(bitmap[..])
    }

    /** All pages below the hint are used. */
    ghost predicate Valid()
      reads this, bitmap
    {
      forall p | 0 <= p < first && p < |Used()| :: Used()[p]
    }

    method SetPageStatus(page: nat, status: bool)
      requires page < 8 * bitmap.Length
      modifies bitmap
      ensures Used() == old(Used())[page := status]
    {
      UpdateBit(bitmap[..], page, status);
      ghost var before := bitmap[..];
      bitmap[page / 8] := WithBit(bitmap[page / 8], BitOffset(page), status);
      assert bitmap[..] == before[page / 8 := WithBit(before[page / 8], BitOffset(page), status)];
    }

    method IsPageUsed(page: nat) returns (status: bool)
      requires page < 8 * bitmap.Length
      ensures status == Used()[page]
    {
      status := BitSet(bitmap[page / 8], BitOffset(page));
    }

    /** The marking loops. */
    method SetRun(a: nat, n: nat, status: bool)
      requires a + n <= 8 * bitmap.Length
      modifies bitmap
      ensures Used() == WithRun(old(Used()), a, n, status)
    {
      for i := 0 to n
        invariant Used() == WithRun(old(Used()), a, i, status)
      {
        SetPageStatus(a + i, status);
      }
    }

    /** The search loop of palloc: the lowest run of `n` free pages, whenever there is one,
        although the search starts at the hint and jumps past used pages. When there is none the
        source reads past the bitmap; that is the answer None. */
    method FindRun(n: nat) returns (addr: Option<nat>)
      requires Valid()
      ensures n > 0 ==> (addr.Some? <==> exists b: nat :: FreeRun(Used(), b, n))
      ensures addr.Some? ==> FreeRun(Used(), addr.value, n)
      ensures n > 0 && addr.Some? ==> LowestRun(Used(), addr.value, n)
      ensures n == 0 && first <= 8 * bitmap.Length ==> addr == Some(first)
    {
      var total := 8 * bitmap.Length;
      var a := first;
      BelowHint(Used(), first, n);
      while a + n <= total
        invariant n > 0 ==> forall b: nat | b < a :: !FreeRun(Used(), b, n)
        invariant n == 0 ==> a == first
        decreases total - a
      {
        var foundBlock := true;
        var i := 0;
        while i < n && foundBlock
          invariant 0 <= i <= n && a + n <= total
          invariant foundBlock ==> forall k | a <= k < a + i :: !Used()[k]
          invariant !foundBlock ==> i < n && Used()[a + i]
          decreases n - i, foundBlock
        {
          var status := IsPageUsed(a + i);
          if status { foundBlock := false; } else { i := i + 1; }
        }
        if foundBlock {
          assert FreeRun(Used(), a, n);
          return Some(a);
        }
        a := a + i + 1;
      }
      addr := None;
    }

    /** The marking of init_pmm: everything is used but the usable areas above the first MiB, and
        the hint is the lowest usable base. */
    constructor Init(length: nat, areas: seq<Area>)
      requires FIRST_MIB <= 8 * length <= NO_PAGE
      requires forall i | 0 <= i < |areas| :: areas[i].usable ==> areas[i].base + areas[i].pages <= 8 * length
      ensures Valid() && fresh(bitmap) && bitmap.Length == length && allocatedPages == 0
      ensures forall p: nat | p < |Used()| :: Used()[p] == (!Usable(areas, p) || p < FIRST_MIB)
    {
      bitmap := new bv8[length](_ => 0xFF);
      first := NO_PAGE;
      allocatedPages := 0;
      new;
      for i := 0 to |areas|
        invariant fresh(bitmap) && bitmap.Length == length && allocatedPages == 0
        invariant |Used()| == 8 * length && Marked(areas[..i], Used())
        invariant HintBelow(areas[..i], first)
      {
        ghost var before := Used();
        if areas[i].usable {
          if first > areas[i].base { first := areas[i].base; }
          SetRun(areas[i].base, areas[i].pages, false);
        }
        MarkedOneMore(areas, i, before, Used());
        assert areas[..i + 1] == areas[..i] + [areas[i]];
      }
      assert areas[..|areas|] == areas;
      SetRun(0, FIRST_MIB, true);
    }

    /** The kernel's own memory test, for every size and order: a run freed page by page, in any
        order, is found again. */
    method FreeAndReallocate(n: nat, order: seq<nat>) returns (address: Option<nat>, address2: Option<nat>)
      requires Valid() && n > 0
      requires forall i | 0 <= i < |order| :: order[i] < n
      requires forall k: nat | k < n :: k in order
      modifies this`first, this`allocatedPages, bitmap
      ensures address2 == address
      ensures address.Some? ==> LowestRun(old(Used()), address.value, n)
    {
      address := Palloc(n);
      if address.None? { return address, None; }
      var a := address.value;
      ghost var before := old(Used());
      FreeEach(a, n, order);
      RunRestored(before, a, n, order, Used());
      address2 := PallocAgain(n, a);
    }

    method PallocAgain(n: nat, a: nat) returns (addr: Option<nat>)
      requires Valid() && n > 0 && LowestRun(Used(), a, n)
      modifies this`first, this`allocatedPages, bitmap
      ensures addr == Some(a)
    {
      assert exists b: nat :: FreeRun(Used(), b, n);
      addr := Palloc(n);
    }

    method FreeEach(a: nat, n: nat, order: seq<nat>)
      requires Valid() && a + n <= |Used()| && forall i | 0 <= i < |order| :: order[i] < n
      modifies this`first, this`allocatedPages, bitmap
      ensures Valid() && bitmap == old(bitmap) && FreedIn(old(Used()), a, order, Used())
    {
      for i := 0 to |order|
        invariant Valid() && bitmap == old(bitmap) && FreedIn(old(Used()), a, order[..i], Used())
      {
        FreedOneMore(old(Used()), a, order[..i], Used(), order[i]);
        Pfree(a + order[i], 1);
        assert order[..i + 1] == order[..i] + [order[i]];
      }
      assert order[..|order|] == order;
    }

    /** palloc: takes the lowest run and nothing else, and keeps the hint right. */
    method Palloc(n: nat) returns (addr: Option<nat>)
      requires Valid()
      modifies this`first, this`allocatedPages, bitmap
      ensures Valid() && bitmap == old(bitmap)
      ensures n > 0 ==> (addr.Some? <==> exists b: nat :: FreeRun(old(Used()), b, n))
      ensures n > 0 && addr.Some? ==> LowestRun(old(Used()), addr.value, n)
      ensures addr.Some? ==> FreeRun(old(Used()), addr.value, n) && Used() == WithRun(old(Used()), addr.value, n, true)
      ensures addr.Some? ==> allocatedPages == old(allocatedPages) + n
      ensures allocatedPages - Count(Used()) == old(allocatedPages - Count(Used()))
      ensures addr.None? ==> Used() == old(Used()) && first == old(first) && allocatedPages == old(allocatedPages)
    {
      addr := FindRun(n);
      if addr.Some? {
        CountTaken(Used(), addr.value, n);
        SetRun(addr.value, n, true);
        if addr.value == first { first := first + n; }
        allocatedPages := allocatedPages + n;
      }
    }

    /** pfree: exactly the named pages become free, and the hint stays below them. */
    method Pfree(page: nat, n: nat)
      requires Valid() && page + n <= 8 * bitmap.Length
      modifies this`first, this`allocatedPages, bitmap
      ensures Valid() && bitmap == old(bitmap)
      ensures Used() == WithRun(old(Used()), page, n, false)
      ensures allocatedPages == old(allocatedPages) - n
      ensures allocatedPages - Count(Used()) == old(allocatedPages - Count(Used()))
         <==> UsedRun(old(Used()), page, n)
    {
      CountFreed(Used(), page, n);
      SetRun(page, n, false);
      if page < first { first := page; }
      allocatedPages := allocatedPages - n;
    }
  }

  /** `after` is `before` with the pages at the given offsets from `a` freed. */
  predicate FreedIn(before: seq<bool>, a: nat, order: seq<nat>, after: seq<bool>) {
    |after| == |before| && forall p: nat | p < |before| :: after[p] == (before[p] && !(p >= a && p - a in order))
  }

  lemma FreedOneMore(before: seq<bool>, a: nat, order: seq<nat>, after: seq<bool>, k: nat)
    requires FreedIn(before, a, order, after) && a + k < |before|
    ensures FreedIn(before, a, order + [k], WithRun(after, a + k, 1, false))
  {
  }

  lemma RunRestored(before: seq<bool>, a: nat, n: nat, order: seq<nat>, after: seq<bool>)
    requires FreeRun(before, a, n) && FreedIn(WithRun(before, a, n, true), a, order, after)
    requires forall i | 0 <= i < |order| :: order[i] < n
    requires forall k: nat | k < n :: k in order
    ensures after == before
  {
    forall p: nat | p < |before| ensures after[p] == before[p] {
      if a <= p < a + n { assert p - a in order; }
    }
  }

  /** Exactly the pages of usable areas are free. */
  predicate Marked(areas: seq<Area>, used: seq<bool>) {
    forall p: nat | p < |used| :: used[p] == !Usable(areas, p)
  }

  predicate HintBelow(areas: seq<Area>, first: nat) {
    forall j | 0 <= j < |areas| :: areas[j].usable ==> first <= areas[j].base
  }

  lemma MarkedOneMore(areas: seq<Area>, i: nat, before: seq<bool>, after: seq<bool>)
    requires i < |areas| && Marked(areas[..i], before)
    requires areas[i].usable ==> areas[i].base + areas[i].pages <= |before|
    requires after == if areas[i].usable then WithRun(before, areas[i].base, areas[i].pages, false) else before
    ensures Marked(areas[..i + 1], after)
  {
  }

  lemma BelowHint(used: seq<bool>, hint: nat, n: nat)
    requires forall p | 0 <= p < hint && p < |used| :: used[p]
    ensures n > 0 ==> forall b: nat | b < hint :: !FreeRun(used, b, n)
  {
    if n > 0 {
      forall b: nat | b < hint ensures !FreeRun(used, b, n) {
        if b + n <= |used| { assert used[b]; }
      }
    }
  }

}
