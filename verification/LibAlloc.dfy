/** malloc and free of kernel/src/memory/liballoc.c on the headers themselves. The list of blocks that
    they link up is a ghost field. */
module LibAlloc {
  import opened HeapBlocks
  import opened HeapLinks
  import opened HeapList
  import opened HeapHeaders
  import opened Wrappers

  /** Where a new minor goes in a block: nowhere, cases 2 and 3, or after a minor (cases 4.1 and
      4.2). */
  datatype Spot = Nowhere | InEmpty | InFront | After(min: int)

  /** The spot is the gap before minor `k`. */
  predicate IsSpot(spot: Spot, b: Major, k: int) {
    && 0 <= k <= |b.minors|
    && match spot
       case Nowhere => false
       case InEmpty => b.minors == []
       case InFront => b.minors != [] && k == 0
       case After(min) => k > 0 && min == b.minors[k - 1].addr
  }

  /** A block that goes back to the page source. */
  datatype Block = Block(addr: int, pages: int)

  /** Cases 3 and 4 of malloc: the first gap of the block that is large enough, looking before the
      first minor, then after each, from `next` to `next`. */
  method ScanMinors(minorAt: MinorMap, maj: int, majSize: int, first: int, need: int, ghost b: Major) returns (spot: Spot, ghost k: int)
    requires MajorOk(b) && b.minors != [] && need > 0 && MinorsLinked(minorAt, b.addr, b.minors)
    requires maj == b.addr && majSize == b.size && first == b.minors[0].addr
    ensures spot.Nowhere? <==> !HasGap(b, need)
    ensures !spot.Nowhere? ==> IsSpot(spot, b, k) && GapSize(b, k) >= need && forall j: nat | j < k :: GapSize(b, j) < need
  {
    var diff := first - maj - MAJOR_HEADER;
    if diff >= need {
      GapIsGap(b, 0, need);
      return InFront, 0;
    }
    var min := first;
    ghost var i := 0;
    while min != NULL
      invariant 0 <= i <= |b.minors| && min == MinorAddr(b.minors, i)
      invariant forall j: nat | j <= i :: GapSize(b, j) < need
      decreases |b.minors| - i
    {
      assert HasHeader(minorAt, b.addr, b.minors, i);
      if minorAt[min].next == NULL {
        diff := maj + majSize - min - MINOR_HEADER - minorAt[min].size;
      } else {
        diff := minorAt[min].next - min - MINOR_HEADER - minorAt[min].size;
      }
      assert diff == GapSize(b, i + 1);
      if diff >= need {
        GapIsGap(b, i + 1, need);
        return After(min), i + 1;
      }
      min := minorAt[min].next;
      i := i + 1;
    }
    spot, k := Nowhere, 0;
    if HasGap(b, need) {
      ghost var p :| FitsAt(b, need, p);
      GapScanComplete(b, need, p);
    }
  }

  /** Cases 2 to 4 of malloc: the first gap of the block that is large enough. */
  method TryBlock(minorAt: MinorMap, h: MajorHeader, maj: int, need: int, ghost b: Major) returns (spot: Spot, ghost k: int)
    requires MajorOk(b) && need > 0 && b.size - b.usage >= need && MinorsLinked(minorAt, b.addr, b.minors)
    requires maj == b.addr && h.size == b.size && h.first == MinorAddr(b.minors, 0)
    ensures spot.Nowhere? <==> !HasGap(b, need)
    ensures !spot.Nowhere? ==> IsSpot(spot, b, k) && GapSize(b, k) >= need && forall j: nat | j < k :: GapSize(b, j) < need
  {
    if h.first == NULL {
      EmptyBlockFits(b, need);
      return InEmpty, 0;
    }
    spot, k := ScanMinors(minorAt, maj, h.size, h.first, need, b);
  }

  /** The stores to the headers of minors at a spot, case by case. */
  method StoreMinor(minorAt: MinorMap, maj: int, first: int, spot: Spot, size: int, reqSize: int, ghost b: Major, ghost k: int)
    returns (at: MinorMap, a: int, first': int)
    requires MajorOk(b) && IsSpot(spot, b, k) && MinorsLinked(minorAt, b.addr, b.minors)
    requires maj == b.addr && first == MinorAddr(b.minors, 0) && size >= 0 && GapSize(b, k) >= size + MINOR_HEADER
    ensures a == GapStart(b, k) && at == StoredMinors(minorAt, b, k, Minor(a, size, reqSize))
    ensures first' == MinorAddr(Inserted(b, k, Minor(a, size, reqSize)).minors, 0)
  {
    RisingMinors(b);
    SpotApart(b, k, size);
    first' := first;
    match spot
    case InEmpty =>
      a := maj + MAJOR_HEADER;
      first' := a;
      at := StoreEmpty(minorAt, a, maj, size, reqSize);
    case InFront =>
      assert HasHeader(minorAt, b.addr, b.minors, 0);
      a := maj + MAJOR_HEADER;
      at := StoreFront(minorAt, a, first, maj, size, reqSize);
      first' := a;
    case After(min) =>
      assert HasHeader(minorAt, b.addr, b.minors, k - 1);
      a := min + MINOR_HEADER + minorAt[min].size;
      if minorAt[min].next == NULL {
        at := StoreBack(minorAt, min, a, maj, size, reqSize);
      } else {
        assert HasHeader(minorAt, b.addr, b.minors, k);
        at := StoreBetween(minorAt, min, a, maj, size, reqSize);
      }
  }

  /** The place of the new header is none of the old ones. */
  lemma SpotApart(b: Major, k: int, size: int)
    requires MajorOk(b) && 0 <= k <= |b.minors| && size >= 0 && GapSize(b, k) >= size + MINOR_HEADER
    ensures GapStart(b, k) > NULL
    ensures k > 0 ==> b.minors[k - 1].addr < GapStart(b, k)
    ensures k < |b.minors| ==> GapStart(b, k) < b.minors[k].addr
  {
  }

  class Heap {
    /** Memory as headers keyed by address, and the bytes left by ALIGN. */
    var majorAt: MajorMap
    var minorAt: MinorMap
    var bytes: map<int, int>
    /** l_memRoot, l_bestBet, l_allocated, l_inuse, l_warningCount. */
    var root: int
    var bestBet: int
    var allocated_: int
    var inUse: int
    var warnings: int
    /** What the headers reachable from the root say. */
    ghost var majors: seq<Major>

    constructor ()
      ensures Valid() && majors == []
    {
      majorAt, minorAt, bytes, root := map[], map[], map[], NULL;
      bestBet, allocated_, inUse, warnings := NULL, 0, 0, 0;
      majors := [];
    }

    /** Between calls no listed block is empty. */
    ghost predicate Valid()
      reads this
    {
      Sound() && NoneEmptyBut(majors, -1)
    }

    ghost predicate Sound()
      reads this
    {
      && Listed(majors)
      && (bestBet == NULL || IsListed(majors, bestBet))
      && inUse == TotalInUse(majors) && allocated_ == TotalSize(majors)
      && Linked()
    }

    /** The headers link the blocks, and the minors of each, both ways and in order; each minor
        points to its block. */
    ghost predicate Linked()
      reads this
    {
      MajorsLinked(majorAt, root, majors) && BlocksLinked(minorAt, bytes, majors)
    }

    /** What liballoc_alloc may answer: nothing, or an address for `size` bytes away from every
        block. */
    ghost predicate PageSource(block: Option<int>, size: int)
      reads this
    {
      block.Some? ==> block.value > 0 && forall i | 0 <= i < |majors| :: Apart(majors[i], NewMajor(block.value, size))
    }

    /** The walk over the list so far: what has been grown, and what has been seen. */
    ghost predicate Walking(old_: seq<Major>, block: Option<int>, size: int, maj: int, m: int, startedBet: bool, grown: bool)
      reads this
    {
      && 0 <= m < |majors| && maj == majors[m].addr
      && (grown ==> block.Some? && !startedBet && majors == old_ + [NewMajor(block.value, size)] && m == |old_|
                    && !SomeGap(old_, size + MINOR_HEADER))
      && (!grown ==> majors == old_)
      && (!grown && !startedBet ==> forall i | 0 <= i < m :: !HasGap(majors[i], size + MINOR_HEADER))
      && Sound()
    }

    /** allocate_new_page and the linking of its result after `last`, or as the root. */
    method Grow(block: Option<int>, size: int, last: int) returns (ok: bool)
      requires Sound() && size >= 0 && PageSource(block, size) && last == MajorAddr(majors, |majors| - 1)
      modifies this`majors, this`majorAt, this`root, this`allocated_, this`warnings
      ensures ok == block.Some?
      ensures ok ==> majors == old(majors) + [NewMajor(block.value, size)]
      ensures !ok ==> majors == old(majors)
      ensures Sound()
    {
      if block.None? {
        warnings := warnings + 1;
        return false;
      }
      ghost var b := NewMajor(block.value, size);
      GrowKeepsList(majors, b, block.value, size, bestBet);
      Adopt(block.value, PagesFor(size), last, b);
      ok := true;
    }

    method Adopt(a: int, pages: int, last: int, ghost b: Major)
      requires Sound() && last == MajorAddr(majors, |majors| - 1)
      requires b == Major(a, pages, pages * PAGE_SIZE, MAJOR_HEADER, []) && Listed(majors + [b]) && Apart0(majors + [b])
      requires TotalInUse(majors + [b]) == TotalInUse(majors) && TotalSize(majors + [b]) == TotalSize(majors) + b.size
      requires IsListed(majors, bestBet) ==> IsListed(majors + [b], bestBet)
      modifies this`majors, this`majorAt, this`root, this`allocated_
      ensures majors == old(majors) + [b] && Sound()
    {
      GrowKeepsBlocks(minorAt, bytes, majors, b);
      majorAt, root := StoreMajor(majorAt, root, a, pages, last, majors, b);
      allocated_ := allocated_ + pages * PAGE_SIZE;
      majors := majors + [b];
    }

    /** What to look at after block `maj`: the next one; at the end of the list the root, if the
        walk began at the best bet; else a new block. */
    method NextBlock(ghost before: seq<Major>, block: Option<int>, size: int, maj: int, ghost m: int, startedBet: bool)
      returns (ok: bool, next: int, ghost n: int, nextStarted: bool, grown: bool)
      requires size > 0 && PageSource(block, size) && Walking(before, block, size, maj, m, startedBet, false)
      requires !HasGap(majors[m], size + MINOR_HEADER)
      modifies this`majors, this`majorAt, this`root, this`allocated_, this`warnings
      ensures ok ==> Walking(before, block, size, next, n, nextStarted, grown)
      ensures !ok ==> block.None? && majors == before && Sound() && !SomeGap(before, size + MINOR_HEADER)
      ensures ok && !grown ==> majors == before && ((startedBet && !nextStarted) || (startedBet == nextStarted && n == m + 1))
      ensures ok && grown && startedBet ==> !nextStarted
    {
      NextIs(majorAt, root, majors, m);
      if majorAt[maj].next != NULL { return true, majorAt[maj].next, m + 1, startedBet, false; }
      if startedBet { return true, root, 0, false, false; }
      ok := Grow(block, size, maj);
      n, nextStarted, grown := m + 1, false, true;
      next := NULL;
      if ok {
        NextIs(majorAt, root, majors, m);
        next := majorAt[maj].next;
      }
    }

    /** Where the walk starts: the root, which is made if there is none, or the best bet if that
        one has more than `need` left. */
    method FirstBlock(block: Option<int>, size: int)
      returns (ok: bool, maj: int, ghost m: int, startedBet: bool, grown: bool, bestSize: int)
      requires Valid() && size > 0 && PageSource(block, size)
      modifies this`majors, this`majorAt, this`root, this`allocated_, this`warnings
      ensures ok ==> Walking(old(majors), block, size, maj, m, startedBet, grown)
      ensures !ok ==> block.None? && majors == old(majors) && Sound() && !SomeGap(majors, size + MINOR_HEADER)
    {
      ListedApart(majors);
      ok, m, startedBet, grown, bestSize := true, 0, false, false, 0;
      if root == NULL {
        grown := Grow(block, size, NULL);
        ok := grown;
        maj := root;
        return;
      }
      maj := root;
      if bestBet != NULL {
        ghost var bet :| 0 <= bet < |majors| && majors[bet].addr == bestBet;
        assert HasMajorHeader(majorAt, majors, bet);
        bestSize := majorAt[bestBet].size - majorAt[bestBet].usage;
        if bestSize > size + MINOR_HEADER { maj, m, startedBet := bestBet, bet, true; }
      }
    }

    /** The first two statements of the loop: this block becomes the best bet if it has more left. */
    method Remember(maj: int, ghost m: nat, diff: int, bestSize: int) returns (bestSize': int)
      requires Sound() && m < |majors| && maj == majors[m].addr
      modifies this`bestBet
      ensures Sound()
      ensures bestBet == (if bestSize < diff then maj else old(bestBet))
      ensures bestSize' == (if bestSize < diff then diff else bestSize)
    {
      bestSize' := bestSize;
      if bestSize < diff { bestBet, bestSize' := maj, diff; }
    }

    /** The walk ended at a gap: of an old block, or of the one made because there was none. */
    ghost predicate Found(before: seq<Major>, block: Option<int>, size: int, spot: Spot, maj: int, m: int, k: int, asked: bool)
      reads this
    {
      && Sound() && 0 <= m < |majors| && maj == majors[m].addr
      && IsSpot(spot, majors[m], k) && GapSize(majors[m], k) >= size + MINOR_HEADER
      && (asked <==> m == |before|) && (asked <==> !SomeGap(before, size + MINOR_HEADER))
      && (if asked then block.Some? && majors == before + [NewMajor(block.value, size)] else majors == before)
    }

    /** It ended without one. */
    ghost predicate Exhausted(before: seq<Major>, block: Option<int>, size: int)
      reads this
    {
      block.None? && majors == before && Sound() && !SomeGap(before, size + MINOR_HEADER)
    }

    /** The walk of malloc over the list, up to the place for the new minor: gap `k` of block
        `m`, or nowhere when there is no memory. It starts at the best bet if that one has room,
        and then goes over the whole list once more from the root. A block is asked for exactly
        when no listed one has a gap. */
    method Search(size: int, block: Option<int>) returns (spot: Spot, maj: int, asked: bool, ghost m: int, ghost k: int)
      requires Valid() && size > 0 && PageSource(block, size)
      modifies this`majors, this`majorAt, this`root, this`bestBet, this`allocated_, this`warnings
      ensures spot.Nowhere? ==> asked && Exhausted(old(majors), block, size)
      ensures !spot.Nowhere? ==> Found(old(majors), block, size, spot, maj, m, k, asked)
    {
      var ok, startedBet, bestSize;
      ok, maj, m, startedBet, asked, bestSize := FirstBlock(block, size);
      spot, k := Nowhere, 0;
      while ok
        invariant ok ==> Walking(old(majors), block, size, maj, m, startedBet, asked)
        invariant !ok ==> Exhausted(old(majors), block, size)
        invariant spot.Nowhere?
        decreases ok, startedBet, !asked, |majors| - m
      {
        ok, spot, k, maj, m, startedBet, asked, bestSize := Visit(old(majors), block, size, maj, m, startedBet, asked, bestSize);
        if !spot.Nowhere? { return; }
      }
      asked := true;
    }

    /** One turn of the loop. */
    method Visit(ghost before: seq<Major>, block: Option<int>, size: int, maj0: int, ghost m0: int, startedBet0: bool, asked0: bool, bestSize0: int)
      returns (ok: bool, spot: Spot, ghost k: int, maj: int, ghost m: int, startedBet: bool, asked: bool, bestSize: int)
      requires size > 0 && Walking(before, block, size, maj0, m0, startedBet0, asked0) && (!asked0 ==> PageSource(block, size))
      modifies this`majors, this`majorAt, this`root, this`bestBet, this`allocated_, this`warnings
      ensures !spot.Nowhere? ==> Found(before, block, size, spot, maj, m, k, asked)
      ensures spot.Nowhere? && !ok ==> Exhausted(before, block, size)
      ensures spot.Nowhere? && ok ==>
                && Walking(before, block, size, maj, m, startedBet, asked) && !asked0 && (startedBet ==> startedBet0)
                && (!asked && startedBet == startedBet0 ==> majors == old(majors) && m == m0 + 1)
    {
      var need := size + MINOR_HEADER;
      maj, m, startedBet, asked := maj0, m0, startedBet0, asked0;
      assert HasMajorHeader(majorAt, majors, m) && MajorOk(majors[m]);
      if asked { NewMajorOk(block.value, size); }
      var diff := majorAt[maj].size - majorAt[maj].usage;
      bestSize := Remember(maj, m, diff, bestSize0);
      ok, spot, k := true, Nowhere, 0;
      if diff < need {
        // Case 1: too little is left in this block. A new one is used at once.
        SkipIsSafe(majors[m], need);
        ok, maj, m, startedBet, asked := NextBlock(before, block, size, maj, m, startedBet);
        if !ok || !asked { return; }
        NewMajorOk(block.value, size);
      }
      spot, k := Try(maj, m, need);
      if !spot.Nowhere? {
        GapIsGap(majors[m], k, need);
        return;
      }
      // Case 5: nothing in this block.
      ok, maj, m, startedBet, asked := NextBlock(before, block, size, maj, m, startedBet);
    }

    method Try(maj: int, ghost m: nat, need: int) returns (spot: Spot, ghost k: int)
      requires Sound() && m < |majors| && maj == majors[m].addr && need > 0 && majors[m].size - majors[m].usage >= need
      ensures spot.Nowhere? <==> !HasGap(majors[m], need)
      ensures !spot.Nowhere? ==> IsSpot(spot, majors[m], k) && GapSize(majors[m], k) >= need && MajorOk(majors[m])
      ensures majors[m].minors == [] ==> !spot.Nowhere?
    {
      if majors[m].minors == [] { assert MajorOk(majors[m]); EmptyBlockFits(majors[m], need); }
      assert HasMajorHeader(majorAt, majors, m) && BlockLinked(minorAt, bytes, majors[m]) && MajorOk(majors[m]);
      spot, k := TryBlock(minorAt, majorAt[maj], maj, need, majors[m]);
    }

    /** The new minor of cases 2 to 4: header stores, usage, totals and ALIGN. */
    method Place(spot: Spot, maj: int, size: int, reqSize: int, ghost m: int, ghost k: int) returns (ptr: int, ghost x: Minor)
      requires Sound() && 0 <= m < |majors| && maj == majors[m].addr && NoneEmptyBut(majors, m)
      requires IsSpot(spot, majors[m], k) && GapSize(majors[m], k) >= size + MINOR_HEADER && MinorOk(Minor(0, size, reqSize))
      modifies this`majors, this`majorAt, this`minorAt, this`bytes, this`inUse
      ensures Valid() && x == Minor(GapStart(old(majors)[m], k), size, reqSize) && ptr == UserPointer(x)
      ensures majors == old(majors)[m := Inserted(old(majors)[m], k, x)]
    {
      var at, bytes', a, first;
      at, bytes', a, first, ptr := StoreAllocation(majorAt, minorAt, bytes, root, maj, spot, size, reqSize, majors, m, k);
      x := Minor(a, size, reqSize);
      PlaceKeepsList(majors, m, k, x, bestBet);
      var majorAt' := StoreUse(majorAt, root, maj, first, size, majors, m, k, x);
      Commit(majorAt', at, bytes', size, majors[m := Inserted(majors[m], k, x)]);
    }

    /** New headers and total for a changed list. */
    method Commit(majorAt': MajorMap, minorAt': MinorMap, bytes': map<int, int>, size: int, ghost after: seq<Major>)
      requires Listed(after) && MajorsLinked(majorAt', root, after) && BlocksLinked(minorAt', bytes', after)
      requires inUse + size == TotalInUse(after) && allocated_ == TotalSize(after)
      requires bestBet == NULL || IsListed(after, bestBet)
      modifies this`majors, this`majorAt, this`minorAt, this`bytes, this`inUse
      ensures Sound() && majors == after
    {
      majorAt, minorAt, bytes, inUse := majorAt', minorAt', bytes', inUse + size;
      majors := after;
    }

    /** malloc, given what the page source would answer if it were asked. */
    method Malloc(reqSize: nat, block: Option<int>) returns (ptr: int, asked: bool, ghost m: int, ghost k: int, ghost x: Minor)
      requires Valid() && PageSource(block, Need(reqSize) - MINOR_HEADER)
      modifies this
      ensures Valid()
      ensures asked <==> !SomeGap(old(majors), Need(reqSize))
      ensures ptr == NULL <==> asked && block.None?
      ensures ptr == NULL ==> majors == old(majors)
      ensures ptr != NULL ==> Placed(old(majors), block, m, k, x, majors) && x.reqSize == reqSize && x.size == Need(reqSize) - MINOR_HEADER
      ensures ptr != NULL ==> ptr == UserPointer(x) && ptr % ALIGNMENT == 0 && (asked <==> m == |old(majors)|)
      ensures ptr != NULL ==> forall r :: !Live(old(majors), ptr, r)
      ensures ptr != NULL ==> forall p, r :: (Live(majors, p, r) <==> Live(old(majors), p, r) || (p == ptr && r == reqSize))
    {
      var size := reqSize + ALIGNMENT + ALIGN_INFO;
      var spot, maj;
      spot, maj, asked, m, k := Search(size, block);
      x := Minor(0, 0, 0);
      if spot.Nowhere? { return NULL, asked, m, k, x; }
      ghost var grown := majors;
      ptr, x := Place(spot, maj, size, reqSize, m, k);
      MallocKeepsLive(old(majors), grown, majors, m, k, x, block, size);
      NewPointer(majors, grown, m, k, x);
    }

    /** free. The minor is found from the pointer by UNALIGN; a block left without minors is
        unlinked and goes back to the page source. */
    method Free(ptr: int) returns (released: Option<Block>, ghost m: int, ghost k: int)
      requires Valid() && (ptr == NULL || exists r :: Live(majors, ptr, r))
      modifies this
      ensures Valid()
      ensures ptr == NULL ==> majors == old(majors) && warnings == old(warnings) + 1 && released.None?
      ensures ptr != NULL ==> IsMinorOf(old(majors), m, k, ptr) && majors == AfterFree(old(majors), m, k)
      ensures ptr != NULL ==> released == ReleasedBy(old(majors), m, k)
      ensures ptr != NULL ==> forall p, r :: (Live(majors, p, r) <==> Live(old(majors), p, r) && p != ptr)
    {
      m, k := -1, -1;
      if ptr == NULL {
        warnings := warnings + 1;
        return None, m, k;
      }
      var min;
      min, m, k := FindMinor(ptr);
      LiveAfterFree(majors, m, k);
      released := FreeMinor(min, m, k);
    }

    /** UNALIGN and the step back over the header. */
    method FindMinor(ptr: int) returns (min: int, ghost m: int, ghost k: int)
      requires Sound() && exists r :: Live(majors, ptr, r)
      ensures IsMinorOf(majors, m, k, ptr) && min == majors[m].minors[k].addr
    {
      m, k := UnalignFinds(minorAt, bytes, majors, ptr);
      min := Unalign(ptr, bytes[ptr - ALIGN_INFO]) - MINOR_HEADER;
    }

    /** Freeing what was just allocated puts the list back as it was. */
    method MallocThenFree(reqSize: nat, block: Option<int>)
      requires Valid() && PageSource(block, Need(reqSize) - MINOR_HEADER)
      modifies this
      ensures Valid() && majors == old(majors)
    {
      var ptr, asked;
      ghost var m, k, x, i, j;
      ptr, asked, m, k, x := Malloc(reqSize, block);
      if ptr != NULL {
        FreeUndoesMalloc(old(majors), block, m, k, x, majors);
        assert Live(majors, ptr, reqSize);
        var released;
        released, i, j := Free(ptr);
      }
    }

    method FreeMinor(min: int, ghost m: nat, ghost k: nat) returns (released: Option<Block>)
      requires Valid() && m < |majors| && k < |majors[m].minors| && min == majors[m].minors[k].addr
      modifies this`majors, this`majorAt, this`minorAt, this`bytes, this`root, this`bestBet, this`allocated_, this`inUse
      ensures Valid() && majors == AfterFree(old(majors), m, k) && released == ReleasedBy(old(majors), m, k)
    {
      assert BlockLinked(minorAt, bytes, majors[m]) && HasHeader(minorAt, majors[m].addr, majors[m].minors, k);
      assert minorAt[min].magic == LiveMagic;
      var maj := minorAt[min].block;
      Take(min, maj, m, k);
      assert HasMajorHeader(majorAt, majors, m) && MajorOk(majors[m]);
      if majorAt[maj].first == NULL {
        released := Some(Block(maj, majorAt[maj].pages));
        UnlinkKeepsList(majors, m, bestBet, Without(majors, m));
        var at, root', size := StoreUnlinked(majorAt, root, maj, majors, m, Without(majors, m));
        Unlink(maj, at, root', size, Without(majors, m));
      } else {
        released := None;
        Reconsider(maj, m);
      }
    }

    /** The minor leaves the list of its block. */
    method Take(min: int, maj: int, ghost m: nat, ghost k: nat)
      requires Valid() && m < |majors| && k < |majors[m].minors| && min == majors[m].minors[k].addr && maj == majors[m].addr
      modifies this`majors, this`majorAt, this`minorAt, this`bytes, this`inUse
      ensures Sound() && NoneEmptyBut(majors, m) && majors == old(majors)[m := Removed(old(majors)[m], k)]
    {
      RemoveKeepsSound(majors, m, k, bestBet);
      var h := HeaderAt(minorAt, min);
      var at := StoreFreed(minorAt, min, bytes, majors, m, k);
      var majorAt' := StoreDisuse(majorAt, root, maj, h, majors, m, k);
      Commit(majorAt', at, bytes, -h.size, majors[m := Removed(majors[m], k)]);
    }

    /** An empty block leaves the list; the best bet is forgotten if it was this one. */
    method Unlink(maj: int, at: MajorMap, root': int, size: int, ghost after: seq<Major>)
      requires Listed(after) && NoneEmptyBut(after, -1) && MajorsLinked(at, root', after) && BlocksLinked(minorAt, bytes, after)
      requires inUse == TotalInUse(after) && allocated_ == TotalSize(after) + size
      requires bestBet == NULL || bestBet == maj || IsListed(after, bestBet)
      modifies this`majors, this`majorAt, this`root, this`bestBet, this`allocated_
      ensures Valid() && majors == after
    {
      if bestBet == maj { bestBet := NULL; }
      majorAt, root, allocated_ := at, root', allocated_ - size;
      majors := after;
    }

    method Reconsider(maj: int, ghost m: nat)
      requires Valid() && m < |majors| && maj == majors[m].addr
      modifies this`bestBet
      ensures Valid()
      ensures old(bestBet) == NULL ==> bestBet == NULL
      ensures forall i | 0 <= i < |majors| && majors[i].addr == old(bestBet) ::
                bestBet == if majors[m].size - majors[m].usage > majors[i].size - majors[i].usage then majors[m].addr else old(bestBet)
    {
      if bestBet != NULL {
        ghost var bet :| 0 <= bet < |majors| && majors[bet].addr == bestBet;
        AddressesDiffer(majors, bet);
        assert HasMajorHeader(majorAt, majors, bet) && HasMajorHeader(majorAt, majors, m);
        var bestSize := majorAt[bestBet].size - majorAt[bestBet].usage;
        if majorAt[maj].size - majorAt[maj].usage > bestSize { bestBet := maj; }
      }
    }
  }

  /** UNALIGN leads from a live pointer to its minor. */
  lemma UnalignFinds(minorAt: MinorMap, bytes: map<int, int>, majors: seq<Major>, ptr: int) returns (m: int, k: int)
    requires BlocksLinked(minorAt, bytes, majors) && exists r :: Live(majors, ptr, r)
    ensures IsMinorOf(majors, m, k, ptr) && ptr - ALIGN_INFO in bytes
    ensures Unalign(ptr, bytes[ptr - ALIGN_INFO]) == majors[m].minors[k].addr + MINOR_HEADER
  {
    LiveIsMinor(majors, ptr);
    m, k :| 0 <= m < |majors| && 0 <= k < |majors[m].minors| && IsMinorOf(majors, m, k, ptr);
    assert BlockLinked(minorAt, bytes, majors[m]);
  }

  /** The block that free gives back, if the minor was the last one in it. */
  function ReleasedBy(majors: seq<Major>, m: int, k: int): Option<Block>
    requires 0 <= m < |majors| && 0 <= k < |majors[m].minors|
  {
    if Removed(majors[m], k).minors == [] then Some(Block(majors[m].addr, majors[m].pages)) else None
  }

  lemma NewPointer(majors: seq<Major>, grown: seq<Major>, m: int, k: int, x: Minor)
    requires 0 <= m < |grown| && 0 <= k <= |grown[m].minors| && majors == grown[m := Inserted(grown[m], k, x)] && Listed(majors)
    ensures UserPointer(x) % ALIGNMENT == 0 && UserPointer(x) > 0
  {
    InsertedAt(grown[m].minors, k, x);
    assert majors[m].minors[k] == x;
    UserBytesInside(x);
  }

  lemma PlaceKeepsMajors(majorAt: MajorMap, root: int, majors: seq<Major>, m: nat, k: nat, x: Minor)
    requires Listed(majors) && MajorsLinked(majorAt, root, majors) && m < |majors| && k <= |majors[m].minors|
    ensures var b, a := Inserted(majors[m], k, x), majors[m].addr;
            && a in majorAt && majorAt[a].usage == majors[m].usage
            && MajorsLinked(majorAt[a := majorAt[a].(usage := b.usage, first := MinorAddr(b.minors, 0))], root, majors[m := b])
  {
    ListedApart(majors);
    assert HasMajorHeader(majorAt, majors, m);
    RelabelLinks(majorAt, root, majors, m, Inserted(majors[m], k, x));
  }

  lemma TakeKeepsMajors(majorAt: MajorMap, root: int, majors: seq<Major>, m: nat, k: nat)
    requires Listed(majors) && MajorsLinked(majorAt, root, majors) && m < |majors| && k < |majors[m].minors|
    ensures var b, a := Removed(majors[m], k), majors[m].addr;
            && a in majorAt && majorAt[a].usage == majors[m].usage
            && MinorAddr(b.minors, 0) == (if k == 0 then MinorAddr(majors[m].minors, 1) else majorAt[a].first)
            && (MinorAddr(majors[m].minors, k - 1) == NULL <==> k == 0)
            && MajorsLinked(majorAt[a := majorAt[a].(usage := b.usage, first := MinorAddr(b.minors, 0))], root, majors[m := b])
  {
    ListedApart(majors);
    assert HasMajorHeader(majorAt, majors, m) && MajorOk(majors[m]);
    RisingMinors(majors[m]);
    RemovedAt(majors[m].minors, k);
    RelabelLinks(majorAt, root, majors, m, Removed(majors[m], k));
  }

  /** The stores of free to the headers of minors. */
  method StoreTaken(at0: MinorMap, min: int) returns (at: MinorMap)
    requires CanUnsplice(at0, min) && at0[min].next != min && at0[min].prev != min
    requires at0[min].prev == NULL || at0[min].prev != at0[min].next
    ensures at == Unsplice(at0, min)
  {
    at := at0[min := at0[min].(magic := DeadMagic)];
    if at[min].next != NULL { at := at[at[min].next := at[at[min].next].(prev := at[min].prev)]; }
    if at[min].prev != NULL { at := at[at[min].prev := at[at[min].prev].(next := at[min].next)]; }
  }

  /** The stores of free to the headers of blocks. */
  method StoreUnlinked(at0: MajorMap, root0: int, maj: int, ghost majors: seq<Major>, ghost m: nat, ghost after: seq<Major>)
    returns (at: MajorMap, root: int, size: int)
    requires Listed(majors) && MajorsLinked(at0, root0, majors) && m < |majors| && maj == majors[m].addr && after == Without(majors, m)
    ensures MajorsLinked(at, root, after) && size == majors[m].size
  {
    ListedApart(majors);
    UnlinkLinks(at0, root0, majors, m, after);
    NeighbourMajors(at0, root0, majors, m);
    at, root, size := at0, root0, at0[maj].size;
    if root == maj { root := at[maj].next; }
    if at[maj].prev != NULL { at := at[at[maj].prev := at[at[maj].prev].(next := at[maj].next)]; }
    if at[maj].next != NULL { at := at[at[maj].next := at[at[maj].next].(prev := at[maj].prev)]; }
  }

  lemma NeighbourMajors(at: MajorMap, root: int, majors: seq<Major>, m: nat)
    requires Apart0(majors) && MajorsLinked(at, root, majors) && m < |majors|
    ensures var a := majors[m].addr;
            && a in at && at[a].next != a && at[a].prev != a && (at[a].prev == NULL || at[a].prev != at[a].next)
            && at[a].size == majors[m].size
  {
    assert HasMajorHeader(at, majors, m);
  }

  /** The stores of malloc to minors, and the byte of ALIGN. */
  method StoreAllocation(majorAt: MajorMap, minorAt: MinorMap, bytes: map<int, int>, root: int, maj: int, spot: Spot, size: int,
                         reqSize: int, ghost majors: seq<Major>, ghost m: int, ghost k: int)
    returns (at: MinorMap, bytes': map<int, int>, a: int, first: int, ptr: int)
    requires Listed(majors) && MajorsLinked(majorAt, root, majors) && BlocksLinked(minorAt, bytes, majors)
    requires 0 <= m < |majors| && maj == majors[m].addr && MinorOk(Minor(0, size, reqSize))
    requires IsSpot(spot, majors[m], k) && GapSize(majors[m], k) >= size + MINOR_HEADER
    ensures a == GapStart(majors[m], k) && ptr == UserPointer(Minor(a, size, reqSize))
    ensures first == MinorAddr(Inserted(majors[m], k, Minor(a, size, reqSize)).minors, 0)
    ensures BlocksLinked(at, bytes', majors[m := Inserted(majors[m], k, Minor(a, size, reqSize))])
  {
    assert HasMajorHeader(majorAt, majors, m) && BlockLinked(minorAt, bytes, majors[m]) && MajorOk(majors[m]);
    at, a, first := StoreMinor(minorAt, maj, majorAt[maj].first, spot, size, reqSize, majors[m], k);
    var p := a + MINOR_HEADER;
    ptr := Align(p);
    bytes' := bytes[ptr - ALIGN_INFO := AlignByte(p)];
    AllocationKeepsLinks(minorAt, bytes, majors, m, k, Minor(a, size, reqSize));
  }

  lemma AllocationKeepsLinks(minorAt: MinorMap, bytes: map<int, int>, majors: seq<Major>, m: nat, k: nat, x: Minor)
    requires Listed(majors) && BlocksLinked(minorAt, bytes, majors) && m < |majors| && k <= |majors[m].minors| && MinorOk(x)
    requires BlockLinked(minorAt, bytes, majors[m])
    requires x.addr == GapStart(majors[m], k) && GapSize(majors[m], k) >= x.size + MINOR_HEADER
    ensures BlocksLinked(StoredMinors(minorAt, majors[m], k, x), StoredByte(bytes, x), majors[m := Inserted(majors[m], k, x)])
  {
    InsertKeepsSound(majors, m, k, x, 0);
    PlaceKeepsLinks(minorAt, bytes, majors, m, k, x, majors[m := Inserted(majors[m], k, x)]);
  }

  /** The stores of malloc to the block. */
  method StoreUse(majorAt: MajorMap, root: int, maj: int, first: int, size: int, ghost majors: seq<Major>, ghost m: int, ghost k: int,
                  ghost x: Minor)
    returns (at: MajorMap)
    requires Listed(majors) && MajorsLinked(majorAt, root, majors) && 0 <= m < |majors| && maj == majors[m].addr
    requires 0 <= k <= |majors[m].minors| && x.size == size && first == MinorAddr(Inserted(majors[m], k, x).minors, 0)
    ensures MajorsLinked(at, root, majors[m := Inserted(majors[m], k, x)])
  {
    PlaceKeepsMajors(majorAt, root, majors, m, k, x);
    at := majorAt[maj := majorAt[maj].(first := first)];
    at := at[maj := at[maj].(usage := at[maj].usage + size + MINOR_HEADER)];
    assert at == majorAt[maj := majorAt[maj].(usage := Inserted(majors[m], k, x).usage, first := first)];
  }

  lemma PlaceKeepsList(majors: seq<Major>, m: nat, k: nat, x: Minor, bet: int)
    requires Listed(majors) && m < |majors| && k <= |majors[m].minors| && MinorOk(x) && NoneEmptyBut(majors, m)
    requires x.addr == GapStart(majors[m], k) && GapSize(majors[m], k) >= x.size + MINOR_HEADER
    ensures var after := majors[m := Inserted(majors[m], k, x)];
            && Listed(after) && TotalInUse(after) == TotalInUse(majors) + x.size && TotalSize(after) == TotalSize(majors)
            && (IsListed(majors, bet) ==> IsListed(after, bet)) && NoneEmptyBut(after, -1)
  {
    InsertKeepsSound(majors, m, k, x, bet);
    InsertedAt(majors[m].minors, k, x);
  }

  /** The stores of free to minors. */
  method StoreFreed(minorAt: MinorMap, min: int, ghost bytes: map<int, int>,
                    ghost majors: seq<Major>, ghost m: nat, ghost k: nat) returns (at: MinorMap)
    requires Listed(majors) && BlocksLinked(minorAt, bytes, majors)
    requires m < |majors| && k < |majors[m].minors| && min == majors[m].minors[k].addr
    ensures BlocksLinked(at, bytes, majors[m := Removed(majors[m], k)])
    ensures HeaderAt(minorAt, min) == MinorHeaderOf(majors[m].addr, majors[m].minors, k)
  {
    assert BlockLinked(minorAt, bytes, majors[m]) && MajorOk(majors[m]) && HasHeader(minorAt, majors[m].addr, majors[m].minors, k);
    RisingMinors(majors[m]);
    TakeKeepsLinks(minorAt, bytes, majors, m, k, majors[m := Removed(majors[m], k)]);
    at := StoreTaken(minorAt, min);
  }

  /** The stores of free to the block. */
  method StoreDisuse(majorAt: MajorMap, root: int, maj: int, h: MinorHeader, ghost majors: seq<Major>, ghost m: nat, ghost k: nat)
    returns (at: MajorMap)
    requires Listed(majors) && MajorsLinked(majorAt, root, majors) && m < |majors| && maj == majors[m].addr
    requires k < |majors[m].minors| && h == MinorHeaderOf(maj, majors[m].minors, k)
    ensures MajorsLinked(at, root, majors[m := Removed(majors[m], k)])
  {
    TakeKeepsMajors(majorAt, root, majors, m, k);
    at := majorAt[maj := majorAt[maj].(usage := majorAt[maj].usage - (h.size + MINOR_HEADER))];
    if h.prev == NULL { at := at[maj := at[maj].(first := h.next)]; }
    ghost var b := Removed(majors[m], k);
    assert at == majorAt[maj := majorAt[maj].(usage := b.usage, first := MinorAddr(b.minors, 0))];
  }

  lemma UnlinkKeepsList(majors: seq<Major>, m: nat, bet: int, after: seq<Major>)
    requires Listed(majors) && m < |majors| && majors[m].minors == [] && NoneEmptyBut(majors, m) && after == Without(majors, m)
    ensures Listed(after) && NoneEmptyBut(after, -1)
    ensures TotalInUse(after) == TotalInUse(majors) && TotalSize(after) == TotalSize(majors) - majors[m].size
    ensures bet != majors[m].addr && IsListed(majors, bet) ==> IsListed(after, bet)
  {
    TotalsRemove(majors, m);
    if bet != majors[m].addr && IsListed(majors, bet) { UnlinkKeepsBet(majors, m, bet); }
  }

  lemma GrowKeepsBlocks(minorAt: MinorMap, bytes: map<int, int>, majors: seq<Major>, b: Major)
    requires BlocksLinked(minorAt, bytes, majors) && b.minors == []
    ensures BlocksLinked(minorAt, bytes, majors + [b])
  {
    forall i | 0 <= i < |majors| ensures BlockLinked(minorAt, bytes, (majors + [b])[i]) { assert BlockLinked(minorAt, bytes, majors[i]); }
  }

  /** The stores to the headers of blocks when one is made. */
  method StoreMajor(majorAt: MajorMap, root: int, a: int, pages: int, last: int, ghost majors: seq<Major>, ghost b: Major)
    returns (at: MajorMap, root': int)
    requires MajorsLinked(majorAt, root, majors) && Apart0(majors + [b]) && last == MajorAddr(majors, |majors| - 1)
    requires b == Major(a, pages, pages * PAGE_SIZE, MAJOR_HEADER, [])
    ensures MajorsLinked(at, root', majors + [b])
  {
    LinkEnd(majorAt, root, majors, b);
    assert forall i | 0 <= i < |majors| :: (majors + [b])[i] == majors[i];
    at, root' := majorAt[a := MajorHeader(NULL, NULL, pages, pages * PAGE_SIZE, MAJOR_HEADER, NULL)], root;
    if last == NULL {
      root' := a;
    } else {
      at := at[last := at[last].(next := a)];
      at := at[a := at[a].(prev := last)];
    }
  }

  lemma GrowKeepsList(majors: seq<Major>, b: Major, addr: int, size: int, bet: int)
    requires Listed(majors) && b == NewMajor(addr, size) && addr > 0 && size >= 0
    requires forall i | 0 <= i < |majors| :: Apart(majors[i], b)
    ensures Listed(majors + [b]) && Apart0(majors + [b]) && b.minors == []
    ensures TotalInUse(majors + [b]) == TotalInUse(majors) && TotalSize(majors + [b]) == TotalSize(majors) + b.size
    ensures IsListed(majors, bet) ==> IsListed(majors + [b], bet)
  {
    NewMajorOk(addr, size);
    ListedApart(majors + [b]);
    TotalsAppend(majors, b);
    if IsListed(majors, bet) {
      var i :| 0 <= i < |majors| && majors[i].addr == bet;
      assert (majors + [b])[i].addr == bet;
    }
  }

  /** The `next` of a block is null exactly at the end of the list. */
  lemma NextIs(majorAt: MajorMap, root: int, majors: seq<Major>, m: int)
    requires Listed(majors) && MajorsLinked(majorAt, root, majors) && 0 <= m < |majors|
    ensures majors[m].addr in majorAt && majorAt[majors[m].addr].next == MajorAddr(majors, m + 1)
    ensures MajorAddr(majors, m + 1) == NULL <==> m + 1 == |majors|
    ensures root == majors[0].addr
  {
    ListedApart(majors);
    assert HasMajorHeader(majorAt, majors, m);
  }
}
