/** The list of all heap blocks of kernel/src/memory/liballoc.c: its sums, the pointers that are live
    in it, and what placing and freeing a minor do to it. */
module HeapList {
  import opened HeapBlocks
  import opened Wrappers

  /** The bytes malloc looks for: what was asked, the alignment overhead and a minor header. */
  function Need(reqSize: int): int {
    reqSize + ALIGNMENT + ALIGN_INFO + MINOR_HEADER
  }

  /** The pages allocate_new_page asks for. */
  function PagesFor(size: int): int {
    var st := size + MAJOR_HEADER + MINOR_HEADER;
    var pages := if st % PAGE_SIZE == 0 then st / PAGE_SIZE else st / PAGE_SIZE + 1;
    if pages < PAGE_COUNT then PAGE_COUNT else pages
  }

  function NewMajor(addr: int, size: int): Major {
    Major(addr, PagesFor(size), PagesFor(size) * PAGE_SIZE, MAJOR_HEADER, [])
  }

  predicate Apart(a: Major, b: Major) {
    a.addr + a.size <= b.addr || b.addr + b.size <= a.addr
  }

  /** Sound blocks that do not overlap. */
  predicate Listed(majors: seq<Major>) {
    && (forall i | 0 <= i < |majors| :: MajorOk(majors[i]))
    && (forall i, j | 0 <= i < j < |majors| :: Apart(majors[i], majors[j]))
  }

  /** No block other than the one at `k` is empty. */
  predicate NoneEmptyBut(majors: seq<Major>, k: int) {
    forall i | 0 <= i < |majors| && i != k :: majors[i].minors != []
  }

  function TotalInUse(majors: seq<Major>): int {
    if majors == [] then 0 else SumSizes(majors[0].minors) + TotalInUse(majors[1..])
  }

  function TotalSize(majors: seq<Major>): int {
    if majors == [] then 0 else majors[0].size + TotalSize(majors[1..])
  }

  predicate IsListed(majors: seq<Major>, addr: int) {
    exists i | 0 <= i < |majors| :: majors[i].addr == addr
  }

  /** `ptr` was handed out for `req` bytes and not given back. */
  predicate Live(majors: seq<Major>, ptr: int, req: int) {
    exists i, j | 0 <= i < |majors| && 0 <= j < |majors[i].minors| ::
      UserPointer(majors[i].minors[j]) == ptr && majors[i].minors[j].reqSize == req
  }

  ghost predicate SomeGap(majors: seq<Major>, need: int) {
    exists i | 0 <= i < |majors| :: HasGap(majors[i], need)
  }

  // ----- Sums over the list -----

  lemma {:induction false} TotalsConcat(a: seq<Major>, b: seq<Major>)
    ensures TotalInUse(a + b) == TotalInUse(a) + TotalInUse(b)
    ensures TotalSize(a + b) == TotalSize(a) + TotalSize(b)
  {
    if a == [] {
      assert a + b == b;
    } else {
      assert (a + b)[1..] == a[1..] + b;
      TotalsConcat(a[1..], b);
    }
  }

  lemma {:induction false} TotalsUpdate(majors: seq<Major>, k: nat, b: Major)
    requires k < |majors|
    ensures TotalInUse(majors[k := b]) == TotalInUse(majors) - SumSizes(majors[k].minors) + SumSizes(b.minors)
    ensures TotalSize(majors[k := b]) == TotalSize(majors) - majors[k].size + b.size
  {
    if k == 0 {
      assert majors[k := b][1..] == majors[1..];
    } else {
      assert majors[k := b][1..] == majors[1..][k - 1 := b];
      TotalsUpdate(majors[1..], k - 1, b);
    }
  }

  lemma {:induction false} TotalsRemove(majors: seq<Major>, k: nat)
    requires k < |majors|
    ensures TotalInUse(Without(majors, k)) == TotalInUse(majors) - SumSizes(majors[k].minors)
    ensures TotalSize(Without(majors, k)) == TotalSize(majors) - majors[k].size
  {
    if k == 0 {
      assert Without(majors, k) == majors[1..];
    } else {
      assert Without(majors, k)[0] == majors[0] && Without(majors, k)[1..] == Without(majors[1..], k - 1);
      TotalsRemove(majors[1..], k - 1);
    }
  }

  lemma TotalsAppend(majors: seq<Major>, b: Major)
    ensures TotalInUse(majors + [b]) == TotalInUse(majors) + SumSizes(b.minors)
    ensures TotalSize(majors + [b]) == TotalSize(majors) + b.size
  {
    TotalsConcat(majors, [b]);
    assert TotalInUse([b]) == SumSizes(b.minors) && TotalSize([b]) == b.size;
  }

  // ----- Live pointers -----

  /** Any two allocations, of one block or of two, have disjoint extents. */
  lemma TwoMinors(majors: seq<Major>, i: nat, j: nat, k: nat, l: nat)
    requires Listed(majors) && i < |majors| && j < |majors[i].minors| && k < |majors| && l < |majors[k].minors|
    requires i != k || j != l
    ensures var a, b := majors[i].minors[j], majors[k].minors[l];
            End(a) <= b.addr || End(b) <= a.addr
  {
    assert MajorOk(majors[i]) && MajorOk(majors[k]);
    if i != k { BlocksApart(majors, i, k); }
  }

  lemma BlocksApart(majors: seq<Major>, i: nat, k: nat)
    requires Listed(majors) && i < |majors| && k < |majors| && i != k
    ensures Apart(majors[i], majors[k])
  {
    if i < k { assert Apart(majors[i], majors[k]); } else { assert Apart(majors[k], majors[i]); }
  }

  lemma AddressesDiffer(majors: seq<Major>, i: nat)
    requires Listed(majors) && i < |majors|
    ensures forall k | 0 <= k < |majors| && majors[k].addr == majors[i].addr :: k == i
  {
    forall k | 0 <= k < |majors| && k != i ensures majors[k].addr != majors[i].addr {
      BlocksApart(majors, i, k);
      assert MajorOk(majors[i]) && MajorOk(majors[k]);
    }
  }

  /** The bytes of two live pointers never overlap, and the pointers are aligned. */
  lemma LiveDisjoint(majors: seq<Major>, p: int, r: int, q: int, s: int)
    requires Listed(majors) && Live(majors, p, r) && Live(majors, q, s)
    ensures p % ALIGNMENT == 0 && p > 0 && r >= 0
    ensures p == q ==> r == s
    ensures p != q ==> p + r <= q || q + s <= p
  {
    var i, j :| 0 <= i < |majors| && 0 <= j < |majors[i].minors|
                && UserPointer(majors[i].minors[j]) == p && majors[i].minors[j].reqSize == r;
    var k, l :| 0 <= k < |majors| && 0 <= l < |majors[k].minors|
                && UserPointer(majors[k].minors[l]) == q && majors[k].minors[l].reqSize == s;
    UserBytesInside(majors[i].minors[j]);
    UserBytesInside(majors[k].minors[l]);
    if i != k || j != l { TwoMinors(majors, i, j, k, l); }
  }

  lemma LiveAfterInsert(majors: seq<Major>, m: nat, k: nat, x: Minor, ptr: int, req: int)
    requires m < |majors| && k <= |majors[m].minors|
    ensures Live(majors[m := Inserted(majors[m], k, x)], ptr, req)
       <==> Live(majors, ptr, req) || (ptr == UserPointer(x) && req == x.reqSize)
  {
    var after := majors[m := Inserted(majors[m], k, x)];
    if Live(majors, ptr, req) { LiveKept(majors, m, k, x, ptr, req); }
    if ptr == UserPointer(x) && req == x.reqSize { assert after[m].minors[k] == x; }
    if Live(after, ptr, req) { LiveOrNew(majors, m, k, x, ptr, req); }
  }

  lemma LiveKept(majors: seq<Major>, m: nat, k: nat, x: Minor, ptr: int, req: int)
    requires m < |majors| && k <= |majors[m].minors| && Live(majors, ptr, req)
    ensures Live(majors[m := Inserted(majors[m], k, x)], ptr, req)
  {
    InsertedAt(majors[m].minors, k, x);
    var i, j :| 0 <= i < |majors| && 0 <= j < |majors[i].minors|
                && UserPointer(majors[i].minors[j]) == ptr && majors[i].minors[j].reqSize == req;
    assert majors[m := Inserted(majors[m], k, x)][i].minors[if i == m && j >= k then j + 1 else j] == majors[i].minors[j];
  }

  lemma LiveOrNew(majors: seq<Major>, m: nat, k: nat, x: Minor, ptr: int, req: int)
    requires m < |majors| && k <= |majors[m].minors| && Live(majors[m := Inserted(majors[m], k, x)], ptr, req)
    ensures Live(majors, ptr, req) || (ptr == UserPointer(x) && req == x.reqSize)
  {
    var after := majors[m := Inserted(majors[m], k, x)];
    InsertedAt(majors[m].minors, k, x);
    var i, j :| 0 <= i < |after| && 0 <= j < |after[i].minors|
                && UserPointer(after[i].minors[j]) == ptr && after[i].minors[j].reqSize == req;
    if i != m || j != k {
      assert majors[i].minors[if i == m && j > k then j - 1 else j] == after[i].minors[j];
    }
  }

  lemma LiveSurvives(majors: seq<Major>, m: nat, k: nat, ptr: int, req: int)
    requires m < |majors| && k < |majors[m].minors|
    requires Live(majors, ptr, req) && ptr != UserPointer(majors[m].minors[k])
    ensures Live(majors[m := Removed(majors[m], k)], ptr, req)
  {
    var after := majors[m := Removed(majors[m], k)];
    RemovedAt(majors[m].minors, k);
    var i, j :| 0 <= i < |majors| && 0 <= j < |majors[i].minors|
                && UserPointer(majors[i].minors[j]) == ptr && majors[i].minors[j].reqSize == req;
    var j' := if i == m && j > k then j - 1 else j;
    assert after[i].minors[j'] == majors[i].minors[j];
  }

  lemma LiveBefore(majors: seq<Major>, m: nat, k: nat, ptr: int, req: int)
    requires Listed(majors) && m < |majors| && k < |majors[m].minors|
    requires Live(majors[m := Removed(majors[m], k)], ptr, req)
    ensures Live(majors, ptr, req) && ptr != UserPointer(majors[m].minors[k])
  {
    var after := majors[m := Removed(majors[m], k)];
    RemovedAt(majors[m].minors, k);
    var i, j :| 0 <= i < |after| && 0 <= j < |after[i].minors|
                && UserPointer(after[i].minors[j]) == ptr && after[i].minors[j].reqSize == req;
    MinorBefore(majors, m, k, i, j);
    PointersDiffer(majors, i, if i == m && j >= k then j + 1 else j, m, k);
  }

  /** Where the minors of the list were before minor `k` of block `m` was removed. */
  lemma MinorBefore(majors: seq<Major>, m: nat, k: nat, i: nat, j: nat)
    requires m < |majors| && k < |majors[m].minors|
    requires i < |majors| && j < |majors[m := Removed(majors[m], k)][i].minors|
    ensures var j' := if i == m && j >= k then j + 1 else j;
            j' < |majors[i].minors| && majors[i].minors[j'] == majors[m := Removed(majors[m], k)][i].minors[j]
  {
    RemovedAt(majors[m].minors, k);
  }

  lemma LiveAfterRemove(majors: seq<Major>, m: nat, k: nat)
    requires Listed(majors) && m < |majors| && k < |majors[m].minors|
    ensures forall ptr, req ::
              (Live(majors[m := Removed(majors[m], k)], ptr, req) <==> Live(majors, ptr, req) && ptr != UserPointer(majors[m].minors[k]))
  {
    forall ptr, req
      ensures (Live(majors[m := Removed(majors[m], k)], ptr, req) <==> Live(majors, ptr, req) && ptr != UserPointer(majors[m].minors[k]))
    {
      if Live(majors, ptr, req) && ptr != UserPointer(majors[m].minors[k]) { LiveSurvives(majors, m, k, ptr, req); }
      if Live(majors[m := Removed(majors[m], k)], ptr, req) { LiveBefore(majors, m, k, ptr, req); }
    }
  }

  lemma PointersDiffer(majors: seq<Major>, i: nat, j: nat, k: nat, l: nat)
    requires Listed(majors) && i < |majors| && j < |majors[i].minors| && k < |majors| && l < |majors[k].minors|
    requires i != k || j != l
    ensures UserPointer(majors[i].minors[j]) != UserPointer(majors[k].minors[l])
  {
    TwoMinors(majors, i, j, k, l);
    UserBytesInside(majors[i].minors[j]);
    UserBytesInside(majors[k].minors[l]);
  }

  lemma ListedUpdate(majors: seq<Major>, k: nat, b: Major)
    requires Listed(majors) && k < |majors| && MajorOk(b) && b.addr == majors[k].addr && b.size == majors[k].size
    ensures Listed(majors[k := b])
  {
  }

  lemma InsertKeepsSound(majors: seq<Major>, m: nat, k: nat, x: Minor, bet: int)
    requires Listed(majors) && m < |majors| && k <= |majors[m].minors| && MinorOk(x)
    requires x.addr == GapStart(majors[m], k) && GapSize(majors[m], k) >= x.size + MINOR_HEADER
    ensures var after := majors[m := Inserted(majors[m], k, x)];
            && Listed(after) && TotalInUse(after) == TotalInUse(majors) + x.size && TotalSize(after) == TotalSize(majors)
            && (IsListed(majors, bet) ==> IsListed(after, bet))
  {
    var b := Inserted(majors[m], k, x);
    InsertKeepsMajor(majors[m], k, x);
    ListedUpdate(majors, m, b);
    TotalsUpdate(majors, m, b);
    if IsListed(majors, bet) {
      var i :| 0 <= i < |majors| && majors[i].addr == bet;
      assert majors[m := b][i].addr == bet;
    }
  }

  lemma LiveGrown(majors: seq<Major>, b: Major, ptr: int, req: int)
    requires b.minors == []
    ensures Live(majors + [b], ptr, req) <==> Live(majors, ptr, req)
  {
    var after := majors + [b];
    if Live(majors, ptr, req) {
      var i, j :| 0 <= i < |majors| && 0 <= j < |majors[i].minors|
                  && UserPointer(majors[i].minors[j]) == ptr && majors[i].minors[j].reqSize == req;
      assert after[i].minors[j] == majors[i].minors[j];
    }
    if Live(after, ptr, req) {
      var i, j :| 0 <= i < |after| && 0 <= j < |after[i].minors|
                  && UserPointer(after[i].minors[j]) == ptr && after[i].minors[j].reqSize == req;
      assert majors[i].minors[j] == after[i].minors[j];
    }
  }

  /** The pointer of the new minor is none of the pointers there were. */
  lemma FreshPointer(majors: seq<Major>, m: nat, k: nat, x: Minor, req: int)
    requires m < |majors| && k <= |majors[m].minors| && Listed(majors[m := Inserted(majors[m], k, x)])
    ensures !Live(majors, UserPointer(x), req)
  {
    var after := majors[m := Inserted(majors[m], k, x)];
    InsertedAt(majors[m].minors, k, x);
    if Live(majors, UserPointer(x), req) {
      var i, j :| 0 <= i < |majors| && 0 <= j < |majors[i].minors|
                  && UserPointer(majors[i].minors[j]) == UserPointer(x) && majors[i].minors[j].reqSize == req;
      var j' := if i == m && j >= k then j + 1 else j;
      assert after[i].minors[j'] == majors[i].minors[j] && after[m].minors[k] == x;
      PointersDiffer(after, i, j', m, k);
    }
  }

  lemma MallocKeepsLive(before: seq<Major>, grown: seq<Major>, after: seq<Major>, m: nat, k: nat, x: Minor, block: Option<int>, size: int)
    requires grown == before || (block.Some? && grown == before + [NewMajor(block.value, size)])
    requires m < |grown| && k <= |grown[m].minors| && after == grown[m := Inserted(grown[m], k, x)] && Listed(after)
    ensures forall r :: !Live(before, UserPointer(x), r)
    ensures forall p, r :: (Live(after, p, r) <==> Live(before, p, r) || (p == UserPointer(x) && r == x.reqSize))
  {
    forall p, r
      ensures Live(grown, p, r) <==> Live(before, p, r)
    {
      if grown != before { LiveGrown(before, NewMajor(block.value, size), p, r); }
    }
    forall r ensures !Live(before, UserPointer(x), r) { FreshPointer(grown, m, k, x, r); }
    forall p, r
      ensures (Live(after, p, r) <==> Live(before, p, r) || (p == UserPointer(x) && r == x.reqSize))
    {
      LiveAfterInsert(grown, m, k, x, p, r);
    }
  }

  /** The list in which malloc places: the old one, or that with a new block at the end. */
  function Grown(before: seq<Major>, block: Option<int>, m: int, size: int): seq<Major> {
    if m == |before| && block.Some? then before + [NewMajor(block.value, size)] else before
  }

  /** `x` was put at the start of gap `k` of block `m`, and nothing else happened. */
  predicate Placed(before: seq<Major>, block: Option<int>, m: int, k: int, x: Minor, after: seq<Major>) {
    var grown := Grown(before, block, m, x.size);
    && 0 <= m < |grown| && 0 <= k <= |grown[m].minors|
    && x.addr == GapStart(grown[m], k) && GapSize(grown[m], k) >= x.size + MINOR_HEADER && MinorOk(x)
    && after == grown[m := Inserted(grown[m], k, x)]
  }

  /** Minor `k` of block `m` is the one `ptr` was made for. */
  predicate IsMinorOf(majors: seq<Major>, m: int, k: int, ptr: int) {
    && 0 <= m < |majors| && 0 <= k < |majors[m].minors|
    && UserPointer(majors[m].minors[k]) == ptr
  }

  lemma LiveIsMinor(majors: seq<Major>, ptr: int)
    requires exists r :: Live(majors, ptr, r)
    ensures exists m, k :: 0 <= m < |majors| && 0 <= k < |majors[m].minors| && IsMinorOf(majors, m, k, ptr)
  {
    var r :| Live(majors, ptr, r);
    var i, j :| 0 <= i < |majors| && 0 <= j < |majors[i].minors|
                && UserPointer(majors[i].minors[j]) == ptr && majors[i].minors[j].reqSize == r;
    assert IsMinorOf(majors, i, j, ptr);
  }

  /** The list after minor `k` of block `m` is freed. */
  function AfterFree(majors: seq<Major>, m: int, k: int): seq<Major>
    requires 0 <= m < |majors| && 0 <= k < |majors[m].minors|
  {
    var left := majors[m := Removed(majors[m], k)];
    if left[m].minors == [] then Without(left, m) else left
  }

  lemma RemoveKeepsSound(majors: seq<Major>, m: nat, k: nat, bet: int)
    requires Listed(majors) && m < |majors| && k < |majors[m].minors|
    ensures var after := majors[m := Removed(majors[m], k)];
            && Listed(after) && TotalInUse(after) == TotalInUse(majors) - majors[m].minors[k].size
            && TotalSize(after) == TotalSize(majors) && (IsListed(majors, bet) ==> IsListed(after, bet))
  {
    var b := Removed(majors[m], k);
    RemoveKeepsMajor(majors[m], k);
    ListedUpdate(majors, m, b);
    TotalsUpdate(majors, m, b);
    if IsListed(majors, bet) {
      var i :| 0 <= i < |majors| && majors[i].addr == bet;
      assert majors[m := b][i].addr == bet;
    }
  }

  lemma LiveUnlinked(majors: seq<Major>, m: nat, ptr: int, req: int)
    requires m < |majors| && majors[m].minors == []
    ensures Live(Without(majors, m), ptr, req) <==> Live(majors, ptr, req)
  {
    var after := Without(majors, m);
    if Live(majors, ptr, req) {
      var i, j :| 0 <= i < |majors| && 0 <= j < |majors[i].minors|
                  && UserPointer(majors[i].minors[j]) == ptr && majors[i].minors[j].reqSize == req;
      var i' := if i < m then i else i - 1;
      assert after[i'].minors[j] == majors[i].minors[j];
    }
    if Live(after, ptr, req) {
      var i, j :| 0 <= i < |after| && 0 <= j < |after[i].minors|
                  && UserPointer(after[i].minors[j]) == ptr && after[i].minors[j].reqSize == req;
      var i' := if i < m then i else i + 1;
      assert majors[i'].minors[j] == after[i].minors[j];
    }
  }

  lemma RemoveUndoesInsert(b: Major, k: nat, x: Minor)
    requires k <= |b.minors|
    ensures |Inserted(b, k, x).minors| == |b.minors| + 1 && Inserted(b, k, x).minors[k] == x
    ensures Removed(Inserted(b, k, x), k) == b
  {
    InsertedAt(b.minors, k, x);
    assert Removed(Inserted(b, k, x), k).minors == b.minors;
  }

  /** Only one minor answers to the new pointer, and taking it out leaves the old list: the block
      made for it, if any, is unlinked, and no other is. */
  lemma FreeUndoesMalloc(before: seq<Major>, block: Option<int>, m: int, k: int, x: Minor, after: seq<Major>)
    requires Placed(before, block, m, k, x, after) && NoneEmptyBut(before, -1) && Listed(after)
    ensures forall i, j | IsMinorOf(after, i, j, UserPointer(x)) :: AfterFree(after, i, j) == before
  {
    var grown := Grown(before, block, m, x.size);
    RemoveUndoesInsert(grown[m], k, x);
    assert after[m := Removed(after[m], k)] == grown;
    if m == |before| { assert Without(grown, m) == before; }
    forall i, j | IsMinorOf(after, i, j, UserPointer(x))
      ensures AfterFree(after, i, j) == before
    {
      if i != m || j != k { PointersDiffer(after, i, j, m, k); }
    }
  }

  /** Unlinking a block: the best bet stays listed unless it is this block. */
  lemma UnlinkKeepsBet(majors: seq<Major>, m: nat, bet: int)
    requires m < |majors| && bet != majors[m].addr && IsListed(majors, bet)
    ensures IsListed(Without(majors, m), bet)
  {
    var i :| 0 <= i < |majors| && majors[i].addr == bet;
    assert Without(majors, m)[if i < m then i else i - 1].addr == bet;
  }

  /** Freeing gives back one pointer and no other. */
  lemma LiveAfterFree(majors: seq<Major>, m: nat, k: nat)
    requires Listed(majors) && m < |majors| && k < |majors[m].minors|
    ensures forall ptr, req ::
              (Live(AfterFree(majors, m, k), ptr, req) <==> Live(majors, ptr, req) && ptr != UserPointer(majors[m].minors[k]))
  {
    var left := majors[m := Removed(majors[m], k)];
    LiveAfterRemove(majors, m, k);
    if left[m].minors == [] {
      forall ptr, req ensures Live(Without(left, m), ptr, req) <==> Live(left, ptr, req) {
        LiveUnlinked(left, m, ptr, req);
      }
    }
  }

  /** A new block is sound and has room for what it was made for. */
  lemma NewMajorOk(addr: int, size: int)
    requires addr > 0 && size >= 0
    ensures MajorOk(NewMajor(addr, size))
    ensures GapSize(NewMajor(addr, size), 0) >= size + MINOR_HEADER
    ensures NewMajor(addr, size).size - NewMajor(addr, size).usage >= size + MINOR_HEADER
  {
    var st := size + MAJOR_HEADER + MINOR_HEADER;
    assert PagesFor(size) * PAGE_SIZE >= st;
  }

  /** The pages asked for are the fewest that hold the request with its headers, or sixteen. */
  lemma PagesLeast(size: int)
    requires size >= 0
    ensures PagesFor(size) * 4096 >= size + 40 + 40
    ensures PagesFor(size) >= 16 && (PagesFor(size) > 16 ==> (PagesFor(size) - 1) * 4096 < size + 40 + 40)
  {
    var st := size + MAJOR_HEADER + MINOR_HEADER;
    assert st / PAGE_SIZE * PAGE_SIZE + st % PAGE_SIZE == st;
  }

  lemma GapIsGap(b: Major, k: nat, need: int)
    requires MajorOk(b) && k <= |b.minors| && GapSize(b, k) >= need
    ensures HasGap(b, need)
  {
    var p := GapStart(b, k);
    forall j | 0 <= j < |b.minors| ensures End(b.minors[j]) <= p || p + need <= b.minors[j].addr {
      if j < k { assert j < k - 1 ==> End(b.minors[j]) <= b.minors[k - 1].addr; }
      else if j > k { assert End(b.minors[k]) <= b.minors[j].addr; }
    }
    assert FitsAt(b, need, p);
  }

  lemma EmptyBlockFits(b: Major, need: int)
    requires MajorOk(b) && b.minors == [] && need > 0 && b.size - b.usage >= need
    ensures GapSize(b, 0) >= need && HasGap(b, need)
  {
    assert FitsAt(b, need, b.addr + MAJOR_HEADER);
  }

  /** Case 1 of malloc passes over no block with a gap. */
  lemma SkipIsSafe(b: Major, need: int)
    requires MajorOk(b) && need > 0 && b.size - b.usage < need
    ensures !HasGap(b, need)
  {
    if HasGap(b, need) { GapWithinFree(b, need); }
  }
}
