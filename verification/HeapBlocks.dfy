/** One block ("major") of the kernel heap and the allocations ("minors") in it, as laid out by
    kernel/src/memory/liballoc.c. Addresses are numbers; the minors of a major, linked through
    prev and next in the source, are a sequence in list order. */
module HeapBlocks {

  /** sizeof(struct liballoc_major) and sizeof(struct liballoc_minor). */
  const MAJOR_HEADER: int := 40
  const MINOR_HEADER: int := 40
  const ALIGNMENT: int := 16
  const ALIGN_INFO: int := 16
  const PAGE_SIZE: int := 4096
  const PAGE_COUNT: int := 16
  const NULL: int := 0

  datatype Minor = Minor(addr: int, size: int, reqSize: int)

  datatype Major = Major(addr: int, pages: int, size: int, usage: int, minors: seq<Minor>)

  function End(m: Minor): int {
    m.addr + MINOR_HEADER + m.size
  }

  /** The bytes in use after the headers. */
  function SumSizes(minors: seq<Minor>): int {
    if minors == [] then 0 else minors[0].size + SumSizes(minors[1..])
  }

  /** Address order, no overlap, inside [lo, hi). */
  predicate Laid(minors: seq<Minor>, lo: int, hi: int) {
    && (forall k | 0 <= k < |minors| :: lo <= minors[k].addr && minors[k].size >= 0 && End(minors[k]) <= hi)
    && (forall j, k | 0 <= j < k < |minors| :: End(minors[j]) <= minors[k].addr)
  }

  predicate MajorOk(b: Major) {
    && b.addr > 0 && b.size == b.pages * PAGE_SIZE
    && MAJOR_HEADER < b.size
    && Laid(b.minors, b.addr + MAJOR_HEADER, b.addr + b.size)
    && b.usage == MAJOR_HEADER + SumSizes(b.minors) + MINOR_HEADER * |b.minors|
    && (forall k | 0 <= k < |b.minors| :: MinorOk(b.minors[k]))
  }

  /** Room for the alignment header and padding on top of what was asked for. */
  predicate MinorOk(m: Minor) {
    0 <= m.reqSize && m.reqSize + ALIGNMENT + ALIGN_INFO <= m.size
  }

  // ----- Alignment -----

  /** The macro ALIGN: the pointer handed out for usable memory that starts at `p`. */
  function Align(p: int): int {
    var q := p + ALIGN_INFO;
    var diff := q % ALIGNMENT;
    if diff != 0 then q + (ALIGNMENT - diff) else q
  }

  /** The byte ALIGN stores ALIGN_INFO bytes before the pointer. */
  function AlignByte(p: int): int {
    var diff := (p + ALIGN_INFO) % ALIGNMENT;
    (if diff != 0 then ALIGNMENT - diff else 0) + ALIGN_INFO
  }

  /** The macro UNALIGN, given that byte. */
  function Unalign(ptr: int, byte: int): int {
    if byte < ALIGNMENT + ALIGN_INFO then ptr - byte else ptr
  }

  /** The pointer is aligned, the byte before it lies in the header ALIGN made, and UNALIGN
      undoes ALIGN. */
  lemma AlignRoundTrip(p: int)
    ensures Align(p) % ALIGNMENT == 0
    ensures p + ALIGN_INFO <= Align(p) < p + ALIGN_INFO + ALIGNMENT
    ensures 0 <= AlignByte(p) < 256 && Unalign(Align(p), AlignByte(p)) == p
  {
  }

  /** The pointer of an allocation. */
  function UserPointer(m: Minor): int {
    Align(m.addr + MINOR_HEADER)
  }

  /** The requested bytes lie inside the minor, after its headers. */
  lemma UserBytesInside(m: Minor)
    requires MinorOk(m)
    ensures UserPointer(m) % ALIGNMENT == 0
    ensures m.addr + MINOR_HEADER < UserPointer(m) && UserPointer(m) + m.reqSize <= End(m)
  {
    AlignRoundTrip(m.addr + MINOR_HEADER);
  }

  // ----- Gaps -----

  /** Room for `need` bytes at `p`: inside the block and clear of every minor. */
  predicate FitsAt(b: Major, need: int, p: int) {
    && b.addr + MAJOR_HEADER <= p && p + need <= b.addr + b.size
    && forall k | 0 <= k < |b.minors| :: End(b.minors[k]) <= p || p + need <= b.minors[k].addr
  }

  ghost predicate HasGap(b: Major, need: int) {
    exists p :: FitsAt(b, need, p)
  }

  /** The gap before minor `k`; k == |minors| is the tail of the block. */
  function GapStart(b: Major, k: nat): int
    requires k <= |b.minors|
  {
    if k == 0 then b.addr + MAJOR_HEADER else End(b.minors[k - 1])
  }

  function GapEnd(b: Major, k: nat): int
    requires k <= |b.minors|
  {
    if k == |b.minors| then b.addr + b.size else b.minors[k].addr
  }

  function GapSize(b: Major, k: nat): int
    requires k <= |b.minors|
  {
    GapEnd(b, k) - GapStart(b, k)
  }

  /** Looking at the gaps between neighbours finds every gap there is. */
  lemma {:induction false} GapScanComplete(b: Major, need: int, p: int)
    requires MajorOk(b) && need > 0 && FitsAt(b, need, p)
    ensures exists k: nat | k <= |b.minors| :: GapSize(b, k) >= need
  {
    var k := 0;
    while k < |b.minors| && End(b.minors[k]) <= p
      invariant 0 <= k <= |b.minors| && GapStart(b, k) <= p
    {
      k := k + 1;
    }
    assert GapSize(b, k) >= need;
  }

  /** The gaps before minor `n`, together. */
  function GapsBefore(b: Major, n: nat): int
    requires n <= |b.minors|
  {
    if n == 0 then 0 else GapsBefore(b, n - 1) + GapSize(b, n - 1)
  }

  function SumFirst(minors: seq<Minor>, n: nat): int
    requires n <= |minors|
  {
    if n == 0 then 0 else SumFirst(minors, n - 1) + minors[n - 1].size
  }

  lemma {:induction false} SumFirstTail(minors: seq<Minor>, n: nat)
    requires 0 < n <= |minors|
    ensures SumFirst(minors, n) == minors[0].size + SumFirst(minors[1..], n - 1)
    decreases n
  {
    if n > 1 { SumFirstTail(minors, n - 1); }
  }

  lemma {:induction false} SumFirstAll(minors: seq<Minor>)
    ensures SumFirst(minors, |minors|) == SumSizes(minors)
  {
    if minors != [] {
      SumFirstTail(minors, |minors|);
      SumFirstAll(minors[1..]);
    }
  }

  lemma {:induction false} GapsAddUp(b: Major, n: nat)
    requires MajorOk(b) && n <= |b.minors|
    ensures GapsBefore(b, n) == GapStart(b, n) - (b.addr + MAJOR_HEADER) - SumFirst(b.minors, n) - MINOR_HEADER * n
    ensures forall k: nat | k < n :: 0 <= GapSize(b, k) <= GapsBefore(b, n)
    decreases n
  {
    if n > 0 { GapsAddUp(b, n - 1); }
  }

  /** A gap is never larger than what the block has left: skipping a block with too little left
      skips no gap. */
  lemma GapWithinFree(b: Major, need: int)
    requires MajorOk(b) && need > 0 && HasGap(b, need)
    ensures need <= b.size - b.usage
  {
    var p :| FitsAt(b, need, p);
    GapScanComplete(b, need, p);
    var k: nat :| k <= |b.minors| && GapSize(b, k) >= need;
    var n := |b.minors|;
    GapsAddUp(b, n);
    SumFirstAll(b.minors);
  }

  // ----- Inserting and removing -----

  function Inserted(b: Major, k: nat, m: Minor): Major
    requires k <= |b.minors|
  {
    b.(minors := b.minors[..k] + [m] + b.minors[k..], usage := b.usage + m.size + MINOR_HEADER)
  }

  lemma {:induction false} SumConcat(a: seq<Minor>, b: seq<Minor>)
    ensures SumSizes(a + b) == SumSizes(a) + SumSizes(b)
  {
    if a == [] {
      assert a + b == b;
    } else {
      assert (a + b)[1..] == a[1..] + b;
      SumConcat(a[1..], b);
    }
  }

  lemma SumInserted(minors: seq<Minor>, k: nat, m: Minor)
    requires k <= |minors|
    ensures SumSizes(minors[..k] + [m] + minors[k..]) == SumSizes(minors) + m.size
  {
    assert minors[..k] + minors[k..] == minors;
    SumConcat(minors[..k], minors[k..]);
    SumConcat(minors[..k] + [m], minors[k..]);
    SumConcat(minors[..k], [m]);
    assert SumSizes([m]) == m.size;
  }

  lemma InsertedAt(minors: seq<Minor>, k: nat, m: Minor)
    requires k <= |minors|
    ensures var l := minors[..k] + [m] + minors[k..];
            |l| == |minors| + 1 && forall j | 0 <= j < |l| :: l[j] == if j < k then minors[j] else if j == k then m else minors[j - 1]
  {
  }

  lemma LaidInserted(minors: seq<Minor>, lo: int, hi: int, k: nat, m: Minor)
    requires Laid(minors, lo, hi) && k <= |minors| && lo <= m.addr && m.size >= 0 && End(m) <= hi
    requires k > 0 ==> End(minors[k - 1]) <= m.addr
    requires k < |minors| ==> End(m) <= minors[k].addr
    ensures Laid(minors[..k] + [m] + minors[k..], lo, hi)
  {
    var l := minors[..k] + [m] + minors[k..];
    InsertedAt(minors, k, m);
    forall i, j | 0 <= i < j < |l| ensures End(l[i]) <= l[j].addr {
      if j == k { assert End(minors[i]) <= End(minors[k - 1]); }
      if i == k { assert minors[k].addr <= minors[j - 1].addr; }
    }
  }

  lemma InsertLaid(b: Major, k: nat, m: Minor)
    requires MajorOk(b) && k <= |b.minors| && m.size >= 0
    requires m.addr == GapStart(b, k) && GapSize(b, k) >= m.size + MINOR_HEADER
    ensures Laid(Inserted(b, k, m).minors, b.addr + MAJOR_HEADER, b.addr + b.size)
  {
    LaidInserted(b.minors, b.addr + MAJOR_HEADER, b.addr + b.size, k, m);
  }

  /** A minor put at the start of a large enough gap. */
  lemma InsertKeepsMajor(b: Major, k: nat, m: Minor)
    requires MajorOk(b) && k <= |b.minors| && MinorOk(m)
    requires m.addr == GapStart(b, k) && GapSize(b, k) >= m.size + MINOR_HEADER
    ensures MajorOk(Inserted(b, k, m))
    ensures SumSizes(Inserted(b, k, m).minors) == SumSizes(b.minors) + m.size
  {
    InsertLaid(b, k, m);
    SumInserted(b.minors, k, m);
  }

  function Removed(b: Major, k: nat): Major
    requires k < |b.minors|
  {
    b.(minors := b.minors[..k] + b.minors[k + 1..], usage := b.usage - (b.minors[k].size + MINOR_HEADER))
  }

  lemma RemovedAt(minors: seq<Minor>, k: nat)
    requires k < |minors|
    ensures var l := minors[..k] + minors[k + 1..];
            && |l| == |minors| - 1
            && (forall j | 0 <= j < |l| :: l[j] == if j < k then minors[j] else minors[j + 1])
            && SumSizes(l) == SumSizes(minors) - minors[k].size
  {
    var l := minors[..k] + minors[k + 1..];
    assert l[..k] + [minors[k]] + l[k..] == minors;
    SumInserted(l, k, minors[k]);
  }

  lemma RemoveKeepsMajor(b: Major, k: nat)
    requires MajorOk(b) && k < |b.minors|
    ensures MajorOk(Removed(b, k))
    ensures SumSizes(Removed(b, k).minors) == SumSizes(b.minors) - b.minors[k].size
  {
    RemovedAt(b.minors, k);
  }

}
