/** The headers of kernel/src/memory/liballoc.c as records keyed by address, and what it means that
    they link up a heap: following `next` gives the minors of a block in order, `prev` mirrors it,
    `block` points back; and the same for the list of blocks. */
module HeapLinks {
  import opened HeapBlocks

  datatype Magic = LiveMagic | DeadMagic

  /** struct liballoc_minor and struct liballoc_major. */
  datatype MinorHeader = MinorHeader(prev: int, next: int, block: int, magic: Magic, size: int, reqSize: int)
  datatype MajorHeader = MajorHeader(prev: int, next: int, pages: int, size: int, usage: int, first: int)

  type MinorMap = map<int, MinorHeader>
  type MajorMap = map<int, MajorHeader>

  // ----- Minors -----

  /** The address of minor `j`; a null pointer before the first and after the last. */
  function MinorAddr(minors: seq<Minor>, j: int): int {
    if 0 <= j < |minors| then minors[j].addr else NULL
  }

  function MinorHeaderOf(block: int, minors: seq<Minor>, j: int): MinorHeader
    requires 0 <= j < |minors|
  {
    MinorHeader(MinorAddr(minors, j - 1), MinorAddr(minors, j + 1), block, LiveMagic, minors[j].size, minors[j].reqSize)
  }

  /** The headers at the addresses of the minors link them in this order. */
  predicate MinorsLinked(at: MinorMap, block: int, minors: seq<Minor>) {
    forall j | 0 <= j < |minors| :: HasHeader(at, block, minors, j)
  }

  /** Addresses rise along the list and none is null. */
  predicate Rising(minors: seq<Minor>) {
    && (forall j | 0 <= j < |minors| :: minors[j].addr > NULL)
    && (forall i, j | 0 <= i < j < |minors| :: minors[i].addr < minors[j].addr)
  }

  /** The stores that put a header at `a` between its neighbours `p` and `n`, of which either may be
      null. */
  function Splice(at: MinorMap, p: int, a: int, n: int, h: MinorHeader): MinorMap
    requires (p != NULL ==> p in at) && (n != NULL ==> n in at)
  {
    var t := at[a := h];
    var t' := if p == NULL then t else t[p := t[p].(next := a)];
    if n == NULL then t' else t'[n := t'[n].(prev := a)]
  }

  /** What a splice leaves where. */
  lemma SpliceAt(at: MinorMap, p: int, a: int, n: int, h: MinorHeader, q: int)
    requires (p != NULL ==> p in at) && (n != NULL ==> n in at) && p != a && n != a && (p == NULL || p != n)
    ensures var at' := Splice(at, p, a, n, h);
            && (q in at' <==> q in at || q == a)
            && (q in at' ==> at'[q] == if q == a then h else if q != NULL && q == p then at[q].(next := a)
                                       else if q != NULL && q == n then at[q].(prev := a) else at[q])
  {
  }

  predicate HasHeader(at: MinorMap, block: int, minors: seq<Minor>, j: int)
    requires 0 <= j < |minors|
  {
    minors[j].addr in at && at[minors[j].addr] == MinorHeaderOf(block, minors, j)
  }

  lemma SpliceHeader(at: MinorMap, block: int, minors: seq<Minor>, k: nat, x: Minor, l: seq<Minor>, j: nat)
    requires MinorsLinked(at, block, minors) && Rising(minors) && k <= |minors|
    requires forall j | 0 <= j < |minors| :: minors[j].addr != x.addr
    requires x.addr > NULL && l == minors[..k] + [x] + minors[k..] && j < |l|
    requires var p, n := MinorAddr(minors, k - 1), MinorAddr(minors, k); (p != NULL ==> p in at) && (n != NULL ==> n in at)
    ensures var p, n := MinorAddr(minors, k - 1), MinorAddr(minors, k);
            HasHeader(Splice(at, p, x.addr, n, MinorHeader(p, n, block, LiveMagic, x.size, x.reqSize)), block, l, j)
  {
    var p, n := MinorAddr(minors, k - 1), MinorAddr(minors, k);
    var h := MinorHeader(p, n, block, LiveMagic, x.size, x.reqSize);
    InsertedAt(minors, k, x);
    if j != k {
      var i := if j < k then j else j - 1;
      SpliceAt(at, p, x.addr, n, h, minors[i].addr);
      assert HasHeader(at, block, minors, i);
    } else {
      SpliceAt(at, p, x.addr, n, h, x.addr);
    }
  }

  lemma SpliceLinks(at: MinorMap, block: int, minors: seq<Minor>, k: nat, x: Minor, l: seq<Minor>)
    requires MinorsLinked(at, block, minors) && Rising(minors) && k <= |minors| && x.addr > NULL
    requires forall j | 0 <= j < |minors| :: minors[j].addr != x.addr
    requires l == minors[..k] + [x] + minors[k..]
    ensures var p, n := MinorAddr(minors, k - 1), MinorAddr(minors, k);
            && (p != NULL ==> p in at) && (n != NULL ==> n in at)
            && MinorsLinked(Splice(at, p, x.addr, n, MinorHeader(p, n, block, LiveMagic, x.size, x.reqSize)), block, l)
  {
    var p, n := MinorAddr(minors, k - 1), MinorAddr(minors, k);
    if k > 0 { assert HasHeader(at, block, minors, k - 1); }
    if k < |minors| { assert HasHeader(at, block, minors, k); }
    var at' := Splice(at, p, x.addr, n, MinorHeader(p, n, block, LiveMagic, x.size, x.reqSize));
    forall j | 0 <= j < |l| ensures HasHeader(at', block, l, j) {
      SpliceHeader(at, block, minors, k, x, l, j);
    }
  }

  /** The stores of free to the headers of minors: the neighbours of `a` are joined, and its header
      is marked dead. */
  function Unsplice(at: MinorMap, a: int): MinorMap
    requires a in at && (at[a].next != NULL ==> at[a].next in at) && (at[a].prev != NULL ==> at[a].prev in at)
  {
    var p, n := at[a].prev, at[a].next;
    var t := at[a := at[a].(magic := DeadMagic)];
    var t' := if n == NULL then t else t[n := t[n].(prev := p)];
    if p == NULL then t' else t'[p := t'[p].(next := n)]
  }

  lemma UnspliceHeader(at: MinorMap, block: int, minors: seq<Minor>, k: nat, l: seq<Minor>, j: nat)
    requires MinorsLinked(at, block, minors) && Rising(minors) && k < |minors|
    requires l == minors[..k] + minors[k + 1..] && j < |l|
    requires var a := minors[k].addr;
             && a in at && at[a] == MinorHeaderOf(block, minors, k)
             && (at[a].next != NULL ==> at[a].next in at) && (at[a].prev != NULL ==> at[a].prev in at)
    ensures HasHeader(Unsplice(at, minors[k].addr), block, l, j)
  {
    RemovedAt(minors, k);
    var i := if j < k then j else j + 1;
    assert HasHeader(at, block, minors, i);
  }

  lemma UnspliceLinks(at: MinorMap, block: int, minors: seq<Minor>, k: nat, l: seq<Minor>)
    requires MinorsLinked(at, block, minors) && Rising(minors) && k < |minors| && l == minors[..k] + minors[k + 1..]
    ensures var a := minors[k].addr;
            && a in at && at[a] == MinorHeaderOf(block, minors, k)
            && (at[a].next != NULL ==> at[a].next in at) && (at[a].prev != NULL ==> at[a].prev in at)
            && MinorsLinked(Unsplice(at, a), block, l)
  {
    assert HasHeader(at, block, minors, k);
    if k + 1 < |minors| { assert HasHeader(at, block, minors, k + 1); }
    if k > 0 { assert HasHeader(at, block, minors, k - 1); }
    forall j | 0 <= j < |l| ensures HasHeader(Unsplice(at, minors[k].addr), block, l, j) {
      UnspliceHeader(at, block, minors, k, l, j);
    }
  }

  // ----- The stores of the placement cases -----

  /** What memory holds at `a`, taken as a header. */
  function HeaderAt(at: MinorMap, a: int): MinorHeader {
    if a in at then at[a] else MinorHeader(NULL, NULL, NULL, DeadMagic, 0, 0)
  }

  /** Case 2: the first minor of an empty block. */
  method StoreEmpty(at0: MinorMap, a: int, maj: int, size: int, reqSize: int) returns (at: MinorMap)
    ensures at == Splice(at0, NULL, a, NULL, MinorHeader(NULL, NULL, maj, LiveMagic, size, reqSize))
  {
    at := at0[a := HeaderAt(at0, a).(magic := LiveMagic)];
    at := at[a := at[a].(prev := NULL)];
    at := at[a := at[a].(next := NULL)];
    at := at[a := at[a].(block := maj)];
    at := at[a := at[a].(size := size)];
    at := at[a := at[a].(reqSize := reqSize)];
  }

  /** Case 3: in front of the first minor `f`. */
  method StoreFront(at0: MinorMap, a: int, f: int, maj: int, size: int, reqSize: int) returns (at: MinorMap)
    requires f in at0 && f != a && f != NULL
    ensures at == Splice(at0, NULL, a, f, MinorHeader(NULL, f, maj, LiveMagic, size, reqSize))
  {
    at := at0[f := at0[f].(prev := a)];
    at := at[at[f].prev := HeaderAt(at, at[f].prev).(next := f)];
    at := at[a := at[a].(magic := LiveMagic)];
    at := at[a := at[a].(prev := NULL)];
    at := at[a := at[a].(block := maj)];
    at := at[a := at[a].(size := size)];
    at := at[a := at[a].(reqSize := reqSize)];
  }

  /** Case 4.1: after the last minor `min`. */
  method StoreBack(at0: MinorMap, min: int, a: int, maj: int, size: int, reqSize: int) returns (at: MinorMap)
    requires min in at0 && min != a && min != NULL
    ensures at == Splice(at0, min, a, NULL, MinorHeader(min, NULL, maj, LiveMagic, size, reqSize))
  {
    at := at0[min := at0[min].(next := a)];
    at := at[at[min].next := HeaderAt(at, at[min].next).(prev := min)];
    at := at[a := at[a].(next := NULL)];
    at := at[a := at[a].(magic := LiveMagic)];
    at := at[a := at[a].(block := maj)];
    at := at[a := at[a].(size := size)];
    at := at[a := at[a].(reqSize := reqSize)];
  }

  /** Case 4.2: between `min` and the one after it. */
  method StoreBetween(at0: MinorMap, min: int, a: int, maj: int, size: int, reqSize: int) returns (at: MinorMap)
    requires min in at0 && min != a && min != NULL
    requires var n := at0[min].next; n in at0 && n != a && n != NULL && n != min
    ensures at == Splice(at0, min, a, at0[min].next, MinorHeader(min, at0[min].next, maj, LiveMagic, size, reqSize))
  {
    at := at0[a := HeaderAt(at0, a).(magic := LiveMagic)];
    at := at[a := at[a].(next := at[min].next)];
    at := at[a := at[a].(prev := min)];
    at := at[a := at[a].(size := size)];
    at := at[a := at[a].(reqSize := reqSize)];
    at := at[a := at[a].(block := maj)];
    at := at[at[min].next := at[at[min].next].(prev := a)];
    at := at[min := at[min].(next := a)];
  }

  // ----- Majors -----

  function MajorAddr(majors: seq<Major>, i: int): int {
    if 0 <= i < |majors| then majors[i].addr else NULL
  }

  function MajorHeaderOf(majors: seq<Major>, i: int): MajorHeader
    requires 0 <= i < |majors|
  {
    MajorHeader(MajorAddr(majors, i - 1), MajorAddr(majors, i + 1), majors[i].pages, majors[i].size, majors[i].usage,
                MinorAddr(majors[i].minors, 0))
  }

  predicate MajorsLinked(at: MajorMap, root: int, majors: seq<Major>) {
    && root == MajorAddr(majors, 0)
    && forall i | 0 <= i < |majors| :: HasMajorHeader(at, majors, i)
  }

  predicate HasMajorHeader(at: MajorMap, majors: seq<Major>, i: int)
    requires 0 <= i < |majors|
  {
    majors[i].addr in at && at[majors[i].addr] == MajorHeaderOf(majors, i)
  }

  /** No two blocks start at one address, and none at null. */
  predicate Apart0(majors: seq<Major>) {
    && (forall i | 0 <= i < |majors| :: majors[i].addr > NULL)
    && (forall i, j | 0 <= i < j < |majors| :: majors[i].addr != majors[j].addr)
  }

  /** A new block linked after the last one, or as the root. */
  function LinkedAtEnd(at: MajorMap, last: int, b: Major): MajorMap
    requires last != NULL ==> last in at
  {
    var t := at[b.addr := MajorHeader(NULL, NULL, b.pages, b.size, b.usage, NULL)];
    if last == NULL then t else
      var t' := t[last := t[last].(next := b.addr)];
      t'[b.addr := t'[b.addr].(prev := last)]
  }

  lemma LinkEnd(at: MajorMap, root: int, majors: seq<Major>, b: Major)
    requires MajorsLinked(at, root, majors) && Apart0(majors + [b]) && b.minors == []
    ensures MajorAddr(majors, |majors| - 1) != NULL ==> MajorAddr(majors, |majors| - 1) in at
    ensures MajorsLinked(LinkedAtEnd(at, MajorAddr(majors, |majors| - 1), b), if majors == [] then b.addr else root, majors + [b])
  {
    var l := majors + [b];
    var last := MajorAddr(majors, |majors| - 1);
    assert forall i, j | 0 <= i < j < |l| :: l[i].addr != l[j].addr;
    if majors != [] { assert HasMajorHeader(at, majors, |majors| - 1) && majors[|majors| - 1].addr == l[|majors| - 1].addr; }
    var at' := LinkedAtEnd(at, last, b);
    forall i | 0 <= i < |l| ensures HasMajorHeader(at', l, i) {
      if i < |majors| {
        assert HasMajorHeader(at, majors, i);
        assert l[i].addr != l[|majors|].addr;
      }
    }
  }

  /** The stores of malloc and free to the header of one block. */
  lemma RelabelLinks(at: MajorMap, root: int, majors: seq<Major>, m: nat, b: Major)
    requires MajorsLinked(at, root, majors) && Apart0(majors) && m < |majors|
    requires b.addr == majors[m].addr && b.pages == majors[m].pages && b.size == majors[m].size
    ensures b.addr in at
    ensures MajorsLinked(at[b.addr := at[b.addr].(usage := b.usage, first := MinorAddr(b.minors, 0))], root, majors[m := b])
  {
    assert HasMajorHeader(at, majors, m);
    var at' := at[b.addr := at[b.addr].(usage := b.usage, first := MinorAddr(b.minors, 0))];
    var l := majors[m := b];
    forall i | 0 <= i < |l| ensures HasMajorHeader(at', l, i) {
      assert HasMajorHeader(at, majors, i);
    }
  }

  /** The stores that unlink a block from its neighbours. */
  function Unlinked(at: MajorMap, a: int): MajorMap
    requires a in at && (at[a].next != NULL ==> at[a].next in at) && (at[a].prev != NULL ==> at[a].prev in at)
  {
    var p, n := at[a].prev, at[a].next;
    var t := if p == NULL then at else at[p := at[p].(next := n)];
    if n == NULL then t else t[n := t[n].(prev := p)]
  }

  lemma UnlinkHeader(at: MajorMap, majors: seq<Major>, m: nat, l: seq<Major>, i: nat)
    requires Apart0(majors) && m < |majors| && l == majors[..m] + majors[m + 1..] && i < |l|
    requires forall i | 0 <= i < |majors| :: HasMajorHeader(at, majors, i)
    requires var a := majors[m].addr;
             && a in at && at[a] == MajorHeaderOf(majors, m)
             && (at[a].next != NULL ==> at[a].next in at) && (at[a].prev != NULL ==> at[a].prev in at)
    ensures HasMajorHeader(Unlinked(at, majors[m].addr), l, i)
  {
    var a, i' := majors[m].addr, if i < m then i else i + 1;
    assert l[i] == majors[i'] && (i + 1 < |l| ==> l[i + 1] == majors[if i + 1 < m then i + 1 else i + 2])
           && (i > 0 ==> l[i - 1] == majors[if i - 1 < m then i - 1 else i]);
    assert HasMajorHeader(at, majors, i');
    assert at[a].prev == majors[i'].addr <==> i' == m - 1;
    assert at[a].next == majors[i'].addr <==> i' == m + 1;
  }

  lemma UnlinkLinks(at: MajorMap, root: int, majors: seq<Major>, m: nat, l: seq<Major>)
    requires MajorsLinked(at, root, majors) && Apart0(majors) && m < |majors| && l == majors[..m] + majors[m + 1..]
    ensures var a := majors[m].addr;
            && a in at && (at[a].next != NULL ==> at[a].next in at) && (at[a].prev != NULL ==> at[a].prev in at)
            && MajorsLinked(Unlinked(at, a), if root == a then at[a].next else root, l)
  {
    assert HasMajorHeader(at, majors, m);
    if m + 1 < |majors| { assert HasMajorHeader(at, majors, m + 1); }
    if m > 0 { assert HasMajorHeader(at, majors, m - 1); }
    forall i | 0 <= i < |l| ensures HasMajorHeader(Unlinked(at, majors[m].addr), l, i) {
      UnlinkHeader(at, majors, m, l, i);
    }
    if l != [] { assert l[0] == majors[if m == 0 then 1 else 0]; }
  }

  // ----- Following the pointers -----

  /** Where `n` steps along `next` lead. */
  function MinorsFrom(at: MinorMap, p: int, n: nat): int {
    if n == 0 then p
    else
      var q := MinorsFrom(at, p, n - 1);
      if q in at then at[q].next else NULL
  }

  function MajorsFrom(at: MajorMap, p: int, n: nat): int {
    if n == 0 then p
    else
      var q := MajorsFrom(at, p, n - 1);
      if q in at then at[q].next else NULL
  }

  /** From the first minor the pointers lead over all of them in order to null, each `prev` leads
      back, and each `block` to the block. */
  lemma {:induction false} MinorsReached(at: MinorMap, block: int, minors: seq<Minor>, n: nat)
    requires MinorsLinked(at, block, minors) && n <= |minors|
    ensures MinorsFrom(at, MinorAddr(minors, 0), n) == MinorAddr(minors, n)
    ensures n < |minors| ==> minors[n].addr in at
    ensures n < |minors| ==> var h := at[minors[n].addr];
                             && h.block == block && h.prev == MinorAddr(minors, n - 1)
                             && (n + 1 < |minors| ==> h.next in at && at[h.next].prev == minors[n].addr)
    decreases n
  {
    if n < |minors| { assert HasHeader(at, block, minors, n); }
    if n + 1 < |minors| { assert HasHeader(at, block, minors, n + 1); }
    if n > 0 {
      MinorsReached(at, block, minors, n - 1);
      assert HasHeader(at, block, minors, n - 1);
    }
  }

  /** And from the root over all blocks. */
  lemma {:induction false} MajorsReached(at: MajorMap, root: int, majors: seq<Major>, n: nat)
    requires MajorsLinked(at, root, majors) && n <= |majors|
    ensures MajorsFrom(at, root, n) == MajorAddr(majors, n)
    ensures n < |majors| ==> majors[n].addr in at
    ensures n < |majors| ==> var h := at[majors[n].addr];
                             && h.first == MinorAddr(majors[n].minors, 0) && h.prev == MajorAddr(majors, n - 1)
                             && (n + 1 < |majors| ==> h.next in at && at[h.next].prev == majors[n].addr)
    decreases n
  {
    if n < |majors| { assert HasMajorHeader(at, majors, n); }
    if n + 1 < |majors| { assert HasMajorHeader(at, majors, n + 1); }
    if n > 0 {
      MajorsReached(at, root, majors, n - 1);
      assert HasMajorHeader(at, majors, n - 1);
    }
  }
}
