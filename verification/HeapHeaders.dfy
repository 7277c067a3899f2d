/** The headers of all blocks of the heap: stores inside one block leave the others linked. */
module HeapHeaders {
  import opened HeapBlocks
  import opened HeapLinks
  import opened HeapList

  /** ALIGN left its byte for this minor. */
  predicate ByteRecorded(bytes: map<int, int>, x: Minor) {
    && UserPointer(x) - ALIGN_INFO in bytes
    && bytes[UserPointer(x) - ALIGN_INFO] == AlignByte(x.addr + MINOR_HEADER)
  }

  predicate BlockLinked(minorAt: MinorMap, bytes: map<int, int>, b: Major) {
    && MinorsLinked(minorAt, b.addr, b.minors)
    && forall j | 0 <= j < |b.minors| :: ByteRecorded(bytes, b.minors[j])
  }

  predicate BlocksLinked(minorAt: MinorMap, bytes: map<int, int>, majors: seq<Major>) {
    forall i | 0 <= i < |majors| :: BlockLinked(minorAt, bytes, majors[i])
  }

  lemma RisingMinors(b: Major)
    requires MajorOk(b)
    ensures Rising(b.minors)
    ensures forall j | 0 <= j < |b.minors| :: b.addr < b.minors[j].addr < b.addr + b.size
  {
  }

  lemma ListedApart(majors: seq<Major>)
    requires Listed(majors)
    ensures Apart0(majors)
  {
    forall i, j | 0 <= i < j < |majors| ensures majors[i].addr != majors[j].addr {
      assert Apart(majors[i], majors[j]) && MajorOk(majors[i]) && MajorOk(majors[j]);
    }
    forall i | 0 <= i < |majors| ensures majors[i].addr > NULL { assert MajorOk(majors[i]); }
  }

  /** Stores inside one block leave the headers of another alone. */
  lemma OtherBlockLinked(minorAt: MinorMap, bytes: map<int, int>, minorAt': MinorMap, bytes': map<int, int>, b: Major, other: Major)
    requires MajorOk(other) && Apart(other, b) && BlockLinked(minorAt, bytes, other)
    requires forall q | q in minorAt && !(b.addr <= q < b.addr + b.size) :: q in minorAt' && minorAt'[q] == minorAt[q]
    requires forall q | q in bytes && !(b.addr <= q < b.addr + b.size) :: q in bytes' && bytes'[q] == bytes[q]
    ensures BlockLinked(minorAt', bytes', other)
  {
    RisingMinors(other);
    forall j | 0 <= j < |other.minors| ensures HasHeader(minorAt', other.addr, other.minors, j) && ByteRecorded(bytes', other.minors[j]) {
      assert HasHeader(minorAt, other.addr, other.minors, j) && ByteRecorded(bytes, other.minors[j]);
      UserBytesInside(other.minors[j]);
      AlignRoundTrip(other.minors[j].addr + MINOR_HEADER);
      assert End(other.minors[j]) <= other.addr + other.size;
    }
  }

  /** The header stores of malloc: the neighbours of the gap and the new minor. */
  function StoredMinors(minorAt: MinorMap, b: Major, k: nat, x: Minor): MinorMap
    requires k <= |b.minors| && MinorsLinked(minorAt, b.addr, b.minors)
  {
    var p, n := MinorAddr(b.minors, k - 1), MinorAddr(b.minors, k);
    assert k > 0 ==> HasHeader(minorAt, b.addr, b.minors, k - 1);
    assert k < |b.minors| ==> HasHeader(minorAt, b.addr, b.minors, k);
    Splice(minorAt, p, x.addr, n, MinorHeader(p, n, b.addr, LiveMagic, x.size, x.reqSize))
  }

  function StoredByte(bytes: map<int, int>, x: Minor): map<int, int> {
    bytes[UserPointer(x) - ALIGN_INFO := AlignByte(x.addr + MINOR_HEADER)]
  }

  lemma InsertedMinorsLinked(minorAt: MinorMap, b: Major, k: nat, x: Minor, b': Major)
    requires MajorOk(b) && k <= |b.minors| && b' == Inserted(b, k, x) && MajorOk(b') && MinorsLinked(minorAt, b.addr, b.minors)
    ensures MinorsLinked(StoredMinors(minorAt, b, k, x), b.addr, b'.minors)
  {
    RisingMinors(b);
    RisingMinors(b');
    InsertedAt(b.minors, k, x);
    assert b'.minors[k] == x;
    forall j | 0 <= j < |b.minors| ensures b.minors[j].addr != x.addr {
      assert b'.minors[if j < k then j else j + 1] == b.minors[j];
    }
    SpliceLinks(minorAt, b.addr, b.minors, k, x, b'.minors);
  }

  lemma InsertedBytesRecorded(bytes: map<int, int>, b: Major, k: nat, x: Minor, b': Major)
    requires k <= |b.minors| && b' == Inserted(b, k, x) && MajorOk(b')
    requires forall j | 0 <= j < |b.minors| :: ByteRecorded(bytes, b.minors[j])
    ensures forall j | 0 <= j < |b'.minors| :: ByteRecorded(StoredByte(bytes, x), b'.minors[j])
  {
    InsertedAt(b.minors, k, x);
    forall j | 0 <= j < |b'.minors| ensures ByteRecorded(StoredByte(bytes, x), b'.minors[j]) {
      if j != k {
        assert ByteRecorded(bytes, b.minors[if j < k then j else j - 1]);
      }
    }
  }

  /** All stores of malloc are inside the block. */
  lemma StoresInside(minorAt: MinorMap, bytes: map<int, int>, b: Major, k: nat, x: Minor)
    requires MajorOk(b) && k <= |b.minors| && MajorOk(Inserted(b, k, x)) && MinorsLinked(minorAt, b.addr, b.minors)
    ensures var minorAt', bytes' := StoredMinors(minorAt, b, k, x), StoredByte(bytes, x);
            && (forall q | q in minorAt && !(b.addr <= q < b.addr + b.size) :: q in minorAt' && minorAt'[q] == minorAt[q])
            && (forall q | q in bytes && !(b.addr <= q < b.addr + b.size) :: q in bytes' && bytes'[q] == bytes[q])
  {
    var b' := Inserted(b, k, x);
    RisingMinors(b);
    RisingMinors(b');
    InsertedAt(b.minors, k, x);
    assert b'.minors[k] == x && End(x) <= b.addr + b.size;
    UserBytesInside(x);
    AlignRoundTrip(x.addr + MINOR_HEADER);
  }

  lemma PlaceKeepsLinks(minorAt: MinorMap, bytes: map<int, int>, majors: seq<Major>, m: nat, k: nat, x: Minor, after: seq<Major>)
    requires Listed(majors) && BlocksLinked(minorAt, bytes, majors) && m < |majors| && k <= |majors[m].minors|
    requires after == majors[m := Inserted(majors[m], k, x)] && Listed(after)
    requires BlockLinked(minorAt, bytes, majors[m])
    ensures BlocksLinked(StoredMinors(minorAt, majors[m], k, x), StoredByte(bytes, x), after)
  {
    assert MajorOk(majors[m]) && MajorOk(after[m]);
    StoresInside(minorAt, bytes, majors[m], k, x);
    forall i | 0 <= i < |after| ensures BlockLinked(StoredMinors(minorAt, majors[m], k, x), StoredByte(bytes, x), after[i]) {
      if i == m {
        InsertedMinorsLinked(minorAt, majors[m], k, x, after[m]);
        InsertedBytesRecorded(bytes, majors[m], k, x, after[m]);
      } else {
        BlocksApart(majors, i, m);
        assert MajorOk(majors[i]) && BlockLinked(minorAt, bytes, majors[i]);
        OtherBlockLinked(minorAt, bytes, StoredMinors(minorAt, majors[m], k, x), StoredByte(bytes, x), majors[m], majors[i]);
      }
    }
  }

  /** The header stores of free. */
  ghost predicate CanUnsplice(minorAt: MinorMap, a: int) {
    && a in minorAt
    && (minorAt[a].next != NULL ==> minorAt[a].next in minorAt) && (minorAt[a].prev != NULL ==> minorAt[a].prev in minorAt)
  }

  lemma TakeKeepsLinks(minorAt: MinorMap, bytes: map<int, int>, majors: seq<Major>, m: nat, k: nat, after: seq<Major>)
    requires Listed(majors) && BlocksLinked(minorAt, bytes, majors) && m < |majors| && k < |majors[m].minors|
    requires after == majors[m := Removed(majors[m], k)]
    ensures CanUnsplice(minorAt, majors[m].minors[k].addr)
    ensures BlocksLinked(Unsplice(minorAt, majors[m].minors[k].addr), bytes, after)
  {
    var b, a := majors[m], majors[m].minors[k].addr;
    assert MajorOk(b) && BlockLinked(minorAt, bytes, b);
    TakenBlockLinked(minorAt, bytes, b, k);
    forall i | 0 <= i < |after| ensures BlockLinked(Unsplice(minorAt, a), bytes, after[i]) {
      if i != m {
        BlocksApart(majors, i, m);
        assert MajorOk(majors[i]) && BlockLinked(minorAt, bytes, majors[i]);
        OtherBlockLinked(minorAt, bytes, Unsplice(minorAt, a), bytes, b, majors[i]);
      }
    }
  }

  lemma TakenBlockLinked(minorAt: MinorMap, bytes: map<int, int>, b: Major, k: nat)
    requires MajorOk(b) && k < |b.minors| && BlockLinked(minorAt, bytes, b)
    ensures CanUnsplice(minorAt, b.minors[k].addr) && minorAt[b.minors[k].addr] == MinorHeaderOf(b.addr, b.minors, k)
    ensures BlockLinked(Unsplice(minorAt, b.minors[k].addr), bytes, Removed(b, k))
    ensures var at' := Unsplice(minorAt, b.minors[k].addr);
            forall q | q in minorAt && !(b.addr <= q < b.addr + b.size) :: q in at' && at'[q] == minorAt[q]
  {
    RisingMinors(b);
    RemovedAt(b.minors, k);
    UnspliceLinks(minorAt, b.addr, b.minors, k, Removed(b, k).minors);
    forall j | 0 <= j < |Removed(b, k).minors| ensures ByteRecorded(bytes, Removed(b, k).minors[j]) {
      assert ByteRecorded(bytes, b.minors[if j < k then j else j + 1]);
    }
  }
}
