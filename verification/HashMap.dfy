/** The chained hash map of kernel/std/include/unordered_map.hpp, for any hash function: a vector of
    buckets, in each the first of a list of entries, which the methods relink in place. */
module HashMap {
  import opened HashChains
  import opened Wrappers

  /** An iterator: a bucket and an entry. The end is past the last bucket. */
  datatype Iterator = Iterator(index: nat, entry: int)
  /** insert; in the third case rehash takes a remainder by zero. */
  datatype Insertion = Added | Present | Faulted

  const INITIAL_BUCKETS: nat := 64
  /** size_t has 64 bits. */
  const SIZE: nat := 0x1_0000_0000_0000_0000
  /** More entries than this have no room in the address space. */
  const MAX_ENTRIES: nat := 0x1000_0000_0000_0000

  // ----- The entries in iteration order -----

  function Flat<K, V>(buckets: seq<Chain<K, V>>): Chain<K, V>
    decreases |buckets|
  {
    if buckets == [] then [] else Flat(buckets[..|buckets| - 1]) + buckets[|buckets| - 1]
  }

  lemma {:induction false} FlatKeys<K, V>(hash: K -> nat, buckets: seq<Chain<K, V>>, m: map<K, V>, n: nat)
    requires Stores(hash, buckets, m) && n <= |buckets|
    ensures DistinctKeys(Flat(buckets[..n]))
    ensures forall j | 0 <= j < |Flat(buckets[..n])| ::
              var e := Flat(buckets[..n])[j]; e.key in m && m[e.key] == e.value && hash(e.key) % |buckets| < n
    ensures forall k | k in m && hash(k) % |buckets| < n :: HasKey(Flat(buckets[..n]), k)
    decreases n
  {
    if n > 0 {
      FlatKeys(hash, buckets, m, n - 1);
      assert buckets[..n][..n - 1] == buckets[..n - 1];
      var before, chain := Flat(buckets[..n - 1]), buckets[n - 1];
      var all := Flat(buckets[..n]);
      assert all == before + chain;
      assert ChainOk(hash, |buckets|, n - 1, chain, m);
      forall k | k in m && hash(k) % |buckets| < n ensures HasKey(all, k) {
        if hash(k) % |buckets| == n - 1 {
          var j :| 0 <= j < |chain| && chain[j].key == k;
          assert all[|before| + j].key == k;
        } else {
          var j :| 0 <= j < |before| && before[j].key == k;
          assert all[j].key == k;
        }
      }
    }
  }

  /** The pairs of the map, each key once, in some order. */
  predicate ListsExactly<K(==), V(==)>(chain: Chain<K, V>, m: map<K, V>) {
    && DistinctKeys(chain)
    && (forall j | 0 <= j < |chain| :: chain[j].key in m && m[chain[j].key] == chain[j].value)
    && (forall k | k in m :: HasKey(chain, k))
  }

  /** A list with every pair of a map, each key once, is as long as the map is large. */
  lemma {:induction false} CountPairs<K, V>(chain: Chain<K, V>, m: map<K, V>)
    requires DistinctKeys(chain)
    requires forall j | 0 <= j < |chain| :: chain[j].key in m
    requires forall k | k in m :: HasKey(chain, k)
    ensures |chain| == |m|
    decreases |chain|
  {
    if chain == [] {
      assert m.Keys == {};
    } else {
      var n := |chain| - 1;
      var m' := m - {chain[n].key};
      forall k | k in m' ensures HasKey(chain[..n], k) {
        var j :| 0 <= j < |chain| && chain[j].key == k;
        assert chain[..n][j].key == k;
      }
      CountPairs(chain[..n], m');
      assert m.Keys == m'.Keys + {chain[n].key};
    }
  }

  /** The rounding of rehash: n unless a low bit is set, else (n | 0x3F) + 1, which may wrap. */
  function NextMultipleOf64(n: nat): (r: nat)
    requires n < SIZE
    ensures n <= SIZE - 64 ==> r % 64 == 0 && n <= r < n + 64
    ensures r == 0 <==> n == 0 || n > SIZE - 64
  {
    if n % 64 != 0 then (n - n % 64 + 63 + 1) % SIZE else n
  }

  /** ++ and -- on a size_t. */
  function More(n: nat): nat {
    if n + 1 == SIZE then 0 else n + 1
  }

  function Less(n: nat): nat {
    if n == 0 then SIZE - 1 else n - 1
  }

  class UnorderedMap<K(==), V> {
    const hash: K -> nat
    /** f_bucket. */
    var bucket: seq<int>
    var nodes: map<int, Node<K, V>>
    var capacity: nat
    var size: nat
    /** The chains as addresses and as entries, and the finite map this object stands for. */
    ghost var chains: seq<seq<int>>
    ghost var table: seq<Chain<K, V>>
    ghost var contents: map<K, V>

    ghost predicate Valid()
      reads this
    {
      |bucket| == capacity && Whole(hash, bucket, nodes, chains, table, contents) && size < SIZE
    }

    /** f_size is the number of keys. operator[] does not see to it. */
    ghost predicate Counted()
      reads this
    {
      size == |contents| < 2 * capacity
    }

    constructor (hash: K -> nat, initialCapacity: nat)
      requires initialCapacity > 0
      ensures Valid() && Counted() && contents == map[] && this.hash == hash
    {
      this.hash := hash;
      bucket := seq(initialCapacity, _ => NULL);
      nodes := map[];
      capacity := initialCapacity;
      size := 0;
      chains := seq(initialCapacity, _ => []);
      table := seq(initialCapacity, _ => []);
      contents := map[];
    }

    /** The copy constructor. Its loop skips a bucket if the new map's is empty, and they all are:
        it takes over the size and none of the entries. */
    constructor Copy(other: UnorderedMap<K, V>)
      requires other.Valid()
      ensures Valid() && contents == map[] && size == other.size && hash == other.hash
      ensures other.Counted() ==> (Counted() <==> other.contents == map[])
    {
      hash := other.hash;
      bucket := seq(other.capacity, _ => NULL);
      nodes := map[];
      capacity := other.capacity;
      size := other.size;
      chains := seq(other.capacity, _ => []);
      table := seq(other.capacity, _ => []);
      contents := map[];
    }

    /** The scan along a chain that at, find, insert, operator[] and erase begin with: the entry of
        the key, or null, and the entry before it. */
    method Scan(key: K) returns (position: nat, last: int, entry: int, ghost j: nat)
      requires Valid()
      ensures position == hash(key) % capacity && j <= |chains[position]|
      ensures entry == AddrAt(chains[position], j) && last == AddrAt(chains[position], j - 1)
      ensures entry == NULL <==> key !in contents
      ensures entry == NULL ==> j == |chains[position]|
      ensures entry != NULL ==> entry in nodes && nodes[entry].key == key && nodes[entry].value == contents[key]
    {
      position := hash(key) % capacity;
      assert ChainOk(hash, capacity, position, table[position], contents);
      assert ChainLinked(nodes, chains[position], table[position]);
      last, entry, j := NULL, bucket[position], 0;
      while entry != NULL
        invariant 0 <= j <= |chains[position]|
        invariant entry == AddrAt(chains[position], j) && last == AddrAt(chains[position], j - 1)
        invariant forall p | 0 <= p < j :: table[position][p].key != key
        decreases |chains[position]| - j
      {
        NullEnds(nodes, chains[position], table[position], j);
        if nodes[entry].key == key { return; }
        last, entry, j := entry, nodes[entry].next, j + 1;
      }
      NullEnds(nodes, chains[position], table[position], j);
    }

    /** at: the stored value, exactly for the stored keys. */
    method Lookup(key: K) returns (value: Option<V>)
      requires Valid()
      ensures value == if key in contents then Some(contents[key]) else None
    {
      var _, _, entry, _ := Scan(key);
      value := if entry == NULL then None else Some(nodes[entry].value);
    }

    /** find: an iterator to the entry of the key, or the end. */
    method Find(key: K) returns (iter: Iterator, ghost place: nat)
      requires Valid()
      ensures ValidIterator(iter, place) && (iter.entry == NULL <==> key !in contents)
      ensures key in contents ==> iter.entry in nodes && nodes[iter.entry].key == key && nodes[iter.entry].value == contents[key]
    {
      var position, _, entry, j := Scan(key);
      place := j;
      if entry == NULL { return Iterator(capacity, NULL), 0; }
      iter := Iterator(position, entry);
    }

    /** insert: the first insertion of a key wins. The allocator gives `a`. A map that was counted
        stays so; otherwise the division by zero comes with a size close to the end of size_t. */
    method Insert(key: K, value: V, a: int) returns (inserted: Insertion)
      requires Valid() && a != NULL && a !in nodes
      modifies this
      ensures inserted == Present <==> key in old(contents)
      ensures inserted == Faulted <==> key !in old(contents) && var n := More(old(size)); n >= 2 * old(capacity) && n > SIZE - 64
      ensures inserted != Faulted ==> Valid()
      ensures contents == if key in old(contents) then old(contents) else old(contents)[key := value]
      ensures old(Counted()) && |old(contents)| < MAX_ENTRIES ==> inserted != Faulted && Counted()
    {
      var position, last, entry, _ := Scan(key);
      if entry != NULL { return Present; }
      inserted := Add(Entry(key, value), a, position, last);
    }

    /** The rest of insert, for a new key. */
    method Add(e: Entry<K, V>, a: int, position: nat, last: int) returns (inserted: Insertion)
      requires Valid() && a != NULL && a !in nodes && e.key !in contents
      requires position == hash(e.key) % capacity && last == AddrAt(chains[position], |chains[position]| - 1)
      modifies this
      ensures inserted != Present && contents == old(contents)[e.key := e.value]
      ensures inserted == Faulted <==> var n := More(old(size)); n >= 2 * old(capacity) && n > SIZE - 64
      ensures inserted != Faulted ==> Valid()
      ensures old(Counted()) && |old(contents)| < MAX_ENTRIES ==> inserted != Faulted && Counted()
    {
      Link(e, a, position, last);
      inserted := Count();
    }

    /** The end of insert: the size, and rehash once it is twice the capacity. */
    method Count() returns (inserted: Insertion)
      requires Valid()
      modifies this`size, this`bucket, this`nodes, this`capacity, this`chains, this`table
      ensures inserted == Faulted <==> size >= 2 * old(capacity) && size > SIZE - 64
      ensures inserted != Faulted ==> inserted == Added && Valid() && (size < 2 * old(capacity) || size <= capacity)
      ensures size == More(old(size)) && (size < 2 * old(capacity) ==> capacity == old(capacity))
    {
      SetSize(More(size));
      if size >= capacity * 2 {
        if NextMultipleOf64(size) == 0 { return Faulted; }
        Rehash();
      }
      inserted := Added;
    }

    /** operator[]: like insert with a default value, but the entry is not counted. */
    method Index(key: K, default: V, a: int) returns (entry: int)
      requires Valid() && a != NULL && a !in nodes
      modifies this
      ensures Valid() && size == old(size) && capacity == old(capacity) && nodes.Keys <= old(nodes.Keys) + {a}
      ensures contents == if key in old(contents) then old(contents) else old(contents)[key := default]
      ensures entry in nodes && nodes[entry].key == key && nodes[entry].value == contents[key]
      ensures old(Counted()) ==> (Counted() <==> key in old(contents))
    {
      var position, last, e, _ := Scan(key);
      entry := e;
      if entry == NULL {
        Link(Entry(key, default), a, position, last);
        entry := a;
      }
    }

    /** A new entry at the end of its chain. */
    method Link(e: Entry<K, V>, a: int, position: nat, last: int)
      requires Valid() && a != NULL && a !in nodes && e.key !in contents
      requires position == hash(e.key) % capacity && last == AddrAt(chains[position], |chains[position]| - 1)
      modifies this`nodes, this`bucket, this`chains, this`table, this`contents
      ensures Valid() && contents == old(contents)[e.key := e.value] && nodes.Keys == old(nodes.Keys) + {a}
      ensures a in nodes && nodes[a].key == e.key && nodes[a].value == e.value
    {
      LinkWhole(hash, bucket, nodes, chains, table, contents, e, a, position, last);
      ghost var after := Appended(nodes[a := Node(e.key, e.value, NULL)], last, a);
      nodes := nodes[a := Node(e.key, e.value, NULL)];
      if last == NULL {
        bucket := bucket[position := a];
      } else {
        nodes := nodes[last := nodes[last].(next := a)];
      }
      assert nodes == after;
      chains := chains[position := chains[position] + [a]];
      table := table[position := table[position] + [e]];
      contents := contents[e.key := e.value];
    }

    /** erase: removes the key and nothing else. */
    method Erase(key: K)
      requires Valid()
      modifies this
      ensures Valid() && contents == old(contents) - {key} && capacity == old(capacity) && nodes.Keys <= old(nodes.Keys)
      ensures size == (if key in old(contents) then Less(old(size)) else old(size))
      ensures old(Counted()) ==> Counted()
    {
      var position, prev, entry, j := Scan(key);
      if entry == NULL {
        assert contents - {key} == contents;
        return;
      }
      Unlink(position, prev, entry, j);
      SetSize(Less(size));
    }

    method SetSize(n: nat)
      requires Valid() && n < SIZE
      modifies this`size
      ensures Valid() && size == n
    {
      size := n;
    }

    method Unlink(position: nat, prev: int, entry: int, ghost j: nat)
      requires Valid() && position < capacity && j < |chains[position]| && entry == chains[position][j]
      requires prev == AddrAt(chains[position], j - 1)
      modifies this`nodes, this`bucket, this`chains, this`table, this`contents
      ensures Valid() && entry in old(nodes) && contents == old(contents) - {old(nodes[entry].key)}
      ensures nodes.Keys == old(nodes.Keys) - {entry}
    {
      UnlinkWhole(hash, bucket, nodes, chains, table, contents, position, j);
      ghost var key := nodes[entry].key;
      if prev == NULL {
        bucket := bucket[position := nodes[entry].next];
      } else {
        nodes := nodes[prev := nodes[prev].(next := nodes[entry].next)];
      }
      nodes := nodes - {entry};
      chains := chains[position := Without(chains[position], j)];
      table := table[position := Without(table[position], j)];
      contents := contents - {key};
    }

    method Clear()
      modifies this
      ensures Valid() && Counted() && contents == map[] && capacity == INITIAL_BUCKETS && nodes == map[]
    {
      bucket := seq(INITIAL_BUCKETS, _ => NULL);
      nodes := map[];
      capacity := INITIAL_BUCKETS;
      size := 0;
      chains := seq(INITIAL_BUCKETS, _ => []);
      table := seq(INITIAL_BUCKETS, _ => []);
      contents := map[];
    }

    /** rehash changes no lookup; the new capacity is the least multiple of 64 that holds one
        entry per bucket. */
    method Rehash()
      requires Valid() && 0 < size <= SIZE - 64
      modifies this`bucket, this`nodes, this`capacity, this`chains, this`table
      ensures Valid()
      ensures capacity % 64 == 0 && size <= capacity < size + 64
    {
      var newCapacity := NextMultipleOf64(size);
      var newBucket;
      ghost var newChains, newTable;
      newBucket, newChains, newTable := Redistribute(newCapacity);
      Adopt(newBucket, newChains, newTable);
    }

    method Adopt(newBucket: seq<int>, ghost newChains: seq<seq<int>>, ghost newTable: seq<Chain<K, V>>)
      requires Whole(hash, newBucket, nodes, newChains, newTable, contents) && size < SIZE
      modifies this`bucket, this`capacity, this`chains, this`table
      ensures Valid() && capacity == |newBucket|
    {
      bucket, capacity := newBucket, |newBucket|;
      chains, table := newChains, newTable;
    }

    /** The loops of rehash: all nodes in a new bucket vector. */
    method Redistribute(newCapacity: nat) returns (newBucket: seq<int>, ghost newChains: seq<seq<int>>, ghost newTable: seq<Chain<K, V>>)
      requires Valid() && newCapacity > 0
      modifies this`nodes
      ensures |newBucket| == newCapacity && Whole(hash, newBucket, nodes, newChains, newTable, contents)
    {
      newBucket := seq(newCapacity, _ => NULL);
      newChains := seq(newCapacity, _ => []);
      newTable := seq(newCapacity, _ => []);
      ghost var moved: map<K, V> := map[];
      RehashStarts(hash, nodes, chains, table, contents);
      for i := 0 to capacity
        invariant |newBucket| == newCapacity
        invariant Rehashing(hash, nodes, chains, table, contents, newBucket, newChains, newTable, moved, i, 0)
      {
        newBucket, newChains, newTable, moved := MoveChain(i, newBucket, newChains, newTable, moved);
      }
      AllMoved(hash, table, contents, moved);
      AllCovered(hash, nodes, chains, table, newChains, contents);
    }

    /** The inner loop of rehash: every node of a chain goes to the end of its new chain. */
    method MoveChain(i: nat, newBucket0: seq<int>, ghost newChains0: seq<seq<int>>, ghost newTable0: seq<Chain<K, V>>, ghost moved0: map<K, V>)
        returns (newBucket: seq<int>, ghost newChains: seq<seq<int>>, ghost newTable: seq<Chain<K, V>>, ghost moved: map<K, V>)
      requires i < |bucket| == |table| && Heads(bucket, chains)
      requires Rehashing(hash, nodes, chains, table, contents, newBucket0, newChains0, newTable0, moved0, i, 0)
      modifies this`nodes
      ensures |newBucket| == |newBucket0|
      ensures Rehashing(hash, nodes, chains, table, contents, newBucket, newChains, newTable, moved, i + 1, 0)
    {
      newBucket, newChains, newTable, moved := newBucket0, newChains0, newTable0, moved0;
      var e := bucket[i];
      ghost var j := 0;
      while e != NULL
        invariant 0 <= j <= |table[i]| && e == AddrAt(chains[i], j) && |newBucket| == |newBucket0|
        invariant Rehashing(hash, nodes, chains, table, contents, newBucket, newChains, newTable, moved, i, j)
        decreases |table[i]| - j
      {
        WaitingEnds(nodes, chains, table, i, j);
        e, newBucket, newChains, newTable, moved := MoveEntry(e, i, j, newBucket, newChains, newTable, moved);
        j := j + 1;
      }
      WaitingEnds(nodes, chains, table, i, j);
      ChainMoved(hash, table, contents, moved, i);
    }

    method MoveEntry(e: int, ghost i: nat, ghost j: nat, newBucket0: seq<int>, ghost newChains0: seq<seq<int>>, ghost newTable0: seq<Chain<K, V>>, ghost moved0: map<K, V>)
        returns (next: int, newBucket: seq<int>, ghost newChains: seq<seq<int>>, ghost newTable: seq<Chain<K, V>>, ghost moved: map<K, V>)
      requires Rehashing(hash, nodes, chains, table, contents, newBucket0, newChains0, newTable0, moved0, i, j)
      requires i < |table| && j < |table[i]| && e == chains[i][j]
      modifies this`nodes
      ensures next == AddrAt(chains[i], j + 1) && |newBucket| == |newBucket0|
      ensures Rehashing(hash, nodes, chains, table, contents, newBucket, newChains, newTable, moved, i, j + 1)
    {
      ghost var entry := table[i][j];
      ghost var to := hash(entry.key) % |newTable0|;
      RehashingReady(hash, nodes, chains, table, contents, newBucket0, newChains0, newTable0, moved0, i, j);
      RehashingNext(hash, nodes, chains, table, contents, newBucket0, newChains0, newTable0, moved0, i, j, e, to,
                    AddrAt(newChains0[to], |newChains0[to]| - 1));
      next := nodes[e].next;
      newBucket := AppendNode(e, newBucket0, newChains0, newTable0, moved0);
      newChains := newChains0[to := newChains0[to] + [e]];
      newTable := newTable0[to := newTable0[to] + [entry]];
      moved := moved0[entry.key := entry.value];
    }

    /** The stores of the inner loop. */
    method AppendNode(e: int, newBucket0: seq<int>, ghost newChains: seq<seq<int>>, ghost newTable: seq<Chain<K, V>>, ghost moved: map<K, V>)
        returns (newBucket: seq<int>)
      requires e != NULL && e in nodes && nodes[e].key !in moved && |newBucket0| == |newTable| && Heads(newBucket0, newChains)
      requires Stores(hash, newTable, moved) && TableLinked(nodes, newChains, newTable)
      modifies this`nodes
      ensures var to := hash(old(nodes)[e].key) % |newTable|;
              var last := AddrAt(newChains[to], |newChains[to]| - 1);
              (last != NULL ==> last in old(nodes)) && nodes == Appended(old(nodes), last, e) && newBucket == HeadsWith(newBucket0, to, last, e)
    {
      newBucket := newBucket0;
      ghost var nodes0 := nodes;
      nodes := nodes[e := nodes[e].(next := NULL)];
      FreshLinked(hash, nodes0, nodes, newChains, newTable, moved, e);
      var to := hash(nodes[e].key) % |newBucket|;
      assert ChainLinked(nodes, newChains[to], newTable[to]);
      NullEnds(nodes, newChains[to], newTable[to], 0);
      if newBucket[to] != NULL {
        var last := Last(newBucket[to], newChains[to], newTable[to]);
        NullEnds(nodes, newChains[to], newTable[to], |newChains[to]| - 1);
        nodes := nodes[last := nodes[last].(next := e)];
      } else {
        newBucket := newBucket[to := e];
      }
    }

    /** The end of a chain. */
    method Last(head: int, ghost chain: seq<int>, ghost entries: Chain<K, V>) returns (last: int)
      requires ChainLinked(nodes, chain, entries) && head == AddrAt(chain, 0) && head != NULL
      ensures chain != [] && last == chain[|chain| - 1] && last in nodes
    {
      last := head;
      ghost var p := 0;
      NullEnds(nodes, chain, entries, 0);
      while nodes[last].next != NULL
        invariant 0 <= p < |chain| && last == chain[p] && NodeIs(nodes, chain, entries, p)
        decreases |chain| - p
      {
        last, p := nodes[last].next, p + 1;
        NullEnds(nodes, chain, entries, p);
      }
      NullEnds(nodes, chain, entries, p + 1);
    }

    // ----- Iteration -----

    ghost predicate ValidIterator(iter: Iterator, place: nat)
      reads this
    {
      if iter.index < |chains| then place < |chains[iter.index]| && iter.entry == chains[iter.index][place]
      else iter == Iterator(capacity, NULL) && place == 0
    }

    /** What an iteration has passed when it stands at `iter`. */
    ghost function Passed(iter: Iterator, place: nat): Chain<K, V>
      reads this
    {
      if iter.index < |table| && place <= |table[iter.index]| then Flat(table[..iter.index]) + table[iter.index][..place] else Flat(table)
    }

    /** The scan for the next bucket that is not empty. */
    method FirstFrom(from: nat) returns (iter: Iterator)
      requires Valid() && from <= capacity
      ensures ValidIterator(iter, 0) && Passed(iter, 0) == Flat(table[..from])
    {
      var index := from;
      while index < capacity && bucket[index] == NULL
        invariant from <= index <= capacity && Flat(table[..index]) == Flat(table[..from])
      {
        assert ChainLinked(nodes, chains[index], table[index]);
        NullEnds(nodes, chains[index], table[index], 0);
        assert table[..index + 1][..index] == table[..index];
        index := index + 1;
      }
      if index < capacity {
        assert ChainLinked(nodes, chains[index], table[index]);
        NullEnds(nodes, chains[index], table[index], 0);
        return Iterator(index, bucket[index]);
      }
      assert table[..capacity] == table;
      iter := Iterator(capacity, NULL);
    }

    method Begin() returns (iter: Iterator)
      requires Valid()
      ensures ValidIterator(iter, 0) && Passed(iter, 0) == []
    {
      iter := FirstFrom(0);
    }

    /** operator++ passes exactly the entry it stood at. */
    method Next(iter: Iterator, ghost place: nat) returns (next: Iterator, ghost place': nat)
      requires Valid() && ValidIterator(iter, place) && iter.entry != NULL
      ensures iter.index < |table| && place < |table[iter.index]| && iter.entry in nodes
      ensures ValidIterator(next, place')
      ensures Passed(next, place') == Passed(iter, place) + [Entry(nodes[iter.entry].key, nodes[iter.entry].value)]
    {
      var index := iter.index;
      NodeKey(hash, nodes, chains, table, contents, index, place);
      ghost var entries := table[index];
      assert ChainLinked(nodes, chains[index], entries) && entries[..place + 1] == entries[..place] + [entries[place]];
      NullEnds(nodes, chains[index], entries, place + 1);
      if nodes[iter.entry].next != NULL {
        next, place' := Iterator(index, nodes[iter.entry].next), place + 1;
      } else {
        assert entries[..place + 1] == entries;
        assert table[..index + 1][..index] == table[..index];
        next := FirstFrom(index + 1);
        place' := 0;
      }
    }

    /** A range-for over the map visits each stored pair exactly once and nothing else. */
    method VisitAll() returns (visited: Chain<K, V>)
      requires Valid()
      ensures |visited| == |contents| && ListsExactly(visited, contents)
    {
      visited := [];
      var iter := Begin();
      ghost var place := 0;
      FlatIsContents(hash, table, contents);
      while iter != Iterator(capacity, NULL)
        invariant ValidIterator(iter, place) && visited == Passed(iter, place) && |visited| <= |Flat(table)|
        decreases |Flat(table)| - |visited|
      {
        NodeKey(hash, nodes, chains, table, contents, iter.index, place);
        PassedFits(table, iter.index, place);
        visited := visited + [Entry(nodes[iter.entry].key, nodes[iter.entry].value)];
        iter, place := Next(iter, place);
      }
    }
  }

  lemma {:induction false} FlatSplits<K, V>(buckets: seq<Chain<K, V>>, n: nat)
    requires n <= |buckets|
    ensures Flat(buckets) == Flat(buckets[..n]) + Flat(buckets[n..])
    decreases |buckets|
  {
    if n == |buckets| {
      assert buckets[..n] == buckets;
    } else {
      var last := |buckets| - 1;
      FlatSplits(buckets[..last], n);
      assert buckets[..last][..n] == buckets[..n] && buckets[..last][n..] == buckets[n..][..|buckets[n..]| - 1];
    }
  }

  lemma PassedFits<K, V>(buckets: seq<Chain<K, V>>, i: nat, j: nat)
    requires i < |buckets| && j < |buckets[i]|
    ensures |Flat(buckets[..i]) + buckets[i][..j]| < |Flat(buckets)|
  {
    FlatSplits(buckets, i + 1);
    assert buckets[..i + 1][..i] == buckets[..i];
  }

  lemma FlatIsContents<K, V>(hash: K -> nat, buckets: seq<Chain<K, V>>, m: map<K, V>)
    requires Stores(hash, buckets, m)
    ensures ListsExactly(Flat(buckets), m) && |Flat(buckets)| == |m|
  {
    assert buckets[..|buckets|] == buckets;
    FlatKeys(hash, buckets, m, |buckets|);
    var flat := Flat(buckets);
    CountPairs(flat, m);
  }
  /** An entry made by operator[] and erased leaves the size one lower. */
  method IndexAndErase<K(==), V>(m: UnorderedMap<K, V>, key: K, default: V, a: int)
    requires m.Valid() && key !in m.contents && a != NULL && a !in m.nodes
    modifies m
    ensures m.Valid() && m.contents == old(m.contents) && m.size == Less(old(m.size))
    ensures m.capacity == old(m.capacity) && m.nodes.Keys <= old(m.nodes.Keys) + {a}
  {
    var _ := m.Index(key, default, a);
    m.Erase(key);
    assert old(m.contents)[key := default] - {key} == old(m.contents);
  }

  /** After two of them on an empty map the next insert ends in the division. */
  method IndexAndEraseTwice<K(==), V>(m: UnorderedMap<K, V>, key: K, value: V, a: int, b: int, c: int) returns (inserted: Insertion)
    requires m.Valid() && m.Counted() && m.contents == map[] && 2 * m.capacity < SIZE - 64
    requires a != NULL && b != NULL && c != NULL && a != b && a != c && b != c && {a, b, c} !! m.nodes.Keys
    modifies m
    ensures inserted == Faulted
  {
    IndexAndErase(m, key, value, a);
    IndexAndErase(m, key, value, b);
    inserted := m.Insert(key, value, c);
  }

}
