/** The chains of kernel/std/include/unordered_map.hpp: entries as records keyed by address, and what
    it means that following `next` from a bucket gives the entries of its chain. */
module HashChains {
  import opened Wrappers

  datatype Entry<K, V> = Entry(key: K, value: V)
  /** struct Entry. */
  datatype Node<K, V> = Node(key: K, value: V, next: int)

  type Chain<K, V> = seq<Entry<K, V>>

  const NULL: int := 0

  predicate HasKey<K(==), V>(chain: Chain<K, V>, key: K) {
    exists j | 0 <= j < |chain| :: chain[j].key == key
  }

  predicate DistinctKeys<K(==), V>(chain: Chain<K, V>) {
    forall i, j | 0 <= i < j < |chain| :: chain[i].key != chain[j].key
  }

  /** The chain holds pairs of `m` that belong in bucket `i`, each key once. */
  predicate ChainOk<K(==), V(==)>(hash: K -> nat, capacity: nat, i: nat, chain: Chain<K, V>, m: map<K, V>)
    requires capacity > 0
  {
    && DistinctKeys(chain)
    && forall j | 0 <= j < |chain| ::
         chain[j].key in m && m[chain[j].key] == chain[j].value && hash(chain[j].key) % capacity == i
  }

  /** The buckets store exactly the map `m`, every key where its hash says. */
  ghost predicate Stores<K, V>(hash: K -> nat, buckets: seq<Chain<K, V>>, m: map<K, V>) {
    && |buckets| > 0
    && (forall i | 0 <= i < |buckets| :: ChainOk(hash, |buckets|, i, buckets[i], m))
    && (forall k | k in m :: HasKey(buckets[hash(k) % |buckets|], k))
  }

  lemma StoresAppend<K, V>(hash: K -> nat, buckets: seq<Chain<K, V>>, m: map<K, V>, e: Entry<K, V>)
    requires Stores(hash, buckets, m) && e.key !in m
    ensures var i := hash(e.key) % |buckets|;
            Stores(hash, buckets[i := buckets[i] + [e]], m[e.key := e.value])
  {
    var n := |buckets|;
    var i := hash(e.key) % n;
    var chain := buckets[i] + [e];
    var m' := m[e.key := e.value];
    var buckets' := buckets[i := chain];
    forall c | 0 <= c < n ensures ChainOk(hash, n, c, buckets'[c], m') {
      assert ChainOk(hash, n, c, buckets[c], m);
    }
    forall k | k in m' ensures HasKey(buckets[i := chain][hash(k) % n], k) {
      if k == e.key { assert chain[|chain| - 1].key == k; }
      else if hash(k) % n == i {
        var j :| 0 <= j < |buckets[i]| && buckets[i][j].key == k;
        assert chain[j].key == k;
      }
    }
  }

  lemma StoresRemove<K, V>(hash: K -> nat, buckets: seq<Chain<K, V>>, m: map<K, V>, i: nat, j: nat)
    requires Stores(hash, buckets, m) && i < |buckets| && j < |buckets[i]|
    ensures Stores(hash, buckets[i := buckets[i][..j] + buckets[i][j + 1..]], m - {buckets[i][j].key})
    ensures buckets[i][j].key in m
  {
    var n, key := |buckets|, buckets[i][j].key;
    var chain := buckets[i][..j] + buckets[i][j + 1..];
    var m' := m - {key};
    assert ChainOk(hash, n, i, buckets[i], m);
    var buckets' := buckets[i := chain];
    forall c | 0 <= c < n ensures ChainOk(hash, n, c, buckets'[c], m') {
      assert ChainOk(hash, n, c, buckets[c], m);
    }
    forall k | k in m' ensures HasKey(buckets[i := chain][hash(k) % n], k) {
      if hash(k) % n == i {
        var p :| 0 <= p < |buckets[i]| && buckets[i][p].key == k;
        assert chain[if p < j then p else p - 1].key == k;
      }
    }
  }

  // ----- The nodes -----

  /** The address of entry `p` of a chain; null past either end. */
  function AddrAt(chain: seq<int>, p: int): int {
    if 0 <= p < |chain| then chain[p] else NULL
  }

  predicate NodeIs<K(==), V(==)>(nodes: map<int, Node<K, V>>, chain: seq<int>, entries: Chain<K, V>, p: int) {
    && 0 <= p < |chain| && |chain| == |entries| && chain[p] != NULL && chain[p] in nodes
    && nodes[chain[p]] == Node(entries[p].key, entries[p].value, AddrAt(chain, p + 1))
  }

  ghost predicate ChainLinked<K, V>(nodes: map<int, Node<K, V>>, chain: seq<int>, entries: Chain<K, V>) {
    |chain| == |entries| && forall p | 0 <= p < |chain| :: NodeIs(nodes, chain, entries, p)
  }

  predicate Heads(heads: seq<int>, chains: seq<seq<int>>) {
    |heads| == |chains| && forall i | 0 <= i < |heads| :: heads[i] == AddrAt(chains[i], 0)
  }

  /** The nodes link the entries of every bucket in order. */
  ghost predicate TableLinked<K, V>(nodes: map<int, Node<K, V>>, chains: seq<seq<int>>, table: seq<Chain<K, V>>) {
    |chains| == |table| && forall i | 0 <= i < |table| :: ChainLinked(nodes, chains[i], table[i])
  }

  /** Every node is in the chain of its key: none is lost. */
  ghost predicate Covered<K, V>(hash: K -> nat, nodes: map<int, Node<K, V>>, chains: seq<seq<int>>, m: map<K, V>) {
    |chains| > 0 && forall a | a in nodes && nodes[a].key in m :: a in chains[hash(nodes[a].key) % |chains|]
  }

  /** What a node in a table says about its place. */
  lemma NodeKey<K, V>(hash: K -> nat, nodes: map<int, Node<K, V>>, chains: seq<seq<int>>, table: seq<Chain<K, V>>, m: map<K, V>, i: nat, p: nat)
    requires Stores(hash, table, m) && TableLinked(nodes, chains, table) && i < |table| && p < |chains[i]|
    ensures NodeIs(nodes, chains[i], table[i], p)
    ensures var k := nodes[chains[i][p]].key; k == table[i][p].key && k in m && hash(k) % |table| == i
  {
    assert ChainLinked(nodes, chains[i], table[i]);
    assert NodeIs(nodes, chains[i], table[i], p);
    assert ChainOk(hash, |table|, i, table[i], m);
  }

  /** No node is in two places. */
  lemma NodesApart<K, V>(hash: K -> nat, nodes: map<int, Node<K, V>>, chains: seq<seq<int>>, table: seq<Chain<K, V>>, m: map<K, V>,
                         i: nat, p: nat, j: nat, q: nat)
    requires Stores(hash, table, m) && TableLinked(nodes, chains, table)
    requires i < |table| && p < |chains[i]| && j < |table| && q < |chains[j]| && chains[i][p] == chains[j][q]
    ensures i == j && p == q
  {
    NodeKey(hash, nodes, chains, table, m, i, p);
    NodeKey(hash, nodes, chains, table, m, j, q);
    assert ChainOk(hash, |table|, i, table[i], m);
  }

  /** A chain whose nodes are not stored to stays linked. */
  lemma ChainUntouched<K, V>(nodes: map<int, Node<K, V>>, nodes': map<int, Node<K, V>>, chain: seq<int>, entries: Chain<K, V>)
    requires ChainLinked(nodes, chain, entries)
    requires forall p | 0 <= p < |chain| :: chain[p] in nodes && chain[p] in nodes' && nodes'[chain[p]] == nodes[chain[p]]
    ensures ChainLinked(nodes', chain, entries)
  {
    forall p | 0 <= p < |chain| ensures NodeIs(nodes', chain, entries, p) { assert NodeIs(nodes, chain, entries, p); }
  }

  // ----- Linking a node at the end of a chain -----

  /** The stores to the nodes: `a` ends its chain, and follows `last` unless it is the first. */
  function Appended<K, V>(nodes: map<int, Node<K, V>>, last: int, a: int): map<int, Node<K, V>>
    requires a in nodes && (last != NULL ==> last in nodes)
  {
    var t := nodes[a := nodes[a].(next := NULL)];
    if last == NULL then t else t[last := t[last].(next := a)]
  }

  lemma ChainAppend<K, V>(nodes: map<int, Node<K, V>>, chain: seq<int>, entries: Chain<K, V>, a: int)
    requires ChainLinked(nodes, chain, entries) && a in nodes && a != NULL && a !in chain
    requires forall p, q | 0 <= p < q < |chain| :: chain[p] != chain[q]
    ensures var last := AddrAt(chain, |chain| - 1);
            && (last == NULL <==> chain == []) && (last != NULL ==> last in nodes && last != a)
            && ChainLinked(Appended(nodes, last, a), chain + [a], entries + [Entry(nodes[a].key, nodes[a].value)])
  {
    var last := AddrAt(chain, |chain| - 1);
    if chain != [] { assert NodeIs(nodes, chain, entries, |chain| - 1); }
    var nodes', chain', entries' := Appended(nodes, last, a), chain + [a], entries + [Entry(nodes[a].key, nodes[a].value)];
    forall p | 0 <= p < |chain'| ensures NodeIs(nodes', chain', entries', p) {
      if p < |chain| { assert NodeIs(nodes, chain, entries, p); }
    }
  }

  lemma TableAppend<K, V>(hash: K -> nat, nodes: map<int, Node<K, V>>, chains: seq<seq<int>>, table: seq<Chain<K, V>>, m: map<K, V>, i: nat, a: int)
    requires Stores(hash, table, m) && TableLinked(nodes, chains, table) && a in nodes && a != NULL
    requires nodes[a].key !in m && i == hash(nodes[a].key) % |table|
    ensures var last := AddrAt(chains[i], |chains[i]| - 1);
            && (last == NULL <==> chains[i] == []) && (last != NULL ==> last in nodes && last != a && nodes[last].key in m)
            && TableLinked(Appended(nodes, last, a), chains[i := chains[i] + [a]], table[i := table[i] + [Entry(nodes[a].key, nodes[a].value)]])
  {
    var last := AddrAt(chains[i], |chains[i]| - 1);
    forall c, p | 0 <= c < |table| && 0 <= p < |chains[c]|
      ensures chains[c][p] in nodes && chains[c][p] != a && (c != i ==> chains[c][p] != last)
    {
      NodeKey(hash, nodes, chains, table, m, c, p);
      if c != i && chains[c][p] == last { NodesApart(hash, nodes, chains, table, m, c, p, i, |chains[i]| - 1); }
    }
    forall p, q | 0 <= p < q < |chains[i]| ensures chains[i][p] != chains[i][q] {
      if chains[i][p] == chains[i][q] { NodesApart(hash, nodes, chains, table, m, i, p, i, q); }
    }
    assert ChainLinked(nodes, chains[i], table[i]);
    ChainAppend(nodes, chains[i], table[i], a);
    if last != NULL { NodeKey(hash, nodes, chains, table, m, i, |chains[i]| - 1); }
    TableOthers(nodes, Appended(nodes, last, a), chains, table, i, chains[i] + [a], table[i] + [Entry(nodes[a].key, nodes[a].value)]);
  }

  lemma TableOthers<K, V>(nodes: map<int, Node<K, V>>, nodes': map<int, Node<K, V>>, chains: seq<seq<int>>, table: seq<Chain<K, V>>, i: nat,
                          chain: seq<int>, entries: Chain<K, V>)
    requires TableLinked(nodes, chains, table) && i < |table| && ChainLinked(nodes', chain, entries)
    requires forall c, p | 0 <= c < |table| && c != i && 0 <= p < |chains[c]| ::
               chains[c][p] in nodes && chains[c][p] in nodes' && nodes'[chains[c][p]] == nodes[chains[c][p]]
    ensures TableLinked(nodes', chains[i := chain], table[i := entries])
  {
    forall c | 0 <= c < |table| && c != i ensures ChainLinked(nodes', chains[c], table[c]) {
      ChainUntouched(nodes, nodes', chains[c], table[c]);
    }
  }

  // ----- Taking a node out of a chain -----

  function Unlinked<K, V>(nodes: map<int, Node<K, V>>, prev: int, a: int): map<int, Node<K, V>>
    requires a in nodes && (prev != NULL ==> prev in nodes)
  {
    (if prev == NULL then nodes else nodes[prev := nodes[prev].(next := nodes[a].next)]) - {a}
  }

  lemma ChainErase<K, V>(nodes: map<int, Node<K, V>>, chain: seq<int>, entries: Chain<K, V>, j: nat)
    requires ChainLinked(nodes, chain, entries) && j < |chain|
    requires forall p, q | 0 <= p < q < |chain| :: chain[p] != chain[q]
    ensures var prev := AddrAt(chain, j - 1);
            && (prev == NULL <==> j == 0) && chain[j] in nodes && (prev != NULL ==> prev in nodes)
            && nodes[chain[j]].next == AddrAt(chain, j + 1)
            && ChainLinked(Unlinked(nodes, prev, chain[j]), Without(chain, j), Without(entries, j))
  {
    var prev := AddrAt(chain, j - 1);
    assert NodeIs(nodes, chain, entries, j);
    if j > 0 { assert NodeIs(nodes, chain, entries, j - 1); }
    var nodes', chain', entries' := Unlinked(nodes, prev, chain[j]), Without(chain, j), Without(entries, j);
    forall p | 0 <= p < |chain'| ensures NodeIs(nodes', chain', entries', p) {
      assert NodeIs(nodes, chain, entries, if p < j then p else p + 1);
    }
  }

  lemma TableErase<K, V>(hash: K -> nat, nodes: map<int, Node<K, V>>, chains: seq<seq<int>>, table: seq<Chain<K, V>>, m: map<K, V>, i: nat, j: nat)
    requires Stores(hash, table, m) && TableLinked(nodes, chains, table) && i < |table| && j < |chains[i]|
    ensures var prev, a := AddrAt(chains[i], j - 1), chains[i][j];
            && (prev == NULL <==> j == 0) && a in nodes && (prev != NULL ==> prev in nodes)
            && nodes[a].next == AddrAt(chains[i], j + 1) && |chains[i]| == |table[i]|
            && TableLinked(Unlinked(nodes, prev, a), chains[i := Without(chains[i], j)], table[i := Without(table[i], j)])
  {
    var prev, a := AddrAt(chains[i], j - 1), chains[i][j];
    forall p, q | 0 <= p < q < |chains[i]| ensures chains[i][p] != chains[i][q] {
      if chains[i][p] == chains[i][q] { NodesApart(hash, nodes, chains, table, m, i, p, i, q); }
    }
    assert ChainLinked(nodes, chains[i], table[i]);
    ChainErase(nodes, chains[i], table[i], j);
    forall c, p | 0 <= c < |table| && c != i && 0 <= p < |chains[c]|
      ensures chains[c][p] in nodes && chains[c][p] != a && (j > 0 ==> chains[c][p] != prev)
    {
      NodeKey(hash, nodes, chains, table, m, c, p);
      if chains[c][p] == a { NodesApart(hash, nodes, chains, table, m, c, p, i, j); }
      if j > 0 && chains[c][p] == prev { NodesApart(hash, nodes, chains, table, m, c, p, i, j - 1); }
    }
    TableOthers(nodes, Unlinked(nodes, prev, a), chains, table, i, Without(chains[i], j), Without(table[i], j));
  }

  // ----- Rehash -----

  /** The keys of the buckets before `i`, and of the first `j` entries of bucket `i`. */
  ghost predicate MovedThrough<K, V>(hash: K -> nat, buckets: seq<Chain<K, V>>, m: map<K, V>, moved: map<K, V>, i: nat, j: nat)
    requires |buckets| > 0 && (i < |buckets| ==> j <= |buckets[i]|)
  {
    && (forall k | k in moved :: k in m && moved[k] == m[k])
    && (forall k | k in m :: k in moved <==>
          hash(k) % |buckets| < i || (hash(k) % |buckets| == i && i < |buckets| && HasKey(buckets[i][..j], k)))
  }

  lemma AllMoved<K, V>(hash: K -> nat, buckets: seq<Chain<K, V>>, m: map<K, V>, moved: map<K, V>)
    requires |buckets| > 0 && MovedThrough(hash, buckets, m, moved, |buckets|, 0)
    ensures moved == m
  {
    forall k | k in m ensures k in moved { assert hash(k) % |buckets| < |buckets|; }
  }

  lemma MoveOne<K, V>(hash: K -> nat, buckets: seq<Chain<K, V>>, m: map<K, V>, moved: map<K, V>, i: nat, j: nat)
    requires Stores(hash, buckets, m) && i < |buckets| && j < |buckets[i]|
    requires MovedThrough(hash, buckets, m, moved, i, j)
    ensures buckets[i][j].key !in moved
    ensures MovedThrough(hash, buckets, m, moved[buckets[i][j].key := buckets[i][j].value], i, j + 1)
  {
    var chain, e := buckets[i], buckets[i][j];
    assert ChainOk(hash, |buckets|, i, chain, m);
    forall k ensures HasKey(chain[..j + 1], k) <==> HasKey(chain[..j], k) || k == e.key {
      if HasKey(chain[..j], k) { var p :| 0 <= p < j && chain[..j][p].key == k; assert chain[..j + 1][p].key == k; }
      if k == e.key { assert chain[..j + 1][j].key == k; }
      if HasKey(chain[..j + 1], k) {
        var p :| 0 <= p < j + 1 && chain[..j + 1][p].key == k;
        if p < j { assert chain[..j][p].key == k; }
      }
    }
  }

  lemma ChainMoved<K, V>(hash: K -> nat, buckets: seq<Chain<K, V>>, m: map<K, V>, moved: map<K, V>, i: nat)
    requires Stores(hash, buckets, m) && i < |buckets|
    requires MovedThrough(hash, buckets, m, moved, i, |buckets[i]|)
    ensures MovedThrough(hash, buckets, m, moved, i + 1, 0)
  {
    assert buckets[i][..|buckets[i]|] == buckets[i];
  }
  predicate SameShape<K(==), V(==)>(chains: seq<seq<int>>, table: seq<Chain<K, V>>) {
    |chains| == |table| && forall c | 0 <= c < |table| :: |chains[c]| == |table[c]|
  }

  /** The nodes that rehash has yet to move: from node `j` of bucket `i` on. */
  ghost predicate Waiting<K, V>(nodes: map<int, Node<K, V>>, chains: seq<seq<int>>, table: seq<Chain<K, V>>, i: nat, j: nat)
    requires |chains| == |table|
  {
    forall c, p | 0 <= c < |table| && 0 <= p < |chains[c]| && (c > i || (c == i && p >= j)) :: NodeIs(nodes, chains[c], table[c], p)
  }

  /** A waiting node has a key of its own, which has not been moved. */
  lemma WaitingKey<K, V>(hash: K -> nat, nodes: map<int, Node<K, V>>, chains: seq<seq<int>>, table: seq<Chain<K, V>>, m: map<K, V>,
                         moved: map<K, V>, i: nat, j: nat, c: nat, p: nat)
    requires Stores(hash, table, m) && SameShape(chains, table) && Waiting(nodes, chains, table, i, j)
    requires i < |table| && j <= |table[i]| && MovedThrough(hash, table, m, moved, i, j)
    requires c < |table| && p < |chains[c]| && (c > i || (c == i && p >= j))
    ensures NodeIs(nodes, chains[c], table[c], p)
    ensures nodes[chains[c][p]].key == table[c][p].key && table[c][p].key !in moved
    ensures j < |table[i]| && (c != i || p != j) ==> table[c][p].key != table[i][j].key
  {
    assert ChainOk(hash, |table|, c, table[c], m);
    assert ChainOk(hash, |table|, i, table[i], m);
    assert NodeIs(nodes, chains[c], table[c], p);
  }

  /** One turn of the inner loop: the first waiting node goes to the end of its new chain. */
  lemma MoveNode<K, V>(hash: K -> nat, nodes: map<int, Node<K, V>>, chains: seq<seq<int>>, table: seq<Chain<K, V>>, m: map<K, V>,
                       moved: map<K, V>, i: nat, j: nat, last: int)
    requires Stores(hash, table, m) && SameShape(chains, table) && Waiting(nodes, chains, table, i, j)
    requires i < |table| && j < |table[i]| && MovedThrough(hash, table, m, moved, i, j)
    requires last != NULL ==> last in nodes && nodes[last].key in moved
    ensures var e := chains[i][j];
            && e != NULL && e in nodes && e != last && nodes[e] == Node(table[i][j].key, table[i][j].value, AddrAt(chains[i], j + 1))
            && nodes[e].key !in moved && Waiting(Appended(nodes, last, e), chains, table, i, j + 1)
  {
    var e := chains[i][j];
    WaitingKey(hash, nodes, chains, table, m, moved, i, j, i, j);
    var nodes' := Appended(nodes, last, e);
    forall c, p | 0 <= c < |table| && 0 <= p < |chains[c]| && (c > i || (c == i && p >= j + 1)) ensures NodeIs(nodes', chains[c], table[c], p) {
      WaitingKey(hash, nodes, chains, table, m, moved, i, j, c, p);
    }
  }

  /** The keys of the nodes, wherever they are linked. */
  ghost predicate KeysAt<K, V>(nodes: map<int, Node<K, V>>, chains: seq<seq<int>>, table: seq<Chain<K, V>>)
    requires SameShape(chains, table)
  {
    forall c, p | 0 <= c < |table| && 0 <= p < |table[c]| :: KeyAt(nodes, chains[c], table[c], p)
  }

  predicate KeyAt<K(==), V>(nodes: map<int, Node<K, V>>, chain: seq<int>, entries: Chain<K, V>, p: int) {
    0 <= p < |chain| && |chain| == |entries| && chain[p] in nodes && nodes[chain[p]].key == entries[p].key
  }

  /** Every node is in the chain of its key. */
  ghost predicate Owned<K, V>(hash: K -> nat, nodes: map<int, Node<K, V>>, chains: seq<seq<int>>) {
    |chains| > 0 && forall a | a in nodes :: a in chains[hash(nodes[a].key) % |chains|]
  }

  /** The same for the nodes that have been moved. */
  lemma MoveCovers<K, V>(hash: K -> nat, nodes: map<int, Node<K, V>>, chains: seq<seq<int>>, table: seq<Chain<K, V>>, m: map<K, V>,
                         chains': seq<seq<int>>, moved: map<K, V>, i: nat, j: nat, last: int)
    requires Stores(hash, table, m) && SameShape(chains, table) && KeysAt(nodes, chains, table) && Owned(hash, nodes, chains)
    requires i < |table| && j < |table[i]| && Covered(hash, nodes, chains', moved)
    requires chains[i][j] in nodes && (last != NULL ==> last in nodes)
    ensures var e := chains[i][j];
            var to := hash(nodes[e].key) % |chains'|;
            Covered(hash, Appended(nodes, last, e), chains'[to := chains'[to] + [e]], moved[table[i][j].key := table[i][j].value])
  {
    var e, entry := chains[i][j], table[i][j];
    assert KeyAt(nodes, chains[i], table[i], j);
    assert ChainOk(hash, |table|, i, table[i], m);
    var to := hash(nodes[e].key) % |chains'|;
    var chains'' := chains'[to := chains'[to] + [e]];
    forall a | a in nodes && nodes[a].key in moved[entry.key := entry.value] ensures a in chains''[hash(nodes[a].key) % |chains''|] {
      if nodes[a].key == entry.key {
        var p :| 0 <= p < |chains[i]| && chains[i][p] == a;
        assert KeyAt(nodes, chains[i], table[i], p);
        assert chains''[to][|chains'[to]|] == e;
      } else {
        var c := hash(nodes[a].key) % |chains'|;
        var p :| 0 <= p < |chains'[c]| && chains'[c][p] == a;
        assert chains''[c][p] == a;
      }
    }
  }

  /** A store to a node outside the table leaves it linked. */
  lemma FreshLinked<K, V>(hash: K -> nat, nodes: map<int, Node<K, V>>, nodes': map<int, Node<K, V>>, chains: seq<seq<int>>,
                          table: seq<Chain<K, V>>, m: map<K, V>, a: int)
    requires Stores(hash, table, m) && TableLinked(nodes, chains, table)
    requires a in nodes' && nodes' == nodes[a := nodes'[a]] && (a in nodes ==> nodes[a].key !in m)
    ensures TableLinked(nodes', chains, table)
  {
    forall c | 0 <= c < |table| ensures ChainLinked(nodes', chains[c], table[c]) {
      forall p | 0 <= p < |chains[c]| ensures chains[c][p] in nodes && chains[c][p] != a {
        NodeKey(hash, nodes, chains, table, m, c, p);
      }
      ChainUntouched(nodes, nodes', chains[c], table[c]);
    }
  }

  lemma OwnedAppend<K, V>(hash: K -> nat, nodes: map<int, Node<K, V>>, nodes': map<int, Node<K, V>>, chains: seq<seq<int>>, i: nat, a: int, last: int)
    requires Owned(hash, nodes, chains) && i < |chains| && a in nodes' && nodes' == nodes[a := nodes'[a]]
    requires i == hash(nodes'[a].key) % |chains| && (last != NULL ==> last in nodes')
    ensures Owned(hash, Appended(nodes', last, a), chains[i := chains[i] + [a]])
  {
    var chains' := chains[i := chains[i] + [a]];
    forall b | b in nodes' ensures b in chains'[hash(nodes'[b].key) % |chains|] {
      if b == a { assert chains'[i][|chains[i]|] == a; }
      else {
        var c := hash(nodes[b].key) % |chains|;
        var p :| 0 <= p < |chains[c]| && chains[c][p] == b;
        assert chains'[c][p] == b;
      }
    }
  }

  lemma RehashStarts<K, V>(hash: K -> nat, nodes: map<int, Node<K, V>>, chains: seq<seq<int>>, table: seq<Chain<K, V>>, m: map<K, V>)
    requires Stores(hash, table, m) && TableLinked(nodes, chains, table)
    ensures SameShape(chains, table) && Waiting(nodes, chains, table, 0, 0) && KeysAt(nodes, chains, table)
    ensures MovedThrough(hash, table, m, map[], 0, 0)
  {
    forall c, p | 0 <= c < |table| && 0 <= p < |table[c]| ensures KeyAt(nodes, chains[c], table[c], p) {
      assert NodeIs(nodes, chains[c], table[c], p);
    }
  }

  lemma AllCovered<K, V>(hash: K -> nat, nodes: map<int, Node<K, V>>, chains: seq<seq<int>>, table: seq<Chain<K, V>>, chains': seq<seq<int>>, m: map<K, V>)
    requires Stores(hash, table, m) && SameShape(chains, table) && KeysAt(nodes, chains, table)
    requires Owned(hash, nodes, chains) && Covered(hash, nodes, chains', m)
    ensures Owned(hash, nodes, chains')
  {
    forall a | a in nodes ensures nodes[a].key in m {
      var c := hash(nodes[a].key) % |chains|;
      var p :| 0 <= p < |chains[c]| && chains[c][p] == a;
      assert KeyAt(nodes, chains[c], table[c], p);
      assert ChainOk(hash, |table|, c, table[c], m);
    }
  }

  /** The null pointer is met at the end of a chain and not before. */
  lemma NullEnds<K, V>(nodes: map<int, Node<K, V>>, chain: seq<int>, entries: Chain<K, V>, p: nat)
    requires ChainLinked(nodes, chain, entries) && p <= |chain|
    ensures AddrAt(chain, p) == NULL <==> p == |chain|
    ensures p < |chain| ==> NodeIs(nodes, chain, entries, p)
  {
    if p < |chain| { assert NodeIs(nodes, chain, entries, p); }
  }

  lemma WaitingEnds<K, V>(nodes: map<int, Node<K, V>>, chains: seq<seq<int>>, table: seq<Chain<K, V>>, i: nat, j: nat)
    requires SameShape(chains, table) && i < |table| && j <= |table[i]| && Waiting(nodes, chains, table, i, j)
    ensures AddrAt(chains[i], j) == NULL <==> j == |table[i]|
  {
    if j < |table[i]| { assert NodeIs(nodes, chains[i], table[i], j); }
  }

  // ----- The whole map -----

  ghost predicate Whole<K, V>(hash: K -> nat, bucket: seq<int>, nodes: map<int, Node<K, V>>, chains: seq<seq<int>>, table: seq<Chain<K, V>>, m: map<K, V>) {
    |bucket| == |table| && Heads(bucket, chains) && Stores(hash, table, m) && TableLinked(nodes, chains, table) && Owned(hash, nodes, chains)
  }

  /** The store to the bucket vector: a first node heads its chain. */
  function HeadsWith(bucket: seq<int>, i: nat, last: int, a: int): seq<int>
    requires i < |bucket|
  {
    if last == NULL then bucket[i := a] else bucket
  }

  lemma LinkWhole<K, V>(hash: K -> nat, bucket: seq<int>, nodes: map<int, Node<K, V>>, chains: seq<seq<int>>, table: seq<Chain<K, V>>, m: map<K, V>,
                        e: Entry<K, V>, a: int, i: nat, last: int)
    requires Whole(hash, bucket, nodes, chains, table, m) && a != NULL && a !in nodes && e.key !in m && i == hash(e.key) % |table|
    requires last == AddrAt(chains[i], |chains[i]| - 1)
    ensures last != NULL ==> last in nodes
    ensures Whole(hash, HeadsWith(bucket, i, last, a), Appended(nodes[a := Node(e.key, e.value, NULL)], last, a),
                  chains[i := chains[i] + [a]], table[i := table[i] + [e]], m[e.key := e.value])
  {
    var nodes' := nodes[a := Node(e.key, e.value, NULL)];
    FreshLinked(hash, nodes, nodes', chains, table, m, a);
    TableAppend(hash, nodes', chains, table, m, i, a);
    StoresAppend(hash, table, m, e);
    OwnedAppend(hash, nodes, nodes', chains, i, a, last);
  }

  lemma UnlinkWhole<K, V>(hash: K -> nat, bucket: seq<int>, nodes: map<int, Node<K, V>>, chains: seq<seq<int>>, table: seq<Chain<K, V>>, m: map<K, V>,
                          i: nat, j: nat)
    requires Whole(hash, bucket, nodes, chains, table, m) && i < |table| && j < |chains[i]|
    ensures var prev, a := AddrAt(chains[i], j - 1), chains[i][j];
            && |chains[i]| == |table[i]| && a in nodes && nodes[a].key == table[i][j].key && nodes[a].key in m
            && (prev == NULL <==> j == 0) && (prev != NULL ==> prev in nodes && prev != a)
            && Whole(hash, if prev == NULL then bucket[i := nodes[a].next] else bucket, Unlinked(nodes, prev, a),
                     chains[i := Without(chains[i], j)], table[i := Without(table[i], j)], m - {nodes[a].key})
  {
    TableErase(hash, nodes, chains, table, m, i, j);
    StoresRemove(hash, table, m, i, j);
    NodeKey(hash, nodes, chains, table, m, i, j);
    if j > 0 && chains[i][j - 1] == chains[i][j] { NodesApart(hash, nodes, chains, table, m, i, j - 1, i, j); }
  }

  /** What the loops of rehash keep: every node of the buckets before `i` and of the first `j` of
      bucket `i` is linked in its new chain, and those behind are as they were. */
  ghost predicate Rehashing<K, V>(hash: K -> nat, nodes: map<int, Node<K, V>>, chains: seq<seq<int>>, table: seq<Chain<K, V>>, m: map<K, V>,
                                  newBucket: seq<int>, newChains: seq<seq<int>>, newTable: seq<Chain<K, V>>, moved: map<K, V>, i: nat, j: nat) {
    && Stores(hash, table, m) && SameShape(chains, table) && (i < |table| ==> j <= |table[i]|)
    && KeysAt(nodes, chains, table) && Owned(hash, nodes, chains) && Waiting(nodes, chains, table, i, j)
    && |newBucket| == |newTable| && Heads(newBucket, newChains) && Stores(hash, newTable, moved)
    && TableLinked(nodes, newChains, newTable) && Covered(hash, nodes, newChains, moved)
    && MovedThrough(hash, table, m, moved, i, j)
  }

  lemma RehashingReady<K, V>(hash: K -> nat, nodes: map<int, Node<K, V>>, chains: seq<seq<int>>, table: seq<Chain<K, V>>, m: map<K, V>,
                             newBucket: seq<int>, newChains: seq<seq<int>>, newTable: seq<Chain<K, V>>, moved: map<K, V>, i: nat, j: nat)
    requires Rehashing(hash, nodes, chains, table, m, newBucket, newChains, newTable, moved, i, j) && i < |table| && j < |table[i]|
    ensures var e, to := chains[i][j], hash(table[i][j].key) % |newTable|;
            var last := AddrAt(newChains[to], |newChains[to]| - 1);
            && e != NULL && e in nodes && nodes[e] == Node(table[i][j].key, table[i][j].value, AddrAt(chains[i], j + 1)) && nodes[e].key !in moved
            && (last == NULL <==> newChains[to] == []) && (last != NULL ==> last in nodes && nodes[last].key in moved)
  {
    MoveNode(hash, nodes, chains, table, m, moved, i, j, NULL);
    TableAppend(hash, nodes, newChains, newTable, moved, hash(table[i][j].key) % |newTable|, chains[i][j]);
  }

  lemma RehashingNext<K, V>(hash: K -> nat, nodes: map<int, Node<K, V>>, chains: seq<seq<int>>, table: seq<Chain<K, V>>, m: map<K, V>,
                            newBucket: seq<int>, newChains: seq<seq<int>>, newTable: seq<Chain<K, V>>, moved: map<K, V>, i: nat, j: nat,
                            e: int, to: nat, last: int)
    requires Rehashing(hash, nodes, chains, table, m, newBucket, newChains, newTable, moved, i, j) && i < |table| && j < |table[i]|
    requires e == chains[i][j] && to == hash(table[i][j].key) % |newTable| && last == AddrAt(newChains[to], |newChains[to]| - 1)
    ensures e in nodes && (last != NULL ==> last in nodes)
    ensures Rehashing(hash, Appended(nodes, last, e), chains, table, m, HeadsWith(newBucket, to, last, e), newChains[to := newChains[to] + [e]],
                      newTable[to := newTable[to] + [table[i][j]]], moved[table[i][j].key := table[i][j].value], i, j + 1)
  {
    RehashingReady(hash, nodes, chains, table, m, newBucket, newChains, newTable, moved, i, j);
    MoveNode(hash, nodes, chains, table, m, moved, i, j, last);
    NewTableNext(hash, nodes, newBucket, newChains, newTable, moved, table[i][j], e, to, last);
    MoveCovers(hash, nodes, chains, table, m, newChains, moved, i, j, last);
    MoveOne(hash, table, m, moved, i, j);
    SameKeys(hash, nodes, Appended(nodes, last, e), chains, table);
  }

  lemma NewTableNext<K, V>(hash: K -> nat, nodes: map<int, Node<K, V>>, bucket: seq<int>, chains: seq<seq<int>>, table: seq<Chain<K, V>>, m: map<K, V>,
                           entry: Entry<K, V>, e: int, to: nat, last: int)
    requires Stores(hash, table, m) && TableLinked(nodes, chains, table) && |bucket| == |table| && Heads(bucket, chains)
    requires e in nodes && e != NULL && (nodes[e].key, nodes[e].value) == (entry.key, entry.value) && entry.key !in m
    requires to == hash(entry.key) % |table| && last == AddrAt(chains[to], |chains[to]| - 1)
    ensures last != NULL ==> last in nodes
    ensures TableLinked(Appended(nodes, last, e), chains[to := chains[to] + [e]], table[to := table[to] + [entry]])
    ensures Heads(HeadsWith(bucket, to, last, e), chains[to := chains[to] + [e]])
    ensures Stores(hash, table[to := table[to] + [entry]], m[entry.key := entry.value])
  {
    TableAppend(hash, nodes, chains, table, m, to, e);
    StoresAppend(hash, table, m, entry);
  }

  /** Stores to `next` leave the keys where they are. */
  lemma SameKeys<K, V>(hash: K -> nat, nodes: map<int, Node<K, V>>, nodes': map<int, Node<K, V>>, chains: seq<seq<int>>, table: seq<Chain<K, V>>)
    requires SameShape(chains, table) && KeysAt(nodes, chains, table) && Owned(hash, nodes, chains)
    requires nodes'.Keys == nodes.Keys && forall a | a in nodes :: nodes'[a].key == nodes[a].key
    ensures KeysAt(nodes', chains, table) && Owned(hash, nodes', chains)
  {
    forall c, p | 0 <= c < |table| && 0 <= p < |table[c]| ensures KeyAt(nodes', chains[c], table[c], p) {
      assert KeyAt(nodes, chains[c], table[c], p);
      assert |chains[c]| == |table[c]|;
      var a := chains[c][p];
      assert a in nodes && nodes'[a].key == nodes[a].key;
    }
  }
}
