/** The nodes of kernel/std/include/range_list.hpp, as records keyed by reference, and what it means
    that they are a list: following `next` from the head gives the nodes in order up to the tail,
    and `prev` mirrors it. */
module RangeNodes {
  import opened Wrappers

  /** The two sentinels are members of the list; the other nodes come from the allocator. */
  datatype Ref = Null | Head | Tail | At(address: nat)

  /** struct range_en. */
  datatype Node<T> = Node(rang: T, next: Ref, prev: Ref)

  /** Position -1 is the head and the length is the tail. */
  function RefAt(order: seq<Ref>, i: int): Ref {
    if i < 0 then Head else if i < |order| then order[i] else Tail
  }

  predicate Joined<T>(nodes: map<Ref, Node<T>>, order: seq<Ref>, i: int) {
    && RefAt(order, i) in nodes
    && (i < |order| ==> nodes[RefAt(order, i)].next == RefAt(order, i + 1))
    && (i >= 0 ==> nodes[RefAt(order, i)].prev == RefAt(order, i - 1))
  }

  predicate Distinct(order: seq<Ref>) {
    && (forall i | 0 <= i < |order| :: order[i].At?)
    && (forall i, j | 0 <= i < j < |order| :: order[i] != order[j])
  }

  /** The nodes hold `items` in this order, and there are no others. */
  ghost predicate Linked<T>(nodes: map<Ref, Node<T>>, order: seq<Ref>, items: seq<T>) {
    && |order| == |items| && Distinct(order)
    && (forall i | -1 <= i <= |order| :: Joined(nodes, order, i))
    && (forall i | 0 <= i < |order| :: order[i] in nodes && nodes[order[i]].rang == items[i])
    && (forall r | r in nodes && r.At? :: r in order)
  }

  function WithAt<T>(s: seq<T>, k: nat, x: T): (r: seq<T>)
    requires k <= |s|
    ensures |r| == |s| + 1
    ensures forall i | 0 <= i < |r| :: r[i] == if i < k then s[i] else if i == k then x else s[i - 1]
  {
    s[..k] + [x] + s[k..]
  }

  lemma RefsDiffer(order: seq<Ref>, i: int, j: int)
    requires Distinct(order) && -1 <= i <= |order| && -1 <= j <= |order|
    ensures RefAt(order, i) == RefAt(order, j) <==> i == j
    ensures RefAt(order, i) != Null
  {
  }

  /** Walking: the node after the one at `i` is the one at `i + 1`, and the tail ends the list. */
  lemma Walk<T>(nodes: map<Ref, Node<T>>, order: seq<Ref>, items: seq<T>, i: int)
    requires Linked(nodes, order, items) && -1 <= i < |order|
    ensures RefAt(order, i) in nodes && nodes[RefAt(order, i)].next == RefAt(order, i + 1)
    ensures RefAt(order, i) != Tail && (i >= 0 ==> nodes[RefAt(order, i)].rang == items[i])
  {
    assert Joined(nodes, order, i);
  }

  // ----- delete_range -----

  /** What delete_range leaves: the neighbours are joined and the node is gone. */
  function Deleted<T>(nodes: map<Ref, Node<T>>, r: Ref): map<Ref, Node<T>>
    requires r in nodes && nodes[r].prev in nodes && nodes[r].next in nodes
  {
    var p, n := nodes[r].prev, nodes[r].next;
    var t := nodes[p := nodes[p].(next := n)];
    t[n := t[n].(prev := p)] - {r}
  }

  lemma Neighbours<T>(nodes: map<Ref, Node<T>>, order: seq<Ref>, items: seq<T>, k: nat)
    requires Linked(nodes, order, items) && k < |order|
    ensures var p, r, n := RefAt(order, k - 1), order[k], RefAt(order, k + 1);
            && r in nodes && nodes[r].prev == p && nodes[r].next == n && p in nodes && n in nodes
            && p != r && n != r && p != n
  {
    assert Joined(nodes, order, k - 1) && Joined(nodes, order, k) && Joined(nodes, order, k + 1);
    assert RefAt(order, k) == order[k];
    RefsDiffer(order, k - 1, k);
    RefsDiffer(order, k, k + 1);
    RefsDiffer(order, k - 1, k + 1);
  }

  lemma DeletedJoined<T>(nodes: map<Ref, Node<T>>, order: seq<Ref>, items: seq<T>, k: nat, i: int)
    requires Linked(nodes, order, items) && k < |order| && -1 <= i < |order|
    requires order[k] in nodes && nodes[order[k]].prev in nodes && nodes[order[k]].next in nodes
    ensures Joined(Deleted(nodes, order[k]), Without(order, k), i)
  {
    var j := if i < k then i else i + 1;
    Neighbours(nodes, order, items, k);
    assert Joined(nodes, order, j);
    assert RefAt(Without(order, k), i) == RefAt(order, j);
    RefsDiffer(order, j, k);
    RefsDiffer(order, j, k - 1);
    RefsDiffer(order, j, k + 1);
  }

  lemma DeletedLinked<T>(nodes: map<Ref, Node<T>>, order: seq<Ref>, items: seq<T>, k: nat)
    requires Linked(nodes, order, items) && k < |order|
    ensures order[k] in nodes && nodes[order[k]].prev in nodes && nodes[order[k]].next in nodes
    ensures Linked(Deleted(nodes, order[k]), Without(order, k), Without(items, k))
  {
    Neighbours(nodes, order, items, k);
    var nodes', order' := Deleted(nodes, order[k]), Without(order, k);
    forall i | -1 <= i <= |order'| ensures Joined(nodes', order', i) {
      DeletedJoined(nodes, order, items, k, i);
    }
    forall r | r in nodes' && r.At? ensures r in order' {
      var i :| 0 <= i < |order| && order[i] == r;
      assert order'[if i < k then i else i - 1] == r;
    }
  }

  // ----- Linking a new node -----

  /** What linking the new node `a` before the node `b` leaves. */
  function Inserted<T>(nodes: map<Ref, Node<T>>, a: Ref, b: Ref, x: T): map<Ref, Node<T>>
    requires b in nodes && nodes[b].prev in nodes
  {
    var p := nodes[b].prev;
    var t := nodes[a := Node(x, b, p)];
    var t' := t[p := t[p].(next := a)];
    t'[b := t'[b].(prev := a)]
  }

  lemma Place<T>(nodes: map<Ref, Node<T>>, order: seq<Ref>, items: seq<T>, k: nat)
    requires Linked(nodes, order, items) && k <= |order|
    ensures var p, b := RefAt(order, k - 1), RefAt(order, k); p in nodes && b in nodes && nodes[b].prev == p && p != b
  {
    assert Joined(nodes, order, k - 1) && Joined(nodes, order, k);
    RefsDiffer(order, k - 1, k);
  }

  lemma InsertedJoined<T>(nodes: map<Ref, Node<T>>, order: seq<Ref>, items: seq<T>, k: nat, a: Ref, x: T, i: int)
    requires Linked(nodes, order, items) && k <= |order| && a.At? && a !in nodes && -1 <= i <= |order| + 1
    requires RefAt(order, k) in nodes && nodes[RefAt(order, k)].prev in nodes
    ensures Joined(Inserted(nodes, a, RefAt(order, k), x), WithAt(order, k, a), i)
  {
    assert Joined(nodes, order, k - 1) && Joined(nodes, order, k);
    RefsDiffer(order, k - 1, k);
    if i != k {
      assert Joined(nodes, order, if i < k then i else i - 1);
      InsertedOld(nodes, order, k, a, x, i, if i < k then i else i - 1);
    }
  }

  /** A node that was there is now linked to its old neighbours, or to the new node between them. */
  lemma InsertedOld<T>(nodes: map<Ref, Node<T>>, order: seq<Ref>, k: nat, a: Ref, x: T, i: int, j: int)
    requires Distinct(order) && k <= |order| && a.At? && a !in nodes
    requires Joined(nodes, order, k - 1) && Joined(nodes, order, k) && nodes[RefAt(order, k)].prev in nodes
    requires -1 <= j <= |order| && i == (if j < k then j else j + 1) && Joined(nodes, order, j)
    ensures Joined(Inserted(nodes, a, RefAt(order, k), x), WithAt(order, k, a), i)
  {
    assert RefAt(WithAt(order, k, a), i) == RefAt(order, j);
    RefsDiffer(order, j, k);
    RefsDiffer(order, j, k - 1);
  }

  lemma InsertedDistinct(order: seq<Ref>, k: nat, a: Ref)
    requires Distinct(order) && k <= |order| && a.At? && a !in order
    ensures Distinct(WithAt(order, k, a))
  {
  }

  lemma InsertedLinked<T>(nodes: map<Ref, Node<T>>, order: seq<Ref>, items: seq<T>, k: nat, a: Ref, x: T)
    requires Linked(nodes, order, items) && k <= |order| && a.At? && a !in nodes
    ensures RefAt(order, k) in nodes && nodes[RefAt(order, k)].prev in nodes
    ensures Linked(Inserted(nodes, a, RefAt(order, k), x), WithAt(order, k, a), WithAt(items, k, x))
  {
    Place(nodes, order, items, k);
    InsertedDistinct(order, k, a);
    var nodes', order', items' := Inserted(nodes, a, RefAt(order, k), x), WithAt(order, k, a), WithAt(items, k, x);
    forall i | -1 <= i <= |order'| ensures Joined(nodes', order', i) {
      InsertedJoined(nodes, order, items, k, a, x, i);
    }
    forall i | 0 <= i < |order'| ensures order'[i] in nodes' && nodes'[order'[i]].rang == items'[i] {
    }
    forall r | r in nodes' && r.At? ensures r in order' {
    }
  }

  // ----- Changing a range -----

  lemma SetLinked<T>(nodes: map<Ref, Node<T>>, order: seq<Ref>, items: seq<T>, k: nat, x: T)
    requires Linked(nodes, order, items) && k < |order|
    ensures order[k] in nodes && Linked(nodes[order[k] := nodes[order[k]].(rang := x)], order, items[k := x])
  {
    var nodes' := nodes[order[k] := nodes[order[k]].(rang := x)];
    forall i | -1 <= i <= |order| ensures Joined(nodes', order, i) {
      assert Joined(nodes, order, i);
    }
  }

  /** Following `next` from the head, `n` steps. */
  function Follow<T>(nodes: map<Ref, Node<T>>, r: Ref, n: nat): Ref
    decreases n
  {
    if n == 0 then r else if r in nodes then Follow(nodes, nodes[r].next, n - 1) else Null
  }

  /** The list is what following `next` from the head gives. */
  lemma {:induction false} Reached<T>(nodes: map<Ref, Node<T>>, order: seq<Ref>, items: seq<T>, i: int, n: nat)
    requires Linked(nodes, order, items) && -1 <= i && i + n <= |order|
    ensures Follow(nodes, RefAt(order, i), n) == RefAt(order, i + n)
    decreases n
  {
    if n > 0 {
      Walk(nodes, order, items, i);
      Reached(nodes, order, items, i + 1, n - 1);
    }
  }
}
