/** The merging range list of kernel/std/include/range_list.hpp: a doubly linked list that the
    methods change in place, and the sequence of the ranges that it holds. */
module RangeList {
  import opened RangeNodes
  import opened Wrappers

  /** is_bound treats a range as start <= v < end, merging as start <= v <= end. */
  datatype Range = Range(start: int, end: int)

  predicate Proper(r: Range) {
    r.start <= r.end
  }

  predicate Holds(r: Range, v: int) {
    r.start <= v < r.end
  }

  predicate Bound(rs: seq<Range>, v: int) {
    exists i | 0 <= i < |rs| :: Holds(rs[i], v)
  }

  /** The closed intervals have a point in common. */
  predicate Touch(a: Range, b: Range) {
    a.start <= b.end && b.start <= a.end
  }

  function Hull(a: Range, b: Range): Range {
    Range(if a.start < b.start then a.start else b.start, if a.end > b.end then a.end else b.end)
  }

  predicate AllProper(rs: seq<Range>) {
    forall i | 0 <= i < |rs| :: Proper(rs[i])
  }

  /** No two stored ranges touch, leaving out the one at `hot` (-1 for none). */
  predicate ApartBut(rs: seq<Range>, hot: int) {
    forall i, j | 0 <= i < |rs| && 0 <= j < |rs| && i != j && i != hot && j != hot :: !Touch(rs[i], rs[j])
  }

  predicate Apart(rs: seq<Range>) {
    ApartBut(rs, -1)
  }

  /** The first `n` ranges do not touch the one at `hot`. */
  predicate FirstApartFrom(rs: seq<Range>, n: int, hot: int)
    requires 0 <= hot < |rs|
  {
    forall i | 0 <= i < n && i < |rs| && i != hot :: !Touch(rs[i], rs[hot])
  }

  /** Merging the range at `m` into the one at `r`. */
  function Merged(rs: seq<Range>, r: nat, m: nat): seq<Range>
    requires r < |rs| && m < |rs|
  {
    Without(rs[r := Hull(rs[r], rs[m])], m)
  }

  /** Where the range at `r` is after the one at `m` was deleted. */
  function Shifted(r: nat, m: nat): int {
    if m < r then r - 1 else r
  }

  lemma MergedHolds(rs: seq<Range>, r: nat, m: nat, i: nat, v: int)
    requires r < |rs| && m < |rs| && r != m && i < |rs| && Holds(rs[i], v) && Proper(rs[r]) && Proper(rs[m])
    ensures Bound(Merged(rs, r, m), v)
  {
    var k := if i == m then Shifted(r, m) else Shifted(i, m);
    assert Holds(Merged(rs, r, m)[k], v);
  }

  /** Merging two touching ranges keeps the points. */
  lemma MergeKeepsPoints(rs: seq<Range>, r: nat, m: nat)
    requires r < |rs| && m < |rs| && r != m && Proper(rs[r]) && Proper(rs[m]) && Touch(rs[r], rs[m])
    ensures SamePoints(Merged(rs, r, m), rs)
  {
    forall v ensures Bound(Merged(rs, r, m), v) <==> Bound(rs, v) {
      if Bound(rs, v) {
        var i :| 0 <= i < |rs| && Holds(rs[i], v);
        MergedHolds(rs, r, m, i, v);
      }
      if Bound(Merged(rs, r, m), v) {
        var k :| 0 <= k < |Merged(rs, r, m)| && Holds(Merged(rs, r, m)[k], v);
      }
    }
  }

  /** The state of the merge: one range, `hot`, contains the added one; the others are as they
      were, hence apart; and those before `r` are apart from `hot` as well. */
  predicate Merging(rs: seq<Range>, hot: int, r: int) {
    0 <= hot < |rs| && AllProper(rs) && ApartBut(rs, hot) && FirstApartFrom(rs, r, hot)
  }

  /** A merge in the inner loop always involves `hot`, and its result is the new `hot`. */
  lemma MergeStep(rs: seq<Range>, hot: int, r: nat, m: nat)
    requires Merging(rs, hot, r) && r < |rs| && m < |rs| && r != m && Touch(rs[r], rs[m])
    ensures Merging(Merged(rs, r, m), Shifted(r, m), Shifted(r, m))
    ensures hot == r || hot == m
  {
  }

  class RangeList {
    var nodes: map<Ref, Node<Range>>
    /** The nodes between the sentinels, and their ranges. */
    ghost var order: seq<Ref>
    ghost var ranges: seq<Range>

    ghost predicate Chained()
      reads this
    {
      Linked(nodes, order, ranges)
    }

    ghost predicate Valid()
      reads this
    {
      Chained() && AllProper(ranges) && Apart(ranges)
    }

    constructor ()
      ensures Valid() && ranges == []
    {
      nodes := map[Head := Node(Range(0, 0), Tail, Null), Tail := Node(Range(0, 0), Null, Head)];
      order, ranges := [], [];
    }

    /** delete_range: two stores and the release of the node. The answer is the node behind it. */
    method DeleteRange(r: Ref, ghost k: nat) returns (n: Ref)
      requires Chained() && k < |order| && r == order[k]
      modifies this
      ensures Chained() && order == Without(old(order), k) && ranges == Without(old(ranges), k) && n == RefAt(order, k)
      ensures nodes.Keys <= old(nodes.Keys)
    {
      DeletedLinked(nodes, order, ranges, k);
      Neighbours(nodes, order, ranges, k);
      ghost var after := Deleted(nodes, r);
      nodes := nodes[nodes[r].prev := nodes[nodes[r].prev].(next := nodes[r].next)];
      nodes := nodes[nodes[r].next := nodes[nodes[r].next].(prev := nodes[r].prev)];
      n := nodes[r].next;
      nodes := nodes - {r};
      assert nodes == after;
      order, ranges := Without(order, k), Without(ranges, k);
    }

    /** The stores that link a new node `a` before the node `b`. The allocator gives `a`. */
    method LinkBefore(a: Ref, b: Ref, x: Range, ghost k: nat)
      requires Chained() && k <= |order| && b == RefAt(order, k) && a.At? && a !in nodes
      modifies this
      ensures Chained() && order == WithAt(old(order), k, a) && ranges == WithAt(old(ranges), k, x)
      ensures nodes.Keys == old(nodes.Keys) + {a}
    {
      InsertedLinked(nodes, order, ranges, k, a, x);
      RangeNodes.Place(nodes, order, ranges, k);
      ghost var after := Inserted(nodes, a, b, x);
      nodes := nodes[a := Node(x, b, nodes[b].prev)];
      nodes := nodes[nodes[b].prev := nodes[nodes[b].prev].(next := a)];
      nodes := nodes[b := nodes[b].(prev := a)];
      assert nodes == after;
      order, ranges := WithAt(order, k, a), WithAt(ranges, k, x);
    }

    method SetRange(r: Ref, x: Range, ghost k: nat)
      requires Chained() && k < |order| && r == order[k]
      modifies this
      ensures Chained() && order == old(order) && ranges == old(ranges)[k := x] && nodes.Keys == old(nodes.Keys)
    {
      SetLinked(nodes, order, ranges, k, x);
      nodes := nodes[r := nodes[r].(rang := x)];
      ranges := ranges[k := x];
    }

    /** The node behind the one at `i`; the head is at -1. */
    method Next(r: Ref, ghost i: int) returns (n: Ref)
      requires Chained() && -1 <= i < |order| && r == RefAt(order, i)
      ensures n == RefAt(order, i + 1)
    {
      Walk(nodes, order, ranges, i);
      n := nodes[r].next;
    }

    function RangeOf(r: Ref, ghost i: nat): (x: Range)
      requires Chained() && i < |order| && r == order[i]
      reads this
      ensures x == ranges[i]
    {
      nodes[r].rang
    }

    method IsBound(value: int) returns (bound: bool)
      requires Chained()
      ensures bound == Bound(ranges, value)
    {
      var r := Next(Head, -1);
      ghost var i := 0;
      while r != Tail
        invariant 0 <= i <= |order| && r == RefAt(order, i)
        invariant forall k | 0 <= k < i :: !Holds(ranges[k], value)
        decreases |order| - i
      {
        var x := RangeOf(r, i);
        if value >= x.start && value < x.end { return true; }
        r := Next(r, i);
        i := i + 1;
      }
      bound := false;
    }

    /** add: the union of the points, and one nested pass of merging is enough to leave the
        stored ranges pairwise apart. A reversed range adds no point; it takes away exactly the
        points of the first stored range with one of its ends, unless that range has its start.
        The allocator gives `inserted`. */
    method Add(start: int, end: int, inserted: Ref)
      requires Valid() && inserted.At? && inserted !in nodes
      modifies this
      ensures Chained()
      ensures start <= end ==> Valid() && forall v :: Bound(ranges, v) <==> Bound(old(ranges), v) || start <= v < end
      ensures start > end ==> forall v :: Bound(ranges, v) <==> Bound(old(ranges), v) && !Lost(old(ranges), Range(start, end), v)
      ensures start > end ==> (SamePoints(ranges, old(ranges)) <==> Harmless(old(ranges), Range(start, end)))
    {
      ghost var before := ranges;
      var x := Range(start, end);
      LinkBefore(inserted, Tail, x, |order|);
      ghost var hot, i := |before|, 0;
      AddingStarts(before, x);
      var result := Next(Head, -1);
      while result != Tail
        invariant Chained() && 0 <= i <= |ranges| && result == RefAt(order, i)
        invariant Adding(before, x, ranges, hot, i)
        decreases |ranges| - i
      {
        ghost var lone, t, u := AddingTurn(before, x, ranges, hot, i);
        i, hot := MergeInto(result, i, hot, lone, t, u);
        result := Next(result, i);
        i := i + 1;
      }
      AddingDone(before, x, ranges, hot);
    }

    /** The inner loop: every range that touches the one at `result` is merged into it, as they
        are met from the head of the list. If that is only the one at `t` (none if t is -1), it is
        taken out and the one at `result` becomes `u`. */
    method MergeInto(result: Ref, ghost i0: nat, ghost hot0: int, ghost lone: bool, ghost t: int, ghost u: Range) returns (ghost i: int, ghost hot: int)
      requires Chained() && i0 < |ranges| && result == order[i0]
      requires MergeStarts(ranges, i0, hot0, lone, t, u)
      modifies this
      ensures Chained() && 0 <= i < |ranges| && |ranges| - i <= old(|ranges|) - i0 && result == order[i]
      ensures MergeEnds(old(ranges), i0, ranges, i, hot, lone, t, u)
    {
      i, hot := i0, hot0;
      var merged := Next(Head, -1);
      ghost var j, met := 0, false;
      while merged != Tail
        invariant Chained() && 0 <= i < |ranges| && 0 <= j <= |ranges| && result == order[i] && merged == RefAt(order, j)
        invariant Inner(old(ranges), i0, ranges, i, j, hot, lone, t, u, met)
        decreases |ranges| - j
      {
        merged, i, j, hot, met := MergeTurn(result, merged, i, j, hot, old(ranges), i0, lone, t, u, met);
      }
    }

    method MergeTurn(result: Ref, merged: Ref, ghost i: nat, ghost j: nat, ghost hot: int, ghost before: seq<Range>, ghost i0: nat,
                     ghost lone: bool, ghost t: int, ghost u: Range, ghost met: bool)
      returns (n: Ref, ghost i': int, ghost j': int, ghost hot': int, ghost met': bool)
      requires Chained() && i < |order| && j < |order| && result == order[i] && merged == order[j]
      requires Inner(before, i0, ranges, i, j, hot, lone, t, u, met)
      modifies this
      ensures Chained() && 0 <= i' < |order| && result == order[i'] && 0 <= j' <= |order| && n == RefAt(order, j')
      ensures |ranges| - j' < old(|ranges|) - j && Inner(before, i0, ranges, i', j', hot', lone, t, u, met')
    {
      i', j', hot', met' := i, j + 1, hot, met;
      RefsDiffer(order, i, j);
      if result == merged {
        n := Next(merged, j);
        return;
      }
      InnerStep(before, i0, ranges, i, j, hot, lone, t, u, met);
      var related, union := TryMerge(RangeOf(result, i), RangeOf(merged, j));
      if related {
        n := Absorb(result, merged, union, i, j);
        i', j', hot', met' := Shifted(i, j), j, Shifted(i, j), true;
      } else {
        n := Next(merged, j);
      }
    }

    /** The result takes the union and the merged range is deleted. */
    method Absorb(result: Ref, merged: Ref, union: Range, ghost i: nat, ghost j: nat) returns (n: Ref)
      requires Chained() && i < |order| && j < |order| && i != j && result == order[i] && merged == order[j]
      modifies this
      ensures Chained() && ranges == Without(old(ranges)[i := union], j) && n == RefAt(order, j)
      ensures 0 <= Shifted(i, j) < |order| && order[Shifted(i, j)] == result
    {
      SetRange(result, union, i);
      n := DeleteRange(merged, j);
    }

    /** remove: the difference of the points. The stored ranges stay apart, except that removing
        an empty range from inside a stored one cuts it in two that touch. A reversed range cuts
        the stored range with its start from there on, and the one with its end up to there,
        unless that is the same range. The allocator gives `firstHalf`, if it is needed. */
    method Remove(start: int, end: int, firstHalf: Ref)
      requires Valid() && firstHalf.At? && firstHalf !in nodes
      modifies this
      ensures Chained()
      ensures start <= end ==> forall v :: Bound(ranges, v) <==> Bound(old(ranges), v) && !(start <= v < end)
      ensures start <= end ==> AllProper(ranges) && (Apart(ranges) <==> start < end || !Bound(old(ranges), start))
      ensures start > end ==> forall v :: Bound(ranges, v) <==> Bound(old(ranges), v) && !Trimmed(old(ranges), start, end, v)
      ensures start > end ==> (SamePoints(ranges, old(ranges)) <==> Untrimmed(old(ranges), start, end))
    {
      var r := Next(Head, -1);
      ghost var i, before := 0, ranges;
      while r != Tail
        invariant Chained() && 0 <= i <= |ranges| && r == RefAt(order, i) && firstHalf !in nodes
        invariant Removing(before, ranges, i, start, end)
        decreases |ranges| - i
      {
        var split;
        r, i, split := RemoveFrom(r, start, end, firstHalf, i, before);
        if split { return; }
      }
      RemovingDone(before, ranges, start, end);
    }

    /** One turn of the loop: the range at `r` is deleted, shortened, kept, or split. */
    method RemoveFrom(r: Ref, start: int, end: int, firstHalf: Ref, ghost i: nat, ghost before: seq<Range>) returns (n: Ref, ghost i': nat, split: bool)
      requires Chained() && i < |order| && r == order[i] && firstHalf.At? && firstHalf !in nodes
      requires Removing(before, ranges, i, start, end)
      modifies this
      ensures Chained()
      ensures if split then Cut(before, ranges, start, end)
              else Removing(before, ranges, i', start, end) && n == RefAt(order, i') && i' <= |ranges|
                   && |ranges| - i' < old(|ranges|) - i && firstHalf !in nodes
    {
      var x := RangeOf(r, i);
      split := false;
      if start <= x.start && end >= x.end {
        RemovingAway(before, ranges, i, start, end);
        n := DeleteRange(r, i);
        return n, i, false;
      }
      var startBound := start >= x.start && start < x.end;
      var endBound := end >= x.start && end < x.end;
      if startBound && endBound {
        RemovingSplits(before, ranges, i, start, end);
        Split(r, x, start, end, firstHalf, i);
        return r, i, true;
      }
      n := Shorten(r, start, end, startBound, endBound, i, before);
      i' := i + 1;
    }

    method Shorten(r: Ref, start: int, end: int, startBound: bool, endBound: bool, ghost i: nat, ghost before: seq<Range>) returns (n: Ref)
      requires Chained() && i < |order| && r == order[i] && Removing(before, ranges, i, start, end)
      requires startBound == Holds(ranges[i], start) && endBound == Holds(ranges[i], end) && !(startBound && endBound)
      requires !(start <= ranges[i].start && ranges[i].end <= end)
      modifies this
      ensures Chained() && order == old(order) && nodes.Keys == old(nodes.Keys)
      ensures Removing(before, ranges, i + 1, start, end) && n == RefAt(order, i + 1)
    {
      RemovingTo(before, ranges, i, start, end);
      var x := RangeOf(r, i);
      if startBound {
        SetRange(r, Range(x.start, start), i);
      } else if endBound {
        SetRange(r, Range(end, x.end), i);
      }
      n := Next(r, i);
    }

    method Split(r: Ref, x: Range, start: int, end: int, firstHalf: Ref, ghost k: nat)
      requires Chained() && k < |order| && r == order[k] && firstHalf.At? && firstHalf !in nodes
      modifies this
      ensures Chained() && ranges == Replaced(old(ranges), k, [Range(x.start, start), Range(end, x.end)])
    {
      SplitShape(ranges, k, Range(x.start, start), Range(end, x.end));
      LinkBefore(firstHalf, r, Range(x.start, start), k);
      SetRange(r, Range(end, x.end), k + 1);
    }
  }

  lemma SplitShape(rs: seq<Range>, k: nat, a: Range, b: Range)
    requires k < |rs|
    ensures WithAt(rs, k, a)[k + 1 := b] == Replaced(rs, k, [a, b])
  {
  }

  // ----- The loops of add -----

  /** The list while it is scanned for the range at `i`, and once it has been. */
  ghost predicate MergeStarts(rs: seq<Range>, i: nat, hot: int, lone: bool, t: int, u: Range) {
    if lone then Lone(rs, i, t, u) else Merging(rs, hot, i)
  }

  ghost predicate MergeEnds(rs0: seq<Range>, i0: nat, rs: seq<Range>, i: int, hot: int, lone: bool, t: int, u: Range)
    requires i0 < |rs0|
  {
    if lone then t < |rs0| && rs == LoneMerged(rs0, i0, t, u) && i == LoneIndex(i0, t)
    else Merging(rs, hot, i + 1) && SamePoints(rs, rs0)
  }

  ghost predicate Inner(rs0: seq<Range>, i0: nat, rs: seq<Range>, i: int, j: int, hot: int, lone: bool, t: int, u: Range, met: bool) {
    && 0 <= i < |rs| && 0 <= j <= |rs| && |rs| - i <= |rs0| - i0
    && if lone then LoneAt(rs0, i0, t, u, rs, i, j, met)
       else Merging(rs, hot, i) && SamePoints(rs, rs0) && (hot != i && hot < j ==> !Touch(rs[hot], rs[i]))
  }

  lemma InnerStep(rs0: seq<Range>, i0: nat, rs: seq<Range>, i: int, j: int, hot: int, lone: bool, t: int, u: Range, met: bool)
    requires Inner(rs0, i0, rs, i, j, hot, lone, t, u, met) && j < |rs| && i != j
    ensures match Combined(rs[i], rs[j])
            case None => Inner(rs0, i0, rs, i, j + 1, hot, lone, t, u, met)
            case Some(union) => Inner(rs0, i0, Without(rs[i := union], j), Shifted(i, j), j, Shifted(i, j), lone, t, u, true)
  {
    if lone {
    } else {
      if Touch(rs[i], rs[j]) {
        MergeStep(rs, hot, i, j);
        MergeKeepsPoints(rs, i, j);
      }
    }
  }

  /** The outer loop: `x` was appended to `before` and the first `i` ranges have had their turn. */
  ghost predicate Adding(before: seq<Range>, x: Range, rs: seq<Range>, hot: int, i: int) {
    && AllProper(before) && Apart(before)
    && if Proper(x) then Merging(rs, hot, i) && SamePoints(rs, before + [x]) else Passed(rs, before, x, i)
  }

  lemma AddingStarts(before: seq<Range>, x: Range)
    requires AllProper(before) && Apart(before)
    ensures Adding(before, x, before + [x], |before|, 0) && WithAt(before, |before|, x) == before + [x]
  {
    if Proper(x) { AddedPoints(before, x); }
  }

  lemma AddingTurn(before: seq<Range>, x: Range, rs: seq<Range>, hot: int, i: nat) returns (lone: bool, t: int, u: Range)
    requires Adding(before, x, rs, hot, i) && i < |rs|
    ensures MergeStarts(rs, i, hot, lone, t, u)
    ensures forall rs', i', hot' :: MergeEnds(rs, i, rs', i', hot', lone, t, u) ==> Adding(before, x, rs', hot', i' + 1)
  {
    lone, t, u := !Proper(x), -1, x;
    if lone { t, u := PassedNext(rs, before, x, i); }
  }

  lemma AddingDone(before: seq<Range>, x: Range, rs: seq<Range>, hot: int)
    requires Adding(before, x, rs, hot, |rs|)
    ensures Proper(x) ==> AllProper(rs) && Apart(rs) && forall v :: Bound(rs, v) <==> Bound(before, v) || Holds(x, v)
    ensures !Proper(x) ==> forall v :: Bound(rs, v) <==> Bound(before, v) && !Lost(before, x, v)
    ensures !Proper(x) ==> (SamePoints(rs, before) <==> Harmless(before, x))
  {
    if Proper(x) { AddedPoints(before, x); } else { PassedAll(rs, before, x); }
  }

  // ----- The loop of remove -----

  ghost predicate Removing(before: seq<Range>, rs: seq<Range>, i: int, start: int, end: int) {
    && 0 <= i <= |rs| && AllProper(before) && Apart(before)
    && if start <= end then AllProper(rs) && Apart(rs) && Cutting(before, rs, i, start, end)
       else Trimming(before, rs, i, start, end)
  }

  /** What remove leaves. */
  ghost predicate Cut(before: seq<Range>, rs: seq<Range>, start: int, end: int) {
    if start <= end then
      && (forall v :: Bound(rs, v) <==> Bound(before, v) && !(start <= v < end))
      && AllProper(rs) && (Apart(rs) <==> start < end || !Bound(before, start))
    else
      && (forall v :: Bound(rs, v) <==> Bound(before, v) && !Trimmed(before, start, end, v))
      && (SamePoints(rs, before) <==> Untrimmed(before, start, end))
  }

  lemma RemovingAway(before: seq<Range>, rs: seq<Range>, i: nat, start: int, end: int)
    requires Removing(before, rs, i, start, end) && i < |rs| && start <= rs[i].start && rs[i].end <= end
    ensures Removing(before, Without(rs, i), i, start, end)
  {
    if start <= end { CutAway(before, rs, i, start, end); }
  }

  lemma RemovingTo(before: seq<Range>, rs: seq<Range>, i: nat, start: int, end: int)
    requires Removing(before, rs, i, start, end) && i < |rs|
    requires !(start <= rs[i].start && rs[i].end <= end) && !HasBoth(rs[i], start, end)
    ensures Removing(before, rs[i := Trim(rs[i], start, end)], i + 1, start, end)
  {
    if start <= end { CutTo(before, rs, i, Trim(rs[i], start, end), start, end); }
  }

  lemma RemovingSplits(before: seq<Range>, rs: seq<Range>, i: nat, start: int, end: int)
    requires Removing(before, rs, i, start, end) && i < |rs| && HasBoth(rs[i], start, end)
    ensures Cut(before, Replaced(rs, i, [Range(rs[i].start, start), Range(end, rs[i].end)]), start, end)
  {
    if start <= end { SplitStep(before, rs, i, start, end); } else { OverlapStep(before, rs, i, start, end); }
  }

  lemma RemovingDone(before: seq<Range>, rs: seq<Range>, start: int, end: int)
    requires Removing(before, rs, |rs|, start, end)
    ensures Cut(before, rs, start, end)
  {
    if start > end { TrimDone(before, rs, start, end); }
  }

  /** The range at `k` replaced by the pieces `p`. */
  function Replaced(rs: seq<Range>, k: nat, p: seq<Range>): seq<Range>
    requires k < |rs|
  {
    rs[..k] + p + rs[k + 1..]
  }

  lemma ReplacedAt(rs: seq<Range>, k: nat, p: seq<Range>)
    requires k < |rs|
    ensures |Replaced(rs, k, p)| == |rs| - 1 + |p|
    ensures forall i | 0 <= i < |Replaced(rs, k, p)| :: Replaced(rs, k, p)[i] ==
              if i < k then rs[i] else if i < k + |p| then p[i - k] else rs[i - |p| + 1]
  {
  }

  /** The pieces hold the points of `x` outside the cut. */
  ghost predicate IsCut(x: Range, p: seq<Range>, start: int, end: int) {
    && (forall i | 0 <= i < |p| :: Proper(p[i]) && x.start <= p[i].start && p[i].end <= x.end)
    && (forall v :: Bound(p, v) <==> Holds(x, v) && !(start <= v < end))
  }

  lemma OnePiece(x: Range, y: Range, start: int, end: int)
    requires Proper(y) && x.start <= y.start && y.end <= x.end
    requires forall v :: Holds(y, v) <==> Holds(x, v) && !(start <= v < end)
    ensures IsCut(x, [y], start, end)
  {
    forall v ensures Bound([y], v) <==> Holds(y, v) {
      if Holds(y, v) { assert Holds([y][0], v); }
    }
  }

  /** The loop of remove: nothing outside the cut is lost, nothing appears, and the first `n`
      ranges hold nothing of the cut. */
  ghost predicate Cutting(old_: seq<Range>, rs: seq<Range>, n: int, start: int, end: int)
    requires 0 <= n <= |rs|
  {
    && (forall v :: Bound(rs, v) ==> Bound(old_, v))
    && (forall v :: Bound(old_, v) && !(start <= v < end) ==> Bound(rs, v))
    && (forall i, v | 0 <= i < n && Holds(rs[i], v) :: !(start <= v < end))
    && (start == end ==> forall i | 0 <= i < n :: !Holds(rs[i], start))
  }

  lemma ReplacedBound(rs: seq<Range>, k: nat, p: seq<Range>, start: int, end: int, v: int)
    requires k < |rs| && IsCut(rs[k], p, start, end)
    ensures Bound(Replaced(rs, k, p), v) ==> Bound(rs, v)
    ensures Bound(rs, v) && !(start <= v < end) ==> Bound(Replaced(rs, k, p), v)
  {
    ReplacedAt(rs, k, p);
    var l := Replaced(rs, k, p);
    if Bound(l, v) {
      var i :| 0 <= i < |l| && Holds(l[i], v);
      if i < k { assert Holds(rs[i], v); }
      else if i < k + |p| { assert Holds(p[i - k], v); assert Bound(p, v); assert Holds(rs[k], v); }
      else { assert Holds(rs[i - |p| + 1], v); }
    }
    if Bound(rs, v) && !(start <= v < end) {
      var i :| 0 <= i < |rs| && Holds(rs[i], v);
      if i < k { assert Holds(l[i], v); }
      else if i == k { var j :| 0 <= j < |p| && Holds(p[j], v); assert Holds(l[k + j], v); }
      else { assert Holds(l[i + |p| - 1], v); }
    }
  }

  /** Putting one piece, or none, in place of a range. */
  lemma CutStep(old_: seq<Range>, rs: seq<Range>, k: nat, p: seq<Range>, start: int, end: int)
    requires k < |rs| && AllProper(rs) && Apart(rs) && Cutting(old_, rs, k, start, end)
    requires |p| <= 1 && IsCut(rs[k], p, start, end) && (start == end && |p| == 1 ==> !Holds(p[0], start))
    ensures var l := Replaced(rs, k, p);
            |l| == |rs| - 1 + |p| && AllProper(l) && Apart(l) && Cutting(old_, l, k + |p|, start, end)
    ensures |p| == 0 ==> Replaced(rs, k, p) == Without(rs, k)
    ensures |p| == 1 ==> Replaced(rs, k, p) == rs[k := p[0]]
  {
    ReplacedAt(rs, k, p);
    CutPoints(old_, rs, k, p, start, end);
  }

  lemma CutAway(old_: seq<Range>, rs: seq<Range>, k: nat, start: int, end: int)
    requires k < |rs| && Proper(rs[k]) && start <= rs[k].start && rs[k].end <= end
    requires AllProper(rs) && Apart(rs) && Cutting(old_, rs, k, start, end)
    ensures |Without(rs, k)| == |rs| - 1 && AllProper(Without(rs, k)) && Apart(Without(rs, k)) && Cutting(old_, Without(rs, k), k, start, end)
  {
    CutStep(old_, rs, k, [], start, end);
  }

  lemma CutTo(old_: seq<Range>, rs: seq<Range>, k: nat, y: Range, start: int, end: int)
    requires k < |rs| && AllProper(rs) && Apart(rs) && Cutting(old_, rs, k, start, end)
    requires Proper(y) && rs[k].start <= y.start && y.end <= rs[k].end
    requires forall v :: Holds(y, v) <==> Holds(rs[k], v) && !(start <= v < end)
    requires start == end ==> !Holds(y, start)
    ensures AllProper(rs[k := y]) && Apart(rs[k := y]) && Cutting(old_, rs[k := y], k + 1, start, end)
  {
    OnePiece(rs[k], y, start, end);
    CutStep(old_, rs, k, [y], start, end);
  }

  lemma CutPoints(old_: seq<Range>, rs: seq<Range>, k: nat, p: seq<Range>, start: int, end: int)
    requires k < |rs| && Cutting(old_, rs, k, start, end)
    requires |p| <= 1 && IsCut(rs[k], p, start, end) && (start == end && |p| == 1 ==> !Holds(p[0], start))
    ensures |Replaced(rs, k, p)| == |rs| - 1 + |p| && Cutting(old_, Replaced(rs, k, p), k + |p|, start, end)
  {
    ReplacedAt(rs, k, p);
    forall v ensures Bound(Replaced(rs, k, p), v) ==> Bound(old_, v)
             ensures Bound(old_, v) && !(start <= v < end) ==> Bound(Replaced(rs, k, p), v)
    {
      ReplacedBound(rs, k, p, start, end, v);
    }
    if |p| == 1 {
      forall v | Holds(p[0], v) ensures !(start <= v < end) { assert Bound(p, v); }
    }
  }

  /** Cutting a range in the middle: everything else is outside the cut already. */
  lemma SplitStep(old_: seq<Range>, rs: seq<Range>, k: nat, start: int, end: int)
    requires k < |rs| && AllProper(rs) && Apart(rs) && Cutting(old_, rs, k, start, end)
    requires rs[k].start <= start <= end < rs[k].end
    ensures var l := Replaced(rs, k, [Range(rs[k].start, start), Range(end, rs[k].end)]);
            && AllProper(l)
            && (forall v :: Bound(l, v) <==> Bound(old_, v) && !(start <= v < end))
            && (Apart(l) <==> start < end)
    ensures Bound(old_, start)
  {
    var x := rs[k];
    var p := [Range(x.start, start), Range(end, x.end)];
    var l := Replaced(rs, k, p);
    ReplacedAt(rs, k, p);
    forall v ensures Bound(p, v) <==> Holds(x, v) && !(start <= v < end) {
      if Holds(x, v) && v < start { assert Holds(p[0], v); }
      if Holds(x, v) && v >= end { assert Holds(p[1], v); }
    }
    forall v ensures Bound(l, v) <==> Bound(old_, v) && !(start <= v < end) {
      ReplacedBound(rs, k, p, start, end, v);
    }
    SplitApart(rs, k, start, end);
    assert Holds(x, start);
  }

  lemma SplitApart(rs: seq<Range>, k: nat, start: int, end: int)
    requires k < |rs| && AllProper(rs) && Apart(rs) && rs[k].start <= start <= end < rs[k].end
    ensures Apart(Replaced(rs, k, [Range(rs[k].start, start), Range(end, rs[k].end)])) <==> start < end
  {
    var p := [Range(rs[k].start, start), Range(end, rs[k].end)];
    var l := Replaced(rs, k, p);
    ReplacedAt(rs, k, p);
    if start == end { assert Touch(l[k], l[k + 1]); }
    else {
      forall i, j | 0 <= i < |l| && 0 <= j < |l| && i != j ensures !Touch(l[i], l[j]) {
        var a, b := if i <= k then i else i - 1, if j <= k then j else j - 1;
        assert a != b ==> !Touch(rs[a], rs[b]);
      }
    }
  }

  /** What the removal of a reversed range makes of a stored one, unless it has both ends. */
  function Trim(x: Range, start: int, end: int): Range {
    if Holds(x, start) then Range(x.start, start) else if Holds(x, end) then Range(end, x.end) else x
  }

  predicate HasBoth(x: Range, start: int, end: int) {
    Holds(x, start) && Holds(x, end)
  }

  /** The removal of a reversed range takes the point `v` away. */
  predicate Trimmed(rs: seq<Range>, start: int, end: int, v: int) {
    exists i | 0 <= i < |rs| :: Holds(rs[i], v) && !HasBoth(rs[i], start, end) && !Holds(Trim(rs[i], start, end), v)
  }

  /** A stored range with one end has the other as well, or begins with the end. */
  predicate Untrimmed(rs: seq<Range>, start: int, end: int) {
    forall i | 0 <= i < |rs| && (Holds(rs[i], start) || Holds(rs[i], end)) :: HasBoth(rs[i], start, end) || rs[i].start == end
  }

  predicate Trimming(old_: seq<Range>, rs: seq<Range>, n: int, start: int, end: int) {
    && |rs| == |old_|
    && (forall i | 0 <= i < |rs| :: rs[i] == if i < n then Trim(old_[i], start, end) else old_[i])
    && (forall i | 0 <= i < n && i < |rs| :: !HasBoth(old_[i], start, end))
  }

  lemma TrimDone(old_: seq<Range>, rs: seq<Range>, start: int, end: int)
    requires AllProper(old_) && Apart(old_) && start > end && Trimming(old_, rs, |rs|, start, end)
    ensures forall v :: Bound(rs, v) <==> Bound(old_, v) && !Trimmed(old_, start, end, v)
    ensures SamePoints(rs, old_) <==> Untrimmed(old_, start, end)
  {
    forall v ensures Bound(rs, v) <==> Bound(old_, v) && !Trimmed(old_, start, end, v) {
    }
    TrimHarm(old_, start, end);
  }

  lemma TrimHarm(rs: seq<Range>, start: int, end: int)
    requires start > end
    ensures (forall v :: Bound(rs, v) ==> !Trimmed(rs, start, end, v)) <==> Untrimmed(rs, start, end)
  {
    if !Untrimmed(rs, start, end) {
      var i :| 0 <= i < |rs| && (Holds(rs[i], start) || Holds(rs[i], end)) && !HasBoth(rs[i], start, end) && rs[i].start != end;
      var v := if Holds(rs[i], start) then start else rs[i].start;
      assert Holds(rs[i], v) && !Holds(Trim(rs[i], start, end), v);
      assert Bound(rs, v) && Trimmed(rs, start, end, v);
    }
  }

  /** A stored range with both ends of a reversed one is split in two that overlap. */
  lemma OverlapStep(old_: seq<Range>, rs: seq<Range>, k: nat, start: int, end: int)
    requires AllProper(old_) && Apart(old_) && start > end && k < |rs| && Trimming(old_, rs, k, start, end) && HasBoth(rs[k], start, end)
    ensures var l := Replaced(rs, k, [Range(rs[k].start, start), Range(end, rs[k].end)]);
            forall v :: Bound(l, v) <==> Bound(old_, v) && !Trimmed(old_, start, end, v)
    ensures SamePoints(Replaced(rs, k, [Range(rs[k].start, start), Range(end, rs[k].end)]), old_) <==> Untrimmed(old_, start, end)
  {
    forall i | 0 <= i < |old_| && i != k ensures !Holds(old_[i], start) && !Holds(old_[i], end) {
      assert !Touch(old_[i], old_[k]);
    }
    assert rs == old_;
    forall v ensures Bound(Replaced(rs, k, [Range(rs[k].start, start), Range(end, rs[k].end)]), v) <==> Bound(rs, v) {
      OverlapPoint(rs, k, start, end, v);
    }
  }

  lemma OverlapPoint(rs: seq<Range>, k: nat, start: int, end: int, v: int)
    requires k < |rs| && start > end && HasBoth(rs[k], start, end)
    ensures Bound(Replaced(rs, k, [Range(rs[k].start, start), Range(end, rs[k].end)]), v) <==> Bound(rs, v)
  {
    var p := [Range(rs[k].start, start), Range(end, rs[k].end)];
    var l := Replaced(rs, k, p);
    ReplacedAt(rs, k, p);
    if Bound(l, v) {
      var i :| 0 <= i < |l| && Holds(l[i], v);
      assert Holds(rs[if i <= k then i else i - 1], v);
    }
    if Bound(rs, v) {
      var i :| 0 <= i < |rs| && Holds(rs[i], v);
      assert Holds(l[if i < k || (i == k && v < start) then i else i + 1], v);
    }
  }

  /** The three tests of the inner loop for a range `m` against the range `r`: what `r` becomes if
      they are merged, for ranges of any kind. */
  function Combined(r: Range, m: Range): Option<Range> {
    if m.start >= r.start && m.start <= r.end then Some(if m.end > r.end then Range(r.start, m.end) else r)
    else if m.end >= r.start && m.end <= r.end then Some(Range(m.start, r.end))
    else if m.start <= r.start && m.end >= r.end then Some(m)
    else None
  }

  /** The tests find exactly the ranges that touch, and the ends they set are those of the hull. */
  method TryMerge(r: Range, m: Range) returns (related: bool, union: Range)
    ensures related == Combined(r, m).Some? && (related ==> Combined(r, m) == Some(union))
    ensures Proper(r) && Proper(m) ==> related == Touch(r, m) && (related ==> union == Hull(r, m))
  {
    related, union := true, r;
    if m.start >= r.start && m.start <= r.end {
      if m.end > r.end { union := Range(r.start, m.end); }
    } else if m.end >= r.start && m.end <= r.end {
      union := Range(m.start, r.end);
    } else if m.start <= r.start && m.end >= r.end {
      union := Range(m.start, m.end);
    } else {
      related := false;
    }
  }

  /** A reversed range is merged into a range that contains either of its ends. The range keeps its
      points exactly if it contains the start or had none; otherwise it loses all of them. */
  lemma ReversedMerge(r: Range, m: Range)
    requires Proper(r) && m.start > m.end
    ensures Combined(r, m).Some? <==> r.start <= m.start <= r.end || r.start <= m.end <= r.end
    ensures Combined(r, m).Some? ==>
              ((forall v :: Holds(Combined(r, m).value, v) <==> Holds(r, v)) <==> r.start <= m.start <= r.end || r.start == r.end)
    ensures Combined(r, m).Some? && !(r.start <= m.start <= r.end) ==> forall v :: !Holds(Combined(r, m).value, v)
  {
    if Combined(r, m).Some? && !(r.start <= m.start <= r.end) && r.start < r.end { assert Holds(r, r.start); }
  }

  predicate Inside(x: Range, v: int) {
    x.start <= v <= x.end
  }

  predicate HasEnd(x: Range, r: Range) {
    Inside(x, r.start) || Inside(x, r.end)
  }

  /** The first stored range that contains an end of `r`, or the length if there is none. */
  function First(rs: seq<Range>, r: Range): (f: nat)
    ensures f <= |rs| && (f < |rs| ==> HasEnd(rs[f], r))
    ensures forall i | 0 <= i < f :: !HasEnd(rs[i], r)
  {
    if rs == [] || HasEnd(rs[0], r) then 0 else 1 + First(rs[1..], r)
  }

  /** Adding the reversed range `r` takes the point `v` away. */
  predicate Lost(rs: seq<Range>, r: Range, v: int) {
    var f := First(rs, r);
    f < |rs| && !Inside(rs[f], r.start) && Holds(rs[f], v)
  }

  predicate Harmless(rs: seq<Range>, r: Range) {
    var f := First(rs, r);
    f < |rs| && !Inside(rs[f], r.start) ==> rs[f].start == rs[f].end
  }

  /** Scanning the list for the range at `r`, the first it combines with is the one at `t`, giving
      `u`, and `u` combines with none behind it. With t == -1 there is none at all. */
  predicate Lone(rs: seq<Range>, r: nat, t: int, u: Range) {
    && r < |rs| && -1 <= t < |rs| && t != r
    && (forall i | 0 <= i < |rs| && i != r && (t == -1 || i < t) :: Combined(rs[r], rs[i]).None?)
    && (t >= 0 ==> Combined(rs[r], rs[t]) == Some(u))
    && (t >= 0 ==> forall i | t < i < |rs| && i != r :: Combined(u, rs[i]).None?)
  }

  function LoneMerged(rs: seq<Range>, r: nat, t: int, u: Range): seq<Range>
    requires r < |rs| && t < |rs|
  {
    if t < 0 then rs else Without(rs[r := u], t)
  }

  function LoneIndex(r: nat, t: int): int {
    if t < 0 then r else Shifted(r, t)
  }

  /** The inner loop before and after it has met the range at `t`. */
  predicate LoneAt(rs: seq<Range>, r: nat, t: int, u: Range, now: seq<Range>, result: int, merged: int, met: bool) {
    && Lone(rs, r, t, u)
    && (if met then t >= 0 && now == LoneMerged(rs, r, t, u) && result == Shifted(r, t) && merged >= t
        else now == rs && result == r && (t >= 0 ==> merged <= t))
  }

  /** The outer loop of an add of a reversed `r` before the range at `k`: `r` is at the end until it
      meets the first range with one of its ends. That range stays if it has the start of `r`, and
      is itself reversed otherwise, until a later range swallows it. */
  predicate Passed(now: seq<Range>, rs: seq<Range>, r: Range, k: int) {
    var f := First(rs, r);
    if k <= f && k < |rs| then now == rs + [r]
    else if f == |rs| then now == rs + [r] || (k == |rs| && exists t | 0 <= t < |rs| :: now == Moved(rs, t))
    else if Inside(rs[f], r.start) then now == rs
    else now == rs[f := Range(r.start, rs[f].end)] || now == Without(rs, f)
  }

  function Moved(rs: seq<Range>, t: nat): seq<Range>
    requires t < |rs|
  {
    Without(rs, t) + [rs[t]]
  }

  /** Ranges that are apart and proper combine with none. */
  lemma ApartIsLone(rs: seq<Range>, k: nat, r: Range)
    requires AllProper(rs) && Apart(rs) && k < |rs|
    ensures Lone(rs, k, -1, r)
  {
    forall i | 0 <= i < |rs| && i != k ensures Combined(rs[k], rs[i]).None? {
      assert !Touch(rs[k], rs[i]);
    }
  }

  lemma MetIsLone(rs: seq<Range>, r: Range, k: nat) returns (u: Range)
    requires AllProper(rs) && Apart(rs) && r.start > r.end && k < |rs| && HasEnd(rs[k], r)
    ensures u == if Inside(rs[k], r.start) then rs[k] else Range(r.start, rs[k].end)
    ensures Lone(rs + [r], k, |rs|, u) && LoneMerged(rs + [r], k, |rs|, u) == rs[k := u]
  {
    ApartIsLone(rs, k, r);
    u := if Inside(rs[k], r.start) then rs[k] else Range(r.start, rs[k].end);
  }

  /** The range at `f` was reversed by `r`; the one at `k` swallows it if it has the start of `r`. */
  lemma ReversedIsLone(rs: seq<Range>, r: Range, f: nat, k: nat) returns (t: int)
    requires AllProper(rs) && Apart(rs) && f < k < |rs| && r.start > rs[f].end
    ensures t == if Inside(rs[k], r.start) then f else -1
    ensures var now := rs[f := Range(r.start, rs[f].end)];
            Lone(now, k, t, rs[k]) && (t == f ==> LoneMerged(now, k, t, rs[k]) == Without(rs, f))
  {
    t := if Inside(rs[k], r.start) then f else -1;
    ApartIsLone(rs, k, r);
    assert !Touch(rs[k], rs[f]);
    ReversedMerge(rs[k], Range(r.start, rs[f].end));
  }

  /** A reversed range that no stored range has an end of meets, in its own turn, those between its
      ends: it becomes the first of them. */
  lemma LastIsLone(rs: seq<Range>, r: Range, n: nat) returns (t: int, u: Range)
    requires AllProper(rs) && Apart(rs) && r.start > r.end && n <= |rs| && First(rs, r) == |rs|
    requires forall i | 0 <= i < n :: Combined(r, rs[i]).None?
    ensures Lone(rs + [r], |rs|, t, u)
    ensures t >= 0 ==> LoneMerged(rs + [r], |rs|, t, u) == Moved(rs, t)
    decreases |rs| - n
  {
    if n == |rs| {
      t, u := -1, r;
    } else if Combined(r, rs[n]).Some? {
      t, u := n, rs[n];
      ApartIsLone(rs, n, r);
    } else {
      t, u := LastIsLone(rs, r, n + 1);
    }
  }

  /** One turn of the outer loop. */
  lemma PassedNext(now: seq<Range>, rs: seq<Range>, r: Range, k: nat) returns (t: int, u: Range)
    requires AllProper(rs) && Apart(rs) && r.start > r.end && k < |now| && Passed(now, rs, r, k)
    ensures Lone(now, k, t, u) && Passed(LoneMerged(now, k, t, u), rs, r, LoneIndex(k, t) + 1)
  {
    var f := First(rs, r);
    t, u := -1, r;
    if k < |rs| && k < f {
    } else if k < |rs| && k == f {
      t := |rs|;
      u := MetIsLone(rs, r, k);
    } else if f == |rs| {
      t, u := LastIsLone(rs, r, 0);
    } else if now == rs {
      ApartIsLone(rs, k, r);
    } else if now == Without(rs, f) {
      WithoutApart(rs, f);
      ApartIsLone(now, k, r);
    } else {
      u := rs[k];
      t := ReversedIsLone(rs, r, f, k);
    }
  }

  lemma WithoutApart(rs: seq<Range>, f: nat)
    requires AllProper(rs) && Apart(rs) && f < |rs|
    ensures AllProper(Without(rs, f)) && Apart(Without(rs, f))
  {
  }

  /** What the outer loop leaves behind. */
  lemma PassedAll(now: seq<Range>, rs: seq<Range>, r: Range)
    requires AllProper(rs) && Apart(rs) && r.start > r.end && Passed(now, rs, r, |now|)
    ensures forall v :: Bound(now, v) <==> Bound(rs, v) && !Lost(rs, r, v)
    ensures SamePoints(now, rs) <==> Harmless(rs, r)
  {
    forall v ensures Bound(now, v) <==> Bound(rs, v) && !Lost(rs, r, v) {
      PassedPoint(now, rs, r, v);
    }
    var f := First(rs, r);
    if f < |rs| && rs[f].start < rs[f].end { assert Holds(rs[f], rs[f].start); assert Bound(rs, rs[f].start); }
  }

  lemma PassedPoint(now: seq<Range>, rs: seq<Range>, r: Range, v: int)
    requires AllProper(rs) && Apart(rs) && r.start > r.end && Passed(now, rs, r, |now|)
    ensures Bound(now, v) <==> Bound(rs, v) && !Lost(rs, r, v)
  {
    var f := First(rs, r);
    if f == |rs| {
      if now == rs + [r] { EndPoint(rs, r, v); }
      else {
        var t :| 0 <= t < |rs| && now == Moved(rs, t);
        MovedPoint(rs, t, v);
      }
    } else if !Inside(rs[f], r.start) {
      if now == Without(rs, f) { WithoutPoint(rs, f, v); } else { ReversedPoint(rs, f, r.start, v); }
    }
  }

  lemma EndPoint(rs: seq<Range>, r: Range, v: int)
    ensures Bound(rs + [r], v) <==> Bound(rs, v) || Holds(r, v)
  {
    if Bound(rs, v) { var i :| 0 <= i < |rs| && Holds(rs[i], v); assert Holds((rs + [r])[i], v); }
    if Holds(r, v) { assert Holds((rs + [r])[|rs|], v); }
  }

  lemma WithoutPoint(rs: seq<Range>, f: nat, v: int)
    requires f < |rs| && Apart(rs)
    ensures Bound(Without(rs, f), v) <==> Bound(rs, v) && !Holds(rs[f], v)
  {
    if Bound(Without(rs, f), v) {
      var i :| 0 <= i < |rs| - 1 && Holds(Without(rs, f)[i], v);
      var j := if i < f then i else i + 1;
      assert Holds(rs[j], v) && !Touch(rs[j], rs[f]);
    }
    if Bound(rs, v) && !Holds(rs[f], v) {
      var i :| 0 <= i < |rs| && Holds(rs[i], v);
      assert Holds(Without(rs, f)[Shifted(i, f)], v);
    }
  }

  lemma MovedPoint(rs: seq<Range>, t: nat, v: int)
    requires t < |rs| && Apart(rs)
    ensures Bound(Moved(rs, t), v) <==> Bound(rs, v)
  {
    EndPoint(Without(rs, t), rs[t], v);
    WithoutPoint(rs, t, v);
    if Holds(rs[t], v) { assert Bound(rs, v); }
  }

  lemma ReversedPoint(rs: seq<Range>, f: nat, start: int, v: int)
    requires f < |rs| && Apart(rs) && start > rs[f].end
    ensures Bound(rs[f := Range(start, rs[f].end)], v) <==> Bound(rs, v) && !Holds(rs[f], v)
  {
    var now := rs[f := Range(start, rs[f].end)];
    if Bound(now, v) {
      var i :| 0 <= i < |now| && Holds(now[i], v);
      assert Holds(rs[i], v) && !Touch(rs[i], rs[f]);
    }
    if Bound(rs, v) && !Holds(rs[f], v) {
      var i :| 0 <= i < |rs| && Holds(rs[i], v);
      assert Holds(now[i], v);
    }
  }

  /** With (5, 10) stored, adding (20, 7) loses all its points and removing (20, 7) loses 5 and 6. */
  lemma ReversedLosesPoints()
    ensures var rs := [Range(5, 10)];
            && (forall v :: Lost(rs, Range(20, 7), v) <==> 5 <= v < 10)
            && (forall v :: Trimmed(rs, 20, 7, v) <==> 5 <= v < 7)
  {
    var rs := [Range(5, 10)];
    forall v ensures Trimmed(rs, 20, 7, v) <==> 5 <= v < 7 {
      if 5 <= v < 7 { assert Holds(rs[0], v) && !Holds(Trim(rs[0], 20, 7), v); }
    }
  }

  ghost predicate SamePoints(a: seq<Range>, b: seq<Range>) {
    forall v :: Bound(a, v) <==> Bound(b, v)
  }

  lemma AddedPoints(rs: seq<Range>, r: Range)
    requires AllProper(rs) && Apart(rs) && Proper(r)
    ensures Merging(rs + [r], |rs|, 0)
    ensures forall v :: Bound(rs + [r], v) <==> Bound(rs, v) || Holds(r, v)
  {
    var l := rs + [r];
    forall v ensures Bound(l, v) <==> Bound(rs, v) || Holds(r, v) {
      if Bound(rs, v) { var i :| 0 <= i < |rs| && Holds(rs[i], v); assert Holds(l[i], v); }
      if Holds(r, v) { assert Holds(l[|rs|], v); }
    }
  }
}
