/** The load order computed by modprobe: handle_dependencies and the ordering loop of main in
    userspace/programs/system/modprobe/main.cpp. */
module ModuleOrder {

  /** A Module structure in the module map. */
  type Mod = int

  /** What probe() answers for one dependency name. */
  datatype Dep = Found(mod: Mod) | NotFound

  /** Every known module with its dependencies, in the order of modules.dep. */
  type Graph = map<Mod, seq<Dep>>

  /** Ok; exit(1) because a dependency is unknown; or an element is erased from the list while
      an iterator to it is still in use, which is undefined behaviour. */
  datatype Status = Ok | MissingDependency | ErasedInUse

  predicate WellFormed(g: Graph) {
    forall m, d | m in g && d in g[m] :: d.Found? ==> d.mod in g
  }

  // ----- The meaning: reachability, cycles, order -----

  predicate Edge(g: Graph, a: Mod, b: Mod) {
    a in g && Found(b) in g[a]
  }

  predicate Path(g: Graph, p: seq<Mod>) {
    p != [] && forall i | 0 <= i < |p| - 1 :: Edge(g, p[i], p[i + 1])
  }

  ghost predicate Reaches(g: Graph, a: Mod, b: Mod) {
    exists p | Path(g, p) :: p[0] == a && p[|p| - 1] == b
  }

  ghost predicate OnCycle(g: Graph, a: Mod) {
    exists p | Path(g, p) :: |p| > 1 && p[0] == a && p[|p| - 1] == a
  }

  /** Everything that has to be loaded for a request. */
  ghost predicate Needed(g: Graph, requested: seq<Mod>, m: Mod) {
    exists r | r in requested :: Reaches(g, r, m)
  }

  /** The request can be satisfied: nothing it needs is unknown or depends on itself. */
  ghost predicate Satisfiable(g: Graph, requested: seq<Mod>) {
    forall m | Needed(g, requested, m) :: m in g && NotFound !in g[m] && !OnCycle(g, m)
  }

  predicate Distinct(s: seq<Mod>) {
    forall i, j | 0 <= i < j < |s| :: s[i] != s[j]
  }

  /** Every module comes after all its dependencies. */
  predicate Sorted(g: Graph, s: seq<Mod>) {
    forall i | 0 <= i < |s| :: s[i] in g && DependenciesIn(g, s[i], s[..i])
  }

  predicate DependenciesIn(g: Graph, m: Mod, s: seq<Mod>)
    requires m in g
  {
    forall d | d in g[m] :: d.Found? && d.mod in s
  }

  lemma ReachesTrans(g: Graph, a: Mod, b: Mod, c: Mod)
    requires Reaches(g, a, b) && Reaches(g, b, c)
    ensures Reaches(g, a, c)
  {
    var p :| Path(g, p) && p[0] == a && p[|p| - 1] == b;
    var q :| Path(g, q) && q[0] == b && q[|q| - 1] == c;
    var r := p + q[1..];
    assert Path(g, r) && r[0] == a && r[|r| - 1] == c;
  }

  lemma ReachesSelf(g: Graph, a: Mod)
    ensures Reaches(g, a, a)
  {
    assert Path(g, [a]) && [a][0] == a && [a][|[a]| - 1] == a;
  }

  lemma EdgeReaches(g: Graph, a: Mod, b: Mod)
    requires Edge(g, a, b)
    ensures Reaches(g, a, b)
  {
    var p := [a, b];
    assert Path(g, p) && p[0] == a && p[|p| - 1] == b;
  }

  /** Along a path inside a sorted list positions strictly decrease. */
  lemma {:induction false} PathDescends(g: Graph, s: seq<Mod>, p: seq<Mod>, at: nat)
    requires Sorted(g, s) && Path(g, p) && at < |s| && s[at] == p[0]
    ensures p[|p| - 1] in s[..at + 1] && (|p| > 1 ==> p[|p| - 1] in s[..at])
    decreases |p|
  {
    if |p| > 1 {
      assert Edge(g, p[0], p[1]) && DependenciesIn(g, s[at], s[..at]);
      assert Found(p[1]).mod in s[..at];
      var i :| 0 <= i < at && s[i] == p[1];
      PathDescends(g, s, p[1..], i);
    }
  }

  /** A sorted list without repetitions contains no cycle and no unknown dependency, and
      everything reachable from its members. */
  lemma SortedIsClosed(g: Graph, s: seq<Mod>, a: Mod, b: Mod)
    requires Sorted(g, s) && Distinct(s) && a in s && Reaches(g, a, b)
    ensures b in s && b in g && NotFound !in g[b] && !OnCycle(g, b)
  {
    var p :| Path(g, p) && p[0] == a && p[|p| - 1] == b;
    var i :| 0 <= i < |s| && s[i] == a;
    PathDescends(g, s, p, i);
    var j :| 0 <= j < |s| && s[j] == b;
    if OnCycle(g, b) {
      var q :| Path(g, q) && |q| > 1 && q[0] == b && q[|q| - 1] == b;
      PathDescends(g, s, q, j);
    }
    assert DependenciesIn(g, s[j], s[..j]);
  }

  // ----- Lists -----

  function Elements(s: seq<Mod>): set<Mod> {
    set m | m in s
  }

  /** The list with some members taken out. */
  function Without(s: seq<Mod>, gone: set<Mod>): seq<Mod> {
    if s == [] then []
    else if s[0] in gone then Without(s[1..], gone)
    else [s[0]] + Without(s[1..], gone)
  }

  lemma {:induction false} WithoutMembers(s: seq<Mod>, gone: set<Mod>)
    ensures forall m :: m in Without(s, gone) <==> m in s && m !in gone
    ensures Distinct(s) ==> Distinct(Without(s, gone))
  {
    if s != [] {
      WithoutMembers(s[1..], gone);
      assert s == [s[0]] + s[1..];
    }
  }

  lemma {:induction false} WithoutTwice(s: seq<Mod>, a: set<Mod>, b: set<Mod>)
    ensures Without(Without(s, a), b) == Without(s, a + b)
  {
    if s != [] { WithoutTwice(s[1..], a, b); }
  }

  lemma {:induction false} WithoutNothing(s: seq<Mod>, gone: set<Mod>)
    requires forall i | 0 <= i < |s| :: s[i] !in gone
    ensures Without(s, gone) == s
  {
    if s != [] { WithoutNothing(s[1..], gone); }
  }

  /** Erasing one element of a list without repetitions. */
  lemma {:induction false} EraseIsWithout(s: seq<Mod>, j: nat)
    requires j < |s| && Distinct(s)
    ensures s[..j] + s[j + 1..] == Without(s, {s[j]})
  {
    if j == 0 {
      WithoutNothing(s[1..], {s[0]});
    } else {
      EraseIsWithout(s[1..], j - 1);
      assert s[..j] + s[j + 1..] == [s[0]] + (s[1..][..j - 1] + s[1..][j..]);
    }
  }

  lemma {:induction false} DistinctFits(s: seq<Mod>, all: set<Mod>)
    requires Distinct(s) && forall m | m in s :: m in all
    ensures |s| <= |all|
  {
    if s != [] {
      assert s[0] in s && forall m | m in s[1..] :: m in s && m != s[0];
      DistinctFits(s[1..], all - {s[0]});
      assert |all - {s[0]}| == |all| - 1;
    }
  }

  // ----- The algorithm -----

  /** The call stack of handle_dependencies: every level holds an iterator to its module, the
      last one is being handled. */
  ghost predicate Stack(g: Graph, stack: seq<Mod>) {
    Path(g, stack) && Distinct(stack) && forall m | m in stack :: m in g
  }

  /** The list around the module being handled: a finished part, the module, and the rest. */
  ghost predicate Around(g: Graph, list: seq<Mod>, done: seq<Mod>, m: Mod, rest: seq<Mod>) {
    list == done + [m] + rest && Distinct(list) && Sorted(g, done) && forall x | x in list :: x in g
  }

  lemma DistinctConcat(a: seq<Mod>, b: seq<Mod>)
    ensures Distinct(a + b) <==> Distinct(a) && Distinct(b) && forall x | x in a :: x !in b
  {
    var s := a + b;
    assert forall i | 0 <= i < |a| :: s[i] == a[i];
    assert forall i | 0 <= i < |b| :: s[|a| + i] == b[i];
    if Distinct(s) {
      forall i, j | 0 <= i < |a| && 0 <= j < |b| ensures a[i] != b[j] { assert s[i] != s[|a| + j]; }
      forall i, j | 0 <= i < j < |b| ensures b[i] != b[j] { assert s[|a| + i] != s[|a| + j]; }
      forall i, j | 0 <= i < j < |a| ensures a[i] != a[j] { assert s[i] != s[j]; }
    } else {
      var i, j :| 0 <= i < j < |s| && s[i] == s[j];
      if j < |a| { assert a[i] == a[j]; }
      else if i >= |a| { assert b[i - |a|] == b[j - |a|]; }
      else { assert a[i] in a && b[j - |a|] in b; }
    }
  }

  lemma InsertionDistinct(done: seq<Mod>, dep: Mod, m: Mod, rest: seq<Mod>, r: seq<Mod>)
    requires Distinct(done + [m] + rest) && r == Without(rest, {dep}) && dep !in done && dep != m
    ensures Distinct(done + [dep] + ([m] + r))
    ensures forall x :: x in r <==> x in rest && x != dep
  {
    WithoutMembers(rest, {dep});
    assert done + [m] + rest == done + ([m] + rest);
    DistinctConcat(done, [m] + rest);
    DistinctConcat([m], rest);
    DistinctConcat([m], r);
    DistinctConcat([dep], [m] + r);
    DistinctConcat(done, [dep] + ([m] + r));
    assert done + ([dep] + ([m] + r)) == done + [dep] + ([m] + r);
    assert forall x | x in [dep] + ([m] + r) :: x == dep || x in [m] + rest;
  }

  /** Where the dependency goes: right before the module that needs it. */
  lemma Insertion(g: Graph, list: seq<Mod>, done: seq<Mod>, rest: seq<Mod>, m: Mod, dep: Mod, list': seq<Mod>)
    requires WellFormed(g) && Around(g, list, done, m, rest) && Edge(g, m, dep) && dep !in done && dep != m
    requires list' == done + [dep] + ([m] + Without(rest, {dep}))
    ensures Around(g, list', done, dep, [m] + Without(rest, {dep}))
    ensures forall x :: x in Without(rest, {dep}) <==> x in rest && x != dep
  {
    InsertionDistinct(done, dep, m, rest, Without(rest, {dep}));
    forall x | x in list' ensures x in g {
      assert x in done || x == dep || x == m || x in rest;
    }
  }

  lemma LongerStack(g: Graph, stack: seq<Mod>, dep: Mod)
    requires WellFormed(g) && Stack(g, stack) && Edge(g, stack[|stack| - 1], dep) && dep !in stack
    ensures Stack(g, stack + [dep])
    ensures |g.Keys - Elements(stack + [dep])| < |g.Keys - Elements(stack)|
    ensures Reaches(g, stack[|stack| - 1], dep)
  {
    var longer := stack + [dep];
    forall i | 0 <= i < |longer| - 1 ensures Edge(g, longer[i], longer[i + 1]) {
      if i < |stack| - 1 { assert Edge(g, stack[i], stack[i + 1]); }
    }
    DistinctConcat(stack, [dep]);
    assert g.Keys - Elements(longer) == g.Keys - Elements(stack) - {dep};
    EdgeReaches(g, stack[|stack| - 1], dep);
  }

  /** After the nested call the dependency itself joins the finished part. */
  lemma NestedDone(g: Graph, list: seq<Mod>, done1: seq<Mod>, done2: seq<Mod>, m: Mod, dep: Mod, rest: seq<Mod>)
    requires var r := Without(Without(rest, Elements(done1)), {dep});
             Around(g, list, done2, dep, Without([m] + r, Elements(done2)))
    requires done1 <= done2 && m !in done2 && DependenciesIn(g, dep, done2)
    ensures Around(g, list, done2 + [dep], m, Without(rest, Elements(done2 + [dep])))
  {
    var r := Without(Without(rest, Elements(done1)), {dep});
    assert ([m] + r)[1..] == r;
    WithoutTwice(rest, Elements(done1), {dep});
    WithoutTwice(rest, Elements(done1) + {dep}, Elements(done2));
    assert forall x | x in done1 :: x in done2;
    assert Elements(done1) + {dep} + Elements(done2) == Elements(done2 + [dep]);
    assert list == done2 + [dep] + [m] + Without(rest, Elements(done2 + [dep]));
    SortedSnoc(g, done2, dep);
  }

  /** A dependency on a module whose handling has not finished closes a cycle. */
  lemma StackCycle(g: Graph, stack: seq<Mod>, dep: Mod)
    requires Stack(g, stack) && Edge(g, stack[|stack| - 1], dep) && dep in stack
    ensures Reaches(g, stack[0], dep) && OnCycle(g, dep)
  {
    var i :| 0 <= i < |stack| && stack[i] == dep;
    var p := stack[..i + 1];
    assert Path(g, p) && p[0] == stack[0] && p[|p| - 1] == dep;
    var c := stack[i..] + [dep];
    assert Path(g, c) && |c| > 1 && c[0] == dep && c[|c| - 1] == dep;
  }

  class ModuleLoader {
    /** orderedModules. */
    var ordered: seq<Mod>

    constructor ()
      ensures ordered == []
    {
      ordered := [];
    }

    /** The search loop: the first element equal to `dep` other than the one at `pos`. */
    method Find(dep: Mod, pos: nat) returns (found: int, before: bool)
      requires pos < |ordered| && Distinct(ordered)
      ensures found == -1 ==> forall k | 0 <= k < |ordered| && k != pos :: ordered[k] != dep
      ensures found != -1 ==> 0 <= found < |ordered| && found != pos && ordered[found] == dep && before == (found < pos)
    {
      found, before := -1, true;
      var i := 0;
      while i < |ordered| && found == -1
        invariant 0 <= i <= |ordered| && -1 <= found < |ordered|
        invariant found == -1 ==> before == (i <= pos) && forall k | 0 <= k < i && k != pos :: ordered[k] != dep
        invariant found != -1 ==> found != pos && ordered[found] == dep && before == (found < pos)
        decreases |ordered| - i + (if found == -1 then 1 else 0)
      {
        if i == pos {
          before := false;
        } else if dep == ordered[i] {
          found := i;
        }
        i := i + 1;
      }
    }

    /** handle_dependencies(stack's last module, ordered, pos). */
    method HandleDependencies(g: Graph, stack: seq<Mod>, pos: nat, ghost done: seq<Mod>, ghost rest: seq<Mod>)
        returns (status: Status, pos': nat, ghost done': seq<Mod>)
      requires WellFormed(g) && Stack(g, stack)
      requires Around(g, ordered, done, stack[|stack| - 1], rest) && pos == |done|
      requires forall m | m in stack[..|stack| - 1] :: m in rest
      modifies this
      ensures status.Ok? ==>
                var m := stack[|stack| - 1];
                && Around(g, ordered, done', m, Without(rest, Elements(done'))) && pos' == |done'|
                && done <= done' && DependenciesIn(g, m, done')
                && (forall x | x in done' :: x in done || Reaches(g, m, x))
                && (forall x | x in stack :: x !in done')
      ensures status.MissingDependency? ==> exists x | x in g :: Reaches(g, stack[|stack| - 1], x) && NotFound in g[x]
      ensures status.ErasedInUse? ==> exists x :: Reaches(g, stack[0], x) && OnCycle(g, x)
      decreases |g.Keys - Elements(stack)|, 1
    {
      var m, deps := stack[|stack| - 1], g[stack[|stack| - 1]];
      status, pos', done' := Ok, pos, done;
      RestUntouched(g, ordered, done, m, rest);
      var i := 0;
      while i < |deps|
        invariant 0 <= i <= |deps| && status.Ok?
        invariant Handled(g, stack, ordered, done, rest, done', i) && pos' == |done'|
      {
        var d := deps[i];
        i := i + 1;
        if d.NotFound? {
          ReachesSelf(g, m);
          assert m in g && NotFound in g[m];
          return MissingDependency, pos', done';
        }
        var dep := d.mod;
        assert Edge(g, m, dep);
        var found, before := Find(dep, pos');
        OpenIsFound(g, stack, ordered, done, rest, done', i - 1, dep, found, before);
        if found != -1 && !before && ordered[found] in stack {
          // The element is the one a caller stands on; it would be erased under its iterator.
          StackCycle(g, stack, dep);
          return ErasedInUse, pos', done';
        }
        if found == -1 && dep == m {
          // A module that depends on itself: the search passes over its own place, a second copy
          // is inserted, and the nested call for that copy finds the first one behind it, where
          // this call still stands, and erases it.
          StackCycle(g, stack, dep);
          return ErasedInUse, pos', done';
        }
        FoundInDone(ordered, done', m, Without(rest, Elements(done')), dep, found);
        if found == -1 || !before {
          status, pos', done' := MoveBefore(g, stack, i - 1, pos', found, done, rest, done');
          if !status.Ok? { return; }
        } else {
          assert deps[..i] == deps[..i - 1] + [d];
        }
      }
      assert deps[..i] == deps;
    }

    /** The dependency `n` of the stack's last module is put right before it, taken from its
        later place `found` if it has one, and its own dependencies are handled. */
    method MoveBefore(g: Graph, stack: seq<Mod>, n: nat, pos: nat, found: int,
                      ghost done: seq<Mod>, ghost rest: seq<Mod>, ghost done1: seq<Mod>)
        returns (status: Status, pos': nat, ghost done': seq<Mod>)
      requires WellFormed(g) && Stack(g, stack) && stack[|stack| - 1] in g && n < |g[stack[|stack| - 1]]|
      requires Handled(g, stack, ordered, done, rest, done1, n) && pos == |done1|
      requires g[stack[|stack| - 1]][n].Found? && g[stack[|stack| - 1]][n].mod !in stack + done1
      requires forall m | m in stack[..|stack| - 1] :: m in rest
      requires found == -1 ==> g[stack[|stack| - 1]][n].mod !in ordered
      requires found != -1 ==> pos < found < |ordered| && ordered[found] == g[stack[|stack| - 1]][n].mod
      modifies this
      ensures status.Ok? ==> Handled(g, stack, ordered, done, rest, done', n + 1) && pos' == |done'|
      ensures status.MissingDependency? ==> exists x | x in g :: Reaches(g, stack[|stack| - 1], x) && NotFound in g[x]
      ensures status.ErasedInUse? ==> exists x :: Reaches(g, stack[0], x) && OnCycle(g, x)
      decreases |g.Keys - Elements(stack)|, 0
    {
      ghost var list := ordered;
      ghost var m := stack[|stack| - 1];
      var dep := g[stack[|stack| - 1]][n].mod;
      if found != -1 {
        ordered := ordered[..found] + ordered[found + 1..];
      }
      ordered := ordered[..pos] + [dep] + ordered[pos..];
      BeforeNested(g, stack, list, done, rest, done1, n, found, ordered);
      ghost var done2;
      status, pos', done2 := HandleDependencies(g, stack + [dep], pos, done1, [m] + Without(Without(rest, Elements(done1)), {dep}));
      done' := done2 + [dep];
      if status.Ok? {
        AfterNested(g, stack, ordered, done, rest, done1, n, done2);
        pos' := pos' + 1;
      }
    }

    /** main: the request resolved by probe() goes into the list, then every element in turn has
        its dependencies put before it. The order is found exactly when the request can be
        satisfied; it then lists what is needed, each module once and after its dependencies.
        In particular no iterator in use is ever erased for a request without cycles. */
    method Order(g: Graph, requested: seq<Mod>) returns (status: Status)
      requires WellFormed(g) && Distinct(requested) && forall r | r in requested :: r in g
      requires ordered == []
      modifies this
      ensures status.Ok? <==> Satisfiable(g, requested)
      ensures status.Ok? ==> Sorted(g, ordered) && Distinct(ordered)
      ensures status.Ok? ==> forall m :: m in ordered <==> Needed(g, requested, m)
    {
      Enlist(requested);
      RequestIsNeeded(g, requested);
      var k := 0;
      status := Ok;
      while k < |ordered|
        invariant 0 <= k <= |ordered| && status.Ok? && Ordering(g, requested, ordered, k)
        decreases |g.Keys| - k
      {
        status, k := OrderOne(g, requested, k);
        if !status.Ok? { return; }
      }
      OrderingEnds(g, requested, ordered);
    }

    method Enlist(requested: seq<Mod>)
      requires ordered == []
      modifies this
      ensures ordered == requested
    {
      for i := 0 to |requested|
        invariant ordered == requested[..i]
      {
        ordered := ordered + [requested[i]];
      }
    }

    /** One turn of the ordering loop: the element at `k` gets its dependencies in front of it. */
    method OrderOne(g: Graph, requested: seq<Mod>, k: nat) returns (status: Status, k': nat)
      requires WellFormed(g) && k < |ordered| && Ordering(g, requested, ordered, k)
      modifies this
      ensures status.Ok? ==> k < k' <= |ordered| && k' <= |g.Keys| && Ordering(g, requested, ordered, k')
      ensures !status.Ok? ==> !Satisfiable(g, requested)
    {
      var m := ordered[k];
      ghost var done, rest := ordered[..k], ordered[k + 1..];
      ghost var done';
      status, k', done' := HandleDependencies(g, [m], k, done, rest);
      NeededByMember(g, requested, m);
      if status.Ok? {
        OrderingGrows(g, requested, ordered, done, m, rest, done');
        k' := k' + 1;
      }
    }
  }

  /** A module whose handling has not finished is found behind the present place, or is it. */
  lemma OpenIsFound(g: Graph, stack: seq<Mod>, list: seq<Mod>, done: seq<Mod>, rest: seq<Mod>, done': seq<Mod>, n: nat,
                    dep: Mod, found: int, before: bool)
    requires stack != [] && stack[|stack| - 1] in g && n <= |g[stack[|stack| - 1]]| && Handled(g, stack, list, done, rest, done', n)
    requires forall m | m in stack[..|stack| - 1] :: m in rest
    requires found == -1 ==> forall k | 0 <= k < |list| && k != |done'| :: list[k] != dep
    requires found != -1 ==> 0 <= found < |list| && found != |done'| && list[found] == dep && before == (found < |done'|)
    ensures dep in stack <==> (found != -1 && !before && list[found] in stack) || (found == -1 && dep == stack[|stack| - 1])
  {
    var m, r := stack[|stack| - 1], Without(rest, Elements(done'));
    WithoutMembers(rest, Elements(done'));
    assert list[|done'|] == m;
    assert forall k | 0 <= k < |done'| :: list[k] == done'[k];
    if dep in stack && dep != m {
      assert dep in stack[..|stack| - 1] && dep in r;
      var j :| 0 <= j < |r| && r[j] == dep;
      assert list[|done'| + 1 + j] == dep;
    }
  }

  lemma FoundInDone(list: seq<Mod>, done: seq<Mod>, m: Mod, r: seq<Mod>, dep: Mod, found: int)
    requires list == done + [m] + r && Distinct(list) && dep != m
    requires found == -1 ==> dep !in list
    requires found != -1 ==> 0 <= found < |list| && list[found] == dep
    ensures dep in done <==> 0 <= found < |done|
    ensures found != |done|
  {
    assert list[|done|] == m;
    assert forall i | 0 <= i < |done| :: list[i] == done[i];
  }

  /** Erasing the dependency, if it comes later, and inserting it before the module. */
  lemma Moved(list: seq<Mod>, done: seq<Mod>, m: Mod, r: seq<Mod>, dep: Mod, found: int, list': seq<Mod>)
    requires list == done + [m] + r && Distinct(list) && dep !in done + [m]
    requires found == -1 ==> dep !in list
    requires found != -1 ==> |done| < found < |list| && list[found] == dep
    requires var erased := if found == -1 then list else list[..found] + list[found + 1..];
             |done| <= |erased| && list' == erased[..|done|] + [dep] + erased[|done|..]
    ensures list' == done + [dep] + ([m] + Without(r, {dep}))
  {
    if found == -1 {
      forall i | 0 <= i < |r| ensures r[i] != dep { assert list[|done| + 1 + i] == r[i]; }
      WithoutNothing(r, {dep});
    } else {
      var j := found - |done| - 1;
      assert r[j] == dep && list[found + 1..] == r[j + 1..];
      DistinctConcat(done + [m], r);
      EraseIsWithout(r, j);
      assert list[..found] == done + [m] + r[..j];
    }
  }

  lemma NestedReaches(g: Graph, m: Mod, dep: Mod, done0: seq<Mod>, done1: seq<Mod>, done2: seq<Mod>)
    requires Reaches(g, m, dep)
    requires forall x | x in done1 :: x in done0 || Reaches(g, m, x)
    requires forall x | x in done2 :: x in done1 || Reaches(g, dep, x)
    ensures forall x | x in done2 + [dep] :: x in done0 || Reaches(g, m, x)
  {
    forall x | x in done2 && x !in done1 ensures Reaches(g, m, x) { ReachesTrans(g, m, dep, x); }
  }

  lemma NestedFailure(g: Graph, stack: seq<Mod>, dep: Mod)
    requires stack != [] && Reaches(g, stack[|stack| - 1], dep)
    ensures forall x | Reaches(g, dep, x) :: Reaches(g, stack[|stack| - 1], x)
  {
    forall x | Reaches(g, dep, x) ensures Reaches(g, stack[|stack| - 1], x) {
      ReachesTrans(g, stack[|stack| - 1], dep, x);
    }
  }

  /** The loop invariant of main: the first `k` elements are in place. */
  ghost predicate Ordering(g: Graph, requested: seq<Mod>, list: seq<Mod>, k: nat)
    requires k <= |list|
  {
    && Distinct(list) && (forall x | x in list :: x in g) && Sorted(g, list[..k]) && k <= |g.Keys|
    && (forall r | r in requested :: r in list) && (forall x | x in list :: Needed(g, requested, x))
  }

  lemma RequestIsNeeded(g: Graph, requested: seq<Mod>)
    ensures forall r | r in requested :: Needed(g, requested, r)
  {
    forall r | r in requested ensures Needed(g, requested, r) { ReachesSelf(g, r); }
  }

  lemma NeededByMember(g: Graph, requested: seq<Mod>, m: Mod)
    requires Needed(g, requested, m)
    ensures forall x | Reaches(g, m, x) :: Needed(g, requested, x)
  {
    var r :| r in requested && Reaches(g, r, m);
    forall x | Reaches(g, m, x) ensures Needed(g, requested, x) { ReachesTrans(g, r, m, x); }
  }

  lemma OrderingGrows(g: Graph, requested: seq<Mod>, list: seq<Mod>, done: seq<Mod>, m: Mod, rest: seq<Mod>, done': seq<Mod>)
    requires Around(g, list, done', m, Without(rest, Elements(done'))) && done <= done' && DependenciesIn(g, m, done')
    requires forall x | x in done' :: x in done || Reaches(g, m, x)
    requires forall x | Reaches(g, m, x) :: Needed(g, requested, x)
    requires forall r | r in requested :: r in done + [m] + rest
    requires forall x | x in done + [m] + rest :: Needed(g, requested, x)
    ensures Ordering(g, requested, list, |done'| + 1)
  {
    SortedSnoc(g, done', m);
    assert list[..|done'| + 1] == done' + [m];
    MembersKept(list, done, m, rest, done');
    forall x | x in list ensures Needed(g, requested, x) {
    }
    DistinctFits(list, g.Keys);
  }

  lemma MembersKept(list: seq<Mod>, done: seq<Mod>, m: Mod, rest: seq<Mod>, done': seq<Mod>)
    requires list == done' + [m] + Without(rest, Elements(done')) && done <= done'
    ensures forall x | x in list :: x in done' || x in done + [m] + rest
    ensures forall x | x in done + [m] + rest :: x in list
    ensures forall x | x in done :: x in done + [m] + rest
  {
    WithoutMembers(rest, Elements(done'));
    assert forall x | x in done :: x in done';
  }

  lemma SortedSnoc(g: Graph, s: seq<Mod>, m: Mod)
    requires Sorted(g, s) && m in g && DependenciesIn(g, m, s)
    ensures Sorted(g, s + [m])
  {
    assert forall i | 0 <= i < |s| :: (s + [m])[..i] == s[..i];
    assert (s + [m])[..|s|] == s;
  }

  lemma OrderingEnds(g: Graph, requested: seq<Mod>, list: seq<Mod>)
    requires Ordering(g, requested, list, |list|)
    ensures Satisfiable(g, requested) && Sorted(g, list)
    ensures forall m :: m in list <==> Needed(g, requested, m)
  {
    assert list[..|list|] == list;
    forall m | Needed(g, requested, m) ensures m in list && m in g && NotFound !in g[m] && !OnCycle(g, m) {
      var r :| r in requested && Reaches(g, r, m);
      SortedIsClosed(g, list, r, m);
    }
  }

  /** The loop invariant of handle_dependencies: the first `n` dependencies are in place. */
  ghost predicate Handled(g: Graph, stack: seq<Mod>, list: seq<Mod>, done: seq<Mod>, rest: seq<Mod>, done': seq<Mod>, n: nat)
    requires stack != [] && stack[|stack| - 1] in g && n <= |g[stack[|stack| - 1]]|
  {
    var m := stack[|stack| - 1];
    && Around(g, list, done', m, Without(rest, Elements(done')))
    && done <= done'
    && (forall d | d in g[m][..n] :: d.Found? && d.mod in done')
    && (forall x | x in done' :: x in done || Reaches(g, m, x))
    && (forall x | x in stack :: x !in done')
  }

  lemma BeforeNested(g: Graph, stack: seq<Mod>, list: seq<Mod>, done: seq<Mod>, rest: seq<Mod>, done': seq<Mod>, n: nat,
                     found: int, list': seq<Mod>)
    requires WellFormed(g) && Stack(g, stack) && stack[|stack| - 1] in g && n < |g[stack[|stack| - 1]]| && g[stack[|stack| - 1]][n].Found?
    requires Handled(g, stack, list, done, rest, done', n) && g[stack[|stack| - 1]][n].mod !in stack + done'
    requires forall m | m in stack[..|stack| - 1] :: m in rest
    requires found == -1 ==> g[stack[|stack| - 1]][n].mod !in list
    requires found != -1 ==> |done'| < found < |list| && list[found] == g[stack[|stack| - 1]][n].mod
    requires var erased := if found == -1 then list else list[..found] + list[found + 1..];
             |done'| <= |erased| && list' == erased[..|done'|] + [g[stack[|stack| - 1]][n].mod] + erased[|done'|..]
    ensures var m, dep := stack[|stack| - 1], g[stack[|stack| - 1]][n].mod;
            var rest' := [m] + Without(Without(rest, Elements(done')), {dep});
            && Stack(g, stack + [dep]) && Around(g, list', done', dep, rest')
            && (forall x | x in stack :: x in rest')
            && |g.Keys - Elements(stack + [dep])| < |g.Keys - Elements(stack)|
            && Reaches(g, m, dep)
            && (forall x | Reaches(g, dep, x) :: Reaches(g, m, x))
  {
    var m, dep, r := stack[|stack| - 1], g[stack[|stack| - 1]][n].mod, Without(rest, Elements(done'));
    assert Edge(g, m, dep) && dep != m;
    Moved(list, done', m, r, dep, found, list');
    Insertion(g, list, done', r, m, dep, list');
    LongerStack(g, stack, dep);
    WithoutMembers(rest, Elements(done'));
    NestedFailure(g, stack, dep);
    forall x | x in stack ensures x in [m] + Without(r, {dep}) {
      assert x == m || x in stack[..|stack| - 1];
    }
  }

  lemma AfterNested(g: Graph, stack: seq<Mod>, list: seq<Mod>, done: seq<Mod>, rest: seq<Mod>, done1: seq<Mod>, n: nat, done2: seq<Mod>)
    requires WellFormed(g) && Stack(g, stack) && stack[|stack| - 1] in g && n < |g[stack[|stack| - 1]]| && g[stack[|stack| - 1]][n].Found?
    requires var m, dep := stack[|stack| - 1], g[stack[|stack| - 1]][n].mod;
             && dep !in stack && Reaches(g, m, dep) && dep in g
             && Around(g, list, done2, dep, Without([m] + Without(Without(rest, Elements(done1)), {dep}), Elements(done2)))
             && done <= done1 <= done2 && DependenciesIn(g, dep, done2)
             && (forall d | d in g[m][..n] :: d.Found? && d.mod in done1)
             && (forall x | x in done1 :: x in done || Reaches(g, m, x))
             && (forall x | x in done2 :: x in done1 || Reaches(g, dep, x))
             && (forall x | x in stack + [dep] :: x !in done2)
    ensures Handled(g, stack, list, done, rest, done2 + [g[stack[|stack| - 1]][n].mod], n + 1)
  {
    var m, dep := stack[|stack| - 1], g[stack[|stack| - 1]][n].mod;
    assert forall x | x in stack :: x in stack + [dep];
    NestedDone(g, list, done1, done2, m, dep, rest);
    NestedReaches(g, m, dep, done, done1, done2);
    assert forall x | x in done1 :: x in done2;
    assert g[m][..n + 1] == g[m][..n] + [g[m][n]];
  }

  lemma RestUntouched(g: Graph, list: seq<Mod>, done: seq<Mod>, m: Mod, rest: seq<Mod>)
    requires Around(g, list, done, m, rest)
    ensures Without(rest, Elements(done)) == rest && m !in done
    ensures forall x | x in rest :: x !in done
  {
    assert list[|done|] == m;
    assert forall i | 0 <= i < |rest| :: list[|done| + 1 + i] == rest[i];
    assert forall i | 0 <= i < |done| :: list[i] == done[i];
    WithoutNothing(rest, Elements(done));
  }
}
