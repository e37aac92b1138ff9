/**
 Ordering of kernel modules by their dependencies (src/core/module.cpp): a
 depth-first topological sort with cycle detection, started in that order and
 stopped in the reverse.
 */
module ModuleOrder {
  import opened Outcomes

  datatype Dependency = Dependency(name: string, required: bool)

  datatype Manifest = Manifest(name: string, dependencies: seq<Dependency>, priority: int)

  datatype Visit = Unvisited | Visiting | Visited

  /** `index_of`: the first module of that name. */
  function IndexOf(modules: seq<Manifest>, name: string, from: nat): (r: Result<nat>)
    requires from <= |modules|
    ensures r.Ok? ==> from <= r.value < |modules| && modules[r.value].name == name
    ensures r.Err? ==> r.status == NotFound && forall i :: from <= i < |modules| ==> modules[i].name != name
    decreases |modules| - from
  {
    if from == |modules| then Err(NotFound)
    else if modules[from].name == name then Ok(from)
    else IndexOf(modules, name, from + 1)
  }

  /** Module `i` requires module `j`. */
  ghost predicate Edge(modules: seq<Manifest>, i: nat, j: nat) {
    i < |modules| && exists d :: d in modules[i].dependencies && d.required && IndexOf(modules, d.name, 0) == Ok(j)
  }

  predicate CompleteAt(modules: seq<Manifest>, i: nat)
    requires i < |modules|
  {
    forall d :: d in modules[i].dependencies && d.required ==> IndexOf(modules, d.name, 0).Ok?
  }

  /** No required dependency is missing. */
  predicate Complete(modules: seq<Manifest>) { forall i :: 0 <= i < |modules| ==> CompleteAt(modules, i) }

  ghost predicate Path(modules: seq<Manifest>, p: seq<nat>) {
    forall k :: 0 <= k < |p| - 1 ==> EdgeAt(modules, p, k)
  }

  ghost predicate EdgeAt(modules: seq<Manifest>, p: seq<nat>, k: nat) { k + 1 < |p| && Edge(modules, p[k], p[k + 1]) }

  ghost predicate Cycle(modules: seq<Manifest>, c: seq<nat>) {
    |c| > 0 && Path(modules, c) && Edge(modules, c[|c| - 1], c[0])
  }

  /** Every module follows all the modules it requires. */
  ghost predicate Ordered(modules: seq<Manifest>, order: seq<nat>) {
    && (forall k :: 0 <= k < |order| ==> order[k] < |modules|)
    && (forall i, j :: 0 <= i < j < |order| ==> order[i] != order[j])
    && (forall k, j :: 0 <= k < |order| && Edge(modules, order[k], j) ==> j in order[..k])
  }

  /** Module `i` is `j` or requires it, directly or not. */
  ghost predicate Needs(modules: seq<Manifest>, i: nat, j: nat) {
    exists p :: |p| > 0 && Path(modules, p) && p[0] == i && p[|p| - 1] == j
  }

  /** `x` comes early for the sake of a module whose priority is no larger than that of `y`. */
  ghost predicate Justified(modules: seq<Manifest>, x: nat, y: nat) {
    exists z: nat ::
        z < |modules| && y < |modules| && Needs(modules, z, x) && modules[z].priority <= modules[y].priority
  }

  /** Nothing is put before another module unless something of at most that module's priority needs it. */
  ghost predicate Timely(modules: seq<Manifest>, order: seq<nat>) {
    forall p, q :: 0 <= p < q < |order| ==> Justified(modules, order[p], order[q])
  }

  // ---------------------------------------------------------------------
  // An order and a cycle exclude each other

  lemma {:induction false} Before(modules: seq<Manifest>, order: seq<nat>, c: seq<nat>, k: nat, at: nat)
    returns (b: nat)
    requires Ordered(modules, order) && Path(modules, c) && k < |c| && at < |order| && order[at] == c[k]
    ensures b < |order| && order[b] == c[|c| - 1] && b <= at
    decreases |c| - k
  {
    if k == |c| - 1 {
      b := at;
    } else {
      assert EdgeAt(modules, c, k);
      var j :| 0 <= j < at && order[..at][j] == c[k + 1];
      b := Before(modules, order, c, k + 1, j);
    }
  }

  /** A graph with an order has no cycle. */
  lemma NoCycle(modules: seq<Manifest>, order: seq<nat>, c: seq<nat>)
    requires Ordered(modules, order) && forall i :: 0 <= i < |modules| ==> i in order
    ensures !Cycle(modules, c)
  {
    if Cycle(modules, c) {
      StartInRange(modules, c);
      assert c[0] in order;
      var at :| 0 <= at < |order| && order[at] == c[0];
      var b := Before(modules, order, c, 0, at);
    }
  }

  lemma StartInRange(modules: seq<Manifest>, c: seq<nat>)
    requires Cycle(modules, c)
    ensures c[0] < |modules|
  {
    if |c| > 1 {
      assert EdgeAt(modules, c, 0);
    }
  }

  // ---------------------------------------------------------------------
  // The depth-first search

  ghost function UnvisitedIn(state: seq<Visit>): set<nat> { set i: nat | i < |state| && state[i] == Unvisited }

  /** The modules being visited are those on the path. */
  ghost predicate OnPath(state: seq<Visit>, path: seq<nat>) {
    forall i: nat :: i < |state| ==> (state[i] == Visiting <==> i in path)
  }

  lemma {:induction false} PathExtended(modules: seq<Manifest>, path: seq<nat>, i: nat, j: nat)
    requires Path(modules, path + [i]) && Edge(modules, i, j)
    ensures Path(modules, path + [i] + [j])
  {
    var p, q := path + [i], path + [i] + [j];
    forall k | 0 <= k < |q| - 1 ensures EdgeAt(modules, q, k) {
      if k < |p| - 1 {
        assert EdgeAt(modules, p, k);
        assert q[k] == p[k] && q[k + 1] == p[k + 1];
      } else {
        assert q[k] == i && q[k + 1] == j;
      }
    }
  }

  lemma NeedsItself(modules: seq<Manifest>, i: nat)
    ensures Needs(modules, i, i)
  {
    assert Path(modules, [i]);
  }

  lemma NeedsVia(modules: seq<Manifest>, i: nat, j: nat, x: nat)
    requires Edge(modules, i, j) && Needs(modules, j, x)
    ensures Needs(modules, i, x)
  {
    var p :| |p| > 0 && Path(modules, p) && p[0] == j && p[|p| - 1] == x;
    var q := [i] + p;
    forall k | 0 <= k < |q| - 1 ensures EdgeAt(modules, q, k) {
      if k > 0 {
        assert EdgeAt(modules, p, k - 1);
      }
    }
    assert q[|q| - 1] == x;
  }

  /** Every module placed since the order was `before` is needed by `i`. */
  ghost predicate PlacedFor(modules: seq<Manifest>, before: seq<nat>, order: seq<nat>, i: nat) {
    before <= order && forall k :: |before| <= k < |order| ==> Needs(modules, i, order[k])
  }

  lemma PlacedVia(modules: seq<Manifest>, before: seq<nat>, middle: seq<nat>, order: seq<nat>, i: nat, j: nat)
    requires PlacedFor(modules, before, middle, i) && PlacedFor(modules, middle, order, j) && Edge(modules, i, j)
    ensures PlacedFor(modules, before, order, i)
  {
    forall k | |before| <= k < |order| ensures Needs(modules, i, order[k]) {
      if k < |middle| {
        assert order[k] == middle[k];
      } else {
        NeedsVia(modules, i, j, order[k]);
      }
    }
  }

  /** One of the first `n` roots needs `x`. */
  ghost predicate Rooted(modules: seq<Manifest>, roots: seq<nat>, n: nat, x: nat) {
    exists j :: 0 <= j < n <= |roots| && Needs(modules, roots[j], x)
  }

  /** One of the first `n` roots needs `x`, and `y` is not among those before it. */
  ghost predicate Earlier(modules: seq<Manifest>, roots: seq<nat>, n: nat, x: nat, y: nat) {
    exists j :: 0 <= j < n <= |roots| && Needs(modules, roots[j], x) && y !in roots[..j]
  }

  /** The first `n` roots have been visited in turn. */
  ghost predicate InTurn(modules: seq<Manifest>, roots: seq<nat>, order: seq<nat>, n: nat) {
    && n <= |roots|
    && (forall k :: 0 <= k < n ==> roots[k] in order)
    && (forall p :: 0 <= p < |order| ==> Rooted(modules, roots, n, order[p]))
    && (forall p, q :: 0 <= p < q < |order| ==> Earlier(modules, roots, n, order[p], order[q]))
  }

  lemma RootedMore(modules: seq<Manifest>, roots: seq<nat>, n: nat, x: nat)
    requires n < |roots| && (Rooted(modules, roots, n, x) || Needs(modules, roots[n], x))
    ensures Rooted(modules, roots, n + 1, x)
  {
  }

  lemma EarlierKept(modules: seq<Manifest>, roots: seq<nat>, n: nat, x: nat, y: nat)
    requires n < |roots| && Earlier(modules, roots, n, x, y)
    ensures Earlier(modules, roots, n + 1, x, y)
  {
  }

  lemma EarlierNew(modules: seq<Manifest>, roots: seq<nat>, n: nat, x: nat, y: nat)
    requires n < |roots| && Rooted(modules, roots, n + 1, x) && y !in roots[..n]
    ensures Earlier(modules, roots, n + 1, x, y)
  {
    var j :| 0 <= j < n + 1 && Needs(modules, roots[j], x);
    assert roots[..j] <= roots[..n];
  }

  lemma InTurnMore(modules: seq<Manifest>, roots: seq<nat>, before: seq<nat>, order: seq<nat>, n: nat)
    requires InTurn(modules, roots, before, n) && n < |roots|
    requires forall p, q :: 0 <= p < q < |order| ==> order[p] != order[q]
    requires PlacedFor(modules, before, order, roots[n]) && roots[n] in order
    ensures InTurn(modules, roots, order, n + 1)
  {
    forall p | 0 <= p < |order| ensures Rooted(modules, roots, n + 1, order[p]) {
      assert p < |before| ==> order[p] == before[p];
      RootedMore(modules, roots, n, order[p]);
    }
    forall p, q | 0 <= p < q < |order| ensures Earlier(modules, roots, n + 1, order[p], order[q]) {
      if q < |before| {
        assert order[p] == before[p] && order[q] == before[q];
        EarlierKept(modules, roots, n, order[p], order[q]);
      } else {
        NotAmong(before, order, roots[..n], q);
        EarlierNew(modules, roots, n, order[p], order[q]);
      }
    }
  }

  lemma NotAmong(before: seq<nat>, order: seq<nat>, roots: seq<nat>, q: nat)
    requires before <= order && |before| <= q < |order| && forall p, r :: 0 <= p < r < |order| ==> order[p] != order[r]
    requires forall k :: 0 <= k < |roots| ==> roots[k] in before
    ensures order[q] !in roots
  {
    forall p | 0 <= p < |before| ensures before[p] != order[q] {
      assert before[p] == order[p];
    }
  }

  ghost predicate ByPriority(modules: seq<Manifest>, roots: seq<nat>) {
    forall i, j :: 0 <= i < j < |roots| ==>
      roots[i] < |modules| && roots[j] < |modules| && modules[roots[i]].priority <= modules[roots[j]].priority
  }

  lemma EarlierJustified(modules: seq<Manifest>, roots: seq<nat>, x: nat, y: nat)
    requires ByPriority(modules, roots) && Earlier(modules, roots, |roots|, x, y) && y in roots && y < |modules|
    requires forall r :: r in roots ==> r < |modules|
    ensures Justified(modules, x, y)
  {
    var j :| 0 <= j < |roots| && Needs(modules, roots[j], x) && y !in roots[..j];
    var m :| 0 <= m < |roots| && roots[m] == y;
    forall k | 0 <= k < j ensures roots[k] != y {
      assert roots[k] == roots[..j][k];
    }
    assert roots[j] in roots;
  }

  lemma AllPlaced(modules: seq<Manifest>, roots: seq<nat>, order: seq<nat>)
    requires InTurn(modules, roots, order, |roots|) && Ordered(modules, order) && forall x: nat :: x < |modules| <==>
              x in roots
    ensures forall i: nat :: i < |modules| <==> i in order
  {
    forall i: nat | i < |modules| ensures i in order {
      assert i in roots;
      var k :| 0 <= k < |roots| && roots[k] == i;
    }
  }

  /** Roots taken by priority make a timely order. */
  lemma InTurnTimely(modules: seq<Manifest>, roots: seq<nat>, order: seq<nat>)
    requires InTurn(modules, roots, order, |roots|) && ByPriority(modules, roots)
    requires forall k :: 0 <= k < |order| ==> order[k] < |modules|
    requires forall x: nat :: x < |modules| <==> x in roots
    ensures Timely(modules, order)
  {
    forall p, q | 0 <= p < q < |order| ensures Justified(modules, order[p], order[q]) {
      EarlierJustified(modules, roots, order[p], order[q]);
    }
  }

  /** Coming back to a module on the path closes a cycle. */
  lemma Closed(modules: seq<Manifest>, path: seq<nat>, i: nat) returns (c: seq<nat>)
    requires Path(modules, path + [i]) && i in path
    ensures Cycle(modules, c)
  {
    var p :| 0 <= p < |path| && path[p] == i;
    c := path[p..];
    var whole := path + [i];
    forall k | 0 <= k < |c| - 1 ensures EdgeAt(modules, c, k) {
      assert EdgeAt(modules, whole, p + k);
      assert whole[p + k] == c[k] && whole[p + k + 1] == c[k + 1];
    }
    assert EdgeAt(modules, whole, |path| - 1);
    assert whole[|path| - 1] == c[|c| - 1] && whole[|path|] == i == c[0];
  }

  /** A module whose requirements are all in the order may come next. */
  lemma OrderedMore(modules: seq<Manifest>, order: seq<nat>, i: nat)
    requires Ordered(modules, order) && i < |modules| && i !in order && forall j :: Edge(modules, i, j) ==> j in order
    ensures Ordered(modules, order + [i])
  {
    var more := order + [i];
    forall k, j | 0 <= k < |more| && Edge(modules, more[k], j) ensures j in more[..k] {
      if k < |order| {
        assert more[..k] == order[..k];
      } else {
        assert more[..k] == order;
      }
    }
  }

  /** `check_dependencies` over all modules. */
  method CheckDependencies(modules: seq<Manifest>) returns (s: Status)
    ensures s == if Complete(modules) then Success else NotFound
  {
    for i := 0 to |modules|
      invariant forall k :: 0 <= k < i ==> CompleteAt(modules, k)
    {
      var deps := modules[i].dependencies;
      for n := 0 to |deps|
        invariant forall m :: 0 <= m < n && deps[m].required ==> IndexOf(modules, deps[m].name, 0).Ok?
      {
        if deps[n].required && IndexOf(modules, deps[n].name, 0).Err? {
          assert !CompleteAt(modules, i);
          return NotFound;
        }
      }
    }
    return Success;
  }

  /** The exchange sort by priority: a permutation of the module indices, least priority first. */
  method VisitOrder(modules: seq<Manifest>) returns (a: array<nat>)
    ensures fresh(a) && a.Length == |modules| && (forall x: nat :: x < |modules| <==> x in a[..])
    ensures ByPriority(modules, a[..])
  {
    a := new nat[|modules|](i => i);
    forall x: nat ensures x < |modules| <==> x in a[..] {
      if x < |modules| {
        assert a[..][x] == x;
      }
    }
    for i := 0 to a.Length
      invariant forall x: nat :: x < |modules| <==> x in a[..]
      invariant forall k :: 0 <= k < a.Length ==> a[k] < |modules|
      invariant Least(modules, a[..], i)
    {
      Select(modules, a, i);
    }
    assert forall k :: 0 <= k < a.Length ==> a[..][k] == a[k];
  }

  /** Each of the first `i` modules has at most the priority of any later one. */
  ghost predicate Least(modules: seq<Manifest>, s: seq<nat>, i: nat) {
    && (forall k :: 0 <= k < |s| ==> s[k] < |modules|)
    && forall k, m :: 0 <= k < i && k < m < |s| ==> modules[s[k]].priority <= modules[s[m]].priority
  }

  /** The inner loop: the least of the rest comes to place `i`. */
  method Select(modules: seq<Manifest>, a: array<nat>, i: nat)
    requires i < a.Length && Least(modules, a[..], i)
    modifies a
    ensures Least(modules, a[..], i + 1) && forall x :: x in a[..] <==> x in old(a[..])
  {
    for j := i + 1 to a.Length
      invariant Least(modules, a[..], i) && forall x :: x in a[..] <==> x in old(a[..])
      invariant forall m :: i < m < j ==> modules[a[..][i]].priority <= modules[a[..][m]].priority
    {
      ghost var before := a[..];
      if modules[a[j]].priority < modules[a[i]].priority {
        Swap(a, i, j);
        SwappedLeast(modules, before, a[..], i, j);
      }
    }
  }

  lemma SwappedLeast(modules: seq<Manifest>, s: seq<nat>, t: seq<nat>, i: nat, j: nat)
    requires i < j < |s| && t == s[i := s[j]][j := s[i]] && Least(modules, s, i)
    requires modules[s[j]].priority < modules[s[i]].priority
    requires forall m :: i < m < j ==> modules[s[i]].priority <= modules[s[m]].priority
    ensures Least(modules, t, i) && forall m :: i < m <= j ==> modules[t[i]].priority <= modules[t[m]].priority
  {
  }

  method Swap(a: array<nat>, i: nat, j: nat)
    requires i < a.Length && j < a.Length
    modifies a
    ensures a[i] == old(a[j]) && a[j] == old(a[i]) && forall k :: 0 <= k < a.Length && k != i && k != j ==>
            a[k] == old(a[k])
    ensures forall x :: x in a[..] <==> x in old(a[..])
  {
    ghost var before := a[..];
    a[i], a[j] := a[j], a[i];
    forall x ensures x in a[..] <==> x in before {
      if x in before {
        var k :| 0 <= k < |before| && before[k] == x;
        assert a[..][if k == i then j else if k == j then i else k] == x;
      }
      if x in a[..] {
        var k :| 0 <= k < a.Length && a[..][k] == x;
        assert before[if k == i then j else if k == j then i else k] == x;
      }
    }
  }

  class ModuleManager {
    const modules: seq<Manifest>
    var state: seq<Visit>
    var order: seq<nat>
    var started: seq<nat>

    constructor (modules: seq<Manifest>)
      ensures this.modules == modules
    {
      this.modules := modules;
    }

    ghost predicate Sorting()
      reads this
    {
      && |state| == |modules| && Ordered(modules, order)
      && forall i: nat :: i < |state| ==> (state[i] == Visited <==> i in order)
    }

    ghost predicate Placed(d: Dependency)
      reads this
    {
      IndexOf(modules, d.name, 0).Ok? && IndexOf(modules, d.name, 0).value in order
    }

    /** `visit`: a module after everything it requires, or a cycle. */
    method Visit(index: nat, ghost path: seq<nat>) returns (s: Status, ghost cycle: seq<nat>)
      requires Sorting() && Complete(modules) && index < |modules|
      requires Path(modules, path + [index]) && OnPath(state, path)
      modifies this`state, this`order
      ensures s == Success ==> Sorting() && OnPath(state, path) && index in order
      ensures s == Success ==> PlacedFor(modules, old(order), order, index)
      ensures s == Success ==> UnvisitedIn(state) <= old(UnvisitedIn(state))
      ensures s != Success ==> s == InvalidArgument && Cycle(modules, cycle)
      decreases UnvisitedIn(state)
    {
      cycle := [];
      if state[index] == Visited {
        return Success, cycle;
      }
      if state[index] == Visiting {
        cycle := Closed(modules, path, index);
        return InvalidArgument, cycle;
      }
      ghost var before := state;
      state := state[index := Visiting];
      assert index in UnvisitedIn(before) && index !in UnvisitedIn(state);
      var deps := modules[index].dependencies;
      s, cycle := VisitAll(index, deps, path + [index], UnvisitedIn(before));
      if s != Success {
        return;
      }
      state := state[index := Visited];
      OrderedMore(modules, order, index);
      NeedsItself(modules, index);
      order := order + [index];
    }

    /** The dependency loop of `visit`. */
    method VisitAll(index: nat, deps: seq<Dependency>, ghost path: seq<nat>, ghost bound: set<nat>)
      returns (s: Status, ghost cycle: seq<nat>)
      requires Sorting() && Complete(modules) && index < |modules| && deps == modules[index].dependencies
      requires path != [] && path[|path| - 1] == index && Path(modules, path) && OnPath(state, path)
      requires UnvisitedIn(state) < bound
      modifies this`state, this`order
      ensures s == Success ==> Sorting() && OnPath(state, path) && UnvisitedIn(state) <= old(UnvisitedIn(state))
      ensures s == Success ==> PlacedFor(modules, old(order), order, index)
      ensures s == Success ==> forall j :: Edge(modules, index, j) ==> j in order
      ensures s != Success ==> s == InvalidArgument && Cycle(modules, cycle)
      decreases bound, 0
    {
      cycle := [];
      for n := 0 to |deps|
        invariant Sorting() && OnPath(state, path) && UnvisitedIn(state) <= old(UnvisitedIn(state))
        invariant PlacedFor(modules, old(order), order, index)
        invariant forall m :: 0 <= m < n && deps[m].required ==> Placed(deps[m])
      {
        if !deps[n].required {
          continue;
        }
        assert CompleteAt(modules, index) && deps[n] in deps;
        var j := IndexOf(modules, deps[n].name, 0);
        if j.Err? {
          return NotFound, cycle;
        }
        assert Edge(modules, index, j.value);
        assert path == path[..|path| - 1] + [index];
        PathExtended(modules, path[..|path| - 1], index, j.value);
        ghost var middle := order;
        s, cycle := Visit(j.value, path);
        if s != Success {
          return;
        }
        PlacedVia(modules, old(order), middle, order, index, j.value);
      }
      return Success, cycle;
    }

    /**
     `sort_modules`: succeeds just when no required module is missing and none is
     part of a cycle; then every module is in the order once, after all it requires,
     and before another of smaller priority only for the sake of one that is as small.
     */
    method SortModules() returns (s: Status)
      modifies this`state, this`order
      ensures s == NotFound <==> !Complete(modules)
      ensures s == InvalidArgument <==> Complete(modules) && exists c :: Cycle(modules, c)
      ensures s == Success || s == NotFound || s == InvalidArgument
      ensures s == Success ==> Ordered(modules, order) && (forall i: nat :: i < |modules| <==> i in order)
      ensures s == Success ==> Timely(modules, order)
    {
      order := [];
      state := seq(|modules|, _ => Unvisited);
      s := CheckDependencies(modules);
      if s != Success {
        return;
      }
      var sorted := VisitOrder(modules);
      ghost var cycle;
      s, cycle := VisitRoots(sorted[..]);
      if s == Success {
        AllPlaced(modules, sorted[..], order);
        InTurnTimely(modules, sorted[..], order);
        forall c: seq<nat> ensures !Cycle(modules, c) {
          NoCycle(modules, order, c);
        }
      }
    }

    /** The last loop of `sort_modules`. */
    method VisitRoots(roots: seq<nat>) returns (s: Status, ghost cycle: seq<nat>)
      requires Sorting() && OnPath(state, []) && order == [] && Complete(modules) && forall r :: r in roots ==>
                r < |modules|
      modifies this`state, this`order
      ensures s == Success ==> Ordered(modules, order) && InTurn(modules, roots, order, |roots|)
      ensures s != Success ==> s == InvalidArgument && Cycle(modules, cycle)
    {
      cycle := [];
      for n := 0 to |roots|
        invariant Sorting() && OnPath(state, []) && InTurn(modules, roots, order, n)
      {
        ghost var before := order;
        assert roots[n] in roots;
        s, cycle := Visit(roots[n], []);
        if s != Success {
          return;
        }
        InTurnMore(modules, roots, before, order, n);
      }
      return Success, cycle;
    }

    /** `start_all`: starts the modules in order, as far as they do start; without an order nothing is touched. */
    method StartAll() returns (s: Status)
      modifies this`state, this`order, this`started
      ensures !Complete(modules) || (exists c :: Cycle(modules, c)) ==> s != Success && started == old(started)
      ensures Complete(modules) && !(exists c :: Cycle(modules, c)) ==> started <= order && Ordered(modules, started)
      ensures s == Success ==> started == order && forall i: nat :: i < |modules| <==> i in started
    {
      s := SortModules();
      if s != Success {
        return;
      }
      started := [];
      var sorted := order;
      for n := 0 to |sorted|
        invariant order == sorted && started == order[..n]
      {
        OrderedPrefix(modules, order, n);
        var ok: bool := *;
        if !ok {
          return IoError;
        }
        started := started + [order[n]];
      }
      OrderedPrefix(modules, order, |order|);
      assert order[..|order|] == order;
      return Success;
    }

    /** `stop_all`: stops what was started, last first, as far as it does stop. */
    method StopAll() returns (s: Status, stopped: seq<nat>)
      requires Ordered(modules, started)
      ensures |stopped| <= |started| && forall k :: 0 <= k < |stopped| ==> stopped[k] == started[|started| - 1 - k]
      ensures s == Success ==> |stopped| == |started|
      ensures forall a, b :: 0 <= a < |stopped| && 0 <= b < |stopped| && Edge(modules, stopped[a], stopped[b]) ==> a < b
    {
      stopped := [];
      for i := |started| downto 0
        invariant |stopped| == |started| - i && forall k :: 0 <= k < |stopped| ==>
                stopped[k] == started[|started| - 1 - k]
      {
        var ok: bool := *;
        if !ok {
          DependentsFirst(modules, started, stopped);
          return IoError, stopped;
        }
        stopped := stopped + [started[i]];
      }
      DependentsFirst(modules, started, stopped);
      return Success, stopped;
    }
  }

  lemma OrderedPrefix(modules: seq<Manifest>, order: seq<nat>, n: nat)
    requires Ordered(modules, order) && n <= |order|
    ensures Ordered(modules, order[..n])
  {
    forall k, j | 0 <= k < n && Edge(modules, order[..n][k], j) ensures j in order[..n][..k] {
      assert order[..n][..k] == order[..k];
    }
  }

  /** Read backwards, an order has every module before what it requires. */
  lemma DependentsFirst(modules: seq<Manifest>, started: seq<nat>, stopped: seq<nat>)
    requires Ordered(modules, started) && |stopped| <= |started|
    requires forall k :: 0 <= k < |stopped| ==> stopped[k] == started[|started| - 1 - k]
    ensures forall a, b :: 0 <= a < |stopped| && 0 <= b < |stopped| && Edge(modules, stopped[a], stopped[b]) ==> a < b
  {
    forall a, b | 0 <= a < |stopped| && 0 <= b < |stopped| && Edge(modules, stopped[a], stopped[b]) ensures a < b {
      var p := |started| - 1 - a;
      var q :| 0 <= q < p && started[..p][q] == stopped[b];
    }
  }
}
