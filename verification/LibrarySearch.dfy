/** `addon::find_dependency` outside developer mode: a breadth-first search for a package through the
    libraries that a package depends on, without a visited set. */
module LibrarySearch {
  import opened Graphs
  import opened Packages
  import opened Worklists
  import opened Sequences

  function InstalledOnly(ps: Installed, ds: seq<Dependency>): (ns: seq<Name>)
    ensures forall n :: n in ns <==> n in ps && exists d :: d in ds && d.name == n
  {
    if ds == [] then []
    else
      var prefix, last := ds[..|ds| - 1], ds[|ds| - 1];
      assert forall d :: d in ds <==> d in prefix || d == last;
      InstalledOnly(ps, prefix) + if last.name in ps then [last.name] else []
  }

  /** Where the search can go on from a package: only a library passes on what it depends on. */
  function Passes(ps: Installed, n: Name): seq<Name>
    requires n in ps
  {
    if ps[n].kind == Library then InstalledOnly(ps, ps[n].dependencies) else []
  }

  function Linked(ps: Installed): (g: Graph)
    ensures g.Keys == ps.Keys
    ensures forall n, m :: n in g && m in g[n] ==> m in ps
  {
    map n | n in ps :: Passes(ps, n)
  }

  /** What one dependency contributes to the queue before the search begins. */
  function Seeds(ps: Installed, roots: seq<Name>): seq<Name>
    requires forall r :: r in roots ==> r in ps
  {
    if roots == [] then [] else Seeds(ps, roots[..|roots| - 1]) + Passes(ps, roots[|roots| - 1])
  }

  lemma StartsEmpty(ps: Installed, ds: seq<Dependency>)
    ensures InstalledOnly(ps, ds[..0]) == [] && Seeds(ps, []) == []
  {
  }

  lemma SeedsMore(ps: Installed, roots: seq<Name>, r: Name)
    requires r in ps && forall r :: r in roots ==> r in ps
    ensures Seeds(ps, roots + [r]) == Seeds(ps, roots) + Passes(ps, r)
  {
    assert (roots + [r])[..|roots|] == roots;
  }

  lemma {:induction false} SeedsCover(ps: Installed, roots: seq<Name>, r: Name, m: Name)
    requires forall r :: r in roots ==> r in ps
    requires r in roots && m in Passes(ps, r)
    ensures m in Seeds(ps, roots)
  {
    var prefix := roots[..|roots| - 1];
    assert roots == prefix + [roots[|roots| - 1]];
    if r in prefix { SeedsCover(ps, prefix, r, m); }
  }

  lemma {:induction false} SeedsReached(ps: Installed, all: seq<Name>, roots: seq<Name>)
    requires forall r :: r in roots ==> r in ps && r in all
    ensures forall k :: 0 <= k < |Seeds(ps, roots)| ==>
              Seeds(ps, roots)[k] in ps && ReachedFrom(Linked(ps), all, Seeds(ps, roots)[k])
  {
    if roots != [] {
      var prefix, r := roots[..|roots| - 1], roots[|roots| - 1];
      SeedsReached(ps, all, prefix);
      forall m | m in Passes(ps, r) ensures m in ps && ReachedFrom(Linked(ps), all, m) {
        RootReached(Linked(ps), all, r);
        ReachedOn(Linked(ps), all, r, m);
      }
    }
  }

  /** A path of exactly `n` edges. */
  ghost predicate InSteps(g: Graph, u: Name, v: Name, n: nat) {
    exists p :: Joins(g, p, u, v) && |p| == n + 1
  }

  lemma FirstOfSteps(g: Graph, u: Name, v: Name, n: nat) returns (m: Name)
    requires InSteps(g, u, v, n) && n > 0
    ensures Edge(g, u, m) && InSteps(g, m, v, n - 1)
  {
    var p :| Joins(g, p, u, v) && |p| == n + 1;
    m := p[1];
    assert Link(g, p, 0);
    var q := p[1..];
    forall i | 0 <= i < |q| - 1 ensures Link(g, q, i) { assert Link(g, p, i + 1); }
    assert Joins(g, q, m, v);
  }

  lemma NoStepsStay(g: Graph, u: Name, v: Name)
    requires InSteps(g, u, v, 0)
    ensures u == v
  {
    var p :| Joins(g, p, u, v) && |p| == 1;
  }

  /** How many items come of one within `budget` further steps. */
  ghost function Within(g: Graph, n: Name, budget: int): nat
    decreases if budget < 0 then 0 else budget + 1, 0
  {
    if budget < 0 then 0 else if n in g then 1 + WithinAll(g, g[n], budget - 1) else 1
  }

  ghost function WithinAll(g: Graph, items: seq<Name>, budget: int): nat
    decreases if budget < 0 then 0 else budget + 1, |items| + 1
  {
    if items == [] then 0 else Within(g, items[0], budget) + WithinAll(g, items[1..], budget)
  }

  /** A queue whose items have been given budgets. */
  ghost function Spent(g: Graph, queue: seq<Name>, budgets: seq<int>): nat
    requires |queue| == |budgets|
  {
    if queue == [] then 0 else Within(g, queue[0], budgets[0]) + Spent(g, queue[1..], budgets[1..])
  }

  lemma {:induction false} SpentAdds(g: Graph, queue: seq<Name>, budgets: seq<int>, items: seq<Name>, budget: int)
    requires |queue| == |budgets|
    ensures Spent(g, queue + items, budgets + seq(|items|, _ => budget)) ==
            Spent(g, queue, budgets) + WithinAll(g, items, budget)
  {
    var more := seq(|items|, _ => budget);
    if queue != [] {
      assert (queue + items)[1..] == queue[1..] + items && (budgets + more)[1..] == budgets[1..] + more;
      SpentAdds(g, queue[1..], budgets[1..], items, budget);
    } else if items != [] {
      assert queue + items == items && budgets + more == more;
      assert items[1..] == [] + items[1..] && more[1..] == [] + seq(|items| - 1, _ => budget);
      SpentAdds(g, [], [], items[1..], budget);
    } else {
      assert queue + items == [] && budgets + more == [];
    }
  }

  /** The queue is on the way to the target: budgets fall along it, by at most one, and some item is
      exactly as many steps away as its budget says. */
  ghost predicate Closing(g: Graph, queue: seq<Name>, budgets: seq<int>, target: Name) {
    && |queue| == |budgets|
    && (forall i, j :: 0 <= i < j < |budgets| ==> budgets[i] >= budgets[j])
    && (forall i :: 0 <= i < |budgets| ==> budgets[i] >= budgets[0] - 1)
    && exists k :: 0 <= k < |queue| && budgets[k] >= 0 && InSteps(g, queue[k], target, budgets[k])
  }

  /** Taking the first item off and adding what it passes on keeps the queue closing in, at a lower cost. */
  lemma ClosesIn(g: Graph, queue: seq<Name>, budgets: seq<int>, target: Name)
    requires Closing(g, queue, budgets, target) && queue[0] in g && queue[0] != target
    ensures queue != [] && budgets != []
    ensures var items := g[queue[0]];
      var budgets' := budgets[1..] + seq(|items|, _ => budgets[0] - 1);
      && Closing(g, queue[1..] + items, budgets', target)
      && Spent(g, queue[1..] + items, budgets') < Spent(g, queue, budgets)
  {
    hide InSteps;
    var items := g[queue[0]];
    var queue', budgets' := queue[1..] + items, budgets[1..] + seq(|items|, _ => budgets[0] - 1);
    SpentAdds(g, queue[1..], budgets[1..], items, budgets[0] - 1);
    var k := NextOnTheWay(g, queue, budgets, target);
    assert |queue'| == |budgets'|;
  }

  lemma NextOnTheWay(g: Graph, queue: seq<Name>, budgets: seq<int>, target: Name) returns (k: nat)
    requires Closing(g, queue, budgets, target) && queue[0] in g && queue[0] != target
    ensures budgets[0] >= 0
    ensures var items := g[queue[0]];
      var queue', budgets' := queue[1..] + items, budgets[1..] + seq(|items|, _ => budgets[0] - 1);
      k < |queue'| && budgets'[k] >= 0 && InSteps(g, queue'[k], target, budgets'[k])
  {
    hide Joins, InSteps;
    var items := g[queue[0]];
    var queue', budgets' := queue[1..] + items, budgets[1..] + seq(|items|, _ => budgets[0] - 1);
    var i :| 0 <= i < |queue| && budgets[i] >= 0 && InSteps(g, queue[i], target, budgets[i]);
    if i > 0 {
      k := i - 1;
      assert queue'[k] == queue[i] && budgets'[k] == budgets[i];
    } else {
      if budgets[0] == 0 {
        NoStepsStay(g, queue[0], target);
        assert false;
      }
      var m := FirstOfSteps(g, queue[0], target, budgets[0]);
      var j :| 0 <= j < |items| && items[j] == m;
      k := |queue| - 1 + j;
      assert queue'[k] == m && budgets'[k] == budgets[0] - 1;
    }
  }

  /** How far the search has come: the target is not among what was taken off, and nothing is lost. */
  ghost predicate Seeking(g: Graph, roots: seq<Name>, target: Name, taken: set<Name>, queue: seq<Name>) {
    && Items(g, roots, queue)
    && (forall k :: 0 <= k < |queue| ==> queue[k] in g)
    && target !in taken
    && (forall r :: r in roots && r in g ==> r in taken || r in queue)
    && (forall n, m :: n in taken && Edge(g, n, m) ==> m in taken || m in queue)
  }

  lemma SeekOn(g: Graph, roots: seq<Name>, target: Name, taken: set<Name>, queue: seq<Name>)
    requires Seeking(g, roots, target, taken, queue) && queue != [] && queue[0] != target
    requires forall m :: m in g[queue[0]] ==> m in g
    ensures Seeking(g, roots, target, taken + {queue[0]}, queue[1..] + g[queue[0]])
  {
    var n, rest := queue[0], queue[1..];
    assert queue == [n] + rest;
    assert Item(g, roots, n);
    var more := rest + g[n];
    forall k | 0 <= k < |more| ensures Item(g, roots, more[k]) && more[k] in g {
      if k < |rest| {
        assert more[k] == queue[k + 1];
        assert Item(g, roots, queue[k + 1]);
      } else {
        assert more[k] in g[n];
        ReachedOn(g, roots, n, more[k]);
      }
    }
  }

  lemma SoughtInVain(g: Graph, roots: seq<Name>, target: Name, taken: set<Name>)
    requires Seeking(g, roots, target, taken, [])
    ensures !ReachedFrom(g, roots, target)
  {
    if ReachedFrom(g, roots, target) {
      var r :| r in roots && Reaches(g, r, target);
      ReachesEnds(g, r, target);
      ClosedUnderReach(g, taken, r, target);
    }
  }

  /** `u` is a library and has the installed package `v` among its dependencies. */
  predicate Carries(ps: Installed, u: Name, v: Name) {
    u in ps && ps[u].kind == Library && v in ps && exists d :: d in ps[u].dependencies && d.name == v
  }

  /** A way of installed packages from one of these dependencies to `target`, through libraries. */
  ghost predicate LibraryWay(ps: Installed, ds: seq<Dependency>, target: Name, p: seq<Name>) {
    && p != [] && (exists d :: d in ds && d.name == p[0]) && p[|p| - 1] == target
    && (forall i :: 0 <= i < |p| ==> p[i] in ps)
    && (forall i :: 0 <= i < |p| - 1 ==> CarriesOn(ps, p, i))
  }

  predicate CarriesOn(ps: Installed, p: seq<Name>, i: nat)
    requires i + 1 < |p|
  {
    Carries(ps, p[i], p[i + 1])
  }

  lemma LinkedIsCarried(ps: Installed, u: Name, v: Name)
    ensures Edge(Linked(ps), u, v) <==> Carries(ps, u, v)
  {
  }

  lemma JoinsIsWay(ps: Installed, ds: seq<Dependency>, target: Name, p: seq<Name>)
    ensures (p != [] && p[0] in InstalledOnly(ps, ds) && Joins(Linked(ps), p, p[0], target))
            <==> LibraryWay(ps, ds, target, p)
  {
    hide InstalledOnly, Linked, Carries;
    forall i | 0 <= i < |p| - 1 ensures Link(Linked(ps), p, i) <==> CarriesOn(ps, p, i) {
      LinkedIsCarried(ps, p[i], p[i + 1]);
    }
    if LibraryWay(ps, ds, target, p) {
      assert forall n :: n in p ==> n in Linked(ps);
    }
  }

  /** What the search can reach is what such a way leads to. */
  lemma ReachedByLibraries(ps: Installed, ds: seq<Dependency>, target: Name)
    ensures ReachedFrom(Linked(ps), InstalledOnly(ps, ds), target) <==> exists p :: LibraryWay(ps, ds, target, p)
  {
    hide InstalledOnly, Linked, LibraryWay;
    var g, roots := Linked(ps), InstalledOnly(ps, ds);
    if ReachedFrom(g, roots, target) {
      var u :| u in roots && Reaches(g, u, target);
      var p :| Joins(g, p, u, target);
      JoinsIsWay(ps, ds, target, p);
    }
    if p :| LibraryWay(ps, ds, target, p) {
      JoinsIsWay(ps, ds, target, p);
      assert Reaches(g, p[0], target);
    }
  }

  /** The search ends: it finds the target at last, or there is no cycle to get lost in. */
  ghost predicate Ends(ps: Installed, ds: seq<Dependency>, target: Name) {
    var roots := InstalledOnly(ps, ds);
    ReachedFrom(Linked(ps), roots, target) || NoCycleFrom(Linked(ps), roots)
  }

  /** `find_dependency` for a package with the dependencies `ds`. `None` stands for the error PKG:P2. */
  method FindDependency(ps: Installed, ds: seq<Dependency>, target: Name) returns (found: Option<Name>)
    requires Ends(ps, ds, target)
    ensures found == if ReachedFrom(Linked(ps), InstalledOnly(ps, ds), target) then Some(target) else None
    ensures found.Some? <==> exists p :: LibraryWay(ps, ds, target, p)
  {
    hide Reaches, ReachedFrom, NoCycleFrom, Seeds, InstalledOnly, Linked, LibraryWay;
    ReachedByLibraries(ps, ds, target);
    ghost var g, roots := Linked(ps), InstalledOnly(ps, ds);
    var queue: seq<Name> := [];
    var i := 0;
    ghost var seen: seq<Name> := [];
    StartsEmpty(ps, ds);
    while i < |ds|
      invariant 0 <= i <= |ds|
      invariant seen == InstalledOnly(ps, ds[..i]) && queue == Seeds(ps, seen)
      invariant target !in seen
    {
      SeenMore(ps, ds, i);
      var d := ds[i].name;
      if d in ps {
        if d == target {
          RootReached(g, roots, target);
          return Some(target);
        }
        SeedsMore(ps, seen, d);
        if ps[d].kind == Library {
          queue := AddInstalled(ps, queue, ps[d].dependencies);
        }
        seen := seen + [d];
      }
      i := i + 1;
    }
    assert ds[..i] == ds;
    StartSeeking(ps, roots, target);
    found := Search(ps, roots, target, queue);
  }

  lemma SeenMore(ps: Installed, ds: seq<Dependency>, i: nat)
    requires i < |ds|
    ensures InstalledOnly(ps, ds[..i + 1]) ==
            InstalledOnly(ps, ds[..i]) + if ds[i].name in ps then [ds[i].name] else []
    ensures ds[i].name in ps ==> ds[i].name in InstalledOnly(ps, ds)
  {
    assert ds[..i + 1][..i] == ds[..i];
    assert ds[i] in ds;
  }

  /** The loop that queues the installed dependencies of a library. */
  method AddInstalled(ps: Installed, queue: seq<Name>, ds: seq<Dependency>) returns (more: seq<Name>)
    ensures more == queue + InstalledOnly(ps, ds)
  {
    hide InstalledOnly;
    more := queue;
    var i := 0;
    StartsEmpty(ps, ds);
    while i < |ds|
      invariant 0 <= i <= |ds| && more == queue + InstalledOnly(ps, ds[..i])
    {
      SeenMore(ps, ds, i);
      if ds[i].name in ps {
        more := more + [ds[i].name];
      }
      i := i + 1;
    }
    assert ds[..i] == ds;
  }

  lemma StartSeeking(ps: Installed, roots: seq<Name>, target: Name)
    requires (forall r :: r in roots ==> r in ps) && target !in roots
    ensures Seeking(Linked(ps), roots, target, Members(roots), Seeds(ps, roots))
    ensures ReachedFrom(Linked(ps), roots, target) ==>
      exists k, n: nat :: 0 <= k < |Seeds(ps, roots)| && InSteps(Linked(ps), Seeds(ps, roots)[k], target, n)
  {
    var g, queue := Linked(ps), Seeds(ps, roots);
    SeedsReached(ps, roots, roots);
    forall n, m | n in Members(roots) && Edge(g, n, m) ensures m in queue { SeedsCover(ps, roots, n, m); }
    if ReachedFrom(g, roots, target) {
      var r :| r in roots && Reaches(g, r, target);
      var p :| Joins(g, p, r, target);
      assert |p| > 1;
      assert InSteps(g, r, target, |p| - 1);
      var m := FirstOfSteps(g, r, target, |p| - 1);
      SeedsCover(ps, roots, r, m);
      var k :| 0 <= k < |queue| && queue[k] == m;
      assert InSteps(g, queue[k], target, |p| - 2);
    }
  }

  /** The loop over the queue. */
  method Search(ps: Installed, ghost roots: seq<Name>, target: Name, seeds: seq<Name>) returns (found: Option<Name>)
    requires Seeking(Linked(ps), roots, target, Members(roots), seeds)
    requires NoCycleFrom(Linked(ps), roots) ||
      exists k, n: nat :: 0 <= k < |seeds| && InSteps(Linked(ps), seeds[k], target, n)
    ensures found == if ReachedFrom(Linked(ps), roots, target) then Some(target) else None
  {
    ghost var g := Linked(ps);
    ghost var finite := NoCycleFrom(g, roots);
    ghost var rank: map<Name, nat> := map[];
    ghost var budgets: seq<int> := [];
    if finite { rank := DescentOf(g, roots); } else { budgets := Budgets(g, seeds, target); }
    ghost var taken := Members(roots);
    ghost var rounds := 0;
    var queue := seeds;
    while queue != []
      invariant queue == Rounds(g, seeds, Front, rounds)
      invariant Seeking(g, roots, target, taken, queue)
      invariant if finite then Descends(g, roots, rank) else Closing(g, queue, budgets, target)
      decreases if finite then Total(g, roots, rank, queue) else Spent(g, queue, budgets)
    {
      var n := queue[0];
      assert Item(g, roots, n) && n in g;
      if n == target {
        return Some(n);
      }
      SeekOn(g, roots, target, taken, queue);
      if finite {
        QueueCosts(g, roots, rank, queue);
      } else {
        ClosesIn(g, queue, budgets, target);
        budgets := budgets[1..] + seq(|g[n]|, _ => budgets[0] - 1);
      }
      taken := taken + {n};
      queue := queue[1..];
      if ps[n].kind == Library {
        queue := AddInstalled(ps, queue, ps[n].dependencies);
      } else {
        assert queue + [] == queue;
      }
      rounds := rounds + 1;
    }
    SoughtInVain(g, roots, target, taken);
    return None;
  }

  lemma Budgets(g: Graph, queue: seq<Name>, target: Name) returns (budgets: seq<int>)
    requires exists k, n: nat :: 0 <= k < |queue| && InSteps(g, queue[k], target, n)
    ensures Closing(g, queue, budgets, target)
  {
    var k, n: nat :| 0 <= k < |queue| && InSteps(g, queue[k], target, n);
    budgets := seq(|queue|, _ => n);
    assert budgets[k] == n;
  }

  lemma QueueCosts(g: Graph, names: seq<Name>, rank: map<Name, nat>, queue: seq<Name>)
    requires Descends(g, names, rank) && Items(g, names, queue) && queue != [] && queue[0] in g
    ensures Items(g, names, queue[1..] + g[queue[0]])
    ensures Total(g, names, rank, queue[1..] + g[queue[0]]) < Total(g, names, rank, queue)
  {
    assert Item(g, names, queue[0]);
    Unfolds(g, names, rank, queue[0]);
    assert Items(g, names, queue[1..]) by {
      forall k | 0 <= k < |queue[1..]| ensures Item(g, names, queue[1..][k]) { assert Item(g, names, queue[k + 1]); }
    }
    TotalAdds(g, names, rank, queue[1..], g[queue[0]]);
  }

  lemma SeedIntoCycle(ps: Installed, roots: seq<Name>) returns (c: set<Name>)
    requires forall r :: r in roots ==> r in ps
    requires !NoCycleFrom(Linked(ps), roots)
    ensures Sinkless(Linked(ps), c) && Alive(Linked(ps), Seeds(ps, roots), c)
  {
    var g := Linked(ps);
    var u, v :| ReachedFrom(g, roots, u) && Edge(g, u, v) && Reaches(g, v, u);
    c := CycleIsAlive(g, roots, u, v);
    var i, w :| 0 <= i < |roots| && w in c && Reaches(g, roots[i], w);
    var m := PathIntoSinkless(g, roots[i], w, c);
    SeedsCover(ps, roots, roots[i], m);
    var j :| 0 <= j < |Seeds(ps, roots)| && Seeds(ps, roots)[j] == m;
  }

  /** Otherwise it never ends: the target does not come up, and the queue is never empty. */
  lemma SearchNeverEnds(ps: Installed, ds: seq<Dependency>, target: Name, k: nat)
    requires !Ends(ps, ds, target)
    ensures var roots := InstalledOnly(ps, ds);
      var queue := Rounds(Linked(ps), Seeds(ps, roots), Front, k);
      target !in roots && queue != [] && target !in queue
  {
    var g, roots := Linked(ps), InstalledOnly(ps, ds);
    if target in roots { RootReached(g, roots, target); }
    StartSeeking(ps, roots, target);
    var c := SeedIntoCycle(ps, roots);
    RoundsStayAlive(g, Seeds(ps, roots), Front, c, k);
    RoundsStayInside(g, roots, Seeds(ps, roots), k);
    var queue := Rounds(g, Seeds(ps, roots), Front, k);
    forall x | 0 <= x < |queue| ensures queue[x] != target {
      assert Item(g, roots, queue[x]) && queue[x] in g;
    }
  }

  /** The queue holds installed packages only, all within reach. */
  lemma {:induction false} RoundsStayInside(g: Graph, roots: seq<Name>, queue: seq<Name>, k: nat)
    requires forall n, m :: n in g && m in g[n] ==> m in g
    requires Items(g, roots, queue) && forall i :: 0 <= i < |queue| ==> queue[i] in g
    ensures var after := Rounds(g, queue, Front, k);
      Items(g, roots, after) && forall i :: 0 <= i < |after| ==> after[i] in g
  {
    if k > 0 {
      RoundsStayInside(g, roots, queue, k - 1);
      var before, after := Rounds(g, queue, Front, k - 1), Rounds(g, queue, Front, k);
      if before != [] { assert Item(g, roots, before[0]); }
      forall i | 0 <= i < |after| ensures Item(g, roots, after[i]) && after[i] in g {
        if i < |before| - 1 {
          assert after[i] == before[i + 1];
          assert Item(g, roots, before[i + 1]);
        } else {
          assert after[i] in g[before[0]];
          ReachedOn(g, roots, before[0], after[i]);
        }
      }
    }
  }
}
