/** Installed packages as a dependency graph, and what a load order is. */
module Packages {
  import opened Graphs
  import opened Sequences

  datatype Option<+T> = None | Some(value: T)

  datatype Result<+T> = Ok(value: T) | Err(error: PackageError)

  datatype Dependency = Dependency(name: Name, required: bool)

  datatype PackageType = Library | Addon | Service

  datatype Package = Package(kind: PackageType, dependencies: seq<Dependency>)

  type Installed = map<Name, Package>

  /** The errors PKG:P1, PKG:P2 and PKG:P3, and the cycle report that never comes to an end. */
  datatype PackageError =
    | NotInstalled(name: Name)
    | MissingDependency(name: Name)
    | DependencyCycle(names: seq<Name>)
    | CycleReportHangs(start: Name)

  datatype Color = White | Gray | Black

  type Colors = map<Name, Color>

  /** The names a dependency list mentions, all of them or the required ones only. */
  function Targets(ds: seq<Dependency>, requiredOnly: bool): (ns: seq<Name>)
    ensures forall d :: d in ds && (requiredOnly ==> d.required) ==> d.name in ns
    ensures forall n :: n in ns ==> exists d :: d in ds && d.name == n && (requiredOnly ==> d.required)
  {
    if ds == [] then []
    else
      var rest := Targets(ds[1..], requiredOnly);
      assert forall d :: d in ds ==> d == ds[0] || d in ds[1..];
      if requiredOnly && !ds[0].required then rest else [ds[0].name] + rest
  }

  /** The dependency graph: every dependency an edge, or the required ones only. */
  function Depends(ps: Installed, requiredOnly: bool): (g: Graph)
    ensures g.Keys == ps.Keys
  {
    map n | n in ps :: Targets(ps[n].dependencies, requiredOnly)
  }

  function All(ps: Installed): (g: Graph) ensures g.Keys == ps.Keys { Depends(ps, false) }

  function Required(ps: Installed): (g: Graph) ensures g.Keys == ps.Keys { Depends(ps, true) }

  /** Dependency `j` of package `n`. */
  predicate Dep(ps: Installed, n: Name, j: nat) {
    n in ps && j < |ps[n].dependencies|
  }

  function DepName(ps: Installed, n: Name, j: nat): Name
    requires Dep(ps, n, j)
  {
    ps[n].dependencies[j].name
  }

  lemma DepIsEdge(ps: Installed, n: Name, j: nat)
    requires Dep(ps, n, j) && DepName(ps, n, j) in ps
    ensures Edge(All(ps), n, DepName(ps, n, j))
    ensures ps[n].dependencies[j].required ==> Edge(Required(ps), n, DepName(ps, n, j))
  {
    assert ps[n].dependencies[j] in ps[n].dependencies;
  }

  lemma EdgeIsDep(ps: Installed, requiredOnly: bool, u: Name, v: Name) returns (j: nat)
    requires Edge(Depends(ps, requiredOnly), u, v)
    ensures Dep(ps, u, j) && DepName(ps, u, j) == v && (requiredOnly ==> ps[u].dependencies[j].required)
  {
    var d :| d in ps[u].dependencies && d.name == v && (requiredOnly ==> d.required);
    j :| 0 <= j < |ps[u].dependencies| && ps[u].dependencies[j] == d;
  }

  lemma RequiredIsEdge(ps: Installed, u: Name, v: Name)
    requires Edge(Required(ps), u, v)
    ensures Edge(All(ps), u, v)
  {
    var j := EdgeIsDep(ps, true, u, v);
    DepIsEdge(ps, u, j);
  }

  /** Dependency `j` of `n` is optional and leads back to it. */
  ghost predicate LeadsBack(ps: Installed, n: Name, j: nat) {
    && Dep(ps, n, j) && !ps[n].dependencies[j].required
    && DepName(ps, n, j) in ps && Reaches(All(ps), DepName(ps, n, j), n)
  }

  /** No package reachable from the names has an optional dependency that leads back to it. */
  ghost predicate OptionalsLeadAway(ps: Installed, names: seq<Name>) {
    forall n, j: nat :: LeadsBack(ps, n, j) ==> !ReachedFrom(All(ps), names, n)
  }

  /** Then an edge that lies on a cycle is required. */
  lemma CycleEdgeIsRequired(ps: Installed, names: seq<Name>, u: Name, v: Name)
    requires OptionalsLeadAway(ps, names) && ReachedFrom(All(ps), names, u)
    requires Edge(All(ps), u, v) && Reaches(All(ps), v, u)
    ensures Edge(Required(ps), u, v)
  {
    var j := EdgeIsDep(ps, false, u, v);
    ReachesEnds(All(ps), v, u);
    assert !LeadsBack(ps, u, j);
    DepIsEdge(ps, u, j);
  }

  /** A closed walk along dependencies without repetition. */
  ghost predicate SimpleCycle(g: Graph, names: seq<Name>) {
    Path(g, names) && Distinct(names) && Edge(g, Last(names), names[0])
  }

  /** `order` lists each package after all its required dependencies, which are all there. */
  ghost predicate DependenciesFirst(ps: Installed, order: seq<Name>) {
    forall i: nat, j: nat :: i < |order| && Dep(ps, order[i], j) && ps[order[i]].dependencies[j].required ==>
      DepName(ps, order[i], j) in order[..i]
  }

  /** ... and after all its installed dependencies, required or not, that do not depend on it in turn. */
  ghost predicate OptionalFirst(ps: Installed, order: seq<Name>) {
    forall i: nat, j: nat :: i < |order| && Dep(ps, order[i], j) && DepName(ps, order[i], j) in ps ==>
      DepName(ps, order[i], j) in order[..i] || Reaches(All(ps), DepName(ps, order[i], j), order[i])
  }

  /** What `load_order` promises for a list of names: exactly the installed packages reachable from them,
      each once, dependencies first. */
  ghost predicate IsLoadOrder(ps: Installed, names: seq<Name>, order: seq<Name>) {
    && Distinct(order)
    && (forall n :: n in order <==> ReachedFrom(All(ps), names, n))
    && DependenciesFirst(ps, order)
    && OptionalFirst(ps, order)
  }

  /** Nothing stands in the way: the names are installed, and so is every required dependency of
      everything reachable from them, without a cycle. */
  ghost predicate Loadable(ps: Installed, names: seq<Name>) {
    && (forall n :: n in names ==> n in ps)
    && (forall u, j: nat :: ReachedFrom(All(ps), names, u) && Dep(ps, u, j) && ps[u].dependencies[j].required ==>
          DepName(ps, u, j) in ps)
    && forall u, v :: ReachedFrom(All(ps), names, u) && Edge(All(ps), u, v) ==> !Reaches(All(ps), v, u)
  }

  /** Along a required edge the position in a load order falls, so a load order rules out required cycles. */
  lemma {:induction false} RequiredPathGoesBack(ps: Installed, order: seq<Name>, p: seq<Name>, i: nat)
    requires DependenciesFirst(ps, order) && Path(Required(ps), p) && i < |order| && order[i] == p[0]
    ensures exists k :: 0 <= k <= i && order[k] == Last(p) && (|p| > 1 ==> k < i)
    decreases |p|
  {
    if |p| > 1 {
      assert Link(Required(ps), p, 0);
      var j := EdgeIsDep(ps, true, p[0], p[1]);
      assert DepName(ps, order[i], j) in order[..i];
      var k :| 0 <= k < i && order[k] == p[1];
      var q := p[1..];
      forall a | 0 <= a < |q| - 1 ensures Link(Required(ps), q, a) { assert Link(Required(ps), p, a + 1); }
      RequiredPathGoesBack(ps, order, q, k);
    }
  }

  /** In a load order whatever a package needs, directly or not, comes before it. */
  lemma NeedsComeBefore(ps: Installed, order: seq<Name>, i: nat, n: Name)
    requires DependenciesFirst(ps, order) && i < |order| && Reaches(Required(ps), order[i], n) && n != order[i]
    ensures n in order[..i]
  {
    var p :| Joins(Required(ps), p, order[i], n);
    RequiredPathGoesBack(ps, order, p, i);
  }

  /** If there is a load order, no required cycle is reachable. */
  lemma LoadOrderHasNoRequiredCycle(ps: Installed, names: seq<Name>, order: seq<Name>, u: Name, v: Name)
    requires IsLoadOrder(ps, names, order) && Edge(Required(ps), u, v) && Reaches(Required(ps), v, u)
    ensures !ReachedFrom(All(ps), names, u)
  {
    if u in order {
      var i: nat :| i < |order| && order[i] == u;
      var j := EdgeIsDep(ps, true, u, v);
      assert DepName(ps, order[i], j) in order[..i];
      var k :| 0 <= k < i && order[k] == v;
      var p :| Joins(Required(ps), p, v, u);
      RequiredPathGoesBack(ps, order, p, k);
    }
  }

  lemma OrderedIsClosed(ps: Installed, names: seq<Name>, order: seq<Name>, u: Name, j: nat)
    requires IsLoadOrder(ps, names, order)
    requires ReachedFrom(All(ps), names, u) && Dep(ps, u, j) && ps[u].dependencies[j].required
    ensures DepName(ps, u, j) in ps
  {
    var i: nat :| i < |order| && order[i] == u;
    assert DepName(ps, order[i], j) in order[..i];
    var k :| 0 <= k < i && order[k] == DepName(ps, u, j);
    assert order[k] in order;
    var n :| n in names && Reaches(All(ps), n, order[k]);
    ReachesEnds(All(ps), n, order[k]);
  }

  /** A way back over a cycle is required all along. */
  lemma CyclePathIsRequired(ps: Installed, names: seq<Name>, u: Name, v: Name, p: seq<Name>)
    requires OptionalsLeadAway(ps, names) && ReachedFrom(All(ps), names, v)
    requires Joins(All(ps), p, v, u) && Edge(All(ps), u, v)
    ensures Joins(Required(ps), p, v, u)
  {
    forall a | 0 <= a < |p| - 1 ensures Link(Required(ps), p, a) { CycleLinkIsRequired(ps, names, u, v, p, a); }
  }

  lemma CycleLinkIsRequired(ps: Installed, names: seq<Name>, u: Name, v: Name, p: seq<Name>, a: nat)
    requires OptionalsLeadAway(ps, names) && ReachedFrom(All(ps), names, v)
    requires Joins(All(ps), p, v, u) && Edge(All(ps), u, v) && a < |p| - 1
    ensures Link(Required(ps), p, a)
  {
    hide Depends, Reaches, ReachedFrom, OptionalsLeadAway;
    assert Link(All(ps), p, a);
    PartReaches(All(ps), p, 0, a);
    PartReaches(All(ps), p, a + 1, |p| - 1);
    ReachesOn(All(ps), p[a + 1], u, v);
    ReachesOver(All(ps), p[a + 1], v, p[a]);
    ReachedOver(All(ps), names, v, p[a]);
    CycleEdgeIsRequired(ps, names, p[a], p[a + 1]);
  }

  lemma ReachedOver(g: Graph, names: seq<Name>, u: Name, v: Name)
    requires ReachedFrom(g, names, u) && Reaches(g, u, v)
    ensures ReachedFrom(g, names, v)
  {
    var r :| r in names && Reaches(g, r, u);
    ReachesOver(g, r, u, v);
  }

  /** Part of a path is a path. */
  lemma PartReaches(g: Graph, p: seq<Name>, a: nat, b: nat)
    requires Path(g, p) && a <= b < |p|
    ensures Reaches(g, p[a], p[b])
  {
    var q := p[a..b + 1];
    forall i | 0 <= i < |q| - 1 ensures Link(g, q, i) { assert Link(g, p, a + i); }
    assert Joins(g, q, p[a], p[b]);
  }

  /** What has a load order can be loaded exactly if no optional dependency in reach leads back. */
  lemma OrderedIsLoadable(ps: Installed, names: seq<Name>, order: seq<Name>)
    requires IsLoadOrder(ps, names, order) && forall n :: n in names ==> n in ps
    ensures Loadable(ps, names) <==> OptionalsLeadAway(ps, names)
  {
    hide OptionalsLeadAway, IsLoadOrder, Depends, Reaches, ReachedFrom;
    if OptionalsLeadAway(ps, names) {
      forall u, j: nat | ReachedFrom(All(ps), names, u) && Dep(ps, u, j) && ps[u].dependencies[j].required
        ensures DepName(ps, u, j) in ps
      {
        OrderedIsClosed(ps, names, order, u, j);
      }
      forall u, v | ReachedFrom(All(ps), names, u) && Edge(All(ps), u, v) ensures !Reaches(All(ps), v, u) {
        NoRequiredWayBack(ps, names, order, u, v);
      }
    }
    if Loadable(ps, names) { LoadableLeadsAway(ps, names); }
  }

  lemma NoRequiredWayBack(ps: Installed, names: seq<Name>, order: seq<Name>, u: Name, v: Name)
    requires IsLoadOrder(ps, names, order) && OptionalsLeadAway(ps, names)
    requires ReachedFrom(All(ps), names, u) && Edge(All(ps), u, v)
    ensures !Reaches(All(ps), v, u)
  {
    if Reaches(All(ps), v, u) {
      EdgeReaches(All(ps), u, v);
      ReachedOver(All(ps), names, u, v);
      var p :| Joins(All(ps), p, v, u);
      CyclePathIsRequired(ps, names, u, v, p);
      CycleEdgeIsRequired(ps, names, u, v);
      LoadOrderHasNoRequiredCycle(ps, names, order, u, v);
    }
  }

  lemma LoadableLeadsAway(ps: Installed, names: seq<Name>)
    requires Loadable(ps, names)
    ensures OptionalsLeadAway(ps, names)
  {
    forall n, j: nat | LeadsBack(ps, n, j) ensures !ReachedFrom(All(ps), names, n) {
      DepIsEdge(ps, n, j);
    }
  }

  /** A package with an optional dependency on itself has a load order, though it lies on a cycle. */
  lemma OrderedThoughNotLoadable(a: Name)
    ensures var ps := map[a := Package(Addon, [Dependency(a, false)])];
      IsLoadOrder(ps, [a], [a]) && !Loadable(ps, [a])
  {
    var ps := map[a := Package(Addon, [Dependency(a, false)])];
    var g := All(ps);
    assert ps[a].dependencies[0] == Dependency(a, false) && a in [a];
    DepIsEdge(ps, a, 0);
    ReachesItself(g, a);
    assert ReachedFrom(g, [a], a);
    forall n | ReachedFrom(g, [a], n) ensures n == a { ReachesEnds(g, a, n); }
  }
}
