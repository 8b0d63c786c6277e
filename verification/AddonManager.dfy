/** The loaded addons. Everything a loaded addon needs that can be loaded is loaded: after every single
    insertion and removal, in every run. */
module AddonManager {
  import opened Graphs
  import opened Packages
  import opened UnloadSearch
  import PM = PackageManager
  import opened Sequences

  predicate IsLibrary(ps: Installed, n: Name)
    requires n in ps
  {
    ps[n].kind == Library
  }

  /** The loaded names are distinct, installed, no libraries, and closed under required dependencies,
      through libraries as well. */
  ghost predicate Good(ps: Installed, loaded: seq<Name>) {
    && Distinct(loaded)
    && (forall a :: a in loaded ==> a in ps && !IsLibrary(ps, a))
    && forall a, p :: a in loaded && Reaches(Required(ps), a, p) && !IsLibrary(ps, p) ==> p in loaded
  }

  /** The loaded addons after running through `order` with `load`. */
  function Loading(ps: Installed, loaded: seq<Name>, order: seq<Name>): seq<Name>
    requires forall n :: n in order ==> n in ps
  {
    if order == [] then loaded
    else
      var before, n := Loading(ps, loaded, order[..|order| - 1]), order[|order| - 1];
      if IsLibrary(ps, n) || n in before then before else before + [n]
  }

  function Remove(s: seq<Name>, n: Name): seq<Name> {
    if s == [] then [] else if s[0] == n then s[1..] else [s[0]] + Remove(s[1..], n)
  }

  /** The loaded addons after running through `order` with `unload`. */
  function Unloading(ps: Installed, loaded: seq<Name>, order: seq<Name>): seq<Name>
    requires forall n :: n in order ==> n in ps
  {
    if order == [] then loaded
    else
      var before, n := Unloading(ps, loaded, order[..|order| - 1]), order[|order| - 1];
      if IsLibrary(ps, n) then before else Remove(before, n)
  }

  lemma {:induction false} LoadingMembers(ps: Installed, loaded: seq<Name>, order: seq<Name>)
    requires forall n :: n in order ==> n in ps
    requires Distinct(loaded)
    ensures var l := Loading(ps, loaded, order);
      && Distinct(l) && loaded <= l
      && forall n :: n in l <==> n in loaded || (n in order && !IsLibrary(ps, n))
  {
    if order != [] {
      var prefix := order[..|order| - 1];
      LoadingMembers(ps, loaded, prefix);
      assert order == prefix + [order[|order| - 1]];
    }
  }

  lemma {:induction false} RemoveMembers(s: seq<Name>, n: Name)
    requires Distinct(s)
    ensures Distinct(Remove(s, n)) && forall m :: m in Remove(s, n) <==> m in s && m != n
  {
    if s != [] && s[0] != n {
      RemoveMembers(s[1..], n);
      assert s == [s[0]] + s[1..];
      assert s[0] !in s[1..];
      var r := Remove(s[1..], n);
      forall i, j | 0 <= i < j < |r| + 1 ensures ([s[0]] + r)[i] != ([s[0]] + r)[j] {
        assert ([s[0]] + r)[j] == r[j - 1] && r[j - 1] in r;
        if i > 0 { assert ([s[0]] + r)[i] == r[i - 1]; }
      }
    } else if s != [] {
      assert s == [n] + s[1..];
    }
  }

  lemma {:induction false} UnloadingMembers(ps: Installed, loaded: seq<Name>, order: seq<Name>)
    requires forall n :: n in order ==> n in ps
    requires Distinct(loaded) && forall a :: a in loaded ==> a in ps && !IsLibrary(ps, a)
    ensures var l := Unloading(ps, loaded, order);
      Distinct(l) && forall n :: n in l <==> n in loaded && n !in order
  {
    if order != [] {
      var prefix, n := order[..|order| - 1], order[|order| - 1];
      UnloadingMembers(ps, loaded, prefix);
      assert order == prefix + [n];
      RemoveMembers(Unloading(ps, loaded, prefix), n);
    }
  }

  lemma RequiredReachesAll(ps: Installed, u: Name, v: Name)
    requires Reaches(Required(ps), u, v)
    ensures Reaches(All(ps), u, v)
  {
    var p :| Joins(Required(ps), p, u, v);
    forall i | 0 <= i < |p| - 1 ensures Link(All(ps), p, i) {
      assert Link(Required(ps), p, i);
      RequiredIsEdge(ps, p[i], p[i + 1]);
    }
    assert Joins(All(ps), p, u, v);
  }

  /** Loading in a load order keeps the invariant after every insertion, so also when the construction of
      an addon fails and the rest of the order is never reached. */
  lemma LoadKeepsGood(ps: Installed, loaded: seq<Name>, names: seq<Name>, order: seq<Name>, k: nat)
    requires Good(ps, loaded) && IsLoadOrder(ps, names, order) && k <= |order|
    ensures forall n :: n in order ==> n in ps
    ensures Good(ps, Loading(ps, loaded, order[..k]))
  {
    OrderIsInstalled(ps, names, order);
    LoadingMembers(ps, loaded, order[..k]);
    var l := Loading(ps, loaded, order[..k]);
    forall a, p | a in l && Reaches(Required(ps), a, p) && !IsLibrary(ps, p) ensures p in l {
      if a !in loaded && p != a {
        var i: nat :| i < k && order[i] == a;
        NeedsComeBefore(ps, order, i, p);
        assert p in order[..k];
      }
    }
  }

  lemma OrderIsInstalled(ps: Installed, names: seq<Name>, order: seq<Name>)
    requires IsLoadOrder(ps, names, order)
    ensures forall n :: n in order ==> n in ps
  {
    forall n | n in order ensures n in ps {
      var u :| u in names && Reaches(All(ps), u, n);
      ReachesEnds(All(ps), u, n);
    }
  }

  lemma UnloadOrderIsInstalled(ps: Installed, names: seq<Name>, order: seq<Name>)
    requires IsUnloadOrder(ps, names, order)
    ensures forall n :: n in order ==> n in ps
  {
    forall n | n in order ensures n in ps {
      var u :| u in names && Reaches(All(ps), n, u);
      ReachesEnds(All(ps), n, u);
    }
  }

  /** Addon `a` requires another addon `p`. */
  ghost predicate Needs(ps: Installed, a: Name, p: Name) {
    && a in ps && p in ps && a != p && !IsLibrary(ps, a) && !IsLibrary(ps, p)
    && Reaches(Required(ps), a, p)
  }

  /** Whatever way leads on from a required addon, those that require it reach it without passing that way. */
  ghost predicate WaysPast(ps: Installed) {
    forall a, p, q :: Needs(ps, a, p) && SimplePath(All(ps), q, p) ==> WayPast(ps, a, p, q)
  }

  ghost predicate WayPast(ps: Installed, a: Name, p: Name, q: seq<Name>)
    requires q != []
  {
    Reaches(Avoid(All(ps), Members(q[1..])), a, p)
  }

  /** `a` reaches `p` over a last edge that lies on no cycle. */
  ghost predicate EntersOnce(ps: Installed, a: Name, p: Name, u: Name) {
    Edge(All(ps), u, p) && !Reaches(All(ps), p, u) && Reaches(All(ps), a, u)
  }

  /** So it is when each required addon can be reached over a last edge that lies on no cycle ... */
  lemma EntryIsEnough(ps: Installed)
    requires forall a, p :: Needs(ps, a, p) ==> exists u :: EntersOnce(ps, a, p, u)
    ensures WaysPast(ps)
  {
    hide Needs;
    forall a, p, q | Needs(ps, a, p) && SimplePath(All(ps), q, p) ensures WayPast(ps, a, p, q) {
      var u :| EntersOnce(ps, a, p, u);
      EntersPast(All(ps), q, u, a);
    }
  }

  /** ... above all when the dependencies are acyclic. */
  lemma AcyclicIsEnough(ps: Installed)
    requires Acyclic(All(ps))
    ensures WaysPast(ps)
  {
    var g := All(ps);
    forall a, p | Needs(ps, a, p) ensures exists u :: EntersOnce(ps, a, p, u) {
      RequiredReachesAll(ps, a, p);
      var way :| Joins(g, way, a, p);
      var k := |way| - 2;
      assert Link(g, way, k);
      AlongPath(g, way, 0, k);
      NoWayBack(g, way[k], p);
      assert EntersOnce(ps, a, p, way[k]);
    }
    EntryIsEnough(ps);
  }

  /** Addon `a` requires library `c`, which depends optionally on `a` and requires addon `p`. */
  function CycleThenAddon(a: Name, c: Name, p: Name): Installed {
    map[a := Package(Addon, [Dependency(c, true)]),
        c := Package(Library, [Dependency(a, false), Dependency(p, true)]), p := Package(Addon, [])]
  }

  lemma CycleThenAddonEdges(a: Name, c: Name, p: Name)
    requires a != c && a != p && c != p
    ensures var g := All(CycleThenAddon(a, c, p));
      && Edge(g, a, c) && Edge(g, c, a) && Edge(g, c, p) && forall v :: !Edge(g, p, v)
    ensures var r := Required(CycleThenAddon(a, c, p)); Edge(r, a, c) && Edge(r, c, p)
  {
    var ps := CycleThenAddon(a, c, p);
    assert ps[a].dependencies[0] == Dependency(c, true) && ps[c].dependencies[0] == Dependency(a, false);
    assert ps[c].dependencies[1] == Dependency(p, true);
    DepIsEdge(ps, a, 0);
    DepIsEdge(ps, c, 0);
    DepIsEdge(ps, c, 1);
    forall v ensures !Edge(All(ps), p, v) { if Edge(All(ps), p, v) { var j := EdgeIsDep(ps, false, p, v); } }
  }

  /** Cycles do no harm by themselves: the way from `a` to `p` crosses a cycle, but its last edge does not. */
  lemma CycleOnTheWay(a: Name, c: Name, p: Name)
    requires a != c && a != p && c != p
    ensures var ps := CycleThenAddon(a, c, p); WaysPast(ps) && Needs(ps, a, p) && !Acyclic(All(ps))
  {
    hide Depends, Edge, Reaches, Acyclic, WaysPast, All, Required;
    var ps := CycleThenAddon(a, c, p);
    var g := All(ps);
    CycleThenAddonEdges(a, c, p);
    EdgeReaches(g, a, c);
    EdgeReaches(Required(ps), a, c);
    ReachesOn(Required(ps), a, c, p);
    forall v | Reaches(g, p, v) ensures v == p { ClosedUnderReach(g, {p}, p, v); }
    assert EntersOnce(ps, a, p, c);
    forall x, y | Needs(ps, x, y) ensures exists u :: EntersOnce(ps, x, y, u) { RequiredReachesAll(ps, x, y); }
    EntryIsEnough(ps);
    if Acyclic(g) { NoWayBack(g, c, a); }
  }

  /** Unloading in an unload order keeps the invariant after every removal when there is always a way past,
      and in any case once the whole order has been run through. */
  lemma UnloadKeepsGood(ps: Installed, loaded: seq<Name>, names: seq<Name>, order: seq<Name>, k: nat)
    requires Good(ps, loaded) && IsUnloadOrder(ps, names, order) && k <= |order|
    requires WaysPast(ps) || k == |order|
    ensures forall n :: n in order ==> n in ps
    ensures Good(ps, Unloading(ps, loaded, order[..k]))
  {
    hide Depends, IsUnloadOrder;
    UnloadOrderIsInstalled(ps, names, order);
    UnloadingMembers(ps, loaded, order[..k]);
    var l := Unloading(ps, loaded, order[..k]);
    forall a, p | a in l && Reaches(Required(ps), a, p) && !IsLibrary(ps, p) ensures p in l {
      if p in order[..k] && a != p { GoesFirst(ps, names, order, k, a, p); }
    }
  }

  /** An addon that requires one that has been removed has been removed as well. */
  lemma GoesFirst(ps: Installed, names: seq<Name>, order: seq<Name>, k: nat, a: Name, p: Name)
    requires IsUnloadOrder(ps, names, order) && k <= |order| && (WaysPast(ps) || k == |order|)
    requires p in order[..k] && Needs(ps, a, p)
    ensures a in order[..k]
  {
    hide Reaches, Depends;
    if WaysPast(ps) {
      var i: nat :| i < k && order[i] == p;
      assert Cleared(All(ps), order, i);
      var q :| Clears(All(ps), order, i, q);
      assert WayPast(ps, a, p, q);
      assert order[..i] <= order[..k];
    } else {
      assert order[..k] == order;
      RequiredReachesAll(ps, a, p);
      var m :| m in names && Reaches(All(ps), p, m);
      ReachesOver(All(ps), a, p, m);
    }
  }

  /** Two addons: `a` requires `b`, which depends optionally on `a`. */
  function TwoOnACycle(a: Name, b: Name): Installed {
    map[a := Package(Addon, [Dependency(b, true)]), b := Package(Addon, [Dependency(a, false)])]
  }

  lemma CycleEdges(a: Name, b: Name)
    requires a != b
    ensures var ps := TwoOnACycle(a, b);
      && Edge(All(ps), a, b) && Edge(All(ps), b, a) && Reaches(Required(ps), a, b)
      && forall v :: !Edge(All(ps), v, v)
  {
    var ps := TwoOnACycle(a, b);
    assert ps[a].dependencies[0] == Dependency(b, true) && ps[b].dependencies[0] == Dependency(a, false);
    DepIsEdge(ps, a, 0);
    DepIsEdge(ps, b, 0);
    EdgeReaches(Required(ps), a, b);
    forall v ensures !Edge(All(ps), v, v) {
      if Edge(All(ps), v, v) { var j := EdgeIsDep(ps, false, v, v); }
    }
  }

  lemma CycleKeys(a: Name, b: Name)
    ensures All(TwoOnACycle(a, b)).Keys == {a, b}
  {
  }

  /** A visit that finds no dependent, or just one. */
  lemma FindsNone(g: Graph, keys: seq<Name>, name: Name, s: Search)
    requires forall k :: 0 <= k < |keys| ==> keys[k] in s.seen || !Edge(g, keys[k], name)
    ensures Unwind(g, keys, name, s) == Search(s.list + [name], s.seen)
  {
    hide Scan, Edge;
    ScanSkips(g, keys, name, 0, |keys|, s);
    ScanEnds(g, keys, name, s);
  }

  lemma FindsOne(g: Graph, keys: seq<Name>, name: Name, j: nat, s: Search, t: Search)
    requires j < |keys| && keys[j] !in s.seen && Edge(g, keys[j], name)
    requires forall k :: 0 <= k < |keys| && k != j ==> keys[k] in s.seen || !Edge(g, keys[k], name)
    requires t == Unwind(g, keys, keys[j], Search(s.list, s.seen + {keys[j]}))
    ensures Unwind(g, keys, name, s) == Search(t.list + [name], t.seen)
  {
    hide Scan, Edge, Unwind;
    ScanFinds(g, keys, name, j, s);
    ScanSkips(g, keys, name, j + 1, |keys|, t);
    ScanEnds(g, keys, name, s);
    ScanEnds(g, keys, name, t);
  }

  /** The search for `b`: it gets back to `b`, which as a root has not been coloured, and lists it first. */
  lemma CycleUnloadOrder(a: Name, b: Name, keys: seq<Name>)
    requires a != b && Distinct(keys) && Members(keys) == {a, b}
    ensures UnloadOrderOf(TwoOnACycle(a, b), keys, [b]) == [b, a, b]
  {
    hide *;
    var g := All(TwoOnACycle(a, b));
    CycleEdges(a, b);
    CycleKeys(a, b);
    var i, j := TwoPlaces(keys, a, b);
    var none, one, both := Search([], {}), Search([], {a}), Search([], {a, b});
    assert {a} + {b} == {a, b} && {} + {a} == {a};
    FindsNone(g, keys, b, both);
    FindsOne(g, keys, a, j, one, Search([b], {a, b}));
    FindsOne(g, keys, b, i, none, Search([b, a], {a, b}));
    SearchForOne(TwoOnACycle(a, b), keys, b);
  }

  lemma TwoPlaces<T(!new)>(s: seq<T>, a: T, b: T) returns (i: nat, j: nat)
    requires a != b && Distinct(s) && Members(s) == {a, b}
    ensures i < |s| && s[i] == a && forall k :: 0 <= k < |s| && k != i ==> s[k] == b
    ensures j < |s| && s[j] == b && forall k :: 0 <= k < |s| && k != j ==> s[k] == a
  {
    assert a in Members(s) && b in Members(s);
    i :| i < |s| && s[i] == a;
    j :| j < |s| && s[j] == b;
    forall k | 0 <= k < |s| ensures s[k] == a || s[k] == b { MemberAt(s, k); }
  }

  /** With an optional dependency back, a removal in the middle of what the search returns can break the
      invariant: `b` goes first, though `a`, which requires it, is still loaded. */
  lemma UnloadStepCanBreak(a: Name, b: Name, keys: seq<Name>)
    requires a != b && Distinct(keys) && Members(keys) == {a, b}
    ensures var ps := TwoOnACycle(a, b);
      var order := UnloadOrderOf(ps, keys, [b]);
      && order == [b, a, b] && (forall n :: n in order ==> n in ps)
      && Good(ps, [b, a]) && !Good(ps, Unloading(ps, [b, a], order[..1]))
  {
    var ps, order := TwoOnACycle(a, b), [b, a, b];
    hide Reaches, Depends, UnloadOrderOf;
    CycleEdges(a, b);
    CycleUnloadOrder(a, b, keys);
    TwoAreGood(ps, a, b);
    assert order[..1] == [b] && [b][..0] == [];
    assert Unloading(ps, [b, a], [b]) == Remove([b, a], b) == [a];
    assert a in [a] && b !in [a];
  }

  lemma TwoAreGood(ps: Installed, a: Name, b: Name)
    requires a != b && ps.Keys == {a, b} && !IsLibrary(ps, a) && !IsLibrary(ps, b)
    ensures Good(ps, [b, a])
  {
    var loaded := [b, a];
    forall n, p | n in loaded && Reaches(Required(ps), n, p) ensures p in loaded {
      ReachesEnds(Required(ps), n, p);
    }
  }

  /** A call of the manager: `load` up to the `upTo`-th package (all of them unless a constructor fails),
      or `unload`. */
  datatype Call = Load(names: seq<Name>, order: seq<Name>, upTo: nat) | Unload(names: seq<Name>, order: seq<Name>)

  ghost predicate Legal(ps: Installed, c: Call) {
    match c
    case Load(names, order, upTo) => IsLoadOrder(ps, names, order) && upTo <= |order|
    case Unload(names, order) => IsUnloadOrder(ps, names, order)
  }

  ghost function After(ps: Installed, loaded: seq<Name>, c: Call): seq<Name>
    requires Legal(ps, c)
  {
    match c
    case Load(names, order, upTo) => OrderIsInstalled(ps, names, order); Loading(ps, loaded, order[..upTo])
    case Unload(names, order) => UnloadOrderIsInstalled(ps, names, order); Unloading(ps, loaded, order)
  }

  /** The loaded addons after a run of calls from nothing. */
  ghost function AfterAll(ps: Installed, calls: seq<Call>): seq<Name>
    requires forall c :: c in calls ==> Legal(ps, c)
  {
    if calls == [] then [] else After(ps, AfterAll(ps, calls[..|calls| - 1]), calls[|calls| - 1])
  }

  /** Every run over a fixed set of installed packages keeps the invariant, cyclic or not. */
  lemma {:induction false} EveryRunIsGood(ps: Installed, calls: seq<Call>)
    requires forall c :: c in calls ==> Legal(ps, c)
    ensures Good(ps, AfterAll(ps, calls))
  {
    if calls != [] {
      var before, c := AfterAll(ps, calls[..|calls| - 1]), calls[|calls| - 1];
      EveryRunIsGood(ps, calls[..|calls| - 1]);
      assert Legal(ps, c);
      match c
      case Load(names, order, upTo) => LoadKeepsGood(ps, before, names, order, upTo);
      case Unload(names, order) =>
        UnloadKeepsGood(ps, before, names, order, |order|);
        assert order[..|order|] == order;
    }
  }

  /** When there is always a way past, the invariant holds inside every call of every run, too: before the
      first and after each single insertion or removal. A load keeps it in any case. */
  lemma EveryStepIsGood(ps: Installed, calls: seq<Call>, c: Call, k: nat)
    requires forall c :: c in calls ==> Legal(ps, c)
    requires Legal(ps, c) && (c.Unload? ==> WaysPast(ps)) && k <= |c.order|
    ensures forall n :: n in c.order ==> n in ps
    ensures var before := AfterAll(ps, calls);
      Good(ps, if c.Load? then Loading(ps, before, c.order[..k]) else Unloading(ps, before, c.order[..k]))
  {
    EveryRunIsGood(ps, calls);
    if c.Load? {
      LoadKeepsGood(ps, AfterAll(ps, calls), c.names, c.order, k);
    } else {
      UnloadKeepsGood(ps, AfterAll(ps, calls), c.names, c.order, k);
    }
  }

  function Filtered(order: seq<Name>, loaded: seq<Name>): seq<Name> {
    if order == [] then []
    else
      var rest := Filtered(order[..|order| - 1], loaded);
      if order[|order| - 1] in loaded then rest + [order[|order| - 1]] else rest
  }

  lemma {:induction false} RemoveAbsent(s: seq<Name>, n: Name)
    requires n !in s
    ensures Remove(s, n) == s
  {
    if s != [] { RemoveAbsent(s[1..], n); }
  }

  /** Leaving out of an unload order what is not loaded makes no difference. */
  lemma {:induction false} FilteredUnloads(ps: Installed, loaded: seq<Name>, order: seq<Name>)
    requires forall n :: n in order ==> n in ps
    requires Distinct(loaded) && forall a :: a in loaded ==> a in ps && !IsLibrary(ps, a)
    ensures forall n :: n in Filtered(order, loaded) ==> n in order
    ensures Unloading(ps, loaded, Filtered(order, loaded)) == Unloading(ps, loaded, order)
  {
    if order != [] {
      var prefix, n := order[..|order| - 1], order[|order| - 1];
      FilteredUnloads(ps, loaded, prefix);
      UnloadingMembers(ps, loaded, prefix);
      var f := Filtered(prefix, loaded);
      if n in loaded {
        assert (f + [n])[..|f|] == f;
      } else {
        RemoveAbsent(Unloading(ps, loaded, prefix), n);
      }
    }
  }

  /** Package `order[i]` needs no constructor: it is a library or an addon that is loaded by then. */
  predicate Skips(ps: Installed, loaded: seq<Name>, order: seq<Name>, i: nat)
    requires i < |order| && forall n :: n in order ==> n in ps
  {
    IsLibrary(ps, order[i]) || order[i] in Loading(ps, loaded, order[..i])
  }

  /** A load stops at the first package whose constructor runs and fails, and nowhere else. */
  ghost predicate StopsAt(ps: Installed, loaded: seq<Name>, order: seq<Name>, upTo: nat, constructs: Name -> bool)
    requires forall n :: n in order ==> n in ps
  {
    && upTo <= |order|
    && (forall i: nat :: i < upTo ==> Skips(ps, loaded, order, i) || constructs(order[i]))
    && (upTo < |order| ==> !Skips(ps, loaded, order, upTo) && !constructs(order[upTo]))
  }

  /** What a call of `load` does, given which constructors succeed; `failed` is the one that did not. */
  ghost predicate Loads(ps: Installed, before: seq<Name>, after: seq<Name>, names: seq<Name>, constructs: Name -> bool,
                        call: Call, failed: Option<Name>) {
    && Legal(ps, call) && call.Load? && call.names == names && after == After(ps, before, call)
    && (forall n :: n in call.order ==> n in ps) && StopsAt(ps, before, call.order, call.upTo, constructs)
    && failed == if call.upTo < |call.order| then Some(call.order[call.upTo]) else None
  }

  lemma LoadingNone(ps: Installed, loaded: seq<Name>)
    ensures Loading(ps, loaded, []) == loaded
  {
  }

  lemma LoadingNext(ps: Installed, loaded: seq<Name>, order: seq<Name>, i: nat)
    requires i < |order| && forall n :: n in order ==> n in ps
    ensures var before := Loading(ps, loaded, order[..i]);
      Loading(ps, loaded, order[..i + 1]) ==
        if IsLibrary(ps, order[i]) || order[i] in before then before else before + [order[i]]
  {
    assert order[..i + 1][..i] == order[..i];
  }

  class AddonManager {
    const packages: PM.PackageManager
    var loaded: seq<Name>

    ghost predicate Valid()
      reads this, packages
    {
      packages.Valid() && Good(packages.installed, loaded)
    }

    constructor (packages: PM.PackageManager)
      requires packages.Valid()
      ensures Valid() && this.packages == packages && loaded == []
    {
      this.packages := packages;
      loaded := [];
    }

    /** The private `load`. `constructs` says whether the construction of an addon succeeds; when it does
        not, the exception ends the loop. */
    method LoadPackages(ghost names: seq<Name>, order: seq<Name>, constructs: Name -> bool)
      returns (failed: Option<Name>, ghost done: nat)
      requires Valid() && IsLoadOrder(packages.installed, names, order)
      modifies this
      ensures Valid()
      ensures forall n :: n in order ==> n in packages.installed
      ensures StopsAt(packages.installed, old(loaded), order, done, constructs)
      ensures failed == if done < |order| then Some(order[done]) else None
      ensures loaded == Loading(packages.installed, old(loaded), order[..done])
    {
      hide Good, IsLoadOrder, Loading;
      var i := 0;
      failed, done := None, 0;
      LoadingNone(packages.installed, loaded);
      assert order[..0] == [];
      OrderIsInstalled(packages.installed, names, order);
      LoadKeepsGood(packages.installed, loaded, names, order, 0);
      while i < |order|
        invariant 0 <= i <= |order| && done == i
        invariant loaded == Loading(packages.installed, old(loaded), order[..i])
        invariant forall j: nat :: j < i ==> Skips(packages.installed, old(loaded), order, j) || constructs(order[j])
        invariant Valid()
      {
        var n := order[i];
        LoadingNext(packages.installed, old(loaded), order, i);
        if packages.installed[n].kind != Library {
          if n !in loaded {
            if !constructs(n) {
              return Some(n), i;
            }
            loaded := loaded + [n];
          }
        }
        LoadKeepsGood(packages.installed, old(loaded), names, order, i + 1);
        i, done := i + 1, i + 1;
      }
    }

    /** The private `unload`. */
    method UnloadPackages(order: seq<Name>)
      requires packages.Valid() && Distinct(loaded)
      requires forall n :: n in order ==> n in packages.installed
      modifies this
      ensures loaded == Unloading(packages.installed, old(loaded), order)
    {
      var i := 0;
      while i < |order|
        invariant 0 <= i <= |order|
        invariant loaded == Unloading(packages.installed, old(loaded), order[..i])
      {
        var n := order[i];
        assert order[..i + 1][..i] == order[..i];
        if packages.installed[n].kind != Library {
          Erase(n);
        }
        i := i + 1;
      }
      assert order[..i] == order;
    }

    /** The search for a loaded addon by name and its erasure. */
    method Erase(n: Name)
      modifies this
      ensures loaded == Remove(old(loaded), n)
    {
      var k := 0;
      RemoveAfter(loaded, 0, n);
      while k < |loaded| && loaded[k] != n
        invariant 0 <= k <= |loaded|
        invariant forall j :: 0 <= j < k ==> loaded[j] != n
      {
        k := k + 1;
      }
      RemoveAfter(loaded, k, n);
      if k < |loaded| {
        loaded := loaded[..k] + loaded[k + 1..];
      }
    }

    /** `load`. Either the load order cannot be had, or it is run through up to the first constructor that
        fails. */
    method Load(names: seq<Name>, constructs: Name -> bool)
      returns (error: Option<PackageError>, failed: Option<Name>, ghost call: Call)
      requires Valid()
      modifies this, packages`color
      ensures Valid()
      ensures error.Some? ==>
        && loaded == old(loaded) && failed == None
        && !Loadable(packages.installed, names) && PM.LoadBlames(packages.installed, names, error.value)
      ensures error == None ==> Loads(packages.installed, old(loaded), loaded, names, constructs, call, failed)
      ensures OptionalsLeadAway(packages.installed, names) ==> (error == None <==> Loadable(packages.installed, names))
    {
      hide Reaches, Depends, Loadable, OptionalsLeadAway, IsLoadOrder, Good;
      var r := packages.LoadOrder(names);
      call := Call.Load(names, [], 0);
      if r.Err? {
        return Some(r.error), None, call;
      }
      ghost var done;
      failed, done := LoadPackages(names, r.value, constructs);
      return None, failed, Call.Load(names, r.value, done);
    }

    method Unload(names: seq<Name>) returns (ghost call: Call)
      requires Valid()
      modifies this, packages`color
      ensures Valid()
      ensures Legal(packages.installed, call) && call.Unload? && call.names == names
      ensures call.order == UnloadOrderOf(packages.installed, packages.keys, names)
      ensures loaded == After(packages.installed, old(loaded), call)
    {
      hide Reaches, Depends, UnloadOrderOf;
      var order := packages.UnloadOrder(names);
      UnloadOrderIsInstalled(packages.installed, names, order);
      UnloadPackages(order);
      UnloadKeepsGood(packages.installed, old(loaded), names, order, |order|);
      assert order[..|order|] == order;
      call := Call.Unload(names, order);
    }

    /** Unload everything loaded that depends on `names`, then load them again. */
    method Reload(names: seq<Name>, constructs: Name -> bool)
      returns (error: Option<PackageError>, failed: Option<Name>, ghost first: Call, ghost second: Call)
      requires Valid()
      modifies this, packages`color
      ensures Valid()
      ensures Legal(packages.installed, first) && first.Unload? && first.names == names
      ensures first.order == UnloadOrderOf(packages.installed, packages.keys, names)
      ensures error.Some? ==>
        && loaded == After(packages.installed, old(loaded), first) && failed == None
        && !Loadable(packages.installed, names) && PM.LoadBlames(packages.installed, names, error.value)
      ensures error == None ==>
        Loads(packages.installed, After(packages.installed, old(loaded), first), loaded, names, constructs, second,
              failed)
      ensures OptionalsLeadAway(packages.installed, names) ==> (error == None <==> Loadable(packages.installed, names))
    {
      hide Reaches, Depends, Loadable, OptionalsLeadAway, UnloadOrderOf, IsUnloadOrder, IsLoadOrder, StopsAt, Skips;
      var order := packages.UnloadOrder(names);
      UnloadOrderIsInstalled(packages.installed, names, order);
      first := Call.Unload(names, order);
      var toUnload: seq<Name> := [];
      var i := 0;
      while i < |order|
        invariant 0 <= i <= |order|
        invariant toUnload == Filtered(order[..i], loaded)
      {
        assert order[..i + 1][..i] == order[..i];
        if order[i] in loaded {
          toUnload := toUnload + [order[i]];
        }
        i := i + 1;
      }
      assert order[..i] == order;
      FilteredUnloads(packages.installed, loaded, order);
      UnloadPackages(toUnload);
      UnloadKeepsGood(packages.installed, old(loaded), names, order, |order|);
      assert order[..|order|] == order;
      error, failed, second := Load(names, constructs);
    }

    /** `unload_all` unloads every installed package. */
    method UnloadAll() returns (ghost call: Call)
      requires Valid()
      modifies this, packages`color
      ensures Valid()
      ensures Legal(packages.installed, call) && call.Unload? && loaded == After(packages.installed, old(loaded), call)
      ensures call.order == UnloadOrderOf(packages.installed, packages.keys, packages.keys)
      ensures loaded == []
    {
      call := Unload(packages.keys);
      AllUnloaded(packages.installed, old(loaded), packages.keys, call);
    }

    /** `raise_error`: the addon in which the error was raised, and all that depend on it, are unloaded. */
    method RaiseError(name: Name) returns (ghost call: Call)
      requires Valid()
      modifies this, packages`color
      ensures Valid()
      ensures Legal(packages.installed, call) && call.Unload? && call.names == [name]
      ensures call.order == UnloadOrderOf(packages.installed, packages.keys, [name])
      ensures loaded == After(packages.installed, old(loaded), call) && name !in loaded
    {
      call := Unload([name]);
      UnloadingMembers(packages.installed, old(loaded), call.order);
      if name in packages.installed { DependsOnItself(packages.installed, name, call.order); }
    }
  }

  lemma HasMember(s: seq<Name>)
    requires s != []
    ensures Members(s) != {}
  {
    assert s[0] in Members(s);
  }

  lemma DependsOnItself(ps: Installed, name: Name, order: seq<Name>)
    requires name in ps && IsUnloadOrder(ps, [name], order)
    ensures name in order
  {
    ReachesItself(All(ps), name);
    assert DependsOn(All(ps), name, [name]);
  }

  lemma AllUnloaded(ps: Installed, loaded: seq<Name>, keys: seq<Name>, call: Call)
    requires Good(ps, loaded) && Members(keys) == ps.Keys
    requires Legal(ps, call) && call.Unload? && call.names == keys
    ensures After(ps, loaded, call) == []
  {
    UnloadOrderIsInstalled(ps, keys, call.order);
    UnloadingMembers(ps, loaded, call.order);
    forall n | n in loaded ensures n in call.order {
      assert n in Members(keys);
      ReachesItself(All(ps), n);
      assert DependsOn(All(ps), n, keys);
    }
    if After(ps, loaded, call) != [] { HasMember(After(ps, loaded, call)); }
  }

  lemma {:induction false} RemovePast(s: seq<Name>, k: nat, n: Name)
    requires k <= |s| && forall j :: 0 <= j < k ==> s[j] != n
    ensures Remove(s, n) == s[..k] + Remove(s[k..], n)
  {
    if k == 0 {
      assert s[0..] == s && s[..0] == [];
    } else {
      var rest := s[1..];
      RemovePast(rest, k - 1, n);
      assert rest[k - 1..] == s[k..] && [s[0]] + rest[..k - 1] == s[..k];
    }
  }

  lemma RemoveAfter(s: seq<Name>, k: nat, n: Name)
    requires k <= |s| && forall j :: 0 <= j < k ==> s[j] != n
    ensures k == |s| ==> Remove(s, n) == s
    ensures k < |s| && s[k] == n ==> Remove(s, n) == s[..k] + s[k + 1..]
  {
    RemovePast(s, k, n);
    if k < |s| { assert s[k..][1..] == s[k + 1..]; } else { assert s[k..] == []; }
  }
}
