/** The package manager: the installed packages, the vertex colours its searches use, and the searches. */
module PackageManager {
  import opened Graphs
  import opened Packages
  import opened CycleReport
  import opened LoadSearch
  import opened UnloadSearch
  import opened Sequences

  /** What was seen of a dependency stays seen. */
  lemma SeenStays(ps: Installed, before: Colors, after: Colors, name: Name, j: nat)
    requires before.Keys == ps.Keys && Advances(before, after) && Dep(ps, name, j) && Seen(ps, before, name, j)
    ensures Seen(ps, after, name, j)
  {
  }

  /** The blame of a dependency is the blame of the package. */
  lemma BlamePasses(ps: Installed, name: Name, required: bool, j: nat, e: PackageError)
    requires Dep(ps, name, j) && Blames(ps, DepName(ps, name, j), ps[name].dependencies[j].required, e)
    ensures Blames(ps, name, required, e)
  {
    var d := ps[name].dependencies[j];
    ReachesItself(All(ps), name);
    if d.name in ps { DepIsEdge(ps, name, j); EdgeReaches(All(ps), name, d.name); }
    match e
    case MissingDependency(m) =>
      if m == d.name && d.required {
        assert Misses(ps, name, name, j, m);
      } else {
        var u, k: nat :| Misses(ps, d.name, u, k, m);
        ReachesEnds(All(ps), d.name, u);
        ReachesOver(All(ps), name, d.name, u);
        assert Misses(ps, name, u, k, m);
      }
    case DependencyCycle(c) =>
      ReachesEnds(All(ps), d.name, c[0]);
      ReachesOver(All(ps), name, d.name, c[0]);
    case CycleReportHangs(s) =>
      ReachesEnds(All(ps), d.name, s);
      ReachesOver(All(ps), name, d.name, s);
      var u, k: nat :| Strays(ps, d.name, u, k);
      ReachesOver(All(ps), name, d.name, u);
      assert Strays(ps, name, u, k);
    case NotInstalled(_) =>
  }

  /** What a dependency's visit changed is reachable from the package. */
  lemma VisitPasses(ps: Installed, name: Name, j: nat, first: Colors, before: Colors, after: Colors)
    requires Dep(ps, name, j) && first.Keys == before.Keys == after.Keys == ps.Keys
    requires VisitedFrom(ps, name, first, before) && VisitedFrom(ps, DepName(ps, name, j), before, after)
    ensures VisitedFrom(ps, name, first, after)
  {
    forall n | n in first && n in after && first[n] != after[n] ensures Reaches(All(ps), name, n) {
      if before[n] != after[n] {
        ReachesEnds(All(ps), DepName(ps, name, j), n);
        DepIsEdge(ps, name, j);
        EdgeReaches(All(ps), name, DepName(ps, name, j));
        ReachesOver(All(ps), name, DepName(ps, name, j), n);
      }
    }
  }

  /** What a blame means for the load as a whole. */
  lemma BlamedIsNotLoadable(ps: Installed, names: seq<Name>, name: Name, e: PackageError)
    requires name in names && name in ps && Blames(ps, name, true, e)
    ensures !Loadable(ps, names)
  {
    match e
    case MissingDependency(m) =>
      var u, j: nat :| Misses(ps, name, u, j, m);
      assert ReachedFrom(All(ps), names, u);
    case DependencyCycle(c) =>
      assert Joins(All(ps), c, c[0], Last(c));
      ReachesOver(All(ps), name, c[0], Last(c));
      assert ReachedFrom(All(ps), names, Last(c));
    case CycleReportHangs(s) =>
      var u :| Edge(All(ps), u, s) && Reaches(All(ps), s, u);
      ReachesOver(All(ps), name, s, u);
      assert ReachedFrom(All(ps), names, u);
    case NotInstalled(_) =>
  }

  lemma NoGrayLeft(ps: Installed, color: Colors, n: Name)
    requires FramesOk(ps, color, []) && n in ps
    ensures color[n] != Gray
  {
    assert IsGray(color, n) ==> n in FrameNames([]);
  }

  lemma SettledForGood(ps: Installed, color: Colors, results: seq<Name>, i: nat, j: nat)
    requires Searching(ps, color, results, []) && i < |results| && Dep(ps, results[i], j)
    ensures var d := ps[results[i]].dependencies[j];
      && (d.required ==> d.name in results[..i])
      && (d.name in ps ==> d.name in results)
      && (d.name in ps ==> d.name in results[..i] || Reaches(All(ps), d.name, results[i]))
  {
    assert Settled(ps, color, results, i, j);
    var d := DepName(ps, results[i], j);
    if d in ps { NoGrayLeft(ps, color, d); }
  }

  lemma ResultsClosed(ps: Installed, color: Colors, results: seq<Name>, u: Name, n: Name)
    requires Searching(ps, color, results, []) && u in results && Reaches(All(ps), u, n)
    ensures n in results
  {
    forall a, b | a in Members(results) && Edge(All(ps), a, b) ensures b in Members(results) {
      var i: nat :| i < |results| && results[i] == a;
      var j := EdgeIsDep(ps, false, a, b);
      SettledForGood(ps, color, results, i, j);
    }
    ClosedUnderReach(All(ps), Members(results), u, n);
  }

  /** A search that has come to an end leaves a load order. */
  lemma FinishedIsOrder(ps: Installed, names: seq<Name>, color: Colors, results: seq<Name>)
    requires Searching(ps, color, results, [])
    requires forall n :: n in names ==> n in results
    requires forall n :: n in results ==> ReachedFrom(All(ps), names, n)
    ensures IsLoadOrder(ps, names, results)
  {
    forall n | ReachedFrom(All(ps), names, n) ensures n in results {
      var u :| u in names && Reaches(All(ps), u, n);
      ResultsClosed(ps, color, results, u, n);
    }
    assert DependenciesFirst(ps, results) by {
      forall i: nat, j: nat | i < |results| && Dep(ps, results[i], j) && ps[results[i]].dependencies[j].required
        ensures DepName(ps, results[i], j) in results[..i]
      {
        SettledForGood(ps, color, results, i, j);
      }
    }
    assert OptionalFirst(ps, results) by {
      forall i: nat, j: nat | i < |results| && Dep(ps, results[i], j) && DepName(ps, results[i], j) in ps
        ensures DepName(ps, results[i], j) in results[..i] || Reaches(All(ps), DepName(ps, results[i], j), results[i])
      {
        SettledForGood(ps, color, results, i, j);
      }
    }
  }

  lemma GrayIsFramed(ps: Installed, color: Colors, results: seq<Name>, frames: seq<Frame>, name: Name)
    requires Searching(ps, color, results, frames) && name in ps && color[name] == Gray
    ensures FramesOk(ps, color, frames) && IsGray(color, name)
  {
  }

  lemma FreshSearch(ps: Installed, color: Colors)
    requires color.Keys == ps.Keys && forall n :: n in color ==> color[n] == White
    ensures Searching(ps, color, [], [])
  {
  }

  lemma EmptyOrder(ps: Installed)
    ensures IsLoadOrder(ps, [], []) && Loadable(ps, [])
  {
  }

  /** What the error of a failed load says. */
  ghost predicate LoadBlames(ps: Installed, names: seq<Name>, e: PackageError) {
    match e
    case NotInstalled(n) => n in names && n !in ps
    case MissingDependency(m) => m !in ps && exists n, u, j: nat :: n in names && Misses(ps, n, u, j, m)
    case DependencyCycle(c) =>
      && SimpleCycle(All(ps), c) && ReachedFrom(All(ps), names, c[0])
      && (OptionalsLeadAway(ps, names) ==> SimpleCycle(Required(ps), c))
    case CycleReportHangs(s) =>
      ReachedFrom(All(ps), names, s) && OnCycle(ps, s) && !OptionalsLeadAway(ps, names)
  }

  lemma BlamesItself(ps: Installed, name: Name)
    requires name !in ps
    ensures Blames(ps, name, true, MissingDependency(name))
  {
  }

  /** All names are listed. */
  lemma AllRooted(ps: Installed, names: seq<Name>, color: Colors, results: seq<Name>)
    requires Searching(ps, color, results, []) && Rooted(ps, names, |names|, results)
    ensures forall n :: n in names ==> n in ps && n in results
  {
  }

  lemma MissingName(ps: Installed, names: seq<Name>, n: Name)
    requires n in names && n !in ps
    ensures !Loadable(ps, names) && LoadBlames(ps, names, NotInstalled(n))
  {
  }

  lemma RootBlame(ps: Installed, names: seq<Name>, name: Name, e: PackageError)
    requires name in names && name in ps && Blames(ps, name, true, e)
    ensures !Loadable(ps, names) && LoadBlames(ps, names, e)
  {
    BlamedIsNotLoadable(ps, names, name, e);
    if e.DependencyCycle? && OptionalsLeadAway(ps, names) { CycleIsRequired(ps, names, e.names); }
  }

  /** If no optional dependency in reach leads back, a cycle in reach is one of required dependencies. */
  lemma CycleIsRequired(ps: Installed, names: seq<Name>, c: seq<Name>)
    requires OptionalsLeadAway(ps, names) && SimpleCycle(All(ps), c) && ReachedFrom(All(ps), names, c[0])
    ensures SimpleCycle(Required(ps), c)
  {
    hide OptionalsLeadAway, Depends, Edge;
    var g, m := All(ps), |c| - 1;
    var n :| n in names && Reaches(g, n, c[0]);
    AlongPath(g, c, 0, m);
    forall i | 0 <= i < m ensures Link(Required(ps), c, i) {
      assert Link(g, c, i);
      AlongPath(g, c, 0, i);
      AlongPath(g, c, i + 1, m);
      ReachesOver(g, n, c[0], c[i]);
      ReachesOn(g, c[i + 1], c[m], c[0]);
      ReachesOver(g, c[i + 1], c[0], c[i]);
      CycleEdgeIsRequired(ps, names, c[i], c[i + 1]);
    }
    ReachesOver(g, n, c[0], c[m]);
    CycleEdgeIsRequired(ps, names, c[m], c[0]);
  }

  /** The first `i` names are listed, and everything listed is reached from the names. */
  ghost predicate Rooted(ps: Installed, names: seq<Name>, i: nat, results: seq<Name>) {
    && (forall k :: 0 <= k < i && k < |names| ==> names[k] in results)
    && forall n :: n in results ==> ReachedFrom(All(ps), names, n)
  }

  lemma RootVisited(ps: Installed, names: seq<Name>, i: nat, before: Colors, after: Colors,
                    was: seq<Name>, results: seq<Name>)
    requires i < |names| && Searching(ps, before, was, []) && Rooted(ps, names, i, was)
    requires Visit(ps, before, after, was, results, [], names[i], true)
    ensures Searching(ps, after, results, []) && Rooted(ps, names, i + 1, results)
  {
    forall n | n in results ensures ReachedFrom(All(ps), names, n) {
      if n !in was { assert before[n] != after[n]; }
    }
  }

  /** What the report comes to: the names up to the first return to the start, or it never returns. */
  ghost predicate Reports(ps: Installed, color: Colors, start: Name, e: PackageError)
    requires start in ps
  {
    match e
    case DependencyCycle(names) => Returns(ps, color, start, |names|) && names == Report(ps, color, start, |names|)
    case CycleReportHangs(s) => s == start && forall k: nat :: k > 0 ==> Orbit(ps, color, start, k) != start
    case _ => false
  }

  lemma FirstReported(ps: Installed, color: Colors, start: Name)
    requires start in ps
    ensures Report(ps, color, start, 1) == [start] && Orbit(ps, color, start, 1) == Next(ps, color, start)
  {
    assert Report(ps, color, start, 0) == [];
  }

  lemma NextReported(ps: Installed, color: Colors, start: Name, k: nat)
    requires start in ps
    ensures Report(ps, color, start, k + 1) == Report(ps, color, start, k) + [Orbit(ps, color, start, k)]
    ensures Orbit(ps, color, start, k + 1) == Next(ps, color, Orbit(ps, color, start, k))
  {
  }

  /** A report has one length. */
  lemma ReturnsOnce(ps: Installed, color: Colors, start: Name, k: nat, e: PackageError)
    requires start in ps && Returns(ps, color, start, k) && Reports(ps, color, start, e)
    ensures e == DependencyCycle(Report(ps, color, start, k))
  {
    if e.DependencyCycle? {
      var n := |e.names|;
      assert !(n < k) && !(k < n);
    }
  }

  /** The report follows its way through the search stack once round, if that leads round at all. */
  ghost predicate GoesRound(ps: Installed, color: Colors, frames: seq<Frame>, name: Name, e: PackageError) {
    var stack := FrameNames(frames);
    exists s: nat, i: nat, t: nat :: GoesBack(ps, color, stack, s, i, t) && stack[s] == name &&
      e == if t <= s && Climbs(ps, color, stack, t, s) then DependencyCycle(stack[s..i + 1] + stack[t..s])
           else CycleReportHangs(name)
  }

  lemma ReportIsRound(ps: Installed, color: Colors, frames: seq<Frame>, name: Name, e: PackageError)
    requires FramesOk(ps, color, frames) && Entering(ps, frames, name, true) && IsGray(color, name)
    requires name in ps && Reports(ps, color, name, e)
    ensures GoesRound(ps, color, frames, name, e)
    ensures e.CycleReportHangs? ==> exists u, j: nat :: Strays(ps, name, u, j)
  {
    hide FramesOk, Entering, GoesBack, LeadsBack, Climbs;
    var stack := FrameNames(frames);
    var s, i, t := ReportsWay(ps, color, frames, name);
    if t <= s && Climbs(ps, color, stack, t, s) {
      ReportGoesRound(ps, color, stack, s, i, t);
      ReturnsOnce(ps, color, name, i + 1 - t, e);
    } else {
      ReportEndsExactly(ps, color, stack, s, i, t);
      if forall u, j: nat :: !Strays(ps, name, u, j) {
        WayIsUp(ps, color, frames, name, s, i, t);
        assert false;
      }
    }
  }

  /** What has been coloured. */
  function Coloured(color: Colors): (r: set<Name>)
    ensures r <= color.Keys
  {
    set n | n in color && color[n] != White
  }

  lemma ColouredOrNot(color: Colors, v: Name)
    requires v in color
    ensures v in Coloured(color) <==> color[v] != White
  {
  }

  lemma NoneColoured(color: Colors)
    requires forall n :: n in color ==> color[n] == White
    ensures Coloured(color) == {}
  {
  }

  lemma ColourOne(color: Colors, v: Name)
    requires v in color
    ensures Coloured(color[v := Gray]) == Coloured(color) + {v}
    ensures color[v] != White ==> Coloured(color[v := Black]) == Coloured(color)
  {
  }

  /** A completed visit of `name`. */
  ghost predicate Visit(ps: Installed, before: Colors, after: Colors, was: seq<Name>, results: seq<Name>,
                        frames: seq<Frame>, name: Name, required: bool) {
    && before.Keys == after.Keys == ps.Keys
    && Advances(before, after)
    && Searching(ps, after, results, frames)
    && was <= results
    && VisitedFrom(ps, name, before, after)
    && (name in ps ==> after[name] != White)
    && (required || (name in ps && before[name] == White) ==> name in ps && after[name] == Black)
  }

  /** A visit of `name` whose first `i` dependencies have been seen to. */
  ghost predicate Visiting(ps: Installed, first: Colors, color: Colors, was: seq<Name>, results: seq<Name>,
                           frames: seq<Frame>, name: Name, i: nat) {
    && first.Keys == color.Keys == ps.Keys
    && name in ps && first[name] == White
    && Advances(first, color) && Advances(first[name := Gray], color)
    && Searching(ps, color, results, frames + [Frame(name, i)])
    && was <= results
    && VisitedFrom(ps, name, first, color)
    && forall j: nat :: j < i && Dep(ps, name, j) ==> Seen(ps, color, name, j)
  }

  lemma NothingToVisit(ps: Installed, color: Colors, results: seq<Name>, frames: seq<Frame>, name: Name, required: bool)
    requires Searching(ps, color, results, frames)
    requires if name in ps then color[name] == Black || (color[name] == Gray && !required) else !required
    ensures Visit(ps, color, color, results, results, frames, name, required)
  {
  }

  lemma BeginVisit(ps: Installed, color: Colors, results: seq<Name>, frames: seq<Frame>, name: Name, required: bool)
    requires Searching(ps, color, results, frames) && Entering(ps, frames, name, required)
    requires name in ps && color[name] == White
    ensures Visiting(ps, color, color[name := Gray], results, results, frames, name, 0)
    ensures |Whites(color[name := Gray])| < |Whites(color)|
  {
    Enter(ps, color, results, frames, name, required);
  }

  lemma DependencyEntered(ps: Installed, first: Colors, color: Colors, was: seq<Name>, results: seq<Name>,
                          frames: seq<Frame>, name: Name, i: nat)
    requires Visiting(ps, first, color, was, results, frames, name, i) && Dep(ps, name, i)
    ensures Searching(ps, color, results, frames + [Frame(name, i)])
    ensures Entering(ps, frames + [Frame(name, i)], DepName(ps, name, i), ps[name].dependencies[i].required)
  {
  }

  lemma DependencySeen(ps: Installed, color: Colors, name: Name, i: nat)
    requires Dep(ps, name, i) && color.Keys == ps.Keys
    requires var m, required := DepName(ps, name, i), ps[name].dependencies[i].required;
      (m in ps ==> color[m] != White) && (required ==> m in ps && color[m] == Black)
    ensures Seen(ps, color, name, i)
  {
  }

  lemma DependencyVisited(ps: Installed, first: Colors, before: Colors, after: Colors, was: seq<Name>,
                          mid: seq<Name>, results: seq<Name>, frames: seq<Frame>, name: Name, i: nat)
    requires Visiting(ps, first, before, was, mid, frames, name, i) && Dep(ps, name, i)
    requires Visit(ps, before, after, mid, results, frames + [Frame(name, i)],
                   DepName(ps, name, i), ps[name].dependencies[i].required)
    ensures Visiting(ps, first, after, was, results, frames, name, i + 1)
    ensures |Whites(after)| <= |Whites(before)|
  {
    hide Searching, Reaches, Seen, VisitedFrom, Whites;
    WhitesShrink(before, after);
    DependencySeen(ps, after, name, i);
    forall j: nat | j < i + 1 && Dep(ps, name, j) ensures Seen(ps, after, name, j) {
      if j < i { SeenStays(ps, before, after, name, j); }
    }
    VisitPasses(ps, name, i, first, before, after);
    Advance(ps, after, results, frames, name, i);
  }

  lemma FinishVisit(ps: Installed, first: Colors, color: Colors, was: seq<Name>, results: seq<Name>,
                    frames: seq<Frame>, name: Name, required: bool)
    requires name in ps && Visiting(ps, first, color, was, results, frames, name, |ps[name].dependencies|)
    ensures Visit(ps, first, color[name := Black], was, results + [name], frames, name, required)
  {
    hide Searching, Reaches, Seen;
    Leave(ps, color, results, frames, name, |ps[name].dependencies|);
    ReachesItself(All(ps), name);
  }

  class PackageManager {
    var installed: Installed
    /** The keys of the installed packages in the order of the map that holds them. */
    var keys: seq<Name>
    var color: Colors

    ghost predicate Valid()
      reads this
    {
      && Distinct(keys)
      && Members(keys) == installed.Keys
      && color.Keys == installed.Keys
    }

    constructor (packages: Installed, order: seq<Name>)
      requires Distinct(order) && Members(order) == packages.Keys
      ensures Valid() && installed == packages && keys == order
    {
      installed, keys := packages, order;
      color := map n | n in packages :: White;
    }

    method Clear()
      requires Valid()
      modifies this`color
      ensures Valid() && forall n :: n in color ==> color[n] == White
    {
      color := map n | n in installed :: White;
    }

    /** The search for the first gray dependency inside `throw_cycle_error`. */
    method FollowGray(p: Name) returns (q: Name)
      requires Valid() && p in installed
      ensures q == Next(installed, color, p)
    {
      var ds := installed[p].dependencies;
      var i := 0;
      while i < |ds|
        invariant 0 <= i <= |ds|
        invariant FirstGray(installed, color, ds, 0) == FirstGray(installed, color, ds, i)
      {
        if ds[i].name in installed && color[ds[i].name] == Gray {
          return ds[i].name;
        }
        i := i + 1;
      }
      return p;
    }

    /** `throw_cycle_error`. The source loops until it is back at the start; here the loop gives up after
        as many steps as there are packages, and the postcondition says that the source then loops forever. */
    method ThrowCycleError(start: Name) returns (e: PackageError)
      requires Valid() && start in installed
      ensures Reports(installed, color, start, e)
    {
      hide Orbit, Report, Next;
      var names := [start];
      var p := FollowGray(start);
      FirstReported(installed, color, start);
      while p != start && |names| <= |installed|
        invariant p == Orbit(installed, color, start, |names|)
        invariant |names| > 0 && names == Report(installed, color, start, |names|)
        invariant forall i :: 0 < i < |names| ==> Orbit(installed, color, start, i) != start
        decreases |installed| - |names|
      {
        NextReported(installed, color, start, |names|);
        names := names + [p];
        p := FollowGray(p);
      }
      if p == start {
        return DependencyCycle(names);
      }
      forall k: nat | k > 0 ensures Orbit(installed, color, start, k) != start {
        NeverReturns(installed, color, start, k);
      }
      return CycleReportHangs(start);
    }

    /** A gray package is met as a required dependency. */
    method Recur(name: Name, ghost frames: seq<Frame>) returns (e: PackageError)
      requires Valid() && FramesOk(installed, color, frames) && Entering(installed, frames, name, true)
      requires IsGray(color, name)
      ensures Blames(installed, name, true, e)
      ensures GoesRound(installed, color, frames, name, e)
      ensures (forall u, j: nat :: !Strays(installed, name, u, j)) ==>
        exists s :: 0 <= s < |frames| && frames[s].name == name && e == DependencyCycle(FrameNames(frames)[s..])
    {
      e := ThrowCycleError(name);
      MeetsGray(installed, color, frames, name);
      ReachesItself(All(installed), name);
      ReportIsRound(installed, color, frames, name, e);
      if forall u, j: nat :: !Strays(installed, name, u, j) {
        var s := ReportIsSegment(installed, color, frames, name);
        ReturnsOnce(installed, color, name, |frames| - s, e);
      }
      if e.DependencyCycle? { ReportIsCycle(installed, color, name, |e.names|); }
    }

    /** `topological_sort`. The ghost argument is the stack of activations below this one. */
    method TopologicalSort(results: seq<Name>, name: Name, required: bool, ghost frames: seq<Frame>)
      returns (results': seq<Name>, error: Option<PackageError>)
      requires Valid() && Searching(installed, color, results, frames) && Entering(installed, frames, name, required)
      modifies this`color
      ensures Valid()
      ensures error.Some? ==> Blames(installed, name, required, error.value)
      ensures error == None ==> Visit(installed, old(color), color, results, results', frames, name, required)
      decreases |Whites(color)|
    {
      hide Searching, FramesOk, ResultsOk, Reaches, Visit, Visiting, Entering, Whites, Blames;
      results', error := results, None;
      if name !in installed {
        if required {
          BlamesItself(installed, name);
          error := Some(MissingDependency(name));
        } else {
          NothingToVisit(installed, color, results, frames, name, required);
        }
        return;
      }
      if color[name] == Gray && required {
        GrayIsFramed(installed, color, results, frames, name);
        var e := Recur(name, frames);
        return results, Some(e);
      }
      if color[name] != White {
        NothingToVisit(installed, color, results, frames, name, required);
        return;
      }
      ghost var first := color;
      BeginVisit(installed, color, results, frames, name, required);
      color := color[name := Gray];
      var ds := installed[name].dependencies;
      var i := 0;
      while i < |ds|
        invariant 0 <= i <= |ds|
        invariant Valid() && |Whites(color)| < |Whites(first)|
        invariant Visiting(installed, first, color, results, results', frames, name, i) && error == None
      {
        ghost var before, mid := color, results';
        DependencyEntered(installed, first, color, results, results', frames, name, i);
        results', error := TopologicalSort(results', ds[i].name, ds[i].required, frames + [Frame(name, i)]);
        if error.Some? {
          BlamePasses(installed, name, required, i, error.value);
          return;
        }
        DependencyVisited(installed, first, before, color, results, mid, results', frames, name, i);
        i := i + 1;
      }
      FinishVisit(installed, first, color, results, results', frames, name, required);
      color := color[name := Black];
      results' := results' + [name];
    }

    /** `load_order_impl`. */
    method LoadOrder(names: seq<Name>) returns (r: Result<seq<Name>>)
      requires Valid()
      modifies this`color
      ensures Valid()
      ensures r.Ok? ==> IsLoadOrder(installed, names, r.value)
      ensures r.Err? ==> !Loadable(installed, names) && LoadBlames(installed, names, r.error)
      ensures r.Ok? ==> (Loadable(installed, names) <==> OptionalsLeadAway(installed, names))
      ensures OptionalsLeadAway(installed, names) ==> (r.Ok? <==> Loadable(installed, names))
    {
      hide Searching, IsLoadOrder, Loadable, OptionalsLeadAway, Visit, Blames, LoadBlames, Reaches;
      var results: seq<Name> := [];
      if names == [] {
        EmptyOrder(installed);
        OrderedIsLoadable(installed, names, []);
        return Ok([]);
      }
      Clear();
      FreshSearch(installed, color);
      var i := 0;
      while i < |names|
        invariant 0 <= i <= |names|
        invariant Valid() && Searching(installed, color, results, [])
        invariant Rooted(installed, names, i, results)
      {
        if names[i] !in installed {
          MissingName(installed, names, names[i]);
          return Err(NotInstalled(names[i]));
        }
        ghost var before, was := color, results;
        var error;
        results, error := TopologicalSort(results, names[i], true, []);
        if error.Some? {
          RootBlame(installed, names, names[i], error.value);
          return Err(error.value);
        }
        RootVisited(installed, names, i, before, color, was, results);
        i := i + 1;
      }
      AllRooted(installed, names, color, results);
      FinishedIsOrder(installed, names, color, results);
      OrderedIsLoadable(installed, names, results);
      return Ok(results);
    }

    /** The search for a dependency by name inside `reverse_topological_sort`. */
    method HasDependency(v: Name, name: Name) returns (found: bool)
      requires Valid() && v in installed && name in installed
      ensures found <==> Edge(All(installed), v, name)
    {
      var ds := installed[v].dependencies;
      var i := 0;
      while i < |ds|
        invariant 0 <= i <= |ds|
        invariant forall k :: 0 <= k < i ==> ds[k].name != name
      {
        if ds[i].name == name {
          DepIsEdge(installed, v, i);
          return true;
        }
        i := i + 1;
      }
      if Edge(All(installed), v, name) {
        var j := EdgeIsDep(installed, false, v, name);
      }
      return false;
    }

    /** `reverse_topological_sort`. */
    method ReverseTopologicalSort(results: seq<Name>, name: Name) returns (results': seq<Name>)
      requires Valid()
      modifies this`color
      ensures Valid()
      ensures name !in installed ==> results' == results && color == old(color)
      ensures name in installed ==>
        Search(results', Coloured(color)) ==
        Unwind(All(installed), keys, name, Search(results, Coloured(old(color))))
      decreases |installed.Keys - Coloured(color)|
    {
      hide Scan, Unwind, Edge, Coloured, Depends, Distinct, Members, All;
      results' := results;
      if name !in installed {
        return;
      }
      ghost var g, first := All(installed), Search(results, Coloured(color));
      var i := 0;
      while i < |keys|
        invariant 0 <= i <= |keys|
        invariant Valid() && Coloured(color) >= first.seen
        invariant Scan(g, keys, name, i, Search(results', Coloured(color))) == Scan(g, keys, name, 0, first)
      {
        var v := keys[i];
        MemberAt(keys, i);
        ghost var now := Search(results', Coloured(color));
        ScanStep(g, keys, name, i, now);
        ColouredOrNot(color, v);
        var found := HasDependency(v, name);
        if color[v] == White && found {
          ColourOne(color, v);
          FewerLeft(installed.Keys, first.seen, now.seen + {v}, v);
          color := color[v := Gray];
          ghost var entered := Search(results', Coloured(color));
          assert entered == Search(now.list, now.seen + {v});
          results' := ReverseTopologicalSort(results', v);
          assert Search(results', Coloured(color)) == Unwind(g, keys, v, entered);
          ColouredOrNot(color, v);
          ColourOne(color, v);
          color := color[v := Black];
        }
        i := i + 1;
      }
      ScanEnds(g, keys, name, first);
      ScanEnds(g, keys, name, Search(results', Coloured(color)));
      results' := results' + [name];
    }

    /** `unload_order_impl`. */
    method UnloadOrder(names: seq<Name>) returns (order: seq<Name>)
      requires Valid()
      modifies this`color
      ensures Valid()
      ensures order == UnloadOrderOf(installed, keys, names)
      ensures IsUnloadOrder(installed, names, order)
    {
      hide Unwind, IsUnloadOrder, Coloured, SearchFor, UnloadOrderOf, All, Distinct, Members;
      FinishedIsUnloadOrder(installed, keys, names);
      SearchEnds(installed, keys, names);
      order := [];
      if names == [] {
        return;
      }
      Clear();
      NoneColoured(color);
      ghost var g := All(installed);
      var i := 0;
      while i < |names|
        invariant 0 <= i <= |names|
        invariant Valid() && Search(order, Coloured(color)) == SearchFor(g, keys, names[..i])
      {
        SearchStep(g, keys, names, i);
        order := ReverseTopologicalSort(order, names[i]);
        i := i + 1;
      }
      assert names[..i] == names;
    }

    /** The part of `uninstall` that forgets the packages; removing their files is not part of this model. */
    method Uninstall(names: seq<Name>)
      requires Valid()
      modifies this
      ensures Valid()
      ensures installed == old(installed) - Members(names)
    {
      var i := 0;
      while i < |names|
        invariant 0 <= i <= |names|
        invariant Valid() && installed == old(installed) - Members(names[..i])
      {
        var name := names[i];
        assert Members(names[..i + 1]) == Members(names[..i]) + {name};
        if name in installed {
          Erase(name);
        }
        i := i + 1;
      }
      assert names[..i] == names;
    }

    method Erase(name: Name)
      requires Valid() && name in installed
      modifies this
      ensures Valid() && installed == old(installed) - {name}
    {
      assert name in Members(keys);
      var k := 0;
      while keys[k] != name
        invariant 0 <= k < |keys|
        invariant forall j :: 0 <= j < k ==> keys[j] != name
        invariant name in keys
        decreases |keys| - k
      {
        assert exists j :: 0 <= j < |keys| && keys[j] == name;
        k := k + 1;
      }
      installed := installed - {name};
      color := color - {name};
      WithoutKey(keys, k);
      keys := keys[..k] + keys[k + 1..];
    }
  }

  lemma WithoutKey(keys: seq<Name>, k: nat)
    requires Distinct(keys) && k < |keys|
    ensures Distinct(keys[..k] + keys[k + 1..])
    ensures Members(keys[..k] + keys[k + 1..]) == Members(keys) - {keys[k]}
  {
    var rest := keys[..k] + keys[k + 1..];
    forall n | n in Members(keys) - {keys[k]} ensures n in Members(rest) {
      var i :| 0 <= i < |keys| && keys[i] == n;
      assert rest[if i < k then i else i - 1] == n;
    }
  }
}
