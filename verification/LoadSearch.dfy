/** The state of the depth-first search behind `load_order`, and what each of its steps keeps. */
module LoadSearch {
  import opened Graphs
  import opened Packages
  import opened CycleReport
  import opened Sequences

  /** An activation of `topological_sort`: the package being visited and its current dependency. */
  datatype Frame = Frame(name: Name, next: nat)

  function FrameNames(frames: seq<Frame>): (ns: seq<Name>)
    ensures |ns| == |frames| && forall i :: 0 <= i < |frames| ==> ns[i] == frames[i].name
  {
    seq(|frames|, i requires 0 <= i < |frames| => frames[i].name)
  }

  /** Dependency `j` of the finished package `results[i]`. An installed one has been visited; it is listed
      before, or it lies on a cycle with the package, which for a required one is impossible. */
  ghost predicate Settled(ps: Installed, color: Colors, results: seq<Name>, i: nat, j: nat)
    requires i < |results| && Dep(ps, results[i], j) && color.Keys == ps.Keys
  {
    var d, required := DepName(ps, results[i], j), ps[results[i]].dependencies[j].required;
    && (required ==> d in results[..i])
    && (d in ps ==> color[d] != White && (d in results[..i] || Reaches(All(ps), d, results[i])))
  }

  /** The black packages are the results, each of them settled. */
  ghost predicate ResultsOk(ps: Installed, color: Colors, results: seq<Name>) {
    && color.Keys == ps.Keys
    && Distinct(results)
    && (forall n :: n in results ==> n in ps)
    && (forall n :: n in ps ==> (color[n] == Black <==> n in results))
    && forall i: nat, j: nat :: i < |results| && Dep(ps, results[i], j) ==> Settled(ps, color, results, i, j)
  }

  ghost predicate FrameOk(ps: Installed, color: Colors, frames: seq<Frame>, i: nat)
    requires i < |frames|
  {
    && frames[i].name in ps && IsGray(color, frames[i].name)
    && frames[i].next <= |ps[frames[i].name].dependencies|
    && (i + 1 < |frames| ==> Dep(ps, frames[i].name, frames[i].next) &&
                             DepName(ps, frames[i].name, frames[i].next) == frames[i + 1].name)
  }

  /** A dependency that frame `i` has passed: an installed one has been visited, a required one is finished,
      and a gray one lies on the stack, no higher than the frame. */
  ghost predicate Passed(ps: Installed, color: Colors, frames: seq<Frame>, i: nat, j: nat)
    requires i < |frames| && Dep(ps, frames[i].name, j)
  {
    var d, required := DepName(ps, frames[i].name, j), ps[frames[i].name].dependencies[j].required;
    && (d in ps ==> d in color && color[d] != White)
    && (required ==> d in color && color[d] == Black)
    && (IsGray(color, d) ==> d in FrameNames(frames)[..i + 1])
  }

  /** The gray packages are those on the search stack, each a dependency of the one below. */
  ghost predicate FramesOk(ps: Installed, color: Colors, frames: seq<Frame>) {
    && color.Keys == ps.Keys
    && Distinct(FrameNames(frames))
    && (forall i: nat :: i < |frames| ==> FrameOk(ps, color, frames, i))
    && (forall n :: IsGray(color, n) ==> n in FrameNames(frames))
    && forall i: nat, j: nat ::
         i < |frames| && j < frames[i].next && Dep(ps, frames[i].name, j) ==> Passed(ps, color, frames, i, j)
  }

  ghost predicate Searching(ps: Installed, color: Colors, results: seq<Name>, frames: seq<Frame>) {
    ResultsOk(ps, color, results) && FramesOk(ps, color, frames)
  }

  /** `name` is visited as the current dependency of the top frame (or as a root). */
  predicate Entering(ps: Installed, frames: seq<Frame>, name: Name, required: bool) {
    frames != [] ==>
      var f := frames[|frames| - 1];
      Dep(ps, f.name, f.next) && ps[f.name].dependencies[f.next] == Dependency(name, required)
  }

  /** Colours only change away from white. */
  ghost predicate Advances(before: Colors, after: Colors) {
    && before.Keys == after.Keys
    && forall n :: n in before && before[n] != White ==> after[n] == before[n]
  }

  /** Whatever was visited on the way is reachable from `name`. */
  ghost predicate VisitedFrom(ps: Installed, name: Name, before: Colors, after: Colors) {
    forall n :: n in before && n in after && before[n] != after[n] ==> Reaches(All(ps), name, n)
  }

  /** What a failed visit of `name` found. */
  ghost predicate Blames(ps: Installed, name: Name, required: bool, e: PackageError) {
    match e
    case NotInstalled(_) => false
    case MissingDependency(m) =>
      m !in ps && ((m == name && required) || exists u, j: nat :: Misses(ps, name, u, j, m))
    case DependencyCycle(c) => SimpleCycle(All(ps), c) && Reaches(All(ps), name, c[0])
    case CycleReportHangs(s) =>
      Reaches(All(ps), name, s) && OnCycle(ps, s) && exists u, j: nat :: Strays(ps, name, u, j)
  }

  /** Dependency `j` of `u`, which `name` reaches, is optional and leads back to `u`. */
  ghost predicate Strays(ps: Installed, name: Name, u: Name, j: nat) {
    Reaches(All(ps), name, u) && LeadsBack(ps, u, j)
  }

  /** Dependency `j` of `u`, which `name` reaches, is required and is the missing `m`. */
  ghost predicate Misses(ps: Installed, name: Name, u: Name, j: nat, m: Name) {
    Reaches(All(ps), name, u) && Dep(ps, u, j) && ps[u].dependencies[j] == Dependency(m, true)
  }

  ghost predicate OnCycle(ps: Installed, s: Name) {
    exists u :: Edge(All(ps), u, s) && Reaches(All(ps), s, u)
  }

  function Whites(color: Colors): set<Name> {
    set n | n in color && color[n] == White
  }

  lemma WhitesShrink(before: Colors, after: Colors)
    requires Advances(before, after)
    ensures |Whites(after)| <= |Whites(before)|
    ensures (exists n :: n in before && before[n] == White && after[n] != White) ==> |Whites(after)| < |Whites(before)|
  {
    SubsetSize(Whites(after), Whites(before));
    if n :| n in before && before[n] == White && after[n] != White {
      assert n in Whites(before) && n !in Whites(after);
    }
  }

  lemma FrameIsIn(ps: Installed, color: Colors, frames: seq<Frame>, a: nat)
    requires FramesOk(ps, color, frames) && a < |frames|
    ensures frames[a].name in All(ps)
  {
    hide Passed, Distinct;
    assert FrameOk(ps, color, frames, a);
  }

  lemma FrameEdge(ps: Installed, color: Colors, frames: seq<Frame>, a: nat)
    requires FramesOk(ps, color, frames) && a + 1 < |frames|
    ensures Edge(All(ps), frames[a].name, frames[a + 1].name)
  {
    hide Passed, Distinct;
    assert FrameOk(ps, color, frames, a) && FrameOk(ps, color, frames, a + 1);
    DepIsEdge(ps, frames[a].name, frames[a].next);
  }

  /** Between frames the search stack is a path. */
  lemma {:induction false} FramesReach(ps: Installed, color: Colors, frames: seq<Frame>, a: nat, b: nat)
    requires FramesOk(ps, color, frames) && a <= b < |frames|
    ensures Reaches(All(ps), frames[a].name, frames[b].name)
    decreases b - a
  {
    hide *;
    if a == b {
      FrameIsIn(ps, color, frames, a);
      ReachesItself(All(ps), frames[a].name);
    } else {
      FrameEdge(ps, color, frames, a);
      EdgeReaches(All(ps), frames[a].name, frames[a + 1].name);
      FramesReach(ps, color, frames, a + 1, b);
      ReachesOver(All(ps), frames[a].name, frames[a + 1].name, frames[b].name);
    }
  }

  lemma GrayReachesTop(ps: Installed, color: Colors, frames: seq<Frame>, n: Name)
    requires FramesOk(ps, color, frames) && IsGray(color, n)
    ensures frames != [] && Reaches(All(ps), n, frames[|frames| - 1].name)
  {
    hide *;
    var i := GrayFrame(ps, color, frames, n);
    FramesReach(ps, color, frames, i, |frames| - 1);
  }

  lemma GrayFrame(ps: Installed, color: Colors, frames: seq<Frame>, n: Name) returns (i: nat)
    requires FramesOk(ps, color, frames) && IsGray(color, n)
    ensures i < |frames| && frames[i].name == n
  {
    hide FrameOk, Passed, Distinct;
    assert n in FrameNames(frames);
    i :| 0 <= i < |frames| && frames[i].name == n;
  }

  lemma EnterResults(ps: Installed, color: Colors, results: seq<Name>, name: Name)
    requires ResultsOk(ps, color, results) && name in ps && color[name] == White
    ensures ResultsOk(ps, color[name := Gray], results)
  {
    var color' := color[name := Gray];
    assert color'.Keys == ps.Keys;
    forall i: nat, j: nat | i < |results| && Dep(ps, results[i], j) ensures Settled(ps, color', results, i, j) {
      assert Settled(ps, color, results, i, j);
    }
  }

  lemma EnterFrames(ps: Installed, color: Colors, frames: seq<Frame>, name: Name, required: bool)
    requires FramesOk(ps, color, frames) && Entering(ps, frames, name, required)
    requires name in ps && color[name] == White
    ensures FramesOk(ps, color[name := Gray], frames + [Frame(name, 0)])
  {
    var color', frames' := color[name := Gray], frames + [Frame(name, 0)];
    var ns := FrameNames(frames);
    assert color'.Keys == ps.Keys;
    assert FrameNames(frames') == ns + [name];
    forall i | 0 <= i < |frames| ensures ns[i] != name { assert FrameOk(ps, color, frames, i); }
    forall i: nat | i < |frames'| ensures FrameOk(ps, color', frames', i) {
      if i < |frames| { assert FrameOk(ps, color, frames, i); }
    }
    forall n | IsGray(color', n) ensures n in FrameNames(frames') {
      if n != name { assert IsGray(color, n); }
    }
    forall i: nat, j: nat | i < |frames'| && j < frames'[i].next && Dep(ps, frames'[i].name, j)
      ensures Passed(ps, color', frames', i, j)
    {
      assert frames'[i] == frames[i] && FrameNames(frames')[..i + 1] == ns[..i + 1];
      assert Passed(ps, color, frames, i, j);
    }
  }

  /** A white package turns gray and goes on the stack. */
  lemma Enter(ps: Installed, color: Colors, results: seq<Name>, frames: seq<Frame>, name: Name, required: bool)
    requires Searching(ps, color, results, frames) && Entering(ps, frames, name, required)
    requires name in ps && color[name] == White
    ensures Searching(ps, color[name := Gray], results, frames + [Frame(name, 0)])
    ensures Advances(color, color[name := Gray]) && |Whites(color[name := Gray])| < |Whites(color)|
    ensures VisitedFrom(ps, name, color, color[name := Gray])
  {
    EnterResults(ps, color, results, name);
    EnterFrames(ps, color, frames, name, required);
    ReachesItself(All(ps), name);
    assert Advances(color, color[name := Gray]);
    WhitesShrink(color, color[name := Gray]);
  }

  /** What a visit of dependency `j` of the top package has seen to. */
  ghost predicate Seen(ps: Installed, color: Colors, name: Name, j: nat)
    requires Dep(ps, name, j)
  {
    var d := ps[name].dependencies[j];
    && (d.name in ps ==> d.name in color && color[d.name] != White)
    && (d.required ==> d.name in color && color[d.name] == Black)
  }

  /** The top frame moves on to its next dependency. */
  lemma Advance(ps: Installed, color: Colors, results: seq<Name>, frames: seq<Frame>, name: Name, j: nat)
    requires Searching(ps, color, results, frames + [Frame(name, j)])
    requires Dep(ps, name, j) && Seen(ps, color, name, j)
    ensures Searching(ps, color, results, frames + [Frame(name, j + 1)])
  {
    var before, after := frames + [Frame(name, j)], frames + [Frame(name, j + 1)];
    assert FrameNames(before) == FrameNames(after);
    forall i: nat | i < |after| ensures FrameOk(ps, color, after, i) {
      assert FrameOk(ps, color, before, i);
      if i < |frames| { assert after[i] == before[i] && after[i + 1].name == before[i + 1].name; }
    }
    forall i: nat, k: nat | i < |after| && k < after[i].next && Dep(ps, after[i].name, k)
      ensures Passed(ps, color, after, i, k)
    {
      if i == |frames| && k == j {
        assert FrameNames(after)[..i + 1] == FrameNames(after);
      } else {
        assert k < before[i].next && Passed(ps, color, before, i, k);
      }
    }
  }

  /** The top package is finished: all its dependencies have been seen to. */
  lemma LeaveResults(ps: Installed, color: Colors, results: seq<Name>, frames: seq<Frame>, name: Name)
    requires Searching(ps, color, results, frames)
    requires frames != [] && frames[|frames| - 1].name == name
    requires forall j: nat :: Dep(ps, name, j) ==> Seen(ps, color, name, j)
    ensures ResultsOk(ps, color[name := Black], results + [name])
  {
    var color', results' := color[name := Black], results + [name];
    assert FrameOk(ps, color, frames, |frames| - 1);
    assert color'.Keys == ps.Keys;
    forall i: nat, j: nat | i < |results'| && Dep(ps, results'[i], j) ensures Settled(ps, color', results', i, j) {
      if i < |results| {
        assert results'[..i] == results[..i];
        assert Settled(ps, color, results, i, j);
      } else {
        assert results'[..i] == results;
        assert Seen(ps, color, name, j);
        var d := DepName(ps, name, j);
        if d in ps && color[d] == Gray { GrayReachesTop(ps, color, frames, d); }
      }
    }
  }

  lemma LeaveFrames(ps: Installed, color: Colors, frames: seq<Frame>, name: Name, n: nat)
    requires FramesOk(ps, color, frames + [Frame(name, n)])
    ensures FramesOk(ps, color[name := Black], frames)
  {
    var before, color' := frames + [Frame(name, n)], color[name := Black];
    var ns := FrameNames(frames);
    assert FrameNames(before) == ns + [name];
    assert FrameOk(ps, color, before, |frames|);
    assert color'.Keys == ps.Keys;
    forall i, j | 0 <= i < j < |ns| ensures ns[i] != ns[j] { assert FrameNames(before)[i] != FrameNames(before)[j]; }
    forall i: nat | i < |frames| ensures FrameOk(ps, color', frames, i) {
      assert FrameOk(ps, color, before, i);
      assert before[i] == frames[i] && FrameNames(before)[i] != FrameNames(before)[|frames|];
      if i + 1 < |frames| { assert before[i + 1] == frames[i + 1]; }
    }
    forall m | IsGray(color', m) ensures m in ns {
      assert IsGray(color, m);
      assert m in ns + [name];
    }
    forall i: nat, j: nat | i < |frames| && j < frames[i].next && Dep(ps, frames[i].name, j)
      ensures Passed(ps, color', frames, i, j)
    {
      assert before[i] == frames[i] && FrameNames(before)[..i + 1] == ns[..i + 1];
      assert Passed(ps, color, before, i, j);
    }
  }

  lemma Leave(ps: Installed, color: Colors, results: seq<Name>, frames: seq<Frame>, name: Name, n: nat)
    requires Searching(ps, color, results, frames + [Frame(name, n)])
    requires forall j: nat :: Dep(ps, name, j) ==> Seen(ps, color, name, j)
    ensures Searching(ps, color[name := Black], results + [name], frames)
  {
    LeaveResults(ps, color, results, frames + [Frame(name, n)], name);
    LeaveFrames(ps, color, frames, name, n);
  }

  /** When the top frame has met a gray package, every frame's current dependency is gray. */
  lemma CurrentIsGray(ps: Installed, color: Colors, frames: seq<Frame>, name: Name, i: nat)
    requires FramesOk(ps, color, frames) && Entering(ps, frames, name, true) && IsGray(color, name) && i < |frames|
    ensures Dep(ps, frames[i].name, frames[i].next) && IsGray(color, DepName(ps, frames[i].name, frames[i].next))
    ensures DepName(ps, frames[i].name, frames[i].next) == if i + 1 < |frames| then frames[i + 1].name else name
  {
    assert FrameOk(ps, color, frames, i);
    if i + 1 < |frames| { assert FrameOk(ps, color, frames, i + 1); }
  }

  lemma CurrentContinues(ps: Installed, color: Colors, frames: seq<Frame>, name: Name, p: Name)
    requires FramesOk(ps, color, frames) && Entering(ps, frames, name, true) && IsGray(color, name)
    requires p in ps && IsGray(color, p)
    ensures HasGray(ps, color, p)
  {
    var ns := FrameNames(frames);
    assert p in ns;
    var i :| 0 <= i < |ns| && ns[i] == p;
    CurrentIsGray(ps, color, frames, name, i);
    FirstGrayIsGray(ps, color, p, 0);
  }

  /** A gray package met again as a required dependency lies on a cycle, and its report can go on. */
  lemma MeetsGray(ps: Installed, color: Colors, frames: seq<Frame>, name: Name)
    requires FramesOk(ps, color, frames) && Entering(ps, frames, name, true) && IsGray(color, name)
    ensures name in ps && OnCycle(ps, name) && GraysContinue(ps, color)
  {
    GrayReachesTop(ps, color, frames, name);
    var top := frames[|frames| - 1];
    DepIsEdge(ps, top.name, top.next);
    forall p {:trigger HasGray(ps, color, p)} | p in ps && IsGray(color, p) ensures HasGray(ps, color, p) {
      CurrentContinues(ps, color, frames, name, p);
    }
  }

  lemma {:induction false} FirstGrayAt(ps: Installed, color: Colors, n: Name, k: nat, m: nat) returns (j: nat)
    requires color.Keys == ps.Keys && Dep(ps, n, m) && k <= m && IsGray(color, DepName(ps, n, m))
    ensures k <= j <= m && IsGray(color, DepName(ps, n, j))
    ensures FirstGray(ps, color, ps[n].dependencies, k) == Some(DepName(ps, n, j))
    decreases m - k
  {
    if IsGray(color, DepName(ps, n, k)) { j := k; } else { j := FirstGrayAt(ps, color, n, k + 1, m); }
  }

  /** Where the report goes from a frame: to the next frame (from the top, to the package met again), or
      back over a dependency that the frame has passed. */
  lemma NextOnStack(ps: Installed, color: Colors, frames: seq<Frame>, name: Name, i: nat) returns (d: nat)
    requires FramesOk(ps, color, frames) && Entering(ps, frames, name, true) && IsGray(color, name) && i < |frames|
    ensures frames[i].name in ps && d < |frames|
    ensures Next(ps, color, frames[i].name) == frames[d].name
    ensures d <= i || d == i + 1
    ensures d <= i && (i + 1 < |frames| || frames[d].name != name) ==> exists j :: LeadsBack(ps, frames[i].name, j)
  {
    hide Reaches, Depends;
    var f, ns := frames[i], FrameNames(frames);
    CurrentIsGray(ps, color, frames, name, i);
    var j := FirstGrayAt(ps, color, f.name, 0, f.next);
    var n := DepName(ps, f.name, j);
    if j < f.next {
      assert Passed(ps, color, frames, i, j);
      assert n in ns[..i + 1];
      d :| 0 <= d < i + 1 && ns[..i + 1][d] == n;
      PassedLeadsBack(ps, color, frames, i, j, d);
    } else if i + 1 < |frames| {
      d := i + 1;
    } else {
      assert name in ns;
      d :| 0 <= d < |ns| && ns[d] == name;
    }
  }

  /** A gray dependency that was passed is optional and leads back. */
  lemma PassedLeadsBack(ps: Installed, color: Colors, frames: seq<Frame>, i: nat, j: nat, d: nat)
    requires FramesOk(ps, color, frames) && i < |frames| && d <= i
    requires j < frames[i].next && Dep(ps, frames[i].name, j) && IsGray(color, DepName(ps, frames[i].name, j))
    requires DepName(ps, frames[i].name, j) == frames[d].name
    ensures LeadsBack(ps, frames[i].name, j)
  {
    assert Passed(ps, color, frames, i, j);
    FramesReach(ps, color, frames, d, i);
  }

  /** The way of the report through the search stack: up from the package met again, at `s`, to the first
      frame from which it does not go on up, and back. Unless that is from the top back to `s`, the frame
      has an optional dependency that leads back. */
  lemma ReportsWay(ps: Installed, color: Colors, frames: seq<Frame>, name: Name) returns (s: nat, i: nat, t: nat)
    requires FramesOk(ps, color, frames) && Entering(ps, frames, name, true) && IsGray(color, name)
    ensures s < |frames| && frames[s].name == name
    ensures GoesBack(ps, color, FrameNames(frames), s, i, t)
    ensures (i == |frames| - 1 && t == s) || exists j :: LeadsBack(ps, frames[i].name, j)
  {
    hide Next, LeadsBack, FramesOk, Entering;
    var stack := FrameNames(frames);
    s := FrameOf(ps, color, frames, name);
    i := s;
    StackSteps(ps, color, frames, name);
    t := NextOnStack(ps, color, frames, name, i);
    while t == i + 1
      invariant s <= i < |frames| && Climbs(ps, color, stack, s, i)
      invariant t < |frames| && Next(ps, color, stack[i]) == stack[t] && t <= i + 1
      invariant t <= i && (i + 1 < |frames| || frames[t].name != name) ==> exists j :: LeadsBack(ps, frames[i].name, j)
      decreases |frames| - i
    {
      assert Follows(ps, color, stack, i);
      i := i + 1;
      t := NextOnStack(ps, color, frames, name, i);
    }
    assert frames[t].name == name ==> t == s;
  }

  lemma FrameOf(ps: Installed, color: Colors, frames: seq<Frame>, name: Name) returns (s: nat)
    requires FramesOk(ps, color, frames) && IsGray(color, name)
    ensures s < |frames| && frames[s].name == name && name in ps
    ensures Distinct(FrameNames(frames))
  {
    var ns := FrameNames(frames);
    assert name in ns;
    s :| 0 <= s < |ns| && ns[s] == name;
    assert FrameOk(ps, color, frames, s);
  }

  lemma StackSteps(ps: Installed, color: Colors, frames: seq<Frame>, name: Name)
    requires FramesOk(ps, color, frames) && Entering(ps, frames, name, true) && IsGray(color, name)
    ensures forall a: nat :: a < |frames| ==> FrameNames(frames)[a] in ps
    ensures forall a: nat {:trigger StepsOn(ps, color, FrameNames(frames), a)} ::
      a < |frames| ==> StepsOn(ps, color, FrameNames(frames), a)
  {
    hide Next, LeadsBack;
    var stack := FrameNames(frames);
    forall a: nat | a < |frames| ensures stack[a] in ps { assert FrameOk(ps, color, frames, a); }
    forall a: nat {:trigger StepsOn(ps, color, stack, a)} | a < |frames| ensures StepsOn(ps, color, stack, a) {
      var d := NextOnStack(ps, color, frames, name, a);
    }
  }

  /** If no frame from the package met again on has an optional dependency that leads back, the report ends
      and lists exactly the search stack from that package. */
  lemma ReportIsSegment(ps: Installed, color: Colors, frames: seq<Frame>, name: Name) returns (s: nat)
    requires FramesOk(ps, color, frames) && Entering(ps, frames, name, true) && IsGray(color, name)
    requires forall u, j: nat :: !Strays(ps, name, u, j)
    ensures s < |frames| && frames[s].name == name && name in ps
    ensures Returns(ps, color, name, |frames| - s)
    ensures Report(ps, color, name, |frames| - s) == FrameNames(frames)[s..]
  {
    hide Next, FramesOk, Entering, Returns, Report, GoesBack, StepsOn;
    var i, t;
    s, i, t := ReportsWay(ps, color, frames, name);
    WayIsUp(ps, color, frames, name, s, i, t);
    ReportGoesRound(ps, color, FrameNames(frames), s, i, t);
    assert FrameNames(frames)[s..i + 1] == FrameNames(frames)[s..] && FrameNames(frames)[t..s] == [];
  }

  lemma WayIsUp(ps: Installed, color: Colors, frames: seq<Frame>, name: Name, s: nat, i: nat, t: nat)
    requires FramesOk(ps, color, frames) && s < |frames| && frames[s].name == name
    requires GoesBack(ps, color, FrameNames(frames), s, i, t) && forall u, j: nat :: !Strays(ps, name, u, j)
    requires (i == |frames| - 1 && t == s) || exists j :: LeadsBack(ps, frames[i].name, j)
    ensures i == |frames| - 1 && t == s && Climbs(ps, color, FrameNames(frames), t, s)
  {
    hide Strays, FramesOk, LeadsBack;
    if j: nat :| LeadsBack(ps, frames[i].name, j) {
      FramesReach(ps, color, frames, s, i);
      StraysAt(ps, name, frames[i].name, j);
      assert false;
    }
    WayStaysUp(ps, color, FrameNames(frames), s, i);
  }

  lemma StraysAt(ps: Installed, name: Name, u: Name, j: nat)
    requires Reaches(All(ps), name, u) && LeadsBack(ps, u, j)
    ensures Strays(ps, name, u, j)
  {
  }

  lemma WayStaysUp(ps: Installed, color: Colors, stack: seq<Name>, s: nat, i: nat)
    requires GoesBack(ps, color, stack, s, i, s)
    ensures Climbs(ps, color, stack, s, s)
  {
  }

  /** The report can hang in a state that the search gets into: `b` depends optionally on itself, and `a` and
      `b` require each other. Loading `a`, the search meets `a` again when it is at the second dependency of
      `b`. The report for `a` stays at `b`. */
  lemma ReportCanHang(k: nat)
    requires k > 0
    ensures var a, b := Name("a"), Name("b");
      var ps, color := SelfAndBack(a, b), map[a := Gray, b := Gray];
      var frames := [Frame(a, 0), Frame(b, 1)];
      && FramesOk(ps, color, frames) && Entering(ps, frames, a, true) && IsGray(color, a)
      && Orbit(ps, color, a, k) == b != a
  {
    var a, b := Name("a"), Name("b");
    assert a.text[0] != b.text[0];
    var ps, color := SelfAndBack(a, b), map[a := Gray, b := Gray];
    var frames := [Frame(a, 0), Frame(b, 1)];
    assert ps[a].dependencies[0] == Dependency(b, true);
    assert ps[b].dependencies[0] == Dependency(b, false) && ps[b].dependencies[1] == Dependency(a, true);
    assert FrameNames(frames) == [a, b] && [a, b][..2] == [a, b];
    assert FrameOk(ps, color, frames, 0) && FrameOk(ps, color, frames, 1);
    assert Passed(ps, color, frames, 1, 0);
    StaysAtSelf(a, b, k);
  }

  function SelfAndBack(a: Name, b: Name): Installed {
    map[a := Package(Addon, [Dependency(b, true)]), b := Package(Addon, [Dependency(b, false), Dependency(a, true)])]
  }

  lemma {:induction false} StaysAtSelf(a: Name, b: Name, k: nat)
    requires a != b && k > 0
    ensures Orbit(SelfAndBack(a, b), map[a := Gray, b := Gray], a, k) == b
  {
    if k > 1 { StaysAtSelf(a, b, k - 1); }
  }
}
