/** `throw_cycle_error`: from a gray package on, follow the first gray dependency of each package until
    the start comes round again. */
module CycleReport {
  import opened Graphs
  import opened Packages
  import opened Sequences

  /** Dependency `k` or a later one, the first that is installed and gray. */
  function FirstGray(ps: Installed, color: Colors, ds: seq<Dependency>, k: nat): (r: Option<Name>)
    requires k <= |ds|
    decreases |ds| - k
  {
    if k == |ds| then None
    else if ds[k].name in ps && ds[k].name in color && color[ds[k].name] == Gray then Some(ds[k].name)
    else FirstGray(ps, color, ds, k + 1)
  }

  /** Where the report goes from `p`; it stays where it is when no dependency is gray. */
  function Next(ps: Installed, color: Colors, p: Name): (q: Name)
    requires p in ps
    ensures q in ps
  {
    match FirstGray(ps, color, ps[p].dependencies, 0)
    case Some(q) => if q in ps then q else p
    case None => p
  }

  /** The package after `k` steps. */
  function Orbit(ps: Installed, color: Colors, start: Name, k: nat): (p: Name)
    requires start in ps
    ensures p in ps
  {
    if k == 0 then start else Next(ps, color, Orbit(ps, color, start, k - 1))
  }

  /** The report comes back to its start after `k` steps and not before. */
  ghost predicate Returns(ps: Installed, color: Colors, start: Name, k: nat)
    requires start in ps
  {
    k > 0 && Orbit(ps, color, start, k) == start && forall i :: 0 < i < k ==> Orbit(ps, color, start, i) != start
  }

  lemma {:induction false} OrbitShift(ps: Installed, color: Colors, start: Name, i: nat, j: nat, d: nat)
    requires start in ps && Orbit(ps, color, start, i) == Orbit(ps, color, start, j)
    ensures Orbit(ps, color, start, i + d) == Orbit(ps, color, start, j + d)
  {
    if d > 0 { OrbitShift(ps, color, start, i, j, d - 1); }
  }

  /** A report that has not come back to its start within as many steps as there are packages never does:
      some package has come up twice, and from there on the report repeats itself. */
  lemma NeverReturns(ps: Installed, color: Colors, start: Name, k: nat)
    requires start in ps && k > 0
    requires forall i :: 0 < i <= |ps| + 1 ==> Orbit(ps, color, start, i) != start
    ensures Orbit(ps, color, start, k) != start
  {
    var walk := seq(|ps| + 1, i requires 0 <= i => Orbit(ps, color, start, i + 1));
    var i, j := Pigeonhole(walk, ps.Keys);
    WithinLoop(ps, color, start, i + 1, j + 1, k);
  }

  lemma {:induction false} WithinLoop(ps: Installed, color: Colors, start: Name, i: nat, j: nat, k: nat)
    requires start in ps && 0 < i < j <= |ps| + 1 && k > 0
    requires Orbit(ps, color, start, i) == Orbit(ps, color, start, j)
    requires forall m :: 0 < m <= |ps| + 1 ==> Orbit(ps, color, start, m) != start
    ensures Orbit(ps, color, start, k) != start
    decreases k
  {
    if k > j {
      OrbitShift(ps, color, start, i, j, k - j);
      WithinLoop(ps, color, start, i, j, k - (j - i));
    }
  }

  /** Within one round no package comes up twice. */
  lemma OrbitDistinct(ps: Installed, color: Colors, start: Name, k: nat, i: nat, j: nat)
    requires start in ps && Returns(ps, color, start, k) && i < j < k
    ensures Orbit(ps, color, start, i) != Orbit(ps, color, start, j)
  {
    if Orbit(ps, color, start, i) == Orbit(ps, color, start, j) {
      OrbitShift(ps, color, start, i, j, k - j);
    }
  }

  /** The names reported in `k` steps. */
  function Report(ps: Installed, color: Colors, start: Name, k: nat): (names: seq<Name>)
    requires start in ps
    ensures |names| == k && forall i :: 0 <= i < k ==> names[i] == Orbit(ps, color, start, i)
  {
    if k == 0 then [] else Report(ps, color, start, k - 1) + [Orbit(ps, color, start, k - 1)]
  }

  predicate IsGray(color: Colors, p: Name) {
    p in color && color[p] == Gray
  }

  predicate HasGray(ps: Installed, color: Colors, p: Name)
    requires p in ps
  {
    FirstGray(ps, color, ps[p].dependencies, 0).Some?
  }

  /** Every gray package has a gray dependency. */
  ghost predicate GraysContinue(ps: Installed, color: Colors) {
    forall p {:trigger HasGray(ps, color, p)} :: p in ps && IsGray(color, p) ==> HasGray(ps, color, p)
  }

  lemma NextIsGray(ps: Installed, color: Colors, p: Name)
    requires p in ps && IsGray(color, p) && HasGray(ps, color, p)
    ensures IsGray(color, Next(ps, color, p)) && Edge(All(ps), p, Next(ps, color, p))
  {
    FirstGrayIsGray(ps, color, p, 0);
  }

  lemma {:induction false} FirstGrayIsGray(ps: Installed, color: Colors, n: Name, k: nat)
    requires n in ps && k <= |ps[n].dependencies|
    ensures match FirstGray(ps, color, ps[n].dependencies, k)
      case Some(q) => q in ps && q in color && color[q] == Gray && Edge(All(ps), n, q)
      case None => forall j :: k <= j < |ps[n].dependencies| ==>
        !(DepName(ps, n, j) in ps && DepName(ps, n, j) in color && color[DepName(ps, n, j)] == Gray)
    decreases |ps[n].dependencies| - k
  {
    hide All, Edge;
    if k < |ps[n].dependencies| {
      if DepName(ps, n, k) in ps {
        DepIsEdge(ps, n, k);
      }
      FirstGrayIsGray(ps, color, n, k + 1);
    }
  }

  lemma {:induction false} OrbitIsGray(ps: Installed, color: Colors, start: Name, k: nat)
    requires start in ps && IsGray(color, start) && GraysContinue(ps, color)
    ensures var p := Orbit(ps, color, start, k);
      IsGray(color, p) && Edge(All(ps), p, Orbit(ps, color, start, k + 1))
  {
    hide FirstGray, Next, All, Depends;
    if k > 0 { OrbitIsGray(ps, color, start, k - 1); }
    var p := Orbit(ps, color, start, k);
    assert IsGray(color, p) by {
      if k > 0 {
        assert HasGray(ps, color, Orbit(ps, color, start, k - 1));
        NextIsGray(ps, color, Orbit(ps, color, start, k - 1));
      }
    }
    assert HasGray(ps, color, p);
    NextIsGray(ps, color, p);
  }

  /** So a report that ends lists a simple dependency cycle. */
  lemma ReportIsCycle(ps: Installed, color: Colors, start: Name, k: nat)
    requires start in ps && IsGray(color, start) && GraysContinue(ps, color)
    requires Returns(ps, color, start, k)
    ensures SimpleCycle(All(ps), Report(ps, color, start, k))
  {
    hide FirstGray, Next, All, Depends, GraysContinue;
    var names := Report(ps, color, start, k);
    forall i | 0 <= i < k - 1 ensures Link(All(ps), names, i) { OrbitIsGray(ps, color, start, i); }
    OrbitIsGray(ps, color, start, k - 1);
    forall i, j | 0 <= i < j < k ensures names[i] != names[j] { OrbitDistinct(ps, color, start, k, i, j); }
  }

  lemma {:induction false} OrbitAdds(ps: Installed, color: Colors, start: Name, i: nat, k: nat)
    requires start in ps
    ensures Orbit(ps, color, start, i + k) == Orbit(ps, color, Orbit(ps, color, start, i), k)
  {
    if k > 0 { OrbitAdds(ps, color, start, i, k - 1); }
  }

  /** From place `a` of the search stack to place `b` the report follows the stack. */
  ghost predicate Climbs(ps: Installed, color: Colors, stack: seq<Name>, a: nat, b: nat) {
    && a <= b < |stack|
    && (forall i :: a <= i <= b ==> stack[i] in ps)
    && forall i: nat {:trigger Follows(ps, color, stack, i)} :: a <= i < b ==> Follows(ps, color, stack, i)
  }

  predicate Follows(ps: Installed, color: Colors, stack: seq<Name>, i: nat)
    requires i + 1 < |stack| && stack[i] in ps
  {
    Next(ps, color, stack[i]) == stack[i + 1]
  }

  lemma {:induction false} OrbitClimbs(ps: Installed, color: Colors, stack: seq<Name>, a: nat, b: nat, k: nat)
    requires Climbs(ps, color, stack, a, b) && k <= b - a
    ensures Orbit(ps, color, stack[a], k) == stack[a + k]
  {
    hide Next;
    if k > 0 {
      OrbitClimbs(ps, color, stack, a, b, k - 1);
      assert Follows(ps, color, stack, a + k - 1);
    }
  }

  /** The way of a report: it follows the stack from `s` to `i` and from there goes back to `t`. From any
      place it goes one place on at most. */
  ghost predicate GoesBack(ps: Installed, color: Colors, stack: seq<Name>, s: nat, i: nat, t: nat) {
    && Distinct(stack)
    && Climbs(ps, color, stack, s, i) && t <= i && Next(ps, color, stack[i]) == stack[t]
    && (forall a: nat :: a <= i ==> stack[a] in ps)
    && forall a: nat {:trigger StepsOn(ps, color, stack, a)} :: a <= i ==> StepsOn(ps, color, stack, a)
  }

  ghost predicate StepsOn(ps: Installed, color: Colors, stack: seq<Name>, a: nat)
    requires a < |stack| && stack[a] in ps
  {
    exists d: nat :: d <= a + 1 && d < |stack| && Next(ps, color, stack[a]) == stack[d]
  }

  /** From place `a` the report stays between `lo` and `hi`. */
  ghost predicate StepsWithin(ps: Installed, color: Colors, stack: seq<Name>, a: nat, lo: nat, hi: nat)
    requires a < |stack| && stack[a] in ps
  {
    exists d: nat :: lo <= d <= hi && d < |stack| && Next(ps, color, stack[a]) == stack[d]
  }

  /** If the way back leads to the start, or below it and up to it again, the report ends and lists just
      that way round. */
  lemma ReportGoesRound(ps: Installed, color: Colors, stack: seq<Name>, s: nat, i: nat, t: nat)
    requires GoesBack(ps, color, stack, s, i, t) && t <= s && Climbs(ps, color, stack, t, s)
    ensures Returns(ps, color, stack[s], i + 1 - t)
    ensures Report(ps, color, stack[s], i + 1 - t) == stack[s..i + 1] + stack[t..s]
  {
    hide Next, StepsOn, Orbit, Follows;
    RoundReturns(ps, color, stack, s, i, t);
    var report, round, up := Report(ps, color, stack[s], i + 1 - t), stack[s..i + 1] + stack[t..s], i + 1 - s;
    forall k | 0 <= k < i + 1 - t ensures report[k] == round[k] { RoundAt(ps, color, stack, s, i, t, k); }
  }

  lemma RoundReturns(ps: Installed, color: Colors, stack: seq<Name>, s: nat, i: nat, t: nat)
    requires GoesBack(ps, color, stack, s, i, t) && t <= s && Climbs(ps, color, stack, t, s)
    ensures Returns(ps, color, stack[s], i + 1 - t)
  {
    hide Next, StepsOn, Orbit, Follows;
    var up := i + 1 - s;
    RoundAt(ps, color, stack, s, i, t, i + 1 - t);
    forall k | 0 < k < i + 1 - t ensures Orbit(ps, color, stack[s], k) != stack[s] {
      RoundAt(ps, color, stack, s, i, t, k);
      assert if k < up then s + k != s else t + (k - up) != s;
    }
  }

  lemma RoundAt(ps: Installed, color: Colors, stack: seq<Name>, s: nat, i: nat, t: nat, k: nat)
    requires GoesBack(ps, color, stack, s, i, t) && t <= s && Climbs(ps, color, stack, t, s) && k <= i + 1 - t
    ensures var up := i + 1 - s;
      Orbit(ps, color, stack[s], k) == if k < up then stack[s + k] else stack[t + (k - up)]
  {
    hide Next, FirstGray;
    var up := i + 1 - s;
    if k < up {
      OrbitClimbs(ps, color, stack, s, i, k);
    } else {
      OrbitClimbs(ps, color, stack, s, i, up - 1);
      assert Orbit(ps, color, stack[s], up) == stack[t];
      OrbitAdds(ps, color, stack[s], up, k - up);
      OrbitClimbs(ps, color, stack, t, s, k - up);
    }
  }

  /** A report that gets into a part of the stack that it does not leave again stays there. */
  lemma {:induction false} StaysIn(ps: Installed, color: Colors, start: Name, trap: set<Name>, from: nat, k: nat)
    requires start in ps && from <= k && Orbit(ps, color, start, from) in trap
    requires forall p :: p in trap ==> p in ps && Next(ps, color, p) in trap
    ensures Orbit(ps, color, start, k) in trap
  {
    if k > from { StaysIn(ps, color, start, trap, from, k - 1); }
  }

  /** Otherwise it never ends: it is trapped between `t` and `i`, or at or below the place where the way up
      to the start is broken. */
  lemma ReportIsTrapped(ps: Installed, color: Colors, stack: seq<Name>, s: nat, i: nat, t: nat, k: nat)
    requires GoesBack(ps, color, stack, s, i, t) && !(t <= s && Climbs(ps, color, stack, t, s)) && k > 0
    ensures Orbit(ps, color, stack[s], k) != stack[s]
  {
    hide Next, StepsOn;
    var up := i + 1 - s;
    OrbitClimbs(ps, color, stack, s, i, up - 1);
    if k < up {
      OrbitClimbs(ps, color, stack, s, i, k);
    } else {
      var lo, hi := Trap(ps, color, stack, s, i, t);
      var trap := set a | lo <= a <= hi :: stack[a];
      forall p | p in trap ensures p in ps && Next(ps, color, p) in trap {
        var a: nat :| lo <= a <= hi && stack[a] == p;
        assert StepsWithin(ps, color, stack, a, lo, hi);
      }
      StaysIn(ps, color, stack[s], trap, up, k);
    }
  }

  /** The part of the stack that the report does not leave. */
  lemma Trap(ps: Installed, color: Colors, stack: seq<Name>, s: nat, i: nat, t: nat) returns (lo: nat, hi: nat)
    requires GoesBack(ps, color, stack, s, i, t) && !(t <= s && Climbs(ps, color, stack, t, s))
    ensures lo <= t <= hi < |stack| && (s < lo || hi < s)
    ensures forall a: nat :: lo <= a <= hi ==> stack[a] in ps
    ensures forall a: nat {:trigger StepsWithin(ps, color, stack, a, lo, hi)} ::
      lo <= a <= hi ==> StepsWithin(ps, color, stack, a, lo, hi)
  {
    hide Next;
    if s < t {
      lo, hi := t, i;
      forall a: nat {:trigger StepsWithin(ps, color, stack, a, lo, hi)} | lo <= a <= hi
        ensures StepsWithin(ps, color, stack, a, lo, hi)
      {
        if a < i { assert Follows(ps, color, stack, a); }
        assert Next(ps, color, stack[a]) == stack[if a < i then a + 1 else t];
      }
    } else {
      lo := 0;
      hi := Broken(ps, color, stack, t, s);
      forall a: nat {:trigger StepsWithin(ps, color, stack, a, lo, hi)} | lo <= a <= hi
        ensures StepsWithin(ps, color, stack, a, lo, hi)
      {
        assert StepsOn(ps, color, stack, a);
        var d: nat :| d <= a + 1 && d < |stack| && Next(ps, color, stack[a]) == stack[d];
        assert a == hi ==> d != hi + 1;
      }
    }
  }

  lemma {:induction false} Broken(ps: Installed, color: Colors, stack: seq<Name>, t: nat, s: nat) returns (b: nat)
    requires t <= s < |stack| && (forall a :: t <= a <= s ==> stack[a] in ps) && !Climbs(ps, color, stack, t, s)
    ensures t <= b < s && !Follows(ps, color, stack, b)
    decreases s - t
  {
    b := t;
    if Follows(ps, color, stack, t) {
      b := Broken(ps, color, stack, t + 1, s);
    }
  }

  /** So the report ends exactly when its way back leads to the start, or below it and up to it again. */
  lemma ReportEndsExactly(ps: Installed, color: Colors, stack: seq<Name>, s: nat, i: nat, t: nat)
    requires GoesBack(ps, color, stack, s, i, t)
    ensures (exists k :: Returns(ps, color, stack[s], k)) <==> t <= s && Climbs(ps, color, stack, t, s)
  {
    if t <= s && Climbs(ps, color, stack, t, s) {
      ReportGoesRound(ps, color, stack, s, i, t);
    } else {
      forall k: nat ensures !Returns(ps, color, stack[s], k) {
        if k > 0 { ReportIsTrapped(ps, color, stack, s, i, t, k); }
      }
    }
  }
}
