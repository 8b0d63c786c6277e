/** Worklists without a visited set: when they come to an end, and when they never do. */
module Worklists {
  import opened Graphs
  import opened Sequences

  /** What is reachable from `names`. */
  ghost function ReachSet(g: Graph, names: seq<Name>): (r: set<Name>)
    ensures r <= g.Keys && forall n :: n in r <==> ReachedFrom(g, names, n)
  {
    forall n | ReachedFrom(g, names, n) ensures n in g {
      var u :| u in names && Reaches(g, u, n);
      ReachesEnds(g, u, n);
    }
    set n | n in g && ReachedFrom(g, names, n)
  }

  ghost function Restrict(g: Graph, s: set<Name>): (r: Graph)
    ensures r.Keys == g.Keys * s
  {
    map n | n in g && n in s :: g[n]
  }

  /** No cycle can be reached from `names`. */
  ghost predicate NoCycleFrom(g: Graph, names: seq<Name>) {
    forall u, v :: ReachedFrom(g, names, u) && Edge(g, u, v) ==> !Reaches(g, v, u)
  }

  lemma RestrictedReaches(g: Graph, s: set<Name>, p: seq<Name>)
    requires Path(Restrict(g, s), p)
    ensures Path(g, p)
  {
    forall i | 0 <= i < |p| - 1 ensures Link(g, p, i) { assert Link(Restrict(g, s), p, i); }
  }

  lemma NoCycleIsAcyclic(g: Graph, names: seq<Name>)
    requires NoCycleFrom(g, names)
    ensures Acyclic(Restrict(g, ReachSet(g, names)))
  {
    var r := Restrict(g, ReachSet(g, names));
    forall p | Path(r, p) && |p| > 1 ensures p[0] != Last(p) {
      assert p[0] in r;
      RestrictedReaches(g, ReachSet(g, names), p);
      FirstStep(g, p);
    }
  }

  lemma FirstStep(g: Graph, p: seq<Name>)
    requires Path(g, p) && |p| > 1
    ensures Edge(g, p[0], p[1]) && Reaches(g, p[1], Last(p))
  {
    assert Link(g, p, 0);
    var q := p[1..];
    forall i | 0 <= i < |q| - 1 ensures Link(g, q, i) { assert Link(g, p, i + 1); }
    assert Joins(g, q, p[1], Last(p));
  }

  /** Every edge inside the reachable part goes down. */
  ghost predicate Descends(g: Graph, names: seq<Name>, rank: map<Name, nat>) {
    && (forall n :: ReachedFrom(g, names, n) ==> n in rank)
    && forall u, v :: ReachedFrom(g, names, u) && Edge(g, u, v) && u in rank && v in rank ==> rank[v] < rank[u]
  }

  lemma DescentOf(g: Graph, names: seq<Name>) returns (rank: map<Name, nat>)
    requires NoCycleFrom(g, names)
    ensures Descends(g, names, rank)
  {
    NoCycleIsAcyclic(g, names);
    rank := RankOf(Restrict(g, ReachSet(g, names)));
    forall u, v | ReachedFrom(g, names, u) && Edge(g, u, v) && u in rank && v in rank ensures rank[v] < rank[u] {
      assert Edge(Restrict(g, ReachSet(g, names)), u, v);
    }
  }

  lemma ReachedOn(g: Graph, names: seq<Name>, u: Name, v: Name)
    requires ReachedFrom(g, names, u) && Edge(g, u, v)
    ensures ReachedFrom(g, names, v)
  {
    var n :| n in names && Reaches(g, n, u);
    ReachesOn(g, n, u, v);
  }

  lemma RootReached(g: Graph, names: seq<Name>, u: Name)
    requires u in names && u in g
    ensures ReachedFrom(g, names, u)
  {
    ReachesItself(g, u);
  }

  /** An item of the worklist: a vertex reachable from the start, or no vertex at all. */
  ghost predicate Item(g: Graph, names: seq<Name>, n: Name) {
    n in g ==> ReachedFrom(g, names, n)
  }

  ghost predicate Items(g: Graph, names: seq<Name>, items: seq<Name>) {
    forall k :: 0 <= k < |items| ==> Item(g, names, items[k])
  }

  /** How many items a single item amounts to in all: itself and everything its successors amount to.
      This counts the paths from it. */
  ghost function Cost(g: Graph, names: seq<Name>, rank: map<Name, nat>, n: Name): nat
    requires Descends(g, names, rank) && Item(g, names, n)
    decreases if n in g && n in rank then rank[n] + 1 else 0, 0
  {
    if n !in g then 1
    else
      assert n in rank;
      SuccessorsBelow(g, names, rank, n);
      1 + CostOfAll(g, names, rank, g[n], rank[n])
  }

  ghost function CostOfAll(g: Graph, names: seq<Name>, rank: map<Name, nat>, items: seq<Name>, bound: nat): nat
    requires Descends(g, names, rank) && Items(g, names, items)
    requires forall k :: 0 <= k < |items| && items[k] in g && items[k] in rank ==> rank[items[k]] < bound
    decreases bound, |items| + 1
  {
    if items == [] then 0
    else
      assert Item(g, names, items[0]);
      Cost(g, names, rank, items[0]) + CostOfAll(g, names, rank, items[1..], bound)
  }

  lemma SuccessorsBelow(g: Graph, names: seq<Name>, rank: map<Name, nat>, n: Name)
    requires Descends(g, names, rank) && ReachedFrom(g, names, n) && n in g && n in rank
    ensures Items(g, names, g[n])
    ensures forall k :: 0 <= k < |g[n]| && g[n][k] in g && g[n][k] in rank ==> rank[g[n][k]] < rank[n]
  {
    forall k | 0 <= k < |g[n]| && g[n][k] in g ensures ReachedFrom(g, names, g[n][k]) {
      assert Edge(g, n, g[n][k]);
      ReachedOn(g, names, n, g[n][k]);
    }
    forall k | 0 <= k < |g[n]| && g[n][k] in g && g[n][k] in rank ensures rank[g[n][k]] < rank[n] {
      assert Edge(g, n, g[n][k]);
    }
  }

  /** The cost of a worklist. */
  ghost function Total(g: Graph, names: seq<Name>, rank: map<Name, nat>, items: seq<Name>): nat
    requires Descends(g, names, rank) && Items(g, names, items)
  {
    if items == [] then 0
    else
      assert Item(g, names, items[0]);
      Cost(g, names, rank, items[0]) + Total(g, names, rank, items[1..])
  }

  lemma {:induction false} TotalIsCost(g: Graph, names: seq<Name>, rank: map<Name, nat>, items: seq<Name>, bound: nat)
    requires Descends(g, names, rank) && Items(g, names, items)
    requires forall k :: 0 <= k < |items| && items[k] in g && items[k] in rank ==> rank[items[k]] < bound
    ensures Total(g, names, rank, items) == CostOfAll(g, names, rank, items, bound)
  {
    if items != [] { TotalIsCost(g, names, rank, items[1..], bound); }
  }

  lemma {:induction false} TotalAdds(g: Graph, names: seq<Name>, rank: map<Name, nat>, a: seq<Name>, b: seq<Name>)
    requires Descends(g, names, rank) && Items(g, names, a) && Items(g, names, b)
    ensures Items(g, names, a + b)
    ensures Total(g, names, rank, a + b) == Total(g, names, rank, a) + Total(g, names, rank, b)
  {
    assert forall k :: 0 <= k < |a + b| ==> (a + b)[k] == if k < |a| then a[k] else b[k - |a|];
    if a == [] {
      assert a + b == b;
    } else {
      assert (a + b)[1..] == a[1..] + b;
      TotalAdds(g, names, rank, a[1..], b);
    }
  }

  lemma TotalOfOne(g: Graph, names: seq<Name>, rank: map<Name, nat>, n: Name)
    requires Descends(g, names, rank) && Item(g, names, n)
    ensures Items(g, names, [n]) && Total(g, names, rank, [n]) == Cost(g, names, rank, n)
  {
    assert Total(g, names, rank, []) == 0;
  }

  /** Replacing a vertex by its successors lowers the total by one. */
  lemma Unfolds(g: Graph, names: seq<Name>, rank: map<Name, nat>, n: Name)
    requires Descends(g, names, rank) && n in g && ReachedFrom(g, names, n)
    ensures Items(g, names, g[n]) && Item(g, names, n)
    ensures Cost(g, names, rank, n) == 1 + Total(g, names, rank, g[n])
  {
    SuccessorsBelow(g, names, rank, n);
    TotalIsCost(g, names, rank, g[n], rank[n]);
  }

  /** Some item of the worklist can reach a vertex of `c`. */
  ghost predicate Alive(g: Graph, items: seq<Name>, c: set<Name>) {
    exists k, v :: 0 <= k < |items| && v in c && Reaches(g, items[k], v)
  }

  lemma {:induction false} PathIntoSinkless(g: Graph, n: Name, v: Name, c: set<Name>) returns (m: Name)
    requires Sinkless(g, c) && v in c && Reaches(g, n, v)
    ensures Edge(g, n, m) && exists w :: w in c && Reaches(g, m, w)
  {
    var p :| Joins(g, p, n, v);
    if |p| == 1 {
      assert StepsInto(g, n, c);
      m :| m in c && Edge(g, n, m);
      ReachesItself(g, m);
    } else {
      m := p[1];
      assert Link(g, p, 0);
      var q := p[1..];
      forall i | 0 <= i < |q| - 1 ensures Link(g, q, i) { assert Link(g, p, i + 1); }
      assert Joins(g, q, m, v);
    }
  }

  /** An item is taken and its successors are added, wherever: what could reach a cycle still can. */
  lemma StaysAlive(g: Graph, items: seq<Name>, rest: seq<Name>, n: Name, c: set<Name>)
    requires Sinkless(g, c) && Alive(g, items, c)
    requires forall k :: 0 <= k < |items| ==> items[k] == n || items[k] in rest
    requires n in g ==> forall m :: m in g[n] && m in g ==> m in rest
    ensures Alive(g, rest, c)
  {
    var k, v :| 0 <= k < |items| && v in c && Reaches(g, items[k], v);
    if items[k] in rest {
      var j :| 0 <= j < |rest| && rest[j] == items[k];
    } else {
      var m := PathIntoSinkless(g, n, v, c);
      var w :| w in c && Reaches(g, m, w);
      var j :| 0 <= j < |rest| && rest[j] == m;
    }
  }

  /** A cycle that can be reached keeps the worklist alive from the start. */
  lemma CycleIsAlive(g: Graph, names: seq<Name>, u: Name, v: Name) returns (c: set<Name>)
    requires ReachedFrom(g, names, u) && Edge(g, u, v) && Reaches(g, v, u)
    ensures Sinkless(g, c) && Alive(g, names, c)
  {
    var p :| Joins(g, p, v, u);
    c := Members(p);
    forall a {:trigger StepsInto(g, a, c)} | a in c ensures StepsInto(g, a, c) {
      var i :| 0 <= i < |p| && p[i] == a;
      if i + 1 < |p| {
        assert Link(g, p, i);
        assert p[i + 1] in c;
      } else {
        assert p[0] in c;
      }
    }
    assert p[|p| - 1] in c;
    var n :| n in names && Reaches(g, n, u);
    var k :| 0 <= k < |names| && names[k] == n;
  }

  /** A worklist is a queue or a stack. */
  datatype End = Front | Back

  function Next(items: seq<Name>, end: End): Name
    requires items != []
  {
    if end == Front then items[0] else items[|items| - 1]
  }

  function Others(items: seq<Name>, end: End): seq<Name>
    requires items != []
  {
    if end == Front then items[1..] else items[..|items| - 1]
  }

  function Successors(g: Graph, n: Name): seq<Name> {
    if n in g then g[n] else []
  }

  /** The worklist after `k` rounds of a loop that takes an item off one end and adds its successors at the
      back. */
  function Rounds(g: Graph, items: seq<Name>, end: End, k: nat): seq<Name> {
    if k == 0 then items
    else
      var before := Rounds(g, items, end, k - 1);
      if before == [] then [] else Others(before, end) + Successors(g, Next(before, end))
  }

  /** What the first `k` rounds take off, in order. */
  function TakenOff(g: Graph, items: seq<Name>, end: End, k: nat): seq<Name> {
    if k == 0 then []
    else
      var before := Rounds(g, items, end, k - 1);
      TakenOff(g, items, end, k - 1) + if before == [] then [] else [Next(before, end)]
  }

  lemma RoundsStart(g: Graph, items: seq<Name>, end: End)
    ensures Rounds(g, items, end, 0) == items && TakenOff(g, items, end, 0) == []
  {
  }

  lemma RoundsGoOn(g: Graph, items: seq<Name>, end: End, k: nat)
    requires Rounds(g, items, end, k) != []
    ensures var before := Rounds(g, items, end, k);
      && Rounds(g, items, end, k + 1) == Others(before, end) + Successors(g, Next(before, end))
      && TakenOff(g, items, end, k + 1) == TakenOff(g, items, end, k) + [Next(before, end)]
  {
  }

  lemma AliveIsNotEmpty(g: Graph, items: seq<Name>, c: set<Name>)
    requires Alive(g, items, c)
    ensures items != []
  {
  }

  lemma TakenOrLeft(items: seq<Name>, end: End)
    requires items != []
    ensures forall k :: 0 <= k < |items| ==> items[k] == Next(items, end) || items[k] in Others(items, end)
  {
    forall k | 0 <= k < |items| && items[k] != Next(items, end) ensures items[k] in Others(items, end) {
      assert items[k] == Others(items, end)[if end == Front then k - 1 else k];
    }
  }

  lemma {:induction false} RoundsStayAlive(g: Graph, items: seq<Name>, end: End, c: set<Name>, k: nat)
    requires Sinkless(g, c) && Alive(g, items, c)
    ensures Alive(g, Rounds(g, items, end, k), c)
  {
    hide Reaches, StepsInto, Alive;
    if k > 0 {
      RoundsStayAlive(g, items, end, c, k - 1);
      var before := Rounds(g, items, end, k - 1);
      AliveIsNotEmpty(g, before, c);
      TakenOrLeft(before, end);
      StaysAlive(g, before, Rounds(g, items, end, k), Next(before, end), c);
    }
  }
}
