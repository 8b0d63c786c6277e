/** Finite directed graphs of names: paths, reachability, cycles. An edge counts only when both ends are
    vertices, as a dependency counts only when the package it names is there. */
module Graphs {
  import opened Sequences

  datatype Name = Name(text: string)

  type Graph = map<Name, seq<Name>>

  predicate Edge(g: Graph, u: Name, v: Name) {
    u in g && v in g && v in g[u]
  }

  /** Step `i` of `p` is an edge. */
  predicate Link(g: Graph, p: seq<Name>, i: nat)
    requires i + 1 < |p|
  {
    Edge(g, p[i], p[i + 1])
  }

  ghost predicate Path(g: Graph, p: seq<Name>) {
    && p != []
    && (forall n :: n in p ==> n in g)
    && forall i :: 0 <= i < |p| - 1 ==> Link(g, p, i)
  }

  function Last(p: seq<Name>): Name
    requires p != []
  {
    p[|p| - 1]
  }

  ghost predicate Joins(g: Graph, p: seq<Name>, u: Name, v: Name) {
    Path(g, p) && p[0] == u && Last(p) == v
  }

  ghost predicate Reaches(g: Graph, u: Name, v: Name) {
    exists p :: Joins(g, p, u, v)
  }

  /** Reachable from one of `names`. */
  ghost predicate ReachedFrom(g: Graph, names: seq<Name>, v: Name) {
    exists u :: u in names && Reaches(g, u, v)
  }

  ghost predicate Acyclic(g: Graph) {
    forall p :: Path(g, p) && |p| > 1 ==> p[0] != Last(p)
  }

  lemma ReachesItself(g: Graph, u: Name)
    requires u in g
    ensures Reaches(g, u, u)
  {
    assert Joins(g, [u], u, u);
  }

  lemma ReachesOver(g: Graph, u: Name, v: Name, w: Name)
    requires Reaches(g, u, v) && Reaches(g, v, w)
    ensures Reaches(g, u, w)
  {
    var p :| Joins(g, p, u, v);
    var q :| Joins(g, q, v, w);
    var r := p + q[1..];
    forall i | 0 <= i < |r| - 1 ensures Link(g, r, i) {
      if i < |p| - 1 { assert Link(g, p, i); } else { assert Link(g, q, i - (|p| - 1)); }
    }
    assert Joins(g, r, u, w);
  }

  lemma EdgeReaches(g: Graph, u: Name, v: Name)
    requires Edge(g, u, v)
    ensures Reaches(g, u, v)
  {
    assert Link(g, [u, v], 0);
    assert Joins(g, [u, v], u, v);
  }

  lemma ReachesOn(g: Graph, u: Name, v: Name, w: Name)
    requires Reaches(g, u, v) && Edge(g, v, w)
    ensures Reaches(g, u, w)
  {
    EdgeReaches(g, v, w);
    ReachesOver(g, u, v, w);
  }

  lemma ReachesEnds(g: Graph, u: Name, v: Name)
    requires Reaches(g, u, v)
    ensures u in g && v in g
  {
    var p :| Joins(g, p, u, v);
  }

  /** A set that keeps every edge inside keeps everything reachable inside. */
  lemma {:induction false} ClosedPath(g: Graph, s: set<Name>, p: seq<Name>)
    requires Path(g, p) && p[0] in s
    requires forall u, v :: u in s && Edge(g, u, v) ==> v in s
    ensures Last(p) in s
  {
    if |p| > 1 {
      assert Link(g, p, 0);
      var q := p[1..];
      forall i | 0 <= i < |q| - 1 ensures Link(g, q, i) { assert Link(g, p, i + 1); }
      ClosedPath(g, s, q);
    }
  }

  lemma ClosedUnderReach(g: Graph, s: set<Name>, u: Name, v: Name)
    requires Reaches(g, u, v) && u in s
    requires forall a, b :: a in s && Edge(g, a, b) ==> b in s
    ensures v in s
  {
    var p :| Joins(g, p, u, v);
    ClosedPath(g, s, p);
  }

  /** The same, against the edges. */
  lemma ClosedAgainstReach(g: Graph, s: set<Name>, u: Name, v: Name)
    requires Reaches(g, u, v) && v in s
    requires forall a, b :: b in s && Edge(g, a, b) ==> a in s
    ensures u in s
  {
    var outside := g.Keys - s;
    ReachesEnds(g, u, v);
    if u !in s { ClosedUnderReach(g, outside, u, v); }
  }

  /** In an acyclic graph nothing reaches back over an edge. */
  lemma NoWayBack(g: Graph, u: Name, v: Name)
    requires Acyclic(g) && Edge(g, u, v)
    ensures !Reaches(g, v, u)
  {
    if Reaches(g, v, u) {
      var p :| Joins(g, p, v, u);
      var q := [u] + p;
      forall i | 0 <= i < |q| - 1 ensures Link(g, q, i) {
        if i > 0 { assert Link(g, p, i - 1); }
      }
      assert Path(g, q);
      assert false;
    }
  }

  ghost predicate StepsInto(g: Graph, u: Name, s: set<Name>) {
    exists v :: v in s && Edge(g, u, v)
  }

  /** Every vertex of `s` has an edge into `s`. */
  ghost predicate Sinkless(g: Graph, s: set<Name>) {
    s <= g.Keys && forall u {:trigger StepsInto(g, u, s)} :: u in s ==> StepsInto(g, u, s)
  }

  lemma {:induction false} SinklessWalk(g: Graph, s: set<Name>, u: Name, steps: nat) returns (p: seq<Name>)
    requires Sinkless(g, s) && u in s
    ensures Path(g, p) && p[0] == u && |p| == steps + 1 && forall n :: n in p ==> n in s
    decreases steps
  {
    if steps == 0 {
      p := [u];
    } else {
      assert StepsInto(g, u, s);
      var v :| v in s && Edge(g, u, v);
      var q := SinklessWalk(g, s, v, steps - 1);
      p := [u] + q;
      forall i | 0 <= i < |p| - 1 ensures Link(g, p, i) {
        if i > 0 { assert Link(g, q, i - 1); }
      }
    }
  }

  lemma SinklessIsCyclic(g: Graph, s: set<Name>)
    requires Sinkless(g, s) && s != {}
    ensures !Acyclic(g)
  {
    var u :| u in s;
    var p := SinklessWalk(g, s, u, |s|);
    var i, j := Pigeonhole(p, s);
    var c := p[i..j + 1];
    forall k | 0 <= k < |c| - 1 ensures Link(g, c, k) { assert Link(g, p, i + k); }
    assert Path(g, c) && c[0] == p[i] && Last(c) == p[j];
  }

  /** Every edge goes down. */
  ghost predicate Ranked(g: Graph, rank: map<Name, nat>) {
    rank.Keys == g.Keys && forall u, v :: Edge(g, u, v) ==> rank[v] < rank[u]
  }

  /** `done` ranks a set of vertices that no edge leaves. */
  ghost predicate Peeled(g: Graph, done: map<Name, nat>) {
    && done.Keys <= g.Keys
    && (forall u :: u in done ==> done[u] < |done.Keys|)
    && forall u, v {:trigger Edge(g, u, v)} :: u in done && Edge(g, u, v) ==> v in done && done[v] < done[u]
  }

  lemma PeelOne(g: Graph, done: map<Name, nat>, u: Name) returns (more: map<Name, nat>)
    requires Peeled(g, done) && u in g && u !in done && !StepsInto(g, u, g.Keys - done.Keys)
    ensures Peeled(g, more) && more.Keys == done.Keys + {u}
  {
    more := done[u := |done.Keys|];
    forall a, b | a in more && Edge(g, a, b) ensures b in more && more[b] < more[a] {
      if a == u { assert b in g.Keys - done.Keys ==> StepsInto(g, u, g.Keys - done.Keys); }
    }
  }

  lemma PeeledAll(g: Graph, done: map<Name, nat>)
    requires Peeled(g, done) && g.Keys - done.Keys == {}
    ensures Ranked(g, done)
  {
  }

  lemma LeftShrinks(all: set<Name>, done: set<Name>, u: Name)
    requires u in all && u !in done
    ensures |all - (done + {u})| < |all - done|
  {
    assert all - (done + {u}) == (all - done) - {u};
  }

  /** An acyclic graph can be ranked: peel off, again and again, a vertex whose edges all go to vertices
      already peeled; if there were none, the rest would contain a cycle. */
  lemma {:induction false} RankFrom(g: Graph, done: map<Name, nat>) returns (rank: map<Name, nat>)
    requires Acyclic(g) && Peeled(g, done)
    ensures Ranked(g, rank)
    decreases |g.Keys - done.Keys|
  {
    hide Acyclic, Peeled, Ranked, StepsInto;
    var left := g.Keys - done.Keys;
    if left == {} {
      PeeledAll(g, done);
      rank := done;
    } else if Sinkless(g, left) {
      SinklessIsCyclic(g, left);
      assert false;
    } else {
      var u :| u in left && !StepsInto(g, u, left);
      var more := PeelOne(g, done, u);
      LeftShrinks(g.Keys, done.Keys, u);
      rank := RankFrom(g, more);
    }
  }

  lemma RankOf(g: Graph) returns (rank: map<Name, nat>)
    requires Acyclic(g)
    ensures Ranked(g, rank)
  {
    rank := RankFrom(g, map[]);
  }

  /** The graph without some of its vertices. */
  function Avoid(g: Graph, gone: set<Name>): (h: Graph)
    ensures h.Keys == g.Keys - gone
    ensures forall u, v :: Edge(h, u, v) <==> Edge(g, u, v) && u !in gone && v !in gone
  {
    map u | u in g && u !in gone :: g[u]
  }

  /** Where more is left, no way is lost. */
  lemma MoreRoom(g: Graph, gone: set<Name>, less: set<Name>, u: Name, v: Name)
    requires less <= gone && Reaches(Avoid(g, gone), u, v)
    ensures Reaches(Avoid(g, less), u, v)
  {
    var p :| Joins(Avoid(g, gone), p, u, v);
    forall i | 0 <= i < |p| - 1 ensures Link(Avoid(g, less), p, i) { assert Link(Avoid(g, gone), p, i); }
    assert Joins(Avoid(g, less), p, u, v);
  }

  lemma MoreRoomAll(g: Graph, gone: set<Name>, u: Name, v: Name)
    requires Reaches(Avoid(g, gone), u, v)
    ensures Reaches(g, u, v)
  {
    var p :| Joins(Avoid(g, gone), p, u, v);
    forall i | 0 <= i < |p| - 1 ensures Link(g, p, i) { assert Link(Avoid(g, gone), p, i); }
    assert Joins(g, p, u, v);
  }

  lemma AlongPath(g: Graph, p: seq<Name>, i: nat, j: nat)
    requires Path(g, p) && i <= j < |p|
    ensures Reaches(g, p[i], p[j])
  {
    var q := p[i..j + 1];
    forall k | 0 <= k < |q| - 1 ensures Link(g, q, k) { assert Link(g, p, i + k); }
    assert Joins(g, q, p[i], p[j]);
  }
}
