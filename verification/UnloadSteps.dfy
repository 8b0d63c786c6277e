/** When an unload keeps the loaded addons closed after every single removal: the condition of
    `AddonManager` is exact for the orders that the search computes. */
module UnloadSteps {
  import opened Sequences
  import opened Graphs
  import opened Packages
  import opened UnloadSearch
  import opened AddonManager

  /** The installed packages in some order. The map that holds them is sorted by name, so this is a matter of
      how they are called. */
  predicate Lists(ps: Installed, keys: seq<Name>) {
    Distinct(keys) && Members(keys) == ps.Keys
  }

  /** The first `k` removals along what the search for `names` returns keep the invariant. */
  ghost predicate KeepsGood(ps: Installed, keys: seq<Name>, names: seq<Name>, loaded: seq<Name>, k: nat) {
    var order := UnloadOrderOf(ps, keys, names);
    Lists(ps, keys) && Good(ps, loaded) && k <= |order| ==>
      (forall n :: n in order ==> n in ps) && Good(ps, Unloading(ps, loaded, order[..k]))
  }

  /** Whenever `p` has come up, so has `a`. */
  ghost predicate Ahead(order: seq<Name>, a: Name, p: Name) {
    forall k: nat :: k <= |order| && p in order[..k] ==> a in order[..k]
  }

  /** Whoever requires an addon is removed before it. */
  ghost predicate InTurn(ps: Installed, order: seq<Name>) {
    forall a, p :: Needs(ps, a, p) ==> Ahead(order, a, p)
  }

  /** That is what it takes to keep the invariant, whatever was loaded. */
  lemma InTurnKeepsGood(ps: Installed, keys: seq<Name>, names: seq<Name>)
    requires Lists(ps, keys)
    ensures InTurn(ps, UnloadOrderOf(ps, keys, names)) <==>
            forall loaded, k: nat :: KeepsGood(ps, keys, names, loaded, k)
  {
    hide Needs, IsUnloadOrder, UnloadOrderOf, Good;
    var order := UnloadOrderOf(ps, keys, names);
    FinishedIsUnloadOrder(ps, keys, names);
    UnloadOrderIsInstalled(ps, names, order);
    if InTurn(ps, order) {
      forall loaded, k: nat ensures KeepsGood(ps, keys, names, loaded, k) {
        if Good(ps, loaded) && k <= |order| { StaysGood(ps, loaded, order, k); }
      }
    } else {
      var a, p :| Needs(ps, a, p) && !Ahead(order, a, p);
      var k: nat :| k <= |order| && p in order[..k] && a !in order[..k];
      var loaded := AllAddons(ps);
      NeedsAddon(ps, a, p);
      LeftBehind(ps, loaded, order[..k], a, p);
      assert !KeepsGood(ps, keys, names, loaded, k);
    }
  }

  lemma NeedsAddon(ps: Installed, a: Name, p: Name)
    requires Needs(ps, a, p)
    ensures a in ps && !IsLibrary(ps, a)
  {
  }

  lemma StaysGood(ps: Installed, loaded: seq<Name>, order: seq<Name>, k: nat)
    requires Good(ps, loaded) && InTurn(ps, order) && k <= |order| && forall n :: n in order ==> n in ps
    ensures Good(ps, Unloading(ps, loaded, order[..k]))
  {
    hide Depends;
    UnloadingMembers(ps, loaded, order[..k]);
    var l := Unloading(ps, loaded, order[..k]);
    forall a, p | a in l && Reaches(Required(ps), a, p) && !IsLibrary(ps, p) ensures p in l {
      if a != p {
        ReachesEnds(Required(ps), a, p);
        assert Needs(ps, a, p);
        assert Ahead(order, a, p);
      }
    }
  }

  lemma LeftBehind(ps: Installed, loaded: seq<Name>, order: seq<Name>, a: Name, p: Name)
    requires Good(ps, loaded) && Needs(ps, a, p) && a in loaded && p in order && a !in order
    requires forall n :: n in order ==> n in ps
    ensures !Good(ps, Unloading(ps, loaded, order))
  {
    hide Reaches, Depends;
    UnloadingMembers(ps, loaded, order);
    assert a in Unloading(ps, loaded, order) && p !in Unloading(ps, loaded, order);
  }

  lemma AllAddons(ps: Installed) returns (loaded: seq<Name>)
    ensures Good(ps, loaded) && forall n :: n in loaded <==> n in ps && !IsLibrary(ps, n)
  {
    loaded := Listed(set n | n in ps && !IsLibrary(ps, n));
    AddonsAreGood(ps, loaded);
  }

  lemma AddonsAreGood(ps: Installed, loaded: seq<Name>)
    requires Distinct(loaded) && Members(loaded) == set n | n in ps && !IsLibrary(ps, n)
    ensures Good(ps, loaded) && forall n :: n in loaded <==> n in ps && !IsLibrary(ps, n)
  {
    forall n ensures n in loaded <==> n in ps && !IsLibrary(ps, n) { assert n in loaded <==> n in Members(loaded); }
    forall a, p | a in loaded && Reaches(Required(ps), a, p) && !IsLibrary(ps, p) ensures p in loaded {
      ReachesEnds(Required(ps), a, p);
    }
  }

  lemma PrefixOfPrefix<T>(a: seq<T>, b: seq<T>, c: seq<T>)
    requires a <= b && b <= c
    ensures a <= c
  {
  }

  /** The search may go down `q` first: then `q[0]` is listed with no more than what leads to it past `q`. */
  lemma {:induction false} GoesDown(g: Graph, keys: seq<Name>, q: seq<Name>, j: nat)
    requires Path(g, q) && Distinct(q) && j < |q| <= |keys| && forall k :: 0 <= k < |q| ==> keys[k] == q[|q| - 1 - k]
    ensures Unwind(g, keys, q[0], Search([], Members(q))).list
         <= Unwind(g, keys, q[j], Search([], Members(q[j..]))).list
    decreases j
  {
    hide *;
    if j == 0 {
      assert q[0..] == q;
    } else {
      var s, v := Search([], Members(q[j..])), q[j - 1];
      GoesDown(g, keys, q, j - 1);
      NextDown(g, q, j);
      ColouredAbove(keys, q, j);
      var t := Unwind(g, keys, v, Search([], s.seen + {v}));
      UnwindEntersFirst(g, keys, q[j], |q| - j, s, t);
      var first, last := Unwind(g, keys, q[0], Search([], Members(q))), Unwind(g, keys, q[j], s);
      PrefixOfPrefix(first.list, t.list, last.list);
    }
  }

  /** Below `q[j]` what the way has come over is coloured, and `q[j - 1]` is next. */
  lemma NextDown(g: Graph, q: seq<Name>, j: nat)
    requires Path(g, q) && Distinct(q) && 0 < j < |q|
    ensures q[j - 1] !in Members(q[j..]) && Edge(g, q[j - 1], q[j])
    ensures Members(q[j..]) + {q[j - 1]} == Members(q[j - 1..])
  {
    assert Link(g, q, j - 1);
    hide Path, Edge;
    assert q[j - 1..] == [q[j - 1]] + q[j..];
    forall k | 0 <= k < |q[j..]| ensures q[j..][k] != q[j - 1] { assert q[j..][k] == q[j + k]; }
  }

  lemma ColouredAbove(keys: seq<Name>, q: seq<Name>, j: nat)
    requires 0 < j < |q| <= |keys| && forall k :: 0 <= k < |q| ==> keys[k] == q[|q| - 1 - k]
    ensures forall k :: 0 <= k < |q| - j ==> keys[k] in Members(q[j..])
  {
    hide Members;
    forall k | 0 <= k < |q| - j ensures keys[k] in Members(q[j..]) { MemberAt(q[j..], |q| - 1 - k - j); }
  }

  /** A visit lists first what the visit of the first dependent lists. */
  lemma UnwindEntersFirst(g: Graph, keys: seq<Name>, name: Name, j: nat, s: Search, t: Search)
    requires j < |keys| && forall k :: 0 <= k < j ==> keys[k] in s.seen
    requires keys[j] !in s.seen && Edge(g, keys[j], name)
    requires t == Unwind(g, keys, keys[j], Search(s.list, s.seen + {keys[j]}))
    ensures t.list <= Unwind(g, keys, name, s).list
  {
    hide *;
    ScanFinds(g, keys, name, j, s);
    ScanEnds(g, keys, name, s);
    var end := Scan(g, keys, name, j + 1, t);
    ScanGrows(g, keys, name, j + 1, t);
    ListGrows(g, t, end, 0);
    PrefixOfPrefix(t.list, end.list, end.list + [name]);
  }

  lemma ListGrows(g: Graph, s: Search, t: Search, more: nat)
    requires Grows(g, s, t, more)
    ensures s.list <= t.list
  {
  }

  /** An addon that requires another one but does not reach it past some way on from it can be left behind:
      an unload of a package to which that way leads comes down that way. */
  lemma CanBreak(ps: Installed, a: Name, p: Name, q: seq<Name>) returns (keys: seq<Name>, root: Name)
    requires Needs(ps, a, p) && SimplePath(All(ps), q, p) && !WayPast(ps, a, p, q)
    ensures Lists(ps, keys) && root in ps && !Ahead(UnloadOrderOf(ps, keys, [root]), a, p)
  {
    hide Needs, WayPast;
    NeedsReaches(ps, a, p);
    var g := All(ps);
    if root' :| Edge(g, Last(q), root') {
      root := root';
      keys := ComesDown(ps, a, p, q, root);
    } else {
      LeadsNowhere(ps, a, p, q);
      var way := q[..|q| - 1];
      root := Last(q);
      keys := ComesDown(ps, a, p, way, root);
    }
  }

  lemma NeedsReaches(ps: Installed, a: Name, p: Name)
    requires Needs(ps, a, p)
    ensures Reaches(All(ps), a, p) && a != p
  {
    RequiredReachesAll(ps, a, p);
  }

  /** The end of a way that leads nowhere is on no way to anything else. */
  lemma LeadsNowhere(ps: Installed, a: Name, p: Name, q: seq<Name>)
    requires Reaches(All(ps), a, p) && SimplePath(All(ps), q, p) && !WayPast(ps, a, p, q)
    requires forall v :: !Edge(All(ps), Last(q), v)
    ensures |q| > 1
    ensures var way := q[..|q| - 1];
      SimplePath(All(ps), way, p) && !WayPast(ps, a, p, way) && Edge(All(ps), Last(way), Last(q))
  {
    hide Reaches, Edge, All;
    var g := All(ps);
    if |q| == 1 {
      assert q[1..] == [];
      AvoidNothing(g, a, p);
    } else {
      ShorterWay(g, q, p);
      var way := q[..|q| - 1];
      if WayPast(ps, a, p, way) { PastTheEnd(g, Members(way[1..]), Last(q), a, p); }
    }
  }

  lemma ShorterWay(g: Graph, q: seq<Name>, p: Name)
    requires SimplePath(g, q, p) && |q| > 1
    ensures var way := q[..|q| - 1];
      && SimplePath(g, way, p) && Edge(g, Last(way), Last(q)) && Last(q) != p
      && Members(q[1..]) == Members(way[1..]) + {Last(q)}
  {
    hide Edge;
    var way := q[..|q| - 1];
    forall k | 0 <= k < |way| - 1 ensures Link(g, way, k) { assert Link(g, q, k); }
    assert Link(g, q, |q| - 2);
    assert q[1..] == way[1..] + [Last(q)];
  }

  lemma AvoidNothing(g: Graph, a: Name, p: Name)
    requires Reaches(g, a, p)
    ensures Reaches(Avoid(g, Members([])), a, p)
  {
    var h := Avoid(g, Members([]));
    var w :| Joins(g, w, a, p);
    forall k | 0 <= k < |w| - 1 ensures Link(h, w, k) { assert Link(g, w, k); }
    assert Joins(h, w, a, p);
  }

  lemma PastTheEnd(g: Graph, gone: set<Name>, x: Name, a: Name, p: Name)
    requires Reaches(Avoid(g, gone), a, p) && x != p && forall v :: !Edge(g, x, v)
    ensures Reaches(Avoid(g, gone + {x}), a, p)
  {
    var less, h := Avoid(g, gone), Avoid(g, gone + {x});
    var w :| Joins(less, w, a, p);
    forall k | 0 <= k < |w| ensures w[k] in h {
      assert w[k] in less;
      if k < |w| - 1 { assert Link(less, w, k); }
    }
    forall k | 0 <= k < |w| - 1 ensures Link(h, w, k) { assert Link(less, w, k); }
    assert Joins(h, w, a, p);
  }

  /** With the packages in a suitable order, an unload of `root` comes down `q`, which leads to it. */
  lemma ComesDown(ps: Installed, a: Name, p: Name, q: seq<Name>, root: Name) returns (keys: seq<Name>)
    requires a != p && SimplePath(All(ps), q, p) && Edge(All(ps), Last(q), root) && !WayPast(ps, a, p, q)
    ensures Lists(ps, keys) && root in ps && !Ahead(UnloadOrderOf(ps, keys, [root]), a, p)
  {
    hide Unwind, Scan, UnloadOrderOf, All, Edge, WayPast, Reversed, Grows;
    var g := All(ps);
    keys := FirstDown(ps, q);
    var m := |q| - 1;
    forall k | 0 <= k < |q| ensures keys[k] == q[m - k] { assert keys[k] == keys[..|q|][k]; }
    assert keys[0] == q[m] == Last(q);
    var t := Unwind(g, keys, q[0], Search([], Members(q)));
    GoesDown(g, keys, q, m);
    assert Members(q[m..]) == {} + {q[m]} by { assert q[m..] == [q[m]]; }
    UnwindEntersFirst(g, keys, root, 0, Search([], {}), Unwind(g, keys, q[m], Search([], {} + {q[m]})));
    EdgeEnds(g, Last(q), root);
    SearchForOne(ps, keys, root);
    OnlyPast(ps, keys, q, a, p);
    var order := UnloadOrderOf(ps, keys, [root]);
    assert t.list <= order;
    assert order[..|t.list|] == t.list;
  }

  lemma OnlyPast(ps: Installed, keys: seq<Name>, q: seq<Name>, a: Name, p: Name)
    requires a != p && SimplePath(All(ps), q, p) && !WayPast(ps, a, p, q)
    ensures var list := Unwind(All(ps), keys, p, Search([], Members(q))).list; p in list && a !in list
  {
    hide Unwind, Reaches, Grows;
    var s := Search([], Members(q));
    UnwindGrows(All(ps), keys, p, s);
    StartApart(q);
    if a in Unwind(All(ps), keys, p, s).list { UnwindReaches(All(ps), keys, p, s, a); }
  }

  lemma StartApart<T>(q: seq<T>)
    requires q != [] && Distinct(q)
    ensures Members(q) - {q[0]} == Members(q[1..])
  {
    assert q == [q[0]] + q[1..];
    forall k | 0 <= k < |q[1..]| ensures q[1..][k] != q[0] { assert q[1..][k] == q[k + 1]; }
  }

  lemma FirstDown(ps: Installed, q: seq<Name>) returns (keys: seq<Name>)
    requires Path(All(ps), q) && Distinct(q)
    ensures Lists(ps, keys) && |q| <= |keys| && keys[..|q|] == Reversed(q)
  {
    var back := Reversed(q);
    var rest := Listed(ps.Keys - Members(q));
    keys := back + rest;
    forall n ensures n in back <==> n in q { ReversedConserves(q); assert n in multiset(back) <==> n in multiset(q); }
    forall i, j | 0 <= i < j < |keys| ensures keys[i] != keys[j] {
      if i < |q| <= j { assert keys[i] in q && keys[j] in Members(rest); }
    }
    assert Members(back) == Members(q) && Members(keys) == Members(back) + Members(rest);
  }

  /** Whatever the packages are called, every removal of every unload keeps the invariant if and only if there
      is always a way past. */
  lemma StepsKeepGoodExactly(ps: Installed)
    ensures WaysPast(ps) <==> forall keys, names, loaded, k: nat :: KeepsGood(ps, keys, names, loaded, k)
  {
    hide KeepsGood, WaysPast;
    if WaysPast(ps) {
      forall keys, names, loaded, k: nat ensures KeepsGood(ps, keys, names, loaded, k) {
        EnoughToKeep(ps, keys, names, loaded, k);
      }
    } else {
      var a, p, q := NotPast(ps);
      var keys, root := CanBreak(ps, a, p, q);
      InTurnKeepsGood(ps, keys, [root]);
      assert !InTurn(ps, UnloadOrderOf(ps, keys, [root]));
    }
  }

  lemma EnoughToKeep(ps: Installed, keys: seq<Name>, names: seq<Name>, loaded: seq<Name>, k: nat)
    requires WaysPast(ps)
    ensures KeepsGood(ps, keys, names, loaded, k)
  {
    hide WaysPast, IsUnloadOrder;
    if Lists(ps, keys) && Good(ps, loaded) && k <= |UnloadOrderOf(ps, keys, names)| {
      FinishedIsUnloadOrder(ps, keys, names);
      UnloadKeepsGood(ps, loaded, names, UnloadOrderOf(ps, keys, names), k);
    }
  }

  lemma NotPast(ps: Installed) returns (a: Name, p: Name, q: seq<Name>)
    requires !WaysPast(ps)
    ensures Needs(ps, a, p) && SimplePath(All(ps), q, p) && !WayPast(ps, a, p, q)
  {
    hide Needs;
    a, p, q :| Needs(ps, a, p) && SimplePath(All(ps), q, p) && !WayPast(ps, a, p, q);
  }
}
