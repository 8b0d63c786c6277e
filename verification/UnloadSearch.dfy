/** What an unload order is, and the search behind it: a depth-first search against the dependencies that
    colours every vertex but the roots. */
module UnloadSearch {
  import opened Sequences
  import opened Graphs
  import opened Packages

  /** `n` depends, directly or not, on one of `names` (or is one of them). */
  ghost predicate DependsOn(g: Graph, n: Name, names: seq<Name>) {
    exists m :: m in names && Reaches(g, n, m)
  }

  /** A path without repetitions. */
  ghost predicate SimplePath(g: Graph, q: seq<Name>, p: Name) {
    Path(g, q) && q[0] == p && Distinct(q)
  }

  /** Everything that depends on entry `i` without passing `q`, which leads on from the entry, is listed
      before it. */
  ghost predicate Clears(g: Graph, order: seq<Name>, i: nat, q: seq<Name>)
    requires i < |order|
  {
    && SimplePath(g, q, order[i])
    && forall v :: Reaches(Avoid(g, Members(q[1..])), v, order[i]) && v != order[i] ==> v in order[..i]
  }

  ghost predicate Cleared(g: Graph, order: seq<Name>, i: nat)
    requires i < |order|
  {
    exists q :: Clears(g, order, i, q)
  }

  /** What `unload_order` promises: exactly the installed names and everything that depends on them, not
      too often, and before each entry all that depends on it but for what passes a way on from it.
      Packages can be listed more than once. */
  ghost predicate IsUnloadOrder(ps: Installed, names: seq<Name>, order: seq<Name>) {
    && (forall n :: n in order <==> DependsOn(All(ps), n, names))
    && |order| <= |names| + |ps|
    && forall i: nat :: i < |order| ==> Cleared(All(ps), order, i)
  }

  /** What comes before an entry: every direct dependent on which it does not depend in turn, with all that
      depends on that. */
  lemma TransitiveDependentsFirst(g: Graph, order: seq<Name>, i: nat, u: Name, n: Name)
    requires i < |order| && Cleared(g, order, i)
    requires Edge(g, u, order[i]) && !Reaches(g, order[i], u) && Reaches(g, n, u)
    ensures n in order[..i]
  {
    var q :| Clears(g, order, i, q);
    EntersPast(g, q, u, n);
    if n == order[i] { assert false; }
  }

  /** A way that comes in over an edge on no cycle passes nothing that its end leads to. */
  lemma EntersPast(g: Graph, q: seq<Name>, u: Name, n: Name)
    requires Path(g, q) && Distinct(q) && Edge(g, u, q[0]) && !Reaches(g, q[0], u) && Reaches(g, n, u)
    ensures Reaches(Avoid(g, Members(q[1..])), n, q[0])
  {
    var h := Avoid(g, Members(q[1..]));
    var p :| Joins(g, p, n, u);
    forall k | 0 <= k < |p| ensures p[k] in h {
      if p[k] in q[1..] {
        var j :| 0 <= j < |q| && q[j] == p[k];
        AlongPath(g, q, 0, j);
        AlongPath(g, p, k, |p| - 1);
        ReachesOver(g, q[0], p[k], u);
        assert false;
      }
    }
    forall k | 0 <= k < |p| - 1 ensures Link(h, p, k) { assert Link(g, p, k); }
    assert Joins(h, p, n, u);
    assert q[0] !in q[1..];
    ReachesOn(h, n, u, q[0]);
  }

  /** The list so far, and what has been coloured. */
  datatype Search = Search(list: seq<Name>, seen: set<Name>)

  /** The loop over the installed packages for the package `name`, from number `i` on. */
  function Scan(g: Graph, keys: seq<Name>, name: Name, i: nat, s: Search): (t: Search)
    ensures s.seen <= t.seen
    decreases |g.Keys - s.seen|, if i < |keys| then |keys| - i else 0
  {
    if i >= |keys| then s
    else
      var v := keys[i];
      if v in s.seen || !Edge(g, v, name) then Scan(g, keys, name, i + 1, s)
      else
        FewerLeft(g.Keys, s.seen, s.seen + {v}, v);
        var t := Unwind(g, keys, v, Search(s.list, s.seen + {v}));
        FewerLeft(g.Keys, s.seen, t.seen, v);
        Scan(g, keys, name, i + 1, t)
  }

  /** `reverse_topological_sort` for an installed package. */
  function Unwind(g: Graph, keys: seq<Name>, name: Name, s: Search): (t: Search)
    ensures s.seen <= t.seen
    decreases |g.Keys - s.seen|, |keys| + 1
  {
    var t := Scan(g, keys, name, 0, s);
    Search(t.list + [name], t.seen)
  }

  lemma FewerLeft(all: set<Name>, seen: set<Name>, more: set<Name>, v: Name)
    requires seen <= more && v in all && v in more && v !in seen
    ensures |all - more| < |all - seen|
  {
    SubsetSize(all - more, all - seen);
    assert v in all - seen && v !in all - more;
  }

  /** The search for a list of names, one after the other. */
  function SearchFor(g: Graph, keys: seq<Name>, names: seq<Name>): Search {
    if names == [] then Search([], {})
    else
      var s, n := SearchFor(g, keys, names[..|names| - 1]), names[|names| - 1];
      if n in g then Unwind(g, keys, n, s) else s
  }

  /** `unload_order_impl`, with the installed packages in the order of `keys`. */
  function UnloadOrderOf(ps: Installed, keys: seq<Name>, names: seq<Name>): (order: seq<Name>) {
    SearchFor(All(ps), keys, names).list
  }

  /** The list only grows, by what is coloured and, for a visit, by the package itself. */
  ghost predicate Grows(g: Graph, s: Search, t: Search, more: nat) {
    && s.list <= t.list && s.seen <= t.seen <= s.seen + g.Keys
    && |t.list| - |s.list| == |t.seen| - |s.seen| + more
  }

  lemma {:induction false} ScanGrows(g: Graph, keys: seq<Name>, name: Name, i: nat, s: Search)
    ensures Grows(g, s, Scan(g, keys, name, i, s), 0)
    decreases |g.Keys - s.seen|, if i < |keys| then |keys| - i else 0
  {
    hide Scan, Unwind;
    if i >= |keys| {
      ScanOver(g, keys, name, i, s);
    } else {
      var v := keys[i];
      ScanStep(g, keys, name, i, s);
      if v in s.seen || !Edge(g, v, name) {
        ScanGrows(g, keys, name, i + 1, s);
      } else {
        FewerLeft(g.Keys, s.seen, s.seen + {v}, v);
        var t := Unwind(g, keys, v, Search(s.list, s.seen + {v}));
        UnwindGrows(g, keys, v, Search(s.list, s.seen + {v}));
        FewerLeft(g.Keys, s.seen, t.seen, v);
        ScanGrows(g, keys, name, i + 1, t);
      }
    }
  }

  lemma {:induction false} UnwindGrows(g: Graph, keys: seq<Name>, name: Name, s: Search)
    ensures Grows(g, s, Unwind(g, keys, name, s), 1) && name in Unwind(g, keys, name, s).list
    decreases |g.Keys - s.seen|, |keys| + 1
  {
    ScanGrows(g, keys, name, 0, s);
  }

  /** One round of the loop. */
  lemma ScanStep(g: Graph, keys: seq<Name>, name: Name, i: nat, s: Search)
    requires i < |keys|
    ensures var v := keys[i];
      Scan(g, keys, name, i, s) ==
        if v in s.seen || !Edge(g, v, name) then Scan(g, keys, name, i + 1, s)
        else Scan(g, keys, name, i + 1, Unwind(g, keys, v, Search(s.list, s.seen + {v})))
  {
  }

  /** Packages that are coloured, or do not depend on `name`, are passed over. */
  lemma {:induction false} ScanSkips(g: Graph, keys: seq<Name>, name: Name, i: nat, j: nat, s: Search)
    requires i <= j <= |keys| && forall k :: i <= k < j ==> keys[k] in s.seen || !Edge(g, keys[k], name)
    ensures Scan(g, keys, name, i, s) == Scan(g, keys, name, j, s)
    decreases j - i
  {
    hide Scan, Edge;
    if i < j {
      ScanStep(g, keys, name, i, s);
      ScanSkips(g, keys, name, i + 1, j, s);
    }
  }

  /** The first dependent that has not been coloured is visited. */
  lemma ScanFinds(g: Graph, keys: seq<Name>, name: Name, j: nat, s: Search)
    requires j < |keys| && forall k :: 0 <= k < j ==> keys[k] in s.seen || !Edge(g, keys[k], name)
    requires keys[j] !in s.seen && Edge(g, keys[j], name)
    ensures var v := keys[j];
      Scan(g, keys, name, 0, s) == Scan(g, keys, name, j + 1, Unwind(g, keys, v, Search(s.list, s.seen + {v})))
  {
    hide Scan, Unwind, Edge;
    ScanSkips(g, keys, name, 0, j, s);
    ScanStep(g, keys, name, j, s);
  }

  lemma ScanEnds(g: Graph, keys: seq<Name>, name: Name, s: Search)
    ensures Scan(g, keys, name, |keys|, s) == s
    ensures Unwind(g, keys, name, s).list == Scan(g, keys, name, 0, s).list + [name]
    ensures Unwind(g, keys, name, s).seen == Scan(g, keys, name, 0, s).seen
  {
  }

  lemma SearchEnds(ps: Installed, keys: seq<Name>, names: seq<Name>)
    ensures SearchFor(All(ps), keys, names[..0]) == Search([], {})
    ensures UnloadOrderOf(ps, keys, names) == SearchFor(All(ps), keys, names).list
  {
  }

  lemma SearchForOne(ps: Installed, keys: seq<Name>, n: Name)
    requires n in ps
    ensures UnloadOrderOf(ps, keys, [n]) == Unwind(All(ps), keys, n, Search([], {})).list
  {
    assert [n][..0] == [];
    assert SearchFor(All(ps), keys, []) == Search([], {});
  }

  lemma SearchStep(g: Graph, keys: seq<Name>, names: seq<Name>, i: nat)
    requires i < |names|
    ensures var s := SearchFor(g, keys, names[..i]);
      SearchFor(g, keys, names[..i + 1]) == if names[i] in g then Unwind(g, keys, names[i], s) else s
  {
    assert names[..i + 1][..i] == names[..i];
  }

  /** The state of the search below the coloured activations `stack`, each a dependent of the one before:
      what is coloured is listed or on the stack, all that depends on something listed is coloured, and each
      entry of the list is cleared. */
  ghost predicate Sound(g: Graph, stack: seq<Name>, s: Search) {
    && s.seen <= g.Keys && Members(s.list) <= g.Keys
    && StackOk(g, stack, s.seen)
    && (forall n :: n in s.seen ==> n in s.list || n in stack)
    && (forall a, b :: b in s.list && Edge(g, a, b) ==> a in s.seen)
    && forall i: nat :: i < |s.list| ==> Cleared(g, s.list, i)
  }

  ghost predicate StackOk(g: Graph, stack: seq<Name>, seen: set<Name>) {
    && Distinct(stack) && Members(stack) <= seen
    && forall i: nat {:trigger Above(g, stack, i)} :: i < |stack| - 1 ==> Above(g, stack, i)
  }

  predicate Above(g: Graph, stack: seq<Name>, i: nat)
    requires i + 1 < |stack|
  {
    Edge(g, stack[i + 1], stack[i])
  }

  /** The dependents of `name` among the first `i` keys have been coloured. */
  predicate Scanned(g: Graph, keys: seq<Name>, name: Name, i: nat, seen: set<Name>) {
    forall k :: 0 <= k < i && k < |keys| && Edge(g, keys[k], name) ==> keys[k] in seen
  }

  /** The activation of `name`, which is on top of the stack, or a root above an empty stack. */
  ghost predicate Active(g: Graph, stack: seq<Name>, name: Name) {
    name in g && (stack != [] ==> Last(stack) == name)
  }

  lemma {:induction false} ScanKeeps(g: Graph, keys: seq<Name>, stack: seq<Name>, name: Name, i: nat, s: Search)
    requires Sound(g, stack, s) && Active(g, stack, name) && Scanned(g, keys, name, i, s.seen)
    requires g.Keys <= Members(keys)
    ensures var t := Scan(g, keys, name, i, s); Sound(g, stack, t) && Scanned(g, keys, name, |keys|, t.seen)
    decreases |g.Keys - s.seen|, if i < |keys| then |keys| - i else 0
  {
    hide *;
    if i >= |keys| {
      ScanOver(g, keys, name, i, s);
    } else {
      var v := keys[i];
      ScanStep(g, keys, name, i, s);
      if v in s.seen || !Edge(g, v, name) {
        ScannedNext(g, keys, name, i, s.seen);
        ScanKeeps(g, keys, stack, name, i + 1, s);
      } else {
        EdgeEnds(g, v, name);
        FewerLeft(g.Keys, s.seen, s.seen + {v}, v);
        var s' := Search(s.list, s.seen + {v});
        Pushed(g, stack, name, v, s);
        UnwindKeeps(g, keys, stack + [v], v, s');
        UnwindGrows(g, keys, v, s');
        var t := Unwind(g, keys, v, s');
        FewerLeft(g.Keys, s.seen, t.seen, v);
        Popped(g, stack, v, t);
        StaysScanned(g, keys, name, i, s.seen, t.seen);
        ScannedNext(g, keys, name, i, t.seen);
        ScanKeeps(g, keys, stack, name, i + 1, t);
      }
    }
  }

  lemma ScanOver(g: Graph, keys: seq<Name>, name: Name, i: nat, s: Search)
    requires i >= |keys|
    ensures Scan(g, keys, name, i, s) == s
    ensures Scanned(g, keys, name, i, s.seen) ==> Scanned(g, keys, name, |keys|, s.seen)
  {
  }

  lemma ScannedNext(g: Graph, keys: seq<Name>, name: Name, i: nat, seen: set<Name>)
    requires i < |keys| && Scanned(g, keys, name, i, seen) && (keys[i] in seen || !Edge(g, keys[i], name))
    ensures Scanned(g, keys, name, i + 1, seen)
  {
  }

  lemma StaysScanned(g: Graph, keys: seq<Name>, name: Name, i: nat, seen: set<Name>, more: set<Name>)
    requires Scanned(g, keys, name, i, seen) && seen <= more
    ensures Scanned(g, keys, name, i, more)
  {
  }

  lemma EdgeEnds(g: Graph, u: Name, v: Name)
    requires Edge(g, u, v)
    ensures u in g && v in g
  {
  }

  lemma {:induction false} UnwindKeeps(g: Graph, keys: seq<Name>, stack: seq<Name>, name: Name, s: Search)
    requires Sound(g, stack, s) && Active(g, stack, name) && g.Keys <= Members(keys)
    ensures Sound(g, stack, Unwind(g, keys, name, s))
    decreases |g.Keys - s.seen|, |keys| + 1
  {
    hide Sound, Edge;
    ScanKeeps(g, keys, stack, name, 0, s);
    ListTop(g, keys, stack, name, Scan(g, keys, name, 0, s));
  }

  /** A dependent that has not been coloured becomes the top of the stack. */
  lemma Pushed(g: Graph, stack: seq<Name>, name: Name, v: Name, s: Search)
    requires Sound(g, stack, s) && Active(g, stack, name) && Edge(g, v, name) && v !in s.seen
    ensures Sound(g, stack + [v], Search(s.list, s.seen + {v})) && Active(g, stack + [v], v)
  {
    hide Cleared;
    var stack' := stack + [v];
    assert v !in stack by { assert v in stack ==> v in Members(stack); }
    forall i: nat {:trigger Above(g, stack', i)} | i < |stack'| - 1 ensures Above(g, stack', i) {
      if i < |stack| - 1 { assert Above(g, stack, i); }
    }
  }

  /** It has been listed, and leaves the stack. */
  lemma Popped(g: Graph, stack: seq<Name>, v: Name, s: Search)
    requires Sound(g, stack + [v], s) && v in s.list
    ensures Sound(g, stack, s)
  {
    hide Cleared;
    var full := stack + [v];
    assert forall n :: n in full ==> n in stack || n == v;
    forall n | n in Members(stack) ensures n in s.seen { assert n in Members(full); }
    forall i: nat {:trigger Above(g, stack, i)} | i < |stack| - 1 ensures Above(g, stack, i) {
      assert Above(g, full, i);
    }
    forall i, j | 0 <= i < j < |stack| ensures stack[i] != stack[j] { assert full[i] != full[j]; }
  }

  /** All dependents of the active package have been coloured: it is listed. */
  lemma ListTop(g: Graph, keys: seq<Name>, stack: seq<Name>, name: Name, s: Search)
    requires Sound(g, stack, s) && Active(g, stack, name)
    requires g.Keys <= Members(keys) && Scanned(g, keys, name, |keys|, s.seen)
    ensures Sound(g, stack, Search(s.list + [name], s.seen))
  {
    hide Cleared, Scanned, Edge;
    var list := s.list + [name];
    forall a | Edge(g, a, name) ensures a in s.seen { AllScanned(g, keys, name, a, s.seen); }
    forall i: nat | i < |list| ensures Cleared(g, list, i) {
      if i < |s.list| {
        StaysCleared(g, s.list, name, i);
      } else {
        TopIsCleared(g, stack, name, s);
      }
    }
  }

  lemma AllScanned(g: Graph, keys: seq<Name>, name: Name, a: Name, seen: set<Name>)
    requires Scanned(g, keys, name, |keys|, seen) && g.Keys <= Members(keys) && Edge(g, a, name)
    ensures a in seen
  {
    assert a in Members(keys);
    var k :| 0 <= k < |keys| && keys[k] == a;
  }

  lemma StaysCleared(g: Graph, list: seq<Name>, name: Name, i: nat)
    requires i < |list| && Cleared(g, list, i)
    ensures Cleared(g, list + [name], i)
  {
    var q :| Clears(g, list, i, q);
    assert (list + [name])[..i] == list[..i];
    assert Clears(g, list + [name], i, q);
  }

  /** The way on from the active package: down the stack. */
  function WayDown(stack: seq<Name>, name: Name): seq<Name> {
    if stack == [] then [name] else Reversed(stack)
  }

  lemma WayDownIsPath(g: Graph, stack: seq<Name>, name: Name, seen: set<Name>)
    requires StackOk(g, stack, seen) && Active(g, stack, name) && seen <= g.Keys
    ensures SimplePath(g, WayDown(stack, name), name)
    ensures forall n :: n in stack ==> n == name || n in WayDown(stack, name)[1..]
  {
    var q, m := WayDown(stack, name), |stack|;
    if stack != [] {
      forall n | n in stack ensures n == name || n in q[1..] {
        var k :| 0 <= k < m && stack[k] == n;
        assert q[m - 1 - k] == n;
        assert k < m - 1 ==> q[1..][m - 2 - k] == n;
      }
      forall n | n in q ensures n in g {
        var k :| 0 <= k < m && q[k] == n;
        assert stack[m - 1 - k] == n && n in Members(stack);
      }
      forall k | 0 <= k < m - 1 ensures Link(g, q, k) { assert Above(g, stack, m - 2 - k); }
    }
  }

  lemma TopIsCleared(g: Graph, stack: seq<Name>, name: Name, s: Search)
    requires Sound(g, stack, s) && Active(g, stack, name) && forall a :: Edge(g, a, name) ==> a in s.seen
    ensures Cleared(g, s.list + [name], |s.list|)
  {
    hide Cleared;
    var list, q := s.list + [name], WayDown(stack, name);
    var h := Avoid(g, Members(q[1..]));
    WayDownIsPath(g, stack, name, s.seen);
    var listed := Members(s.list) + {name};
    forall v | Reaches(h, v, name) && v != name ensures v in s.list {
      forall a, b | b in listed && Edge(h, a, b) ensures a in listed { assert a in s.seen; }
      ClosedAgainstReach(h, listed, v, name);
    }
    assert list[..|s.list|] == s.list;
    assert Clears(g, list, |s.list|, q);
    ClearedBy(g, list, |s.list|, q);
  }

  lemma ClearedBy(g: Graph, order: seq<Name>, i: nat, q: seq<Name>)
    requires i < |order| && Clears(g, order, i, q)
    ensures Cleared(g, order, i)
  {
  }

  /** Whatever the search for `name` lists leads to it without passing what was coloured before. */
  lemma {:induction false} ScanReaches(g: Graph, keys: seq<Name>, name: Name, i: nat, s: Search, n: Name)
    requires name in g && n in Scan(g, keys, name, i, s).list && n !in s.list
    ensures Reaches(Avoid(g, s.seen - {name}), n, name)
    decreases |g.Keys - s.seen|, if i < |keys| then |keys| - i else 0
  {
    hide Unwind, Reaches;
    assert i < |keys|;
    var v := keys[i];
    if v in s.seen || !Edge(g, v, name) {
      ScanReaches(g, keys, name, i + 1, s, n);
    } else {
      var s' := Search(s.list, s.seen + {v});
      FewerLeft(g.Keys, s.seen, s'.seen, v);
      var t := Unwind(g, keys, v, s');
      FewerLeft(g.Keys, s.seen, t.seen, v);
      var h := Avoid(g, s.seen - {name});
      if n in t.list {
        UnwindReaches(g, keys, v, s', n);
        MoreRoom(g, s'.seen - {v}, s.seen - {name}, n, v);
        ReachesOn(h, n, v, name);
      } else {
        ScanReaches(g, keys, name, i + 1, t, n);
        MoreRoom(g, t.seen - {name}, s.seen - {name}, n, name);
      }
    }
  }

  lemma {:induction false} UnwindReaches(g: Graph, keys: seq<Name>, name: Name, s: Search, n: Name)
    requires name in g && n in Unwind(g, keys, name, s).list && n !in s.list
    ensures Reaches(Avoid(g, s.seen - {name}), n, name)
    decreases |g.Keys - s.seen|, |keys| + 1
  {
    if n == name {
      ReachesItself(Avoid(g, s.seen - {name}), name);
    } else {
      ScanReaches(g, keys, name, 0, s, n);
    }
  }

  /** The search keeps its invariant over all names, and lists just what depends on them. */
  lemma {:induction false} SearchIsSound(g: Graph, keys: seq<Name>, names: seq<Name>)
    requires g.Keys <= Members(keys)
    ensures var s := SearchFor(g, keys, names);
      && Sound(g, [], s) && |s.list| <= |names| + |s.seen|
      && (forall n :: n in names && n in g ==> n in s.list)
      && (forall n :: n in s.list ==> DependsOn(g, n, names))
  {
    hide Sound, Unwind, Reaches, Avoid, SearchFor;
    if names == [] {
      NothingYet(g, keys);
    } else {
      var before, name := names[..|names| - 1], names[|names| - 1];
      var s := SearchFor(g, keys, before);
      assert names == before + [name];
      assert names[..|before|] == before && names[..|before| + 1] == names;
      SearchStep(g, keys, names, |before|);
      SearchIsSound(g, keys, before);
      if name in g {
        UnwindKeeps(g, keys, [], name, s);
        UnwindGrows(g, keys, name, s);
        forall n | n in Unwind(g, keys, name, s).list ensures DependsOn(g, n, names) {
          if n !in s.list {
            UnwindReaches(g, keys, name, s, n);
            MoreRoomAll(g, s.seen - {name}, n, name);
          }
        }
      }
    }
  }

  lemma NothingYet(g: Graph, keys: seq<Name>)
    ensures SearchFor(g, keys, []) == Search([], {}) && Sound(g, [], Search([], {}))
  {
  }

  /** Whatever the order of the packages, the search makes an unload order. */
  lemma FinishedIsUnloadOrder(ps: Installed, keys: seq<Name>, names: seq<Name>)
    requires ps.Keys <= Members(keys)
    ensures IsUnloadOrder(ps, names, UnloadOrderOf(ps, keys, names))
  {
    hide Reaches, Cleared, Depends, SearchFor;
    var g, s := All(ps), SearchFor(All(ps), keys, names);
    SearchIsSound(g, keys, names);
    SubsetSize(s.seen, g.Keys);
    forall n | DependsOn(g, n, names) ensures n in s.list {
      var m :| m in names && Reaches(g, n, m);
      ReachesEnds(g, n, m);
      ClosedAgainstReach(g, Members(s.list), n, m);
    }
  }
}
