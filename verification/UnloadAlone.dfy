/** Whether unloads keep the loaded addons closed after every single removal can be seen from the unloads of
    single packages: what earlier names have coloured makes no difference to the order of the rest. */
module UnloadAlone {
  import opened Sequences
  import opened Graphs
  import opened Packages
  import opened UnloadSearch
  import opened AddonManager
  import opened UnloadSteps

  /** All that depends on something in `b` is in `b`. */
  ghost predicate Upward(g: Graph, b: set<Name>) {
    forall u, v :: v in b && Edge(g, u, v) ==> u in b
  }

  /** `new` is a later part of `s`: everything added is in `b`. */
  ghost predicate AddsInside(b: set<Name>, s: Search, t: Search) {
    && s.list <= t.list && (forall n :: n in t.list[|s.list|..] ==> n in b)
    && s.seen <= t.seen <= s.seen + b
  }

  lemma AddsMore(b: set<Name>, s: Search, t: Search, u: Search)
    requires AddsInside(b, s, t) && AddsInside(b, t, u)
    ensures AddsInside(b, s, u)
  {
    assert u.list[|s.list|..] == t.list[|s.list|..] + u.list[|t.list|..];
  }

  lemma AddsNone(b: set<Name>, s: Search)
    ensures AddsInside(b, s, s)
  {
  }

  lemma AddsOne(b: set<Name>, s: Search, t: Search, n: Name)
    requires AddsInside(b, s, t) && n in b
    ensures AddsInside(b, s, Search(t.list + [n], t.seen))
  {
    assert (t.list + [n])[|s.list|..] == t.list[|s.list|..] + [n];
  }

  /** A search that starts in `b` stays in `b`. */
  lemma {:induction false} ScanStaysIn(g: Graph, keys: seq<Name>, b: set<Name>, name: Name, i: nat, s: Search)
    requires Upward(g, b) && name in b
    ensures AddsInside(b, s, Scan(g, keys, name, i, s))
    decreases |g.Keys - s.seen|, if i < |keys| then |keys| - i else 0
  {
    hide *;
    if i >= |keys| {
      ScanOver(g, keys, name, i, s);
      AddsNone(b, s);
    } else {
      var v := keys[i];
      ScanStep(g, keys, name, i, s);
      if v in s.seen || !Edge(g, v, name) {
        ScanStaysIn(g, keys, b, name, i + 1, s);
      } else {
        EdgeEnds(g, v, name);
        UpwardEdge(g, b, v, name);
        var s' := Search(s.list, s.seen + {v});
        FewerLeft(g.Keys, s.seen, s'.seen, v);
        UnwindStaysIn(g, keys, b, v, s');
        var t := Unwind(g, keys, v, s');
        UnwindGrows(g, keys, v, s');
        FewerLeft(g.Keys, s.seen, t.seen, v);
        Enters(b, s, v);
        AddsMore(b, s, s', t);
        ScanStaysIn(g, keys, b, name, i + 1, t);
        AddsMore(b, s, t, Scan(g, keys, name, i + 1, t));
      }
    }
  }

  lemma UpwardEdge(g: Graph, b: set<Name>, u: Name, v: Name)
    requires Upward(g, b) && v in b && Edge(g, u, v)
    ensures u in b
  {
  }

  lemma Enters(b: set<Name>, s: Search, v: Name)
    requires v in b
    ensures AddsInside(b, s, Search(s.list, s.seen + {v}))
  {
  }

  lemma {:induction false} UnwindStaysIn(g: Graph, keys: seq<Name>, b: set<Name>, name: Name, s: Search)
    requires Upward(g, b) && name in b
    ensures AddsInside(b, s, Unwind(g, keys, name, s))
    decreases |g.Keys - s.seen|, |keys| + 1
  {
    hide *;
    ScanStaysIn(g, keys, b, name, 0, s);
    ScanEnds(g, keys, name, s);
    AddsOne(b, s, Scan(g, keys, name, 0, s), name);
  }

  /** Two searches, the second with `b` coloured and `base` listed before: outside `b` they do the same. */
  ghost predicate Alike(b: set<Name>, base: seq<Name>, s: Search, t: Search) {
    && base <= t.list && Outside(t.list[|base|..], b) == Outside(s.list, b)
    && t.seen == s.seen + b
  }

  lemma AlikeNext(b: set<Name>, base: seq<Name>, s: Search, t: Search, n: Name)
    requires Alike(b, base, s, t)
    ensures Alike(b, base, Search(s.list + [n], s.seen), Search(t.list + [n], t.seen))
  {
    assert (t.list + [n])[|base|..] == t.list[|base|..] + [n];
    OutsideNext(t.list[|base|..], n, b);
    OutsideNext(s.list, n, b);
  }

  lemma AlikeEnters(b: set<Name>, base: seq<Name>, s: Search, t: Search, v: Name)
    requires Alike(b, base, s, t)
    ensures Alike(b, base, Search(s.list, s.seen + {v}), Search(t.list, t.seen + {v}))
    ensures v !in b ==> (v in s.seen <==> v in t.seen)
    ensures v in b ==> v in t.seen
  {
    hide Outside;
  }

  lemma AlikeInside(b: set<Name>, base: seq<Name>, s: Search, s': Search, t: Search)
    requires Alike(b, base, s, t) && AddsInside(b, s, s')
    ensures Alike(b, base, s', t)
  {
    SameOutside(s.list, s'.list[|s.list|..], b);
    assert s'.list == s.list + s'.list[|s.list|..];
  }

  lemma {:induction false} ScanAlike(g: Graph, keys: seq<Name>, b: set<Name>, base: seq<Name>, name: Name, i: nat,
                                     s: Search, t: Search)
    requires Upward(g, b) && Alike(b, base, s, t)
    ensures Alike(b, base, Scan(g, keys, name, i, s), Scan(g, keys, name, i, t))
    decreases |g.Keys - s.seen|, if i < |keys| then |keys| - i else 0
  {
    hide *;
    if i >= |keys| {
      ScanOver(g, keys, name, i, s);
      ScanOver(g, keys, name, i, t);
    } else {
      var v := keys[i];
      ScanStep(g, keys, name, i, s);
      ScanStep(g, keys, name, i, t);
      AlikeEnters(b, base, s, t, v);
      if v in s.seen || !Edge(g, v, name) {
        ScanAlikeOver(g, b, base, v, name, s, t);
        ScanAlike(g, keys, b, base, name, i + 1, s, t);
      } else {
        EdgeEnds(g, v, name);
        var s', t' := Search(s.list, s.seen + {v}), Search(t.list, t.seen + {v});
        FewerLeft(g.Keys, s.seen, s'.seen, v);
        var u := Unwind(g, keys, v, s');
        UnwindGrows(g, keys, v, s');
        FewerLeft(g.Keys, s.seen, u.seen, v);
        if v in b {
          Enters(b, s, v);
          UnwindStaysIn(g, keys, b, v, s');
          AddsMore(b, s, s', u);
          AlikeInside(b, base, s, u, t);
          ScanAlike(g, keys, b, base, name, i + 1, u, t);
        } else {
          UnwindAlike(g, keys, b, base, v, s', t');
          ScanAlike(g, keys, b, base, name, i + 1, u, Unwind(g, keys, v, t'));
        }
      }
    }
  }

  lemma ScanAlikeOver(g: Graph, b: set<Name>, base: seq<Name>, v: Name, name: Name, s: Search, t: Search)
    requires Alike(b, base, s, t) && (v in s.seen || !Edge(g, v, name))
    ensures v in t.seen || !Edge(g, v, name)
  {
  }

  lemma {:induction false} UnwindAlike(g: Graph, keys: seq<Name>, b: set<Name>, base: seq<Name>, name: Name,
                                       s: Search, t: Search)
    requires Upward(g, b) && Alike(b, base, s, t)
    ensures Alike(b, base, Unwind(g, keys, name, s), Unwind(g, keys, name, t))
    decreases |g.Keys - s.seen|, |keys| + 1
  {
    hide *;
    ScanAlike(g, keys, b, base, name, 0, s, t);
    ScanEnds(g, keys, name, s);
    ScanEnds(g, keys, name, t);
    AlikeNext(b, base, Scan(g, keys, name, 0, s), Scan(g, keys, name, 0, t), name);
  }

  /** Which of two names outside comes first is the same in the whole list. */
  lemma {:induction false} AheadOutside(list: seq<Name>, b: set<Name>, a: Name, p: Name)
    requires a !in b && p !in b
    ensures Ahead(list, a, p) <==> Ahead(Outside(list, b), a, p)
  {
    if list == [] {
      assert Outside(list, b) == list;
    } else {
      var prefix, n := list[..|list| - 1], list[|list| - 1];
      assert list == prefix + [n];
      AheadOutside(prefix, b, a, p);
      AheadNext(prefix, n, a, p);
      AheadInAll(prefix, a, p);
      AheadNext(Outside(prefix, b), n, a, p);
      OutsideHas(prefix, b, a);
      OutsideHas(prefix, b, p);
    }
  }

  lemma AheadInAll(list: seq<Name>, a: Name, p: Name)
    ensures Ahead(list, a, p) && p in list ==> a in list
  {
    assert list[..|list|] == list;
  }

  lemma AheadNext(list: seq<Name>, n: Name, a: Name, p: Name)
    ensures Ahead(list + [n], a, p) <==> Ahead(list, a, p) && (p in list + [n] ==> a in list + [n])
  {
    var all := list + [n];
    assert all[..|all|] == all;
    if Ahead(all, a, p) {
      forall k: nat | k <= |list| && p in list[..k] ensures a in list[..k] { assert all[..k] == list[..k]; }
      assert |all| <= |all| && (p in all[..|all|] ==> a in all[..|all|]);
    }
    if Ahead(list, a, p) && (p in all ==> a in all) {
      forall k: nat | k <= |all| && p in all[..k] ensures a in all[..k] {
        if k <= |list| { assert all[..k] == list[..k]; } else { assert all[..k] == all; }
      }
    }
  }

  /** Behind a list with `a`, or without `p`, the order of a list that follows decides. */
  lemma AheadBehind(base: seq<Name>, more: seq<Name>, a: Name, p: Name)
    requires p !in base && (a in base || Ahead(more, a, p))
    ensures Ahead(base + more, a, p)
  {
    var all := base + more;
    forall k: nat | |base| < k <= |all| && p in all[..k] ensures a in all[..k] {
      assert all[..k] == base + more[..k - |base|];
    }
    forall k: nat | k <= |base| ensures p !in all[..k] { assert all[..k] == base[..k]; }
  }

  lemma AheadBefore(base: seq<Name>, more: seq<Name>, a: Name, p: Name)
    requires Ahead(base, a, p) && p in base
    ensures Ahead(base + more, a, p)
  {
    var all := base + more;
    assert base[..|base|] == base;
    assert |base| <= |base| && a in base[..|base|];
    forall k: nat | k <= |all| && p in all[..k] ensures a in all[..k] {
      if k <= |base| { assert all[..k] == base[..k]; } else { assert all[..k] == base + more[..k - |base|]; }
    }
  }

  /** What has been coloured in the search for some names includes all that depends on it. */
  lemma ColouredIsUpward(g: Graph, s: Search)
    requires Sound(g, [], s)
    ensures Upward(g, s.seen) && forall n :: n in s.seen ==> n in s.list
  {
    hide Cleared;
  }

  /** One more name: the order of what it adds is the one that the search for it alone has. */
  lemma NameAdds(ps: Installed, keys: seq<Name>, before: seq<Name>, name: Name, a: Name, p: Name)
    requires Lists(ps, keys) && name in ps && Reaches(All(ps), a, p)
    requires Ahead(SearchFor(All(ps), keys, before).list, a, p)
    requires Ahead(UnloadOrderOf(ps, keys, [name]), a, p)
    ensures Ahead(Unwind(All(ps), keys, name, SearchFor(All(ps), keys, before)).list, a, p)
  {
    hide *;
    var g, s := All(ps), SearchFor(All(ps), keys, before);
    KeysAreAll(ps, keys);
    SearchIsSound(g, keys, before);
    ColouredIsUpward(g, s);
    var t, alone := Unwind(g, keys, name, s), Unwind(g, keys, name, Search([], {}));
    UnwindGrows(g, keys, name, s);
    ListGrows(g, s, t, 1);
    var more := t.list[|s.list|..];
    assert t.list == s.list + more;
    SearchForOne(ps, keys, name);
    if p in s.list {
      AheadBefore(s.list, more, a, p);
    } else if a in s.list {
      AheadBehind(s.list, more, a, p);
    } else {
      AlikeAtFirst(s);
      UnwindAlike(g, keys, s.seen, s.list, name, Search([], {}), s);
      SameMore(s.seen, s.list, alone, t);
      AheadOutside(alone.list, s.seen, a, p);
      AheadOutside(more, s.seen, a, p);
      AheadBehind(s.list, more, a, p);
    }
  }

  lemma KeysAreAll(ps: Installed, keys: seq<Name>)
    requires Lists(ps, keys)
    ensures All(ps).Keys <= Members(keys)
  {
  }

  lemma AlikeAtFirst(s: Search)
    ensures Alike(s.seen, s.list, Search([], {}), s)
  {
  }

  lemma SameMore(b: set<Name>, base: seq<Name>, s: Search, t: Search)
    requires Alike(b, base, s, t)
    ensures base <= t.list && Outside(t.list[|base|..], b) == Outside(s.list, b)
  {
  }

  /** The unloads of all lists of names keep the invariant at every step if and only if those of single
      packages do, and whether they do can be seen from their orders. */
  lemma SingleNamesDecide(ps: Installed, keys: seq<Name>)
    requires Lists(ps, keys)
    ensures (forall names, loaded, k: nat :: KeepsGood(ps, keys, names, loaded, k)) <==>
            forall n :: n in ps ==> InTurn(ps, UnloadOrderOf(ps, keys, [n]))
  {
    hide InTurn, KeepsGood, UnloadOrderOf;
    if forall names, loaded, k: nat :: KeepsGood(ps, keys, names, loaded, k) {
      forall n | n in ps ensures InTurn(ps, UnloadOrderOf(ps, keys, [n])) { InTurnKeepsGood(ps, keys, [n]); }
    }
    if forall n :: n in ps ==> InTurn(ps, UnloadOrderOf(ps, keys, [n])) {
      forall names, loaded, k: nat ensures KeepsGood(ps, keys, names, loaded, k) {
        AllInTurn(ps, keys, names);
        InTurnKeepsGood(ps, keys, names);
      }
    }
  }

  lemma {:induction false} AllInTurn(ps: Installed, keys: seq<Name>, names: seq<Name>)
    requires Lists(ps, keys) && forall n :: n in ps ==> InTurn(ps, UnloadOrderOf(ps, keys, [n]))
    ensures InTurn(ps, UnloadOrderOf(ps, keys, names))
  {
    hide Unwind, Needs, SearchFor, Ahead;
    if names == [] {
      NoneAhead(ps, keys);
    } else {
      var before, name := names[..|names| - 1], names[|names| - 1];
      AllInTurn(ps, keys, before);
      assert names[..|before|] == before && names[..|before| + 1] == names;
      SearchStep(All(ps), keys, names, |before|);
      if name in ps {
        forall a, p | Needs(ps, a, p) ensures Ahead(UnloadOrderOf(ps, keys, names), a, p) {
          NeedsReaches(ps, a, p);
          assert InTurn(ps, UnloadOrderOf(ps, keys, [name]));
          NameAdds(ps, keys, before, name, a, p);
        }
      }
    }
  }

  lemma NoneAhead(ps: Installed, keys: seq<Name>)
    ensures InTurn(ps, UnloadOrderOf(ps, keys, []))
  {
  }
}
