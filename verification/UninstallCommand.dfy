/** The `/uninstall` command: it refuses when something else depends on what would go. */
module UninstallCommand {
  import opened Graphs
  import opened Packages
  import opened UnloadSearch
  import opened AddonManager
  import PM = PackageManager
  import opened Sequences

  /** An installed package outside `args` depends on a package in `args`. */
  ghost predicate Blocked(ps: Installed, args: seq<Name>) {
    exists v, m :: v !in args && m in args && Edge(All(ps), v, m)
  }

  /** No installed package depends, by whatever kind of dependency, on one of `gone`. */
  ghost predicate NothingDependsOn(ps: Installed, gone: set<Name>) {
    forall v, j: nat :: Dep(ps, v, j) ==> DepName(ps, v, j) !in gone
  }

  /** A chain of dependencies from outside `args` into `args` has a step that blocks. */
  lemma {:induction false} ChainBlocks(ps: Installed, args: seq<Name>, p: seq<Name>)
    requires Path(All(ps), p) && p[0] !in args && Last(p) in args
    ensures Blocked(ps, args)
    decreases |p|
  {
    assert |p| > 1;
    assert Link(All(ps), p, 0);
    if p[1] !in args {
      var q := p[1..];
      forall a | 0 <= a < |q| - 1 ensures Link(All(ps), q, a) { assert Link(All(ps), p, a + 1); }
      ChainBlocks(ps, args, q);
    }
  }

  /** The unload order stays within `args` exactly when nothing blocks. */
  lemma WithinArgs(ps: Installed, args: seq<Name>, order: seq<Name>)
    requires IsUnloadOrder(ps, args, order)
    ensures (forall n :: n in order ==> n in args) <==> !Blocked(ps, args)
  {
    if n :| n in order && n !in args {
      var m :| m in args && Reaches(All(ps), n, m);
      var p :| Joins(All(ps), p, n, m);
      ChainBlocks(ps, args, p);
    }
    if Blocked(ps, args) {
      var v, m :| v !in args && m in args && Edge(All(ps), v, m);
      EdgeReaches(All(ps), v, m);
      assert DependsOn(All(ps), v, args);
    }
  }

  /** What is left after the packages and their addons are gone depends on nothing that is gone. */
  lemma RestDependsOnRest(ps: Installed, args: seq<Name>)
    requires !Blocked(ps, args)
    ensures NothingDependsOn(ps - Members(args), Members(args) * ps.Keys)
  {
    var rest := ps - Members(args);
    forall v, j: nat | Dep(rest, v, j) ensures DepName(rest, v, j) !in Members(args) * ps.Keys {
      if DepName(rest, v, j) in Members(args) * ps.Keys {
        assert v !in Members(args);
        DepIsEdge(ps, v, j);
      }
    }
  }

  /** Fewer packages, fewer edges. */
  lemma EdgeInRest(ps: Installed, gone: set<Name>, u: Name, v: Name)
    requires Edge(Required(ps - gone), u, v)
    ensures Edge(Required(ps), u, v)
  {
    var j := EdgeIsDep(ps - gone, true, u, v);
    DepIsEdge(ps, u, j);
  }

  lemma ReachesInRest(ps: Installed, gone: set<Name>, u: Name, v: Name)
    requires Reaches(Required(ps - gone), u, v)
    ensures Reaches(Required(ps), u, v)
  {
    var p :| Joins(Required(ps - gone), p, u, v);
    forall i | 0 <= i < |p| - 1 ensures Link(Required(ps), p, i) {
      assert Link(Required(ps - gone), p, i);
      EdgeInRest(ps, gone, p[i], p[i + 1]);
    }
    assert Joins(Required(ps), p, u, v);
  }

  /** The loaded addons are good for what is left, once none of them is among what goes. */
  lemma GoodForRest(ps: Installed, gone: set<Name>, loaded: seq<Name>)
    requires Good(ps, loaded) && forall n :: n in loaded ==> n !in gone
    ensures Good(ps - gone, loaded)
  {
    forall a, p | a in loaded && Reaches(Required(ps - gone), a, p) && !IsLibrary(ps - gone, p) ensures p in loaded {
      ReachesInRest(ps, gone, a, p);
    }
  }

  lemma NoneGone(ps: Installed, loaded: seq<Name>, args: seq<Name>, call: Call)
    requires Good(ps, loaded) && Legal(ps, call) && call.Unload? && call.names == args
    ensures forall n :: n in After(ps, loaded, call) ==> n !in args
  {
    UnloadOrderIsInstalled(ps, args, call.order);
    UnloadingMembers(ps, loaded, call.order);
    forall n | n in loaded && n in args ensures n in call.order {
      ReachesItself(All(ps), n);
      assert DependsOn(All(ps), n, args);
    }
  }

  /** The loop that pops the unload order and keeps what was not asked for, last one first. */
  method Dependents(order: seq<Name>, args: seq<Name>) returns (dependents: seq<Name>)
    ensures dependents == Outside(Reversed(order), Members(args))
    ensures forall n :: n in dependents <==> n in order && n !in args
    ensures dependents == [] <==> forall n :: n in order ==> n in args
  {
    hide Outside, Reversed;
    var packages := order;
    dependents := [];
    ghost var popped: seq<Name> := [];
    OutsideNone(Members(args));
    while packages != []
      invariant order == packages + Reversed(popped) && popped == Reversed(order[|packages|..])
      invariant dependents == Outside(popped, Members(args))
    {
      var n := packages[|packages| - 1];
      PopsOne(order, packages, popped);
      OutsideNext(popped, n, Members(args));
      if n !in args {
        dependents := dependents + [n];
      }
      popped := popped + [n];
      packages := packages[..|packages| - 1];
    }
    assert order[0..] == order;
    forall n ensures n in dependents <==> n in order && n !in args {
      OutsideHas(popped, Members(args), n);
      assert n in popped <==> n in order by { ReversedHas(order, n); }
    }
    if dependents != [] { assert dependents[0] in order && dependents[0] !in args; }
  }

  lemma OutsideNone(b: set<Name>)
    ensures Outside([], b) == [] && Reversed<Name>([]) == []
  {
  }

  lemma PopsOne(order: seq<Name>, packages: seq<Name>, popped: seq<Name>)
    requires packages != [] && order == packages + Reversed(popped)
    requires popped == Reversed(order[|packages|..])
    ensures var rest, n := packages[..|packages| - 1], packages[|packages| - 1];
      order == rest + Reversed(popped + [n]) && popped + [n] == Reversed(order[|rest|..])
  {
    hide Reversed;
    var rest, n := packages[..|packages| - 1], packages[|packages| - 1];
    assert packages == rest + [n];
    ReversedMore(popped, n);
    assert order[|rest|..] == [n] + order[|packages|..];
    ReversedFirst(n, order[|packages|..]);
  }

  lemma ReversedFirst(n: Name, tail: seq<Name>)
    ensures Reversed([n] + tail) == Reversed(tail) + [n]
  {
    assert ([n] + tail)[1..] == tail;
  }

  lemma ReversedMore(popped: seq<Name>, n: Name)
    ensures Reversed(popped + [n]) == [n] + Reversed(popped)
  {
    hide Reversed;
  }

  lemma ReversedHas(s: seq<Name>, n: Name)
    ensures n in Reversed(s) <==> n in s
  {
    ReversedConserves(s);
    assert n in Reversed(s) <==> n in multiset(Reversed(s));
  }

  /** `uninstall`, with the message reduced to the names it lists. */
  method Uninstall(packages: PM.PackageManager, addons: AddonManager, args: seq<Name>)
    returns (dependents: seq<Name>, ghost call: Call)
    requires addons.packages == packages && addons.Valid()
    modifies packages, addons
    ensures addons.Valid()
    ensures dependents != [] <==> Blocked(old(packages.installed), args)
    ensures dependents != [] ==>
      && packages.installed == old(packages.installed) && addons.loaded == old(addons.loaded)
      && (forall n :: n in dependents <==> n !in args && DependsOn(All(packages.installed), n, args))
      && dependents == Outside(Reversed(UnloadOrderOf(packages.installed, packages.keys, args)), Members(args))
    ensures dependents == [] ==>
      && packages.installed == old(packages.installed) - Members(args)
      && NothingDependsOn(packages.installed, Members(args) * old(packages.installed).Keys)
      && Legal(old(packages.installed), call) && call.Unload? && call.names == args
      && addons.loaded == After(old(packages.installed), old(addons.loaded), call)
  {
    hide Blocked, Good, Reaches, Depends;
    call := Call.Unload(args, []);
    ghost var ps := packages.installed;
    var order := packages.UnloadOrder(args);
    dependents := Dependents(order, args);
    WithinArgs(ps, args, order);
    if dependents != [] {
      return;
    }
    ghost var before := addons.loaded;
    call := addons.Unload(args);
    NoneGone(ps, before, args, call);
    packages.Uninstall(args);
    RestDependsOnRest(ps, args);
    GoodForRest(ps, Members(args), addons.loaded);
  }
}
