/** The catalogue of available packages: kept sorted, searched by bisection, and walked to find out what
    has to be installed or updated. */
module Catalogue {
  import opened Graphs
  import opened Texts
  import opened Packages
  import opened Worklists
  import opened Sequences

  datatype Descriptor = Descriptor(name: Name, version: int, dependencies: seq<Name>)

  /** What matters about an installed package here. */
  datatype Release = Release(version: int, canUpdate: bool)

  predicate Less(a: Name, b: Name) {
    Before(a.text, b.text)
  }

  /** Strictly sorted by name. */
  ghost predicate Sorted(ds: seq<Descriptor>) {
    forall i, j :: 0 <= i < j < |ds| ==> Before(ds[i].name.text, ds[j].name.text)
  }

  /** The first descriptor of that name, found by looking at one after the other. */
  function Lookup(ds: seq<Descriptor>, name: Name): (r: Option<Descriptor>)
    ensures r.Some? ==> r.value in ds && r.value.name == name
    ensures r == None ==> forall d :: d in ds ==> d.name != name
  {
    if ds == [] then None
    else if ds[0].name == name then Some(ds[0])
    else
      assert ds == [ds[0]] + ds[1..];
      Lookup(ds[1..], name)
  }

  lemma {:induction false} LookupAt(ds: seq<Descriptor>, name: Name, k: nat)
    requires k < |ds| && ds[k].name == name && forall i :: 0 <= i < k ==> ds[i].name != name
    ensures Lookup(ds, name) == Some(ds[k])
  {
    if k > 0 { LookupAt(ds[1..], name, k - 1); }
  }

  lemma {:induction false} LookupAbsent(ds: seq<Descriptor>, name: Name)
    requires forall i :: 0 <= i < |ds| ==> ds[i].name != name
    ensures Lookup(ds, name) == None
  {
    if ds != [] { LookupAbsent(ds[1..], name); }
  }

  lemma {:induction false} LookupJoined(a: seq<Descriptor>, b: seq<Descriptor>, name: Name)
    ensures Lookup(a + b, name) == if Lookup(a, name).Some? then Lookup(a, name) else Lookup(b, name)
  {
    if a == [] {
      assert a + b == b;
    } else {
      assert (a + b)[1..] == a[1..] + b;
      LookupJoined(a[1..], b, name);
    }
  }

  /** Where a bisection with this outcome looks, a linear search finds the same. */
  lemma BisectionAgrees(ds: seq<Descriptor>, name: Name, k: nat)
    requires Sorted(ds) && k <= |ds|
    requires forall i :: 0 <= i < k ==> Less(ds[i].name, name)
    requires forall i :: k <= i < |ds| ==> !Less(ds[i].name, name)
    ensures Lookup(ds, name) == if k < |ds| && ds[k].name == name then Some(ds[k]) else None
  {
    forall i | 0 <= i < k ensures ds[i].name != name { BeforeIsTotal(ds[i].name.text, name.text); }
    if k < |ds| && ds[k].name == name {
      LookupAt(ds, name, k);
    } else {
      forall i | k <= i < |ds| ensures ds[i].name != name {
        if i > k {
          BeforeIsTotal(ds[k].name.text, name.text);
          assert Less(ds[k].name, ds[i].name);
        }
      }
      LookupAbsent(ds, name);
    }
  }

  lemma LessIsTotal(a: Name, b: Name)
    ensures Less(a, b) || a == b || Less(b, a)
  {
    BeforeIsTotal(a.text, b.text);
  }

  /** Inserting an absent name at its place keeps the order. */
  lemma InsertKeepsSorted(ds: seq<Descriptor>, d: Descriptor, k: nat)
    requires Sorted(ds) && k <= |ds|
    requires forall i :: 0 <= i < k ==> Less(ds[i].name, d.name)
    requires forall i :: k <= i < |ds| ==> !Less(ds[i].name, d.name)
    requires Lookup(ds, d.name) == None
    ensures Sorted(ds[..k] + [d] + ds[k..])
  {
    hide Lookup, Before;
    forall i | k <= i < |ds| ensures Less(d.name, ds[i].name) {
      assert ds[i] in ds;
      LessIsTotal(ds[i].name, d.name);
    }
  }

  lemma InsertLookup(ds: seq<Descriptor>, d: Descriptor, k: nat, name: Name)
    requires k <= |ds| && Lookup(ds, d.name) == None
    ensures Lookup(ds[..k] + [d] + ds[k..], name) == if name == d.name then Some(d) else Lookup(ds, name)
  {
    assert ds == ds[..k] + ds[k..];
    LookupJoined(ds[..k], ds[k..], name);
    LookupJoined(ds[..k], ds[k..], d.name);
    LookupJoined(ds[..k] + [d], ds[k..], name);
    LookupJoined(ds[..k], [d], name);
    assert Lookup([d], name) == if d.name == name then Some(d) else None by { assert [d][1..] == []; }
  }

  lemma LookupMore(before: seq<Descriptor>, after: seq<Descriptor>, all: seq<Descriptor>, d: Descriptor, k: nat,
                   n: Name)
    requires k <= |before|
    requires Lookup(before, n) == Lookup(all, n) && Lookup(before, d.name) == Lookup(all, d.name)
    requires after == if Lookup(before, d.name) == None then before[..k] + [d] + before[k..] else before
    ensures Lookup(after, n) == Lookup(all + [d], n)
  {
    LookupJoined(all, [d], n);
    assert Lookup([d], n) == if d.name == n then Some(d) else None by { assert [d][1..] == []; }
    if Lookup(before, d.name) == None { InsertLookup(before, d, k, n); }
  }

  /** The dependencies among the available packages. */
  function NamesOf(ds: seq<Descriptor>): set<Name> {
    set d | d in ds :: d.name
  }

  function Needs(ds: seq<Descriptor>): (g: Graph)
    ensures g.Keys == NamesOf(ds)
    ensures forall n :: n in g <==> Lookup(ds, n).Some?
    ensures forall n :: n in g ==> g[n] == Lookup(ds, n).value.dependencies
  {
    map n | n in NamesOf(ds) :: Lookup(ds, n).value.dependencies
  }

  /** The package has to be installed, or updated. */
  predicate Stale(installed: map<Name, Release>, d: Descriptor) {
    d.name !in installed || (installed[d.name].version < d.version && installed[d.name].canUpdate)
  }

  /** `m` is one of `names`, or a dependency of an available package reachable from them. */
  ghost predicate Mentioned(g: Graph, names: seq<Name>, m: Name) {
    m in names || exists u :: ReachedFrom(g, names, u) && u in g && m in g[u]
  }

  function Concat(sources: seq<seq<Descriptor>>): seq<Descriptor> {
    if sources == [] then [] else Concat(sources[..|sources| - 1]) + sources[|sources| - 1]
  }

  /** Those of the names that are available and stale, in order and as often as they occur. */
  function StaleAmong(ds: seq<Descriptor>, installed: map<Name, Release>, names: seq<Name>): (r: seq<Descriptor>) {
    if names == [] then []
    else
      var found := Lookup(ds, names[|names| - 1]);
      StaleAmong(ds, installed, names[..|names| - 1])
      + if found.Some? && Stale(installed, found.value) then [found.value] else []
  }

  /** Those that are neither available nor installed. */
  function MissingAmong(ds: seq<Descriptor>, installed: map<Name, Release>, names: seq<Name>): (r: seq<Name>) {
    if names == [] then []
    else
      var n := names[|names| - 1];
      MissingAmong(ds, installed, names[..|names| - 1])
      + if Lookup(ds, n) == None && n !in installed then [n] else []
  }

  lemma AmongNone(ds: seq<Descriptor>, installed: map<Name, Release>)
    ensures StaleAmong(ds, installed, []) == [] && MissingAmong(ds, installed, []) == []
  {
  }

  lemma AmongMore(ds: seq<Descriptor>, installed: map<Name, Release>, names: seq<Name>, n: Name)
    ensures var found := Lookup(ds, n);
      && StaleAmong(ds, installed, names + [n]) ==
         StaleAmong(ds, installed, names) + (if found.Some? && Stale(installed, found.value) then [found.value] else [])
      && MissingAmong(ds, installed, names + [n]) ==
         MissingAmong(ds, installed, names) + if found == None && n !in installed then [n] else []
  {
    assert (names + [n])[..|names|] == names;
  }

  /** How far the walk has come: everything taken off the list is accounted for. */
  ghost predicate Walking(g: Graph, ds: seq<Descriptor>, installed: map<Name, Release>, names: seq<Name>,
                          taken: set<Name>, items: seq<Name>, results: seq<Descriptor>, missing: seq<Name>) {
    && Items(g, names, items)
    && Covers(g, names, taken, items)
    && (forall d :: d in results <==>
          d in ds && Lookup(ds, d.name) == Some(d) && d.name in taken && Stale(installed, d))
    && (forall n :: n in missing <==> n in taken && n !in g && n !in installed)
  }

  /** Nothing that has to be looked at is lost. */
  ghost predicate Covers(g: Graph, names: seq<Name>, taken: set<Name>, items: seq<Name>) {
    && (forall n :: n in names ==> n in taken || n in items)
    && (forall n, m :: n in taken && n in g && m in g[n] ==> m in taken || m in items)
    && (forall n :: n in taken || n in items ==> Mentioned(g, names, n))
  }

  lemma MentionedItem(g: Graph, names: seq<Name>, taken: set<Name>, items: seq<Name>)
    requires Covers(g, names, taken, items) && items != []
    ensures Mentioned(g, names, items[|items| - 1])
  {
  }

  lemma CoversOn(g: Graph, names: seq<Name>, taken: set<Name>, items: seq<Name>)
    requires Items(g, names, items) && Covers(g, names, taken, items) && items != []
    ensures var n, rest := items[|items| - 1], items[..|items| - 1];
      Covers(g, names, taken + {n}, rest + Successors(g, n))
  {
    hide Reaches, ReachedFrom, Mentioned, Items;
    var n, rest := items[|items| - 1], items[..|items| - 1];
    assert items == rest + [n];
    assert Mentioned(g, names, n);
    if n in g { ItemsAfter(g, names, items); }
  }

  lemma WalkEnds(g: Graph, ds: seq<Descriptor>, installed: map<Name, Release>, names: seq<Name>,
                 taken: set<Name>, results: seq<Descriptor>, missing: seq<Name>)
    requires Sorted(ds) && g == Needs(ds)
    requires Walking(g, ds, installed, names, taken, [], results, missing)
    ensures forall d :: d in results <==> d in ds && ReachedFrom(g, names, d.name) && Stale(installed, d)
    ensures forall m :: m in missing <==> Mentioned(g, names, m) && m !in g && m !in installed
  {
    forall n | ReachedFrom(g, names, n) ensures n in taken {
      var u :| u in names && Reaches(g, u, n);
      ClosedUnderReach(g, taken, u, n);
    }
    forall n | n in taken && n in g ensures ReachedFrom(g, names, n) { MentionedReached(g, names, n); }
    forall d | d in ds ensures Lookup(ds, d.name) == Some(d) { SortedLookup(ds, d); }
    forall m | Mentioned(g, names, m) ensures m in taken {
      if m !in names { var u :| ReachedFrom(g, names, u) && u in g && m in g[u]; }
    }
  }

  lemma MentionedReached(g: Graph, names: seq<Name>, n: Name)
    requires Mentioned(g, names, n) && n in g
    ensures ReachedFrom(g, names, n)
  {
    if n in names {
      RootReached(g, names, n);
    } else {
      var u :| ReachedFrom(g, names, u) && u in g && n in g[u];
      ReachedOn(g, names, u, n);
    }
  }

  lemma SortedLookup(ds: seq<Descriptor>, d: Descriptor)
    requires Sorted(ds) && d in ds
    ensures Lookup(ds, d.name) == Some(d)
  {
    var k :| 0 <= k < |ds| && ds[k] == d;
    forall i | 0 <= i < k ensures ds[i].name != d.name {
      assert Less(ds[i].name, ds[k].name);
      BeforeIsTotal(ds[i].name.text, d.name.text);
    }
    LookupAt(ds, d.name, k);
  }

  /** One name is taken off the back of the list: it is not available ... */
  lemma WalkOver(g: Graph, ds: seq<Descriptor>, installed: map<Name, Release>, names: seq<Name>,
                 taken: set<Name>, items: seq<Name>, results: seq<Descriptor>, missing: seq<Name>)
    requires g == Needs(ds) && items != [] && items[|items| - 1] !in g
    requires Walking(g, ds, installed, names, taken, items, results, missing)
    ensures var n, rest := items[|items| - 1], items[..|items| - 1];
      Walking(g, ds, installed, names, taken + {n}, rest, results, if n !in installed then missing + [n] else missing)
  {
    hide Covers;
    var n, rest := items[|items| - 1], items[..|items| - 1];
    CoversOn(g, names, taken, items);
    assert rest + [] == rest;
    forall k | 0 <= k < |rest| ensures Item(g, names, rest[k]) { assert rest[k] == items[k]; }
    forall d | d in ds ensures d.name != n { assert d.name in NamesOf(ds); }
  }

  lemma ItemsAfter(g: Graph, names: seq<Name>, items: seq<Name>)
    requires Items(g, names, items) && items != [] && items[|items| - 1] in g
    requires Mentioned(g, names, items[|items| - 1])
    ensures var n, rest := items[|items| - 1], items[..|items| - 1];
      Items(g, names, rest + g[n]) && forall m :: m in g[n] ==> Mentioned(g, names, m)
  {
    var n, rest := items[|items| - 1], items[..|items| - 1];
    assert Item(g, names, n);
    var more := rest + g[n];
    forall k | 0 <= k < |more| ensures Item(g, names, more[k]) {
      if k < |rest| {
        assert more[k] == items[k];
      } else {
        assert more[k] in g[n];
        if more[k] in g { ReachedOn(g, names, n, more[k]); }
      }
    }
  }

  /** ... or it is, and its dependencies are added. */
  lemma WalkInto(g: Graph, ds: seq<Descriptor>, installed: map<Name, Release>, names: seq<Name>,
                 taken: set<Name>, items: seq<Name>, results: seq<Descriptor>, missing: seq<Name>, d: Descriptor)
    requires g == Needs(ds) && items != [] && Lookup(ds, items[|items| - 1]) == Some(d)
    requires Walking(g, ds, installed, names, taken, items, results, missing)
    ensures Walking(g, ds, installed, names, taken + {items[|items| - 1]}, items[..|items| - 1] + d.dependencies,
                    if Stale(installed, d) then results + [d] else results, missing)
  {
    hide Covers, Items, Stale;
    var n, rest := items[|items| - 1], items[..|items| - 1];
    assert n in g && g[n] == d.dependencies;
    CoversOn(g, names, taken, items);
    MentionedItem(g, names, taken, items);
    ItemsAfter(g, names, items);
  }

  class Catalogue {
    var available: seq<Descriptor>

    constructor ()
      ensures available == []
    {
      available := [];
    }

    /** `std::lower_bound` by name. */
    method LowerBound(name: Name) returns (k: nat)
      requires Sorted(available)
      ensures k <= |available|
      ensures forall i :: 0 <= i < k ==> Less(available[i].name, name)
      ensures forall i :: k <= i < |available| ==> !Less(available[i].name, name)
    {
      k := 0;
      var count := |available|;
      while count > 0
        invariant 0 <= count && k + count <= |available|
        invariant forall i :: 0 <= i < k ==> Less(available[i].name, name)
        invariant forall i :: k + count <= i < |available| ==> !Less(available[i].name, name)
      {
        var step := count / 2;
        var mid := k + step;
        if Less(available[mid].name, name) {
          forall i | k <= i < mid ensures Less(available[i].name, name) {
            BeforeIsTransitive(available[i].name.text, available[mid].name.text, name.text);
          }
          k := mid + 1;
          count := count - (step + 1);
        } else {
          forall i | mid < i < |available| ensures !Less(available[i].name, name) {
            if Less(available[i].name, name) {
              BeforeIsTransitive(available[mid].name.text, available[i].name.text, name.text);
            }
          }
          count := step;
        }
      }
    }

    /** `load_source`: a name that is already there is left as it is. */
    method LoadSource(source: seq<Descriptor>)
      requires Sorted(available)
      modifies this
      ensures Sorted(available)
      ensures forall n :: Lookup(available, n) == Lookup(old(available) + source, n)
    {
      hide Lookup, Sorted;
      var i := 0;
      assert old(available) + source[..0] == old(available);
      while i < |source|
        invariant 0 <= i <= |source|
        invariant Sorted(available)
        invariant forall n :: Lookup(available, n) == Lookup(old(available) + source[..i], n)
      {
        var d := source[i];
        var k := LowerBound(d.name);
        BisectionAgrees(available, d.name, k);
        ghost var before := available;
        if k == |available| || available[k].name != d.name {
          InsertKeepsSorted(available, d, k);
          available := available[..k] + [d] + available[k..];
        }
        assert old(available) + source[..i + 1] == (old(available) + source[..i]) + [d];
        forall n ensures Lookup(available, n) == Lookup((old(available) + source[..i]) + [d], n) {
          LookupMore(before, available, old(available) + source[..i], d, k, n);
        }
        i := i + 1;
      }
      assert source[..i] == source;
    }

    /** `reload_sources`: the catalogue is sorted, and the first source that has a name wins. */
    method ReloadSources(sources: seq<seq<Descriptor>>)
      modifies this
      ensures Sorted(available)
      ensures forall n :: Lookup(available, n) == Lookup(Concat(sources), n)
    {
      available := [];
      var i := 0;
      while i < |sources|
        invariant 0 <= i <= |sources|
        invariant Sorted(available)
        invariant forall n :: Lookup(available, n) == Lookup(Concat(sources[..i]), n)
      {
        ghost var before := available;
        LoadSource(sources[i]);
        assert sources[..i + 1][..i] == sources[..i];
        forall n ensures Lookup(available, n) == Lookup(Concat(sources[..i + 1]), n) {
          LookupJoined(before, sources[i], n);
          LookupJoined(Concat(sources[..i]), sources[i], n);
        }
        i := i + 1;
      }
      assert sources[..i] == sources;
    }

    /** `out_of_date`. Without a visited set it comes to an end exactly when no cycle of dependencies is
        reachable; `OutOfDateNeverEnds` is the other direction. */
    method OutOfDate(names: seq<Name>, installed: map<Name, Release>)
      returns (results: seq<Descriptor>, missing: seq<Name>, ghost rounds: nat)
      requires Sorted(available) && NoCycleFrom(Needs(available), names)
      ensures forall d :: d in results <==>
                && d in available && ReachedFrom(Needs(available), names, d.name)
                && (d.name in installed ==> installed[d.name].version < d.version && installed[d.name].canUpdate)
      ensures forall m :: m in missing <==>
                Mentioned(Needs(available), names, m) && m !in Needs(available) && m !in installed
      ensures Rounds(Needs(available), Reversed(names), Back, rounds) == []
      ensures var taken := TakenOff(Needs(available), Reversed(names), Back, rounds);
        results == StaleAmong(available, installed, taken) && missing == MissingAmong(available, installed, taken)
    {
      hide Walking, Rounds, TakenOff, StaleAmong, MissingAmong, Lookup, Sorted, NoCycleFrom, Descends, Items, Total;
      hide Mentioned, ReachedFrom;
      ghost var g := Needs(available);
      ghost var rank := DescentOf(g, names);
      ghost var taken: set<Name> := {};
      results, missing := [], [];
      AmongNone(available, installed);
      rounds := 0;
      var unprocessed := Reversed(names);
      StartWalk(g, available, installed, names, unprocessed);
      RoundsStart(g, unprocessed, Back);
      while unprocessed != []
        invariant unprocessed == Rounds(g, Reversed(names), Back, rounds)
        invariant Walking(g, available, installed, names, taken, unprocessed, results, missing)
        invariant Items(g, names, unprocessed)
        invariant results == StaleAmong(available, installed, TakenOff(g, Reversed(names), Back, rounds))
        invariant missing == MissingAmong(available, installed, TakenOff(g, Reversed(names), Back, rounds))
        decreases Total(g, names, rank, unprocessed)
      {
        ghost var items := unprocessed;
        var name := unprocessed[|unprocessed| - 1];
        unprocessed := unprocessed[..|unprocessed| - 1];
        ghost var was, found, lost := taken, results, missing;
        WalkCosts(g, names, rank, items);
        var k := LowerBound(name);
        BisectionAgrees(available, name, k);
        taken := taken + {name};
        if k == |available| || available[k].name != name {
          if name !in installed {
            missing := missing + [name];
          }
          WalkOver(g, available, installed, names, was, items, found, lost);
        } else {
          var d := available[k];
          if Stale(installed, d) {
            results := results + [d];
          }
          unprocessed := PushAll(unprocessed, d.dependencies);
          WalkInto(g, available, installed, names, was, items, found, lost, d);
        }
        RoundsGoOn(g, Reversed(names), Back, rounds);
        AmongMore(available, installed, TakenOff(g, Reversed(names), Back, rounds), name);
        rounds := rounds + 1;
      }
      WalkEnds(g, available, installed, names, taken, results, missing);
    }

    /** The loop that pushes the dependencies. */
    method PushAll(unprocessed: seq<Name>, dependencies: seq<Name>) returns (more: seq<Name>)
      ensures more == unprocessed + dependencies
    {
      more := unprocessed;
      var i := 0;
      while i < |dependencies|
        invariant 0 <= i <= |dependencies| && more == unprocessed + dependencies[..i]
      {
        more := more + [dependencies[i]];
        i := i + 1;
      }
    }
  }

  lemma StartWalk(g: Graph, ds: seq<Descriptor>, installed: map<Name, Release>, names: seq<Name>, items: seq<Name>)
    requires items == Reversed(names)
    ensures Walking(g, ds, installed, names, {}, items, [], []) && Items(g, names, items)
  {
    forall k | 0 <= k < |items| ensures items[k] in names && Item(g, names, items[k]) {
      assert items[k] == names[|names| - 1 - k];
      if items[k] in g { RootReached(g, names, items[k]); }
    }
    forall n | n in names ensures n in items {
      var k :| 0 <= k < |names| && names[k] == n;
      assert items[|names| - 1 - k] == n;
    }
  }

  /** Taking an item off and adding its successors lowers the cost of the list. */
  lemma WalkCosts(g: Graph, names: seq<Name>, rank: map<Name, nat>, items: seq<Name>)
    requires Descends(g, names, rank) && Items(g, names, items) && items != []
    ensures var n, rest := items[|items| - 1], items[..|items| - 1];
      && Items(g, names, rest) && Total(g, names, rank, rest) < Total(g, names, rank, items)
      && (n in g ==> Items(g, names, rest + g[n]) && Total(g, names, rank, rest + g[n]) < Total(g, names, rank, items))
  {
    var n, rest := items[|items| - 1], items[..|items| - 1];
    assert items == rest + [n];
    assert Item(g, names, n);
    assert Items(g, names, rest) by {
      forall k | 0 <= k < |rest| ensures Item(g, names, rest[k]) { assert rest[k] == items[k]; }
    }
    TotalOfOne(g, names, rank, n);
    TotalAdds(g, names, rank, rest, [n]);
    if n in g {
      Unfolds(g, names, rank, n);
      TotalAdds(g, names, rank, rest, g[n]);
    }
  }

  /** When a cycle is reachable the list is never empty, whatever the number of rounds. */
  lemma OutOfDateNeverEnds(ds: seq<Descriptor>, names: seq<Name>, k: nat)
    requires !NoCycleFrom(Needs(ds), names)
    ensures Rounds(Needs(ds), Reversed(names), Back, k) != []
  {
    var g, items := Needs(ds), Reversed(names);
    var u, v :| ReachedFrom(g, names, u) && Edge(g, u, v) && Reaches(g, v, u);
    var c := CycleIsAlive(g, names, u, v);
    assert Alive(g, items, c) by {
      var j, w :| 0 <= j < |names| && w in c && Reaches(g, names[j], w);
      assert items[|names| - 1 - j] == names[j];
    }
    RoundsStayAlive(g, items, Back, c, k);
  }
}
