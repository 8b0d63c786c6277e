/** The registry of commands: layers sorted by command and component, searched with names that may leave
    the component open. */
module CommandRegistry {
  import opened Texts

  /** Handlers and tags are told apart by numbers. */
  datatype Descriptor = Descriptor(component: string, command: string, tag: nat, handler: nat, raw: bool, layer: nat)

  datatype Wanted = Anywhere | Within(component: string)

  datatype Name = Name(component: Wanted, command: string)

  const LAYERS: nat := 4

  /** `descriptor::operator<=>`. */
  predicate Smaller(a: Descriptor, b: Descriptor) {
    Before(a.command, b.command) || (a.command == b.command && Before(a.component, b.component))
  }

  /** `name_view::operator<=>`: names with the same command are equivalent unless both have a component. */
  predicate Less(a: Name, b: Name) {
    || Before(a.command, b.command)
    || (a.command == b.command && a.component.Within? && b.component.Within? &&
        Before(a.component.component, b.component.component))
  }

  function NameOf(d: Descriptor): Name {
    Name(Within(d.component), d.command)
  }

  predicate Matches(d: Descriptor, name: Name) {
    d.command == name.command && (name.component.Within? ==> d.component == name.component.component)
  }

  predicate Sorted(ds: seq<Descriptor>) {
    forall i, j :: 0 <= i < j < |ds| ==> Smaller(ds[i], ds[j])
  }

  /** Equivalence under the comparison of names is not transitive, so it is no weak order. */
  lemma NotTransitive()
    ensures exists a, b, c ::
      !Less(a, b) && !Less(b, a) && !Less(b, c) && !Less(c, b) && Less(a, c)
  {
    var a, b, c := Name(Within("a"), "x"), Name(Anywhere, "x"), Name(Within("b"), "x");
    BeforeIsTotal("x", "x");
    BeforeIsTotal("a", "b");
    assert !Less(a, b) && !Less(b, a) && !Less(b, c) && !Less(c, b) && Less(a, c);
  }

  /** But along a sorted layer, what is below a name comes first, then what matches it, then what is above. */
  lemma Partitioned(ds: seq<Descriptor>, name: Name, i: nat, j: nat)
    requires Sorted(ds) && i < j < |ds|
    ensures Less(NameOf(ds[j]), name) ==> Less(NameOf(ds[i]), name)
    ensures Less(name, NameOf(ds[i])) ==> Less(name, NameOf(ds[j]))
  {
    assert Smaller(ds[i], ds[j]);
    var a, b := ds[i], ds[j];
    if Before(a.command, b.command) {
      if Before(b.command, name.command) { BeforeIsTransitive(a.command, b.command, name.command); }
      if Before(name.command, a.command) { BeforeIsTransitive(name.command, a.command, b.command); }
    } else if name.component.Within? {
      var c := name.component.component;
      if Before(b.component, c) { BeforeIsTransitive(a.component, b.component, c); }
      if Before(c, a.component) { BeforeIsTransitive(c, a.component, b.component); }
    }
  }

  lemma MatchesIsBetween(d: Descriptor, name: Name)
    ensures Matches(d, name) <==> !Less(NameOf(d), name) && !Less(name, NameOf(d))
  {
    BeforeIsTotal(d.command, name.command);
    if name.component.Within? { BeforeIsTotal(d.component, name.component.component); }
  }

  /** With a component, at most one descriptor of a layer matches. */
  lemma OneMatch(ds: seq<Descriptor>, name: Name, i: nat, j: nat)
    requires Sorted(ds) && name.component.Within? && i < j < |ds|
    ensures !(Matches(ds[i], name) && Matches(ds[j], name))
  {
    assert Smaller(ds[i], ds[j]);
    BeforeIsTotal(ds[i].command, ds[j].command);
    BeforeIsTotal(ds[i].component, ds[j].component);
  }

  method LowerBound(ds: seq<Descriptor>, lo: nat, hi: nat, name: Name) returns (at: nat)
    requires Sorted(ds) && lo <= hi <= |ds|
    ensures lo <= at <= hi
    ensures forall i :: lo <= i < at ==> Less(NameOf(ds[i]), name)
    ensures forall i :: at <= i < hi ==> !Less(NameOf(ds[i]), name)
  {
    at := lo;
    var count: nat := hi - lo;
    while count > 0
      invariant lo <= at && at + count <= hi
      invariant forall i :: lo <= i < at ==> Less(NameOf(ds[i]), name)
      invariant forall i :: at + count <= i < hi ==> !Less(NameOf(ds[i]), name)
    {
      var half := count / 2;
      var middle := at + half;
      forall i | 0 <= i < |ds| && i != middle
        ensures i < middle && Less(NameOf(ds[middle]), name) ==> Less(NameOf(ds[i]), name)
        ensures i > middle && !Less(NameOf(ds[middle]), name) ==> !Less(NameOf(ds[i]), name)
      {
        if i < middle { Partitioned(ds, name, i, middle); } else { Partitioned(ds, name, middle, i); }
      }
      if Less(NameOf(ds[middle]), name) {
        at, count := middle + 1, count - half - 1;
      } else {
        count := half;
      }
    }
  }

  method UpperBound(ds: seq<Descriptor>, lo: nat, hi: nat, name: Name) returns (at: nat)
    requires Sorted(ds) && lo <= hi <= |ds|
    ensures lo <= at <= hi
    ensures forall i :: lo <= i < at ==> !Less(name, NameOf(ds[i]))
    ensures forall i :: at <= i < hi ==> Less(name, NameOf(ds[i]))
  {
    at := lo;
    var count: nat := hi - lo;
    while count > 0
      invariant lo <= at && at + count <= hi
      invariant forall i :: lo <= i < at ==> !Less(name, NameOf(ds[i]))
      invariant forall i :: at + count <= i < hi ==> Less(name, NameOf(ds[i]))
    {
      var half := count / 2;
      var middle := at + half;
      forall i | 0 <= i < |ds| && i != middle
        ensures i < middle && !Less(name, NameOf(ds[middle])) ==> !Less(name, NameOf(ds[i]))
        ensures i > middle && Less(name, NameOf(ds[middle])) ==> Less(name, NameOf(ds[i]))
      {
        if i < middle { Partitioned(ds, name, i, middle); } else { Partitioned(ds, name, middle, i); }
      }
      if !Less(name, NameOf(ds[middle])) {
        at, count := middle + 1, count - half - 1;
      } else {
        count := half;
      }
    }
  }

  /** `std::equal_range`. The range is exactly what matches. */
  method EqualRange(ds: seq<Descriptor>, name: Name) returns (lo: nat, hi: nat)
    requires Sorted(ds)
    ensures lo <= hi <= |ds|
    ensures forall i :: 0 <= i < |ds| ==> (lo <= i < hi <==> Matches(ds[i], name))
  {
    var first, count: nat := 0, |ds|;
    while count > 0
      invariant first + count <= |ds|
      invariant forall i :: 0 <= i < first ==> Less(NameOf(ds[i]), name)
      invariant forall i :: first + count <= i < |ds| ==> Less(name, NameOf(ds[i]))
    {
      var half := count / 2;
      var middle := first + half;
      forall i | 0 <= i < |ds| && i != middle
        ensures i < middle && Less(NameOf(ds[middle]), name) ==> Less(NameOf(ds[i]), name)
        ensures i > middle && Less(name, NameOf(ds[middle])) ==> Less(name, NameOf(ds[i]))
        ensures i < middle && !Less(name, NameOf(ds[middle])) ==> !Less(name, NameOf(ds[i]))
        ensures i > middle && !Less(NameOf(ds[middle]), name) ==> !Less(NameOf(ds[i]), name)
      {
        if i < middle { Partitioned(ds, name, i, middle); } else { Partitioned(ds, name, middle, i); }
      }
      if Less(NameOf(ds[middle]), name) {
        first, count := middle + 1, count - half - 1;
      } else if Less(name, NameOf(ds[middle])) {
        count := half;
      } else {
        lo := LowerBound(ds, first, middle, name);
        hi := UpperBound(ds, middle + 1, first + count, name);
        forall i | 0 <= i < |ds| ensures lo <= i < hi <==> Matches(ds[i], name) { MatchesIsBetween(ds[i], name); }
        return;
      }
    }
    lo, hi := first, first;
    forall i | 0 <= i < |ds| ensures !Matches(ds[i], name) { MatchesIsBetween(ds[i], name); }
  }

  /** The descriptors of a layer that match a name, by a linear scan. */
  function Matching(ds: seq<Descriptor>, name: Name): (ms: seq<Descriptor>)
    ensures forall m :: m in ms ==> m in ds && Matches(m, name)
  {
    if ds == [] then [] else (if Matches(ds[0], name) then [ds[0]] else []) + Matching(ds[1..], name)
  }

  lemma {:induction false} MatchingIsRange(ds: seq<Descriptor>, name: Name, lo: nat, hi: nat)
    requires lo <= hi <= |ds|
    requires forall i :: 0 <= i < |ds| ==> (lo <= i < hi <==> Matches(ds[i], name))
    ensures Matching(ds, name) == ds[lo..hi]
    decreases |ds|
  {
    hide Matches;
    if ds != [] {
      var rest := ds[1..];
      forall i | 0 <= i < |rest|
        ensures (if lo > 0 then lo - 1 else 0) <= i < (if hi > 0 then hi - 1 else 0) <==> Matches(rest[i], name)
      {
        assert rest[i] == ds[i + 1];
      }
      MatchingIsRange(rest, name, if lo > 0 then lo - 1 else 0, if hi > 0 then hi - 1 else 0);
      assert Matches(ds[0], name) <==> lo <= 0 < hi;
    }
  }

  datatype Finding = Found(descriptor: Descriptor) | Ambiguous(options: seq<Descriptor>) | NotFound

  /** `find`, as a linear scan of the layers from `k` on. */
  function Scan(layers: seq<seq<Descriptor>>, name: Name, k: nat): Finding
    requires k <= |layers|
    decreases |layers| - k
  {
    if k == |layers| then NotFound
    else
      var ms := Matching(layers[k], name);
      if |ms| == 1 then Found(ms[0])
      else if |ms| > 1 && name.component == Anywhere then Ambiguous(ms)
      else Scan(layers, name, k + 1)
  }

  datatype Outcome = Ran(descriptor: Descriptor) | Refused(options: seq<Descriptor>) | Unknown

  /** What becomes of a command whose name was parsed: an expired match is passed over, but only if it is
      the only match of its layer. */
  function Resolve(layers: seq<seq<Descriptor>>, name: Name, expired: set<nat>, k: nat): Outcome
    requires k <= |layers|
    decreases |layers| - k
  {
    if k == |layers| then Unknown
    else
      var ms := Matching(layers[k], name);
      if |ms| == 1 && ms[0].tag !in expired then Ran(ms[0])
      else if |ms| > 1 && name.component == Anywhere then Refused(ms)
      else Resolve(layers, name, expired, k + 1)
  }

  predicate Live(d: Descriptor, expired: set<nat>) {
    d.tag !in expired
  }

  predicate SortedLayers(layers: seq<seq<Descriptor>>) {
    && |layers| == LAYERS
    && (forall k :: 0 <= k < LAYERS ==> Sorted(layers[k]))
    && (forall k, d :: 0 <= k < LAYERS && d in layers[k] ==> d.layer == k)
  }

  predicate NoneLive(layers: seq<seq<Descriptor>>, name: Name, expired: set<nat>, i: nat)
    requires i < |layers|
  {
    forall m :: m in Matching(layers[i], name) ==> !Live(m, expired)
  }

  /** Which layer decides: no earlier one has a live match. */
  predicate Decides(layers: seq<seq<Descriptor>>, name: Name, expired: set<nat>, k: nat, j: nat)
    requires j <= |layers|
  {
    k <= j && forall i :: k <= i < j ==> NoneLive(layers, name, expired, i)
  }

  lemma AllExpired(layers: seq<seq<Descriptor>>, name: Name, expired: set<nat>, k: nat)
    requires k < |layers|
    requires var ms := Matching(layers[k], name); |ms| <= 1 && (|ms| == 1 ==> !Live(ms[0], expired))
    ensures NoneLive(layers, name, expired, k)
  {
  }

  /** A handler is run only if its tag has not expired, and if it is the only match of the first layer with
      any live match. A refusal lists all matches of a layer, and none of an earlier one is live. If neither
      happens, no match is live. */
  lemma {:induction false} RunsFirstLive(layers: seq<seq<Descriptor>>, name: Name, expired: set<nat>, k: nat)
      returns (j: nat)
    requires SortedLayers(layers) && k <= LAYERS
    ensures j <= LAYERS && Decides(layers, name, expired, k, j)
    ensures match Resolve(layers, name, expired, k)
      case Ran(d) =>
        j < LAYERS && d.layer == j && Live(d, expired) && Matches(d, name) && Matching(layers[j], name) == [d]
      case Refused(ms) =>
        j < LAYERS && name.component == Anywhere && |ms| > 1 && ms == Matching(layers[j], name)
      case Unknown => j == LAYERS
    decreases LAYERS - k
  {
    hide Matching, Sorted, Matches, NoneLive;
    j := k;
    if k < LAYERS {
      var ms := Matching(layers[k], name);
      if name.component.Within? { AtMostOne(layers[k], name); }
      if |ms| == 1 && ms[0].tag !in expired {
        assert ms[0] in ms && ms == [ms[0]];
      } else if |ms| > 1 && name.component == Anywhere {
      } else {
        j := RunsFirstLive(layers, name, expired, k + 1);
        AllExpired(layers, name, expired, k);
      }
    }
  }

  lemma AtMostOne(ds: seq<Descriptor>, name: Name)
    requires Sorted(ds) && name.component.Within?
    ensures |Matching(ds, name)| <= 1
    decreases |ds|
  {
    if ds != [] {
      assert Sorted(ds[1..]) by {
        forall i, j | 0 <= i < j < |ds| - 1 ensures Smaller(ds[1..][i], ds[1..][j]) {
          assert Smaller(ds[i + 1], ds[j + 1]);
        }
      }
      AtMostOne(ds[1..], name);
      var rest := Matching(ds[1..], name);
      if rest != [] {
        assert rest[0] in ds[1..];
        var i :| 0 <= i < |ds[1..]| && ds[1..][i] == rest[0];
        OneMatch(ds, name, 0, i + 1);
      }
    }
  }

  /** `purge` for one layer. */
  function Purged(ds: seq<Descriptor>, expired: set<nat>): (rest: seq<Descriptor>)
    ensures forall d :: d in rest ==> d in ds && Live(d, expired)
  {
    if ds == [] then [] else (if Live(ds[0], expired) then [ds[0]] else []) + Purged(ds[1..], expired)
  }

  function PurgedLayers(layers: seq<seq<Descriptor>>, expired: set<nat>): (rest: seq<seq<Descriptor>>)
    ensures |rest| == |layers|
    ensures forall k :: 0 <= k < |layers| ==> rest[k] == Purged(layers[k], expired)
  {
    if layers == [] then [] else [Purged(layers[0], expired)] + PurgedLayers(layers[1..], expired)
  }

  lemma {:induction false} PurgeCommutes(ds: seq<Descriptor>, name: Name, expired: set<nat>)
    ensures Matching(Purged(ds, expired), name) == Purged(Matching(ds, name), expired)
  {
    if ds != [] {
      PurgeCommutes(ds[1..], name, expired);
      var d, ms, left := ds[0], Matching(ds[1..], name), Purged(ds[1..], expired);
      assert ([d] + ms)[1..] == ms && [] + ms == ms;
      assert ([d] + left)[1..] == left && [] + left == left;
    }
  }

  lemma {:induction false} PurgedSame(ds: seq<Descriptor>, expired: set<nat>)
    ensures Purged(ds, expired) == ds <==> forall d :: d in ds ==> Live(d, expired)
    ensures |Purged(ds, expired)| <= |ds|
  {
    if ds != [] {
      PurgedSame(ds[1..], expired);
      assert ds == [ds[0]] + ds[1..];
    }
  }

  lemma OneExpired(d: Descriptor, expired: set<nat>)
    requires !Live(d, expired)
    ensures Purged([d], expired) == []
  {
  }

  /** Expired descriptors that were not purged change what becomes of a command exactly when the command is
      refused as ambiguous and one of the options listed has expired. */
  lemma {:induction false} ExpiredMatterWhenRefused(layers: seq<seq<Descriptor>>, name: Name, expired: set<nat>, k: nat)
    requires SortedLayers(layers) && k <= LAYERS
    ensures Resolve(layers, name, expired, k) == Resolve(PurgedLayers(layers, expired), name, expired, k) <==>
      match Resolve(layers, name, expired, k)
      case Refused(ms) => forall m :: m in ms ==> Live(m, expired)
      case _ => true
    decreases LAYERS - k
  {
    hide Matching, Matches, Sorted, Smaller, Purged, PurgedLayers;
    if k < LAYERS {
      var purged := PurgedLayers(layers, expired);
      var ms, left := Matching(layers[k], name), Matching(purged[k], name);
      PurgeCommutes(layers[k], name, expired);
      PurgedSame(ms, expired);
      if name.component.Within? { AtMostOne(layers[k], name); }
      ExpiredMatterWhenRefused(layers, name, expired, k + 1);
      if |ms| > 1 && name.component == Anywhere {
        RefusedAreLive(purged, name, expired, k);
      } else if |ms| == 1 && !Live(ms[0], expired) {
        assert ms == [ms[0]];
        OneExpired(ms[0], expired);
      } else if ms != [] {
        assert ms == [ms[0]];
      }
    }
  }

  lemma {:induction false} RefusedAreLive(layers: seq<seq<Descriptor>>, name: Name, expired: set<nat>, k: nat)
    requires k <= |layers| && forall j, d :: 0 <= j < |layers| && d in layers[j] ==> Live(d, expired)
    ensures Resolve(layers, name, expired, k).Refused? ==>
      forall m :: m in Resolve(layers, name, expired, k).options ==> Live(m, expired)
    decreases |layers| - k
  {
    hide Matches, Matching;
    if k < |layers| { RefusedAreLive(layers, name, expired, k + 1); }
  }

  /** Layer `i` lets the search go on: it has no match, or just one, and that has expired. */
  predicate LetsPass(layers: seq<seq<Descriptor>>, name: Name, expired: set<nat>, i: nat)
    requires i < |layers|
  {
    var ms := Matching(layers[i], name);
    ms == [] || (|ms| == 1 && !Live(ms[0], expired))
  }

  /** Layer `j` has several matches, one of them expired, and the layers before it let the search go on. */
  ghost predicate ListsExpired(layers: seq<seq<Descriptor>>, name: Name, expired: set<nat>, k: nat, j: nat)
    requires j < |layers|
  {
    && k <= j && |Matching(layers[j], name)| > 1 && (exists m :: m in Matching(layers[j], name) && !Live(m, expired))
    && forall i :: k <= i < j ==> LetsPass(layers, name, expired, i)
  }

  lemma {:induction false} RefusedByLayers(layers: seq<seq<Descriptor>>, name: Name, expired: set<nat>, k: nat)
    requires SortedLayers(layers) && k <= LAYERS
    ensures (match Resolve(layers, name, expired, k)
             case Refused(ms) => exists m :: m in ms && !Live(m, expired)
             case _ => false) <==>
            exists j: nat :: j < LAYERS && ListsExpired(layers, name, expired, k, j)
    decreases LAYERS - k
  {
    hide Matching, Matches, Sorted, Live;
    if k < LAYERS {
      var ms := Matching(layers[k], name);
      if name.component.Within? { AtMostOne(layers[k], name); }
      if LetsPass(layers, name, expired, k) {
        LiveOrNot(ms, expired);
        RefusedByLayers(layers, name, expired, k + 1);
        var next := k + 1;
        if j: nat :| j < LAYERS && ListsExpired(layers, name, expired, next, j) {
          assert ListsExpired(layers, name, expired, k, j);
        }
        if j: nat :| j < LAYERS && ListsExpired(layers, name, expired, k, j) {
          assert j != k;
          assert ListsExpired(layers, name, expired, next, j);
        }
      } else {
        LiveOrNot(ms, expired);
        forall j: nat | k < j < LAYERS ensures !ListsExpired(layers, name, expired, k, j) {}
        assert |ms| > 1 ==> (ListsExpired(layers, name, expired, k, k) <==> exists m :: m in ms && !Live(m, expired));
      }
    }
  }

  lemma LiveOrNot(ms: seq<Descriptor>, expired: set<nat>)
    ensures |ms| == 1 ==> (Live(ms[0], expired) <==> ms[0].tag !in expired)
  {
  }

  /** What a caller can see before the call: leftover expired commands matter if and only if some layer has
      several matches, one of them expired, and no layer before it several or a live one. */
  lemma ExpiredMatterExactly(layers: seq<seq<Descriptor>>, name: Name, expired: set<nat>, k: nat)
    requires SortedLayers(layers) && k <= LAYERS
    ensures Resolve(layers, name, expired, k) != Resolve(PurgedLayers(layers, expired), name, expired, k) <==>
            exists j: nat :: j < LAYERS && ListsExpired(layers, name, expired, k, j)
  {
    hide Resolve, ListsExpired, PurgedLayers, SortedLayers, Live;
    ExpiredMatterWhenRefused(layers, name, expired, k);
    RefusedByLayers(layers, name, expired, k);
  }
}
