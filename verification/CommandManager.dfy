/** `command_manager`: registering, unregistering, purging and running commands. */
module CommandManager {
  import opened Texts
  import opened CommandRegistry
  import CommandNames

  /** A layer without what matches a name. */
  function Without(ds: seq<Descriptor>, name: Name): (rest: seq<Descriptor>)
    ensures |rest| <= |ds|
    ensures forall d :: d in rest ==> d in ds && !Matches(d, name)
  {
    if ds == [] then []
    else
      var last := ds[|ds| - 1];
      Without(ds[..|ds| - 1], name) + if Matches(last, name) then [] else [last]
  }

  lemma {:induction false} WithoutKeeps(ds: seq<Descriptor>, name: Name, d: Descriptor)
    requires d in ds && !Matches(d, name)
    ensures d in Without(ds, name)
  {
    if d != ds[|ds| - 1] { WithoutKeeps(ds[..|ds| - 1], name, d); }
  }

  lemma {:induction false} WithoutSorted(ds: seq<Descriptor>, name: Name)
    requires Sorted(ds)
    ensures Sorted(Without(ds, name))
  {
    if ds != [] {
      var prefix, last := ds[..|ds| - 1], ds[|ds| - 1];
      WithoutSorted(prefix, name);
      var rest := Without(prefix, name);
      forall i | 0 <= i < |rest| ensures Smaller(rest[i], last) {
        assert rest[i] in prefix;
        var j :| 0 <= j < |prefix| && prefix[j] == rest[i];
        assert Smaller(ds[j], ds[|ds| - 1]);
      }
    }
  }

  lemma WithoutNone(ds: seq<Descriptor>, name: Name)
    requires Matching(ds, name) == []
    ensures Without(ds, name) == ds
  {
    hide Matching;
    NoneMatching(ds, name);
    WithoutNothing(ds, name);
  }

  lemma {:induction false} WithoutNothing(ds: seq<Descriptor>, name: Name)
    requires forall d :: d in ds ==> !Matches(d, name)
    ensures Without(ds, name) == ds
  {
    hide Matches;
    if ds != [] {
      var prefix, last := ds[..|ds| - 1], ds[|ds| - 1];
      assert ds == prefix + [last];
      WithoutNothing(prefix, name);
    }
  }

  lemma {:induction false} NoneMatching(ds: seq<Descriptor>, name: Name)
    ensures Matching(ds, name) == [] <==> forall d :: d in ds ==> !Matches(d, name)
  {
    if ds != [] { NoneMatching(ds[1..], name); }
  }

  lemma {:induction false} OneMatching(ds: seq<Descriptor>, name: Name, d: Descriptor)
    requires Matching(ds, name) == [d]
    ensures forall x :: x in ds && Matches(x, name) ==> x == d
  {
    assert d in Matching(ds, name);
    if Matches(ds[0], name) { NoneMatching(ds[1..], name); } else { OneMatching(ds[1..], name, d); }
  }

  /** The only match of a layer can be removed by its full name as well. */
  lemma {:induction false} WithoutSame(ds: seq<Descriptor>, a: Name, b: Name)
    requires forall d :: d in ds ==> (Matches(d, a) <==> Matches(d, b))
    ensures Without(ds, a) == Without(ds, b)
  {
    if ds != [] {
      assert ds[|ds| - 1] in ds;
      WithoutSame(ds[..|ds| - 1], a, b);
    }
  }

  /** The layers after a command was handled: matches that had expired are gone from the layers before the
      one that decided. */
  function Swept(layers: seq<seq<Descriptor>>, name: Name, expired: set<nat>, k: nat): (after: seq<seq<Descriptor>>)
    requires k <= |layers|
    ensures |after| == |layers|
    decreases |layers| - k
  {
    if k == |layers| then layers
    else
      var ms := Matching(layers[k], name);
      if |ms| == 1 && ms[0].tag !in expired then layers
      else if |ms| > 1 && name.component == Anywhere then layers
      else Swept(layers[k := Without(layers[k], name)], name, expired, k + 1)
  }

  /** Only descriptors that match and have expired are gone. */
  lemma {:induction false} SweptKeeps(layers: seq<seq<Descriptor>>, name: Name, expired: set<nat>, k: nat,
                                      i: nat, d: Descriptor)
    requires k <= i < |layers| && d in layers[i] && d !in Swept(layers, name, expired, k)[i]
    requires forall j :: k <= j < |layers| ==> Sorted(layers[j])
    ensures Matches(d, name) && !Live(d, expired)
    decreases |layers| - k
  {
    var ms, next := Matching(layers[k], name), layers[k := Without(layers[k], name)];
    if i == k {
      SweptEarlier(next, name, expired, k + 1, i);
      if !Matches(d, name) {
        WithoutKeeps(layers[k], name, d);
      } else {
        NoneMatching(layers[k], name);
        if name.component.Within? { AtMostOne(layers[k], name); }
        assert ms == [ms[0]];
        OneMatching(layers[k], name, ms[0]);
      }
    } else {
      SweptKeeps(next, name, expired, k + 1, i, d);
    }
  }

  lemma {:induction false} SweptEarlier(layers: seq<seq<Descriptor>>, name: Name, expired: set<nat>, k: nat, i: nat)
    requires i < k <= |layers|
    ensures Swept(layers, name, expired, k)[i] == layers[i]
    decreases |layers| - k
  {
    hide Without, Matching;
    if k < |layers| { SweptEarlier(layers[k := Without(layers[k], name)], name, expired, k + 1, i); }
  }

  /** Removing an expired match that was found leaves what remains to be done as it is. */
  lemma {:induction false} SweepOne(layers: seq<seq<Descriptor>>, name: Name, expired: set<nat>, i: nat, k: nat)
    requires i <= k < |layers|
    requires forall j :: i <= j < k ==> Matching(layers[j], name) == []
    requires |Matching(layers[k], name)| == 1 && !Live(Matching(layers[k], name)[0], expired)
    ensures var next := layers[k := Without(layers[k], name)];
      && Resolve(next, name, expired, i) == Resolve(layers, name, expired, i)
      && Swept(next, name, expired, i) == Swept(layers, name, expired, i)
    decreases k - i
  {
    hide Matching, Without;
    var next := layers[k := Without(layers[k], name)];
    if i < k {
      PassesOver(layers, name, expired, i);
      PassesOver(next, name, expired, i);
      SweepOne(layers, name, expired, i + 1, k);
    } else {
      NoneMatching(next[k], name);
      PassesOver(next, name, expired, k);
      SameAfter(layers, next, name, expired, k + 1);
    }
  }

  lemma PassesOver(layers: seq<seq<Descriptor>>, name: Name, expired: set<nat>, k: nat)
    requires k < |layers| && Matching(layers[k], name) == []
    ensures Resolve(layers, name, expired, k) == Resolve(layers, name, expired, k + 1)
    ensures Swept(layers, name, expired, k) == Swept(layers, name, expired, k + 1)
  {
    WithoutNone(layers[k], name);
    assert layers[k := layers[k]] == layers;
  }

  lemma {:induction false} SameAfter(layers: seq<seq<Descriptor>>, others: seq<seq<Descriptor>>, name: Name,
                                     expired: set<nat>, k: nat)
    requires |others| == |layers| && k <= |layers| && forall j :: k <= j < |layers| ==> layers[j] == others[j]
    ensures Resolve(layers, name, expired, k) == Resolve(others, name, expired, k)
    decreases |layers| - k
  {
    if k < |layers| { SameAfter(layers, others, name, expired, k + 1); }
  }

  /** Where a scan finds a descriptor: no layer before has a match. */
  lemma {:induction false} FoundIn(layers: seq<seq<Descriptor>>, name: Name, k: nat) returns (j: nat)
    requires SortedLayers(layers) && k <= LAYERS && Scan(layers, name, k).Found?
    ensures var d := Scan(layers, name, k).descriptor;
      && k <= j < LAYERS && d.layer == j && d in layers[j] && Matches(d, name) && Matching(layers[j], name) == [d]
      && forall i :: k <= i < j ==> Matching(layers[i], name) == []
    decreases LAYERS - k
  {
    hide Matching, Sorted, Matches;
    var ms := Matching(layers[k], name);
    if name.component.Within? { AtMostOne(layers[k], name); }
    if |ms| == 1 {
      j := k;
      assert ms[0] in ms && ms == [ms[0]];
    } else {
      j := FoundIn(layers, name, k + 1);
      assert ms == [];
    }
  }

  /** What a scan finds decides, unless it has expired. */
  lemma {:induction false} ScanResolves(layers: seq<seq<Descriptor>>, name: Name, expired: set<nat>, k: nat)
    requires SortedLayers(layers) && k <= LAYERS
    ensures match Scan(layers, name, k)
      case Found(d) => Live(d, expired) ==>
        Resolve(layers, name, expired, k) == Ran(d) && Swept(layers, name, expired, k) == layers
      case Ambiguous(ms) =>
        Resolve(layers, name, expired, k) == Refused(ms) && Swept(layers, name, expired, k) == layers
      case NotFound =>
        Resolve(layers, name, expired, k) == Unknown && Swept(layers, name, expired, k) == layers
    decreases LAYERS - k
  {
    if k < LAYERS {
      var ms := Matching(layers[k], name);
      if name.component.Within? { AtMostOne(layers[k], name); }
      if |ms| == 0 {
        WithoutNone(layers[k], name);
        assert layers[k := layers[k]] == layers;
        ScanResolves(layers, name, expired, k + 1);
      }
    }
  }

  /** A layer as it was, with a descriptor in place of the one that had the same name. */
  ghost predicate Registered(before: seq<Descriptor>, after: seq<Descriptor>, d: Descriptor) {
    && Sorted(after)
    && forall x :: x in after <==> x == d || (x in before && !Matches(x, NameOf(d)))
  }

  predicate ValidName(name: string) {
    forall k :: 0 <= k < |name| ==> name[k] in CommandNames.NAME_CHARS
  }

  /** Where a name has its first character that is not one of a name. */
  predicate FirstInvalid(name: string, at: nat) {
    && at < |name| && name[at] !in CommandNames.NAME_CHARS
    && forall k :: 0 <= k < at ==> name[k] in CommandNames.NAME_CHARS
  }

  /** The errors CMD:N1, with the name and the position, and CMD:R1. */
  datatype Registration = Done | InvalidName(name: string, at: nat) | EmptyName

  /** `check_name`: the position of the first wrong character, or the end of the name. */
  method CheckName(name: string) returns (at: nat)
    ensures at <= |name| && if at == |name| then ValidName(name) else FirstInvalid(name, at)
  {
    hide CommandNames.NAME_CHARS, CommandNames.LOWER, CommandNames.UPPER, CommandNames.OTHERS;
    at := 0;
    while at < |name| && name[at] in CommandNames.NAME_CHARS
      invariant at <= |name| && forall k :: 0 <= k < at ==> name[k] in CommandNames.NAME_CHARS
    {
      at := at + 1;
    }
  }

  lemma SmallerIsTotal(a: Descriptor, b: Descriptor)
    ensures Smaller(a, b) || Matches(a, NameOf(b)) || Smaller(b, a)
    ensures Smaller(a, b) ==> !Smaller(b, a) && !Matches(a, NameOf(b)) && !Matches(b, NameOf(a))
    ensures Smaller(a, b) <==> Less(NameOf(a), NameOf(b))
  {
    BeforeIsTotal(a.command, b.command);
    BeforeIsTotal(a.component, b.component);
  }

  lemma SmallerIsTransitive(a: Descriptor, b: Descriptor, c: Descriptor)
    requires Smaller(a, b) && Smaller(b, c)
    ensures Smaller(a, c)
  {
    if Before(a.command, b.command) && Before(b.command, c.command) {
      BeforeIsTransitive(a.command, b.command, c.command);
    }
    if Before(a.component, b.component) && Before(b.component, c.component) {
      BeforeIsTransitive(a.component, b.component, c.component);
    }
  }

  /** A descriptor between what is smaller and what is larger. */
  lemma Middle(low: seq<Descriptor>, d: Descriptor, high: seq<Descriptor>)
    requires Sorted(low) && Sorted(high)
    requires forall i :: 0 <= i < |low| ==> Smaller(low[i], d)
    requires forall i :: 0 <= i < |high| ==> Smaller(d, high[i])
    ensures Sorted(low + [d] + high)
    ensures forall x :: x in low + [d] + high && Matches(x, NameOf(d)) ==> x == d
  {
    hide Smaller;
    var all := low + [d] + high;
    forall i, j | 0 <= i < j < |all| ensures Smaller(all[i], all[j]) {
      if i < |low| && j > |low| { SmallerIsTransitive(low[i], d, high[j - |low| - 1]); }
    }
    forall x | x in all && Matches(x, NameOf(d)) ensures x == d { SmallerIsTotal(x, d); SmallerIsTotal(d, x); }
  }

  /** Inserting at the lower bound, or replacing what is there if it has the same name. */
  lemma Registers(ds: seq<Descriptor>, d: Descriptor, at: nat)
    requires Sorted(ds) && at <= |ds|
    requires forall i :: 0 <= i < at ==> Smaller(ds[i], d)
    requires forall i :: at <= i < |ds| ==> !Smaller(ds[i], d)
    ensures at == |ds| || Smaller(d, ds[at]) ==> Registered(ds, ds[..at] + [d] + ds[at..], d)
    ensures at < |ds| && !Smaller(d, ds[at]) ==> Registered(ds, ds[at := d], d)
  {
    hide Smaller;
    if at == |ds| || Smaller(d, ds[at]) {
      forall i | at <= i < |ds| ensures Smaller(d, ds[i]) {
        if i > at { SmallerIsTransitive(d, ds[at], ds[i]); }
      }
      Middle(ds[..at], d, ds[at..]);
      NothingMatches(ds, d, at);
      assert ds == ds[..at] + ds[at..];
    } else {
      SmallerIsTotal(ds[at], d);
      forall i | at < i < |ds| ensures Smaller(d, ds[i]) { SameSmaller(ds[at], d, ds[i]); }
      var low, high := ds[..at], ds[at + 1..];
      Middle(low, d, high);
      assert ds[at := d] == low + [d] + high && ds == low + [ds[at]] + high;
      NothingMatches(low + high, d, at);
    }
  }

  lemma SameSmaller(a: Descriptor, b: Descriptor, c: Descriptor)
    requires Matches(a, NameOf(b)) && Smaller(a, c)
    ensures Smaller(b, c)
  {
  }

  lemma NothingMatches(ds: seq<Descriptor>, d: Descriptor, at: nat)
    requires at <= |ds|
    requires forall i :: 0 <= i < at ==> Smaller(ds[i], d)
    requires forall i :: at <= i < |ds| ==> Smaller(d, ds[i])
    ensures forall x :: x in ds ==> !Matches(x, NameOf(d))
  {
    forall x | x in ds ensures !Matches(x, NameOf(d)) {
      SmallerIsTotal(x, d);
      SmallerIsTotal(d, x);
    }
  }

  lemma WithoutEmpty(name: Name)
    ensures Without([], name) == []
  {
  }

  /** `std::remove` and `erase`; what a move leaves behind is `moved`. */
  method Remove(ds: seq<Descriptor>, name: Name, moved: Descriptor) returns (rest: seq<Descriptor>)
    ensures rest == Without(ds, name)
  {
    hide Without;
    rest := ds;
    WithoutEmpty(name);
    assert ds[..0] == [];
    var i, j := 0, 0;
    while j < |ds|
      invariant 0 <= i <= j <= |ds| == |rest|
      invariant rest[..i] == Without(ds[..j], name)
      invariant forall k :: j <= k < |ds| ==> rest[k] == ds[k]
    {
      RemoveStep(ds, rest, name, i, j, moved);
      if !Matches(rest[j], name) {
        if i < j {
          rest := rest[i := rest[j]][j := moved];
        }
        i := i + 1;
      }
      j := j + 1;
    }
    assert ds[..j] == ds;
    rest := rest[..i];
  }

  /** Texts of up to fifteen characters are stored in place. */
  const IN_PLACE: nat := 15

  /** What a view of `n` characters shows of a buffer into which `text` has been moved: the text, the zero
      behind it and what was there before. */
  function View(text: string, stale: string, n: nat): string
    requires n <= |text| + 1 + |stale|
  {
    (text + [0 as char] + stale)[..n]
  }

  predicate Short(d: Descriptor) {
    |d.component| <= IN_PLACE && |d.command| <= IN_PLACE
  }

  /** Where the texts of an element and of the one that may be moved over it are stored in place. */
  predicate InPlace(ds: seq<Descriptor>, at: nat)
    requires at < |ds|
  {
    Short(ds[at]) && (at + 1 < |ds| ==> Short(ds[at + 1]))
  }

  predicate ValidNames(ds: seq<Descriptor>) {
    forall d :: d in ds ==> ValidName(d.component) && ValidName(d.command)
  }

  /** The name that views of the texts of `d` show when its place has been taken by `now`. */
  function Seen(d: Descriptor, now: Descriptor, stale: string): Name
    requires Short(d) && |stale| >= IN_PLACE
  {
    Name(Within(View(now.component, stale, |d.component|)), View(now.command, stale, |d.command|))
  }

  /** As long as the element is in its place the views show its own name. */
  lemma SeenInPlace(d: Descriptor, stale: string)
    requires Short(d) && |stale| >= IN_PLACE
    ensures Seen(d, d, stale) == NameOf(d)
  {
    assert View(d.component, stale, |d.component|) == d.component;
    assert View(d.command, stale, |d.command|) == d.command;
  }

  lemma ViewBeyond(text: string, stale: string, n: nat)
    requires |text| < n <= |text| + 1 + |stale|
    ensures !ValidName(View(text, stale, n))
  {
    CommandNames.NameCharsAreRead(0 as char);
    assert View(text, stale, n)[|text|] == 0 as char;
  }

  /** A view that shows a valid name shows the beginning of the text. */
  lemma ViewIsPrefix(text: string, stale: string, n: nat)
    requires n <= |text| + 1 + |stale| && ValidName(View(text, stale, n))
    ensures !Before(text, View(text, stale, n))
  {
    hide ValidName;
    if n > |text| {
      ViewBeyond(text, stale, n);
    } else {
      assert View(text, stale, n) == text[..n];
      NotBeforePrefix(text, n);
    }
  }

  /** When the next element has been moved over the one that the views are of, they match none of those
      after it. */
  lemma SeenMatchesNone(ds: seq<Descriptor>, at: nat, stale: string, j: nat)
    requires Sorted(ds) && ValidNames(ds) && at + 1 < j < |ds| && Short(ds[at]) && |stale| >= IN_PLACE
    ensures !Matches(ds[j], Seen(ds[at], ds[at + 1], stale))
  {
    var d, now, next := ds[at], ds[at + 1], ds[j];
    assert next in ds && Smaller(now, next);
    if Matches(next, Seen(d, now, stale)) {
      ViewIsPrefix(now.command, stale, |d.command|);
      ViewIsPrefix(now.component, stale, |d.component|);
      assert false;
    }
  }

  lemma OthersDiffer(ds: seq<Descriptor>, at: nat)
    requires Sorted(ds) && at < |ds|
    ensures forall j :: 0 <= j < |ds| && j != at ==> !Matches(ds[j], NameOf(ds[at]))
    ensures Matches(ds[at], NameOf(ds[at]))
  {
    forall j | 0 <= j < |ds| && j != at ensures !Matches(ds[j], NameOf(ds[at])) {
      OneMatch(ds, NameOf(ds[at]), if j < at then j else at, if j < at then at else j);
    }
  }

  lemma WithoutOne(ds: seq<Descriptor>, at: nat)
    requires Sorted(ds) && at < |ds|
    ensures Without(ds, NameOf(ds[at])) == ds[..at] + ds[at + 1..]
  {
    hide *;
    var low, high, name := ds[..at], ds[at + 1..], NameOf(ds[at]);
    OthersDiffer(ds, at);
    assert ds == (low + [ds[at]]) + high;
    WithoutJoined(low + [ds[at]], high, name);
    WithoutNext(low, ds[at], name);
    WithoutNothing(low, name);
    WithoutNothing(high, name);
  }

  lemma WithoutNext(ds: seq<Descriptor>, d: Descriptor, name: Name)
    ensures Without(ds + [d], name) == Without(ds, name) + if Matches(d, name) then [] else [d]
  {
    assert (ds + [d])[..|ds|] == ds;
  }

  lemma {:induction false} WithoutJoined(a: seq<Descriptor>, b: seq<Descriptor>, name: Name)
    ensures Without(a + b, name) == Without(a, name) + Without(b, name)
  {
    hide *;
    if b == [] {
      WithoutEmpty(name);
      assert a + b == a;
    } else {
      var prefix, last := b[..|b| - 1], b[|b| - 1];
      WithoutJoined(a, prefix, name);
      WithoutNext(a + prefix, last, name);
      WithoutNext(prefix, last, name);
      assert a + b == (a + prefix) + [last] && b == prefix + [last];
    }
  }

  lemma MoveStep<T>(before: seq<T>, now: seq<T>, at: nat, j: nat, moved: T)
    requires at < j < |now| == |before|
    requires now[..j - 1] == before[..at] + before[at + 1..j] && now[j..] == before[j..]
    ensures now[j] == before[j]
    ensures var next := now[j - 1 := now[j]][j := moved];
      && next[..j] == before[..at] + before[at + 1..j + 1] && next[j + 1..] == before[j + 1..]
      && next[at] == if j == at + 1 then before[at + 1] else now[at]
  {
    assert now[j..][0] == before[j..][0];
    assert now[j..][1..] == before[j..][1..];
    assert before[at + 1..j + 1] == before[at + 1..j] + [before[j]];
    var next := now[j - 1 := now[j]][j := moved];
    assert next[..j] == now[..j - 1] + [now[j]];
  }

  lemma WithoutValid(ds: seq<Descriptor>, name: Name)
    requires ValidNames(ds)
    ensures ValidNames(Without(ds, name))
  {
  }

  lemma InPlaceIsShort(ds: seq<Descriptor>, at: nat)
    requires at < |ds| && InPlace(ds, at)
    ensures Short(ds[at])
  {
  }

  /** `std::remove` and `erase` when the name compared with is given by views of an element's own texts: once
      the first move has overwritten them, they show something of the element that followed. */
  method RemoveFound(ds: seq<Descriptor>, at: nat, moved: Descriptor, stale: string) returns (rest: seq<Descriptor>)
    requires Sorted(ds) && ValidNames(ds) && at < |ds| && InPlace(ds, at) && |stale| >= IN_PLACE
    ensures rest == Without(ds, NameOf(ds[at]))
  {
    hide *;
    var d := ds[at];
    InPlaceIsShort(ds, at);
    OthersDiffer(ds, at);
    WithoutOne(ds, at);
    SeenInPlace(d, stale);
    rest := ds;
    var i := 0;
    while i < |rest| && !Matches(rest[i], Seen(d, rest[at], stale))
      invariant i <= at && rest == ds
    {
      i := i + 1;
    }
    var j := i + 1;
    while j < |rest|
      invariant i == j - 1 && at < j <= |rest| == |ds|
      invariant rest[..i] == ds[..at] + ds[at + 1..j] && rest[j..] == ds[j..]
      invariant rest[at] == if j == at + 1 then d else ds[at + 1]
    {
      if j > at + 1 { SeenMatchesNone(ds, at, stale, j); }
      MoveStep(ds, rest, at, j, moved);
      if !Matches(rest[j], Seen(d, rest[at], stale)) {
        rest := rest[i := rest[j]][j := moved];
        i := i + 1;
      }
      j := j + 1;
    }
    rest := rest[..i];
  }

  lemma ScanStep(layers: seq<seq<Descriptor>>, name: Name, k: nat)
    requires |layers| == LAYERS && k < LAYERS
    ensures var ms := Matching(layers[k], name);
      Scan(layers, name, k) ==
        if |ms| == 1 then Found(ms[0])
        else if |ms| > 1 && name.component == Anywhere then Ambiguous(ms)
        else Scan(layers, name, k + 1)
  {
    hide Matching;
  }

  lemma ScanEnds(layers: seq<seq<Descriptor>>, name: Name)
    requires |layers| == LAYERS
    ensures Scan(layers, name, LAYERS) == NotFound
  {
  }

  class CommandManager {
    const layers: array<seq<Descriptor>>

    ghost predicate Valid()
      reads layers
    {
      SortedLayers(layers[..]) && AllValidNames(layers[..])
    }

    constructor ()
      ensures Valid() && fresh(layers) && forall k :: 0 <= k < LAYERS ==> layers[k] == []
    {
      layers := new seq<Descriptor>[LAYERS](_ => []);
    }

    method Register(layer: nat, component: string, command: string, tag: nat, handler: nat, raw: bool)
        returns (r: Registration)
      requires Valid() && layer < LAYERS
      modifies layers
      ensures Valid()
      ensures match r
        case InvalidName(name, at) =>
          FirstInvalid(name, at) && (name == component || (name == command && ValidName(component)))
        case EmptyName => ValidName(component) && command == ""
        case Done => ValidName(component) && ValidName(command) && command != ""
      ensures if r == Done
        then Registered(old(layers[layer]), layers[layer],
                        Descriptor(component, command, tag, handler, raw, layer))
        else layers[layer] == old(layers[layer])
      ensures forall k :: 0 <= k < LAYERS && k != layer ==> layers[k] == old(layers[k])
    {
      var wrong := CheckName(component);
      if wrong < |component| {
        return InvalidName(component, wrong);
      }
      wrong := CheckName(command);
      if wrong < |command| {
        return InvalidName(command, wrong);
      }
      if command == "" {
        return EmptyName;
      }
      var d := Descriptor(component, command, tag, handler, raw, layer);
      var ds := layers[layer];
      ghost var was := layers[..];
      assert Sorted(was[layer]);
      var at := LowerBound(ds, 0, |ds|, NameOf(d));
      forall i | 0 <= i < |ds| ensures Smaller(ds[i], d) <==> i < at { SmallerIsTotal(ds[i], d); }
      Registers(ds, d, at);
      if at == |ds| || Smaller(d, ds[at]) {
        layers[layer] := ds[..at] + [d] + ds[at..];
      } else {
        layers[layer] := ds[at := d];
      }
      LayerReplaced(was, layer, layers[layer]);
      assert layers[..] == was[layer := layers[layer]];
      return Done;
    }

    method Unregister(layer: nat, component: string, command: string, moved: Descriptor)
      requires Valid() && layer < LAYERS
      modifies layers
      ensures Valid()
      ensures layers[..] ==
        old(layers[..])[layer := Without(old(layers[layer]), Name(Within(component), command))]
    {
      hide Without;
      ghost var was := layers[..];
      layers[layer] := Remove(layers[layer], Name(Within(component), command), moved);
      WithoutSorted(was[layer], Name(Within(component), command));
      LayerReplaced(was, layer, layers[layer]);
      assert layers[..] == was[layer := layers[layer]];
    }

    /** Also says where the descriptor is in its layer. */
    method Find(name: Name) returns (f: Finding, at: nat)
      requires Valid()
      ensures f == Scan(layers[..], name, 0)
      ensures f.Found? ==>
        f.descriptor.layer < LAYERS && at < |layers[f.descriptor.layer]|
        && layers[f.descriptor.layer][at] == f.descriptor
    {
      hide Matching, ValidNames, Scan, Less, Matches;
      ghost var all := layers[..];
      var k := 0;
      while k < layers.Length
        invariant 0 <= k <= layers.Length == LAYERS
        invariant Scan(all, name, 0) == Scan(all, name, k)
      {
        var ds := layers[k];
        assert Sorted(all[k]);
        var lo, hi := EqualRange(ds, name);
        MatchingIsRange(ds, name, lo, hi);
        ScanStep(all, name, k);
        if hi - lo == 1 {
          assert ds[lo] in ds;
          return Found(ds[lo]), lo;
        }
        if hi - lo > 1 && name.component == Anywhere {
          return Ambiguous(ds[lo..hi]), lo;
        }
        k := k + 1;
      }
      ScanEnds(all, name);
      return NotFound, 0;
    }

    /** `unregister_command` as `handle_command` calls it, with views of the texts of the descriptor found. */
    method UnregisterFound(layer: nat, at: nat, moved: Descriptor, stale: string)
      requires Valid() && layer < LAYERS && at < |layers[layer]| && InPlace(layers[layer], at) && |stale| >= IN_PLACE
      modifies layers
      ensures Valid()
      ensures layers[..] ==
        old(layers[..])[layer := Without(old(layers[layer]), NameOf(old(layers[layer][at])))]
    {
      hide Without, InPlace, ValidNames, Sorted;
      ghost var was := layers[..];
      ghost var name := NameOf(layers[layer][at]);
      assert Sorted(was[layer]) && ValidNames(was[layer]);
      layers[layer] := RemoveFound(layers[layer], at, moved, stale);
      WithoutSorted(was[layer], name);
      WithoutValid(was[layer], name);
      LayerReplaced(was, layer, layers[layer]);
      assert layers[..] == was[layer := layers[layer]];
    }

    /** Runs the handler of a command, at most one, or says why not. Names of descriptors that turn out to
        have expired are unregistered on the way. */
    method Handle(name: Name, expired: set<nat>, moved: Descriptor, stale: string) returns (outcome: Outcome)
      requires Valid() && |stale| >= IN_PLACE
      modifies layers
      ensures Valid()
      ensures outcome == Resolve(old(layers[..]), name, expired, 0)
      ensures layers[..] == Swept(old(layers[..]), name, expired, 0)
    {
      hide Scan, Resolve, Swept, Without, Matching;
      ghost var was := layers[..];
      while true
        invariant Valid()
        invariant Resolve(layers[..], name, expired, 0) == Resolve(was, name, expired, 0)
        invariant Swept(layers[..], name, expired, 0) == Swept(was, name, expired, 0)
        decreases Total(layers[..])
      {
        ghost var now := layers[..];
        var f, at := Find(name);
        ScanResolves(now, name, expired, 0);
        match f
        case Ambiguous(ms) =>
          return Refused(ms);
        case NotFound =>
          return Unknown;
        case Found(d) =>
          if d.tag !in expired {
            return Ran(d);
          }
          ExpiredGoes(now, name, expired, d);
          if InPlace(layers[d.layer], at) {
            UnregisterFound(d.layer, at, moved, stale);
          } else {
            Unregister(d.layer, d.component, d.command, moved);
          }
      }
    }
  }

  /** Unregistering the expired descriptor that was found. */
  lemma ExpiredGoes(layers: seq<seq<Descriptor>>, name: Name, expired: set<nat>, d: Descriptor)
    requires SortedLayers(layers) && Scan(layers, name, 0) == Found(d) && !Live(d, expired)
    ensures d.layer < LAYERS == |layers|
    ensures var next := layers[d.layer := Without(layers[d.layer], NameOf(d))];
      && Resolve(next, name, expired, 0) == Resolve(layers, name, expired, 0)
      && Swept(next, name, expired, 0) == Swept(layers, name, expired, 0)
      && Total(next) < Total(layers)
  {
    hide Scan, Resolve, Swept, Without, Matching;
    var k := FoundIn(layers, name, 0);
    OneMatching(layers[k], name, d);
    forall x | x in layers[k] ensures Matches(x, name) <==> Matches(x, NameOf(d)) {}
    WithoutSame(layers[k], name, NameOf(d));
    SweepOne(layers, name, expired, 0, k);
    WithoutShrinks(layers[k], name, d);
  }

  lemma WithoutShrinks(ds: seq<Descriptor>, name: Name, d: Descriptor)
    requires d in ds && Matches(d, name)
    ensures |Without(ds, name)| < |ds|
  {
    if d != ds[|ds| - 1] { WithoutShrinks(ds[..|ds| - 1], name, d); }
  }

  ghost function Total(layers: seq<seq<Descriptor>>): nat
    requires |layers| == LAYERS
  {
    |layers[0]| + |layers[1]| + |layers[2]| + |layers[3]|
  }

  predicate AllValidNames(layers: seq<seq<Descriptor>>) {
    forall k :: 0 <= k < |layers| ==> ValidNames(layers[k])
  }

  lemma LayerReplaced(layers: seq<seq<Descriptor>>, k: nat, ds: seq<Descriptor>)
    requires SortedLayers(layers) && k < LAYERS && Sorted(ds) && forall d :: d in ds ==> d.layer == k
    requires AllValidNames(layers) && ValidNames(ds)
    ensures SortedLayers(layers[k := ds]) && AllValidNames(layers[k := ds])
  {
  }

  lemma RemoveStep(before: seq<Descriptor>, ds: seq<Descriptor>, name: Name, i: nat, j: nat, moved: Descriptor)
    requires i <= j < |ds| == |before| && ds[..i] == Without(before[..j], name) && ds[j] == before[j]
    ensures !Matches(ds[j], name) ==>
      (if i < j then ds[i := ds[j]][j := moved] else ds)[..i + 1] == Without(before[..j + 1], name)
    ensures Matches(ds[j], name) ==> ds[..i] == Without(before[..j + 1], name)
  {
    hide Matches;
    assert before[..j + 1][..j] == before[..j];
    var next := if i < j then ds[i := ds[j]][j := moved] else ds;
    assert next[..i + 1] == ds[..i] + [ds[j]];
  }
}
