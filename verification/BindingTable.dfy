/** The list of bindings as a history of bind, unbind and unregister operations leaves it, and which
    binding of it a key press picks. */
module BindingTable {
  type Octet = n: nat | n < 0x100

  datatype Key = Key(device: Octet, id: Octet)

  /** What two bindings have in common when they compare equal. Bit sets are sets of bit numbers. */
  datatype Trigger = Trigger(devices: set<nat>, keys: seq<Key>, mask: set<nat>, value: set<nat>)

  /** Handlers are told apart by a number. */
  datatype Binding = Binding(trigger: Trigger, handler: nat)

  /** Less specific: fewer keys, or as many and fewer flags. */
  predicate Less(a: Trigger, b: Trigger) {
    |a.keys| < |b.keys| || (|a.keys| == |b.keys| && |a.mask| < |b.mask|)
  }

  /** A handler that returns false has its binding removed, like `unbind` does. */
  datatype Op = Bind(binding: Binding) | Unbind(trigger: Trigger) | Unregister(device: nat)

  /** Whether an operation leaves a binding with this trigger as it is. */
  predicate Spares(op: Op, t: Trigger) {
    match op
    case Bind(b) => b.trigger != t
    case Unbind(u) => u != t
    case Unregister(d) => d !in t.devices
  }

  function Spared(bs: seq<Binding>, op: Op): (rest: seq<Binding>)
    ensures |rest| <= |bs|
  {
    if bs == [] then []
    else
      var last := bs[|bs| - 1];
      Spared(bs[..|bs| - 1], op) + if Spares(op, last.trigger) then [last] else []
  }

  lemma {:induction false} SparedHas(bs: seq<Binding>, op: Op)
    ensures forall b :: b in Spared(bs, op) <==> b in bs && Spares(op, b.trigger)
  {
    if bs != [] {
      var prefix, last := bs[..|bs| - 1], bs[|bs| - 1];
      SparedHas(prefix, op);
      assert forall b :: b in bs <==> b in prefix || b == last;
    }
  }

  predicate Sorted(bs: seq<Binding>) {
    forall i, j :: 0 <= i < j < |bs| ==> !Less(bs[j].trigger, bs[i].trigger)
  }

  /** How many bindings come before the class of `t`. */
  function Lower(bs: seq<Binding>, t: Trigger): (i: nat)
    ensures i <= |bs|
    ensures forall k :: 0 <= k < i ==> Less(bs[k].trigger, t)
    ensures i < |bs| ==> !Less(bs[i].trigger, t)
  {
    if bs == [] || !Less(bs[0].trigger, t) then 0
    else
      var n := Lower(bs[1..], t);
      assert forall k :: 0 < k < n + 1 ==> bs[k] == bs[1..][k - 1];
      n + 1
  }

  /** How many bindings come before those that are more specific than `t`. */
  function Upper(bs: seq<Binding>, t: Trigger): (i: nat)
    ensures i <= |bs|
    ensures forall k :: 0 <= k < i ==> !Less(t, bs[k].trigger)
    ensures i < |bs| ==> Less(t, bs[i].trigger)
  {
    if bs == [] || Less(t, bs[0].trigger) then 0
    else
      var n := Upper(bs[1..], t);
      assert forall k :: 0 < k < n + 1 ==> bs[k] == bs[1..][k - 1];
      n + 1
  }

  lemma LowerIs(bs: seq<Binding>, t: Trigger, i: nat)
    requires i <= |bs| && (forall k :: 0 <= k < i ==> Less(bs[k].trigger, t))
    requires i < |bs| ==> !Less(bs[i].trigger, t)
    ensures Lower(bs, t) == i
  {
  }

  lemma UpperIs(bs: seq<Binding>, t: Trigger, i: nat)
    requires i <= |bs| && (forall k :: 0 <= k < i ==> !Less(t, bs[k].trigger))
    requires i < |bs| ==> Less(t, bs[i].trigger)
    ensures Upper(bs, t) == i
  {
  }

  lemma LowerBelowUpper(bs: seq<Binding>, t: Trigger)
    requires Sorted(bs)
    ensures Lower(bs, t) <= Upper(bs, t)
  {
    var i := Upper(bs, t);
    assert i < |bs| && i < Lower(bs, t) ==> Less(bs[i].trigger, t);
  }

  /** A new binding goes in front of its class, and an older one with the same trigger goes out. */
  function Step(bs: seq<Binding>, op: Op): seq<Binding> {
    match op
    case Bind(b) =>
      var lo, hi := Lower(bs, b.trigger), Upper(bs, b.trigger);
      if lo <= hi then bs[..lo] + [b] + Spared(bs[lo..hi], op) + bs[hi..] else bs
    case _ => Spared(bs, op)
  }

  function Table(ops: seq<Op>): seq<Binding> {
    if ops == [] then [] else Step(Table(ops[..|ops| - 1]), ops[|ops| - 1])
  }

  lemma TableAfter(ops: seq<Op>, op: Op)
    ensures Table(ops + [op]) == Step(Table(ops), op)
  {
    assert (ops + [op])[..|ops|] == ops;
  }

  /** When a trigger was bound last, unless it was unbound since. */
  function Bound(ops: seq<Op>, t: Trigger): (k: int)
    ensures -1 <= k < |ops|
    ensures k >= 0 ==> ops[k].Bind? && ops[k].binding.trigger == t
  {
    if ops == [] then -1
    else
      var op := ops[|ops| - 1];
      if Spares(op, t) then Bound(ops[..|ops| - 1], t) else if op.Bind? then |ops| - 1 else -1
  }

  /** `a` comes before `b` in the table: it is less specific, or no more specific and bound later. */
  predicate Before(ops: seq<Op>, a: Trigger, b: Trigger) {
    Less(a, b) || (!Less(b, a) && Bound(ops, a) > Bound(ops, b))
  }

  predicate Ordered(ops: seq<Op>, bs: seq<Binding>) {
    forall i, j :: 0 <= i < j < |bs| ==> Before(ops, bs[i].trigger, bs[j].trigger)
  }

  predicate Holds(ops: seq<Op>, b: Binding) {
    Bound(ops, b.trigger) >= 0 && ops[Bound(ops, b.trigger)] == Bind(b)
  }

  ghost predicate Exact(ops: seq<Op>, bs: seq<Binding>) {
    && Ordered(ops, bs)
    && (forall b :: b in bs <==> Holds(ops, b))
  }

  lemma OrderedIsSorted(ops: seq<Op>, bs: seq<Binding>)
    requires Ordered(ops, bs)
    ensures Sorted(bs)
  {
    forall i, j | 0 <= i < j < |bs| ensures !Less(bs[j].trigger, bs[i].trigger) {
      assert Before(ops, bs[i].trigger, bs[j].trigger);
    }
  }

  /** No trigger is in the table twice. */
  lemma TriggersDiffer(ops: seq<Op>, bs: seq<Binding>, i: nat, j: nat)
    requires Ordered(ops, bs) && i < j < |bs|
    ensures bs[i].trigger != bs[j].trigger
  {
    assert Before(ops, bs[i].trigger, bs[j].trigger);
  }

  lemma {:induction false} SparedOrdered(ops: seq<Op>, bs: seq<Binding>, op: Op)
    requires Ordered(ops, bs)
    ensures Ordered(ops, Spared(bs, op))
  {
    if bs != [] {
      var prefix, last := bs[..|bs| - 1], bs[|bs| - 1];
      SparedOrdered(ops, prefix, op);
      SparedHas(prefix, op);
      forall b | b in prefix ensures Before(ops, b.trigger, last.trigger) {
        var i :| 0 <= i < |prefix| && prefix[i] == b;
        assert bs[i] == b;
      }
      JoinOrdered(ops, Spared(prefix, op), [last]);
    }
  }

  lemma JoinOrdered(ops: seq<Op>, bs: seq<Binding>, cs: seq<Binding>)
    requires Ordered(ops, bs) && Ordered(ops, cs)
    requires forall b, c :: b in bs && c in cs ==> Before(ops, b.trigger, c.trigger)
    ensures Ordered(ops, bs + cs)
  {
    var all := bs + cs;
    forall i, j | 0 <= i < j < |all| ensures Before(ops, all[i].trigger, all[j].trigger) {
      if j < |bs| {
        assert all[i] == bs[i] && all[j] == bs[j];
      } else if i >= |bs| {
        assert all[i] == cs[i - |bs|] && all[j] == cs[j - |bs|];
      } else {
        assert all[i] in bs && all[j] in cs;
      }
    }
  }

  /** An operation does not touch the order among what it spares. */
  lemma StillOrdered(ops: seq<Op>, bs: seq<Binding>, op: Op)
    requires Ordered(ops, bs) && forall b :: b in bs ==> Spares(op, b.trigger)
    ensures Ordered(ops + [op], bs)
  {
    forall i, j | 0 <= i < j < |bs| ensures Before(ops + [op], bs[i].trigger, bs[j].trigger) {
      BoundAfter(ops, op, bs[i].trigger);
      BoundAfter(ops, op, bs[j].trigger);
      assert Before(ops, bs[i].trigger, bs[j].trigger);
    }
  }

  lemma BoundAfter(ops: seq<Op>, op: Op, t: Trigger)
    ensures Bound(ops + [op], t) == if Spares(op, t) then Bound(ops, t) else if op.Bind? then |ops| else -1
  {
    assert (ops + [op])[..|ops|] == ops;
  }

  lemma HoldsAfter(ops: seq<Op>, op: Op, b: Binding)
    ensures Holds(ops + [op], b) <==> if Spares(op, b.trigger) then Holds(ops, b) else op == Bind(b)
  {
    BoundAfter(ops, op, b.trigger);
  }

  /** After every history, the table is ordered and holds exactly the bindings that were bound and not
      unbound since. */
  lemma {:induction false} TableIsExact(ops: seq<Op>)
    ensures Exact(ops, Table(ops))
  {
    if ops != [] {
      var prefix, op := ops[..|ops| - 1], ops[|ops| - 1];
      TableIsExact(prefix);
      assert ops == prefix + [op];
      if op.Bind? { BindIsExact(prefix, Table(prefix), op); } else { RemovalIsExact(prefix, Table(prefix), op); }
    }
  }

  lemma RemovalIsExact(ops: seq<Op>, bs: seq<Binding>, op: Op)
    requires Exact(ops, bs) && !op.Bind?
    ensures Exact(ops + [op], Spared(bs, op))
  {
    SparedOrdered(ops, bs, op);
    SparedHas(bs, op);
    StillOrdered(ops, Spared(bs, op), op);
    forall b ensures b in Spared(bs, op) <==> Holds(ops + [op], b) { HoldsAfter(ops, op, b); }
  }

  lemma BindIsExact(ops: seq<Op>, bs: seq<Binding>, op: Op)
    requires Exact(ops, bs) && op.Bind?
    ensures Exact(ops + [op], Step(bs, op))
  {
    hide Holds, Bound, Less, Lower, Upper;
    var t, lo, hi := op.binding.trigger, Lower(bs, op.binding.trigger), Upper(bs, op.binding.trigger);
    OrderedIsSorted(ops, bs);
    ClassAround(bs, t);
    BindOrders(ops, bs, op, lo, hi);
    BindHolds(ops, bs, op, lo, hi);
    assert Step(bs, op) == bs[..lo] + ([op.binding] + Spared(bs[lo..hi], op)) + bs[hi..];
  }

  lemma BindOrders(ops: seq<Op>, bs: seq<Binding>, op: Op, lo: nat, hi: nat)
    requires Ordered(ops, bs) && op.Bind? && lo <= hi <= |bs|
    requires forall b :: b in bs[..lo] ==> Less(b.trigger, op.binding.trigger) && b.trigger != op.binding.trigger
    requires forall b :: b in bs[lo..hi] ==>
               !Less(b.trigger, op.binding.trigger) && !Less(op.binding.trigger, b.trigger)
    requires forall b :: b in bs[hi..] ==> Less(op.binding.trigger, b.trigger) && b.trigger != op.binding.trigger
    ensures Ordered(ops + [op], bs[..lo] + ([op.binding] + Spared(bs[lo..hi], op)) + bs[hi..])
  {
    var b, low, same, high := op.binding, bs[..lo], Spared(bs[lo..hi], op), bs[hi..];
    PartsOrdered(ops, bs, lo, hi, op);
    SparedHas(bs[lo..hi], op);
    BoundAfter(ops, op, b.trigger);
    forall c | c in same ensures Before(ops + [op], b.trigger, c.trigger) { BoundAfter(ops, op, c.trigger); }
    JoinOrdered(ops + [op], [b], same);
    forall x, y | x in low && y in [b] + same ensures Before(ops + [op], x.trigger, y.trigger) {
      LessThrough(x.trigger, b.trigger, y.trigger);
    }
    JoinOrdered(ops + [op], low, [b] + same);
    forall x, y | x in low + ([b] + same) && y in high ensures Before(ops + [op], x.trigger, y.trigger) {
      LessThrough(x.trigger, b.trigger, y.trigger);
    }
    JoinOrdered(ops + [op], low + ([b] + same), high);
  }

  lemma LessThrough(a: Trigger, b: Trigger, c: Trigger)
    ensures Less(a, b) && !Less(c, b) ==> Less(a, c)
    ensures !Less(b, a) && Less(b, c) ==> Less(a, c)
  {
  }

  lemma BindHolds(ops: seq<Op>, bs: seq<Binding>, op: Op, lo: nat, hi: nat)
    requires op.Bind? && lo <= hi <= |bs| && forall b :: b in bs <==> Holds(ops, b)
    requires forall b :: b in bs[..lo] || b in bs[hi..] ==> Spares(op, b.trigger)
    ensures forall c :: c in bs[..lo] + ([op.binding] + Spared(bs[lo..hi], op)) + bs[hi..] <==> Holds(ops + [op], c)
  {
    hide Holds;
    SparedHas(bs[lo..hi], op);
    assert bs == bs[..lo] + bs[lo..hi] + bs[hi..];
    forall c
      ensures c in bs[..lo] + ([op.binding] + Spared(bs[lo..hi], op)) + bs[hi..] <==> Holds(ops + [op], c)
    {
      HoldsAfter(ops, op, c);
      assert c in bs <==> c in bs[..lo] || c in bs[lo..hi] || c in bs[hi..];
    }
  }

  lemma PartsOrdered(ops: seq<Op>, bs: seq<Binding>, lo: nat, hi: nat, op: Op)
    requires Ordered(ops, bs) && lo <= hi <= |bs|
    requires forall b :: b in bs[..lo] || b in bs[hi..] ==> Spares(op, b.trigger)
    ensures Ordered(ops + [op], bs[..lo])
    ensures Ordered(ops + [op], Spared(bs[lo..hi], op))
    ensures Ordered(ops + [op], bs[hi..])
  {
    assert Ordered(ops, bs[lo..hi]);
    SparedOrdered(ops, bs[lo..hi], op);
    SparedHas(bs[lo..hi], op);
    StillOrdered(ops, Spared(bs[lo..hi], op), op);
    StillOrdered(ops, bs[..lo], op);
    StillOrdered(ops, bs[hi..], op);
  }

  /** In a sorted list the class of a trigger is what lies between the two bounds. */
  lemma ClassAround(bs: seq<Binding>, t: Trigger)
    requires Sorted(bs)
    ensures var lo, hi := Lower(bs, t), Upper(bs, t);
      && lo <= hi
      && (forall b :: b in bs[..lo] ==> Less(b.trigger, t) && b.trigger != t)
      && (forall b :: b in bs[lo..hi] ==> !Less(b.trigger, t) && !Less(t, b.trigger))
      && (forall b :: b in bs[hi..] ==> Less(t, b.trigger) && b.trigger != t)
  {
    LowerBelowUpper(bs, t);
    var lo, hi := Lower(bs, t), Upper(bs, t);
    forall b | b in bs[lo..hi] ensures !Less(b.trigger, t) && !Less(t, b.trigger) {
      var i :| lo <= i < hi && bs[i] == b;
      assert !Less(bs[i].trigger, bs[lo].trigger) || i == lo;
    }
    forall b | b in bs[hi..] ensures Less(t, b.trigger) {
      var i :| hi <= i < |bs| && bs[i] == b;
      assert !Less(bs[i].trigger, bs[hi].trigger) || i == hi;
    }
  }

  /** The keys as they are after an event, the flags and the key that changed. */
  datatype Event = Event(system: seq<bool>, devices: seq<seq<bool>>, flags: set<nat>, key: Key, pressed: bool)

  const UP_FLAG: nat := 0

  /** The right-hand modifier keys of the system device stand for the left-hand ones. */
  function Folded(key: Key): Key {
    if key.device != 0 then key
    else if key.id == 0x36 then Key(0, 0x2A)
    else if key.id == 0x9D then Key(0, 0x1D)
    else if key.id == 0xB8 then Key(0, 0x38)
    else if key.id == 0xDC then Key(0, 0xDB)
    else key
  }

  predicate IsDown(system: seq<bool>, devices: seq<seq<bool>>, key: Key) {
    var k := Folded(key);
    if k.device == 0 then k.id < |system| && system[k.id]
    else
      k.device - 1 < |devices| && k.id < |devices[k.device - 1]| && devices[k.device - 1][k.id]
  }

  function Flags(e: Event): set<nat> {
    if e.pressed then e.flags - {UP_FLAG} else e.flags + {UP_FLAG}
  }

  predicate Matches(e: Event, t: Trigger) {
    && e.key.device in t.devices && e.key in t.keys
    && Flags(e) * t.mask == t.value
    && forall k :: k in t.keys ==> IsDown(e.system, e.devices, k)
  }

  /** The best match among the first `k` bindings, or -1. */
  function Best(bs: seq<Binding>, e: Event, k: nat): (r: int)
    requires k <= |bs|
    ensures -1 <= r < k
  {
    if k == 0 then -1
    else
      var r, t := Best(bs, e, k - 1), bs[k - 1].trigger;
      if Matches(e, t) && (r == -1 || Less(bs[r].trigger, t)) then k - 1 else r
  }

  /** `a` is a better choice than `b`: it is more specific, or no less specific and bound later. */
  predicate Beats(ops: seq<Op>, a: Trigger, b: Trigger) {
    Less(b, a) || (!Less(a, b) && Bound(ops, a) > Bound(ops, b))
  }

  lemma {:induction false} BestOfPrefix(ops: seq<Op>, bs: seq<Binding>, e: Event, k: nat)
    requires Ordered(ops, bs) && k <= |bs|
    ensures var r := Best(bs, e, k);
      && (r >= 0 ==> Matches(e, bs[r].trigger))
      && forall i :: 0 <= i < k && Matches(e, bs[i].trigger) && i != r ==>
           r >= 0 && Beats(ops, bs[r].trigger, bs[i].trigger)
  {
    hide Matches, Bound;
    if k > 0 {
      BestOfPrefix(ops, bs, e, k - 1);
      var r, s := Best(bs, e, k - 1), Best(bs, e, k);
      forall i | 0 <= i < k && Matches(e, bs[i].trigger) && i != s
        ensures s >= 0 && Beats(ops, bs[s].trigger, bs[i].trigger)
      {
        if s == k - 1 {
          if i != r { assert Beats(ops, bs[r].trigger, bs[i].trigger); }
        } else if i == k - 1 {
          assert Before(ops, bs[r].trigger, bs[k - 1].trigger);
        }
      }
    }
  }

  /** After every history, an event picks the one binding that matches it and beats every other binding in
      force that matches it: the most recently bound one of the most specific ones. */
  lemma PicksMostRecentOfMostSpecific(ops: seq<Op>, e: Event)
    ensures var bs := Table(ops);
      var r := Best(bs, e, |bs|);
      && (r == -1 <==> forall t :: Bound(ops, t) >= 0 ==> !Matches(e, t))
      && (r >= 0 ==>
            && Holds(ops, bs[r]) && Matches(e, bs[r].trigger)
            && forall t :: Bound(ops, t) >= 0 && Matches(e, t) && t != bs[r].trigger ==>
                 Beats(ops, bs[r].trigger, t))
  {
    hide Matches, Beats, Best;
    TableIsExact(ops);
    var bs := Table(ops);
    var r := Best(bs, e, |bs|);
    BestOfPrefix(ops, bs, e, |bs|);
    forall t | Bound(ops, t) >= 0 && Matches(e, t) && (r >= 0 ==> t != bs[r].trigger)
      ensures r >= 0 && Beats(ops, bs[r].trigger, t)
    {
      var b := ops[Bound(ops, t)].binding;
      assert Holds(ops, b);
      var i :| 0 <= i < |bs| && bs[i] == b;
    }
    if r >= 0 { assert Holds(ops, bs[r]); }
  }

  /** A key that is up keeps every binding with it from matching: nothing fires when a key is released. */
  lemma ReleaseMatchesNothing(e: Event, t: Trigger)
    requires !e.pressed && !IsDown(e.system, e.devices, e.key)
    ensures !Matches(e, t)
  {
  }

  /** So a binding with the flag `up` never fires: on a press the flag is clear, on a release the key is. */
  lemma UpNeverMatches(e: Event, t: Trigger)
    requires 0 in t.value && (e.pressed <==> IsDown(e.system, e.devices, e.key))
    ensures !Matches(e, t)
  {
    if e.pressed { assert UP_FLAG !in Flags(e) * t.mask; }
  }

  lemma {:induction false} NoMatchNoBest(bs: seq<Binding>, e: Event, k: nat)
    requires k <= |bs| && forall b :: b in bs ==> !Matches(e, b.trigger)
    ensures Best(bs, e, k) == -1
  {
    if k > 0 { NoMatchNoBest(bs, e, k - 1); }
  }

  /** `b` was bound as operation `k`, and nothing since has bound its trigger again, unbound it or taken one
      of its devices away. */
  ghost predicate InForce(ops: seq<Op>, b: Binding, k: nat) {
    && k < |ops| && ops[k] == Op.Bind(b)
    && forall j :: k < j < |ops| ==>
         && (ops[j].Bind? ==> ops[j].binding.trigger != b.trigger)
         && (ops[j].Unbind? ==> ops[j].trigger != b.trigger)
         && (ops[j].Unregister? ==> ops[j].device !in b.trigger.devices)
  }

  /** The key that changed is one of the keys asked for, all of these are down, and each flag asked for is as
      it is asked for. Flag 0, which is `up`, is set while a key is released. */
  predicate Answers(e: Event, t: Trigger) {
    && e.key.device in t.devices && e.key in t.keys
    && (forall k :: k in t.keys ==> IsDown(e.system, e.devices, k))
    && t.value <= t.mask
    && forall f :: f in t.mask ==> (f in t.value <==> if f == 0 then !e.pressed else f in e.flags)
  }

  /** More keys, or as many and more flags, or as many of both and bound later. */
  predicate Outranks(a: Trigger, i: nat, b: Trigger, j: nat) {
    || |a.keys| > |b.keys|
    || (|a.keys| == |b.keys| && |a.mask| > |b.mask|)
    || (|a.keys| == |b.keys| && |a.mask| == |b.mask| && i > j)
  }

  lemma AnswersIsMatches(e: Event, t: Trigger)
    ensures Answers(e, t) <==> Matches(e, t)
  {
    hide IsDown;
    if Matches(e, t) {
      forall f | f in t.mask ensures f in t.value <==> if f == 0 then !e.pressed else f in e.flags {
        assert f in Flags(e) * t.mask <==> f in t.value;
      }
    }
    if Answers(e, t) { assert Flags(e) * t.mask == t.value; }
  }

  lemma {:induction false} BoundIsInForce(ops: seq<Op>, b: Binding, k: nat)
    ensures InForce(ops, b, k) <==> Holds(ops, b) && Bound(ops, b.trigger) == k
  {
    if ops != [] {
      var prefix, op := ops[..|ops| - 1], ops[|ops| - 1];
      assert ops == prefix + [op];
      BoundIsInForce(prefix, b, k);
      HoldsAfter(prefix, op, b);
      BoundAfter(prefix, op, b.trigger);
      InForceAfter(prefix, op, b, k);
    }
  }

  lemma InForceAfter(ops: seq<Op>, op: Op, b: Binding, k: nat)
    ensures InForce(ops + [op], b, k) <==>
      if Spares(op, b.trigger) then InForce(ops, b, k) else k == |ops| && op == Op.Bind(b)
  {
    var all := ops + [op];
    if k < |ops| { assert all[|ops|] == op; }
    if InForce(all, b, k) && k < |ops| {
      forall j | k < j < |ops| ensures all[j] == ops[j] {}
      assert InForce(ops, b, k);
    }
    if InForce(ops, b, k) && Spares(op, b.trigger) { assert InForce(all, b, k); }
  }

  /** `b` is in force and answers the event, and outranks every other binding in force that does. */
  ghost predicate RanksHighest(ops: seq<Op>, e: Event, b: Binding) {
    exists i :: InForce(ops, b, i) && Answers(e, b.trigger) && OutranksOthers(ops, e, b, i)
  }

  ghost predicate OutranksOthers(ops: seq<Op>, e: Event, b: Binding, i: nat) {
    forall c, j :: InForce(ops, c, j) && Answers(e, c.trigger) && c != b ==> Outranks(b.trigger, i, c.trigger, j)
  }

  ghost predicate NoneAnswers(ops: seq<Op>, e: Event) {
    forall c, j :: InForce(ops, c, j) ==> !Answers(e, c.trigger)
  }

  /** After every history, an event picks what ranks highest, if anything answers it. */
  lemma PicksHighestRank(ops: seq<Op>, e: Event)
    ensures var bs := Table(ops);
      var r := Best(bs, e, |bs|);
      if r >= 0 then RanksHighest(ops, e, bs[r]) && !NoneAnswers(ops, e) else NoneAnswers(ops, e)
  {
    hide Matches, Answers, Best, Bound, InForce, Table;
    PicksMostRecentOfMostSpecific(ops, e);
    var bs := Table(ops);
    var r := Best(bs, e, |bs|);
    forall c, j | InForce(ops, c, j) && Answers(e, c.trigger)
      ensures r >= 0 && (c != bs[r] ==> Outranks(bs[r].trigger, Bound(ops, bs[r].trigger), c.trigger, j))
    {
      BoundIsInForce(ops, c, j);
      AnswersIsMatches(e, c.trigger);
    }
    if r >= 0 {
      var i := Bound(ops, bs[r].trigger);
      BoundIsInForce(ops, bs[r], i);
      AnswersIsMatches(e, bs[r].trigger);
      assert OutranksOthers(ops, e, bs[r], i);
    }
  }

  /** The left and right modifier keys of the system device are one key each; all other keys are by themselves. */
  lemma SidesOfOneKey(a: Key, b: Key)
    ensures Folded(a) == Folded(b) <==>
      || a == b
      || (a.device == b.device == 0 && (a.id, b.id) in {(0x2A, 0x36), (0x36, 0x2A), (0x1D, 0x9D), (0x9D, 0x1D),
                                                         (0x38, 0xB8), (0xB8, 0x38), (0xDB, 0xDC), (0xDC, 0xDB)})
  {
  }
}
