/** `binding_manager` beyond parsing: the list of bindings, the state of the keys and what the client is
    shown of it. */
module BindingManager {
  import opened BindingTable

  datatype Fired = Nothing | Handler(binding: Binding)

  lemma SparedAdds(bs: seq<Binding>, b: Binding, op: Op)
    ensures Spared(bs + [b], op) == Spared(bs, op) + if Spares(op, b.trigger) then [b] else []
  {
    assert (bs + [b])[..|bs|] == bs;
  }

  lemma {:induction false} SparedAll(bs: seq<Binding>, op: Op)
    requires forall b :: b in bs ==> Spares(op, b.trigger)
    ensures Spared(bs, op) == bs
  {
    hide Spares, Spared;
    if bs == [] {
      assert Spared(bs, op) == [];
    } else {
      var prefix, last := bs[..|bs| - 1], bs[|bs| - 1];
      assert last in bs && prefix + [last] == bs;
      SparedAll(prefix, op);
      SparedAdds(prefix, last, op);
    }
  }

  lemma {:induction false} SparedJoins(bs: seq<Binding>, cs: seq<Binding>, op: Op)
    ensures Spared(bs + cs, op) == Spared(bs, op) + Spared(cs, op)
  {
    hide Spares, Spared;
    if cs == [] {
      assert bs + cs == bs && Spared(cs, op) == [];
    } else {
      var prefix, last := cs[..|cs| - 1], cs[|cs| - 1];
      assert bs + cs == bs + prefix + [last] && prefix + [last] == cs;
      SparedAdds(bs + prefix, last, op);
      SparedAdds(prefix, last, op);
      SparedJoins(bs, prefix, op);
    }
  }

  lemma OthersDiffer(ops: seq<Op>, bs: seq<Binding>, best: nat)
    requires Exact(ops, bs) && best < |bs|
    ensures forall i :: 0 <= i < |bs| && i != best ==> bs[i].trigger != bs[best].trigger
  {
    hide Before;
    forall i | 0 <= i < |bs| && i != best ensures bs[i].trigger != bs[best].trigger {
      if i < best { TriggersDiffer(ops, bs, i, best); } else { TriggersDiffer(ops, bs, best, i); }
    }
  }

  /** Removing one binding of a table is the same as unbinding its trigger. */
  lemma RemovedIsUnbound(ops: seq<Op>, bs: seq<Binding>, best: nat)
    requires Exact(ops, bs) && best < |bs|
    ensures bs[..best] + bs[best + 1..] == Spared(bs, Unbind(bs[best].trigger))
  {
    hide Exact, Spared;
    var b := bs[best];
    var op := Unbind(b.trigger);
    assert bs == bs[..best] + [b] + bs[best + 1..];
    OthersDiffer(ops, bs, best);
    SparedAll(bs[..best], op);
    SparedAll(bs[best + 1..], op);
    SparedAdds(bs[..best], b, op);
    SparedJoins(bs[..best] + [b], bs[best + 1..], op);
  }

  lemma AllTriggersDiffer(ops: seq<Op>, bs: seq<Binding>)
    requires Exact(ops, bs)
    ensures forall i, j :: 0 <= i < j < |bs| ==> bs[i].trigger != bs[j].trigger
  {
    forall i, j | 0 <= i < j < |bs| ensures bs[i].trigger != bs[j].trigger { TriggersDiffer(ops, bs, i, j); }
  }

  lemma ReleasePicksNothing(bs: seq<Binding>, e: Event)
    requires !e.pressed && !IsDown(e.system, e.devices, e.key)
    ensures Best(bs, e, |bs|) == -1
  {
    forall b | b in bs ensures !Matches(e, b.trigger) { ReleaseMatchesNothing(e, b.trigger); }
    NoMatchNoBest(bs, e, |bs|);
  }

  lemma BestByLoop(bs: seq<Binding>, e: Event)
    ensures Best(bs, e, 0) == -1
    ensures forall k :: 0 <= k < |bs| ==>
      var r, t := Best(bs, e, k), bs[k].trigger;
      Best(bs, e, k + 1) == if Matches(e, t) && (r == -1 || Less(bs[r].trigger, t)) then k else r
  {
  }

  /** `std::remove` at element `j`, with `i` elements kept so far. */
  ghost predicate Compacting(was: seq<Binding>, bs: seq<Binding>, start: nat, i: nat, j: nat, op: Op) {
    && start <= i <= j <= |was| == |bs|
    && bs[..i] == was[..start] + Spared(was[start..j], op)
    && forall k :: j <= k < |was| ==> bs[k] == was[k]
  }

  lemma StartsCompact(bs: seq<Binding>, start: nat, op: Op)
    requires start <= |bs|
    ensures Compacting(bs, bs, start, start, start, op)
  {
    assert bs[start..start] == [];
  }

  lemma EndsCompact(was: seq<Binding>, bs: seq<Binding>, start: nat, i: nat, end: nat, op: Op)
    requires Compacting(was, bs, start, i, end, op)
    ensures bs[..i] == was[..start] + Spared(was[start..end], op) && bs[end..] == was[end..]
  {
    hide Spared;
  }

  lemma CompactStep(was: seq<Binding>, bs: seq<Binding>, start: nat, i: nat, j: nat, op: Op, moved: Binding)
    requires Compacting(was, bs, start, i, j, op) && j < |was|
    ensures Spares(op, bs[j].trigger) ==>
      Compacting(was, if i < j then bs[i := bs[j]][j := moved] else bs, start, i + 1, j + 1, op)
    ensures !Spares(op, bs[j].trigger) ==> Compacting(was, bs, start, i, j + 1, op)
  {
    hide Spared;
    assert was[start..j + 1] == was[start..j] + [was[j]];
    SparedAdds(was[start..j], was[j], op);
    var next := if i < j then bs[i := bs[j]][j := moved] else bs;
    assert next[..i + 1] == bs[..i] + [bs[j]];
  }

  class BindingManager {
    var bindings: seq<Binding>
    var systemDevice: array<bool>
    var clientState: array<Octet>
    var devices: array<seq<bool>>
    var flags: set<nat>
    ghost var history: seq<Op>

    ghost predicate Valid()
      reads this
    {
      systemDevice.Length == 0x100 && clientState.Length == 0x100 && bindings == Table(history)
    }

    /** `lower_bound`. */
    method LowerBound(t: Trigger) returns (first: nat)
      requires Sorted(bindings)
      ensures first == Lower(bindings, t)
    {
      first := 0;
      var count: nat := |bindings|;
      while count > 0
        invariant first + count <= |bindings|
        invariant forall i :: 0 <= i < first ==> Less(bindings[i].trigger, t)
        invariant forall i :: first + count <= i < |bindings| ==> !Less(bindings[i].trigger, t)
      {
        var half := count / 2;
        var middle := first + half;
        if Less(bindings[middle].trigger, t) {
          first, count := middle + 1, count - half - 1;
        } else {
          count := half;
        }
      }
      LowerIs(bindings, t, first);
    }

    /** `upper_bound` in the part of the list from `start` on. */
    method UpperBound(start: nat, t: Trigger) returns (first: nat)
      requires start <= |bindings| && Sorted(bindings[start..])
      ensures first == start + Upper(bindings[start..], t)
    {
      ghost var tail := bindings[start..];
      first := start;
      var count: nat := |bindings| - start;
      while count > 0
        invariant start <= first && first + count <= |bindings|
        invariant forall i :: 0 <= i < first - start ==> !Less(t, tail[i].trigger)
        invariant forall i :: first + count - start <= i < |tail| ==> Less(t, tail[i].trigger)
      {
        var half := count / 2;
        var middle := first + half;
        assert bindings[middle] == tail[middle - start];
        if !Less(t, bindings[middle].trigger) {
          first, count := middle + 1, count - half - 1;
        } else {
          count := half;
        }
      }
      UpperIs(tail, t, first - start);
    }

    /** `std::remove` and `erase` on a part of the list, for a binding that is not in the list itself. What
        is left behind by a move is `moved`, whatever that is. */
    method Remove(start: nat, end: nat, t: Trigger, moved: Binding)
      requires start <= end <= |bindings|
      modifies this`bindings
      ensures var was := old(bindings);
        bindings == was[..start] + Spared(was[start..end], Op.Unbind(t)) + was[end..]
    {
      hide Spared, Compacting;
      ghost var was, op := bindings, Op.Unbind(t);
      var i, j := start, start;
      StartsCompact(was, start, op);
      while j < end
        invariant start <= i <= j <= end <= |bindings| == |was| && Compacting(was, bindings, start, i, j, op)
      {
        CompactStep(was, bindings, start, i, j, op, moved);
        if bindings[j].trigger != t {
          if i < j {
            bindings := bindings[i := bindings[j]][j := moved];
          }
          i := i + 1;
        }
        j := j + 1;
      }
      EndsCompact(was, bindings, start, i, end, op);
      bindings := bindings[..i] + bindings[end..];
    }

    /** `std::remove` and `erase` when the binding compared with is itself in the list: once the first move
        has overwritten it, the rest is compared with the binding that followed it. */
    method RemoveElement(best: nat, moved: Binding)
      requires best < |bindings|
      requires forall i, j :: 0 <= i < j < |bindings| ==> bindings[i].trigger != bindings[j].trigger
      modifies this`bindings
      ensures bindings == old(bindings)[..best] + old(bindings)[best + 1..]
    {
      ghost var was := bindings;
      var i := 0;
      while i < |bindings| && bindings[i].trigger != bindings[best].trigger
        invariant i <= best
      {
        i := i + 1;
      }
      var j := i + 1;
      while j < |bindings|
        invariant i == j - 1 && best < j <= |bindings| == |was|
        invariant bindings[..i] == was[..best] + was[best + 1..j]
        invariant bindings[j..] == was[j..]
        invariant bindings[best] == if j == best + 1 then was[best] else was[best + 1]
      {
        assert bindings[j..][0] == was[j..][0];
        assert bindings[j..][1..] == was[j..][1..];
        assert was[best + 1..j + 1] == was[best + 1..j] + [was[j]];
        if bindings[j].trigger != bindings[best].trigger {
          bindings := bindings[i := bindings[j]][j := moved];
          i := i + 1;
        }
        j := j + 1;
      }
      bindings := bindings[..i];
    }

    method Insert(b: Binding, moved: Binding)
      requires Valid()
      modifies this`bindings, this`history
      ensures Valid() && history == old(history) + [Op.Bind(b)]
    {
      hide Table, Lower, Upper, Spared, Less, Step;
      ghost var was := bindings;
      TableIsExact(history);
      OrderedIsSorted(history, was);
      var at := LowerBound(b.trigger);
      bindings := bindings[..at] + [b] + bindings[at..];
      InsertedIs(was, b, bindings);
      var end := UpperBound(at + 1, b.trigger);
      Remove(at + 1, end, b.trigger, moved);
      TableAfter(history, Op.Bind(b));
      history := history + [Op.Bind(b)];
    }

    method Unbind(t: Trigger, moved: Binding)
      requires Valid()
      modifies this`bindings, this`history
      ensures Valid() && history == old(history) + [Op.Unbind(t)]
    {
      hide Spared, Table;
      ghost var was := bindings;
      assert was[..0] == [] && was[|was|..] == [] && was[0..|was|] == was;
      Remove(0, |bindings|, t, moved);
      assert bindings == Spared(was, Op.Unbind(t));
      TableAfter(history, Op.Unbind(t));
      history := history + [Op.Unbind(t)];
    }

    /** The bindings of a device go when it is unregistered. */
    method RemoveDevice(device: nat, moved: Binding)
      requires Valid()
      modifies this`bindings, this`history
      ensures Valid() && history == old(history) + [Unregister(device)]
    {
      hide Table, Spared;
      ghost var was, op := bindings, Unregister(device);
      StartsCompact(was, 0, op);
      var i, j := 0, 0;
      while j < |bindings|
        invariant history == old(history)
        invariant 0 <= i <= j <= |bindings| && Compacting(was, bindings, 0, i, j, op)
      {
        CompactStep(was, bindings, 0, i, j, op, moved);
        if device !in bindings[j].trigger.devices {
          if i < j {
            bindings := bindings[i := bindings[j]][j := moved];
          }
          i := i + 1;
        }
        j := j + 1;
      }
      EndsCompact(was, bindings, 0, i, |was|, op);
      assert was[..0] == [] && was[0..|was|] == was;
      bindings := bindings[..i];
      TableAfter(history, op);
      history := history + [op];
    }

    /** `gsl::at` ends the program when the key is none of its device's. */
    predicate Exists(key: Key)
      reads this, devices
    {
      key.device == 0 || (key.device - 1 < devices.Length && key.id < |devices[key.device - 1]|)
    }

    ghost function EventOf(key: Key, pressed: bool): Event
      reads this, systemDevice, devices
    {
      Event(systemDevice[..], devices[..], flags, key, pressed)
    }

    ghost predicate Down(key: Key)
      reads this, systemDevice, devices
    {
      IsDown(systemDevice[..], devices[..], key)
    }

    method SetDown(key: Key, state: bool)
      requires Valid() && Exists(key) && key == Folded(key)
      modifies systemDevice, clientState, devices
      ensures forall k :: Down(k) == if Folded(k) == key then state else old(Down(k))
      ensures forall i :: 0 <= i < 0x100 ==>
        clientState[i] == if key == Key(0, i) && !state then 0 else old(clientState[i])
      ensures forall k :: old(Exists(k)) ==> Exists(k)
    {
      if key.device == 0 {
        systemDevice[key.id] := state;
        if !state {
          clientState[key.id] := 0;
        }
      } else {
        devices[key.device - 1] := devices[key.device - 1][key.id := state];
      }
    }

    /** A key goes down or up. `answer` is what the handler returns if one is run. The event is captured
        when `captured` comes back true. */
    method SetKey(unfolded: Key, state: bool, answer: bool, moved: Binding) returns (captured: bool, fired: Fired)
      requires Valid() && Exists(unfolded)
      modifies this`bindings, this`history, systemDevice, clientState, devices
      ensures Valid()
      ensures forall k :: Down(k) == if Folded(k) == Folded(unfolded) then state else old(Down(k))
      ensures var bs, e := old(bindings), EventOf(Folded(unfolded), state);
        var best, changed := Best(bs, e, |bs|), old(Down(unfolded)) != state;
        && fired == (if best >= 0 && changed then Handler(bs[best]) else Nothing)
        && captured == (best >= 0 && (changed ==> answer))
        && history == old(history) + (if fired.Handler? && !answer then [Op.Unbind(bs[best].trigger)] else [])
      ensures var e, changed := EventOf(Folded(unfolded), state), old(Down(unfolded)) != state;
        var answered := !NoneAnswers(old(history), e);
        && captured == (answered && (changed ==> answer)) && (fired.Handler? <==> answered && changed)
        && (fired.Handler? ==> RanksHighest(old(history), e, fired.binding))
      ensures !state ==> !captured && fired == Nothing
      ensures forall i :: 0 <= i < 0x100 ==>
        clientState[i] ==
          if Folded(unfolded) != Key(0, i) then old(clientState[i])
          else if !state then 0
          else if !captured then 0x80
          else old(clientState[i])
    {
      hide Table, Less, Spared, RanksHighest, NoneAnswers, Best, Matches, Exact;
      var key := Folded(unfolded);
      ghost var bs := bindings;
      var changed := IsDown(systemDevice[..], devices[..], unfolded) != state;
      SetDown(key, state);
      var e := Event(systemDevice[..], devices[..], flags, key, state);
      assert Down(key) == state;
      if !state { ReleasePicksNothing(bs, e); }
      BestByLoop(bs, e);
      var best := -1;
      for i := 0 to |bindings|
        invariant best == Best(bindings, e, i)
      {
        if Matches(e, bindings[i].trigger) {
          if best == -1 || Less(bindings[best].trigger, bindings[i].trigger) {
            best := i;
          }
        }
      }
      PicksHighestRank(history, e);
      captured, fired := false, Nothing;
      if best >= 0 {
        if changed {
          fired := Handler(bindings[best]);
        }
        if !changed || answer {
          captured := true;
          return;
        }
        ghost var ops, t := history, bindings[best].trigger;
        TableIsExact(ops);
        AllTriggersDiffer(ops, bs);
        RemoveElement(best, moved);
        RemovedIsUnbound(ops, bs, best);
        history := history + [Op.Unbind(t)];
        TableAfter(ops, Op.Unbind(t));
      }
      if key.device == 0 && state {
        clientState[key.id] := 0x80;
      }
    }
  }

  /** Removing the older binding from the rest of the class completes a `bind`. */
  lemma InsertedIs(was: seq<Binding>, b: Binding, bs: seq<Binding>)
    requires Sorted(was) && bs == was[..Lower(was, b.trigger)] + [b] + was[Lower(was, b.trigger)..]
    ensures var at := Lower(was, b.trigger);
      && Sorted(bs[at + 1..])
      && var end := at + 1 + Upper(bs[at + 1..], b.trigger);
        bs[..at + 1] + Spared(bs[at + 1..end], Op.Unbind(b.trigger)) + bs[end..] == Step(was, Op.Bind(b))
  {
    hide Spared, Lower, Upper, Less, Sorted;
    var at, end := Lower(was, b.trigger), Upper(was, b.trigger) + 1;
    LowerBelowUpper(was, b.trigger);
    UpperFromLower(was, b.trigger);
    assert bs[at + 1..] == was[at..] && bs[..at + 1] == was[..at] + [b];
    assert bs[at + 1..end] == was[at..end - 1] && bs[end..] == was[end - 1..];
    SameSpared(was[at..end - 1], Op.Bind(b), Op.Unbind(b.trigger));
  }

  /** The rest of a sorted list from the lower bound on has its upper bound that much earlier. */
  lemma {:induction false} UpperFromLower(bs: seq<Binding>, t: Trigger)
    requires Sorted(bs)
    ensures var lo := Lower(bs, t);
      Sorted(bs[lo..]) && Upper(bs, t) == lo + Upper(bs[lo..], t)
  {
    ClassAround(bs, t);
    var lo, tail := Lower(bs, t), bs[Lower(bs, t)..];
    forall i, j | 0 <= i < j < |tail| ensures !Less(tail[j].trigger, tail[i].trigger) {
      assert !Less(bs[lo + j].trigger, bs[lo + i].trigger);
    }
    UpperIs(tail, t, Upper(bs, t) - lo);
  }

  lemma {:induction false} SameSpared(bs: seq<Binding>, op: Op, op': Op)
    requires forall t :: Spares(op, t) <==> Spares(op', t)
    ensures Spared(bs, op) == Spared(bs, op')
  {
    if bs != [] { SameSpared(bs[..|bs| - 1], op, op'); }
  }
}
