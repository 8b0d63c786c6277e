/** The order in which packets from the client are handled: what delays do to it. */
module PacketOrder {
  import opened Bytes
  import opened PacketFrames
  import opened Sequences
  import opened PacketQueue

  /** A packet that arrived as number `number`; packets from the client are those that nobody injected. */
  datatype Arrival = Arrival(number: nat, client: bool)

  predicate FromClientItself(p: Packet) {
    p.injectedBy == ""
  }

  /** No packet but possibly the last is delayed. */
  predicate NoneButLastDelayed(mask: seq<bool>) {
    forall k :: 0 <= k < |mask| - 1 ==> mask[k]
  }

  function Numbered(first: nat, count: nat): (r: seq<Arrival>)
    ensures |r| == count && forall k :: 0 <= k < count ==> r[k] == Arrival(first + k, true)
  {
    seq(count, k requires 0 <= k < count => Arrival(first + k, true))
  }

  ghost predicate InOrder(arrivals: seq<Arrival>) {
    forall i, j :: 0 <= i < j < |arrivals| && arrivals[i].client && arrivals[j].client ==>
      arrivals[i].number < arrivals[j].number
  }

  /** One call keeps the order of arrival exactly when it delays none but possibly the last. */
  lemma {:induction false} SplitInOrder(first: nat, mask: seq<bool>)
    ensures var items := Numbered(first, |mask|);
      && (InOrder(Split(items, mask)) <==> NoneButLastDelayed(mask))
      && (Split(items, mask) == items <==> NoneButLastDelayed(mask))
    decreases |mask|
  {
    hide *;
    if mask == [] {
      NoItems(first);
    } else {
      SplitInOrder(first + 1, mask[1..]);
      if mask[0] {
        TakenInOrder(first, mask);
        MoreDelayed(mask);
      } else {
        DelayedInOrder(first, mask);
        FirstDelayed(mask);
      }
    }
  }

  lemma RestNumbered(first: nat, mask: seq<bool>)
    requires mask != []
    ensures Numbered(first, |mask|)[0] == Arrival(first, true)
    ensures Numbered(first, |mask|)[1..] == Numbered(first + 1, |mask| - 1)
    ensures forall a :: a in Split(Numbered(first + 1, |mask| - 1), mask[1..]) ==> a.number > first && a.client
  {
    hide Split;
    var items := Numbered(first + 1, |mask| - 1);
    forall a | a in Split(items, mask[1..]) ensures a in items { SplitKeeps(items, mask[1..], a); }
  }

  lemma TakenInOrder(first: nat, mask: seq<bool>)
    requires mask != [] && mask[0]
    ensures var items, others := Numbered(first, |mask|), Numbered(first + 1, |mask| - 1);
      && (InOrder(Split(items, mask)) <==> InOrder(Split(others, mask[1..])))
      && (Split(items, mask) == items <==> Split(others, mask[1..]) == others)
  {
    hide *;
    var items, others := Numbered(first, |mask|), Numbered(first + 1, |mask| - 1);
    RestNumbered(first, mask);
    SplitTaken(items, mask);
    StartsInOrder(items[0], Split(others, mask[1..]));
    assert ([items[0]] + Split(others, mask[1..]))[1..] == Split(others, mask[1..]);
    assert items == [items[0]] + others;
  }

  lemma DelayedInOrder(first: nat, mask: seq<bool>)
    requires mask != [] && !mask[0]
    ensures var items := Numbered(first, |mask|);
      && (InOrder(Split(items, mask)) <==> |mask| == 1)
      && (Split(items, mask) == items <==> |mask| == 1)
  {
    hide *;
    var items, others := Numbered(first, |mask|), Numbered(first + 1, |mask| - 1);
    var rest := Split(others, mask[1..]);
    RestNumbered(first, mask);
    SplitDelayed(items, mask);
    EndsInOrder(items[0], rest);
    if |mask| > 1 {
      assert (rest + [items[0]])[0] == rest[0] && rest[0] in rest;
    } else {
      assert rest + [items[0]] == items;
    }
  }

  lemma NoItems(first: nat)
    ensures InOrder(Split(Numbered(first, 0), [])) && NoneButLastDelayed([])
    ensures Split(Numbered(first, 0), []) == Numbered(first, 0)
  {
  }

  lemma FirstDelayed(mask: seq<bool>)
    requires mask != [] && !mask[0]
    ensures NoneButLastDelayed(mask) <==> |mask| == 1
  {
  }

  lemma EndsInOrder(a: Arrival, rest: seq<Arrival>)
    requires a.client && forall b :: b in rest ==> b.number > a.number && b.client
    ensures InOrder(rest + [a]) <==> rest == []
  {
    var all := rest + [a];
    if rest != [] {
      assert all[0] == rest[0] && rest[0] in rest && all[|rest|] == a;
    }
  }

  lemma StartsInOrder(a: Arrival, rest: seq<Arrival>)
    requires a.client && forall b :: b in rest ==> b.number > a.number
    ensures InOrder([a] + rest) <==> InOrder(rest)
  {
    var all := [a] + rest;
    if InOrder(all) {
      forall i, j | 0 <= i < j < |rest| && rest[i].client && rest[j].client ensures rest[i].number < rest[j].number {
        assert all[i + 1] == rest[i] && all[j + 1] == rest[j];
      }
    }
    if InOrder(rest) {
      forall i, j | 0 <= i < j < |all| && all[i].client && all[j].client ensures all[i].number < all[j].number {
        assert all[j] == rest[j - 1] && rest[j - 1] in rest;
        if i > 0 { assert all[i] == rest[i - 1]; }
      }
    }
  }

  lemma MoreDelayed(mask: seq<bool>)
    requires mask != [] && mask[0]
    ensures NoneButLastDelayed(mask) <==> NoneButLastDelayed(mask[1..])
  {
    if NoneButLastDelayed(mask[1..]) {
      forall k | 0 <= k < |mask| - 1 ensures mask[k] { if k > 0 { assert mask[1..][k - 1]; } }
    }
    if NoneButLastDelayed(mask) {
      forall k | 0 <= k < |mask[1..]| - 1 ensures mask[1..][k] { assert mask[k + 1]; }
    }
  }

  lemma AllAccounted(handler: Handler, calls: seq<Call>)
    ensures var s := AfterAll(handler, calls); |s.handled| + |s.queue| == |Accepted(calls)|
  {
    EveryRunConserves(handler, calls);
    var s := AfterAll(handler, calls);
    assert |multiset(s.handled) + multiset(s.queue)| == |multiset(Accepted(calls))|;
  }

  /** The arrivals in the order in which they have been handled, or stand in the queue. */
  function Line(handler: Handler, calls: seq<Call>): (r: seq<Arrival>)
    ensures |r| == |Accepted(calls)|
  {
    if calls == [] then []
    else
      var prefix := calls[..|calls| - 1];
      AllAccounted(handler, prefix);
      Joined(Line(handler, prefix), AfterAll(handler, prefix), handler, calls[|calls| - 1])
  }

  function Joined(line: seq<Arrival>, s: State, handler: Handler, call: Call): (r: seq<Arrival>)
    requires |s.handled| <= |line|
    ensures |r| == |line| + |Accepts(call)|
  {
    match call
    case Queue(packet) => line + [Arrival(|line|, FromClientItself(packet))]
    case Process(input, size) =>
      var mask := Mask(handler, s, input, size);
      line[..|s.handled|] + Split(Numbered(|line|, |mask|), mask) + line[|s.handled|..]
  }

  /** Who stands in a line: the arrivals from number `first` on, each at the place of its packet. */
  ghost predicate Stands(line: seq<Arrival>, packets: seq<Packet>, accepted: seq<Packet>, first: nat) {
    && |line| == |packets| == |accepted|
    && (forall i :: 0 <= i < |line| ==> StandsAt(line, packets, accepted, first, i))
    && forall n :: 0 <= n < |accepted| ==> Arrival(first + n, FromClientItself(accepted[n])) in line
  }

  ghost predicate StandsAt(line: seq<Arrival>, packets: seq<Packet>, accepted: seq<Packet>, first: nat, i: nat)
    requires i < |line| == |packets|
  {
    && first <= line[i].number < first + |accepted|
    && packets[i] == accepted[line[i].number - first]
    && (line[i].client <==> FromClientItself(packets[i]))
  }

  /** Later arrivals are inserted somewhere. */
  lemma StandsOn(line: seq<Arrival>, packets: seq<Packet>, accepted: seq<Packet>,
                 more: seq<Arrival>, inserted: seq<Packet>, arrived: seq<Packet>, first: nat, k: nat)
    requires Stands(line, packets, accepted, first) && k <= |line|
    requires Stands(more, inserted, arrived, first + |accepted|)
    ensures Stands(line[..k] + more + line[k..], packets[..k] + inserted + packets[k..], accepted + arrived, first)
  {
    var line', accepted' := line[..k] + more + line[k..], accepted + arrived;
    var packets' := packets[..k] + inserted + packets[k..];
    forall i | 0 <= i < |line'| ensures StandsAt(line', packets', accepted', first, i) {
      if i < k {
        assert StandsAt(line, packets, accepted, first, i);
      } else if i < k + |more| {
        assert StandsAt(more, inserted, arrived, first + |accepted|, i - k);
      } else {
        assert StandsAt(line, packets, accepted, first, i - |more|);
      }
    }
    assert line == line[..k] + line[k..];
    forall n | 0 <= n < |accepted'| ensures Arrival(first + n, FromClientItself(accepted'[n])) in line' {
      if n < |accepted| {
        assert Arrival(first + n, FromClientItself(accepted[n])) in line;
      } else {
        assert Arrival(first + |accepted| + (n - |accepted|), FromClientItself(arrived[n - |accepted|])) in more;
      }
    }
  }

  lemma {:induction false} SplitStands(ps: seq<Packet>, mask: seq<bool>, first: nat)
    requires |mask| == |ps| && forall p :: p in ps ==> FromClientItself(p)
    ensures Stands(Split(Numbered(first, |mask|), mask), Split(ps, mask), ps, first)
    decreases |ps|
  {
    hide *;
    if ps == [] {
      NoneStand(first);
      assert Split(Numbered(first, |mask|), mask) == [] && Split(ps, mask) == [];
    } else {
      SplitStands(ps[1..], mask[1..], first + 1);
      SplitStandsOn(ps, mask, first);
    }
  }

  lemma NoneStand(first: nat)
    ensures Stands([], [], [], first)
  {
  }

  lemma SplitStandsOn(ps: seq<Packet>, mask: seq<bool>, first: nat)
    requires |mask| == |ps| > 0 && FromClientItself(ps[0])
    requires Stands(Split(Numbered(first + 1, |mask| - 1), mask[1..]), Split(ps[1..], mask[1..]), ps[1..], first + 1)
    ensures Stands(Split(Numbered(first, |mask|), mask), Split(ps, mask), ps, first)
  {
    hide *;
    var items, p := Numbered(first, |mask|), ps[0];
    var line, packets, a := Split(items[1..], mask[1..]), Split(ps[1..], mask[1..]), items[0];
    RestNumbered(first, mask);
    StandsAlone(p, first);
    assert [p] + ps[1..] == ps;
    if mask[0] {
      SplitTaken(items, mask);
      SplitTaken(ps, mask);
      StandsOn([a], [p], [p], line, packets, ps[1..], first, 1);
      assert [a][..1] + line + [a][1..] == [a] + line && [p][..1] + packets + [p][1..] == [p] + packets;
    } else {
      SplitDelayed(items, mask);
      SplitDelayed(ps, mask);
      StandsOn([a], [p], [p], line, packets, ps[1..], first, 0);
      assert [a][..0] + line + [a][0..] == line + [a] && [p][..0] + packets + [p][0..] == packets + [p];
    }
  }

  /** The line tells the places of all that arrived, in every run. */
  lemma {:induction false} LineStands(handler: Handler, calls: seq<Call>)
    ensures var s := AfterAll(handler, calls); Stands(Line(handler, calls), s.handled + s.queue, Accepted(calls), 0)
  {
    hide Mask, Split, Processing, Stands, Read, FromClient, Joined;
    if calls == [] {
      NoneStand(0);
      var s := AfterAll(handler, calls);
      assert s == State(0, [], []) && s.handled + s.queue == [] && |Line(handler, calls)| == 0 == |Accepted(calls)|;
    } else {
      var prefix, call := calls[..|calls| - 1], calls[|calls| - 1];
      LineStands(handler, prefix);
      AllAccounted(handler, prefix);
      JoinedStands(handler, AfterAll(handler, prefix), Line(handler, prefix), Accepted(prefix), call);
    }
  }

  lemma JoinedStands(handler: Handler, s: State, line: seq<Arrival>, accepted: seq<Packet>, call: Call)
    requires |s.handled| <= |line| == |accepted| && Stands(line, s.handled + s.queue, accepted, 0)
    ensures var s' := After(handler, s, call);
      Stands(Joined(line, s, handler, call), s'.handled + s'.queue, accepted + Accepts(call), 0)
  {
    hide Mask, Split, Processing, Stands, Read, FromClient;
    var packets, h := s.handled + s.queue, |s.handled|;
    match call
    case Queue(packet) =>
      var n := |line|;
      var a := Arrival(n, FromClientItself(packet));
      StandsAlone(packet, n);
      StandsLength(line, packets, accepted);
      StandsOn(line, packets, accepted, [a], [packet], [packet], 0, n);
      assert line[..n] + [a] + line[n..] == line + [a];
      assert packets[..n] + [packet] + packets[n..] == s.handled + (s.queue + [packet]);
    case Process(input, size) =>
      CallInserts(handler, s, input, size);
      var ps, mask := FromClient(Read(input)), Mask(handler, s, input, size);
      SplitStands(ps, mask, |line|);
      StandsOn(line, packets, accepted, Split(Numbered(|line|, |mask|), mask), Split(ps, mask), ps, 0, h);
      assert packets[..h] == s.handled && packets[h..] == s.queue;
  }

  lemma StandsLength(line: seq<Arrival>, packets: seq<Packet>, accepted: seq<Packet>)
    requires Stands(line, packets, accepted, 0)
    ensures |line| == |packets|
  {
  }

  lemma StandsAlone(p: Packet, first: nat)
    ensures Stands([Arrival(first, FromClientItself(p))], [p], [p], first)
  {
    assert StandsAt([Arrival(first, FromClientItself(p))], [p], [p], first, 0);
  }

  ghost predicate NoneWaits(queue: seq<Packet>) {
    forall i :: 0 <= i < |queue| ==> !FromClientItself(queue[i])
  }

  /** A call that brings packets delays none but possibly the last, and finds none from the client waiting. */
  ghost predicate KeepsOrder(handler: Handler, s: State, call: Call) {
    call.Process? && Read(call.input) != [] ==>
      NoneButLastDelayed(Mask(handler, s, call.input, call.size)) && NoneWaits(s.queue)
  }

  ghost predicate NoClients(arrivals: seq<Arrival>) {
    forall i :: 0 <= i < |arrivals| ==> !arrivals[i].client
  }

  /** Later arrivals inserted into a line. */
  lemma InsertedInOrder(before: seq<Arrival>, more: seq<Arrival>, after: seq<Arrival>)
    requires forall a, b :: (a in before || a in after) && b in more ==> a.number < b.number
    requires forall b :: b in more ==> b.client
    ensures InOrder(before + more + after) <==>
            InOrder(before + after) && InOrder(more) && (more != [] ==> NoClients(after))
  {
    hide *;
    if InOrder(before + more + after) {
      StaysInOrder(before, more, after);
    }
    if InOrder(before + after) && InOrder(more) && (more != [] ==> NoClients(after)) {
      ComesInOrder(before, more, after);
    }
  }

  lemma StaysInOrder(before: seq<Arrival>, more: seq<Arrival>, after: seq<Arrival>)
    requires InOrder(before + more + after)
    requires forall a, b :: a in after && b in more ==> a.number < b.number
    requires forall b :: b in more ==> b.client
    ensures InOrder(before + after) && InOrder(more) && (more != [] ==> NoClients(after))
  {
    var all, outer := before + more + after, before + after;
    var m, n := |before|, |more|;
    forall i, j | 0 <= i < j < |outer| && outer[i].client && outer[j].client ensures outer[i].number < outer[j].number {
      assert outer[i] == all[if i < m then i else i + n] && outer[j] == all[if j < m then j else j + n];
    }
    forall i, j | 0 <= i < j < n && more[i].client && more[j].client ensures more[i].number < more[j].number {
      assert more[i] == all[m + i] && more[j] == all[m + j];
    }
    forall i | more != [] && 0 <= i < |after| ensures !after[i].client {
      assert all[m] == more[0] && all[m + n + i] == after[i];
    }
  }

  lemma ComesInOrder(before: seq<Arrival>, more: seq<Arrival>, after: seq<Arrival>)
    requires InOrder(before + after) && InOrder(more) && (more != [] ==> NoClients(after))
    requires forall a, b :: a in before && b in more ==> a.number < b.number
    ensures InOrder(before + more + after)
  {
    var all, outer := before + more + after, before + after;
    var m, n := |before|, |more|;
    forall i, j | 0 <= i < j < |all| && all[i].client && all[j].client ensures all[i].number < all[j].number {
      if j < m {
        assert all[i] == outer[i] && all[j] == outer[j];
      } else if j < m + n {
        assert all[j] == more[j - m];
        if i < m { assert all[i] == before[i]; } else { assert all[i] == more[i - m]; }
      } else {
        assert all[j] == after[j - m - n] == outer[j - n];
        assert n == 0;
        assert all[i] == outer[i];
      }
    }
  }

  ghost predicate KeptAt(handler: Handler, calls: seq<Call>, k: nat)
    requires k < |calls|
  {
    KeepsOrder(handler, AfterAll(handler, calls[..k]), calls[k])
  }

  /** In every run, the packets of the client are handled, or stand to be handled, in the order in which they
      arrived exactly when every call keeps the order. Once lost it never comes back. */
  lemma {:induction false} ClientsInOrder(handler: Handler, calls: seq<Call>)
    ensures InOrder(Line(handler, calls)) <==> forall k :: 0 <= k < |calls| ==> KeptAt(handler, calls, k)
  {
    hide *;
    if calls == [] {
      NoLine(handler);
    } else {
      var prefix, call := calls[..|calls| - 1], calls[|calls| - 1];
      ClientsInOrder(handler, prefix);
      StepInOrder(handler, prefix, call);
      assert calls == prefix + [call];
      forall k | 0 <= k < |prefix| ensures KeptAt(handler, calls, k) <==> KeptAt(handler, prefix, k) {
        KeptBefore(handler, prefix, call, k);
      }
    }
  }

  lemma NoLine(handler: Handler)
    ensures InOrder(Line(handler, []))
  {
  }

  lemma KeptBefore(handler: Handler, prefix: seq<Call>, call: Call, k: nat)
    requires k < |prefix|
    ensures KeptAt(handler, prefix + [call], k) <==> KeptAt(handler, prefix, k)
  {
    assert (prefix + [call])[..k] == prefix[..k];
  }

  lemma StepInOrder(handler: Handler, prefix: seq<Call>, call: Call)
    ensures InOrder(Line(handler, prefix + [call])) <==>
      InOrder(Line(handler, prefix)) && KeptAt(handler, prefix + [call], |prefix|)
  {
    hide InOrder, Mask, Split, Read, NoneButLastDelayed, Stands;
    assert (prefix + [call])[..|prefix|] == prefix;
    LineStands(handler, prefix);
    AllAccounted(handler, prefix);
    JoinedInOrder(handler, AfterAll(handler, prefix), Line(handler, prefix), Accepted(prefix), call);
  }

  lemma JoinedInOrder(handler: Handler, s: State, line: seq<Arrival>, accepted: seq<Packet>, call: Call)
    requires |s.handled| <= |line| == |accepted| && Stands(line, s.handled + s.queue, accepted, 0)
    ensures InOrder(Joined(line, s, handler, call)) <==> InOrder(line) && KeepsOrder(handler, s, call)
  {
    hide InOrder, Mask, Split, Read, NoneButLastDelayed, Stands;
    StandsBelow(line, s.handled + s.queue, accepted);
    match call
    case Queue(packet) =>
      LastInOrder(line, Arrival(|line|, FromClientItself(packet)));
    case Process(input, size) =>
      var mask, h := Mask(handler, s, input, size), |s.handled|;
      var items := Numbered(|line|, |mask|);
      SplitInOrder(|line|, mask);
      forall b ensures b in Split(items, mask) ==> b.client && b.number >= |line| { SplitKeeps(items, mask, b); }
      InsertedInOrder(line[..h], Split(items, mask), line[h..]);
      assert line[..h] + line[h..] == line;
      WaitingArrivals(line, s, accepted);
  }

  lemma StandsBelow(line: seq<Arrival>, packets: seq<Packet>, accepted: seq<Packet>)
    requires Stands(line, packets, accepted, 0)
    ensures forall a :: a in line ==> a.number < |accepted|
  {
    forall a | a in line ensures a.number < |accepted| {
      var i :| 0 <= i < |line| && line[i] == a;
      assert StandsAt(line, packets, accepted, 0, i);
    }
  }

  lemma LastInOrder(line: seq<Arrival>, a: Arrival)
    requires forall b :: b in line ==> b.number < a.number
    ensures InOrder(line + [a]) <==> InOrder(line)
  {
    var all := line + [a];
    if InOrder(all) {
      forall i, j | 0 <= i < j < |line| && line[i].client && line[j].client ensures line[i].number < line[j].number {
        assert all[i] == line[i] && all[j] == line[j];
      }
    }
  }

  lemma WaitingArrivals(line: seq<Arrival>, s: State, accepted: seq<Packet>)
    requires Stands(line, s.handled + s.queue, accepted, 0)
    ensures NoClients(line[|s.handled|..]) <==> NoneWaits(s.queue)
  {
    var h, packets := |s.handled|, s.handled + s.queue;
    forall i | 0 <= i < |s.queue| ensures line[h..][i].client <==> FromClientItself(s.queue[i]) {
      assert packets[h + i] == s.queue[i];
      assert StandsAt(line, packets, accepted, 0, h + i);
    }
  }

  function Sizes(ps: seq<Packet>): nat {
    if ps == [] then 0 else Size(ps[0]) + Sizes(ps[1..])
  }

  /** From its answer number `n` on, the handler makes one of the packets larger. */
  ghost predicate Enlarges(handler: Handler, n: nat, ps: seq<Packet>) {
    exists k :: 0 <= k < |ps| && Larger(handler(n + k), ps[k])
  }

  predicate Larger(v: Verdict, p: Packet) {
    v.Modified? && |v.data| > |p.data|
  }

  /** With a handler that enlarges nothing, packets that fit the buffer together, headers and all, are not
      delayed. */
  lemma {:induction false} FirstFit(handler: Handler, w: Work, ps: seq<Packet>, m: nat)
    requires m <= |ps| && !Enlarges(handler, |w.handled|, ps) && Sizes(ps[..m]) <= w.room
    ensures forall k :: 0 <= k < m ==> Fits(handler, w, ps)[k]
    decreases m
  {
    if m > 0 {
      var next, first := Receive(handler, w, ps[0]), ps[..m];
      assert first[0] == ps[0] && first[1..] == ps[1..][..m - 1];
      assert !Larger(handler(|w.handled| + 0), ps[0]);
      EmitsLittle(handler(|w.handled|), ps[0], w.room);
      forall k | 0 <= k < |ps[1..]| ensures !Larger(handler(|next.handled| + k), ps[1..][k]) {
        assert !Larger(handler(|w.handled| + (k + 1)), ps[k + 1]);
      }
      FirstFit(handler, next, ps[1..], m - 1);
      assert Fits(handler, w, ps)[1..] == Fits(handler, next, ps[1..]);
    }
  }

  /** What a caller can see to: it is enough that all packets but the last fit. */
  lemma FittingIsEnough(handler: Handler, w: Work, ps: seq<Packet>)
    requires !Enlarges(handler, |w.handled|, ps) && (ps != [] ==> Sizes(ps[..|ps| - 1]) <= w.room)
    ensures NoneButLastDelayed(Fits(handler, w, ps))
  {
    if ps != [] { FirstFit(handler, w, ps, |ps| - 1); }
  }

  lemma EmitsLittle(v: Verdict, p: Packet, room: nat)
    requires !Larger(v, p)
    ensures WireSize(Emits(v, p, room)) <= Size(p)
    ensures v == Unchanged ==> WireSize(Emits(v, p, room)) == Size(p)
  {
    forall f: Frame ensures WireSize([f]) == HEADER_SIZE + |f.data| { assert [f][..0] == []; }
  }

  /** With a handler that changes nothing that is also necessary. */
  lemma {:induction false} FittingIsNeeded(handler: Handler, w: Work, ps: seq<Packet>)
    requires ps != [] && NoneButLastDelayed(Fits(handler, w, ps))
    requires forall n :: |w.handled| <= n < |w.handled| + |ps| - 1 ==> handler(n) == Unchanged
    ensures Sizes(ps[..|ps| - 1]) <= w.room
    decreases |ps|
  {
    if |ps| > 1 {
      var next, init := Receive(handler, w, ps[0]), ps[..|ps| - 1];
      assert init[0] == ps[0] && init[1..] == ps[1..][..|ps| - 2];
      var mask := Fits(handler, w, ps);
      assert mask[0] && mask[1..] == Fits(handler, next, ps[1..]);
      MoreDelayed(mask);
      EmitsLittle(handler(|w.handled|), ps[0], w.room);
      FittingIsNeeded(handler, next, ps[1..]);
    }
  }

  /** A call with room for all its packets, from which the handler makes nothing larger. What others put
      in the queue says who did. */
  ghost predicate Roomy(handler: Handler, s: State, call: Call) {
    match call
    case Queue(packet) => !FromClientItself(packet)
    case Process(input, size) =>
      var ps := FromClient(Read(input));
      Sizes(ps) <= Max(s.capacity, size) && !Enlarges(handler, |s.handled|, ps)
  }

  /** With room in every call the packets of the client are handled at once, in the order of their arrival. */
  lemma {:induction false} RoomyRunInOrder(handler: Handler, calls: seq<Call>)
    requires forall k :: 0 <= k < |calls| ==> Roomy(handler, AfterAll(handler, calls[..k]), calls[k])
    ensures InOrder(Line(handler, calls)) && NoneWaits(AfterAll(handler, calls).queue)
  {
    hide *;
    if calls == [] {
      NoLine(handler);
      assert NoneWaits(AfterAll(handler, calls).queue) by { NoneAtFirst(handler); }
    } else {
      var prefix, call := calls[..|calls| - 1], calls[|calls| - 1];
      forall k | 0 <= k < |prefix| ensures Roomy(handler, AfterAll(handler, prefix[..k]), prefix[k]) {
        assert prefix[..k] == calls[..k] && prefix[k] == calls[k];
      }
      RoomyRunInOrder(handler, prefix);
      assert calls == prefix + [call] && calls[..|prefix|] == prefix;
      assert Roomy(handler, AfterAll(handler, calls[..|prefix|]), calls[|prefix|]);
      RoomyCall(handler, prefix, call);
      StepInOrder(handler, prefix, call);
    }
  }

  lemma NoneAtFirst(handler: Handler)
    ensures NoneWaits(AfterAll(handler, []).queue)
  {
  }

  lemma RoomyCall(handler: Handler, prefix: seq<Call>, call: Call)
    requires Roomy(handler, AfterAll(handler, prefix), call) && NoneWaits(AfterAll(handler, prefix).queue)
    ensures KeptAt(handler, prefix + [call], |prefix|) && NoneWaits(AfterAll(handler, prefix + [call]).queue)
  {
    hide Processing, Read, Mask, Roomy;
    assert (prefix + [call])[..|prefix|] == prefix;
    var s := AfterAll(handler, prefix);
    match call
    case Queue(packet) =>
      assert !FromClientItself(packet) by { QueuedByOthers(handler, s, packet); }
    case Process(input, size) =>
      RoomyMask(handler, s, input, size);
      QueueShrinks(handler, s, input, size);
  }

  lemma QueuedByOthers(handler: Handler, s: State, packet: Packet)
    requires Roomy(handler, s, Queue(packet))
    ensures !FromClientItself(packet)
  {
  }

  lemma RoomyMask(handler: Handler, s: State, input: seq<Byte>, size: nat)
    requires Roomy(handler, s, Process(input, size))
    ensures forall k :: 0 <= k < |Mask(handler, s, input, size)| ==> Mask(handler, s, input, size)[k]
  {
    hide Read, FromClient, Fits, Enlarges, Sizes;
    var ps := FromClient(Read(input));
    assert ps[..|ps|] == ps;
    FirstFit(handler, Start(s, size), ps, |ps|);
  }

  lemma QueueShrinks(handler: Handler, s: State, input: seq<Byte>, size: nat)
    requires forall k :: 0 <= k < |Mask(handler, s, input, size)| ==> Mask(handler, s, input, size)[k]
    requires NoneWaits(s.queue)
    ensures NoneWaits(After(handler, s, Process(input, size)).queue)
  {
    hide Processing, Read, FromClient, Select, Mask, Reversed;
    var mask, n := ProcessingSplits(handler, s, input, size);
    NoneLeft(FromClient(Read(input)), mask);
  }

  lemma {:induction false} NoneLeft<T>(items: seq<T>, mask: seq<bool>)
    requires |mask| == |items| && forall k :: 0 <= k < |mask| ==> mask[k]
    ensures Select(items, mask, false) == []
  {
    if items != [] { NoneLeft(items[1..], mask[1..]); }
  }

  /** Three packets come in, of 8, 8 and 4 bytes, for a buffer of 4 bytes: the third is handled, and the
      second stands in the queue before the first. */
  lemma DelayTurnsAround(handler: Handler, data: seq<Byte>, counters: seq<Word>)
    requires |data| == 4 && |counters| == 3
    ensures var frames := [Frame(1, data), Frame(2, data), Frame(3, [])];
      var s := AfterAll(handler, [Process(Stream(frames, counters), 4)]);
      s.handled == [Packet(3, [], "")] && s.queue == [Packet(2, data, ""), Packet(1, data, "")]
  {
    var frames := [Frame(1, data), Frame(2, data), Frame(3, [])];
    ReadsBack(frames, counters);
    var first, second, third := Packet(1, data, ""), Packet(2, data, ""), Packet(3, [], "");
    ClientFirst(frames);
    ClientFirst(frames[1..]);
    ClientFirst(frames[2..]);
    assert FromClient(frames) == [first, second, third];
    var start := Work([], [], [], 4);
    FeedThree(handler, start, first, second, third);
  }

  lemma FeedThree(handler: Handler, w: Work, a: Packet, b: Packet, c: Packet)
    ensures Feed(handler, w, [a, b, c]) == Receive(handler, Receive(handler, Receive(handler, w, a), b), c)
  {
    hide Receive;
    assert [a, b, c][1..] == [b, c] && [b, c][1..] == [c] && [c][1..] == [];
    var next := Receive(handler, w, a);
    assert Feed(handler, w, [a, b, c]) == Feed(handler, next, [b, c]);
    assert Feed(handler, next, [b, c]) == Feed(handler, Receive(handler, next, b), [c]);
  }
}
