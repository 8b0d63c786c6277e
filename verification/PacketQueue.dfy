/** The queue that reframes a packet stream: every packet that comes in or was queued is handed to the
    packet handler and what the handler leaves of it is written to a bounded buffer. */
module PacketQueue {
  import opened Bytes
  import opened PacketFrames
  import opened Sequences

  datatype Packet = Packet(id: Word, data: seq<Byte>, injectedBy: string)

  /** What the handler says of a packet. */
  datatype Verdict = Blocked | Unchanged | Modified(id: Word, data: seq<Byte>)

  /** The handler: its answer to call number `n`. Every handler, whatever it remembers, is one of these
      in a given run. */
  type Handler = nat -> Verdict

  function Size(p: Packet): nat {
    |p.data| + HEADER_SIZE
  }

  /** What is written for a packet when `room` bytes are left; a modification that is too large is dropped. */
  function Emits(v: Verdict, p: Packet, room: nat): (frames: seq<Frame>)
    ensures |frames| <= 1
    ensures Size(p) <= room ==> WireSize(frames) <= room
  {
    match v
    case Blocked => []
    case Unchanged => [Frame(p.id, p.data)]
    case Modified(id, data) =>
      if |data| + HEADER_SIZE > room then [Frame(p.id, p.data)] else [Frame(id, data)]
  }

  /** A call in progress: the queue, what has been handed to the handler since the beginning, what has been
      written in this call and the room left for more. */
  datatype Work = Work(queue: seq<Packet>, handled: seq<Packet>, frames: seq<Frame>, room: nat)

  function Handle(handler: Handler, w: Work, p: Packet): (w': Work)
    requires Size(p) <= w.room
  {
    var emitted := Emits(handler(|w.handled|), p, w.room);
    Work(w.queue, w.handled + [p], w.frames + emitted, w.room - WireSize(emitted))
  }

  /** A packet from the client is handled if it fits in what is left, and otherwise put before the queue. */
  function Receive(handler: Handler, w: Work, p: Packet): Work {
    if Size(p) <= w.room then Handle(handler, w, p) else w.(queue := [p] + w.queue)
  }

  function Feed(handler: Handler, w: Work, ps: seq<Packet>): Work
    decreases |ps|
  {
    if ps == [] then w else Feed(handler, Receive(handler, w, ps[0]), ps[1..])
  }

  /** The queue is handled from the front, as far as it fits. */
  function Drain(handler: Handler, w: Work): Work
    decreases |w.queue|
  {
    if w.queue == [] || Size(w.queue[0]) > w.room then w
    else Drain(handler, Handle(handler, w, w.queue[0]).(queue := w.queue[1..]))
  }

  /** Packets as the client sends them. */
  function FromClient(frames: seq<Frame>): (ps: seq<Packet>)
    ensures |ps| == |frames|
    ensures forall k :: 0 <= k < |ps| ==> ps[k] == Packet(frames[k].id, frames[k].data, "")
  {
    if frames == [] then [] else [Packet(frames[0].id, frames[0].data, "")] + FromClient(frames[1..])
  }

  function Max(a: nat, b: nat): nat {
    if a < b then b else a
  }

  /** Between calls. */
  datatype State = State(capacity: nat, queue: seq<Packet>, handled: seq<Packet>)

  function Processing(handler: Handler, s: State, input: seq<Byte>, size: nat): Work {
    Drain(handler, Feed(handler, Work(s.queue, s.handled, [], Max(s.capacity, size)), FromClient(Read(input))))
  }

  /** Which packets from the client fit when their turn comes. */
  function Fits(handler: Handler, w: Work, ps: seq<Packet>): (mask: seq<bool>)
    ensures |mask| == |ps|
    decreases |ps|
  {
    if ps == [] then [] else [Size(ps[0]) <= w.room] + Fits(handler, Receive(handler, w, ps[0]), ps[1..])
  }

  lemma ReversedFirst<T>(p: T, rest: seq<T>, queue: seq<T>)
    ensures Reversed([p] + rest) + queue == Reversed(rest) + ([p] + queue)
  {
    assert ([p] + rest)[1..] == rest;
  }

  /** A packet is delayed exactly when what was written for those before it leaves it too little room. */
  lemma {:induction false} DelayedWhen(handler: Handler, w: Work, ps: seq<Packet>, k: nat)
    requires k < |ps|
    ensures Fits(handler, w, ps)[k] <==> |ps[k].data| + 4 <= Feed(handler, w, ps[..k]).room
    decreases |ps|
  {
    if k == 0 {
      assert ps[..0] == [];
    } else {
      assert ps[..k][1..] == ps[1..][..k - 1];
      DelayedWhen(handler, Receive(handler, w, ps[0]), ps[1..], k - 1);
    }
  }

  /** Packets that fit are handled in order. The others end up before the queue, the last one first, and
      then not even that one fits in the room that is left. */
  lemma {:induction false} FeedSplits(handler: Handler, w: Work, ps: seq<Packet>)
    ensures var w', mask := Feed(handler, w, ps), Fits(handler, w, ps);
      && w'.handled == w.handled + Select(ps, mask, true)
      && w'.queue == Reversed(Select(ps, mask, false)) + w.queue
      && w'.room <= w.room
      && (Select(ps, mask, false) != [] ==> w'.queue != [] && Size(w'.queue[0]) > w'.room)
    decreases |ps|
  {
    if ps == [] {
    } else {
      var p, next := ps[0], Receive(handler, w, ps[0]);
      FeedSplits(handler, next, ps[1..]);
      var mask := Fits(handler, w, ps);
      assert mask[1..] == Fits(handler, next, ps[1..]);
      SelectFirst(ps, mask, true);
      SelectFirst(ps, mask, false);
      var rest, later := Select(ps[1..], mask[1..], false), Select(ps[1..], mask[1..], true);
      hide Select, Handle, Reversed;
      if Size(p) <= w.room {
        Regroup(w.handled, [p] + later);
      } else {
        ReversedFirst(p, rest, w.queue);
      }
    }
  }

  /** Draining takes packets off the front of the queue; it stops at the first one that does not fit. */
  lemma {:induction false} DrainsPrefix(handler: Handler, w: Work) returns (n: nat)
    ensures var w' := Drain(handler, w);
      && n <= |w.queue|
      && w'.handled == w.handled + w.queue[..n]
      && w'.queue == w.queue[n..]
      && w'.room <= w.room
      && (w'.queue != [] ==> Size(w'.queue[0]) > w'.room)
      && forall i :: 0 <= i < n ==> Size(w.queue[i]) <= w.room
    decreases |w.queue|
  {
    if w.queue == [] || Size(w.queue[0]) > w.room {
      n := 0;
    } else {
      var next := Handle(handler, w, w.queue[0]).(queue := w.queue[1..]);
      var m := DrainsPrefix(handler, next);
      n := m + 1;
      assert w.handled + [w.queue[0]] + w.queue[1..][..m] == w.handled + w.queue[..n];
    }
  }

  lemma WireSizeAdds(frames: seq<Frame>, more: seq<Frame>)
    requires |more| <= 1
    ensures WireSize(frames + more) == WireSize(frames) + WireSize(more)
  {
    if more == [] {
      assert frames + more == frames;
    } else {
      assert (frames + more)[..|frames|] == frames && more[..0] == [];
    }
  }

  /** What is written and the room that is left add up to the size of the buffer. */
  lemma {:induction false} FeedKeepsRoom(handler: Handler, w: Work, ps: seq<Packet>)
    ensures var w' := Feed(handler, w, ps); WireSize(w'.frames) + w'.room == WireSize(w.frames) + w.room
    decreases |ps|
  {
    if ps != [] {
      FeedKeepsRoom(handler, Receive(handler, w, ps[0]), ps[1..]);
      if Size(ps[0]) <= w.room { WireSizeAdds(w.frames, Emits(handler(|w.handled|), ps[0], w.room)); }
    }
  }

  lemma {:induction false} DrainKeepsRoom(handler: Handler, w: Work)
    ensures var w' := Drain(handler, w); WireSize(w'.frames) + w'.room == WireSize(w.frames) + w.room
    decreases |w.queue|
  {
    if w.queue != [] && Size(w.queue[0]) <= w.room {
      WireSizeAdds(w.frames, Emits(handler(|w.handled|), w.queue[0], w.room));
      DrainKeepsRoom(handler, Handle(handler, w, w.queue[0]).(queue := w.queue[1..]));
    }
  }

  /** One call: the packets of the input are split into handled and delayed ones; a call that delays any
      takes none off the queue. */
  lemma ProcessingSplits(handler: Handler, s: State, input: seq<Byte>, size: nat) returns (mask: seq<bool>, n: nat)
    ensures mask == Mask(handler, s, input, size)
    ensures var ps, w := FromClient(Read(input)), Processing(handler, s, input, size);
      && |mask| == |ps| && n <= |s.queue|
      && var taken, delayed := Select(ps, mask, true), Select(ps, mask, false);
        && w.handled == s.handled + taken + s.queue[..n]
        && w.queue == Reversed(delayed) + s.queue[n..]
        && (delayed != [] ==> n == 0)
        && (w.queue != [] ==> |w.queue[0].data| + 4 > w.room)
        && forall i :: 0 <= i < n ==> |s.queue[i].data| + 4 <= s.capacity || |s.queue[i].data| + 4 <= size
    ensures var w := Processing(handler, s, input, size);
      WireSize(w.frames) + w.room == if s.capacity < size then size else s.capacity
  {
    var ps := FromClient(Read(input));
    var start := Work(s.queue, s.handled, [], Max(s.capacity, size));
    var fed := Feed(handler, start, ps);
    mask := Fits(handler, start, ps);
    FeedSplits(handler, start, ps);
    FeedKeepsRoom(handler, start, ps);
    DrainKeepsRoom(handler, fed);
    n := DrainsPrefix(handler, fed);
    if Select(ps, mask, false) == [] {
      assert fed.queue == s.queue;
    }
  }

  /** What is left of a packet: nothing if it was blocked, the packet if it was left unchanged or its
      modification is longer than `left`, and otherwise what the handler made of it. */
  predicate Remains(v: Verdict, p: Packet, left: int, part: seq<Frame>) {
    && (v.Blocked? ==> part == [])
    && (v.Unchanged? ==> part == [Frame(p.id, p.data)])
    && (v.Modified? && |v.data| + 4 > left ==> part == [Frame(p.id, p.data)])
    && (v.Modified? && |v.data| + 4 <= left ==> part == [Frame(v.id, v.data)])
  }

  function Concat(parts: seq<seq<Frame>>): seq<Frame> {
    if parts == [] then [] else Concat(parts[..|parts| - 1]) + parts[|parts| - 1]
  }

  /** Each of the packets leaves its part, given the answers of the handler from number `first` on and what the
      parts before leave of `capacity`. */
  ghost predicate AllRemain(handler: Handler, first: nat, ps: seq<Packet>, capacity: nat, parts: seq<seq<Frame>>) {
    |parts| == |ps| && forall k :: 0 <= k < |ps| ==> RemainsAt(handler, first, ps, capacity, parts, k)
  }

  ghost predicate RemainsAt(handler: Handler, first: nat, ps: seq<Packet>, capacity: nat, parts: seq<seq<Frame>>,
                            k: nat)
    requires k < |ps| == |parts|
  {
    Remains(handler(first + k), ps[k], capacity - WireSize(Concat(parts[..k])), parts[k])
  }

  /** How far a call has come, after `first` packets were handled before it. */
  ghost predicate InParts(handler: Handler, first: nat, capacity: nat, w: Work, parts: seq<seq<Frame>>) {
    && first <= |w.handled| && w.frames == Concat(parts) && WireSize(w.frames) + w.room == capacity
    && AllRemain(handler, first, w.handled[first..], capacity, parts)
  }

  lemma HandleRemains(handler: Handler, first: nat, capacity: nat, w: Work, p: Packet, parts: seq<seq<Frame>>)
      returns (more: seq<seq<Frame>>)
    requires InParts(handler, first, capacity, w, parts) && Size(p) <= w.room
    ensures InParts(handler, first, capacity, Handle(handler, w, p), more)
  {
    hide AllRemain, Remains, Emits, WireSize, Concat;
    var emitted := Emits(handler(|w.handled|), p, w.room);
    more := parts + [emitted];
    WireSizeAdds(w.frames, emitted);
    ConcatMore(parts, emitted);
    EmitsRemains(handler(|w.handled|), p, w.room);
    OneMoreRemains(handler, first, w.handled[first..], capacity, parts, p, emitted);
    assert (w.handled + [p])[first..] == w.handled[first..] + [p];
  }

  lemma ConcatMore(parts: seq<seq<Frame>>, part: seq<Frame>)
    ensures Concat(parts + [part]) == Concat(parts) + part
  {
    assert (parts + [part])[..|parts|] == parts;
  }

  lemma EmitsRemains(v: Verdict, p: Packet, room: nat)
    ensures Remains(v, p, room, Emits(v, p, room))
  {
  }

  lemma OneMoreRemains(handler: Handler, first: nat, ps: seq<Packet>, capacity: nat, parts: seq<seq<Frame>>,
                       p: Packet, part: seq<Frame>)
    requires AllRemain(handler, first, ps, capacity, parts)
    requires Remains(handler(first + |ps|), p, capacity - WireSize(Concat(parts)), part)
    ensures AllRemain(handler, first, ps + [p], capacity, parts + [part])
  {
    hide Remains, WireSize, Concat;
    var more := parts + [part];
    assert more[..|parts|] == parts;
    forall k | 0 <= k < |more| ensures RemainsAt(handler, first, ps + [p], capacity, more, k) {
      if k < |parts| {
        assert RemainsAt(handler, first, ps, capacity, parts, k);
        assert more[..k] == parts[..k];
      }
    }
  }

  lemma {:induction false} FeedRemains(handler: Handler, first: nat, capacity: nat, w: Work, ps: seq<Packet>,
                                       parts: seq<seq<Frame>>) returns (more: seq<seq<Frame>>)
    requires InParts(handler, first, capacity, w, parts)
    ensures InParts(handler, first, capacity, Feed(handler, w, ps), more)
    decreases |ps|
  {
    hide Handle, AllRemain, WireSize, Concat;
    more := parts;
    if ps != [] {
      if Size(ps[0]) <= w.room { more := HandleRemains(handler, first, capacity, w, ps[0], parts); }
      more := FeedRemains(handler, first, capacity, Receive(handler, w, ps[0]), ps[1..], more);
    }
  }

  lemma {:induction false} DrainRemains(handler: Handler, first: nat, capacity: nat, w: Work, parts: seq<seq<Frame>>)
      returns (more: seq<seq<Frame>>)
    requires InParts(handler, first, capacity, w, parts)
    ensures InParts(handler, first, capacity, Drain(handler, w), more)
    decreases |w.queue|
  {
    hide Handle, AllRemain, WireSize, Concat;
    more := parts;
    if w.queue != [] && Size(w.queue[0]) <= w.room {
      more := HandleRemains(handler, first, capacity, w, w.queue[0], parts);
      var next := Handle(handler, w, w.queue[0]);
      more := DrainRemains(handler, first, capacity, next.(queue := w.queue[1..]), more);
    }
  }

  /** One call writes, in order, what is left of each packet that it hands to the handler, and nothing else. */
  lemma ProcessingWrites(handler: Handler, s: State, input: seq<Byte>, size: nat) returns (parts: seq<seq<Frame>>)
    ensures var w, n := Processing(handler, s, input, size), |s.handled|;
      && n <= |w.handled| && w.frames == Concat(parts)
      && AllRemain(handler, n, w.handled[n..], Max(s.capacity, size), parts)
  {
    var start := Start(s, size);
    var n, ps := |s.handled|, FromClient(Read(input));
    assert start.handled[n..] == [];
    parts := FeedRemains(handler, n, start.room, start, ps, []);
    parts := DrainRemains(handler, n, start.room, Feed(handler, start, ps), parts);
  }

  datatype Call = Queue(packet: Packet) | Process(input: seq<Byte>, size: nat)

  function After(handler: Handler, s: State, call: Call): State {
    match call
    case Queue(packet) => s.(queue := s.queue + [packet])
    case Process(input, size) =>
      var w := Processing(handler, s, input, size);
      State(Max(s.capacity, size), w.queue, w.handled)
  }

  function AfterAll(handler: Handler, calls: seq<Call>): State {
    if calls == [] then State(0, [], [])
    else After(handler, AfterAll(handler, calls[..|calls| - 1]), calls[|calls| - 1])
  }

  function Accepts(call: Call): seq<Packet> {
    match call
    case Queue(packet) => [packet]
    case Process(input, _) => FromClient(Read(input))
  }

  /** Every packet that was queued or came in, in order of arrival. */
  function Accepted(calls: seq<Call>): seq<Packet> {
    if calls == [] then [] else Accepted(calls[..|calls| - 1]) + Accepts(calls[|calls| - 1])
  }

  function Start(s: State, size: nat): Work {
    Work(s.queue, s.handled, [], Max(s.capacity, size))
  }

  /** Which packets of the input fit when their turn comes. */
  function Mask(handler: Handler, s: State, input: seq<Byte>, size: nat): (mask: seq<bool>)
    ensures |mask| == |FromClient(Read(input))|
  {
    Fits(handler, Start(s, size), FromClient(Read(input)))
  }

  /** What is handled and what waits, one after the other: a call inserts the packets of its input, split,
      between the two. */
  lemma CallInserts(handler: Handler, s: State, input: seq<Byte>, size: nat)
    ensures var s' := After(handler, s, Process(input, size));
      s'.handled + s'.queue ==
        s.handled + Split(FromClient(Read(input)), Mask(handler, s, input, size)) + s.queue
  {
    hide Processing, Fits, Read, FromClient, Select, Reversed;
    var mask, n := ProcessingSplits(handler, s, input, size);
    var ps := FromClient(Read(input));
    var taken, delayed := Select(ps, mask, true), Select(ps, mask, false);
    PartsJoin(s.handled, taken, Reversed(delayed), s.queue, n);
  }

  lemma PartsJoin<T>(handled: seq<T>, taken: seq<T>, delayed: seq<T>, queue: seq<T>, n: nat)
    requires n <= |queue| && (delayed != [] ==> n == 0)
    ensures (handled + taken + queue[..n]) + (delayed + queue[n..]) == handled + (taken + delayed) + queue
  {
    assert queue == queue[..n] + queue[n..];
  }

  /** In every run, every packet that arrived has been handed to the handler exactly once or is still queued. */
  lemma {:induction false} EveryRunConserves(handler: Handler, calls: seq<Call>)
    ensures var s := AfterAll(handler, calls);
      multiset(s.handled) + multiset(s.queue) == multiset(Accepted(calls))
  {
    if calls != [] {
      var prefix, call := calls[..|calls| - 1], calls[|calls| - 1];
      EveryRunConserves(handler, prefix);
      CallConserves(handler, AfterAll(handler, prefix), call);
    }
  }

  lemma CallConserves(handler: Handler, s: State, call: Call)
    ensures var s' := After(handler, s, call);
      multiset(s'.handled) + multiset(s'.queue) == multiset(s.handled) + multiset(s.queue) + multiset(Accepts(call))
  {
    hide Processing, Mask, Read, FromClient, Split;
    if call.Process? {
      var s' := After(handler, s, call);
      CallInserts(handler, s, call.input, call.size);
      SplitConserves(Accepts(call), Mask(handler, s, call.input, call.size));
      assert multiset(s'.handled) + multiset(s'.queue) == multiset(s'.handled + s'.queue);
    }
  }

  /** The packets that did not come from the client. */
  function Injected(ps: seq<Packet>): seq<Packet> {
    if ps == [] then []
    else Injected(ps[..|ps| - 1]) + if ps[|ps| - 1].injectedBy != "" then [ps[|ps| - 1]] else []
  }

  lemma {:induction false} InjectedAdds(ps: seq<Packet>, qs: seq<Packet>)
    ensures Injected(ps + qs) == Injected(ps) + Injected(qs)
  {
    if qs == [] {
      assert ps + qs == ps;
    } else {
      var all := ps + qs;
      assert all[..|all| - 1] == ps + qs[..|qs| - 1];
      InjectedAdds(ps, qs[..|qs| - 1]);
    }
  }

  lemma {:induction false} NoneInjected(ps: seq<Packet>)
    requires forall p :: p in ps ==> p.injectedBy == ""
    ensures Injected(ps) == []
  {
    if ps != [] {
      assert ps[|ps| - 1] in ps;
      NoneInjected(ps[..|ps| - 1]);
    }
  }

  /** In every run, injected packets are handled in the order in which they were queued: those handled so
      far and those still waiting make up that order, whatever was delayed before them. */
  lemma {:induction false} InjectedInOrder(handler: Handler, calls: seq<Call>)
    ensures var s := AfterAll(handler, calls);
      Injected(s.handled) + Injected(s.queue) == Injected(Accepted(calls))
  {
    if calls != [] {
      var prefix, call := calls[..|calls| - 1], calls[|calls| - 1];
      InjectedInOrder(handler, prefix);
      CallKeepsOrder(handler, AfterAll(handler, prefix), call);
      InjectedAdds(Accepted(prefix), Accepts(call));
    }
  }

  lemma CallKeepsOrder(handler: Handler, s: State, call: Call)
    ensures var s' := After(handler, s, call);
      Injected(s'.handled) + Injected(s'.queue) == Injected(s.handled) + Injected(s.queue) + Injected(Accepts(call))
  {
    hide Injected, Processing, Mask, Read, Split;
    match call
    case Queue(packet) =>
      InjectedAdds(s.queue, [packet]);
    case Process(input, size) =>
      var s', ps, mask := After(handler, s, call), FromClient(Read(input)), Mask(handler, s, input, size);
      CallInserts(handler, s, input, size);
      forall p | p in Split(ps, mask) ensures p.injectedBy == "" { SplitKeeps(ps, mask, p); }
      NoneInjected(ps);
      NoneInjected(Split(ps, mask));
      InjectedAdds(s'.handled, s'.queue);
      InjectedAdds(s.handled + Split(ps, mask), s.queue);
      InjectedAdds(s.handled, Split(ps, mask));
  }

  /** The buffer is as large as the largest size asked for so far. */
  lemma {:induction false} CapacityIsLargest(handler: Handler, calls: seq<Call>, k: nat)
    requires k < |calls| && calls[k].Process?
    ensures var capacity := AfterAll(handler, calls).capacity;
      && capacity >= calls[k].size
      && exists j :: 0 <= j < |calls| && calls[j].Process? && capacity == calls[j].size
  {
    var prefix, call := calls[..|calls| - 1], calls[|calls| - 1];
    CapacityWas(handler, prefix);
    if k < |prefix| {
      CapacityIsLargest(handler, prefix, k);
      var j :| 0 <= j < |prefix| && prefix[j].Process? && AfterAll(handler, prefix).capacity == prefix[j].size;
      assert calls[j] == prefix[j];
    }
    assert call == calls[|prefix|];
  }

  lemma {:induction false} CapacityWas(handler: Handler, calls: seq<Call>)
    ensures var capacity := AfterAll(handler, calls).capacity;
      capacity == 0 || exists j :: 0 <= j < |calls| && calls[j].Process? && capacity == calls[j].size
  {
    if calls != [] {
      var prefix := calls[..|calls| - 1];
      CapacityWas(handler, prefix);
      if j :| 0 <= j < |prefix| && prefix[j].Process? && AfterAll(handler, prefix).capacity == prefix[j].size {
        assert calls[j] == prefix[j];
      }
      assert calls[|calls| - 1] == calls[|prefix|];
    }
  }

  /** A packet at the front that is larger than the buffer holds up all that is queued behind it, for as
      long as no larger buffer is asked for. */
  lemma {:induction false} LargePacketHoldsUp(handler: Handler, s: State, calls: seq<Call>) returns (i: nat)
    requires s.queue != [] && s.capacity < |s.queue[0].data| + 4
    requires forall k :: 0 <= k < |calls| && calls[k].Process? ==> calls[k].size < |s.queue[0].data| + 4
    ensures var t := Continue(handler, s, calls);
      t.capacity < |s.queue[0].data| + 4 && i + |s.queue| <= |t.queue| && t.queue[i..i + |s.queue|] == s.queue
  {
    if calls == [] {
      i := 0;
    } else {
      var prefix, call := calls[..|calls| - 1], calls[|calls| - 1];
      i := LargePacketHoldsUp(handler, s, prefix);
      assert call == calls[|prefix|];
      i := StillHeldUp(handler, Continue(handler, s, prefix), s.queue, call, i);
    }
  }

  lemma StillHeldUp(handler: Handler, s: State, queue: seq<Packet>, call: Call, i: nat) returns (j: nat)
    requires queue != [] && s.capacity < Size(queue[0])
    requires call.Process? ==> call.size < Size(queue[0])
    requires i + |queue| <= |s.queue| && s.queue[i..i + |queue|] == queue
    ensures var s' := After(handler, s, call);
      j + |queue| <= |s'.queue| && s'.queue[j..j + |queue|] == queue
  {
    match call
    case Queue(packet) =>
      j := i;
      InTheMiddle([], s.queue, [packet], 0, i, |queue|);
    case Process(input, size) =>
      j := HeldUpInCall(handler, s, queue, input, size, i);
  }

  lemma HeldUpInCall(handler: Handler, s: State, queue: seq<Packet>, input: seq<Byte>, size: nat, i: nat)
      returns (j: nat)
    requires queue != [] && Max(s.capacity, size) < Size(queue[0])
    requires i + |queue| <= |s.queue| && s.queue[i..i + |queue|] == queue
    ensures var queue' := Processing(handler, s, input, size).queue;
      j + |queue| <= |queue'| && queue'[j..j + |queue|] == queue
  {
    hide Processing, Fits, Mask, Select, Reversed, Read, FromClient;
    var mask, n := ProcessingSplits(handler, s, input, size);
    var delayed := Reversed(Select(FromClient(Read(input)), mask, false));
    assert s.queue[i] == queue[0];
    j := |delayed| + i - n;
    InTheMiddle(delayed, s.queue, [], n, i, |queue|);
  }

  lemma InTheMiddle<T>(before: seq<T>, items: seq<T>, after: seq<T>, from: nat, i: nat, n: nat)
    requires from <= i && i + n <= |items|
    ensures var all, j := before + items[from..] + after, |before| + i - from; all[j..j + n] == items[i..i + n]
  {
  }

  function Continue(handler: Handler, s: State, calls: seq<Call>): State {
    if calls == [] then s else After(handler, Continue(handler, s, calls[..|calls| - 1]), calls[|calls| - 1])
  }

  predicate Fine(p: Packet) {
    Representable(Frame(p.id, p.data))
  }

  predicate FineVerdict(v: Verdict) {
    v.Modified? ==> Representable(Frame(v.id, v.data))
  }

  predicate QueueFine(queue: seq<Packet>) {
    forall k :: 0 <= k < |queue| ==> Fine(queue[k])
  }

  predicate AllFine(w: Work) {
    && QueueFine(w.queue)
    && (forall k :: 0 <= k < |w.frames| ==> Representable(w.frames[k]))
  }

  lemma {:induction false} FeedKeepsFine(handler: Handler, w: Work, ps: seq<Packet>)
    requires AllFine(w) && QueueFine(ps) && forall n :: FineVerdict(handler(n))
    ensures AllFine(Feed(handler, w, ps))
    decreases |ps|
  {
    if ps != [] {
      assert Fine(ps[0]) && FineVerdict(handler(|w.handled|));
      FeedKeepsFine(handler, Receive(handler, w, ps[0]), ps[1..]);
    }
  }

  lemma {:induction false} DrainKeepsFine(handler: Handler, w: Work)
    requires AllFine(w) && forall n :: FineVerdict(handler(n))
    ensures AllFine(Drain(handler, w))
    decreases |w.queue|
  {
    if w.queue != [] && Size(w.queue[0]) <= w.room {
      assert Fine(w.queue[0]) && FineVerdict(handler(|w.handled|));
      DrainKeepsFine(handler, Handle(handler, w, w.queue[0]).(queue := w.queue[1..]));
    }
  }

  /** Whatever was delayed, injected and modified, if the header can express what is injected and what the
      handler makes of packets, every call of every run writes a stream that reads back as exactly the
      packets that were written. */
  lemma OutputReadsBack(handler: Handler, calls: seq<Call>, k: nat, counter: Word)
    requires k < |calls| && calls[k].Process?
    requires forall n :: FineVerdict(handler(n))
    requires forall i :: 0 <= i < |calls| ==> FineCall(calls[i])
    ensures var w := Processing(handler, AfterAll(handler, calls[..k]), calls[k].input, calls[k].size);
      Read(Written(w.frames, counter)) == w.frames
  {
    QueueStaysFine(handler, calls[..k]);
    var s := AfterAll(handler, calls[..k]);
    assert FineCall(calls[k]);
    ProcessingKeepsFine(handler, s, calls[k].input, calls[k].size);
    var w := Processing(handler, s, calls[k].input, calls[k].size);
    WrittenIsStream(w.frames, counter);
    ReadsBack(w.frames, seq(|w.frames|, _ => counter));
  }

  /** No input is longer than the address space. */
  predicate FineCall(call: Call) {
    match call
    case Queue(packet) => Fine(packet)
    case Process(input, _) => |input| < SIZE_RANGE
  }

  lemma ProcessingKeepsFine(handler: Handler, s: State, input: seq<Byte>, size: nat)
    requires forall n :: FineVerdict(handler(n))
    requires |input| < SIZE_RANGE && QueueFine(s.queue)
    ensures AllFine(Processing(handler, s, input, size))
  {
    ReadRepresentable(input);
    var start := Work(s.queue, s.handled, [], Max(s.capacity, size));
    FeedKeepsFine(handler, start, FromClient(Read(input)));
    DrainKeepsFine(handler, Feed(handler, start, FromClient(Read(input))));
  }

  lemma {:induction false} QueueStaysFine(handler: Handler, calls: seq<Call>)
    requires forall n :: FineVerdict(handler(n))
    requires forall i :: 0 <= i < |calls| ==> FineCall(calls[i])
    ensures QueueFine(AfterAll(handler, calls).queue)
  {
    if calls != [] {
      var prefix, call := calls[..|calls| - 1], calls[|calls| - 1];
      QueueStaysFine(handler, prefix);
      assert FineCall(call);
      if call.Process? { ProcessingKeepsFine(handler, AfterAll(handler, prefix), call.input, call.size); }
    }
  }

  lemma {:induction false} FeedUnchanged(handler: Handler, w: Work, frames: seq<Frame>)
    requires WireSize(frames) <= w.room
    requires forall n :: |w.handled| <= n < |w.handled| + |frames| ==> handler(n) == Unchanged
    ensures Feed(handler, w, FromClient(frames)) ==
            Work(w.queue, w.handled + FromClient(frames), w.frames + frames, w.room - WireSize(frames))
    decreases |frames|
  {
    var ps := FromClient(frames);
    if frames != [] {
      hide FromClient, WireSize, Receive, Emits;
      ClientFirst(frames);
      ReceiveUnchanged(handler, w, frames[0]);
      var next := Receive(handler, w, ps[0]);
      assert Feed(handler, w, ps) == Feed(handler, next, ps[1..]);
      FeedUnchanged(handler, next, frames[1..]);
      Regroup(w.handled, ps);
      Regroup(w.frames, frames);
    } else {
      assert w.handled + ps == w.handled && w.frames + frames == w.frames;
    }
  }

  lemma Regroup<T>(prefix: seq<T>, items: seq<T>)
    requires items != []
    ensures prefix + [items[0]] + items[1..] == prefix + items
  {
  }

  lemma ClientFirst(frames: seq<Frame>)
    requires frames != []
    ensures FromClient(frames) == [Packet(frames[0].id, frames[0].data, "")] + FromClient(frames[1..])
    ensures FromClient(frames)[1..] == FromClient(frames[1..])
    ensures WireSize(frames) == HEADER_SIZE + |frames[0].data| + WireSize(frames[1..])
  {
    WireSizeSplits([frames[0]], frames[1..]);
    assert [frames[0]] + frames[1..] == frames && [frames[0]][..0] == [];
  }

  lemma ReceiveUnchanged(handler: Handler, w: Work, f: Frame)
    requires HEADER_SIZE + |f.data| <= w.room && handler(|w.handled|) == Unchanged
    ensures var p := Packet(f.id, f.data, "");
      Receive(handler, w, p) == Work(w.queue, w.handled + [p], w.frames + [f], w.room - HEADER_SIZE - |f.data|)
  {
    assert [f][..0] == [];
    assert WireSize([f]) == HEADER_SIZE + |f.data|;
  }

  lemma {:induction false} WireSizeSplits(frames: seq<Frame>, more: seq<Frame>)
    ensures WireSize(frames + more) == WireSize(frames) + WireSize(more)
  {
    if more == [] {
      assert frames + more == frames;
    } else {
      var all := frames + more;
      assert all[..|all| - 1] == frames + more[..|more| - 1];
      WireSizeSplits(frames, more[..|more| - 1]);
    }
  }

  /** With nothing queued, a handler that changes nothing and room enough, a well-formed input comes out as
      it went in, but for the counters. */
  lemma Transparent(handler: Handler, s: State, frames: seq<Frame>, counters: seq<Word>, counter: Word, size: nat)
    requires s.queue == [] && |counters| == |frames|
    requires forall k :: 0 <= k < |frames| ==> Representable(frames[k])
    requires forall n :: |s.handled| <= n < |s.handled| + |frames| ==> handler(n) == Unchanged
    requires |Stream(frames, counters)| <= Max(s.capacity, size)
    ensures var input := Stream(frames, counters);
      var w := Processing(handler, s, input, size);
      var output := Written(w.frames, counter);
      && w.queue == [] && w.handled == s.handled + FromClient(frames)
      && |output| == |input|
      && forall i :: 0 <= i < |input| ==> output[i] == input[i] || InCounter(frames, i)
  {
    var input, same := Stream(frames, counters), seq(|frames|, _ => counter);
    ReadsBack(frames, counters);
    WrittenIsStream(frames, counter);
    SameLength(frames, counters, same);
    FeedUnchanged(handler, Work([], s.handled, [], Max(s.capacity, size)), frames);
    var w := Processing(handler, s, input, size);
    assert w.frames == [] + frames == frames;
    forall i | 0 <= i < |input| ensures Written(frames, counter)[i] == input[i] || InCounter(frames, i) {
      CountersOnly(frames, counters, same, i);
    }
  }

  lemma {:induction false} SameLength(frames: seq<Frame>, before: seq<Word>, after: seq<Word>)
    requires |before| == |after| == |frames|
    ensures |Stream(frames, before)| == |Stream(frames, after)|
  {
    if frames != [] {
      SameLength(frames[1..], before[1..], after[1..]);
    }
  }

  lemma FeedStep(handler: Handler, w: Work, input: seq<Byte>)
    requires |input| >= HEADER_SIZE
    ensures var packed, rest := WordAt(input), input[HEADER_SIZE..];
      var n := UnpackedSize(packed);
      Feed(handler, w, FromClient(Read(input))) ==
        if n > |rest| then Feed(handler, w, FromClient(Read(rest)))
        else
          Feed(handler, Receive(handler, w, Packet(UnpackedId(packed), rest[..n], "")), FromClient(Read(rest[n..])))
  {
    if UnpackedSize(WordAt(input)) <= |input| - HEADER_SIZE { ClientFirst(Read(input)); }
  }

  lemma FeedEnds(handler: Handler, w: Work, input: seq<Byte>)
    requires |input| < HEADER_SIZE
    ensures Feed(handler, w, FromClient(Read(input))) == w
  {
  }

  /** `packet_queue`. The output buffer is kept from call to call and only ever replaced by a larger one. */
  class PacketQueue {
    const handler: Handler
    var queue: seq<Packet>
    var outputBuffer: array<Byte>
    var calls: nat
    ghost var handled: seq<Packet>

    ghost predicate Valid()
      reads this
    {
      calls == |handled|
    }

    ghost function Now(): State
      reads this
    {
      State(outputBuffer.Length, queue, handled)
    }

    constructor (handler: Handler)
      ensures Valid() && fresh(outputBuffer) && this.handler == handler && Now() == State(0, [], [])
    {
      this.handler := handler;
      queue, calls, handled := [], 0, [];
      outputBuffer := new Byte[0];
    }

    method Queue(packet: Packet)
      requires Valid()
      modifies this`queue
      ensures Valid() && Now() == After(handler, old(Now()), Call.Queue(packet))
    {
      queue := queue + [packet];
    }

    /** Copies bytes to the front of the free part of the buffer. */
    method Write(at: nat, bytes: seq<Byte>) returns (next: nat)
      requires at + |bytes| <= outputBuffer.Length
      modifies outputBuffer
      ensures next == at + |bytes| && outputBuffer[..next] == old(outputBuffer[..at]) + bytes
    {
      for i := 0 to |bytes|
        invariant outputBuffer[..at + i] == old(outputBuffer[..at]) + bytes[..i]
      {
        outputBuffer[at + i] := bytes[i];
      }
      next := at + |bytes|;
    }

    method WriteFrame(at: nat, id: Word, data: seq<Byte>, counter: Word, ghost frames: seq<Frame>) returns (next: nat)
      requires at + HEADER_SIZE + |data| <= outputBuffer.Length && outputBuffer[..at] == Written(frames, counter)
      modifies outputBuffer
      ensures next == at + HEADER_SIZE + |data|
      ensures outputBuffer[..next] == Written(frames + [Frame(id, data)], counter)
    {
      var middle := Write(at, Header(id, |data|, counter));
      next := Write(middle, data);
      ghost var f := Frame(id, data);
      assert (frames + [f])[..|frames|] == frames;
      assert Written(frames, counter) + Header(id, |data|, counter) + data ==
             Written(frames, counter) + FrameBytes(f, counter);
    }

    /** Hands a packet to the handler and writes what comes of it. */
    method ProcessPacket(at: nat, p: Packet, counter: Word, ghost w: Work) returns (next: nat, ghost w': Work)
      requires Valid() && InStep(w, at, counter) && Size(p) <= w.room
      modifies this`calls, this`handled, outputBuffer
      ensures Valid() && w' == Handle(handler, w, p) && InStep(w', next, counter)
    {
      var verdict := handler(calls);
      calls, handled := calls + 1, handled + [p];
      ghost var emitted := Emits(verdict, p, w.room);
      w' := Handle(handler, w, p);
      WireSizeAdds(w.frames, emitted);
      match verdict
      case Blocked =>
        assert w.frames + [] == w.frames;
        next := at;
      case Unchanged =>
        next := WriteFrame(at, p.id, p.data, counter, w.frames);
      case Modified(id, data) =>
        if |data| + HEADER_SIZE > outputBuffer.Length - at {
          next := WriteFrame(at, p.id, p.data, counter, w.frames);
        } else {
          next := WriteFrame(at, id, data, counter, w.frames);
        }
    }

    /** The fields and the position in the buffer agree with the call in progress. */
    ghost predicate InStep(w: Work, at: nat, counter: Word)
      reads this, outputBuffer
    {
      && w.queue == queue && w.handled == handled
      && at + w.room == outputBuffer.Length
      && outputBuffer[..at] == Written(w.frames, counter)
    }

    /** One call. The bytes returned are the first part of the buffer. */
    method ProcessBuffer(input: seq<Byte>, counter: Word, size: nat) returns (output: seq<Byte>)
      requires Valid()
      modifies this, outputBuffer
      ensures Valid() && Now() == After(handler, old(Now()), Process(input, size))
      ensures output == Written(Processing(handler, old(Now()), input, size).frames, counter)
      ensures |old(handled)| <= |handled| && exists parts ::
        && AllRemain(handler, |old(handled)|, handled[|old(handled)|..], outputBuffer.Length, parts)
        && LaysOut(output, Concat(parts), counter)
      ensures |output| <= outputBuffer.Length && output == outputBuffer[..|output|]
      ensures outputBuffer == old(outputBuffer) || fresh(outputBuffer)
    {
      hide Read, Feed, FromClient, Written, Handle, AllRemain, LaysOut, Concat;
      ghost var before := Now();
      if outputBuffer.Length < size {
        outputBuffer := new Byte[size];
      }
      ghost var start := Work(queue, handled, [], outputBuffer.Length);
      ghost var w := start;
      var rest := input;
      var at: nat := 0;
      while |rest| >= HEADER_SIZE
        invariant Valid() && InStep(w, at, counter)
        invariant outputBuffer.Length == Max(before.capacity, size)
        invariant outputBuffer == old(outputBuffer) || fresh(outputBuffer)
        invariant Feed(handler, w, FromClient(Read(rest))) == Feed(handler, start, FromClient(Read(input)))
      {
        FeedStep(handler, w, rest);
        var packed := WordAt(rest);
        rest := rest[HEADER_SIZE..];
        var n := UnpackedSize(packed);
        if n > |rest| {
          continue;
        }
        var p := Packet(UnpackedId(packed), rest[..n], "");
        rest := rest[n..];
        if |p.data| + HEADER_SIZE <= outputBuffer.Length - at {
          at, w := ProcessPacket(at, p, counter, w);
        } else {
          queue := [p] + queue;
          w := Receive(handler, w, p);
        }
      }
      FeedEnds(handler, w, rest);
      ghost var fed := w;
      while queue != [] && |queue[0].data| + HEADER_SIZE <= outputBuffer.Length - at
        invariant Valid() && InStep(w, at, counter)
        invariant outputBuffer.Length == Max(before.capacity, size)
        invariant outputBuffer == old(outputBuffer) || fresh(outputBuffer)
        invariant Drain(handler, w) == Drain(handler, fed)
        decreases |queue|
      {
        var p := queue[0];
        at, w := ProcessPacket(at, p, counter, w);
        queue := queue[1..];
        w := w.(queue := queue);
      }
      output := outputBuffer[..at];
      ghost var parts := ProcessingWrites(handler, before, input, size);
      WrittenLaysOut(w.frames, counter);
    }
  }
}
