/** The byte form of packets: a four-byte header with the id and size packed into one word and a
    counter in another, followed by the data. */
module PacketFrames {
  import opened Bytes

  const HEADER_SIZE: nat := 4
  /** `std::size_t` is 32 bits wide. */
  const SIZE_RANGE: int := 0x1_0000_0000

  datatype Frame = Frame(id: Word, data: seq<Byte>)

  /** Nine bits of the id, and the size with the header in units of four bytes in the other seven. */
  function Pack(id: Word, size: nat): Word {
    id % 0x200 + (size + HEADER_SIZE) / 4 % 0x80 * 0x200
  }

  function UnpackedId(packed: Word): Word {
    packed % 0x200
  }

  /** The size without the header. It wraps around when the packed size is zero. */
  function UnpackedSize(packed: Word): nat {
    (packed / 0x200 * 4 - HEADER_SIZE) % SIZE_RANGE
  }

  function Header(id: Word, size: nat, counter: Word): (bytes: seq<Byte>)
    ensures |bytes| == HEADER_SIZE
  {
    WordBytes(Pack(id, size)) + WordBytes(counter)
  }

  function FrameBytes(f: Frame, counter: Word): (bytes: seq<Byte>)
    ensures |bytes| == HEADER_SIZE + |f.data|
  {
    Header(f.id, |f.data|, counter) + f.data
  }

  /** Frames one after the other, each with its own counter. */
  function Stream(frames: seq<Frame>, counters: seq<Word>): (bytes: seq<Byte>)
    requires |counters| == |frames|
  {
    if frames == [] then [] else FrameBytes(frames[0], counters[0]) + Stream(frames[1..], counters[1..])
  }

  /** Frames as they are written, all with the same counter. */
  function Written(frames: seq<Frame>, counter: Word): (bytes: seq<Byte>)
    ensures |bytes| == WireSize(frames)
  {
    if frames == [] then []
    else
      Written(frames[..|frames| - 1], counter) + FrameBytes(frames[|frames| - 1], counter)
  }

  function WireSize(frames: seq<Frame>): nat {
    if frames == [] then 0 else WireSize(frames[..|frames| - 1]) + HEADER_SIZE + |frames[|frames| - 1].data|
  }

  /** What the input loop reads. A header whose size goes beyond the input is skipped, and what follows
      it is read as a header again. */
  function Read(input: seq<Byte>): (frames: seq<Frame>)
    decreases |input|
  {
    if |input| < HEADER_SIZE then []
    else
      var packed, rest := WordAt(input), input[HEADER_SIZE..];
      var size := UnpackedSize(packed);
      if size > |rest| then Read(rest)
      else [Frame(UnpackedId(packed), rest[..size])] + Read(rest[size..])
  }

  /** What the header can express: nine bits of id, and seven bits of size in units of four bytes. */
  predicate Representable(f: Frame) {
    f.id < 0x200 && |f.data| % 4 == 0 && |f.data| <= 504
  }

  /** The header keeps id and size exactly when they fit it. */
  lemma HeaderRoundTrip(f: Frame)
    requires |f.data| < SIZE_RANGE - HEADER_SIZE
    ensures Representable(f) <==>
      UnpackedId(Pack(f.id, |f.data|)) == f.id && UnpackedSize(Pack(f.id, |f.data|)) == |f.data|
  {
    var units := (|f.data| + HEADER_SIZE) / 4 % 0x80;
    var packed := Pack(f.id, |f.data|);
    assert packed / 0x200 == units && packed % 0x200 == f.id % 0x200;
  }

  /** Every frame that is read is representable: a packed size of zero means more than any input holds. */
  lemma {:induction false} ReadRepresentable(input: seq<Byte>)
    requires |input| < SIZE_RANGE
    ensures forall k :: 0 <= k < |Read(input)| ==> Representable(Read(input)[k])
    decreases |input|
  {
    hide Read;
    if |input| < 4 {
      ReadNothing(input);
    } else {
      ReadByBytes(input);
      var id, size := input[0] as int + input[1] as int % 2 * 0x100, input[1] as int / 2 * 4;
      if size == 0 || size > |input| {
        ReadRepresentable(input[4..]);
      } else {
        ReadRepresentable(input[size..]);
        assert Representable(Frame(id, input[4..size]));
      }
    }
  }

  lemma ReadFirst(f: Frame, counter: Word, rest: seq<Byte>)
    requires Representable(f)
    ensures Read(FrameBytes(f, counter) + rest) == [f] + Read(rest)
  {
    var input := FrameBytes(f, counter) + rest;
    assert input == WordBytes(Pack(f.id, |f.data|)) + (WordBytes(counter) + f.data + rest);
    WordRoundTrip(Pack(f.id, |f.data|), WordBytes(counter) + f.data + rest);
    HeaderRoundTrip(f);
    assert input[HEADER_SIZE..] == f.data + rest;
    assert (f.data + rest)[..|f.data|] == f.data && (f.data + rest)[|f.data|..] == rest;
  }

  /** Reading back what was written gives the same frames exactly when every one is representable. */
  lemma {:induction false} StreamRoundTrip(frames: seq<Frame>, counters: seq<Word>)
    requires |counters| == |frames| && |Stream(frames, counters)| < SIZE_RANGE
    ensures Read(Stream(frames, counters)) == frames <==> forall k :: 0 <= k < |frames| ==> Representable(frames[k])
  {
    if forall k :: 0 <= k < |frames| ==> Representable(frames[k]) {
      ReadsBack(frames, counters);
    } else {
      ReadRepresentable(Stream(frames, counters));
    }
  }

  lemma {:induction false} ReadsBack(frames: seq<Frame>, counters: seq<Word>)
    requires |counters| == |frames|
    requires forall k :: 0 <= k < |frames| ==> Representable(frames[k])
    ensures Read(Stream(frames, counters)) == frames
  {
    if frames != [] {
      ReadFirst(frames[0], counters[0], Stream(frames[1..], counters[1..]));
      ReadsBack(frames[1..], counters[1..]);
    }
  }

  lemma {:induction false} StreamAdds(frames: seq<Frame>, counters: seq<Word>, f: Frame, counter: Word)
    requires |counters| == |frames|
    ensures Stream(frames + [f], counters + [counter]) == Stream(frames, counters) + FrameBytes(f, counter)
  {
    if frames == [] {
      assert [f][1..] == [] && [counter][1..] == [];
      assert frames + [f] == [f] && counters + [counter] == [counter];
    } else {
      assert (frames + [f])[1..] == frames[1..] + [f] && (counters + [counter])[1..] == counters[1..] + [counter];
      StreamAdds(frames[1..], counters[1..], f, counter);
    }
  }

  lemma {:induction false} WrittenIsStream(frames: seq<Frame>, counter: Word)
    ensures Written(frames, counter) == Stream(frames, seq(|frames|, _ => counter))
  {
    if frames != [] {
      var prefix, last := frames[..|frames| - 1], frames[|frames| - 1];
      WrittenIsStream(prefix, counter);
      StreamAdds(prefix, seq(|prefix|, _ => counter), last, counter);
      assert prefix + [last] == frames;
      assert seq(|prefix|, _ => counter) + [counter] == seq(|frames|, _ => counter);
    }
  }

  /** Only the counters tell two streams of the same frames apart. */
  lemma {:induction false} CountersOnly(frames: seq<Frame>, before: seq<Word>, after: seq<Word>, i: nat)
    requires |before| == |after| == |frames| && i < |Stream(frames, before)|
    ensures |Stream(frames, after)| == |Stream(frames, before)|
    ensures Stream(frames, after)[i] == Stream(frames, before)[i] || InCounter(frames, i)
    decreases |frames|
  {
    if frames != [] {
      var n := HEADER_SIZE + |frames[0].data|;
      if Stream(frames[1..], before[1..]) != [] {
        CountersOnly(frames[1..], before[1..], after[1..], if i < n then 0 else i - n);
      } else {
        EmptyStream(frames[1..], before[1..]);
      }
    }
  }

  lemma EmptyStream(frames: seq<Frame>, counters: seq<Word>)
    requires |counters| == |frames| && Stream(frames, counters) == []
    ensures frames == []
  {
  }

  /** Whether byte `i` of a stream belongs to the counter of a frame. */
  predicate InCounter(frames: seq<Frame>, i: nat)
    decreases |frames|
  {
    frames != [] &&
    var n := HEADER_SIZE + |frames[0].data|;
    if i < n then 2 <= i < HEADER_SIZE else InCounter(frames[1..], i - n)
  }

  /** Where frame `k` lies among the bytes and what they are: the id and the size with the header in units of
      four bytes, packed into the first two, the counter in the next two, low byte first, and the data. */
  ghost predicate LaidOut(bytes: seq<Byte>, frames: seq<Frame>, k: nat, counter: Word)
    requires k < |frames|
  {
    var at, id, data := WireSize(frames[..k]), frames[k].id, frames[k].data;
    && at + 4 + |data| <= |bytes|
    && bytes[at] == id % 0x100 && bytes[at + 1] == id / 0x100 % 2 + (|data| / 4 + 1) % 0x80 * 2
    && bytes[at + 2] == counter % 0x100 && bytes[at + 3] == counter / 0x100
    && bytes[at + 4..at + 4 + |data|] == data
  }

  lemma HeaderBytes(id: Word, size: nat, counter: Word)
    ensures Header(id, size, counter) ==
      [id % 0x100, id / 0x100 % 2 + (size / 4 + 1) % 0x80 * 2, counter % 0x100, counter / 0x100]
  {
    var units := (size + HEADER_SIZE) / 4 % 0x80;
    var packed := Pack(id, size);
    assert units == (size / 4 + 1) % 0x80;
    assert packed == id % 0x200 + units * 0x200;
    assert id % 0x200 == id % 0x100 + id / 0x100 % 2 * 0x100;
    assert packed % 0x100 == id % 0x100 && packed / 0x100 == id / 0x100 % 2 + units * 2;
  }

  /** What is written is laid out like that. */
  lemma {:induction false} WrittenIsLaidOut(frames: seq<Frame>, counter: Word, k: nat)
    requires k < |frames|
    ensures LaidOut(Written(frames, counter), frames, k, counter)
    decreases |frames|
  {
    hide Header, LaidOut;
    var prefix, last := frames[..|frames| - 1], frames[|frames| - 1];
    var before := Written(prefix, counter);
    assert prefix + [last] == frames;
    if k < |prefix| {
      WrittenIsLaidOut(prefix, counter, k);
      StillLaidOut(before, FrameBytes(last, counter), prefix, last, k, counter);
    } else {
      HeaderBytes(last.id, |last.data|, counter);
      LastIsLaidOut(before, prefix, last, counter);
    }
  }

  lemma LastIsLaidOut(before: seq<Byte>, prefix: seq<Frame>, last: Frame, counter: Word)
    requires |before| == WireSize(prefix)
    ensures LaidOut(before + FrameBytes(last, counter), prefix + [last], |prefix|, counter)
  {
    hide Header, WireSize, FrameBytes;
    var all := prefix + [last];
    assert all[..|prefix|] == prefix && all[|prefix|] == last;
    HeaderBytes(last.id, |last.data|, counter);
    var header := Header(last.id, |last.data|, counter);
    assert FrameBytes(last, counter) == header + last.data by { FrameIs(last, counter); }
    LastLaidOut(before, header, last.data);
  }

  lemma FrameIs(f: Frame, counter: Word)
    ensures FrameBytes(f, counter) == Header(f.id, |f.data|, counter) + f.data
  {
  }

  /** These frames, one after the other, and nothing else. */
  ghost predicate LaysOut(bytes: seq<Byte>, frames: seq<Frame>, counter: Word) {
    |bytes| == WireSize(frames) && forall k :: 0 <= k < |frames| ==> LaidOut(bytes, frames, k, counter)
  }

  lemma WrittenLaysOut(frames: seq<Frame>, counter: Word)
    ensures LaysOut(Written(frames, counter), frames, counter)
  {
    forall k | 0 <= k < |frames| ensures LaidOut(Written(frames, counter), frames, k, counter) {
      WrittenIsLaidOut(frames, counter, k);
    }
  }

  lemma StillLaidOut(before: seq<Byte>, more: seq<Byte>, prefix: seq<Frame>, last: Frame, k: nat, counter: Word)
    requires k < |prefix| && LaidOut(before, prefix, k, counter)
    ensures LaidOut(before + more, prefix + [last], k, counter)
  {
    assert (prefix + [last])[..k] == prefix[..k];
    var at, n := WireSize(prefix[..k]), |prefix[k].data|;
    assert (before + more)[at + 4..at + 4 + n] == before[at + 4..at + 4 + n];
  }

  lemma LastLaidOut(before: seq<Byte>, header: seq<Byte>, data: seq<Byte>)
    requires |header| == 4
    ensures var bytes, at := before + (header + data), |before|;
      && bytes[at] == header[0] && bytes[at + 1] == header[1]
      && bytes[at + 2] == header[2] && bytes[at + 3] == header[3]
      && bytes[at + 4..at + 4 + |data|] == data
  {
  }

  /** What is read, byte by byte: a header that announces no more than there is makes a frame, any other is
      passed over, and so is one that announces less than itself. */
  lemma ReadByBytes(input: seq<Byte>)
    requires 4 <= |input| < SIZE_RANGE
    ensures var id, size := input[0] as int + input[1] as int % 2 * 0x100, input[1] as int / 2 * 4;
      Read(input) ==
        if size == 0 || size > |input| then Read(input[4..])
        else [Frame(id, input[4..size])] + Read(input[size..])
  {
    hide *;
    var id, size := input[0] as int + input[1] as int % 2 * 0x100, input[1] as int / 2 * 4;
    HeaderParts(input);
    if size == 0 || size > |input| { ReadSkips(input, size); } else { ReadTakes(input, id, size); }
  }

  lemma HeaderParts(input: seq<Byte>)
    requires |input| >= 2
    ensures UnpackedId(WordAt(input)) == input[0] as int + input[1] as int % 2 * 0x100
    ensures var size := input[1] as int / 2 * 4;
      UnpackedSize(WordAt(input)) == if size == 0 then SIZE_RANGE - 4 else size - 4
  {
    var packed := WordAt(input);
    assert packed / 0x200 == input[1] as int / 2;
  }

  lemma PartsOfRest<T>(s: seq<T>, i: nat, j: nat)
    requires i <= j <= |s|
    ensures s[i..][..j - i] == s[i..j] && s[i..][j - i..] == s[j..]
  {
  }

  lemma ReadTakes(input: seq<Byte>, id: Word, size: nat)
    requires 4 <= size <= |input| && UnpackedId(WordAt(input)) == id && UnpackedSize(WordAt(input)) == size - 4
    ensures Read(input) == [Frame(id, input[4..size])] + Read(input[size..])
  {
    hide WordAt, UnpackedId, UnpackedSize;
    PartsOfRest(input, 4, size);
  }

  lemma ReadSkips(input: seq<Byte>, size: nat)
    requires 4 <= |input| < SIZE_RANGE && (size == 0 || size > |input|)
    requires UnpackedSize(WordAt(input)) == if size == 0 then SIZE_RANGE - 4 else size - 4
    ensures Read(input) == Read(input[4..])
  {
    hide WordAt, UnpackedId, UnpackedSize;
  }

  lemma ReadNothing(input: seq<Byte>)
    requires |input| < 4
    ensures Read(input) == []
  {
  }
}
