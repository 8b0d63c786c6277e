/** Hooking a function: the first instructions of the target are moved to a block of their own, with a jump
    back behind them, and a jump to the callback takes their place. */
module Trampoline {
  import opened Bytes
  import opened Instructions
  import opened Sequences

  const RAW_SIZE: nat := MAX_INSTRUCTION_SIZE + JUMP_SIZE
  const THUNK_SIZE: nat := 2 * JUMP_SIZE
  const NOP: Byte := 0x90
  const HOT_PATCH: seq<Byte> := [SHORT_JUMP, 0xF9]

  /** Where `n` jumps in a row lead, or fewer if they end before. */
  function Follows(m: seq<Byte>, at: Address, n: nat): Address
    decreases n
  {
    if n == 0 || !IsJump(m, at) then at else Follows(m, Follow(m, at), n - 1)
  }

  lemma {:induction false} FollowsOn(m: seq<Byte>, at: Address, n: nat)
    ensures var before := Follows(m, at, n);
      Follows(m, at, n + 1) == if IsJump(m, before) then Follow(m, before) else before
    decreases n
  {
    if n > 0 && IsJump(m, at) { FollowsOn(m, Follow(m, at), n - 1); }
  }

  lemma {:induction false} LandedBefore(m: seq<Byte>, at: Address, n: nat, more: nat)
    requires !IsJump(m, Follows(m, at, n))
    ensures Follows(m, at, n + more) == Follows(m, at, n)
  {
    if more > 0 {
      LandedBefore(m, at, n, more - 1);
      FollowsOn(m, at, n + more - 1);
    }
  }

  /** There are only so many addresses: jumps that go on for that long go on for ever. */
  lemma JumpsForEver(m: seq<Byte>, at: Address, n: nat)
    requires IsJump(m, Follows(m, at, ADDRESSES))
    ensures IsJump(m, Follows(m, at, n))
  {
    hide *;
    var i, j := SameStop(m, at);
    forall k: nat | k <= j ensures IsJump(m, Follows(m, at, k)) {
      if !IsJump(m, Follows(m, at, k)) { LandedBefore(m, at, k, ADDRESSES - k); }
    }
    RoundsAndRounds(m, at, i, j, n);
  }

  lemma SameStop(m: seq<Byte>, at: Address) returns (i: nat, j: nat)
    ensures i < j <= ADDRESSES && Follows(m, at, i) == Follows(m, at, j)
  {
    hide *;
    var stops: seq<int> := seq(ADDRESSES + 1, k requires 0 <= k => Follows(m, at, k));
    i, j := Pigeonhole(stops, Below(ADDRESSES));
  }

  ghost function Below(n: nat): (r: set<int>)
    ensures |r| == n && forall a :: a in r <==> 0 <= a < n
  {
    if n == 0 then {} else Below(n - 1) + {n - 1}
  }

  lemma {:induction false} RoundsAndRounds(m: seq<Byte>, at: Address, i: nat, j: nat, n: nat)
    requires i < j && Follows(m, at, i) == Follows(m, at, j)
    requires forall k: nat :: k <= j ==> IsJump(m, Follows(m, at, k))
    ensures exists k: nat :: k <= j && Follows(m, at, n) == Follows(m, at, k)
    ensures IsJump(m, Follows(m, at, n))
  {
    if n > j {
      RoundsAndRounds(m, at, i, j, n - 1);
      FollowsOn(m, at, n - 1);
      var k: nat :| k <= j && Follows(m, at, n - 1) == Follows(m, at, k);
      FollowsOn(m, at, k);
      if k == j { FollowsOn(m, at, i); }
      assert Follows(m, at, n) == Follows(m, at, if k < j then k + 1 else i + 1);
    }
  }

  /** The end of the instructions that have to be moved for a jump to fit at `start`. */
  function Stolen(m: seq<Byte>, start: nat, mark: nat): Decoded
    requires start <= mark < start + JUMP_SIZE
    decreases start + JUMP_SIZE - mark
  {
    match NextInstruction(m, mark)
    case Next(at) =>
      AtLeastOne(m, mark);
      if at < start + JUMP_SIZE then Stolen(m, start, at) else Next(at)
    case error => error
  }

  predicate AllPlain(m: seq<Byte>, start: nat, mark: nat)
    requires start <= mark < start + JUMP_SIZE
    decreases start + JUMP_SIZE - mark
  {
    Plain(m, mark) &&
    match NextInstruction(m, mark)
    case Next(at) =>
      AtLeastOne(m, mark);
      at < start + JUMP_SIZE ==> AllPlain(m, start, at)
    case _ => true
  }

  /** Plain instructions can always be moved: between five and fifteen bytes of them, so they and the jump
      back fit the block. */
  lemma {:induction false} PlainFits(m: seq<Byte>, start: nat, mark: nat)
    requires start <= mark < start + JUMP_SIZE && AllPlain(m, start, mark)
    ensures Stolen(m, start, mark).Next?
    ensures start + JUMP_SIZE <= Stolen(m, start, mark).at <= start + MAX_INSTRUCTION_SIZE
    decreases start + JUMP_SIZE - mark
  {
    PlainLength(m, mark);
    var at := NextInstruction(m, mark).at;
    if at < start + JUMP_SIZE { PlainFits(m, start, at); }
  }

  lemma {:induction false} StolenBound(m: seq<Byte>, start: nat, mark: nat)
    requires start <= mark < start + JUMP_SIZE && Stolen(m, start, mark).Next?
    ensures Stolen(m, start, mark).at >= start + JUMP_SIZE
    decreases start + JUMP_SIZE - mark
  {
    AtLeastOne(m, mark);
    var at := NextInstruction(m, mark).at;
    if at < start + JUMP_SIZE { StolenBound(m, start, at); }
  }

  /** Whole instructions from `start` to `end`, as many as it takes for a jump to fit and no more. */
  ghost predicate WholeInstructions(m: seq<Byte>, start: nat, marks: seq<nat>, end: nat) {
    && |marks| > 1 && marks[0] == start && marks[|marks| - 1] == end >= start + 5
    && forall i :: 0 <= i < |marks| - 1 ==> marks[i] < start + 5 && FollowsAt(m, marks, i)
  }

  ghost predicate TakesWhole(m: seq<Byte>, start: nat, end: nat) {
    exists marks :: WholeInstructions(m, start, marks, end)
  }

  ghost predicate FollowsAt(m: seq<Byte>, marks: seq<nat>, i: nat)
    requires i + 1 < |marks|
  {
    IsInstruction(m, marks[i], marks[i + 1])
  }

  lemma {:induction false} StolenIsWhole(m: seq<Byte>, start: nat, mark: nat) returns (marks: seq<nat>)
    requires start <= mark < start + JUMP_SIZE && Stolen(m, start, mark).Next?
    ensures |marks| > 1 && marks[0] == mark && marks[|marks| - 1] == Stolen(m, start, mark).at >= start + 5
    ensures forall i :: 0 <= i < |marks| - 1 ==> marks[i] < start + 5 && FollowsAt(m, marks, i)
    decreases start + JUMP_SIZE - mark
  {
    hide NextInstruction, IsInstruction;
    NextByTable(m, mark);
    AtLeastOne(m, mark);
    var at := NextInstruction(m, mark).at;
    if at < start + JUMP_SIZE {
      var rest := StolenIsWhole(m, start, at);
      marks := [mark] + rest;
      forall i | 0 <= i < |marks| - 1 ensures marks[i] < start + 5 && FollowsAt(m, marks, i) {
        if i > 0 { assert FollowsAt(m, rest, i - 1); }
      }
    } else {
      marks := [mark, at];
    }
  }

  /** Where the last of those instructions begins. */
  function LastStart(m: seq<Byte>, start: nat, mark: nat): (last: nat)
    requires start <= mark < start + JUMP_SIZE
    ensures mark <= last < start + JUMP_SIZE
    decreases start + JUMP_SIZE - mark
  {
    match NextInstruction(m, mark)
    case Next(at) =>
      AtLeastOne(m, mark);
      if at < start + JUMP_SIZE then LastStart(m, start, at) else mark
    case _ => mark
  }

  lemma {:induction false} LastEnds(m: seq<Byte>, start: nat, mark: nat)
    requires start <= mark < start + JUMP_SIZE
    ensures NextInstruction(m, LastStart(m, start, mark)) == Stolen(m, start, mark)
    decreases start + JUMP_SIZE - mark
  {
    hide NextInstruction;
    match NextInstruction(m, mark)
    case Next(at) =>
      AtLeastOne(m, mark);
      if at < start + JUMP_SIZE { LastEnds(m, start, at); }
    case _ =>
  }

  /** How many prefixes an instruction has. */
  function PrefixCount(m: seq<Byte>, it: nat): nat {
    AfterPrefixes(m, Prefixes(it, false, false)).it - it
  }

  /** How long it is without them. */
  function PlainPart(m: seq<Byte>, it: nat): nat {
    var p := AfterPrefixes(m, Prefixes(it, false, false));
    OperandsBound(m, p.it, p.operand16, p.address16);
    AfterOpcode(m, p.it, p.operand16, p.address16) - p.it
  }

  /** The moved instructions are more than the block has room for exactly when the last one, with its
      prefixes, reaches too far. It must have at least one prefix for that. */
  lemma OverrunsExactly(m: seq<Byte>, start: nat)
    requires Stolen(m, start, start).Next?
    ensures var last := LastStart(m, start, start);
      && (Stolen(m, start, start).at > start + MAX_INSTRUCTION_SIZE <==>
          (last - start) + PrefixCount(m, last) + PlainPart(m, last) > MAX_INSTRUCTION_SIZE)
      && 1 <= PlainPart(m, last) <= 11
      && (Stolen(m, start, start).at > start + MAX_INSTRUCTION_SIZE ==> PrefixCount(m, last) > 0)
  {
    hide OperandsOf, Stolen, LastStart;
    var last := LastStart(m, start, start);
    LastEnds(m, start, start);
    var p := AfterPrefixes(m, Prefixes(last, false, false));
    OperandsBound(m, p.it, p.operand16, p.address16);
  }

  /** Four one-byte instructions and one of twelve bytes, of which one is a prefix: sixteen bytes are moved. */
  lemma OneByteTooMany(m: seq<Byte>, start: nat)
    requires start + 8 <= |m|
    requires m[start..start + 8] == [NOP, NOP, NOP, NOP, 0x2E, 0x81, 0x84, 0x05]
    ensures Stolen(m, start, start) == Next(start + MAX_INSTRUCTION_SIZE + 1)
  {
    hide NextInstruction;
    var bytes := m[start..start + 8];
    assert m[start] == bytes[0] && m[start + 1] == bytes[1] && m[start + 2] == bytes[2] && m[start + 3] == bytes[3];
    assert m[start + 4] == bytes[4] && m[start + 5] == bytes[5] && m[start + 6] == bytes[6] && m[start + 7] == bytes[7];
    NopIsOne(m, start);
    NopIsOne(m, start + 1);
    NopIsOne(m, start + 2);
    NopIsOne(m, start + 3);
    PrefixedIsTwelve(m, start + 4);
    assert Stolen(m, start, start + 4) == Next(start + 16);
    assert Stolen(m, start, start + 2) == Stolen(m, start, start + 3) == Next(start + 16);
  }

  lemma NopIsOne(m: seq<Byte>, it: nat)
    requires At(m, it) == NOP
    ensures NextInstruction(m, it) == Next(it + 1)
  {
  }

  lemma PrefixedIsTwelve(m: seq<Byte>, it: nat)
    requires At(m, it) == 0x2E && At(m, it + 1) == 0x81 && At(m, it + 2) == 0x84 && At(m, it + 3) == 0x05
    ensures NextInstruction(m, it) == Next(it + 12)
  {
    assert AfterPrefixes(m, Prefixes(it, false, false)) == Prefixes(it + 1, false, false);
  }

  /** A function with room for a hot patch: an instruction of two bytes, and five that do nothing before it. */
  predicate IsHotpatchable(m: seq<Byte>, at: Address) {
    && NextInstruction(m, at) == Next(at + 2) && at >= JUMP_SIZE
    && forall i :: at - JUMP_SIZE <= i < at ==> At(m, i) == NOP
  }

  lemma RoomForHotPatch(m: seq<Byte>, at: Address)
    requires IsHotpatchable(m, at) && at <= |m|
    ensures 5 <= at && IsInstruction(m, at, at + 2) && forall i :: at - 5 <= i < at ==> m[i] == 0x90
  {
    hide NextInstruction, IsInstruction;
    NextByTable(m, at);
    forall i | at - 5 <= i < at ensures m[i] == 0x90 { assert At(m, i) == NOP; }
  }

  datatype Thunk = NoThunk | ThunkTo(address: Address)

  function Traps(n: nat): (bytes: seq<Byte>)
    ensures |bytes| == n && forall i :: 0 <= i < n ==> bytes[i] == TRAP
  {
    seq(n, _ => TRAP)
  }

  /** Where the hooked function goes: to the callback, or to the thunk in the block. */
  function Destination(block: Address, callback: Address, thunk: Thunk): Address
    requires block + RAW_SIZE + THUNK_SIZE <= ADDRESSES
  {
    if thunk == NoThunk then callback else block + RAW_SIZE
  }

  /** `Failed` stands for an instruction that the decoder does not know, `Overrun` for more instructions than
      the block has room for, over whose end the program then writes, and `Hangs` for jumps that never end. */
  datatype Built =
    | Hooked(target: Address, size: nat)
    | HotPatched(target: Address)
    | Failed
    | Overrun(target: Address, size: nat)
    | Hangs

  /** The memory with the code at `target` replaced. */
  function Patched(m: seq<Byte>, target: Address, size: nat, destination: Address): seq<Byte>
    requires JUMP_SIZE <= size && target + size <= |m|
  {
    m[..target] + JumpBytes(target, destination) + Traps(size - JUMP_SIZE) + m[target + size..]
  }

  /** The memory with a jump before `target`, and there a short jump back to it. */
  function Repatched(m: seq<Byte>, target: Address, destination: Address): seq<Byte>
    requires JUMP_SIZE <= target && target + 2 <= |m|
  {
    m[..target - JUMP_SIZE] + JumpBytes(target - JUMP_SIZE, destination) + HOT_PATCH + m[target + 2..]
  }

  function Copied(m: seq<Byte>, target: Address, size: nat, block: Address): seq<Byte>
    requires size <= MAX_INSTRUCTION_SIZE && target + size <= |m| && block + RAW_SIZE <= ADDRESSES
  {
    m[target..target + size] + JumpBytes(block + size, (target + size) % ADDRESSES)
    + Traps(RAW_SIZE - size - JUMP_SIZE)
  }

  function ThunkCode(block: Address, callback: Address, thunk: Thunk): (code: seq<Byte>)
    requires block + RAW_SIZE + THUNK_SIZE <= ADDRESSES
    ensures |code| == THUNK_SIZE
  {
    match thunk
    case NoThunk => Traps(THUNK_SIZE)
    case ThunkTo(address) => ThunkBytes(block + RAW_SIZE, callback, address)
  }

  /** Everything that is in memory: `m`, but at `block` what is in the block. */
  function Image(m: seq<Byte>, block: Address, raw: seq<Byte>, thunk: seq<Byte>): (image: seq<Byte>)
    requires |m| == ADDRESSES && |raw| == RAW_SIZE && |thunk| == THUNK_SIZE
    requires block + RAW_SIZE + THUNK_SIZE <= ADDRESSES
    ensures |image| == ADDRESSES
  {
    m[..block] + raw + thunk + m[block + RAW_SIZE + THUNK_SIZE..]
  }

  function Overwritten(s: seq<Byte>, at: nat, bytes: seq<Byte>): (r: seq<Byte>)
    requires at + |bytes| <= |s|
    ensures |r| == |s|
  {
    s[..at] + bytes + s[at + |bytes|..]
  }

  /** Copies bytes over an array. */
  method Write(a: array<Byte>, at: nat, bytes: seq<Byte>)
    requires at + |bytes| <= a.Length
    modifies a
    ensures a[..] == Overwritten(old(a[..]), at, bytes)
  {
    for i := 0 to |bytes|
      invariant a[..at + i] == old(a[..at]) + bytes[..i]
      invariant a[at + i..] == old(a[at + i..])
    {
      a[at + i] := bytes[i];
    }
  }

  /** The moved code and the jump behind it, over a block of traps. */
  lemma CopiedByParts(m: seq<Byte>, target: Address, size: nat, block: Address)
    requires size <= MAX_INSTRUCTION_SIZE && target + size <= |m| && block + RAW_SIZE <= ADDRESSES
    ensures Overwritten(Overwritten(Traps(RAW_SIZE), 0, m[target..target + size]), size,
                        JumpBytes(block + size, (target + size) % ADDRESSES)) == Copied(m, target, size, block)
  {
    hide JumpBytes, Traps;
    var moved := m[target..target + size];
    TrapsBehind(RAW_SIZE, size);
    TrapsBehind(RAW_SIZE, size + JUMP_SIZE);
    var first := Overwritten(Traps(RAW_SIZE), 0, moved);
    assert first == moved + Traps(RAW_SIZE - size);
    assert first[..size] == moved && first[size + JUMP_SIZE..] == Traps(RAW_SIZE)[size + JUMP_SIZE..];
  }

  lemma TrapsBehind(n: nat, i: nat)
    requires i <= n
    ensures Traps(n)[i..] == Traps(n - i)
  {
  }

  lemma ThunkByParts(bytes: seq<Byte>)
    requires |bytes| == THUNK_SIZE
    ensures Overwritten(Traps(THUNK_SIZE), 0, bytes) == bytes
  {
  }

  /** The jump over the target, and traps over the rest of the moved code. */
  lemma PatchedByParts(m: seq<Byte>, target: Address, size: nat, destination: Address)
    requires JUMP_SIZE <= size && target + size <= |m|
    ensures Overwritten(Overwritten(m, target, JumpBytes(target, destination)), target + JUMP_SIZE,
                        Traps(size - JUMP_SIZE)) == Patched(m, target, size, destination)
  {
    hide JumpBytes, Traps;
  }

  /** The jump before the target, and the short jump to it. */
  lemma RepatchedByParts(m: seq<Byte>, target: Address, destination: Address)
    requires JUMP_SIZE <= target && target + 2 <= |m|
    ensures Overwritten(Overwritten(m, target - JUMP_SIZE, JumpBytes(target - JUMP_SIZE, destination)), target,
                        HOT_PATCH) == Repatched(m, target, destination)
  {
    hide JumpBytes, HOT_PATCH;
    assert |HOT_PATCH| == 2 by { HotPatchIsShort(); }
  }

  lemma HotPatchIsShort()
    ensures |HOT_PATCH| == 2 && HOT_PATCH[0] == SHORT_JUMP && HOT_PATCH[1] == 0xF9
  {
  }

  class Block {
    const address: Address
    const raw: array<Byte>
    const thunkCode: array<Byte>
    var target: Address
    var size: nat

    ghost predicate Valid()
    {
      && raw.Length == RAW_SIZE && thunkCode.Length == THUNK_SIZE
      && address + RAW_SIZE + THUNK_SIZE <= ADDRESSES
    }

    constructor (address: Address)
      requires address + RAW_SIZE + THUNK_SIZE <= ADDRESSES
      ensures Valid() && this.address == address && fresh(raw) && fresh(thunkCode)
      ensures raw[..] == Traps(RAW_SIZE) && thunkCode[..] == Traps(THUNK_SIZE)
    {
      this.address := address;
      raw := new Byte[RAW_SIZE](_ => TRAP);
      thunkCode := new Byte[THUNK_SIZE](_ => TRAP);
      target, size := 0, 0;
    }

    /** `follow_jumps`. The program counts no hops: when it is still at a jump after that many it never
        gets away from jumps, as `JumpsForEver` says. */
    method FollowJumps(memory: array<Byte>, start: Address) returns (at: Address)
      requires memory.Length == ADDRESSES
      ensures at == Follows(memory[..], start, ADDRESSES)
    {
      at := start;
      var hops: nat := 0;
      while IsJump(memory[..], at) && hops < ADDRESSES
        invariant 0 <= hops <= ADDRESSES && at == Follows(memory[..], start, hops)
        decreases ADDRESSES - hops
      {
        FollowsOn(memory[..], start, hops);
        at := Follow(memory[..], at);
        hops := hops + 1;
      }
      if !IsJump(memory[..], at) { LandedBefore(memory[..], start, hops, ADDRESSES - hops); }
    }

    /** The loop over the instructions to be moved; their size is kept up to date on the way. */
    method FindEnd(memory: array<Byte>, start: Address) returns (end: Decoded)
      modifies this`size
      ensures end == Stolen(memory[..], start, start)
      ensures end.Next? ==> end.at == start + size && size >= JUMP_SIZE
      ensures end.Next? ==> TakesWhole(memory[..], start, end.at)
    {
      hide NextInstruction;
      var mark: nat := start;
      size := 0;
      while true
        invariant size == mark - start && size < JUMP_SIZE
        invariant Stolen(memory[..], start, mark) == Stolen(memory[..], start, start)
        decreases JUMP_SIZE - size
      {
        AtLeastOneIfAny(memory[..], mark);
        match NextInstruction(memory[..], mark) {
        case Next(at) =>
          mark := at;
          size := mark - start;
        case error =>
          return error;
        }
        if size >= JUMP_SIZE {
          ghost var marks := StolenIsWhole(memory[..], start, start);
          assert WholeInstructions(memory[..], start, marks, mark);
          return Next(mark);
        }
      }
    }

    /** Copies the instructions and completes the block. */
    method Move(memory: array<Byte>, start: Address, callback: Address, thunk: Thunk)
      requires Valid() && memory.Length == ADDRESSES && memory != raw && memory != thunkCode && raw != thunkCode
      requires raw[..] == Traps(RAW_SIZE) && thunkCode[..] == Traps(THUNK_SIZE)
      requires size <= MAX_INSTRUCTION_SIZE && start + size <= ADDRESSES
      modifies raw, thunkCode
      ensures raw[..] == Copied(memory[..], start, size, address)
      ensures thunkCode[..] == ThunkCode(address, callback, thunk)
    {
      hide JumpBytes, ThunkBytes, Traps, Overwritten, Copied;
      CopiedByParts(memory[..], start, size, address);
      ghost var m := memory[..];
      assert memory[start..start + size] == m[start..start + size];
      Write(raw, 0, memory[start..start + size]);
      Write(raw, size, JumpBytes(address + size, (start + size) % ADDRESSES));
      match thunk {
      case NoThunk =>
      case ThunkTo(to) =>
        ThunkByParts(ThunkBytes(address + RAW_SIZE, callback, to));
        Write(thunkCode, 0, ThunkBytes(address + RAW_SIZE, callback, to));
      }
    }

    /** Writes the jump over the target, and traps over what is left of the moved instructions. */
    method Patch(memory: array<Byte>, destination: Address)
      requires memory.Length == ADDRESSES && JUMP_SIZE <= size && target + size <= ADDRESSES
      modifies memory
      ensures memory[..] == Patched(old(memory[..]), target, size, destination)
    {
      hide JumpBytes, Traps, Overwritten, Patched;
      PatchedByParts(memory[..], target, size, destination);
      Write(memory, target, JumpBytes(target, destination));
      Write(memory, target + JUMP_SIZE, Traps(size - JUMP_SIZE));
    }

    /** Writes the jump into the room before the target, and then the short jump over its first instruction. */
    method HotPatch(memory: array<Byte>, destination: Address)
      requires memory.Length == ADDRESSES && JUMP_SIZE <= target && target + 2 <= ADDRESSES
      modifies memory
      ensures memory[..] == Repatched(old(memory[..]), target, destination)
    {
      hide JumpBytes, Overwritten, Repatched, HOT_PATCH;
      RepatchedByParts(memory[..], target, destination);
      HotPatchIsShort();
      Write(memory, target - JUMP_SIZE, JumpBytes(target - JUMP_SIZE, destination));
      Write(memory, target, HOT_PATCH);
    }

    /** The rest of the constructor. */
    method Hook(memory: array<Byte>, function_: Address, callback: Address, thunk: Thunk) returns (r: Built)
      requires Valid() && memory.Length == ADDRESSES && memory != raw && memory != thunkCode && raw != thunkCode
      requires raw[..] == Traps(RAW_SIZE) && thunkCode[..] == Traps(THUNK_SIZE)
      requires if IsHotpatchable(memory[..], function_) then function_ + 2 <= ADDRESSES else
        var t := Follows(memory[..], function_, ADDRESSES);
        Stolen(memory[..], t, t).Next? ==> Stolen(memory[..], t, t).at <= ADDRESSES
      modifies this, memory, raw, thunkCode
      ensures r.HotPatched? <==> old(IsHotpatchable(memory[..], function_))
      ensures var m, t := old(memory[..]), old(Follows(memory[..], function_, ADDRESSES));
        match r
        case HotPatched(target') =>
          && target' == function_ && 5 <= function_ && function_ + 2 <= ADDRESSES
          && IsInstruction(m, function_, function_ + 2)
          && (forall i :: function_ - 5 <= i < function_ ==> m[i] == 0x90)
          && memory[..] == Repatched(m, function_, Destination(address, callback, thunk))
          && raw[..] == Copied(m, function_, 2, address)
          && thunkCode[..] == ThunkCode(address, callback, thunk)
        case Hooked(target', size') =>
          && !IsJump(m, t) && NextInstruction(m, function_).Next?
          && target' == t && JUMP_SIZE <= size' <= MAX_INSTRUCTION_SIZE && Stolen(m, t, t) == Next(t + size')
          && TakesWhole(m, t, t + size')
          && memory[..] == Patched(m, t, size', Destination(address, callback, thunk))
          && raw[..] == Copied(m, t, size', address)
          && thunkCode[..] == ThunkCode(address, callback, thunk)
        case Failed =>
          && (!NextInstruction(m, function_).Next? || (!IsJump(m, t) && !Stolen(m, t, t).Next?))
          && memory[..] == m
        case Overrun(target', size') =>
          && !IsJump(m, t) && target' == t && size' > MAX_INSTRUCTION_SIZE && Stolen(m, t, t) == Next(t + size')
          && memory[..] == m
        case Hangs =>
          IsJump(m, t) && memory[..] == m
    {
      hide NextInstruction, IsInstruction, Follow, Stolen, Follows, Patched, Repatched, Copied, ThunkCode, TakesWhole;
      var first := NextInstruction(memory[..], function_);
      if !first.Next? {
        return Failed;
      }
      if IsHotpatchable(memory[..], function_) {
        RoomForHotPatch(memory[..], function_);
        size := 2;
        Move(memory, function_, callback, thunk);
        target := function_;
        HotPatch(memory, if thunk == NoThunk then callback else address + RAW_SIZE);
        return HotPatched(function_);
      }
      var start := FollowJumps(memory, function_);
      if IsJump(memory[..], start) {
        return Hangs;
      }
      var end := FindEnd(memory, start);
      if !end.Next? {
        return Failed;
      }
      if size > MAX_INSTRUCTION_SIZE {
        return Overrun(start, size);
      }
      Move(memory, start, callback, thunk);
      target := start;
      Patch(memory, if thunk == NoThunk then callback else address + RAW_SIZE);
      return Hooked(target, size);
    }
  }

  lemma AtLeastOneIfAny(m: seq<Byte>, it: nat)
    ensures NextInstruction(m, it).Next? ==> NextInstruction(m, it).at > it
  {
    if NextInstruction(m, it).Next? { AtLeastOne(m, it); }
  }

  /** The bytes from `at` on are these. */
  predicate Holds(m: seq<Byte>, at: nat, bytes: seq<Byte>) {
    at + |bytes| <= |m| && forall i :: 0 <= i < |bytes| ==> m[at + i] == bytes[i]
  }

  lemma HoldsPart(m: seq<Byte>, at: nat, bytes: seq<Byte>, from: nat, part: seq<Byte>)
    requires Holds(m, at, bytes) && from + |part| <= |bytes| && bytes[from..from + |part|] == part
    ensures Holds(m, at + from, part) && m[at + from..at + from + |part|] == part
  {
    forall i | 0 <= i < |part| ensures m[at + from + i] == part[i] {
      assert m[at + (from + i)] == bytes[from + i] == bytes[from..from + |part|][i];
    }
  }

  /** What is where in the image. */
  lemma ImageHolds(m: seq<Byte>, block: Address, raw: seq<Byte>, code: seq<Byte>)
    requires |m| == ADDRESSES && |raw| == RAW_SIZE && |code| == THUNK_SIZE && block + RAW_SIZE + THUNK_SIZE <= ADDRESSES
    ensures var image := Image(m, block, raw, code);
      && Holds(image, block, raw) && Holds(image, block + RAW_SIZE, code)
      && forall i :: 0 <= i < ADDRESSES && (i < block || block + RAW_SIZE + THUNK_SIZE <= i) ==> image[i] == m[i]
  {
  }

  /** The instructions that break into the debugger fill these places. */
  predicate Filled(m: seq<Byte>, from: nat, to: nat) {
    to <= |m| && forall i :: from <= i < to ==> m[i] == 0xCC
  }

  lemma PatchedHolds(m: seq<Byte>, target: Address, size: nat, destination: Address)
    requires |m| == ADDRESSES && JUMP_SIZE <= size && target + size <= |m|
    ensures var patched := Patched(m, target, size, destination);
      && |patched| == |m| && Holds(patched, target, JumpBytes(target, destination))
      && Filled(patched, target + 5, target + size)
      && forall i :: 0 <= i < ADDRESSES && (i < target || target + size <= i) ==> patched[i] == m[i]
  {
    hide JumpBytes;
  }

  lemma HoldsFilled(m: seq<Byte>, at: nat, bytes: seq<Byte>, from: nat)
    requires Holds(m, at, bytes) && from <= |bytes| && Filled(bytes, from, |bytes|)
    ensures Filled(m, at + from, at + |bytes|)
  {
    forall i | at + from <= i < at + |bytes| ensures m[i] == 0xCC {
      assert m[at + (i - at)] == bytes[i - at];
    }
  }

  /** What is in the block of thirty bytes: the moved instructions, a jump back behind them and traps up to
      the twentieth byte, and then the thunk or traps. */
  ghost predicate BlockHolds(image: seq<Byte>, block: Address, moved: seq<Byte>, back: Address, callback: Address,
                             thunk: Thunk)
  {
    && block + 30 <= |image| && |moved| <= 15
    && image[block..block + |moved|] == moved
    && LongJump(image, block + |moved|, back)
    && Filled(image, block + |moved| + 5, block + 20)
    && (thunk.ThunkTo? ==> ThunkLeads(image, block + 20, callback, thunk.address))
    && (thunk.NoThunk? ==> Filled(image, block + 20, block + 30))
  }

  /** After hooking, with the block in memory beside the target: the target leads to the callback or to the
      thunk, the thunk loads the callback and leads to its own target, the moved instructions lead back to
      what comes after them, and nothing else has changed. */
  lemma HookLeads(m: seq<Byte>, block: Address, target: Address, size: nat, callback: Address, thunk: Thunk)
    requires |m| == ADDRESSES && JUMP_SIZE <= size <= MAX_INSTRUCTION_SIZE && target + size <= ADDRESSES
    requires block + RAW_SIZE + THUNK_SIZE <= ADDRESSES
    requires target + size <= block || block + RAW_SIZE + THUNK_SIZE <= target
    ensures var image := Image(Patched(m, target, size, Destination(block, callback, thunk)), block,
                               Copied(m, target, size, block), ThunkCode(block, callback, thunk));
      && |image| == |m|
      && LongJump(image, target, if thunk.NoThunk? then callback else block + 20)
      && Filled(image, target + 5, target + size)
      && BlockHolds(image, block, m[target..target + size], (target + size) % ADDRESSES, callback, thunk)
      && (forall i | 0 <= i < |m| && (i < target || target + size <= i) && (i < block || block + 30 <= i) ::
            image[i] == m[i])
  {
    hide JumpBytes, Follow, Patched, Copied, Image, ThunkCode, Holds, Filled, LongJump;
    var destination := Destination(block, callback, thunk);
    var patched, raw, code := Patched(m, target, size, destination), Copied(m, target, size, block),
        ThunkCode(block, callback, thunk);
    PatchedHolds(m, target, size, destination);
    CopiedIs(m, target, size, block);
    ImageHolds(patched, block, raw, code);
    var image := Image(patched, block, raw, code);
    TargetLeads(m, image, patched, block, target, size, destination);
    BlockIs(m, image, block, target, size, callback, thunk);
  }

  lemma BlockIs(m: seq<Byte>, image: seq<Byte>, block: Address, target: Address, size: nat, callback: Address,
                thunk: Thunk)
    requires |m| == |image| == ADDRESSES && size <= MAX_INSTRUCTION_SIZE && target + size <= ADDRESSES
    requires block + RAW_SIZE + THUNK_SIZE <= ADDRESSES
    requires Holds(image, block, Copied(m, target, size, block))
    requires Holds(image, block + RAW_SIZE, ThunkCode(block, callback, thunk))
    ensures BlockHolds(image, block, m[target..target + size], (target + size) % ADDRESSES, callback, thunk)
  {
    hide JumpBytes, Follow, Copied, ThunkCode, Holds, Filled, LongJump, ThunkLeads;
    var raw, code := Copied(m, target, size, block), ThunkCode(block, callback, thunk);
    CopiedIs(m, target, size, block);
    HoldsPart(image, block, raw, 0, m[target..target + size]);
    HoldsPart(image, block, raw, size, JumpBytes(block + size, (target + size) % ADDRESSES));
    JumpLeads(image, block + size, (target + size) % ADDRESSES);
    HoldsFilled(image, block, raw, size + 5);
    match thunk
    case ThunkTo(_) => ThunkIs(image, block, callback, thunk);
    case NoThunk =>
      assert Filled(code, 0, |code|) by { TrapsFill(block, callback); }
      HoldsFilled(image, block + RAW_SIZE, code, 0);
  }

  lemma TrapsFill(block: Address, callback: Address)
    requires block + RAW_SIZE + THUNK_SIZE <= ADDRESSES
    ensures Filled(ThunkCode(block, callback, NoThunk), 0, 10)
  {
  }

  /** What is at the target in the image. */
  lemma TargetLeads(m: seq<Byte>, image: seq<Byte>, patched: seq<Byte>, block: Address, target: Address, size: nat,
                    destination: Address)
    requires |m| == |patched| == |image| == ADDRESSES && 5 <= size && target + size <= ADDRESSES
    requires target + size <= block || block + 30 <= target
    requires Holds(patched, target, JumpBytes(target, destination)) && Filled(patched, target + 5, target + size)
    requires forall i :: 0 <= i < ADDRESSES && (i < block || block + 30 <= i) ==> image[i] == patched[i]
    ensures LongJump(image, target, destination) && Filled(image, target + 5, target + size)
  {
    hide JumpBytes, LongJump, Follow;
    assert image[target..target + 5] == JumpBytes(target, destination);
    JumpLeads(image, target, destination);
  }

  lemma CopiedIs(m: seq<Byte>, target: Address, size: nat, block: Address)
    requires |m| == ADDRESSES && size <= MAX_INSTRUCTION_SIZE && target + size <= ADDRESSES
    requires block + RAW_SIZE <= ADDRESSES
    ensures var raw := Copied(m, target, size, block);
      && |raw| == RAW_SIZE && raw[0..size] == m[target..target + size]
      && raw[size..size + JUMP_SIZE] == JumpBytes(block + size, (target + size) % ADDRESSES)
      && Filled(raw, size + 5, |raw|)
  {
    hide JumpBytes;
  }

  /** The thunk at `at`: BA with the pointer, low byte first, and a jump to `target`. */
  predicate ThunkLeads(m: seq<Byte>, at: nat, pointer: Address, target: Address) {
    && at + 10 <= |m|
    && m[at] == 0xBA && FourBytes(m, at + 1) == pointer && LongJump(m, at + 5, target)
  }

  lemma ThunkIs(image: seq<Byte>, block: Address, callback: Address, thunk: Thunk)
    requires |image| == ADDRESSES && block + RAW_SIZE + THUNK_SIZE <= ADDRESSES && thunk.ThunkTo?
    requires Holds(image, block + RAW_SIZE, ThunkCode(block, callback, thunk))
    ensures ThunkLeads(image, block + RAW_SIZE, callback, thunk.address)
  {
    hide JumpBytes, Follow, AddressBytes, AddressAt, FourBytes, LongJump;
    var at, code := block + RAW_SIZE, ThunkCode(block, callback, thunk);
    assert code[0] == LOAD_EDX && code[1..1 + 4] == AddressBytes(callback);
    assert code[JUMP_SIZE..JUMP_SIZE + JUMP_SIZE] == JumpBytes(at + JUMP_SIZE, thunk.address);
    assert image[at + 0] == code[0];
    HoldsPart(image, at, code, 1, AddressBytes(callback));
    AddressRoundTrip(image, at + 1, callback);
    AddressIsFourBytes(image, at + 1);
    HoldsPart(image, at, code, JUMP_SIZE, JumpBytes(at + JUMP_SIZE, thunk.address));
    JumpLeads(image, at + JUMP_SIZE, thunk.address);
  }

  lemma RepatchedHolds(m: seq<Byte>, target: Address, destination: Address)
    requires |m| == ADDRESSES && JUMP_SIZE <= target && target + 2 <= |m|
    ensures var patched := Repatched(m, target, destination);
      && |patched| == |m| && Holds(patched, target - JUMP_SIZE, JumpBytes(target - JUMP_SIZE, destination))
      && patched[target] == 0xEB && patched[target + 1] == 0xF9
      && forall i :: 0 <= i < ADDRESSES && (i < target - JUMP_SIZE || target + 2 <= i) ==> patched[i] == m[i]
  {
    hide JumpBytes;
  }

  /** What a hot patch leaves at its target and before it. */
  ghost predicate HotPatchHolds(image: seq<Byte>, target: Address, destination: Address) {
    && 5 <= target && target + 2 <= |image|
    && image[target] == 0xEB && target + 2 + (image[target + 1] as int - 0x100) == target - 5
    && LongJump(image, target - 5, destination)
  }

  /** After a hot patch, with the block in memory beside the target: a short jump back leads to the jump before
      the target, and this one to the callback or to the thunk; the block is as ever. */
  lemma HotPatchLeads(m: seq<Byte>, block: Address, target: Address, callback: Address, thunk: Thunk)
    requires |m| == ADDRESSES && JUMP_SIZE <= target && target + 2 <= ADDRESSES
    requires block + RAW_SIZE + THUNK_SIZE <= ADDRESSES
    requires target + 2 <= block || block + RAW_SIZE + THUNK_SIZE <= target - JUMP_SIZE
    ensures var image := Image(Repatched(m, target, Destination(block, callback, thunk)), block,
                               Copied(m, target, 2, block), ThunkCode(block, callback, thunk));
      && |image| == |m|
      && HotPatchHolds(image, target, if thunk.NoThunk? then callback else block + 20)
      && BlockHolds(image, block, m[target..target + 2], (target + 2) % ADDRESSES, callback, thunk)
      && (forall i | 0 <= i < |m| && (i < target - 5 || target + 2 <= i) && (i < block || block + 30 <= i) ::
            image[i] == m[i])
  {
    hide JumpBytes, Follow, Repatched, Copied, Image, ThunkCode, Holds, LongJump, BlockHolds;
    var destination := Destination(block, callback, thunk);
    var patched, raw, code := Repatched(m, target, destination), Copied(m, target, 2, block),
        ThunkCode(block, callback, thunk);
    RepatchedHolds(m, target, destination);
    CopiedIs(m, target, 2, block);
    ImageHolds(patched, block, raw, code);
    var image := Image(patched, block, raw, code);
    JumpBefore(image, patched, block, target, destination);
    BlockIs(m, image, block, target, 2, callback, thunk);
  }

  lemma JumpBefore(image: seq<Byte>, patched: seq<Byte>, block: Address, target: Address, destination: Address)
    requires |patched| == |image| == ADDRESSES && JUMP_SIZE <= target && target + 2 <= ADDRESSES
    requires target + 2 <= block || block + 30 <= target - JUMP_SIZE
    requires Holds(patched, target - JUMP_SIZE, JumpBytes(target - JUMP_SIZE, destination))
    requires forall i :: 0 <= i < ADDRESSES && (i < block || block + 30 <= i) ==> image[i] == patched[i]
    ensures LongJump(image, target - 5, destination)
  {
    hide JumpBytes, LongJump, Follow;
    assert image[target - 5..target - 5 + 5] == JumpBytes(target - JUMP_SIZE, destination);
    JumpLeads(image, target - 5, destination);
  }

  /** A function that was hot-patched cannot be hooked once more: it has no room for a hot patch any longer,
      and as the distance of its short jump is taken without a sign, `follow_jumps` goes from it to what
      stands 251 bytes after it, not to the jump before it. */
  lemma HotPatchLeadsAstray(image: seq<Byte>, target: Address, destination: Address)
    requires |image| == ADDRESSES && HotPatchHolds(image, target, destination)
    ensures !IsHotpatchable(image, target)
    ensures IsJump(image, target) && Follow(image, target) == (target + 251) % ADDRESSES
    ensures Follow(image, target) != target - 5
  {
    hide NextInstruction;
    assert At(image, target - 5) == 0xE9;
  }
}
