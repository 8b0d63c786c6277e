/** The instruction decoder, which only finds out how long an instruction is, and the jumps and thunks that
    are written over code. Memory is a sequence of bytes; addresses wrap around at 32 bits. */
module Instructions {
  import opened Bytes

  const ADDRESSES: int := 0x1_0000_0000

  type Address = a: int | 0 <= a < ADDRESSES

  const JUMP: Byte := 0xE9
  const SHORT_JUMP: Byte := 0xEB
  const LOAD_EDX: Byte := 0xBA
  const TRAP: Byte := 0xCC
  const TWO_BYTE: Byte := 0x0F
  const JUMP_SIZE: nat := 5
  const MAX_INSTRUCTION_SIZE: nat := 15

  /** Nothing is known of what lies outside; it reads as zero. */
  function At(m: seq<Byte>, i: nat): Byte {
    if i < |m| then m[i] else 0
  }

  /** The size of the ModR/M byte with the SIB byte and displacement that it announces. */
  function ModSib(x: Byte, address16: bool): nat {
    var mod, rm := x / 64, x % 8;
    if address16 then
      1 + if (mod == 0 && rm == 6) || mod == 2 then 2 else if mod == 1 then 1 else 0
    else
      1 + (if (mod == 0 && rm == 5) || mod == 2 then 4 else if mod == 1 then 1 else 0)
      + if mod != 3 && rm == 4 then 1 else 0
  }

  datatype Operands = Operands(modSib: bool, immediate: nat)

  /** What follows a one-byte opcode, its octal digits being `a`, `b` and `c`; `word` is the size of an operand
      and `reg` the middle digit of the byte after it. */
  function OperandsOf(a: nat, b: nat, c: nat, reg: nat, word: nat, address16: bool): Operands {
    if a == 0 then
      if c < 4 then Operands(true, 0)
      else Operands(false, if c == 4 then 1 else if c == 5 then word else 0)
    else if a == 1 then
      if b == 4 then Operands(c in {2, 3}, 0)
      else if b == 5 then
        Operands(c in {1, 3}, if c in {0, 1} then word else if c in {2, 3} then 1 else 0)
      else Operands(false, if b in {6, 7} then 1 else 0)
    else if a == 2 then
      if b == 0 then Operands(true, if c in {0, 2, 3} then 1 else if c == 1 then word else 0)
      else if b == 1 then Operands(true, 0)
      else if b == 3 then Operands(false, if c != 2 then 0 else if address16 then 4 else 6)
      else if b == 4 then Operands(false, if c < 4 then 4 else 0)
      else if b == 5 then Operands(false, if c == 0 then 1 else if c == 1 then word else 0)
      else Operands(false, if b == 6 then 1 else if b == 7 then word else 0)
    else
      var bc := b * 10 + c;
      if bc in {0, 1, 6} then Operands(true, 1)
      else if bc in {2, 12} then Operands(false, 2)
      else if bc in {4, 5, 20, 21, 22, 23, 30, 31, 32, 33, 34, 35, 36, 37, 76, 77} then Operands(true, 0)
      else if bc == 7 then Operands(true, word)
      else if bc == 10 then Operands(false, 3)
      else if bc in {15, 24, 25, 40, 41, 42, 43, 44, 45, 46, 47, 53} then Operands(false, 1)
      else if bc in {50, 51, 52} then Operands(false, word)
      else if bc == 66 then Operands(true, if reg <= 1 then 1 else 0)
      else if bc == 67 then Operands(true, if reg <= 1 then word else 0)
      else Operands(false, 0)
  }

  /** Where the instruction with the one-byte opcode at `it` ends. */
  function AfterOpcode(m: seq<Byte>, it: nat, operand16: bool, address16: bool): nat {
    var x, y := At(m, it), At(m, it + 1);
    var ops := OperandsOf(x / 64, x / 8 % 8, x % 8, y / 8 % 8, if operand16 then 2 else 4, address16);
    it + 1 + (if ops.modSib then ModSib(y, address16) else 0) + ops.immediate
  }

  /** The opcodes that have a ModR/M byte. */
  predicate HasModRM(x: Byte) {
    || x <= 0x03 || 0x08 <= x <= 0x0B || 0x10 <= x <= 0x13 || 0x18 <= x <= 0x1B
    || 0x20 <= x <= 0x23 || 0x28 <= x <= 0x2B || 0x30 <= x <= 0x33 || 0x38 <= x <= 0x3B
    || x == 0x62 || x == 0x63 || x == 0x69 || x == 0x6B || 0x80 <= x <= 0x8F
    || x == 0xC0 || x == 0xC1 || 0xC4 <= x <= 0xC7 || 0xD0 <= x <= 0xD3 || 0xD8 <= x <= 0xDF
    || x == 0xF6 || x == 0xF7 || x == 0xFE || x == 0xFF
  }

  /** A byte follows. */
  predicate HasByte(x: Byte) {
    || x == 0x04 || x == 0x0C || x == 0x14 || x == 0x1C || x == 0x24 || x == 0x2C || x == 0x34 || x == 0x3C
    || x == 0x6A || x == 0x6B || 0x70 <= x <= 0x7F || x == 0x80 || x == 0x82 || x == 0x83 || x == 0xA8
    || 0xB0 <= x <= 0xB7 || x == 0xC0 || x == 0xC1 || x == 0xC6 || x == 0xCD || x == 0xD4 || x == 0xD5
    || 0xE0 <= x <= 0xE7 || x == 0xEB
  }

  /** A word of the size of an operand follows. */
  predicate HasOperand(x: Byte) {
    || x == 0x05 || x == 0x0D || x == 0x15 || x == 0x1D || x == 0x25 || x == 0x2D || x == 0x35 || x == 0x3D
    || x == 0x68 || x == 0x69 || x == 0x81 || x == 0xA9 || 0xB8 <= x <= 0xBF || x == 0xC7
    || x == 0xE8 || x == 0xE9 || x == 0xEA
  }

  /** How long what follows an opcode and its ModR/M byte `y` is. */
  function Immediate(x: Byte, y: Byte, operand16: bool, address16: bool): nat {
    var word := if operand16 then 2 else 4;
    if HasByte(x) then 1
    else if HasOperand(x) then word
    else if x == 0xC2 || x == 0xCA then 2
    else if x == 0xC8 then 3
    else if 0xA0 <= x <= 0xA3 then 4
    else if x == 0x9A then (if address16 then 4 else 6)
    else if x == 0xF6 && y % 0x40 < 0x10 then 1
    else if x == 0xF7 && y % 0x40 < 0x10 then word
    else 0
  }

  /** The ModR/M byte with the SIB byte and the displacement that it announces. */
  function ModRMSize(y: Byte, address16: bool): nat {
    if y >= 0xC0 then 1
    else if address16 then (if y >= 0x80 then 3 else if y >= 0x40 then 2 else if y % 8 == 6 then 3 else 1)
    else
      var sib := if y % 8 == 4 then 1 else 0;
      if y >= 0x80 then 5 + sib else if y >= 0x40 then 2 + sib else if y % 8 == 5 then 5 else 1 + sib
  }

  /** The length of an instruction from its opcode on. */
  function OpcodeSize(m: seq<Byte>, it: nat, operand16: bool, address16: bool): nat {
    var x, y := At(m, it), At(m, it + 1);
    1 + (if HasModRM(x) then ModRMSize(y, address16) else 0) + Immediate(x, y, operand16, address16)
  }

  lemma ModRMIsModSib(y: Byte, address16: bool)
    ensures ModSib(y, address16) == ModRMSize(y, address16)
  {
  }

  lemma OperandsOfFirst(a: nat, b: nat, c: nat, y: Byte, operand16: bool, address16: bool)
    requires a == 0 && b < 8 && c < 8
    ensures var x := a * 64 + b * 8 + c;
      OperandsOf(a, b, c, y / 8 % 8, if operand16 then 2 else 4, address16) ==
      Operands(HasModRM(x), Immediate(x, y, operand16, address16))
  {
  }

  lemma OperandsOfSecond(a: nat, b: nat, c: nat, y: Byte, operand16: bool, address16: bool)
    requires a == 1 && b < 8 && c < 8
    ensures var x := a * 64 + b * 8 + c;
      OperandsOf(a, b, c, y / 8 % 8, if operand16 then 2 else 4, address16) ==
      Operands(HasModRM(x), Immediate(x, y, operand16, address16))
  {
  }

  lemma OperandsOfThirdLow(a: nat, b: nat, c: nat, y: Byte, operand16: bool, address16: bool)
    requires a == 2 && b < 4 && c < 8
    ensures var x := a * 64 + b * 8 + c;
      OperandsOf(a, b, c, y / 8 % 8, if operand16 then 2 else 4, address16) ==
      Operands(HasModRM(x), Immediate(x, y, operand16, address16))
  {
  }

  lemma OperandsOfThirdHigh(a: nat, b: nat, c: nat, y: Byte, operand16: bool, address16: bool)
    requires a == 2 && 4 <= b < 8 && c < 8
    ensures var x := a * 64 + b * 8 + c;
      OperandsOf(a, b, c, y / 8 % 8, if operand16 then 2 else 4, address16) ==
      Operands(HasModRM(x), Immediate(x, y, operand16, address16))
  {
  }

  lemma OperandsOfThird(a: nat, b: nat, c: nat, y: Byte, operand16: bool, address16: bool)
    requires a == 2 && b < 8 && c < 8
    ensures var x := a * 64 + b * 8 + c;
      OperandsOf(a, b, c, y / 8 % 8, if operand16 then 2 else 4, address16) ==
      Operands(HasModRM(x), Immediate(x, y, operand16, address16))
  {
    hide OperandsOf, HasModRM, Immediate;
    if b < 4 {
      OperandsOfThirdLow(a, b, c, y, operand16, address16);
    } else {
      OperandsOfThirdHigh(a, b, c, y, operand16, address16);
    }
  }

  lemma OperandsOfFourthLow(a: nat, b: nat, c: nat, y: Byte, operand16: bool, address16: bool)
    requires a == 3 && b < 4 && c < 8
    ensures var x := a * 64 + b * 8 + c;
      OperandsOf(a, b, c, y / 8 % 8, if operand16 then 2 else 4, address16) ==
      Operands(HasModRM(x), Immediate(x, y, operand16, address16))
  {
    assert y % 0x40 < 0x10 <==> y / 8 % 8 <= 1;
  }

  lemma OperandsOfFourthHigh(a: nat, b: nat, c: nat, y: Byte, operand16: bool, address16: bool)
    requires a == 3 && 4 <= b < 8 && c < 8
    ensures var x := a * 64 + b * 8 + c;
      OperandsOf(a, b, c, y / 8 % 8, if operand16 then 2 else 4, address16) ==
      Operands(HasModRM(x), Immediate(x, y, operand16, address16))
  {
    assert y % 0x40 < 0x10 <==> y / 8 % 8 <= 1;
  }

  lemma OperandsOfFourth(a: nat, b: nat, c: nat, y: Byte, operand16: bool, address16: bool)
    requires a == 3 && b < 8 && c < 8
    ensures var x := a * 64 + b * 8 + c;
      OperandsOf(a, b, c, y / 8 % 8, if operand16 then 2 else 4, address16) ==
      Operands(HasModRM(x), Immediate(x, y, operand16, address16))
  {
    hide OperandsOf, HasModRM, Immediate;
    if b < 4 {
      OperandsOfFourthLow(a, b, c, y, operand16, address16);
    } else {
      OperandsOfFourthHigh(a, b, c, y, operand16, address16);
    }
  }

  /** The octal digits of the decoder give the table by opcodes. */
  lemma OpcodeByTable(m: seq<Byte>, it: nat, operand16: bool, address16: bool)
    ensures AfterOpcode(m, it, operand16, address16) == it + OpcodeSize(m, it, operand16, address16)
  {
    hide OperandsOf, HasModRM, Immediate, ModSib, ModRMSize;
    var x, y := At(m, it), At(m, it + 1);
    var a, b, c := x / 64, x / 8 % 8, x % 8;
    assert x == a * 64 + b * 8 + c;
    ModRMIsModSib(y, address16);
    if a == 0 {
      OperandsOfFirst(a, b, c, y, operand16, address16);
    } else if a == 1 {
      OperandsOfSecond(a, b, c, y, operand16, address16);
    } else if a == 2 {
      OperandsOfThird(a, b, c, y, operand16, address16);
    } else {
      OperandsOfFourth(a, b, c, y, operand16, address16);
    }
  }

  predicate IsPrefix(x: Byte) {
    x in {0x26, 0x2E, 0x36, 0x3E, 0x64, 0x65, 0x66, 0x67, 0xF0, 0xF2, 0xF3}
  }

  datatype Prefixes = Prefixes(it: nat, operand16: bool, address16: bool)

  function AfterPrefixes(m: seq<Byte>, p: Prefixes): (q: Prefixes)
    ensures p.it <= q.it
    decreases if p.it < |m| then |m| - p.it else 0
  {
    if p.it >= |m| || !IsPrefix(m[p.it]) then p
    else AfterPrefixes(m, Prefixes(p.it + 1, p.operand16 || m[p.it] == 0x66, p.address16 || m[p.it] == 0x67))
  }

  datatype Decoded = Next(at: nat) | NotImplemented | Invalid

  /** `next_instruction`. */
  function NextInstruction(m: seq<Byte>, it: nat): Decoded {
    var p := AfterPrefixes(m, Prefixes(it, false, false));
    if At(m, p.it) == TWO_BYTE then NotImplemented
    else
      var next := AfterOpcode(m, p.it, p.operand16, p.address16);
      if next == it + MAX_INSTRUCTION_SIZE + 1 then Invalid else Next(next)
  }

  predicate PrefixByte(x: Byte) {
    (0x20 <= x < 0x40 && x % 8 == 6) || 0x64 <= x <= 0x67 || x == 0xF0 || x == 0xF2 || x == 0xF3
  }

  /** `n` prefixes and then none. */
  ghost predicate PrefixRun(m: seq<Byte>, it: nat, n: nat) {
    && (forall i :: it <= i < it + n ==> i < |m| && PrefixByte(m[i]))
    && (it + n < |m| ==> !PrefixByte(m[it + n]))
  }

  /** One of the prefixes is `x`. */
  ghost predicate HasPrefix(m: seq<Byte>, it: nat, n: nat, x: Byte) {
    exists i :: it <= i < it + n && i < |m| && m[i] == x
  }

  /** An instruction from `it` to `next`: prefixes, a one-byte opcode and what the table says comes after it. */
  ghost predicate IsInstruction(m: seq<Byte>, it: nat, next: nat) {
    exists n :: InstructionWith(m, it, n, next)
  }

  ghost predicate InstructionWith(m: seq<Byte>, it: nat, n: nat, next: nat) {
    && PrefixRun(m, it, n) && At(m, it + n) != 0x0F
    && next == it + n + OpcodeSize(m, it + n, HasPrefix(m, it, n, 0x66), HasPrefix(m, it, n, 0x67))
  }

  lemma {:induction false} PrefixesRun(m: seq<Byte>, p: Prefixes) returns (n: nat)
    ensures var q := AfterPrefixes(m, p);
      && q.it == p.it + n && PrefixRun(m, p.it, n)
      && q.operand16 == (p.operand16 || HasPrefix(m, p.it, n, 0x66))
      && q.address16 == (p.address16 || HasPrefix(m, p.it, n, 0x67))
    decreases if p.it < |m| then |m| - p.it else 0
  {
    if p.it >= |m| || !IsPrefix(m[p.it]) {
      n := 0;
    } else {
      n := PrefixesRun(m, Prefixes(p.it + 1, p.operand16 || m[p.it] == 0x66, p.address16 || m[p.it] == 0x67));
      MorePrefixes(m, p.it, n, 0x66);
      MorePrefixes(m, p.it, n, 0x67);
      n := n + 1;
    }
  }

  lemma MorePrefixes(m: seq<Byte>, it: nat, n: nat, x: Byte)
    requires it < |m|
    ensures HasPrefix(m, it, n + 1, x) <==> m[it] == x || HasPrefix(m, it + 1, n, x)
  {
    if HasPrefix(m, it, n + 1, x) && m[it] != x {
      var i :| it <= i < it + n + 1 && i < |m| && m[i] == x;
      assert it + 1 <= i < it + 1 + n;
    }
  }

  /** The decoder goes by the table: prefixes, opcode, ModR/M byte, immediate. It refuses opcodes of two bytes
      and the one length of sixteen. */
  lemma NextByTable(m: seq<Byte>, it: nat)
    ensures match NextInstruction(m, it)
      case Next(at) => IsInstruction(m, it, at) && at != it + 16
      case NotImplemented => exists n :: PrefixRun(m, it, n) && At(m, it + n) == 0x0F
      case Invalid => IsInstruction(m, it, it + 16)
  {
    hide AfterOpcode, OpcodeSize, IsPrefix;
    var n := PrefixesRun(m, Prefixes(it, false, false));
    var p := AfterPrefixes(m, Prefixes(it, false, false));
    OpcodeByTable(m, p.it, p.operand16, p.address16);
    if At(m, p.it) != 0x0F { assert InstructionWith(m, it, n, AfterOpcode(m, p.it, p.operand16, p.address16)); }
  }

  /** An instruction with a one-byte opcode and no prefixes. */
  predicate Plain(m: seq<Byte>, it: nat) {
    !IsPrefix(At(m, it)) && At(m, it) != TWO_BYTE
  }

  /** What follows an opcode is at most ten bytes long. */
  lemma OperandsBound(m: seq<Byte>, it: nat, operand16: bool, address16: bool)
    ensures it + 1 <= AfterOpcode(m, it, operand16, address16) <= it + 11
  {
    var x, y := At(m, it), At(m, it + 1);
    ModSibBound(y, address16);
    ImmediateBound(x / 64, x / 8 % 8, x % 8, y / 8 % 8, if operand16 then 2 else 4, address16);
  }

  lemma ModSibBound(x: Byte, address16: bool)
    ensures 1 <= ModSib(x, address16) <= 6
  {
  }

  lemma ImmediateBound(a: nat, b: nat, c: nat, reg: nat, word: nat, address16: bool)
    requires word <= 4
    ensures var ops := OperandsOf(a, b, c, reg, word, address16);
      ops.immediate <= 6 && (ops.modSib ==> ops.immediate <= 4)
  {
  }

  /** A plain instruction is found to be one to eleven bytes long. */
  lemma PlainLength(m: seq<Byte>, it: nat)
    requires Plain(m, it)
    ensures NextInstruction(m, it).Next? && it + 1 <= NextInstruction(m, it).at <= it + 11
  {
    OperandsBound(m, it, false, false);
  }

  lemma {:induction false} AtLeastOne(m: seq<Byte>, it: nat)
    requires NextInstruction(m, it).Next?
    ensures NextInstruction(m, it).at > it
  {
    var p := AfterPrefixes(m, Prefixes(it, false, false));
    OperandsBound(m, p.it, p.operand16, p.address16);
  }

  /** The decoder looks at nothing beyond the instruction. */
  lemma LooksInside(m: seq<Byte>, m': seq<Byte>, it: nat)
    requires NextInstruction(m, it).Next? && |m| == |m'|
    requires forall i :: it <= i < NextInstruction(m, it).at ==> At(m', i) == At(m, i)
    ensures NextInstruction(m', it) == NextInstruction(m, it)
  {
    hide OperandsOf;
    var p := AfterPrefixes(m, Prefixes(it, false, false));
    OperandsBound(m, p.it, p.operand16, p.address16);
    SamePrefixes(m, m', Prefixes(it, false, false));
    SameOpcode(m, m', p.it, p.operand16, p.address16);
  }

  lemma SameOpcode(m: seq<Byte>, m': seq<Byte>, it: nat, operand16: bool, address16: bool)
    requires forall i :: it <= i < AfterOpcode(m, it, operand16, address16) ==> At(m', i) == At(m, i)
    ensures AfterOpcode(m', it, operand16, address16) == AfterOpcode(m, it, operand16, address16)
  {
    OperandsBound(m, it, operand16, address16);
    var x, y, y', word := At(m, it), At(m, it + 1), At(m', it + 1), if operand16 then 2 else 4;
    assert At(m', it) == x;
    if !OperandsOf(x / 64, x / 8 % 8, x % 8, y / 8 % 8, word, address16).modSib {
      WithoutModSib(x / 64, x / 8 % 8, x % 8, y / 8 % 8, y' / 8 % 8, word, address16);
    }
  }

  lemma WithoutModSib(a: nat, b: nat, c: nat, reg: nat, reg': nat, word: nat, address16: bool)
    requires !OperandsOf(a, b, c, reg, word, address16).modSib
    ensures OperandsOf(a, b, c, reg', word, address16) == OperandsOf(a, b, c, reg, word, address16)
  {
  }

  lemma {:induction false} SamePrefixes(m: seq<Byte>, m': seq<Byte>, p: Prefixes)
    requires |m| == |m'| && forall i :: p.it <= i <= AfterPrefixes(m, p).it ==> At(m', i) == At(m, i)
    ensures AfterPrefixes(m', p) == AfterPrefixes(m, p)
    decreases if p.it < |m| then |m| - p.it else 0
  {
    if p.it < |m| {
      assert At(m', p.it) == At(m, p.it);
      if IsPrefix(m[p.it]) {
        SamePrefixes(m, m', Prefixes(p.it + 1, p.operand16 || m[p.it] == 0x66, p.address16 || m[p.it] == 0x67));
      }
    }
  }

  /** Addresses and distances are two words, the low one first. */
  function AddressBytes(a: Address): (bytes: seq<Byte>)
    ensures |bytes| == 4
  {
    WordBytes(a % 0x1_0000) + WordBytes(a / 0x1_0000)
  }

  function AddressAt(m: seq<Byte>, i: nat): Address {
    WordAt([At(m, i), At(m, i + 1)]) + WordAt([At(m, i + 2), At(m, i + 3)]) * 0x1_0000
  }

  lemma AddressRoundTrip(m: seq<Byte>, i: nat, a: Address)
    requires i + 4 <= |m| && m[i..i + 4] == AddressBytes(a)
    ensures AddressAt(m, i) == a
  {
    var low, high := WordBytes(a % 0x1_0000), WordBytes(a / 0x1_0000);
    var bytes := m[i..i + 4];
    assert bytes[..2] == low && bytes[2..] == high;
    assert [bytes[0], bytes[1]] == low + [] && [bytes[2], bytes[3]] == high + [];
    WordRoundTrip(a % 0x1_0000, []);
    WordRoundTrip(a / 0x1_0000, []);
    assert m[i] == bytes[0] && m[i + 1] == bytes[1] && m[i + 2] == bytes[2] && m[i + 3] == bytes[3];
  }

  /** A jump that stands at `at`. The distance is from its end, modulo 2^32. */
  function JumpBytes(at: Address, target: Address): (bytes: seq<Byte>)
    ensures |bytes| == JUMP_SIZE
  {
    [JUMP] + AddressBytes((target - at - JUMP_SIZE) % ADDRESSES)
  }

  /** One round of `follow_jumps`: where a jump at `at` leads. The distance of a short jump is taken as it
      is, without a sign. */
  function Follow(m: seq<Byte>, at: Address): Address {
    if At(m, at) == JUMP then (at + JUMP_SIZE + AddressAt(m, at + 1)) % ADDRESSES
    else if At(m, at) == SHORT_JUMP then (at + 2 + At(m, at + 1)) % ADDRESSES
    else at
  }

  predicate IsJump(m: seq<Byte>, at: Address) {
    At(m, at) == JUMP || At(m, at) == SHORT_JUMP
  }

  /** The number that four bytes make, low byte first. */
  function FourBytes(m: seq<Byte>, i: nat): nat
    requires i + 4 <= |m|
  {
    m[i] as int + m[i + 1] as int * 0x100 + m[i + 2] as int * 0x1_0000 + m[i + 3] as int * 0x100_0000
  }

  lemma AddressIsFourBytes(m: seq<Byte>, i: nat)
    requires i + 4 <= |m|
    ensures AddressAt(m, i) == FourBytes(m, i)
  {
  }

  /** The instruction E9 with the distance from its end to `to`, modulo 2^32. */
  predicate LongJump(m: seq<Byte>, at: nat, to: int) {
    at + 5 <= |m| && m[at] == 0xE9 && to == (at + 5 + FourBytes(m, at + 1)) % 0x1_0000_0000
  }

  /** The instruction EB with a distance of one byte from its end. */
  predicate ShortJump(m: seq<Byte>, at: nat, to: int) {
    at + 2 <= |m| && m[at] == 0xEB && to == (at + 2 + m[at + 1]) % 0x1_0000_0000
  }

  /** Following goes where the jump at an address leads, and only stays where there is none. */
  lemma FollowsByBytes(m: seq<Byte>, at: Address, to: Address)
    requires at + 5 <= |m|
    ensures IsJump(m, at) && Follow(m, at) == to <==> LongJump(m, at, to) || ShortJump(m, at, to)
    ensures !IsJump(m, at) ==> Follow(m, at) == at
  {
    hide AddressAt, FourBytes;
    AddressIsFourBytes(m, at + 1);
  }

  /** Following a jump that was written leads to where it was meant to lead, from anywhere to anywhere. */
  lemma JumpLeads(m: seq<Byte>, at: Address, target: Address)
    requires at + 5 <= |m| && m[at..at + 5] == JumpBytes(at, target)
    ensures LongJump(m, at, target) && Follow(m, at) == target
  {
    hide AddressBytes, AddressAt, FourBytes;
    var bytes := m[at..at + 5];
    assert m[at] == bytes[0];
    assert m[at + 1..at + 5] == bytes[1..] == AddressBytes((target - at - JUMP_SIZE) % ADDRESSES);
    AddressRoundTrip(m, at + 1, (target - at - JUMP_SIZE) % ADDRESSES);
    AddressIsFourBytes(m, at + 1);
  }

  /** `thiscall_thunk` at `at`: loads a pointer and jumps. */
  function ThunkBytes(at: Address, pointer: Address, target: Address): (bytes: seq<Byte>)
    requires at + JUMP_SIZE < ADDRESSES
    ensures |bytes| == 2 * JUMP_SIZE
  {
    [LOAD_EDX] + AddressBytes(pointer) + JumpBytes(at + JUMP_SIZE, target)
  }
}
