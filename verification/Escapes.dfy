/** `unescape`: a table-driven scanner, against what escape sequences mean. */
module Escapes {
  import opened Runes

  datatype Found = NoCodePoint | CodePoint(value: Rune, length: nat)

  predicate AllHex(t: seq<Rune>) {
    forall k :: 0 <= k < |t| ==> IsHex(t[k])
  }

  function HexNumber(digits: seq<Rune>): nat
    requires AllHex(digits)
  {
    if digits == [] then 0
    else HexNumber(digits[..|digits| - 1]) * 16 + HexDigit(digits[|digits| - 1])
  }

  /** How many hexadecimal digits a text begins with. */
  function HexRun(t: seq<Rune>): (n: nat)
    ensures n <= |t| && AllHex(t[..n]) && (n < |t| ==> !IsHex(t[n]))
  {
    if t == [] || !IsHex(t[0]) then 0
    else
      var n := HexRun(t[1..]);
      assert t[..n + 1] == [t[0]] + t[1..][..n];
      n + 1
  }

  /** Three digits and a closing brace. The grammar does not have this form, but the table takes it. */
  predicate ShortForm(t: seq<Rune>) {
    |t| >= 4 && AllHex(t[..3]) && t[3] == CLOSE
  }

  /** What follows `\u`: four digits, or one to six of them in braces for a code point that exists, or the
      short form if `lenient`. */
  function CodePointAt(t: seq<Rune>, lenient: bool): (found: Found)
    ensures found.CodePoint? ==> 0 < found.length <= |t|
  {
    if |t| >= 4 && AllHex(t[..4]) then
      SmallNumber(t[..4]);
      CodePoint(HexNumber(t[..4]), 4)
    else if lenient && ShortForm(t) then
      SmallNumber(t[..3]);
      CodePoint(HexNumber(t[..3]), 4)
    else if t != [] && t[0] == OPEN then
      var n := HexRun(t[1..]);
      if 1 <= n <= 6 && n + 1 < |t| && t[n + 1] == CLOSE && HexNumber(t[1..][..n]) <= 0x10_FFFF then
        CodePoint(HexNumber(t[1..][..n]), n + 2)
      else NoCodePoint
    else NoCodePoint
  }

  lemma {:induction false} SmallNumber(digits: seq<Rune>)
    requires |digits| <= 4 && AllHex(digits)
    ensures HexNumber(digits) < 0x1_0000
    ensures |digits| <= 3 ==> HexNumber(digits) < 0x1000
    ensures |digits| <= 2 ==> HexNumber(digits) < 0x100
    ensures |digits| <= 1 ==> HexNumber(digits) < 0x10
  {
    if digits != [] { SmallNumber(digits[..|digits| - 1]); }
  }

  /** The meaning of a text with escape sequences. A backslash stands for what comes after it, and for
      nothing at the end of the text; `\u` stands for the code point that follows if one does. */
  function Decode(s: seq<Rune>, lenient: bool): (t: seq<Rune>)
    decreases |s|
  {
    if s == [] then []
    else if s[0] != BACKSLASH then [s[0]] + Decode(s[1..], lenient)
    else if |s| == 1 then []
    else if s[1] != LETTER_U then [s[1]] + Decode(s[2..], lenient)
    else
      match CodePointAt(s[2..], lenient)
      case CodePoint(value, n) => [value] + Decode(s[2 + n..], lenient)
      case NoCodePoint => [LETTER_U] + Decode(s[2..], lenient)
  }

  lemma {:induction false} DecodePlain(s: seq<Rune>, n: nat, lenient: bool)
    requires n <= |s| && BACKSLASH !in s[..n]
    ensures Decode(s, lenient) == s[..n] + Decode(s[n..], lenient)
  {
    if n > 0 {
      assert s[0] in s[..n] && s[1..][..n - 1] == s[..n][1..] && s[1..][n - 1..] == s[n..];
      DecodePlain(s[1..], n - 1, lenient);
      assert s[..n] == [s[0]] + s[1..][..n - 1];
    } else {
      assert s[..0] == [] && s[0..] == s;
    }
  }

  datatype Cell = Cell(next: int, action: nat)

  datatype Row = Row(backslash: Cell, u: Cell, hex: Cell, open: Cell, close: Cell, other: Cell, end: Cell)

  datatype Class = Backslash | U | Hex | Open | Close | Other | End

  function RowOf(state: nat): Row
    requires state < 13
  {
    var zero, start, end := Cell(0, 0), Cell(1, 1), Cell(-1, 1);
    if state == 0 then Row(start, zero, zero, zero, zero, zero, end)
    else if state == 1 then Row(zero, Cell(2, 2), zero, zero, zero, zero, end)
    else if state == 2 then Row(start, zero, Cell(3, 3), Cell(4, 0), zero, zero, end)
    else if state == 3 then Row(start, zero, Cell(5, 3), zero, zero, zero, end)
    else if state == 4 then Row(start, zero, Cell(6, 3), zero, zero, zero, end)
    else if state == 5 then Row(start, zero, Cell(7, 3), zero, zero, zero, end)
    else if state == 6 then Row(start, zero, Cell(8, 3), zero, Cell(0, 5), zero, end)
    else if state == 7 then Row(start, zero, Cell(0, 4), zero, Cell(0, 5), zero, end)
    else if state == 12 then Row(start, zero, zero, zero, Cell(0, 5), zero, end)
    else Row(start, zero, Cell(state + 1, 3), zero, Cell(0, 5), zero, end)
  }

  function CellOf(row: Row, class_: Class): Cell {
    match class_
    case Backslash => row.backslash
    case U => row.u
    case Hex => row.hex
    case Open => row.open
    case Close => row.close
    case Other => row.other
    case End => row.end
  }

  function ClassAt(s: seq<Rune>, i: nat): Class
    requires i <= |s|
  {
    if i == |s| then End
    else if s[i] == BACKSLASH then Backslash
    else if s[i] == LETTER_U then U
    else if IsHex(s[i]) then Hex
    else if s[i] == OPEN then Open
    else if s[i] == CLOSE then Close
    else Other
  }

  /** Where the scanner stands: what has been put out and the part of the text not yet put out, which
      begins at `mark`. */
  datatype Scan = Scan(state: int, it: nat, mark: nat, value: nat, result: seq<Rune>)

  predicate InRange(s: seq<Rune>, c: Scan) {
    c.mark <= c.it <= |s| && -1 <= c.state < 13
  }

  /** One round of the loop. The value never gets so large that shifting it would lose digits. */
  function Move(s: seq<Rune>, c: Scan): (c': Scan)
    requires InRange(s, c) && c.state >= 0
  {
    var cell := CellOf(RowOf(c.state), ClassAt(s, c.it));
    var next := if c.it == |s| then c.it else c.it + 1;
    var digit := if c.it < |s| && IsHex(s[c.it]) then HexDigit(s[c.it]) else 0;
    var value := if cell.action == 2 then 0 else if cell.action in {3, 4} then c.value * 16 + digit else c.value;
    if cell.action == 1 then
      Scan(cell.next, next, next, value, c.result + s[c.mark..c.it])
    else if cell.action >= 4 && value <= 0x10_FFFF then
      Scan(cell.next, next, next, value, c.result + [value])
    else
      Scan(cell.next, next, c.mark, value, c.result)
  }

  /** How many digits have been read in each state after `\u`. */
  function Digits(state: int): int {
    if state == 3 then 1 else if state == 5 then 2 else if state == 7 then 3
    else if state == 6 then 1 else if 8 <= state <= 12 then state - 6 else 0
  }

  predicate InBraces(state: int) {
    state in {4, 6, 8, 9, 10, 11, 12}
  }

  /** What is known in each state: what has been put out and the meaning of the rest make up the meaning of
      the whole text, the rest beginning at the backslash of an escape sequence that is being read. */
  predicate Sound(s: seq<Rune>, c: Scan) {
    && InRange(s, c)
    && (c.state == -1 ==> Decode(s, true) == c.result)
    && (c.state == 0 ==> Decode(s, true) == c.result + s[c.mark..c.it] + Decode(s[c.it..], true))
    && (c.state == 1 ==> c.mark == c.it)
    && (c.state >= 1 ==>
          && c.mark > 0 && s[c.mark - 1] == BACKSLASH
          && Decode(s, true) == c.result + Decode(s[c.mark - 1..], true))
    && (c.state >= 2 ==> c.mark < c.it && s[c.mark] == LETTER_U && Reading(c.state, s[c.mark + 1..c.it], c.value))
  }

  /** The part of an escape sequence that has been read after `\u`. */
  predicate Reading(state: int, t: seq<Rune>, value: nat) {
    if state == 2 then t == [] && value == 0
    else if InBraces(state) then
      t != [] && t[0] == OPEN && IsDigits(t[1..], Digits(state), value)
    else IsDigits(t, Digits(state), value)
  }

  predicate IsDigits(t: seq<Rune>, n: int, value: nat) {
    |t| == n && AllHex(t) && HexNumber(t) == value
  }

  lemma DigitAdds(t: seq<Rune>, n: int, value: nat, c: Rune)
    requires IsDigits(t, n, value) && IsHex(c)
    ensures IsDigits(t + [c], n + 1, value * 16 + HexDigit(c))
  {
    assert (t + [c])[..|t|] == t;
  }

  lemma {:induction false} HexRunIs(t: seq<Rune>, n: nat)
    requires n <= |t| && forall k :: 0 <= k < n ==> IsHex(t[k])
    ensures HexRun(t) >= n
    ensures n == |t| || !IsHex(t[n]) ==> HexRun(t) == n
  {
    if n > 0 { HexRunIs(t[1..], n - 1); }
  }

  lemma ReadingIsPlain(state: int, t: seq<Rune>, value: nat)
    requires 2 <= state < 13 && Reading(state, t, value)
    ensures BACKSLASH !in t
  {
    forall k | 0 <= k < |t| ensures t[k] != BACKSLASH {
      if InBraces(state) && k > 0 { assert t[k] == t[1..][k - 1]; }
    }
  }

  /** Whether the table goes on with an escape sequence, or completes it, at a code point. */
  predicate GoesOn(state: int, x: Rune) {
    if state == 2 then IsHex(x) || x == OPEN
    else if state in {3, 4, 5} then IsHex(x)
    else if state == 12 then x == CLOSE
    else IsHex(x) || x == CLOSE
  }

  /** When the table gives up, there is no code point. */
  lemma NothingThere(state: int, t: seq<Rune>, value: nat, u: seq<Rune>)
    requires 2 <= state < 13 && Reading(state, t, value) && t <= u
    requires |t| < |u| ==> !GoesOn(state, u[|t|]) || (InBraces(state) && u[|t|] == CLOSE && value > 0x10_FFFF)
    ensures CodePointAt(u, true) == NoCodePoint
  {
    hide HexNumber;
    if InBraces(state) {
      var n := Digits(state);
      forall k | 0 <= k < n ensures IsHex(u[1..][k]) { assert t[1..][k] == u[1..][k]; }
      HexRunIs(u[1..], n);
      assert u[1..][..n] == t[1..];
      if state == 12 && |t| < |u| && IsHex(u[|t|]) {
        forall k | 0 <= k < 7 ensures IsHex(u[1..][k]) { assert k < 6 ==> t[1..][k] == u[1..][k]; }
        HexRunIs(u[1..], 7);
      }
      assert !IsHex(u[0]);
      assert |u| >= 4 ==> u[..4][0] == u[0] && u[..3][0] == u[0];
    } else {
      forall k | 0 <= k < |t| ensures IsHex(u[k]) { assert t[k] == u[k]; }
      if |u| >= 4 {
        assert u[..4][|t|] == u[|t|];
        assert |t| < 3 ==> u[..3][|t|] == u[|t|];
      }
    }
  }

  /** When the table completes a sequence, there is a code point. */
  lemma SomethingThere(state: int, t: seq<Rune>, value: nat, u: seq<Rune>)
    requires 2 <= state < 13 && Reading(state, t, value) && t < u
    requires state == 7 || (InBraces(state) && state != 4 && u[|t|] == CLOSE && value <= 0x10_FFFF)
    requires state == 7 ==> IsHex(u[3]) || u[3] == CLOSE
    ensures state == 7 ==> value < 0x1000
    ensures var v := if state == 7 && IsHex(u[3]) then value * 16 + HexDigit(u[3]) else value;
      v <= 0x10_FFFF && CodePointAt(u, true) == CodePoint(v, |t| + 1)
  {
    if state == 7 {
      SmallNumber(t);
      assert u[..3] == t;
      if IsHex(u[3]) {
        DigitAdds(t, 3, value, u[3]);
        assert u[..4] == t + [u[3]];
      } else {
        assert !AllHex(u[..4]) by { assert u[..4][3] == u[3]; }
      }
    } else {
      var n := Digits(state);
      forall k | 0 <= k < n ensures IsHex(u[1..][k]) { assert t[1..][k] == u[1..][k]; }
      HexRunIs(u[1..], n);
      assert u[1..][..n] == t[1..];
      assert |u| >= 4 ==> u[..4][0] == u[0] && u[..3][0] == u[0];
    }
  }

  /** What a round does outside an escape sequence. */
  lemma TableOutside(s: seq<Rune>, c: Scan)
    requires InRange(s, c) && 0 <= c.state <= 1
    ensures Move(s, c) ==
      if c.it == |s| then Scan(-1, c.it, c.it, c.value, c.result + s[c.mark..c.it])
      else if c.state == 0 && s[c.it] == BACKSLASH then
        Scan(1, c.it + 1, c.it + 1, c.value, c.result + s[c.mark..c.it])
      else if c.state == 1 && s[c.it] == LETTER_U then Scan(2, c.it + 1, c.mark, 0, c.result)
      else Scan(0, c.it + 1, c.mark, c.value, c.result)
  {
  }

  /** What a round does when it gives up on an escape sequence. */
  lemma TableGivesUp(s: seq<Rune>, c: Scan)
    requires InRange(s, c) && c.state >= 2
    requires c.it < |s| ==>
      !GoesOn(c.state, s[c.it]) || (InBraces(c.state) && s[c.it] == CLOSE && c.value > 0x10_FFFF)
    ensures Move(s, c) ==
      if c.it == |s| then Scan(-1, c.it, c.it, c.value, c.result + s[c.mark..c.it])
      else if s[c.it] == BACKSLASH then Scan(1, c.it + 1, c.it + 1, c.value, c.result + s[c.mark..c.it])
      else Scan(0, c.it + 1, c.mark, c.value, c.result)
  {
  }

  /** What a round does when it goes on: it completes the sequence or reads on. */
  lemma TableGoesOn(s: seq<Rune>, c: Scan)
    requires InRange(s, c) && c.state >= 2 && c.it < |s| && GoesOn(c.state, s[c.it])
    requires c.value <= 0x10_FFFF || s[c.it] != CLOSE
    requires c.state == 7 ==> c.value < 0x1000
    ensures var x := s[c.it];
      var v := if IsHex(x) then c.value * 16 + HexDigit(x) else c.value;
      Move(s, c) ==
        if c.state == 7 || x == CLOSE then Scan(0, c.it + 1, c.it + 1, v, c.result + [v])
        else Scan(ReadState(c.state, x), c.it + 1, c.mark, v, c.result)
  {
  }

  function ReadState(state: int, x: Rune): int {
    if state == 2 then if x == OPEN then 4 else 3
    else if state == 3 then 5
    else if state == 4 then 6
    else if state == 5 then 7
    else if state == 6 then 8
    else state + 1
  }

  lemma MoveOutside(s: seq<Rune>, c: Scan)
    requires Sound(s, c) && 0 <= c.state <= 1
    ensures Sound(s, Move(s, c))
  {
    hide Move, RowOf, CodePointAt, HexNumber;
    TableOutside(s, c);
    if c.state == 0 { MovePlain(s, c); } else { MoveEscaped(s, c); }
  }

  lemma MovePlain(s: seq<Rune>, c: Scan)
    requires Sound(s, c) && c.state == 0
    ensures Sound(s, Move(s, c))
  {
    hide Move, RowOf, CodePointAt, HexNumber;
    TableOutside(s, c);
    var c' := Move(s, c);
    if c.it == |s| {
      DecodeNothing(s[c.it..]);
    } else if s[c.it] == BACKSLASH {
      assert s[c'.mark - 1..] == s[c.it..];
    } else {
      PlainGoesOn(s, c.result, c.mark, c.it);
    }
  }

  lemma MoveEscaped(s: seq<Rune>, c: Scan)
    requires Sound(s, c) && c.state == 1
    ensures Sound(s, Move(s, c))
  {
    hide Move, RowOf, CodePointAt, HexNumber;
    TableOutside(s, c);
    var c', rest := Move(s, c), s[c.mark - 1..];
    if c.it == |s| {
      assert rest == [BACKSLASH];
    } else if s[c.it] == LETTER_U {
      assert s[c'.mark + 1..c'.it] == [];
    } else {
      assert rest[1] == s[c.it] && rest[2..] == s[c'.it..];
      assert s[c'.mark..c'.it] == [rest[1]];
    }
  }

  lemma DecodeNoCodePoint(rest: seq<Rune>)
    requires |rest| >= 2 && rest[0] == BACKSLASH && rest[1] == LETTER_U && CodePointAt(rest[2..], true) == NoCodePoint
    ensures Decode(rest, true) == [LETTER_U] + Decode(rest[2..], true)
  {
  }

  /** Giving up, what was read of the sequence stands for itself. */
  lemma GivesUp(s: seq<Rune>, c: Scan)
    requires Sound(s, c) && c.state >= 2
    requires CodePointAt(s[c.mark + 1..], true) == NoCodePoint
    ensures Decode(s, true) == c.result + s[c.mark..c.it] + Decode(s[c.it..], true)
  {
    hide Decode, CodePointAt, HexNumber, Reading;
    var rest, t := s[c.mark - 1..], s[c.mark + 1..c.it];
    assert rest[2..] == s[c.mark + 1..];
    ReadingIsPlain(c.state, t, c.value);
    assert s[c.mark + 1..][..|t|] == t && s[c.mark + 1..][|t|..] == s[c.it..];
    DecodeNoCodePoint(rest);
    DecodePlain(s[c.mark + 1..], |t|, true);
    assert [LETTER_U] + t == s[c.mark..c.it];
    assert Decode(rest, true) == s[c.mark..c.it] + Decode(s[c.it..], true);
  }

  lemma MoveInside(s: seq<Rune>, c: Scan)
    requires Sound(s, c) && c.state >= 2
    ensures Sound(s, Move(s, c))
  {
    hide Decode, HexNumber, CodePointAt, Reading, Move, RowOf;
    var u, t := s[c.mark + 1..], s[c.mark + 1..c.it];
    assert t <= u && (c.it < |s| ==> u[|t|] == s[c.it]);
    if c.it == |s| || !GoesOn(c.state, s[c.it]) || (InBraces(c.state) && s[c.it] == CLOSE && c.value > 0x10_FFFF) {
      NothingThere(c.state, t, c.value, u);
      GivesUp(s, c);
      StandsForItself(s, c);
    } else if c.state == 7 || s[c.it] == CLOSE {
      Completes(s, c);
    } else {
      ReadsOn(s, c);
    }
  }

  lemma DecodeNothing(s: seq<Rune>)
    requires s == []
    ensures Decode(s, true) == []
  {
  }

  lemma StandsForItself(s: seq<Rune>, c: Scan)
    requires Sound(s, c) && c.state >= 2
    requires c.it < |s| ==>
      !GoesOn(c.state, s[c.it]) || (InBraces(c.state) && s[c.it] == CLOSE && c.value > 0x10_FFFF)
    requires Decode(s, true) == c.result + s[c.mark..c.it] + Decode(s[c.it..], true)
    ensures Sound(s, Move(s, c))
  {
    hide Decode, Move, RowOf, Reading, GoesOn, Sound;
    SoundInRange(s, c);
    TableGivesUp(s, c);
    if c.it == |s| {
      DecodeNothing(s[c.it..]);
    } else if s[c.it] == BACKSLASH {
      assert s[c.it + 1 - 1..] == s[c.it..];
    } else {
      PlainGoesOn(s, c.result, c.mark, c.it);
    }
    SoundAgain(s, Move(s, c));
  }

  lemma SoundInRange(s: seq<Rune>, c: Scan)
    requires Sound(s, c)
    ensures InRange(s, c)
  {
  }

  /** What there is to know when no escape sequence is being read. */
  lemma SoundAgain(s: seq<Rune>, c: Scan)
    requires InRange(s, c)
    requires || (c.state == -1 && Decode(s, true) == c.result)
             || (c.state == 0 && Decode(s, true) == c.result + s[c.mark..c.it] + Decode(s[c.it..], true))
             || (c.state == 1 && c.mark == c.it > 0 && s[c.mark - 1] == BACKSLASH
                 && Decode(s, true) == c.result + Decode(s[c.mark - 1..], true))
    ensures Sound(s, c)
  {
    hide Decode;
  }

  lemma PlainGoesOn(s: seq<Rune>, before: seq<Rune>, mark: nat, it: nat)
    requires mark <= it < |s| && s[it] != BACKSLASH
    ensures before + s[mark..it] + Decode(s[it..], true) == before + s[mark..it + 1] + Decode(s[it + 1..], true)
  {
    hide Decode;
    DecodePlain(s[it..], 1, true);
    assert s[it..][..1] == [s[it]] && s[it..][1..] == s[it + 1..];
    assert s[mark..it] + [s[it]] == s[mark..it + 1];
  }

  lemma Completes(s: seq<Rune>, c: Scan)
    requires Sound(s, c) && c.state >= 2 && c.it < |s| && GoesOn(c.state, s[c.it])
    requires c.state == 7 || s[c.it] == CLOSE
    requires s[c.it] == CLOSE && InBraces(c.state) ==> c.value <= 0x10_FFFF
    ensures Sound(s, Move(s, c))
  {
    hide Move, RowOf, CodePointAt, HexNumber, Reading, Decode;
    var u, t, rest := s[c.mark + 1..], s[c.mark + 1..c.it], s[c.mark - 1..];
    assert t < u && u[|t|] == s[c.it];
    TextLength(c.state, t, c.value);
    SomethingThere(c.state, t, c.value, u);
    TableGoesOn(s, c);
    assert rest[2..] == u && rest[2 + |t| + 1..] == s[c.it + 1..];
    DecodeCodePoint(rest);
    assert s[c.it + 1..c.it + 1] == [];
  }

  lemma TextLength(state: int, t: seq<Rune>, value: nat)
    requires 2 <= state < 13 && Reading(state, t, value)
    ensures state == 7 ==> |t| == 3
  {
  }

  lemma DecodeCodePoint(rest: seq<Rune>)
    requires |rest| >= 2 && rest[0] == BACKSLASH && rest[1] == LETTER_U && CodePointAt(rest[2..], true).CodePoint?
    ensures var found := CodePointAt(rest[2..], true);
      Decode(rest, true) == [found.value] + Decode(rest[2 + found.length..], true)
  {
  }

  lemma ReadsOn(s: seq<Rune>, c: Scan)
    requires Sound(s, c) && c.state >= 2 && c.it < |s| && GoesOn(c.state, s[c.it])
    requires c.state != 7 && s[c.it] != CLOSE
    ensures Sound(s, Move(s, c))
  {
    hide Move, RowOf, CodePointAt, HexNumber, Decode, Reading;
    var t, x := s[c.mark + 1..c.it], s[c.it];
    TableGoesOn(s, c);
    assert s[c.mark + 1..c.it + 1] == t + [x];
    ReadingOn(c.state, t, c.value, x);
  }

  lemma ReadingOn(state: int, t: seq<Rune>, value: nat, x: Rune)
    requires 2 <= state < 13 && Reading(state, t, value) && GoesOn(state, x) && state != 7 && x != CLOSE
    ensures 2 < ReadState(state, x) < 13
    ensures Reading(ReadState(state, x), t + [x], if IsHex(x) then value * 16 + HexDigit(x) else value)
  {
    hide HexNumber;
    if x == OPEN {
      EmptyDigits();
      assert (t + [x])[1..] == [];
    } else if InBraces(state) {
      DigitAdds(t[1..], Digits(state), value, x);
      assert (t + [x])[1..] == t[1..] + [x];
    } else {
      if state == 2 { EmptyDigits(); }
      DigitAdds(t, Digits(state), value, x);
    }
  }

  lemma EmptyDigits()
    ensures IsDigits([], 0, 0)
  {
  }

  /** The loop puts out the meaning of the text. */
  method Unescape(s: seq<Rune>) returns (result: seq<Rune>)
    ensures result == Decode(s, true)
  {
    hide Decode, RowOf, CodePointAt, HexNumber, Reading, Multiplied;
    StartsSound(s);
    var state: int := 0;
    var it: nat, mark: nat, value: nat := 0, 0, 0;
    result := [];
    while state >= 0
      invariant Sound(s, Scan(state, it, mark, value, result))
      invariant state < 0 || it <= |s|
      decreases |s| - it, state >= 0
    {
      ghost var c := Scan(state, it, mark, value, result);
      if state <= 1 { MoveOutside(s, c); } else { MoveInside(s, c); }
      EndStops(state);
      var class_ := ClassAt(s, it);
      if class_.Hex? { MultiplicationGivesDigit(s[it]); }
      var next := if it == |s| then it else it + 1;
      var cell := CellOf(RowOf(state), class_);
      state := cell.next;
      match cell.action {
      case 1 =>
        result, mark := result + s[mark..it], next;
      case 2 =>
        value := 0;
      case 3 =>
        value := value * 16 + (if class_.Hex? then Multiplied(s[it]) else 0);
      case 4 =>
        value := value * 16 + (if class_.Hex? then Multiplied(s[it]) else 0);
        if value <= 0x10_FFFF {
          result, mark := result + [value], next;
        }
      case 5 =>
        if value <= 0x10_FFFF {
          result, mark := result + [value], next;
        }
      case _ =>
      }
      it := next;
      assert Scan(state, it, mark, value, result) == Move(s, c);
    }
  }

  lemma StartsSound(s: seq<Rune>)
    ensures Sound(s, Scan(0, 0, 0, 0, []))
  {
    assert s[0..0] == [] && s[0..] == s;
  }

  lemma EndStops(state: nat)
    requires state < 13
    ensures RowOf(state).end == Cell(-1, 1) && CellOf(RowOf(state), End) == Cell(-1, 1)
    ensures forall k :: CellOf(RowOf(state), k).action <= 5
  {
  }

  /** Whether a backslash that is not itself escaped comes before a `u` and the short form. */
  predicate HasShortForm(s: seq<Rune>)
    decreases |s|
  {
    if |s| < 2 then false
    else if s[0] != BACKSLASH then HasShortForm(s[1..])
    else if s[1] != LETTER_U then HasShortForm(s[2..])
    else
      match CodePointAt(s[2..], false)
      case CodePoint(_, n) => HasShortForm(s[2 + n..])
      case NoCodePoint => ShortForm(s[2..]) || HasShortForm(s[2..])
  }

  /** The scanner gives a text the meaning of the commented grammar exactly when the short form does not
      come up in it. */
  lemma {:induction false} MeansGrammar(s: seq<Rune>)
    ensures Decode(s, true) == Decode(s, false) <==> !HasShortForm(s)
    ensures |Decode(s, true)| <= |Decode(s, false)|
    ensures HasShortForm(s) ==> |Decode(s, true)| < |Decode(s, false)|
    decreases |s|
  {
    if |s| < 2 {
      if |s| == 1 { MeansGrammar(s[1..]); }
    } else if s[0] != BACKSLASH {
      MeansGrammar(s[1..]);
    } else if s[1] != LETTER_U {
      MeansGrammar(s[2..]);
    } else {
      ShortFormIsNoOther(s[2..]);
      match CodePointAt(s[2..], false)
      case CodePoint(_, n) => MeansGrammar(s[2 + n..]);
      case NoCodePoint =>
        if ShortForm(s[2..]) {
          MeansGrammar(s[6..]);
          ShortFormIsPlain(s[2..]);
          DecodePlain(s[2..], 4, false);
          assert s[2..][4..] == s[6..];
        } else {
          MeansGrammar(s[2..]);
        }
    }
  }

  lemma ShortFormIsNoOther(t: seq<Rune>)
    ensures ShortForm(t) ==> CodePointAt(t, false) == NoCodePoint
    ensures !ShortForm(t) ==> CodePointAt(t, true) == CodePointAt(t, false)
    ensures ShortForm(t) ==> CodePointAt(t, true).CodePoint? && CodePointAt(t, true).length == 4
    ensures CodePointAt(t, false).CodePoint? ==> CodePointAt(t, true) == CodePointAt(t, false)
  {
    if ShortForm(t) {
      assert t[..4][3] == CLOSE && t[..3][0] == t[0];
    }
  }

  lemma ShortFormIsPlain(t: seq<Rune>)
    requires ShortForm(t)
    ensures BACKSLASH !in t[..4]
  {
    assert forall k :: 0 <= k < 3 ==> t[..4][k] == t[..3][k];
  }

  predicate NeedsEscape(c: Rune) {
    c == BACKSLASH || c == APOSTROPHE || c == QUOTE || IsWhitespace(c)
  }

  /** A backslash before everything that would otherwise end an argument or begin a quotation or an escape
      sequence. */
  function Escaped(a: seq<Rune>): seq<Rune> {
    if a == [] then [] else (if NeedsEscape(a[0]) then [BACKSLASH, a[0]] else [a[0]]) + Escaped(a[1..])
  }

  lemma {:induction false} EscapedMeansItself(a: seq<Rune>)
    ensures Decode(Escaped(a), true) == a
  {
    if a != [] {
      EscapedMeansItself(a[1..]);
      var s, rest := Escaped(a), Escaped(a[1..]);
      if NeedsEscape(a[0]) {
        assert s[2..] == rest;
      } else {
        assert s[1..] == rest;
      }
    }
  }

  function Pow16(n: nat): nat {
    if n == 0 then 1 else 16 * Pow16(n - 1)
  }

  /** `v` with `n` hexadecimal digits. */
  function Printed(v: nat, n: nat, digits: string): (t: seq<Rune>)
    requires |digits| == 16
    ensures |t| == n
  {
    if n == 0 then [] else Printed(v / 16, n - 1, digits) + [digits[v % 16] as int]
  }

  predicate IsDigitSet(digits: string) {
    digits == "0123456789ABCDEF" || digits == "0123456789abcdef"
  }

  /** Printed digits read as the number that was printed. */
  lemma {:induction false} PrintedReads(v: nat, n: nat, digits: string)
    requires IsDigitSet(digits) && v < Pow16(n)
    ensures AllHex(Printed(v, n, digits)) && HexNumber(Printed(v, n, digits)) == v
  {
    if n > 0 {
      PrintedReads(v / 16, n - 1, digits);
      PrintedDigit(digits, v % 16);
      var t, x := Printed(v / 16, n - 1, digits), digits[v % 16] as int;
      DigitAdded(t, x);
    }
  }

  lemma DigitAdded(t: seq<Rune>, x: Rune)
    requires AllHex(t) && IsHex(x)
    ensures AllHex(t + [x]) && HexNumber(t + [x]) == HexNumber(t) * 16 + HexDigit(x)
  {
    assert (t + [x])[..|t|] == t;
  }

  /** `\u` and four digits of any number below 0x10000 stand for it, whatever comes after. */
  lemma FourDigitsMean(v: nat, digits: string, rest: seq<Rune>, lenient: bool)
    requires IsDigitSet(digits) && v < 0x1_0000
    ensures Decode([0x5C, 0x75] + Printed(v, 4, digits) + rest, lenient) == [v] + Decode(rest, lenient)
  {
    hide Printed, HexNumber;
    assert Pow16(4) == 0x1_0000;
    PrintedReads(v, 4, digits);
    var t := Printed(v, 4, digits);
    SequenceMeans(t, rest, v, lenient);
  }

  /** `\u` and, in braces, one to six digits of any code point stand for it. */
  lemma BracedDigitsMean(v: Rune, n: nat, digits: string, rest: seq<Rune>, lenient: bool)
    requires IsDigitSet(digits) && 1 <= n <= 6 && v < Pow16(n)
    ensures Decode([0x5C, 0x75] + ([0x7B] + Printed(v, n, digits) + [0x7D]) + rest, lenient) ==
            [v] + Decode(rest, lenient)
  {
    hide Printed, HexNumber, Pow16;
    PrintedReads(v, n, digits);
    var t := Printed(v, n, digits);
    BracedFound(t, rest, v, lenient);
    SequenceMeans([OPEN] + t + [CLOSE], rest, v, lenient);
  }

  /** `\u`, three digits and a closing brace stand for a number below 0x1000, though not in the grammar. */
  lemma ThreeDigitsMean(v: nat, digits: string, rest: seq<Rune>)
    requires IsDigitSet(digits) && v < 0x1000
    ensures Decode([0x5C, 0x75] + (Printed(v, 3, digits) + [0x7D]) + rest, true) == [v] + Decode(rest, true)
  {
    hide Printed, HexNumber;
    assert Pow16(3) == 0x1000;
    PrintedReads(v, 3, digits);
    var t := Printed(v, 3, digits);
    var all := t + [CLOSE] + rest;
    assert all[..3] == t && all[3] == CLOSE && all[..4][3] == CLOSE;
    SequenceMeans(t + [CLOSE], rest, v, true);
  }

  lemma SequenceMeans(t: seq<Rune>, rest: seq<Rune>, v: Rune, lenient: bool)
    requires CodePointAt(t + rest, lenient) == CodePoint(v, |t|)
    ensures Decode([BACKSLASH, LETTER_U] + t + rest, lenient) == [v] + Decode(rest, lenient)
  {
    hide CodePointAt;
    var s := [BACKSLASH, LETTER_U] + t + rest;
    assert s[2..] == t + rest && s[2 + |t|..] == rest;
  }

  lemma BracedFound(t: seq<Rune>, rest: seq<Rune>, v: Rune, lenient: bool)
    requires 1 <= |t| <= 6 && AllHex(t) && HexNumber(t) == v
    ensures CodePointAt([OPEN] + t + [CLOSE] + rest, lenient) == CodePoint(v, |t| + 2)
  {
    hide HexNumber, CodePointAt, AllHex, HexRun;
    var all := [OPEN] + t + [CLOSE] + rest;
    assert all[1..] == t + ([CLOSE] + rest);
    RunIs(t, [CLOSE] + rest);
    assert all[1..][..|t|] == t;
    BracedAt(all, t, lenient);
  }

  lemma BracedAt(all: seq<Rune>, t: seq<Rune>, lenient: bool)
    requires 1 <= |t| <= 6 && |t| + 1 < |all| && all[0] == OPEN && all[|t| + 1] == CLOSE
    requires HexRun(all[1..]) == |t| && all[1..][..|t|] == t && AllHex(t) && HexNumber(t) <= 0x10_FFFF
    ensures CodePointAt(all, lenient) == CodePoint(HexNumber(t), |t| + 2)
  {
    hide HexNumber, HexRun;
    BraceIsNoDigit(all);
  }

  lemma BraceIsNoDigit(all: seq<Rune>)
    requires all != [] && all[0] == OPEN
    ensures |all| >= 3 ==> !AllHex(all[..3])
    ensures |all| >= 4 ==> !AllHex(all[..4])
  {
    assert |all| >= 3 ==> all[..3][0] == OPEN;
    assert |all| >= 4 ==> all[..4][0] == OPEN;
  }

  lemma {:induction false} RunIs(t: seq<Rune>, rest: seq<Rune>)
    requires AllHex(t) && rest != [] && !IsHex(rest[0])
    ensures HexRun(t + rest) == |t|
  {
    if t == [] {
      assert t + rest == rest;
    } else {
      assert (t + rest)[1..] == t[1..] + rest;
      RunIs(t[1..], rest);
    }
  }
}
