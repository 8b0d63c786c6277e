/** The parse table and the production table, transcribed entry by entry, and their exact agreement
    with the grammar. */
module BindTables {
  import opened BindGrammar

  const START_STATE := 10

  /** One row of the table, with an entry for each token class. */
  datatype Row = Row(plus: int, colon: int, open: int, close: int, m: int, n: int, u: int, tilde: int,
                     space: int, other: int, end: int)
  {
    function Get(cls: nat): int
      requires cls <= END
    {
      if cls == 0 then plus else if cls == 1 then colon else if cls == 2 then open
      else if cls == 3 then close else if cls == 4 then m else if cls == 5 then n
      else if cls == 6 then u else if cls == 7 then tilde else if cls == 8 then space
      else if cls == 9 then other else end
    }
  }

  /** Row `state` of `parse_table`. */
  function ParseRow(state: nat): Row
    requires state < 34
  {
    match state
    //             '+' ':' '[' ']' 'm' 'n' 'u' '~'  W   *   $
    case 0  => Row(  0, -1, -1, -1, -1, -1, -1, -1, -1, -1, -1)
    case 1  => Row( -1,  0, -1, -1, -1, -1, -1, -1, -1, -1, -1)
    case 2  => Row( -1, -2,  0, -1, -1, -1, -1, -1, -1, -1, -1)
    case 3  => Row( -1, -2, -1,  0, -2, -2, -2, -2, -1, -2, -2)
    case 4  => Row( -1, -1, -1, -1,  0, -1, -1, -2, -1, -1, -1)
    case 5  => Row( -1, -1, -1, -1, -1,  0, -1, -2, -1, -1, -1)
    case 6  => Row( -1, -1, -1, -1, -1, -1,  0, -2, -1, -1, -1)
    case 7  => Row( -1, -2, -1, -2, -1, -1, -1,  0, -1, -1, -1)
    case 8  => Row( -1, -1, -1, -1, -1, -1, -1, -1,  0, -1, -1)
    case 9  => Row( -1, -1, -1, -1, -1, -1, -1, -2, -1,  0, -1)
    case 10 => Row(  1,  1,  1,  1,  1,  1,  1,  1,  1,  1, -1)
    case 11 => Row(  2,  2,  2,  2,  2,  2,  2,  2, -2,  2, -1)
    case 12 => Row(  3, -4,  0, -4, -4, -4, -4, -4, -2, -4,  0)
    case 13 => Row(  6,  4,  6,  6,  5,  5,  5,  6, -1,  5, -1)
    case 14 => Row(  0,  4,  0, -2, -2, -2, -2, -2,  0, -2,  0)
    case 15 => Row( -1,  7, -1, -2, -2, -2, -2, -2, -1, -2, -1)
    case 16 => Row(  6,  8,  6,  6,  9,  9,  9,  6, -1,  9, -1)
    case 17 => Row( 10, -2, 11, 12, -2, -2, -2, 13, -1, -2, -1)
    case 18 => Row( -1, -1, -1, -2, 14, 15, 14, -2, -1, 14, -1)
    case 19 => Row(  0,  0,  0, -2, 17, 17, 16, -2,  0, 17,  0)
    case 20 => Row(  0,  0,  0, -2, 18, 19, 19, -2,  0, 19,  0)
    case 21 => Row( 10, -1, -1, -2, 20, 20, 20, -2, -1, 20, -1)
    case 22 => Row( -2, -2, 21, -2, -2, -2, -2, -2, -2, -2,  0)
    case 23 => Row( -2, -2, -2,  0, 22, 22, 22, 22, -2, 22, -2)
    case 24 => Row( -2, -2, -2,  0, -2, -2, -2, -2, 23, -2, -2)
    case 25 => Row( -2, -2, -2, -1, 20, 20, 20, 24, -1, 20, -2)
    case 26 => Row( -1, -1, -1, -1, 25, 25, 25, -2, -1, 25, -1)
    case 27 => Row(  0,  0,  0,  0, 25, 25, 25, -2,  0, 25,  0)
    case 28 => Row( -1, -1, -1, -1, 26, 27, 28, -2, -1, 29, -1)
    case 29 => Row( -1, -1, -1, -2, 26, 27, -1, -2, -1, 29, -1)
    case 30 => Row( -1, -1, -1, -2, 26, -1, 28, -2, -1, 29, -1)
    case 31 => Row( -1, -1, -1, -2, -1, 27, 28, -2, -1, 29, -1)
    case 32 => Row( -2, -2, -2, -2, -1, -1, -1, -1, 30, -1, -2)
    case _  => Row(  0,  0,  0,  0,  0,  0,  0,  0, 30,  0,  0)
  }

  function Entry(state: nat, cls: nat): (entry: int)
    requires state < 34 && cls <= END
    ensures -4 <= entry < 31
  {
    ParseRow(state).Get(cls)
  }

  /** Entry `p` of `push_map`: what is pushed, in the order of the pushes. */
  function PushMap(p: nat): seq<int>
    requires p < 31
  {
    match p
    case 0 => []
    case 1 => [22, 11, 33]
    case 2 => [12, 33, -2, 13, -1]
    case 3 => [12, 33, -2, 13, -1, 33, 0]
    case 4 => [15]
    case 5 => [14, 18]
    case 6 => [17]
    case 7 => [16, -1, 1, -1]
    case 8 => [1]
    case 9 => [18]
    case 10 => [0]
    case 11 => [2]
    case 12 => [3]
    case 13 => [7]
    case 14 => [27, 30]
    case 15 => [19, 5]
    case 16 => [20, 6]
    case 17 => [27, 29]
    case 18 => [21, 4]
    case 19 => [27, 31]
    case 20 => [26]
    case 21 => [33, 3, 23, 33, 2]
    case 22 => [24, -3, 25, -1]
    case 23 => [24, -3, 25, -1, 32]
    case 24 => [26, -1, 7]
    case 25 => [27, 28]
    case 26 => [4]
    case 27 => [5]
    case 28 => [6]
    case 29 => [9]
    case _ => [33, 8]
  }

  /** The parse stack, top first. */
  datatype Stack = Nil | Cons(top: int, rest: Stack)

  /** The stack after pushing the first `k` entries of `xs`, one at a time. */
  function PushFirst(xs: seq<int>, k: nat, stack: Stack): Stack
    requires k <= |xs|
  {
    if k == 0 then stack else Cons(xs[k - 1], PushFirst(xs, k - 1, stack))
  }

  /** The stack after pushing production `p`, written out top first. */
  function Pushed(p: nat, s: Stack): Stack
    requires p < 31
  {
    match p
    case 0 => s
    case 1 => Cons(33, Cons(11, Cons(22, s)))
    case 2 => Cons(-1, Cons(13, Cons(-2, Cons(33, Cons(12, s)))))
    case 3 => Cons(0, Cons(33, Cons(-1, Cons(13, Cons(-2, Cons(33, Cons(12, s)))))))
    case 4 => Cons(15, s)
    case 5 => Cons(18, Cons(14, s))
    case 6 => Cons(17, s)
    case 7 => Cons(-1, Cons(1, Cons(-1, Cons(16, s))))
    case 8 => Cons(1, s)
    case 9 => Cons(18, s)
    case 10 => Cons(0, s)
    case 11 => Cons(2, s)
    case 12 => Cons(3, s)
    case 13 => Cons(7, s)
    case 14 => Cons(30, Cons(27, s))
    case 15 => Cons(5, Cons(19, s))
    case 16 => Cons(6, Cons(20, s))
    case 17 => Cons(29, Cons(27, s))
    case 18 => Cons(4, Cons(21, s))
    case 19 => Cons(31, Cons(27, s))
    case 20 => Cons(26, s)
    case 21 => Cons(2, Cons(33, Cons(23, Cons(3, Cons(33, s)))))
    case 22 => Cons(-1, Cons(25, Cons(-3, Cons(24, s))))
    case 23 => Cons(32, Cons(-1, Cons(25, Cons(-3, Cons(24, s)))))
    case 24 => Cons(7, Cons(-1, Cons(26, s)))
    case 25 => Cons(28, Cons(27, s))
    case 26 => Cons(4, s)
    case 27 => Cons(5, s)
    case 28 => Cons(6, s)
    case 29 => Cons(9, s)
    case _ => Cons(8, Cons(33, s))
  }

  /** Pushing the entries of `push_map` one by one gives the written-out stack. */
  lemma PushedIsPushMap(p: nat, s: Stack)
    requires p < 31
    ensures PushFirst(PushMap(p), |PushMap(p)|, s) == Pushed(p, s)
  {
    var xs := PushMap(p);
    for k := 0 to |xs|
      invariant k >= 1 ==> PushFirst(xs, 1, s) == Cons(xs[0], s)
      invariant k >= 2 ==> PushFirst(xs, 2, s) == Cons(xs[1], Cons(xs[0], s))
      invariant k >= 3 ==> PushFirst(xs, 3, s) == Cons(xs[2], Cons(xs[1], Cons(xs[0], s)))
      invariant k >= 4 ==> PushFirst(xs, 4, s) == Cons(xs[3], PushFirst(xs, 3, s))
      invariant k >= 5 ==> PushFirst(xs, 5, s) == Cons(xs[4], PushFirst(xs, 4, s))
      invariant k >= 6 ==> PushFirst(xs, 6, s) == Cons(xs[5], PushFirst(xs, 5, s))
      invariant k >= 7 ==> PushFirst(xs, 7, s) == Cons(xs[6], PushFirst(xs, 6, s))
    {
    }
  }

  /** The state number that stands for a nonterminal. */
  function State(nt: NonTerminal): (s: nat)
    ensures 10 <= s < 34
  {
    match nt
    case Binding => 10 case Chord => 11 case ChordTail => 12 case Key => 13
    case OptQKeyName => 14 case QKeyName => 15 case UKeyName => 16 case SpecialKeyName => 17
    case DevOrKeyName => 18 case DevOrKeyNameN => 19 case DevOrKeyNameU => 20 case DevOrKeyNameM => 21
    case Predicate => 22 case FlagList => 23 case FlagListTail => 24 case Flag => 25
    case Name => 26 case OptName => 27 case NameChar => 28 case NameCharMN => 29
    case NameCharMU => 30 case NameCharNU => 31 case Whitespace => 32 case OptWhitespace => 33
  }

  function StateOf(s: Symbol): nat {
    match s
    case T(c) => c
    case N(nt) => State(nt)
  }

  /** The grammar symbols of a rule as stack entries. */
  function StatesOf(rhs: Side): Stack {
    match rhs
    case Eps => Nil
    case Seq(s, rest) => Cons(StateOf(s), StatesOf(rest))
  }

  /** A stack without its semantic actions. */
  function Erase(stack: Stack): Stack {
    match stack
    case Nil => Nil
    case Cons(s, rest) => if s < 0 then Erase(rest) else Cons(s, Erase(rest))
  }

  /** Whether a state derives the empty word. */
  predicate Nullable(s: int) {
    (s == 12 || s == 14 || s == 19 || s == 20 || s == 22 || s == 23 || s == 24 || s == 27 || s == 33)
  }

  /** Whether a word derived from state `s` can begin with token class `c`. */
  predicate First(s: int, c: nat) {
    if s < 10 then s == c
    else if s == 10 then c < 10
    else if s == 11 || s == 13 || s == 16 then c < 10 && c != 8
    else if s == 12 then c == 0
    else if s == 14 || s == 15 then c == 1
    else if s == 17 then (c == 0 || c == 2 || c == 3 || c == 7)
    else if s == 19 || s == 20 || s == 18 || s == 26 || s == 27 || s == 28 then (c == 4 || c == 5 || c == 6 || c == 9)
    else if s == 21 then (c == 0 || c == 4 || c == 5 || c == 6 || c == 9)
    else if s == 22 then c == 2
    else if s == 23 || s == 25 then (c == 4 || c == 5 || c == 6 || c == 7 || c == 9)
    else if s == 24 || s == 32 || s == 33 then c == 8
    else if s == 29 then (c == 4 || c == 5 || c == 9)
    else if s == 30 then (c == 4 || c == 6 || c == 9)
    else (c == 5 || c == 6 || c == 9)
  }

  /** Whether token class `c` (or the end) can come after state `s` in a descriptor. */
  predicate Follow(s: int, c: nat) {
    if s == 10 || s == 22 then c == 10
    else if s == 11 || s == 12 then c == 2 || c == 10
    else if 13 <= s <= 17 then (c == 0 || c == 2 || c == 8 || c == 10)
    else if 18 <= s <= 21 then (c == 0 || c == 1 || c == 2 || c == 8 || c == 10)
    else if s == 23 || s == 24 then c == 3
    else if s == 25 then (c == 3 || c == 8)
    else if s == 26 || s == 27 then (c == 0 || c == 1 || c == 2 || c == 3 || c == 8 || c == 10)
    else if 28 <= s <= 31 then 0 <= c <= 6 || c == 8 || c == 9 || c == 10
    else c <= 10 && c != 8
  }

  /** Whether the remaining input can begin with `c` when `stack` still has to be matched. */
  predicate FirstOf(stack: Stack, c: nat) {
    match stack
    case Nil => c == END
    case Cons(s, rest) =>
      if s < 0 then FirstOf(rest, c) else First(s, c) || (Nullable(s) && FirstOf(rest, c))
  }

  /** The stack symbols of a proper rule side: terminals are real token classes. */
  predicate Proper(rhs: Side) {
    match rhs
    case Eps => true
    case Seq(s, rest) => (s.T? ==> s.cls < END) && Proper(rest)
  }

  /** Production `p` without its actions, as the right side of a rule. */
  function RuleSide(p: nat): Side
    requires p < 31
  {
    match p
    case 0 => Eps
    case 1 => Three(N(OptWhitespace), N(Chord), N(Predicate))
    case 2 => Three(N(Key), N(OptWhitespace), N(ChordTail))
    case 3 => Five(T(PLUS), N(OptWhitespace), N(Key), N(OptWhitespace), N(ChordTail))
    case 4 => One(N(QKeyName))
    case 5 => Two(N(DevOrKeyName), N(OptQKeyName))
    case 6 => One(N(SpecialKeyName))
    case 7 => Two(T(COLON), N(UKeyName))
    case 8 => One(T(COLON))
    case 9 => One(N(DevOrKeyName))
    case 10 => One(T(PLUS))
    case 11 => One(T(OPEN))
    case 12 => One(T(CLOSE))
    case 13 => One(T(TILDE))
    case 14 => Two(N(NameCharMU), N(OptName))
    case 15 => Two(T(LETTER_N), N(DevOrKeyNameN))
    case 16 => Two(T(LETTER_U), N(DevOrKeyNameU))
    case 17 => Two(N(NameCharMN), N(OptName))
    case 18 => Two(T(LETTER_M), N(DevOrKeyNameM))
    case 19 => Two(N(NameCharNU), N(OptName))
    case 20 => One(N(Name))
    case 21 => Five(T(OPEN), N(OptWhitespace), N(FlagList), T(CLOSE), N(OptWhitespace))
    case 22 => Two(N(Flag), N(FlagListTail))
    case 23 => Three(N(Whitespace), N(Flag), N(FlagListTail))
    case 24 => Two(T(TILDE), N(Name))
    case 25 => Two(N(NameChar), N(OptName))
    case 26 => One(T(LETTER_M))
    case 27 => One(T(LETTER_N))
    case 28 => One(T(LETTER_U))
    case 29 => One(T(OTHER))
    case _ => Two(T(SPACE), N(OptWhitespace))
  }

  /** The production that encodes a rule. */
  function Number(nt: NonTerminal, rhs: Side): nat {
    if rhs == Eps then 0 else
    match nt
    case Binding => 1
    case Chord => 2
    case ChordTail => 3
    case Key => if rhs.head == N(QKeyName) then 4 else if rhs.head == N(DevOrKeyName) then 5 else 6
    case OptQKeyName => 4
    case QKeyName => 7
    case UKeyName => if rhs.head == T(COLON) then 8 else if rhs.head == N(SpecialKeyName) then 6 else 9
    case SpecialKeyName =>
      if rhs.head == T(PLUS) then 10 else if rhs.head == T(OPEN) then 11
      else if rhs.head == T(CLOSE) then 12 else 13
    case DevOrKeyName => if rhs.head == T(LETTER_N) then 15 else 14
    case DevOrKeyNameN => if rhs.head == T(LETTER_U) then 16 else 17
    case DevOrKeyNameU => if rhs.head == T(LETTER_M) then 18 else 19
    case DevOrKeyNameM => if rhs.head == T(PLUS) then 10 else 20
    case Predicate => 21
    case FlagList => 22
    case FlagListTail => 23
    case Flag => if rhs.head == T(TILDE) then 24 else 20
    case Name => 25
    case OptName => 25
    case NameChar => LetterNumber(rhs.head)
    case NameCharMN => LetterNumber(rhs.head)
    case NameCharMU => LetterNumber(rhs.head)
    case NameCharNU => LetterNumber(rhs.head)
    case Whitespace => 30
    case OptWhitespace => 30
  }

  function LetterNumber(s: Symbol): nat {
    if s == T(LETTER_M) then 26 else if s == T(LETTER_N) then 27 else if s == T(LETTER_U) then 28 else 29
  }

  lemma KeyNumberIsRule(nt: NonTerminal, rhs: Side)
    requires Rule(nt, rhs)
    requires State(nt) < 20
    ensures Number(nt, rhs) < 31 && RuleSide(Number(nt, rhs)) == rhs
  {
  }

  lemma FlagNumberIsRule(nt: NonTerminal, rhs: Side)
    requires Rule(nt, rhs)
    requires 20 <= State(nt)
    ensures Number(nt, rhs) < 31 && RuleSide(Number(nt, rhs)) == rhs
  {
  }

  lemma NumberIsRule(nt: NonTerminal, rhs: Side)
    requires Rule(nt, rhs)
    ensures Number(nt, rhs) < 31 && RuleSide(Number(nt, rhs)) == rhs
  {
    hide Number, Rule, RuleSide;
    if State(nt) < 20 { KeyNumberIsRule(nt, rhs); } else { FlagNumberIsRule(nt, rhs); }
  }

  /** The productions that the row of a nonterminal may name. */
  predicate Allowed(nt: NonTerminal, p: nat) {
    match nt
    case Binding => p == 1
    case Chord => p == 2
    case ChordTail => p == 0 || p == 3
    case Key => 4 <= p <= 6
    case OptQKeyName => p == 0 || p == 4
    case QKeyName => p == 7
    case UKeyName => p == 6 || p == 8 || p == 9
    case SpecialKeyName => 10 <= p <= 13
    case DevOrKeyName => p == 14 || p == 15
    case DevOrKeyNameN => p == 0 || p == 16 || p == 17
    case DevOrKeyNameU => p == 0 || p == 18 || p == 19
    case DevOrKeyNameM => p == 10 || p == 20
    case Predicate => p == 0 || p == 21
    case FlagList => p == 0 || p == 22
    case FlagListTail => p == 0 || p == 23
    case Flag => p == 20 || p == 24
    case Name => p == 25
    case OptName => p == 0 || p == 25
    case NameChar => 26 <= p <= 29
    case NameCharMN => p == 26 || p == 27 || p == 29
    case NameCharMU => p == 26 || p == 28 || p == 29
    case NameCharNU => 27 <= p <= 29
    case Whitespace => p == 30
    case OptWhitespace => p == 0 || p == 30
  }

  lemma EntryIsAllowed(nt: NonTerminal, c: nat)
    requires c <= END
    ensures 0 <= Entry(State(nt), c) ==> Allowed(nt, Entry(State(nt), c))
  {
  }

  lemma AllowedIsRule(nt: NonTerminal, p: nat)
    requires p < 31 && Allowed(nt, p)
    ensures Rule(nt, RuleSide(p))
  {
  }

  lemma StateInjective(a: Symbol, b: Symbol)
    requires (a.T? ==> a.cls < END) && (b.T? ==> b.cls < END)
    requires StateOf(a) == StateOf(b)
    ensures a == b
  {
  }

  lemma {:induction false} StatesInjective(a: Side, b: Side)
    requires Proper(a) && Proper(b) && StatesOf(a) == StatesOf(b)
    ensures a == b
  {
    if a.Seq? && b.Seq? {
      StateInjective(a.head, b.head);
      StatesInjective(a.tail, b.tail);
    }
  }

  lemma EraseIsLongSide(p: nat)
    requires p == 2 || p == 3 || p == 21
    ensures Proper(RuleSide(p)) && Erase(Pushed(p, Nil)) == StatesOf(RuleSide(p))
  {
    var e := Cons(33, Cons(12, Nil));
    assert Erase(Cons(-2, e)) == e;
    assert Erase(Cons(-1, Cons(13, Cons(-2, e)))) == Cons(13, e);
    assert StatesOf(Two(N(OptWhitespace), N(ChordTail))) == e;
    assert StatesOf(Three(N(Key), N(OptWhitespace), N(ChordTail))) == Cons(13, e);
    var f := Cons(3, Cons(33, Nil));
    assert Erase(f) == f;
    assert Erase(Cons(23, f)) == Cons(23, f);
    assert StatesOf(Two(T(CLOSE), N(OptWhitespace))) == f;
    assert StatesOf(Three(N(FlagList), T(CLOSE), N(OptWhitespace))) == Cons(23, f);
  }

  lemma EraseIsFlagSide(p: nat)
    requires 21 < p < 25
    ensures Proper(RuleSide(p)) && Erase(Pushed(p, Nil)) == StatesOf(RuleSide(p))
  {
    var e := Cons(24, Nil);
    assert Erase(Cons(-3, e)) == e;
    assert Erase(Cons(-1, Cons(25, Cons(-3, e)))) == Cons(25, e);
  }

  lemma EraseIsShortSide(p: nat)
    requires p < 2 || 3 < p < 14
    ensures Proper(RuleSide(p)) && Erase(Pushed(p, Nil)) == StatesOf(RuleSide(p))
  {
    assert Erase(Cons(-1, Cons(16, Nil))) == Cons(16, Nil);
  }

  lemma EraseIsNameSide(p: nat)
    requires 14 <= p < 21 || 25 <= p < 31
    ensures Proper(RuleSide(p)) && Erase(Pushed(p, Nil)) == StatesOf(RuleSide(p))
  {
    if p < 21 { EraseIsKeyNameSide(p); } else { EraseIsFlagNameSide(p); }
  }

  lemma EraseIsKeyNameSide(p: nat)
    requires 14 <= p < 21
    ensures Proper(RuleSide(p)) && Erase(Pushed(p, Nil)) == StatesOf(RuleSide(p))
  {
    if p < 17 { EraseIsSuffixSide(p); } else { EraseIsPlainSide(p); }
  }

  lemma EraseIsSuffixSide(p: nat)
    requires 14 <= p < 17
    ensures Proper(RuleSide(p)) && Erase(Pushed(p, Nil)) == StatesOf(RuleSide(p))
  {
    EraseShort(Pushed(p, Nil));
    StatesShort(RuleSide(p));
  }

  lemma EraseIsPlainSide(p: nat)
    requires 17 <= p < 21
    ensures Proper(RuleSide(p)) && Erase(Pushed(p, Nil)) == StatesOf(RuleSide(p))
  {
    EraseShort(Pushed(p, Nil));
    StatesShort(RuleSide(p));
  }

  lemma EraseIsFlagNameSide(p: nat)
    requires 25 <= p < 31
    ensures Proper(RuleSide(p)) && Erase(Pushed(p, Nil)) == StatesOf(RuleSide(p))
  {
    EraseShort(Pushed(p, Nil));
    StatesShort(RuleSide(p));
  }

  lemma EraseShort(s: Stack)
    requires s.Cons? && 0 <= s.top && (s.rest.Cons? ==> 0 <= s.rest.top && s.rest.rest == Nil)
    ensures Erase(s) == s
  {
    assert Erase(s.rest) == s.rest;
  }

  lemma StatesShort(rhs: Side)
    requires rhs.Seq? && (rhs.tail.Seq? ==> rhs.tail.tail == Eps)
    ensures StatesOf(rhs) ==
            Cons(StateOf(rhs.head), if rhs.tail.Seq? then Cons(StateOf(rhs.tail.head), Nil) else Nil)
  {
    assert StatesOf(rhs.tail) == if rhs.tail.Seq? then Cons(StateOf(rhs.tail.head), Nil) else Nil;
  }

  lemma EraseIsRuleSide(p: nat)
    requires p < 31
    ensures Proper(RuleSide(p)) && Erase(Pushed(p, Nil)) == StatesOf(RuleSide(p))
  {
    if p == 2 || p == 3 || p == 21 {
      EraseIsLongSide(p);
    } else if 21 < p < 25 {
      EraseIsFlagSide(p);
    } else if p < 14 {
      EraseIsShortSide(p);
    } else {
      EraseIsNameSide(p);
    }
  }

  /** The table is exactly the grammar. First, an entry that is not an error names a rule of its
      nonterminal; second, whenever a rule can be the right one for the lookahead (it is not empty and
      can begin with it, or it is empty and the lookahead may follow), the entry names that rule. */
  lemma TableIsSound(nt: NonTerminal, rhs: Side, c: nat)
    requires c <= END && Proper(rhs)
    requires 0 <= Entry(State(nt), c)
    requires StatesOf(rhs) == Erase(Pushed(Entry(State(nt), c), Nil))
    ensures Rule(nt, rhs)
  {
    var p := Entry(State(nt), c);
    EraseIsRuleSide(p);
    StatesInjective(rhs, RuleSide(p));
    EntryIsAllowed(nt, c);
    AllowedIsRule(nt, p);
  }

  lemma HeadIsSolid(nt: NonTerminal, rhs: Side)
    requires Rule(nt, rhs) && rhs.Seq? && nt != Binding
    ensures !Nullable(StateOf(rhs.head))
  {
  }

  /** Only a descriptor itself starts with a nullable symbol, so elsewhere the first symbol of a
      nonempty rule side decides what it can begin with. */
  lemma HeadDecides(nt: NonTerminal, rhs: Side, c: nat)
    requires Rule(nt, rhs) && rhs.Seq? && c <= END && FirstOf(StatesOf(rhs), c)
    ensures c < END
    ensures nt == Binding || First(StateOf(rhs.head), c)
  {
    if nt == Binding {
      assert StatesOf(rhs) == Cons(33, StatesOf(rhs.tail));
      assert StatesOf(rhs.tail) == Cons(11, StatesOf(rhs.tail.tail));
    } else {
      HeadIsSolid(nt, rhs);
      FirstBounded(rhs.head, c);
    }
  }

  lemma FirstBounded(s: Symbol, c: nat)
    requires First(StateOf(s), c) && (s.T? ==> s.cls < END)
    ensures c < END
  {
  }

  lemma SelectsEmptyFirst(nt: NonTerminal, c: nat)
    requires c <= END && Rule(nt, Eps) && Follow(State(nt), c)
    requires State(nt) < 22
    ensures Entry(State(nt), c) == 0
  {
  }

  lemma SelectsEmptyLast(nt: NonTerminal, c: nat)
    requires c <= END && Rule(nt, Eps) && Follow(State(nt), c)
    requires 22 <= State(nt)
    ensures Entry(State(nt), c) == 0
  {
  }

  lemma SelectsEmpty(nt: NonTerminal, c: nat)
    requires c <= END && Rule(nt, Eps) && Follow(State(nt), c)
    ensures Entry(State(nt), c) == 0
  {
    hide Entry, Rule, Number, First, Follow;
    if State(nt) < 22 { SelectsEmptyFirst(nt, c); } else { SelectsEmptyLast(nt, c); }
  }

  lemma SelectsKeysFirst(nt: NonTerminal, rhs: Side, c: nat)
    requires Rule(nt, rhs) && rhs.Seq? && c < END && State(nt) < 20
    requires nt == Binding || First(StateOf(rhs.head), c)
    requires State(nt) < 17
    ensures Entry(State(nt), c) == Number(nt, rhs)
  {
  }

  lemma SelectsKeysLast(nt: NonTerminal, rhs: Side, c: nat)
    requires Rule(nt, rhs) && rhs.Seq? && c < END && State(nt) < 20
    requires nt == Binding || First(StateOf(rhs.head), c)
    requires 17 <= State(nt)
    ensures Entry(State(nt), c) == Number(nt, rhs)
  {
  }

  lemma SelectsKeys(nt: NonTerminal, rhs: Side, c: nat)
    requires Rule(nt, rhs) && rhs.Seq? && c < END && State(nt) < 20
    requires nt == Binding || First(StateOf(rhs.head), c)
    ensures Entry(State(nt), c) == Number(nt, rhs)
  {
    hide Entry, Rule, Number, First, Follow;
    if State(nt) < 17 { SelectsKeysFirst(nt, rhs, c); } else { SelectsKeysLast(nt, rhs, c); }
  }

  lemma SelectsFlagsFirst(nt: NonTerminal, rhs: Side, c: nat)
    requires Rule(nt, rhs) && rhs.Seq? && c < END && 20 <= State(nt) && First(StateOf(rhs.head), c)
    requires State(nt) < 25
    ensures Entry(State(nt), c) == Number(nt, rhs)
  {
  }

  lemma SelectsFlagsLast(nt: NonTerminal, rhs: Side, c: nat)
    requires Rule(nt, rhs) && rhs.Seq? && c < END && 20 <= State(nt) && First(StateOf(rhs.head), c)
    requires 25 <= State(nt)
    ensures Entry(State(nt), c) == Number(nt, rhs)
  {
  }

  lemma SelectsFlags(nt: NonTerminal, rhs: Side, c: nat)
    requires Rule(nt, rhs) && rhs.Seq? && c < END && 20 <= State(nt) && First(StateOf(rhs.head), c)
    ensures Entry(State(nt), c) == Number(nt, rhs)
  {
    hide Entry, Rule, Number, First, Follow;
    if State(nt) < 25 { SelectsFlagsFirst(nt, rhs, c); } else { SelectsFlagsLast(nt, rhs, c); }
  }

  /** The other half: the rule a derivation uses is the one the lookahead selects. */
  lemma TableIsComplete(nt: NonTerminal, rhs: Side, c: nat)
    requires c <= END && Rule(nt, rhs)
    requires if rhs == Eps then Follow(State(nt), c) else FirstOf(StatesOf(rhs), c)
    ensures 0 <= Entry(State(nt), c)
    ensures RuleSide(Entry(State(nt), c)) == rhs
  {
    if rhs == Eps {
      SelectsEmpty(nt, c);
    } else {
      HeadDecides(nt, rhs, c);
      if State(nt) < 20 { SelectsKeys(nt, rhs, c); } else { SelectsFlags(nt, rhs, c); }
    }
    NumberIsRule(nt, rhs);
  }

  lemma FirstOfKeyHead(nt: NonTerminal, rhs: Side, c: nat)
    requires Rule(nt, rhs) && rhs.Seq? && c < END && 10 < State(nt) < 20 && First(StateOf(rhs.head), c)
    ensures First(State(nt), c)
  {
  }

  lemma FirstOfFlagHead(nt: NonTerminal, rhs: Side, c: nat)
    requires Rule(nt, rhs) && rhs.Seq? && c < END && 20 <= State(nt) && First(StateOf(rhs.head), c)
    ensures First(State(nt), c)
  {
  }

  /** A rule side begins with what `First` says, and only the empty one derives the empty word. */
  lemma FirstIsClosed(nt: NonTerminal, rhs: Side, c: nat)
    requires Rule(nt, rhs) && c <= END && FirstOf(StatesOf(rhs), c)
    ensures if c == END then rhs == Eps && Nullable(State(nt)) else First(State(nt), c)
  {
    if rhs.Seq? {
      HeadDecides(nt, rhs, c);
      if nt != Binding {
        if State(nt) < 20 { FirstOfKeyHead(nt, rhs, c); } else { FirstOfFlagHead(nt, rhs, c); }
      }
    }
  }
}
