/** What an error of the parser says. The derivation that a run follows is written out line by line, in
    grammar symbols alone, and the error names the symbol at which it stops, the table entry there, and
    where the key, key part or flag name begins that is still being read. */
module BindErrors {
  import opened BindGrammar
  import opened BindTables
  import opened BindStacks
  import opened BindForests
  import opened BindRuns

  /** One line of a leftmost derivation: how many tokens are taken, and the symbols still open. */
  datatype Line = Line(pos: nat, open: Side)

  function Then(a: Side, b: Side): Side {
    match a
    case Eps => b
    case Seq(s, rest) => Seq(s, Then(rest, b))
  }

  function Length(a: Side): nat {
    match a
    case Eps => 0
    case Seq(_, rest) => 1 + Length(rest)
  }

  /** The next line: a terminal takes the token of its class, and a nonterminal is replaced by the side of
      the rule that the table names for the lookahead. */
  ghost predicate Goes(src: Source, a: Line, b: Line)
    requires src.Valid()
  {
    a.open.Seq? &&
    match a.open.head
    case T(c) => c < END && src.Class(a.pos) == c && b == Line(a.pos + 1, a.open.tail)
    case N(nt) =>
      var entry := Entry(State(nt), src.Class(a.pos));
      0 <= entry && b == Line(a.pos, Then(RuleSide(entry), a.open.tail))
  }

  ghost predicate Derivation(src: Source, lines: seq<Line>) {
    && src.Valid() && lines != [] && lines[0] == Line(0, One(N(Binding)))
    && forall i :: 0 < i < |lines| ==> Goes(src, lines[i - 1], lines[i])
  }

  /** Line `j` begins a key, the part of a key behind its colon, a flag, or a flag name behind '~'. */
  predicate Marked(lines: seq<Line>, j: nat) {
    && j < |lines| && lines[j].open.Seq?
    && match lines[j].open.head
       case N(Key) => true
       case N(UKeyName) => true
       case N(Flag) => true
       case N(Name) => 0 < j && lines[j - 1].open.Seq? && lines[j - 1].open.head == T(TILDE)
       case _ => false
  }

  /** The symbol that is first at line `j` is still open at the end: no line since is shorter. */
  predicate StillOpen(lines: seq<Line>, j: nat)
    requires j < |lines|
  {
    forall i :: j <= i < |lines| ==> Length(lines[j].open) <= Length(lines[i].open)
  }

  /** Line `j` begins what is still being read: the last that begins something, and still open. */
  predicate Reading(lines: seq<Line>, j: nat) {
    Marked(lines, j) && StillOpen(lines, j) && forall i :: j < i < |lines| ==> !Marked(lines, i)
  }

  /** Where without `match_all` a descriptor may end: at a chord tail that the lookahead does not go on with. */
  predicate EndsEarly(open: Side, c: nat) {
    open.Seq? && open.head == N(ChordTail) && c !in {PLUS, OPEN, SPACE, END}
  }

  /** The error `e` raised at line `at`, with something open there. */
  ghost predicate ErrorAt(src: Source, lines: seq<Line>, e: ParseError)
    requires src.Valid() && lines != [] && lines[|lines| - 1].open.Seq?
  {
    var at := lines[|lines| - 1];
    && e.SyntaxError? && e.state == StateOf(at.open.head) && e.state < 34
    && Entry(e.state, src.Class(at.pos)) == -1 - e.kind - (if EndsEarly(at.open, src.Class(at.pos)) then 2 else 0)
    && (e.kind == 0 || e.kind == 1)
    && e.mark == src.At(at.pos)
    && (forall j: nat :: Reading(lines, j) ==> e.begin == src.At(lines[j].pos))
    && ((forall j: nat :: !Reading(lines, j)) ==> e.begin == e.mark)
    && e.end == src.At(if at.pos < |src.classes| then at.pos + 1 else at.pos)
  }

  /** What the derivation says of the end of the run that follows it. */
  ghost predicate Explains(src: Source, matchAll: bool, lines: seq<Line>, o: Outcome) {
    && Derivation(src, lines)
    && var at := lines[|lines| - 1];
    at.pos == o.stop <= |src.classes| &&
    match o
    case Done(_, _, stop) =>
      if matchAll then at.open == Eps && stop == |src.classes|
      else at.open == Eps || EndsEarly(at.open, src.Class(stop))
    case Stuck(e, stop) =>
      if at.open == Eps then
        matchAll && stop < |src.classes| &&
        e == SyntaxError(START_STATE, 1, src.At(stop), src.At(stop), src.At(|src.classes|))
      else ErrorAt(src, lines, e) && (matchAll || !EndsEarly(at.open, src.Class(stop)))
  }

  /** Where what is being read begins and how many symbols stay open when it is through, found line by line. */
  datatype Pending = None | Some(start: nat, depth: int)

  function Pend(lines: seq<Line>): Pending {
    if lines == [] then None
    else
      var n := |lines| - 1;
      var size := Length(lines[n].open);
      if Marked(lines, n) then Some(lines[n].pos, size - 1)
      else
        var before := Pend(lines[..n]);
        if before.Some? && before.depth < size then before else None
  }

  lemma MarkedBefore(lines: seq<Line>, line: Line, j: nat)
    requires j < |lines|
    ensures Marked(lines + [line], j) <==> Marked(lines, j)
  {
    assert j > 0 ==> (lines + [line])[j - 1] == lines[j - 1];
  }

  /** A line more: what is being read now is the new line's, or is still open. */
  lemma ReadingNext(lines: seq<Line>, line: Line, j: nat)
    ensures var n, all := |lines|, lines + [line];
      Reading(all, j) <==>
        if j < n then Reading(lines, j) && !Marked(all, n) && Length(lines[j].open) <= Length(line.open)
        else j == n && Marked(all, n)
  {
    var n, all := |lines|, lines + [line];
    forall i: nat | i < n ensures Marked(all, i) <==> Marked(lines, i) { MarkedBefore(lines, line, i); }
    if j < n {
      assert all[n] == line;
      if Reading(all, j) {
        assert StillOpen(lines, j) by {
          forall i | j <= i < n ensures Length(lines[j].open) <= Length(lines[i].open) { assert all[i] == lines[i]; }
        }
      }
    }
  }

  /** `Pend` finds what is being read. */
  lemma {:induction false} PendIsReading(lines: seq<Line>)
    ensures match Pend(lines)
      case None => forall j: nat :: !Reading(lines, j)
      case Some(start, depth) =>
        exists j: nat :: Reading(lines, j) && lines[j].pos == start && Length(lines[j].open) - 1 == depth
    ensures forall i: nat, j: nat :: Reading(lines, i) && Reading(lines, j) ==> i == j
  {
    if lines != [] {
      var n := |lines| - 1;
      var prefix, line := lines[..n], lines[n];
      assert lines == prefix + [line];
      PendIsReading(prefix);
      forall j: nat
        ensures Reading(lines, j) <==>
          if j < n then Reading(prefix, j) && !Marked(lines, n) && Length(prefix[j].open) <= Length(line.open)
          else j == n && Marked(lines, n)
      {
        ReadingNext(prefix, line, j);
      }
    }
  }

  /** The number of grammar symbols on a stack. */
  function Size(stack: Stack): nat {
    match stack
    case Nil => 0
    case Cons(s, rest) => (if s < 0 then 0 else 1) + Size(rest)
  }

  /** What stands outside keys and flags, and what stands inside them below the top. */
  predicate Outer(s: int) {
    0 <= s < 13 || 22 <= s < 25 || s == 32 || s == 33
  }

  predicate Inner(s: int) {
    0 <= s < 10 || s == 14 || s == 15 || 17 <= s < 22 || 27 <= s < 32
  }

  predicate Closes(stack: Stack) {
    stack.Cons? && (stack.top == -2 || stack.top == -3)
  }

  /** No mark is pending: the stack opens a key or a flag only behind a mark, and closes it again. */
  ghost predicate Ready(stack: Stack)
    decreases stack, 0
  {
    match stack
    case Nil => true
    case Cons(s, rest) =>
      if s == -1 then rest.Cons? && (rest.top == 13 || rest.top == 25) && Closes(rest.rest) && Settled(rest.rest.rest)
      else Outer(s) && Ready(rest)
  }

  ghost predicate Settled(stack: Stack)
    decreases stack, 1
  {
    Ready(stack) && (stack.Cons? ==> stack.top != -1)
  }

  /** Marks are pending until the stack is down to `depth` symbols. */
  ghost predicate Closing(stack: Stack, depth: nat) {
    match stack
    case Nil => false
    case Cons(s, rest) =>
      if Closes(stack) then Size(rest) == depth && Settled(rest)
      else Inner(s) && (s == 14 || s == 15 ==> Closes(rest)) && Closing(rest, depth)
  }

  /** As `Closing`, with the symbol at which something begins on top. */
  ghost predicate Opened(stack: Stack, depth: nat) {
    stack.Cons? && Closing(stack.rest, depth) &&
    (stack.top == 26 || ((stack.top == 13 || stack.top == 16 || stack.top == 25) && Closes(stack.rest)))
  }

  /** The configuration `k` is at the last of these lines, and its last mark where `Pend` finds it. */
  ghost predicate Tracks(src: Source, k: Config, lines: seq<Line>) {
    && Derivation(src, lines)
    && var at := lines[|lines| - 1];
    && at.pos == k.pos && Proper(at.open) && StatesOf(at.open) == Erase(k.stack)
    && if k.marks == [] then
         Ready(k.stack) &&
         if k.stack.Cons? && k.stack.top == -1 then Marked(lines, |lines| - 1) else Pend(lines) == None
       else if Closes(k.stack) then Closing(k.stack, Size(k.stack)) && Pend(lines) == None
       else
         && Pend(lines).Some? && src.At(Pend(lines).start) == k.marks[|k.marks| - 1]
         && Pend(lines).depth >= 0
         && (Closing(k.stack, Pend(lines).depth) || Opened(k.stack, Pend(lines).depth))
  }

  lemma {:induction false} SizeIsLength(open: Side, stack: Stack)
    requires StatesOf(open) == Erase(stack)
    ensures Length(open) == Size(stack)
    decreases stack
  {
    match stack
    case Nil =>
    case Cons(s, rest) => if s < 0 { SizeIsLength(open, rest); } else { SizeIsLength(open.tail, rest); }
  }

  lemma StartTracks(src: Source)
    requires src.Valid()
    ensures Tracks(src, START, [Line(0, One(N(Binding)))])
  {
    var lines := [Line(0, One(N(Binding)))];
    assert lines[..0] == [];
  }

  lemma OneMore(src: Source, lines: seq<Line>, line: Line)
    requires Derivation(src, lines) && Goes(src, lines[|lines| - 1], line)
    ensures Derivation(src, lines + [line])
    ensures Pend(lines + [line]) ==
      var n, size := |lines|, Length(line.open);
      if Marked(lines + [line], n) then Some(line.pos, size - 1)
      else if Pend(lines).Some? && Pend(lines).depth < size then Pend(lines) else None
  {
    var all := lines + [line];
    assert all[..|lines|] == lines;
    forall i | 0 < i < |all| ensures Goes(src, all[i - 1], all[i]) {
      if i < |lines| { assert Goes(src, lines[i - 1], lines[i]); }
    }
  }

  /** An action on top: a mark begins what is on top behind it, and a completion ends what is being read. */
  lemma ActTracks(src: Source, k: Config, lines: seq<Line>)
    requires Sane(src, k) && k.stack.Cons? && k.stack.top < 0 && Tracks(src, k, lines)
    ensures Tracks(src, Act(src, k), lines)
  {
    var at := lines[|lines| - 1];
    assert Erase(k.stack) == Erase(k.stack.rest);
    SizeIsLength(at.open, k.stack);
    if k.marks == [] {
      assert k.stack.top == -1;
      assert Closing(k.stack.rest.rest, Size(k.stack.rest.rest));
      assert Opened(k.stack.rest, Size(k.stack.rest.rest));
    } else if Closes(k.stack) {
      assert Settled(k.stack.rest);
    }
  }

  /** Whether the state `s` at the head of a line begins something. */
  lemma HeadMarked(lines: seq<Line>, s: nat)
    requires lines != [] && lines[|lines| - 1].open.Seq? && Proper(lines[|lines| - 1].open)
    requires StateOf(lines[|lines| - 1].open.head) == s
    ensures s == 13 || s == 16 || s == 25 ==> Marked(lines, |lines| - 1)
    ensures s == 26 ==> (Marked(lines, |lines| - 1) <==>
              |lines| > 1 && lines[|lines| - 2].open.Seq? && lines[|lines| - 2].open.head == T(TILDE))
    ensures s < 13 || s == 14 || s == 15 || 17 <= s < 25 || 27 <= s ==> !Marked(lines, |lines| - 1)
  {
  }

  /** What stands on top of a stack is first in its line. */
  lemma TopIsHead(open: Side, stack: Stack)
    requires StatesOf(open) == Erase(stack) && stack.Cons? && stack.top >= 0
    ensures open.Seq? && StateOf(open.head) == stack.top && StatesOf(open.tail) == Erase(stack.rest)
  {
  }

  lemma {:induction false} ClosingSize(stack: Stack, depth: nat)
    requires Closing(stack, depth)
    ensures depth <= Size(stack) && (depth == Size(stack) <==> Closes(stack))
  {
    if !Closes(stack) { ClosingSize(stack.rest, depth); }
  }

  lemma SettledHead(lines: seq<Line>, stack: Stack)
    requires lines != [] && Proper(lines[|lines| - 1].open) && StatesOf(lines[|lines| - 1].open) == Erase(stack)
    requires Settled(stack)
    ensures !Marked(lines, |lines| - 1)
  {
    if stack.Cons? {
      TopIsHead(lines[|lines| - 1].open, stack);
      HeadMarked(lines, stack.top);
    }
  }

  lemma ReadyNext(src: Source, lines: seq<Line>, line: Line, stack: Stack)
    requires Derivation(src, lines) && Goes(src, lines[|lines| - 1], line)
    requires Proper(line.open) && StatesOf(line.open) == Erase(stack)
    requires Ready(stack) && Pend(lines) == None
    ensures Derivation(src, lines + [line])
    ensures if stack.Cons? && stack.top == -1 then Marked(lines + [line], |lines|) else Pend(lines + [line]) == None
  {
    hide Marked, Pend, Goes, Derivation;
    OneMore(src, lines, line);
    if stack.Cons? && stack.top == -1 {
      TopIsHead(line.open, stack.rest);
      HeadMarked(lines + [line], stack.rest.top);
    } else {
      SettledHead(lines + [line], stack);
    }
  }

  lemma ClosingNext(src: Source, lines: seq<Line>, line: Line, stack: Stack, depth: nat)
    requires Derivation(src, lines) && Goes(src, lines[|lines| - 1], line)
    requires Proper(line.open) && StatesOf(line.open) == Erase(stack)
    requires Pend(lines).Some? && Pend(lines).depth == depth
    requires Closing(stack, depth) || (
      stack.Cons? && stack.top == 26 && Closing(stack.rest, depth) && lines[|lines| - 1].open.Seq? &&
      lines[|lines| - 1].open.head != T(TILDE))
    ensures Derivation(src, lines + [line])
    ensures if Closes(stack) then Pend(lines + [line]) == None && Closing(stack, Size(stack))
            else Pend(lines + [line]) == Pend(lines)
  {
    hide Marked, Pend, Goes, Derivation;
    OneMore(src, lines, line);
    SizeIsLength(line.open, stack);
    if Closing(stack, depth) {
      ClosingSize(stack, depth);
      if Closes(stack) {
        SettledHead(lines + [line], stack.rest);
      } else {
        TopIsHead(line.open, stack);
        HeadMarked(lines + [line], stack.top);
      }
    } else {
      ClosingSize(stack.rest, depth);
      TopIsHead(line.open, stack);
      HeadMarked(lines + [line], 26);
    }
  }

  /** A token taken. */
  lemma TokenTracks(src: Source, k: Config, lines: seq<Line>) returns (all: seq<Line>)
    requires Sane(src, k) && Tracks(src, k, lines)
    requires k.stack.Cons? && 0 <= k.stack.top < 10 && src.Class(k.pos) == k.stack.top
    ensures Tracks(src, k.(stack := k.stack.rest, pos := k.pos + 1), all)
  {
    hide Marked, Pend, Derivation;
    var n := |lines|;
    assert n > 0 by { NotEmpty(src, lines); }
    var at, rest := lines[n - 1], k.stack.rest;
    var line := Line(k.pos + 1, at.open.tail);
    all := lines + [line];
    TopIsHead(at.open, k.stack);
    StateInjective(at.open.head, T(k.stack.top));
    if k.marks == [] {
      ReadyNext(src, lines, line, rest);
    } else {
      ClosingNext(src, lines, line, rest, Pend(lines).depth);
    }
  }

  lemma NotEmpty(src: Source, lines: seq<Line>)
    requires Derivation(src, lines)
    ensures lines != [] && src.Valid()
  {
  }

  lemma {:induction false} StatesThen(a: Side, b: Side)
    ensures StatesOf(Then(a, b)) == Append(StatesOf(a), StatesOf(b))
    ensures Proper(Then(a, b)) <==> Proper(a) && Proper(b)
  {
    if a.Seq? { StatesThen(a.tail, b); }
  }

  lemma {:induction false} EraseAppend(a: Stack, b: Stack)
    ensures Erase(Append(a, b)) == Append(Erase(a), Erase(b))
  {
    if a.Cons? { EraseAppend(a.rest, b); }
  }

  /** The line after an expansion has the symbols of the stack after the push. */
  lemma LineOfPush(p: nat, tail: Side, rest: Stack)
    requires p < 31 && Proper(tail) && StatesOf(tail) == Erase(rest)
    ensures Proper(Then(RuleSide(p), tail)) && StatesOf(Then(RuleSide(p), tail)) == Erase(Pushed(p, rest))
  {
    hide Pushed, RuleSide, Erase, StatesOf, Append;
    EraseIsRuleSide(p);
    PushedAppends(p, rest);
    StatesThen(RuleSide(p), tail);
    EraseAppend(Pushed(p, Nil), rest);
  }

  /** Outside keys and flags every push leaves the stack ready. */
  lemma ReadyPush(nt: NonTerminal, p: nat, rest: Stack)
    requires p < 31 && Allowed(nt, p) && Outer(State(nt)) && Ready(rest)
    ensures Ready(Pushed(p, rest))
  {
    match nt
    case Chord => ReadyChord(rest);
    case ChordTail => ReadyChord(rest);
    case FlagList => assert p == 22 ==> Ready(Cons(24, rest));
    case FlagListTail => assert p == 23 ==> Ready(Cons(24, rest));
    case Predicate =>
      assert p == 21 ==> Ready(Cons(3, Cons(33, rest)));
      assert p == 21 ==> Ready(Cons(33, Cons(23, Cons(3, Cons(33, rest)))));
    case _ => assert Ready(Cons(22, rest));
  }

  lemma ReadyChord(rest: Stack)
    requires Ready(rest)
    ensures Ready(Pushed(2, rest)) && Ready(Pushed(3, rest))
  {
    assert Settled(Cons(33, Cons(12, rest))) by { assert Ready(Cons(12, rest)); }
    assert Ready(Cons(33, Pushed(2, rest)));
  }

  /** Inside a key or a flag every push without a mark keeps the stack closing. */
  lemma ClosingPush(nt: NonTerminal, p: nat, rest: Stack, depth: nat)
    requires p < 31 && Allowed(nt, p) && !Outer(State(nt)) && p != 7 && p != 24
    requires Closing(rest, depth) && (13 <= State(nt) < 17 || State(nt) == 25 ==> Closes(rest))
    ensures if p == 20 then Pushed(p, rest) == Cons(26, rest) else Closing(Pushed(p, rest), depth)
  {
    assert forall s :: Inner(s) && s != 15 ==> s == 14 || Closing(Cons(s, rest), depth);
  }

  lemma PushedTracks(src: Source, k: Config, lines: seq<Line>, entry: nat) returns (all: seq<Line>)
    requires Sane(src, k) && Tracks(src, k, lines) && k.stack.Cons? && 10 <= k.stack.top < 34
    requires entry == Entry(k.stack.top, src.Class(k.pos)) && entry != 7 && entry != 24
    ensures Tracks(src, k.(stack := Pushed(entry, k.stack.rest)), all)
  {
    hide Marked, Pend, Derivation, Pushed, RuleSide, Entry, Allowed, Typed;
    assert lines != [] by { NotEmpty(src, lines); }
    var at, rest, nt := lines[|lines| - 1], k.stack.rest, NonTerminalOf(k.stack.top);
    var line := Line(k.pos, Then(RuleSide(entry), at.open.tail));
    all := lines + [line];
    TopIsHead(at.open, k.stack);
    StateInjective(at.open.head, N(nt));
    LineOfPush(entry, at.open.tail, rest);
    EntryIsAllowed(nt, src.Class(k.pos));
    if k.marks == [] {
      ReadyPush(nt, entry, rest);
      ReadyNext(src, lines, line, Pushed(entry, rest));
    } else {
      ClosingPush(nt, entry, rest, Pend(lines).depth);
      ClosingNext(src, lines, line, Pushed(entry, rest), Pend(lines).depth);
    }
  }

  /** Only `qualified_key_name` and `flag` push marks behind their first token. */
  lemma MarkingEntry(s: nat, c: nat)
    requires s < 34 && c <= END && (Entry(s, c) == 7 || Entry(s, c) == 24)
    ensures if Entry(s, c) == 7 then s == 15 && c == COLON else s == 25 && c == TILDE
  {
  }

  /** The configuration behind a colon or '~' that a mark follows. */
  ghost function Behind(src: Source, k: Config): Config
    requires k.stack.Cons?
  {
    var at, next := src.At(k.pos), src.At(k.pos + 1);
    if k.stack.top == 15 then
      k.(stack := Cons(16, k.stack.rest), pos := k.pos + 1, marks := k.marks + [at] + [next])
    else k.(stack := Cons(26, k.stack.rest), pos := k.pos + 1, marks := k.marks + [next])
  }

  lemma RunsBehind(src: Source, matchAll: bool, k: Config)
    requires Sane(src, k) && k.stack.Cons? && 10 <= k.stack.top < 34
    requires Entry(k.stack.top, src.Class(k.pos)) == 7 || Entry(k.stack.top, src.Class(k.pos)) == 24
    ensures k.pos < |src.classes| && Sane(src, Behind(src, k))
    ensures Run(src, matchAll, k) == Run(src, matchAll, Behind(src, k))
  {
    hide Entry, Typed;
    var s, c, rest := k.stack.top, src.Class(k.pos), k.stack.rest;
    MarkingEntry(s, c);
    TypedExpand(s, c, rest, |k.marks|);
    RankFalls(s, c, rest);
    var k1 := k.(stack := Pushed(Entry(s, c), rest));
    assert Run(src, matchAll, k) == Run(src, matchAll, k1);
    var k2 := if s == 15 then Act(src, k1) else k1;
    DiagonalEntry(c);
    RunsOver(src, matchAll, k2);
    var k3 := k2.(stack := k2.stack.rest, pos := k2.pos + 1);
    assert Act(src, k3) == Behind(src, k);
  }

  /** The two lines of that colon or '~'; the second begins something. */
  lemma BehindLines(src: Source, lines: seq<Line>, s: nat, second: Side) returns (all: seq<Line>)
    requires Derivation(src, lines) && (s == 15 || s == 25)
    requires var at := lines[|lines| - 1];
      && at.open.Seq? && at.open.head == N(NonTerminalOf(s)) && src.Class(at.pos) <= END && Proper(at.open)
      && Entry(s, src.Class(at.pos)) == (if s == 15 then 7 else 24)
      && second == Seq(if s == 15 then N(UKeyName) else N(Name), at.open.tail)
    ensures all != [] && Derivation(src, all)
    ensures all[|all| - 1] == Line(lines[|lines| - 1].pos + 1, second)
    ensures Pend(all) == Some(lines[|lines| - 1].pos + 1, Length(second) - 1)
  {
    hide Marked, Pend, Derivation, Entry;
    assert lines != [] && src.Valid() by { NotEmpty(src, lines); }
    var at := lines[|lines| - 1];
    var c := src.Class(at.pos);
    MarkingEntry(s, c);
    var one, two := Line(at.pos, Seq(T(c), second)), Line(at.pos + 1, second);
    assert Then(RuleSide(Entry(s, c)), at.open.tail) == one.open by {
      assert Then(One(second.head), at.open.tail) == second;
    }
    OneMore(src, lines, one);
    OneMore(src, lines + [one], two);
    all := lines + [one] + [two];
    HeadMarked(all, StateOf(second.head));
  }

  lemma BehindTracks(src: Source, k: Config, lines: seq<Line>) returns (all: seq<Line>)
    requires Sane(src, k) && Tracks(src, k, lines) && k.stack.Cons? && 10 <= k.stack.top < 34
    requires Entry(k.stack.top, src.Class(k.pos)) == 7 || Entry(k.stack.top, src.Class(k.pos)) == 24
    ensures Tracks(src, Behind(src, k), all)
  {
    hide Marked, Pend, Derivation, Typed, Entry, Rule;
    assert lines != [] by { NotEmpty(src, lines); }
    var at, rest, s := lines[|lines| - 1], k.stack.rest, k.stack.top;
    MarkingEntry(s, src.Class(k.pos));
    TopIsHead(at.open, k.stack);
    StateInjective(at.open.head, N(NonTerminalOf(s)));
    var second := Seq(if s == 15 then N(UKeyName) else N(Name), at.open.tail);
    all := BehindLines(src, lines, s, second);
    SizeIsLength(at.open.tail, rest);
    ClosingSize(rest, Pend(lines).depth);
  }

  /** A negative entry is below -2 exactly where a descriptor may end early. */
  lemma NegativeEntry(open: Side, c: nat)
    requires open.Seq? && Proper(open) && c <= END && Entry(StateOf(open.head), c) < 0
    ensures Entry(StateOf(open.head), c) < -2 <==> EndsEarly(open, c)
  {
  }

  lemma StuckExplains(src: Source, matchAll: bool, k: Config, lines: seq<Line>)
    requires Sane(src, k) && Tracks(src, k, lines) && k.stack.Cons? && 0 <= k.stack.top < 34
    requires Entry(k.stack.top, src.Class(k.pos)) < 0
    ensures Explains(src, matchAll, lines, Run(src, matchAll, k))
  {
    hide Derivation, Pend, Typed, Entry, Reading, Marked;
    assert lines != [] by { NotEmpty(src, lines); }
    var at := lines[|lines| - 1];
    TopIsHead(at.open, k.stack);
    NegativeEntry(at.open, src.Class(k.pos));
    PendIsReading(lines);
  }

  /** Every run follows a derivation that explains how it ends. */
  lemma {:induction false} RunExplains(src: Source, matchAll: bool, k: Config, lines: seq<Line>)
    returns (all: seq<Line>)
    requires Sane(src, k) && Tracks(src, k, lines)
    ensures Explains(src, matchAll, all, Run(src, matchAll, k))
    decreases |src.classes| - k.pos, Rank(k.stack, src.Class(k.pos))
  {
    hide Tracks, Entry, Typed, Explains, Pushed;
    match k.stack
    case Nil =>
      EmptyExplains(src, matchAll, k, lines);
      all := lines;
    case Cons(s, rest) =>
      TopInTable(src, k);
      var c := src.Class(k.pos);
      if s < 0 {
        ActTracks(src, k, lines);
        all := RunExplains(src, matchAll, Act(src, k), lines);
      } else if Entry(s, c) < 0 {
        StuckExplains(src, matchAll, k, lines);
        all := lines;
      } else if s < 10 {
        TerminalEntry(s, c);
        RunsOver(src, matchAll, k);
        var next := TokenTracks(src, k, lines);
        all := RunExplains(src, matchAll, k.(stack := rest, pos := k.pos + 1), next);
      } else if Entry(s, c) == 7 || Entry(s, c) == 24 {
        RunsBehind(src, matchAll, k);
        var next := BehindTracks(src, k, lines);
        all := RunExplains(src, matchAll, Behind(src, k), next);
      } else {
        TypedExpand(s, c, rest, |k.marks|);
        RankFalls(s, c, rest);
        var next := PushedTracks(src, k, lines, Entry(s, c));
        all := RunExplains(src, matchAll, k.(stack := Pushed(Entry(s, c), rest)), next);
      }
  }

  lemma EmptyExplains(src: Source, matchAll: bool, k: Config, lines: seq<Line>)
    requires Sane(src, k) && Tracks(src, k, lines) && k.stack == Nil
    ensures Explains(src, matchAll, lines, Run(src, matchAll, k))
  {
  }

  lemma OneNextLine(src: Source, a: Line, b: Line, c: Line)
    requires src.Valid() && Goes(src, a, b) && Goes(src, a, c)
    ensures b == c
  {
  }

  lemma {:induction false} SameLines(src: Source, a: seq<Line>, b: seq<Line>, n: nat)
    requires Derivation(src, a) && Derivation(src, b) && n < |a| && n < |b|
    ensures a[n] == b[n]
  {
    if n > 0 {
      SameLines(src, a, b, n - 1);
      OneNextLine(src, a[n - 1], a[n], b[n]);
    }
  }

  /** A derivation that explains an end has no next line. */
  lemma ExplainedIsOver(src: Source, matchAll: bool, lines: seq<Line>, o: Outcome, next: Line)
    requires Explains(src, matchAll, lines, o)
    ensures lines != [] && src.Valid() && !Goes(src, lines[|lines| - 1], next)
  {
    var at := lines[|lines| - 1];
    if at.open.Seq? && at.open.head.T? && at.open.head.cls < END { DiagonalEntry(at.open.head.cls); }
  }

  /** The derivation that explains how a run ends is the only one, and it does not depend on `match_all`. */
  lemma OneDerivation(src: Source, matchAll: bool, o: Outcome, a: seq<Line>,
                      matchAll': bool, o': Outcome, b: seq<Line>)
    requires Explains(src, matchAll, a, o) && Explains(src, matchAll', b, o')
    ensures a == b
  {
    hide Goes, ErrorAt;
    forall n: nat | n < |a| && n < |b| ensures a[n] == b[n] { SameLines(src, a, b, n); }
    if |a| < |b| {
      ExplainedIsOver(src, matchAll, a, o, b[|a|]);
      assert false;
    } else if |b| < |a| {
      ExplainedIsOver(src, matchAll', b, o', a[|b|]);
      assert false;
    }
  }

  /** `head` derives the tokens from `from` to `to` and then what the forest `f` yields. */
  ghost predicate Completes(src: Source, head: Symbol, from: nat, to: nat, f: Forest) {
    from <= to <= |src.classes| &&
    exists t :: ValidTree(t) && Root(t) == head && Yield(t) == src.classes[from..to] + Yields(f)
  }

  /** `todo` is what is left to derive of `head`, whatever is derived from it. */
  ghost predicate LeftOf(src: Source, head: Symbol, from: nat, to: nat, todo: Side) {
    forall f :: ValidForest(f) && Roots(f) == todo ==> Completes(src, head, from, to, f)
  }

  lemma {:induction false} ThenLength(a: Side, b: Side)
    ensures Length(Then(a, b)) == Length(a) + Length(b)
  {
    if a.Seq? { ThenLength(a.tail, b); }
  }

  lemma {:induction false} SplitRoots(f: Forest, a: Side, b: Side) returns (kids: Forest, g: Forest)
    requires ValidForest(f) && Roots(f) == Then(a, b)
    ensures ValidForest(kids) && Roots(kids) == a && ValidForest(g) && Roots(g) == b
    ensures Yields(f) == Yields(kids) + Yields(g)
  {
    if a == Eps {
      kids, g := Bare, f;
    } else {
      kids, g := SplitRoots(f.rest, a.tail, b);
      kids := Grove(f.first, kids);
    }
  }

  lemma {:induction false} ThenAssociates(a: Side, b: Side, c: Side)
    ensures Then(Then(a, b), c) == Then(a, Then(b, c))
  {
    if a.Seq? { ThenAssociates(a.tail, b, c); }
  }

  lemma LeafFirst(c: nat, f: Forest)
    requires c < END && ValidForest(f)
    ensures var h := Grove(Leaf(c), f);
      ValidForest(h) && Roots(h) == Seq(T(c), Roots(f)) && Yields(h) == [c] + Yields(f)
  {
  }

  lemma LeftOfToken(src: Source, head: Symbol, from: nat, to: nat, c: nat, todo: Side)
    requires src.Valid() && c < END && src.Class(to) == c
    requires LeftOf(src, head, from, to, Seq(T(c), todo)) && from <= to
    ensures LeftOf(src, head, from, to + 1, todo)
  {
    hide ValidTree, ValidForest, Roots, Root, Yield, Yields;
    forall f | ValidForest(f) && Roots(f) == todo ensures Completes(src, head, from, to + 1, f) {
      LeafFirst(c, f);
      assert Completes(src, head, from, to, Grove(Leaf(c), f));
      var t :| ValidTree(t) && Root(t) == head && Yield(t) == src.classes[from..to] + Yields(Grove(Leaf(c), f));
      TokenMore(src.classes, from, to, Yields(f));
      assert Yield(t) == src.classes[from..to + 1] + Yields(f);
    }
  }

  lemma TokenMore(classes: seq<nat>, from: nat, to: nat, w: seq<nat>)
    requires from <= to < |classes|
    ensures classes[from..to] + ([classes[to]] + w) == classes[from..to + 1] + w
  {
  }

  lemma LeftOfRule(src: Source, head: Symbol, from: nat, to: nat, nt: NonTerminal, rhs: Side, todo: Side)
    requires Rule(nt, rhs) && LeftOf(src, head, from, to, Seq(N(nt), todo))
    ensures LeftOf(src, head, from, to, Then(rhs, todo))
  {
    hide Rule;
    forall f | ValidForest(f) && Roots(f) == Then(rhs, todo) ensures Completes(src, head, from, to, f) {
      var kids, g := SplitRoots(f, rhs, todo);
      var h := Grove(Node(nt, kids), g);
      assert ValidTree(Node(nt, kids)) && ValidForest(h) && Roots(h) == Seq(N(nt), todo);
      assert Completes(src, head, from, to, h);
      assert Yields(h) == Yields(f);
    }
  }

  lemma LeftOfNext(src: Source, head: Symbol, from: nat, a: Line, b: Line, todo: Side, tail: Side)
    returns (next: Side)
    requires src.Valid() && Goes(src, a, b) && from <= a.pos && LeftOf(src, head, from, a.pos, todo)
    requires a.open == Then(todo, tail) && todo.Seq?
    ensures a.pos <= b.pos && LeftOf(src, head, from, b.pos, next) && b.open == Then(next, tail)
  {
    hide LeftOf;
    match todo.head
    case T(c) =>
      LeftOfToken(src, head, from, a.pos, c, todo.tail);
      next := todo.tail;
    case N(nt) =>
      var rhs := RuleSide(Entry(State(nt), src.Class(a.pos)));
      EntryIsAllowed(nt, src.Class(a.pos));
      AllowedIsRule(nt, Entry(State(nt), src.Class(a.pos)));
      LeftOfRule(src, head, from, a.pos, nt, rhs, todo.tail);
      ThenAssociates(rhs, todo.tail, tail);
      next := Then(rhs, todo.tail);
  }

  lemma LeftOfWhole(src: Source, head: Symbol, pos: nat)
    requires pos <= |src.classes|
    ensures LeftOf(src, head, pos, pos, One(head))
  {
    forall f | ValidForest(f) && Roots(f) == One(head) ensures Completes(src, head, pos, pos, f) {
      assert Roots(f.rest) == Eps;
      assert f.rest == Bare && src.classes[pos..pos] == [];
      assert Yields(f) == Yield(f.first) + [];
      assert Yield(f.first) == src.classes[pos..pos] + Yields(f);
    }
  }

  lemma {:induction false} LineWithin(src: Source, lines: seq<Line>, n: nat)
    requires Derivation(src, lines) && n < |lines|
    ensures lines[n].pos <= |src.classes|
  {
    if n > 0 {
      LineWithin(src, lines, n - 1);
      assert Goes(src, lines[n - 1], lines[n]);
    }
  }

  /** The line `n` of a derivation whose symbol at line `j` is open up to there: the symbols before those
      that come behind it are what is left to derive of it, and its tokens so far are those taken since. */
  lemma {:induction false} OpenNode(src: Source, lines: seq<Line>, j: nat, n: nat) returns (todo: Side)
    requires Derivation(src, lines) && j <= n < |lines| && lines[j].open.Seq?
    requires forall i :: j <= i < n ==> Length(lines[j].open) <= Length(lines[i].open)
    ensures lines[n].open == Then(todo, lines[j].open.tail) && lines[j].pos <= lines[n].pos
    ensures LeftOf(src, lines[j].open.head, lines[j].pos, lines[n].pos, todo)
  {
    hide LeftOf, Goes;
    var head, tail := lines[j].open.head, lines[j].open.tail;
    if j == n {
      LineWithin(src, lines, j);
      todo := One(head);
      LeftOfWhole(src, head, lines[j].pos);
    } else {
      var before := OpenNode(src, lines, j, n - 1);
      ThenLength(before, tail);
      todo := LeftOfNext(src, head, lines[j].pos, lines[n - 1], lines[n], before, tail);
    }
  }

  /** What is open where a run stops: the tokens taken and whatever is derived from the open symbols make
      a descriptor, and so it is with the part that is being read. */
  lemma ErrorIsInside(src: Source, matchAll: bool, lines: seq<Line>, o: Outcome)
    requires Explains(src, matchAll, lines, o)
    ensures LeftOf(src, N(Binding), 0, o.stop, lines[|lines| - 1].open)
    ensures forall j: nat :: Reading(lines, j) ==>
      lines[j].pos <= o.stop && exists todo ::
        lines[|lines| - 1].open == Then(todo, lines[j].open.tail) &&
        LeftOf(src, lines[j].open.head, lines[j].pos, o.stop, todo)
  {
    hide LeftOf, Goes, Completes, ErrorAt;
    var n := |lines| - 1;
    forall i | 0 <= i < n ensures 1 <= Length(lines[i].open) { OpenBefore(src, lines, i); }
    var open := OpenNode(src, lines, 0, n);
    ThenNothing(open);
    assert lines[n].open == open;
    forall j: nat | Reading(lines, j)
      ensures lines[j].pos <= o.stop && exists todo ::
        lines[n].open == Then(todo, lines[j].open.tail) &&
        LeftOf(src, lines[j].open.head, lines[j].pos, o.stop, todo)
    {
      var todo := OpenNode(src, lines, j, n);
    }
  }

  lemma OpenBefore(src: Source, lines: seq<Line>, i: nat)
    requires Derivation(src, lines) && i + 1 < |lines|
    ensures 1 <= Length(lines[i].open)
  {
    assert Goes(src, lines[i + 1 - 1], lines[i + 1]);
  }

  lemma {:induction false} ThenNothing(a: Side)
    ensures Then(a, Eps) == a
  {
    if a.Seq? { ThenNothing(a.tail); }
  }

  /** Nothing left open: the tokens taken are a descriptor. */
  lemma NothingLeft(src: Source, matchAll: bool, lines: seq<Line>, o: Outcome)
    requires Explains(src, matchAll, lines, o) && lines[|lines| - 1].open == Eps
    ensures Derivable(src.classes[..o.stop])
  {
    hide Explains, Reading, ErrorAt;
    ErrorIsInside(src, matchAll, lines, o);
    assert ValidForest(Bare) && Roots(Bare) == Eps;
    assert Completes(src, N(Binding), 0, o.stop, Bare);
    var t :| ValidTree(t) && Root(t) == N(Binding) && Yield(t) == src.classes[0..o.stop] + Yields(Bare);
    assert src.classes[0..o.stop] + [] == src.classes[..o.stop];
    assert Derives(t, src.classes[..o.stop]);
  }

  /** The error code BIND:S10: something follows a whole descriptor. */
  predicate AfterWhole(e: ParseError) {
    e.SyntaxError? && e.state == START_STATE && e.kind == 1
  }

  lemma AfterWholeIsEmpty(src: Source, matchAll: bool, lines: seq<Line>, o: Outcome)
    requires Explains(src, matchAll, lines, o) && o.Stuck? && AfterWhole(o.error)
    ensures lines != [] && lines[|lines| - 1].open == Eps
  {
    var at := lines[|lines| - 1];
    if at.open.Seq? {
      StartEntry(src.Class(at.pos));
      assert false;
    }
  }

  lemma StartEntry(c: nat)
    requires c <= END
    ensures Entry(START_STATE, c) == -1 || Entry(START_STATE, c) == 1
  {
  }

  lemma StopIsFirst(src: Source, matchAll: bool)
    requires src.Valid() && Sane(src, START) && Run(src, matchAll, START).Stuck?
    ensures FirstError(src, Run(src, matchAll, START).stop)
  {
    hide Run, KeysOf, FlagsOf, Agrees;
    var o, whole := Run(src, matchAll, START), src.classes;
    var f := RunFollows(src, matchAll, START);
    var t := StartTree(f);
    StartForest(src, t);
    var v := Yield(t)[o.stop..];
    assert whole[0..o.stop] == whole[..o.stop];
    assert Yield(t) == whole[..o.stop] + v;
    assert Derives(t, whole[..o.stop] + v);
    if o.stop < |whole| {
      NotViable(src, matchAll, o.stop + 1);
    } else if Derivable(whole) {
      var t' :| Derives(t', whole);
      WholeDescriptor(src, matchAll, t');
      assert false;
    }
  }

  /** A failed parse reports its error at the first token that no descriptor can have there: the tokens
      before it can be continued to a descriptor, and with it they cannot (at the end of the source: they
      can be continued, but are no descriptor as they stand). The code and the other offsets are those that
      the derivation up to there explains. */
  lemma ErrorIsFirst(src: Source, matchAll: bool) returns (lines: seq<Line>)
    requires src.Valid()
    ensures Sane(src, START)
    ensures var o := Run(src, matchAll, START);
      Explains(src, matchAll, lines, o) &&
      (o.Stuck? ==> FirstError(src, o.stop) && (AfterWhole(o.error) ==> Derivable(src.classes[..o.stop])))
  {
    hide Run, KeysOf, FlagsOf, Explains, Tracks, FirstError;
    StartIsSane(src);
    StartTracks(src);
    lines := RunExplains(src, matchAll, START, [Line(0, One(N(Binding)))]);
    var o := Run(src, matchAll, START);
    if o.Stuck? {
      if AfterWhole(o.error) {
        AfterWholeIsEmpty(src, matchAll, lines, o);
        NothingLeft(src, matchAll, lines, o);
      }
      StopIsFirst(src, matchAll);
    }
  }

  /** `keys` and `flags` are those of a derivation of the first `stop` tokens. */
  ghost predicate Recognised(src: Source, stop: nat, keys: seq<ParsedKey>, flags: seq<ParsedFlag>) {
    stop <= |src.classes| &&
    exists t :: Derives(t, src.classes[..stop]) && keys == KeysOf(src, t, 0) && flags == FlagsOf(src, t, 0)
  }

  ghost predicate NoLongerPrefix(src: Source, stop: nat) {
    forall j :: stop < j <= |src.classes| ==> !Viable(src.classes[..j])
  }

  /** Token `stop` (or the end of the source) is the first thing that keeps the source from being a
      descriptor. */
  ghost predicate FirstError(src: Source, stop: nat) {
    && stop <= |src.classes|
    && Viable(src.classes[..stop])
    && (if stop == |src.classes| then !Derivable(src.classes) else !Viable(src.classes[..stop + 1]))
  }

  /** How a parse ends, in terms of the grammar alone. */
  ghost predicate Grammatical(src: Source, matchAll: bool, o: Outcome) {
    match o
    case Done(keys, flags, stop) =>
      Recognised(src, stop, keys, flags) &&
      if matchAll then stop == |src.classes| else NoLongerPrefix(src, stop)
    case Stuck(error, stop) =>
      && (matchAll ==> !Derivable(src.classes))
      && FirstError(src, stop)
      && (AfterWhole(error) ==> Derivable(src.classes[..stop]))
  }

  /** The result of a parse: how it ends, and the derivation that explains it. */
  ghost predicate Meets(src: Source, matchAll: bool, r: ParseResult) {
    exists o, lines :: r == Parse(src, o) && Explains(src, matchAll, lines, o) && Grammatical(src, matchAll, o)
  }

  lemma ParseMeetsGrammar(src: Source, matchAll: bool)
    requires src.Valid() && Sane(src, START)
    ensures Meets(src, matchAll, Parse(src, Run(src, matchAll, START)))
  {
    hide Run, KeysOf, FlagsOf, ValidTree, Explains;
    var o, whole := Run(src, matchAll, START), src.classes;
    var lines := ErrorIsFirst(src, matchAll);
    if matchAll {
      Accepts(src);
      if o.Done? {
        var t :| Derives(t, whole);
        assert whole[..|whole|] == whole;
        assert Recognised(src, |whole|, o.keys, o.flags);
      }
    } else if o.Done? {
      CutsLongestPrefix(src);
      assert Recognised(src, o.stop, o.keys, o.flags) && NoLongerPrefix(src, o.stop);
    }
    assert Grammatical(src, matchAll, o);
  }
}
