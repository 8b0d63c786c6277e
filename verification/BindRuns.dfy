/** The run of the table-driven parser as a function of its configuration, and what a run computes in
    terms of the grammar. */
module BindRuns {
  import opened BindGrammar
  import opened BindTables
  import opened BindStacks
  import opened BindForests
  import opened BindFinds

  datatype ParseError =
    | SyntaxError(state: nat, kind: int, mark: nat, begin: nat, end: nat)
    | InternalError(markCount: int)

  datatype ParseResult =
    | Parsed(keys: seq<ParsedKey>, flags: seq<ParsedFlag>, end: nat)
    | Failed(error: ParseError)

  /** The loop's variables: parse stack, number of tokens taken, pending marks, and what was found. */
  datatype Config = Config(stack: Stack, pos: nat, marks: seq<nat>, keys: seq<ParsedKey>, flags: seq<ParsedFlag>)

  /** How a run ends, with the token position at which it stops. */
  datatype Outcome =
    | Done(keys: seq<ParsedKey>, flags: seq<ParsedFlag>, stop: nat)
    | Stuck(error: ParseError, stop: nat)

  const START := Config(Cons(START_STATE, Nil), 0, [], [], [])

  ghost predicate Sane(src: Source, k: Config) {
    src.Valid() && k.pos <= |src.classes| && Typed(k.stack, |k.marks|)
  }

  /** The configuration after the semantic action on top of the stack. */
  ghost function Act(src: Source, k: Config): (k': Config)
    requires Sane(src, k) && k.stack.Cons? && k.stack.top < 0
    ensures Sane(src, k')
  {
    var it, rest := src.At(k.pos), k.stack.rest;
    if k.stack.top == -1 then k.(stack := rest, marks := k.marks + [it])
    else if k.stack.top == -2 then k.(stack := rest, marks := [], keys := k.keys + [CompleteKey(k.marks, it)])
    else k.(stack := rest, marks := [], flags := k.flags + [CompleteFlag(k.marks, it)])
  }

  /** The error raised for table entry `entry` of `state`. */
  function TableError(src: Source, state: nat, entry: int, pos: nat, marks: seq<nat>): ParseError {
    var at := src.At(pos);
    var end := if pos < |src.classes| then src.At(pos + 1) else at;
    SyntaxError(state, -(if entry < -2 then entry + 2 else entry) - 1, at,
                if marks == [] then at else marks[|marks| - 1], end)
  }

  /** The whole run from a configuration. */
  ghost function Run(src: Source, matchAll: bool, k: Config): Outcome
    requires Sane(src, k)
    decreases |src.classes| - k.pos, Rank(k.stack, src.Class(k.pos))
  {
    match k.stack
    case Nil =>
      if matchAll && k.pos != |src.classes| then
        Stuck(SyntaxError(START_STATE, 1, src.At(k.pos), src.At(k.pos), src.At(|src.classes|)), k.pos)
      else Done(k.keys, k.flags, k.pos)
    case Cons(s, rest) =>
      if s < 0 then Run(src, matchAll, Act(src, k))
      else
        var c := src.Class(k.pos);
        var entry := Entry(s, c);
        if entry < 0 then
          if entry < -2 && !matchAll then Done(k.keys, k.flags, k.pos)
          else Stuck(TableError(src, s, entry, k.pos, k.marks), k.pos)
        else if s < 10 then
          TerminalEntry(s, c);
          Run(src, matchAll, k.(stack := rest, pos := k.pos + 1))
        else
          TypedExpand(s, c, rest, |k.marks|); RankFalls(s, c, rest);
          Run(src, matchAll, k.(stack := Pushed(entry, rest)))
  }

  /** A terminal is on top: the only entry that is not an error takes the token. */
  lemma TerminalEntry(s: nat, c: nat)
    requires s < 10 && c <= END && 0 <= Entry(s, c)
    ensures s == c && Entry(s, c) == 0
  {
  }

  function Parse(src: Source, o: Outcome): ParseResult {
    match o
    case Done(keys, flags, stop) => Parsed(keys, flags, src.At(stop))
    case Stuck(error, _) => Failed(error)
  }

  /** Where a chord may end early: a tail and a predicate that derive nothing. */
  lemma EarlyEnd(src: Source, k: Config)
    requires Sane(src, k) && k.stack.Cons? && k.stack.top == 12
    ensures var f := Grove(Node(ChordTail, Bare), Grove(Node(Predicate, Bare), Bare));
      && Fits(f, k.stack) && Yields(f) == []
      && Final(src, k.stack, f, k.pos, k.marks, k.keys, k.flags) == (k.keys, k.flags)
  {
    assert k.stack.rest == Cons(22, Nil) && k.marks == [];
    FinalVanishes(src, ChordTail, Cons(22, Nil), Grove(Node(Predicate, Bare), Bare), k.pos, k.keys, k.flags);
    FinalVanishes(src, Predicate, Nil, Bare, k.pos, k.keys, k.flags);
    assert Fits(Grove(Node(Predicate, Bare), Bare), Cons(22, Nil));
  }

  /** Only the chord tail has entries below -2. */
  lemma OnlyChordTailYields(s: nat, c: nat)
    requires s < 34 && c <= END && Entry(s, c) < -2
    ensures s == 12
  {
  }

  /** Every run follows a derivation: the tokens it takes are a prefix of what some forest for its stack
      derives, all of it when the run succeeds, and then it finds what that forest holds. */
  lemma {:induction false} RunFollows(src: Source, matchAll: bool, k: Config) returns (f: Forest)
    requires Sane(src, k)
    ensures var o := Run(src, matchAll, k);
      && Fits(f, k.stack) && k.pos <= o.stop <= |src.classes|
      && src.classes[k.pos..o.stop] <= Yields(f)
      && (o.Done? ==> Yields(f) == src.classes[k.pos..o.stop])
      && (o.Done? && matchAll ==> o.stop == |src.classes|)
      && (o.Done? ==> (o.keys, o.flags) == Final(src, k.stack, f, k.pos, k.marks, k.keys, k.flags))
    decreases |src.classes| - k.pos, Rank(k.stack, src.Class(k.pos))
  {
    match k.stack
    case Nil => f := Bare;
    case Cons(s, rest) =>
      if s < 0 {
        f := RunFollows(src, matchAll, Act(src, k));
      } else {
        var c := src.Class(k.pos);
        var entry := Entry(s, c);
        if entry < 0 {
          if entry < -2 && !matchAll {
            OnlyChordTailYields(s, c);
            EarlyEnd(src, k);
            f := Grove(Node(ChordTail, Bare), Grove(Node(Predicate, Bare), Bare));
          } else {
            f := SmallestForest(k.stack, |k.marks|);
          }
        } else if s < 10 {
          f := FollowsTerminal(src, matchAll, k);
        } else {
          f := FollowsExpansion(src, matchAll, k);
        }
      }
  }

  lemma LeafYields(s: nat, g: Forest)
    ensures Yields(Grove(Leaf(s), g)) == [s] + Yields(g)
  {
  }

  /** A terminal that is next is taken. */
  lemma RunsOver(src: Source, matchAll: bool, k: Config)
    requires Sane(src, k) && k.stack.Cons? && 0 <= k.stack.top < 10
    requires 0 <= Entry(k.stack.top, src.Class(k.pos))
    ensures k.pos < |src.classes| && src.classes[k.pos] == k.stack.top
    ensures var next := k.(stack := k.stack.rest, pos := k.pos + 1);
      Sane(src, next) && Run(src, matchAll, k) == Run(src, matchAll, next)
  {
    TerminalEntry(k.stack.top, src.Class(k.pos));
  }

  lemma LeafFits(s: nat, g: Forest, rest: Stack)
    requires s < 10 && Fits(g, rest)
    ensures Fits(Grove(Leaf(s), g), Cons(s, rest)) && ValidTree(Leaf(s)) && |Yield(Leaf(s))| == 1
  {
  }

  lemma {:induction false} FollowsTerminal(src: Source, matchAll: bool, k: Config) returns (f: Forest)
    requires Sane(src, k) && k.stack.Cons? && 0 <= k.stack.top < 10
    requires 0 <= Entry(k.stack.top, src.Class(k.pos))
    ensures var o := Run(src, matchAll, k);
      && Fits(f, k.stack) && k.pos <= o.stop <= |src.classes|
      && src.classes[k.pos..o.stop] <= Yields(f)
      && (o.Done? ==> Yields(f) == src.classes[k.pos..o.stop])
      && (o.Done? && matchAll ==> o.stop == |src.classes|)
      && (o.Done? ==> (o.keys, o.flags) == Final(src, k.stack, f, k.pos, k.marks, k.keys, k.flags))
    decreases |src.classes| - k.pos, Rank(k.stack, src.Class(k.pos)), 0
  {
    hide Final, Rule, KeysOf, FlagsOf, Yields, Typed, Entry, Run, Fits;
    var s, rest := k.stack.top, k.stack.rest;
    RunsOver(src, matchAll, k);
    var g := RunFollows(src, matchAll, k.(stack := rest, pos := k.pos + 1));
    f := Grove(Leaf(s), g);
    LeafFits(s, g, rest);
    LeafYields(s, g);
    FinalSilent(src, Leaf(s), rest, g, k.pos, k.marks, k.keys, k.flags);
    var stop := Run(src, matchAll, k).stop;
    assert src.classes[k.pos..stop] == [s] + src.classes[k.pos + 1..stop];
  }

  lemma {:induction false} FollowsExpansion(src: Source, matchAll: bool, k: Config) returns (f: Forest)
    requires Sane(src, k) && k.stack.Cons? && 10 <= k.stack.top
    requires 0 <= Entry(k.stack.top, src.Class(k.pos))
    ensures var o := Run(src, matchAll, k);
      && Fits(f, k.stack) && k.pos <= o.stop <= |src.classes|
      && src.classes[k.pos..o.stop] <= Yields(f)
      && (o.Done? ==> Yields(f) == src.classes[k.pos..o.stop])
      && (o.Done? && matchAll ==> o.stop == |src.classes|)
      && (o.Done? ==> (o.keys, o.flags) == Final(src, k.stack, f, k.pos, k.marks, k.keys, k.flags))
    decreases |src.classes| - k.pos, Rank(k.stack, src.Class(k.pos)), 0
  {
    var s, rest, c := k.stack.top, k.stack.rest, src.Class(k.pos);
    TypedExpand(s, c, rest, |k.marks|);
    RankFalls(s, c, rest);
    var h := RunFollows(src, matchAll, k.(stack := Pushed(Entry(s, c), rest)));
    var kids, g := FitsContract(h, s, c, rest);
    var node := Node(NonTerminalOf(s), kids);
    f := Grove(node, g);
    EntryIsAllowed(node.nt, c);
    if s < 13 || 22 <= s < 25 { NoMarks(s, rest, k.marks); }
    FinalExpand(src, node, Entry(s, c), rest, g, k.pos, k.marks, k.keys, k.flags);
    assert Yields(f) == Yields(kids) + Yields(g);
  }

  lemma NoMarks(s: nat, rest: Stack, marks: seq<nat>)
    requires 10 <= s < 34 && Typed(Cons(s, rest), |marks|) && (s < 13 || 22 <= s < 25)
    ensures marks == []
  {
  }

  /** `f` agrees with the source up to and including the token at `stop` (or, at the end of the source,
      derives exactly what is left). */
  ghost predicate Agrees(src: Source, f: Forest, pos: nat, stop: nat) {
    && src.Valid() && pos <= stop <= |src.classes|
    && if stop == |src.classes| then Yields(f) == src.classes[pos..]
       else src.classes[pos..stop + 1] <= Yields(f)
  }

  /** A run stops only where it must: a forest that agrees with the source up to the token at which the
      run stops is a derivation of the whole rest, the run succeeds, and it finds what the forest holds. */
  lemma {:induction false} RunIsForced(src: Source, matchAll: bool, k: Config, f: Forest)
    requires Sane(src, k) && FollowOk(k.stack) && Fits(f, k.stack)
    requires Agrees(src, f, k.pos, Run(src, matchAll, k).stop)
    ensures var o := Run(src, matchAll, k);
      o.Done? && o.stop == |src.classes| && (o.keys, o.flags) == Final(src, k.stack, f, k.pos, k.marks, k.keys, k.flags)
    decreases |src.classes| - k.pos, Rank(k.stack, src.Class(k.pos))
  {
    match k.stack
    case Nil =>
    case Cons(s, rest) =>
      if s < 0 {
        RunIsForced(src, matchAll, Act(src, k), f);
      } else if s < 10 {
        ForcedTerminal(src, matchAll, k, f);
      } else {
        ForcedExpansion(src, matchAll, k, f);
      }
  }

  lemma AgreesOnLead(src: Source, f: Forest, pos: nat, stop: nat)
    requires Agrees(src, f, pos, stop)
    ensures Lead(Yields(f)) == src.Class(pos)
  {
    if stop == |src.classes| {
      assert Yields(f) != [] ==> Yields(f)[0] == src.classes[pos];
    } else {
      assert Yields(f)[0] == src.classes[pos..stop + 1][0];
    }
  }

  lemma AgreesAfter(src: Source, f: Forest, s: nat, pos: nat, stop: nat)
    requires Agrees(src, f, pos, stop) && pos < stop && f.Grove? && Yields(f) == [s] + Yields(f.rest)
    ensures Agrees(src, f.rest, pos + 1, stop)
  {
    hide Yields;
    assert Yields(f.rest) == Yields(f)[1..];
    assert src.classes[pos..][1..] == src.classes[pos + 1..];
    if stop < |src.classes| {
      assert src.classes[pos..stop + 1][1..] == src.classes[pos + 1..stop + 1];
    }
  }

  lemma {:induction false} ForcedTerminal(src: Source, matchAll: bool, k: Config, f: Forest)
    requires Sane(src, k) && FollowOk(k.stack) && Fits(f, k.stack)
    requires Agrees(src, f, k.pos, Run(src, matchAll, k).stop)
    requires k.stack.Cons? && 0 <= k.stack.top < 10
    ensures var o := Run(src, matchAll, k);
      o.Done? && o.stop == |src.classes| && (o.keys, o.flags) == Final(src, k.stack, f, k.pos, k.marks, k.keys, k.flags)
    decreases |src.classes| - k.pos, Rank(k.stack, src.Class(k.pos)), 0
  {
    hide Final, Rule, ValidTree, KeysOf, FlagsOf, Agrees, Yields;
    var s, rest := k.stack.top, k.stack.rest;
    var stop := Run(src, matchAll, k).stop;
    AgreesOnLead(src, f, k.pos, stop);
    assert f.first == Leaf(s);
    LeafYields(s, f.rest);
    DiagonalEntry(s);
    var k' := k.(stack := rest, pos := k.pos + 1);
    assert Run(src, matchAll, k) == Run(src, matchAll, k');
    RunStops(src, matchAll, k');
    AgreesAfter(src, f, s, k.pos, stop);
    RunIsForced(src, matchAll, k', f.rest);
    FinalSilent(src, f.first, rest, f.rest, k.pos, k.marks, k.keys, k.flags);
  }

  lemma DiagonalEntry(s: nat)
    requires s < 10
    ensures Entry(s, s) == 0
  {
  }

  lemma RunStops(src: Source, matchAll: bool, k: Config)
    requires Sane(src, k)
    ensures k.pos <= Run(src, matchAll, k).stop <= |src.classes|
  {
    var f := RunFollows(src, matchAll, k);
  }

  lemma {:induction false} ForcedExpansion(src: Source, matchAll: bool, k: Config, f: Forest)
    requires Sane(src, k) && FollowOk(k.stack) && Fits(f, k.stack)
    requires Agrees(src, f, k.pos, Run(src, matchAll, k).stop)
    requires k.stack.Cons? && 10 <= k.stack.top
    ensures var o := Run(src, matchAll, k);
      o.Done? && o.stop == |src.classes| && (o.keys, o.flags) == Final(src, k.stack, f, k.pos, k.marks, k.keys, k.flags)
    decreases |src.classes| - k.pos, Rank(k.stack, src.Class(k.pos)), 0
  {
    var s, rest, c := k.stack.top, k.stack.rest, src.Class(k.pos);
    AgreesOnLead(src, f, k.pos, Run(src, matchAll, k).stop);
    Predicts(f, s, rest, c);
    var node, g, p := f.first, f.rest, Entry(s, c);
    TypedExpand(s, c, rest, |k.marks|);
    FollowExpand(s, c, rest);
    RankFalls(s, c, rest);
    EntryIsAllowed(node.nt, c);
    FitsExpand(node.kids, p, g, rest);
    assert Yields(Join(node.kids, g)) == Yields(f);
    var k' := k.(stack := Pushed(p, rest));
    RunIsForced(src, matchAll, k', Join(node.kids, g));
    if s < 13 || 22 <= s < 25 { NoMarks(s, rest, k.marks); }
    FinalExpand(src, node, p, rest, g, k.pos, k.marks, k.keys, k.flags);
  }

  lemma StartIsSane(src: Source)
    requires src.Valid()
    ensures Sane(src, START) && FollowOk(START.stack)
  {
    assert FollowOk(Nil);
  }

  /** A forest for the start configuration is a derivation tree, and finds what the tree holds. */
  lemma StartForest(src: Source, t: Tree)
    requires ValidTree(t) && Root(t) == N(Binding)
    ensures Fits(Grove(t, Bare), START.stack) && Yields(Grove(t, Bare)) == Yield(t)
    ensures Final(src, START.stack, Grove(t, Bare), 0, [], [], []) == (KeysOf(src, t, 0), FlagsOf(src, t, 0))
  {
    assert Fits(Bare, Nil);
    FinalFinds(src, t, Nil, Bare, 0, [], [], []);
    assert [] + KeysOf(src, t, 0) == KeysOf(src, t, 0) && [] + FlagsOf(src, t, 0) == FlagsOf(src, t, 0);
  }

  lemma StartTree(f: Forest) returns (t: Tree)
    requires Fits(f, START.stack)
    ensures f == Grove(t, Bare) && ValidTree(t) && Root(t) == N(Binding)
  {
    t := f.first;
    assert Fits(f.rest, Nil);
    StateInjective(Root(t), N(Binding));
  }

  /** With `match_all`, the parser accepts a sequence of token classes exactly when the grammar derives
      it, and it finds exactly the keys and flags of the derivation. */
  lemma Accepts(src: Source)
    requires src.Valid()
    ensures Sane(src, START)
    ensures var o := Run(src, true, START);
      && (o.Done? <==> Derivable(src.classes))
      && (forall t :: Derives(t, src.classes) ==>
            o.Done? && o.keys == KeysOf(src, t, 0) && o.flags == FlagsOf(src, t, 0) && o.stop == |src.classes|)
  {
    StartIsSane(src);
    var o := Run(src, true, START);
    var f := RunFollows(src, true, START);
    var whole := src.classes;
    assert whole[0..|whole|] == whole && whole[0..] == whole;
    if o.Done? {
      var t := StartTree(f);
      StartForest(src, t);
      assert Derives(t, whole);
    }
    forall t | Derives(t, whole)
      ensures o.Done? && o.keys == KeysOf(src, t, 0) && o.flags == FlagsOf(src, t, 0) && o.stop == |whole|
    {
      StartForest(src, t);
      var g := Grove(t, Bare);
      assert Yields(g)[0..] == whole;
      assert o.stop < |whole| ==> whole[0..o.stop + 1] <= whole;
      assert Agrees(src, g, 0, o.stop);
      RunIsForced(src, true, START, g);
    }
  }

  /** Without `match_all`, a successful parse cuts off the longest derivable prefix: the tokens taken are
      derivable, what is found is what their derivation holds, and no longer prefix can even be continued
      to a derivable descriptor. */
  lemma CutsLongestPrefix(src: Source)
    requires src.Valid()
    ensures Sane(src, START)
    ensures var o := Run(src, false, START);
      o.Done? ==>
        && o.stop <= |src.classes|
        && (exists t :: Derives(t, src.classes[..o.stop]) &&
              o.keys == KeysOf(src, t, 0) && o.flags == FlagsOf(src, t, 0))
        && (forall j :: o.stop < j <= |src.classes| ==> !Viable(src.classes[..j]))
  {
    StartIsSane(src);
    var o := Run(src, false, START);
    var whole := src.classes;
    if o.Done? {
      var f := RunFollows(src, false, START);
      var t := StartTree(f);
      StartForest(src, t);
      assert whole[0..o.stop] == whole[..o.stop];
      assert Derives(t, whole[..o.stop]);
      forall j | o.stop < j <= |whole| ensures !Viable(whole[..j]) { NotViable(src, false, j); }
    }
  }

  /** No prefix that includes the token at which a run stops can be continued. */
  lemma NotViable(src: Source, matchAll: bool, j: nat)
    requires src.Valid() && Sane(src, START)
    requires Run(src, matchAll, START).stop < j <= |src.classes|
    ensures !Viable(src.classes[..j])
  {
    StartIsSane(src);
    var o, whole := Run(src, matchAll, START), src.classes;
    if Viable(whole[..j]) {
      var t, v :| Derives(t, whole[..j] + v);
      StartForest(src, t);
      var g := Grove(t, Bare);
      assert whole[0..o.stop + 1] <= Yields(g) by {
        assert (whole[..j] + v)[..o.stop + 1] == whole[0..o.stop + 1];
      }
      RunIsForced(src, matchAll, START, g);
      assert false;
    }
  }

  lemma TopInTable(src: Source, k: Config)
    requires Sane(src, k) && k.stack.Cons?
    ensures k.stack.top < 34
  {
  }

  /** A descriptor parses the same with and without `match_all`. */
  lemma WholeDescriptor(src: Source, matchAll: bool, t: Tree)
    requires src.Valid() && Derives(t, src.classes)
    ensures Sane(src, START)
    ensures Parse(src, Run(src, matchAll, START)) ==
            Parsed(KeysOf(src, t, 0), FlagsOf(src, t, 0), src.At(|src.classes|))
  {
    StartIsSane(src);
    StartForest(src, t);
    var whole, stop := src.classes, Run(src, matchAll, START).stop;
    RunStops(src, matchAll, START);
    assert whole[0..] == whole;
    assert stop < |whole| ==> whole[0..stop + 1] <= whole;
    RunIsForced(src, matchAll, START, Grove(t, Bare));
  }
}
