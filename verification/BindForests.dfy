/** Forests of derivation trees that fit a parse stack, and prediction: on every reachable stack the
    lookahead selects the rule of the tree on top. */
module BindForests {
  import opened BindGrammar
  import opened BindTables
  import opened BindStacks

  /** The first token class of a word, or the end. */
  function Lead(w: seq<nat>): nat {
    if w == [] then END else w[0]
  }

  /** `f` holds one derivation tree for every grammar symbol on the stack. */
  ghost predicate Fits(f: Forest, stack: Stack) {
    match stack
    case Nil => f == Bare
    case Cons(s, rest) =>
      if s < 0 then Fits(f, rest)
      else f.Grove? && ValidTree(f.first) && StateOf(Root(f.first)) == s && Fits(f.rest, rest)
  }

  function Join(f: Forest, g: Forest): Forest {
    match f
    case Bare => g
    case Grove(t, rest) => Grove(t, Join(rest, g))
  }

  function Append(a: Stack, b: Stack): Stack {
    match a
    case Nil => b
    case Cons(s, rest) => Cons(s, Append(rest, b))
  }

  lemma {:induction false} JoinYields(f: Forest, g: Forest)
    ensures Yields(Join(f, g)) == Yields(f) + Yields(g)
  {
    if f.Grove? {
      JoinYields(f.rest, g);
      assert Yield(f.first) + (Yields(f.rest) + Yields(g)) == (Yield(f.first) + Yields(f.rest)) + Yields(g);
    }
  }

  /** Fitting a stack without its actions is being a valid forest with those roots. */
  lemma {:induction false} FitsErased(f: Forest, a: Stack)
    ensures Fits(f, a) <==> ValidForest(f) && StatesOf(Roots(f)) == Erase(a)
  {
    match a
    case Nil =>
    case Cons(s, rest) =>
      if s < 0 {
        FitsErased(f, rest);
      } else if f.Grove? {
        FitsErased(f.rest, rest);
      }
  }

  lemma {:induction false} FitsJoin(f: Forest, a: Stack, g: Forest, b: Stack)
    requires Fits(f, a) && Fits(g, b)
    ensures Fits(Join(f, g), Append(a, b))
  {
    match a
    case Nil =>
    case Cons(s, rest) => if s < 0 { FitsJoin(f, rest, g, b); } else { FitsJoin(f.rest, rest, g, b); }
  }

  lemma {:induction false} FitsSplit(h: Forest, a: Stack, b: Stack) returns (f: Forest, g: Forest)
    requires Fits(h, Append(a, b))
    ensures h == Join(f, g) && Fits(f, a) && Fits(g, b)
  {
    match a
    case Nil => return Bare, h;
    case Cons(s, rest) =>
      if s < 0 {
        f, g := FitsSplit(h, rest, b);
      } else {
        f, g := FitsSplit(h.rest, rest, b);
        f := Grove(h.first, f);
      }
  }

  lemma PushedAppends(p: nat, s: Stack)
    requires p < 31
    ensures Pushed(p, s) == Append(Pushed(p, Nil), s)
  {
    match p
    case 2 => Appends5(-1, 13, -2, 33, 12, s);
    case 3 => Appends5(-1, 13, -2, 33, 12, s);
      assert Append(Cons(33, Pushed(2, Nil)), s) == Cons(33, Pushed(2, s));
    case 21 => Appends5(2, 33, 23, 3, 33, s);
    case 23 => Appends5(32, -1, 25, -3, 24, s);
    case 22 => Appends5(0, -1, 25, -3, 24, s);
    case 7 => Appends5(0, -1, 1, -1, 16, s);
    case _ => AppendsShort(Pushed(p, Nil), s);
  }

  lemma Appends5(a: int, b: int, c: int, d: int, e: int, s: Stack)
    ensures Append(Cons(b, Cons(c, Cons(d, Cons(e, Nil)))), s) == Cons(b, Cons(c, Cons(d, Cons(e, s))))
    ensures Append(Cons(a, Cons(b, Cons(c, Cons(d, Cons(e, Nil))))), s) ==
            Cons(a, Cons(b, Cons(c, Cons(d, Cons(e, s)))))
  {
    assert Append(Cons(e, Nil), s) == Cons(e, s);
    assert Append(Cons(d, Cons(e, Nil)), s) == Cons(d, Cons(e, s));
    assert Append(Cons(c, Cons(d, Cons(e, Nil))), s) == Cons(c, Cons(d, Cons(e, s)));
  }

  lemma AppendsShort(a: Stack, s: Stack)
    requires a.Cons? ==> a.rest.Cons? ==> a.rest.rest.Cons? ==> a.rest.rest.rest == Nil
    ensures a == Nil ==> Append(a, s) == s
    ensures a.Cons? && a.rest == Nil ==> Append(a, s) == Cons(a.top, s)
    ensures a.Cons? && a.rest.Cons? && a.rest.rest == Nil ==> Append(a, s) == Cons(a.top, Cons(a.rest.top, s))
    ensures a.Cons? && a.rest.Cons? && a.rest.rest.Cons? ==>
              Append(a, s) == Cons(a.top, Cons(a.rest.top, Cons(a.rest.rest.top, s)))
  {
    if a.Cons? && a.rest.Cons? && a.rest.rest.Cons? {
      assert Append(a.rest.rest, s) == Cons(a.rest.rest.top, s);
    }
  }

  /** A node and its production: a forest for the expanded stack from one for the stack before. */
  lemma FitsExpand(kids: Forest, p: nat, g: Forest, rest: Stack)
    requires p < 31 && ValidForest(kids) && Roots(kids) == RuleSide(p) && Fits(g, rest)
    ensures Fits(Join(kids, g), Pushed(p, rest))
    ensures Yields(Join(kids, g)) == Yields(kids) + Yields(g)
  {
    EraseIsRuleSide(p);
    FitsErased(kids, Pushed(p, Nil));
    FitsJoin(kids, Pushed(p, Nil), g, rest);
    PushedAppends(p, rest);
    JoinYields(kids, g);
  }

  /** And back: a forest for the expanded stack contains the children of a node. */
  lemma FitsContract(h: Forest, s: nat, c: nat, rest: Stack) returns (kids: Forest, g: Forest)
    requires 10 <= s < 34 && c <= END && 0 <= Entry(s, c) && Fits(h, Pushed(Entry(s, c), rest))
    ensures h == Join(kids, g) && Fits(g, rest) && Roots(kids) == RuleSide(Entry(s, c))
    ensures ValidTree(Node(NonTerminalOf(s), kids)) && Fits(Grove(Node(NonTerminalOf(s), kids), g), Cons(s, rest))
    ensures Yields(h) == Yields(kids) + Yields(g)
  {
    var p := Entry(s, c);
    PushedAppends(p, rest);
    kids, g := FitsSplit(h, Pushed(p, Nil), rest);
    FitsErased(kids, Pushed(p, Nil));
    EraseIsRuleSide(p);
    ProperRoots(kids);
    StatesInjective(Roots(kids), RuleSide(p));
    EntryIsAllowed(NonTerminalOf(s), c);
    AllowedIsRule(NonTerminalOf(s), p);
    JoinYields(kids, g);
  }

  lemma {:induction false} ProperRoots(f: Forest)
    requires ValidForest(f)
    ensures Proper(Roots(f))
  {
    if f.Grove? { ProperRoots(f.rest); }
  }

  lemma {:induction false} FitsRoots(f: Forest)
    requires ValidForest(f)
    ensures Fits(f, StatesOf(Roots(f)))
  {
    if f.Grove? { FitsRoots(f.rest); }
  }

  /** What a derivation tree can begin with. */
  lemma {:induction false} FirstOfTree(t: Tree)
    requires ValidTree(t)
    ensures Yield(t) == [] ==> t.Node? && Nullable(State(t.nt))
    ensures Yield(t) != [] ==> Yield(t)[0] < END && First(StateOf(Root(t)), Yield(t)[0])
    decreases t
  {
    if t.Node? {
      FitsRoots(t.kids);
      FirstOfForest(t.kids, StatesOf(Roots(t.kids)));
      FirstIsClosed(t.nt, Roots(t.kids), Lead(Yields(t.kids)));
    }
  }

  lemma {:induction false} FirstOfForest(f: Forest, stack: Stack)
    requires Fits(f, stack)
    ensures Lead(Yields(f)) <= END && FirstOf(stack, Lead(Yields(f)))
    ensures Yields(f) != [] ==> Yields(f)[0] < END
    decreases f, stack
  {
    match stack
    case Nil =>
    case Cons(s, rest) =>
      if s < 0 {
        FirstOfForest(f, rest);
      } else {
        FirstOfTree(f.first);
        FirstOfForest(f.rest, rest);
        assert Yields(f) == Yield(f.first) + Yields(f.rest);
      }
  }

  /** The lookahead selects the rule of the tree on top: prediction is exact on every reachable stack. */
  lemma Predicts(f: Forest, s: nat, rest: Stack, c: nat)
    requires 10 <= s && Fits(f, Cons(s, rest)) && FollowOk(Cons(s, rest)) && c == Lead(Yields(f))
    ensures s < 34 && c <= END && f.first.Node? && 0 <= Entry(s, c)
    ensures RuleSide(Entry(s, c)) == Roots(f.first.kids)
  {
    var kids := f.first.kids;
    FirstOfForest(f, Cons(s, rest));
    FitsRoots(kids);
    FirstOfForest(kids, StatesOf(Roots(kids)));
    if Roots(kids) == Eps {
      FirstOfForest(f.rest, rest);
      assert Yields(f) == Yields(f.rest);
    } else {
      FirstIsClosed(f.first.nt, Roots(kids), Lead(Yields(kids)));
      assert Yields(f) == Yields(kids) + Yields(f.rest);
      assert Yields(f)[0] == Yields(kids)[0];
    }
    TableIsComplete(f.first.nt, Roots(kids), c);
  }

  function Empty(nt: NonTerminal): (t: Tree)
    requires Rule(nt, Eps)
    ensures ValidTree(t) && Root(t) == N(nt)
  {
    Node(nt, Bare)
  }

  function Unary(nt: NonTerminal, a: Tree): (t: Tree)
    requires ValidTree(a) && Rule(nt, One(Root(a)))
    ensures ValidTree(t) && Root(t) == N(nt)
  {
    assert Roots(Bare) == Eps && ValidForest(Bare);
    Node(nt, Grove(a, Bare))
  }

  function Binary(nt: NonTerminal, a: Tree, b: Tree): (t: Tree)
    requires ValidTree(a) && ValidTree(b) && Rule(nt, Two(Root(a), Root(b)))
    ensures ValidTree(t) && Root(t) == N(nt)
  {
    assert Roots(Bare) == Eps && ValidForest(Bare);
    assert ValidForest(Grove(b, Bare)) && Roots(Grove(b, Bare)) == One(Root(b));
    Node(nt, Grove(a, Grove(b, Bare)))
  }

  function Ternary(nt: NonTerminal, a: Tree, b: Tree, c: Tree): (t: Tree)
    requires ValidTree(a) && ValidTree(b) && ValidTree(c) && Rule(nt, Three(Root(a), Root(b), Root(c)))
    ensures ValidTree(t) && Root(t) == N(nt)
  {
    assert Roots(Bare) == Eps && ValidForest(Bare);
    assert ValidForest(Grove(c, Bare)) && Roots(Grove(c, Bare)) == One(Root(c));
    assert ValidForest(Grove(b, Grove(c, Bare))) && Roots(Grove(b, Grove(c, Bare))) == Two(Root(b), Root(c));
    Node(nt, Grove(a, Grove(b, Grove(c, Bare))))
  }

  function SmallestKey(): (t: Tree)
    ensures ValidTree(t) && Root(t) == N(Key)
  {
    Unary(Key, Unary(SpecialKeyName, Leaf(PLUS)))
  }

  function SmallestChord(): (t: Tree)
    ensures ValidTree(t) && Root(t) == N(Chord)
  {
    Ternary(Chord, SmallestKey(), Empty(OptWhitespace), Empty(ChordTail))
  }

  function SmallestName(): (t: Tree)
    ensures ValidTree(t) && Root(t) == N(Name)
  {
    Binary(Name, Unary(NameChar, Leaf(OTHER)), Empty(OptName))
  }

  lemma SmallestKeyTree(s: nat) returns (t: Tree)
    requires 10 <= s < 22
    ensures ValidTree(t) && StateOf(Root(t)) == s
  {
    if s < 16 { t := SmallestChordTree(s); } else { t := SmallestKeyNameTree(s); }
  }

  lemma SmallestChordTree(s: nat) returns (t: Tree)
    requires 10 <= s < 16
    ensures ValidTree(t) && StateOf(Root(t)) == s
  {
    hide ValidTree;
    match s
    case 10 => t := Ternary(Binding, Empty(OptWhitespace), SmallestChord(), Empty(Predicate));
    case 11 => t := SmallestChord();
    case 12 => t := Empty(ChordTail);
    case 13 => t := SmallestKey();
    case 14 => t := Empty(OptQKeyName);
    case _ => t := Binary(QKeyName, SmallestLeaf(COLON), Unary(UKeyName, SmallestLeaf(COLON)));
  }

  lemma SmallestKeyNameTree(s: nat) returns (t: Tree)
    requires 16 <= s < 22
    ensures ValidTree(t) && StateOf(Root(t)) == s
  {
    hide ValidTree;
    match s
    case 16 => t := Unary(UKeyName, SmallestLeaf(COLON));
    case 17 => t := Unary(SpecialKeyName, SmallestLeaf(PLUS));
    case 18 => t := Binary(DevOrKeyName, SmallestLeaf(LETTER_N), Empty(DevOrKeyNameN));
    case 19 => t := Empty(DevOrKeyNameN);
    case 20 => t := Empty(DevOrKeyNameU);
    case _ => t := Unary(DevOrKeyNameM, SmallestLeaf(PLUS));
  }

  lemma SmallestFlagTree(s: nat) returns (t: Tree)
    requires 22 <= s < 28
    ensures ValidTree(t) && StateOf(Root(t)) == s
  {
    hide ValidTree;
    match s
    case 22 => t := Empty(Predicate);
    case 23 => t := Empty(FlagList);
    case 24 => t := Empty(FlagListTail);
    case 25 => t := Unary(Flag, SmallestName());
    case 26 => t := SmallestName();
    case _ => t := Empty(OptName);
  }

  lemma SmallestCharTree(s: nat) returns (t: Tree)
    requires 28 <= s < 34
    ensures ValidTree(t) && StateOf(Root(t)) == s
  {
    hide ValidTree;
    match s
    case 28 => t := Unary(NameChar, SmallestLeaf(OTHER));
    case 29 => t := Unary(NameCharMN, SmallestLeaf(OTHER));
    case 30 => t := Unary(NameCharMU, SmallestLeaf(OTHER));
    case 31 => t := Unary(NameCharNU, SmallestLeaf(OTHER));
    case 32 => t := Binary(Whitespace, SmallestLeaf(SPACE), Empty(OptWhitespace));
    case _ => t := Empty(OptWhitespace);
  }

  /** Every symbol derives some word. */
  lemma SmallestTree(s: nat) returns (t: Tree)
    requires s < 34
    ensures ValidTree(t) && StateOf(Root(t)) == s
  {
    if s < 10 {
      t := SmallestLeaf(s);
    } else if s < 22 {
      t := SmallestKeyTree(s);
    } else if s < 28 {
      t := SmallestFlagTree(s);
    } else {
      t := SmallestCharTree(s);
    }
  }

  function SmallestLeaf(cls: nat): (t: Tree)
    requires cls < END
    ensures ValidTree(t) && Root(t) == T(cls)
  {
    Leaf(cls)
  }

  lemma {:induction false} SmallestForest(stack: Stack, m: nat) returns (f: Forest)
    requires Typed(stack, m)
    ensures Fits(f, stack)
  {
    match stack
    case Nil => f := Bare;
    case Cons(s, rest) =>
      var m' :| Typed(rest, m');
      var g := SmallestForest(rest, m');
      if s < 0 {
        f := g;
      } else {
        var t := SmallestTree(s);
        f := Grove(t, g);
      }
  }
}
