/** What running a stack down over a forest finds. Expanding the top state by its production, semantic
    actions included, does not change it, so the actions compute exactly the spans of the tree. */
module BindFinds {
  import opened BindGrammar
  import opened BindTables
  import opened BindForests

  /** `complete_key` for one or three pending marks, `complete_flag` for one or two; the value for any
      other number stands for the internal error, which no run reaches. */
  function CompleteKey(marks: seq<nat>, it: nat): ParsedKey {
    if |marks| == 1 then ParsedKey(marks[0], marks[0], marks[0], it)
    else if |marks| == 3 then ParsedKey(marks[0], marks[1], marks[2], it)
    else ParsedKey(0, 0, 0, 0)
  }

  function CompleteFlag(marks: seq<nat>, it: nat): ParsedFlag {
    if |marks| == 1 then ParsedFlag(true, marks[0], it)
    else if |marks| == 2 then ParsedFlag(false, marks[1], it)
    else ParsedFlag(false, 0, 0)
  }

  /** The marks that a tree leaves pending when it starts at token `pos`. */
  function MarksOf(src: Source, t: Tree, pos: nat): seq<nat> {
    match t
    case Leaf(_) => []
    case Node(nt, kids) =>
      if nt == QKeyName then [src.At(pos), src.At(pos + 1)]
      else if nt == OptQKeyName then (if Yields(kids) == [] then [] else [src.At(pos), src.At(pos + 1)])
      else if nt == Key && kids.Grove? then
        match Root(kids.first)
        case N(QKeyName) => [src.At(pos), src.At(pos + 1)]
        case N(DevOrKeyName) =>
          if Yields(kids.rest) == [] then []
          else [src.At(pos + |Yield(kids.first)|), src.At(pos + |Yield(kids.first)| + 1)]
        case _ => []
      else if nt == Flag && kids.Grove? && kids.first == Leaf(TILDE) then [src.At(pos + 1)]
      else []
  }

  /** What is found once `stack` has been run down over the forest `f`, from token `pos` on. */
  function Final(src: Source, stack: Stack, f: Forest, pos: nat, marks: seq<nat>,
                 keys: seq<ParsedKey>, flags: seq<ParsedFlag>): (seq<ParsedKey>, seq<ParsedFlag>)
    decreases stack
  {
    match stack
    case Nil => (keys, flags)
    case Cons(s, rest) =>
      if s == -1 then Final(src, rest, f, pos, marks + [src.At(pos)], keys, flags)
      else if s == -2 then Final(src, rest, f, pos, [], keys + [CompleteKey(marks, src.At(pos))], flags)
      else if s < 0 then Final(src, rest, f, pos, [], keys, flags + [CompleteFlag(marks, src.At(pos))])
      else
        match f
        case Bare => (keys, flags)
        case Grove(t, g) =>
          var marks' := marks + MarksOf(src, t, pos);
          if s == 13 || s == 25 then Final(src, rest, g, pos + |Yield(t)|, marks', keys, flags)
          else Final(src, rest, g, pos + |Yield(t)|, marks',
                     keys + KeysOf(src, t, pos), flags + FlagsOf(src, t, pos))
  }

  predicate KeyQuiet(s: Symbol) {
    s.T? || (s.nt != Binding && s.nt != Chord && s.nt != ChordTail && s.nt != Key)
  }

  predicate FlagQuiet(s: Symbol) {
    s.T? || (s.nt != Binding && s.nt != Predicate && s.nt != FlagList && s.nt != FlagListTail && s.nt != Flag)
  }

  predicate AllKeyQuiet(rhs: Side) {
    rhs.Seq? ==> KeyQuiet(rhs.head) && AllKeyQuiet(rhs.tail)
  }

  predicate AllFlagQuiet(rhs: Side) {
    rhs.Seq? ==> FlagQuiet(rhs.head) && AllFlagQuiet(rhs.tail)
  }

  /** The rules of quiet nonterminals have quiet symbols only: the right sides are short enough to list. */
  lemma KeyQuietRule(nt: NonTerminal, rhs: Side)
    requires Rule(nt, rhs) && KeyQuiet(N(nt))
    ensures AllKeyQuiet(rhs)
  {
    if rhs.Seq? && rhs.tail.Seq? {
      assert nt == Predicate ==> AllKeyQuiet(Three(N(FlagList), T(CLOSE), N(OptWhitespace)));
      assert AllKeyQuiet(rhs.tail);
    }
  }

  lemma FlagQuietRule(nt: NonTerminal, rhs: Side)
    requires Rule(nt, rhs) && FlagQuiet(N(nt))
    ensures AllFlagQuiet(rhs)
  {
    if rhs.Seq? && rhs.tail.Seq? {
      assert nt == ChordTail ==> AllFlagQuiet(Three(N(Key), N(OptWhitespace), N(ChordTail)));
      assert AllFlagQuiet(rhs.tail);
    }
  }

  /** Keys come only from the chord, and flags only from the predicate. */
  lemma {:induction false} QuietTree(src: Source, t: Tree, pos: nat)
    requires ValidTree(t)
    ensures KeyQuiet(Root(t)) ==> KeysOf(src, t, pos) == []
    ensures FlagQuiet(Root(t)) ==> FlagsOf(src, t, pos) == []
    decreases t
  {
    if t.Node? {
      if KeyQuiet(Root(t)) { KeyQuietRule(t.nt, Roots(t.kids)); }
      if FlagQuiet(Root(t)) { FlagQuietRule(t.nt, Roots(t.kids)); }
      QuietForest(src, t.kids, pos);
    }
  }

  lemma {:induction false} QuietForest(src: Source, f: Forest, pos: nat)
    requires ValidForest(f)
    ensures AllKeyQuiet(Roots(f)) ==> KeysOfForest(src, f, pos) == []
    ensures AllFlagQuiet(Roots(f)) ==> FlagsOfForest(src, f, pos) == []
    decreases f
  {
    if f.Grove? {
      QuietTree(src, f.first, pos);
      QuietForest(src, f.rest, pos + |Yield(f.first)|);
    }
  }

  /** The marks pending when a key is completed are those of its span. */
  lemma KeyMarks(src: Source, t: Tree, pos: nat)
    requires ValidTree(t) && t.Node? && t.nt == Key
    ensures t.kids.Grove?
    ensures |MarksOf(src, t, pos)| == 0 || |MarksOf(src, t, pos)| == 2
    ensures CompleteKey([src.At(pos)] + MarksOf(src, t, pos), src.At(pos + |Yield(t)|)) == KeySpan(src, t.kids, pos)
  {
  }

  lemma FlagMarks(src: Source, t: Tree, pos: nat)
    requires ValidTree(t) && t.Node? && t.nt == Flag
    ensures t.kids.Grove?
    ensures |MarksOf(src, t, pos)| <= 1
    ensures CompleteFlag([src.At(pos)] + MarksOf(src, t, pos), src.At(pos + |Yield(t)|)) == FlagSpan(src, t.kids, pos)
  {
  }

  lemma NothingAdded<X>(s: seq<X>)
    ensures s + [] == s
  {
  }

  /** States whose trees neither find nor mark anything. */
  predicate Silent(s: int) {
    0 <= s < 10 || 16 <= s < 22 || 26 <= s < 34
  }

  lemma SilentTree(src: Source, t: Tree, pos: nat)
    requires ValidTree(t) && Silent(StateOf(Root(t)))
    ensures KeysOf(src, t, pos) == [] && FlagsOf(src, t, pos) == [] && MarksOf(src, t, pos) == []
  {
    QuietTree(src, t, pos);
  }

  /** A symbol that neither finds nor marks anything only moves the position. */
  lemma FinalSilent(src: Source, t: Tree, rest: Stack, g: Forest, pos: nat, marks: seq<nat>,
                    keys: seq<ParsedKey>, flags: seq<ParsedFlag>)
    requires ValidTree(t) && Silent(StateOf(Root(t)))
    ensures Final(src, Cons(StateOf(Root(t)), rest), Grove(t, g), pos, marks, keys, flags) ==
            Final(src, rest, g, pos + |Yield(t)|, marks, keys, flags)
  {
    SilentTree(src, t, pos);
    NothingAdded(marks); NothingAdded(keys); NothingAdded(flags);
  }

  /** A symbol that may find keys or flags but leaves no marks. */
  lemma FinalFinds(src: Source, t: Tree, rest: Stack, g: Forest, pos: nat, marks: seq<nat>,
                   keys: seq<ParsedKey>, flags: seq<ParsedFlag>)
    requires 10 <= StateOf(Root(t)) < 13 || 22 <= StateOf(Root(t)) < 25
    requires t.Node?
    ensures Final(src, Cons(StateOf(Root(t)), rest), Grove(t, g), pos, marks, keys, flags) ==
            Final(src, rest, g, pos + |Yield(t)|, marks, keys + KeysOf(src, t, pos), flags + FlagsOf(src, t, pos))
  {
    NothingAdded(marks);
  }

  /** A symbol that only leaves marks. */
  lemma FinalMarks(src: Source, t: Tree, rest: Stack, g: Forest, pos: nat, marks: seq<nat>,
                   keys: seq<ParsedKey>, flags: seq<ParsedFlag>)
    requires ValidTree(t) && t.Node? && (13 <= State(t.nt) < 16 || State(t.nt) == 25)
    ensures Final(src, Cons(State(t.nt), rest), Grove(t, g), pos, marks, keys, flags) ==
            Final(src, rest, g, pos + |Yield(t)|, marks + MarksOf(src, t, pos), keys, flags)
  {
    QuietTree(src, t, pos);
    NothingAdded(keys); NothingAdded(flags);
  }

  /** A mark, a key and its completion find exactly the key's span. */
  lemma FinalKey(src: Source, t: Tree, rest: Stack, g: Forest, pos: nat, keys: seq<ParsedKey>, flags: seq<ParsedFlag>)
    requires ValidTree(t) && Root(t) == N(Key)
    ensures t.kids.Grove?
    ensures Final(src, Cons(-1, Cons(13, Cons(-2, rest))), Grove(t, g), pos, [], keys, flags) ==
            Final(src, rest, g, pos + |Yield(t)|, [], keys + [KeySpan(src, t.kids, pos)], flags)
  {
    var marks := [] + [src.At(pos)];
    assert marks == [src.At(pos)];
    KeyMarks(src, t, pos);
    FinalMarks(src, t, Cons(-2, rest), g, pos, marks, keys, flags);
    assert Final(src, Cons(-1, Cons(13, Cons(-2, rest))), Grove(t, g), pos, [], keys, flags) ==
           Final(src, Cons(13, Cons(-2, rest)), Grove(t, g), pos, marks, keys, flags);
  }

  lemma FinalFlag(src: Source, t: Tree, rest: Stack, g: Forest, pos: nat, keys: seq<ParsedKey>, flags: seq<ParsedFlag>)
    requires ValidTree(t) && Root(t) == N(Flag)
    ensures t.kids.Grove?
    ensures Final(src, Cons(-1, Cons(25, Cons(-3, rest))), Grove(t, g), pos, [], keys, flags) ==
            Final(src, rest, g, pos + |Yield(t)|, [], keys, flags + [FlagSpan(src, t.kids, pos)])
  {
    var marks := [] + [src.At(pos)];
    assert marks == [src.At(pos)];
    FlagMarks(src, t, pos);
    FinalMarks(src, t, Cons(-3, rest), g, pos, marks, keys, flags);
    assert Final(src, Cons(-1, Cons(25, Cons(-3, rest))), Grove(t, g), pos, [], keys, flags) ==
           Final(src, Cons(25, Cons(-3, rest)), Grove(t, g), pos, marks, keys, flags);
  }

  /** The children of a node whose rule has one, two or three symbols. */
  lemma OneKid(kids: Forest, a: Symbol)
    requires ValidForest(kids) && Roots(kids) == One(a)
    ensures kids.Grove? && kids == Grove(kids.first, Bare) && ValidTree(kids.first) && Root(kids.first) == a
  {
  }

  lemma TwoKids(kids: Forest, a: Symbol, b: Symbol)
    requires ValidForest(kids) && Roots(kids) == Two(a, b)
    ensures kids.Grove? && ValidTree(kids.first) && Root(kids.first) == a
    ensures ValidForest(kids.rest) && Roots(kids.rest) == One(b) && kids.rest.Grove?
    ensures kids == Grove(kids.first, Grove(kids.rest.first, Bare))
    ensures ValidTree(kids.rest.first) && Root(kids.rest.first) == b
  {
    OneKid(kids.rest, b);
  }

  lemma ThreeKids(kids: Forest, a: Symbol, b: Symbol, c: Symbol)
    requires ValidForest(kids) && Roots(kids) == Three(a, b, c)
    ensures kids.Grove? && ValidTree(kids.first) && Root(kids.first) == a
    ensures ValidForest(kids.rest) && Roots(kids.rest) == Two(b, c)
    ensures kids.rest.Grove? && kids.rest.rest.Grove?
    ensures kids == Grove(kids.first, Grove(kids.rest.first, Grove(kids.rest.rest.first, Bare)))
    ensures ValidTree(kids.rest.first) && Root(kids.rest.first) == b
    ensures ValidTree(kids.rest.rest.first) && Root(kids.rest.rest.first) == c
  {
    TwoKids(kids.rest, b, c);
  }

  lemma FiveKids(kids: Forest, a: Symbol, b: Symbol, c: Symbol, d: Symbol, e: Symbol)
    requires ValidForest(kids) && Roots(kids) == Five(a, b, c, d, e)
    ensures kids.Grove? && ValidTree(kids.first) && Root(kids.first) == a
    ensures kids.rest.Grove? && ValidTree(kids.rest.first) && Root(kids.rest.first) == b
    ensures ValidForest(kids.rest.rest) && Roots(kids.rest.rest) == Three(c, d, e)
  {
    assert ValidForest(kids.rest) && Roots(kids.rest) == Seq(b, Three(c, d, e));
  }

  /** The trees of a forest with three roots, and what the forest is when another follows it. */
  lemma {:induction false} ThreeTrees(kids: Forest, a: Symbol, b: Symbol, c: Symbol, g: Forest)
      returns (x: Tree, y: Tree, z: Tree)
    requires ValidForest(kids) && Roots(kids) == Three(a, b, c)
    ensures kids == Grove(x, Grove(y, Grove(z, Bare))) && Join(kids, g) == Grove(x, Grove(y, Grove(z, g)))
    ensures ValidTree(x) && Root(x) == a && ValidTree(y) && Root(y) == b && ValidTree(z) && Root(z) == c
  {
    ThreeKids(kids, a, b, c);
    x, y, z := kids.first, kids.rest.first, kids.rest.rest.first;
    assert Join(kids.rest.rest, g) == Grove(z, g);
  }

  lemma {:induction false} TwoTrees(kids: Forest, a: Symbol, b: Symbol, g: Forest) returns (x: Tree, y: Tree)
    requires ValidForest(kids) && Roots(kids) == Two(a, b)
    ensures kids == Grove(x, Grove(y, Bare)) && Join(kids, g) == Grove(x, Grove(y, g))
    ensures ValidTree(x) && Root(x) == a && ValidTree(y) && Root(y) == b
  {
    TwoKids(kids, a, b);
    x, y := kids.first, kids.rest.first;
    assert Join(kids.rest, g) == Grove(y, g);
  }

  lemma {:induction false} FiveTrees(kids: Forest, a: Symbol, b: Symbol, c: Symbol, d: Symbol, e: Symbol, g: Forest)
      returns (x: Tree, y: Tree, z: Tree, u: Tree, v: Tree)
    requires ValidForest(kids) && Roots(kids) == Five(a, b, c, d, e)
    ensures kids == Grove(x, Grove(y, Grove(z, Grove(u, Grove(v, Bare)))))
    ensures Join(kids, g) == Grove(x, Grove(y, Grove(z, Grove(u, Grove(v, g)))))
    ensures ValidTree(x) && Root(x) == a && ValidTree(y) && Root(y) == b && ValidTree(z) && Root(z) == c
    ensures ValidTree(u) && Root(u) == d && ValidTree(v) && Root(v) == e
  {
    FiveKids(kids, a, b, c, d, e);
    x, y := kids.first, kids.rest.first;
    z, u, v := ThreeTrees(kids.rest.rest, c, d, e, g);
    assert Join(kids.rest, g) == Grove(y, Join(kids.rest.rest, g));
  }

  lemma LeafOf(t: Tree, c: nat)
    requires ValidTree(t) && Root(t) == T(c)
    ensures t == Leaf(c)
  {
  }

  lemma ForestOfOne(src: Source, t: Tree, pos: nat)
    ensures Yields(Grove(t, Bare)) == Yield(t)
    ensures KeysOfForest(src, Grove(t, Bare), pos) == KeysOf(src, t, pos)
    ensures FlagsOfForest(src, Grove(t, Bare), pos) == FlagsOf(src, t, pos)
  {
  }

  lemma ForestOfMore(src: Source, t: Tree, f: Forest, pos: nat)
    ensures |Yields(Grove(t, f))| == |Yield(t)| + |Yields(f)|
    ensures KeysOfForest(src, Grove(t, f), pos) == KeysOf(src, t, pos) + KeysOfForest(src, f, pos + |Yield(t)|)
    ensures FlagsOfForest(src, Grove(t, f), pos) == FlagsOf(src, t, pos) + FlagsOfForest(src, f, pos + |Yield(t)|)
  {
    hide Yield, KeysOf, FlagsOf;
  }

  lemma NodeIsValid(node: Tree)
    requires ValidTree(node) && node.Node?
    ensures ValidForest(node.kids)
  {
  }

  /** A mark. */
  lemma FinalMark(src: Source, rest: Stack, f: Forest, pos: nat, marks: seq<nat>,
                  keys: seq<ParsedKey>, flags: seq<ParsedFlag>)
    ensures Final(src, Cons(-1, rest), f, pos, marks, keys, flags) ==
            Final(src, rest, f, pos, marks + [src.At(pos)], keys, flags)
  {
  }

  lemma QKeyKids(node: Tree, g: Forest)
    requires ValidTree(node) && Root(node) == N(QKeyName)
    ensures ValidForest(node.kids) && Roots(node.kids) == Two(T(COLON), N(UKeyName))
    ensures node.kids.Grove? && node.kids.rest.Grove? && node.kids.first == Leaf(COLON)
    ensures var name := node.kids.rest.first;
      && ValidTree(name) && Root(name) == N(UKeyName)
      && Join(node.kids, g) == Grove(Leaf(COLON), Grove(name, g))
      && |Yield(node)| == 1 + |Yield(name)|
  {
    TwoKids(node.kids, T(COLON), N(UKeyName));
    var name := node.kids.rest.first;
    assert Join(node.kids.rest, g) == Grove(name, g);
    assert Yields(node.kids.rest) == Yield(name) + [];
    assert Yields(node.kids) == [COLON] + Yields(node.kids.rest);
  }

  /** A qualified key name: a mark on either side of the colon. */
  lemma FinalQKey(src: Source, node: Tree, rest: Stack, g: Forest,
                  pos: nat, marks: seq<nat>, keys: seq<ParsedKey>, flags: seq<ParsedFlag>)
    requires ValidTree(node) && Root(node) == N(QKeyName)
    ensures Final(src, Cons(15, rest), Grove(node, g), pos, marks, keys, flags) ==
            Final(src, Cons(-1, Cons(1, Cons(-1, Cons(16, rest)))), Join(node.kids, g), pos, marks, keys, flags)
  {
    hide Final, Rule, KeysOf, FlagsOf, Yields, Join, Roots, ValidForest, KeysOfForest, FlagsOfForest;
    QKeyKids(node, g);
    var colon, name := node.kids.first, node.kids.rest.first;
    FinalMarks(src, node, rest, g, pos, marks, keys, flags);
    var m1 := marks + [src.At(pos)];
    var m2 := m1 + [src.At(pos + 1)];
    assert marks + MarksOf(src, node, pos) == m2;
    var s2 := Cons(-1, Cons(16, rest));
    FinalMark(src, Cons(1, s2), Grove(colon, Grove(name, g)), pos, marks, keys, flags);
    FinalSilent(src, colon, s2, Grove(name, g), pos, m1, keys, flags);
    FinalMark(src, Cons(16, rest), Grove(name, g), pos + 1, m1, keys, flags);
    FinalSilent(src, name, rest, g, pos + 1, m2, keys, flags);
  }

  lemma NoQKey(src: Source, node: Tree, g: Forest, pos: nat)
    requires node == Node(OptQKeyName, Bare)
    ensures Yield(node) == [] && MarksOf(src, node, pos) == [] && Join(node.kids, g) == g
  {
  }

  lemma {:induction false} QKeyTree(src: Source, node: Tree, g: Forest, pos: nat) returns (q: Tree)
    requires ValidTree(node) && Root(node) == N(OptQKeyName) && node.kids != Bare
    ensures ValidTree(q) && Root(q) == N(QKeyName) && q.Node? && Join(node.kids, g) == Grove(q, g)
    ensures Yield(node) == Yield(q) && MarksOf(src, node, pos) == MarksOf(src, q, pos)
  {
    hide Final, KeysOf, FlagsOf, KeysOfForest, FlagsOfForest;
    OneKid(node.kids, N(QKeyName));
    q := node.kids.first;
    ForestOfOne(src, q, pos);
    FirstOfTree(q);
  }

  lemma FinalOptQKey(src: Source, node: Tree, rest: Stack, g: Forest,
                     pos: nat, marks: seq<nat>, keys: seq<ParsedKey>, flags: seq<ParsedFlag>)
    requires ValidTree(node) && Root(node) == N(OptQKeyName)
    ensures Final(src, Cons(14, rest), Grove(node, g), pos, marks, keys, flags) ==
            Final(src, if node.kids == Bare then rest else Cons(15, rest), Join(node.kids, g), pos, marks, keys, flags)
  {
    hide Final, Rule, ValidTree, ValidForest, Roots, KeysOf, FlagsOf, MarksOf, Yield, Join;
    FinalMarks(src, node, rest, g, pos, marks, keys, flags);
    if node.kids == Bare {
      NoQKey(src, node, g, pos);
      NothingAdded(marks);
    } else {
      var q := QKeyTree(src, node, g, pos);
      FinalMarks(src, q, rest, g, pos, marks, keys, flags);
    }
  }

  /** A key that is a name, with or without a qualified part. */
  lemma FinalNamedKey(src: Source, node: Tree, rest: Stack, g: Forest,
                      pos: nat, marks: seq<nat>, keys: seq<ParsedKey>, flags: seq<ParsedFlag>)
    requires ValidTree(node) && Root(node) == N(Key) && Roots(node.kids) == Two(N(DevOrKeyName), N(OptQKeyName))
    ensures Final(src, Cons(13, rest), Grove(node, g), pos, marks, keys, flags) ==
            Final(src, Cons(18, Cons(14, rest)), Join(node.kids, g), pos, marks, keys, flags)
  {
    hide Final, Rule, ValidForest, Roots, KeysOf, FlagsOf, Yields, KeysOfForest, FlagsOfForest;
    FinalMarks(src, node, rest, g, pos, marks, keys, flags);
    assert ValidForest(node.kids) by { NodeIsValid(node); }
    TwoKids(node.kids, N(DevOrKeyName), N(OptQKeyName));
    var q, o := node.kids.first, node.kids.rest.first;
    ForestOfOne(src, o, pos + |Yield(q)|);
    ForestOfMore(src, q, node.kids.rest, pos);
    assert Join(node.kids.rest, g) == Grove(o, g);
    FinalSilent(src, q, Cons(14, rest), Grove(o, g), pos, marks, keys, flags);
    FinalMarks(src, o, rest, g, pos + |Yield(q)|, marks, keys, flags);
  }

  /** A key that is a single node, special or qualified. */
  lemma {:induction false} OnlyTree(src: Source, node: Tree, a: Symbol, g: Forest, pos: nat) returns (q: Tree)
    requires ValidTree(node) && Root(node) == N(Key)
    requires (a == N(QKeyName) || a == N(SpecialKeyName)) && Roots(node.kids) == One(a)
    ensures ValidTree(q) && Root(q) == a && q.Node? && Join(node.kids, g) == Grove(q, g) && Yield(node) == Yield(q)
    ensures MarksOf(src, node, pos) == if a == N(QKeyName) then MarksOf(src, q, pos) else []
  {
    hide Final, Rule, KeysOf, FlagsOf, KeysOfForest, FlagsOfForest;
    OneKid(node.kids, a);
    q := node.kids.first;
    ForestOfOne(src, q, pos);
    FirstOfTree(q);
  }

  lemma FinalPlainKey(src: Source, node: Tree, a: Symbol, rest: Stack, g: Forest,
                      pos: nat, marks: seq<nat>, keys: seq<ParsedKey>, flags: seq<ParsedFlag>)
    requires ValidTree(node) && Root(node) == N(Key)
    requires (a == N(QKeyName) || a == N(SpecialKeyName)) && Roots(node.kids) == One(a)
    ensures Final(src, Cons(13, rest), Grove(node, g), pos, marks, keys, flags) ==
            Final(src, Cons(StateOf(a), rest), Join(node.kids, g), pos, marks, keys, flags)
  {
    hide Final, Rule, ValidTree, ValidForest, Roots, KeysOf, FlagsOf, MarksOf, Yield, Join;
    FinalMarks(src, node, rest, g, pos, marks, keys, flags);
    var q := OnlyTree(src, node, a, g, pos);
    if a == N(QKeyName) {
      FinalMarks(src, q, rest, g, pos, marks, keys, flags);
    } else {
      NothingAdded(marks);
      FinalSilent(src, q, rest, g, pos, marks, keys, flags);
    }
  }

  /** The trees of a negated flag; it leaves a mark in front of the name. */
  lemma {:induction false} NegatedTrees(src: Source, node: Tree, g: Forest, pos: nat) returns (tilde: Tree, name: Tree)
    requires ValidTree(node) && Root(node) == N(Flag) && Roots(node.kids) == Two(T(TILDE), N(Name))
    ensures tilde == Leaf(TILDE) && ValidTree(tilde) && |Yield(tilde)| == 1
    ensures ValidTree(name) && Root(name) == N(Name)
    ensures Join(node.kids, g) == Grove(tilde, Grove(name, g))
    ensures |Yield(node)| == 1 + |Yield(name)| && MarksOf(src, node, pos) == [src.At(pos + 1)]
  {
    hide Rule, KeysOfForest, FlagsOfForest;
    tilde, name := TwoTrees(node.kids, T(TILDE), N(Name), g);
    LeafOf(tilde, TILDE);
    ForestOfOne(src, name, pos + 1);
    ForestOfMore(src, tilde, Grove(name, Bare), pos);
  }

  lemma FinalNegatedFlag(src: Source, node: Tree, rest: Stack, g: Forest,
                         pos: nat, marks: seq<nat>, keys: seq<ParsedKey>, flags: seq<ParsedFlag>)
    requires ValidTree(node) && Root(node) == N(Flag) && Roots(node.kids) == Two(T(TILDE), N(Name))
    ensures Final(src, Cons(25, rest), Grove(node, g), pos, marks, keys, flags) ==
            Final(src, Cons(7, Cons(-1, Cons(26, rest))), Join(node.kids, g), pos, marks, keys, flags)
  {
    hide Final, Rule, ValidTree, ValidForest, Roots, KeysOf, FlagsOf, MarksOf, Yield, Join;
    var tilde, name := NegatedTrees(src, node, g, pos);
    FinalMarks(src, node, rest, g, pos, marks, keys, flags);
    FinalSilent(src, tilde, Cons(-1, Cons(26, rest)), Grove(name, g), pos, marks, keys, flags);
    FinalMark(src, Cons(26, rest), Grove(name, g), pos + 1, marks, keys, flags);
    FinalSilent(src, name, rest, g, pos + 1, marks + [src.At(pos + 1)], keys, flags);
  }

  lemma FinalPlainFlag(src: Source, node: Tree, rest: Stack, g: Forest,
                       pos: nat, marks: seq<nat>, keys: seq<ParsedKey>, flags: seq<ParsedFlag>)
    requires ValidTree(node) && Root(node) == N(Flag) && Roots(node.kids) == One(N(Name))
    ensures Final(src, Cons(25, rest), Grove(node, g), pos, marks, keys, flags) ==
            Final(src, Cons(26, rest), Join(node.kids, g), pos, marks, keys, flags)
  {
    hide Final, Rule, KeysOf, FlagsOf, KeysOfForest, FlagsOfForest, Roots;
    FinalMarks(src, node, rest, g, pos, marks, keys, flags);
    OneKid(node.kids, N(Name));
    ForestOfOne(src, node.kids.first, pos);
    NothingAdded(marks);
    FinalSilent(src, node.kids.first, rest, g, pos, marks, keys, flags);
  }

  /** Only key and flag nodes are found; any other node finds what its children find. */
  lemma NodeFinds(src: Source, t: Tree, pos: nat)
    requires t.Node? && t.nt != Key && t.nt != Flag
    ensures Yield(t) == Yields(t.kids)
    ensures KeysOf(src, t, pos) == KeysOfForest(src, t.kids, pos)
    ensures FlagsOf(src, t, pos) == FlagsOfForest(src, t.kids, pos)
  {
  }

  /** A node stands for what its children find. */
  lemma NodeStandsFor(src: Source, t: Tree, rest: Stack, g: Forest, pos: nat,
                      keys: seq<ParsedKey>, flags: seq<ParsedFlag>)
    requires t.Node? && t.nt != Key && t.nt != Flag
    requires 10 <= StateOf(Root(t)) < 13 || 22 <= StateOf(Root(t)) < 25
    ensures Final(src, Cons(StateOf(Root(t)), rest), Grove(t, g), pos, [], keys, flags) ==
            Final(src, rest, g, pos + |Yields(t.kids)|, [],
                  keys + KeysOfForest(src, t.kids, pos), flags + FlagsOfForest(src, t.kids, pos))
  {
    hide Final;
    NodeFinds(src, t, pos);
    FinalFinds(src, t, rest, g, pos, [], keys, flags);
  }

  lemma KeyFinds(src: Source, key: Tree, pos: nat)
    requires ValidTree(key) && Root(key) == N(Key)
    ensures key.kids.Grove? && KeysOf(src, key, pos) == [KeySpan(src, key.kids, pos)] && FlagsOf(src, key, pos) == []
  {
    QuietTree(src, key, pos);
  }

  /** What the three trees of a chord find: the key of the first and whatever the last one finds. */
  lemma ChordFinds(src: Source, key: Tree, ws: Tree, tail: Tree, pos: nat)
    requires ValidTree(key) && Root(key) == N(Key) && ValidTree(ws) && Root(ws) == N(OptWhitespace)
    ensures key.kids.Grove?
    ensures var kids, p2 := Grove(key, Grove(ws, Grove(tail, Bare))), pos + |Yield(key)| + |Yield(ws)|;
      && |Yields(kids)| == |Yield(key)| + |Yield(ws)| + |Yield(tail)|
      && KeysOfForest(src, kids, pos) == [KeySpan(src, key.kids, pos)] + KeysOf(src, tail, p2)
      && FlagsOfForest(src, kids, pos) == FlagsOf(src, tail, p2)
  {
    hide ValidTree, Rule, KeysOf, FlagsOf;
    var p1 := pos + |Yield(key)|;
    KeyFinds(src, key, pos);
    SilentTree(src, ws, p1);
    ForestOfOne(src, tail, p1 + |Yield(ws)|);
    ForestOfMore(src, ws, Grove(tail, Bare), p1);
    ForestOfMore(src, key, Grove(ws, Grove(tail, Bare)), pos);
  }

  lemma FlagFinds(src: Source, flag: Tree, tail: Tree, pos: nat)
    requires ValidTree(flag) && Root(flag) == N(Flag)
    ensures flag.kids.Grove?
    ensures var kids, p1 := Grove(flag, Grove(tail, Bare)), pos + |Yield(flag)|;
      && |Yields(kids)| == |Yield(flag)| + |Yield(tail)|
      && KeysOfForest(src, kids, pos) == KeysOf(src, tail, p1)
      && FlagsOfForest(src, kids, pos) == [FlagSpan(src, flag.kids, pos)] + FlagsOf(src, tail, p1)
  {
    hide Rule, Yield, Yields, KeysOfForest, FlagsOfForest;
    FlagMarks(src, flag, pos);
    QuietTree(src, flag, pos);
    ForestOfOne(src, tail, pos + |Yield(flag)|);
    ForestOfMore(src, flag, Grove(tail, Bare), pos);
  }

  /** A mark, a key, its completion, whitespace and a tail: the keys of the three trees. */
  lemma FinalChordBody(src: Source, key: Tree, ws: Tree, tail: Tree, rest: Stack, g: Forest,
                       pos: nat, keys: seq<ParsedKey>, flags: seq<ParsedFlag>)
    requires ValidTree(key) && Root(key) == N(Key) && ValidTree(ws) && Root(ws) == N(OptWhitespace)
    requires Root(tail) == N(ChordTail)
    ensures var kids := Grove(key, Grove(ws, Grove(tail, Bare)));
      Final(src, Cons(-1, Cons(13, Cons(-2, Cons(33, Cons(12, rest))))), Grove(key, Grove(ws, Grove(tail, g))),
            pos, [], keys, flags) ==
      Final(src, rest, g, pos + |Yields(kids)|, [],
            keys + KeysOfForest(src, kids, pos), flags + FlagsOfForest(src, kids, pos))
  {
    hide Rule, ValidTree, MarksOf, KeysOf, FlagsOf, Final;
    var p1 := pos + |Yield(key)|;
    var p2 := p1 + |Yield(ws)|;
    ChordFinds(src, key, ws, tail, pos);
    FinalKey(src, key, Cons(33, Cons(12, rest)), Grove(ws, Grove(tail, g)), pos, keys, flags);
    var found := [KeySpan(src, key.kids, pos)];
    FinalSilent(src, ws, Cons(12, rest), Grove(tail, g), p1, [], keys + found, flags);
    FinalFinds(src, tail, rest, g, p2, [], keys + found, flags);
    assert (keys + found) + KeysOf(src, tail, p2) == keys + (found + KeysOf(src, tail, p2));
  }

  /** A mark, a flag, its completion and a tail. */
  lemma FinalFlagBody(src: Source, flag: Tree, tail: Tree, rest: Stack, g: Forest,
                      pos: nat, keys: seq<ParsedKey>, flags: seq<ParsedFlag>)
    requires ValidTree(flag) && Root(flag) == N(Flag) && Root(tail) == N(FlagListTail)
    ensures var kids := Grove(flag, Grove(tail, Bare));
      Final(src, Cons(-1, Cons(25, Cons(-3, Cons(24, rest)))), Grove(flag, Grove(tail, g)), pos, [], keys, flags) ==
      Final(src, rest, g, pos + |Yields(kids)|, [],
            keys + KeysOfForest(src, kids, pos), flags + FlagsOfForest(src, kids, pos))
  {
    hide Rule, ValidTree, MarksOf, KeysOf, FlagsOf, Final;
    FlagFinds(src, flag, tail, pos);
    FinalFlag(src, flag, Cons(24, rest), Grove(tail, g), pos, keys, flags);
    var found := [FlagSpan(src, flag.kids, pos)];
    FinalFinds(src, tail, rest, g, pos + |Yield(flag)|, [], keys, flags + found);
    var more := FlagsOf(src, tail, pos + |Yield(flag)|);
    assert (flags + found) + more == flags + (found + more);
  }

  /** What is in front of a body (a '+' and whitespace, or whitespace) finds nothing. */
  lemma FinalSkips(src: Source, t: Tree, f: Forest, stack: Stack, h: Forest, pos: nat,
                   keys: seq<ParsedKey>, flags: seq<ParsedFlag>)
    requires ValidTree(t) && Silent(StateOf(Root(t)))
    ensures Final(src, Cons(StateOf(Root(t)), stack), Grove(t, h), pos, [], keys, flags) ==
            Final(src, stack, h, pos + |Yield(t)|, [], keys, flags)
    ensures |Yields(Grove(t, f))| == |Yield(t)| + |Yields(f)|
    ensures KeysOfForest(src, Grove(t, f), pos) == KeysOfForest(src, f, pos + |Yield(t)|)
    ensures FlagsOfForest(src, Grove(t, f), pos) == FlagsOfForest(src, f, pos + |Yield(t)|)
  {
    FinalSilent(src, t, stack, h, pos, [], keys, flags);
    SilentTree(src, t, pos);
    ForestOfMore(src, t, f, pos);
  }

  lemma FinalSkipsTwo(src: Source, a: Tree, b: Tree, f: Forest, stack: Stack, h: Forest, pos: nat,
                      keys: seq<ParsedKey>, flags: seq<ParsedFlag>)
    requires ValidTree(a) && Silent(StateOf(Root(a))) && ValidTree(b) && Silent(StateOf(Root(b)))
    ensures var next := pos + |Yield(a)| + |Yield(b)|;
      && Final(src, Cons(StateOf(Root(a)), Cons(StateOf(Root(b)), stack)), Grove(a, Grove(b, h)),
               pos, [], keys, flags) ==
         Final(src, stack, h, next, [], keys, flags)
      && |Yields(Grove(a, Grove(b, f)))| == |Yield(a)| + |Yield(b)| + |Yields(f)|
      && KeysOfForest(src, Grove(a, Grove(b, f)), pos) == KeysOfForest(src, f, next)
      && FlagsOfForest(src, Grove(a, Grove(b, f)), pos) == FlagsOfForest(src, f, next)
  {
    hide ValidTree, Rule, Silent, StateOf, Yields, KeysOfForest, FlagsOfForest, Final;
    FinalSkips(src, a, Grove(b, f), Cons(StateOf(Root(b)), stack), Grove(b, h), pos, keys, flags);
    FinalSkips(src, b, f, stack, h, pos + |Yield(a)|, keys, flags);
  }

  /** An empty production finds nothing. */
  lemma FinalVanishes(src: Source, nt: NonTerminal, rest: Stack, g: Forest, pos: nat,
                      keys: seq<ParsedKey>, flags: seq<ParsedFlag>)
    requires nt == ChordTail || nt == Predicate || nt == FlagList || nt == FlagListTail
    ensures Final(src, Cons(State(nt), rest), Grove(Node(nt, Bare), g), pos, [], keys, flags) ==
            Final(src, rest, g, pos, [], keys, flags)
  {
    FinalFinds(src, Node(nt, Bare), rest, g, pos, [], keys, flags);
    NothingAdded(keys); NothingAdded(flags);
  }

  lemma ChordHasKids(node: Tree)
    requires ValidTree(node) && Root(node) == N(Chord)
    ensures node.kids.Grove?
  {
  }

  lemma {:induction false} ChordTrees(node: Tree, g: Forest) returns (key: Tree, ws: Tree, tail: Tree)
    requires ValidTree(node) && Root(node) == N(Chord)
    ensures node == Node(Chord, Grove(key, Grove(ws, Grove(tail, Bare))))
    ensures Join(node.kids, g) == Grove(key, Grove(ws, Grove(tail, g)))
    ensures ValidTree(key) && Root(key) == N(Key) && ValidTree(ws) && Root(ws) == N(OptWhitespace)
    ensures Root(tail) == N(ChordTail)
  {
    hide ValidTree, ValidForest, Rule, Roots, Join;
    ChordHasKids(node);
    SidesOf(node);
    key, ws, tail := ThreeTrees(node.kids, N(Key), N(OptWhitespace), N(ChordTail), g);
  }

  lemma FinalChord(src: Source, node: Tree, rest: Stack, g: Forest, pos: nat,
                   keys: seq<ParsedKey>, flags: seq<ParsedFlag>)
    requires ValidTree(node) && Root(node) == N(Chord)
    ensures Final(src, Cons(11, rest), Grove(node, g), pos, [], keys, flags) ==
            Final(src, Cons(-1, Cons(13, Cons(-2, Cons(33, Cons(12, rest))))), Join(node.kids, g), pos, [], keys, flags)
  {
    hide ValidTree, ValidForest, Rule, Roots, Yield, Yields, Join, KeysOfForest, FlagsOfForest, MarksOf, KeysOf,
      FlagsOf, Final;
    var key, ws, tail := ChordTrees(node, g);
    NodeStandsFor(src, node, rest, g, pos, keys, flags);
    FinalChordBody(src, key, ws, tail, rest, g, pos, keys, flags);
  }

  /** The right sides of the rules with several symbols, for nodes known to be nonempty. */
  lemma SidesOf(node: Tree)
    requires ValidTree(node) && node.Node? && node.kids.Grove?
    ensures ValidForest(node.kids)
    ensures node.nt == Binding ==> Roots(node.kids) == Three(N(OptWhitespace), N(Chord), N(Predicate))
    ensures node.nt == Chord ==> Roots(node.kids) == Three(N(Key), N(OptWhitespace), N(ChordTail))
    ensures node.nt == ChordTail ==>
      Roots(node.kids) == Five(T(PLUS), N(OptWhitespace), N(Key), N(OptWhitespace), N(ChordTail))
    ensures node.nt == Predicate ==>
      Roots(node.kids) == Five(T(OPEN), N(OptWhitespace), N(FlagList), T(CLOSE), N(OptWhitespace))
    ensures node.nt == FlagList ==> Roots(node.kids) == Two(N(Flag), N(FlagListTail))
    ensures node.nt == FlagListTail ==> Roots(node.kids) == Three(N(Whitespace), N(Flag), N(FlagListTail))
  {
  }

  /** The '+' and whitespace in front of a further key, and the key. */
  lemma FinalFurtherKey(src: Source, plus: Tree, ws0: Tree, key: Tree, ws: Tree, tail: Tree, rest: Stack, g: Forest,
                        pos: nat, keys: seq<ParsedKey>, flags: seq<ParsedFlag>)
    requires plus == Leaf(PLUS) && ValidTree(ws0) && Root(ws0) == N(OptWhitespace)
    requires ValidTree(key) && Root(key) == N(Key) && ValidTree(ws) && Root(ws) == N(OptWhitespace)
    requires Root(tail) == N(ChordTail)
    ensures var kids := Grove(plus, Grove(ws0, Grove(key, Grove(ws, Grove(tail, Bare)))));
      Final(src, Cons(0, Cons(33, Cons(-1, Cons(13, Cons(-2, Cons(33, Cons(12, rest))))))),
            Grove(plus, Grove(ws0, Grove(key, Grove(ws, Grove(tail, g))))), pos, [], keys, flags) ==
      Final(src, rest, g, pos + |Yields(kids)|, [],
            keys + KeysOfForest(src, kids, pos), flags + FlagsOfForest(src, kids, pos))
  {
    hide Rule, Yields, KeysOfForest, FlagsOfForest, MarksOf, KeysOf, FlagsOf, Final;
    var stack := Cons(-1, Cons(13, Cons(-2, Cons(33, Cons(12, rest)))));
    var body, h := Grove(key, Grove(ws, Grove(tail, Bare))), Grove(key, Grove(ws, Grove(tail, g)));
    FinalSkipsTwo(src, plus, ws0, body, stack, h, pos, keys, flags);
    FinalChordBody(src, key, ws, tail, rest, g, pos + |Yield(plus)| + |Yield(ws0)|, keys, flags);
  }

  lemma {:induction false} ChordTailTrees(node: Tree, g: Forest)
      returns (plus: Tree, ws0: Tree, key: Tree, ws: Tree, tail: Tree)
    requires ValidTree(node) && Root(node) == N(ChordTail) && node.kids.Grove?
    ensures node == Node(ChordTail, Grove(plus, Grove(ws0, Grove(key, Grove(ws, Grove(tail, Bare))))))
    ensures Join(node.kids, g) == Grove(plus, Grove(ws0, Grove(key, Grove(ws, Grove(tail, g)))))
    ensures plus == Leaf(PLUS) && ValidTree(ws0) && Root(ws0) == N(OptWhitespace)
    ensures ValidTree(key) && Root(key) == N(Key) && ValidTree(ws) && Root(ws) == N(OptWhitespace)
    ensures Root(tail) == N(ChordTail)
  {
    hide ValidTree, ValidForest, Rule, Roots, Join;
    SidesOf(node);
    plus, ws0, key, ws, tail :=
      FiveTrees(node.kids, T(PLUS), N(OptWhitespace), N(Key), N(OptWhitespace), N(ChordTail), g);
    LeafOf(plus, PLUS);
  }

  lemma FinalChordTail(src: Source, node: Tree, rest: Stack, g: Forest, pos: nat,
                       keys: seq<ParsedKey>, flags: seq<ParsedFlag>)
    requires ValidTree(node) && Root(node) == N(ChordTail) && node.kids.Grove?
    ensures Final(src, Cons(12, rest), Grove(node, g), pos, [], keys, flags) ==
            Final(src, Cons(0, Cons(33, Cons(-1, Cons(13, Cons(-2, Cons(33, Cons(12, rest))))))), Join(node.kids, g),
                  pos, [], keys, flags)
  {
    hide ValidTree, ValidForest, Rule, Roots, Yield, Yields, Join, KeysOfForest, FlagsOfForest, MarksOf, KeysOf,
      FlagsOf, Final;
    var plus, ws0, key, ws, tail := ChordTailTrees(node, g);
    NodeStandsFor(src, node, rest, g, pos, keys, flags);
    FinalFurtherKey(src, plus, ws0, key, ws, tail, rest, g, pos, keys, flags);
  }

  lemma {:induction false} FlagListTrees(node: Tree, g: Forest) returns (flag: Tree, tail: Tree)
    requires ValidTree(node) && Root(node) == N(FlagList) && node.kids.Grove?
    ensures node == Node(FlagList, Grove(flag, Grove(tail, Bare)))
    ensures Join(node.kids, g) == Grove(flag, Grove(tail, g))
    ensures ValidTree(flag) && Root(flag) == N(Flag) && Root(tail) == N(FlagListTail)
  {
    hide ValidTree, ValidForest, Rule, Roots, Join;
    SidesOf(node);
    flag, tail := TwoTrees(node.kids, N(Flag), N(FlagListTail), g);
  }

  lemma FinalFlagList(src: Source, node: Tree, rest: Stack, g: Forest, pos: nat,
                      keys: seq<ParsedKey>, flags: seq<ParsedFlag>)
    requires ValidTree(node) && Root(node) == N(FlagList) && node.kids.Grove?
    ensures Final(src, Cons(23, rest), Grove(node, g), pos, [], keys, flags) ==
            Final(src, Cons(-1, Cons(25, Cons(-3, Cons(24, rest)))), Join(node.kids, g), pos, [], keys, flags)
  {
    hide ValidTree, ValidForest, Rule, Roots, Yield, Yields, Join, KeysOfForest, FlagsOfForest, MarksOf, KeysOf,
      FlagsOf, Final;
    var flag, tail := FlagListTrees(node, g);
    NodeStandsFor(src, node, rest, g, pos, keys, flags);
    FinalFlagBody(src, flag, tail, rest, g, pos, keys, flags);
  }

  /** The whitespace in front of a further flag, and the flag. */
  lemma FinalFurtherFlag(src: Source, ws: Tree, flag: Tree, tail: Tree, rest: Stack, g: Forest, pos: nat,
                         keys: seq<ParsedKey>, flags: seq<ParsedFlag>)
    requires ValidTree(ws) && Root(ws) == N(Whitespace) && ValidTree(flag) && Root(flag) == N(Flag)
    requires Root(tail) == N(FlagListTail)
    ensures var kids := Grove(ws, Grove(flag, Grove(tail, Bare)));
      Final(src, Cons(32, Cons(-1, Cons(25, Cons(-3, Cons(24, rest))))), Grove(ws, Grove(flag, Grove(tail, g))),
            pos, [], keys, flags) ==
      Final(src, rest, g, pos + |Yields(kids)|, [],
            keys + KeysOfForest(src, kids, pos), flags + FlagsOfForest(src, kids, pos))
  {
    hide Rule, ValidTree, Yield, Yields, KeysOfForest, FlagsOfForest, MarksOf, KeysOf, FlagsOf, Final;
    var stack, body := Cons(-1, Cons(25, Cons(-3, Cons(24, rest)))), Grove(flag, Grove(tail, Bare));
    FinalSkips(src, ws, body, stack, Grove(flag, Grove(tail, g)), pos, keys, flags);
    FinalFlagBody(src, flag, tail, rest, g, pos + |Yield(ws)|, keys, flags);
  }

  lemma {:induction false} FlagListTailTrees(node: Tree, g: Forest) returns (ws: Tree, flag: Tree, tail: Tree)
    requires ValidTree(node) && Root(node) == N(FlagListTail) && node.kids.Grove?
    ensures node == Node(FlagListTail, Grove(ws, Grove(flag, Grove(tail, Bare))))
    ensures Join(node.kids, g) == Grove(ws, Grove(flag, Grove(tail, g)))
    ensures ValidTree(ws) && Root(ws) == N(Whitespace) && ValidTree(flag) && Root(flag) == N(Flag)
    ensures Root(tail) == N(FlagListTail)
  {
    hide ValidTree, ValidForest, Rule, Roots, Join;
    SidesOf(node);
    ws, flag, tail := ThreeTrees(node.kids, N(Whitespace), N(Flag), N(FlagListTail), g);
  }

  lemma FinalFlagListTail(src: Source, node: Tree, rest: Stack, g: Forest, pos: nat,
                          keys: seq<ParsedKey>, flags: seq<ParsedFlag>)
    requires ValidTree(node) && Root(node) == N(FlagListTail) && node.kids.Grove?
    ensures Final(src, Cons(24, rest), Grove(node, g), pos, [], keys, flags) ==
            Final(src, Cons(32, Cons(-1, Cons(25, Cons(-3, Cons(24, rest))))), Join(node.kids, g), pos, [], keys, flags)
  {
    hide ValidTree, ValidForest, Rule, Roots, Yield, Yields, Join, KeysOfForest, FlagsOfForest, MarksOf, KeysOf,
      FlagsOf, Final;
    var ws, flag, tail := FlagListTailTrees(node, g);
    NodeStandsFor(src, node, rest, g, pos, keys, flags);
    FinalFurtherFlag(src, ws, flag, tail, rest, g, pos, keys, flags);
  }

  lemma FinalPredicateBody(src: Source, open: Tree, ws0: Tree, list: Tree, close: Tree, ws: Tree, rest: Stack,
                           g: Forest, pos: nat, keys: seq<ParsedKey>, flags: seq<ParsedFlag>)
    requires open == Leaf(OPEN) && ValidTree(ws0) && Root(ws0) == N(OptWhitespace) && Root(list) == N(FlagList)
    requires close == Leaf(CLOSE) && ValidTree(ws) && Root(ws) == N(OptWhitespace)
    ensures var kids := Grove(open, Grove(ws0, Grove(list, Grove(close, Grove(ws, Bare)))));
      Final(src, Cons(2, Cons(33, Cons(23, Cons(3, Cons(33, rest))))),
            Grove(open, Grove(ws0, Grove(list, Grove(close, Grove(ws, g))))), pos, [], keys, flags) ==
      Final(src, rest, g, pos + |Yields(kids)|, [],
            keys + KeysOfForest(src, kids, pos), flags + FlagsOfForest(src, kids, pos))
  {
    hide Rule, Yields, KeysOfForest, FlagsOfForest, MarksOf, KeysOf, FlagsOf, Final;
    var stack, body := Cons(23, Cons(3, Cons(33, rest))), Grove(list, Grove(close, Grove(ws, Bare)));
    FinalSkipsTwo(src, open, ws0, body, stack, Grove(list, Grove(close, Grove(ws, g))), pos, keys, flags);
    FinalFlagsInside(src, list, close, ws, rest, g, pos + |Yield(open)| + |Yield(ws0)|, keys, flags);
  }

  lemma {:induction false} PredicateTrees(node: Tree, g: Forest)
      returns (open: Tree, ws0: Tree, list: Tree, close: Tree, ws: Tree)
    requires ValidTree(node) && Root(node) == N(Predicate) && node.kids.Grove?
    ensures node == Node(Predicate, Grove(open, Grove(ws0, Grove(list, Grove(close, Grove(ws, Bare))))))
    ensures Join(node.kids, g) == Grove(open, Grove(ws0, Grove(list, Grove(close, Grove(ws, g)))))
    ensures open == Leaf(OPEN) && ValidTree(ws0) && Root(ws0) == N(OptWhitespace) && Root(list) == N(FlagList)
    ensures close == Leaf(CLOSE) && ValidTree(ws) && Root(ws) == N(OptWhitespace)
  {
    hide ValidTree, ValidForest, Rule, Roots, Join;
    SidesOf(node);
    open, ws0, list, close, ws :=
      FiveTrees(node.kids, T(OPEN), N(OptWhitespace), N(FlagList), T(CLOSE), N(OptWhitespace), g);
    LeafOf(open, OPEN);
    LeafOf(close, CLOSE);
  }

  lemma FinalPredicate(src: Source, node: Tree, rest: Stack, g: Forest, pos: nat,
                       keys: seq<ParsedKey>, flags: seq<ParsedFlag>)
    requires ValidTree(node) && Root(node) == N(Predicate) && node.kids.Grove?
    ensures Final(src, Cons(22, rest), Grove(node, g), pos, [], keys, flags) ==
            Final(src, Cons(2, Cons(33, Cons(23, Cons(3, Cons(33, rest))))), Join(node.kids, g), pos, [], keys, flags)
  {
    hide ValidTree, ValidForest, Rule, Roots, Yield, Yields, Join, KeysOfForest, FlagsOfForest, MarksOf, KeysOf,
      FlagsOf, Final;
    var open, ws0, list, close, ws := PredicateTrees(node, g);
    NodeStandsFor(src, node, rest, g, pos, keys, flags);
    FinalPredicateBody(src, open, ws0, list, close, ws, rest, g, pos, keys, flags);
  }

  /** The flag list, the closing bracket and the whitespace behind it. */
  lemma FinalFlagsInside(src: Source, list: Tree, close: Tree, ws: Tree, rest: Stack, g: Forest, pos: nat,
                         keys: seq<ParsedKey>, flags: seq<ParsedFlag>)
    requires Root(list) == N(FlagList) && close == Leaf(CLOSE) && ValidTree(ws) && Root(ws) == N(OptWhitespace)
    ensures var kids := Grove(list, Grove(close, Grove(ws, Bare)));
      Final(src, Cons(23, Cons(3, Cons(33, rest))), Grove(list, Grove(close, Grove(ws, g))), pos, [], keys, flags) ==
      Final(src, rest, g, pos + |Yields(kids)|, [],
            keys + KeysOfForest(src, kids, pos), flags + FlagsOfForest(src, kids, pos))
  {
    hide Rule, ValidTree, MarksOf, KeysOf, FlagsOf, Final;
    var p1 := pos + |Yield(list)|;
    FinalFinds(src, list, Cons(3, Cons(33, rest)), Grove(close, Grove(ws, g)), pos, [], keys, flags);
    var ks, fs := keys + KeysOf(src, list, pos), flags + FlagsOf(src, list, pos);
    FinalSkips(src, close, Grove(ws, Bare), Cons(33, rest), Grove(ws, g), p1, ks, fs);
    FinalSkips(src, ws, Bare, rest, g, p1 + 1, ks, fs);
    ForestOfMore(src, list, Grove(close, Grove(ws, Bare)), pos);
    NothingAdded(KeysOf(src, list, pos)); NothingAdded(FlagsOf(src, list, pos));
  }

  /** What the three trees of a descriptor find. */
  lemma BindingFinds(src: Source, ws: Tree, chord: Tree, pred: Tree, pos: nat)
    requires ValidTree(ws) && Root(ws) == N(OptWhitespace)
    ensures var kids, p1 := Grove(ws, Grove(chord, Grove(pred, Bare))), pos + |Yield(ws)|;
      var p2 := p1 + |Yield(chord)|;
      && |Yields(kids)| == |Yield(ws)| + |Yield(chord)| + |Yield(pred)|
      && KeysOfForest(src, kids, pos) == KeysOf(src, chord, p1) + KeysOf(src, pred, p2)
      && FlagsOfForest(src, kids, pos) == FlagsOf(src, chord, p1) + FlagsOf(src, pred, p2)
  {
    hide Rule, ValidTree, Yields, KeysOf, FlagsOf, KeysOfForest, FlagsOfForest;
    var p1 := pos + |Yield(ws)|;
    SilentTree(src, ws, pos);
    ForestOfOne(src, pred, p1 + |Yield(chord)|);
    ForestOfMore(src, chord, Grove(pred, Bare), p1);
    ForestOfMore(src, ws, Grove(chord, Grove(pred, Bare)), pos);
  }

  lemma FinalBindingBody(src: Source, ws: Tree, chord: Tree, pred: Tree, rest: Stack, g: Forest, pos: nat,
                         keys: seq<ParsedKey>, flags: seq<ParsedFlag>)
    requires ValidTree(ws) && Root(ws) == N(OptWhitespace) && Root(chord) == N(Chord) && Root(pred) == N(Predicate)
    ensures var kids := Grove(ws, Grove(chord, Grove(pred, Bare)));
      Final(src, Cons(33, Cons(11, Cons(22, rest))), Grove(ws, Grove(chord, Grove(pred, g))), pos, [], keys, flags) ==
      Final(src, rest, g, pos + |Yields(kids)|, [],
            keys + KeysOfForest(src, kids, pos), flags + FlagsOfForest(src, kids, pos))
  {
    hide ValidTree, Rule, Yield, Yields, KeysOfForest, FlagsOfForest, MarksOf, KeysOf, FlagsOf, Final;
    BindingFinds(src, ws, chord, pred, pos);
    var p1 := pos + |Yield(ws)|;
    var p2 := p1 + |Yield(chord)|;
    FinalSilent(src, ws, Cons(11, Cons(22, rest)), Grove(chord, Grove(pred, g)), pos, [], keys, flags);
    FinalFinds(src, chord, Cons(22, rest), Grove(pred, g), p1, [], keys, flags);
    var ks, fs := KeysOf(src, chord, p1), FlagsOf(src, chord, p1);
    FinalFinds(src, pred, rest, g, p2, [], keys + ks, flags + fs);
    assert keys + ks + KeysOf(src, pred, p2) == keys + (ks + KeysOf(src, pred, p2));
    assert flags + fs + FlagsOf(src, pred, p2) == flags + (fs + FlagsOf(src, pred, p2));
  }

  lemma {:induction false} BindingTrees(node: Tree, g: Forest) returns (ws: Tree, chord: Tree, pred: Tree)
    requires ValidTree(node) && Root(node) == N(Binding) && node.kids.Grove?
    ensures node == Node(Binding, Grove(ws, Grove(chord, Grove(pred, Bare))))
    ensures Join(node.kids, g) == Grove(ws, Grove(chord, Grove(pred, g)))
    ensures ValidTree(ws) && Root(ws) == N(OptWhitespace) && Root(chord) == N(Chord) && Root(pred) == N(Predicate)
  {
    hide ValidTree, ValidForest, Rule, Roots, Join;
    SidesOf(node);
    ws, chord, pred := ThreeTrees(node.kids, N(OptWhitespace), N(Chord), N(Predicate), g);
  }

  lemma FinalBinding(src: Source, node: Tree, rest: Stack, g: Forest, pos: nat,
                     keys: seq<ParsedKey>, flags: seq<ParsedFlag>)
    requires ValidTree(node) && Root(node) == N(Binding) && node.kids.Grove?
    ensures Final(src, Cons(10, rest), Grove(node, g), pos, [], keys, flags) ==
            Final(src, Cons(33, Cons(11, Cons(22, rest))), Join(node.kids, g), pos, [], keys, flags)
  {
    hide ValidTree, ValidForest, Rule, Roots, Yield, Yields, Join, KeysOfForest, FlagsOfForest, MarksOf, KeysOf,
      FlagsOf, Final;
    var ws, chord, pred := BindingTrees(node, g);
    NodeStandsFor(src, node, rest, g, pos, keys, flags);
    FinalBindingBody(src, ws, chord, pred, rest, g, pos, keys, flags);
  }

  /** The productions of silent states push at most two silent symbols. */
  lemma ProductionsOfKeyNames(nt: NonTerminal, p: nat, rest: Stack)
    requires 0 < p < 31 && Allowed(nt, p) && Silent(State(nt))
    requires p < 20
    ensures var side := RuleSide(p);
      && side.Seq? && Silent(StateOf(side.head))
      && if side.tail == Eps then Pushed(p, rest) == Cons(StateOf(side.head), rest)
         else side.tail.tail == Eps && Silent(StateOf(side.tail.head)) &&
              Pushed(p, rest) == Cons(StateOf(side.head), Cons(StateOf(side.tail.head), rest))
  {
  }

  lemma ProductionsOfOthers(nt: NonTerminal, p: nat, rest: Stack)
    requires 0 < p < 31 && Allowed(nt, p) && Silent(State(nt))
    requires 20 <= p
    ensures var side := RuleSide(p);
      && side.Seq? && Silent(StateOf(side.head))
      && if side.tail == Eps then Pushed(p, rest) == Cons(StateOf(side.head), rest)
         else side.tail.tail == Eps && Silent(StateOf(side.tail.head)) &&
              Pushed(p, rest) == Cons(StateOf(side.head), Cons(StateOf(side.tail.head), rest))
  {
  }

  lemma ProductionsOfNames(nt: NonTerminal, p: nat, rest: Stack)
    requires 0 < p < 31 && Allowed(nt, p) && Silent(State(nt))
    ensures var side := RuleSide(p);
      && side.Seq? && Silent(StateOf(side.head))
      && if side.tail == Eps then Pushed(p, rest) == Cons(StateOf(side.head), rest)
         else side.tail.tail == Eps && Silent(StateOf(side.tail.head)) &&
              Pushed(p, rest) == Cons(StateOf(side.head), Cons(StateOf(side.tail.head), rest))
  {
    hide Allowed, RuleSide, Pushed, Silent;
    if p < 20 { ProductionsOfKeyNames(nt, p, rest); } else { ProductionsOfOthers(nt, p, rest); }
  }

  lemma FinalNames(src: Source, node: Tree, p: nat, rest: Stack, g: Forest,
                   pos: nat, marks: seq<nat>, keys: seq<ParsedKey>, flags: seq<ParsedFlag>)
    requires ValidTree(node) && node.Node? && Silent(State(node.nt))
    requires p < 31 && Allowed(node.nt, p) && Roots(node.kids) == RuleSide(p)
    ensures Final(src, Cons(State(node.nt), rest), Grove(node, g), pos, marks, keys, flags) ==
            Final(src, Pushed(p, rest), Join(node.kids, g), pos, marks, keys, flags)
  {
    hide Rule, RuleSide, Pushed, Final, MarksOf, KeysOf, FlagsOf, Allowed;
    var kids := node.kids;
    FinalSilent(src, node, rest, g, pos, marks, keys, flags);
    if p == 0 {
      assert RuleSide(0) == Eps && Pushed(0, rest) == rest by { EmptyProduction(rest); }
    } else {
      ProductionsOfNames(node.nt, p, rest);
      var side := RuleSide(p);
      if side.tail == Eps {
        OneKid(kids, side.head);
        ForestOfOne(src, kids.first, pos);
        FinalSilent(src, kids.first, rest, g, pos, marks, keys, flags);
      } else {
        TwoKids(kids, side.head, side.tail.head);
        ForestOfOne(src, kids.rest.first, pos);
        ForestOfMore(src, kids.first, kids.rest, pos);
        assert Join(kids.rest, g) == Grove(kids.rest.first, g);
        FinalSilent(src, kids.first, Cons(StateOf(side.tail.head), rest), Grove(kids.rest.first, g),
                    pos, marks, keys, flags);
        FinalSilent(src, kids.rest.first, rest, g, pos + |Yield(kids.first)|, marks, keys, flags);
      }
    }
  }

  lemma EmptyProduction(rest: Stack)
    ensures RuleSide(0) == Eps && Pushed(0, rest) == rest
  {
  }

  /** Replacing the top state by a production, and a node by its children, does not change what is
      finally found: the semantic actions in the production table compute exactly the spans. */
  lemma FinalExpand(src: Source, node: Tree, p: nat, rest: Stack, g: Forest,
                    pos: nat, marks: seq<nat>, keys: seq<ParsedKey>, flags: seq<ParsedFlag>)
    requires ValidTree(node) && node.Node? && p < 31 && Allowed(node.nt, p) && Roots(node.kids) == RuleSide(p)
    requires State(node.nt) < 13 || 22 <= State(node.nt) < 25 ==> marks == []
    ensures Final(src, Cons(State(node.nt), rest), Grove(node, g), pos, marks, keys, flags) ==
            Final(src, Pushed(p, rest), Join(node.kids, g), pos, marks, keys, flags)
  {
    hide Rule, Final, MarksOf, KeysOf, FlagsOf, ValidForest;
    if Silent(State(node.nt)) {
      FinalNames(src, node, p, rest, g, pos, marks, keys, flags);
    } else {
      match node.nt
      case Binding => FinalBinding(src, node, rest, g, pos, keys, flags);
      case Chord => FinalChord(src, node, rest, g, pos, keys, flags);
      case ChordTail =>
        if p == 0 { FinalVanishes(src, ChordTail, rest, g, pos, keys, flags); }
        else { FinalChordTail(src, node, rest, g, pos, keys, flags); }
      case Key =>
        if p == 5 { FinalNamedKey(src, node, rest, g, pos, marks, keys, flags); }
        else { FinalPlainKey(src, node, RuleSide(p).head, rest, g, pos, marks, keys, flags); }
      case OptQKeyName => FinalOptQKey(src, node, rest, g, pos, marks, keys, flags);
      case QKeyName => FinalQKey(src, node, rest, g, pos, marks, keys, flags);
      case Predicate =>
        if p == 0 { FinalVanishes(src, Predicate, rest, g, pos, keys, flags); }
        else { FinalPredicate(src, node, rest, g, pos, keys, flags); }
      case FlagList =>
        if p == 0 { FinalVanishes(src, FlagList, rest, g, pos, keys, flags); }
        else { FinalFlagList(src, node, rest, g, pos, keys, flags); }
      case FlagListTail =>
        if p == 0 { FinalVanishes(src, FlagListTail, rest, g, pos, keys, flags); }
        else { FinalFlagListTail(src, node, rest, g, pos, keys, flags); }
      case Flag =>
        if p == 24 { FinalNegatedFlag(src, node, rest, g, pos, marks, keys, flags); }
        else { FinalPlainFlag(src, node, rest, g, pos, marks, keys, flags); }
      case _ =>
    }
  }
}
