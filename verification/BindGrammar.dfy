/** The formal grammar of binding descriptors and the meaning of its derivation trees.

    Nothing here mentions the parse table: the rules are read off the grammar comment that heads
    core/src/binding_manager.cpp, and `KeysOf` and `FlagsOf` say which stretches of the source a
    derivation tree calls a device, a key and a flag name. */
module BindGrammar {

  /** Token classes, numbered as `next_token` numbers them. */
  const PLUS := 0
  const COLON := 1
  const OPEN := 2
  const CLOSE := 3
  const LETTER_M := 4
  const LETTER_N := 5
  const LETTER_U := 6
  const TILDE := 7
  const SPACE := 8
  const OTHER := 9
  /** The pseudo token class of the end of the source. */
  const END := 10

  /** A tokenised descriptor: `offsets[k]` is where token `k` begins, and the last entry is the size. */
  datatype Source = Source(classes: seq<nat>, offsets: seq<nat>) {
    predicate Valid() {
      && |offsets| == |classes| + 1
      && offsets[0] == 0
      && (forall k :: 0 <= k < |classes| ==> classes[k] < END)
      && (forall i, j :: 0 <= i < j < |offsets| ==> offsets[i] < offsets[j])
    }

    /** The offset of token position `k`, total so that it can be used in specifications. */
    function At(k: nat): (at: nat)
      ensures k < |offsets| ==> at == offsets[k]
    {
      if k < |offsets| then offsets[k] else 0
    }

    /** The class of the lookahead token at position `k`. */
    function Class(k: nat): (c: nat)
      requires Valid()
      ensures c <= END && (c == END <==> |classes| <= k)
    {
      if k < |classes| then classes[k] else END
    }
  }

  datatype NonTerminal =
    | Binding | Chord | ChordTail | Key | OptQKeyName | QKeyName | UKeyName | SpecialKeyName
    | DevOrKeyName | DevOrKeyNameN | DevOrKeyNameU | DevOrKeyNameM
    | Predicate | FlagList | FlagListTail | Flag
    | Name | OptName | NameChar | NameCharMN | NameCharMU | NameCharNU
    | Whitespace | OptWhitespace

  datatype Symbol = T(cls: nat) | N(nt: NonTerminal)

  /** The right side of a rule. */
  datatype Side = Eps | Seq(head: Symbol, tail: Side)

  function One(a: Symbol): Side { Seq(a, Eps) }
  function Two(a: Symbol, b: Symbol): Side { Seq(a, One(b)) }
  function Three(a: Symbol, b: Symbol, c: Symbol): Side { Seq(a, Two(b, c)) }
  function Five(a: Symbol, b: Symbol, c: Symbol, d: Symbol, e: Symbol): Side {
    Seq(a, Seq(b, Three(c, d, e)))
  }

  /** `lhs → rhs` is a rule of the grammar. */
  predicate Rule(lhs: NonTerminal, rhs: Side) {
    match lhs
    case Binding => rhs == Three(N(OptWhitespace), N(Chord), N(Predicate))
    case Chord => rhs == Three(N(Key), N(OptWhitespace), N(ChordTail))
    case ChordTail =>
      || rhs == Five(T(PLUS), N(OptWhitespace), N(Key), N(OptWhitespace), N(ChordTail))
      || rhs == Eps
    case Key =>
      || rhs == One(N(QKeyName))
      || rhs == Two(N(DevOrKeyName), N(OptQKeyName))
      || rhs == One(N(SpecialKeyName))
    case OptQKeyName => rhs == One(N(QKeyName)) || rhs == Eps
    case QKeyName => rhs == Two(T(COLON), N(UKeyName))
    case UKeyName =>
      rhs == One(T(COLON)) || rhs == One(N(SpecialKeyName)) || rhs == One(N(DevOrKeyName))
    case SpecialKeyName =>
      rhs == One(T(PLUS)) || rhs == One(T(OPEN)) || rhs == One(T(CLOSE)) || rhs == One(T(TILDE))
    case DevOrKeyName =>
      rhs == Two(N(NameCharMU), N(OptName)) || rhs == Two(T(LETTER_N), N(DevOrKeyNameN))
    case DevOrKeyNameN =>
      || rhs == Two(T(LETTER_U), N(DevOrKeyNameU))
      || rhs == Two(N(NameCharMN), N(OptName))
      || rhs == Eps
    case DevOrKeyNameU =>
      || rhs == Two(T(LETTER_M), N(DevOrKeyNameM))
      || rhs == Two(N(NameCharNU), N(OptName))
      || rhs == Eps
    case DevOrKeyNameM => rhs == One(T(PLUS)) || rhs == One(N(Name))
    case Predicate =>
      || rhs == Five(T(OPEN), N(OptWhitespace), N(FlagList), T(CLOSE), N(OptWhitespace))
      || rhs == Eps
    case FlagList => rhs == Two(N(Flag), N(FlagListTail)) || rhs == Eps
    case FlagListTail => rhs == Three(N(Whitespace), N(Flag), N(FlagListTail)) || rhs == Eps
    case Flag => rhs == One(N(Name)) || rhs == Two(T(TILDE), N(Name))
    case Name => rhs == Two(N(NameChar), N(OptName))
    case OptName => rhs == Two(N(NameChar), N(OptName)) || rhs == Eps
    case NameChar =>
      rhs == One(T(LETTER_M)) || rhs == One(T(LETTER_N)) || rhs == One(T(LETTER_U)) || rhs == One(T(OTHER))
    case NameCharMN => rhs == One(T(LETTER_M)) || rhs == One(T(LETTER_N)) || rhs == One(T(OTHER))
    case NameCharMU => rhs == One(T(LETTER_M)) || rhs == One(T(LETTER_U)) || rhs == One(T(OTHER))
    case NameCharNU => rhs == One(T(LETTER_N)) || rhs == One(T(LETTER_U)) || rhs == One(T(OTHER))
    case Whitespace => rhs == Two(T(SPACE), N(OptWhitespace))
    case OptWhitespace => rhs == Two(T(SPACE), N(OptWhitespace)) || rhs == Eps
  }

  /** Derivation trees and forests. */
  datatype Tree = Leaf(cls: nat) | Node(nt: NonTerminal, kids: Forest)
  datatype Forest = Bare | Grove(first: Tree, rest: Forest)

  function Root(t: Tree): Symbol {
    match t
    case Leaf(c) => T(c)
    case Node(nt, _) => N(nt)
  }

  function Roots(f: Forest): Side {
    match f
    case Bare => Eps
    case Grove(t, rest) => Seq(Root(t), Roots(rest))
  }

  /** Every node applies a rule of the grammar. */
  predicate ValidTree(t: Tree) {
    match t
    case Leaf(c) => c < END
    case Node(nt, kids) => ValidForest(kids) && Rule(nt, Roots(kids))
  }

  predicate ValidForest(f: Forest) {
    match f
    case Bare => true
    case Grove(t, rest) => ValidTree(t) && ValidForest(rest)
  }

  /** The token classes a tree derives. */
  function Yield(t: Tree): seq<nat> {
    match t
    case Leaf(c) => [c]
    case Node(_, kids) => Yields(kids)
  }

  function Yields(f: Forest): seq<nat> {
    match f
    case Bare => []
    case Grove(t, rest) => Yield(t) + Yields(rest)
  }

  /** `t` is a derivation of `w` from the start symbol. */
  predicate Derives(t: Tree, w: seq<nat>) {
    t.Node? && t.nt == Binding && ValidTree(t) && Yield(t) == w
  }

  ghost predicate Derivable(w: seq<nat>) {
    exists t :: Derives(t, w)
  }

  /** `w` can be continued to a derivable descriptor. */
  ghost predicate Viable(w: seq<nat>) {
    exists t, v :: Derives(t, w + v)
  }

  /** A key found in the source, as a pair of half-open offset ranges: the device name (empty and equal
      to the key's own beginning when the key is not qualified) and the key name. */
  datatype ParsedKey = ParsedKey(deviceBegin: nat, deviceEnd: nat, keyBegin: nat, keyEnd: nat)

  /** A flag found in the source. The field keeps its name in the source: it is the value the flag must
      have, so it is false exactly for a name behind '~'. */
  datatype ParsedFlag = ParsedFlag(negated: bool, nameBegin: nat, nameEnd: nat)

  /** The key that a `Key` node with these children spans when it starts at token `pos`. */
  function KeySpan(src: Source, kids: Forest, pos: nat): ParsedKey
    requires kids.Grove?
  {
    var b, e := src.At(pos), src.At(pos + |Yields(kids)|);
    match Root(kids.first)
    case N(QKeyName) => ParsedKey(b, b, src.At(pos + 1), e)
    case N(DevOrKeyName) =>
      if Yields(kids.rest) == [] then ParsedKey(b, b, b, e)
      else
        var colon := pos + |Yield(kids.first)|;
        ParsedKey(b, src.At(colon), src.At(colon + 1), e)
    case _ => ParsedKey(b, b, b, e)
  }

  /** The keys of a derivation tree that starts at token `pos`, left to right. */
  function KeysOf(src: Source, t: Tree, pos: nat): seq<ParsedKey> {
    match t
    case Leaf(_) => []
    case Node(nt, kids) =>
      if nt == Key && kids.Grove? then [KeySpan(src, kids, pos)] else KeysOfForest(src, kids, pos)
  }

  function KeysOfForest(src: Source, f: Forest, pos: nat): seq<ParsedKey> {
    match f
    case Bare => []
    case Grove(t, rest) => KeysOf(src, t, pos) + KeysOfForest(src, rest, pos + |Yield(t)|)
  }

  function FlagSpan(src: Source, kids: Forest, pos: nat): ParsedFlag
    requires kids.Grove?
  {
    var e := src.At(pos + |Yields(kids)|);
    if kids.first == Leaf(TILDE) then ParsedFlag(false, src.At(pos + 1), e) else ParsedFlag(true, src.At(pos), e)
  }

  /** The flags of a derivation tree that starts at token `pos`, left to right. */
  function FlagsOf(src: Source, t: Tree, pos: nat): seq<ParsedFlag> {
    match t
    case Leaf(_) => []
    case Node(nt, kids) =>
      if nt == Flag && kids.Grove? then [FlagSpan(src, kids, pos)] else FlagsOfForest(src, kids, pos)
  }

  function FlagsOfForest(src: Source, f: Forest, pos: nat): seq<ParsedFlag> {
    match f
    case Bare => []
    case Grove(t, rest) => FlagsOf(src, t, pos) + FlagsOfForest(src, rest, pos + |Yield(t)|)
  }
}
