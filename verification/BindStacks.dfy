/** What the parse loop keeps true of its stack: how many marks are pending at every action, what can
    follow every symbol, and a rank that falls whenever the loop runs without taking a token. */
module BindStacks {
  import opened BindGrammar
  import opened BindTables

  /** `stack` can be run down from `m` pending marks: whatever its symbols do, a key is completed with
      one or three marks and a flag with one or two, no entry is anything but a state or one of the
      three actions, and nothing is left pending at the end. */
  ghost predicate Typed(stack: Stack, m: nat) {
    match stack
    case Nil => m == 0
    case Cons(s, rest) =>
      if s == -1 then Typed(rest, m + 1)
      else if s == -2 then (m == 1 || m == 3) && Typed(rest, 0)
      else if s == -3 then (m == 1 || m == 2) && Typed(rest, 0)
      else if s == 10 || s == 22 then m == 0 && rest == Nil
      else if s == 11 || s == 12 then m == 0 && rest == Cons(22, Nil)
      else if s == 13 || s == 14 then Typed(rest, m) && Typed(rest, m + 2)
      else if s == 15 then Typed(rest, m + 2)
      else if s == 23 || s == 24 then m == 0 && rest == Cons(3, Cons(33, Nil))
      else if s == 25 then Typed(rest, m) && Typed(rest, m + 1)
      else 0 <= s < 34 && Typed(rest, m)
  }

  /** The nonterminal of a state. */
  function NonTerminalOf(s: nat): (nt: NonTerminal)
    requires 10 <= s < 34
    ensures State(nt) == s
  {
    match s
    case 10 => Binding case 11 => Chord case 12 => ChordTail case 13 => Key
    case 14 => OptQKeyName case 15 => QKeyName case 16 => UKeyName case 17 => SpecialKeyName
    case 18 => DevOrKeyName case 19 => DevOrKeyNameN case 20 => DevOrKeyNameU case 21 => DevOrKeyNameM
    case 22 => Predicate case 23 => FlagList case 24 => FlagListTail case 25 => Flag
    case 26 => Name case 27 => OptName case 28 => NameChar case 29 => NameCharMN
    case 30 => NameCharMU case 31 => NameCharNU case 32 => Whitespace case _ => OptWhitespace
  }

  lemma TypedChords(nt: NonTerminal, p: nat, rest: Stack, m: nat)
    requires nt == Binding || nt == Chord || nt == ChordTail
    requires p < 31 && Allowed(nt, p) && Typed(Cons(State(nt), rest), m)
    ensures Typed(Pushed(p, rest), m)
  {
    if nt == Binding {
      assert Typed(Cons(11, Cons(22, rest)), 0);
    } else {
      var tail := Cons(33, Cons(12, rest));
      assert Typed(Cons(12, rest), 0);
      assert Typed(Cons(-2, tail), 1) && Typed(Cons(-2, tail), 3);
      assert Typed(Cons(-1, Cons(13, Cons(-2, tail))), 0) by {
        assert Typed(Cons(13, Cons(-2, tail)), 1);
      }
      assert Typed(Cons(33, Cons(-1, Cons(13, Cons(-2, tail)))), 0);
      assert Typed(rest, 0);
    }
  }

  lemma TypedFlags(nt: NonTerminal, p: nat, rest: Stack, m: nat)
    requires nt == Predicate || nt == FlagList || nt == FlagListTail || nt == Flag
    requires p < 31 && Allowed(nt, p) && Typed(Cons(State(nt), rest), m)
    ensures Typed(Pushed(p, rest), m)
  {
    if nt == Predicate {
      var close := Cons(3, Cons(33, Nil));
      assert Typed(Cons(23, close), 0);
      assert Typed(Cons(33, Cons(23, close)), 0);
    } else if nt == Flag {
      assert Typed(Cons(-1, Cons(26, rest)), m) by { assert Typed(Cons(26, rest), m + 1); }
    } else {
      assert Typed(Cons(33, Nil), 0);
      assert Typed(rest, 0);
      assert Typed(Cons(24, rest), 0);
      assert Typed(Cons(-3, Cons(24, rest)), 1) && Typed(Cons(-3, Cons(24, rest)), 2);
      assert Typed(Cons(25, Cons(-3, Cons(24, rest))), 1);
      assert Typed(Cons(-1, Cons(25, Cons(-3, Cons(24, rest)))), 0);
    }
  }

  lemma TypedNames(nt: NonTerminal, p: nat, rest: Stack, m: nat)
    requires 13 <= State(nt) < 22 || 25 < State(nt)
    requires p < 31 && Allowed(nt, p) && Typed(Cons(State(nt), rest), m)
    ensures Typed(Pushed(p, rest), m)
  {
    if nt == Key {
      assert Typed(Cons(14, rest), m);
    } else if nt == QKeyName {
      assert Typed(Cons(16, rest), m + 2);
      assert Typed(Cons(1, Cons(-1, Cons(16, rest))), m + 1) by {
        assert Typed(Cons(-1, Cons(16, rest)), m + 1);
      }
    } else {
      assert nt != OptQKeyName ==> Typed(rest, m);
      TypedPair(nt, p, rest, m);
    }
  }

  lemma TypedPair(nt: NonTerminal, p: nat, rest: Stack, m: nat)
    requires State(nt) == 14 || 16 <= State(nt) < 22 || 25 < State(nt)
    requires p < 31 && Allowed(nt, p) && Typed(Cons(State(nt), rest), m)
    ensures Typed(Pushed(p, rest), m)
  {
    if nt != OptQKeyName {
      assert forall s :: 0 <= s < 10 || 16 <= s < 22 || 26 <= s < 34 ==> Typed(Cons(s, rest), m);
    }
  }

  /** The typing survives every expansion of the top state, whatever the lookahead. */
  lemma TypedExpand(s: nat, c: nat, rest: Stack, m: nat)
    requires 10 <= s < 34 && c <= END && Typed(Cons(s, rest), m) && 0 <= Entry(s, c)
    ensures Typed(Pushed(Entry(s, c), rest), m)
  {
    var nt := NonTerminalOf(s);
    EntryIsAllowed(nt, c);
    if s < 13 {
      TypedChords(nt, Entry(s, c), rest, m);
    } else if 22 <= s < 26 {
      TypedFlags(nt, Entry(s, c), rest, m);
    } else {
      TypedNames(nt, Entry(s, c), rest, m);
    }
  }

  /** What may begin `rest` may follow `s`. */
  ghost predicate FollowedBy(s: int, rest: Stack) {
    forall c: nat :: c <= END && FirstOf(rest, c) ==> Follow(s, c)
  }

  /** Every state on the stack is followed only by what may follow it. */
  ghost predicate FollowOk(stack: Stack) {
    match stack
    case Nil => true
    case Cons(s, rest) => FollowOk(rest) && (10 <= s ==> FollowedBy(s, rest))
  }

  lemma FollowChords(nt: NonTerminal, p: nat, rest: Stack)
    requires nt == Binding || nt == Chord || nt == ChordTail
    requires p < 31 && Allowed(nt, p) && FollowOk(Cons(State(nt), rest))
    ensures FollowOk(Pushed(p, rest))
  {
    if nt == Binding {
      assert FollowOk(Cons(22, rest));
      assert FollowOk(Cons(11, Cons(22, rest)));
    } else {
      var tail := Cons(33, Cons(12, rest));
      assert FollowOk(Cons(12, rest));
      assert FollowOk(tail);
      assert FollowOk(Cons(-2, tail));
      forall c: nat | c <= END && FirstOf(Cons(-2, tail), c) ensures Follow(13, c) {
        assert FirstOf(tail, c);
        assert c == 8 || FirstOf(Cons(12, rest), c);
        assert c == 8 || c == 0 || FirstOf(rest, c);
      }
      assert FollowedBy(13, Cons(-2, tail));
      assert FollowOk(Cons(-1, Cons(13, Cons(-2, tail))));
      forall c: nat | c <= END && FirstOf(Cons(-1, Cons(13, Cons(-2, tail))), c) ensures Follow(33, c) {
        assert FirstOf(Cons(13, Cons(-2, tail)), c);
      }
      assert FollowOk(Cons(33, Cons(-1, Cons(13, Cons(-2, tail))))) by {
        assert FollowedBy(33, Cons(-1, Cons(13, Cons(-2, tail))));
      }
    }
  }

  lemma FollowFlags(nt: NonTerminal, p: nat, rest: Stack)
    requires nt == Predicate || nt == FlagList || nt == FlagListTail || nt == Flag
    requires p < 31 && Allowed(nt, p) && FollowOk(Cons(State(nt), rest))
    ensures FollowOk(Pushed(p, rest))
  {
    if nt == Predicate {
      var close := Cons(3, Cons(33, rest));
      assert FollowOk(Cons(33, rest));
      assert FollowOk(close);
      assert FollowOk(Cons(23, close));
      assert FollowOk(Cons(33, Cons(23, close)));
    } else if nt == Flag {
      assert FollowOk(Cons(26, rest));
      assert FollowOk(Cons(-1, Cons(26, rest)));
    } else {
      assert FollowOk(Cons(24, rest));
      assert FollowOk(Cons(-3, Cons(24, rest)));
      forall c: nat | c <= END && FirstOf(Cons(-3, Cons(24, rest)), c) ensures Follow(25, c) {
        assert FirstOf(Cons(24, rest), c);
        assert c == 8 || FirstOf(rest, c);
      }
      assert FollowedBy(25, Cons(-3, Cons(24, rest)));
      assert FollowOk(Cons(-1, Cons(25, Cons(-3, Cons(24, rest)))));
      forall c: nat | c <= END && FirstOf(Cons(-1, Cons(25, Cons(-3, Cons(24, rest)))), c) ensures Follow(32, c) {
        assert FirstOf(Cons(25, Cons(-3, Cons(24, rest))), c);
      }
      assert FollowedBy(32, Cons(-1, Cons(25, Cons(-3, Cons(24, rest)))));
    }
  }

  lemma FollowKeys(nt: NonTerminal, p: nat, rest: Stack)
    requires 13 <= State(nt) < 18
    requires p < 31 && Allowed(nt, p) && FollowOk(Cons(State(nt), rest))
    ensures FollowOk(Pushed(p, rest))
  {
    if nt == Key {
      assert FollowOk(Cons(14, rest));
    } else if nt == QKeyName {
      assert FollowOk(Cons(16, rest));
      assert FollowOk(Cons(-1, Cons(16, rest)));
      assert FollowOk(Cons(1, Cons(-1, Cons(16, rest))));
    }
  }

  lemma FollowNames(nt: NonTerminal, p: nat, rest: Stack)
    requires 18 <= State(nt) < 22 || 25 < State(nt)
    requires p < 31 && Allowed(nt, p) && FollowOk(Cons(State(nt), rest))
    ensures FollowOk(Pushed(p, rest))
  {
  }

  /** The follow condition survives every expansion of the top state. */
  lemma FollowExpand(s: nat, c: nat, rest: Stack)
    requires 10 <= s < 34 && c <= END && FollowOk(Cons(s, rest)) && 0 <= Entry(s, c)
    ensures FollowOk(Pushed(Entry(s, c), rest))
  {
    var nt := NonTerminalOf(s);
    EntryIsAllowed(nt, c);
    if s < 13 {
      FollowChords(nt, Entry(s, c), rest);
    } else if s < 18 {
      FollowKeys(nt, Entry(s, c), rest);
    } else if 22 <= s < 26 {
      FollowFlags(nt, Entry(s, c), rest);
    } else {
      FollowNames(nt, Entry(s, c), rest);
    }
  }

  /** How many steps the loop can make from state `s` before it takes a token, once it has chosen a
      nonempty production. */
  ghost function Level(s: nat): nat {
    if s == 10 then 7 else if s == 11 then 5 else if s == 13 || s == 14 || s == 16 || s == 21 || s == 25 then 3
    else if s == 23 then 5
    else if s == 15 || s == 18 || s == 19 || s == 20 || s == 24 || s == 26 || s == 27 then 2 else 1
  }

  /** How many steps the loop makes under lookahead `c` before it takes a token or stops. Symbols below
      one that will take the token do not count, which is why a state that pushes itself again
      (`opt_whitespace`, `opt_name`) does no harm. */
  ghost function Rank(stack: Stack, c: nat): nat
    requires c <= END
  {
    match stack
    case Nil => 0
    case Cons(s, rest) =>
      if s < 0 then 1 + Rank(rest, c)
      else if s < 10 || 34 <= s || Entry(s, c) < 0 then 0
      else if Entry(s, c) == 0 then 1 + Rank(rest, c)
      else Level(s)
  }

  /** States that never vanish: no lookahead selects an empty production for them. */
  predicate Solid(s: int) {
    s == 11 || s == 13 || 15 <= s < 19 || s == 25 || s == 26 || 28 <= s < 33
  }

  lemma RankOfSolid(s: nat, c: nat, rest: Stack)
    requires Solid(s) && c <= END
    ensures Rank(Cons(s, rest), c) <= Level(s)
  {
    assert Entry(s, c) != 0;
  }

  lemma RankOfKeys(nt: NonTerminal, p: nat, c: nat, rest: Stack)
    requires 0 < p < 31 && Allowed(nt, p) && c <= END && State(nt) < 18
    ensures Rank(Pushed(p, rest), c) < Level(State(nt))
  {
    forall s: nat, r: Stack | Solid(s) ensures Rank(Cons(s, r), c) <= Level(s) { RankOfSolid(s, c, r); }
    assert Rank(Cons(11, Cons(22, rest)), c) <= 5;
    assert Rank(Cons(1, Cons(-1, Cons(16, rest))), c) == 0;
  }

  lemma RankOfNames(nt: NonTerminal, p: nat, c: nat, rest: Stack)
    requires 0 < p < 31 && Allowed(nt, p) && c <= END && 18 <= State(nt)
    ensures Rank(Pushed(p, rest), c) < Level(State(nt))
  {
    forall s: nat, r: Stack | Solid(s) ensures Rank(Cons(s, r), c) <= Level(s) { RankOfSolid(s, c, r); }
  }

  /** An expansion that pushes something brings the next token strictly closer. */
  lemma RankFalls(s: nat, c: nat, rest: Stack)
    requires 10 <= s < 34 && c <= END && 0 <= Entry(s, c)
    ensures Rank(Pushed(Entry(s, c), rest), c) < Rank(Cons(s, rest), c)
  {
    if Entry(s, c) != 0 {
      EntryIsAllowed(NonTerminalOf(s), c);
      if s < 18 {
        RankOfKeys(NonTerminalOf(s), Entry(s, c), c, rest);
      } else {
        RankOfNames(NonTerminalOf(s), Entry(s, c), c, rest);
      }
    }
  }
}
