/** `parse_arguments`: a table-driven scanner that splits a text into arguments, against what the
    arguments of a text are. */
module Arguments {
  import opened Runes
  import opened Escapes

  /** The arguments taken from a text, as they are written there, and what is left of it. */
  datatype Taken = Taken(words: seq<seq<Rune>>, rest: seq<Rune>)

  function Flush(p: seq<Rune>): (words: seq<seq<Rune>>)
    ensures |words| <= 1
  {
    if p == [] then [] else [p]
  }

  function After(words: seq<seq<Rune>>, t: Taken): Taken {
    Taken(words + t.words, t.rest)
  }

  predicate IsQuotation(c: Rune) {
    c == QUOTE || c == APOSTROPHE
  }

  /** Up to `n` arguments of `s` when `p` is the part of an argument that comes before it. Whitespace, a
      quotation mark and an auto-translate phrase end an argument; the last argument wanted ends where
      they begin. */
  function Take(p: seq<Rune>, s: seq<Rune>, n: nat): (t: Taken)
    decreases |s|
  {
    if n == 0 then Taken([], s)
    else if s == [] then Taken(Flush(p), [])
    else if s[0] == BACKSLASH then
      if |s| == 1 then Taken([p + s], []) else Take(p + s[..2], s[2..], n)
    else if IsQuotation(s[0]) || IsAutoTranslate(s[0]) || IsWhitespace(s[0]) then
      if p != [] && n == 1 then Taken([p], s) else After(Flush(p), TakeSpecial(s, n - |Flush(p)|))
    else Take(p + [s[0]], s[1..], n)
  }

  function TakeSpecial(s: seq<Rune>, n: nat): (t: Taken)
    requires s != [] && n > 0
    decreases |s|, 0
  {
    if IsQuotation(s[0]) then TakeQuoted(s[0], [], s[1..], n)
    else if IsAutoTranslate(s[0]) then After([[s[0]]], Take([], s[1..], n - 1))
    else Take([], s[1..], n)
  }

  /** The same within a quotation that began with `quote` and goes on to the next such mark, or to the end. */
  function TakeQuoted(quote: Rune, p: seq<Rune>, s: seq<Rune>, n: nat): (t: Taken)
    requires n > 0
    decreases |s|
  {
    if s == [] then Taken([p], [])
    else if s[0] == quote then After([p], Take([], s[1..], n - 1))
    else if s[0] == BACKSLASH then
      if |s| == 1 then Taken([p + s], []) else TakeQuoted(quote, p + s[..2], s[2..], n)
    else TakeQuoted(quote, p + [s[0]], s[1..], n)
  }

  /** All arguments of a text: there are never more of them than code points. */
  function Words(s: seq<Rune>): seq<seq<Rune>> {
    Take([], s, |s| + 1).words
  }

  /** Text in quotation marks of one kind is an argument by itself, whitespace and all. */
  lemma QuotedIsOne(quote: Rune, t: seq<Rune>, rest: seq<Rune>, n: nat)
    requires (quote == 0x22 || quote == 0x27) && quote !in t && 0x5C !in t && n > 0
    ensures Take([], [quote] + t + [quote] + rest, n) == After([t], Take([], rest, n - 1))
  {
    var s := [quote] + t + [quote] + rest;
    assert s[1..] == t + ([quote] + rest);
    QuotedRest(quote, [], t, rest, n);
    NothingBefore(TakeQuoted(quote, [], s[1..], n));
    assert [] + t == t && Flush([]) == [];
  }

  lemma NothingBefore(t: Taken)
    ensures After([], t) == t
  {
    assert [] + t.words == t.words;
  }

  lemma {:induction false} QuotedRest(quote: Rune, p: seq<Rune>, t: seq<Rune>, rest: seq<Rune>, n: nat)
    requires quote !in t && 0x5C !in t && quote != 0x5C && n > 0
    ensures TakeQuoted(quote, p, t + ([quote] + rest), n) == After([p + t], Take([], rest, n - 1))
    decreases |t|
  {
    var s := t + ([quote] + rest);
    if t == [] {
      assert s[1..] == rest && p + t == p;
    } else {
      assert s[0] == t[0] && s[1..] == t[1..] + ([quote] + rest);
      QuotedRest(quote, p + [t[0]], t[1..], rest, n);
      assert p + [t[0]] + t[1..] == p + t;
    }
  }

  lemma {:induction false} Enough(p: seq<Rune>, s: seq<Rune>, n: nat, m: nat)
    requires n > |s| + |Flush(p)| && m > |s| + |Flush(p)|
    ensures Take(p, s, n) == Take(p, s, m) && Take(p, s, n).rest == []
    decreases |s|, 1
  {
    if s == [] {
    } else if s[0] == BACKSLASH {
      if |s| > 1 { Enough(p + s[..2], s[2..], n, m); }
    } else if IsQuotation(s[0]) || IsAutoTranslate(s[0]) || IsWhitespace(s[0]) {
      var n', m' := n - |Flush(p)|, m - |Flush(p)|;
      if IsQuotation(s[0]) {
        EnoughQuoted(s[0], [], s[1..], n', m');
      } else if IsAutoTranslate(s[0]) {
        Enough([], s[1..], n' - 1, m' - 1);
      } else {
        Enough([], s[1..], n', m');
      }
    } else {
      Enough(p + [s[0]], s[1..], n, m);
    }
  }

  lemma {:induction false} EnoughQuoted(quote: Rune, p: seq<Rune>, s: seq<Rune>, n: nat, m: nat)
    requires n > |s| + 1 && m > |s| + 1
    ensures TakeQuoted(quote, p, s, n) == TakeQuoted(quote, p, s, m) && TakeQuoted(quote, p, s, n).rest == []
    decreases |s|, 0
  {
    if s == [] {
    } else if s[0] == quote {
      Enough([], s[1..], n - 1, m - 1);
    } else if s[0] == BACKSLASH {
      if |s| > 1 { EnoughQuoted(quote, p + s[..2], s[2..], n, m); }
    } else {
      EnoughQuoted(quote, p + [s[0]], s[1..], n, m);
    }
  }

  /** `t` is the first part of `all`, up to `n` arguments, and the arguments of what is left are the others. */
  predicate Begins(t: Taken, all: seq<seq<Rune>>, n: nat) {
    && |t.words| <= n && t.words <= all
    && (t.rest != [] ==> |t.words| == n)
    && all[|t.words|..] == Words(t.rest)
  }

  lemma BeginsAfter(words: seq<seq<Rune>>, t: Taken, all: seq<seq<Rune>>, n: nat)
    requires Begins(t, all, n)
    ensures Begins(After(words, t), words + all, |words| + n)
  {
    assert (words + all)[|words + t.words|..] == all[|t.words|..];
  }

  /** Taking `n` arguments gives the first `n` of all of them, and what is left has the others. */
  lemma {:induction false} LimitedBegins(p: seq<Rune>, s: seq<Rune>, n: nat, m: nat)
    requires m > |s| + |Flush(p)| && (n > 0 || p == [])
    ensures Begins(Take(p, s, n), Take(p, s, m).words, n)
    decreases |s|, 1
  {
    if n == 0 {
      Enough(p, s, m, |s| + 1);
      assert Take(p, s, m).words[0..] == Take(p, s, m).words;
    } else if s == [] {
    } else if s[0] == BACKSLASH {
      if |s| > 1 { LimitedBegins(p + s[..2], s[2..], n, m); }
    } else if IsQuotation(s[0]) || IsAutoTranslate(s[0]) || IsWhitespace(s[0]) {
      if p != [] && n == 1 {
        SpecialEnough(s, m - 1, |s| + 1);
        assert Take(p, s, m).words == [p] + TakeSpecial(s, m - 1).words;
      } else {
        SpecialBegins(s, n - |Flush(p)|, m - |Flush(p)|);
        BeginsAfter(Flush(p), TakeSpecial(s, n - |Flush(p)|), TakeSpecial(s, m - |Flush(p)|).words, n - |Flush(p)|);
      }
    } else {
      LimitedBegins(p + [s[0]], s[1..], n, m);
    }
  }

  lemma {:induction false} SpecialEnough(s: seq<Rune>, n: nat, m: nat)
    requires s != [] && n > |s| && m > |s|
    requires IsQuotation(s[0]) || IsAutoTranslate(s[0]) || IsWhitespace(s[0])
    ensures TakeSpecial(s, n) == TakeSpecial(s, m)
    ensures Words(s) == TakeSpecial(s, m).words
  {
    assert s[0] != BACKSLASH && Flush([]) == [];
    Enough([], s, n, m);
    Enough([], s, |s| + 1, m);
    assert forall k: nat :: k > 0 ==> After([], TakeSpecial(s, k)) == TakeSpecial(s, k);
  }

  lemma {:induction false} SpecialBegins(s: seq<Rune>, n: nat, m: nat)
    requires s != [] && n > 0 && m > |s|
    ensures Begins(TakeSpecial(s, n), TakeSpecial(s, m).words, n)
    decreases |s|, 0
  {
    if IsQuotation(s[0]) {
      QuotedBegins(s[0], [], s[1..], n, m);
    } else if IsAutoTranslate(s[0]) {
      LimitedBegins([], s[1..], n - 1, m - 1);
      BeginsAfter([[s[0]]], Take([], s[1..], n - 1), Take([], s[1..], m - 1).words, n - 1);
    } else {
      LimitedBegins([], s[1..], n, m);
    }
  }

  lemma {:induction false} QuotedBegins(quote: Rune, p: seq<Rune>, s: seq<Rune>, n: nat, m: nat)
    requires n > 0 && m > |s| + 1
    ensures Begins(TakeQuoted(quote, p, s, n), TakeQuoted(quote, p, s, m).words, n)
    decreases |s|
  {
    if s == [] {
    } else if s[0] == quote {
      LimitedBegins([], s[1..], n - 1, m - 1);
      BeginsAfter([p], Take([], s[1..], n - 1), Take([], s[1..], m - 1).words, n - 1);
    } else if s[0] == BACKSLASH {
      if |s| > 1 { QuotedBegins(quote, p + s[..2], s[2..], n, m); }
    } else {
      QuotedBegins(quote, p + [s[0]], s[1..], n, m);
    }
  }

  /** Escaped arguments with a space between them. */
  function Joined(args: seq<seq<Rune>>): seq<Rune> {
    if args == [] then []
    else if |args| == 1 then Escaped(args[0])
    else Escaped(args[0]) + [SPACE] + Joined(args[1..])
  }

  function AllEscaped(args: seq<seq<Rune>>): (words: seq<seq<Rune>>)
    ensures |words| == |args|
  {
    if args == [] then [] else [Escaped(args[0])] + AllEscaped(args[1..])
  }

  /** What is put out for a list of arguments. */
  function AllDecoded(words: seq<seq<Rune>>): (args: seq<seq<Rune>>)
    ensures |args| == |words|
  {
    if words == [] then [] else [Decode(words[0], true)] + AllDecoded(words[1..])
  }

  predicate Plain(a: seq<Rune>) {
    forall k :: 0 <= k < |a| ==> !IsAutoTranslate(a[k])
  }

  lemma {:induction false} TakesEscaped(p: seq<Rune>, a: seq<Rune>, s: seq<Rune>, n: nat)
    requires n > 0 && Plain(a)
    ensures Take(p, Escaped(a) + s, n) == Take(p + Escaped(a), s, n)
    decreases |a|
  {
    hide TakeSpecial, TakeQuoted;
    var text := Escaped(a) + s;
    if a == [] {
      assert text == s && p + Escaped(a) == p;
    } else if NeedsEscape(a[0]) {
      TakesEscaped(p + [BACKSLASH, a[0]], a[1..], s, n);
      assert text[..2] == [BACKSLASH, a[0]] && text[2..] == Escaped(a[1..]) + s;
      assert p + [BACKSLASH, a[0]] + Escaped(a[1..]) == p + Escaped(a);
    } else {
      TakesEscaped(p + [a[0]], a[1..], s, n);
      assert text[1..] == Escaped(a[1..]) + s;
      assert p + [a[0]] + Escaped(a[1..]) == p + Escaped(a);
    }
  }

  lemma {:induction false} TakesJoined(args: seq<seq<Rune>>, n: nat)
    requires n > |args| && forall k :: 0 <= k < |args| ==> args[k] != [] && Plain(args[k])
    ensures Take([], Joined(args), n) == Taken(AllEscaped(args), [])
  {
    hide Take, Escaped, Plain;
    if args == [] {
      TakesNothing(n);
    } else if |args| == 1 {
      TakesLast(args[0], n);
      assert AllEscaped(args[1..]) == [];
    } else {
      TakesFirst(args[0], Joined(args[1..]), n);
      TakesJoined(args[1..], n - 1);
    }
  }

  lemma TakesNothing(n: nat)
    ensures Take([], [], n) == Taken([], [])
  {
  }

  lemma TakesLast(a: seq<Rune>, n: nat)
    requires n > 0 && a != [] && Plain(a)
    ensures Take([], Escaped(a), n) == Taken([Escaped(a)], [])
  {
    hide Escaped, Plain;
    EscapedGrows(a);
    TakesEscaped([], a, [], n);
    assert [] + Escaped(a) == Escaped(a) == Escaped(a) + [];
  }

  lemma TakesFirst(a: seq<Rune>, s: seq<Rune>, n: nat)
    requires n > 1 && a != [] && Plain(a)
    ensures Take([], Escaped(a) + [SPACE] + s, n) == After([Escaped(a)], Take([], s, n - 1))
  {
    hide Escaped, Plain;
    EscapedGrows(a);
    var rest := [SPACE] + s;
    TakesEscaped([], a, rest, n);
    assert [] + Escaped(a) == Escaped(a) && Escaped(a) + [SPACE] + s == Escaped(a) + rest && rest[1..] == s;
  }

  lemma {:induction false} EscapedGrows(a: seq<Rune>)
    ensures |Escaped(a)| >= |a|
  {
    if a != [] { EscapedGrows(a[1..]); }
  }

  lemma {:induction false} DecodesEscaped(args: seq<seq<Rune>>)
    ensures AllDecoded(AllEscaped(args)) == args
  {
    if args != [] {
      EscapedMeansItself(args[0]);
      DecodesEscaped(args[1..]);
      assert [args[0]] + args[1..] == args;
    }
  }

  lemma {:induction false} JoinedIsLonger(args: seq<seq<Rune>>)
    requires forall k :: 0 <= k < |args| ==> args[k] != []
    ensures |Joined(args)| >= |args|
  {
    if args != [] {
      EscapedGrows(args[0]);
      if |args| > 1 { JoinedIsLonger(args[1..]); }
    }
  }

  lemma WordsTaken(s: seq<Rune>)
    ensures Words(s) == Take([], s, |s| + 1).words
  {
  }

  /** Escaping arguments, joining them and taking the text apart again gives the same arguments. */
  lemma ArgumentsRoundTrip(args: seq<seq<Rune>>)
    requires forall k :: 0 <= k < |args| ==> args[k] != [] && Plain(args[k])
    ensures AllDecoded(Words(Joined(args))) == args
  {
    hide *;
    JoinedIsLonger(args);
    TakesJoined(args, |Joined(args)| + 1);
    WordsTaken(Joined(args));
    DecodesEscaped(args);
  }

  datatype Entry = Entry(next: int, action: nat)

  datatype Kind = Escaping | SingleQuote | DoubleQuote | Phrase | Blank | Letter | Finish

  function KindAt(s: seq<Rune>, i: nat): Kind
    requires i <= |s|
  {
    if i == |s| then Finish
    else if s[i] == BACKSLASH then Escaping
    else if s[i] == APOSTROPHE then SingleQuote
    else if s[i] == QUOTE then DoubleQuote
    else if IsAutoTranslate(s[i]) then Phrase
    else if IsWhitespace(s[i]) then Blank
    else Letter
  }

  /** The table: state 0 is outside quotations, 1 and 2 are inside, and 3 to 5 come after a backslash. */
  function EntryAt(state: nat, kind: Kind): Entry
    requires state < 6
  {
    if kind == Finish then Entry(-1, if state in {1, 2} then 2 else 1)
    else if state >= 3 then Entry(state - 3, 0)
    else if kind == Escaping then Entry(state + 3, 0)
    else if state == 0 then
      if kind == SingleQuote then Entry(2, 1)
      else if kind == DoubleQuote then Entry(1, 1)
      else if kind == Phrase then Entry(0, 3)
      else if kind == Blank then Entry(0, 1)
      else Entry(0, 0)
    else if (state == 1 && kind == DoubleQuote) || (state == 2 && kind == SingleQuote) then Entry(0, 2)
    else Entry(state, 0)
  }

  /** Where the scanner stands; `words` are the arguments put out so far, as they are written in the text. */
  datatype Cursor = Cursor(state: int, it: nat, mark: nat, count: nat, words: seq<seq<Rune>>)

  predicate Within(s: seq<Rune>, c: Cursor) {
    && c.mark <= c.it <= |s| && -1 <= c.state < 6
    && (c.state >= 3 ==> c.mark < c.it && s[c.it - 1] == BACKSLASH)
  }

  function QuoteOf(state: int): Rune {
    if state in {1, 4} then QUOTE else APOSTROPHE
  }

  /** What is still to come. */
  function Left(s: seq<Rune>, c: Cursor): Taken
    requires Within(s, c)
  {
    if c.count == 0 || c.state < 0 then Taken([], s[c.mark..])
    else if c.state == 0 then Take(s[c.mark..c.it], s[c.it..], c.count)
    else if c.state in {1, 2} then TakeQuoted(QuoteOf(c.state), s[c.mark..c.it], s[c.it..], c.count)
    else if c.state == 3 then Take(s[c.mark..c.it - 1], s[c.it - 1..], c.count)
    else TakeQuoted(QuoteOf(c.state), s[c.mark..c.it - 1], s[c.it - 1..], c.count)
  }

  /** What a round of the loop puts out. */
  function Output(s: seq<Rune>, c: Cursor): seq<seq<Rune>>
    requires Within(s, c) && c.state >= 0
  {
    var action := EntryAt(c.state, KindAt(s, c.it)).action;
    var word := s[c.mark..c.it];
    if action == 0 then []
    else if action == 1 then Flush(word)
    else if action == 2 then [word]
    else if c.it < |s| && c.count > |Flush(word)| then Flush(word) + [s[c.it..c.it + 1]]
    else Flush(word)
  }

  /** One round of the loop. */
  function Advance(s: seq<Rune>, c: Cursor): Cursor
    requires Within(s, c) && c.state >= 0 && c.count > 0
  {
    var entry := EntryAt(c.state, KindAt(s, c.it));
    var next := if c.it == |s| then c.it else c.it + 1;
    var word := Flush(s[c.mark..c.it]);
    var words := c.words + Output(s, c);
    if entry.action == 0 then Cursor(entry.next, next, c.mark, c.count, words)
    else if entry.action == 1 then
      Cursor(entry.next, next, if c.count > |word| then next else c.it, c.count - |word|, words)
    else if entry.action == 2 then Cursor(entry.next, next, next, c.count - 1, words)
    else if c.count > |word| then Cursor(entry.next, next, next, c.count - |word| - 1, words)
    else Cursor(entry.next, next, c.it, 0, words)
  }

  /** What is still to come begins with what a round puts out. */
  lemma AdvanceOutside(s: seq<Rune>, c: Cursor)
    requires Within(s, c) && c.state == 0 && c.count > 0
    ensures Within(s, Advance(s, c)) && Left(s, c) == After(Output(s, c), Left(s, Advance(s, c)))
  {
    var c', p := Advance(s, c), s[c.mark..c.it];
    if c.it == |s| {
      assert s[c.it..] == [];
    } else if s[c.it] == BACKSLASH {
      assert After([], Left(s, c')) == Left(s, c');
    } else if IsQuotation(s[c.it]) || IsAutoTranslate(s[c.it]) || IsWhitespace(s[c.it]) {
      AdvanceSpecial(s, c);
    } else {
      assert s[c.it..][1..] == s[c.it + 1..];
      assert p + [s[c.it]] == s[c.mark..c.it + 1];
    }
  }

  lemma AdvanceSpecial(s: seq<Rune>, c: Cursor)
    requires Within(s, c) && c.state == 0 && c.count > 0 && c.it < |s|
    requires IsQuotation(s[c.it]) || IsAutoTranslate(s[c.it]) || IsWhitespace(s[c.it])
    ensures Within(s, Advance(s, c)) && Left(s, c) == After(Output(s, c), Left(s, Advance(s, c)))
  {
    var c', word, rest := Advance(s, c), Flush(s[c.mark..c.it]), s[c.it..];
    assert rest[1..] == s[c.it + 1..] && s[c.it + 1..c.it + 1] == [] && s[c.it..c.it + 1] == [s[c.it]];
    if c.count > |word| {
      assert Left(s, c) == After(word, TakeSpecial(rest, c.count - |word|));
      if IsAutoTranslate(s[c.it]) {
        assert Left(s, c') == Take([], rest[1..], c.count - |word| - 1);
        AfterAdds(word, [[s[c.it]]], Left(s, c'));
      }
    }
  }

  lemma AfterAdds(words: seq<seq<Rune>>, more: seq<seq<Rune>>, t: Taken)
    ensures After(words + more, t) == After(words, After(more, t))
  {
    assert words + more + t.words == words + (more + t.words);
  }

  lemma AdvanceInside(s: seq<Rune>, c: Cursor)
    requires Within(s, c) && c.state in {1, 2} && c.count > 0
    ensures Within(s, Advance(s, c)) && Left(s, c) == After(Output(s, c), Left(s, Advance(s, c)))
  {
    var c', p := Advance(s, c), s[c.mark..c.it];
    if c.it == |s| {
      assert s[c.it..] == [];
    } else {
      var rest := s[c.it..];
      assert rest[1..] == s[c.it + 1..] && s[c.it + 1..c.it + 1] == [];
      assert p + [s[c.it]] == s[c.mark..c.it + 1];
      AfterNothing(Left(s, c'));
      if s[c.it] == QuoteOf(c.state) {
        assert Output(s, c) == [p];
        assert Left(s, c) == After([p], Take([], rest[1..], c.count - 1));
        assert Left(s, c') == Take([], rest[1..], c.count - 1);
      } else if s[c.it] == BACKSLASH {
        assert Left(s, c') == Left(s, c);
      } else {
        assert Left(s, c') == Left(s, c);
      }
    }
  }

  lemma AfterNothing(t: Taken)
    ensures After([], t) == t
  {
  }

  lemma AdvanceEscaped(s: seq<Rune>, c: Cursor)
    requires Within(s, c) && c.state >= 3 && c.count > 0
    ensures Within(s, Advance(s, c)) && Left(s, c) == After(Output(s, c), Left(s, Advance(s, c)))
  {
    var c', p, rest := Advance(s, c), s[c.mark..c.it - 1], s[c.it - 1..];
    if c.it == |s| {
      assert p + rest == s[c.mark..c.it] && s[c.it..] == [];
    } else {
      assert rest[2..] == s[c.it + 1..];
      assert p + rest[..2] == s[c.mark..c.it + 1];
      AfterNothing(Left(s, c'));
    }
  }

  /** Up to `count` arguments are put out with their escape sequences resolved, and then what is left of the
      text as it is, unless nothing is left. */
  method ParseArguments(s: seq<Rune>, count: nat) returns (output: seq<seq<Rune>>)
    ensures var t := Take([], s, count); output == AllDecoded(t.words) + Flush(t.rest)
  {
    hide Take, TakeQuoted, TakeSpecial, EntryAt, Decode, Left, KindAt, AllDecoded;
    StartsDecoding();
    var state: int := 0;
    var it: nat, mark: nat, left: nat := 0, 0, count;
    ghost var words := [];
    output := [];
    StartsOutside(s, count);
    while left != 0 && state >= 0
      invariant Within(s, Cursor(state, it, mark, left, words))
      invariant After(words, Left(s, Cursor(state, it, mark, left, words))) == Take([], s, count)
      invariant output == AllDecoded(words)
      decreases |s| - it, state >= 0
    {
      ghost var c := Cursor(state, it, mark, left, words);
      AdvanceAny(s, c);
      AfterAdds(words, Output(s, c), Left(s, Advance(s, c)));
      DecodedAdds(words, Output(s, c));
      FinishStops(s, c);
      var next := if it == |s| then it else it + 1;
      var entry := EntryAt(state, KindAt(s, it));
      state := entry.next;
      match entry.action {
      case 1 =>
        left, output := Append(output, s[mark..it], left, false);
        mark := if left != 0 then next else it;
      case 2 =>
        left, output := Append(output, s[mark..it], left, true);
        mark := next;
      case 3 =>
        left, output := Append(output, s[mark..it], left, false);
        DecodedAdds(Flush(s[c.mark..c.it]), [s[it..next]]);
        if left != 0 {
          left, output := Append(output, s[it..next], left, false);
          mark := next;
        } else {
          mark := it;
        }
      case _ =>
      }
      it := next;
      words := words + Output(s, c);
    }
    LeftAtEnd(s, Cursor(state, it, mark, left, words));
    if mark != |s| {
      output := output + [s[mark..]];
    }
  }

  lemma LeftAtEnd(s: seq<Rune>, c: Cursor)
    requires Within(s, c) && (c.count == 0 || c.state < 0)
    ensures After(c.words, Left(s, c)) == Taken(c.words, s[c.mark..])
  {
  }

  lemma StartsOutside(s: seq<Rune>, count: nat)
    ensures After([], Left(s, Cursor(0, 0, 0, count, []))) == Take([], s, count)
  {
    assert s[0..0] == [] && s[0..] == s;
  }

  /** `append`: an empty argument counts only if it was quoted. */
  method Append(output: seq<seq<Rune>>, word: seq<Rune>, count: nat, allowEmpty: bool)
    returns (left: nat, output': seq<seq<Rune>>)
    requires count > 0
    ensures var words := if allowEmpty then [word] else Flush(word);
      output' == output + AllDecoded(words) && left == count - |words|
  {
    left, output' := count, output;
    if word == [] {
      if allowEmpty {
        output', left := output' + [[]], left - 1;
      }
    } else {
      var argument := Unescape(word);
      output', left := output' + [argument], left - 1;
    }
  }

  lemma AdvanceAny(s: seq<Rune>, c: Cursor)
    requires Within(s, c) && c.state >= 0 && c.count > 0
    ensures Within(s, Advance(s, c)) && Left(s, c) == After(Output(s, c), Left(s, Advance(s, c)))
  {
    if c.state == 0 { AdvanceOutside(s, c); }
    else if c.state < 3 { AdvanceInside(s, c); }
    else { AdvanceEscaped(s, c); }
  }

  lemma FinishStops(s: seq<Rune>, c: Cursor)
    requires Within(s, c) && c.state >= 0 && c.count > 0
    ensures c.it == |s| ==> EntryAt(c.state, KindAt(s, c.it)).next == -1
    ensures EntryAt(c.state, KindAt(s, c.it)).action <= 3
    ensures EntryAt(c.state, KindAt(s, c.it)).action == 3 ==> c.it < |s|
  {
  }

  lemma StartsDecoding()
    ensures AllDecoded([]) == []
  {
  }

  lemma {:induction false} DecodedAdds(words: seq<seq<Rune>>, more: seq<seq<Rune>>)
    ensures AllDecoded(words + more) == AllDecoded(words) + AllDecoded(more)
  {
    if words == [] {
      assert [] + more == more;
    } else {
      assert (words + more)[1..] == words[1..] + more;
      DecodedAdds(words[1..], more);
    }
  }

  /** With a limit, the output is the first arguments of the unlimited output, and then, if anything is left
      of the text, that; the arguments in it are the missing ones. */
  lemma LimitCutsOff(s: seq<Rune>, count: nat)
    ensures Begins(Take([], s, count), Words(s), count)
    ensures count > |s| ==> Take([], s, count) == Taken(Words(s), [])
  {
    LimitedBegins([], s, count, |s| + 1);
    if count > |s| { Enough([], s, count, |s| + 1); }
  }
}
