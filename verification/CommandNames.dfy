/** `parse_command`: the name at the beginning of a command, with or without a component. */
module CommandNames {
  import opened Runes

  datatype Range = Range(begin: nat, end: nat)

  datatype Component = NoComponent | ComponentAt(range: Range)

  /** The syntax errors CMD:P1 to CMD:P5, with the position and the range of what is in error. */
  datatype Parsed = Name(component: Component, command: Range) | SyntaxError(code: nat, at: nat, range: Range)

  predicate IsNameRune(c: Rune) {
    || 0x61 <= c <= 0x7A || 0x41 <= c <= 0x5A || 0x30 <= c <= 0x39
    || c == 0x3F || c == 0x5F || c == 0x2D
  }

  const LOWER: string := "abcdefghijklmnopqrstuvwxyz"
  const UPPER: string := "ABCDEFGHIJKLMNOPQRSTUVWXYZ"
  const OTHERS: string := "0123456789?_-"

  /** The characters of a name, as they are listed where a name is registered. */
  const NAME_CHARS: string := LOWER + UPPER + OTHERS

  lemma InLower(c: char)
    ensures c in LOWER <==> 'a' <= c <= 'z'
  {
    if 'a' <= c <= 'z' { assert LOWER[c as int - 'a' as int] == c; }
  }

  lemma InUpper(c: char)
    ensures c in UPPER <==> 'A' <= c <= 'Z'
  {
    if 'A' <= c <= 'Z' { assert UPPER[c as int - 'A' as int] == c; }
  }

  lemma InOthers(c: char)
    ensures c in OTHERS <==> '0' <= c <= '9' || c == '?' || c == '_' || c == '-'
  {
  }

  lemma InAny(c: char)
    ensures c in NAME_CHARS <==> c in LOWER || c in UPPER || c in OTHERS
  {
    hide LOWER, UPPER, OTHERS;
  }

  /** A command is read with exactly these. */
  lemma NameCharsAreRead(c: char)
    ensures c in NAME_CHARS <==> IsNameRune(c as int)
  {
    hide NAME_CHARS, LOWER, UPPER, OTHERS;
    InLower(c);
    InUpper(c);
    InOthers(c);
    InAny(c);
  }

  predicate AllName(s: seq<Rune>, b: nat, e: nat)
    requires e <= |s|
  {
    forall k :: b <= k < e ==> IsNameRune(s[k])
  }

  /** A command ends at whitespace or with the text. */
  predicate EndsAt(s: seq<Rune>, i: nat)
    requires i <= |s|
  {
    i == |s| || IsWhitespace(s[i])
  }

  /** The grammar: `/name`, `/component:name` or `/:name`. */
  predicate Derives(s: seq<Rune>, component: Component, command: Range) {
    && 1 <= command.begin < command.end <= |s|
    && s[0] == SLASH && AllName(s, command.begin, command.end) && EndsAt(s, command.end)
    && match component
       case NoComponent => command.begin == 1
       case ComponentAt(r) =>
         r.begin == 1 && r.begin <= r.end && r.end + 1 == command.begin && s[r.end] == COLON && AllName(s, 1, r.end)
  }

  /** Whether something that the grammar derives begins with `t`. */
  ghost predicate Viable(t: seq<Rune>) {
    exists s, component, command :: Derives(s, component, command) && t <= s && |t| <= command.end
  }

  function ErrorCode(s: seq<Rune>, at: nat): nat
    requires at <= |s|
  {
    if at == 0 then 1
    else if COLON !in s[..at] then if EndsAt(s, at) then 2 else 4
    else if s[at - 1] == COLON && (EndsAt(s, at) || s[at] == COLON) then 3
    else 5
  }

  /** What is in error: with the codes 4 and 5 the name before the error, which begins behind the slash or
      behind the first colon, and nothing with the others. */
  predicate InError(s: seq<Rune>, code: nat, at: nat, range: Range) {
    && range.begin <= range.end == at <= |s|
    && if code < 4 then range.begin == at
       else AllName(s, range.begin, at) &&
            if code == 4 then range.begin == 1
            else 0 < range.begin && s[range.begin - 1] == COLON && COLON !in s[..range.begin - 1]
  }

  datatype Entry = Entry(next: int, action: nat)

  datatype Kind = Slash | Colon | NameRune | Other | End

  function KindAt(s: seq<Rune>, i: nat): Kind
    requires i <= |s|
  {
    if i == |s| then End
    else if s[i] == SLASH then Slash
    else if s[i] == COLON then Colon
    else if IsNameRune(s[i]) then NameRune
    else if IsWhitespace(s[i]) then End
    else Other
  }

  function EntryAt(state: nat, kind: Kind): Entry
    requires state < 5
  {
    if state == 0 then
      if kind == Slash then Entry(1, 2) else if kind == End then Entry(-1, 4) else Entry(0, 4)
    else if state == 2 then
      if kind == NameRune then Entry(4, 0)
      else if kind == Colon then Entry(0, 6)
      else if kind == End then Entry(-1, 6)
      else Entry(0, 8)
    else if state == 4 then
      if kind == NameRune then Entry(4, 0) else if kind == End then Entry(-1, 3) else Entry(0, 8)
    else
      if kind == NameRune then Entry(3, 0)
      else if kind == Colon then Entry(2, 1)
      else if kind == End then Entry(-1, if state == 1 then 5 else 3)
      else Entry(0, 7)
  }

  /** What has been read in each state. */
  predicate Reading(s: seq<Rune>, state: int, it: nat, mark: nat, component: Component) {
    && 0 <= state < 5 && mark <= it <= |s|
    && (state == 0 ==> it == 0 && component == NoComponent)
    && (state > 0 ==> 0 < mark <= it && s[0] == SLASH && AllName(s, mark, it))
    && (state in {1, 2} ==> mark == it)
    && (state in {3, 4} ==> mark < it)
    && (state in {1, 3} ==> component == NoComponent && mark == 1)
    && (state in {2, 4} ==>
          s[mark - 1] == COLON && component == ComponentAt(Range(1, mark - 1)) && AllName(s, 1, mark - 1))
  }

  /** Whatever the grammar makes of a text that goes on from here, it makes the same of what was read. */
  lemma DerivesSame(s: seq<Rune>, state: int, it: nat, mark: nat, component: Component, t: seq<Rune>,
                    c: Component, command: Range)
    requires Reading(s, state, it, mark, component) && 0 < state && Derives(t, c, command)
    requires it <= command.end && s[..it] == t[..it]
    ensures state in {2, 4} ==> c == component && command.begin == mark
    ensures state in {1, 3} ==> c.NoComponent? || c.range.end >= it
  {
    assert forall k :: 0 <= k < it ==> s[k] == s[..it][k] == t[..it][k] == t[k];
    if state in {2, 4} {
      assert t[mark - 1] == COLON && !IsNameRune(COLON);
    }
    match c
    case NoComponent =>
    case ComponentAt(r) =>
      if r.end < it { assert s[r.end] == COLON; }
  }

  /** What has been read can be completed to a command. */
  lemma ReadingIsViable(s: seq<Rune>, state: int, it: nat, mark: nat, component: Component)
    requires Reading(s, state, it, mark, component)
    ensures Viable(s[..it])
  {
    var a := 0x61;
    if state == 0 {
      var t := [SLASH, a];
      assert Derives(t, NoComponent, Range(1, 2)) && s[..0] <= t;
    } else {
      var t := s[..it] + [a];
      assert forall k :: 0 <= k < it ==> t[k] == s[k];
      assert Derives(t, component, Range(mark, it + 1)) && s[..it] <= t;
    }
  }

  /** The table stops with an error only where no command goes on. */
  lemma ErrorIsFirst(s: seq<Rune>, state: int, it: nat, mark: nat, component: Component)
    requires Reading(s, state, it, mark, component) && EntryAt(state, KindAt(s, it)).action >= 4
    ensures forall c, r :: !Derives(s, c, r)
    ensures !EndsAt(s, it) ==> !Viable(s[..it + 1])
    ensures EntryAt(state, KindAt(s, it)).action == ErrorCode(s, it) + 3
    ensures InError(s, ErrorCode(s, it), it, Range(if ErrorCode(s, it) < 4 then it else mark, it))
  {
    forall c, r ensures !Derives(s, c, r) {
      if Derives(s, c, r) { NotDerived(s, state, it, mark, component, s, c, r); }
    }
    if !EndsAt(s, it) && Viable(s[..it + 1]) {
      var t, c, r :| Derives(t, c, r) && s[..it + 1] <= t && |s[..it + 1]| <= r.end;
      assert t[..it + 1] == s[..it + 1];
      NotDerived(s, state, it, mark, component, t, c, r);
    }
    ColonOrNot(s, state, it, mark, component);
    if state in {2, 4} { NameHasNoColon(s, mark - 1); }
  }

  lemma ColonOrNot(s: seq<Rune>, state: int, it: nat, mark: nat, component: Component)
    requires Reading(s, state, it, mark, component)
    ensures COLON in s[..it] <==> state in {2, 4}
  {
    if state in {2, 4} { assert s[..it][mark - 1] == COLON; }
  }

  lemma NameHasNoColon(s: seq<Rune>, e: nat)
    requires 1 <= e <= |s| && s[0] == SLASH && AllName(s, 1, e)
    ensures COLON !in s[..e]
  {
  }

  lemma NotDerived(s: seq<Rune>, state: int, it: nat, mark: nat, component: Component, t: seq<Rune>,
                   c: Component, r: Range)
    requires Reading(s, state, it, mark, component) && EntryAt(state, KindAt(s, it)).action >= 4
    requires t == s || (!EndsAt(s, it) && it + 1 <= r.end && it < |t| && t[..it + 1] == s[..it + 1])
    ensures !Derives(t, c, r)
  {
    assert forall k :: 0 <= k <= it && t != s ==> t[k] == t[..it + 1][k] == s[k];
    if state > 0 && it <= r.end && Derives(t, c, r) {
      assert s[..it] == t[..it];
      DerivesSame(s, state, it, mark, component, t, c, r);
    }
  }

  /** The grammar leaves no choice. */
  lemma DerivesOne(s: seq<Rune>, c: Component, r: Range, c': Component, r': Range)
    requires Derives(s, c, r) && Derives(s, c', r')
    ensures c == c' && r == r'
  {
    assert !IsNameRune(COLON);
    match (c, c')
    case (ComponentAt(a), ComponentAt(b)) =>
      assert !IsNameRune(s[a.end]) && !IsNameRune(s[b.end]);
    case _ =>
  }

  /** The result is what the grammar derives. An error is reported when there is no such thing, and at the
      first place after which nothing that the grammar derives can follow. */
  method ParseCommand(s: seq<Rune>) returns (parsed: Parsed)
    ensures match parsed
      case Name(component, command) =>
        Derives(s, component, command) && forall c, r :: Derives(s, c, r) ==> c == component && r == command
      case SyntaxError(code, at, range) =>
        && (forall c, r :: !Derives(s, c, r))
        && at <= |s| && code == ErrorCode(s, at) && InError(s, code, at, range)
        && Viable(s[..at]) && (!EndsAt(s, at) ==> !Viable(s[..at + 1]))
  {
    hide EntryAt, Viable, ErrorCode, InError;
    var state: int := 0;
    var it: nat, mark: nat := 0, 0;
    var component, command := NoComponent, Range(0, 0);
    while state >= 0
      invariant if state >= 0 then Reading(s, state, it, mark, component) else Derives(s, component, command)
      decreases |s| - it, state >= 0
    {
      ghost var before, at, was := state, it, component;
      Round(s, state, it, mark, component);
      var entry := EntryAt(state, KindAt(s, it));
      var next := if it == |s| then it else it + 1;
      state := entry.next;
      match entry.action {
      case 1 =>
        component, mark := ComponentAt(Range(mark, it)), next;
      case 2 =>
        mark := next;
      case 3 =>
        command := Range(mark, it);
      case 4 =>
        ErrorIsFirst(s, before, at, mark, was);
        return SyntaxError(1, it, Range(it, it));
      case 5 =>
        ErrorIsFirst(s, before, at, mark, was);
        return SyntaxError(2, it, Range(it, it));
      case 6 =>
        ErrorIsFirst(s, before, at, mark, was);
        return SyntaxError(3, it, Range(it, it));
      case 7 =>
        ErrorIsFirst(s, before, at, mark, was);
        return SyntaxError(4, it, Range(mark, it));
      case 8 =>
        ErrorIsFirst(s, before, at, mark, was);
        return SyntaxError(5, it, Range(mark, it));
      case _ =>
      }
      it := next;
    }
    forall c, r | Derives(s, c, r) ensures c == component && r == command {
      DerivesOne(s, c, r, component, command);
    }
    return Name(component, command);
  }

  /** What a round of the loop does, when it does not end with an error. */
  lemma Round(s: seq<Rune>, state: int, it: nat, mark: nat, component: Component)
    requires Reading(s, state, it, mark, component)
    ensures Viable(s[..it])
    ensures var entry := EntryAt(state, KindAt(s, it));
      && entry.action <= 8
      && (entry.next < 0 <==> entry.action == 3 || (entry.action >= 4 && EndsAt(s, it)))
      && (entry.action == 3 ==> Derives(s, component, Range(mark, it)))
      && (entry.action < 3 ==>
            && it < |s|
            && Reading(s, entry.next, it + 1, if entry.action == 0 then mark else it + 1,
                       if entry.action == 1 then ComponentAt(Range(mark, it)) else component))
  {
    ReadingIsViable(s, state, it, mark, component);
  }

  function Spelled(t: string): (s: seq<Rune>)
    ensures |s| == |t|
  {
    seq(|t|, i requires 0 <= i < |t| => t[i] as int)
  }

  lemma SpelledName(s: seq<Rune>, b: nat, name: string)
    requires b + |name| <= |s| && s[b..b + |name|] == Spelled(name)
    requires forall c :: c in name ==> c in NAME_CHARS
    ensures AllName(s, b, b + |name|)
  {
    hide IsNameRune, NAME_CHARS, Spelled;
    forall k | b <= k < b + |name| ensures IsNameRune(s[k]) {
      SpelledAt(name, k - b);
      assert s[k] == s[b..b + |name|][k - b];
      NameCharsAreRead(name[k - b]);
    }
  }

  lemma SpelledAt(t: string, i: nat)
    requires i < |t|
    ensures Spelled(t)[i] == t[i] as int
  {
  }

  lemma SpelledJoined(a: string, b: string)
    ensures Spelled(a + b) == Spelled(a) + Spelled(b)
  {
  }

  /** Whatever is spelled with the characters of names is found again as the name of a command. */
  lemma SpelledNamesDerive(component: string, command: string)
    requires command != "" && forall c :: c in component || c in command ==> c in NAME_CHARS
    ensures Derives(Spelled("/" + command), NoComponent, Range(1, 1 + |command|))
    ensures Derives(Spelled("/" + component + ":" + command), ComponentAt(Range(1, 1 + |component|)),
                    Range(|component| + 2, |component| + 2 + |command|))
  {
    hide IsNameRune, NAME_CHARS, IsWhitespace, Spelled, AllName;
    var short, long := Spelled("/" + command), Spelled("/" + component + ":" + command);
    SpelledJoined("/", command);
    SpelledJoined("/" + component + ":", command);
    SpelledJoined("/" + component, ":");
    SpelledJoined("/", component);
    SpelledAt("/", 0);
    SpelledAt(":", 0);
    assert short[1..1 + |command|] == Spelled(command);
    assert long[1..1 + |component|] == Spelled(component);
    assert long[|component| + 2..|component| + 2 + |command|] == Spelled(command);
    SpelledName(short, 1, command);
    SpelledName(long, 1, component);
    SpelledName(long, |component| + 2, command);
  }
}
