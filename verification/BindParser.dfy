/** The parse loop itself. */
module BindParser {
  import opened BindGrammar
  import opened BindTables
  import opened BindStacks
  import opened BindFinds
  import opened BindRuns
  import opened BindErrors

  /** The stack of a vector whose back is the top. */
  function ToStack(state: seq<int>): Stack {
    if state == [] then Nil else Cons(state[|state| - 1], ToStack(state[..|state| - 1]))
  }

  lemma ToStackPush(state: seq<int>, s: int)
    ensures ToStack(state + [s]) == Cons(s, ToStack(state))
  {
    assert (state + [s])[..|state|] == state;
  }

  /** The push loop of one production. */
  method Push(state: seq<int>, p: nat) returns (state': seq<int>)
    requires p < 31
    ensures ToStack(state') == Pushed(p, ToStack(state))
  {
    var pushes := PushMap(p);
    state' := state;
    for i := 0 to |pushes|
      invariant ToStack(state') == PushFirst(pushes, i, ToStack(state))
    {
      ToStackPush(state', pushes[i]);
      state' := state' + [pushes[i]];
    }
    PushedIsPushMap(p, ToStack(state));
  }

  lemma LastOffset(src: Source, k: nat)
    requires src.Valid() && k <= |src.classes|
    ensures src.At(k) == src.At(|src.classes|) <==> k == |src.classes|
  {
  }

  /** `parse_bind_string`. The internal-error branches are there, as in the source (a state below -3
      would call an empty slot of the action table); `Meets` says that they cannot be taken. */
  method ParseBindString(src: Source, matchAll: bool) returns (r: ParseResult)
    requires src.Valid()
    ensures Sane(src, START) && r == Parse(src, Run(src, matchAll, START))
    ensures Meets(src, matchAll, r)
  {
    hide Meets;
    var keys: seq<ParsedKey>, flags: seq<ParsedFlag>, marks: seq<nat> := [], [], [];
    var state := [START_STATE];
    var pos := 0;
    ToStackPush([], START_STATE);
    assert [] + [START_STATE] == state;
    ghost var k := START;
    StartIsSane(src);
    ParseMeetsGrammar(src, matchAll);
    while state != []
      invariant pos <= |src.classes|
      invariant k == Config(ToStack(state), pos, marks, keys, flags)
      invariant Sane(src, k)
      invariant Run(src, matchAll, k) == Run(src, matchAll, START)
      decreases |src.classes| - pos, Rank(k.stack, src.Class(pos))
    {
      var current := state[|state| - 1];
      state := state[..|state| - 1];
      var index := src.At(pos);
      if current >= 0 {
        var input := src.Class(pos);
        var transition := Entry(current, input);
        if transition < 0 {
          if transition < -2 && !matchAll {
            return Parsed(keys, flags, index);
          }
          return Failed(TableError(src, current, transition, pos, marks));
        }
        if input == current {
          pos := pos + 1;
        }
        ghost var rest := state;
        state := Push(state, transition);
        if current < 10 {
          TerminalEntry(current, input);
        } else {
          StartIsNotEnd(current, input);
          TypedExpand(current, input, ToStack(rest), |marks|);
          RankFalls(current, input, ToStack(rest));
        }
        k := Config(ToStack(state), pos, marks, keys, flags);
      } else {
        k := Act(src, k);
        if current == -1 {
          marks := marks + [index];
        } else if current == -2 {
          if |marks| != 1 && |marks| != 3 { return Failed(InternalError(|marks|)); }
          keys := keys + [CompleteKey(marks, index)];
          marks := [];
        } else if current < -3 {
          return Failed(InternalError(current));
        } else {
          if |marks| != 1 && |marks| != 2 { return Failed(InternalError(|marks|)); }
          flags := flags + [CompleteFlag(marks, index)];
          marks := [];
        }
      }
    }
    LastOffset(src, pos);
    if matchAll && src.At(pos) != src.At(|src.classes|) {
      return Failed(SyntaxError(START_STATE, 1, src.At(pos), src.At(pos), src.At(|src.classes|)));
    }
    return Parsed(keys, flags, src.At(pos));
  }

  /** The number of the start state is also the class of the end of input; the loop's test for a taken
      token does not confuse them because that entry is an error. */
  lemma StartIsNotEnd(s: nat, c: nat)
    requires 10 <= s < 34 && c <= END && 0 <= Entry(s, c)
    ensures s != c
  {
  }
}
