/** Sequences: without repetitions, turned around, and split by a mask. */
module Sequences {
  predicate Distinct<T(==)>(s: seq<T>) {
    forall i, j :: 0 <= i < j < |s| ==> s[i] != s[j]
  }

  function Members<T>(s: seq<T>): set<T> {
    set x | x in s
  }

  lemma MemberAt<T>(s: seq<T>, i: nat)
    requires i < |s|
    ensures s[i] in Members(s)
  {
  }

  lemma {:induction false} DistinctSize<T>(s: seq<T>)
    requires Distinct(s)
    ensures |Members(s)| == |s|
  {
    if s != [] {
      var t, x := s[..|s| - 1], s[|s| - 1];
      assert Distinct(t) && x !in t;
      DistinctSize(t);
      assert s == t + [x];
      assert Members(s) == Members(t) + {x};
    }
  }

  /** The members of a set, one after the other. */
  lemma {:induction false} Listed<T>(s: set<T>) returns (items: seq<T>)
    ensures Distinct(items) && Members(items) == s
    decreases |s|
  {
    items := [];
    if s != {} {
      var x :| x in s;
      var rest := Listed(s - {x});
      items := [x] + rest;
      assert x !in Members(rest) && Members(items) == {x} + Members(rest);
    }
  }

  lemma SubsetSize<T>(a: set<T>, b: set<T>)
    requires a <= b
    ensures |a| <= |b|
    ensures |a| == |b| ==> a == b
  {
    assert b == a + (b - a);
  }

  /** More places than values: two places hold the same value. */
  lemma Pigeonhole<T>(s: seq<T>, values: set<T>) returns (i: nat, j: nat)
    requires forall k :: 0 <= k < |s| ==> s[k] in values
    requires |s| > |values|
    ensures i < j < |s| && s[i] == s[j]
  {
    if Distinct(s) {
      DistinctSize(s);
      SubsetSize(Members(s), values);
      assert false;
    }
    i, j :| 0 <= i < j < |s| && s[i] == s[j];
  }

  function Reversed<T>(items: seq<T>): (r: seq<T>)
    ensures |r| == |items| && forall k :: 0 <= k < |items| ==> r[k] == items[|items| - 1 - k]
  {
    if items == [] then [] else Reversed(items[1..]) + [items[0]]
  }

  lemma {:induction false} ReversedConserves<T>(items: seq<T>)
    ensures multiset(Reversed(items)) == multiset(items)
  {
    if items != [] {
      assert items == [items[0]] + items[1..];
      ReversedConserves(items[1..]);
    }
  }

  /** The elements of `items` that `mask` marks, or leaves unmarked. */
  function Select<T>(items: seq<T>, mask: seq<bool>, marked: bool): (r: seq<T>)
    requires |mask| == |items|
  {
    if items == [] then []
    else (if mask[0] == marked then [items[0]] else []) + Select(items[1..], mask[1..], marked)
  }

  lemma SelectFirst<T>(items: seq<T>, mask: seq<bool>, marked: bool)
    requires |mask| == |items| > 0
    ensures var rest := Select(items[1..], mask[1..], marked);
      Select(items, mask, marked) == if mask[0] == marked then [items[0]] + rest else rest
  {
  }

  lemma {:induction false} SelectConserves<T>(items: seq<T>, mask: seq<bool>)
    requires |mask| == |items|
    ensures multiset(Select(items, mask, true)) + multiset(Select(items, mask, false)) == multiset(items)
    ensures |Select(items, mask, true)| + |Select(items, mask, false)| == |items|
  {
    if items != [] {
      assert items == [items[0]] + items[1..];
      SelectConserves(items[1..], mask[1..]);
    }
  }

  /** The marked elements in order, and after them the others, turned around. */
  function Split<T>(items: seq<T>, mask: seq<bool>): (r: seq<T>)
    requires |mask| == |items|
    ensures |r| == |items|
  {
    SelectConserves(items, mask);
    Select(items, mask, true) + Reversed(Select(items, mask, false))
  }

  lemma SplitConserves<T>(items: seq<T>, mask: seq<bool>)
    requires |mask| == |items|
    ensures multiset(Split(items, mask)) == multiset(items)
  {
    SelectConserves(items, mask);
    ReversedConserves(Select(items, mask, false));
  }

  lemma SplitKeeps<T>(items: seq<T>, mask: seq<bool>, x: T)
    requires |mask| == |items|
    ensures x in Split(items, mask) <==> x in items
  {
    SplitConserves(items, mask);
    assert x in Split(items, mask) <==> x in multiset(Split(items, mask));
    assert x in items <==> x in multiset(items);
  }

  lemma SplitTaken<T>(items: seq<T>, mask: seq<bool>)
    requires |mask| == |items| > 0 && mask[0]
    ensures Split(items, mask) == [items[0]] + Split(items[1..], mask[1..])
  {
  }

  lemma SplitDelayed<T>(items: seq<T>, mask: seq<bool>)
    requires |mask| == |items| > 0 && !mask[0]
    ensures Split(items, mask) == Split(items[1..], mask[1..]) + [items[0]]
  {
    var rest := Select(items[1..], mask[1..], false);
    assert ([items[0]] + rest)[1..] == rest;
  }

  /** The elements that are not in `b`. */
  function Outside<T(==)>(list: seq<T>, b: set<T>): seq<T> {
    if list == [] then []
    else
      var rest, last := Outside(list[..|list| - 1], b), list[|list| - 1];
      if last in b then rest else rest + [last]
  }

  lemma OutsideNext<T>(list: seq<T>, n: T, b: set<T>)
    ensures Outside(list + [n], b) == if n in b then Outside(list, b) else Outside(list, b) + [n]
  {
    assert (list + [n])[..|list|] == list;
  }

  /** Nothing outside has been added. */
  lemma {:induction false} SameOutside<T>(list: seq<T>, more: seq<T>, b: set<T>)
    requires forall n :: n in more ==> n in b
    ensures Outside(list + more, b) == Outside(list, b)
  {
    if more == [] {
      assert list + more == list;
    } else {
      var prefix, n := more[..|more| - 1], more[|more| - 1];
      assert n in b;
      SameOutside(list, prefix, b);
      OutsideNext(list + prefix, n, b);
      assert list + more == (list + prefix) + [n];
    }
  }

  lemma {:induction false} OutsideHas<T>(list: seq<T>, b: set<T>, n: T)
    ensures n in Outside(list, b) <==> n in list && n !in b
  {
    if list != [] {
      OutsideHas(list[..|list| - 1], b, n);
      assert list == list[..|list| - 1] + [list[|list| - 1]];
    }
  }
}
