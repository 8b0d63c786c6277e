/** The order of strings, code unit by code unit. */
module Texts {
  predicate Before(a: string, b: string) {
    if b == "" then false
    else if a == "" then true
    else a[0] < b[0] || (a[0] == b[0] && Before(a[1..], b[1..]))
  }

  /** `a` and `b` are the same up to `k`, and there `a` ends or has the smaller code unit. */
  predicate SmallerAt(a: string, b: string, k: nat) {
    k <= |a| && k < |b| && a[..k] == b[..k] && (k == |a| || a[k] < b[k])
  }

  /** The order is decided by the first difference. */
  lemma {:induction false} BeforeIsByFirstDifference(a: string, b: string)
    ensures Before(a, b) <==> exists k: nat :: SmallerAt(a, b, k)
  {
    if b != "" && a != "" {
      BeforeIsByFirstDifference(a[1..], b[1..]);
      if a[0] < b[0] {
        assert SmallerAt(a, b, 0);
      } else if a[0] == b[0] {
        forall k: nat ensures SmallerAt(a[1..], b[1..], k) <==> SmallerAt(a, b, k + 1) { SmallerFurther(a, b, k); }
        if k: nat :| SmallerAt(a, b, k) {
          assert k > 0 && SmallerAt(a[1..], b[1..], k - 1);
        }
      } else {
        forall k: nat ensures !SmallerAt(a, b, k) { FirstDiffers(a, b, k); }
      }
    } else if b != "" {
      assert SmallerAt(a, b, 0);
    }
  }

  lemma FirstDiffers(a: string, b: string, k: nat)
    requires a != "" && b != "" && a[0] > b[0]
    ensures !SmallerAt(a, b, k)
  {
    if 0 < k <= |a| && k < |b| { assert a[..k][0] != b[..k][0]; }
  }

  lemma SmallerFurther(a: string, b: string, k: nat)
    requires a != "" && b != "" && a[0] == b[0]
    ensures SmallerAt(a[1..], b[1..], k) <==> SmallerAt(a, b, k + 1)
  {
    if k < |a| && k < |b| {
      assert a[..k + 1] == [a[0]] + a[1..][..k] && b[..k + 1] == [b[0]] + b[1..][..k];
    }
  }

  lemma {:induction false} BeforeIsTotal(a: string, b: string)
    ensures (Before(a, b) || a == b || Before(b, a))
    ensures !(Before(a, b) && Before(b, a)) && (a == b ==> !Before(a, b))
  {
    if a != "" && b != "" && a[0] == b[0] {
      BeforeIsTotal(a[1..], b[1..]);
      assert a == [a[0]] + a[1..] && b == [b[0]] + b[1..];
    }
  }

  lemma {:induction false} BeforeIsTransitive(a: string, b: string, c: string)
    requires Before(a, b) && Before(b, c)
    ensures Before(a, c)
  {
    if a != "" && a[0] == b[0] == c[0] { BeforeIsTransitive(a[1..], b[1..], c[1..]); }
  }

  /** A text is not before its own beginning. */
  lemma {:induction false} NotBeforePrefix(a: string, n: nat)
    requires n <= |a|
    ensures !Before(a, a[..n])
  {
    if n > 0 {
      assert a[..n][1..] == a[1..][..n - 1];
      NotBeforePrefix(a[1..], n - 1);
    }
  }
}
