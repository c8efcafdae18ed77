/** Order-preserving selection from a sequence, the shape of every filtering
    loop in the core. */
module Sequences {
  import StringOrder

  /** `a` is `b` with some elements left out, the rest kept in order. */
  ghost predicate IsSubsequence<T>(a: seq<T>, b: seq<T>)
  {
    || |a| == 0
    || (|b| > 0 && ((a[0] == b[0] && IsSubsequence(a[1..], b[1..])) || IsSubsequence(a, b[1..])))
  }

  lemma {:induction false} SubsequenceElements<T>(a: seq<T>, b: seq<T>)
    requires IsSubsequence(a, b)
    ensures |a| <= |b|
    ensures forall x :: x in a ==> x in b
  {
    if |a| > 0 {
      if a[0] == b[0] && IsSubsequence(a[1..], b[1..]) {
        SubsequenceElements(a[1..], b[1..]);
        assert forall x :: x in a ==> x == a[0] || x in a[1..];
      } else {
        SubsequenceElements(a, b[1..]);
      }
    }
  }

  /** Every string is below the ones after it. */
  ghost predicate StrictlyIncreasing(names: seq<string>)
  {
    forall i, j :: 0 <= i < j < |names| ==> StringOrder.Less(names[i], names[j])
  }

  /** Keeping part of a sorted sequence keeps it sorted. */
  lemma {:induction false} SubsequenceIncreasing(a: seq<string>, b: seq<string>)
    requires IsSubsequence(a, b) && StrictlyIncreasing(b)
    ensures StrictlyIncreasing(a)
  {
    if |a| > 0 {
      if a[0] == b[0] && IsSubsequence(a[1..], b[1..]) {
        SubsequenceIncreasing(a[1..], b[1..]);
        SubsequenceElements(a[1..], b[1..]);
        forall j | 1 <= j < |a|
          ensures StringOrder.Less(a[0], a[j])
        {
          assert a[j] in b[1..];
        }
      } else {
        SubsequenceIncreasing(a, b[1..]);
      }
    }
  }

  function Sum(xs: seq<int>): int
  {
    if |xs| == 0 then 0 else Sum(xs[..|xs| - 1]) + xs[|xs| - 1]
  }

  /** The sum can be taken from the front as well. */
  lemma {:induction false} SumCons(x: int, xs: seq<int>)
    ensures Sum([x] + xs) == x + Sum(xs)
  {
    if |xs| > 0 {
      var init := xs[..|xs| - 1];
      SumCons(x, init);
      assert ([x] + xs)[..|xs|] == [x] + init;
    }
  }

  /** `f` applied to every element, in order. */
  function Map<A, B>(f: A -> B, s: seq<A>): (r: seq<B>)
    ensures |r| == |s|
    ensures forall i :: 0 <= i < |s| ==> r[i] == f(s[i])
  {
    seq(|s|, i requires 0 <= i < |s| => f(s[i]))
  }

  lemma MapDrop<A, B>(f: A -> B, s: seq<A>, k: nat)
    requires k <= |s|
    ensures Map(f, s)[k..] == Map(f, s[k..])
  {
  }
}
