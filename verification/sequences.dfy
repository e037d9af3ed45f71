/** Order-preserving selection from sequences (the LINQ `Where` of the source). */
module Sequences {

  /** The elements of `s` that satisfy `f`, in their order in `s`. */
  function Filter<T(==, !new)>(s: seq<T>, f: T -> bool): (r: seq<T>)
    ensures |r| <= |s|
    ensures forall i :: 0 <= i < |r| ==> f(r[i])
    ensures forall x :: x in r <==> x in s && f(x)
  {
    if s == [] then []
    else if f(s[0]) then [s[0]] + Filter(s[1..], f)
    else Filter(s[1..], f)
  }

  /** `a` can be obtained from `b` by deleting elements: `a` keeps `b`'s relative order. */
  predicate IsSubsequence<T(==)>(a: seq<T>, b: seq<T>)
    decreases |b|
  {
    if a == [] then true
    else if b == [] then false
    else if a[0] == b[0] then IsSubsequence(a[1..], b[1..])
    else IsSubsequence(a, b[1..])
  }

  /** Filtering never reorders: the selection is a subsequence of its input. */
  lemma {:induction false} FilterIsSubsequence<T(!new)>(s: seq<T>, f: T -> bool)
    ensures IsSubsequence(Filter(s, f), s)
  {
    if s != [] {
      FilterIsSubsequence(s[1..], f);
      if !f(s[0]) && Filter(s[1..], f) != [] {
        // the first selected element still has to be found in `s[1..]`
        assert Filter(s, f) == Filter(s[1..], f);
      }
    }
  }

  /** Filtering keeps every selected element as often as it occurs in the input, and no other. */
  lemma {:induction false} FilterCount<T(!new)>(s: seq<T>, f: T -> bool)
    ensures forall x :: multiset(Filter(s, f))[x] == if f(x) then multiset(s)[x] else 0
  {
    if s != [] {
      FilterCount(s[1..], f);
      assert s == [s[0]] + s[1..];
      assert multiset(s) == multiset([s[0]]) + multiset(s[1..]);
    }
  }
}
