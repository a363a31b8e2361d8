/** Sums over sequences and finite sets, used by the solvers' specifications
    wherever the source adds up values (`Iterator::sum`, running totals). */
module Sums {

  /** Sum of a sequence of integers, folded from the left. */
  function SeqSum(s: seq<int>): int
  {
    if s == [] then 0 else SeqSum(s[..|s| - 1]) + s[|s| - 1]
  }

  lemma {:induction false} SeqSumAppend(s: seq<int>, t: seq<int>)
    ensures SeqSum(s + t) == SeqSum(s) + SeqSum(t)
    decreases |t|
  {
    if t == [] {
      assert s + t == s;
    } else {
      assert (s + t)[..|s + t| - 1] == s + t[..|t| - 1];
      SeqSumAppend(s, t[..|t| - 1]);
    }
  }

  lemma {:induction false} SeqSumNonNegative(s: seq<int>)
    requires forall i :: 0 <= i < |s| ==> s[i] >= 0
    ensures SeqSum(s) >= 0
    decreases |s|
  {
    if s != [] { SeqSumNonNegative(s[..|s| - 1]); }
  }

  /** Sum of `f` over a finite set; the order in which elements are taken does not matter. */
  ghost function SetSum<T>(s: set<T>, f: T -> int): int
    decreases s
  {
    if s == {} then 0 else var x :| x in s; f(x) + SetSum(s - {x}, f)
  }

  /** Any element can be taken out of a set sum first. */
  lemma {:induction false} SetSumRemove<T>(s: set<T>, f: T -> int, y: T)
    requires y in s
    ensures SetSum(s, f) == f(y) + SetSum(s - {y}, f)
    decreases s
  {
    var x :| x in s && SetSum(s, f) == f(x) + SetSum(s - {x}, f);
    if x != y {
      SetSumRemove(s - {x}, f, y);
      SetSumRemove(s - {y}, f, x);
      assert s - {x} - {y} == s - {y} - {x};
    }
  }

  /** Adding an element not yet in the set adds its value. */
  lemma SetSumInsert<T>(s: set<T>, f: T -> int, y: T)
    requires y !in s
    ensures SetSum(s + {y}, f) == SetSum(s, f) + f(y)
  {
    SetSumRemove(s + {y}, f, y);
    assert s + {y} - {y} == s;
  }

  /** Set sums of two functions that agree on the set are equal. */
  lemma {:induction false} SetSumCongruent<T>(s: set<T>, f: T -> int, g: T -> int)
    requires forall x :: x in s ==> f(x) == g(x)
    ensures SetSum(s, f) == SetSum(s, g)
    decreases s
  {
    if s != {} {
      var x :| x in s;
      SetSumRemove(s, f, x);
      SetSumRemove(s, g, x);
      SetSumCongruent(s - {x}, f, g);
    }
  }

  /** Changing one element's value changes the sum by the difference. */
  lemma SetSumUpdate<T>(s: set<T>, f: T -> int, g: T -> int, y: T)
    requires y in s
    requires forall x :: x in s && x != y ==> f(x) == g(x)
    ensures SetSum(s, g) == SetSum(s, f) - f(y) + g(y)
  {
    SetSumRemove(s, f, y);
    SetSumRemove(s, g, y);
    SetSumCongruent(s - {y}, f, g);
  }

  lemma {:induction false} SetSumNonNegative<T>(s: set<T>, f: T -> int)
    requires forall x :: x in s ==> f(x) >= 0
    ensures SetSum(s, f) >= 0
    decreases s
  {
    if s != {} {
      var x :| x in s;
      SetSumRemove(s, f, x);
      SetSumNonNegative(s - {x}, f);
    }
  }

  /** A sequence without repeats has as many elements as the set of its
      elements. */
  lemma {:induction false} DistinctCard<T>(s: seq<T>, elements: set<T>)
    requires forall i, j :: 0 <= i < j < |s| ==> s[i] != s[j]
    requires forall p :: p in elements <==> p in s
    ensures |elements| == |s|
  {
    if s != [] {
      var n := |s| - 1;
      DistinctCard(s[..n], elements - {s[n]});
    }
  }
}
