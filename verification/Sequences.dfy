/** Sequences without repetitions. */
module Sequences {

  predicate Distinct<T(==)>(s: seq<T>) {
    forall i, j :: 0 <= i < j < |s| ==> s[i] != s[j]
  }

  lemma ConcatDistinct<T>(s: seq<T>, u: seq<T>)
    requires Distinct(s) && Distinct(u) && forall x :: !(x in s && x in u)
    ensures Distinct(s + u)
  {
    forall i, j | 0 <= i < j < |s + u| ensures (s + u)[i] != (s + u)[j] {
      if i < |s| <= j { assert s[i] in s && u[j - |s|] in u; }
    }
  }
}
