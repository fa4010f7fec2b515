/**
 `array_t`: an array of pipes in which every pipe remembers its own position, so that a pipe is
 found, swapped and removed in constant time. `fq_t`, `lb_t` and `dist_t` keep the pipes of interest
 at the front of such an array; the lemmas here say what swaps do to a front part.
 */
module PipeArray {
  import opened Sequences

  type Pipe = nat

  function Swapped(s: seq<Pipe>, i: nat, j: nat): (r: seq<Pipe>)
    requires i < |s| && j < |s|
    ensures |r| == |s|
  {
    s[i := s[j]][j := s[i]]
  }

  /** The last item takes the place of item `i`. */
  function Erased(s: seq<Pipe>, i: nat): (r: seq<Pipe>)
    requires i < |s|
  {
    s[i := s[|s| - 1]][..|s| - 1]
  }

  /** The pipes among the first `k`. */
  ghost function Front(s: seq<Pipe>, k: nat): set<Pipe>
    requires k <= |s|
  {
    set i | 0 <= i < k :: s[i]
  }

  lemma SwappedDistinct(s: seq<Pipe>, i: nat, j: nat)
    requires Distinct(s) && i < |s| && j < |s|
    ensures Distinct(Swapped(s, i, j))
  {
  }

  /** Moving the boundary by one takes in the item there. */
  lemma FrontGrows(s: seq<Pipe>, k: nat)
    requires Distinct(s) && k < |s|
    ensures s[k] !in Front(s, k) && Front(s, k + 1) == Front(s, k) + {s[k]}
  {
  }

  lemma FrontNests(s: seq<Pipe>, j: nat, k: nat)
    requires j <= k <= |s|
    ensures Front(s, j) <= Front(s, k)
  {
  }

  /** A swap within the front part or beyond it does not change which pipes are in it. */
  lemma SwapAside(s: seq<Pipe>, i: nat, j: nat, k: nat)
    requires i < |s| && j < |s| && k <= |s| && (i < k <==> j < k)
    ensures Front(Swapped(s, i, j), k) == Front(s, k)
  {
    var t := Swapped(s, i, j);
    forall p | p in Front(s, k) ensures p in Front(t, k) {
      var x :| 0 <= x < k && s[x] == p;
      assert t[if x == i then j else if x == j then i else x] == p;
    }
    forall p | p in Front(t, k) ensures p in Front(s, k) {
      var x :| 0 <= x < k && t[x] == p;
      assert s[if x == i then j else if x == j then i else x] == p;
    }
  }

  /** `p` gives way to `q`. */
  function Replaced(group: set<Pipe>, p: Pipe, q: Pipe): set<Pipe> {
    if p in group then group - {p} + {q} else group
  }

  /** A swap across the boundary exchanges one pipe for another. */
  lemma SwapAcross(s: seq<Pipe>, i: nat, j: nat, k: nat)
    requires Distinct(s) && i < k <= j < |s|
    ensures Front(Swapped(s, i, j), k) == Replaced(Front(s, k), s[i], s[j])
  {
    var t := Swapped(s, i, j);
    forall p | p in Front(s, k) - {s[i]} + {s[j]} ensures p in Front(t, k) {
      if p == s[j] {
        assert t[i] == p;
      } else {
        var x :| 0 <= x < k && s[x] == p;
        assert t[x] == p;
      }
    }
    forall p | p in Front(t, k) ensures p in Front(s, k) - {s[i]} + {s[j]} {
      var x :| 0 <= x < k && t[x] == p;
      if x != i { assert s[x] == p; }
    }
  }

  /** Brings item `i` to the boundary and moves the boundary over it: it joins the front part. */
  lemma Joins(s: seq<Pipe>, i: nat, k: nat)
    requires Distinct(s) && k <= i < |s|
    ensures Distinct(Swapped(s, i, k)) && Front(Swapped(s, i, k), k + 1) == Front(s, k) + {s[i]}
    ensures Swapped(s, i, k) == Swapped(s, k, i) && Swapped(s, i, k)[k] == s[i]
  {
    SwapAside(s, i, k, k);
    FrontGrows(Swapped(s, i, k), k);
  }

  /** Brings item `i` to the last place of the front part and moves the boundary before it: it leaves. */
  lemma Leaves(s: seq<Pipe>, i: nat, k: nat)
    requires Distinct(s) && i < k <= |s|
    ensures Distinct(Swapped(s, i, k - 1)) && Front(Swapped(s, i, k - 1), k - 1) == Front(s, k) - {s[i]}
    ensures Swapped(s, i, k - 1)[k - 1] == s[i]
  {
    SwapAside(s, i, k - 1, k);
    FrontGrows(Swapped(s, i, k - 1), k - 1);
  }

  /** Erasing an item at or beyond the boundary. */
  lemma ErasedFront(s: seq<Pipe>, i: nat, k: nat)
    requires Distinct(s) && k <= i < |s|
    ensures Distinct(Erased(s, i)) && Front(Erased(s, i), k) == Front(s, k)
    ensures Front(Erased(s, i), |s| - 1) == Front(s, |s|) - {s[i]}
  {
    var t := Erased(s, i);
    forall p | p in Front(s, |s|) - {s[i]} ensures p in Front(t, |s| - 1) {
      var x :| 0 <= x < |s| && s[x] == p;
      assert t[if x == |s| - 1 then i else x] == p;
    }
    forall p | p in Front(t, |s| - 1) ensures p in Front(s, |s|) - {s[i]} {
      var x :| 0 <= x < |s| - 1 && t[x] == p;
      if x != i { assert s[x] == p; } else { assert s[|s| - 1] == p; }
    }
    forall p | p in Front(s, k) ensures p in Front(t, k) {
      var x :| 0 <= x < k && s[x] == p;
      assert t[x] == p;
    }
    forall p | p in Front(t, k) ensures p in Front(s, k) {
      var x :| 0 <= x < k && t[x] == p;
      assert s[x] == p;
    }
  }

  lemma Appended(s: seq<Pipe>, p: Pipe, k: nat)
    requires Distinct(s) && p !in s && k <= |s|
    ensures Distinct(s + [p]) && Front(s + [p], k) == Front(s, k)
    ensures Front(s + [p], |s| + 1) == Front(s, |s|) + {p}
  {
    var t := s + [p];
    assert forall i :: 0 <= i < |s| ==> t[i] == s[i];
    assert Front(t, k) == Front(s, k) && Front(t, |s|) == Front(s, |s|);
    assert t[|s|] == p;
    FrontGrows(t, |s|);
  }

  /** The array and the positions stored in the pipes. */
  class Array {
    var items: seq<Pipe>
    var position: map<Pipe, nat>

    ghost predicate Valid()
      reads this
    {
      forall i :: 0 <= i < |items| ==> items[i] in position && position[items[i]] == i
    }

    lemma AllDistinct()
      requires Valid()
      ensures Distinct(items)
    {
      forall i, j | 0 <= i < j < |items| ensures items[i] != items[j] {
        assert position[items[i]] == i && position[items[j]] == j;
      }
    }

    constructor ()
      ensures Valid() && items == []
    {
      items, position := [], map[];
    }

    method PushBack(p: Pipe)
      requires Valid() && p !in items
      modifies this
      ensures Valid() && items == old(items) + [p]
    {
      position := position[p := |items|];
      items := items + [p];
    }

    method Swap(i: nat, j: nat)
      requires Valid() && i < |items| && j < |items|
      modifies this
      ensures Valid() && items == Swapped(old(items), i, j)
    {
      position := position[items[i] := j];
      position := position[items[j] := i];
      items := items[i := items[j]][j := items[i]];
    }

    method Index(p: Pipe) returns (i: nat)
      requires Valid() && p in items
      ensures i < |items| && items[i] == p
    {
      var k :| 0 <= k < |items| && items[k] == p;
      i := position[p];
    }

    /** Takes item `i` out; the last item moves to its place. */
    method EraseAt(i: nat)
      requires Valid() && i < |items|
      modifies this
      ensures Valid() && items == Erased(old(items), i)
    {
      AllDistinct();
      var last := items[|items| - 1];
      position := position[last := i];
      items := items[i := last];
      items := items[..|items| - 1];
    }

    method Erase(p: Pipe) returns (ghost i: nat)
      requires Valid() && p in items
      modifies this
      ensures Valid() && i < |old(items)| && old(items)[i] == p && items == Erased(old(items), i)
    {
      var place := Index(p);
      i := place;
      EraseAt(place);
    }
  }
}
