/**
 A radix tree without its memory: every node is named by the key that leads to it. The node at key
 `k` below `parent` carries the prefix `k[|parent|..]`.
 */
module RadixSpec {
  import opened Bytes
  import opened Sequences

  datatype Node = Node(refs: nat, parent: Key, kids: seq<Key>)

  type Tree = map<Key, Node>

  predicate Below(k: Key, parent: Key) {
    |parent| < |k| && parent <= k
  }

  /** The node at `k` is an edge of its parent. */
  predicate Hangs(t: Tree, k: Key)
    requires k in t
  {
    var p := t[k].parent;
    if k == [] then p == [] else p in t && Below(k, p) && k in t[p].kids
  }

  /** The edges of `k` lead to its children and start with different bytes. */
  predicate Edges(t: Tree, k: Key)
    requires k in t
  {
    && (forall c :: c in t[k].kids ==> c in t && Below(c, k) && t[c].parent == k)
    && (forall i, j :: 0 <= i < j < |t[k].kids| ==> Differ(t[k].kids[i], t[k].kids[j], |k|))
  }

  predicate Differ(c: Key, d: Key, n: nat) {
    |c| > n && |d| > n && c[n] != d[n]
  }

  predicate NodeOk(t: Tree, k: Key) {
    k in t && Hangs(t, k) && Edges(t, k)
  }

  predicate WellFormed(t: Tree) {
    [] in t && forall k {:trigger NodeOk(t, k)} :: k in t ==> NodeOk(t, k)
  }

  /** A node other than the root that holds no key has at least two edges. */
  predicate Compressed(t: Tree) {
    forall k :: k in t && k != [] && t[k].refs == 0 ==> |t[k].kids| >= 2
  }

  function Count(t: Tree, k: Key): nat {
    if k in t then t[k].refs else 0
  }

  // ---------------------------------------------------------------- finding a node

  lemma OneEdgePerByte(t: Tree, k: Key, c: Key, d: Key)
    requires NodeOk(t, k) && c in t[k].kids && d in t[k].kids && c[|k|] == d[|k|]
    ensures c == d
  {
    var i :| 0 <= i < |t[k].kids| && t[k].kids[i] == c;
    var j :| 0 <= j < |t[k].kids| && t[k].kids[j] == d;
    assert i < j ==> Differ(t[k].kids[i], t[k].kids[j], |k|);
    assert j < i ==> Differ(t[k].kids[j], t[k].kids[i], |k|);
  }

  /** Below `p`, the way to `q` starts with an edge of `p`. */
  lemma {:induction false} WayDown(t: Tree, p: Key, q: Key) returns (c: Key)
    requires WellFormed(t) && p in t && q in t && Below(q, p)
    ensures c in t[p].kids && Below(c, p) && c <= q
    decreases |q|
  {
    assert NodeOk(t, q) && NodeOk(t, p);
    var r := t[q].parent;
    if |r| > |p| {
      assert r[..|p|] == q[..|p|] == p;
      c := WayDown(t, p, r);
      assert c == r[..|c|] == q[..|c|];
    } else if |r| == |p| {
      assert r == q[..|r|] == p;
      c := q;
    } else {
      assert p[..|r|] == q[..|r|] == r;
      c := WayDown(t, r, p);
      assert c[|r|] == p[|r|] == q[|r|];
      assert NodeOk(t, r);
      OneEdgePerByte(t, r, c, q);
      assert false;
    }
  }

  /** If no edge of `p` leads towards `key`, no node lies on or beyond the way to `key`. */
  lemma NoWay(t: Tree, p: Key, key: Key)
    requires WellFormed(t) && p in t && Below(key, p)
    requires forall c :: c in t[p].kids ==> Differ(c, key, |p|)
    ensures forall q :: q in t && Below(q, p) ==> q[|p|] != key[|p|]
    ensures key !in t
  {
    forall q | q in t && Below(q, p) ensures q[|p|] != key[|p|] {
      var c := WayDown(t, p, q);
      assert Differ(c, key, |p|) && c[|p|] == q[|p|];
    }
  }

  /** Inside the edge that leads to `cur` there is no other node. */
  lemma NothingInside(t: Tree, cur: Key, k: Key)
    requires WellFormed(t) && cur in t && cur != []
    requires Below(k, t[cur].parent) && |cur| > |t[cur].parent| && k[|t[cur].parent|] == cur[|t[cur].parent|]
    requires !(cur <= k)
    ensures k !in t
  {
    assert NodeOk(t, cur);
    if k in t {
      var p := t[cur].parent;
      assert NodeOk(t, p);
      var c := WayDown(t, p, k);
      OneEdgePerByte(t, p, c, cur);
      assert false;
    }
  }

  // ---------------------------------------------------------------- adding

  /** The edge of its parent that leads to `k`. */
  predicate EdgeTo(t: Tree, e: nat, k: Key) {
    k in t && t[k].parent in t && e < |t[t[k].parent].kids| && t[t[k].parent].kids[e] == k
  }

  /** Replaces the target of edge `e` of `p`. */
  function Redirect(t: Tree, p: Key, e: nat, c: Key): Tree
    requires p in t && e < |t[p].kids|
  {
    t[p := t[p].(kids := t[p].kids[e := c])]
  }

  function SetRefs(t: Tree, k: Key, n: nat): Tree
    requires k in t
  {
    t[k := t[k].(refs := n)]
  }

  lemma SetRefsKeeps(t: Tree, k: Key, n: nat)
    requires WellFormed(t) && k in t
    ensures WellFormed(SetRefs(t, k, n))
  {
    var u := SetRefs(t, k, n);
    forall x | x in u ensures NodeOk(u, x) { assert NodeOk(t, x); }
  }

  /** A new leaf below `cur`, as its first or its last edge. */
  function AddLeaf(t: Tree, cur: Key, key: Key, first: bool): Tree
    requires cur in t
  {
    var kids := if first then [key] + t[cur].kids else t[cur].kids + [key];
    t[cur := t[cur].(kids := kids)][key := Node(1, cur, [])]
  }

  lemma AddLeafKeeps(t: Tree, cur: Key, key: Key, first: bool)
    requires WellFormed(t) && cur in t && Below(key, cur)
    requires forall c :: c in t[cur].kids ==> Differ(c, key, |cur|)
    ensures key !in t && WellFormed(AddLeaf(t, cur, key, first))
  {
    NoWay(t, cur, key);
    var u := AddLeaf(t, cur, key, first);
    forall k | k in u ensures NodeOk(u, k) {
      if k == cur {
        LeafEdges(t, cur, key, first);
      } else if k != key {
        assert NodeOk(t, k);
      }
    }
  }

  lemma LeafEdges(t: Tree, cur: Key, key: Key, first: bool)
    requires NodeOk(t, cur) && key !in t && Below(key, cur)
    requires forall c :: c in t[cur].kids ==> Differ(c, key, |cur|)
    ensures Edges(AddLeaf(t, cur, key, first), cur)
  {
    var before := t[cur].kids;
    var kids := AddLeaf(t, cur, key, first)[cur].kids;
    assert kids == if first then [key] + before else before + [key];
    forall i, j | 0 <= i < j < |kids| ensures Differ(kids[i], kids[j], |cur|) {
      if first {
        assert kids[j] == before[j - 1] && before[j - 1] in before;
      } else {
        assert kids[i] == before[i] && before[i] in before;
      }
    }
  }

  /** Puts a node at `mid` into the edge that leads to `cur`. */
  function Interpose(t: Tree, e: nat, cur: Key, mid: Key, refs: nat): Tree
    requires EdgeTo(t, e, cur)
  {
    var p := t[cur].parent;
    Redirect(t, p, e, mid)[mid := Node(refs, p, [cur])][cur := t[cur].(parent := mid)]
  }

  predicate CanInterpose(t: Tree, e: nat, cur: Key, mid: Key) {
    WellFormed(t) && EdgeTo(t, e, cur) && cur != [] && Below(mid, t[cur].parent) && Below(cur, mid)
  }

  lemma InterposeKeeps(t: Tree, e: nat, cur: Key, mid: Key, refs: nat)
    requires CanInterpose(t, e, cur, mid)
    ensures mid !in t && WellFormed(Interpose(t, e, cur, mid, refs))
    ensures Compressed(t) && refs > 0 ==> Compressed(Interpose(t, e, cur, mid, refs))
  {
    var p := t[cur].parent;
    NothingInside(t, cur, mid);
    var u := Interpose(t, e, cur, mid, refs);
    forall k | k in u ensures NodeOk(u, k) {
      if k == mid || k == cur {
        InterposedEnds(t, e, cur, mid, refs);
      } else if k == p {
        InterposedParent(t, e, cur, mid, refs);
      } else {
        InterposedOther(t, e, cur, mid, refs, k);
      }
    }
  }

  lemma InterposedEnds(t: Tree, e: nat, cur: Key, mid: Key, refs: nat)
    requires CanInterpose(t, e, cur, mid) && mid !in t
    ensures NodeOk(Interpose(t, e, cur, mid, refs), mid) && NodeOk(Interpose(t, e, cur, mid, refs), cur)
  {
    var p, u := t[cur].parent, Interpose(t, e, cur, mid, refs);
    assert NodeOk(t, p) && NodeOk(t, cur);
    assert u[p].kids[e] == mid;
  }

  lemma InterposedParent(t: Tree, e: nat, cur: Key, mid: Key, refs: nat)
    requires CanInterpose(t, e, cur, mid) && mid !in t
    ensures NodeOk(Interpose(t, e, cur, mid, refs), t[cur].parent)
  {
    var p := t[cur].parent;
    assert NodeOk(t, p) && NodeOk(t, cur);
    RedirectedEdges(t, p, e, cur, mid);
    if p != [] { assert t[p].parent != p; }
  }

  lemma InterposedOther(t: Tree, e: nat, cur: Key, mid: Key, refs: nat, k: Key)
    requires CanInterpose(t, e, cur, mid) && mid !in t && k in t && k != cur && k != t[cur].parent
    ensures NodeOk(Interpose(t, e, cur, mid, refs), k)
  {
    assert NodeOk(t, k);
    OtherEdgeStays(t, t[cur].parent, e, mid, k);
  }

  /** Redirecting an edge to a key that starts with the same byte keeps the edges distinct. */
  lemma RedirectedEdges(t: Tree, p: Key, e: nat, was: Key, c: Key)
    requires NodeOk(t, p) && e < |t[p].kids| && t[p].kids[e] == was && Below(c, p) && |was| > |p| && c[|p|] == was[|p|]
    ensures var kids := t[p].kids[e := c];
            forall i, j :: 0 <= i < j < |kids| ==> Differ(kids[i], kids[j], |p|)
    ensures was !in t[p].kids[e := c] || was == c
  {
    var kids := t[p].kids[e := c];
    forall i, j | 0 <= i < j < |kids| ensures Differ(kids[i], kids[j], |p|) {
      assert Differ(t[p].kids[i], t[p].kids[j], |p|);
    }
    forall i | 0 <= i < |kids| && i != e ensures kids[i] != was {
      assert i < e ==> Differ(t[p].kids[i], t[p].kids[e], |p|);
      assert e < i ==> Differ(t[p].kids[e], t[p].kids[i], |p|);
    }
  }

  lemma OtherEdgeStays(t: Tree, p: Key, e: nat, c: Key, k: Key)
    requires p in t && e < |t[p].kids|
    ensures k in t[p].kids && k != t[p].kids[e] ==> k in t[p].kids[e := c]
  {
    if k in t[p].kids && k != t[p].kids[e] {
      var i :| 0 <= i < |t[p].kids| && t[p].kids[i] == k;
      assert t[p].kids[e := c][i] == k;
    }
  }

  /** Splits the edge to `cur` at `mid` and hangs a leaf for `key` beside `cur`. */
  function Split(t: Tree, e: nat, cur: Key, mid: Key, key: Key): Tree
    requires EdgeTo(t, e, cur)
  {
    AddLeaf(Interpose(t, e, cur, mid, 0), mid, key, true)
  }

  lemma SplitKeeps(t: Tree, e: nat, cur: Key, mid: Key, key: Key)
    requires CanInterpose(t, e, cur, mid) && Below(key, mid) && key[|mid|] != cur[|mid|]
    ensures mid !in t && key !in t && WellFormed(Split(t, e, cur, mid, key))
    ensures Compressed(t) ==> Compressed(Split(t, e, cur, mid, key))
  {
    InterposeKeeps(t, e, cur, mid, 0);
    AddLeafKeeps(Interpose(t, e, cur, mid, 0), mid, key, true);
    var p := t[cur].parent;
    assert forall k :: k in t && k != p && k != cur ==> Split(t, e, cur, mid, key)[k] == t[k];
  }

  // ---------------------------------------------------------------- removing

  function SwapOut(kids: seq<Key>, e: nat): seq<Key>
    requires e < |kids|
  {
    kids[e := kids[|kids| - 1]][..|kids| - 1]
  }

  lemma SwapOutKeeps(kids: seq<Key>, e: nat, n: nat)
    requires e < |kids| && forall i, j :: 0 <= i < j < |kids| ==> Differ(kids[i], kids[j], n)
    ensures var rest := SwapOut(kids, e);
            && (forall i, j :: 0 <= i < j < |rest| ==> Differ(rest[i], rest[j], n))
            && (forall c :: c in rest <==> c in kids && c != kids[e])
  {
    var rest, last := SwapOut(kids, e), |kids| - 1;
    forall i, j | 0 <= i < j < |rest| ensures Differ(rest[i], rest[j], n) {
      assert Differ(kids[i], kids[if j == e then last else j], n);
      assert i == e ==> Differ(kids[j], kids[last], n);
    }
    forall i | 0 <= i < |kids| && i != e ensures kids[i] != kids[e] && kids[i] in rest {
      assert i < e ==> Differ(kids[i], kids[e], n);
      assert e < i ==> Differ(kids[e], kids[i], n);
      assert rest[if i == last then e else i] == kids[i];
    }
    forall c | c in rest ensures c in kids && c != kids[e] {
      var i :| 0 <= i < |rest| && rest[i] == c;
      assert c == kids[if i == e then last else i];
    }
  }

  function RemoveLeaf(t: Tree, e: nat, key: Key): Tree
    requires EdgeTo(t, e, key)
  {
    var p := t[key].parent;
    (t - {key})[p := t[p].(kids := SwapOut(t[p].kids, e))]
  }

  lemma RemoveLeafKeeps(t: Tree, e: nat, key: Key)
    requires WellFormed(t) && EdgeTo(t, e, key) && key != [] && t[key].kids == []
    ensures WellFormed(RemoveLeaf(t, e, key))
  {
    var p := t[key].parent;
    var u := RemoveLeaf(t, e, key);
    assert NodeOk(t, key) && NodeOk(t, p);
    SwapOutKeeps(t[p].kids, e, |p|);
    forall k | k in u ensures NodeOk(u, k) {
      assert NodeOk(t, k);
    }
  }

  /** Takes out a node that holds no key and has one edge; its child takes its place. */
  function MergeDown(t: Tree, e: nat, k: Key): Tree
    requires EdgeTo(t, e, k) && |t[k].kids| == 1 && t[k].kids[0] in t && k != t[k].parent
  {
    var p, c := t[k].parent, t[k].kids[0];
    (Redirect(t, p, e, c) - {k})[c := t[c].(parent := p)]
  }

  lemma MergeDownKeeps(t: Tree, e: nat, k: Key)
    requires WellFormed(t) && EdgeTo(t, e, k) && k != [] && |t[k].kids| == 1
    ensures t[k].kids[0] in t && k != t[k].parent && WellFormed(MergeDown(t, e, k))
  {
    var p, c := t[k].parent, t[k].kids[0];
    assert NodeOk(t, k) && NodeOk(t, p);
    assert c in t[k].kids;
    assert NodeOk(t, c);
    var u := MergeDown(t, e, k);
    RedirectedEdges(t, p, e, k, c);
    forall x | x in u ensures NodeOk(u, x) {
      assert NodeOk(t, x);
      OtherEdgeStays(t, p, e, c, x);
      if x == c { assert u[p].kids[e] == c; }
    }
  }

  /** The tree after one copy of `key` went; `e` leads to `key` and `ge` to its parent. */
  function Remove(t: Tree, e: nat, ge: nat, key: Key): Tree
    requires CanRemove(t, e, ge, key)
  {
    var u := SetRefs(t, key, t[key].refs - 1);
    if u[key].refs > 0 || key == [] || |u[key].kids| > 1 then u
    else if |u[key].kids| == 1 then
      MergeDownKeeps(SetRefsKept(t, key), e, key);
      MergeDown(u, e, key)
    else
      var p := u[key].parent;
      if |u[p].kids| == 2 && u[p].refs == 0 && p != [] then
        LeafThenMerge(SetRefsKept(t, key), e, ge, key);
        MergeDown(RemoveLeaf(u, e, key), ge, p)
      else RemoveLeaf(u, e, key)
  }

  predicate CanRemove(t: Tree, e: nat, ge: nat, key: Key) {
    && WellFormed(t) && key in t && t[key].refs > 0
    && (key != [] ==> EdgeTo(t, e, key))
    && (key != [] && t[key].parent != [] ==> EdgeTo(t, ge, t[key].parent))
  }

  /** The tree with one copy fewer, still well formed. */
  function SetRefsKept(t: Tree, key: Key): (u: Tree)
    requires WellFormed(t) && key in t && t[key].refs > 0
    ensures WellFormed(u) && u == SetRefs(t, key, t[key].refs - 1)
  {
    SetRefsKeeps(t, key, t[key].refs - 1);
    SetRefs(t, key, t[key].refs - 1)
  }

  lemma LeafThenMerge(u: Tree, e: nat, ge: nat, key: Key)
    requires WellFormed(u) && EdgeTo(u, e, key) && key != [] && u[key].kids == []
    requires u[key].parent != [] && EdgeTo(u, ge, u[key].parent) && |u[u[key].parent].kids| == 2
    ensures var v, p := RemoveLeaf(u, e, key), u[key].parent;
            && WellFormed(v) && EdgeTo(v, ge, p) && |v[p].kids| == 1
            && v[p].kids[0] == u[p].kids[1 - e] && v[p].kids[0] in v && p != v[p].parent
            && WellFormed(MergeDown(v, ge, p))
  {
    var v, p := RemoveLeaf(u, e, key), u[key].parent;
    assert NodeOk(u, key) && NodeOk(u, p);
    RemoveLeafKeeps(u, e, key);
    assert u[p].parent != p && u[p].parent != key;
    assert v[p].parent == u[p].parent && v[v[p].parent] == u[u[p].parent];
    MergeDownKeeps(v, ge, p);
  }

  lemma MergeDownCounts(t: Tree, e: nat, k: Key)
    requires WellFormed(t) && EdgeTo(t, e, k) && k != [] && |t[k].kids| == 1 && t[k].refs == 0
    requires t[k].kids[0] in t && k != t[k].parent
    ensures var u := MergeDown(t, e, k);
            && (forall x :: x in u <==> x in t && x != k)
            && (forall x :: x in u ==> u[x].refs == t[x].refs && |u[x].kids| == |t[x].kids|)
            && (forall x :: Count(u, x) == Count(t, x))
  {
    assert NodeOk(t, k) && t[k].kids[0] in t[k].kids;
  }

  lemma RemoveKeeps(t: Tree, e: nat, ge: nat, key: Key)
    requires CanRemove(t, e, ge, key) && Compressed(t)
    ensures WellFormed(Remove(t, e, ge, key)) && Compressed(Remove(t, e, ge, key))
    ensures forall k :: Count(Remove(t, e, ge, key), k) == Count(t, k) - (if k == key then 1 else 0)
  {
    var u := SetRefsKept(t, key);
    if u[key].refs > 0 || key == [] || |u[key].kids| > 1 {
    } else if |u[key].kids| == 1 {
      MergeDownKeeps(u, e, key);
      MergeDownCounts(u, e, key);
    } else {
      RemoveLeafCounts(t, u, e, ge, key);
    }
  }

  lemma RemoveLeafCounts(t: Tree, u: Tree, e: nat, ge: nat, key: Key)
    requires CanRemove(t, e, ge, key) && Compressed(t) && key != [] && t[key].kids == [] && t[key].refs == 1
    requires u == SetRefsKept(t, key)
    ensures WellFormed(Remove(t, e, ge, key)) && Compressed(Remove(t, e, ge, key))
    ensures forall k :: Count(Remove(t, e, ge, key), k) == Count(t, k) - (if k == key then 1 else 0)
  {
    var p := u[key].parent;
    assert NodeOk(u, key);
    RemoveLeafKeeps(u, e, key);
    var v := RemoveLeaf(u, e, key);
    assert forall x :: x in v <==> x in t && x != key;
    assert forall x :: x in v ==> v[x].refs == t[x].refs && (x != p ==> v[x] == t[x]);
    assert |v[p].kids| == |t[p].kids| - 1;
    if |u[p].kids| == 2 && u[p].refs == 0 && p != [] {
      LeafThenMerge(u, e, ge, key);
      MergeDownCounts(v, ge, p);
    }
  }

  // ---------------------------------------------------------------- visiting

  predicate Bounded(t: Tree, m: nat) {
    forall k :: k in t ==> |k| <= m
  }

  /** The order in which `visit_keys` reports keys. */
  function Visit(t: Tree, k: Key, m: nat): seq<Key>
    requires WellFormed(t) && Bounded(t, m) && k in t
    decreases m - |k|, 1, 0
  {
    (if t[k].refs > 0 then [k] else []) + VisitKids(t, k, m, 0)
  }

  function VisitKids(t: Tree, k: Key, m: nat, i: nat): seq<Key>
    requires WellFormed(t) && Bounded(t, m) && k in t && i <= |t[k].kids|
    decreases m - |k|, 0, |t[k].kids| - i
  {
    if i == |t[k].kids| then []
    else
      assert NodeOk(t, k) && t[k].kids[i] in t[k].kids;
      Visit(t, t[k].kids[i], m) + VisitKids(t, k, m, i + 1)
  }

  predicate Visited(t: Tree, k: Key, x: Key) {
    x in t && k <= x && t[x].refs > 0
  }

  predicate VisitedFrom(t: Tree, k: Key, i: nat, x: Key)
    requires k in t
  {
    x in t && t[x].refs > 0 && exists j :: i <= j < |t[k].kids| && t[k].kids[j] <= x
  }

  /** Every stored key below `k` is reported exactly once. */
  lemma {:induction false} VisitExact(t: Tree, k: Key, m: nat)
    requires WellFormed(t) && Bounded(t, m) && k in t
    ensures Distinct(Visit(t, k, m))
    ensures forall x :: x in Visit(t, k, m) <==> Visited(t, k, x)
    decreases m - |k|, 1, 0
  {
    VisitKidsExact(t, k, m, 0);
    var here, below := if t[k].refs > 0 then [k] else [], VisitKids(t, k, m, 0);
    assert NodeOk(t, k);
    forall x: Key ensures x in here + below <==> Visited(t, k, x) {
      if Visited(t, k, x) && x != k {
        var c := WayDown(t, k, x);
        var j :| 0 <= j < |t[k].kids| && t[k].kids[j] == c;
      }
      if VisitedFrom(t, k, 0, x) {
        var j :| 0 <= j < |t[k].kids| && t[k].kids[j] <= x;
        assert t[k].kids[j] in t[k].kids;
        BelowTrans(k, t[k].kids[j], x);
      }
    }
    forall x | x in below ensures x != k {
      var j :| 0 <= j < |t[k].kids| && t[k].kids[j] <= x;
      assert t[k].kids[j] in t[k].kids;
    }
    ConcatDistinct(here, below);
  }

  lemma BelowTrans(k: Key, c: Key, x: Key)
    requires k <= c && c <= x
    ensures k <= x
  {
    assert k == c[..|k|] == x[..|k|];
  }

  lemma {:induction false} VisitKidsExact(t: Tree, k: Key, m: nat, i: nat)
    requires WellFormed(t) && Bounded(t, m) && k in t && i <= |t[k].kids|
    ensures Distinct(VisitKids(t, k, m, i))
    ensures forall x :: x in VisitKids(t, k, m, i) <==> VisitedFrom(t, k, i, x)
    decreases m - |k|, 0, |t[k].kids| - i
  {
    if i < |t[k].kids| {
      var c := t[k].kids[i];
      assert NodeOk(t, k) && c in t[k].kids;
      VisitExact(t, c, m);
      VisitKidsExact(t, k, m, i + 1);
      forall x: Key | x in t ensures !(c <= x && exists j :: i + 1 <= j < |t[k].kids| && t[k].kids[j] <= x) {
        forall j | i + 1 <= j < |t[k].kids| && t[k].kids[j] <= x ensures !(c <= x) {
          assert Differ(t[k].kids[i], t[k].kids[j], |k|);
        }
      }
      ConcatDistinct(Visit(t, c, m), VisitKids(t, k, m, i + 1));
    }
  }

  // ---------------------------------------------------------------- how many nodes

  /** The nodes that hold keys. */
  function Holding(t: Tree): set<Key> {
    set k | k in t && t[k].refs > 0
  }

  /** The inner nodes that hold no key. */
  function Branching(t: Tree): set<Key> {
    set k | k in t && k != [] && t[k].refs == 0
  }

  lemma {:induction false} EdgeImage(t: Tree, s: set<Key>, e: nat)
    requires WellFormed(t) && forall k :: k in s ==> k in t && e < |t[k].kids|
    ensures |s| == |set k | k in s :: t[k].kids[e]|
    decreases s
  {
    var image := set k | k in s :: t[k].kids[e];
    if s == {} {
      assert image == {};
    } else {
      var x :| x in s;
      var rest := s - {x};
      EdgeImage(t, rest, e);
      var restImage := set k | k in rest :: t[k].kids[e];
      assert NodeOk(t, x) && t[x].kids[e] in t[x].kids;
      forall k | k in rest ensures t[k].kids[e] != t[x].kids[e] {
        assert NodeOk(t, k) && t[k].kids[e] in t[k].kids;
      }
      assert t[x].kids[e] !in restImage;
      assert image == restImage + {t[x].kids[e]};
    }
  }

  lemma TwoEdgesEach(t: Tree, z: set<Key>)
    requires WellFormed(t) && forall k :: k in z ==> k in t && |t[k].kids| >= 2
    ensures 2 * |z| <= |t.Keys - {[]}|
  {
    var left := set k | k in z :: t[k].kids[0];
    var right := set k | k in z :: t[k].kids[1];
    EdgeImage(t, z, 0);
    EdgeImage(t, z, 1);
    forall c | c in left ensures c in t.Keys - {[]} && c !in right {
      var k :| k in z && t[k].kids[0] == c;
      FirstIsNotSecond(t, z, k);
    }
    forall c | c in right ensures c in t.Keys - {[]} {
      var k :| k in z && t[k].kids[1] == c;
      assert NodeOk(t, k) && c in t[k].kids;
    }
    assert |left + right| == |left| + |right|;
    SubsetSize(left + right, t.Keys - {[]});
  }

  lemma FirstIsNotSecond(t: Tree, z: set<Key>, k: Key)
    requires WellFormed(t) && k in z && forall x :: x in z ==> x in t && |t[x].kids| >= 2
    ensures t[k].kids[0] in t && t[k].kids[0] != []
    ensures forall x :: x in z ==> t[x].kids[1] != t[k].kids[0]
  {
    assert NodeOk(t, k) && t[k].kids[0] in t[k].kids;
    forall x | x in z ensures t[x].kids[1] != t[k].kids[0] {
      assert NodeOk(t, x) && t[x].kids[1] in t[x].kids;
      assert Differ(t[k].kids[0], t[k].kids[1], |k|);
    }
  }

  /** A tree that stores `n` different keys has at most `2 * n + 1` nodes. */
  lemma NodeBound(t: Tree)
    requires WellFormed(t) && Compressed(t)
    ensures |t| <= 2 * |Holding(t)| + 1
  {
    var z, h := Branching(t), Holding(t);
    TwoEdgesEach(t, z);
    assert t.Keys - {[]} <= h + z;
    SubsetSize(t.Keys - {[]}, h + z);
    UnionSize(h, z);
    assert |t.Keys - {[]}| == |t.Keys| - 1;
  }

  lemma UnionSize(a: set<Key>, b: set<Key>)
    ensures |a + b| <= |a| + |b|
  {
    assert a + b == a + (b - a) && a !! (b - a);
    SubsetSize(b - a, b);
  }

  lemma {:induction false} SubsetSize(a: set<Key>, b: set<Key>)
    requires a <= b
    ensures |a| <= |b|
    decreases a
  {
    if a != {} {
      var x :| x in a;
      SubsetSize(a - {x}, b - {x});
    }
  }
}
