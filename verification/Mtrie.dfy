/**
 `generic_mtrie_t`: a node has a set of pipes and a table of children for the bytes
 `min .. min + count - 1`. The table grows when a byte outside it is added and is compacted when
 children at its ends go away. A node is a value that carries its address; the methods return the
 node as the source leaves it and say which nodes were made and which were deleted.
 */
module Mtrie {
  import opened Bytes
  import opened Sequences
  import opened TrieSpec

  /** The number of a `new`; every one is different. */
  type Address = nat

  /** `table` is `_next`: the only child when count is 1, the table when count is more. */
  datatype Node = Node(id: Address, pipes: Option<set<Pipe>>, min: Byte, count: nat, liveNodes: nat,
                       table: seq<Option<Node>>)

  function Fresh(id: Address): Node {
    Node(id, None, 0, 0, 0, [])
  }

  predicate IsRedundant(n: Node) {
    n.pipes.None? && n.liveNodes == 0
  }

  /** The child below byte `b`, if there is one. */
  function At(n: Node, b: Byte): Option<Node> {
    if n.min <= b < n.min + |n.table| then n.table[b - n.min] else None
  }

  function Live(table: seq<Option<Node>>): nat {
    if table == [] then 0 else (if table[0].Some? then 1 else 0) + Live(table[1..])
  }

  /** The trie that a node stands for. */
  function Model(n: Node): Trie
    decreases n
  {
    Trie(n.pipes, map b: Byte | At(n, b).Some? :: Model(At(n, b).value))
  }

  /** Counters match the table. */
  predicate Counted(n: Node) {
    && |n.table| == n.count && n.min + n.count <= 256
    && n.liveNodes == Live(n.table)
  }

  /** The table starts and ends with a child. */
  predicate Tight(n: Node) {
    n.table != [] ==> n.table[0].Some? && n.table[|n.table| - 1].Some?
  }

  predicate ValidChildren(n: Node)
    decreases n, 0
  {
    forall b: Byte :: At(n, b).Some? ==> Valid(At(n, b).value) && !IsRedundant(At(n, b).value)
  }

  predicate Valid(n: Node)
    decreases n, 1
  {
    && Counted(n) && Tight(n)
    && (n.pipes.Some? ==> n.pipes.value != {})
    && ValidChildren(n)
  }

  // ---------------------------------------------------------------- counting live children

  lemma {:induction false} LiveUpdate(table: seq<Option<Node>>, i: nat, kid: Option<Node>)
    requires i < |table|
    ensures Live(table[i := kid])
         == Live(table) - (if table[i].Some? then 1 else 0) + (if kid.Some? then 1 else 0)
  {
    if i == 0 {
      assert table[i := kid][1..] == table[1..];
    } else {
      LiveUpdate(table[1..], i - 1, kid);
      assert table[i := kid][1..] == table[1..][i - 1 := kid];
    }
  }

  lemma {:induction false} LiveConcat(s: seq<Option<Node>>, t: seq<Option<Node>>)
    ensures Live(s + t) == Live(s) + Live(t)
  {
    if s == [] {
      assert s + t == t;
    } else {
      LiveConcat(s[1..], t);
      assert (s + t)[1..] == s[1..] + t;
    }
  }

  lemma {:induction false} LiveNone(s: seq<Option<Node>>)
    ensures Live(s) == 0 <==> forall i :: 0 <= i < |s| ==> s[i].None?
  {
    if s != [] {
      LiveNone(s[1..]);
      assert forall i :: 0 <= i < |s[1..]| ==> s[1..][i] == s[i + 1];
      if forall i :: 0 <= i < |s[1..]| ==> s[1..][i].None? {
        assert forall i :: 1 <= i < |s| ==> s[i] == s[1..][i - 1];
      }
    }
  }

  // ---------------------------------------------------------------- addresses

  /** The addresses of a node and of all nodes below it. */
  function Ids(n: Node): multiset<Address>
    decreases n
  {
    multiset{n.id} + KidIds(n.table)
  }

  function KidIds(table: seq<Option<Node>>): multiset<Address>
    decreases table
  {
    if table == [] then multiset{} else SlotIds(table[0]) + KidIds(table[1..])
  }

  function SlotIds(slot: Option<Node>): multiset<Address>
    decreases slot
  {
    if slot.Some? then Ids(slot.value) else multiset{}
  }

  /** The addresses from `a` up to `b`, each once. */
  function Made(a: nat, b: nat): multiset<Address> {
    if b <= a then multiset{} else Made(a, b - 1) + multiset{b - 1}
  }

  lemma {:induction false} MadeOnce(a: nat, b: nat, x: Address)
    ensures Made(a, b)[x] == if a <= x < b then 1 else 0
  {
    if a < b { MadeOnce(a, b - 1, x); }
  }

  lemma MadeMore(a: nat, b: nat, c: nat)
    requires a <= b <= c
    ensures Made(a, c) == Made(a, b) + Made(b, c)
  {
    forall e: Address ensures Made(a, c)[e] == Made(a, b)[e] + Made(b, c)[e] {
      MadeOnce(a, c, e);
      MadeOnce(a, b, e);
      MadeOnce(b, c, e);
    }
  }

  // sums of addresses

  lemma Assoc(x: multiset<Address>, y: multiset<Address>, z: multiset<Address>)
    ensures (x + y) + z == x + (y + z)
  {
  }

  /** `x` is `y` with `a` exchanged for `b`, and `b` has `m` more, or less, than `a`. */
  lemma Exchange(x: multiset<Address>, a: multiset<Address>, y: multiset<Address>, b: multiset<Address>,
                 m: multiset<Address>)
    requires x + a == y + b
    ensures b == a + m ==> x == y + m
    ensures b + m == a ==> x + m == y
  {
    forall e ensures x[e] + a[e] == y[e] + b[e] { assert (x + a)[e] == (y + b)[e]; }
  }

  /** What was deleted now and before makes up for what is missing. */
  lemma Accounted(x: multiset<Address>, deleted: multiset<Address>, before: multiset<Address>, freed: multiset<Address>)
    requires x + deleted == before
    ensures x + (freed + deleted) == before + freed
  {
  }

  lemma {:induction false} IdsUpdate(table: seq<Option<Node>>, i: nat, kid: Option<Node>)
    requires i < |table|
    ensures KidIds(table[i := kid]) + SlotIds(table[i]) == KidIds(table) + SlotIds(kid)
    decreases i
  {
    var rest := table[1..];
    if i == 0 {
      assert table[i := kid][1..] == rest;
      Turned(SlotIds(kid), KidIds(rest), SlotIds(table[0]));
    } else {
      IdsUpdate(rest, i - 1, kid);
      assert table[i := kid][1..] == rest[i - 1 := kid];
      Assoc(SlotIds(table[0]), KidIds(rest[i - 1 := kid]), SlotIds(table[i]));
      Assoc(SlotIds(table[0]), KidIds(rest), SlotIds(kid));
    }
  }

  lemma Turned(x: multiset<Address>, y: multiset<Address>, z: multiset<Address>)
    ensures (x + y) + z == (z + y) + x
  {
  }

  lemma {:induction false} IdsConcat(s: seq<Option<Node>>, t: seq<Option<Node>>)
    ensures KidIds(s + t) == KidIds(s) + KidIds(t)
  {
    if s == [] {
      assert s + t == t;
    } else {
      IdsConcat(s[1..], t);
      assert (s + t)[1..] == s[1..] + t;
    }
  }

  lemma {:induction false} IdsNone(s: seq<Option<Node>>)
    requires forall i :: 0 <= i < |s| ==> s[i].None?
    ensures KidIds(s) == multiset{}
  {
    if s != [] { IdsNone(s[1..]); }
  }

  lemma IdsOne(slot: Option<Node>)
    ensures KidIds([slot]) == SlotIds(slot)
  {
    assert [slot][1..] == [];
  }

  /** Empty slots in front count for nothing. */
  lemma NoneInFront(table: seq<Option<Node>>, lo: nat)
    requires lo <= |table| && forall i :: 0 <= i < lo ==> table[i].None?
    ensures KidIds(table[lo..]) == KidIds(table) && Live(table[lo..]) == Live(table)
  {
    assert table == table[..lo] + table[lo..];
    IdsConcat(table[..lo], table[lo..]);
    IdsNone(table[..lo]);
    LiveConcat(table[..lo], table[lo..]);
    LiveNone(table[..lo]);
  }

  lemma NoneBehind(table: seq<Option<Node>>, hi: nat)
    requires hi <= |table| && forall i :: hi <= i < |table| ==> table[i].None?
    ensures KidIds(table[..hi]) == KidIds(table) && Live(table[..hi]) == Live(table)
  {
    assert table == table[..hi] + table[hi..];
    IdsConcat(table[..hi], table[hi..]);
    IdsNone(table[hi..]);
    LiveConcat(table[..hi], table[hi..]);
    LiveNone(table[hi..]);
  }

  lemma NoneOutside(table: seq<Option<Node>>, lo: nat, hi: nat)
    requires lo <= hi <= |table| && forall i :: 0 <= i < |table| && !(lo <= i < hi) ==> table[i].None?
    ensures KidIds(table[lo..hi]) == KidIds(table) && Live(table[lo..hi]) == Live(table)
  {
    NoneBehind(table, hi);
    NoneInFront(table[..hi], lo);
    assert table[..hi][lo..] == table[lo..hi];
  }

  // ---------------------------------------------------------------- nodes and their tries

  /** The trie of a node depends only on its pipes and on which child is at which byte. */
  lemma SameChildren(n: Node, m: Node)
    requires n.pipes == m.pipes && forall b: Byte :: At(n, b) == At(m, b)
    ensures Model(n) == Model(m)
  {
    var s, t := Model(n).kids, Model(m).kids;
    assert forall b: Byte :: b in s <==> b in t;
    assert forall b: Byte :: b in s ==> s[b] == t[b];
    assert s == t;
  }

  lemma ChildPlaced(n: Node, m: Node, c: Byte)
    requires n.pipes == m.pipes && At(m, c).Some? && forall b: Byte :: b != c ==> At(n, b) == At(m, b)
    ensures Model(m) == Model(n).(kids := Model(n).kids[c := Model(At(m, c).value)])
  {
    var s, t := Model(m).kids, Model(n).kids[c := Model(At(m, c).value)];
    assert forall b: Byte :: b in s <==> b in t;
    assert forall b: Byte :: b in s ==> s[b] == t[b];
    assert s == t;
  }

  lemma ChildDropped(n: Node, m: Node, c: Byte)
    requires n.pipes == m.pipes && At(m, c).None? && forall b: Byte :: b != c ==> At(n, b) == At(m, b)
    ensures Model(m) == Model(n).(kids := Model(n).kids - {c})
  {
    var s, t := Model(m).kids, Model(n).kids - {c};
    assert forall b: Byte :: b in s <==> b in t;
    assert forall b: Byte :: b in s ==> s[b] == t[b];
    assert s == t;
  }

  lemma {:induction false} ValidIsPruned(n: Node)
    requires Valid(n)
    ensures Pruned(Model(n))
    ensures IsRedundant(n) <==> Model(n) == Leaf
    decreases n
  {
    LiveNone(n.table);
    forall b | b in Model(n).kids ensures Pruned(Model(n).kids[b]) && Model(n).kids[b] != Leaf {
      ValidIsPruned(At(n, b).value);
    }
    if n.liveNodes > 0 {
      var i :| 0 <= i < |n.table| && n.table[i].Some?;
      assert At(n, n.min + i) == n.table[i];
      assert n.min + i in Model(n).kids;
    } else {
      assert Model(n).kids == map[];
    }
  }

  // ---------------------------------------------------------------- add

  method Blank(k: nat) returns (table: seq<Option<Node>>)
    ensures |table| == k && forall i :: 0 <= i < k ==> table[i].None?
    ensures Live(table) == 0 && KidIds(table) == multiset{}
  {
    table := [];
    for i := 0 to k
      invariant |table| == i && forall j :: 0 <= j < i ==> table[j].None?
    {
      table := table + [None];
    }
    LiveNone(table);
    IdsNone(table);
  }

  /** The same children below the same bytes, in a table that now covers `c`. */
  ghost predicate Extended(n0: Node, n: Node, c: Byte) {
    && Counted(n) && n.min <= c < n.min + n.count && n.table[c - n.min].None?
    && n.id == n0.id && n.pipes == n0.pipes && n.liveNodes == n0.liveNodes && KidIds(n.table) == KidIds(n0.table)
    && (forall b: Byte :: At(n, b) == At(n0, b))
    && (n.min != c ==> n.table[0].Some?)
    && (n.min + n.count - 1 != c ==> n.table[n.count - 1].Some?)
  }

  /** A table with one slot, and an empty table after something was put into one slot. */
  lemma OneSlot(table: seq<Option<Node>>)
    requires |table| == 1
    ensures Live(table) == (if table[0].Some? then 1 else 0) && KidIds(table) == SlotIds(table[0])
  {
    assert table == [table[0]] && table[1..] == [];
    IdsOne(table[0]);
  }

  lemma Placed(table: seq<Option<Node>>, i: nat, slot: Option<Node>)
    requires i < |table| && table[i].None? && Live(table) == 0 && KidIds(table) == multiset{}
    ensures Live(table[i := slot]) == (if slot.Some? then 1 else 0) && KidIds(table[i := slot]) == SlotIds(slot)
  {
    LiveUpdate(table, i, slot);
    IdsUpdate(table, i, slot);
    Exchange(KidIds(table[i := slot]), multiset{}, multiset{}, SlotIds(slot), SlotIds(slot));
  }

  /** From a single child to a table. */
  method ExtendOne(n0: Node, c: Byte) returns (n: Node)
    requires Counted(n0) && Tight(n0) && n0.count == 1 && c != n0.min
    ensures Extended(n0, n, c)
  {
    var oldc, oldp := n0.min, n0.table[0];
    var count := (if n0.min < c then c - n0.min else n0.min - c) + 1;
    var table := Blank(count);
    var min := if n0.min < c then n0.min else c;
    Placed(table, oldc - min, oldp);
    OneSlot(n0.table);
    n := n0.(min := min, count := count, table := table[oldc - min := oldp]);
  }

  /** The new byte lies above the table. */
  method ExtendUp(n0: Node, c: Byte) returns (n: Node)
    requires Counted(n0) && Tight(n0) && n0.count > 1 && n0.min + n0.count <= c
    ensures Extended(n0, n, c)
  {
    var count := c - n0.min + 1;
    var rest := Blank(count - n0.count);
    LiveConcat(n0.table, rest);
    IdsConcat(n0.table, rest);
    n := n0.(count := count, table := n0.table + rest);
  }

  /** The new byte lies below the table. */
  method ExtendDown(n0: Node, c: Byte) returns (n: Node)
    requires Counted(n0) && Tight(n0) && n0.count > 1 && c < n0.min
    ensures Extended(n0, n, c)
  {
    var count := n0.min + n0.count - c;
    var front := Blank(n0.min - c);
    LiveConcat(front, n0.table);
    IdsConcat(front, n0.table);
    n := n0.(min := c, count := count, table := front + n0.table);
  }

  /** Extends the table to cover byte `c`; no child moves. */
  method Extend(n0: Node, c: Byte) returns (n: Node)
    requires Counted(n0) && Tight(n0) && !(n0.min <= c < n0.min + n0.count)
    ensures Extended(n0, n, c)
  {
    if n0.count == 0 {
      n := n0.(min := c, count := 1, table := [None]);
      LiveNone(n.table);
      IdsOne(None);
    } else if n0.count == 1 {
      n := ExtendOne(n0, c);
    } else if n0.min < c {
      n := ExtendUp(n0, c);
    } else {
      n := ExtendDown(n0, c);
    }
  }

  /** Replaces or creates the child below byte `c`. */
  method SetChild(n0: Node, c: Byte, kid: Node) returns (n: Node)
    requires Counted(n0) && n0.min <= c < n0.min + n0.count
    requires ValidChildren(n0) && Valid(kid) && !IsRedundant(kid)
    ensures n == n0.(table := n0.table[c - n0.min := Some(kid)], liveNodes := n.liveNodes)
    ensures Counted(n) && ValidChildren(n) && n.liveNodes > 0
    ensures Model(n) == Model(n0).(kids := Model(n0).kids[c := Model(kid)])
  {
    LiveUpdate(n0.table, c - n0.min, Some(kid));
    var live := if n0.table[c - n0.min].None? then n0.liveNodes + 1 else n0.liveNodes;
    n := n0.(table := n0.table[c - n0.min := Some(kid)], liveNodes := live);
    ChildPlaced(n0, n, c);
    LiveNone(n.table);
  }

  method AddHere(n0: Node, p: Pipe) returns (n: Node, isNew: bool)
    requires Valid(n0)
    ensures Valid(n) && !IsRedundant(n)
    ensures Model(n) == Insert(Model(n0), [], p)
    ensures isNew == (Holders(Model(n0), []) == {}) && Ids(n) == Ids(n0)
  {
    isNew := n0.pipes.None?;
    n := n0;
    if n.pipes.None? {
      n := n.(pipes := Some({}));
    }
    n := n.(pipes := Some(n.pipes.value + {p}));
    assert forall b: Byte :: At(n, b) == At(n0, b);
    var s, t := Model(n).kids, Model(n0).kids;
    assert forall b: Byte :: b in s <==> b in t;
    assert s == t;
  }

  /** Makes the table cover byte `c`. */
  method Cover(n0: Node, c: Byte) returns (n: Node)
    requires Valid(n0)
    ensures Counted(n) && ValidChildren(n) && n.min <= c < n.min + n.count
    ensures n.pipes == n0.pipes && Model(n) == Model(n0) && Ids(n) == Ids(n0)
    ensures n.min != c ==> n.table[0].Some?
    ensures n.min + n.count - 1 != c ==> n.table[n.count - 1].Some?
  {
    n := n0;
    if c < n.min || c >= n.min + n.count {
      n := Extend(n, c);
      SameChildren(n, n0);
    }
  }

  /** `next` is the address of the next node to be made, `end` that of the first one not made. */
  method Add(n0: Node, prefix: Key, p: Pipe, next: Address) returns (n: Node, isNew: bool, end: Address)
    requires Valid(n0)
    ensures Valid(n) && !IsRedundant(n)
    ensures Model(n) == Insert(Model(n0), prefix, p)
    ensures isNew == (Holders(Model(n0), prefix) == {})
    ensures next <= end && Ids(n) == Ids(n0) + Made(next, end)
    decreases |prefix|
  {
    if prefix == [] {
      n, isNew := AddHere(n0, p);
      end := next;
      return;
    }
    var c := prefix[0];
    n := Cover(n0, c);
    var child, below := ChildOrFresh(n, c, next);
    var kid;
    kid, isNew, end := Add(child, prefix[1..], p, below);
    MadeMore(next, below, end);
    n := FillSlot(n, c, kid, Made(next, end));
  }

  method ChildOrFresh(n: Node, c: Byte, next: Address) returns (child: Node, end: Address)
    requires Counted(n) && ValidChildren(n) && n.min <= c < n.min + n.count
    ensures Valid(child) && Model(child) == Kid(Model(n), c)
    ensures next <= end && Ids(child) == SlotIds(n.table[c - n.min]) + Made(next, end)
  {
    ChildModel(n, c);
    assert At(n, c) == n.table[c - n.min];
    child, end := if n.table[c - n.min].None? then Fresh(next) else n.table[c - n.min].value, next;
    if n.table[c - n.min].None? { end := next + 1; }
  }

  method FillSlot(n0: Node, c: Byte, kid: Node, ghost made: multiset<Address>) returns (n: Node)
    requires Counted(n0) && ValidChildren(n0) && n0.min <= c < n0.min + n0.count
    requires n0.pipes.Some? ==> n0.pipes.value != {}
    requires n0.min != c ==> n0.table[0].Some?
    requires n0.min + n0.count - 1 != c ==> n0.table[n0.count - 1].Some?
    requires Valid(kid) && !IsRedundant(kid) && Ids(kid) == SlotIds(n0.table[c - n0.min]) + made
    ensures Valid(n) && !IsRedundant(n)
    ensures Model(n) == Model(n0).(kids := Model(n0).kids[c := Model(kid)])
    ensures Ids(n) == Ids(n0) + made
  {
    ghost var i := c - n0.min;
    IdsUpdate(n0.table, i, Some(kid));
    Exchange(KidIds(n0.table[i := Some(kid)]), SlotIds(n0.table[i]), KidIds(n0.table), Ids(kid), made);
    n := SetChild(n0, c, kid);
    Assoc(multiset{n0.id}, KidIds(n0.table), made);
  }

  lemma ChildModel(n: Node, c: Byte)
    requires n.min <= c < n.min + |n.table|
    ensures forall id :: Model(Fresh(id)) == Leaf
    ensures Kid(Model(n), c) == if n.table[c - n.min].None? then Leaf else Model(n.table[c - n.min].value)
    ensures c in Model(n).kids <==> n.table[c - n.min].Some?
  {
    assert At(n, c) == n.table[c - n.min];
    assert forall id :: Model(Fresh(id)).kids == map[];
  }

  // ---------------------------------------------------------------- dropping a child

  lemma LiveTwo(table: seq<Option<Node>>)
    requires |table| > 1 && table[0].Some? && table[|table| - 1].Some?
    ensures Live(table) > 1
  {
    var last := |table| - 1;
    assert table == table[..last] + [table[last]];
    LiveConcat(table[..last], [table[last]]);
    LiveNone(table[..last]);
    assert table[..last][0].Some?;
    LiveNone([table[last]]);
    assert [table[last]][0].Some?;
  }

  /** The table without the slots before `lo` and from `hi` on. */
  function CutTo(n: Node, lo: nat, hi: nat): Node
    requires lo < hi <= |n.table| && n.min + hi <= 256
  {
    n.(min := n.min + lo, count := hi - lo, table := n.table[lo..hi])
  }

  /** Cutting empty slots off both ends changes neither the children nor their bytes. */
  lemma Cut(n: Node, lo: nat, hi: nat)
    requires Counted(n) && lo < hi <= n.count
    requires forall i :: 0 <= i < n.count && !(lo <= i < hi) ==> n.table[i].None?
    ensures var m := CutTo(n, lo, hi);
            Counted(m) && Model(m) == Model(n) && (ValidChildren(n) ==> ValidChildren(m))
            && KidIds(m.table) == KidIds(n.table)
  {
    var m := CutTo(n, lo, hi);
    NoneOutside(n.table, lo, hi);
    assert forall b: Byte :: At(m, b) == At(n, b);
    SameChildren(m, n);
  }

  /** The first child at or after `start`, going up. */
  method FirstLive(table: seq<Option<Node>>, start: nat) returns (i: nat)
    requires start <= |table|
    ensures start <= i <= |table| && forall j :: start <= j < i ==> table[j].None?
    ensures i < |table| ==> table[i].Some?
  {
    i := start;
    while i < |table|
      invariant start <= i <= |table| && forall j :: start <= j < i ==> table[j].None?
    {
      if table[i].Some? { return; }
      i := i + 1;
    }
  }

  /** How many slots to give up at the end, going down from the last but one. */
  method LastLive(table: seq<Option<Node>>) returns (i: nat)
    requires |table| > 0
    ensures 1 <= i <= |table| && forall j :: |table| - i <= j < |table| - 1 ==> table[j].None?
    ensures i < |table| ==> table[|table| - 1 - i].Some?
  {
    i := 1;
    while i < |table|
      invariant 1 <= i <= |table| && forall j :: |table| - i <= j < |table| - 1 ==> table[j].None?
    {
      if table[|table| - 1 - i].Some? { return; }
      i := i + 1;
    }
  }

  lemma OnlyLive(table: seq<Option<Node>>, i: nat)
    requires i < |table| && table[i].Some? && Live(table) == 1
    ensures forall j :: 0 <= j < |table| && j != i ==> table[j].None?
  {
    assert table == table[..i] + ([table[i]] + table[i + 1..]);
    LiveConcat(table[..i], [table[i]] + table[i + 1..]);
    LiveConcat([table[i]], table[i + 1..]);
    LiveNone([table[i]]);
    assert [table[i]][0].Some?;
    LiveNone(table[..i]);
    LiveNone(table[i + 1..]);
    forall j | 0 <= j < |table| && j != i ensures table[j].None? {
      if j < i { assert table[..i][j] == table[j]; } else { assert table[i + 1..][j - i - 1] == table[j]; }
    }
  }

  /** What is left of the table is one child. */
  method CompactToOne(n0: Node) returns (n: Node)
    requires Counted(n0) && ValidChildren(n0) && n0.count > 1 && n0.liveNodes == 1
    requires n0.pipes.Some? ==> n0.pipes.value != {}
    ensures Valid(n) && Model(n) == Model(n0) && n.liveNodes == n0.liveNodes && n.pipes == n0.pipes
    ensures n.id == n0.id && KidIds(n.table) == KidIds(n0.table)
  {
    n := n0;
    var i := FirstLive(n.table, 0);
    if i == n.count { LiveNone(n.table); }
    assert i < n.count;
    OnlyLive(n.table, i);
    Cut(n, i, i + 1);
    n := n.(min := n.min + i, count := 1, table := n.table[i..i + 1]);
    assert n == CutTo(n0, i, i + 1);
  }

  /** The first slot became empty. */
  method CompactFront(n0: Node) returns (n: Node)
    requires Counted(n0) && ValidChildren(n0) && n0.count > 1 && n0.liveNodes > 1
    requires n0.pipes.Some? ==> n0.pipes.value != {}
    requires n0.table[0].None? && n0.table[n0.count - 1].Some?
    ensures Valid(n) && Model(n) == Model(n0) && n.liveNodes == n0.liveNodes && n.pipes == n0.pipes
    ensures n.id == n0.id && KidIds(n.table) == KidIds(n0.table)
  {
    n := n0;
    var i := FirstLive(n.table, 1);
    assert i < n.count;
    Cut(n, i, n.count);
    n := n.(min := n.min + i, count := n.count - i, table := n.table[i..n.count]);
    assert n == CutTo(n0, i, n0.count);
  }

  /** The last slot became empty. */
  method CompactBack(n0: Node) returns (n: Node)
    requires Counted(n0) && ValidChildren(n0) && n0.count > 1 && n0.liveNodes > 1
    requires n0.pipes.Some? ==> n0.pipes.value != {}
    requires n0.table[0].Some? && n0.table[n0.count - 1].None?
    ensures Valid(n) && Model(n) == Model(n0) && n.liveNodes == n0.liveNodes && n.pipes == n0.pipes
    ensures n.id == n0.id && KidIds(n.table) == KidIds(n0.table)
  {
    n := n0;
    var i := LastLive(n.table);
    assert i < n.count;
    Cut(n, 0, n.count - i);
    n := n.(count := n.count - i, table := n.table[0..n.count - i]);
    assert n == CutTo(n0, 0, n0.count - i);
  }

  /** The table after the child below `c` went away, with more than one slot left. */
  method Compact(n0: Node, c: Byte) returns (n: Node)
    requires Counted(n0) && ValidChildren(n0) && n0.count > 1 && n0.liveNodes > 0
    requires n0.pipes.Some? ==> n0.pipes.value != {}
    requires n0.min <= c < n0.min + n0.count && n0.table[c - n0.min].None?
    requires n0.min != c ==> n0.table[0].Some?
    requires n0.min + n0.count - 1 != c ==> n0.table[n0.count - 1].Some?
    ensures Valid(n) && Model(n) == Model(n0) && n.liveNodes == n0.liveNodes && n.pipes == n0.pipes
    ensures n.id == n0.id && KidIds(n.table) == KidIds(n0.table)
  {
    n := n0;
    if n.liveNodes == 1 {
      n := CompactToOne(n);
    } else if c == n.min {
      n := CompactFront(n);
    } else if c == n.min + n.count - 1 {
      n := CompactBack(n);
    }
  }

  /** Removes the child below byte `c` and compacts the table. */
  method Drop(n0: Node, c: Byte) returns (n: Node)
    requires Valid(n0) && n0.min <= c < n0.min + n0.count && n0.table[c - n0.min].Some?
    ensures Valid(n) && n.pipes == n0.pipes && n.id == n0.id
    ensures Model(n) == Model(n0).(kids := Model(n0).kids - {c})
    ensures KidIds(n.table) + SlotIds(n0.table[c - n0.min]) == KidIds(n0.table)
  {
    ghost var i := c - n0.min;
    IdsUpdate(n0.table, i, None);
    Exchange(KidIds(n0.table[i := None]), SlotIds(n0.table[i]), KidIds(n0.table), multiset{}, SlotIds(n0.table[i]));
    if n0.count == 1 {
      n := DropOnly(n0, c);
    } else {
      n := DropOne(n0, c);
    }
  }

  method DropOnly(n0: Node, c: Byte) returns (n: Node)
    requires Valid(n0) && n0.count == 1 && c == n0.min && n0.table[0].Some?
    ensures Valid(n) && n.pipes == n0.pipes && n.id == n0.id
    ensures Model(n) == Model(n0).(kids := Model(n0).kids - {c}) && KidIds(n.table) == KidIds(n0.table[0 := None])
  {
    n := n0.(table := [], count := 0, liveNodes := n0.liveNodes - 1);
    LiveUpdate(n0.table, 0, None);
    LiveNone(n0.table[0 := None]);
    IdsNone(n0.table[0 := None]);
    ChildDropped(n0, n, c);
  }

  method DropOne(n0: Node, c: Byte) returns (n: Node)
    requires Valid(n0) && n0.count > 1 && n0.min <= c < n0.min + n0.count && n0.table[c - n0.min].Some?
    ensures Valid(n) && n.pipes == n0.pipes && n.id == n0.id
    ensures Model(n) == Model(n0).(kids := Model(n0).kids - {c})
            && KidIds(n.table) == KidIds(n0.table[c - n0.min := None])
  {
    LiveUpdate(n0.table, c - n0.min, None);
    LiveTwo(n0.table);
    n := n0.(table := n0.table[c - n0.min := None], liveNodes := n0.liveNodes - 1);
    assert forall b: Byte :: b != c ==> At(n, b) == At(n0, b);
    ChildDropped(n0, n, c);
    n := Compact(n, c);
  }

  // ---------------------------------------------------------------- rm of one pair

  method RmHere(n0: Node, p: Pipe) returns (n: Node, ret: RmResult)
    requires Valid(n0)
    ensures Valid(n)
    ensures Model(n) == Remove(Model(n0), [], p)
    ensures ret == RemoveResult(Holders(Model(n0), []), p) && Ids(n) == Ids(n0)
  {
    n := n0;
    if n.pipes.None? {
      return n, NotFound;
    }
    var erased := p in n.pipes.value;
    n := n.(pipes := Some(n.pipes.value - {p}));
    if n.pipes.value == {} {
      assert erased;
      n := n.(pipes := None);
      ret := LastValueRemoved;
    } else {
      ret := if erased then ValuesRemain else NotFound;
    }
    assert forall b: Byte :: At(n, b) == At(n0, b);
    SameChildren(n, n0.(pipes := n.pipes));
    var s, t := Model(n).kids, Model(n0).kids;
    assert forall b: Byte :: b in s <==> b in t;
    assert s == t;
  }

  /** `freed` are the nodes that were deleted. */
  method Rm(n0: Node, prefix: Key, p: Pipe) returns (n: Node, ret: RmResult, freed: multiset<Address>)
    requires Valid(n0)
    ensures Valid(n)
    ensures Model(n) == Remove(Model(n0), prefix, p)
    ensures ret == RemoveResult(Holders(Model(n0), prefix), p)
    ensures Ids(n) + freed == Ids(n0)
    decreases |prefix|
  {
    freed := multiset{};
    if prefix == [] {
      n, ret := RmHere(n0, p);
      return;
    }
    n := n0;
    var c := prefix[0];
    if n.count == 0 || c < n.min || c >= n.min + n.count {
      assert At(n, c).None?;
      return n, NotFound, freed;
    }
    ChildModel(n, c);
    if n.table[c - n.min].None? {
      return n, NotFound, freed;
    }
    assert At(n, c) == n.table[c - n.min];
    var next;
    next, ret, freed := Rm(n.table[c - n.min].value, prefix[1..], p);
    n, freed := PutBack(n0, c, next, freed);
  }

  /** Stores what is left of the child below `c`, or deletes it if it is redundant. */
  method PutBack(n0: Node, c: Byte, next: Node, freed0: multiset<Address>) returns (n: Node, freed: multiset<Address>)
    requires Valid(n0) && n0.min <= c < n0.min + n0.count && n0.table[c - n0.min].Some? && Valid(next)
    requires Ids(next) + freed0 == Ids(n0.table[c - n0.min].value)
    ensures Valid(n) && Ids(n) + freed == Ids(n0)
    ensures Model(n) == Model(n0).(kids := if Model(next) == Leaf then Model(n0).kids - {c}
                                           else Model(n0).kids[c := Model(next)])
  {
    freed := freed0;
    ValidIsPruned(next);
    if IsRedundant(next) {
      n := Drop(n0, c);
      freed := multiset{next.id} + freed;
      Dropped(n0, n, c - n0.min, next, freed0);
    } else {
      n := SetChild(n0, c, next);
      Stored(n0, n, c - n0.min, next, freed);
    }
  }

  lemma Dropped(n0: Node, n: Node, i: nat, next: Node, freed: multiset<Address>)
    requires i < |n0.table| && n0.table[i].Some? && Counted(next) && IsRedundant(next) && n.id == n0.id
    requires Ids(next) + freed == Ids(n0.table[i].value) && KidIds(n.table) + SlotIds(n0.table[i]) == KidIds(n0.table)
    ensures Ids(n) + (multiset{next.id} + freed) == Ids(n0)
  {
    RedundantIds(next);
    assert SlotIds(n0.table[i]) == multiset{next.id} + freed;
    Assoc(multiset{n.id}, KidIds(n.table), multiset{next.id} + freed);
  }

  lemma Stored(n0: Node, n: Node, i: nat, next: Node, freed: multiset<Address>)
    requires i < |n0.table| && n0.table[i].Some? && n.id == n0.id && n.table == n0.table[i := Some(next)]
    requires Ids(next) + freed == Ids(n0.table[i].value)
    ensures Ids(n) + freed == Ids(n0)
  {
    IdsUpdate(n0.table, i, Some(next));
    Exchange(KidIds(n.table), SlotIds(n0.table[i]), KidIds(n0.table), Ids(next), freed);
    Assoc(multiset{n.id}, KidIds(n.table), freed);
  }

  /** A redundant node has nothing below it. */
  lemma RedundantIds(n: Node)
    requires Counted(n) && IsRedundant(n)
    ensures Ids(n) == multiset{n.id}
  {
    LiveNone(n.table);
    IdsNone(n.table);
  }

  // ---------------------------------------------------------------- rm of a pipe everywhere

  /** One slot before and after pipe `p` was removed below it. */
  predicate SweptSlot(before: Option<Node>, after: Option<Node>, p: Pipe) {
    match before
    case None => after.None?
    case Some(kid) =>
      && (after.Some? <==> RemoveAll(Model(kid), p) != Leaf)
      && (after.Some? ==> Valid(after.value) && !IsRedundant(after.value)
                          && Model(after.value) == RemoveAll(Model(kid), p))
  }

  lemma SweptModel(n0: Node, n: Node, p: Pipe)
    requires n.pipes == Strip(n0.pipes, p)
    requires forall b: Byte :: SweptSlot(At(n0, b), At(n, b), p)
    ensures Model(n) == RemoveAll(Model(n0), p) && ValidChildren(n)
  {
    var s, t := Model(n).kids, RemoveAll(Model(n0), p).kids;
    forall b: Byte ensures (b in s <==> b in t) && (b in s ==> s[b] == t[b]) {
      SweptKid(n0, n, p, b);
    }
    assert s == t;
  }

  lemma SweptKid(n0: Node, n: Node, p: Pipe, b: Byte)
    requires SweptSlot(At(n0, b), At(n, b), p)
    ensures var s, t := Model(n).kids, RemoveAll(Model(n0), p).kids;
            (b in s <==> b in t) && (b in s ==> s[b] == t[b])
  {
    assert b in Model(n0).kids <==> At(n0, b).Some?;
  }

  lemma {:induction false} NoReportsBelow(t: Trie, p: Pipe, uniq: bool, prefix: Key, b: nat, c: nat)
    requires b <= c <= 256 && forall x: Byte :: b <= x < c ==> x !in t.kids
    ensures KidReports(t, p, uniq, prefix, b) == KidReports(t, p, uniq, prefix, c)
    decreases c - b
  {
    if b < c { NoReportsBelow(t, p, uniq, prefix, b + 1, c); }
  }

  /** Removes the pipe below a child and prunes the child if that made it redundant. */
  method RmChild(kid: Node, p: Pipe, uniq: bool, prefix: Key)
    returns (after: Option<Node>, reports: seq<Key>, freed: multiset<Address>)
    requires Valid(kid)
    ensures SweptSlot(Some(kid), after, p)
    ensures reports == Reports(Model(kid), p, uniq, prefix)
    ensures SlotIds(after) + freed == Ids(kid)
    decreases kid, 5
  {
    var k;
    k, reports, freed := RmValue(kid, p, uniq, prefix);
    ValidIsPruned(k);
    after := Some(k);
    if IsRedundant(k) {
      RedundantIds(k);
      after, freed := None, multiset{k.id} + freed;
    }
  }

  predicate SweptAt(n0: Node, table: seq<Option<Node>>, j: nat, p: Pipe) {
    j < |n0.table| && j < |table| && SweptSlot(n0.table[j], table[j], p)
  }

  /** The slots before `i` are done. */
  ghost predicate Swept(n0: Node, table: seq<Option<Node>>, i: nat, p: Pipe) {
    forall j: nat {:trigger SweptAt(n0, table, j, p)} :: j < i ==> SweptAt(n0, table, j, p)
  }

  lemma SweptNext(n0: Node, table: seq<Option<Node>>, i: nat, after: Option<Node>, p: Pipe)
    requires Swept(n0, table, i, p) && i < |table| && i < |n0.table| && SweptSlot(n0.table[i], after, p)
    ensures Swept(n0, table[i := after], i + 1, p)
  {
    var t := table[i := after];
    forall j: nat | j < i + 1 ensures SweptAt(n0, t, j, p) {
      if j < i { assert SweptAt(n0, table, j, p); }
    }
  }

  /** The children seen so far lie between `newMin` and `newMax`. */
  ghost predicate Extent(min: int, table: seq<Option<Node>>, i: nat, newMin: int, newMax: int) {
    && i <= |table| && min <= newMin < min + |table| && min <= newMax < min + |table|
    && (forall j :: 0 <= j < i && table[j].Some? ==> newMin <= min + j <= newMax)
    && (newMin == min + |table| - 1 || (newMin - min < i && table[newMin - min].Some?))
    && (newMax == min || (newMax - min < i && table[newMax - min].Some?))
  }

  /** The state of the scan in `rm_helper_multiple_subnodes` before slot `i`. */
  ghost predicate Sweeping(n0: Node, table: seq<Option<Node>>, i: nat, live: int, newMin: int, newMax: int, p: Pipe) {
    && |table| == |n0.table| && i <= |table| && live == Live(table)
    && Swept(n0, table, i, p) && table[i..] == n0.table[i..]
    && Extent(n0.min, table, i, newMin, newMax)
  }

  lemma NotYetSwept(n0: Node, table: seq<Option<Node>>, i: nat, live: int, newMin: int, newMax: int, p: Pipe)
    requires Sweeping(n0, table, i, live, newMin, newMax, p) && i < |table|
    ensures table[i] == n0.table[i]
  {
    assert table[i] == table[i..][0] == n0.table[i];
  }

  /** A child went away. */
  lemma SweepGone(n0: Node, table: seq<Option<Node>>, i: nat, live: int, newMin: int, newMax: int, p: Pipe)
    requires Sweeping(n0, table, i, live, newMin, newMax, p) && i < |table|
    requires SweptSlot(n0.table[i], None, p) && table[i].Some?
    ensures live > 0 && Sweeping(n0, table[i := None], i + 1, live - 1, newMin, newMax, p)
  {
    LiveUpdate(table, i, None);
    LiveNone(table);
    SweptNext(n0, table, i, None, p);
    assert table[i := None][i + 1..] == table[i..][1..];
  }

  lemma ExtentStays(min: int, table: seq<Option<Node>>, i: nat, newMin: int, newMax: int, after: Option<Node>)
    requires Extent(min, table, i, newMin, newMax) && i < |table| && after.Some?
    ensures Extent(min, table[i := after], i + 1,
                   if i + min < newMin then i + min else newMin,
                   if i + min > newMax then i + min else newMax)
  {
  }

  /** A child stays. */
  lemma SweepStays(n0: Node, table: seq<Option<Node>>, i: nat, live: int, newMin: int, newMax: int,
                   after: Option<Node>, p: Pipe)
    requires Sweeping(n0, table, i, live, newMin, newMax, p) && i < |table| && table[i].Some?
    requires SweptSlot(n0.table[i], after, p) && after.Some?
    ensures Sweeping(n0, table[i := after], i + 1, live,
                     if i + n0.min < newMin then i + n0.min else newMin,
                     if i + n0.min > newMax then i + n0.min else newMax, p)
  {
    LiveUpdate(table, i, after);
    SweptNext(n0, table, i, after, p);
    ExtentStays(n0.min, table, i, newMin, newMax, after);
    assert table[i := after][i + 1..] == table[i..][1..];
  }

  lemma SweepEmpty(n0: Node, table: seq<Option<Node>>, i: nat, live: int, newMin: int, newMax: int, p: Pipe)
    requires Sweeping(n0, table, i, live, newMin, newMax, p) && i < |table| && table[i].None?
    ensures Sweeping(n0, table, i + 1, live, newMin, newMax, p)
  {
    assert table[i] == table[i..][0] == n0.table[i];
    SweptNext(n0, table, i, None, p);
    assert table[i := None] == table && table[i + 1..] == table[i..][1..];
  }

  /** The reports of one slot come before those of the later slots. */
  lemma ReportStep(n0: Node, p: Pipe, uniq: bool, prefix: Key, i: nat, reports: seq<Key>, more: seq<Key>)
    requires i < |n0.table| && n0.min + i < 256
    requires more == if n0.table[i].Some?
                     then Reports(Model(n0.table[i].value), p, uniq, prefix + [n0.min + i]) else []
    ensures (reports + more) + KidReports(Model(n0), p, uniq, prefix, n0.min + i + 1)
         == reports + KidReports(Model(n0), p, uniq, prefix, n0.min + i)
  {
    assert At(n0, n0.min + i) == n0.table[i];
    assert KidReports(Model(n0), p, uniq, prefix, n0.min + i)
        == more + KidReports(Model(n0), p, uniq, prefix, n0.min + i + 1);
  }

  /** One turn of the scan. */
  method SweepOne(n0: Node, table0: seq<Option<Node>>, i: nat, live0: nat, min0: Byte, max0: Byte,
                  p: Pipe, uniq: bool, prefix: Key)
    returns (table: seq<Option<Node>>, live: nat, newMin: Byte, newMax: Byte, more: seq<Key>, freed: multiset<Address>)
    requires Sweeping(n0, table0, i, live0, min0, max0, p) && i < |n0.table| && n0.min + |n0.table| <= 256
    requires n0.table[i].Some? ==> Valid(n0.table[i].value)
    ensures Sweeping(n0, table, i + 1, live, newMin, newMax, p)
    ensures more == if n0.table[i].Some?
                    then Reports(Model(n0.table[i].value), p, uniq, prefix + [n0.min + i]) else []
    ensures KidIds(table) + freed == KidIds(table0)
    decreases n0, 0, 0
  {
    more, freed := [], multiset{};
    NotYetSwept(n0, table0, i, live0, min0, max0, p);
    if table0[i].None? {
      SweepEmpty(n0, table0, i, live0, min0, max0, p);
      table, live, newMin, newMax := table0, live0, min0, max0;
      return;
    }
    var after;
    after, more, freed := RmChild(n0.table[i].value, p, uniq, prefix + [n0.min + i]);
    IdsUpdate(table0, i, after);
    Exchange(KidIds(table0[i := after]), SlotIds(table0[i]), KidIds(table0), SlotIds(after), freed);
    table, live, newMin, newMax := SweepStore(n0, table0, i, live0, min0, max0, after, p);
  }

  /** Stores what is left of a child. */
  method SweepStore(n0: Node, table0: seq<Option<Node>>, i: nat, live0: nat, min0: Byte, max0: Byte,
                    after: Option<Node>, ghost p: Pipe)
    returns (table: seq<Option<Node>>, live: nat, newMin: Byte, newMax: Byte)
    requires Sweeping(n0, table0, i, live0, min0, max0, p) && i < |n0.table| && n0.min + |n0.table| <= 256
    requires table0[i].Some? && SweptSlot(n0.table[i], after, p)
    ensures Sweeping(n0, table, i + 1, live, newMin, newMax, p) && table == table0[i := after]
  {
    table, live, newMin, newMax := table0[i := after], live0, min0, max0;
    if after.None? {
      SweepGone(n0, table0, i, live0, min0, max0, p);
      live := live - 1;
    } else {
      SweepStays(n0, table0, i, live0, min0, max0, after, p);
      newMin := if i + n0.min < newMin then i + n0.min else newMin;
      newMax := if i + n0.min > newMax then i + n0.min else newMax;
    }
  }

  predicate ReportsSoFar(n0: Node, p: Pipe, uniq: bool, prefix: Key, i: nat, reports: seq<Key>)
    requires n0.min + i <= 256
  {
    reports + KidReports(Model(n0), p, uniq, prefix, n0.min + i) == KidReports(Model(n0), p, uniq, prefix, 0)
  }

  lemma ReportsStart(n0: Node, p: Pipe, uniq: bool, prefix: Key)
    ensures ReportsSoFar(n0, p, uniq, prefix, 0, [])
  {
    NoReportsBelow(Model(n0), p, uniq, prefix, 0, n0.min);
  }

  lemma ReportsNext(n0: Node, p: Pipe, uniq: bool, prefix: Key, i: nat, reports: seq<Key>, more: seq<Key>)
    requires i < |n0.table| && n0.min + i < 256 && ReportsSoFar(n0, p, uniq, prefix, i, reports)
    requires more == if n0.table[i].Some?
                     then Reports(Model(n0.table[i].value), p, uniq, prefix + [n0.min + i]) else []
    ensures ReportsSoFar(n0, p, uniq, prefix, i + 1, reports + more)
  {
    ReportStep(n0, p, uniq, prefix, i, reports, more);
  }

  lemma ReportsEnd(n0: Node, p: Pipe, uniq: bool, prefix: Key, reports: seq<Key>)
    requires n0.min + |n0.table| <= 256 && ReportsSoFar(n0, p, uniq, prefix, |n0.table|, reports)
    ensures reports == KidReports(Model(n0), p, uniq, prefix, 0)
  {
    NoReportsBelow(Model(n0), p, uniq, prefix, n0.min + |n0.table|, 256);
    assert reports + [] == reports;
  }

  predicate SlotOk(n0: Node, i: nat) {
    i < |n0.table| && (n0.table[i].Some? ==> Valid(n0.table[i].value))
  }

  /** The children in the slots of the table are valid. */
  ghost predicate SlotsOk(n0: Node) {
    forall i: nat {:trigger SlotOk(n0, i)} :: i < |n0.table| ==> SlotOk(n0, i)
  }

  lemma SlotsAreOk(n0: Node)
    requires Valid(n0)
    ensures SlotsOk(n0)
  {
    forall i: nat | i < |n0.table| ensures SlotOk(n0, i) {
      assert At(n0, n0.min + i) == n0.table[i];
    }
  }

  method Sweep(n0: Node, p: Pipe, uniq: bool, prefix: Key)
    returns (table: seq<Option<Node>>, live: nat, newMin: Byte, newMax: Byte, reports: seq<Key>,
             freed: multiset<Address>)
    requires Valid(n0) && n0.count > 1
    ensures Sweeping(n0, table, |n0.table|, live, newMin, newMax, p)
    ensures reports == KidReports(Model(n0), p, uniq, prefix, 0)
    ensures KidIds(table) + freed == KidIds(n0.table)
    decreases n0, 1
  {
    ReportsStart(n0, p, uniq, prefix);
    SweepStart(n0, p);
    SlotsAreOk(n0);
    table, live, newMin, newMax, reports, freed := SweepSlots(n0, p, uniq, prefix);
    ReportsEnd(n0, p, uniq, prefix, reports);
  }

  /** The loop over the slots. */
  method SweepSlots(n0: Node, p: Pipe, uniq: bool, prefix: Key)
    returns (table: seq<Option<Node>>, live: nat, newMin: Byte, newMax: Byte, reports: seq<Key>,
             freed: multiset<Address>)
    requires Counted(n0) && SlotsOk(n0) && n0.count > 1
    requires Sweeping(n0, n0.table, 0, n0.liveNodes, n0.min + n0.count - 1, n0.min, p)
             && ReportsSoFar(n0, p, uniq, prefix, 0, [])
    ensures Sweeping(n0, table, n0.count, live, newMin, newMax, p)
    ensures ReportsSoFar(n0, p, uniq, prefix, n0.count, reports) && KidIds(table) + freed == KidIds(n0.table)
    decreases n0, 0, 2
  {
    table, live, reports, freed := n0.table, n0.liveNodes, [], multiset{};
    newMin, newMax := n0.min + n0.count - 1, n0.min;
    var i: nat := 0;
    while i < n0.count
      invariant i <= n0.count && Sweeping(n0, table, i, live, newMin, newMax, p)
      invariant ReportsSoFar(n0, p, uniq, prefix, i, reports)
      invariant KidIds(table) + freed == KidIds(n0.table)
    {
      table, live, newMin, newMax, reports, freed :=
        SweepTurn(n0, table, i, live, newMin, newMax, p, uniq, prefix, reports, freed);
      i := i + 1;
    }
  }

  lemma SweepStart(n0: Node, p: Pipe)
    requires Counted(n0) && n0.count > 0
    ensures Sweeping(n0, n0.table, 0, n0.liveNodes, n0.min + n0.count - 1, n0.min, p)
  {
  }

  method SweepTurn(n0: Node, table0: seq<Option<Node>>, i: nat, live0: nat, min0: Byte, max0: Byte,
                   p: Pipe, uniq: bool, prefix: Key, reports0: seq<Key>, freed0: multiset<Address>)
    returns (table: seq<Option<Node>>, live: nat, newMin: Byte, newMax: Byte, reports: seq<Key>,
             freed: multiset<Address>)
    requires Counted(n0) && SlotsOk(n0) && i < n0.count && Sweeping(n0, table0, i, live0, min0, max0, p)
    requires ReportsSoFar(n0, p, uniq, prefix, i, reports0) && KidIds(table0) + freed0 == KidIds(n0.table)
    ensures Sweeping(n0, table, i + 1, live, newMin, newMax, p)
    ensures ReportsSoFar(n0, p, uniq, prefix, i + 1, reports) && KidIds(table) + freed == KidIds(n0.table)
    decreases n0, 0, 1
  {
    var more;
    assert SlotOk(n0, i);
    table, live, newMin, newMax, more, freed := SweepOne(n0, table0, i, live0, min0, max0, p, uniq, prefix);
    ReportsNext(n0, p, uniq, prefix, i, reports0, more);
    Accounted(KidIds(table), freed, KidIds(table0), freed0);
    reports, freed := reports0 + more, freed0 + freed;
  }

  lemma SweptTable(n0: Node, n: Node, newMin: Byte, newMax: Byte, p: Pipe)
    requires Counted(n0)
    requires n == n0.(pipes := Strip(n0.pipes, p), table := n.table, liveNodes := n.liveNodes)
    requires Sweeping(n0, n.table, |n0.table|, n.liveNodes, newMin, newMax, p)
    ensures Counted(n) && Bounds(n, newMin, newMax)
    ensures Model(n) == RemoveAll(Model(n0), p) && ValidChildren(n)
  {
    forall b: Byte ensures SweptSlot(At(n0, b), At(n, b), p) {
      if n0.min <= b < n0.min + |n0.table| {
        assert SweptAt(n0, n.table, b - n0.min, p);
      }
    }
    SweptModel(n0, n, p);
  }

  method RmMultiple(n0: Node, p: Pipe, uniq: bool, prefix: Key)
    returns (n: Node, reports: seq<Key>, freed: multiset<Address>)
    requires Valid(n0) && n0.count > 1
    ensures Counted(n) && Tight(n) && ValidChildren(n)
    ensures n.pipes == Strip(n0.pipes, p) && Model(n) == RemoveAll(Model(n0), p)
    ensures reports == KidReports(Model(n0), p, uniq, prefix, 0)
    ensures n.id == n0.id && KidIds(n.table) + freed == KidIds(n0.table)
    decreases n0, 2
  {
    var table, live, newMin, newMax;
    table, live, newMin, newMax, reports, freed := Sweep(n0, p, uniq, prefix);
    n := n0.(pipes := Strip(n0.pipes, p), table := table, liveNodes := live);
    SweptTable(n0, n, newMin, newMax, p);
    n := CompactSwept(n, newMin, newMax);
  }

  /** `newMin` and `newMax` as the scan over `table` leaves them. */
  ghost predicate Bounds(n: Node, newMin: Byte, newMax: Byte) {
    && n.min <= newMin < n.min + |n.table| && n.min <= newMax < n.min + |n.table|
    && (forall j :: 0 <= j < |n.table| && n.table[j].Some? ==> newMin <= n.min + j <= newMax)
    && (newMin == n.min + |n.table| - 1 || n.table[newMin - n.min].Some?)
    && (newMax == n.min || n.table[newMax - n.min].Some?)
  }

  lemma TwoLive(table: seq<Option<Node>>) returns (i: nat, j: nat)
    requires Live(table) > 1
    ensures i < j < |table| && table[i].Some? && table[j].Some?
  {
    LiveNone(table);
    i :| 0 <= i < |table| && table[i].Some?;
    assert table == table[..i] + ([table[i]] + table[i + 1..]);
    LiveConcat(table[..i], [table[i]] + table[i + 1..]);
    LiveConcat([table[i]], table[i + 1..]);
    LiveNone(table[..i]);
    LiveNone(table[i + 1..]);
    assert Live([table[i]]) == 1 + Live([table[i]][1..]);
    if Live(table[i + 1..]) > 0 {
      var k :| 0 <= k < |table[i + 1..]| && table[i + 1..][k].Some?;
      j := i + 1 + k;
    } else {
      var k :| 0 <= k < |table[..i]| && table[..i][k].Some?;
      i, j := k, i;
    }
  }

  lemma OneLiveBounds(n: Node, newMin: Byte, newMax: Byte)
    requires Counted(n) && n.liveNodes == 1 && Bounds(n, newMin, newMax)
    ensures newMin == newMax && n.table[newMin - n.min].Some?
    ensures forall j :: 0 <= j < |n.table| && j != newMin - n.min ==> n.table[j].None?
  {
    LiveNone(n.table);
    var k :| 0 <= k < |n.table| && n.table[k].Some?;
    OnlyLive(n.table, k);
  }

  lemma EmptyTable(n: Node)
    requires Counted(n) && n.liveNodes == 0
    ensures var m := n.(table := [], count := 0);
            Counted(m) && ValidChildren(m) && Model(m) == Model(n) && KidIds(n.table) == multiset{}
  {
    LiveNone(n.table);
    IdsNone(n.table);
    assert forall b: Byte :: At(n.(table := [], count := 0), b) == At(n, b);
    SameChildren(n.(table := [], count := 0), n);
  }

  lemma ManyLiveBounds(n: Node, newMin: Byte, newMax: Byte)
    requires Counted(n) && n.liveNodes > 1 && Bounds(n, newMin, newMax)
    ensures newMin < newMax && n.table[newMin - n.min].Some? && n.table[newMax - n.min].Some?
    ensures forall j :: 0 <= j < |n.table| && !(newMin - n.min <= j <= newMax - n.min) ==> n.table[j].None?
  {
    var i, j := TwoLive(n.table);
  }

  method CompactSwept(n0: Node, newMin: Byte, newMax: Byte) returns (n: Node)
    requires Counted(n0) && ValidChildren(n0) && n0.count > 1 && Bounds(n0, newMin, newMax)
    ensures Counted(n) && Tight(n) && ValidChildren(n) && n.pipes == n0.pipes && Model(n) == Model(n0)
    ensures n.id == n0.id && KidIds(n.table) == KidIds(n0.table)
  {
    n := n0;
    if n.liveNodes == 0 {
      EmptyTable(n);
      n := n.(table := [], count := 0);
    } else if n.liveNodes == 1 {
      n := KeepOne(n, newMin, newMax);
    } else {
      n := KeepMany(n, newMin, newMax);
    }
  }

  method KeepOne(n0: Node, newMin: Byte, newMax: Byte) returns (n: Node)
    requires Counted(n0) && ValidChildren(n0) && n0.count > 1 && Bounds(n0, newMin, newMax) && n0.liveNodes == 1
    ensures Counted(n) && Tight(n) && ValidChildren(n) && n.pipes == n0.pipes && Model(n) == Model(n0)
    ensures n.id == n0.id && KidIds(n.table) == KidIds(n0.table)
  {
    n := n0;
    OneLiveBounds(n, newMin, newMax);
    assert newMin == newMax && n.min <= newMin < n.min + n.count;
    Cut(n, newMin - n.min, newMin - n.min + 1);
    n := n.(min := newMin, count := 1, table := n.table[newMin - n.min..newMin - n.min + 1]);
    assert n == CutTo(n0, newMin - n0.min, newMin - n0.min + 1);
  }

  method KeepMany(n0: Node, newMin: Byte, newMax: Byte) returns (n: Node)
    requires Counted(n0) && ValidChildren(n0) && n0.count > 1 && Bounds(n0, newMin, newMax) && n0.liveNodes > 1
    ensures Counted(n) && Tight(n) && ValidChildren(n) && n.pipes == n0.pipes && Model(n) == Model(n0)
    ensures n.id == n0.id && KidIds(n.table) == KidIds(n0.table)
  {
    n := n0;
    ManyLiveBounds(n, newMin, newMax);
    if newMin > n.min || newMax < n.min + n.count - 1 {
      assert newMax - newMin + 1 > 1;
      assert newMax - newMin + 1 < n.count;
      n := n.(min := newMin, count := newMax - newMin + 1, table := n.table[newMin - n.min..newMax - n.min + 1]);
      KeptRange(n0, n, newMin - n0.min, newMax - n0.min + 1);
    }
  }

  lemma KeptRange(n0: Node, n: Node, lo: nat, hi: nat)
    requires Counted(n0) && ValidChildren(n0) && lo < hi <= n0.count && n == CutTo(n0, lo, hi)
    requires n0.table[lo].Some? && n0.table[hi - 1].Some?
    requires forall i :: 0 <= i < n0.count && !(lo <= i < hi) ==> n0.table[i].None?
    ensures Counted(n) && Tight(n) && ValidChildren(n) && Model(n) == Model(n0) && KidIds(n.table) == KidIds(n0.table)
  {
    Cut(n0, lo, hi);
  }

  lemma SingleReports(n0: Node, p: Pipe, uniq: bool, prefix: Key)
    requires Valid(n0) && n0.count == 1
    ensures KidReports(Model(n0), p, uniq, prefix, 0)
         == Reports(Model(n0.table[0].value), p, uniq, prefix + [n0.min])
  {
    NoReportsBelow(Model(n0), p, uniq, prefix, 0, n0.min);
    NoReportsBelow(Model(n0), p, uniq, prefix, n0.min + 1, 256);
    ReportStep(n0, p, uniq, prefix, 0, [], Reports(Model(n0.table[0].value), p, uniq, prefix + [n0.min]));
  }

  method RmSingle(n0: Node, p: Pipe, uniq: bool, prefix: Key)
    returns (n: Node, reports: seq<Key>, freed: multiset<Address>)
    requires Valid(n0) && n0.count == 1
    ensures Counted(n) && Tight(n) && ValidChildren(n)
    ensures n.pipes == Strip(n0.pipes, p) && Model(n) == RemoveAll(Model(n0), p)
    ensures reports == KidReports(Model(n0), p, uniq, prefix, 0)
    ensures n.id == n0.id && KidIds(n.table) + freed == KidIds(n0.table)
    decreases n0, 2
  {
    assert At(n0, n0.min) == n0.table[0];
    var after;
    after, reports, freed := RmChild(n0.table[0].value, p, uniq, prefix + [n0.min]);
    SingleReports(n0, p, uniq, prefix);
    n := SingleSwept(n0, after, p);
    OneSlot(n0.table);
  }

  method SingleSwept(n0: Node, after: Option<Node>, p: Pipe) returns (n: Node)
    requires Valid(n0) && n0.count == 1 && SweptSlot(n0.table[0], after, p)
    ensures Counted(n) && Tight(n) && ValidChildren(n)
    ensures n.pipes == Strip(n0.pipes, p) && Model(n) == RemoveAll(Model(n0), p)
    ensures n.id == n0.id && KidIds(n.table) == SlotIds(after)
  {
    LiveUpdate(n0.table, 0, after);
    IdsOne(after);
    n := n0.(pipes := Strip(n0.pipes, p), table := [after]);
    assert [after] == n0.table[0 := after];
    if after.None? {
      LiveNone(n.table);
      n := n.(table := [], count := 0, liveNodes := n.liveNodes - 1);
      assert n.liveNodes == 0;
    }
    SweptModel(n0, n, p);
  }

  method RmBelow(n0: Node, p: Pipe, uniq: bool, prefix: Key)
    returns (n: Node, reports: seq<Key>, freed: multiset<Address>)
    requires Valid(n0)
    ensures Counted(n) && Tight(n) && ValidChildren(n)
    ensures n.pipes == Strip(n0.pipes, p) && Model(n) == RemoveAll(Model(n0), p)
    ensures reports == KidReports(Model(n0), p, uniq, prefix, 0)
    ensures n.id == n0.id && KidIds(n.table) + freed == KidIds(n0.table)
    decreases n0, 3
  {
    if n0.count == 0 {
      n, reports, freed := n0.(pipes := Strip(n0.pipes, p)), [], multiset{};
      SweptModel(n0, n, p);
      NoReportsBelow(Model(n0), p, uniq, prefix, 0, 256);
    } else if n0.count == 1 {
      n, reports, freed := RmSingle(n0, p, uniq, prefix);
    } else {
      n, reports, freed := RmMultiple(n0, p, uniq, prefix);
    }
  }

  /** `rm` of a pipe: `reports` are the callbacks, in the order in which they run; `freed` the deleted nodes. */
  method RmValue(n0: Node, p: Pipe, uniq: bool, prefix: Key)
    returns (n: Node, reports: seq<Key>, freed: multiset<Address>)
    requires Valid(n0)
    ensures Valid(n)
    ensures Model(n) == RemoveAll(Model(n0), p)
    ensures reports == Reports(Model(n0), p, uniq, prefix)
    ensures Ids(n) + freed == Ids(n0)
    decreases n0, 4
  {
    var here: seq<Key> := [];
    if n0.pipes.Some? && p in n0.pipes.value {
      if !uniq || n0.pipes.value - {p} == {} {
        here := [prefix];
      }
    }
    n, reports, freed := RmBelow(n0, p, uniq, prefix);
    reports := here + reports;
  }

  // ---------------------------------------------------------------- match

  /** `called` holds a pipe once for every prefix of `data` that it holds. */
  method Match(root: Node, data: Key) returns (called: multiset<Pipe>)
    requires Valid(root)
    ensures forall q :: called[q] == |Held(Model(root), data, |data|, q)|
  {
    called := Collect(root, data);
    forall q ensures called[q] == |Held(Model(root), data, |data|, q)| { MatchesCount(Model(root), data, |data|, q); }
  }

  /** The loop of `match`: down along `data` until it ends or a child is missing. */
  method Collect(root: Node, data: Key) returns (called: multiset<Pipe>)
    requires Valid(root)
    ensures called == Matches(Model(root), data, |data|)
  {
    var current, i := root, 0;
    called := multiset{};
    forall k: Key ensures Holders(Model(root), data[..0] + k) == Holders(Model(root), k) {
      assert data[..0] + k == k;
    }
    while true
      invariant i <= |data| && Valid(current)
      invariant forall k: Key :: Holders(Model(root), data[..i] + k) == Holders(Model(current), k)
      invariant called == if i == 0 then multiset{} else Matches(Model(root), data, i - 1)
      decreases |data| - i
    {
      called := called + multiset(if current.pipes.Some? then current.pipes.value else {});
      assert data[..i] + [] == data[..i];
      assert called == Matches(Model(root), data, i);
      if i == |data| { return; }
      if current.count == 0 {
        NothingFurther(root, current, data, i);
        return;
      }
      if current.count == 1 {
        if data[i] != current.min {
          NothingFurther(root, current, data, i);
          return;
        }
        Descend(root, current, data, i);
        current := current.table[0].value;
        i := i + 1;
        continue;
      }
      if data[i] < current.min || data[i] >= current.min + current.count {
        NothingFurther(root, current, data, i);
        return;
      }
      if current.table[data[i] - current.min].None? {
        NothingFurther(root, current, data, i);
        return;
      }
      Descend(root, current, data, i);
      current := current.table[data[i] - current.min].value;
      i := i + 1;
    }
  }

  lemma Descend(root: Node, current: Node, data: Key, i: nat)
    requires Valid(current) && i < |data| && At(current, data[i]).Some?
    requires forall k: Key :: Holders(Model(root), data[..i] + k) == Holders(Model(current), k)
    ensures forall k: Key :: Holders(Model(root), data[..i + 1] + k) == Holders(Model(At(current, data[i]).value), k)
    ensures Valid(At(current, data[i]).value)
  {
    forall k: Key ensures Holders(Model(root), data[..i + 1] + k) == Holders(Model(At(current, data[i]).value), k) {
      assert data[..i + 1] + k == data[..i] + ([data[i]] + k);
      KidHolds(Model(current), data[i], k);
    }
  }

  lemma NoHolderBeyond(root: Trie, current: Trie, data: Key, i: nat, j: nat)
    requires i < j <= |data| && data[i] !in current.kids
    requires forall k: Key :: Holders(root, data[..i] + k) == Holders(current, k)
    ensures Holders(root, data[..j]) == {}
  {
    var k := [data[i]] + data[i + 1..j];
    assert data[..j] == data[..i] + k;
    KidHolds(current, data[i], data[i + 1..j]);
  }

  /** Where the walk stops, no longer prefix of `data` has a holder. */
  lemma NothingFurther(root: Node, current: Node, data: Key, i: nat)
    requires i < |data| && At(current, data[i]).None?
    requires forall k: Key :: Holders(Model(root), data[..i] + k) == Holders(Model(current), k)
    ensures Matches(Model(root), data, |data|) == Matches(Model(root), data, i)
  {
    forall j | i < j <= |data| ensures Holders(Model(root), data[..j]) == {} {
      NoHolderBeyond(Model(root), Model(current), data, i, j);
    }
    EmptyTail(Model(root), data, i, |data|);
  }

  lemma {:induction false} EmptyTail(t: Trie, data: Key, i: nat, n: nat)
    requires i <= n <= |data| && forall j :: i < j <= n ==> Holders(t, data[..j]) == {}
    ensures Matches(t, data, n) == Matches(t, data, i)
    decreases n
  {
    if i < n { EmptyTail(t, data, i, n - 1); }
  }

  // ---------------------------------------------------------------- shape

  /** The same node, except that an empty table may remember another `min`. */
  predicate SameShape(n: Node, m: Node)
    decreases n
  {
    && n.pipes == m.pipes && n.count == m.count && n.liveNodes == m.liveNodes
    && (n.count > 0 ==> n.min == m.min)
    && (forall b: Byte :: At(n, b).Some? <==> At(m, b).Some?)
    && (forall b: Byte :: At(n, b).Some? && At(m, b).Some? ==> SameShape(At(n, b).value, At(m, b).value))
  }

  lemma {:induction false} LiveSame(s: seq<Option<Node>>, t: seq<Option<Node>>)
    requires |s| == |t| && forall i :: 0 <= i < |s| ==> s[i].Some? == t[i].Some?
    ensures Live(s) == Live(t)
  {
    if s != [] {
      forall i | 0 <= i < |s[1..]| ensures s[1..][i].Some? == t[1..][i].Some? {
        assert s[1..][i] == s[i + 1] && t[1..][i] == t[i + 1];
      }
      LiveSame(s[1..], t[1..]);
    }
  }

  lemma SameRange(n: Node, m: Node)
    requires Counted(n) && Tight(n) && Counted(m) && Tight(m)
    requires forall b: Byte :: At(n, b).Some? <==> At(m, b).Some?
    ensures n.count == m.count && n.liveNodes == m.liveNodes && (n.count > 0 ==> n.min == m.min)
  {
    if n.count > 0 {
      assert At(n, n.min).Some? && At(n, n.min + n.count - 1).Some?;
      assert At(m, n.min).Some? && At(m, n.min + n.count - 1).Some?;
    }
    if m.count > 0 {
      assert At(m, m.min).Some? && At(m, m.min + m.count - 1).Some?;
      assert At(n, m.min).Some? && At(n, m.min + m.count - 1).Some?;
      forall i | 0 <= i < m.count ensures n.table[i].Some? == m.table[i].Some? {
        assert At(n, n.min + i) == n.table[i] && At(m, m.min + i) == m.table[i];
      }
    }
    LiveSame(n.table, m.table);
  }

  lemma {:induction false} SameModelSameShape(n: Node, m: Node)
    requires Valid(n) && Valid(m) && Model(n) == Model(m)
    ensures SameShape(n, m)
    decreases n
  {
    forall b: Byte ensures At(n, b).Some? <==> At(m, b).Some? {
      assert At(n, b).Some? <==> b in Model(n).kids;
      assert At(m, b).Some? <==> b in Model(m).kids;
    }
    SameRange(n, m);
    forall b: Byte | At(n, b).Some? && At(m, b).Some? ensures SameShape(At(n, b).value, At(m, b).value) {
      assert Model(n).kids[b] == Model(m).kids[b];
      SameModelSameShape(At(n, b).value, At(m, b).value);
    }
  }

  /** Nodes with the same contents have the same counters and tables, whatever their histories. */
  lemma ContentsDetermineShape(n: Node, m: Node)
    requires Valid(n) && Valid(m) && forall k: Key :: Holders(Model(n), k) == Holders(Model(m), k)
    ensures SameShape(n, m)
  {
    ValidIsPruned(n);
    ValidIsPruned(m);
    PrunedIsCanonical(Model(n), Model(m));
    SameModelSameShape(n, m);
  }

  // ---------------------------------------------------------------- the trie object

  /** The whole multi-trie as its users see it: a map from prefixes to sets of pipes. */
  class MultiTrie {
    var root: Node
    var next: Address                    // how many nodes have been made
    ghost var freed: multiset<Address>   // the nodes that have been deleted

    /** Every node that was ever made is in one place of the trie, or it was deleted once. */
    ghost predicate Ok()
      reads this
    {
      Valid(root) && Ids(root) + freed == Made(0, next)
    }

    ghost function Holding(k: Key): set<Pipe>
      reads this
    {
      Holders(Model(root), k)
    }

    constructor ()
      ensures Ok() && forall k :: Holding(k) == {}
    {
      root, next, freed := Fresh(0), 1, multiset{};
      new;
      ChildlessModel();
      forall k: Key ensures Holding(k) == {} { LeafHolds(k); }
    }

    /** No node is shared or leaked, none is deleted twice, and none that was deleted is still in use. */
    lemma NodesAreOwned(a: Address)
      requires Ok()
      ensures Ids(root)[a] + freed[a] == if a < next then 1 else 0
    {
      MadeOnce(0, next, a);
      assert (Ids(root) + freed)[a] == Made(0, next)[a];
    }

    method AddPair(prefix: Key, p: Pipe) returns (isNew: bool)
      requires Ok()
      modifies this`root, this`next
      ensures Ok()
      ensures forall k :: Holding(k) == if k == prefix then old(Holding(k)) + {p} else old(Holding(k))
      ensures isNew == (old(Holding(prefix)) == {})
    {
      ghost var before := Model(root);
      var start, n := next, root;
      root, isNew, next := Add(n, prefix, p, start);
      Grown(Ids(root), Ids(n), freed, start, next);
      forall k: Key ensures Holding(k) == if k == prefix then old(Holding(k)) + {p} else old(Holding(k)) {
        InsertHolders(before, prefix, p, k);
      }
    }

    method RmPair(prefix: Key, p: Pipe) returns (ret: RmResult)
      requires Ok()
      modifies this`root, this`freed
      ensures Ok()
      ensures forall k :: Holding(k) == if k == prefix then old(Holding(k)) - {p} else old(Holding(k))
      ensures ret == if p !in old(Holding(prefix)) then NotFound
                     else if Holding(prefix) == {} then LastValueRemoved else ValuesRemain
    {
      ghost var before := Model(root);
      var deleted;
      var n := root;
      n, ret, deleted := Rm(n, prefix, p);
      Replace(n, deleted);
      forall k: Key ensures Holding(k) == if k == prefix then old(Holding(k)) - {p} else old(Holding(k)) {
        RemoveHolders(before, prefix, p, k);
      }
    }

    /** `reports` are the callbacks: each due prefix once and nothing else. */
    method RmPipe(p: Pipe, uniq: bool) returns (reports: seq<Key>)
      requires Ok()
      modifies this`root, this`freed
      ensures Ok()
      ensures forall k :: Holding(k) == old(Holding(k)) - {p}
      ensures Distinct(reports)
      ensures forall k :: k in reports <==> p in old(Holding(k)) && (uniq ==> Holding(k) == {})
    {
      ghost var before := Model(root);
      var deleted;
      var n := root;
      n, reports, deleted := RmValue(n, p, uniq, []);
      Replace(n, deleted);
      RemovedEverywhere(before, p, uniq);
    }

    /** The callback runs for a pipe once for every prefix of `data` that it holds. */
    method MatchData(data: Key) returns (called: multiset<Pipe>)
      requires Ok()
      ensures forall q :: called[q] == |set n: nat | n <= |data| && q in Holding(data[..n])|
    {
      called := Match(root, data);
      forall q ensures called[q] == |set n: nat | n <= |data| && q in Holding(data[..n])| {
        assert (set n: nat | n <= |data| && q in Holding(data[..n])) == Held(Model(root), data, |data|, q);
      }
    }

    /** The root after a removal. */
    method Replace(n: Node, deleted: multiset<Address>)
      requires Ok() && Valid(n) && Ids(n) + deleted == Ids(root)
      modifies this`root, this`freed
      ensures Ok() && root == n
    {
      Accounted(Ids(n), deleted, Ids(root), freed);
      root, freed := n, freed + deleted;
    }
  }

  lemma RemovedEverywhere(t: Trie, p: Pipe, uniq: bool)
    ensures Distinct(Reports(t, p, uniq, []))
    ensures forall k: Key :: Holders(RemoveAll(t, p), k) == Holders(t, k) - {p}
    ensures forall k: Key :: k in Reports(t, p, uniq, []) <==>
            p in Holders(t, k) && (uniq ==> Holders(RemoveAll(t, p), k) == {})
  {
    RootReports(t, p, uniq);
    forall k: Key
      ensures Holders(RemoveAll(t, p), k) == Holders(t, k) - {p}
      ensures k in Reports(t, p, uniq, []) <==> p in Holders(t, k) && (uniq ==> Holders(RemoveAll(t, p), k) == {})
    {
      RemoveAllHolders(t, p, k);
      RootReport(t, p, uniq, k);
    }
  }

  lemma Grown(x: multiset<Address>, before: multiset<Address>, freed: multiset<Address>, start: Address, next: Address)
    requires start <= next && x == before + Made(start, next) && before + freed == Made(0, start)
    ensures x + freed == Made(0, next)
  {
    MadeMore(0, start, next);
    forall e ensures x[e] + freed[e] == Made(0, next)[e] { assert (before + freed)[e] == Made(0, start)[e]; }
  }

  lemma RootReports(t: Trie, p: Pipe, uniq: bool)
    ensures Distinct(Reports(t, p, uniq, []))
  {
    ReportsExact(t, p, uniq, []);
  }

  lemma RootReport(t: Trie, p: Pipe, uniq: bool, k: Key)
    ensures k in Reports(t, p, uniq, []) <==> p in Holders(t, k) && (uniq ==> Holders(t, k) - {p} == {})
  {
    ReportsExact(t, p, uniq, []);
    assert k[0..] == k;
    assert k in Reports(t, p, uniq, []) <==> Reported(t, p, uniq, [], k);
  }

  lemma ChildlessModel()
    ensures Model(Fresh(0)) == Leaf && Valid(Fresh(0)) && Ids(Fresh(0)) == Made(0, 1)
  {
    assert Model(Fresh(0)).kids == map[];
  }
}
