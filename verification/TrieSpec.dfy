/**
 The value that a multi-trie stands for: which pipes hold which prefix. A trie is read through
 `Holders`, a map from byte strings to sets of pipes; the node structure is canonical when it is
 `Pruned`, and then it is determined by `Holders` alone.
 */
module TrieSpec {

  import opened Bytes
  import opened Sequences

  type Pipe = nat

  /** `pipes` is None where the source has a NULL set. */
  datatype Trie = Trie(pipes: Option<set<Pipe>>, kids: map<Byte, Trie>)

  const Leaf := Trie(None, map[])

  function Holders(t: Trie, key: Key): set<Pipe>
    decreases |key|
  {
    if key == [] then (if t.pipes.Some? then t.pipes.value else {})
    else if key[0] in t.kids then Holders(t.kids[key[0]], key[1..])
    else {}
  }

  function Kid(t: Trie, b: Byte): Trie {
    if b in t.kids then t.kids[b] else Leaf
  }

  /** No empty set of pipes and, below the root, no node without pipes and children. */
  predicate Pruned(t: Trie)
    decreases t
  {
    && (t.pipes.Some? ==> t.pipes.value != {})
    && (forall b :: b in t.kids ==> Pruned(t.kids[b]) && t.kids[b] != Leaf)
  }

  // ---------------------------------------------------------------- adding

  function Insert(t: Trie, key: Key, p: Pipe): Trie
    decreases |key|
  {
    if key == [] then t.(pipes := Some(Holders(t, []) + {p}))
    else t.(kids := t.kids[key[0] := Insert(Kid(t, key[0]), key[1..], p)])
  }

  /** Adding one pair to the trie adds exactly that pair to the contents. */
  lemma {:induction false} InsertHolders(t: Trie, key: Key, p: Pipe, k: Key)
    ensures Holders(Insert(t, key, p), k) == if k == key then Holders(t, k) + {p} else Holders(t, k)
    decreases |key|
  {
    if key != [] && k != [] && k[0] == key[0] {
      InsertHolders(Kid(t, key[0]), key[1..], p, k[1..]);
      assert k == key <==> k[1..] == key[1..];
    }
  }

  lemma {:induction false} InsertPruned(t: Trie, key: Key, p: Pipe)
    requires Pruned(t)
    ensures Pruned(Insert(t, key, p)) && Insert(t, key, p) != Leaf
    decreases |key|
  {
    if key != [] {
      InsertPruned(Kid(t, key[0]), key[1..], p);
      assert key[0] in Insert(t, key, p).kids;
    }
  }

  // ---------------------------------------------------------------- removing one pair

  function Strip(pipes: Option<set<Pipe>>, p: Pipe): Option<set<Pipe>> {
    if pipes.None? || pipes.value - {p} == {} then None else Some(pipes.value - {p})
  }

  /** Puts `kid` below `b`, or nothing when it is redundant. */
  function Graft(t: Trie, b: Byte, kid: Trie): Trie {
    t.(kids := if kid == Leaf then t.kids - {b} else t.kids[b := kid])
  }

  function Remove(t: Trie, key: Key, p: Pipe): Trie
    decreases |key|
  {
    if key == [] then t.(pipes := Strip(t.pipes, p))
    else if key[0] in t.kids then Graft(t, key[0], Remove(t.kids[key[0]], key[1..], p))
    else t
  }

  datatype RmResult = NotFound | LastValueRemoved | ValuesRemain

  function RemoveResult(holders: set<Pipe>, p: Pipe): RmResult {
    if p !in holders then NotFound else if holders == {p} then LastValueRemoved else ValuesRemain
  }

  lemma {:induction false} RemoveHolders(t: Trie, key: Key, p: Pipe, k: Key)
    ensures Holders(Remove(t, key, p), k) == if k == key then Holders(t, k) - {p} else Holders(t, k)
    decreases |key|
  {
    if key != [] && k != [] && k[0] == key[0] && key[0] in t.kids {
      RemoveHolders(t.kids[key[0]], key[1..], p, k[1..]);
      assert k == key <==> k[1..] == key[1..];
      LeafHolds(k[1..]);
    }
  }

  lemma LeafHolds(k: Key)
    ensures Holders(Leaf, k) == {}
  {
  }

  lemma {:induction false} RemovePruned(t: Trie, key: Key, p: Pipe)
    requires Pruned(t)
    ensures Pruned(Remove(t, key, p))
    decreases |key|
  {
    if key != [] && key[0] in t.kids {
      RemovePruned(t.kids[key[0]], key[1..], p);
    }
  }

  // ---------------------------------------------------------------- removing a pipe everywhere

  function RemoveAll(t: Trie, p: Pipe): Trie
    decreases t
  {
    Trie(Strip(t.pipes, p),
         map b | b in t.kids && RemoveAll(t.kids[b], p) != Leaf :: RemoveAll(t.kids[b], p))
  }

  lemma {:induction false} RemoveAllHolders(t: Trie, p: Pipe, k: Key)
    ensures Holders(RemoveAll(t, p), k) == Holders(t, k) - {p}
    decreases |k|
  {
    if k != [] && k[0] in t.kids {
      RemoveAllHolders(t.kids[k[0]], p, k[1..]);
      LeafHolds(k[1..]);
    }
  }

  lemma {:induction false} RemoveAllPruned(t: Trie, p: Pipe)
    requires Pruned(t)
    ensures Pruned(RemoveAll(t, p))
    decreases t
  {
    forall b | b in t.kids ensures Pruned(RemoveAll(t.kids[b], p)) {
      RemoveAllPruned(t.kids[b], p);
    }
  }

  /** Whether the callback is due for a prefix held by `holders`. */
  predicate Due(holders: set<Pipe>, p: Pipe, uniq: bool) {
    p in holders && (uniq ==> holders == {p})
  }

  /** The callbacks of removing `p` below `prefix`, in order. */
  function Reports(t: Trie, p: Pipe, uniq: bool, prefix: Key): seq<Key>
    decreases t, 257
  {
    (if Due(Holders(t, []), p, uniq) then [prefix] else []) + KidReports(t, p, uniq, prefix, 0)
  }

  /** The callbacks from the children below the bytes `b`, `b + 1`, and so on. */
  function KidReports(t: Trie, p: Pipe, uniq: bool, prefix: Key, b: nat): seq<Key>
    requires b <= 256
    decreases t, 256 - b
  {
    if b == 256 then []
    else
      (if b in t.kids then Reports(t.kids[b], p, uniq, prefix + [b]) else [])
      + KidReports(t, p, uniq, prefix, b + 1)
  }

  predicate Reported(t: Trie, p: Pipe, uniq: bool, prefix: Key, k: Key) {
    prefix <= k && Due(Holders(t, k[|prefix|..]), p, uniq)
  }

  predicate KidReported(t: Trie, p: Pipe, uniq: bool, prefix: Key, b: nat, k: Key) {
    |k| > |prefix| && k[|prefix|] >= b && Reported(t, p, uniq, prefix, k)
  }

  /** The callback runs once for each prefix that is due, with its exact bytes, and for no other. */
  lemma {:induction false} ReportsExact(t: Trie, p: Pipe, uniq: bool, prefix: Key)
    ensures Distinct(Reports(t, p, uniq, prefix))
    ensures forall k :: k in Reports(t, p, uniq, prefix) <==> Reported(t, p, uniq, prefix, k)
    decreases t, 257
  {
    KidReportsExact(t, p, uniq, prefix, 0);
    var here := if Due(Holders(t, []), p, uniq) then [prefix] else [];
    var below := KidReports(t, p, uniq, prefix, 0);
    assert !KidReported(t, p, uniq, prefix, 0, prefix);
    ConcatDistinct(here, below);
    forall k: Key ensures k in here + below <==> Reported(t, p, uniq, prefix, k) {
      if prefix <= k && |k| == |prefix| { assert k == prefix && k[|prefix|..] == []; }
    }
  }

  lemma {:induction false} KidReportsExact(t: Trie, p: Pipe, uniq: bool, prefix: Key, b: nat)
    requires b <= 256
    ensures Distinct(KidReports(t, p, uniq, prefix, b))
    ensures forall k :: k in KidReports(t, p, uniq, prefix, b) <==> KidReported(t, p, uniq, prefix, b, k)
    decreases t, 256 - b
  {
    if b < 256 {
      var here := if b in t.kids then Reports(t.kids[b], p, uniq, prefix + [b]) else [];
      var rest := KidReports(t, p, uniq, prefix, b + 1);
      KidReportsExact(t, p, uniq, prefix, b + 1);
      if b in t.kids { ReportsExact(t.kids[b], p, uniq, prefix + [b]); }
      forall k: Key
        ensures k in here + rest <==> KidReported(t, p, uniq, prefix, b, k)
        ensures !(k in here && k in rest)
      {
        ReportSplits(t, p, uniq, prefix, b, k);
      }
      ConcatDistinct(here, rest);
    }
  }

  /** A report below `b` or later comes from the child at `b` or from a later child, not from both. */
  lemma ReportSplits(t: Trie, p: Pipe, uniq: bool, prefix: Key, b: Byte, k: Key)
    ensures KidReported(t, p, uniq, prefix, b, k) <==>
              (b in t.kids && Reported(t.kids[b], p, uniq, prefix + [b], k))
              || KidReported(t, p, uniq, prefix, b + 1, k)
    ensures prefix + [b] <= k ==> !KidReported(t, p, uniq, prefix, b + 1, k)
  {
    if prefix + [b] <= k {
      assert k[|prefix|] == b;
      assert k[..|prefix|] == (prefix + [b])[..|prefix|] == prefix;
      assert k[|prefix|..] == [b] + k[|prefix| + 1..];
      KidHolds(t, b, k[|prefix| + 1..]);
    } else if |k| > |prefix| && prefix <= k {
      assert k[..|prefix| + 1] == k[..|prefix|] + [k[|prefix|]] == prefix + [k[|prefix|]];
    }
  }

  lemma KidHolds(t: Trie, b: Byte, k: Key)
    ensures Holders(t, [b] + k) == if b in t.kids then Holders(t.kids[b], k) else {}
  {
    assert ([b] + k)[1..] == k;
  }

  // ---------------------------------------------------------------- the shape is canonical

  /** A pruned trie that is not a bare leaf holds something. */
  lemma {:induction false} HoldsSomething(t: Trie) returns (k: Key)
    requires Pruned(t) && t != Leaf
    ensures Holders(t, k) != {}
    decreases t
  {
    k := [];
    if t.pipes.None? {
      assert t.kids != map[];
      var b :| b in t.kids;
      var below := HoldsSomething(t.kids[b]);
      k := [b] + below;
      KidHolds(t, b, below);
    }
  }

  predicate HeldAlike(t: Trie, u: Trie, k: Key) {
    Holders(t, k) == Holders(u, k)
  }

  ghost predicate SameHolders(t: Trie, u: Trie) {
    forall k {:trigger HeldAlike(t, u, k)} :: HeldAlike(t, u, k)
  }

  /** Pruned tries with the same contents are the same trie, whatever their histories. */
  lemma PrunedIsCanonical(t: Trie, u: Trie)
    requires Pruned(t) && Pruned(u)
    requires forall k :: Holders(t, k) == Holders(u, k)
    ensures t == u
  {
    forall k: Key ensures HeldAlike(t, u, k) { }
    SameIsEqual(t, u);
  }

  lemma {:induction false} SameIsEqual(t: Trie, u: Trie)
    requires Pruned(t) && Pruned(u) && SameHolders(t, u)
    ensures t == u
    decreases t
  {
    assert HeldAlike(t, u, []);
    SameKids(t, u);
    forall k: Key ensures HeldAlike(u, t, k) { assert HeldAlike(t, u, k); }
    SameKids(u, t);
    forall b | b in t.kids ensures t.kids[b] == u.kids[b] {
      AlikeBelow(t, u, b);
      SameIsEqual(t.kids[b], u.kids[b]);
    }
    assert t.kids == u.kids;
  }

  lemma AlikeBelow(t: Trie, u: Trie, b: Byte)
    requires SameHolders(t, u) && b in t.kids && b in u.kids
    ensures SameHolders(t.kids[b], u.kids[b])
  {
    forall k: Key ensures HeldAlike(t.kids[b], u.kids[b], k) {
      assert HeldAlike(t, u, [b] + k);
      KidHolds(t, b, k);
      KidHolds(u, b, k);
    }
  }

  lemma SameKids(t: Trie, u: Trie)
    requires Pruned(t) && SameHolders(t, u)
    ensures t.kids.Keys <= u.kids.Keys
  {
    forall b | b in t.kids ensures b in u.kids {
      var below := HoldsSomething(t.kids[b]);
      assert HeldAlike(t, u, [b] + below);
      SharedKid(t, u, b, below);
    }
  }

  lemma SharedKid(t: Trie, u: Trie, b: Byte, below: Key)
    requires b in t.kids && Holders(t.kids[b], below) != {} && Holders(t, [b] + below) == Holders(u, [b] + below)
    ensures b in u.kids
  {
    KidHolds(t, b, below);
    KidHolds(u, b, below);
  }

  // ---------------------------------------------------------------- runs

  datatype TrieOp = OpAdd(key: Key, p: Pipe) | OpRm(key: Key, p: Pipe) | OpRmAll(p: Pipe)

  function Apply(t: Trie, op: TrieOp): Trie {
    match op
    case OpAdd(key, p) => Insert(t, key, p)
    case OpRm(key, p) => Remove(t, key, p)
    case OpRmAll(p) => RemoveAll(t, p)
  }

  function RunOps(ops: seq<TrieOp>): Trie {
    if ops == [] then Leaf else Apply(RunOps(ops[..|ops| - 1]), ops[|ops| - 1])
  }

  /** The same operations on a plain set of (prefix, pipe) pairs. */
  function RunPairs(ops: seq<TrieOp>): set<(Key, Pipe)> {
    if ops == [] then {}
    else
      var before := RunPairs(ops[..|ops| - 1]);
      match ops[|ops| - 1]
      case OpAdd(key, p) => before + {(key, p)}
      case OpRm(key, p) => before - {(key, p)}
      case OpRmAll(p) => set pair | pair in before && pair.1 != p
  }

  lemma {:induction false} RunIsPruned(ops: seq<TrieOp>)
    ensures Pruned(RunOps(ops))
  {
    if ops != [] {
      var before := RunOps(ops[..|ops| - 1]);
      RunIsPruned(ops[..|ops| - 1]);
      match ops[|ops| - 1]
      case OpAdd(key, p) => InsertPruned(before, key, p);
      case OpRm(key, p) => RemovePruned(before, key, p);
      case OpRmAll(p) => RemoveAllPruned(before, p);
    }
  }

  lemma {:induction false} RunRefinesPairs(ops: seq<TrieOp>, k: Key, q: Pipe)
    ensures q in Holders(RunOps(ops), k) <==> (k, q) in RunPairs(ops)
  {
    if ops != [] {
      var before := RunOps(ops[..|ops| - 1]);
      RunRefinesPairs(ops[..|ops| - 1], k, q);
      match ops[|ops| - 1]
      case OpAdd(key, p) => InsertHolders(before, key, p, k);
      case OpRm(key, p) => RemoveHolders(before, key, p, k);
      case OpRmAll(p) => RemoveAllHolders(before, p, k);
    } else {
      LeafHolds(k);
    }
  }

  /** Two histories that leave the same pairs leave the same nodes. */
  lemma ShapeForgetsHistory(ops1: seq<TrieOp>, ops2: seq<TrieOp>)
    requires RunPairs(ops1) == RunPairs(ops2)
    ensures RunOps(ops1) == RunOps(ops2)
  {
    RunIsPruned(ops1);
    RunIsPruned(ops2);
    forall k: Key ensures Holders(RunOps(ops1), k) == Holders(RunOps(ops2), k) {
      forall q: Pipe ensures q in Holders(RunOps(ops1), k) <==> q in Holders(RunOps(ops2), k) {
        RunRefinesPairs(ops1, k, q);
        RunRefinesPairs(ops2, k, q);
      }
    }
    PrunedIsCanonical(RunOps(ops1), RunOps(ops2));
  }

  // ---------------------------------------------------------------- matching

  /** Every holder of every prefix of `data` up to length `n`. */
  function Matches(t: Trie, data: Key, n: nat): multiset<Pipe>
    requires n <= |data|
  {
    multiset(Holders(t, data[..n])) + if n == 0 then multiset{} else Matches(t, data, n - 1)
  }

  /** The lengths of the prefixes of `data`, up to `n`, that `q` holds. */
  ghost function Held(t: Trie, data: Key, n: nat, q: Pipe): set<nat>
    requires n <= |data|
  {
    set i: nat | i <= n && q in Holders(t, data[..i])
  }

  /** A pipe is reported once for every prefix that it holds. */
  lemma {:induction false} MatchesCount(t: Trie, data: Key, n: nat, q: Pipe)
    requires n <= |data|
    ensures Matches(t, data, n)[q] == |Held(t, data, n, q)|
  {
    if n == 0 {
      assert Held(t, data, 0, q) == if q in Holders(t, data[..0]) then {0} else {};
    } else {
      MatchesCount(t, data, n - 1, q);
      HeldNext(t, data, n, q);
    }
  }

  lemma HeldNext(t: Trie, data: Key, n: nat, q: Pipe)
    requires 0 < n <= |data|
    ensures |Held(t, data, n, q)| == |Held(t, data, n - 1, q)| + if q in Holders(t, data[..n]) then 1 else 0
  {
    var before := Held(t, data, n - 1, q);
    assert n !in before;
    assert Held(t, data, n, q) == if q in Holders(t, data[..n]) then before + {n} else before;
  }
}
