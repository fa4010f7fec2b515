/**
 A radix tree in memory: which block says what, and how edits of blocks and pointers change the tree
 that lies there.
 */
module RadixStore {
  import opened Bytes
  import opened RadixBlock
  import S = RadixSpec

  type Memory = map<Ptr, seq<Byte>>

  /** First bytes of the edges of a node whose key has length `n`. */
  function EdgeBytes(kids: seq<Key>, n: nat): (r: seq<Byte>)
    ensures |r| == |kids|
  {
    seq(|kids|, i requires 0 <= i < |kids| => if |kids[i]| > n then kids[i][n] else 0)
  }

  function EdgePtrs(kids: seq<Key>, addr: map<Key, Ptr>): (r: seq<Ptr>)
    ensures |r| == |kids|
  {
    seq(|kids|, i requires 0 <= i < |kids| => if kids[i] in addr then addr[kids[i]] else [])
  }

  function BlockOf(t: S.Tree, addr: map<Key, Ptr>, k: Key): Block
    requires k in t && |t[k].parent| <= |k|
  {
    Block(t[k].refs, k[|t[k].parent|..], EdgeBytes(t[k].kids, |k|), EdgePtrs(t[k].kids, addr))
  }

  /** The block of node `k` says what the node is. */
  predicate Holds(mem: Memory, t: S.Tree, addr: map<Key, Ptr>, w: nat, k: Key) {
    && k in t && |t[k].parent| <= |k| && k in addr && addr[k] in mem
    && Fits(BlockOf(t, addr, k), w)
    && mem[addr[k]] == Layout(BlockOf(t, addr, k))
  }

  /** Every node has its own block and every block belongs to a node. */
  predicate Owned(mem: Memory, t: S.Tree, addr: map<Key, Ptr>, owner: map<Ptr, Key>, w: nat) {
    && addr.Keys == t.Keys && owner.Keys == mem.Keys
    && (forall k :: k in addr ==> |addr[k]| == w && addr[k] in owner && owner[addr[k]] == k)
    && (forall p :: p in owner ==> owner[p] in addr && addr[owner[p]] == p)
  }

  predicate Stored(mem: Memory, t: S.Tree, addr: map<Key, Ptr>, owner: map<Ptr, Key>, w: nat) {
    && S.WellFormed(t)
    && Owned(mem, t, addr, owner, w)
    && forall k {:trigger Holds(mem, t, addr, w, k)} :: k in t ==> Holds(mem, t, addr, w, k)
  }

  /** A node and its edges stay as they are when only other nodes change. */
  lemma StillHolds(mem: Memory, t: S.Tree, addr: map<Key, Ptr>, mem': Memory, t': S.Tree, addr': map<Key, Ptr>,
                   w: nat, k: Key)
    requires Holds(mem, t, addr, w, k) && k in t' && t'[k] == t[k]
    requires k in addr' && addr'[k] == addr[k] && addr[k] in mem' && mem'[addr[k]] == mem[addr[k]]
    requires forall c :: c in t[k].kids ==> c in addr && c in addr' && addr'[c] == addr[c]
    ensures Holds(mem', t', addr', w, k)
  {
    assert EdgePtrs(t[k].kids, addr') == EdgePtrs(t[k].kids, addr);
  }

  /** Bytes are few: a node has at most 256 edges. */
  lemma FewEdges(t: S.Tree, k: Key)
    requires S.NodeOk(t, k)
    ensures |t[k].kids| <= 256
  {
    var bytes := EdgeBytes(t[k].kids, |k|);
    forall i, j | 0 <= i < j < |bytes| ensures bytes[i] != bytes[j] {
      assert S.Differ(t[k].kids[i], t[k].kids[j], |k|);
    }
    Pigeons(bytes, 256);
  }

  lemma SomeByteBelow(s: seq<Byte>, n: nat)
    requires s != [] && forall i :: 0 <= i < |s| ==> s[i] < n
    ensures n > 0
  {
    assert s[0] < n;
  }

  lemma {:induction false} Pigeons(s: seq<Byte>, n: nat)
    requires forall i, j :: 0 <= i < j < |s| ==> s[i] != s[j]
    requires forall i :: 0 <= i < |s| ==> s[i] < n
    ensures |s| <= n
  {
    if s == [] {
    } else {
      SomeByteBelow(s, n);
      if i :| 0 <= i < |s| && s[i] == n - 1 {
        var r := s[..i] + s[i + 1..];
        Pigeons(r, n - 1);
      } else {
        Pigeons(s, n - 1);
      }
    }
  }

  // ---------------------------------------------------------------- match

  /** Why the walk down stopped at node `cur` after `i` bytes of `key`, `j` of them in this node. */
  predicate Stopped(t: S.Tree, key: Key, cur: Key, i: nat, j: nat) {
    && cur in t
    && i == |t[cur].parent| + j && i <= |key| && i <= |cur|
    && key[..i] == cur[..i] && (cur != [] ==> j > 0)
    && (|| i == |key|
        || (i < |cur| && cur[i] != key[i])
        || (i == |cur| && forall c :: c in t[cur].kids ==> S.Differ(c, key, i)))
  }

  /** After a plain walk the key is stored in the tree exactly if all of it and all of `cur` matched. */
  lemma StoppedAt(t: S.Tree, key: Key, cur: Key, i: nat, j: nat)
    requires S.WellFormed(t) && Stopped(t, key, cur, i, j)
    ensures key in t <==> key == cur
    ensures key == cur <==> i == |key| && i == |cur|
  {
    assert S.NodeOk(t, cur);
    if i == |key| && i == |cur| {
      assert key == key[..i] && cur == cur[..i];
    } else if key in t && key != cur {
      var p := t[cur].parent;
      if i < |cur| {
        assert !(cur <= key);
        assert key[|p|] == key[..i][|p|] == cur[..i][|p|];
        assert p == cur[..i][..|p|] == key[..i][..|p|] == key[..|p|];
        S.NothingInside(t, cur, key);
      } else {
        assert S.Below(key, cur);
        S.NoWay(t, cur, key);
      }
    }
  }

  // ---------------------------------------------------------------- moving a block

  /** The block of node `p` after its edge `e` was made to point to `to`. */
  function Repointed(t: S.Tree, addr: map<Key, Ptr>, p: Key, e: nat, to: Ptr): Block
    requires p in t && |t[p].parent| <= |p| && e < |t[p].kids|
  {
    var b := BlockOf(t, addr, p);
    b.(ptrs := b.ptrs[e := to])
  }

  predicate FreshOrSame(mem: Memory, from: Ptr, p: Ptr, w: nat) {
    |p| == w && (p == from || p !in mem)
  }

  /** `e` leads to `k`, unless `k` is the root. */
  predicate Linked(t: S.Tree, e: nat, k: Key) {
    k in t && (k != [] ==> S.EdgeTo(t, e, k) && |t[t[k].parent].parent| <= |t[k].parent|)
  }

  /** The block of `k` moved from its address to `to`, and its parent points there. */
  function MoveMemory(mem: Memory, t: S.Tree, addr: map<Key, Ptr>, e: nat, k: Key, to: Ptr): Memory
    requires Linked(t, e, k) && k in addr && addr[k] in mem && t[k].parent in addr
  {
    var m := (mem - {addr[k]})[to := mem[addr[k]]];
    if k == [] then m else m[addr[t[k].parent] := Layout(Repointed(t, addr, t[k].parent, e, to))]
  }

  lemma RepointedBlock(t: S.Tree, addr: map<Key, Ptr>, e: nat, k: Key, to: Ptr)
    requires S.WellFormed(t) && addr.Keys == t.Keys && k != [] && Linked(t, e, k)
    ensures BlockOf(t, addr[k := to], t[k].parent) == Repointed(t, addr, t[k].parent, e, to)
  {
    var p := t[k].parent;
    assert S.NodeOk(t, p);
    var kids := t[p].kids;
    var after, wanted := EdgePtrs(kids, addr[k := to]), EdgePtrs(kids, addr)[e := to];
    forall i | 0 <= i < |kids| ensures after[i] == wanted[i] {
      assert i < e ==> S.Differ(kids[i], kids[e], |p|);
      assert e < i ==> S.Differ(kids[e], kids[i], |p|);
      assert kids[i] in kids;
    }
    assert after == wanted;
  }

  lemma SameBlockElsewhere(t: S.Tree, addr: map<Key, Ptr>, k: Key, to: Ptr, x: Key)
    requires S.WellFormed(t) && k in t && x in t && |t[x].parent| <= |x| && (k == [] || t[k].parent != x)
    ensures BlockOf(t, addr[k := to], x) == BlockOf(t, addr, x)
  {
    assert S.NodeOk(t, x);
    assert k !in t[x].kids;
    assert EdgePtrs(t[x].kids, addr[k := to]) == EdgePtrs(t[x].kids, addr);
  }

  lemma MoveHolds(mem: Memory, t: S.Tree, addr: map<Key, Ptr>, owner: map<Ptr, Key>, w: nat, e: nat, k: Key, to: Ptr,
                  x: Key)
    requires Stored(mem, t, addr, owner, w) && Linked(t, e, k) && FreshOrSame(mem, addr[k], to, w)
    requires t[k].parent in addr && x in t
    ensures Holds(MoveMemory(mem, t, addr, e, k, to), t, addr[k := to], w, x)
  {
    var mem', addr' := MoveMemory(mem, t, addr, e, k, to), addr[k := to];
    assert Holds(mem, t, addr, w, x) && S.NodeOk(t, k);
    if k != [] && x == t[k].parent {
      RepointedBlock(t, addr, e, k, to);
      assert addr'[x] == addr[x] && mem'[addr[x]] == Layout(BlockOf(t, addr', x));
    } else {
      SameBlockElsewhere(t, addr, k, to, x);
    }
  }

  lemma MoveOwned(mem: Memory, t: S.Tree, addr: map<Key, Ptr>, owner: map<Ptr, Key>, w: nat, k: Key, to: Ptr,
                  mem': Memory)
    requires Owned(mem, t, addr, owner, w) && k in t && FreshOrSame(mem, addr[k], to, w)
    requires mem'.Keys == mem.Keys - {addr[k]} + {to}
    ensures Owned(mem', t, addr[k := to], (owner - {addr[k]})[to := k], w)
  {
  }

  lemma MoveKeys(mem: Memory, t: S.Tree, addr: map<Key, Ptr>, owner: map<Ptr, Key>, w: nat, e: nat, k: Key, to: Ptr)
    requires Owned(mem, t, addr, owner, w) && Linked(t, e, k) && t[k].parent in addr && (k != [] ==> t[k].parent != k)
    ensures MoveMemory(mem, t, addr, e, k, to).Keys == mem.Keys - {addr[k]} + {to}
  {
  }

  lemma MoveStored(mem: Memory, t: S.Tree, addr: map<Key, Ptr>, owner: map<Ptr, Key>, w: nat, e: nat, k: Key, to: Ptr)
    requires Stored(mem, t, addr, owner, w) && Linked(t, e, k) && FreshOrSame(mem, addr[k], to, w)
    requires t[k].parent in addr
    ensures Stored(MoveMemory(mem, t, addr, e, k, to), t, addr[k := to], (owner - {addr[k]})[to := k], w)
  {
    var mem', addr' := MoveMemory(mem, t, addr, e, k, to), addr[k := to];
    forall x | x in t ensures Holds(mem', t, addr', w, x) {
      MoveHolds(mem, t, addr, owner, w, e, k, to, x);
    }
    assert S.NodeOk(t, k);
    MoveKeys(mem, t, addr, owner, w, e, k, to);
    MoveOwned(mem, t, addr, owner, w, k, to, mem');
  }

  // ---------------------------------------------------------------- edits in place

  /** Node `x` is not affected by an edit elsewhere that moves no block. */
  lemma Untouched(mem: Memory, t: S.Tree, addr: map<Key, Ptr>, owner: map<Ptr, Key>, mem': Memory, t': S.Tree,
                  addr': map<Key, Ptr>, w: nat, x: Key)
    requires Stored(mem, t, addr, owner, w) && x in t && x in t' && t'[x] == t[x]
    requires x in addr' && addr'[x] == addr[x] && addr[x] in mem' && mem'[addr[x]] == mem[addr[x]]
    requires forall c :: c in t[x].kids && c in addr ==> c in addr' && addr'[c] == addr[c]
    ensures Holds(mem', t', addr', w, x)
  {
    assert Holds(mem, t, addr, w, x) && S.NodeOk(t, x);
    StillHolds(mem, t, addr, mem', t', addr', w, x);
  }

  lemma RefsHolds(mem: Memory, t: S.Tree, addr: map<Key, Ptr>, owner: map<Ptr, Key>, w: nat, k: Key, n: nat, x: Key)
    requires Stored(mem, t, addr, owner, w) && k in t && n < TwoTo32 && |t[k].parent| <= |k| && x in t
    ensures Holds(mem[addr[k] := Layout(BlockOf(t, addr, k).(refs := n))], S.SetRefs(t, k, n), addr, w, x)
  {
    var mem', t' := mem[addr[k] := Layout(BlockOf(t, addr, k).(refs := n))], S.SetRefs(t, k, n);
    if x == k {
      assert Holds(mem, t, addr, w, k);
      assert BlockOf(t', addr, k) == BlockOf(t, addr, k).(refs := n);
    } else {
      Untouched(mem, t, addr, owner, mem', t', addr, w, x);
    }
  }

  lemma RefsStored(mem: Memory, t: S.Tree, addr: map<Key, Ptr>, owner: map<Ptr, Key>, w: nat, k: Key, n: nat)
    requires Stored(mem, t, addr, owner, w) && k in t && n < TwoTo32 && |t[k].parent| <= |k|
    ensures Stored(mem[addr[k] := Layout(BlockOf(t, addr, k).(refs := n))], S.SetRefs(t, k, n), addr, owner, w)
  {
    var mem', t' := mem[addr[k] := Layout(BlockOf(t, addr, k).(refs := n))], S.SetRefs(t, k, n);
    S.SetRefsKeeps(t, k, n);
    forall x | x in t' ensures Holds(mem', t', addr, w, x) {
      RefsHolds(mem, t, addr, owner, w, k, n, x);
    }
    StillOwned(mem, t, addr, owner, w, mem', t');
  }

  lemma StillOwned(mem: Memory, t: S.Tree, addr: map<Key, Ptr>, owner: map<Ptr, Key>, w: nat, mem': Memory, t': S.Tree)
    requires Owned(mem, t, addr, owner, w) && mem'.Keys == mem.Keys && t'.Keys == t.Keys
    ensures Owned(mem', t', addr, owner, w)
  {
  }

  /** A new node at a new address. */
  lemma NewOwned(mem: Memory, t: S.Tree, addr: map<Key, Ptr>, owner: map<Ptr, Key>, w: nat, k: Key, p: Ptr,
                 mem': Memory, t': S.Tree)
    requires Owned(mem, t, addr, owner, w) && k !in t && p !in mem && |p| == w
    requires mem'.Keys == mem.Keys + {p} && t'.Keys == t.Keys + {k}
    ensures Owned(mem', t', addr[k := p], owner[p := k], w)
  {
  }

  /** The block of a node with one more edge, in front or at the end. */
  function WithEdge(b: Block, c: Byte, p: Ptr, first: bool): Block {
    if first then b.(bytes := [c] + b.bytes, ptrs := [p] + b.ptrs)
    else b.(bytes := b.bytes + [c], ptrs := b.ptrs + [p])
  }

  /** Memory after a leaf for `key` was hung below `cur`. */
  function LeafMemory(mem: Memory, t: S.Tree, addr: map<Key, Ptr>, cur: Key, key: Key, leaf: Ptr, first: bool): Memory
    requires cur in t && cur in addr && |t[cur].parent| <= |cur| && S.Below(key, cur)
  {
    mem[leaf := Layout(Block(1, key[|cur|..], [], []))]
       [addr[cur] := Layout(WithEdge(BlockOf(t, addr, cur), key[|cur|], leaf, first))]
  }

  predicate CanHang(mem: Memory, t: S.Tree, addr: map<Key, Ptr>, owner: map<Ptr, Key>, w: nat, cur: Key, key: Key,
                    leaf: Ptr) {
    && Stored(mem, t, addr, owner, w) && cur in t && |t[cur].parent| <= |cur|
    && S.Below(key, cur) && |key| < TwoTo32 && |leaf| == w && leaf !in mem
    && forall c :: c in t[cur].kids ==> S.Differ(c, key, |cur|)
  }

  lemma LeafHolds(mem: Memory, t: S.Tree, addr: map<Key, Ptr>, owner: map<Ptr, Key>, w: nat, cur: Key, key: Key,
                  leaf: Ptr, first: bool, x: Key)
    requires CanHang(mem, t, addr, owner, w, cur, key, leaf) && key !in t && (x in t || x == key)
    ensures Holds(LeafMemory(mem, t, addr, cur, key, leaf, first), S.AddLeaf(t, cur, key, first), addr[key := leaf],
                  w, x)
  {
    var mem', t', addr' :=
      LeafMemory(mem, t, addr, cur, key, leaf, first), S.AddLeaf(t, cur, key, first), addr[key := leaf];
    if x == key {
      assert BlockOf(t', addr', key) == Block(1, key[|cur|..], [], []);
    } else if x == cur {
      assert Holds(mem, t, addr, w, cur) && S.NodeOk(t, cur);
      LeafParent(t, addr, w, cur, key, leaf, first);
    } else {
      Untouched(mem, t, addr, owner, mem', t', addr', w, x);
    }
  }

  lemma LeafStored(mem: Memory, t: S.Tree, addr: map<Key, Ptr>, owner: map<Ptr, Key>, w: nat, cur: Key, key: Key,
                   leaf: Ptr, first: bool)
    requires CanHang(mem, t, addr, owner, w, cur, key, leaf)
    ensures Stored(LeafMemory(mem, t, addr, cur, key, leaf, first), S.AddLeaf(t, cur, key, first),
                   addr[key := leaf], owner[leaf := key], w)
  {
    var mem', t', addr' :=
      LeafMemory(mem, t, addr, cur, key, leaf, first), S.AddLeaf(t, cur, key, first), addr[key := leaf];
    S.AddLeafKeeps(t, cur, key, first);
    LeafAllHold(mem, t, addr, owner, w, cur, key, leaf, first);
    assert mem'.Keys == mem.Keys + {leaf} && t'.Keys == t.Keys + {key};
    NewOwned(mem, t, addr, owner, w, key, leaf, mem', t');
  }

  lemma LeafAllHold(mem: Memory, t: S.Tree, addr: map<Key, Ptr>, owner: map<Ptr, Key>, w: nat, cur: Key, key: Key,
                    leaf: Ptr, first: bool)
    requires CanHang(mem, t, addr, owner, w, cur, key, leaf) && key !in t
    ensures var mem', t' := LeafMemory(mem, t, addr, cur, key, leaf, first), S.AddLeaf(t, cur, key, first);
            forall x {:trigger Holds(mem', t', addr[key := leaf], w, x)} :: x in t' ==>
              Holds(mem', t', addr[key := leaf], w, x)
  {
    forall x | x in t.Keys + {key}
      ensures Holds(LeafMemory(mem, t, addr, cur, key, leaf, first), S.AddLeaf(t, cur, key, first), addr[key := leaf],
                    w, x)
    {
      LeafHolds(mem, t, addr, owner, w, cur, key, leaf, first, x);
    }
    assert S.AddLeaf(t, cur, key, first).Keys == t.Keys + {key};
  }

  lemma LeafParent(t: S.Tree, addr: map<Key, Ptr>, w: nat, cur: Key, key: Key, leaf: Ptr, first: bool)
    requires S.NodeOk(t, cur) && key !in t && addr.Keys == t.Keys && S.Below(key, cur) && |leaf| == w
    requires |t[cur].parent| <= |cur| && Fits(BlockOf(t, addr, cur), w)
    ensures var b := WithEdge(BlockOf(t, addr, cur), key[|cur|], leaf, first);
            Fits(b, w) && BlockOf(S.AddLeaf(t, cur, key, first), addr[key := leaf], cur) == b
  {
    FewEdges(t, cur);
    var kids := t[cur].kids;
    assert forall c :: c in kids ==> c != key;
    if first {
      assert EdgeBytes([key] + kids, |cur|) == [key[|cur|]] + EdgeBytes(kids, |cur|);
      assert EdgePtrs([key] + kids, addr[key := leaf]) == [leaf] + EdgePtrs(kids, addr);
    } else {
      assert EdgeBytes(kids + [key], |cur|) == EdgeBytes(kids, |cur|) + [key[|cur|]];
      assert EdgePtrs(kids + [key], addr[key := leaf]) == EdgePtrs(kids, addr) + [leaf];
    }
  }

  /** Memory after the edge to `cur` was split at `mid`: the old block now holds `mid`, `cur` lies at `rest`. */
  function InterposeMemory(mem: Memory, t: S.Tree, addr: map<Key, Ptr>, cur: Key, mid: Key, refs: nat,
                           rest: Ptr): Memory
    requires cur in t && cur in addr && S.Below(mid, t[cur].parent) && S.Below(cur, mid)
  {
    var b := BlockOf(t, addr, cur);
    mem[rest := Layout(b.(prefix := cur[|mid|..]))]
       [addr[cur] := Layout(Block(refs, mid[|t[cur].parent|..], [cur[|mid|]], [rest]))]
  }

  lemma InterposeBlocks(t: S.Tree, addr: map<Key, Ptr>, e: nat, cur: Key, mid: Key, refs: nat, rest: Ptr)
    requires S.CanInterpose(t, e, cur, mid) && addr.Keys == t.Keys && mid !in t
    requires |t[t[cur].parent].parent| <= |t[cur].parent|
    ensures var u, addr', p := S.Interpose(t, e, cur, mid, refs), addr[mid := addr[cur]][cur := rest], t[cur].parent;
            && BlockOf(u, addr', cur) == BlockOf(t, addr, cur).(prefix := cur[|mid|..])
            && BlockOf(u, addr', mid) == Block(refs, mid[|p|..], [cur[|mid|]], [rest])
            && BlockOf(u, addr', p) == BlockOf(t, addr, p)
  {
    var u, addr', p := S.Interpose(t, e, cur, mid, refs), addr[mid := addr[cur]][cur := rest], t[cur].parent;
    assert S.NodeOk(t, cur) && S.NodeOk(t, p);
    assert EdgePtrs(t[cur].kids, addr') == EdgePtrs(t[cur].kids, addr);
    assert EdgeBytes([cur], |mid|) == [cur[|mid|]] && EdgePtrs([cur], addr') == [rest];
    var kids, kids' := t[p].kids, t[p].kids[e := mid];
    assert mid[|p|] == cur[|p|];
    assert EdgeBytes(kids', |p|) == EdgeBytes(kids, |p|);
    S.RedirectedEdges(t, p, e, cur, mid);
    var ptrs, ptrs' := EdgePtrs(kids, addr), EdgePtrs(kids', addr');
    forall i | 0 <= i < |kids| ensures ptrs'[i] == ptrs[i] {
      assert kids[i] in kids && kids'[i] in kids';
    }
    assert ptrs' == ptrs;
  }

  lemma InterposeHolds(mem: Memory, t: S.Tree, addr: map<Key, Ptr>, owner: map<Ptr, Key>, w: nat,
                       e: nat, cur: Key, mid: Key, refs: nat, rest: Ptr, x: Key)
    requires Stored(mem, t, addr, owner, w) && S.CanInterpose(t, e, cur, mid) && mid !in t
    requires refs < TwoTo32 && |rest| == w && rest !in mem && (x in t || x == mid)
    ensures Holds(InterposeMemory(mem, t, addr, cur, mid, refs, rest), S.Interpose(t, e, cur, mid, refs),
                  addr[mid := addr[cur]][cur := rest], w, x)
  {
    var p := t[cur].parent;
    var mem' := InterposeMemory(mem, t, addr, cur, mid, refs, rest);
    var u, addr' := S.Interpose(t, e, cur, mid, refs), addr[mid := addr[cur]][cur := rest];
    if x == cur || x == mid || x == p {
      assert S.NodeOk(t, p) && Holds(mem, t, addr, w, cur) && Holds(mem, t, addr, w, p);
      InterposeBlocks(t, addr, e, cur, mid, refs, rest);
    } else {
      InterposeAside(mem, t, addr, owner, w, e, cur, mid, refs, rest, x);
    }
  }

  lemma InterposeAside(mem: Memory, t: S.Tree, addr: map<Key, Ptr>, owner: map<Ptr, Key>, w: nat,
                       e: nat, cur: Key, mid: Key, refs: nat, rest: Ptr, x: Key)
    requires Stored(mem, t, addr, owner, w) && S.CanInterpose(t, e, cur, mid) && mid !in t
    requires rest !in mem && x in t && x != cur && x != t[cur].parent
    ensures Holds(InterposeMemory(mem, t, addr, cur, mid, refs, rest), S.Interpose(t, e, cur, mid, refs),
                  addr[mid := addr[cur]][cur := rest], w, x)
  {
    assert S.NodeOk(t, x);
    assert cur !in t[x].kids && mid !in t[x].kids;
    Untouched(mem, t, addr, owner, InterposeMemory(mem, t, addr, cur, mid, refs, rest),
              S.Interpose(t, e, cur, mid, refs),
              addr[mid := addr[cur]][cur := rest], w, x);
  }

  lemma InterposeStored(mem: Memory, t: S.Tree, addr: map<Key, Ptr>, owner: map<Ptr, Key>, w: nat,
                        e: nat, cur: Key, mid: Key, refs: nat, rest: Ptr)
    requires Stored(mem, t, addr, owner, w) && S.CanInterpose(t, e, cur, mid)
    requires refs < TwoTo32 && |rest| == w && rest !in mem
    ensures Stored(InterposeMemory(mem, t, addr, cur, mid, refs, rest), S.Interpose(t, e, cur, mid, refs),
                   addr[mid := addr[cur]][cur := rest], owner[addr[cur] := mid][rest := cur], w)
  {
    var mem' := InterposeMemory(mem, t, addr, cur, mid, refs, rest);
    var u, addr' := S.Interpose(t, e, cur, mid, refs), addr[mid := addr[cur]][cur := rest];
    S.InterposeKeeps(t, e, cur, mid, refs);
    forall x | x in u ensures Holds(mem', u, addr', w, x) {
      InterposeHolds(mem, t, addr, owner, w, e, cur, mid, refs, rest, x);
    }
    assert S.NodeOk(t, cur);
    assert mem'.Keys == mem.Keys + {rest} && u.Keys == t.Keys + {mid};
    InterposeOwned(mem, t, addr, owner, w, cur, mid, rest, mem', u);
  }

  lemma InterposeOwned(mem: Memory, t: S.Tree, addr: map<Key, Ptr>, owner: map<Ptr, Key>, w: nat, cur: Key, mid: Key,
                       rest: Ptr, mem': Memory, u: S.Tree)
    requires Owned(mem, t, addr, owner, w) && cur in t && mid !in t && rest !in mem && |rest| == w
    requires mem'.Keys == mem.Keys + {rest} && u.Keys == t.Keys + {mid}
    ensures Owned(mem', u, addr[mid := addr[cur]][cur := rest], owner[addr[cur] := mid][rest := cur], w)
  {
  }

  // ---------------------------------------------------------------- taking nodes out

  /** Memory after the child of `k` was merged into the block of `k` and its own block was freed. */
  function MergeMemory(mem: Memory, t: S.Tree, addr: map<Key, Ptr>, k: Key, c: Key): Memory
    requires k in t && c in t && k in addr && c in addr && |t[k].parent| <= |k| <= |c| && |t[c].parent| <= |c|
  {
    (mem - {addr[c]})[addr[k] := Layout(BlockOf(t, addr, c).(prefix := c[|t[k].parent|..]))]
  }

  predicate CanMerge(mem: Memory, t: S.Tree, addr: map<Key, Ptr>, owner: map<Ptr, Key>, w: nat, e: nat, k: Key) {
    && Stored(mem, t, addr, owner, w) && S.EdgeTo(t, e, k) && k != [] && |t[k].kids| == 1
    && t[k].kids[0] in t && k != t[k].parent && |t[k].parent| <= |k| <= |t[k].kids[0]|
    && t[t[k].kids[0]].parent == k && |t[t[k].parent].parent| <= |t[k].parent|
  }

  lemma MergeBlocks(t: S.Tree, addr: map<Key, Ptr>, e: nat, k: Key)
    requires S.WellFormed(t) && addr.Keys == t.Keys && S.EdgeTo(t, e, k) && k != [] && |t[k].kids| == 1
    requires t[k].kids[0] in t && k != t[k].parent && |t[k].parent| <= |k| <= |t[k].kids[0]|
             && t[t[k].kids[0]].parent == k
    requires |t[t[k].parent].parent| <= |t[k].parent|
    ensures var c, p := t[k].kids[0], t[k].parent;
            var u, addr' := S.MergeDown(t, e, k), (addr - {k})[c := addr[k]];
            && BlockOf(u, addr', c) == BlockOf(t, addr, c).(prefix := c[|p|..])
            && BlockOf(u, addr', p) == BlockOf(t, addr, p)
  {
    var c, p := t[k].kids[0], t[k].parent;
    var u, addr' := S.MergeDown(t, e, k), (addr - {k})[c := addr[k]];
    assert S.NodeOk(t, k) && S.NodeOk(t, p) && S.NodeOk(t, c) && c in t[k].kids;
    assert k !in t[c].kids && c !in t[c].kids;
    assert EdgePtrs(t[c].kids, addr') == EdgePtrs(t[c].kids, addr);
    var kids, kids' := t[p].kids, t[p].kids[e := c];
    assert c[|p|] == k[|p|];
    assert EdgeBytes(kids', |p|) == EdgeBytes(kids, |p|);
    S.RedirectedEdges(t, p, e, k, c);
    var ptrs, ptrs' := EdgePtrs(kids, addr), EdgePtrs(kids', addr');
    forall i | 0 <= i < |kids| ensures ptrs'[i] == ptrs[i] {
      assert kids[i] in kids && kids'[i] in kids';
    }
    assert ptrs' == ptrs;
  }

  lemma MergeHolds(mem: Memory, t: S.Tree, addr: map<Key, Ptr>, owner: map<Ptr, Key>, w: nat, e: nat, k: Key, x: Key)
    requires CanMerge(mem, t, addr, owner, w, e, k) && x in t && x != k && |t[k].kids[0]| < TwoTo32
    ensures Holds(MergeMemory(mem, t, addr, k, t[k].kids[0]), S.MergeDown(t, e, k),
                  (addr - {k})[t[k].kids[0] := addr[k]], w, x)
  {
    var c, p := t[k].kids[0], t[k].parent;
    var mem', u, addr' := MergeMemory(mem, t, addr, k, c), S.MergeDown(t, e, k), (addr - {k})[c := addr[k]];
    assert S.NodeOk(t, p) && S.NodeOk(t, k) && c in t[k].kids;
    if x == c || x == p {
      assert Holds(mem, t, addr, w, c) && Holds(mem, t, addr, w, p);
      MergeBlocks(t, addr, e, k);
    } else {
      MergeAside(mem, t, addr, owner, w, e, k, x);
    }
  }

  lemma MergeAside(mem: Memory, t: S.Tree, addr: map<Key, Ptr>, owner: map<Ptr, Key>, w: nat, e: nat, k: Key, x: Key)
    requires CanMerge(mem, t, addr, owner, w, e, k) && x in t && x != k && x != t[k].kids[0] && x != t[k].parent
    ensures Holds(MergeMemory(mem, t, addr, k, t[k].kids[0]), S.MergeDown(t, e, k),
                  (addr - {k})[t[k].kids[0] := addr[k]], w, x)
  {
    var c := t[k].kids[0];
    assert S.NodeOk(t, x) && S.NodeOk(t, k) && c in t[k].kids;
    assert k !in t[x].kids && c !in t[x].kids;
    Untouched(mem, t, addr, owner, MergeMemory(mem, t, addr, k, c), S.MergeDown(t, e, k), (addr - {k})[c := addr[k]],
              w, x);
  }

  lemma MergeOwned(mem: Memory, t: S.Tree, addr: map<Key, Ptr>, owner: map<Ptr, Key>, w: nat, k: Key, c: Key,
                   mem': Memory, u: S.Tree)
    requires Owned(mem, t, addr, owner, w) && k in t && c in t && k != c
    requires mem'.Keys == mem.Keys - {addr[c]} && u.Keys == t.Keys - {k}
    ensures Owned(mem', u, (addr - {k})[c := addr[k]], (owner - {addr[c]})[addr[k] := c], w)
  {
  }

  lemma MergeStored(mem: Memory, t: S.Tree, addr: map<Key, Ptr>, owner: map<Ptr, Key>, w: nat, e: nat, k: Key)
    requires CanMerge(mem, t, addr, owner, w, e, k) && |t[k].kids[0]| < TwoTo32
    ensures var c := t[k].kids[0];
            Stored(MergeMemory(mem, t, addr, k, c), S.MergeDown(t, e, k), (addr - {k})[c := addr[k]],
                   (owner - {addr[c]})[addr[k] := c], w)
  {
    var c := t[k].kids[0];
    var mem', u, addr' := MergeMemory(mem, t, addr, k, c), S.MergeDown(t, e, k), (addr - {k})[c := addr[k]];
    S.MergeDownKeeps(t, e, k);
    assert S.NodeOk(t, k) && c in t[k].kids;
    forall x | x in u ensures Holds(mem', u, addr', w, x) {
      MergeHolds(mem, t, addr, owner, w, e, k, x);
    }
    assert mem'.Keys == mem.Keys - {addr[c]} && u.Keys == t.Keys - {k};
    MergeOwned(mem, t, addr, owner, w, k, c, mem', u);
  }

  /** The block of a node without edge `e`, whose place the last edge has taken. */
  function WithoutEdge(b: Block, e: nat): Block
    requires e < |b.bytes| && |b.ptrs| == |b.bytes|
  {
    var last := |b.bytes| - 1;
    b.(bytes := b.bytes[e := b.bytes[last]][..last], ptrs := b.ptrs[e := b.ptrs[last]][..last])
  }

  /** Memory after leaf `k` was freed and edge `e` of its parent was deleted. */
  function DropMemory(mem: Memory, t: S.Tree, addr: map<Key, Ptr>, e: nat, k: Key): Memory
    requires S.EdgeTo(t, e, k) && addr.Keys == t.Keys && |t[t[k].parent].parent| <= |t[k].parent|
  {
    var p := t[k].parent;
    (mem - {addr[k]})[addr[p] := Layout(WithoutEdge(BlockOf(t, addr, p), e))]
  }

  predicate CanDrop(mem: Memory, t: S.Tree, addr: map<Key, Ptr>, owner: map<Ptr, Key>, w: nat, e: nat, k: Key) {
    && Stored(mem, t, addr, owner, w) && S.EdgeTo(t, e, k) && k != [] && t[k].kids == []
    && |t[t[k].parent].parent| <= |t[k].parent| && t[k].parent != k
  }

  lemma DropBlock(t: S.Tree, addr: map<Key, Ptr>, w: nat, e: nat, k: Key)
    requires S.WellFormed(t) && addr.Keys == t.Keys && S.EdgeTo(t, e, k) && k != [] && t[k].parent != k
    requires var p := t[k].parent; |t[p].parent| <= |p| && Fits(BlockOf(t, addr, p), w)
    ensures var p := t[k].parent;
            var b := WithoutEdge(BlockOf(t, addr, p), e);
            Fits(b, w) && BlockOf(S.RemoveLeaf(t, e, k), addr - {k}, p) == b
  {
    var p := t[k].parent;
    assert S.NodeOk(t, p);
    var kids, rest := t[p].kids, S.SwapOut(t[p].kids, e);
    S.SwapOutKeeps(kids, e, |p|);
    var bytes, bytes' := WithoutEdge(BlockOf(t, addr, p), e).bytes, EdgeBytes(rest, |p|);
    var ptrs, ptrs' := WithoutEdge(BlockOf(t, addr, p), e).ptrs, EdgePtrs(rest, addr - {k});
    forall i | 0 <= i < |rest| ensures ptrs'[i] == ptrs[i] {
      assert rest[i] in rest;
    }
    assert ptrs' == ptrs && bytes' == bytes;
  }

  lemma DropHolds(mem: Memory, t: S.Tree, addr: map<Key, Ptr>, owner: map<Ptr, Key>, w: nat, e: nat, k: Key, x: Key)
    requires CanDrop(mem, t, addr, owner, w, e, k) && x in t && x != k
    ensures Holds(DropMemory(mem, t, addr, e, k), S.RemoveLeaf(t, e, k), addr - {k}, w, x)
  {
    var p := t[k].parent;
    var mem', u, addr' := DropMemory(mem, t, addr, e, k), S.RemoveLeaf(t, e, k), addr - {k};
    assert Holds(mem, t, addr, w, p) && S.NodeOk(t, x) && S.NodeOk(t, k);
    if x == p {
      DropBlock(t, addr, w, e, k);
    } else {
      assert k !in t[x].kids;
      Untouched(mem, t, addr, owner, mem', u, addr', w, x);
    }
  }

  lemma DropStored(mem: Memory, t: S.Tree, addr: map<Key, Ptr>, owner: map<Ptr, Key>, w: nat, e: nat, k: Key)
    requires CanDrop(mem, t, addr, owner, w, e, k)
    ensures Stored(DropMemory(mem, t, addr, e, k), S.RemoveLeaf(t, e, k), addr - {k}, owner - {addr[k]}, w)
  {
    var mem', u := DropMemory(mem, t, addr, e, k), S.RemoveLeaf(t, e, k);
    S.RemoveLeafKeeps(t, e, k);
    DropAllHold(mem, t, addr, owner, w, e, k);
    assert mem'.Keys == mem.Keys - {addr[k]} && u.Keys == t.Keys - {k};
    DropOwned(mem, t, addr, owner, w, k, mem', u);
  }

  lemma DropAllHold(mem: Memory, t: S.Tree, addr: map<Key, Ptr>, owner: map<Ptr, Key>, w: nat, e: nat, k: Key)
    requires CanDrop(mem, t, addr, owner, w, e, k)
    ensures var mem', u := DropMemory(mem, t, addr, e, k), S.RemoveLeaf(t, e, k);
            forall x {:trigger Holds(mem', u, addr - {k}, w, x)} :: x in u ==> Holds(mem', u, addr - {k}, w, x)
  {
    forall x | x in S.RemoveLeaf(t, e, k)
      ensures Holds(DropMemory(mem, t, addr, e, k), S.RemoveLeaf(t, e, k), addr - {k}, w, x)
    {
      DropHolds(mem, t, addr, owner, w, e, k, x);
    }
  }

  lemma DropOwned(mem: Memory, t: S.Tree, addr: map<Key, Ptr>, owner: map<Ptr, Key>, w: nat, k: Key, mem': Memory,
                  u: S.Tree)
    requires Owned(mem, t, addr, owner, w) && k in t
    requires mem'.Keys == mem.Keys - {addr[k]} && u.Keys == t.Keys - {k}
    ensures Owned(mem', u, addr - {k}, owner - {addr[k]}, w)
  {
  }

  // ---------------------------------------------------------------- moving and editing at once

  /** Where the block of a node lies makes no difference to what it says. */
  lemma SameBlock(t: S.Tree, addr: map<Key, Ptr>, k: Key, to: Ptr)
    requires S.WellFormed(t) && k in t && |t[k].parent| <= |k|
    ensures BlockOf(t, addr[k := to], k) == BlockOf(t, addr, k)
  {
    assert S.NodeOk(t, k);
    assert k !in t[k].kids;
    assert EdgePtrs(t[k].kids, addr[k := to]) == EdgePtrs(t[k].kids, addr);
  }

  /** Memory after the block of `k` was replaced by `data` at `to`, and its parent made to point there. */
  function Resized(mem: Memory, t: S.Tree, addr: map<Key, Ptr>, e: nat, k: Key, to: Ptr, data: seq<Byte>): Memory
    requires Linked(t, e, k) && k in addr && t[k].parent in addr
  {
    var m := (mem - {addr[k]})[to := data];
    if k == [] then m else m[addr[t[k].parent] := Layout(Repointed(t, addr, t[k].parent, e, to))]
  }

  /** Editing a block while it moves is moving it and then editing it in place. */
  lemma ResizedIsMoved(mem: Memory, t: S.Tree, addr: map<Key, Ptr>, owner: map<Ptr, Key>, w: nat, e: nat, k: Key,
                       to: Ptr, data: seq<Byte>)
    requires Stored(mem, t, addr, owner, w) && Linked(t, e, k) && t[k].parent in addr
             && FreshOrSame(mem, addr[k], to, w)
    ensures Resized(mem, t, addr, e, k, to, data) == MoveMemory(mem, t, addr, e, k, to)[to := data]
  {
    assert S.NodeOk(t, k);
    if k != [] {
      assert addr[t[k].parent] in mem && addr[t[k].parent] != addr[k];
    }
  }

  lemma HangMemory(mem: Memory, t: S.Tree, addr: map<Key, Ptr>, owner: map<Ptr, Key>, w: nat, e: nat, cur: Key,
                   key: Key, leaf: Ptr, to: Ptr, data: seq<Byte>)
    requires CanHang(mem, t, addr, owner, w, cur, key, leaf) && Linked(t, e, cur) && t[cur].parent in addr
    requires FreshOrSame(mem, addr[cur], to, w) && to != leaf
    requires data == Layout(WithEdge(BlockOf(t, addr, cur), key[|cur|], leaf, false))
    ensures Resized(mem, t, addr, e, cur, to, data)[leaf := Layout(Block(1, key[|cur|..], [], []))]
         == LeafMemory(MoveMemory(mem, t, addr, e, cur, to), t, addr[cur := to], cur, key, leaf, false)
  {
    ResizedIsMoved(mem, t, addr, owner, w, e, cur, to, data);
    SameBlock(t, addr, cur, to);
  }

  lemma HangStored(mem: Memory, t: S.Tree, addr: map<Key, Ptr>, owner: map<Ptr, Key>, w: nat, e: nat, cur: Key,
                   key: Key, leaf: Ptr, to: Ptr)
    requires CanHang(mem, t, addr, owner, w, cur, key, leaf) && Linked(t, e, cur) && t[cur].parent in addr
    requires FreshOrSame(mem, addr[cur], to, w) && to != leaf
    ensures Stored(LeafMemory(MoveMemory(mem, t, addr, e, cur, to), t, addr[cur := to], cur, key, leaf, false),
                   S.AddLeaf(t, cur, key, false), addr[cur := to][key := leaf],
                   (owner - {addr[cur]})[to := cur][leaf := key], w)
  {
    MoveStored(mem, t, addr, owner, w, e, cur, to);
    assert S.NodeOk(t, cur);
    MoveKeys(mem, t, addr, owner, w, e, cur, to);
    LeafStored(MoveMemory(mem, t, addr, e, cur, to), t, addr[cur := to], (owner - {addr[cur]})[to := cur], w,
               cur, key, leaf, false);
  }

  /** Address maps after node `mid` took over the block of `cur`, now at `to`, and `cur` went to `rest`. */
  function SplitAddr(addr: map<Key, Ptr>, cur: Key, mid: Key, to: Ptr, rest: Ptr): map<Key, Ptr> {
    addr[cur := to][mid := to][cur := rest]
  }

  lemma InterposeMoved(mem: Memory, t: S.Tree, addr: map<Key, Ptr>, owner: map<Ptr, Key>, w: nat, e: nat, cur: Key,
                       mid: Key, refs: nat, to: Ptr, rest: Ptr, data: seq<Byte>)
    requires Stored(mem, t, addr, owner, w) && S.CanInterpose(t, e, cur, mid) && Linked(t, e, cur)
    requires FreshOrSame(mem, addr[cur], to, w) && rest !in mem && rest != to
    requires t[cur].parent in addr && data == Layout(Block(refs, mid[|t[cur].parent|..], [cur[|mid|]], [rest]))
    ensures Resized(mem, t, addr, e, cur, to, data)[rest := Layout(BlockOf(t, addr, cur).(prefix := cur[|mid|..]))]
         == InterposeMemory(MoveMemory(mem, t, addr, e, cur, to), t, addr[cur := to], cur, mid, refs, rest)
  {
    ResizedIsMoved(mem, t, addr, owner, w, e, cur, to, data);
    SameBlock(t, addr, cur, to);
  }

  /** Memory after a split: `mid` at `to`, what was left of `cur` at `rest`, the new key at `leaf`. */
  function SplitMemory(mem: Memory, t: S.Tree, addr: map<Key, Ptr>, e: nat, cur: Key, mid: Key, key: Key,
                       to: Ptr, rest: Ptr, leaf: Ptr): Memory
    requires Linked(t, e, cur) && cur in addr && t[cur].parent in addr
    requires S.Below(mid, t[cur].parent) && S.Below(cur, mid) && S.Below(key, mid)
  {
    Resized(mem, t, addr, e, cur, to,
            Layout(Block(0, mid[|t[cur].parent|..], [key[|mid|], cur[|mid|]], [leaf, rest])))
      [rest := Layout(BlockOf(t, addr, cur).(prefix := cur[|mid|..]))]
      [leaf := Layout(Block(1, key[|mid|..], [], []))]
  }

  lemma CommutingStores(m: Memory, to: Ptr, rest: Ptr, leaf: Ptr, data: seq<Byte>, r: seq<Byte>, l: seq<Byte>)
    requires rest != to && leaf != to && leaf != rest
    ensures m[to := data][rest := r][leaf := l] == m[rest := r][leaf := l][to := data]
  {
  }

  lemma SplitMid(t: S.Tree, addr: map<Key, Ptr>, e: nat, cur: Key, mid: Key, key: Key, to: Ptr, rest: Ptr, leaf: Ptr)
    requires S.CanInterpose(t, e, cur, mid) && addr.Keys == t.Keys && mid !in t && Linked(t, e, cur)
             && S.Below(key, mid)
    ensures SplitAddr(addr, cur, mid, to, rest)[mid] == to
    ensures var u, a := S.Interpose(t, e, cur, mid, 0), SplitAddr(addr, cur, mid, to, rest);
            WithEdge(BlockOf(u, a, mid), key[|mid|], leaf, true)
            == Block(0, mid[|t[cur].parent|..], [key[|mid|], cur[|mid|]], [leaf, rest])
  {
    InterposeBlocks(t, addr[cur := to], e, cur, mid, 0, rest);
  }

  /** A split is the insertion of a node into an edge followed by the hanging of a leaf. */
  lemma SplitIsBoth(mem: Memory, t: S.Tree, addr: map<Key, Ptr>, owner: map<Ptr, Key>, w: nat, e: nat, cur: Key,
                    mid: Key, key: Key, to: Ptr, rest: Ptr, leaf: Ptr)
    requires Stored(mem, t, addr, owner, w) && S.CanInterpose(t, e, cur, mid) && Linked(t, e, cur) && mid !in t
    requires FreshOrSame(mem, addr[cur], to, w) && rest !in mem && rest != to && leaf !in mem && leaf != to
             && leaf != rest
    requires S.Below(key, mid) && t[cur].parent in addr
    ensures SplitMemory(mem, t, addr, e, cur, mid, key, to, rest, leaf)
         == LeafMemory(InterposeMemory(MoveMemory(mem, t, addr, e, cur, to), t, addr[cur := to], cur, mid, 0, rest),
                       S.Interpose(t, e, cur, mid, 0), SplitAddr(addr, cur, mid, to, rest), mid, key, leaf, true)
  {
    var small := Layout(Block(0, mid[|t[cur].parent|..], [cur[|mid|]], [rest]));
    var data := Layout(Block(0, mid[|t[cur].parent|..], [key[|mid|], cur[|mid|]], [leaf, rest]));
    InterposeMoved(mem, t, addr, owner, w, e, cur, mid, 0, to, rest, small);
    SplitMid(t, addr, e, cur, mid, key, to, rest, leaf);
    ResizedTwice(mem, t, addr, owner, w, e, cur, to, small, data);
    CommutingStores(Resized(mem, t, addr, e, cur, to, small), to, rest, leaf, data,
                    Layout(BlockOf(t, addr, cur).(prefix := cur[|mid|..])), Layout(Block(1, key[|mid|..], [], [])));
  }

  lemma ExactStored(mem: Memory, t: S.Tree, addr: map<Key, Ptr>, owner: map<Ptr, Key>, w: nat, e: nat, cur: Key,
                    mid: Key, refs: nat, to: Ptr, rest: Ptr)
    requires Stored(mem, t, addr, owner, w) && S.CanInterpose(t, e, cur, mid) && Linked(t, e, cur)
             && t[cur].parent in addr
    requires FreshOrSame(mem, addr[cur], to, w) && rest !in mem && rest != to && |rest| == w && refs < TwoTo32
    ensures Stored(InterposeMemory(MoveMemory(mem, t, addr, e, cur, to), t, addr[cur := to], cur, mid, refs, rest),
                   S.Interpose(t, e, cur, mid, refs), SplitAddr(addr, cur, mid, to, rest),
                   (owner - {addr[cur]})[to := cur][to := mid][rest := cur], w)
  {
    MoveStored(mem, t, addr, owner, w, e, cur, to);
    assert S.NodeOk(t, cur);
    MoveKeys(mem, t, addr, owner, w, e, cur, to);
    InterposeStored(MoveMemory(mem, t, addr, e, cur, to), t, addr[cur := to], (owner - {addr[cur]})[to := cur], w,
                    e, cur, mid, refs, rest);
  }

  lemma SplitStored(mem: Memory, t: S.Tree, addr: map<Key, Ptr>, owner: map<Ptr, Key>, w: nat, e: nat, cur: Key,
                    mid: Key, key: Key, to: Ptr, rest: Ptr, leaf: Ptr)
    requires Stored(mem, t, addr, owner, w) && S.CanInterpose(t, e, cur, mid) && Linked(t, e, cur)
             && t[cur].parent in addr
    requires FreshOrSame(mem, addr[cur], to, w) && rest !in mem && rest != to && |rest| == w
    requires leaf !in mem && leaf != to && leaf != rest && |leaf| == w
    requires S.Below(key, mid) && key[|mid|] != cur[|mid|] && |key| < TwoTo32 && mid !in t
    ensures Stored(SplitMemory(mem, t, addr, e, cur, mid, key, to, rest, leaf), S.Split(t, e, cur, mid, key),
                   SplitAddr(addr, cur, mid, to, rest)[key := leaf],
                   (owner - {addr[cur]})[to := cur][to := mid][rest := cur][leaf := key], w)
  {
    ExactStored(mem, t, addr, owner, w, e, cur, mid, 0, to, rest);
    SplitIsBoth(mem, t, addr, owner, w, e, cur, mid, key, to, rest, leaf);
    var m := InterposeMemory(MoveMemory(mem, t, addr, e, cur, to), t, addr[cur := to], cur, mid, 0, rest);
    assert S.NodeOk(t, cur);
    MoveKeys(mem, t, addr, owner, w, e, cur, to);
    assert leaf !in m;
    LeafStored(m, S.Interpose(t, e, cur, mid, 0), SplitAddr(addr, cur, mid, to, rest),
               (owner - {addr[cur]})[to := cur][to := mid][rest := cur], w, mid, key, leaf, true);
  }

  lemma ResizedTwice(mem: Memory, t: S.Tree, addr: map<Key, Ptr>, owner: map<Ptr, Key>, w: nat, e: nat, k: Key, to: Ptr,
                     before: seq<Byte>, data: seq<Byte>)
    requires Stored(mem, t, addr, owner, w) && Linked(t, e, k) && t[k].parent in addr
             && FreshOrSame(mem, addr[k], to, w)
    ensures Resized(mem, t, addr, e, k, to, data) == Resized(mem, t, addr, e, k, to, before)[to := data]
  {
    ResizedIsMoved(mem, t, addr, owner, w, e, k, to, data);
    ResizedIsMoved(mem, t, addr, owner, w, e, k, to, before);
  }

  // ---------------------------------------------------------------- the tree and the keys it stands for

  /** The tree in memory is compressed and stands for `contents`. */
  ghost predicate Stands(t: S.Tree, contents: multiset<Key>) {
    && S.Compressed(t)
    && (forall k :: k in t ==> |k| < TwoTo32)
    && (forall k :: contents[k] == S.Count(t, k))
  }

  lemma LeafStands(t: S.Tree, contents: multiset<Key>, cur: Key, key: Key)
    requires Stands(t, contents) && cur in t && key !in t && |key| < TwoTo32
    ensures Stands(S.AddLeaf(t, cur, key, false), contents + multiset{key})
  {
    var u := S.AddLeaf(t, cur, key, false);
    assert forall k :: k in u && k != key ==> k in t && u[k].refs == t[k].refs && |u[k].kids| >= |t[k].kids|;
  }

  lemma ExactStands(t: S.Tree, contents: multiset<Key>, e: nat, cur: Key, key: Key)
    requires Stands(t, contents) && S.EdgeTo(t, e, cur) && key !in t && |key| < TwoTo32 && t[cur].parent != cur
    ensures Stands(S.Interpose(t, e, cur, key, 1), contents + multiset{key})
  {
    var u := S.Interpose(t, e, cur, key, 1);
    assert forall k :: k in u && k != key ==> k in t && u[k].refs == t[k].refs && |u[k].kids| == |t[k].kids|;
  }

  lemma SplitStands(t: S.Tree, contents: multiset<Key>, e: nat, cur: Key, mid: Key, key: Key)
    requires Stands(t, contents) && S.EdgeTo(t, e, cur) && key !in t && mid !in t && key != mid
    requires |key| < TwoTo32 && |mid| <= |key| && t[cur].parent != cur
    ensures Stands(S.Split(t, e, cur, mid, key), contents + multiset{key})
  {
    var u := S.Split(t, e, cur, mid, key);
    assert forall k :: k in u && k != key && k != mid ==>
           k in t && u[k].refs == t[k].refs && |u[k].kids| == |t[k].kids|;
    assert u[mid].refs == 0 && |u[mid].kids| == 2;
    assert forall k :: S.Count(u, k) == S.Count(t, k) + (if k == key then 1 else 0);
  }

  lemma BumpStands(t: S.Tree, contents: multiset<Key>, key: Key)
    requires Stands(t, contents) && key in t
    ensures Stands(S.SetRefs(t, key, t[key].refs + 1), contents + multiset{key})
  {
    var u := S.SetRefs(t, key, t[key].refs + 1);
    assert forall k :: k in u ==> k in t && |u[k].kids| == |t[k].kids| && u[k].refs >= t[k].refs;
  }

  /** The memory holds a compressed tree that stands for `contents`. */
  ghost predicate Sound(mem: Memory, t: S.Tree, addr: map<Key, Ptr>, owner: map<Ptr, Key>, contents: multiset<Key>,
                        w: nat) {
    Stored(mem, t, addr, owner, w) && Stands(t, contents)
  }

  lemma HangSound(mem: Memory, t: S.Tree, addr: map<Key, Ptr>, owner: map<Ptr, Key>, contents: multiset<Key>, w: nat,
                  e: nat, cur: Key, key: Key, leaf: Ptr, to: Ptr)
    requires CanHang(mem, t, addr, owner, w, cur, key, leaf) && Linked(t, e, cur) && t[cur].parent in addr
    requires FreshOrSame(mem, addr[cur], to, w) && to != leaf && Stands(t, contents)
    ensures key !in t
    ensures Sound(LeafMemory(MoveMemory(mem, t, addr, e, cur, to), t, addr[cur := to], cur, key, leaf, false),
                  S.AddLeaf(t, cur, key, false), addr[cur := to][key := leaf],
                  (owner - {addr[cur]})[to := cur][leaf := key], contents + multiset{key}, w)
  {
    HangStored(mem, t, addr, owner, w, e, cur, key, leaf, to);
    S.AddLeafKeeps(t, cur, key, false);
    LeafStands(t, contents, cur, key);
  }

  lemma ExactSound(mem: Memory, t: S.Tree, addr: map<Key, Ptr>, owner: map<Ptr, Key>, contents: multiset<Key>, w: nat,
                   e: nat, cur: Key, key: Key, to: Ptr, rest: Ptr)
    requires Stored(mem, t, addr, owner, w) && S.CanInterpose(t, e, cur, key) && Linked(t, e, cur)
             && t[cur].parent in addr
    requires FreshOrSame(mem, addr[cur], to, w) && rest !in mem && rest != to && |rest| == w
    requires Stands(t, contents) && |key| < TwoTo32 && t[cur].parent != cur
    ensures key !in t
    ensures Sound(InterposeMemory(MoveMemory(mem, t, addr, e, cur, to), t, addr[cur := to], cur, key, 1, rest),
                  S.Interpose(t, e, cur, key, 1), SplitAddr(addr, cur, key, to, rest),
                  (owner - {addr[cur]})[to := cur][to := key][rest := cur], contents + multiset{key}, w)
  {
    ExactStored(mem, t, addr, owner, w, e, cur, key, 1, to, rest);
    S.InterposeKeeps(t, e, cur, key, 1);
    ExactStands(t, contents, e, cur, key);
  }

  lemma SplitSound(mem: Memory, t: S.Tree, addr: map<Key, Ptr>, owner: map<Ptr, Key>, contents: multiset<Key>, w: nat,
                   e: nat, cur: Key, mid: Key, key: Key, to: Ptr, rest: Ptr, leaf: Ptr)
    requires Stored(mem, t, addr, owner, w) && S.CanInterpose(t, e, cur, mid) && Linked(t, e, cur)
             && t[cur].parent in addr
    requires FreshOrSame(mem, addr[cur], to, w) && rest !in mem && rest != to && |rest| == w
    requires leaf !in mem && leaf != to && leaf != rest && |leaf| == w
    requires S.Below(key, mid) && key[|mid|] != cur[|mid|] && |key| < TwoTo32
    requires Stands(t, contents) && t[cur].parent != cur
    ensures key !in t && mid !in t
    ensures Sound(SplitMemory(mem, t, addr, e, cur, mid, key, to, rest, leaf), S.Split(t, e, cur, mid, key),
                  SplitAddr(addr, cur, mid, to, rest)[key := leaf],
                  (owner - {addr[cur]})[to := cur][to := mid][rest := cur][leaf := key], contents + multiset{key}, w)
  {
    S.SplitKeeps(t, e, cur, mid, key);
    SplitStored(mem, t, addr, owner, w, e, cur, mid, key, to, rest, leaf);
    SplitStands(t, contents, e, cur, mid, key);
  }

  /** One more in a field of 32 bits. */
  function Increased(n: nat): nat {
    if n + 1 < TwoTo32 then n + 1 else 0
  }

  lemma IncreasedWraps(n: nat)
    requires n < TwoTo32
    ensures Increased(n) == (n + 1) % TwoTo32 && (Increased(n) == 1 <==> n == 0)
  {
  }

  /** The count of copies is kept modulo 2^32; the tree stands for the keys only as long as it fits. */
  lemma CopyCounted(mem: Memory, t: S.Tree, addr: map<Key, Ptr>, owner: map<Ptr, Key>, contents: multiset<Key>,
                    w: nat, key: Key)
    requires Sound(mem, t, addr, owner, contents, w) && key in t && |t[key].parent| <= |key|
    ensures var n := Increased(t[key].refs);
            && Stored(mem[addr[key] := Layout(BlockOf(t, addr, key).(refs := n))], S.SetRefs(t, key, n), addr, owner, w)
            && (t[key].refs + 1 < TwoTo32 ==> Stands(S.SetRefs(t, key, n), contents + multiset{key}))
            && (t[key].refs + 1 >= TwoTo32 ==> S.Count(S.SetRefs(t, key, n), key) == 0)
  {
    RefsStored(mem, t, addr, owner, w, key, Increased(t[key].refs));
    if t[key].refs + 1 < TwoTo32 { BumpStands(t, contents, key); }
  }

  // ---------------------------------------------------------------- what `match` found

  lemma FoundLinked(t: S.Tree, e: nat, cur: Key)
    requires S.WellFormed(t) && cur in t && (cur != [] ==> S.EdgeTo(t, e, cur))
    ensures Linked(t, e, cur) && t[cur].parent in t && |t[cur].parent| <= |cur| && (cur != [] ==> t[cur].parent != cur)
  {
    assert S.NodeOk(t, cur);
    assert S.NodeOk(t, t[cur].parent);
  }

  /** The key goes on where the current node ends. */
  lemma FoundHang(t: S.Tree, key: Key, cur: Key, i: nat, j: nat)
    requires S.WellFormed(t) && Stopped(t, key, cur, i, j) && i < |key| && i == |cur|
    ensures S.Below(key, cur) && forall c :: c in t[cur].kids ==> S.Differ(c, key, |cur|)
  {
    assert cur == cur[..i];
  }

  /** The key leaves the current node, or ends, inside its prefix. */
  lemma FoundSplit(t: S.Tree, e: nat, key: Key, cur: Key, i: nat, j: nat)
    requires S.WellFormed(t) && Stopped(t, key, cur, i, j) && i < |cur| && (cur != [] ==> S.EdgeTo(t, e, cur))
    ensures S.CanInterpose(t, e, cur, key[..i])
    ensures i < |key| ==> S.Below(key, key[..i]) && key[i] != cur[i]
  {
    assert S.NodeOk(t, cur);
    var p := t[cur].parent;
    assert key[..i] == cur[..i] && cur[..i][..|p|] == cur[..|p|] == p;
  }

  // ---------------------------------------------------------------- removing, with moves

  /** Memory after `k` took in its only child `c`. */
  function AbsorbMemory(mem: Memory, t: S.Tree, addr: map<Key, Ptr>, e: nat, k: Key, c: Key, to: Ptr): Memory
    requires Linked(t, e, k) && k in addr && t[k].parent in addr && c in t && c in addr && |t[c].parent| <= |c|
    requires |t[k].parent| <= |c|
  {
    Resized(mem, t, addr, e, k, to, Layout(BlockOf(t, addr, c).(prefix := c[|t[k].parent|..]))) - {addr[c]}
  }

  lemma AbsorbIsMerge(mem: Memory, t: S.Tree, addr: map<Key, Ptr>, owner: map<Ptr, Key>, w: nat, e: nat, k: Key,
                      to: Ptr)
    requires CanMerge(mem, t, addr, owner, w, e, k) && FreshOrSame(mem, addr[k], to, w)
    ensures t[k].parent in addr
    ensures var c := t[k].kids[0];
            AbsorbMemory(mem, t, addr, e, k, c, to)
            == MergeMemory(MoveMemory(mem, t, addr, e, k, to), t, addr[k := to], k, c)
  {
    var c := t[k].kids[0];
    assert S.NodeOk(t, k) && c in t[k].kids && S.NodeOk(t, t[k].parent);
    ResizedIsMoved(mem, t, addr, owner, w, e, k, to, Layout(BlockOf(t, addr, c).(prefix := c[|t[k].parent|..])));
    SameBlockElsewhere(t, addr, k, to, c);
    assert addr[c] in mem && addr[c] != addr[k] && addr[c] != to;
    FreeThenStore(MoveMemory(mem, t, addr, e, k, to), to, Layout(BlockOf(t, addr, c).(prefix := c[|t[k].parent|..])),
                  addr[c]);
  }

  lemma FreeThenStore(m: Memory, to: Ptr, data: seq<Byte>, freed: Ptr)
    requires freed != to
    ensures m[to := data] - {freed} == (m - {freed})[to := data]
  {
  }

  lemma AbsorbStored(mem: Memory, t: S.Tree, addr: map<Key, Ptr>, owner: map<Ptr, Key>, w: nat, e: nat, k: Key, to: Ptr)
    requires CanMerge(mem, t, addr, owner, w, e, k) && FreshOrSame(mem, addr[k], to, w) && |t[k].kids[0]| < TwoTo32
    ensures t[k].parent in addr
    ensures var c := t[k].kids[0];
            Stored(AbsorbMemory(mem, t, addr, e, k, c, to), S.MergeDown(t, e, k), (addr - {k})[c := to],
                   ((owner - {addr[k]})[to := k] - {addr[c]})[to := c], w)
  {
    var c := t[k].kids[0];
    AbsorbIsMerge(mem, t, addr, owner, w, e, k, to);
    MoveStored(mem, t, addr, owner, w, e, k, to);
    assert addr[k := to][c] == addr[c] by { assert S.NodeOk(t, k) && c in t[k].kids; }
    MergeStored(MoveMemory(mem, t, addr, e, k, to), t, addr[k := to], (owner - {addr[k]})[to := k], w, e, k);
    assert (addr[k := to] - {k})[c := to] == (addr - {k})[c := to];
  }

  /** Memory after leaf `k` was freed and the block of its parent, without the edge to it, moved to `to`. */
  function UnhangMemory(mem: Memory, t: S.Tree, addr: map<Key, Ptr>, e: nat, ge: nat, k: Key, to: Ptr): Memory
    requires S.EdgeTo(t, e, k) && addr.Keys == t.Keys && Linked(t, ge, t[k].parent) && t[t[k].parent].parent in addr
    requires |t[t[k].parent].parent| <= |t[k].parent|
  {
    var p := t[k].parent;
    Resized(mem, t, addr, ge, p, to, Layout(WithoutEdge(BlockOf(t, addr, p), e))) - {addr[k]}
  }

  lemma UnhangStored(mem: Memory, t: S.Tree, addr: map<Key, Ptr>, owner: map<Ptr, Key>, w: nat, e: nat, ge: nat,
                     k: Key, to: Ptr)
    requires CanDrop(mem, t, addr, owner, w, e, k) && Linked(t, ge, t[k].parent) && t[t[k].parent].parent in addr
    requires FreshOrSame(mem, addr[t[k].parent], to, w)
    ensures var p := t[k].parent;
            Stored(UnhangMemory(mem, t, addr, e, ge, k, to), S.RemoveLeaf(t, e, k), addr[p := to] - {k},
                   (owner - {addr[p]})[to := p] - {addr[k]}, w)
  {
    var p := t[k].parent;
    MoveStored(mem, t, addr, owner, w, ge, p, to);
    DropStored(MoveMemory(mem, t, addr, ge, p, to), t, addr[p := to], (owner - {addr[p]})[to := p], w, e, k);
    UnhangIsDrop(mem, t, addr, owner, w, e, ge, k, to);
  }

  lemma UnhangIsDrop(mem: Memory, t: S.Tree, addr: map<Key, Ptr>, owner: map<Ptr, Key>, w: nat, e: nat, ge: nat,
                     k: Key, to: Ptr)
    requires CanDrop(mem, t, addr, owner, w, e, k) && Linked(t, ge, t[k].parent) && t[t[k].parent].parent in addr
    requires FreshOrSame(mem, addr[t[k].parent], to, w)
    ensures var p := t[k].parent;
            UnhangMemory(mem, t, addr, e, ge, k, to)
            == DropMemory(MoveMemory(mem, t, addr, ge, p, to), t, addr[p := to], e, k)
  {
    var p := t[k].parent;
    ResizedIsMoved(mem, t, addr, owner, w, ge, p, to, Layout(WithoutEdge(BlockOf(t, addr, p), e)));
    SameBlock(t, addr, p, to);
    assert addr[k] in mem && addr[k] != addr[p] && addr[k] != to;
  }

  lemma DropSameBlock(t: S.Tree, addr: map<Key, Ptr>, e: nat, k: Key, x: Key)
    requires S.WellFormed(t) && S.EdgeTo(t, e, k) && x in t && x != k && x != t[k].parent && |t[x].parent| <= |x|
    ensures BlockOf(S.RemoveLeaf(t, e, k), addr - {k}, x) == BlockOf(t, addr, x)
  {
    assert S.NodeOk(t, x);
    assert k !in t[x].kids;
    assert EdgePtrs(t[x].kids, addr - {k}) == EdgePtrs(t[x].kids, addr);
  }

  /** Memory after leaf `k` was freed and its parent took in its other child `o`. */
  function CollapseMemory(mem: Memory, t: S.Tree, addr: map<Key, Ptr>, ge: nat, k: Key, o: Key, to: Ptr): Memory
    requires k in t && k in addr && Linked(t, ge, t[k].parent) && t[k].parent in addr && t[t[k].parent].parent in addr
    requires o in t && o in addr && |t[o].parent| <= |o| && |t[t[k].parent].parent| <= |o|
  {
    var p := t[k].parent;
    Resized(mem, t, addr, ge, p, to, Layout(BlockOf(t, addr, o).(prefix := o[|t[p].parent|..]))) - {addr[k]} - {addr[o]}
  }

  /** Leaf `k` and its parent, which holds no key, can go: the other child `o` remains. */
  predicate CanCollapse(mem: Memory, t: S.Tree, addr: map<Key, Ptr>, owner: map<Ptr, Key>, w: nat, e: nat, ge: nat,
                        k: Key, o: Key) {
    && CanDrop(mem, t, addr, owner, w, e, k) && t[k].parent != [] && Linked(t, ge, t[k].parent)
    && t[t[k].parent].parent in addr && |t[t[k].parent].kids| == 2
    && o == t[t[k].parent].kids[1 - e] && o in t && t[o].parent == t[k].parent && S.Below(o, t[k].parent)
    && o != k && t[t[k].parent].parent != t[k].parent && t[t[k].parent].parent != k && t[t[k].parent].parent != o
    && |t[t[k].parent].parent| <= |t[k].parent|
  }

  lemma CollapseIsAbsorb(mem: Memory, t: S.Tree, addr: map<Key, Ptr>, owner: map<Ptr, Key>, w: nat, e: nat, ge: nat,
                         k: Key, o: Key, to: Ptr)
    requires CanCollapse(mem, t, addr, owner, w, e, ge, k, o) && FreshOrSame(mem, addr[t[k].parent], to, w)
    ensures var v, a, p := S.RemoveLeaf(t, e, k), addr - {k}, t[k].parent;
            && Linked(v, ge, p) && o in v
            && CollapseMemory(mem, t, addr, ge, k, o, to)
               == AbsorbMemory(DropMemory(mem, t, addr, e, k), v, a, ge, p, o, to)
  {
    var v, a, p := S.RemoveLeaf(t, e, k), addr - {k}, t[k].parent;
    var g := t[p].parent;
    DropSameBlock(t, addr, e, k, o);
    assert S.NodeOk(t, p) && S.NodeOk(t, g);
    DropSameBlock(t, addr, e, k, g);
    var data := Layout(BlockOf(t, addr, o).(prefix := o[|g|..]));
    var gdata := Layout(Repointed(t, addr, g, ge, to));
    assert Repointed(v, a, g, ge, to) == Repointed(t, addr, g, ge, to);
    CollapseMaps(mem, addr[k], addr[p], addr[g], addr[o], to, Layout(WithoutEdge(BlockOf(t, addr, p), e)), data, gdata);
  }

  lemma CollapseMaps(mem: Memory, kp: Ptr, pp: Ptr, gp: Ptr, op: Ptr, to: Ptr, w: seq<Byte>, data: seq<Byte>,
                     gdata: seq<Byte>)
    requires kp != pp && gp != kp && to != kp
    ensures (mem - {pp})[to := data][gp := gdata] - {kp} - {op}
         == ((mem - {kp})[pp := w] - {pp})[to := data][gp := gdata] - {op}
  {
  }

  lemma CollapseStored(mem: Memory, t: S.Tree, addr: map<Key, Ptr>, owner: map<Ptr, Key>, w: nat, e: nat, ge: nat,
                       k: Key, o: Key, to: Ptr)
    requires CanCollapse(mem, t, addr, owner, w, e, ge, k, o) && FreshOrSame(mem, addr[t[k].parent], to, w)
             && |o| < TwoTo32
    ensures var v, p := S.RemoveLeaf(t, e, k), t[k].parent;
            && S.EdgeTo(v, ge, p) && |v[p].kids| == 1 && v[p].kids[0] in v && p != v[p].parent
            && Stored(CollapseMemory(mem, t, addr, ge, k, o, to), S.MergeDown(v, ge, p), (addr - {k} - {p})[o := to],
                      ((owner - {addr[k]} - {addr[p]})[to := p] - {addr[o]})[to := o], w)
  {
    var v, a, p := S.RemoveLeaf(t, e, k), addr - {k}, t[k].parent;
    DropStored(mem, t, addr, owner, w, e, k);
    S.LeafThenMerge(t, e, ge, k);
    CollapseIsAbsorb(mem, t, addr, owner, w, e, ge, k, o, to);
    AbsorbStored(DropMemory(mem, t, addr, e, k), v, a, owner - {addr[k]}, w, ge, p, to);
  }

  lemma RemoveStands(t: S.Tree, contents: multiset<Key>, e: nat, ge: nat, key: Key)
    requires Stands(t, contents) && S.CanRemove(t, e, ge, key)
    ensures Stands(S.Remove(t, e, ge, key), contents - multiset{key})
  {
    S.RemoveKeeps(t, e, ge, key);
    RemoveKeys(t, e, ge, key);
  }

  lemma RemoveKeys(t: S.Tree, e: nat, ge: nat, key: Key)
    requires S.CanRemove(t, e, ge, key)
    ensures forall k :: k in S.Remove(t, e, ge, key) ==> k in t
  {
    var u := S.SetRefsKept(t, key);
    if !(u[key].refs > 0 || key == [] || |u[key].kids| > 1) && |u[key].kids| == 1 {
      S.MergeDownKeeps(u, e, key);
    } else if !(u[key].refs > 0 || key == [] || |u[key].kids| > 1) {
      var p := u[key].parent;
      if |u[p].kids| == 2 && u[p].refs == 0 && p != [] { S.LeafThenMerge(u, e, ge, key); }
    }
  }

  /** Where the cursors of a lookup point: node `cur`, its parent and its grandparent. */
  ghost predicate Cursors(t: S.Tree, addr: map<Key, Ptr>, cur: Key, edge: nat, gpEdge: nat,
                          current: Ptr, parent: Ptr, grandparent: Ptr)
  {
    && addr.Keys == t.Keys && cur in t && current == addr[cur]
    && t[cur].parent in t && parent == addr[t[cur].parent]
    && t[t[cur].parent].parent in t && grandparent == addr[t[t[cur].parent].parent]
    && (cur != [] ==> S.EdgeTo(t, edge, cur))
    && (cur != [] && t[cur].parent != [] ==> S.EdgeTo(t, gpEdge, t[cur].parent))
  }

  /** One copy fewer, in the block of the node. */
  function DecMemory(mem: Memory, t: S.Tree, addr: map<Key, Ptr>, k: Key): Memory
    requires k in t && k in addr && |t[k].parent| <= |k| && t[k].refs > 0
  {
    mem[addr[k] := Layout(BlockOf(t, addr, k).(refs := t[k].refs - 1))]
  }

  /** The copy that goes is not the last one, or the node stays for its edges. */
  lemma DecSound(mem: Memory, t: S.Tree, addr: map<Key, Ptr>, owner: map<Ptr, Key>, contents: multiset<Key>, w: nat,
                 e: nat, ge: nat, key: Key)
    requires Sound(mem, t, addr, owner, contents, w) && S.CanRemove(t, e, ge, key) && |t[key].parent| <= |key|
    requires t[key].refs < TwoTo32
    ensures Stored(DecMemory(mem, t, addr, key), S.SetRefs(t, key, t[key].refs - 1), addr, owner, w)
    ensures t[key].refs > 1 || key == [] || |t[key].kids| > 1 ==>
              Sound(DecMemory(mem, t, addr, key), S.Remove(t, e, ge, key), addr, owner, contents - multiset{key}, w)
  {
    RefsStored(mem, t, addr, owner, w, key, t[key].refs - 1);
    RemoveStands(t, contents, e, ge, key);
    RemoveLowers(t, e, ge, key);
  }

  lemma RemoveLowers(t: S.Tree, e: nat, ge: nat, key: Key)
    requires S.CanRemove(t, e, ge, key)
    ensures t[key].refs > 1 || key == [] || |t[key].kids| > 1 ==>
            S.Remove(t, e, ge, key) == S.SetRefs(t, key, t[key].refs - 1)
  {
  }

  /** The copy that goes is the last one. */
  lemma LastSound(mem: Memory, t: S.Tree, addr: map<Key, Ptr>, owner: map<Ptr, Key>, contents: multiset<Key>, w: nat,
                  key: Key)
    requires Sound(mem, t, addr, owner, contents, w) && key in t && t[key].refs == 1 && |t[key].parent| <= |key|
    ensures key in addr && addr[key] in mem
    ensures DecMemory(mem, t, addr, key).Keys == mem.Keys
    ensures Stored(DecMemory(mem, t, addr, key), S.SetRefs(t, key, 0), addr, owner, w)
    ensures Stands(t, contents - multiset{key} + multiset{key})
    ensures |contents| > 0 && |contents - multiset{key}| == |contents| - 1
  {
    RefsStored(mem, t, addr, owner, w, key, 0);
    assert contents[key] == S.Count(t, key);
    assert contents - multiset{key} + multiset{key} == contents;
  }

  lemma AbsorbSound(mem: Memory, t: S.Tree, addr: map<Key, Ptr>, owner: map<Ptr, Key>, contents: multiset<Key>, w: nat,
                    e: nat, ge: nat, key: Key, to: Ptr)
    requires S.CanRemove(t, e, ge, key) && t[key].refs == 1 && key != [] && |t[key].kids| == 1 && Stands(t, contents)
    requires Stored(mem, S.SetRefs(t, key, 0), addr, owner, w) && FreshOrSame(mem, addr[key], to, w)
    ensures var u, c := S.SetRefs(t, key, 0), t[key].kids[0];
            && Linked(u, e, key) && u[key].parent in addr && c in u && c in addr && |u[c].parent| <= |c|
            && |u[key].parent| <= |c|
            && Sound(AbsorbMemory(mem, u, addr, e, key, c, to), S.Remove(t, e, ge, key), (addr - {key})[c := to],
                     ((owner - {addr[key]})[to := key] - {addr[c]})[to := c], contents - multiset{key}, w)
  {
    var u, c := S.SetRefs(t, key, 0), t[key].kids[0];
    assert S.NodeOk(u, key) && c in u[key].kids && S.NodeOk(u, u[key].parent);
    AbsorbStored(mem, u, addr, owner, w, e, key, to);
    RemoveStands(t, contents, e, ge, key);
  }

  lemma UnhangSound(mem: Memory, t: S.Tree, addr: map<Key, Ptr>, owner: map<Ptr, Key>, contents: multiset<Key>, w: nat,
                    e: nat, ge: nat, key: Key, to: Ptr)
    requires S.CanRemove(t, e, ge, key) && t[key].refs == 1 && key != [] && t[key].kids == [] && Stands(t, contents)
    requires var p := t[key].parent; !(|t[p].kids| == 2 && t[p].refs == 0 && p != [])
    requires Stored(mem, S.SetRefs(t, key, 0), addr, owner, w) && FreshOrSame(mem, addr[t[key].parent], to, w)
    ensures var u, p := S.SetRefs(t, key, 0), t[key].parent;
            && S.EdgeTo(u, e, key) && Linked(u, ge, p) && u[p].parent in addr && |u[p].parent| <= |p|
            && Sound(UnhangMemory(mem, u, addr, e, ge, key, to), S.Remove(t, e, ge, key), addr[p := to] - {key},
                     (owner - {addr[p]})[to := p] - {addr[key]}, contents - multiset{key}, w)
  {
    var u, p := S.SetRefs(t, key, 0), t[key].parent;
    assert S.NodeOk(u, key) && S.NodeOk(u, p) && S.NodeOk(u, u[p].parent);
    UnhangStored(mem, u, addr, owner, w, e, ge, key, to);
    RemoveStands(t, contents, e, ge, key);
  }

  lemma CollapseSound(mem: Memory, t: S.Tree, addr: map<Key, Ptr>, owner: map<Ptr, Key>, contents: multiset<Key>,
                      w: nat, e: nat, ge: nat, key: Key, to: Ptr)
    requires S.CanRemove(t, e, ge, key) && t[key].refs == 1 && key != [] && t[key].kids == [] && Stands(t, contents)
    requires var p := t[key].parent; p in t && |t[p].kids| == 2 && t[p].refs == 0 && p != [] && e < 2
    requires Stored(mem, S.SetRefs(t, key, 0), addr, owner, w) && FreshOrSame(mem, addr[t[key].parent], to, w)
    ensures var u, p := S.SetRefs(t, key, 0), t[key].parent;
            var o := t[p].kids[1 - e];
            && CanCollapse(mem, u, addr, owner, w, e, ge, key, o)
            && Sound(CollapseMemory(mem, u, addr, ge, key, o, to), S.Remove(t, e, ge, key),
                     (addr - {key} - {p})[o := to],
                     ((owner - {addr[key]} - {addr[p]})[to := p] - {addr[o]})[to := o], contents - multiset{key}, w)
  {
    var u, p := S.SetRefs(t, key, 0), t[key].parent;
    var o := t[p].kids[1 - e];
    CollapseFacts(u, e, ge, key);
    assert o in t;
    CollapseStored(mem, u, addr, owner, w, e, ge, key, o, to);
    RemoveStands(t, contents, e, ge, key);
  }

  lemma CollapseFacts(u: S.Tree, e: nat, ge: nat, k: Key)
    requires S.WellFormed(u) && S.EdgeTo(u, e, k) && k != [] && u[k].parent != [] && S.EdgeTo(u, ge, u[k].parent)
    requires |u[u[k].parent].kids| == 2
    ensures var p := u[k].parent;
            var o, g := u[p].kids[1 - e], u[p].parent;
            && o in u && u[o].parent == p && S.Below(o, p) && o != k && g != p && g != k && g != o && p != k
            && |g| <= |p| && Linked(u, ge, p)
  {
    var p := u[k].parent;
    var o, g := u[p].kids[1 - e], u[p].parent;
    assert S.NodeOk(u, k) && S.NodeOk(u, p) && o in u[p].kids && S.NodeOk(u, g);
    assert S.Differ(u[p].kids[0], u[p].kids[1], |p|);
  }
}
