/**
 `radix_tree`: the nodes are blocks in memory that point to each other. `mem` is the memory the tree
 has allocated; `addr` and `owner` say which node lies in which block.
 */
module RadixTree {
  import opened Bytes
  import opened Sequences
  import opened RadixBlock
  import opened RadixStore
  import S = RadixSpec

  class RadixTree {
    const w: nat                     // sizeof (void *)
    var mem: Memory
    var root: Ptr
    var size: nat
    ghost var tree: S.Tree
    ghost var addr: map<Key, Ptr>
    ghost var owner: map<Ptr, Key>
    ghost var contents: multiset<Key>

    /** The tree in memory is well formed and compressed and stands for `contents`. */
    ghost predicate Ok()
      reads this
    {
      && Sound(mem, tree, addr, owner, contents, w)
      && root == addr[[]]
      && size == |contents|
    }

    constructor (width: nat, first: Ptr)
      requires |first| == width
      ensures Ok() && w == width && contents == multiset{} && mem.Keys == {first}
    {
      w := width;
      root := first;
      size := 0;
      var block := NewNode(0, [], [], [], width, []);
      mem := map[first := block];
      tree := map[[] := S.Node(0, [], [])];
      addr, owner, contents := map[[] := first], map[first := []], multiset{};
      new;
      assert S.NodeOk(tree, []);
      assert BlockOf(tree, addr, []) == Block(0, [], [], []);
      assert Holds(mem, tree, addr, w, []);
    }

    /** How many bytes of `key` from `i` on agree with the prefix of the node in block `d`. */
    method MatchPrefix(d: seq<Byte>, key: Key, i: nat, ghost b: Block) returns (j: nat)
      requires Fits(b, w) && d == Layout(b) && i <= |key|
      ensures j <= |b.prefix| && i + j <= |key| && key[i..i + j] == b.prefix[..j]
      ensures j == |b.prefix| || i + j == |key| || b.prefix[j] != key[i + j]
    {
      Reads(b, w);
      Parts(b.refs, b.prefix, b.bytes, Flat(b.ptrs));
      j := 0;
      while j < PrefixLength(d) && i + j < |key|
        invariant j <= |b.prefix| && i + j <= |key| && key[i..i + j] == b.prefix[..j]
      {
        assert d[12..12 + |b.prefix|][j] == d[12 + j];
        if d[12 + j] != key[i + j] { break; }
        LongerMatch(key, i, b.prefix, j);
        j := j + 1;
      }
    }

    lemma LongerMatch(key: Key, i: nat, prefix: Key, j: nat)
      requires i + j < |key| && j < |prefix| && key[i..i + j] == prefix[..j] && key[i + j] == prefix[j]
      ensures key[i..i + j + 1] == prefix[..j + 1]
    {
      assert key[i..i + j + 1] == key[i..i + j] + [key[i + j]] && prefix[..j + 1] == prefix[..j] + [prefix[j]];
    }

    /** The edge of the node in block `d` that starts with `c`, if there is one. */
    method FindEdge(d: seq<Byte>, c: Byte, ghost b: Block) returns (k: nat)
      requires Fits(b, w) && d == Layout(b)
      ensures k <= |b.bytes| && (k < |b.bytes| ==> b.bytes[k] == c)
      ensures forall j :: 0 <= j < k ==> b.bytes[j] != c
    {
      Reads(b, w);
      k := 0;
      while k < EdgeCount(d)
        invariant k <= |b.bytes| && forall j :: 0 <= j < k ==> b.bytes[j] != c
      {
        var byte := FirstByteAt(d, k, w, b);
        if byte == c { break; }
        k := k + 1;
      }
    }

    /** The cursors of `match` point to node `cur`, its parent and its grandparent. */
    ghost predicate At(cur: Key, edge: nat, gpEdge: nat, current: Ptr, parent: Ptr, grandparent: Ptr)
      reads this
    {
      Cursors(tree, addr, cur, edge, gpEdge, current, parent, grandparent)
    }

    /** All bytes up to the parent of `cur` match, and so does the first byte of the edge to `cur`. */
    ghost predicate OnTheWay(key: Key, cur: Key)
      reads this
    {
      && cur in tree
      && var p := tree[cur].parent;
         p <= key && (cur != [] ==> |p| < |key| && |p| < |cur| && key[|p|] == cur[|p|])
    }

    /** No key above `cur` is a prefix of `key`. */
    ghost predicate NoneAbove(key: Key, cur: Key)
      requires cur in tree
      reads this
    {
      forall k :: k in tree && k <= key && tree[k].refs > 0 ==> |k| > |tree[cur].parent| || k == cur
    }

    /** A lookup ended at a stored key that is a prefix of `key`. */
    ghost predicate Found(key: Key, cur: Key, i: nat, j: nat)
      reads this
    {
      cur in tree && cur <= key && tree[cur].refs > 0 && i == |key| && |tree[cur].parent| + j == |cur|
    }

    /** One step down the tree. */
    lemma StepDown(key: Key, cur: Key, k: nat, edge: nat, gpEdge: nat, current: Ptr, parent: Ptr, grandparent: Ptr)
      requires Stored(mem, tree, addr, owner, w) && At(cur, edge, gpEdge, current, parent, grandparent)
      requires cur <= key && |cur| < |key| && k < |tree[cur].kids| && EdgeBytes(tree[cur].kids, |cur|)[k] == key[|cur|]
      ensures var c := tree[cur].kids[k];
              && c in tree && S.Below(c, cur) && tree[c].parent == cur && addr[c] != addr[cur]
              && At(c, k, edge, addr[c], current, parent) && OnTheWay(key, c)
    {
      var c := tree[cur].kids[k];
      assert S.NodeOk(tree, cur) && c in tree[cur].kids;
      assert Holds(mem, tree, addr, w, cur);
    }

    lemma NoEdge(key: Key, cur: Key)
      requires Stored(mem, tree, addr, owner, w) && cur in tree && cur <= key && |cur| < |key|
      requires forall j :: 0 <= j < |tree[cur].kids| ==> EdgeBytes(tree[cur].kids, |cur|)[j] != key[|cur|]
      ensures forall c :: c in tree[cur].kids ==> S.Differ(c, key, |cur|)
    {
      assert S.NodeOk(tree, cur);
      forall c | c in tree[cur].kids ensures S.Differ(c, key, |cur|) {
        var j :| 0 <= j < |tree[cur].kids| && tree[cur].kids[j] == c;
        assert EdgeBytes(tree[cur].kids, |cur|)[j] == c[|cur|];
      }
    }

    /** The matched bytes of the node are the bytes of its key. */
    lemma PrefixMatched(key: Key, cur: Key, j: nat)
      requires Stored(mem, tree, addr, owner, w) && OnTheWay(key, cur)
      requires var p := tree[cur].parent;
               && |p| <= |cur| && j <= |cur| - |p| && |p| + j <= |key|
               && key[|p|..|p| + j] == cur[|p|..][..j]
               && (j == |cur| - |p| || |p| + j == |key| || cur[|p|..][j] != key[|p| + j])
      ensures var i := |tree[cur].parent| + j;
              && key[..i] == cur[..i] && (cur != [] ==> j > 0)
              && (i == |cur| || i == |key| || cur[i] != key[i])
    {
      assert S.NodeOk(tree, cur);
      var p := tree[cur].parent;
      var i := |p| + j;
      assert key[..i] == key[..|p|] + key[|p|..i];
      assert cur[..i] == cur[..|p|] + cur[|p|..][..j];
      assert cur != [] ==> cur[|p|..][0] == cur[|p|];
    }

    /** Compares one node with the key; `full` says that its whole prefix and not yet the whole key matched. */
    method ComparePrefix(key: Key, start: nat, check: bool, current: Ptr, ghost cur: Key)
      returns (full: bool, i: nat, j: nat)
      requires Stored(mem, tree, addr, owner, w) && cur in tree && current == addr[cur] && OnTheWay(key, cur)
               && start == |tree[cur].parent|
      ensures !full ==> Stopped(tree, key, cur, i, j) || (check && Found(key, cur, i, j))
      ensures !full && check && !Found(key, cur, i, j) ==> (tree[cur].refs > 0 ==> !(cur <= key))
      ensures full ==> i == |cur| && |tree[cur].parent| + j == |cur| && cur <= key && |cur| < |key|
                       && (check ==> tree[cur].refs == 0) && (cur != [] ==> j > 0)
    {
      HeaderOf(cur);
      assert S.NodeOk(tree, cur) && Holds(mem, tree, addr, w, cur);
      j := MatchPrefix(mem[current], key, start, BlockOf(tree, addr, cur));
      PrefixMatched(key, cur, j);
      i := start + j;
      full := false;
      if check && j == PrefixLength(mem[current]) && Refcount(mem[current]) > 0 {
        assert cur == cur[..i] == key[..i];
        i := |key|;
        return;
      }
      if j != PrefixLength(mem[current]) || i == |key| {
        StopsHere(key, cur, i, j);
        return;
      }
      assert cur == cur[..i] == key[..i];
      full := true;
    }

    /** The body of the loop in `match`: compares one node and looks for the edge to follow. */
    method CompareNode(key: Key, start: nat, check: bool, current: Ptr, ghost cur: Key)
      returns (stop: bool, i: nat, j: nat, k: nat, next: Ptr)
      requires Stored(mem, tree, addr, owner, w) && cur in tree && current == addr[cur] && OnTheWay(key, cur)
               && start == |tree[cur].parent|
      ensures stop ==> Stopped(tree, key, cur, i, j) || (check && Found(key, cur, i, j))
      ensures stop && check && !Found(key, cur, i, j) ==> (tree[cur].refs > 0 ==> !(cur <= key))
      ensures !stop ==> i == |cur| && cur <= key && |cur| < |key| && k < |tree[cur].kids|
                        && EdgeBytes(tree[cur].kids, |cur|)[k] == key[|cur|]
                        && next == EdgePtrs(tree[cur].kids, addr)[k]
      ensures !stop && check ==> tree[cur].refs == 0
    {
      k, next := 0, current;
      var full;
      full, i, j := ComparePrefix(key, start, check, current, cur);
      if !full { return true, i, j, k, next; }
      HeaderOf(cur);
      assert Holds(mem, tree, addr, w, cur);
      k := FindEdge(mem[current], key[i], BlockOf(tree, addr, cur));
      if k < EdgeCount(mem[current]) {
        next := NodeAt(mem[current], k, w, BlockOf(tree, addr, cur));
        return false, i, j, k, next;
      }
      NoEdge(key, cur);
      assert key[..i] == cur == cur[..i];
      return true, i, j, k, next;
    }

    lemma StopsHere(key: Key, cur: Key, i: nat, j: nat)
      requires cur in tree && |tree[cur].parent| <= |cur| && i == |tree[cur].parent| + j && i <= |cur| && i <= |key|
      requires key[..i] == cur[..i] && (i == |cur| || i == |key| || cur[i] != key[i])
      requires i != |cur| || i == |key|
      ensures i != |cur| ==> !(cur <= key)
    {
    }

    /** `match`. In a lookup (`check`) it stops at the first stored key that is a prefix of `key`. */
    method Match(key: Key, check: bool)
      returns (i: nat, j: nat, edge: nat, gpEdge: nat, current: Ptr, parent: Ptr, grandparent: Ptr, ghost cur: Key)
      requires Ok() && (check ==> tree[[]].refs == 0)
      ensures At(cur, edge, gpEdge, current, parent, grandparent)
      ensures Stopped(tree, key, cur, i, j) || (check && Found(key, cur, i, j))
      ensures check && !Found(key, cur, i, j) ==> NoneAbove(key, cur) && (tree[cur].refs > 0 ==> !(cur <= key))
    {
      i, j, edge, gpEdge := 0, 0, 0, 0;
      current := root;
      parent, grandparent := current, current;
      cur := [];
      RootIsAt();
      while PrefixLength(mem[current]) > 0 || EdgeCount(mem[current]) > 0
        invariant At(cur, edge, gpEdge, current, parent, grandparent) && OnTheWay(key, cur)
        invariant i == |tree[cur].parent| && (cur == [] ==> j == 0)
        invariant current in mem && HasHeader(mem[current])
        invariant check ==> NoneAbove(key, cur)
        invariant cur != [] ==> PrefixLength(mem[current]) > 0
        invariant cur == [] && EdgeCount(mem[current]) == 0 ==> tree[cur].kids == []
        decreases if cur == [] then |key| + 1 else |key| - |tree[cur].parent|
      {
        var stop, k, next;
        stop, i, j, k, next := CompareNode(key, i, check, current, cur);
        if stop { return; }
        StepDown(key, cur, k, edge, gpEdge, current, parent, grandparent);
        if check { StillNoneAbove(key, cur, tree[cur].kids[k]); }
        gpEdge, edge := edge, k;
        grandparent, parent, current := parent, current, next;
        cur := tree[cur].kids[k];
        HeaderOf(cur);
      }
    }

    lemma RootIsAt()
      requires Ok()
      ensures At([], 0, 0, root, root, root) && tree[[]].parent == []
      ensures root in mem && HasHeader(mem[root]) && PrefixLength(mem[root]) == 0
      ensures EdgeCount(mem[root]) == |tree[[]].kids|
    {
      assert S.NodeOk(tree, []) && Holds(mem, tree, addr, w, []);
      Reads(BlockOf(tree, addr, []), w);
    }

    lemma HeaderOf(k: Key)
      requires Stored(mem, tree, addr, owner, w) && k in tree
      ensures addr[k] in mem && HasHeader(mem[addr[k]]) && |tree[k].parent| <= |k|
      ensures PrefixLength(mem[addr[k]]) == |k| - |tree[k].parent| && EdgeCount(mem[addr[k]]) == |tree[k].kids|
      ensures Refcount(mem[addr[k]]) == tree[k].refs
      ensures k != [] ==> PrefixLength(mem[addr[k]]) > 0
    {
      assert S.NodeOk(tree, k) && Holds(mem, tree, addr, w, k);
      Reads(BlockOf(tree, addr, k), w);
    }

    /** A key that is shorter than the child and not above `cur` would have to be `cur`. */
    lemma StillNoneAbove(key: Key, cur: Key, c: Key)
      requires Stored(mem, tree, addr, owner, w) && cur in tree && tree[cur].refs == 0 && NoneAbove(key, cur)
               && OnTheWay(key, cur) && cur <= key
      requires c in tree && tree[c].parent == cur
      ensures NoneAbove(key, c)
    {
      forall k | k in tree && k <= key && tree[k].refs > 0 ensures |k| > |cur| {
        var p := tree[cur].parent;
        assert S.NodeOk(tree, cur);
        assert k == key[..|k|] && p == key[..|p|] && cur == key[..|cur|];
        if |p| < |k| < |cur| {
          assert k[..|p|] == p && k[|p|] == key[|p|];
          S.NothingInside(tree, cur, k);
        }
      }
    }

    // ------------------------------------------------------------ add

    /** Stores `data` for the current node, at a new address if need be, and updates the pointer to it. */
    method StoreResized(edge: nat, current: Ptr, parent: Ptr, to: Ptr, data: seq<Byte>, isRoot: bool, ghost k: Key)
      requires Stored(mem, tree, addr, owner, w) && root == addr[[]] && Linked(tree, edge, k)
      requires current == addr[k] && tree[k].parent in addr && parent == addr[tree[k].parent]
      requires isRoot == (k == []) && FreshOrSame(mem, current, to, w)
      modifies this`mem, this`root
      ensures mem == Resized(old(mem), tree, addr, edge, k, to, data)
      ensures root == addr[k := to][[]]
    {
      if isRoot {
        mem := (mem - {current})[to := data];
        root := to;
      } else {
        assert Holds(mem, tree, addr, w, tree[k].parent) && S.NodeOk(tree, k);
        var parentData := SetNodeAt(mem[parent], edge, to, w, BlockOf(tree, addr, tree[k].parent));
        mem := (mem - {current})[to := data][parent := parentData];
      }
    }

    /** A leaf for the rest of the key is hung below the current node, whose block may move. */
    method HangLeaf(key: Key, i: nat, edge: nat, current: Ptr, parent: Ptr, leaf: Ptr, to: Ptr, ghost cur: Key)
      requires CanHang(mem, tree, addr, owner, w, cur, key, leaf) && root == addr[[]] && i == |cur|
      requires Linked(tree, edge, cur) && current == addr[cur] && tree[cur].parent in addr
               && parent == addr[tree[cur].parent]
      requires FreshOrSame(mem, current, to, w) && to != leaf
      modifies this`mem, this`root
      ensures mem
              == LeafMemory(MoveMemory(old(mem), tree, addr, edge, cur, to), tree, addr[cur := to], cur, key, leaf,
                            false)
      ensures root == addr[cur := to][[]]
    {
      ghost var b := BlockOf(tree, addr, cur);
      assert Holds(mem, tree, addr, w, cur) && S.NodeOk(tree, cur);
      FewEdges(tree, cur);
      var keyNode := NewNode(1, key[i..], [], [], w, []);
      var data := AppendEdge(mem[current], key[i], leaf, w, b);
      Reads(WithEdge(b, key[i], leaf, false), w);
      HangMemory(mem, tree, addr, owner, w, edge, cur, key, leaf, to, data);
      StoreResized(edge, current, parent, to, data, PrefixLength(data) == 0, cur);
      mem := mem[leaf := keyNode];
    }

    /** The node `split_node`: what is left of the current node behind the first `j` bytes of its prefix. */
    method RestOfNode(current: Ptr, j: nat, ghost cur: Key) returns (d: seq<Byte>)
      requires Stored(mem, tree, addr, owner, w) && cur in tree && current == addr[cur]
      requires |tree[cur].parent| + j <= |cur|
      ensures d == Layout(BlockOf(tree, addr, cur).(prefix := cur[|tree[cur].parent| + j..]))
    {
      ghost var b := BlockOf(tree, addr, cur);
      assert Holds(mem, tree, addr, w, cur);
      Reads(b, w);
      Parts(b.refs, b.prefix, b.bytes, Flat(b.ptrs));
      var c := mem[current];
      assert c[12 + j..FirstBytes(c)] == c[12..FirstBytes(c)][j..];
      assert b.prefix[j..] == cur[|tree[cur].parent| + j..];
      d := NewNode(Refcount(c), c[12 + j..FirstBytes(c)], c[FirstBytes(c)..NodePtrs(c)], c[NodePtrs(c)..], w, b.ptrs);
    }

    /** The current node cut down to the first `j` bytes of its prefix, with one edge to the rest of it. */
    method CutExact(current: Ptr, j: nat, rest: Ptr, ghost cur: Key, ghost mid: Key) returns (data: seq<Byte>)
      requires Stored(mem, tree, addr, owner, w) && cur in tree && current == addr[cur] && |rest| == w
      requires S.Below(mid, tree[cur].parent) && S.Below(cur, mid) && |mid| == |tree[cur].parent| + j
      ensures data == Layout(Block(1, mid[|tree[cur].parent|..], [cur[|mid|]], [rest]))
    {
      ghost var b := BlockOf(tree, addr, cur);
      var firstByte := ByteBehind(current, j, cur, mid);
      assert Holds(mem, tree, addr, w, cur);
      ghost var p: Key := b.prefix[..j];
      ghost var bytes: seq<Byte>, ptrs: seq<Ptr>;
      data, bytes, ptrs := Shrink(mem[current], j, 1, w, b);
      data := SetEdgeAt(data, 0, firstByte, rest, w, Block(b.refs, p, bytes, ptrs));
      data := StoreRefcount(data, 1, w, Block(b.refs, p, [firstByte], [rest]));
    }

    /** The same with a second edge, for the new key, in front. */
    method CutForKey(current: Ptr, j: nat, c: Byte, leaf: Ptr, rest: Ptr, ghost cur: Key, ghost mid: Key)
      returns (data: seq<Byte>)
      requires Stored(mem, tree, addr, owner, w) && cur in tree && current == addr[cur] && |rest| == w && |leaf| == w
      requires S.Below(mid, tree[cur].parent) && S.Below(cur, mid) && |mid| == |tree[cur].parent| + j
      ensures data == Layout(Block(0, mid[|tree[cur].parent|..], [c, cur[|mid|]], [leaf, rest]))
    {
      ghost var b := BlockOf(tree, addr, cur);
      var firstByte := ByteBehind(current, j, cur, mid);
      assert Holds(mem, tree, addr, w, cur);
      ghost var p: Key := b.prefix[..j];
      ghost var bytes: seq<Byte>, ptrs: seq<Ptr>;
      data, bytes, ptrs := Shrink(mem[current], j, 2, w, b);
      data := StoreRefcount(data, 0, w, Block(b.refs, p, bytes, ptrs));
      data := SetEdgeAt(data, 0, c, leaf, w, Block(0, p, bytes, ptrs));
      data := SetEdgeAt(data, 1, firstByte, rest, w, Block(0, p, bytes[0 := c], ptrs[0 := leaf]));
      assert bytes[0 := c][1 := firstByte] == [c, firstByte] && ptrs[0 := leaf][1 := rest] == [leaf, rest];
    }

    /** The first byte of the current node that is not part of `mid`. */
    method ByteBehind(current: Ptr, j: nat, ghost cur: Key, ghost mid: Key) returns (c: Byte)
      requires Stored(mem, tree, addr, owner, w) && cur in tree && current == addr[cur]
      requires S.Below(mid, tree[cur].parent) && S.Below(cur, mid) && |mid| == |tree[cur].parent| + j
      ensures c == cur[|mid|]
      ensures cur[|tree[cur].parent|..][..j] == mid[|tree[cur].parent|..]
    {
      ghost var b := BlockOf(tree, addr, cur);
      assert Holds(mem, tree, addr, w, cur);
      Parts(b.refs, b.prefix, b.bytes, Flat(b.ptrs));
      c := mem[current][12 + j];
      assert c == mem[current][12..12 + |b.prefix|][j];
      assert mid == cur[..|mid|];
    }

    /** All of the key matched, but only `j` bytes of the current node: the node is split in two. */
    method SplitExact(j: nat, edge: nat, current: Ptr, parent: Ptr, rest: Ptr, to: Ptr, ghost cur: Key, ghost key: Key)
      requires Stored(mem, tree, addr, owner, w) && root == addr[[]] && cur in tree && current == addr[cur]
      requires S.CanInterpose(tree, edge, cur, key) && Linked(tree, edge, cur) && |key| == |tree[cur].parent| + j
      requires tree[cur].parent in addr && parent == addr[tree[cur].parent]
      requires FreshOrSame(mem, current, to, w) && rest !in mem && rest != to && |rest| == w
      modifies this`mem, this`root
      ensures mem
              == InterposeMemory(MoveMemory(old(mem), tree, addr, edge, cur, to), tree, addr[cur := to], cur, key, 1,
                                 rest)
      ensures root == old(root)
    {
      var restNode := RestOfNode(current, j, cur);
      var data := CutExact(current, j, rest, cur, key);
      InterposeMoved(mem, tree, addr, owner, w, edge, cur, key, 1, to, rest, data);
      ghost var m :=
        InterposeMemory(MoveMemory(mem, tree, addr, edge, cur, to), tree, addr[cur := to], cur, key, 1, rest);
      assert Resized(mem, tree, addr, edge, cur, to, data)[rest := restNode] == m;
      StoreResized(edge, current, parent, to, data, false, cur);
      mem := mem[rest := restNode];
    }

    /** The key and the current node part after `j` bytes: both get a node below the common part. */
    method SplitNode(key: Key, i: nat, j: nat, edge: nat, current: Ptr, parent: Ptr, leaf: Ptr, rest: Ptr, to: Ptr,
                     ghost cur: Key, ghost mid: Key)
      requires Stored(mem, tree, addr, owner, w) && root == addr[[]] && cur in tree && current == addr[cur]
      requires S.CanInterpose(tree, edge, cur, mid) && Linked(tree, edge, cur) && mid !in tree
      requires i == |mid| == |tree[cur].parent| + j && S.Below(key, mid) && |key| < TwoTo32
      requires tree[cur].parent in addr && parent == addr[tree[cur].parent]
      requires FreshOrSame(mem, current, to, w) && rest !in mem && rest != to && |rest| == w
      requires leaf !in mem && leaf != to && leaf != rest && |leaf| == w
      modifies this`mem, this`root
      ensures mem == SplitMemory(old(mem), tree, addr, edge, cur, mid, key, to, rest, leaf)
      ensures root == old(root)
    {
      var keyNode, restNode, data := SplitBlocks(key, i, j, current, leaf, rest, cur, mid);
      StoreResized(edge, current, parent, to, data, false, cur);
      mem := mem[rest := restNode][leaf := keyNode];
    }

    method SplitBlocks(key: Key, i: nat, j: nat, current: Ptr, leaf: Ptr, rest: Ptr, ghost cur: Key, ghost mid: Key)
      returns (keyNode: seq<Byte>, restNode: seq<Byte>, data: seq<Byte>)
      requires Stored(mem, tree, addr, owner, w) && cur in tree && current == addr[cur] && |rest| == w && |leaf| == w
      requires S.Below(mid, tree[cur].parent) && S.Below(cur, mid) && i == |mid| == |tree[cur].parent| + j
      requires S.Below(key, mid) && |key| < TwoTo32
      ensures keyNode == Layout(Block(1, key[|mid|..], [], []))
      ensures restNode == Layout(BlockOf(tree, addr, cur).(prefix := cur[|mid|..]))
      ensures data == Layout(Block(0, mid[|tree[cur].parent|..], [key[|mid|], cur[|mid|]], [leaf, rest]))
    {
      keyNode := NewNode(1, key[i..], [], [], w, []);
      restNode := RestOfNode(current, j, cur);
      data := CutForKey(current, j, key[i], leaf, rest, cur, mid);
    }

    /** Records the tree that now lies in memory. */
    ghost method Adopt(m: Memory, t: S.Tree, a: map<Key, Ptr>, o: map<Ptr, Key>, keys: multiset<Key>)
      requires Sound(m, t, a, o, keys, w) && mem == m && root == a[[]] && size == |keys|
      modifies this`tree, this`addr, this`owner, this`contents
      ensures Ok() && contents == keys
    {
      tree, addr, owner, contents := t, a, o, keys;
    }

    method AddHang(key: Key, i: nat, edge: nat, current: Ptr, parent: Ptr, leaf: Ptr, to: Ptr, ghost cur: Key)
      requires CanHang(mem, tree, addr, owner, w, cur, key, leaf) && Stands(tree, contents)
      requires root == addr[[]] && size == |contents| && i == |cur| && Linked(tree, edge, cur) && current == addr[cur]
      requires tree[cur].parent in addr && parent == addr[tree[cur].parent]
      requires FreshOrSame(mem, current, to, w) && to != leaf
      modifies this
      ensures Ok() && contents == old(contents) + multiset{key}
    {
      ghost var t, a, o := HangPlan(edge, leaf, to, cur, key);
      ghost var m :=
        LeafMemory(MoveMemory(mem, tree, addr, edge, cur, to), tree, addr[cur := to], cur, key, leaf, false);
      ghost var keys := contents + multiset{key};
      HangLeaf(key, i, edge, current, parent, leaf, to, cur);
      size := size + 1;
      Adopt(m, t, a, o, keys);
    }

    /** What they will be when a leaf for `key` has been hung below `cur`. */
    lemma HangPlan(edge: nat, leaf: Ptr, to: Ptr, cur: Key, key: Key)
      returns (t: S.Tree, a: map<Key, Ptr>, o: map<Ptr, Key>)
      requires Ok() && CanHang(mem, tree, addr, owner, w, cur, key, leaf) && Linked(tree, edge, cur)
      requires tree[cur].parent in addr && FreshOrSame(mem, addr[cur], to, w) && to != leaf && key != []
      ensures Sound(LeafMemory(MoveMemory(mem, tree, addr, edge, cur, to), tree, addr[cur := to], cur, key, leaf,
                               false),
                    t, a, o, contents + multiset{key}, w)
      ensures addr[cur := to][[]] == a[[]]
    {
      HangSound(mem, tree, addr, owner, contents, w, edge, cur, key, leaf, to);
      t := S.AddLeaf(tree, cur, key, false);
      a, o := addr[cur := to][key := leaf], (owner - {addr[cur]})[to := cur][leaf := key];
    }

    method AddExact(j: nat, edge: nat, current: Ptr, parent: Ptr, rest: Ptr, to: Ptr, ghost cur: Key, ghost key: Key)
      requires Ok() && cur in tree && current == addr[cur] && |key| < TwoTo32
      requires S.CanInterpose(tree, edge, cur, key) && Linked(tree, edge, cur) && |key| == |tree[cur].parent| + j
      requires tree[cur].parent in addr && parent == addr[tree[cur].parent] && tree[cur].parent != cur
      requires FreshOrSame(mem, current, to, w) && rest !in mem && rest != to && |rest| == w
      modifies this
      ensures Ok() && contents == old(contents) + multiset{key}
    {
      ghost var t, a, o := ExactPlan(edge, rest, to, cur, key);
      ghost var m :=
        InterposeMemory(MoveMemory(mem, tree, addr, edge, cur, to), tree, addr[cur := to], cur, key, 1, rest);
      ghost var keys := contents + multiset{key};
      SplitExact(j, edge, current, parent, rest, to, cur, key);
      size := size + 1;
      Adopt(m, t, a, o, keys);
    }

    /** What they will be when the node of `cur` has been cut at the end of `key`. */
    lemma ExactPlan(edge: nat, rest: Ptr, to: Ptr, cur: Key, key: Key)
      returns (t: S.Tree, a: map<Key, Ptr>, o: map<Ptr, Key>)
      requires Ok() && cur in tree && |key| < TwoTo32
      requires S.CanInterpose(tree, edge, cur, key) && Linked(tree, edge, cur)
      requires tree[cur].parent in addr && tree[cur].parent != cur
      requires FreshOrSame(mem, addr[cur], to, w) && rest !in mem && rest != to && |rest| == w
      ensures Sound(InterposeMemory(MoveMemory(mem, tree, addr, edge, cur, to), tree, addr[cur := to], cur, key, 1,
                                    rest),
                    t, a, o, contents + multiset{key}, w)
      ensures root == a[[]]
    {
      ExactSound(mem, tree, addr, owner, contents, w, edge, cur, key, to, rest);
      t, a := S.Interpose(tree, edge, cur, key, 1), SplitAddr(addr, cur, key, to, rest);
      o := (owner - {addr[cur]})[to := cur][to := key][rest := cur];
    }

    method AddSplit(key: Key, i: nat, j: nat, edge: nat, current: Ptr, parent: Ptr, leaf: Ptr, rest: Ptr, to: Ptr,
                    ghost cur: Key, ghost mid: Key)
      requires Ok() && cur in tree && current == addr[cur] && |key| < TwoTo32
      requires S.CanInterpose(tree, edge, cur, mid) && Linked(tree, edge, cur)
      requires i == |mid| == |tree[cur].parent| + j && S.Below(key, mid) && key[|mid|] != cur[|mid|]
      requires tree[cur].parent in addr && parent == addr[tree[cur].parent] && tree[cur].parent != cur
      requires FreshOrSame(mem, current, to, w) && rest !in mem && rest != to && |rest| == w
      requires leaf !in mem && leaf != to && leaf != rest && |leaf| == w
      modifies this
      ensures Ok() && contents == old(contents) + multiset{key}
    {
      ghost var t, a, o := SplitPlan(edge, leaf, rest, to, cur, mid, key);
      ghost var m := SplitMemory(mem, tree, addr, edge, cur, mid, key, to, rest, leaf);
      ghost var keys := contents + multiset{key};
      SplitNode(key, i, j, edge, current, parent, leaf, rest, to, cur, mid);
      size := size + 1;
      Adopt(m, t, a, o, keys);
    }

    /** What they will be when the node of `cur` has been split at `mid` and `key` has got a leaf there. */
    lemma SplitPlan(edge: nat, leaf: Ptr, rest: Ptr, to: Ptr, cur: Key, mid: Key, key: Key)
      returns (t: S.Tree, a: map<Key, Ptr>, o: map<Ptr, Key>)
      requires Ok() && cur in tree && |key| < TwoTo32
      requires S.CanInterpose(tree, edge, cur, mid) && Linked(tree, edge, cur)
      requires S.Below(key, mid) && key[|mid|] != cur[|mid|]
      requires tree[cur].parent in addr && tree[cur].parent != cur
      requires FreshOrSame(mem, addr[cur], to, w) && rest !in mem && rest != to && |rest| == w
      requires leaf !in mem && leaf != to && leaf != rest && |leaf| == w
      ensures Sound(SplitMemory(mem, tree, addr, edge, cur, mid, key, to, rest, leaf), t, a, o,
                    contents + multiset{key}, w)
      ensures root == a[[]] && mid !in tree
    {
      SplitSound(mem, tree, addr, owner, contents, w, edge, cur, mid, key, to, rest, leaf);
      t, a := S.Split(tree, edge, cur, mid, key), SplitAddr(addr, cur, mid, to, rest)[key := leaf];
      o := (owner - {addr[cur]})[to := cur][to := mid][rest := cur][leaf := key];
    }

    /** The count goes up by one, and to 0 when it does not fit into its field any more. */
    method AddCopy(current: Ptr, ghost key: Key) returns (isNew: bool)
      requires Ok() && key in tree && current == addr[key]
      modifies this
      ensures contents == old(contents) + multiset{key} && isNew == (old(contents)[key] == 0)
      ensures Stored(mem, tree, addr, owner, w)
      ensures old(contents)[key] + 1 < TwoTo32 ==> Ok()
      ensures old(contents)[key] + 1 >= TwoTo32 ==> S.Count(tree, key) == 0
    {
      ghost var m, t := CopyPlan(key);
      ghost var a, o, keys, fits := addr, owner, contents + multiset{key}, contents[key] + 1 < TwoTo32;
      var data;
      data, isNew := Counted(current, key);
      assert m == mem[current := data];
      mem, size := mem[current := data], size + 1;
      Record(m, t, a, o, keys, key, fits);
    }

    /** What memory and tree will be with one more copy of `key`. */
    lemma CopyPlan(key: Key) returns (m: Memory, t: S.Tree)
      requires Ok() && key in tree
      ensures |tree[key].parent| <= |key| && contents[key] == tree[key].refs
      ensures m == mem[addr[key] := Layout(BlockOf(tree, addr, key).(refs := Increased(tree[key].refs)))]
      ensures Stored(m, t, addr, owner, w)
      ensures if contents[key] + 1 < TwoTo32 then Stands(t, contents + multiset{key}) else S.Count(t, key) == 0
    {
      CountIs(key);
      HeaderOf(key);
      t := S.SetRefs(tree, key, Increased(tree[key].refs));
      m := mem[addr[key] := Layout(BlockOf(tree, addr, key).(refs := Increased(tree[key].refs)))];
      CopyCounted(mem, tree, addr, owner, contents, w, key);
    }

    lemma CountIs(key: Key)
      requires Ok() && key in tree
      ensures contents[key] == tree[key].refs
    {
      assert contents[key] == S.Count(tree, key);
    }

    /** Records what lies in memory and what was added, which may not agree. */
    ghost method Record(m: Memory, t: S.Tree, a: map<Key, Ptr>, o: map<Ptr, Key>, keys: multiset<Key>, key: Key,
                        fits: bool)
      requires Stored(m, t, a, o, w) && mem == m && addr == a && owner == o && root == a[[]] && size == |keys|
      requires fits ==> Stands(t, keys)
      requires !fits ==> S.Count(t, key) == 0
      modifies this`tree, this`contents
      ensures contents == keys && Stored(mem, tree, addr, owner, w)
      ensures fits ==> Ok()
      ensures !fits ==> S.Count(tree, key) == 0
    {
      tree, contents := t, keys;
    }

    lemma Lost(key: Key)
      requires contents[key] > 0 && S.Count(tree, key) == 0
      ensures !Ok()
    {
      assert contents[key] != S.Count(tree, key);
    }

    /** The current node with one more reference. */
    method Counted(current: Ptr, ghost key: Key) returns (data: seq<Byte>, isNew: bool)
      requires Stored(mem, tree, addr, owner, w) && key in tree && current == addr[key]
      ensures |tree[key].parent| <= |key| && tree[key].refs < TwoTo32
      ensures data == Layout(BlockOf(tree, addr, key).(refs := Increased(tree[key].refs)))
      ensures isNew == (tree[key].refs == 0)
    {
      HeaderOf(key);
      assert Holds(mem, tree, addr, w, key);
      var n := Refcount(mem[current]);
      data := StoreRefcount(mem[current], n + 1, w, BlockOf(tree, addr, key));
      IncreasedWraps(n);
      isNew := (n + 1) % TwoTo32 == 1;
    }

    /**
     Adds one copy of `key`. `leaf` and `rest` are what `malloc` would return; `realloc` of the current
     node leaves the block in place or moves it to `moved`. The tree stands for its contents afterwards
     if and only if the number of copies fits into 32 bits; otherwise the key is lost.
     */
    method Add(key: Key, leaf: Ptr, rest: Ptr, moved: Ptr, inPlace: bool) returns (isNew: bool)
      requires Ok() && |key| < TwoTo32
      requires |leaf| == w && |rest| == w && |moved| == w && leaf !in mem && rest !in mem && moved !in mem
      requires leaf != rest && leaf != moved && rest != moved
      modifies this
      ensures Ok() <==> old(contents)[key] + 1 < TwoTo32
      ensures contents == old(contents) + multiset{key} && isNew == (key !in old(contents))
      ensures !Ok() ==> Stored(mem, tree, addr, owner, w) && S.Count(tree, key) == 0
    {
      var i, j, edge, gpEdge, current, parent, grandparent;
      ghost var cur;
      i, j, edge, gpEdge, current, parent, grandparent, cur := Match(key, false);
      var to := if inPlace then current else moved;
      HeaderOf(cur);
      StoppedAt(tree, key, cur, i, j);
      FoundLinked(tree, edge, cur);
      if i != |key| {
        isNew := true;
        if i == 0 || j == PrefixLength(mem[current]) {
          FoundHang(tree, key, cur, i, j);
          AddHang(key, i, edge, current, parent, leaf, to, cur);
        } else {
          FoundSplit(tree, edge, key, cur, i, j);
          AddSplit(key, i, j, edge, current, parent, leaf, rest, to, cur, key[..i]);
        }
      } else if j != PrefixLength(mem[current]) {
        isNew := true;
        FoundSplit(tree, edge, key, cur, i, j);
        assert key[..i] == key;
        AddExact(j, edge, current, parent, rest, to, cur, key);
      } else {
        isNew := AddCopy(current, key);
        if S.Count(tree, key) == 0 { Lost(key); }
      }
    }

    /** Whether some stored key is a prefix of `key`. */
    method Check(key: Key) returns (found: bool)
      requires Ok()
      ensures found <==> exists k :: k in contents && k <= key
    {
      HeaderOf([]);
      if Refcount(mem[root]) > 0 {
        assert [] in contents && [] <= key;
        return true;
      }
      var i, j, edge, gpEdge, current, parent, grandparent;
      ghost var cur;
      i, j, edge, gpEdge, current, parent, grandparent, cur := Match(key, true);
      HeaderOf(cur);
      found := i == |key| && j == PrefixLength(mem[current]) && Refcount(mem[current]) > 0;
      if found {
        FoundIsPrefix(key, cur, i, j);
        assert cur in contents;
      } else {
        forall k | k in contents ensures !(k <= key) {
          NotFound(key, cur, i, j, k);
        }
      }
    }

    lemma FoundIsPrefix(key: Key, cur: Key, i: nat, j: nat)
      requires cur in tree && (Stopped(tree, key, cur, i, j) || Found(key, cur, i, j))
      requires i == |key| && |tree[cur].parent| + j == |cur|
      ensures cur <= key
    {
      if Stopped(tree, key, cur, i, j) { assert cur == cur[..i] && key == key[..i]; }
    }

    lemma NotFound(key: Key, cur: Key, i: nat, j: nat, k: Key)
      requires Stored(mem, tree, addr, owner, w) && cur in tree && Stopped(tree, key, cur, i, j)
      requires NoneAbove(key, cur) && (tree[cur].refs > 0 ==> !(cur <= key)) && k in tree && tree[k].refs > 0
      ensures !(k <= key)
    {
      if k <= key {
        var p := tree[cur].parent;
        assert S.NodeOk(tree, cur) && k == key[..|k|];
        assert k != cur && |k| > |p|;
        if cur <= k {
          assert S.Below(k, cur);
          var c := S.WayDown(tree, cur, k);
          assert false;
        } else {
          assert cur != [];
          assert key[|p|] == key[..i][|p|] == cur[|p|];
          assert p == cur[..i][..|p|] == key[..|p|] == k[..|p|];
          S.NothingInside(tree, cur, k);
        }
      }
    }

    // ------------------------------------------------------------ rm

    /** The blocks of `k` and of its child `c` put together. */
    method Joined(current: Ptr, child: Ptr, ghost k: Key, ghost c: Key) returns (data: seq<Byte>)
      requires Stored(mem, tree, addr, owner, w) && k in tree && c in tree && current == addr[k] && child == addr[c]
      requires tree[c].parent == k && S.Below(c, k) && |c| < TwoTo32 && |tree[k].parent| <= |k|
      ensures data == Layout(BlockOf(tree, addr, c).(prefix := c[|tree[k].parent|..]))
    {
      assert S.NodeOk(tree, k) && Holds(mem, tree, addr, w, k) && Holds(mem, tree, addr, w, c);
      ghost var p := tree[k].parent;
      assert k[|p|..] + c[|k|..] == c[|p|..] by { assert c[..|k|] == k; }
      data := Absorb(mem[current], mem[child], w, BlockOf(tree, addr, k), BlockOf(tree, addr, c));
    }

    /** The pointer of edge `e` of node `k`. */
    method Child(at: Ptr, e: nat, ghost k: Key) returns (p: Ptr)
      requires Stored(mem, tree, addr, owner, w) && k in tree && at == addr[k] && e < |tree[k].kids|
      ensures tree[k].kids[e] in tree && p == addr[tree[k].kids[e]]
    {
      assert Holds(mem, tree, addr, w, k) && S.NodeOk(tree, k) && tree[k].kids[e] in tree[k].kids;
      p := NodeAt(mem[at], e, w, BlockOf(tree, addr, k));
    }

    /** The current node, which holds no key any more, is merged with its only child. */
    method AbsorbChild(edge: nat, current: Ptr, parent: Ptr, to: Ptr, ghost key: Key)
      requires Stored(mem, tree, addr, owner, w) && root == addr[[]] && key != [] && Linked(tree, edge, key)
      requires current == addr[key] && tree[key].parent in addr && parent == addr[tree[key].parent]
      requires |tree[key].kids| == 1 && FreshOrSame(mem, current, to, w)
      requires var c := tree[key].kids[0]; c in tree && tree[c].parent == key && S.Below(c, key) && |c| < TwoTo32
      requires |tree[key].parent| <= |key|
      modifies this`mem, this`root
      ensures mem == AbsorbMemory(old(mem), tree, addr, edge, key, tree[key].kids[0], to)
      ensures root == old(root)
    {
      var child := Child(current, 0, key);
      var data := Joined(current, child, key, tree[key].kids[0]);
      StoreResized(edge, current, parent, to, data, false, key);
      mem := mem - {child};
    }

    /** The parent of the current leaf takes in its other child; both children go. */
    method CollapseParent(edge: nat, gpEdge: nat, current: Ptr, parent: Ptr, grandparent: Ptr, to: Ptr,
                          ghost key: Key, ghost o: Key)
      requires CanCollapse(mem, tree, addr, owner, w, edge, gpEdge, key, o) && root == addr[[]] && |o| < TwoTo32
      requires current == addr[key] && parent == addr[tree[key].parent]
               && grandparent == addr[tree[tree[key].parent].parent]
      requires FreshOrSame(mem, parent, to, w)
      modifies this`mem, this`root
      ensures mem == CollapseMemory(old(mem), tree, addr, gpEdge, key, o, to)
      ensures root == old(root)
    {
      var other := Child(parent, 1 - edge, tree[key].parent);
      var data := Joined(parent, other, tree[key].parent, o);
      ghost var m := CollapseMemory(mem, tree, addr, gpEdge, key, o, to);
      assert Resized(mem, tree, addr, gpEdge, tree[key].parent, to, data) - {current} - {other} == m;
      StoreResized(gpEdge, parent, grandparent, to, data, false, tree[key].parent);
      mem := mem - {current} - {other};
    }

    /** The edge to the current leaf is deleted from its parent, whose block may move. */
    method Unhang(edge: nat, gpEdge: nat, current: Ptr, parent: Ptr, grandparent: Ptr, to: Ptr, ghost key: Key)
      requires Stored(mem, tree, addr, owner, w) && root == addr[[]] && S.EdgeTo(tree, edge, key)
      requires current == addr[key] && parent == addr[tree[key].parent]
      requires var p := tree[key].parent;
               Linked(tree, gpEdge, p) && tree[p].parent in addr && grandparent == addr[tree[p].parent]
               && |tree[p].parent| <= |p|
      requires FreshOrSame(mem, parent, to, w)
      modifies this`mem, this`root
      ensures mem == UnhangMemory(old(mem), tree, addr, edge, gpEdge, key, to)
      ensures root == addr[tree[key].parent := to][[]]
    {
      HeaderOf(tree[key].parent);
      var isRoot := PrefixLength(mem[parent]) == 0;
      var data := Pruned(edge, parent, tree[key].parent);
      ghost var m := UnhangMemory(mem, tree, addr, edge, gpEdge, key, to);
      assert Resized(mem, tree, addr, gpEdge, tree[key].parent, to, data) - {current} == m;
      StoreResized(gpEdge, parent, grandparent, to, data, isRoot, tree[key].parent);
      mem := mem - {current};
    }

    /** The block at `at` without edge `e`. */
    method Pruned(e: nat, at: Ptr, ghost p: Key) returns (data: seq<Byte>)
      requires Stored(mem, tree, addr, owner, w) && p in tree && at == addr[p] && e < |tree[p].kids|
      ensures |tree[p].parent| <= |p| && data == Layout(WithoutEdge(BlockOf(tree, addr, p), e))
    {
      assert Holds(mem, tree, addr, w, p) && S.NodeOk(tree, p);
      data := DeleteEdge(mem[at], e, w, BlockOf(tree, addr, p));
    }

    /** One reference less in the block of the current node. */
    method Release(current: Ptr, ghost key: Key) returns (left: nat)
      requires Stored(mem, tree, addr, owner, w) && key in tree && current == addr[key] && tree[key].refs > 0
      requires |tree[key].parent| <= |key|
      modifies this`mem
      ensures mem == DecMemory(old(mem), tree, addr, key) && left == tree[key].refs - 1 < TwoTo32
    {
      HeaderOf(key);
      RefsFit(key);
      left := Refcount(mem[current]) - 1;
      var data := Lowered(current, left, key);
      ghost var m := DecMemory(mem, tree, addr, key);
      assert mem[current := data] == m;
      mem := mem[current := data];
    }

    method Lowered(current: Ptr, n: nat, ghost key: Key) returns (data: seq<Byte>)
      requires Stored(mem, tree, addr, owner, w) && key in tree && current == addr[key] && n < TwoTo32
      requires |tree[key].parent| <= |key|
      ensures data == Layout(BlockOf(tree, addr, key).(refs := n))
    {
      assert Holds(mem, tree, addr, w, key);
      data := StoreRefcount(mem[current], n, w, BlockOf(tree, addr, key));
    }

    /** What memory and tree will be when the node of `key` has taken in its only child. */
    lemma AbsorbPlan(edge: nat, gpEdge: nat, to: Ptr, key: Key, t: S.Tree)
      returns (c: Key, a: map<Key, Ptr>, o: map<Ptr, Key>)
      requires S.CanRemove(t, edge, gpEdge, key) && t[key].refs == 1 && key != [] && |t[key].kids| == 1
      requires Stands(t, contents + multiset{key}) && tree == S.SetRefs(t, key, 0)
      requires Stored(mem, tree, addr, owner, w) && root == addr[[]] && FreshOrSame(mem, addr[key], to, w)
      ensures c == tree[key].kids[0] && c in tree && tree[c].parent == key && S.Below(c, key) && |c| < TwoTo32
      ensures c in addr && tree[key].parent in addr && |tree[key].parent| <= |key| && Linked(tree, edge, key)
      ensures Sound(AbsorbMemory(mem, tree, addr, edge, key, c, to), S.Remove(t, edge, gpEdge, key), a, o, contents, w)
      ensures root == a[[]]
    {
      AbsorbSound(mem, t, addr, owner, contents + multiset{key}, w, edge, gpEdge, key, to);
      assert contents + multiset{key} - multiset{key} == contents;
      c := t[key].kids[0];
      ChildFacts(key, c);
      a, o := (addr - {key})[c := to], ((owner - {addr[key]})[to := key] - {addr[c]})[to := c];
    }

    method RmAbsorb(edge: nat, current: Ptr, parent: Ptr, to: Ptr, ghost gpEdge: nat, ghost key: Key, ghost t: S.Tree)
      requires S.CanRemove(t, edge, gpEdge, key) && t[key].refs == 1 && key != [] && |t[key].kids| == 1
      requires Stands(t, contents + multiset{key}) && tree == S.SetRefs(t, key, 0)
      requires Stored(mem, tree, addr, owner, w) && root == addr[[]] && size == |contents|
      requires current == addr[key] && tree[key].parent in addr && parent == addr[tree[key].parent]
      requires FreshOrSame(mem, current, to, w)
      modifies this
      ensures Ok() && contents == old(contents)
    {
      ghost var c, a, o := AbsorbPlan(edge, gpEdge, to, key, t);
      ghost var m := AbsorbMemory(mem, tree, addr, edge, key, c, to);
      AbsorbChild(edge, current, parent, to, key);
      Adopt(m, S.Remove(t, edge, gpEdge, key), a, o, contents);
    }

    lemma ChildFacts(k: Key, c: Key)
      requires S.WellFormed(tree) && k in tree && c in tree[k].kids
      ensures c in tree && tree[c].parent == k && S.Below(c, k) && |tree[k].parent| <= |k|
    {
      assert S.NodeOk(tree, k);
    }

    /** What they will be when the parent of `key` has taken in its other child. */
    lemma CollapsePlan(edge: nat, gpEdge: nat, to: Ptr, key: Key, t: S.Tree)
      returns (other: Key, a: map<Key, Ptr>, o: map<Ptr, Key>)
      requires S.CanRemove(t, edge, gpEdge, key) && t[key].refs == 1 && key != [] && t[key].kids == []
      requires var p := t[key].parent; p in t && |t[p].kids| == 2 && t[p].refs == 0 && p != [] && edge < 2
      requires Stands(t, contents + multiset{key}) && tree == S.SetRefs(t, key, 0)
      requires Stored(mem, tree, addr, owner, w) && root == addr[[]]
      requires t[key].parent in addr && FreshOrSame(mem, addr[t[key].parent], to, w)
      ensures CanCollapse(mem, tree, addr, owner, w, edge, gpEdge, key, other) && |other| < TwoTo32
      ensures Sound(CollapseMemory(mem, tree, addr, gpEdge, key, other, to), S.Remove(t, edge, gpEdge, key), a, o,
                    contents, w)
      ensures root == a[[]]
    {
      CollapseSound(mem, t, addr, owner, contents + multiset{key}, w, edge, gpEdge, key, to);
      assert contents + multiset{key} - multiset{key} == contents;
      var p := t[key].parent;
      other := t[p].kids[1 - edge];
      assert other in t;
      a := (addr - {key} - {p})[other := to];
      o := ((owner - {addr[key]} - {addr[p]})[to := p] - {addr[other]})[to := other];
    }

    method RmCollapse(edge: nat, gpEdge: nat, current: Ptr, parent: Ptr, grandparent: Ptr, to: Ptr, ghost key: Key,
                      ghost t: S.Tree)
      requires S.CanRemove(t, edge, gpEdge, key) && t[key].refs == 1 && key != [] && t[key].kids == []
      requires var p := t[key].parent; p in t && |t[p].kids| == 2 && t[p].refs == 0 && p != [] && edge < 2
      requires Stands(t, contents + multiset{key}) && tree == S.SetRefs(t, key, 0)
      requires Stored(mem, tree, addr, owner, w) && root == addr[[]] && size == |contents|
      requires current == addr[key] && parent == addr[tree[key].parent]
      requires tree[tree[key].parent].parent in addr && grandparent == addr[tree[tree[key].parent].parent]
      requires FreshOrSame(mem, parent, to, w)
      modifies this
      ensures Ok() && contents == old(contents)
    {
      ghost var other, a, o := CollapsePlan(edge, gpEdge, to, key, t);
      ghost var m := CollapseMemory(mem, tree, addr, gpEdge, key, other, to);
      CollapseParent(edge, gpEdge, current, parent, grandparent, to, key, other);
      Adopt(m, S.Remove(t, edge, gpEdge, key), a, o, contents);
    }

    /** What they will be when the leaf of `key` has been taken off its parent. */
    lemma UnhangPlan(edge: nat, gpEdge: nat, to: Ptr, key: Key, t: S.Tree) returns (a: map<Key, Ptr>, o: map<Ptr, Key>)
      requires S.CanRemove(t, edge, gpEdge, key) && t[key].refs == 1 && key != [] && t[key].kids == []
      requires var p := t[key].parent; !(|t[p].kids| == 2 && t[p].refs == 0 && p != [])
      requires Stands(t, contents + multiset{key}) && tree == S.SetRefs(t, key, 0)
      requires Stored(mem, tree, addr, owner, w) && root == addr[[]]
      requires t[key].parent in addr && FreshOrSame(mem, addr[t[key].parent], to, w)
      ensures S.EdgeTo(tree, edge, key)
      ensures var p := tree[key].parent; Linked(tree, gpEdge, p) && tree[p].parent in addr && |tree[p].parent| <= |p|
      ensures Sound(UnhangMemory(mem, tree, addr, edge, gpEdge, key, to), S.Remove(t, edge, gpEdge, key), a, o,
                    contents, w)
      ensures a == addr[t[key].parent := to] - {key} && key != []
    {
      UnhangSound(mem, t, addr, owner, contents + multiset{key}, w, edge, gpEdge, key, to);
      assert contents + multiset{key} - multiset{key} == contents;
      a, o := addr[t[key].parent := to] - {key}, (owner - {addr[t[key].parent]})[to := t[key].parent] - {addr[key]};
    }

    method RmUnhang(edge: nat, gpEdge: nat, current: Ptr, parent: Ptr, grandparent: Ptr, to: Ptr, ghost key: Key,
                    ghost t: S.Tree)
      requires S.CanRemove(t, edge, gpEdge, key) && t[key].refs == 1 && key != [] && t[key].kids == []
      requires var p := t[key].parent; !(|t[p].kids| == 2 && t[p].refs == 0 && p != [])
      requires Stands(t, contents + multiset{key}) && tree == S.SetRefs(t, key, 0)
      requires Stored(mem, tree, addr, owner, w) && root == addr[[]] && size == |contents|
      requires current == addr[key] && parent == addr[tree[key].parent]
      requires tree[tree[key].parent].parent in addr && grandparent == addr[tree[tree[key].parent].parent]
      requires FreshOrSame(mem, parent, to, w)
      modifies this
      ensures Ok() && contents == old(contents)
    {
      ghost var a, o := UnhangPlan(edge, gpEdge, to, key, t);
      ghost var m := UnhangMemory(mem, tree, addr, edge, gpEdge, key, to);
      Unhang(edge, gpEdge, current, parent, grandparent, to, key);
      Adopt(m, S.Remove(t, edge, gpEdge, key), a, o, contents);
    }

    /** What is left to do when the last copy of a key went and its node has at most one edge. */
    method RmNode(edge: nat, gpEdge: nat, current: Ptr, parent: Ptr, grandparent: Ptr, moved: Ptr, inPlace: bool,
                  ghost key: Key, ghost t: S.Tree)
      requires S.CanRemove(t, edge, gpEdge, key) && t[key].refs == 1 && key != [] && |t[key].kids| <= 1
      requires Stands(t, contents + multiset{key}) && tree == S.SetRefs(t, key, 0)
      requires Stored(mem, tree, addr, owner, w) && root == addr[[]] && size == |contents|
      requires At(key, edge, gpEdge, current, parent, grandparent) && |moved| == w && moved !in mem
      modifies this
      ensures Ok() && contents == old(contents)
    {
      HeaderOf(key);
      if EdgeCount(mem[current]) == 1 {
        RmAbsorb(edge, current, parent, if inPlace then current else moved, gpEdge, key, t);
        return;
      }
      ParentFacts(key, current, parent);
      HeaderOf(tree[key].parent);
      var to := if inPlace then parent else moved;
      if EdgeCount(mem[parent]) == 2 && Refcount(mem[parent]) == 0 && parent != root {
        assert edge < 2;
        RmCollapse(edge, gpEdge, current, parent, grandparent, to, key, t);
      } else {
        RmUnhang(edge, gpEdge, current, parent, grandparent, to, key, t);
      }
    }

    lemma ParentFacts(key: Key, current: Ptr, parent: Ptr)
      requires Stored(mem, tree, addr, owner, w) && root == addr[[]] && key in tree && key != []
      requires current == addr[key] && tree[key].parent in tree && parent == addr[tree[key].parent]
      ensures tree[key].parent != key && (parent == root <==> tree[key].parent == [])
    {
      assert S.NodeOk(tree, key);
    }

    /** Takes one copy of `key` out; `moved` is where `realloc` may put a block. True if it was the last copy. */
    method Rm(key: Key, moved: Ptr, inPlace: bool) returns (gone: bool)
      requires Ok() && |moved| == w && moved !in mem
      modifies this
      ensures Ok() && contents == old(contents) - multiset{key}
      ensures gone == (old(contents)[key] == 1)
    {
      var i, j, edge, gpEdge, current, parent, grandparent;
      ghost var cur;
      i, j, edge, gpEdge, current, parent, grandparent, cur := Match(key, false);
      HeaderOf(cur);
      StoppedAt(tree, key, cur, i, j);
      if i != |key| || j != PrefixLength(mem[current]) || Refcount(mem[current]) == 0 {
        assert contents[key] == 0;
        return false;
      }
      gone := RmFound(edge, gpEdge, current, parent, grandparent, moved, inPlace, key);
    }

    method RmFound(edge: nat, gpEdge: nat, current: Ptr, parent: Ptr, grandparent: Ptr, moved: Ptr, inPlace: bool,
                   ghost key: Key)
      returns (gone: bool)
      requires Ok() && |moved| == w && moved !in mem && key in tree && tree[key].refs > 0
      requires At(key, edge, gpEdge, current, parent, grandparent)
      modifies this
      ensures Ok() && contents == old(contents) - multiset{key}
      ensures gone == (old(contents)[key] == 1)
    {
      HeaderOf(key);
      RootFacts(key, current);
      var n, edges := Refcount(mem[current]), EdgeCount(mem[current]);
      if n > 1 || current == root || edges > 1 {
        RmCopy(current, key, edge, gpEdge);
        return n == 1;
      }
      RmLast(edge, gpEdge, current, parent, grandparent, moved, inPlace, key);
      return true;
    }

    /** Only the count changes. */
    method RmCopy(current: Ptr, ghost key: Key, ghost edge: nat, ghost gpEdge: nat)
      requires Ok() && S.CanRemove(tree, edge, gpEdge, key) && current == addr[key]
      requires tree[key].refs > 1 || key == [] || |tree[key].kids| > 1
      modifies this
      ensures Ok() && contents == old(contents) - multiset{key}
    {
      RefsFit(key);
      DecSound(mem, tree, addr, owner, contents, w, edge, gpEdge, key);
      ghost var m, t, a, o, keys :=
        DecMemory(mem, tree, addr, key), S.Remove(tree, edge, gpEdge, key), addr, owner, contents - multiset{key};
      var left := Release(current, key);
      size := size - 1;
      Adopt(m, t, a, o, keys);
    }

    /** The last copy goes, and its node with it. */
    method RmLast(edge: nat, gpEdge: nat, current: Ptr, parent: Ptr, grandparent: Ptr, moved: Ptr, inPlace: bool,
                  ghost key: Key)
      requires Ok() && key in tree && tree[key].refs == 1 && key != [] && |tree[key].kids| <= 1
      requires At(key, edge, gpEdge, current, parent, grandparent) && |moved| == w && moved !in mem
      modifies this
      ensures Ok() && contents == old(contents) - multiset{key}
    {
      ghost var t := tree;
      Uncount(current, key);
      StillAt(t, key, edge, gpEdge, current, parent, grandparent);
      RmNode(edge, gpEdge, current, parent, grandparent, moved, inPlace, key, t);
    }

    lemma StillAt(t: S.Tree, key: Key, edge: nat, gpEdge: nat, current: Ptr, parent: Ptr, grandparent: Ptr)
      requires key in t && tree == S.SetRefs(t, key, 0)
               && Cursors(t, addr, key, edge, gpEdge, current, parent, grandparent)
      ensures At(key, edge, gpEdge, current, parent, grandparent)
    {
    }

    /** Lowers the count of a node to 0. */
    method Uncount(current: Ptr, ghost key: Key)
      requires Ok() && key in tree && current == addr[key] && tree[key].refs == 1
      modifies this
      ensures tree == S.SetRefs(old(tree), key, 0) && Stored(mem, tree, addr, owner, w)
      ensures addr == old(addr) && owner == old(owner) && root == old(root) && mem.Keys == old(mem).Keys
      ensures Stands(old(tree), contents + multiset{key}) && contents == old(contents) - multiset{key}
              && size == |contents|
    {
      RefsFit(key);
      LastSound(mem, tree, addr, owner, contents, w, key);
      ghost var m, t, keys := DecMemory(mem, tree, addr, key), S.SetRefs(tree, key, 0), contents - multiset{key};
      assert Stored(m, t, addr, owner, w);
      var left := Release(current, key);
      size := size - 1;
      Forget(t, keys);
      assert mem == m;
    }

    /** Records that the node of a key holds no copy any more. */
    ghost method Forget(t: S.Tree, keys: multiset<Key>)
      modifies this`tree, this`contents
      ensures tree == t && contents == keys
    {
      tree, contents := t, keys;
    }

    lemma RootFacts(key: Key, current: Ptr)
      requires Stored(mem, tree, addr, owner, w) && root == addr[[]] && key in tree && current == addr[key]
      ensures current == root <==> key == []
    {
    }

    lemma RefsFit(key: Key)
      requires Stored(mem, tree, addr, owner, w) && key in tree
      ensures tree[key].refs < TwoTo32 && |tree[key].parent| <= |key|
    {
      assert Holds(mem, tree, addr, w, key);
    }

    // ------------------------------------------------------------ apply

    /** `visit_keys`: reports the keys at and below node `k`; `buffer` holds the key of its parent. */
    method VisitKeys(at: Ptr, buffer: Key, ghost k: Key, ghost m: nat) returns (keys: seq<Key>)
      requires Stored(mem, tree, addr, owner, w) && k in tree && at == addr[k] && buffer == tree[k].parent
      requires S.Bounded(tree, m)
      ensures keys == S.Visit(tree, k, m)
      decreases m - |k|, 1
    {
      HeaderOf(k);
      PrefixIs(at, k);
      var full := buffer + mem[at][12..FirstBytes(mem[at])];
      keys := if Refcount(mem[at]) > 0 then [full] else [];
      var i := 0;
      while i < EdgeCount(mem[at])
        invariant i <= |tree[k].kids|
        invariant keys + S.VisitKids(tree, k, m, i) == S.Visit(tree, k, m)
      {
        keys := VisitEdge(at, full, keys, i, k, m);
        i := i + 1;
      }
      assert keys + [] == keys;
    }

    /** One turn of the loop in `visit_keys`. */
    method VisitEdge(at: Ptr, full: Key, before: seq<Key>, i: nat, ghost k: Key, ghost m: nat) returns (keys: seq<Key>)
      requires Stored(mem, tree, addr, owner, w) && k in tree && at == addr[k] && full == k && i < |tree[k].kids|
      requires S.Bounded(tree, m)
      ensures keys + S.VisitKids(tree, k, m, i + 1) == before + S.VisitKids(tree, k, m, i)
      decreases m - |k|, 0
    {
      var child := Child(at, i, k);
      ChildFacts(k, tree[k].kids[i]);
      var more := VisitKeys(child, full, tree[k].kids[i], m);
      keys := before + more;
    }

    lemma PrefixIs(at: Ptr, k: Key)
      requires Stored(mem, tree, addr, owner, w) && k in tree && at == addr[k]
      ensures at in mem && HasHeader(mem[at]) && FirstBytes(mem[at]) <= |mem[at]|
      ensures tree[k].parent + mem[at][12..FirstBytes(mem[at])] == k
    {
      HeaderOf(k);
      assert S.NodeOk(tree, k) && Holds(mem, tree, addr, w, k);
      var b := BlockOf(tree, addr, k);
      Reads(b, w);
      Parts(b.refs, b.prefix, b.bytes, Flat(b.ptrs));
      assert k == k[..|tree[k].parent|] + k[|tree[k].parent|..];
    }

    /** Every stored key is reported once, however many copies there are. */
    method Apply() returns (keys: seq<Key>)
      requires Ok()
      ensures Distinct(keys) && forall k :: k in keys <==> k in contents
    {
      ghost var m := TwoTo32;
      assert S.NodeOk(tree, []);
      keys := VisitKeys(root, [], [], m);
      S.VisitExact(tree, [], m);
      forall k: Key ensures k in keys <==> k in contents {
        assert k in keys <==> S.Visited(tree, [], k);
      }
    }

    /** A tree that stores `n` different keys occupies at most `2 * n + 1` blocks. */
    lemma BlockBound()
      requires Ok()
      ensures |mem| <= 2 * |set k | k in contents| + 1
    {
      S.NodeBound(tree);
      var keys := set k | k in contents;
      assert keys == S.Holding(tree);
      SameSize();
    }

    lemma SameSize()
      requires Stored(mem, tree, addr, owner, w)
      ensures |mem| == |tree|
    {
      Bijection(tree.Keys, addr, mem.Keys, owner);
    }
  }

  lemma {:induction false} Bijection(a: set<Key>, f: map<Key, Ptr>, b: set<Ptr>, g: map<Ptr, Key>)
    requires forall k :: k in a ==> k in f && f[k] in b && f[k] in g && g[f[k]] == k
    requires forall p :: p in b ==> p in g && g[p] in a && g[p] in f && f[g[p]] == p
    ensures |a| == |b|
    decreases a
  {
    if a == {} {
      assert forall p :: p in b ==> g[p] in a;
    } else {
      var k :| k in a;
      Bijection(a - {k}, f, b - {f[k]}, g);
    }
  }
}
