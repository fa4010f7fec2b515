/**
 The memory block of one radix tree node: reference count, prefix length and edge count (four bytes
 each), then the prefix, the first byte of every edge, and the pointer of every edge. Blocks are
 edited in place with `realloc`, `memcpy` and `memmove`.
 */
module RadixBlock {
  import opened Bytes

  /** A pointer is the `w` bytes it is stored as. */
  type Ptr = seq<Byte>

  const TwoTo32 := 0x1_0000_0000

  /** What a block says. */
  datatype Block = Block(refs: nat, prefix: Key, bytes: seq<Byte>, ptrs: seq<Ptr>)

  // ---------------------------------------------------------------- 32-bit header fields

  /** `memcpy` from a `uint32_t`, after the cast to 32 bits; least significant byte first. */
  function PutU32(n: nat): (s: seq<Byte>)
    ensures |s| == 4
  {
    var n1 := n / 256;
    var n2 := n1 / 256;
    [n % 256, n1 % 256, n2 % 256, n2 / 256 % 256]
  }

  function GetU32(s: seq<Byte>): (n: nat)
    requires |s| == 4
    ensures n < TwoTo32
  {
    var b0: int, b1: int, b2: int, b3: int := s[0], s[1], s[2], s[3];
    b0 + 256 * b1 + 65536 * b2 + 16777216 * b3
  }

  lemma U32RoundTrip(n: nat)
    ensures GetU32(PutU32(n)) == n % TwoTo32
  {
    var n1 := n / 256;
    var n2 := n1 / 256;
    var n3 := n2 / 256;
    assert n == GetU32(PutU32(n)) + TwoTo32 * (n3 / 256);
  }

  lemma U32Exact(n: nat)
    requires n < TwoTo32
    ensures GetU32(PutU32(n)) == n
  {
    U32RoundTrip(n);
  }

  // ---------------------------------------------------------------- accessors

  predicate HasHeader(d: seq<Byte>) { |d| >= 12 }

  function Refcount(d: seq<Byte>): nat
    requires HasHeader(d)
  {
    GetU32(d[0..4])
  }

  function PrefixLength(d: seq<Byte>): nat
    requires HasHeader(d)
  {
    GetU32(d[4..8])
  }

  function EdgeCount(d: seq<Byte>): nat
    requires HasHeader(d)
  {
    GetU32(d[8..12])
  }

  /** Offset of the first bytes. */
  function FirstBytes(d: seq<Byte>): nat
    requires HasHeader(d)
  {
    12 + PrefixLength(d)
  }

  /** Offset of the pointers. */
  function NodePtrs(d: seq<Byte>): nat
    requires HasHeader(d)
  {
    12 + PrefixLength(d) + EdgeCount(d)
  }

  function BlockSize(prefixLength: nat, edges: nat, w: nat): nat {
    12 + prefixLength + edges * (1 + w)
  }

  /** Copies `s` over the bytes at `off`. */
  function Poke(d: seq<Byte>, off: nat, s: seq<Byte>): (r: seq<Byte>)
    requires off + |s| <= |d|
    ensures |r| == |d|
  {
    d[..off] + s + d[off + |s|..]
  }

  lemma PokeAt(d: seq<Byte>, off: nat, s: seq<Byte>)
    requires off + |s| <= |d|
    ensures var r := Poke(d, off, s);
            && (forall i :: 0 <= i < off ==> r[i] == d[i])
            && (forall i :: off <= i < off + |s| ==> r[i] == s[i - off])
            && (forall i :: off + |s| <= i < |d| ==> r[i] == d[i])
  {
  }

  lemma Spliced(front: seq<Byte>, s: seq<Byte>, back: seq<Byte>, t: seq<Byte>)
    requires |s| == |t|
    ensures Poke(front + s + back, |front|, t) == front + t + back
  {
    assert (front + s + back)[..|front|] == front;
    assert (front + s + back)[|front| + |s|..] == back;
  }

  // ---------------------------------------------------------------- blocks that say something

  predicate Fits(b: Block, w: nat) {
    && b.refs < TwoTo32 && |b.prefix| < TwoTo32 && |b.bytes| < TwoTo32
    && |b.ptrs| == |b.bytes| && forall i :: 0 <= i < |b.ptrs| ==> |b.ptrs[i]| == w
  }

  function Flat(ptrs: seq<Ptr>): seq<Byte> {
    if ptrs == [] then [] else Flat(ptrs[..|ptrs| - 1]) + ptrs[|ptrs| - 1]
  }

  function Head(refs: nat, prefixLength: nat, edges: nat): (h: seq<Byte>)
    ensures |h| == 12
  {
    PutU32(refs) + PutU32(prefixLength) + PutU32(edges)
  }

  /** The four areas of a block one after the other. */
  function Join(refs: nat, prefix: Key, bytes: seq<Byte>, flat: seq<Byte>): seq<Byte> {
    Head(refs, |prefix|, |bytes|) + prefix + bytes + flat
  }

  function Layout(b: Block): seq<Byte> {
    Join(b.refs, b.prefix, b.bytes, Flat(b.ptrs))
  }

  // pointer arrays

  lemma {:induction false} FlatLength(ptrs: seq<Ptr>, w: nat)
    requires forall i :: 0 <= i < |ptrs| ==> |ptrs[i]| == w
    ensures |Flat(ptrs)| == |ptrs| * w
  {
    if ptrs != [] {
      FlatLength(ptrs[..|ptrs| - 1], w);
      assert |ptrs| * w == (|ptrs| - 1) * w + w;
    }
  }

  lemma {:induction false} FlatConcat(s: seq<Ptr>, t: seq<Ptr>)
    ensures Flat(s + t) == Flat(s) + Flat(t)
  {
    if t == [] {
      assert s + t == s;
    } else {
      FlatConcat(s, t[..|t| - 1]);
      assert (s + t)[..|s + t| - 1] == s + t[..|t| - 1];
    }
  }

  lemma FlatOne(p: Ptr)
    ensures Flat([p]) == p
  {
    assert [p][..0] == [];
  }

  /** Pointer `i` occupies the bytes from `i * w`. */
  lemma FlatSplit(ptrs: seq<Ptr>, i: nat, w: nat)
    requires i < |ptrs| && forall j :: 0 <= j < |ptrs| ==> |ptrs[j]| == w
    ensures Flat(ptrs) == Flat(ptrs[..i]) + ptrs[i] + Flat(ptrs[i + 1..])
    ensures |Flat(ptrs[..i])| == i * w && i * w + w <= |Flat(ptrs)|
    ensures Flat(ptrs)[i * w..i * w + w] == ptrs[i]
  {
    assert ptrs == ptrs[..i] + ([ptrs[i]] + ptrs[i + 1..]);
    FlatConcat(ptrs[..i], [ptrs[i]] + ptrs[i + 1..]);
    FlatConcat([ptrs[i]], ptrs[i + 1..]);
    FlatOne(ptrs[i]);
    FlatLength(ptrs[..i], w);
  }

  lemma FlatUpdate(ptrs: seq<Ptr>, i: nat, p: Ptr, w: nat)
    requires i < |ptrs| && |p| == w && forall j :: 0 <= j < |ptrs| ==> |ptrs[j]| == w
    ensures i * w + w <= |Flat(ptrs)|
    ensures Flat(ptrs[i := p]) == Poke(Flat(ptrs), i * w, p)
  {
    FlatSplit(ptrs, i, w);
    FlatSplit(ptrs[i := p], i, w);
    assert ptrs[i := p][..i] == ptrs[..i] && ptrs[i := p][i + 1..] == ptrs[i + 1..];
    Spliced(Flat(ptrs[..i]), ptrs[i], Flat(ptrs[i + 1..]), p);
  }

  // taking a block apart and putting it together

  lemma Parts(refs: nat, prefix: Key, bytes: seq<Byte>, flat: seq<Byte>)
    ensures var d := Join(refs, prefix, bytes, flat);
            var x, y := 12 + |prefix|, 12 + |prefix| + |bytes|;
            && |d| == y + |flat|
            && d[..4] == PutU32(refs) && d[..12] == Head(refs, |prefix|, |bytes|)
            && d[12..x] == prefix && d[x..y] == bytes && d[y..] == flat
  {
  }

  lemma Reads(b: Block, w: nat)
    requires Fits(b, w)
    ensures var d := Layout(b);
            && HasHeader(d)
            && Refcount(d) == b.refs && PrefixLength(d) == |b.prefix| && EdgeCount(d) == |b.bytes|
            && FirstBytes(d) == 12 + |b.prefix| && NodePtrs(d) == 12 + |b.prefix| + |b.bytes|
  {
    Parts(b.refs, b.prefix, b.bytes, Flat(b.ptrs));
    HeadReads(Layout(b), b.refs, |b.prefix|, |b.bytes|);
  }

  lemma HeadReads(d: seq<Byte>, refs: nat, prefixLength: nat, edges: nat)
    requires |d| >= 12 && d[..12] == Head(refs, prefixLength, edges)
    requires refs < TwoTo32 && prefixLength < TwoTo32 && edges < TwoTo32
    ensures Refcount(d) == refs && PrefixLength(d) == prefixLength && EdgeCount(d) == edges
  {
    U32Exact(refs);
    U32Exact(prefixLength);
    U32Exact(edges);
    assert d[0..4] == d[..12][0..4] == PutU32(refs);
    assert d[4..8] == d[..12][4..8] == PutU32(prefixLength);
    assert d[8..12] == d[..12][8..12] == PutU32(edges);
  }

  lemma Assemble(d: seq<Byte>, refs: nat, prefix: Key, bytes: seq<Byte>, flat: seq<Byte>)
    requires 12 + |prefix| + |bytes| <= |d|
    requires d[..12] == Head(refs, |prefix|, |bytes|)
    requires d[12..12 + |prefix|] == prefix
    requires d[12 + |prefix|..12 + |prefix| + |bytes|] == bytes
    requires d[12 + |prefix| + |bytes|..] == flat
    ensures d == Join(refs, prefix, bytes, flat)
  {
    var x, y := 12 + |prefix|, 12 + |prefix| + |bytes|;
    assert d == d[..12] + d[12..x] + d[x..y] + d[y..];
  }

  /** The size `realloc` is asked for is the size of the four areas. */
  lemma SizeOf(prefixLength: nat, ptrs: seq<Ptr>, w: nat)
    requires forall i :: 0 <= i < |ptrs| ==> |ptrs[i]| == w
    ensures BlockSize(prefixLength, |ptrs|, w) == 12 + prefixLength + |ptrs| + |Flat(ptrs)|
  {
    FlatLength(ptrs, w);
    assert |ptrs| * (1 + w) == |ptrs| + |ptrs| * w;
  }

  // ---------------------------------------------------------------- memory primitives

  /** What lies beyond the old contents is unspecified. */
  method Realloc(d: seq<Byte>, size: nat) returns (r: seq<Byte>)
    ensures |r| == size
    ensures forall i :: 0 <= i < size && i < |d| ==> r[i] == d[i]
  {
    r := if size <= |d| then d[..size] else d + seq(size - |d|, _ => 0);
  }

  /** `resize`: keeps the reference count and as much of the rest as fits. */
  method Resize(d: seq<Byte>, prefixLength: nat, edges: nat, w: nat, ghost refs: nat) returns (r: seq<Byte>)
    requires |d| >= 12 && d[..4] == PutU32(refs)
    ensures |r| == BlockSize(prefixLength, edges, w) && r[..12] == Head(refs, prefixLength, edges)
    ensures forall i :: 12 <= i < |r| && i < |d| ==> r[i] == d[i]
  {
    var grown := Realloc(d, BlockSize(prefixLength, edges, w));
    r := Poke(grown, 4, PutU32(prefixLength));
    r := Poke(r, 8, PutU32(edges));
    assert r[..12] == r[0..4] + r[4..8] + r[8..12];
    assert r[0..4] == d[..4];
  }

  /** `make_node`: prefix, first bytes and pointers are still to be filled in. */
  method MakeNode(refs: nat, prefixLength: nat, edges: nat, w: nat) returns (r: seq<Byte>)
    ensures |r| == BlockSize(prefixLength, edges, w) && r[..12] == Head(refs, prefixLength, edges)
  {
    r := Realloc([], BlockSize(prefixLength, edges, w));
    r := Poke(r, 0, PutU32(refs));
    r := Poke(r, 4, PutU32(prefixLength));
    r := Poke(r, 8, PutU32(edges));
    assert r[..12] == r[0..4] + r[4..8] + r[8..12];
  }

  // ---------------------------------------------------------------- edits of one block

  /** A copy beyond offset `off` leaves what comes before alone. */
  lemma PokeTail(d: seq<Byte>, off: nat, k: nat, s: seq<Byte>)
    requires off + k + |s| <= |d|
    ensures Poke(d, off + k, s)[..off] == d[..off]
    ensures Poke(d, off + k, s)[off..] == Poke(d[off..], k, s)
  {
    var r, t := Poke(d, off + k, s)[off..], Poke(d[off..], k, s);
    assert |r| == |t|;
    forall i | 0 <= i < |r| ensures r[i] == t[i] {
      if k <= i < k + |s| { assert t[k + (i - k)] == s[i - k]; }
    }
  }

  /** Overwriting part of the pointer area. */
  lemma FlatPoked(refs: nat, prefix: Key, bytes: seq<Byte>, flat: seq<Byte>, k: nat, s: seq<Byte>)
    requires k + |s| <= |flat|
    ensures 12 + |prefix| + |bytes| + k + |s| <= |Join(refs, prefix, bytes, flat)|
    ensures Poke(Join(refs, prefix, bytes, flat), 12 + |prefix| + |bytes| + k, s)
         == Join(refs, prefix, bytes, Poke(flat, k, s))
  {
    var d, y := Join(refs, prefix, bytes, flat), 12 + |prefix| + |bytes|;
    Parts(refs, prefix, bytes, flat);
    PokeTail(d, y, k, s);
    var r := Poke(d, y + k, s);
    assert r == r[..y] + r[y..];
    assert d[..y] == Head(refs, |prefix|, |bytes|) + prefix + bytes;
  }

  method SetNodeAt(d: seq<Byte>, i: nat, ptr: Ptr, w: nat, ghost b: Block) returns (r: seq<Byte>)
    requires Fits(b, w) && d == Layout(b) && i < |b.ptrs| && |ptr| == w
    ensures r == Layout(b.(ptrs := b.ptrs[i := ptr]))
  {
    Reads(b, w);
    FlatUpdate(b.ptrs, i, ptr, w);
    FlatPoked(b.refs, b.prefix, b.bytes, Flat(b.ptrs), i * w, ptr);
    r := Poke(d, NodePtrs(d) + i * w, ptr);
  }

  /** Overwriting the reference count. */
  lemma CountPoked(refs: nat, prefix: Key, bytes: seq<Byte>, flat: seq<Byte>, n: nat)
    ensures |Join(refs, prefix, bytes, flat)| >= 4
    ensures Poke(Join(refs, prefix, bytes, flat), 0, PutU32(n)) == Join(n, prefix, bytes, flat)
  {
    var rest := PutU32(|prefix|) + PutU32(|bytes|) + prefix + bytes + flat;
    JoinStarts(refs, prefix, bytes, flat);
    JoinStarts(n, prefix, bytes, flat);
    assert (PutU32(refs) + rest)[4..] == rest;
  }

  lemma JoinStarts(refs: nat, prefix: Key, bytes: seq<Byte>, flat: seq<Byte>)
    ensures Join(refs, prefix, bytes, flat) == PutU32(refs)
            + (PutU32(|prefix|) + PutU32(|bytes|) + prefix + bytes + flat)
  {
    var c, l, e := PutU32(refs), PutU32(|prefix|), PutU32(|bytes|);
    assert c + l + e + prefix + bytes + flat == c + (l + e + prefix + bytes + flat);
  }

  /** Only the lowest 32 bits of the count are stored. */
  method StoreRefcount(d: seq<Byte>, n: nat, w: nat, ghost b: Block) returns (r: seq<Byte>)
    requires Fits(b, w) && d == Layout(b)
    ensures r == Layout(b.(refs := n % TwoTo32)) && (n < TwoTo32 ==> r == Layout(b.(refs := n)))
  {
    CountPoked(b.refs, b.prefix, b.bytes, Flat(b.ptrs), n);
    r := Poke(d, 0, PutU32(n));
    U32Wraps(n);
  }

  lemma U32Wraps(n: nat)
    ensures PutU32(n % TwoTo32) == PutU32(n)
  {
    U32RoundTrip(n);
    PutGot(PutU32(n));
  }

  /** Writing a field back does not change it. */
  lemma PutGot(s: seq<Byte>)
    requires |s| == 4
    ensures PutU32(GetU32(s)) == s
  {
    var b0: int, b1: int, b2: int, b3: int := s[0], s[1], s[2], s[3];
    var n := GetU32(s);
    assert n == b0 + 256 * (b1 + 256 * (b2 + 256 * b3));
    assert n / 256 == b1 + 256 * (b2 + 256 * b3) && n % 256 == b0;
    assert n / 256 / 256 == b2 + 256 * b3 && n / 256 % 256 == b1;
    assert n / 256 / 256 / 256 == b3 && n / 256 / 256 % 256 == b2;
  }

  method NodeAt(d: seq<Byte>, i: nat, w: nat, ghost b: Block) returns (p: Ptr)
    requires Fits(b, w) && d == Layout(b) && i < |b.ptrs|
    ensures p == b.ptrs[i]
  {
    Reads(b, w);
    Parts(b.refs, b.prefix, b.bytes, Flat(b.ptrs));
    FlatSplit(b.ptrs, i, w);
    var off, k := NodePtrs(d), i * w;
    assert d[off..][k..k + w] == d[off + k..off + k + w];
    p := d[off + k..off + k + w];
  }

  method FirstByteAt(d: seq<Byte>, i: nat, w: nat, ghost b: Block) returns (c: Byte)
    requires Fits(b, w) && d == Layout(b) && i < |b.bytes|
    ensures c == b.bytes[i]
  {
    Reads(b, w);
    Parts(b.refs, b.prefix, b.bytes, Flat(b.ptrs));
    var off := FirstBytes(d);
    assert d[off..off + |b.bytes|][i] == d[off + i];
    c := d[off + i];
  }

  method SetFirstByteAt(d: seq<Byte>, i: nat, c: Byte, w: nat, ghost b: Block) returns (r: seq<Byte>)
    requires Fits(b, w) && d == Layout(b) && i < |b.bytes|
    ensures r == Layout(b.(bytes := b.bytes[i := c]))
  {
    Reads(b, w);
    Parts(b.refs, b.prefix, b.bytes, Flat(b.ptrs));
    var off := FirstBytes(d);
    r := Poke(d, off + i, [c]);
    BytePoked(b.refs, b.prefix, b.bytes, Flat(b.ptrs), i, c);
  }

  /** Overwriting one first byte. */
  lemma BytePoked(refs: nat, prefix: Key, bytes: seq<Byte>, flat: seq<Byte>, i: nat, c: Byte)
    requires i < |bytes|
    ensures 12 + |prefix| + i < |Join(refs, prefix, bytes, flat)|
    ensures Poke(Join(refs, prefix, bytes, flat), 12 + |prefix| + i, [c]) == Join(refs, prefix, bytes[i := c], flat)
  {
    var front, back := Head(refs, |prefix|, |bytes|) + prefix + bytes[..i], bytes[i + 1..] + flat;
    assert bytes == bytes[..i] + [bytes[i]] + bytes[i + 1..];
    assert bytes[i := c] == bytes[..i] + [c] + bytes[i + 1..];
    assert Join(refs, prefix, bytes, flat) == front + [bytes[i]] + back;
    assert Join(refs, prefix, bytes[i := c], flat) == front + [c] + back;
    Spliced(front, [bytes[i]], back, [c]);
  }

  /** Fills in the edges of a block whose header and prefix are in place. */
  method FillEdges(d: seq<Byte>, ghost refs: nat, ghost prefix: Key, bytes: seq<Byte>, flat: seq<Byte>)
    returns (r: seq<Byte>)
    requires refs < TwoTo32 && |prefix| < TwoTo32 && |bytes| < TwoTo32
    requires |d| == 12 + |prefix| + |bytes| + |flat|
    requires d[..12] == Head(refs, |prefix|, |bytes|) && d[12..12 + |prefix|] == prefix
    ensures r == Join(refs, prefix, bytes, flat)
  {
    HeadReads(d, refs, |prefix|, |bytes|);
    var x := FirstBytes(d);
    var r1 := Poke(d, x, bytes);
    assert r1[..12] == d[..12];
    HeadReads(r1, refs, |prefix|, |bytes|);
    r := Poke(r1, NodePtrs(r1), flat);
    assert r[..12] == d[..12];
    assert r[12..x] == d[12..x];
    assert r[x..x + |bytes|] == bytes;
    Assemble(r, refs, prefix, bytes, flat);
  }

  /** `make_node` followed by `set_prefix`, `set_first_bytes` and `set_node_ptrs`. */
  method NewNode(refs: nat, prefix: Key, bytes: seq<Byte>, flat: seq<Byte>, w: nat, ghost ptrs: seq<Ptr>)
    returns (r: seq<Byte>)
    requires Fits(Block(refs, prefix, bytes, ptrs), w) && flat == Flat(ptrs)
    ensures r == Layout(Block(refs, prefix, bytes, ptrs))
  {
    var d := MakeNode(refs, |prefix|, |bytes|, w);
    SizeOf(|prefix|, ptrs, w);
    var d1 := Poke(d, 12, prefix);
    assert d1[..12] == d[..12];
    assert d1[12..12 + |prefix|] == prefix;
    r := FillEdges(d1, refs, prefix, bytes, flat);
  }

  /** The areas after the pointers at `y` moved up by one byte and an edge was stored behind them. */
  lemma Shifted(d: seq<Byte>, r0: seq<Byte>, r: seq<Byte>, c: Byte, ptr: Ptr, x: nat, y: nat, k: nat)
    requires 12 <= x <= y && |d| == y + k && |r0| == y + 1 + k + |ptr|
    requires forall i :: 12 <= i < |d| ==> r0[i] == d[i]
    requires r == Poke(Poke(Poke(r0, y + 1, r0[y..y + k]), y, [c]), y + 1 + k, ptr)
    ensures r[..12] == r0[..12] && r[12..x] == d[12..x]
    ensures r[x..y + 1] == d[x..y] + [c]
    ensures r[y + 1..] == d[y..] + ptr
  {
    ShiftedIs(r0, c, ptr, y, k);
    assert r0[..y][..12] == r0[..12];
    assert r0[12..x] == d[12..x] && r0[x..y] == d[x..y] && r0[y..y + k] == d[y..];
    var front := r0[..y] + [c];
    assert front[..12] == r0[..12] && front[12..x] == r0[12..x] && front[x..y + 1] == r0[x..y] + [c];
    assert r == front + (r0[y..y + k] + ptr);
  }

  lemma ShiftedIs(r0: seq<Byte>, c: Byte, ptr: Ptr, y: nat, k: nat)
    requires |r0| == y + 1 + k + |ptr|
    ensures Poke(Poke(Poke(r0, y + 1, r0[y..y + k]), y, [c]), y + 1 + k, ptr) == r0[..y] + [c] + r0[y..y + k] + ptr
  {
    var block, tail := r0[y..y + k], r0[y + 1 + k..];
    assert r0 == r0[..y + 1] + r0[y + 1..y + 1 + k] + tail;
    Spliced(r0[..y + 1], r0[y + 1..y + 1 + k], tail, block);
    assert r0[..y + 1] + block + tail == r0[..y] + [r0[y]] + (block + tail);
    Spliced(r0[..y], [r0[y]], block + tail, [c]);
    assert r0[..y] + [c] + (block + tail) == (r0[..y] + [c] + block) + tail + [];
    Spliced(r0[..y] + [c] + block, tail, [], ptr);
    assert (r0[..y] + [c] + block) + ptr + [] == r0[..y] + [c] + block + ptr;
  }

  lemma AppendedEdge(r0: seq<Byte>, r: seq<Byte>, refs: nat, prefix: Key, bytes: seq<Byte>, flat: seq<Byte>,
                     c: Byte, ptr: Ptr)
    requires var d, y := Join(refs, prefix, bytes, flat), 12 + |prefix| + |bytes|;
             && |r0| == y + 1 + |flat| + |ptr|
             && r0[..12] == Head(refs, |prefix|, |bytes| + 1)
             && |d| == y + |flat| && (forall i :: 12 <= i < |d| ==> r0[i] == d[i])
             && r == Poke(Poke(Poke(r0, y + 1, r0[y..y + |flat|]), y, [c]), y + 1 + |flat|, ptr)
    ensures r == Join(refs, prefix, bytes + [c], flat + ptr)
  {
    var d, y := Join(refs, prefix, bytes, flat), 12 + |prefix| + |bytes|;
    Parts(refs, prefix, bytes, flat);
    Shifted(d, r0, r, c, ptr, 12 + |prefix|, y, |flat|);
    Assemble(r, refs, prefix, bytes + [c], flat + ptr);
  }

  /** One more edge: the pointers make room for its first byte, then the edge is stored. */
  method AppendEdge(d: seq<Byte>, c: Byte, ptr: Ptr, w: nat, ghost b: Block) returns (r: seq<Byte>)
    requires Fits(b, w) && d == Layout(b) && |ptr| == w && |b.bytes| + 1 < TwoTo32
    ensures r == Layout(b.(bytes := b.bytes + [c], ptrs := b.ptrs + [ptr]))
  {
    Reads(b, w);
    ghost var flat := Flat(b.ptrs);
    Parts(b.refs, b.prefix, b.bytes, flat);
    var n, pl := EdgeCount(d), PrefixLength(d);
    var r0 := Resize(d, pl, n + 1, w, b.refs);
    FlatConcat(b.ptrs, [ptr]);
    FlatOne(ptr);
    FlatLength(b.ptrs, w);
    SizeOf(pl, b.ptrs + [ptr], w);
    var k := n * w;
    r := StoreNewEdge(r0, c, ptr, k, b.refs, pl, n);
    AppendedEdge(r0, r, b.refs, b.prefix, b.bytes, flat, c, ptr);
  }

  /** `memmove` of the pointers by one byte, then `set_edge_at` for the last edge. */
  method StoreNewEdge(r0: seq<Byte>, c: Byte, ptr: Ptr, k: nat, ghost refs: nat, ghost pl: nat, ghost n: nat)
    returns (r: seq<Byte>)
    requires |r0| == 12 + pl + n + 1 + k + |ptr| && r0[..12] == Head(refs, pl, n + 1)
    requires refs < TwoTo32 && pl < TwoTo32 && n + 1 < TwoTo32
    ensures var y := 12 + pl + n;
            r == Poke(Poke(Poke(r0, y + 1, r0[y..y + k]), y, [c]), y + 1 + k, ptr)
  {
    HeadReads(r0, refs, pl, n + 1);
    var to := NodePtrs(r0);
    var r1 := Poke(r0, to, r0[to - 1..to - 1 + k]);
    assert r1[..12] == r0[..12];
    HeadReads(r1, refs, pl, n + 1);
    var r2 := Poke(r1, FirstBytes(r1) + (EdgeCount(r1) - 1), [c]);
    assert r2[..12] == r0[..12];
    HeadReads(r2, refs, pl, n + 1);
    r := Poke(r2, NodePtrs(r2) + k, ptr);
  }

  lemma LastDropped(d: seq<Byte>, r1: seq<Byte>, r: seq<Byte>, x: nat, y: nat, k: nat, w: nat)
    requires 12 <= x < y && |d| == y + k && w <= k && |r| == y - 1 + k - w
    requires r1 == Poke(d, y - 1, d[y..y + k])
    requires forall i :: 12 <= i < |r| && i < |r1| ==> r[i] == r1[i]
    ensures r[12..x] == d[12..x] && r[x..y - 1] == d[x..y - 1]
    ensures r[y - 1..] == d[y..][..k - w]
  {
    forall i | 0 <= i < k - w ensures r[y - 1..][i] == d[y..][i] {
      assert r1[y - 1 + i] == d[y..y + k][i];
    }
  }

  /** What is left when the last edge goes. */
  lemma DroppedParts(r1: seq<Byte>, r: seq<Byte>, refs: nat, prefix: Key, bytes: seq<Byte>, flat: seq<Byte>, w: nat)
    requires |bytes| > 0 && w <= |flat|
    requires var d, y := Join(refs, prefix, bytes, flat), 12 + |prefix| + |bytes|;
             && |d| == y + |flat| && r1 == Poke(d, y - 1, d[y..y + |flat|]) && |r| == y - 1 + |flat| - w
             && (forall i :: 12 <= i < |r| && i < |r1| ==> r[i] == r1[i])
    ensures var x, y := 12 + |prefix|, 12 + |prefix| + |bytes|;
            r[12..x] == prefix && r[x..y - 1] == bytes[..|bytes| - 1] && r[y - 1..] == flat[..|flat| - w]
  {
    var d, x, y := Join(refs, prefix, bytes, flat), 12 + |prefix|, 12 + |prefix| + |bytes|;
    Parts(refs, prefix, bytes, flat);
    LastDropped(d, r1, r, x, y, |flat|, w);
    assert d[x..y - 1] == d[x..y][..|bytes| - 1];
  }

  lemma DroppedEdge(r1: seq<Byte>, r: seq<Byte>, refs: nat, prefix: Key, bytes: seq<Byte>, flat: seq<Byte>, w: nat)
    requires |bytes| > 0 && w <= |flat|
    requires var d, y := Join(refs, prefix, bytes, flat), 12 + |prefix| + |bytes|;
             && |d| == y + |flat| && r1 == Poke(d, y - 1, d[y..y + |flat|])
             && |r| == y - 1 + |flat| - w && r[..12] == Head(refs, |prefix|, |bytes| - 1)
             && (forall i :: 12 <= i < |r| && i < |r1| ==> r[i] == r1[i])
    ensures r == Join(refs, prefix, bytes[..|bytes| - 1], flat[..|flat| - w])
  {
    DroppedParts(r1, r, refs, prefix, bytes, flat, w);
    Assemble(r, refs, prefix, bytes[..|bytes| - 1], flat[..|flat| - w]);
  }

  /** The pointers move down by one byte, over the last first byte. */
  method PullPointers(d: seq<Byte>, w: nat, ghost b: Block) returns (r: seq<Byte>)
    requires Fits(b, w) && d == Layout(b) && |b.bytes| > 0
    ensures var y := 12 + |b.prefix| + |b.bytes|;
            && |d| == y + |Flat(b.ptrs)| && r == Poke(d, y - 1, d[y..y + |Flat(b.ptrs)|])
            && r[..4] == PutU32(b.refs)
  {
    Reads(b, w);
    Parts(b.refs, b.prefix, b.bytes, Flat(b.ptrs));
    FlatLength(b.ptrs, w);
    var from, k := NodePtrs(d), EdgeCount(d) * w;
    r := Poke(d, from - 1, d[from..from + k]);
    assert r[..4] == d[..4] by { PokeAt(d, from - 1, d[from..from + k]); }
  }

  /** The last edge goes: its first byte is overwritten, its pointer cut off. */
  method DropLastEdge(d: seq<Byte>, w: nat, ghost b: Block) returns (r: seq<Byte>)
    requires Fits(b, w) && d == Layout(b) && |b.bytes| > 0
    ensures var last := |b.bytes| - 1;
            r == Layout(b.(bytes := b.bytes[..last], ptrs := b.ptrs[..last]))
  {
    Reads(b, w);
    var n, pl := EdgeCount(d), PrefixLength(d);
    var r1 := PullPointers(d, w, b);
    r := Resize(r1, pl, n - 1, w, b.refs);
    SizeOf(pl, b.ptrs[..n - 1], w);
    LastPtr(b.ptrs);
    assert |r| == 12 + pl + n - 1 + |Flat(b.ptrs)| - w;
    DroppedEdge(r1, r, b.refs, b.prefix, b.bytes, Flat(b.ptrs), w);
  }

  lemma LastPtr(ptrs: seq<Ptr>)
    requires ptrs != []
    ensures var n, w := |ptrs| - 1, |ptrs[|ptrs| - 1]|;
            w <= |Flat(ptrs)| && Flat(ptrs[..n]) == Flat(ptrs)[..|Flat(ptrs)| - w]
  {
  }

  /** Removing edge `i`: the last edge takes its place, then the last edge goes. */
  method DeleteEdge(d: seq<Byte>, i: nat, w: nat, ghost b: Block) returns (r: seq<Byte>)
    requires Fits(b, w) && d == Layout(b) && i < |b.bytes|
    ensures var last := |b.bytes| - 1;
            r == Layout(b.(bytes := b.bytes[i := b.bytes[last]][..last], ptrs := b.ptrs[i := b.ptrs[last]][..last]))
  {
    Reads(b, w);
    var n := EdgeCount(d);
    var lastByte := FirstByteAt(d, n - 1, w, b);
    var lastPtr := NodeAt(d, n - 1, w, b);
    var r1 := SetFirstByteAt(d, i, lastByte, w, b);
    ghost var b1 := b.(bytes := b.bytes[i := lastByte]);
    var r2 := SetNodeAt(r1, i, lastPtr, w, b1);
    r := DropLastEdge(r2, w, b1.(ptrs := b.ptrs[i := lastPtr]));
  }

  /** Any bytes can be read as pointers. */
  lemma {:induction false} AnyPointers(flat: seq<Byte>, n: nat, w: nat) returns (ptrs: seq<Ptr>)
    requires |flat| == n * w
    ensures |ptrs| == n && (forall i :: 0 <= i < n ==> |ptrs[i]| == w) && Flat(ptrs) == flat
  {
    if n == 0 {
      ptrs := [];
    } else {
      var k := (n - 1) * w;
      assert k + w == n * w;
      var front := AnyPointers(flat[..k], n - 1, w);
      ptrs := front + [flat[k..]];
      assert ptrs[..n - 1] == front && flat[..k] + flat[k..] == flat;
    }
  }

  /** A block with a header and a prefix says something, whatever its edges are. */
  lemma AnyEdges(d: seq<Byte>, refs: nat, prefix: Key, n: nat, w: nat) returns (bytes: seq<Byte>, ptrs: seq<Ptr>)
    requires |d| == BlockSize(|prefix|, n, w) && d[..12] == Head(refs, |prefix|, n) && d[12..12 + |prefix|] == prefix
    ensures |bytes| == |ptrs| == n && (forall i :: 0 <= i < n ==> |ptrs[i]| == w)
    ensures d == Layout(Block(refs, prefix, bytes, ptrs))
  {
    var x, y, k := 12 + |prefix|, 12 + |prefix| + n, n * w;
    assert |d| == y + k by { assert n * (1 + w) == n + n * w; }
    bytes := d[x..y];
    ptrs := AnyPointers(d[y..], n, w);
    Assemble(d, refs, prefix, bytes, Flat(ptrs));
  }

  /** `resize` of a node to the first `j` bytes of its prefix and `n` edges, which are still to be stored. */
  method Shrink(d: seq<Byte>, j: nat, n: nat, w: nat, ghost b: Block)
    returns (r: seq<Byte>, ghost bytes: seq<Byte>, ghost ptrs: seq<Ptr>)
    requires Fits(b, w) && d == Layout(b) && j <= |b.prefix| && n < TwoTo32
    ensures |bytes| == |ptrs| == n && Fits(Block(b.refs, b.prefix[..j], bytes, ptrs), w)
    ensures r == Layout(Block(b.refs, b.prefix[..j], bytes, ptrs))
  {
    Parts(b.refs, b.prefix, b.bytes, Flat(b.ptrs));
    r := Resize(d, j, n, w, b.refs);
    BlockIsLonger(j, n, w);
    KeptPrefix(d, r, b.prefix, j);
    bytes, ptrs := AnyEdges(r, b.refs, b.prefix[..j], n, w);
  }

  lemma BlockIsLonger(j: nat, n: nat, w: nat)
    ensures BlockSize(j, n, w) >= 12 + j
  {
  }

  lemma KeptPrefix(d: seq<Byte>, r: seq<Byte>, p: Key, j: nat)
    requires 12 + |p| <= |d| && d[12..12 + |p|] == p && j <= |p| && 12 + j <= |r|
    requires forall i :: 12 <= i < |r| && i < |d| ==> r[i] == d[i]
    ensures r[12..12 + j] == p[..j]
  {
    forall i | 0 <= i < j ensures r[12 + i] == p[i] { assert d[12..12 + |p|][i] == p[i]; }
  }

  method SetEdgeAt(d: seq<Byte>, i: nat, c: Byte, p: Ptr, w: nat, ghost b: Block) returns (r: seq<Byte>)
    requires Fits(b, w) && d == Layout(b) && i < |b.bytes| && |p| == w
    ensures r == Layout(b.(bytes := b.bytes[i := c], ptrs := b.ptrs[i := p]))
  {
    r := SetFirstByteAt(d, i, c, w, b);
    r := SetNodeAt(r, i, p, w, b.(bytes := b.bytes[i := c]));
  }

  /** `resize` of a node to take in the prefix, the edges and the count of its only remaining child. */
  method Absorb(d: seq<Byte>, child: seq<Byte>, w: nat, ghost b: Block, ghost c: Block) returns (r: seq<Byte>)
    requires Fits(b, w) && d == Layout(b) && Fits(c, w) && child == Layout(c)
    requires |b.prefix| + |c.prefix| < TwoTo32
    ensures r == Layout(c.(prefix := b.prefix + c.prefix))
  {
    Reads(b, w);
    Reads(c, w);
    Parts(b.refs, b.prefix, b.bytes, Flat(b.ptrs));
    Parts(c.refs, c.prefix, c.bytes, Flat(c.ptrs));
    var len, more := PrefixLength(d), PrefixLength(child);
    var r1 := Resize(d, len + more, EdgeCount(child), w, b.refs);
    SizeOf(len + more, c.ptrs, w);
    var r2 := AppendPrefix(d, r1, child[12..12 + more], Refcount(child), len, b.prefix, b.refs, |c.bytes|);
    r := FillEdges(r2, c.refs, b.prefix + c.prefix,
                   child[FirstBytes(child)..NodePtrs(child)], child[NodePtrs(child)..]);
  }

  /** Appends to the prefix of a resized node and stores a new reference count. */
  method AppendPrefix(ghost d: seq<Byte>, r1: seq<Byte>, q: Key, refs: nat, len: nat, ghost p: Key, ghost before: nat,
                      ghost edges: nat)
    returns (r: seq<Byte>)
    requires len == |p|
    requires 12 + |p| <= |d| && d[12..12 + |p|] == p && 12 + |p| + |q| <= |r1|
    requires r1[..12] == Head(before, |p| + |q|, edges)
    requires forall i :: 12 <= i < |r1| && i < |d| ==> r1[i] == d[i]
    ensures |r| == |r1| && r[..12] == Head(refs, |p| + |q|, edges) && r[12..12 + |p| + |q|] == p + q
  {
    var r2 := Poke(r1, 12 + len, q);
    r := Poke(r2, 0, PutU32(refs));
    Absorbed(d, r1, r, p, q, before, refs, edges);
  }

  lemma Absorbed(d: seq<Byte>, r1: seq<Byte>, r3: seq<Byte>, p: Key, q: Key, before: nat, refs: nat, edges: nat)
    requires 12 + |p| <= |d| && d[12..12 + |p|] == p && 12 + |p| + |q| <= |r1|
    requires r1[..12] == Head(before, |p| + |q|, edges)
    requires forall i :: 12 <= i < |r1| && i < |d| ==> r1[i] == d[i]
    requires r3 == Poke(Poke(r1, 12 + |p|, q), 0, PutU32(refs))
    ensures r3[..12] == Head(refs, |p| + |q|, edges)
    ensures r3[12..12 + |p| + |q|] == p + q
  {
    var r2 := Poke(r1, 12 + |p|, q);
    PokeAt(r1, 12 + |p|, q);
    PokeAt(r2, 0, PutU32(refs));
    assert r3[..12] == r3[..4] + r1[..12][4..];
    assert r3[12..12 + |p| + |q|] == d[12..12 + |p|] + q;
  }
}
