/**
 `msg_t`: message handles that share contents and metadata by reference counting. A content starts
 out without a valid counter; the counter is set when a second handle appears, and from then on
 every handle is marked `shared`.
 */
module Messages {
  import opened Bytes

  type Handle = nat      // the address of a `msg_t`
  type Content = nat     // a `content_t`; every allocation is a new one
  type Meta = nat        // a `metadata_t`

  datatype Kind =
    | Closed | Vsm | Long(content: Content) | ZeroCopy(content: Content)
    | Constant | Delimiter | Join | Leave

  /** `body` stands for everything that is copied along and never looked at here. */
  datatype Msg = Msg(kind: Kind, more: bool, shared: bool, meta: Option<Meta>, body: nat)

  const NewMsg := Msg(Vsm, false, false, None, 0)

  function ContentOf(m: Msg): Option<Content> {
    match m.kind
    case Long(c) => Some(c)
    case ZeroCopy(c) => Some(c)
    case _ => None
  }

  function ClosedMsg(m: Msg): Msg {
    m.(kind := Closed, meta := None)
  }

  /** The same message but for the mark that its content is shared. */
  predicate SameMessage(m: Msg, n: Msg) {
    m.(shared := n.shared) == n
  }

  // ---------------------------------------------------------------- who holds what

  type Table = map<Handle, Msg>

  /** The handles that own a reference to `c`. A spent handle may still point to a content, but owns nothing. */
  ghost function Holders(msgs: Table, spent: set<Handle>, c: Content): set<Handle> {
    set h | h in msgs && h !in spent && ContentOf(msgs[h]) == Some(c)
  }

  /** All references to `c`: those of handles and the loose ones that `add_refs` made in advance. */
  ghost function References(msgs: Table, spent: set<Handle>, loose: multiset<Content>, c: Content): nat {
    |Holders(msgs, spent, c)| + loose[c]
  }

  predicate FlagsOk(m: Msg, counter: nat, references: nat) {
    && (references >= 2 ==> m.shared)
    && (m.shared ==> counter == references)
  }

  /**
   A content is in memory exactly as long as there are references to it. With two or more
   references every owner is marked shared, and an owner marked shared can trust the counter.
   */
  ghost predicate CountOk(msgs: Table, spent: set<Handle>, loose: multiset<Content>, cells: map<Content, nat>,
                          c: Content) {
    var n := References(msgs, spent, loose, c);
    && (c in cells <==> n > 0)
    && (c in cells ==> forall h :: h in Holders(msgs, spent, c) ==> FlagsOk(msgs[h], cells[c], n))
  }

  ghost predicate ContentsOk(msgs: Table, spent: set<Handle>, loose: multiset<Content>, cells: map<Content, nat>) {
    forall c {:trigger CountOk(msgs, spent, loose, cells, c)} :: CountOk(msgs, spent, loose, cells, c)
  }

  /** The handles that own a reference to `d`. A stray handle points to metadata without having been counted. */
  ghost function MetaHolders(msgs: Table, stray: set<Handle>, d: Meta): set<Handle> {
    set h | h in msgs && h !in stray && msgs[h].meta == Some(d)
  }

  /** A metadata object lives as long as handles or engines refer to it, and its counter is exact. */
  ghost predicate MetaOk(msgs: Table, stray: set<Handle>, engines: multiset<Meta>, metas: map<Meta, nat>, d: Meta) {
    var n := |MetaHolders(msgs, stray, d)| + engines[d];
    && (d in metas <==> n > 0)
    && (d in metas ==> metas[d] == n)
  }

  ghost predicate MetasOk(msgs: Table, stray: set<Handle>, engines: multiset<Meta>, metas: map<Meta, nat>) {
    forall d {:trigger MetaOk(msgs, stray, engines, metas, d)} :: MetaOk(msgs, stray, engines, metas, d)
  }

  /** Handles that share a content all know it, and the counter tells their number. */
  lemma SharersAgree(msgs: Table, spent: set<Handle>, loose: multiset<Content>, cells: map<Content, nat>,
                     h: Handle, k: Handle, c: Content)
    requires ContentsOk(msgs, spent, loose, cells)
    requires h in Holders(msgs, spent, c) && k in Holders(msgs, spent, c) && h != k
    ensures c in cells && cells[c] == References(msgs, spent, loose, c) >= 2
    ensures msgs[h].shared && msgs[k].shared
  {
    assert CountOk(msgs, spent, loose, cells, c);
    var hs := Holders(msgs, spent, c);
    assert |hs - {h}| == |hs| - 1 && k in hs - {h};
  }

  // ---------------------------------------------------------------- one handle changes

  function Count(b: bool): nat {
    if b then 1 else 0
  }

  lemma SetCount(s: set<Handle>, t: set<Handle>, h: Handle)
    requires t - {h} == s - {h}
    ensures |t| == |s| - Count(h in s) + Count(h in t)
  {
    assert |s - {h}| == |s| - Count(h in s) by { if h !in s { assert s - {h} == s; } }
    assert |t - {h}| == |t| - Count(h in t) by { if h !in t { assert t - {h} == t; } }
  }

  /** Handle `h` changes, and whether it is spent. */
  lemma HoldersAfter(msgs: Table, spent: set<Handle>, msgs': Table, spent': set<Handle>, h: Handle, c: Content)
    requires msgs' - {h} == msgs - {h} && spent' - {h} == spent - {h}
    ensures var s, t := Holders(msgs, spent, c), Holders(msgs', spent', c);
            && t - {h} == s - {h}
            && |t| == |s| - Count(h in s) + Count(h in t)
            && (forall x :: x in t && x != h ==> x in s && msgs'[x] == msgs[x])
  {
    var s, t := Holders(msgs, spent, c), Holders(msgs', spent', c);
    assert forall x :: x != h ==> (x in msgs <==> x in msgs - {h}) && (x in msgs' <==> x in msgs' - {h});
    assert forall x :: x != h && x in msgs - {h} ==> msgs[x] == (msgs - {h})[x] && msgs'[x] == (msgs' - {h})[x];
    assert forall x :: x != h ==> (x in spent <==> x in spent - {h}) && (x in spent' <==> x in spent' - {h});
    assert t - {h} == s - {h};
    SetCount(s, t, h);
  }

  lemma MetaHoldersAfter(msgs: Table, stray: set<Handle>, msgs': Table, stray': set<Handle>, h: Handle, d: Meta)
    requires msgs' - {h} == msgs - {h} && stray' - {h} == stray - {h}
    ensures var s, t := MetaHolders(msgs, stray, d), MetaHolders(msgs', stray', d);
            && t - {h} == s - {h} && |t| == |s| - Count(h in s) + Count(h in t)
  {
    var s, t := MetaHolders(msgs, stray, d), MetaHolders(msgs', stray', d);
    assert forall x :: x != h ==> (x in msgs <==> x in msgs - {h}) && (x in msgs' <==> x in msgs' - {h});
    assert forall x :: x != h && x in msgs - {h} ==> msgs[x] == (msgs - {h})[x] && msgs'[x] == (msgs' - {h})[x];
    assert forall x :: x != h ==> (x in stray <==> x in stray - {h}) && (x in stray' <==> x in stray' - {h});
    SetCount(s, t, h);
  }

  /** A content that `h` owns neither before nor after. */
  lemma OtherContent(msgs: Table, spent: set<Handle>, loose: multiset<Content>, cells: map<Content, nat>,
                     msgs': Table, spent': set<Handle>, loose': multiset<Content>, cells': map<Content, nat>,
                     h: Handle, x: Content)
    requires CountOk(msgs, spent, loose, cells, x)
    requires msgs' - {h} == msgs - {h} && spent' - {h} == spent - {h}
    requires h !in Holders(msgs, spent, x) && h !in Holders(msgs', spent', x)
    requires loose'[x] == loose[x] && (x in cells' <==> x in cells) && (x in cells ==> cells'[x] == cells[x])
    ensures CountOk(msgs', spent', loose', cells', x)
  {
    HoldersAfter(msgs, spent, msgs', spent', h, x);
  }

  lemma OtherMeta(msgs: Table, stray: set<Handle>, engines: multiset<Meta>, metas: map<Meta, nat>,
                  msgs': Table, stray': set<Handle>, metas': map<Meta, nat>, h: Handle, x: Meta)
    requires MetaOk(msgs, stray, engines, metas, x)
    requires msgs' - {h} == msgs - {h} && stray' - {h} == stray - {h}
    requires h in MetaHolders(msgs, stray, x) <==> h in MetaHolders(msgs', stray', x)
    requires (x in metas' <==> x in metas) && (x in metas ==> metas'[x] == metas[x])
    ensures MetaOk(msgs', stray', engines, metas', x)
  {
    MetaHoldersAfter(msgs, stray, msgs', stray', h, x);
  }

  lemma Update(msgs: Table, h: Handle, m: Msg)
    ensures msgs[h := m] - {h} == msgs - {h}
  {
  }

  /** Handle `h`, which owns no content, is overwritten by a message without content. */
  lemma Overwritten(msgs: Table, spent: set<Handle>, loose: multiset<Content>, cells: map<Content, nat>, h: Handle,
                    m: Msg)
    requires ContentsOk(msgs, spent, loose, cells) && ContentOf(m) == None
    requires h in msgs ==> ContentOf(msgs[h]) == None || h in spent
    ensures ContentsOk(msgs[h := m], spent - {h}, loose, cells)
  {
    var msgs', spent' := msgs[h := m], spent - {h};
    Update(msgs, h, m);
    forall x: Content ensures CountOk(msgs', spent', loose, cells, x) {
      assert CountOk(msgs, spent, loose, cells, x);
      OtherContent(msgs, spent, loose, cells, msgs', spent', loose, cells, h, x);
    }
  }

  /** What is owned of metadata does not change. */
  lemma MetaKept(msgs: Table, stray: set<Handle>, engines: multiset<Meta>, metas: map<Meta, nat>, h: Handle, m: Msg,
                 stray': set<Handle>)
    requires MetasOk(msgs, stray, engines, metas) && stray' - {h} == stray - {h}
    requires (if h in stray' then None else m.meta) == if h in msgs && h !in stray then msgs[h].meta else None
    ensures MetasOk(msgs[h := m], stray', engines, metas)
  {
    var msgs' := msgs[h := m];
    Update(msgs, h, m);
    forall x: Meta ensures MetaOk(msgs', stray', engines, metas, x) {
      assert MetaOk(msgs, stray, engines, metas, x);
      OtherMeta(msgs, stray, engines, metas, msgs', stray', metas, h, x);
    }
  }

  /** What `close` leaves of the counters. */
  function AfterClose(m: Msg, cells: map<Content, nat>): map<Content, nat> {
    AfterRemove(m, cells, 1)
  }

  function AfterMetaDrop(m: Msg, metas: map<Meta, nat>): map<Meta, nat> {
    match m.meta
    case None => metas
    case Some(d) =>
      if d !in metas then metas
      else if metas[d] <= 1 then metas - {d}
      else metas[d := metas[d] - 1]
  }

  /** Handle `h` gives up its reference and keeps none. */
  lemma Closes(msgs: Table, spent: set<Handle>, loose: multiset<Content>, cells: map<Content, nat>, h: Handle)
    requires ContentsOk(msgs, spent, loose, cells) && h in msgs && h !in spent
    ensures ContentsOk(msgs[h := ClosedMsg(msgs[h])], spent, loose, AfterClose(msgs[h], cells))
    ensures ContentOf(msgs[h]).Some? ==>
              var c := ContentOf(msgs[h]).value; c in cells && (msgs[h].shared ==> cells[c] > 0)
  {
    var msgs', cells' := msgs[h := ClosedMsg(msgs[h])], AfterClose(msgs[h], cells);
    Update(msgs, h, ClosedMsg(msgs[h]));
    forall x: Content ensures CountOk(msgs', spent, loose, cells', x) {
      assert CountOk(msgs, spent, loose, cells, x);
      if ContentOf(msgs[h]) == Some(x) {
        GivesUp(msgs, spent, loose, cells, msgs', spent, h, x);
      } else {
        OtherContent(msgs, spent, loose, cells, msgs', spent, loose, cells', h, x);
      }
    }
    if ContentOf(msgs[h]).Some? { OwnerHasCell(msgs, spent, loose, cells, h, ContentOf(msgs[h]).value); }
  }

  lemma OwnerHasCell(msgs: Table, spent: set<Handle>, loose: multiset<Content>, cells: map<Content, nat>, h: Handle,
                     c: Content)
    requires ContentsOk(msgs, spent, loose, cells) && h in Holders(msgs, spent, c)
    ensures c in cells && (msgs[h].shared ==> cells[c] == References(msgs, spent, loose, c) > 0)
    ensures !msgs[h].shared ==> Holders(msgs, spent, c) == {h} && loose[c] == 0
  {
    assert CountOk(msgs, spent, loose, cells, c);
    assert |Holders(msgs, spent, c) - {h}| == |Holders(msgs, spent, c)| - 1;
  }

  /** `h` was one of the owners of `c` and is none afterwards. */
  lemma GivesUp(msgs: Table, spent: set<Handle>, loose: multiset<Content>, cells: map<Content, nat>,
                msgs': Table, spent': set<Handle>, h: Handle, c: Content)
    requires CountOk(msgs, spent, loose, cells, c) && h in Holders(msgs, spent, c)
    requires msgs' - {h} == msgs - {h} && spent' - {h} == spent - {h} && h !in Holders(msgs', spent', c)
    ensures CountOk(msgs', spent', loose, AfterClose(msgs[h], cells), c)
  {
    HoldersAfter(msgs, spent, msgs', spent', h, c);
  }

  lemma MetaDrops(msgs: Table, stray: set<Handle>, engines: multiset<Meta>, metas: map<Meta, nat>, h: Handle, m: Msg)
    requires MetasOk(msgs, stray, engines, metas) && h in msgs && h !in stray && m.meta == None
    ensures MetasOk(msgs[h := m], stray, engines, AfterMetaDrop(msgs[h], metas))
    ensures msgs[h].meta.Some? ==> msgs[h].meta.value in metas && metas[msgs[h].meta.value] > 0
  {
    var msgs', metas' := msgs[h := m], AfterMetaDrop(msgs[h], metas);
    Update(msgs, h, m);
    forall x: Meta ensures MetaOk(msgs', stray, engines, metas', x) {
      assert MetaOk(msgs, stray, engines, metas, x);
      if msgs[h].meta == Some(x) {
        assert h in MetaHolders(msgs, stray, x);
        MetaHoldersAfter(msgs, stray, msgs', stray, h, x);
      } else {
        OtherMeta(msgs, stray, engines, metas, msgs', stray, metas', h, x);
      }
    }
    if msgs[h].meta.Some? {
      var d := msgs[h].meta.value;
      assert MetaOk(msgs, stray, engines, metas, d) && h in MetaHolders(msgs, stray, d);
    }
  }

  /** A content that nothing refers to yet gets its first handle. */
  lemma Allocated(msgs: Table, spent: set<Handle>, loose: multiset<Content>, cells: map<Content, nat>, h: Handle,
                  m: Msg, c: Content)
    requires ContentsOk(msgs, spent, loose, cells) && ContentOf(m) == Some(c) && !m.shared
    requires h in msgs ==> ContentOf(msgs[h]) == None || h in spent
    requires forall x :: x in msgs ==> ContentOf(msgs[x]) != Some(c)
    requires loose[c] == 0
    ensures c !in cells && ContentsOk(msgs[h := m], spent - {h}, loose, cells[c := 0])
  {
    assert CountOk(msgs, spent, loose, cells, c);
    assert Holders(msgs, spent, c) == {};
    var msgs', spent', cells' := msgs[h := m], spent - {h}, cells[c := 0];
    Update(msgs, h, m);
    forall x: Content ensures CountOk(msgs', spent', loose, cells', x) {
      assert CountOk(msgs, spent, loose, cells, x);
      if x == c {
        assert Holders(msgs', spent', c) == {h};
      } else {
        OtherContent(msgs, spent, loose, cells, msgs', spent', loose, cells', h, x);
      }
    }
  }

  /** What `add_refs (n)` makes of the counter of a content that `m` points to. */
  function AfterAdd(m: Msg, cells: map<Content, nat>, n: nat): map<Content, nat> {
    match ContentOf(m)
    case None => cells
    case Some(c) =>
      if n == 0 || c !in cells then cells
      else if m.shared then cells[c := cells[c] + n]
      else cells[c := n + 1]
  }

  function Marked(m: Msg, n: nat): Msg {
    if ContentOf(m).Some? && n > 0 then m.(shared := true) else m
  }

  function LooseAfter(loose: multiset<Content>, m: Msg, n: nat): multiset<Content> {
    match ContentOf(m)
    case None => loose
    case Some(c) => loose[c := loose[c] + n]
  }

  /** References are added in advance. */
  lemma Adds(msgs: Table, spent: set<Handle>, loose: multiset<Content>, cells: map<Content, nat>, h: Handle, n: nat)
    requires ContentsOk(msgs, spent, loose, cells) && h in msgs && h !in spent
    ensures ContentsOk(msgs[h := Marked(msgs[h], n)], spent, LooseAfter(loose, msgs[h], n), AfterAdd(msgs[h], cells, n))
    ensures ContentOf(msgs[h]).Some? ==> ContentOf(msgs[h]).value in cells
  {
    var msgs', loose', cells' :=
      msgs[h := Marked(msgs[h], n)], LooseAfter(loose, msgs[h], n), AfterAdd(msgs[h], cells, n);
    Update(msgs, h, Marked(msgs[h], n));
    forall x: Content ensures CountOk(msgs', spent, loose', cells', x) {
      assert CountOk(msgs, spent, loose, cells, x);
      if ContentOf(msgs[h]) == Some(x) {
        AddsHere(msgs, spent, loose, cells, h, n, x);
      } else {
        OtherContent(msgs, spent, loose, cells, msgs', spent, loose', cells', h, x);
      }
    }
    if ContentOf(msgs[h]).Some? { OwnerHasCell(msgs, spent, loose, cells, h, ContentOf(msgs[h]).value); }
  }

  lemma AddsHere(msgs: Table, spent: set<Handle>, loose: multiset<Content>, cells: map<Content, nat>, h: Handle,
                 n: nat, c: Content)
    requires CountOk(msgs, spent, loose, cells, c) && h in Holders(msgs, spent, c)
    ensures CountOk(msgs[h := Marked(msgs[h], n)], spent, LooseAfter(loose, msgs[h], n), AfterAdd(msgs[h], cells, n), c)
  {
    var msgs' := msgs[h := Marked(msgs[h], n)];
    Update(msgs, h, Marked(msgs[h], n));
    HoldersAfter(msgs, spent, msgs', spent, h, c);
    var hs, counter, total :=
      Holders(msgs, spent, c), AfterAdd(msgs[h], cells, n)[c], References(msgs, spent, loose, c) + n;
    assert |hs - {h}| == |hs| - 1;
    forall x | x in Holders(msgs', spent, c) ensures FlagsOk(msgs'[x], counter, total) {
      if x != h { assert x in hs - {h}; }
    }
  }

  /** Is the own reference of the handle the one that is handed on, as no loose one is left? */
  predicate HandsOn(loose: multiset<Content>, m: Msg) {
    ContentOf(m).Some? && loose[ContentOf(m).value] == 0
  }

  function Taken(loose: multiset<Content>, m: Msg, n: nat): multiset<Content> {
    match ContentOf(m)
    case None => loose
    case Some(c) => loose[c := if loose[c] >= n then loose[c] - n else 0]
  }

  /** A bitwise copy of `src` takes over a loose reference, or that of `src`. */
  lemma Takes(msgs: Table, spent: set<Handle>, loose: multiset<Content>, cells: map<Content, nat>, dst: Handle,
              src: Handle)
    requires ContentsOk(msgs, spent, loose, cells) && src in msgs && src !in spent && dst !in spent
    requires dst in msgs ==> ContentOf(msgs[dst]) == None
    requires dst == src ==> ContentOf(msgs[src]) == None
    ensures ContentsOk(msgs[dst := msgs[src]], if HandsOn(loose, msgs[src]) then spent + {src} else spent,
                       Taken(loose, msgs[src], 1), cells)
  {
    var msgs', loose' := msgs[dst := msgs[src]], Taken(loose, msgs[src], 1);
    var spent' := if HandsOn(loose, msgs[src]) then spent + {src} else spent;
    Update(msgs, dst, msgs[src]);
    forall x: Content ensures CountOk(msgs', spent', loose', cells, x) {
      assert CountOk(msgs, spent, loose, cells, x);
      if ContentOf(msgs[src]) == Some(x) {
        TakesHere(msgs, spent, loose, cells, dst, src, x);
      } else {
        assert Holders(msgs', spent', x) == Holders(msgs, spent, x);
      }
    }
  }

  lemma TakesHere(msgs: Table, spent: set<Handle>, loose: multiset<Content>, cells: map<Content, nat>, dst: Handle,
                  src: Handle, c: Content)
    requires CountOk(msgs, spent, loose, cells, c) && src in Holders(msgs, spent, c) && dst !in spent && dst != src
    requires dst in msgs ==> ContentOf(msgs[dst]) == None
    ensures CountOk(msgs[dst := msgs[src]], if loose[c] == 0 then spent + {src} else spent,
                    Taken(loose, msgs[src], 1), cells, c)
  {
    var hs := Holders(msgs, spent, c);
    if loose[c] == 0 {
      assert Holders(msgs[dst := msgs[src]], spent + {src}, c) == hs - {src} + {dst};
      SameSize(hs, dst, src);
    } else {
      assert Holders(msgs[dst := msgs[src]], spent, c) == hs + {dst} && dst !in hs;
    }
  }

  /** `dst`, which has no metadata, gets a reference to the metadata of `src`. */
  lemma MetaShares(msgs: Table, stray: set<Handle>, engines: multiset<Meta>, metas: map<Meta, nat>, dst: Handle,
                   src: Handle)
    requires MetasOk(msgs, stray, engines, metas) && src in msgs && src !in stray && dst !in stray
    requires dst in msgs ==> msgs[dst].meta == None
    ensures MetasOk(msgs[dst := msgs[src]], stray, engines, AfterMetaAdd(msgs[src], metas))
    ensures msgs[src].meta.Some? ==> msgs[src].meta.value in metas
  {
    if msgs[src].meta.Some? {
      var d := msgs[src].meta.value;
      assert MetaOk(msgs, stray, engines, metas, d) && src in MetaHolders(msgs, stray, d);
    }
    MetaAttaches(msgs, stray, engines, metas, dst, msgs[src]);
  }

  function AfterMetaAdd(m: Msg, metas: map<Meta, nat>): map<Meta, nat> {
    match m.meta
    case None => metas
    case Some(d) => if d in metas then metas[d := metas[d] + 1] else metas
  }

  lemma MetaAttaches(msgs: Table, stray: set<Handle>, engines: multiset<Meta>, metas: map<Meta, nat>, h: Handle, m: Msg)
    requires MetasOk(msgs, stray, engines, metas) && h !in stray && (h in msgs ==> msgs[h].meta == None)
    requires m.meta.Some? ==> m.meta.value in metas
    ensures MetasOk(msgs[h := m], stray, engines, AfterMetaAdd(m, metas))
  {
    var msgs', metas' := msgs[h := m], AfterMetaAdd(m, metas);
    Update(msgs, h, m);
    forall x: Meta ensures MetaOk(msgs', stray, engines, metas', x) {
      assert MetaOk(msgs, stray, engines, metas, x);
      if m.meta == Some(x) {
        MetaHoldersAfter(msgs, stray, msgs', stray, h, x);
        assert h in MetaHolders(msgs', stray, x);
      } else {
        OtherMeta(msgs, stray, engines, metas, msgs', stray, metas', h, x);
      }
    }
  }

  /** `dst`, which owns nothing, takes over everything that `src` owns. */
  lemma Moves(msgs: Table, spent: set<Handle>, loose: multiset<Content>, cells: map<Content, nat>, dst: Handle,
              src: Handle)
    requires ContentsOk(msgs, spent, loose, cells) && src in msgs && src !in spent && dst in msgs && dst !in spent
    requires ContentOf(msgs[dst]) == None
    ensures ContentsOk(msgs[dst := msgs[src]][src := NewMsg], spent, loose, cells)
  {
    var msgs' := msgs[dst := msgs[src]][src := NewMsg];
    forall x: Content ensures CountOk(msgs', spent, loose, cells, x) {
      assert CountOk(msgs, spent, loose, cells, x);
      var hs := Holders(msgs, spent, x);
      if ContentOf(msgs[src]) == Some(x) {
        MovesHere(msgs, spent, loose, cells, dst, src, x);
      } else {
        assert Holders(msgs', spent, x) == hs;
      }
    }
  }

  lemma MovesHere(msgs: Table, spent: set<Handle>, loose: multiset<Content>, cells: map<Content, nat>, dst: Handle,
                  src: Handle, c: Content)
    requires CountOk(msgs, spent, loose, cells, c) && src in msgs && src !in spent && dst in msgs && dst !in spent
             && dst != src
    requires ContentOf(msgs[dst]) == None && ContentOf(msgs[src]) == Some(c)
    ensures CountOk(msgs[dst := msgs[src]][src := NewMsg], spent, loose, cells, c)
  {
    var hs := Holders(msgs, spent, c);
    assert Holders(msgs[dst := msgs[src]][src := NewMsg], spent, c) == hs - {src} + {dst};
    SameSize(hs, dst, src);
  }

  lemma SameSize(hs: set<Handle>, dst: Handle, src: Handle)
    requires src in hs && dst !in hs
    ensures |hs - {src} + {dst}| == |hs|
  {
  }

  lemma MetaMoves(msgs: Table, stray: set<Handle>, engines: multiset<Meta>, metas: map<Meta, nat>, dst: Handle,
                  src: Handle)
    requires MetasOk(msgs, stray, engines, metas) && src in msgs && dst in msgs && src !in stray && dst !in stray
    requires msgs[dst].meta == None
    ensures MetasOk(msgs[dst := msgs[src]][src := NewMsg], stray, engines, metas)
  {
    var msgs' := msgs[dst := msgs[src]][src := NewMsg];
    forall x: Meta ensures MetaOk(msgs', stray, engines, metas, x) {
      assert MetaOk(msgs, stray, engines, metas, x);
      var hs := MetaHolders(msgs, stray, x);
      if msgs[src].meta == Some(x) {
        MetaMovesHere(msgs, stray, dst, src, x);
      } else {
        assert MetaHolders(msgs', stray, x) == hs;
      }
    }
  }

  lemma MetaMovesHere(msgs: Table, stray: set<Handle>, dst: Handle, src: Handle, d: Meta)
    requires src in msgs && dst in msgs && dst != src && src !in stray && dst !in stray
    requires msgs[dst].meta == None && msgs[src].meta == Some(d)
    ensures |MetaHolders(msgs[dst := msgs[src]][src := NewMsg], stray, d)| == |MetaHolders(msgs, stray, d)|
  {
    var hs := MetaHolders(msgs, stray, d);
    assert MetaHolders(msgs[dst := msgs[src]][src := NewMsg], stray, d) == hs - {src} + {dst};
    SameSize(hs, dst, src);
  }

  /** The number of references that an engine holds changes to `n`. */
  lemma EngineChanges(msgs: Table, stray: set<Handle>, engines: multiset<Meta>, metas: map<Meta, nat>, d: Meta, n: nat)
    requires MetasOk(msgs, stray, engines, metas)
    ensures var k := |MetaHolders(msgs, stray, d)| + n;
            MetasOk(msgs, stray, engines[d := n], if k > 0 then metas[d := k] else metas - {d})
  {
    var k := |MetaHolders(msgs, stray, d)| + n;
    var engines', metas' := engines[d := n], if k > 0 then metas[d := k] else metas - {d};
    forall x: Meta ensures MetaOk(msgs, stray, engines', metas', x) {
      assert MetaOk(msgs, stray, engines, metas, x);
    }
  }

  /** A handle stops owning its reference, which becomes loose. */
  lemma Lends(msgs: Table, spent: set<Handle>, loose: multiset<Content>, cells: map<Content, nat>, h: Handle)
    requires ContentsOk(msgs, spent, loose, cells) && h in msgs && h !in spent
    ensures ContentsOk(msgs, spent + {h}, LooseAfter(loose, msgs[h], 1), cells)
  {
    var spent', loose' := spent + {h}, LooseAfter(loose, msgs[h], 1);
    forall x: Content ensures CountOk(msgs, spent', loose', cells, x) {
      assert CountOk(msgs, spent, loose, cells, x);
      HoldersAfter(msgs, spent, msgs, spent', h, x);
    }
  }

  /** What `rm_refs (n)` makes of the counter. */
  function AfterRemove(m: Msg, cells: map<Content, nat>, n: nat): map<Content, nat> {
    match ContentOf(m)
    case None => cells
    case Some(c) =>
      if n == 0 || c !in cells then cells
      else if !m.shared || cells[c] <= n then cells - {c}
      else cells[c := cells[c] - n]
  }

  /** Does giving back `n` references take that of the handle itself, too? */
  predicate UsesUp(loose: multiset<Content>, m: Msg, n: nat) {
    ContentOf(m).Some? && n > loose[ContentOf(m).value]
  }

  /** A message that had nothing to share is closed. */
  function AfterRmRefs(msgs: Table, h: Handle, n: nat): Table
    requires h in msgs
  {
    if n > 0 && (ContentOf(msgs[h]).None? || !msgs[h].shared) then msgs[h := ClosedMsg(msgs[h])] else msgs
  }

  /** References are given back: loose ones, and that of `h` itself if there is one more to give. */
  lemma Removes(msgs: Table, spent: set<Handle>, loose: multiset<Content>, cells: map<Content, nat>, h: Handle, n: nat)
    requires ContentsOk(msgs, spent, loose, cells) && n > 0 && h in msgs && h !in spent
    requires ContentOf(msgs[h]).Some? ==> loose[ContentOf(msgs[h]).value] + 1 >= n
    ensures ContentsOk(msgs, if UsesUp(loose, msgs[h], n) then spent + {h} else spent, Taken(loose, msgs[h], n),
                       AfterRemove(msgs[h], cells, n))
    ensures ContentOf(msgs[h]).Some? ==>
              var c := ContentOf(msgs[h]).value;
              c in cells && if msgs[h].shared then cells[c] >= n else n == 1 && loose[c] == 0
  {
    var m := msgs[h];
    var loose', cells' := Taken(loose, m, n), AfterRemove(m, cells, n);
    var spent' := if UsesUp(loose, m, n) then spent + {h} else spent;
    if ContentOf(m).Some? { OwnerHasCell(msgs, spent, loose, cells, h, ContentOf(m).value); }
    forall x: Content ensures CountOk(msgs, spent', loose', cells', x) {
      assert CountOk(msgs, spent, loose, cells, x);
      HoldersAfter(msgs, spent, msgs, spent', h, x);
    }
  }

  lemma SameContent(msgs: Table, spent: set<Handle>, loose: multiset<Content>, cells: map<Content, nat>, h: Handle,
                    m: Msg)
    requires ContentsOk(msgs, spent, loose, cells) && h in msgs && m.kind == msgs[h].kind && m.shared == msgs[h].shared
    ensures ContentsOk(msgs[h := m], spent, loose, cells)
  {
    var msgs' := msgs[h := m];
    forall x: Content ensures CountOk(msgs', spent, loose, cells, x) {
      assert CountOk(msgs, spent, loose, cells, x);
      assert Holders(msgs', spent, x) == Holders(msgs, spent, x);
    }
  }

  /** A handle that owns no content is closed. */
  lemma Discarded(msgs: Table, spent: set<Handle>, loose: multiset<Content>, cells: map<Content, nat>, h: Handle)
    requires ContentsOk(msgs, spent, loose, cells) && h in msgs && (h in spent || ContentOf(msgs[h]) == None)
    ensures ContentsOk(msgs[h := ClosedMsg(msgs[h])], spent, loose, cells)
  {
    var msgs' := msgs[h := ClosedMsg(msgs[h])];
    forall x: Content ensures CountOk(msgs', spent, loose, cells, x) {
      assert CountOk(msgs, spent, loose, cells, x);
      assert Holders(msgs', spent, x) == Holders(msgs, spent, x);
    }
  }

  /** Counting is as `metadata_t` means it exactly as long as no handle is stray. */
  lemma NoneStrayExactly(msgs: Table, stray: set<Handle>, engines: multiset<Meta>, metas: map<Meta, nat>)
    requires MetasOk(msgs, stray, engines, metas) && forall h :: h in stray ==> h in msgs && msgs[h].meta.Some?
    ensures MetasOk(msgs, {}, engines, metas) <==> stray == {}
  {
    if stray != {} {
      var h :| h in stray;
      var d := msgs[h].meta.value;
      var s, t := MetaHolders(msgs, stray, d), MetaHolders(msgs, {}, d);
      assert s <= t - {h} && h in t;
      Smaller(s, t - {h});
      assert |t - {h}| == |t| - 1;
      assert MetaOk(msgs, stray, engines, metas, d);
      assert !MetaOk(msgs, {}, engines, metas, d);
    }
  }

  lemma {:induction false} Smaller(s: set<Handle>, t: set<Handle>)
    requires s <= t
    ensures |s| <= |t|
    decreases s
  {
    if s != {} {
      var h :| h in s;
      Smaller(s - {h}, t - {h});
    }
  }

  // ---------------------------------------------------------------- the operations

  /** `rm_refs` closes the message or leaves it alone, and leaves all others alone. */
  lemma ClosedOrLeft(msgs: Table, h: Handle, n: nat)
    requires h in msgs
    ensures var after := AfterRmRefs(msgs, h, n);
            && (after == msgs || after == msgs[h := msgs[h].(kind := Closed, meta := None)])
            && (after != msgs ==> n > 0 && (ContentOf(msgs[h]).None? || !msgs[h].shared))
            && (n > 0 && (ContentOf(msgs[h]).None? || !msgs[h].shared) ==> after[h].kind == Closed)
  {
  }

  /** The handles and who owns what. */
  datatype Books = Books(msgs: Table, spent: set<Handle>, loose: multiset<Content>, stray: set<Handle>)

  /** What a bitwise copy does to them. */
  ghost function AfterRawCopy(b: Books, dst: Handle, src: Handle): Books
    requires src in b.msgs
  {
    var m := b.msgs[src];
    Books(b.msgs[dst := m],
          if HandsOn(b.loose, m) then b.spent + {src} else b.spent,
          Taken(b.loose, m, 1),
          if m.meta.Some? then b.stray + {dst} else b.stray)
  }

  /** A reader takes the message out of its place in a queue; the place is free again. */
  ghost function AfterTakeOut(b: Books, dst: Handle, slot: Handle): Books
    requires slot in b.msgs
  {
    Books((b.msgs - {slot})[dst := b.msgs[slot]], b.spent - {dst}, b.loose,
          if slot in b.stray then b.stray - {slot} + {dst} else b.stray)
  }

  lemma HoldersPass(hs: set<Handle>, after: set<Handle>, dst: Handle, slot: Handle)
    requires dst !in hs && slot !in after && dst != slot && after - {dst} == hs - {slot}
             && (slot in hs <==> dst in after)
    ensures |after| == |hs|
  {
    SetCount(hs, hs - {slot}, slot);
    SetCount(after, after - {dst}, dst);
  }

  /** The content goes from `slot` to `dst`, which owned none. */
  lemma ContentPasses(msgs: Table, spent: set<Handle>, loose: multiset<Content>, cells: map<Content, nat>,
                      dst: Handle, slot: Handle)
    requires ContentsOk(msgs, spent, loose, cells) && slot in msgs && slot !in spent && dst != slot
    requires dst in msgs ==> ContentOf(msgs[dst]) == None || dst in spent
    ensures ContentsOk((msgs - {slot})[dst := msgs[slot]], spent - {dst}, loose, cells)
  {
    var msgs', spent' := (msgs - {slot})[dst := msgs[slot]], spent - {dst};
    forall c: Content ensures CountOk(msgs', spent', loose, cells, c) {
      assert CountOk(msgs, spent, loose, cells, c);
      var hs, after := Holders(msgs, spent, c), Holders(msgs', spent', c);
      assert after - {dst} == hs - {slot};
      HoldersPass(hs, after, dst, slot);
      assert forall h :: h in after ==>
             msgs'[h] == msgs[if h == dst then slot else h] && (if h == dst then slot else h) in hs;
    }
  }

  lemma MetaPasses(msgs: Table, stray: set<Handle>, engines: multiset<Meta>, metas: map<Meta, nat>, dst: Handle,
                   slot: Handle)
    requires MetasOk(msgs, stray, engines, metas) && slot in msgs && dst !in stray && dst != slot
    requires dst in msgs ==> msgs[dst].meta == None
    ensures MetasOk((msgs - {slot})[dst := msgs[slot]], if slot in stray then stray - {slot} + {dst} else stray,
                    engines, metas)
  {
    var msgs', stray' := (msgs - {slot})[dst := msgs[slot]], if slot in stray then stray - {slot} + {dst} else stray;
    forall d: Meta ensures MetaOk(msgs', stray', engines, metas, d) {
      assert MetaOk(msgs, stray, engines, metas, d);
      var hs, after := MetaHolders(msgs, stray, d), MetaHolders(msgs', stray', d);
      assert after - {dst} == hs - {slot};
      HoldersPass(hs, after, dst, slot);
    }
  }

  class Messages {
    const maxVsmSize: nat
    var msgs: Table                  // every `msg_t` that was ever initialised
    var cells: map<Content, nat>     // the contents in memory and their counters
    var metas: map<Meta, nat>        // the metadata objects in memory and their counters
    ghost var spent: set<Handle>
    ghost var loose: multiset<Content>
    ghost var stray: set<Handle>
    ghost var engines: multiset<Meta>   // references held outside of messages
    ghost var used: set<Content>        // every content that was ever allocated

    ghost predicate Valid()
      reads this
    {
      && ContentsOk(msgs, spent, loose, cells)
      && MetasOk(msgs, stray, engines, metas)
      && spent <= msgs.Keys
      && (forall h :: h in stray ==> h in msgs && msgs[h].meta.Some?)
      && (forall h :: h in msgs && ContentOf(msgs[h]).Some? ==> ContentOf(msgs[h]).value in used)
      && (forall c :: c in loose ==> c in used)
    }

    ghost function View(): Books
      reads this
    {
      Books(msgs, spent, loose, stray)
    }

    /** The handle may be overwritten: it owns nothing. */
    ghost predicate Blank(h: Handle)
      reads this
    {
      h in msgs ==> msgs[h].meta == None && (ContentOf(msgs[h]) == None || h in spent)
    }

    /** The handle points to nothing that it does not own. */
    ghost predicate Owner(h: Handle)
      reads this
    {
      h in msgs && h !in spent && h !in stray
    }

    /** `init` and its variants for messages without a content. */
    method Init(h: Handle, m: Msg)
      requires Valid() && Blank(h) && ContentOf(m) == None && m.meta == None
      modifies this`msgs, this`spent
      ensures Valid() && msgs == old(msgs)[h := m] && spent == old(spent) - {h}
    {
      Overwritten(msgs, spent, loose, cells, h, m);
      MetaKept(msgs, stray, engines, metas, h, m, stray);
      msgs, spent := msgs[h := m], spent - {h};
    }

    /** `init_size`, `init_data` and `init_external_storage` where they make a new content. */
    method InitContent(h: Handle, c: Content, zeroCopy: bool, body: nat)
      requires Valid() && Blank(h) && c !in used
      modifies this`msgs, this`spent, this`cells, this`used
      ensures Valid() && spent == old(spent) - {h} && used == old(used) + {c}
      ensures msgs == old(msgs)[h := Msg(if zeroCopy then ZeroCopy(c) else Long(c), false, false, None, body)]
      ensures cells.Keys == old(cells).Keys + {c} && c !in old(cells)
    {
      var m := Msg(if zeroCopy then ZeroCopy(c) else Long(c), false, false, None, body);
      Allocated(msgs, spent, loose, cells, h, m, c);
      MetaKept(msgs, stray, engines, metas, h, m, stray);
      msgs, spent, cells, used := msgs[h := m], spent - {h}, cells[c := 0], used + {c};
    }

    method InitSize(h: Handle, size: nat, c: Content, body: nat)
      requires Valid() && Blank(h) && c !in used
      modifies this`msgs, this`spent, this`cells, this`used
      ensures Valid() && spent == old(spent) - {h}
      ensures msgs == old(msgs)[h := Msg(if size <= maxVsmSize then Vsm else Long(c), false, false, None, body)]
      ensures cells.Keys == old(cells).Keys + if size <= maxVsmSize then {} else {c}
    {
      if size <= maxVsmSize {
        Init(h, Msg(Vsm, false, false, None, body));
      } else {
        InitContent(h, c, false, body);
      }
    }

    /** Gives up a reference and frees the content with the last one. */
    method ReleaseContent(m: Msg)
      requires ContentOf(m).Some? ==> var c := ContentOf(m).value; c in cells && (m.shared ==> cells[c] > 0)
      modifies this`cells
      ensures cells == AfterClose(m, old(cells))
    {
      if ContentOf(m).Some? {
        var c := ContentOf(m).value;
        if !m.shared {
          cells := cells - {c};
        } else {
          var remains := Lower(c, 1);
        }
      }
    }

    method ReleaseMeta(m: Msg)
      requires m.meta.Some? ==> m.meta.value in metas && metas[m.meta.value] > 0
      modifies this`metas
      ensures metas == AfterMetaDrop(m, old(metas))
    {
      if m.meta.Some? {
        var d := m.meta.value;
        metas := metas[d := metas[d] - 1];
        if metas[d] == 0 { metas := metas - {d}; }
      }
    }

    /** Fails on a message that is not open. */
    method Close(h: Handle) returns (ok: bool)
      requires Valid() && Owner(h)
      modifies this`msgs, this`cells, this`metas
      ensures Valid() && ok == (old(msgs)[h].kind != Closed)
      ensures msgs == if ok then old(msgs)[h := ClosedMsg(old(msgs)[h])] else old(msgs)
      ensures ok ==> msgs[h] == old(msgs[h]).(kind := Closed, meta := None)
      ensures cells.Keys <= old(cells).Keys
    {
      if msgs[h].kind == Closed { return false; }
      var m := msgs[h];
      Closes(msgs, spent, loose, cells, h);
      MetaDrops(msgs, stray, engines, metas, h, ClosedMsg(m));
      ReleaseContent(m);
      ReleaseMeta(m);
      msgs := msgs[h := ClosedMsg(m)];
      ok := true;
    }

    method AddRefs(h: Handle, n: nat)
      requires Valid() && Owner(h) && msgs[h].meta == None
      modifies this`msgs, this`cells, this`loose
      ensures Valid() && msgs == old(msgs)[h := Marked(old(msgs)[h], n)]
      ensures loose == LooseAfter(old(loose), old(msgs)[h], n) && cells.Keys == old(cells).Keys
      ensures SameMessage(msgs[h], old(msgs[h]))
      ensures forall c :: loose[c] == old(loose[c]) + if ContentOf(old(msgs[h])) == Some(c) then n else 0
    {
      Adds(msgs, spent, loose, cells, h, n);
      var m := msgs[h];
      MetaKept(msgs, stray, engines, metas, h, Marked(m, n), stray);
      loose := LooseAfter(loose, m, n);
      if n == 0 {
        assert msgs[h := m] == msgs;
        return;
      }
      if ContentOf(m).Some? {
        Raise(h, n);
      }
      assert msgs == old(msgs)[h := Marked(m, n)];
    }

    /** The counter part of `add_refs` and of `copy`. */
    method Raise(h: Handle, n: nat)
      requires h in msgs && ContentOf(msgs[h]).Some? && ContentOf(msgs[h]).value in cells && n > 0
      modifies this`msgs, this`cells
      ensures cells == AfterAdd(old(msgs)[h], old(cells), n) && msgs == old(msgs)[h := Marked(old(msgs)[h], n)]
    {
      var m := msgs[h];
      var c := ContentOf(m).value;
      if m.shared {
        cells := cells[c := cells[c] + n];
      } else {
        cells := cells[c := n + 1];
        msgs := msgs[h := m.(shared := true)];
      }
      assert msgs == old(msgs)[h := Marked(m, n)];
    }

    /**
     The bitwise copy that `ypipe_t::write` makes. It takes over a loose reference, or that of `src` if
     there is none. Metadata is copied without being counted.
     */
    method RawCopy(dst: Handle, src: Handle)
      requires Valid() && src in msgs && src !in spent && dst !in msgs
      modifies this`msgs, this`loose, this`spent, this`stray
      ensures Valid() && View() == AfterRawCopy(old(View()), dst, src) && msgs[dst] == old(msgs[src])
    {
      var m := msgs[src];
      Takes(msgs, spent, loose, cells, dst, src);
      spent := if HandsOn(loose, m) then spent + {src} else spent;
      loose := Taken(loose, m, 1);
      ghost var after := if m.meta.Some? then stray + {dst} else stray;
      MetaKept(msgs, stray, engines, metas, dst, m, after);
      stray := after;
      msgs := msgs[dst := m];
    }

    /**
     The bitwise copy that `ypipe_t::read` and `unwrite` make of a place in the queue. Everything that
     the place held now belongs to `dst`, and the place can be written to again.
     */
    method TakeOut(dst: Handle, slot: Handle)
      requires Valid() && slot in msgs && slot !in spent && Blank(dst) && dst != slot
      modifies this`msgs, this`spent, this`stray
      ensures Valid() && View() == AfterTakeOut(old(View()), dst, slot)
      ensures slot !in msgs && msgs[dst] == old(msgs[slot])
    {
      ContentPasses(msgs, spent, loose, cells, dst, slot);
      MetaPasses(msgs, stray, engines, metas, dst, slot);
      ghost var b := AfterTakeOut(View(), dst, slot);
      spent, stray := b.spent, b.stray;
      msgs := (msgs - {slot})[dst := msgs[slot]];
      assert msgs == b.msgs;
    }

    /**
     Both handles must be open; the content gets one more holder, the old content of `dst` one less. A
     message that is copied onto itself is closed.
     */
    method Copy(dst: Handle, src: Handle) returns (ok: bool)
      requires Valid() && Owner(dst) && Owner(src)
      modifies this`msgs, this`cells, this`metas, this`loose
      ensures Valid() && loose == old(loose)
      ensures ok == (old(msgs)[src].kind != Closed && old(msgs)[dst].kind != Closed)
      ensures msgs == if !ok then old(msgs)
                      else if dst == src then old(msgs)[src := ClosedMsg(old(msgs)[src])]
                      else old(msgs)[src := Marked(old(msgs)[src], 1)][dst := Marked(old(msgs)[src], 1)]
      ensures ok && dst != src ==> SameMessage(msgs[dst], old(msgs[src])) && msgs[src] == msgs[dst]
    {
      if msgs[src].kind == Closed { return false; }
      ok := Close(dst);
      if !ok { return; }
      Duplicate(dst, src);
    }

    /** `copy` after the old content was given up. */
    method Duplicate(dst: Handle, src: Handle)
      requires Valid() && Owner(dst) && Owner(src) && ContentOf(msgs[dst]) == None && msgs[dst].meta == None
      modifies this`msgs, this`cells, this`metas, this`loose
      ensures Valid() && loose == old(loose)
      ensures msgs == old(msgs)[src := Marked(old(msgs)[src], 1)][dst := Marked(old(msgs)[src], 1)]
    {
      ghost var before, m := loose, msgs[src];
      Share(src);
      assert !HandsOn(loose, Marked(m, 1)) && Taken(loose, Marked(m, 1), 1) == before;
      Assign(dst, src);
    }

    /** `*this = src_` after the reference counts went up. */
    method Assign(dst: Handle, src: Handle)
      requires Valid() && Owner(dst) && Owner(src)
      requires ContentOf(msgs[dst]) == None && msgs[dst].meta == None && !HandsOn(loose, msgs[src])
      modifies this`msgs, this`metas, this`loose
      ensures Valid() && msgs == old(msgs)[dst := old(msgs)[src]] && loose == Taken(old(loose), old(msgs)[src], 1)
    {
      Takes(msgs, spent, loose, cells, dst, src);
      MetaShares(msgs, stray, engines, metas, dst, src);
      if msgs[src].meta.Some? {
        metas := metas[msgs[src].meta.value := metas[msgs[src].meta.value] + 1];
      }
      loose := Taken(loose, msgs[src], 1);
      msgs := msgs[dst := msgs[src]];
    }

    /** One reference more, for the copy that is about to be made. */
    method Share(src: Handle)
      requires Valid() && Owner(src)
      modifies this`msgs, this`cells, this`loose
      ensures Valid() && msgs == old(msgs)[src := Marked(old(msgs)[src], 1)]
      ensures loose == LooseAfter(old(loose), old(msgs)[src], 1)
    {
      Adds(msgs, spent, loose, cells, src, 1);
      var m := msgs[src];
      MetaKept(msgs, stray, engines, metas, src, Marked(m, 1), stray);
      loose := LooseAfter(loose, m, 1);
      if ContentOf(m).Some? {
        Raise(src, 1);
      }
      assert msgs == old(msgs)[src := Marked(m, 1)];
    }

    /** Both handles must be open. A message that is moved onto itself is lost. */
    method Move(dst: Handle, src: Handle) returns (ok: bool)
      requires Valid() && Owner(dst) && Owner(src)
      modifies this`msgs, this`cells, this`metas
      ensures Valid()
      ensures ok == (old(msgs)[src].kind != Closed && old(msgs)[dst].kind != Closed)
      ensures msgs == if ok then old(msgs)[dst := old(msgs)[src]][src := NewMsg] else old(msgs)
    {
      if msgs[src].kind == Closed { return false; }
      ok := Close(dst);
      if !ok { return; }
      Moves(msgs, spent, loose, cells, dst, src);
      MetaMoves(msgs, stray, engines, metas, dst, src);
      msgs := msgs[dst := msgs[src]];
      msgs := msgs[src := NewMsg];
    }

    method SetMetadata(h: Handle, d: Meta)
      requires Valid() && Owner(h) && msgs[h].meta == None && d in metas
      modifies this`msgs, this`metas
      ensures Valid() && msgs == old(msgs)[h := old(msgs)[h].(meta := Some(d))]
    {
      var m := msgs[h].(meta := Some(d));
      MetaAttaches(msgs, stray, engines, metas, h, m);
      SameContent(msgs, spent, loose, cells, h, m);
      metas := metas[d := metas[d] + 1];
      msgs := msgs[h := m];
    }

    method ResetMetadata(h: Handle)
      requires Valid() && Owner(h)
      modifies this`msgs, this`metas
      ensures Valid() && msgs == old(msgs)[h := old(msgs)[h].(meta := None)]
    {
      var m := msgs[h];
      MetaDrops(msgs, stray, engines, metas, h, m.(meta := None));
      SameContent(msgs, spent, loose, cells, h, m.(meta := None));
      ReleaseMeta(m);
      msgs := msgs[h := m.(meta := None)];
    }

    /** A new metadata object starts with one reference, that of its creator. */
    method NewMetadata(d: Meta)
      requires Valid() && d !in metas
      modifies this`metas, this`engines
      ensures Valid() && metas == old(metas)[d := 1] && engines == old(engines)[d := 1]
    {
      assert MetaOk(msgs, stray, engines, metas, d);
      EngineChanges(msgs, stray, engines, metas, d, 1);
      metas, engines := metas[d := 1], engines[d := 1];
    }

    /** The creator drops its reference. */
    method DropMetadata(d: Meta)
      requires Valid() && engines[d] > 0
      modifies this`metas, this`engines
      ensures Valid() && engines == old(engines)[d := old(engines)[d] - 1]
    {
      assert MetaOk(msgs, stray, engines, metas, d);
      EngineChanges(msgs, stray, engines, metas, d, engines[d] - 1);
      ghost var k, before := |MetaHolders(msgs, stray, d)| + engines[d] - 1, metas;
      assert metas[d] == k + 1;
      engines := engines[d := engines[d] - 1];
      metas := metas[d := metas[d] - 1];
      if metas[d] == 0 { metas := metas - {d}; }
      assert metas == if k > 0 then before[d := k] else before - {d};
    }

    /** From here on the reference of `h` counts as loose. */
    ghost method Lend(h: Handle)
      requires Valid() && h in msgs && h !in spent
      modifies this`spent, this`loose
      ensures Valid() && spent == old(spent) + {h} && loose == LooseAfter(old(loose), msgs[h], 1)
    {
      Lends(msgs, spent, loose, cells, h);
      loose := LooseAfter(loose, msgs[h], 1);
      spent := spent + {h};
    }

    /**
     Gives back `n` references: loose ones, and that of `h` itself if `n` is one more than there are
     loose ones. False if the message is used up: the content is freed exactly if nothing is left.
     */
    method RmRefs(h: Handle, n: nat) returns (remains: bool)
      requires Valid() && Owner(h) && msgs[h].meta == None
      requires ContentOf(msgs[h]).Some? ==> loose[ContentOf(msgs[h]).value] + 1 >= n
      modifies this`msgs, this`cells, this`loose, this`spent
      ensures Valid() && loose == Taken(old(loose), old(msgs)[h], n)
      ensures spent == if UsesUp(old(loose), old(msgs)[h], n) then old(spent) + {h} else old(spent)
      ensures msgs == AfterRmRefs(old(msgs), h, n) && (h !in spent ==> ContentOf(msgs[h]) == ContentOf(old(msgs)[h]))
      ensures ContentOf(old(msgs)[h]).Some? ==> (remains <==> ContentOf(old(msgs)[h]).value in cells)
      ensures ContentOf(old(msgs)[h]).None? ==> (remains <==> n == 0)
    {
      if n == 0 {
        if ContentOf(msgs[h]).Some? { OwnerHasCell(msgs, spent, loose, cells, h, ContentOf(msgs[h]).value); }
        return true;
      }
      remains := GiveSomeBack(h, n);
    }

    method GiveSomeBack(h: Handle, n: nat) returns (remains: bool)
      requires Valid() && Owner(h) && msgs[h].meta == None && n > 0
      requires ContentOf(msgs[h]).Some? ==> loose[ContentOf(msgs[h]).value] + 1 >= n
      modifies this`msgs, this`cells, this`loose, this`spent
      ensures Valid() && loose == Taken(old(loose), old(msgs)[h], n)
      ensures spent == if UsesUp(old(loose), old(msgs)[h], n) then old(spent) + {h} else old(spent)
      ensures msgs == AfterRmRefs(old(msgs), h, n) && (h !in spent ==> ContentOf(msgs[h]) == ContentOf(old(msgs)[h]))
      ensures ContentOf(old(msgs)[h]).Some? ==> (remains <==> ContentOf(old(msgs)[h]).value in cells)
      ensures ContentOf(old(msgs)[h]).None? ==> !remains
    {
      GiveBack(h, n);
      remains := CloseOrLower(h, n);
    }

    method CloseOrLower(h: Handle, n: nat) returns (remains: bool)
      requires h in msgs && msgs[h].meta == None && n > 0 && MetasOk(msgs, stray, engines, metas)
      requires ContentsOk(msgs, spent, loose, AfterRemove(msgs[h], cells, n))
      requires ContentOf(msgs[h]).Some? ==>
                 var c := ContentOf(msgs[h]).value;
                 c in cells && if msgs[h].shared then cells[c] >= n else h in spent
      modifies this`msgs, this`cells
      ensures ContentsOk(msgs, spent, loose, cells) && MetasOk(msgs, stray, engines, metas)
      ensures msgs == AfterRmRefs(old(msgs), h, n)
      ensures ContentOf(old(msgs)[h]).Some? ==> (remains <==> ContentOf(old(msgs)[h]).value in cells)
      ensures ContentOf(old(msgs)[h]).None? ==> !remains
    {
      if ContentOf(msgs[h]).None? || !msgs[h].shared {
        CloseUnshared(h, n);
        return false;
      }
      remains := LowerShared(h, n);
    }

    method LowerShared(h: Handle, n: nat) returns (remains: bool)
      requires h in msgs && ContentOf(msgs[h]).Some? && msgs[h].shared && n > 0
      requires ContentOf(msgs[h]).value in cells && cells[ContentOf(msgs[h]).value] >= n
      requires ContentsOk(msgs, spent, loose, AfterRemove(msgs[h], cells, n))
      modifies this`cells
      ensures ContentsOk(msgs, spent, loose, cells) && (remains <==> ContentOf(msgs[h]).value in cells)
    {
      ghost var before := cells;
      remains := Lower(ContentOf(msgs[h]).value, n);
      assert cells == AfterRemove(msgs[h], before, n);
    }

    /** The references are no longer owned, while the counter is still to be lowered. */
    ghost method GiveBack(h: Handle, n: nat)
      requires ContentsOk(msgs, spent, loose, cells) && h in msgs && h !in spent && n > 0
      requires ContentOf(msgs[h]).Some? ==> loose[ContentOf(msgs[h]).value] + 1 >= n
      modifies this`spent, this`loose
      ensures ContentsOk(msgs, spent, loose, AfterRemove(msgs[h], cells, n)) && loose == Taken(old(loose), msgs[h], n)
      ensures spent == if UsesUp(old(loose), msgs[h], n) then old(spent) + {h} else old(spent)
      ensures ContentOf(msgs[h]).Some? ==>
                var c := ContentOf(msgs[h]).value;
                c in cells && if msgs[h].shared then cells[c] >= n else h in spent
      ensures (forall c :: c in loose ==> c in old(loose)) && spent <= old(spent) + {h}
    {
      Removes(msgs, spent, loose, cells, h, n);
      var m := msgs[h];
      spent := if UsesUp(loose, m, n) then spent + {h} else spent;
      loose := Taken(loose, m, n);
    }

    /** `rm_refs` closes a message whose content has no other reference. */
    method CloseUnshared(h: Handle, ghost n: nat)
      requires h in msgs && msgs[h].meta == None && n > 0 && (h in spent || ContentOf(msgs[h]) == None)
      requires MetasOk(msgs, stray, engines, metas) && ContentsOk(msgs, spent, loose, AfterRemove(msgs[h], cells, n))
      requires ContentOf(msgs[h]).Some? ==> ContentOf(msgs[h]).value in cells && !msgs[h].shared
      modifies this`msgs, this`cells
      ensures MetasOk(msgs, stray, engines, metas) && ContentsOk(msgs, spent, loose, cells)
      ensures msgs == old(msgs)[h := ClosedMsg(old(msgs)[h])]
      ensures ContentOf(old(msgs)[h]).Some? ==> ContentOf(old(msgs)[h]).value !in cells
    {
      var m := msgs[h];
      Discarded(msgs, spent, loose, AfterRemove(m, cells, n), h);
      MetaKept(msgs, stray, engines, metas, h, ClosedMsg(m), stray);
      ReleaseContent(m);
      msgs := msgs[h := ClosedMsg(m)];
    }

    /** `refcnt.sub (n)`, and the release of the content if nothing is left. */
    method Lower(c: Content, n: nat) returns (remains: bool)
      requires c in cells && cells[c] >= n
      modifies this`cells
      ensures cells == if old(cells)[c] <= n then old(cells) - {c} else old(cells)[c := old(cells)[c] - n]
      ensures remains <==> c in cells
    {
      cells := cells[c := cells[c] - n];
      remains := cells[c] != 0;
      if !remains { cells := cells - {c}; }
    }
  }
}
