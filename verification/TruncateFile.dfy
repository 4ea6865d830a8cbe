/** i_truncate() as a whole: level by level, and exact if and only if the guard holds. */
module TruncateFile {
  import opened Arith
  import opened BlockMap
  import opened InodeMap
  import opened Truncate

  /** Slot r is as it was. */
  ghost predicate Kept(st: FileState, u: FileState, F: set<nat>, r: nat)
    requires |st.addr| == |u.addr| == ADDRESSES && r < ADDRESSES
  {
    u.addr[r] == st.addr[r] && F !! RootNodes(st, r)
  }

  /** All blocks of slot r have been freed. */
  ghost predicate Gone(st: FileState, u: FileState, F: set<nat>, r: nat)
    requires |st.addr| == |u.addr| == ADDRESSES && r < ADDRESSES
  {
    u.addr[r] == 0 && RootNodes(st, r) <= F
  }

  function Slot(l: nat): nat
    requires 1 <= l <= 3
  {
    DIRECT_BLOCKS + l - 1
  }

  ghost predicate CutDirect(st: FileState, u: FileState, F: set<nat>, g: nat)
    requires |st.addr| == |u.addr| == ADDRESSES
  {
    && u.tables == st.tables
    && forall r :: 0 <= r < DIRECT_BLOCKS ==> if r < g then Kept(st, u, F, r) else Gone(st, u, F, r)
  }

  ghost predicate CutSingle(st: FileState, u: FileState, F: set<nat>, g: nat, B: nat)
    requires |st.addr| == |u.addr| == ADDRESSES
  {
    var b := st.addr[SINGLE_INDIRECT_BLOCK];
    && u.addr[SINGLE_INDIRECT_BLOCK] == b && b in st.tables && |st.tables[b]| == B
    && u.tables == st.tables[b := Cleared(st.tables[b], g)]
    && F * Nodes(st.tables, b, 1) == Freed1(st.tables, b, g)
  }

  ghost predicate CutDouble(st: FileState, u: FileState, F: set<nat>, start: nat, next: nat, B: nat)
    requires |st.addr| == |u.addr| == ADDRESSES
  {
    var b := st.addr[DOUBLE_INDIRECT_BLOCK];
    && u.addr[DOUBLE_INDIRECT_BLOCK] == b && b in st.tables && |st.tables[b]| == B
    && u.tables == Tables2(st.tables, b, start, next, B)
    && F * Nodes(st.tables, b, 2) == Freed2(st.tables, b, start, next)
  }

  ghost predicate CutTriple(st: FileState, u: FileState, F: set<nat>)
    requires |st.addr| == |u.addr| == ADDRESSES
  {
    var b := st.addr[TRIPLE_INDIRECT_BLOCK];
    && u.addr[TRIPLE_INDIRECT_BLOCK] == 0 && b !in F
    && forall x :: x !in Nodes(st.tables, b, 3) ==> SameRow(st.tables, u.tables, x)
  }

  /** The slots of level l have been cut at position g below them. */
  ghost predicate CutAt(st: FileState, u: FileState, F: set<nat>, l: nat, g: nat, B: nat)
    requires |st.addr| == |u.addr| == ADDRESSES && l <= 3 && B > 0
  {
    if l == 0 then CutDirect(st, u, F, g)
    else if st.addr[Slot(l)] == 0 || g == 0 then Gone(st, u, F, Slot(l)) && u.tables == st.tables
    else if l == 1 then CutSingle(st, u, F, g, B)
    else if l == 2 then CutDouble(st, u, F, g / B, g % B, B)
    else CutTriple(st, u, F)
  }

  /** One turn of the loop of i_truncate() frees F, all of it in the slots of level l. */
  ghost predicate CutLevel(st: FileState, u: FileState, F: set<nat>, l: nat, g: nat, B: nat) {
    && |st.addr| == |u.addr| == ADDRESSES && l <= 3 && B > 0
    && u.free == st.free + F && u.blocks == st.blocks - |F|
    && (forall x :: x in F ==> InLevel(st, l, x))
    && (forall r :: 0 <= r < ADDRESSES && Depth(r) != l ==> u.addr[r] == st.addr[r])
    && CutAt(st, u, F, l, g, B)
  }

  ghost predicate InLevel(st: FileState, l: nat, x: nat)
    requires |st.addr| == ADDRESSES
  {
    exists r :: 0 <= r < ADDRESSES && Depth(r) == l && x in RootNodes(st, r)
  }

  /** The levels from level up to l have been dealt with. */
  ghost predicate Progress(st: FileState, u: FileState, F: set<nat>, l: nat, level: nat, g: nat, B: nat)
    requires ValidFile(st, B)
  {
    && level <= 3 && level <= l && Released(st, u, F)
    && (forall r :: 0 <= r < ADDRESSES && (Depth(r) < level || Depth(r) >= l) ==> Kept(st, u, F, r))
    && (forall r :: 0 <= r < ADDRESSES && level < Depth(r) < l ==> Gone(st, u, F, r))
    && (if l == level then u.tables == st.tables else CutAt(st, u, F, level, g, B))
  }

  /** Progress(), unfolded only where it is used. */
  ghost predicate InProgress(st: FileState, u: FileState, F: set<nat>, l: nat, level: nat, g: nat, B: nat)
    requires ValidFile(st, B)
  {
    forall k: nat :: k == l ==> Progress(st, u, F, k, level, g, B)
  }

  lemma ProgressStart(st: FileState, level: nat, g: nat, B: nat)
    requires ValidFile(st, B) && level <= 3
    ensures InProgress(st, st, {}, level, level, g, B)
  {
    assert Progress(st, st, {}, level, level, g, B);
  }

  /** Rows change only below the first level's slot. */
  lemma CutRows(st: FileState, u: FileState, F: set<nat>, level: nat, g: nat, B: nat, r: nat)
    requires ValidFile(st, B) && |u.addr| == ADDRESSES && level <= 3 && r < ADDRESSES && Depth(r) != level
    requires CutAt(st, u, F, level, g, B)
    ensures SameRows(st.tables, u.tables, RootNodes(st, r))
  {
    forall x | x in RootNodes(st, r) ensures SameRow(st.tables, u.tables, x) {
      if level > 0 { assert RootNodes(st, Slot(level)) !! RootNodes(st, r); }
      CutRow1(st, u, F, level, g, B, x);
    }
  }

  lemma CutRow1(st: FileState, u: FileState, F: set<nat>, l: nat, g: nat, B: nat, x: nat)
    requires ValidFile(st, B) && |u.addr| == ADDRESSES && l <= 3 && CutAt(st, u, F, l, g, B)
    requires l > 0 ==> x !in RootNodes(st, Slot(l))
    ensures SameRow(st.tables, u.tables, x)
  {
    if l == 1 && u.tables != st.tables {
      SingleRow(st, u, F, g, B, x);
    } else if l == 2 && u.tables != st.tables {
      assert Tree(st.tables, st.addr[DOUBLE_INDIRECT_BLOCK], 2, B);
      DivNat(g, B);
      DoubleRow(st, u, F, g / B, g % B, B, x);
    }
  }

  lemma SingleRow(st: FileState, u: FileState, F: set<nat>, g: nat, B: nat, x: nat)
    requires |st.addr| == |u.addr| == ADDRESSES && CutSingle(st, u, F, g, B)
    requires st.addr[SINGLE_INDIRECT_BLOCK] != 0 && x !in Nodes(st.tables, st.addr[SINGLE_INDIRECT_BLOCK], 1)
    ensures SameRow(st.tables, u.tables, x)
  {
    assert st.addr[SINGLE_INDIRECT_BLOCK] in Nodes(st.tables, st.addr[SINGLE_INDIRECT_BLOCK], 1);
  }

  lemma DoubleRow(st: FileState, u: FileState, F: set<nat>, start: nat, next: nat, B: nat, x: nat)
    requires |st.addr| == |u.addr| == ADDRESSES && CutDouble(st, u, F, start, next, B) && B > 0
    requires st.addr[DOUBLE_INDIRECT_BLOCK] != 0 && Tree(st.tables, st.addr[DOUBLE_INDIRECT_BLOCK], 2, B)
    requires x !in Nodes(st.tables, st.addr[DOUBLE_INDIRECT_BLOCK], 2)
    ensures SameRow(st.tables, u.tables, x)
  {
    Freed2Rows(st.tables, st.addr[DOUBLE_INDIRECT_BLOCK], start, next, B);
  }

  /** The slots still to be dealt with are as they were. */
  lemma Untouched(st: FileState, u: FileState, F: set<nat>, l: nat, level: nat, g: nat, B: nat, r: nat)
    requires ValidFile(st, B) && Progress(st, u, F, l, level, g, B) && r < ADDRESSES && Depth(r) >= l
    ensures u.addr[r] == st.addr[r] && RootNodes(u, r) == RootNodes(st, r)
    ensures Tree(u.tables, u.addr[r], Depth(r), B) && RootNodes(u, r) !! u.free && 0 !in RootNodes(u, r)
  {
    assert Kept(st, u, F, r);
    if l != level { CutRows(st, u, F, level, g, B, r); }
    NodesFrame(st.tables, u.tables, st.addr[r], Depth(r));
    TreeFrame(st.tables, u.tables, st.addr[r], Depth(r), B);
    NodesNonzero(st.tables, st.addr[r], Depth(r));
    assert RootNodes(st, r) <= FileNodes(st);
  }

  lemma ProgressFirst(st: FileState, v: FileState, G: set<nat>, level: nat, g: nat, B: nat)
    requires ValidFile(st, B) && CutLevel(st, v, G, level, g, B)
    ensures Progress(st, v, G, level + 1, level, g, B)
  {
    forall r | 0 <= r < ADDRESSES && Depth(r) != level ensures Kept(st, v, G, r) {
      forall x | x in G ensures x !in RootNodes(st, r) {
        assert InLevel(st, level, x);
      }
    }
    forall x | x in G ensures x in FileNodes(st) {
      assert InLevel(st, level, x);
    }
  }

  /** Cut at 0, an indirect slot goes whole. */
  lemma CutWhole(u: FileState, v: FileState, G: set<nat>, l: nat, B: nat)
    requires 1 <= l <= 3 && CutLevel(u, v, G, l, 0, B)
    ensures G == RootNodes(u, Slot(l)) && v.addr[Slot(l)] == 0 && v.tables == u.tables
    ensures forall r :: 0 <= r < ADDRESSES && r != Slot(l) ==> v.addr[r] == u.addr[r]
  {
    assert Gone(u, v, G, Slot(l));
    forall x | x in G ensures x in RootNodes(u, Slot(l)) {
      assert InLevel(u, l, x);
    }
  }

  lemma NextReleased(st: FileState, u: FileState, F: set<nat>, v: FileState, G: set<nat>, s: nat)
    requires |st.addr| == |u.addr| == |v.addr| == ADDRESSES && Released(st, u, F) && s < ADDRESSES
    requires G == RootNodes(st, s) && F !! G && v.free == u.free + G && v.blocks == u.blocks - |G|
    ensures Released(st, v, F + G)
  {
    assert RootNodes(st, s) <= FileNodes(st);
  }

  lemma ProgressNext(st: FileState, u: FileState, F: set<nat>, v: FileState, G: set<nat>, l: nat, level: nat, g: nat,
                     B: nat)
    requires ValidFile(st, B) && Progress(st, u, F, l, level, g, B) && level < l <= 3
    requires CutLevel(u, v, G, l, 0, B)
    ensures Progress(st, v, F + G, l + 1, level, g, B)
  {
    var s := Slot(l);
    assert RootNodes(u, s) == RootNodes(st, s) by { Untouched(st, u, F, l, level, g, B, s); }
    CutWhole(u, v, G, l, B);
    assert F !! G by { assert Kept(st, u, F, s); }
    NextReleased(st, u, F, v, G, s);
    OneMoreGone(st, u, F, v, G, l, level, B, s);
    assert CutAt(st, v, F + G, level, g, B) by { CutStays(st, u, F, v, G, level, g, B); }
  }

  lemma OneMoreGone(st: FileState, u: FileState, F: set<nat>, v: FileState, G: set<nat>, l: nat, level: nat, B: nat,
                    s: nat)
    requires |st.addr| == |u.addr| == |v.addr| == ADDRESSES && l <= 3 && level < l && s == Slot(l)
    requires forall r, q :: 0 <= r < q < ADDRESSES ==> RootNodes(st, r) !! RootNodes(st, q)
    requires forall r :: 0 <= r < ADDRESSES && (Depth(r) < level || Depth(r) >= l) ==> Kept(st, u, F, r)
    requires forall r :: 0 <= r < ADDRESSES && level < Depth(r) < l ==> Gone(st, u, F, r)
    requires G == RootNodes(st, s) && v.addr[s] == 0
    requires forall r :: 0 <= r < ADDRESSES && r != s ==> v.addr[r] == u.addr[r]
    ensures forall r :: 0 <= r < ADDRESSES && (Depth(r) < level || Depth(r) >= l + 1) ==> Kept(st, v, F + G, r)
    ensures forall r :: 0 <= r < ADDRESSES && level < Depth(r) < l + 1 ==> Gone(st, v, F + G, r)
    ensures forall r :: 0 <= r < ADDRESSES && Depth(r) == level ==> v.addr[r] == u.addr[r] && G !! RootNodes(st, r)
  {
    forall r | 0 <= r < ADDRESSES && (Depth(r) < level || Depth(r) >= l + 1) ensures Kept(st, v, F + G, r) {
      assert Kept(st, u, F, r);
    }
    forall r | 0 <= r < ADDRESSES && level < Depth(r) < l + 1 ensures Gone(st, v, F + G, r) {
      if r != s { assert Gone(st, u, F, r); }
    }
  }

  lemma CutStays(st: FileState, u: FileState, F: set<nat>, v: FileState, G: set<nat>, level: nat, g: nat, B: nat)
    requires ValidFile(st, B) && |u.addr| == |v.addr| == ADDRESSES && level <= 3 && CutAt(st, u, F, level, g, B)
    requires forall r :: 0 <= r < ADDRESSES && Depth(r) == level ==> v.addr[r] == u.addr[r] && G !! RootNodes(st, r)
    requires v.tables == u.tables
    ensures CutAt(st, v, F + G, level, g, B)
  {
    if level == 0 {
      forall r | 0 <= r < DIRECT_BLOCKS
        ensures if r < g then Kept(st, v, F + G, r) else Gone(st, v, F + G, r)
      {
        assert if r < g then Kept(st, u, F, r) else Gone(st, u, F, r);
      }
    } else {
      assert G !! RootNodes(st, Slot(level));
      if st.addr[Slot(level)] != 0 { assert st.addr[Slot(level)] in RootNodes(st, Slot(level)); }
    }
  }

  // ------------------------------------------------- one turn of the loop of i_truncate()

  /** The slots of level l can be freed. */
  ghost predicate LevelReady(u: FileState, l: nat, B: nat) {
    && |u.addr| == ADDRESSES && B > 0 && 0 !in u.free
    && (forall r :: 0 <= r < ADDRESSES && Depth(r) == l ==> SlotReady(u, r, B))
    && (l == 0 ==> RowApart(u.addr[..DIRECT_BLOCKS], u.free))
  }

  ghost predicate SlotReady(u: FileState, r: nat, B: nat)
    requires |u.addr| == ADDRESSES && r < ADDRESSES
  {
    Tree(u.tables, u.addr[r], Depth(r), B) && RootNodes(u, r) !! u.free
  }

  lemma ProgressReady(st: FileState, u: FileState, F: set<nat>, l: nat, level: nat, g: nat, B: nat)
    requires ValidFile(st, B) && InProgress(st, u, F, l, level, g, B) && l <= 3
    ensures LevelReady(u, l, B)
  {
    assert Progress(st, u, F, l, level, g, B);
    forall r | 0 <= r < ADDRESSES && Depth(r) == l ensures SlotReady(u, r, B) {
      Untouched(st, u, F, l, level, g, B, r);
    }
    if l == 0 { DirectApart(st, u, B); }
    NoZero(st, u, F, B);
  }

  lemma NoZero(st: FileState, u: FileState, F: set<nat>, B: nat)
    requires ValidFile(st, B) && Released(st, u, F)
    ensures 0 !in u.free
  {
    if 0 in F {
      var r :| 0 <= r < ADDRESSES && 0 in RootNodes(st, r);
      NodesNonzero(st.tables, st.addr[r], Depth(r));
    }
  }

  lemma DirectApart(st: FileState, u: FileState, B: nat)
    requires ValidFile(st, B) && |u.addr| == ADDRESSES && u.free == st.free
    requires forall r :: 0 <= r < DIRECT_BLOCKS ==> u.addr[r] == st.addr[r]
    ensures RowApart(u.addr[..DIRECT_BLOCKS], u.free)
  {
    var row := u.addr[..DIRECT_BLOCKS];
    forall j | 0 <= j < |row| && row[j] != 0 ensures row[j] !in u.free {
      assert row[j] in RootNodes(st, j) && RootNodes(st, j) <= FileNodes(st);
    }
    forall i, j | 0 <= i < j < |row| && row[i] != 0 ensures row[i] != row[j] {
      assert RootNodes(st, i) !! RootNodes(st, j);
    }
  }

  /** free_dlevel() has dealt with the slots from g up to hi. */
  function DirectDone(u: FileState, g: nat, hi: nat): FileState
    requires |u.addr| == ADDRESSES && hi <= DIRECT_BLOCKS
  {
    FileState(CutRow(u.addr, g, hi), u.blocks - |RowBlocks(u.addr, g, hi)|, u.tables,
      u.free + RowBlocks(u.addr, g, hi))
  }

  lemma DirectNext(u: FileState, g: nat, b: nat)
    requires |u.addr| == ADDRESSES && g <= b < DIRECT_BLOCKS && RowApart(u.addr[..DIRECT_BLOCKS], u.free)
    ensures var d := DirectDone(u, g, b); var x := u.addr[b];
      && d.addr[b] == x
      && DirectDone(u, g, b + 1) ==
        if x == 0 then d else FileState(Put(d.addr, b, 0), d.blocks - 1, d.tables, d.free + {x})
    ensures u.addr[b] != 0 ==> u.addr[b] !in DirectDone(u, g, b).free
  {
    CutRowNext(u.addr, g, b);
    if u.addr[b] == 0 {
      assert CutRow(u.addr, g, b + 1) == CutRow(u.addr, g, b);
    } else {
      DirectEntryApart(u.addr, u.free, g, b);
    }
  }

  /** The direct slots from g on are freed and cleared. */
  lemma DirectCut(u: FileState, g: nat, B: nat)
    requires |u.addr| == ADDRESSES && B > 0 && RowApart(u.addr[..DIRECT_BLOCKS], {}) && g <= DIRECT_BLOCKS
    ensures CutLevel(u, DirectDone(u, g, DIRECT_BLOCKS), RowBlocks(u.addr, g, DIRECT_BLOCKS), 0, g, B)
  {
    var v, F := DirectDone(u, g, DIRECT_BLOCKS), RowBlocks(u.addr, g, DIRECT_BLOCKS);
    forall x | x in F ensures InLevel(u, 0, x) {
      RowBlocksIn(u.addr, g, DIRECT_BLOCKS, x);
      var r :| g <= r < DIRECT_BLOCKS && u.addr[r] == x && x != 0;
      assert Depth(r) == 0 && x in RootNodes(u, r);
    }
    forall r | 0 <= r < DIRECT_BLOCKS ensures if r < g then Kept(u, v, F, r) else Gone(u, v, F, r) {
      RowBlocksIn(u.addr, g, DIRECT_BLOCKS, u.addr[r]);
      if r < g && u.addr[r] != 0 { DirectKept(u, g, r); }
    }
  }

  lemma DirectKept(u: FileState, g: nat, r: nat)
    requires |u.addr| == ADDRESSES && RowApart(u.addr[..DIRECT_BLOCKS], {}) && r < g <= DIRECT_BLOCKS && u.addr[r] != 0
    ensures u.addr[r] !in RowBlocks(u.addr, g, DIRECT_BLOCKS)
  {
    var row := u.addr[..DIRECT_BLOCKS];
    RowBlocksIn(u.addr, g, DIRECT_BLOCKS, u.addr[r]);
    forall q | g <= q < DIRECT_BLOCKS ensures u.addr[q] != u.addr[r] {
      assert row[q] == u.addr[q] && row[r] == u.addr[r];
    }
  }

  lemma {:induction false} RowBlocksIn(row: seq<nat>, lo: nat, hi: nat, x: nat)
    requires hi <= |row|
    ensures x in RowBlocks(row, lo, hi) <==> exists r :: lo <= r < hi && row[r] == x && x != 0
  {
    if lo < hi { RowBlocksIn(row, lo, hi - 1, x); }
  }

  /** A missing slot needs nothing. */
  lemma HoleCut(u: FileState, l: nat, g: nat, B: nat)
    requires |u.addr| == ADDRESSES && 1 <= l <= 3 && B > 0 && u.addr[Slot(l)] == 0
    ensures CutLevel(u, u, {}, l, g, B)
  {
  }

  lemma SlotCut(u: FileState, v: FileState, F: set<nat>, l: nat, g: nat, B: nat)
    requires |u.addr| == |v.addr| == ADDRESSES && 1 <= l <= 3 && B > 0 && CutAt(u, v, F, l, g, B)
    requires F <= RootNodes(u, Slot(l)) && v.free == u.free + F && v.blocks == u.blocks - |F|
    requires forall r :: 0 <= r < ADDRESSES && r != Slot(l) ==> v.addr[r] == u.addr[r]
    ensures CutLevel(u, v, F, l, g, B)
  {
    forall x | x in F ensures InLevel(u, l, x) {
      assert x in RootNodes(u, Slot(l));
    }
  }

  lemma SingleCut(u: FileState, v: FileState, g: nat, B: nat)
    requires LevelReady(u, 1, B) && u.addr[SINGLE_INDIRECT_BLOCK] != 0 && g < B
    requires Ready1(u.tables, u.addr[SINGLE_INDIRECT_BLOCK], u.free, B)
    requires var b := u.addr[SINGLE_INDIRECT_BLOCK];
      v == FileState(if g == 0 then Put(u.addr, SINGLE_INDIRECT_BLOCK, 0) else u.addr,
        u.blocks - |Freed1(u.tables, b, g)|, Tables1(u.tables, b, g, B), u.free + Freed1(u.tables, b, g))
    ensures CutLevel(u, v, Freed1(u.tables, u.addr[SINGLE_INDIRECT_BLOCK], g), 1, g, B)
  {
    var b := u.addr[SINGLE_INDIRECT_BLOCK];
    var F := Freed1(u.tables, b, g);
    assert (g == 0 ==> F == Nodes(u.tables, b, 1)) && F <= Nodes(u.tables, b, 1) by { Freed1Nodes(u.tables, b, g); }
    assert CutAt(u, v, F, 1, g, B) by { assert F * Nodes(u.tables, b, 1) == F; }
    SlotCut(u, v, F, 1, g, B);
  }

  lemma DoubleFreedAll(t: Tables, b: nat, g: nat, B: nat)
    requires Tree(t, b, 2, B) && b != 0 && B > 0
    ensures b in t && |t[b]| == B && Freed2(t, b, g / B, g % B) <= Nodes(t, b, 2)
    ensures g == 0 ==> Freed2(t, b, g / B, g % B) == Nodes(t, b, 2)
    ensures g == 0 <==> g / B == 0 && g % B == 0
  {
    Freed2Within(t, b, g / B, g % B, B);
    SplitsToZero(g, B);
    if g == 0 { Freed2Whole(t, b, B); }
  }

  lemma DoubleCut(u: FileState, v: FileState, F: set<nat>, g: nat, B: nat)
    requires LevelReady(u, 2, B) && u.addr[DOUBLE_INDIRECT_BLOCK] != 0 && |v.addr| == ADDRESSES
    requires u.addr[DOUBLE_INDIRECT_BLOCK] in u.tables
    requires F == Freed2(u.tables, u.addr[DOUBLE_INDIRECT_BLOCK], g / B, g % B)
    requires v.tables == Tables2(u.tables, u.addr[DOUBLE_INDIRECT_BLOCK], g / B, g % B, B)
    requires v.addr == if g / B == 0 && g % B == 0 then Put(u.addr, DOUBLE_INDIRECT_BLOCK, 0) else u.addr
    requires v.blocks == u.blocks - |F| && v.free == u.free + F
    ensures CutLevel(u, v, F, 2, g, B)
  {
    var b := u.addr[DOUBLE_INDIRECT_BLOCK];
    assert SlotReady(u, DOUBLE_INDIRECT_BLOCK, B);
    assert CutAt(u, v, F, 2, g, B) by {
      DoubleFreedAll(u.tables, b, g, B);
      assert F * Nodes(u.tables, b, 2) == F;
    }
    SlotCut(u, v, F, 2, g, B) by { DoubleFreedAll(u.tables, b, g, B); }
  }

  lemma TripleCut(u: FileState, v: FileState, F: set<nat>, g: nat, B: nat)
    requires LevelReady(u, 3, B) && u.addr[TRIPLE_INDIRECT_BLOCK] != 0
    requires Freed3(u.tables, v.tables, F, u.addr[TRIPLE_INDIRECT_BLOCK], g == 0)
    requires v.addr == Put(u.addr, TRIPLE_INDIRECT_BLOCK, 0) && v.free == u.free + F && v.blocks == u.blocks - |F|
    ensures CutLevel(u, v, F, 3, g, B)
  {
    forall x | x in F ensures InLevel(u, 3, x) {
      assert x in RootNodes(u, TRIPLE_INDIRECT_BLOCK);
    }
  }

  lemma DirectEntryApart(a: seq<nat>, fr: set<nat>, lo: nat, b: nat)
    requires |a| == ADDRESSES && lo <= b < DIRECT_BLOCKS && RowApart(a[..DIRECT_BLOCKS], fr) && a[b] != 0
    ensures a[b] !in fr + RowBlocks(a, lo, b)
  {
    var row := a[..DIRECT_BLOCKS];
    assert row[b] == a[b];
    forall r | lo <= r < b ensures a[r] != a[b] {
      assert row[r] == a[r];
    }
    RowBlocksIn(a, lo, b, a[b]);
  }

  lemma SingleReady(u: FileState, g: nat, B: nat)
    requires LevelReady(u, 1, B) && u.addr[SINGLE_INDIRECT_BLOCK] != 0 && g < B
    ensures Ready1(u.tables, u.addr[SINGLE_INDIRECT_BLOCK], u.free, B) && g % B == g
  {
    assert SlotReady(u, SINGLE_INDIRECT_BLOCK, B);
    TreeReady1(u.tables, u.addr[SINGLE_INDIRECT_BLOCK], u.free, B);
  }

  lemma DoubleReady(u: FileState, B: nat)
    requires LevelReady(u, 2, B) && u.addr[DOUBLE_INDIRECT_BLOCK] != 0
    ensures Hidden2(u.tables, u.addr[DOUBLE_INDIRECT_BLOCK], u.free, B) && u.addr[DOUBLE_INDIRECT_BLOCK] in u.tables
  {
    assert SlotReady(u, DOUBLE_INDIRECT_BLOCK, B);
  }

  lemma TripleReady(u: FileState, g: nat, B: nat)
    requires LevelReady(u, 3, B) && u.addr[TRIPLE_INDIRECT_BLOCK] != 0
    ensures Hidden3(u.tables, u.addr[TRIPLE_INDIRECT_BLOCK], u.free, B)
    ensures B * B > 0 && (g == 0 ==> g / (B * B) == 0)
  {
    assert SlotReady(u, TRIPLE_INDIRECT_BLOCK, B);
    Square(B);
  }

  lemma ReleasedTotals(st: FileState, u: FileState, F: set<nat>, level: nat, g: nat, B: nat)
    requires ValidFile(st, B) && Finished(st, u, F, level, g, B)
    ensures st.free <= u.free && |u.free - st.free| == st.blocks - u.blocks
    ensures u.free - st.free <= FileNodes(st)
  {
    FinishedCut(st, u, F, level, g, B);
    assert u.free - st.free == F;
  }

  /** One more level has been dealt with. */
  lemma ProgressStep(st: FileState, u: FileState, F: set<nat>, v: FileState, G: set<nat>, l: nat, level: nat, g: nat,
                     B: nat)
    requires ValidFile(st, B) && InProgress(st, u, F, l, level, g, B) && level <= l <= 3
    requires CutLevel(u, v, G, l, if l == level then g else 0, B)
    requires l == level ==> u == st && F == {}
    ensures InProgress(st, v, F + G, l + 1, level, g, B)
  {
    if l == level {
      assert F + G == G;
      FirstLevel(st, v, G, level, g, B);
    } else {
      NextLevel(st, u, F, v, G, l, level, g, B);
    }
  }

  lemma FirstLevel(st: FileState, v: FileState, G: set<nat>, level: nat, g: nat, B: nat)
    requires ValidFile(st, B) && level <= 3 && CutLevel(st, v, G, level, g, B)
    ensures InProgress(st, v, G, level + 1, level, g, B)
  {
    ProgressFirst(st, v, G, level, g, B);
    assert Progress(st, v, G, level + 1, level, g, B);
  }

  lemma NextLevel(st: FileState, u: FileState, F: set<nat>, v: FileState, G: set<nat>, l: nat, level: nat, g: nat,
                  B: nat)
    requires ValidFile(st, B) && InProgress(st, u, F, l, level, g, B) && level < l <= 3 && CutLevel(u, v, G, l, 0, B)
    ensures InProgress(st, v, F + G, l + 1, level, g, B)
  {
    assert Progress(st, u, F, l, level, g, B);
    ProgressNext(st, u, F, v, G, l, level, g, B);
    assert Progress(st, v, F + G, l + 1, level, g, B);
  }

  // ------------------------------------------------- exact exactly when the guard holds

  lemma RestBeyond(c: nat, i: nat, d: nat, B: nat)
    requires 0 < d <= 3 && i < B && c >= Span(d, B)
    ensures KidCut(c, i, d - 1, B) >= Span(d - 1, B)
  {
    var m := Span(d - 1, B);
    assert Span(d, B) == B * m;
    MulMono(i + 1, B, m);
    assert (i + 1) * m == i * m + m;
    assert d > 1 ==> m >= 0;
  }

  /** A cut at or past the end of a tree takes nothing. */
  lemma {:induction false} PastEnd(t: Tables, b: nat, d: nat, c: nat, B: nat)
    requires d <= 3 && Tree(t, b, d, B) && B > 0 && c >= Span(d, B) > 0
    ensures Past(t, b, d, c, B) == {}
    decreases d
  {
    if b != 0 && d > 0 {
      var row, e := t[b], d - 1;
      forall i | 0 <= i < |row| ensures PastKid(t, row, i, e, c, B) == {} {
        Kid(t, b, d, i, B);
        RestBeyond(c, i, d, B);
        PastEnd(t, row[i], e, KidCut(c, i, e, B), B);
      }
    }
  }

  /** The file blocks of the levels before the first one end before the cut. */
  lemma Beyond(cut: nat, level: nat, g: nat, B: nat, r: nat)
    requires B > 0 && AtLevel(cut, level, g, B) && r < ADDRESSES && Depth(r) < level
    ensures Depth(r) <= 2 && Rest(cut, RootStart(r, B)) >= Span(Depth(r), B) > 0
  {
    Square(B);
  }

  /** A slot before the cut keeps everything. */
  lemma DoneBefore(st: FileState, u: FileState, F: set<nat>, r: nat, c: nat, B: nat)
    requires |st.addr| == |u.addr| == ADDRESSES && r < ADDRESSES && Kept(st, u, F, r)
    requires Tree(st.tables, st.addr[r], Depth(r), B) && SameRows(st.tables, u.tables, RootNodes(st, r))
    requires B > 0 && Depth(r) <= 2 && c >= Span(Depth(r), B) > 0
    ensures RootDone(st, u, F, r, c, B)
  {
    PastEnd(st.tables, st.addr[r], Depth(r), c, B);
    NodesFrame(st.tables, u.tables, st.addr[r], Depth(r));
    TreeFrame(st.tables, u.tables, st.addr[r], Depth(r), B);
    forall q: Place | GoodPlace(q, B) && q.root == r
      ensures BlockOf(u, q) == if Position(q, B) < c then BlockOf(st, q) else 0
    {
      LookFrame(st.tables, u.tables, st.addr[r], Depth(r), q.path);
      if |q.path| == 2 { Below(q.path[0], q.path[1], B, B); }
    }
  }

  lemma DoneDirect(st: FileState, u: FileState, F: set<nat>, cut: nat, B: nat, r: nat)
    requires |st.addr| == |u.addr| == ADDRESSES && CutDirect(st, u, F, cut) && r < DIRECT_BLOCKS
    ensures RootDone(st, u, F, r, Rest(cut, r), B)
  {
    assert if r < cut then Kept(st, u, F, r) else Gone(st, u, F, r);
    if r < cut { DoneKept(st, u, F, r, cut - r, B); } else { DoneWhole(st, u, F, r, B); }
  }

  /** The first level's slots are cut exactly if the guard holds. */
  lemma DoneFirst(st: FileState, u: FileState, F: set<nat>, cut: nat, level: nat, g: nat, B: nat, r: nat)
    requires ValidFile(st, B) && |u.addr| == ADDRESSES && AtLevel(cut, level, g, B) && CutAt(st, u, F, level, g, B)
    requires TruncGuard(st, cut, B) && r < ADDRESSES && Depth(r) == level
    ensures RootDone(st, u, F, r, Rest(cut, RootStart(r, B)), B)
  {
    if level == 0 {
      DoneDirect(st, u, F, cut, B, r);
    } else {
      assert r == Slot(level) && Rest(cut, RootStart(r, B)) == g;
      if g == 0 { DoneWhole(st, u, F, r, B); }
      else if st.addr[r] == 0 { DoneHole(st, u, F, r, g, B); }
      else if level == 1 { DoneSingle(st, u, F, g, B); }
      else { DoneDouble(st, u, F, g, B); }
    }
  }

  ghost predicate Finished(st: FileState, u: FileState, F: set<nat>, level: nat, g: nat, B: nat)
    requires ValidFile(st, B)
  {
    InProgress(st, u, F, 4, level, g, B)
  }

  lemma FinishedCut(st: FileState, u: FileState, F: set<nat>, level: nat, g: nat, B: nat)
    requires ValidFile(st, B) && Finished(st, u, F, level, g, B)
    ensures level <= 3 && Released(st, u, F) && CutAt(st, u, F, level, g, B)
  {
    assert Progress(st, u, F, 4, level, g, B);
  }

  lemma FinishedSlot(st: FileState, u: FileState, F: set<nat>, level: nat, g: nat, B: nat, r: nat)
    requires ValidFile(st, B) && Finished(st, u, F, level, g, B) && r < ADDRESSES && Depth(r) != level
    ensures |u.addr| == ADDRESSES && if Depth(r) < level then Kept(st, u, F, r) else Gone(st, u, F, r)
    ensures SameRows(st.tables, u.tables, RootNodes(st, r))
  {
    assert Progress(st, u, F, 4, level, g, B);
    CutRows(st, u, F, level, g, B, r);
  }

  lemma DoneSlot(st: FileState, u: FileState, F: set<nat>, cut: nat, level: nat, g: nat, B: nat, r: nat)
    requires ValidFile(st, B) && Finished(st, u, F, level, g, B) && AtLevel(cut, level, g, B)
    requires TruncGuard(st, cut, B) && r < ADDRESSES
    ensures |u.addr| == ADDRESSES && RootDone(st, u, F, r, Rest(cut, RootStart(r, B)), B)
  {
    if Depth(r) == level {
      FinishedCut(st, u, F, level, g, B);
      DoneFirst(st, u, F, cut, level, g, B, r);
    } else {
      FinishedSlot(st, u, F, level, g, B, r);
      if Depth(r) < level {
        Beyond(cut, level, g, B, r);
        DoneBefore(st, u, F, r, Rest(cut, RootStart(r, B)), B);
      } else {
        assert Rest(cut, RootStart(r, B)) == 0;
        DoneWhole(st, u, F, r, B);
      }
    }
  }

  lemma GuardSuffices(st: FileState, u: FileState, F: set<nat>, cut: nat, level: nat, g: nat, B: nat)
    requires ValidFile(st, B) && Finished(st, u, F, level, g, B) && AtLevel(cut, level, g, B)
    requires TruncGuard(st, cut, B)
    ensures Exact(st, u, cut, B)
  {
    FinishedCut(st, u, F, level, g, B);
    forall r | 0 <= r < ADDRESSES ensures RootDone(st, u, F, r, Rest(cut, RootStart(r, B)), B) {
      DoneSlot(st, u, F, cut, level, g, B, r);
    }
    DoneIsExact(st, u, F, cut, B);
  }

  /** The slots outside the first level hold none of its blocks afterwards. */
  lemma OtherSlots(st: FileState, u: FileState, F: set<nat>, level: nat, g: nat, B: nat, r: nat)
    requires ValidFile(st, B) && Finished(st, u, F, level, g, B) && r < ADDRESSES && 0 < level != Depth(r)
    requires level <= 3
    ensures |u.addr| == ADDRESSES && RootNodes(u, r) !! RootNodes(st, Slot(level))
  {
    FinishedSlot(st, u, F, level, g, B, r);
    if Depth(r) < level { NodesFrame(st.tables, u.tables, st.addr[r], Depth(r)); }
  }

  /** A block of the first level's slot that is neither freed nor left in the slot is lost. */
  lemma Lost(st: FileState, u: FileState, F: set<nat>, cut: nat, level: nat, g: nat, B: nat, x: nat)
    requires ValidFile(st, B) && Finished(st, u, F, level, g, B) && 0 < level <= 3
    requires |u.addr| == ADDRESSES && x in RootNodes(st, Slot(level)) && x !in RootNodes(u, Slot(level)) && x !in F
    ensures !Exact(st, u, cut, B)
  {
    FinishedCut(st, u, F, level, g, B);
    LostFrom(st, u, F, level, g, B, x);
    LeakIsNotExact(st, u, F, cut, B, x);
  }

  lemma LostFrom(st: FileState, u: FileState, F: set<nat>, level: nat, g: nat, B: nat, x: nat)
    requires ValidFile(st, B) && Finished(st, u, F, level, g, B) && 0 < level <= 3
    requires |u.addr| == ADDRESSES && x in RootNodes(st, Slot(level)) && x !in RootNodes(u, Slot(level)) && x !in F
    ensures x in FileNodes(st) && x !in FileNodes(u) && x !in u.free
  {
    FinishedCut(st, u, F, level, g, B);
    assert x in FileNodes(st);
    if x in FileNodes(u) {
      var r :| 0 <= r < |u.addr| && x in RootNodes(u, r);
      OtherSlots(st, u, F, level, g, B, r);
    }
  }

  /** free_ilevel2() cuts the table under entry start but drops its number. */
  lemma LostTable(st: FileState, u: FileState, F: set<nat>, start: nat, next: nat, B: nat) returns (x: nat)
    requires ValidFile(st, B) && |u.addr| == ADDRESSES && CutDouble(st, u, F, start, next, B)
    requires st.addr[DOUBLE_INDIRECT_BLOCK] != 0 && start < B && 0 < next < B
    requires st.tables[st.addr[DOUBLE_INDIRECT_BLOCK]][start] != 0
    ensures x in RootNodes(st, DOUBLE_INDIRECT_BLOCK) && x !in RootNodes(u, DOUBLE_INDIRECT_BLOCK) && x !in F
  {
    var t, b := st.tables, st.addr[DOUBLE_INDIRECT_BLOCK];
    x := t[b][start];
    assert x in Nodes(t, b, 2) by {
      Kid(t, b, 2, start, B);
      assert x in Nodes(t, x, 1);
    }
    NotInParts(t, b, start, next, B);
    NotLeft(t, b, start, next, B);
  }

  lemma NotInParts(t: Tables, b: nat, start: nat, next: nat, B: nat)
    requires Tree(t, b, 2, B) && b != 0 && start < B && 0 < next < B
    ensures b in t && |t[b]| == B && t[b][start] !in Freed2(t, b, start, next)
  {
    Kid(t, b, 2, start, B);
    var x := t[b][start];
    if x in Parts(t, t[b], start, next, B) {
      PartsAre(t, t[b], start, next, B, x);
      var j :| start <= j < B && x in Part(t, t[b], j, start, next);
      PartIn(t, t[b], j, start, next);
      if x == 0 { NodesNonzero(t, t[b][j], 1); }
      assert x in Nodes(t, x, 1);
      TreeReady1(t, x, {}, B);
      OwnApart(t[x], {}, x, next, B);
    }
  }

  lemma NotLeft(t: Tables, b: nat, start: nat, next: nat, B: nat)
    requires Tree(t, b, 2, B) && b != 0 && start < B && 0 < next < B
    requires b in t && |t[b]| == B && t[b][start] != 0
    ensures t[b][start] !in Nodes(Tables2(t, b, start, next, B), b, 2)
  {
    var u, x := Tables2(t, b, start, next, B), t[b][start];
    Kid(t, b, 2, start, B);
    assert x in Nodes(t, x, 1);
    var kids := KidNodes(u, u[b], 1);
    if x in kids {
      var j :| 0 <= j < |u[b]| && x in Nodes(u, u[b][j], 1);
      assert j < start && u[b][j] == t[b][j];
      Kid(t, b, 2, j, B);
      NodesFrame(t, u, t[b][j], 1);
    }
  }

  lemma NotAligned(t: Tables, b: nat, g: nat, B: nat) returns (start: nat, next: nat)
    requires B > 0 && !Aligned(t, b, g, B) && b in t && |t[b]| == B
    ensures start == g / B && next == g % B && start < B && 0 < next < B && t[b][start] != 0
  {
    start, next := g / B, g % B;
  }

  lemma LostDouble(st: FileState, u: FileState, F: set<nat>, g: nat, B: nat) returns (x: nat)
    requires ValidFile(st, B) && |u.addr| == ADDRESSES && CutDouble(st, u, F, g / B, g % B, B)
    requires st.addr[DOUBLE_INDIRECT_BLOCK] != 0 && !Aligned(st.tables, st.addr[DOUBLE_INDIRECT_BLOCK], g, B)
    ensures x in RootNodes(st, DOUBLE_INDIRECT_BLOCK) && x !in RootNodes(u, DOUBLE_INDIRECT_BLOCK) && x !in F
  {
    var start, next := NotAligned(st.tables, st.addr[DOUBLE_INDIRECT_BLOCK], g, B);
    x := LostTable(st, u, F, start, next, B);
  }

  lemma GuardFails(st: FileState, cut: nat, level: nat, g: nat, B: nat)
    requires |st.addr| == ADDRESSES && B > 0 && AtLevel(cut, level, g, B) && !TruncGuard(st, cut, B)
    ensures 2 <= level <= 3 && st.addr[Slot(level)] != 0 && g != 0
    ensures level == 2 ==> !Aligned(st.tables, st.addr[Slot(level)], g, B)
  {
    assert 0 % B == 0;
  }

  /** Without the guard some block of the first level's slot is neither freed nor left in it. */
  lemma LostBlock(st: FileState, u: FileState, F: set<nat>, level: nat, g: nat, B: nat) returns (x: nat)
    requires ValidFile(st, B) && |u.addr| == ADDRESSES && 2 <= level <= 3 && CutAt(st, u, F, level, g, B)
    requires st.addr[Slot(level)] != 0 && g != 0
    requires level == 2 ==> !Aligned(st.tables, st.addr[Slot(level)], g, B)
    ensures x in RootNodes(st, Slot(level)) && x !in RootNodes(u, Slot(level)) && x !in F
  {
    if level == 2 {
      x := LostDouble(st, u, F, g, B);
    } else {
      x := st.addr[TRIPLE_INDIRECT_BLOCK];
    }
  }

  lemma GuardNeeded(st: FileState, u: FileState, F: set<nat>, cut: nat, level: nat, g: nat, B: nat)
    requires ValidFile(st, B) && Finished(st, u, F, level, g, B) && AtLevel(cut, level, g, B)
    requires !TruncGuard(st, cut, B)
    ensures !Exact(st, u, cut, B)
  {
    FinishedCut(st, u, F, level, g, B);
    GuardFails(st, cut, level, g, B);
    var x := LostBlock(st, u, F, level, g, B);
    Lost(st, u, F, cut, level, g, B, x);
  }

  /** Only tables of the file have been written to. */
  lemma FinishedRows(st: FileState, u: FileState, F: set<nat>, level: nat, g: nat, B: nat)
    requires ValidFile(st, B) && Finished(st, u, F, level, g, B)
    ensures SameOutside(st.tables, u.tables, FileNodes(st))
  {
    FinishedCut(st, u, F, level, g, B);
    CutOutside(st, u, F, level, g, B);
  }

  lemma CutOutside(st: FileState, u: FileState, F: set<nat>, l: nat, g: nat, B: nat)
    requires ValidFile(st, B) && |u.addr| == ADDRESSES && l <= 3 && CutAt(st, u, F, l, g, B)
    ensures SameOutside(st.tables, u.tables, FileNodes(st))
  {
    forall x | x !in FileNodes(st) ensures SameRow(st.tables, u.tables, x) {
      if l > 0 { assert RootNodes(st, Slot(l)) <= FileNodes(st); }
      CutRow1(st, u, F, l, g, B, x);
    }
  }

  /** A block of the file is neither free afterwards nor in the file. */
  ghost predicate Leaks(st: FileState, u: FileState) {
    exists x :: x in FileNodes(st) && x !in FileNodes(u) && x !in u.free
  }

  /** Without the guard a block is lost. */
  lemma UnguardedLeaks(st: FileState, u: FileState, F: set<nat>, cut: nat, level: nat, g: nat, B: nat)
    requires ValidFile(st, B) && Finished(st, u, F, level, g, B) && AtLevel(cut, level, g, B)
    requires !TruncGuard(st, cut, B)
    ensures Leaks(st, u)
  {
    FinishedCut(st, u, F, level, g, B);
    GuardFails(st, cut, level, g, B);
    var x := LostBlock(st, u, F, level, g, B);
    LostFrom(st, u, F, level, g, B, x);
  }

  /** What i_truncate() makes of the file st, for a new size that ends at the file block cut. */
  ghost predicate Truncated(st: FileState, u: FileState, cut: nat, B: nat) {
    && ValidFile(st, B) && |u.addr| == ADDRESSES
    && (Exact(st, u, cut, B) <==> TruncGuard(st, cut, B))
    && st.free <= u.free && u.free - st.free <= FileNodes(st)
    && |u.free - st.free| == st.blocks - u.blocks
    && SameOutside(st.tables, u.tables, FileNodes(st))
    && (!TruncGuard(st, cut, B) ==> Leaks(st, u))
  }

  lemma FinishedIsTruncated(st: FileState, u: FileState, F: set<nat>, cut: nat, level: nat, g: nat, B: nat)
    requires ValidFile(st, B) && Finished(st, u, F, level, g, B) && AtLevel(cut, level, g, B)
    ensures Truncated(st, u, cut, B)
  {
    ExactIff(st, u, F, cut, level, g, B);
    ReleasedTotals(st, u, F, level, g, B);
    FinishedRows(st, u, F, level, g, B);
    FinishedCut(st, u, F, level, g, B);
    if !TruncGuard(st, cut, B) { UnguardedLeaks(st, u, F, cut, level, g, B); }
  }

  /** Once all levels have been dealt with, the truncation is exact if and only if the guard held. */
  lemma ExactIff(st: FileState, u: FileState, F: set<nat>, cut: nat, level: nat, g: nat, B: nat)
    requires ValidFile(st, B) && Finished(st, u, F, level, g, B) && AtLevel(cut, level, g, B)
    ensures Exact(st, u, cut, B) <==> TruncGuard(st, cut, B)
  {
    FinishedCut(st, u, F, level, g, B);
    if TruncGuard(st, cut, B) {
      GuardSuffices(st, u, F, cut, level, g, B);
    } else {
      GuardNeeded(st, u, F, cut, level, g, B);
    }
  }

  /** A file of one double indirect table (block 100) that names one table of two data blocks. */
  function TwoDeep(): (st: FileState)
    ensures |st.addr| == ADDRESSES
  {
    FileState(Put(seq(ADDRESSES, _ => 0), DOUBLE_INDIRECT_BLOCK, 100), 4,
      map[100 := [101, 0], 101 := [102, 103], 102 := [0, 0], 103 := [0, 0]], {})
  }

  lemma TwoDeepTree(t: Tables)
    requires t == TwoDeep().tables
    ensures Tree(t, 100, 2, 2) && Nodes(t, 100, 2) == {100, 101, 102, 103}
  {
    assert t[101] == [102, 103] && t[100] == [101, 0];
    PairNodes(t, 102, 103, 0);
    assert Nodes(t, 102, 0) == {102} && Nodes(t, 103, 0) == {103};
    assert Nodes(t, 101, 1) == {101, 102, 103} && Tree(t, 101, 1, 2);
    PairNodes(t, 101, 0, 1);
  }

  lemma PairNodes(t: Tables, a: nat, b: nat, d: nat)
    ensures KidNodes(t, [a, b], d) == Nodes(t, a, d) + Nodes(t, b, d)
  {
    KidSnoc(t, [a], b, d);
    KidSnoc(t, [], a, d);
    assert [a] + [b] == [a, b] && [] + [a] == [a];
  }

  lemma TwoDeepIsValid(st: FileState)
    requires st == TwoDeep()
    ensures ValidFile(st, 2)
  {
    var t := st.tables;
    assert st.addr[DOUBLE_INDIRECT_BLOCK] == 100 && st.free == {} && st.blocks == 4;
    assert Tree(t, 100, 2, 2) && |Nodes(t, 100, 2)| == 4 by { TwoDeepSize(t); }
    assert forall r :: 0 <= r < ADDRESSES && r != DOUBLE_INDIRECT_BLOCK ==> st.addr[r] == 0;
    IsOneRoot(st);
  }

  lemma TwoDeepSize(t: Tables)
    requires t == TwoDeep().tables
    ensures Tree(t, 100, 2, 2) && |Nodes(t, 100, 2)| == 4
  {
    TwoDeepTree(t);
    assert |{100, 101, 102, 103}| == 4;
  }

  lemma IsOneRoot(st: FileState)
    requires |st.addr| == ADDRESSES && st.addr[DOUBLE_INDIRECT_BLOCK] == 100 && st.free == {} && st.blocks == 4
    requires Tree(st.tables, 100, 2, 2) && |Nodes(st.tables, 100, 2)| == 4
    requires forall r :: 0 <= r < ADDRESSES && r != DOUBLE_INDIRECT_BLOCK ==> st.addr[r] == 0
    ensures ValidFile(st, 2)
  {
    OneRoot(st, DOUBLE_INDIRECT_BLOCK, 2);
  }

  /** Cutting that file after the first of its data blocks loses the table 101: it is neither
      freed nor reachable any more. */
  lemma TruncateFails(st: FileState, u: FileState, F: set<nat>)
    requires st == TwoDeep()
    ensures ValidFile(st, 2)
    ensures Finished(st, u, F, 2, 1, 2) ==> !Exact(st, u, DIRECT_BLOCKS + 2 + 1, 2)
  {
    TwoDeepIsValid(st);
    if Finished(st, u, F, 2, 1, 2) {
      assert st.addr[DOUBLE_INDIRECT_BLOCK] == 100 && st.tables[100] == [101, 0];
      ExactIff(st, u, F, DIRECT_BLOCKS + 2 + 1, 2, 1, 2);
    }
  }
}
