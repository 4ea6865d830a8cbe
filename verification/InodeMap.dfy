/** Block lookup and allocation of one inode: _bmap(), rbmap(), wbmap() of fs/inode.c. */
module InodeMap {
  import opened Arith
  import opened BlockMap

  // ------------------------------------------------- where a file block is

  /** An address slot of the inode and the indices to follow through its tables. */
  datatype Place = Place(root: nat, path: seq<nat>)

  function MaxBlocks(B: nat): nat {
    DIRECT_BLOCKS + B + B * B + B * B * B
  }

  /** set_indirection_level() and the index arithmetic of _bmap(). */
  function PlaceOf(f: nat, B: nat): Place
    requires B > 0
  {
    if f < DIRECT_BLOCKS then Place(f, [])
    else if f - DIRECT_BLOCKS < B then Place(SINGLE_INDIRECT_BLOCK, [f - DIRECT_BLOCKS])
    else if f - DIRECT_BLOCKS - B < B * B then
      var g := f - DIRECT_BLOCKS - B;
      Place(DOUBLE_INDIRECT_BLOCK, [g / B, g % B])
    else
      Square(B);
      var h := f - DIRECT_BLOCKS - B - B * B;
      Place(TRIPLE_INDIRECT_BLOCK, [h / (B * B), h % (B * B) / B, h % (B * B) % B])
  }

  ghost predicate GoodPlace(p: Place, B: nat) {
    && p.root < ADDRESSES && |p.path| == Depth(p.root)
    && forall k :: 0 <= k < |p.path| ==> p.path[k] < B
  }

  /** The file block at a place. */
  function BlockAt(p: Place, B: nat): nat {
    if p.root < DIRECT_BLOCKS then p.root
    else if |p.path| == 1 then DIRECT_BLOCKS + p.path[0]
    else if |p.path| == 2 then DIRECT_BLOCKS + B + (p.path[0] * B + p.path[1])
    else if |p.path| == 3 then DIRECT_BLOCKS + B + B * B + (p.path[0] * (B * B) + (p.path[1] * B + p.path[2]))
    else 0
  }

  /** Every file block has a place of its own. */
  lemma PlaceInverse(f: nat, B: nat)
    requires B > 0 && f < MaxBlocks(B)
    ensures GoodPlace(PlaceOf(f, B), B) && BlockAt(PlaceOf(f, B), B) == f
  {
    if f < DIRECT_BLOCKS + B {
    } else if f - DIRECT_BLOCKS - B < B * B {
      Split(f - DIRECT_BLOCKS - B, B, B);
    } else {
      TripleInverse(f, B);
    }
  }

  lemma TripleInverse(f: nat, B: nat)
    requires B > 0 && f < MaxBlocks(B) && f - DIRECT_BLOCKS - B >= B * B
    ensures GoodPlace(PlaceOf(f, B), B) && BlockAt(PlaceOf(f, B), B) == f
  {
    var h := f - DIRECT_BLOCKS - B - B * B;
    Square(B);
    assert B * B * B == B * (B * B);
    Split(h, B * B, B);
    Split(h % (B * B), B, B);
  }

  // ------------------------------------------------- one inode and the free blocks

  /** i_addr[] and i_blocks of the inode, the contents of the blocks used as tables, and the
      free blocks of the file system. */
  datatype FileState = FileState(addr: seq<nat>, blocks: int, tables: Tables, free: set<nat>)

  ghost function RootNodes(st: FileState, r: nat): set<nat>
    requires r < |st.addr|
  {
    Nodes(st.tables, st.addr[r], Depth(r))
  }

  /** All blocks of the file, data and tables. */
  ghost function FileNodes(st: FileState): set<nat> {
    set r, x | 0 <= r < |st.addr| && x in RootNodes(st, r) :: x
  }

  /** The blocks of a file form trees with no shared node, none of them is free, and i_blocks
      is their number. */
  ghost predicate ValidFile(st: FileState, B: nat) {
    && B > 0 && |st.addr| == ADDRESSES
    && (forall r :: 0 <= r < ADDRESSES ==> Tree(st.tables, st.addr[r], Depth(r), B))
    && (forall r, s :: 0 <= r < s < ADDRESSES ==> RootNodes(st, r) !! RootNodes(st, s))
    && FileNodes(st) !! st.free && 0 !in st.free
    && st.blocks == |FileNodes(st)|
  }

  /** A file with one address slot in use. */
  lemma OneRoot(st: FileState, s: nat, B: nat)
    requires |st.addr| == ADDRESSES && s < ADDRESSES && forall r :: 0 <= r < ADDRESSES && r != s ==> st.addr[r] == 0
    requires Tree(st.tables, st.addr[s], Depth(s), B) && B > 0 && st.free == {} && st.blocks == |RootNodes(st, s)|
    ensures ValidFile(st, B)
  {
    forall r | 0 <= r < ADDRESSES && r != s
      ensures RootNodes(st, r) == {} && Tree(st.tables, st.addr[r], Depth(r), B)
    {
    }
    assert FileNodes(st) == RootNodes(st, s);
  }

  function BlockOf(st: FileState, p: Place): nat
    requires p.root < |st.addr|
  {
    Look(st.tables, st.addr[p.root], p.path)
  }

  /** The block of the file block f, 0 for a hole. */
  ghost function MapOf(st: FileState, f: nat, B: nat): nat
    requires |st.addr| == ADDRESSES && 0 < B && f < MaxBlocks(B)
  {
    PlaceInverse(f, B);
    BlockOf(st, PlaceOf(f, B))
  }

  // ------------------------------------------------- allocating one block of a path

  /** A prefix of a place whose parent exists and that is a hole. */
  ghost predicate CanExtend(st: FileState, p: Place, B: nat) {
    && ValidFile(st, B) && p.root < ADDRESSES && |p.path| <= Depth(p.root)
    && (forall k :: 0 <= k < |p.path| ==> p.path[k] < B)
    && (p.path != [] ==> BlockOf(st, Place(p.root, p.path[..|p.path| - 1])) != 0)
    && BlockOf(st, p) == 0
  }

  /** b_alloc() returned nb; it is zeroed and entered at the place p. */
  function Extend(st: FileState, p: Place, nb: nat, B: nat): FileState
    requires p.root < |st.addr|
  {
    if p.path == []
    then FileState(Put(st.addr, p.root, nb), st.blocks + 1, st.tables[nb := ZeroRow(B)], st.free - {nb})
    else FileState(st.addr, st.blocks + 1, Graft(st.tables, st.addr[p.root], p.path, nb, B), st.free - {nb})
  }

  lemma ExtendRows(st: FileState, p: Place, nb: nat, B: nat, r: nat)
    requires CanExtend(st, p, B) && nb in st.free && r < ADDRESSES && r != p.root
    ensures SameRows(st.tables, Extend(st, p, nb, B).tables, RootNodes(st, r))
  {
    assert RootNodes(st, r) <= FileNodes(st) && RootNodes(st, p.root) <= FileNodes(st);
    assert RootNodes(st, r) !! RootNodes(st, p.root);
    if p.path != [] {
      GraftRows(st.tables, st.addr[p.root], Depth(p.root), p.path, nb, B);
    }
  }

  /** The tree of the root p.root gains the new block, the other trees stay. */
  lemma ExtendRoot(st: FileState, p: Place, nb: nat, B: nat, r: nat)
    requires CanExtend(st, p, B) && nb in st.free && r < ADDRESSES
    ensures var u := Extend(st, p, nb, B);
      && Tree(u.tables, u.addr[r], Depth(r), B)
      && RootNodes(u, r) == if r == p.root then RootNodes(st, r) + {nb} else RootNodes(st, r)
  {
    var u := Extend(st, p, nb, B);
    assert RootNodes(st, p.root) <= FileNodes(st);
    if r != p.root {
      ExtendRows(st, p, nb, B, r);
      NodesFrame(st.tables, u.tables, st.addr[r], Depth(r));
      TreeFrame(st.tables, u.tables, st.addr[r], Depth(r), B);
    } else if p.path == [] {
      NewTable(u.tables, nb, Depth(r), B);
    } else {
      GraftNodes(st.tables, st.addr[r], Depth(r), p.path, nb, B);
    }
  }

  lemma ExtendValid(st: FileState, p: Place, nb: nat, B: nat)
    requires CanExtend(st, p, B) && nb in st.free
    ensures ValidFile(Extend(st, p, nb, B), B)
    ensures FileNodes(Extend(st, p, nb, B)) == FileNodes(st) + {nb}
  {
    var u := Extend(st, p, nb, B);
    forall r | 0 <= r < ADDRESSES
      ensures Tree(u.tables, u.addr[r], Depth(r), B)
      ensures RootNodes(u, r) == if r == p.root then RootNodes(st, r) + {nb} else RootNodes(st, r)
    {
      ExtendRoot(st, p, nb, B, r);
    }
    OneMore(st, u, p.root, nb, B);
  }

  lemma ExtendOutside(st: FileState, p: Place, nb: nat, B: nat)
    requires CanExtend(st, p, B) && nb in st.free
    ensures SameOutside(st.tables, Extend(st, p, nb, B).tables, FileNodes(st) + {nb})
  {
    var s := FileNodes(st) + {nb};
    assert RootNodes(st, p.root) <= s && nb !in RootNodes(st, p.root);
    if p.path != [] {
      GraftOutside(st.tables, st.addr[p.root], Depth(p.root), p.path, nb, B, s);
    }
  }

  /** A file one of whose trees has gained a block that was free. */
  lemma OneMore(st: FileState, u: FileState, root: nat, nb: nat, B: nat)
    requires ValidFile(st, B) && |u.addr| == ADDRESSES && nb in st.free && root < ADDRESSES
    requires u.free == st.free - {nb} && u.blocks == st.blocks + 1
    requires forall r :: 0 <= r < ADDRESSES ==> Tree(u.tables, u.addr[r], Depth(r), B)
    requires forall r :: 0 <= r < ADDRESSES ==>
      RootNodes(u, r) == if r == root then RootNodes(st, r) + {nb} else RootNodes(st, r)
    ensures ValidFile(u, B) && FileNodes(u) == FileNodes(st) + {nb}
  {
    assert FileNodes(u) == FileNodes(st) + {nb} by { OneMoreNodes(st, u, root, nb); }
    forall r | 0 <= r < ADDRESSES ensures nb !in RootNodes(st, r) {
      assert RootNodes(st, r) <= FileNodes(st);
    }
    forall r, s | 0 <= r < s < ADDRESSES ensures RootNodes(u, r) !! RootNodes(u, s) {
      assert RootNodes(st, r) !! RootNodes(st, s);
    }
  }

  lemma OneMoreNodes(st: FileState, u: FileState, root: nat, nb: nat)
    requires |st.addr| == |u.addr| == ADDRESSES && root < ADDRESSES
    requires forall r :: 0 <= r < ADDRESSES ==>
      RootNodes(u, r) == if r == root then RootNodes(st, r) + {nb} else RootNodes(st, r)
    ensures FileNodes(u) == FileNodes(st) + {nb}
  {
    forall x ensures x in FileNodes(u) <==> x in FileNodes(st) + {nb} {
      if x == nb { assert x in RootNodes(u, root); }
      if x in FileNodes(st) {
        var r :| 0 <= r < ADDRESSES && x in RootNodes(st, r);
        assert x in RootNodes(u, r);
      }
    }
  }

  lemma {:induction false} LookPast(t: Tables, b: nat, path: seq<nat>, q: seq<nat>)
    requires path <= q && Look(t, b, path) == 0
    ensures Look(t, b, q) == 0
    decreases |path|
  {
    if path != [] && b != 0 && b in t && path[0] < |t[b]| {
      LookPast(t, t[b][path[0]], path[1..], q[1..]);
    }
  }

  /** Every place but p reaches the block it reached before. */
  lemma ExtendMap(st: FileState, p: Place, nb: nat, B: nat, q: Place)
    requires CanExtend(st, p, B) && nb in st.free && q.root < ADDRESSES && |q.path| <= Depth(q.root)
    ensures BlockOf(Extend(st, p, nb, B), q) == if q == p then nb else BlockOf(st, q)
  {
    var u := Extend(st, p, nb, B);
    if q.root != p.root {
      ExtendRows(st, p, nb, B, q.root);
      LookFrame(st.tables, u.tables, st.addr[q.root], Depth(q.root), q.path);
    } else if p.path == [] {
      if q.path != [] { ThroughNew(u.tables, nb, q.path, B); }
    } else {
      assert RootNodes(st, p.root) <= FileNodes(st);
      GraftLook(st.tables, st.addr[p.root], Depth(p.root), p.path, nb, B, q.path);
      if p.path <= q.path { LookPast(st.tables, st.addr[p.root], p.path, q.path); }
    }
  }

  /** What alloc_dlevel() and alloc_ilevel() do for the place p: they return the block that is
      there, or a free block entered there, or 0 when no block is free. */
  ghost predicate Extended(st: FileState, u: FileState, p: Place, b: nat, B: nat)
    requires p.root < |st.addr|
  {
    if BlockOf(st, p) != 0 then u == st && b == BlockOf(st, p)
    else if b == 0 then u == st && st.free == {}
    else b in st.free && u == Extend(st, p, b, B)
  }

  /** The file has grown by blocks that were free and is as valid as before; no other block has
      been written to. */
  ghost predicate Grown(st: FileState, u: FileState, B: nat) {
    && ValidFile(st, B) && ValidFile(u, B)
    && FileNodes(st) <= FileNodes(u)
    && FileNodes(u) - FileNodes(st) <= st.free
    && u.free == st.free - FileNodes(u)
    && SameOutside(st.tables, u.tables, FileNodes(u))
  }

  lemma GrownTrans(st: FileState, u: FileState, v: FileState, B: nat)
    requires Grown(st, u, B) && Grown(u, v, B)
    ensures Grown(st, v, B)
  {
    forall x | x in FileNodes(v) - FileNodes(st) ensures x in st.free {
      if x !in FileNodes(u) { assert x in u.free; }
    }
    forall x | x !in FileNodes(v) ensures SameRow(st.tables, v.tables, x) {
      assert SameRow(st.tables, u.tables, x) && SameRow(u.tables, v.tables, x);
    }
  }

  ghost predicate HasParent(st: FileState, p: Place, B: nat) {
    && ValidFile(st, B) && p.root < ADDRESSES && |p.path| <= Depth(p.root)
    && (forall k :: 0 <= k < |p.path| ==> p.path[k] < B)
    && (p.path != [] ==> BlockOf(st, Place(p.root, p.path[..|p.path| - 1])) != 0)
  }

  lemma ExtendedIs(st: FileState, u: FileState, p: Place, b: nat, B: nat)
    requires HasParent(st, p, B) && Extended(st, u, p, b, B)
    ensures Grown(st, u, B) && BlockOf(u, p) == b
    ensures forall q: Place :: q.root < ADDRESSES && |q.path| <= Depth(q.root) && q != p ==>
      BlockOf(u, q) == BlockOf(st, q)
  {
    if BlockOf(st, p) == 0 && b != 0 {
      ExtendValid(st, p, b, B);
      ExtendOutside(st, p, b, B);
      ExtendMap(st, p, b, B, p);
      forall q: Place | q.root < ADDRESSES && |q.path| <= Depth(q.root) && q != p
        ensures BlockOf(u, q) == BlockOf(st, q)
      {
        ExtendMap(st, p, b, B, q);
      }
    }
  }

  /** The table under a place with a parent has B entries, and the entry is the place's block. */
  lemma ParentTable(st: FileState, p: Place, B: nat)
    requires HasParent(st, p, B) && p.path != []
    ensures var t := BlockOf(st, Place(p.root, p.path[..|p.path| - 1]));
      t in st.tables && |st.tables[t]| == B && BlockOf(st, p) == st.tables[t][p.path[|p.path| - 1]]
  {
    LookLast(st.tables, st.addr[p.root], Depth(p.root), p.path, B);
  }

  // ------------------------------------------------- down a path

  function Prefix(p: Place, k: nat): Place
    requires k <= |p.path|
  {
    Place(p.root, p.path[..k])
  }

  /** The first k steps down the place p have been taken and have led to the block b. */
  ghost predicate Along(st: FileState, u: FileState, p: Place, k: nat, b: nat, B: nat) {
    && Grown(st, u, B) && GoodPlace(p, B) && k <= |p.path|
    && BlockOf(u, Prefix(p, k)) == b
    && (b == 0 ==> u.free == {})
    && (forall q: Place :: GoodPlace(q, B) && q != p ==> BlockOf(u, q) == BlockOf(st, q))
    && (k < |p.path| ==> BlockOf(u, p) == BlockOf(st, p))
    && (BlockOf(st, p) != 0 ==> u == st)
    && (k == |p.path| && b != 0 && BlockOf(st, p) == 0 ==> b in st.free)
  }

  lemma AlongStart(st: FileState, u: FileState, p: Place, b: nat, B: nat)
    requires ValidFile(st, B) && GoodPlace(p, B) && Extended(st, u, Place(p.root, []), b, B)
    ensures Along(st, u, p, 0, b, B)
  {
    ExtendedIs(st, u, Place(p.root, []), b, B);
    assert p.path[..0] == [];
    if p.path == [] { assert Place(p.root, []) == p; }
  }

  lemma AlongParent(st: FileState, u: FileState, p: Place, k: nat, b: nat, B: nat)
    requires Along(st, u, p, k, b, B) && k < |p.path| && b != 0
    ensures HasParent(u, Prefix(p, k + 1), B)
    ensures Place(p.root, Prefix(p, k + 1).path[..k]) == Prefix(p, k)
  {
    assert p.path[..k + 1][..k] == p.path[..k];
  }

  lemma AlongNext(st: FileState, u: FileState, v: FileState, p: Place, k: nat, b: nat, c: nat, B: nat)
    requires Along(st, u, p, k, b, B) && k < |p.path| && b != 0
    requires Extended(u, v, Prefix(p, k + 1), c, B)
    ensures Along(st, v, p, k + 1, c, B)
  {
    AlongParent(st, u, p, k, b, B);
    ExtendedIs(u, v, Prefix(p, k + 1), c, B);
    GrownTrans(st, u, v, B);
    if BlockOf(st, p) != 0 {
      if BlockOf(u, Prefix(p, k + 1)) == 0 { LookPast(u.tables, u.addr[p.root], p.path[..k + 1], p.path); }
    }
    if k + 1 == |p.path| { assert p.path[..k + 1] == p.path; }
  }

  /** The walk is over: the last block is there, or no block was free. */
  lemma AlongEnd(st: FileState, u: FileState, f: nat, p: Place, k: nat, b: nat, B: nat)
    requires Along(st, u, p, k, b, B) && f == BlockAt(p, B)
    requires k == |p.path| || b == 0
    ensures Wrote(st, u, f, b, B)
  {
    PlaceUnique(p, B);
    if b == 0 { LookPast(u.tables, u.addr[p.root], p.path[..k], p.path); }
    if k == |p.path| { assert p.path[..k] == p.path; }
    forall g: nat | g < MaxBlocks(B) && g != f ensures MapOf(u, g, B) == MapOf(st, g, B) {
      PlaceInverse(g, B);
      PlaceInverse(f, B);
    }
  }

  /** What wbmap() promises about the state st it found and the state u it left. */
  ghost predicate Wrote(st: FileState, u: FileState, f: nat, b: nat, B: nat) {
    && Grown(st, u, B) && f < MaxBlocks(B)
    && MapOf(u, f, B) == b
    && (b == 0 ==> u.free == {} && MapOf(st, f, B) == 0)
    && (MapOf(st, f, B) != 0 ==> u == st)
    && (b != 0 && MapOf(st, f, B) == 0 ==> b in st.free)
    && (forall g: nat :: g < MaxBlocks(B) && g != f ==> MapOf(u, g, B) == MapOf(st, g, B))
  }

  // ------------------------------------------------- the index arithmetic of wbmap()

  /** The file blocks below this bound are those wbmap() finds; see WbmapIndexIff(). */
  function WbmapBound(B: nat): nat {
    DIRECT_BLOCKS + B + 2 * (B * B)
  }

  /** wbmap() indexes the middle table of the triple indirect level without the modulo. */
  function WbmapPath(f: nat, B: nat): seq<nat>
    requires B > 0
  {
    if f < DIRECT_BLOCKS + B + B * B then PlaceOf(f, B).path
    else
      Square(B);
      WbmapDigits(f - DIRECT_BLOCKS - B - B * B, B * B, B)
  }

  function WbmapDigits(h: nat, S: nat, B: nat): (path: seq<nat>)
    requires B > 0 && S > 0
  {
    [h / S, h / B, h % B]
  }

  /** With a remainder m below the square, the two middle indices agree iff the quotient is 0. */
  lemma MiddleIndex(h: nat, B: nat)
    requires B > 0 && B * B > 0
    ensures [h / B, h % B] == [h % (B * B) / B, h % (B * B) % B] <==> h < B * B
  {
    var q, m := h / (B * B), h % (B * B);
    assert h == q * B * B + m;
    DivSum(m, B, q * B);
    assert h / B == m / B + q * B && h % B == m % B;
    if q > 0 { assert q * B > 0; }
  }

  lemma {:induction false} DivSum(m: nat, B: nat, k: nat)
    requires B > 0
    ensures (k * B + m) / B == m / B + k && (k * B + m) % B == m % B
  {
    if k > 0 {
      DivSum(m, B, k - 1);
      DivStep((k - 1) * B + m, B);
      assert k * B + m == (k - 1) * B + m + B;
    }
  }

  lemma DivStep(n: nat, B: nat)
    requires B > 0
    ensures (n + B) / B == n / B + 1 && (n + B) % B == n % B
  {
    var q, r := n / B, n % B;
    assert n + B == (q + 1) * B + r;
    DivUnique(n + B, B, q + 1, r);
  }

  lemma PastTable(h: nat, B: nat)
    requires B > 0 && h >= B * B
    ensures h / B >= B
  {
    DivSum(h - B * B, B, B);
    DivNat(h - B * B, B);
  }

  /** From the bound of WbmapIndexIff() on, wbmap() indexes past the end of the middle table. */
  lemma WbmapPastTable(f: nat, B: nat)
    requires B > 0 && WbmapBound(B) <= f < MaxBlocks(B)
    ensures |WbmapPath(f, B)| == 3 && WbmapPath(f, B)[1] >= B
  {
    Square(B);
    PastTable(f - DIRECT_BLOCKS - B - B * B, B);
    assert WbmapPath(f, B) == WbmapDigits(f - DIRECT_BLOCKS - B - B * B, B * B, B);
  }

  /** The indices of wbmap() and _bmap() at the triple indirect level, h blocks past its start. */
  lemma TriplePaths(f: nat, B: nat, h: nat, S: nat)
    requires B > 0 && S == B * B && f == DIRECT_BLOCKS + B + S + h && S > 0
    ensures WbmapPath(f, B) == [h / S] + [h / B, h % B]
    ensures PlaceOf(f, B).path == [h / S] + [h % S / B, h % S % B]
  {
    assert WbmapPath(f, B) == WbmapDigits(h, S, B);
  }

  lemma SamePath(x: int, a: seq<int>, b: seq<int>)
    ensures [x] + a == [x] + b <==> a == b
  {
    assert ([x] + a)[1..] == a && ([x] + b)[1..] == b;
  }

  /** wbmap() and _bmap() name the same place iff the file block is below this bound. */
  lemma WbmapIndexIff(f: nat, B: nat)
    requires B > 0 && f < MaxBlocks(B)
    ensures WbmapPath(f, B) == PlaceOf(f, B).path <==> f < WbmapBound(B)
  {
    var S := B * B;
    Square(B);
    if f >= DIRECT_BLOCKS + B + S {
      var h := f - DIRECT_BLOCKS - B - S;
      TriplePaths(f, B, h, S);
      MiddleIndex(h, B);
      SamePath(h / S, [h / B, h % B], [h % S / B, h % S % B]);
    }
  }

  lemma BoundFits(B: nat)
    requires B > 0
    ensures WbmapBound(B) <= MaxBlocks(B)
  {
    assert B * B * B >= B * B;
  }

  /** Below the bound, the indices wbmap() computes from its level lead to the file block. */
  lemma WbmapPlace(f: nat, level: nat, g: nat, B: nat) returns (p: Place)
    requires B > 0 && f < MaxBlocks(B) && f < WbmapBound(B) && AtLevel(f, level, g, B)
    ensures GoodPlace(p, B) && BlockAt(p, B) == f && |p.path| == level
    ensures p.root == if level == 0 then g else DIRECT_BLOCKS + level - 1
    ensures level == 1 ==> p.path[0] == g
    ensures level == 2 ==> p.path[0] == g / B && p.path[1] == g % B
    ensures level == 3 ==> B * B > 0 && p.path[0] == g / (B * B) && p.path[1] == g / B && p.path[2] == g % B
  {
    PlaceInverse(f, B);
    WbmapIndexIff(f, B);
    Square(B);
    p := PlaceOf(f, B);
    if level == 3 { assert WbmapPath(f, B) == [g / (B * B), g / B, g % B]; }
  }

  /** The first file block past the bound, with one-kilobyte blocks: the index runs off the
      table. */
  lemma WbmapIndexFails()
    ensures var B := 256; var f := DIRECT_BLOCKS + B + 2 * B * B;
      f < MaxBlocks(B) && PlaceOf(f, B).path == [1, 0, 0] && WbmapPath(f, B) == [1, 256, 0]
  {
  }

  // ------------------------------------------------- extents

  /** A place is where its file block is looked up. */
  lemma PlaceUnique(p: Place, B: nat)
    requires B > 0 && GoodPlace(p, B)
    ensures BlockAt(p, B) < MaxBlocks(B) && PlaceOf(BlockAt(p, B), B) == p
  {
    Square(B);
    if |p.path| == 1 {
      assert p.path == [p.path[0]];
    } else if |p.path| == 2 {
      PlaceUnique2(p, B);
    } else if |p.path| == 3 {
      PlaceUnique3(p, B);
    }
  }

  lemma PlaceUnique2(p: Place, B: nat)
    requires B > 0 && GoodPlace(p, B) && |p.path| == 2
    ensures BlockAt(p, B) < MaxBlocks(B) && PlaceOf(BlockAt(p, B), B) == p
  {
    var g := p.path[0] * B + p.path[1];
    Below(p.path[0], p.path[1], B, B);
    assert g / B == p.path[0] && g % B == p.path[1] by { DivUnique(g, B, p.path[0], p.path[1]); }
    assert BlockAt(p, B) == DIRECT_BLOCKS + B + g;
    assert p.path == [g / B, g % B];
  }

  lemma PlaceUnique3(p: Place, B: nat)
    requires B > 0 && GoodPlace(p, B) && |p.path| == 3
    ensures BlockAt(p, B) < MaxBlocks(B) && PlaceOf(BlockAt(p, B), B) == p
  {
    Square(B);
    var m := p.path[1] * B + p.path[2];
    var S := B * B;
    assert m < S by { Below(p.path[1], p.path[2], B, B); }
    var g := p.path[0] * S + m;
    assert g < B * B * B by { Below(p.path[0], m, S, B); assert B * S == B * B * B; }
    assert g / S == p.path[0] && g % S == m by { DivUnique(g, S, p.path[0], m); }
    assert m / B == p.path[1] && m % B == p.path[2] by { DivUnique(m, B, p.path[1], p.path[2]); }
    assert BlockAt(p, B) == DIRECT_BLOCKS + B + S + g;
    assert p.path == [g / S, m / B, m % B];
  }

  /** The file blocks below a table of the given level (below a data block for level 0). */
  function Span(level: nat, B: nat): nat {
    match level
    case 0 => 1
    case 1 => B
    case 2 => B * B
    case _ => B * B * B
  }

  /** The position a suffix of a path stands for among the file blocks below its table. */
  function Value(path: seq<nat>, B: nat): nat {
    if |path| == 1 then path[0]
    else if |path| == 2 then path[0] * B + path[1]
    else if |path| == 3 then path[0] * (B * B) + (path[1] * B + path[2])
    else 0
  }

  function Digits(v: nat, level: nat, B: nat): seq<nat>
    requires B > 0
  {
    Square(B);
    match level
    case 0 => []
    case 1 => [v]
    case 2 => [v / B, v % B]
    case _ => [v / (B * B), v % (B * B) / B, v % (B * B) % B]
  }

  lemma DigitsValue(v: nat, level: nat, B: nat)
    requires B > 0 && level <= 3 && v < Span(level, B)
    ensures |Digits(v, level, B)| == level && Value(Digits(v, level, B), B) == v
    ensures forall j :: 0 <= j < level ==> Digits(v, level, B)[j] < B
  {
    Square(B);
    if level == 2 {
      Split(v, B, B);
    } else if level == 3 {
      assert B * B * B == B * (B * B);
      Split(v, B * B, B);
      Split(v % (B * B), B, B);
    }
  }

  /** The file blocks below the first k indices of a place share those indices. */
  lemma SameTable(f: nat, k: nat, i: nat, B: nat)
    requires B > 0 && f < MaxBlocks(B) && k <= |PlaceOf(f, B).path|
    requires var p := PlaceOf(f, B).path; Value(p[k..], B) + i < Span(|p| - k, B)
    requires 0 < |PlaceOf(f, B).path|
    ensures f + i < MaxBlocks(B)
    ensures var p := PlaceOf(f, B); var q := PlaceOf(f + i, B);
      && q.root == p.root
      && q.path == p.path[..k] + Digits(Value(p.path[k..], B) + i, |p.path| - k, B)
      && |q.path| == |p.path| && q.path[..k] == p.path[..k]
  {
    PlaceInverse(f, B);
    var p := PlaceOf(f, B);
    var level := |p.path|;
    var v := Value(p.path[k..], B) + i;
    DigitsValue(v, level - k, B);
    var q := Place(p.root, p.path[..k] + Digits(v, level - k, B));
    if level == 1 || k == level {
      assert p.path == p.path[..k] + p.path[k..];
    } else if level == 3 && k == 1 {
      assert q.path[0] == p.path[0];
    }
    assert BlockAt(q, B) == f + i;
    PlaceUnique(q, B);
  }

  /** The blocks a failed lookup reports from f on, when the table under the first k indices of
      its place is missing: the index is taken relative to the wrong table for k > 0. */
  function HoleBlocks(level: nat, k: nat, offset: nat, B: nat): int {
    if k == 0 then B - offset else B
  }

  /** The reported blocks are at least one and lie below the missing table. */
  predicate SoundExtent(level: nat, k: nat, offset: nat, B: nat)
    requires k < level <= 3
  {
    0 < HoleBlocks(level, k, offset, B) <= Span(level - k, B) - offset
  }

  /** A hole's extent is right iff the position below the missing table lets it be. */
  lemma HoleExtentIff(level: nat, k: nat, offset: nat, B: nat)
    requires k < level <= 3 && offset < Span(level - k, B) && B > 0
    ensures SoundExtent(level, k, offset, B) <==>
      if k == 0 then offset < B
      else if level - k == 1 then offset == 0
      else offset <= B * B - B
  {
    if k == 0 && offset < B {
      assert B * B >= B;
      assert B * B * B >= B * B;
    }
  }

  /** Everything below a missing table is a hole. */
  lemma HoleBelow(st: FileState, f: nat, k: nat, i: nat, B: nat)
    requires ValidFile(st, B) && f < MaxBlocks(B) && k < |PlaceOf(f, B).path|
    requires BlockOf(st, Prefix(PlaceOf(f, B), k)) == 0
    requires var p := PlaceOf(f, B).path; Value(p[k..], B) + i < Span(|p| - k, B)
    ensures f + i < MaxBlocks(B) && MapOf(st, f + i, B) == 0
  {
    SameTable(f, k, i, B);
    var p, q := PlaceOf(f, B), PlaceOf(f + i, B);
    assert q.path[..k] <= q.path;
    LookPast(st.tables, st.addr[p.root], q.path[..k], q.path);
  }

  /** Division and remainder peel off the first index. */
  lemma ValueSplit(path: seq<nat>, m: nat, v: nat, rest: nat, B: nat)
    requires B > 0 && 2 <= |path| <= 3 && forall j :: 0 <= j < |path| ==> path[j] < B
    requires m == Span(|path| - 1, B) && v == Value(path, B) && rest == Value(path[1..], B)
    ensures m > 0 && rest < m && v / m == path[0] && v % m == rest && rest / m == 0
  {
    Square(B);
    if |path| == 3 { Below(path[1], path[2], B, B); }
    DivUnique(v, m, path[0], rest);
    DivUnique(rest, m, 0, rest);
  }

  /** What _bmap() reports for the file block at the place p: either the numbers of nblocks
      consecutive file blocks lie from index on in the inode or in the table block, or the table
      under the first k indices is missing and nblocks is the extent of SoundExtent(). */
  ghost predicate Bmapped(st: FileState, p: Place, found: bool, block: nat, index: int, nblocks: int, k: nat, B: nat) {
    && ValidFile(st, B) && GoodPlace(p, B)
    && if p.path == [] then found && block == 0 && index == p.root && nblocks == DIRECT_BLOCKS - index
       else if found then
         && k == |p.path| - 1 && index == p.path[k] && nblocks == B - index
         && block != 0 && BlockOf(st, Prefix(p, k)) == block && block in st.tables && |st.tables[block]| == B
         && forall j: nat :: j < B ==> st.tables[block][j] == BlockOf(st, AtEntry(p, j))
       else
         && k < |p.path| && BlockOf(st, Prefix(p, k)) == 0 && (k > 0 ==> BlockOf(st, Prefix(p, k - 1)) != 0)
         && nblocks == HoleBlocks(|p.path|, k, Value(p.path[k..], B), B)
  }

  /** The place of entry j of the last table on the way to p. */
  function AtEntry(p: Place, j: nat): Place
    requires p.path != []
  {
    Place(p.root, p.path[..|p.path| - 1] + [j])
  }

  /** The slice from index on gives the blocks of consecutive file blocks. */
  lemma Slice(st: FileState, p: Place, block: nat, index: int, nblocks: int, k: nat, i: nat, B: nat)
    requires p.path != [] && Bmapped(st, p, true, block, index, nblocks, k, B) && i < nblocks
    ensures var f := BlockAt(p, B) + i;
      0 <= index && f < MaxBlocks(B) && st.tables[block][index + i] == MapOf(st, f, B)
  {
    var q := AtEntry(p, index + i);
    PlaceUnique(q, B);
    assert BlockAt(q, B) == BlockAt(p, B) + i;
  }

  /** The entries of the inode's own extent. */
  lemma DirectExtent(st: FileState, f: nat, i: nat, B: nat)
    requires ValidFile(st, B) && f + i < DIRECT_BLOCKS
    ensures MapOf(st, f + i, B) == st.addr[f + i]
  {
  }

  /** With the guard of HoleExtentIff, a failed lookup reports a nonempty extent of holes. */
  lemma HoleExtent(st: FileState, p: Place, block: nat, index: int, nblocks: int, k: nat, i: nat, B: nat)
    requires p.path != [] && Bmapped(st, p, false, block, index, nblocks, k, B)
    requires SoundExtent(|p.path|, k, Value(p.path[k..], B), B) && i < nblocks
    ensures var f := BlockAt(p, B) + i;
      f < MaxBlocks(B) && MapOf(st, f, B) == 0
  {
    var f := BlockAt(p, B);
    PlaceUnique(p, B);
    HoleBelow(st, f, k, i, B);
  }

  /** Where the loop of _bmap() is on its way to a place: k tables down, at the table block,
      with g left of the position. */
  ghost predicate WalkedTo(st: FileState, p: Place, k: nat, block: nat, g: nat, B: nat) {
    && ValidFile(st, B) && GoodPlace(p, B) && k < |p.path|
    && BlockOf(st, Prefix(p, k)) == block
    && g == Value(p.path[k..], B)
  }

  /** set_indirection_level() leaves the position in the tree of its level. */
  lemma WalkStart(st: FileState, f: nat, p: Place, level: nat, g: nat, B: nat)
    requires ValidFile(st, B) && GoodPlace(p, B) && BlockAt(p, B) == f && AtLevel(f, level, g, B)
    ensures |p.path| == level && (level == 0 ==> p.root == g)
    ensures level > 0 ==> p.root == DIRECT_BLOCKS + level - 1 && WalkedTo(st, p, 0, st.addr[p.root], g, B)
  {
    WalkLevel(f, p, level, g, B);
    if p.path != [] {
      assert p.path[0..] == p.path && p.path[..0] == [];
      assert Prefix(p, 0) == Place(p.root, []);
    }
  }

  lemma WalkLevel(f: nat, p: Place, level: nat, g: nat, B: nat)
    requires B > 0 && GoodPlace(p, B) && BlockAt(p, B) == f && AtLevel(f, level, g, B)
    ensures |p.path| == level && (level == 0 ==> p.root == g)
    ensures level > 0 ==> p.root == DIRECT_BLOCKS + level - 1 && Value(p.path, B) == g
  {
    var v, S := Value(p.path, B), B * B;
    if |p.path| == 2 {
      Below(p.path[0], p.path[1], B, B);
      assert f == DIRECT_BLOCKS + B + v && v < S;
    } else if |p.path| == 3 {
      assert f == DIRECT_BLOCKS + B + S + v;
    }
  }

  /** set_indirection_level(): the level of a file block and its position below that root. */
  predicate AtLevel(f: nat, level: nat, g: nat, B: nat) {
    if f < DIRECT_BLOCKS then level == 0 && g == f
    else if f < DIRECT_BLOCKS + B then level == 1 && g == f - DIRECT_BLOCKS
    else if f < DIRECT_BLOCKS + B + B * B then level == 2 && g == f - DIRECT_BLOCKS - B
    else level == 3 && g == f - DIRECT_BLOCKS - B - B * B
  }

  lemma ThePlace(f: nat, B: nat) returns (p: Place)
    requires 0 < B && f < MaxBlocks(B)
    ensures GoodPlace(p, B) && BlockAt(p, B) == f
  {
    PlaceInverse(f, B);
    p := PlaceOf(f, B);
  }

  /** The table is entered at i, the quotient of g by the span of an entry; r is left. */
  lemma WalkNext(st: FileState, p: Place, k: nat, block: nat, g: nat, lc: nat, B: nat)
    requires WalkedTo(st, p, k, block, g, B) && block != 0 && k + 1 < |p.path| && lc == Span(|p.path| - 1 - k, B)
    ensures lc > 0 && g / lc == p.path[k] && g % lc == Value(p.path[k + 1..], B)
    ensures Value(p.path[k + 1..], B) / lc == 0
    ensures block in st.tables && p.path[k] < |st.tables[block]|
    ensures WalkedTo(st, p, k + 1, st.tables[block][p.path[k]], Value(p.path[k + 1..], B), B)
  {
    assert p.path[k..][1..] == p.path[k + 1..];
    ValueSplit(p.path[k..], lc, g, Value(p.path[k + 1..], B), B);
    PrefixTable(st, p, k, B);
  }

  lemma WalkMissing(st: FileState, p: Place, k: nat, g: nat, index: nat, nblocks: int, B: nat)
    requires WalkedTo(st, p, k, 0, g, B) && index == (if k == 0 then g else 0) && nblocks == B - index
    requires k > 0 ==> BlockOf(st, Prefix(p, k - 1)) != 0
    ensures Bmapped(st, p, false, 0, index, nblocks, k, B)
  {
  }

  lemma WalkEnd(st: FileState, p: Place, block: nat, g: nat, B: nat)
    requires p.path != [] && WalkedTo(st, p, |p.path| - 1, block, g, B) && block != 0
    ensures Bmapped(st, p, true, block, g, B - g, |p.path| - 1, B)
  {
    var k := |p.path| - 1;
    assert p.path[k..] == [p.path[k]];
    PrefixTable(st, p, k, B);
    forall j: nat | j < B ensures st.tables[block][j] == BlockOf(st, AtEntry(p, j)) {
      var q := AtEntry(p, j);
      assert q.path[..k] == p.path[..k];
      PrefixTable(st, q, k, B);
      assert q.path[..k + 1] == q.path;
    }
  }

  /** The table after k steps down a place, and the step from it. */
  lemma PrefixTable(st: FileState, p: Place, k: nat, B: nat)
    requires ValidFile(st, B) && GoodPlace(p, B) && k < |p.path| && BlockOf(st, Prefix(p, k)) != 0
    ensures var t := BlockOf(st, Prefix(p, k));
      t in st.tables && |st.tables[t]| == B && BlockOf(st, Prefix(p, k + 1)) == st.tables[t][p.path[k]]
  {
    assert p.path[..k + 1][..k] == p.path[..k];
    ParentTable(st, Prefix(p, k + 1), B);
  }
}
