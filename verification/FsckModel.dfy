/** What tfsck's second stage checks: the block references of all files, in the order in which it
    walks them, and what it means that they are consistent. */
module FsckModel {
  import opened Basics
  import opened BlockMap
  import opened InodeMap
  import opened Bitmap
  import opened Layout

  datatype Dinode = Dinode(mode: nat, size: int, blocks: nat, addr: seq<nat>)

  /** A file system on disk: the superblock, what its blocks hold when read as tables of block
      numbers, and for every cluster its inodes and its two bitmaps. */
  datatype Image = Image(sb: Superblock, bfree: int, ifree: int, tables: Tables,
    inodes: seq<seq<Dinode>>, ibitmaps: seq<seq<nat>>, bbitmaps: seq<seq<nat>>)

  /** The S_ISxxx() tests on the type bits of a mode. */
  predicate ValidMode(mode: nat) {
    mode / 0x1000 % 16 in {12, 10, 8, 6, 4, 2, 1}
  }

  // ------------------------------------------------- references

  /** The blocks of a tree of depth d, each table before its entries; 0 is a hole. */
  function Refs(t: Tables, b: nat, d: nat): seq<nat>
    decreases d, 1, 0
  {
    if b == 0 then []
    else if d == 0 || b !in t then [b]
    else [b] + RowRefs(t, t[b], d - 1, |t[b]|)
  }

  function RowRefs(t: Tables, row: seq<nat>, d: nat, n: nat): seq<nat>
    requires n <= |row|
    decreases d, 2, n
  {
    if n == 0 then [] else RowRefs(t, row, d, n - 1) + Refs(t, row[n - 1], d)
  }

  /** The blocks below the first n address slots of an inode. */
  function SlotRefs(t: Tables, addr: seq<nat>, n: nat): seq<nat>
    requires n <= |addr|
  {
    if n == 0 then [] else SlotRefs(t, addr, n - 1) + Refs(t, addr[n - 1], Depth(n - 1))
  }

  /** Inode i of cluster c is in use; inode 0 of the file system does not exist. */
  predicate InUse(im: Image, c: nat, i: nat)
    requires c < |im.ibitmaps| && i / 32 < |im.ibitmaps[c]|
  {
    !(c == 0 && i == 0) && !Bit(im.ibitmaps[c][i / 32], i % 32)
  }

  predicate Shaped(im: Image, B: nat) {
    && LaidOut(im.sb) && B > 0
    && |im.inodes| == im.sb.clusters && |im.ibitmaps| == im.sb.clusters && |im.bbitmaps| == im.sb.clusters
    && (forall c :: 0 <= c < im.sb.clusters ==> ClusterShaped(im, c))
  }

  predicate ClusterShaped(im: Image, c: nat)
    requires c < |im.inodes| && c < |im.ibitmaps| && c < |im.bbitmaps|
  {
    && |im.inodes[c]| == im.sb.icluster && |im.ibitmaps[c]| == im.sb.icluster / 32
    && |im.bbitmaps[c]| == DataBlocks(im.sb, c) / 32
    && (forall i :: 0 <= i < |im.inodes[c]| ==> |im.inodes[c][i].addr| == ADDRESSES)
    && (forall i :: 0 <= i < |im.ibitmaps[c]| ==> im.ibitmaps[c][i] < WORD)
    && (forall i :: 0 <= i < |im.bbitmaps[c]| ==> im.bbitmaps[c][i] < WORD)
  }

  /** The references of the first n inodes of a cluster. */
  function ClusterRefs(im: Image, B: nat, c: nat, n: nat): seq<nat>
    requires Shaped(im, B) && c < im.sb.clusters && n <= im.sb.icluster
    decreases n
  {
    if n == 0 then []
    else
      assert ClusterShaped(im, c);
      ClusterRefs(im, B, c, n - 1) + InodeRefs(im, B, c, n - 1)
  }

  /** The references of one inode, none if it is free. */
  function InodeRefs(im: Image, B: nat, c: nat, i: nat): seq<nat>
    requires Shaped(im, B) && c < im.sb.clusters && i < im.sb.icluster
  {
    assert ClusterShaped(im, c);
    if InUse(im, c, i) then SlotRefs(im.tables, im.inodes[c][i].addr, ADDRESSES) else []
  }

  /** The references of the first n clusters. */
  function AllRefs(im: Image, B: nat, n: nat): seq<nat>
    requires Shaped(im, B) && n <= im.sb.clusters
  {
    if n == 0 then [] else AllRefs(im, B, n - 1) + ClusterRefs(im, B, n - 1, im.sb.icluster)
  }

  // ------------------------------------------------- sizes

  /** What is left of the size once tfsck has walked a tree: a block less for every entry of the
      tables of data blocks that are there. */
  function SizeAfter(t: Tables, b: nat, d: nat, size: int): int
    decreases d, 1, 0
  {
    if d == 0 then size - BLKSZ
    else if b == 0 || b !in t then size
    else RowSize(t, t[b], d - 1, |t[b]|, size)
  }

  function RowSize(t: Tables, row: seq<nat>, d: nat, n: nat, size: int): int
    requires n <= |row|
    decreases d, 2, n
  {
    if n == 0 then size else SizeAfter(t, row[n - 1], d, RowSize(t, row, d, n - 1, size))
  }

  /** Every block of the tree is met with some of the size left. */
  predicate Within(t: Tables, b: nat, d: nat, size: int)
    decreases d, 1, 0
  {
    b == 0 || (size > 0 && (d == 0 || b !in t || RowWithin(t, t[b], d - 1, |t[b]|, size)))
  }

  predicate RowWithin(t: Tables, row: seq<nat>, d: nat, n: nat, size: int)
    requires n <= |row|
    decreases d, 2, n
  {
    n == 0 || (RowWithin(t, row, d, n - 1, size) && Within(t, row[n - 1], d, RowSize(t, row, d, n - 1, size)))
  }

  function SlotSize(t: Tables, addr: seq<nat>, n: nat, size: int): int
    requires n <= |addr|
  {
    if n == 0 then size else SizeAfter(t, addr[n - 1], Depth(n - 1), SlotSize(t, addr, n - 1, size))
  }

  predicate SlotWithin(t: Tables, addr: seq<nat>, n: nat, size: int)
    requires n <= |addr|
  {
    n == 0 || (SlotWithin(t, addr, n - 1, size) && Within(t, addr[n - 1], Depth(n - 1), SlotSize(t, addr, n - 1, size)))
  }

  /** The size rounded up to whole blocks. The remainder is that of an unsigned number, as s_blksz
      is one, so it is positive for a size that has become negative too. */
  function Rounded(size: int): int {
    if size % BLKSZ != 0 then size + BLKSZ - size % BLKSZ else size
  }

  // ------------------------------------------------- consistency

  /** A block that may hold data. */
  predicate Usable(sb: Superblock, b: nat)
    requires Bpcluster(sb) > 0
  {
    0 < b < UsedBlocks(sb) && !Reserved(sb, b)
  }

  /** References in range, to no reserved block, and none twice. */
  predicate Clean(sb: Superblock, refs: seq<nat>)
    requires Bpcluster(sb) > 0
  {
    NoDup(refs) && forall i :: 0 <= i < |refs| ==> Usable(sb, refs[i])
  }

  /** The number of blocks of an inode in use is exact and its mode is one. */
  predicate InodeExact(im: Image, B: nat, c: nat, i: nat)
    requires Shaped(im, B) && c < im.sb.clusters && i < im.sb.icluster
  {
    assert ClusterShaped(im, c);
    InUse(im, c, i) ==> im.inodes[c][i].blocks == |InodeRefs(im, B, c, i)| && ValidMode(im.inodes[c][i].mode)
  }

  /** No block of an inode in use lies past its size, and a free inode has no mode. */
  predicate InodeTidy(im: Image, B: nat, c: nat, i: nat)
    requires Shaped(im, B) && c < im.sb.clusters && i < im.sb.icluster
  {
    assert ClusterShaped(im, c);
    var di := im.inodes[c][i];
    if InUse(im, c, i) then SlotWithin(im.tables, di.addr, ADDRESSES, Rounded(di.size))
    else (c == 0 && i == 0) || di.mode == 0
  }

  predicate Tidy(im: Image, B: nat)
    requires Shaped(im, B)
  {
    forall c, i :: 0 <= c < im.sb.clusters && 0 <= i < im.sb.icluster ==> InodeTidy(im, B, c, i)
  }

  /** The clear bits of the bitmap of cluster c are exactly the blocks referred to. */
  predicate BitmapExact(im: Image, B: nat, c: nat)
    requires Shaped(im, B) && c < im.sb.clusters
  {
    assert ClusterShaped(im, c);
    forall i :: 0 <= i < DataBlocks(im.sb, c) ==>
      (i in BitSet(im.bbitmaps[c], |im.bbitmaps[c]|) <==> Cluster2fs(im.sb, c, i) !in AllRefs(im, B, im.sb.clusters))
  }

  /** The sum of the set bits of the first n bitmaps. */
  function Sum(maps: seq<seq<nat>>, n: nat): nat
    requires n <= |maps|
  {
    if n == 0 then 0 else Sum(maps, n - 1) + Total(maps[n - 1], |maps[n - 1]|)
  }

  /** The file system is consistent; unfolded only where it is used. */
  ghost predicate Consistent(im: Image, B: nat)
    requires Shaped(im, B)
  {
    forall n: nat :: n == im.sb.clusters ==> ConsistentTo(im, B, n)
  }

  /** The references of the first n clusters, and all that is said about them, are in order. */
  predicate ConsistentTo(im: Image, B: nat, n: nat)
    requires Shaped(im, B) && n == im.sb.clusters
  {
    && Clean(im.sb, AllRefs(im, B, n))
    && (forall c, i :: 0 <= c < n && 0 <= i < im.sb.icluster ==> InodeExact(im, B, c, i))
    && (forall c :: 0 <= c < n ==> BitmapExact(im, B, c))
    && im.bfree == Sum(im.bbitmaps, n) && im.ifree == Sum(im.ibitmaps, n)
  }

  // ------------------------------------------------- a consistent file system has valid files

  lemma {:induction false} AppendNoDup(xs: seq<nat>, ys: seq<nat>)
    requires NoDup(xs + ys)
    ensures NoDup(xs) && NoDup(ys) && forall x :: x in xs ==> x !in ys
  {
    forall i, j | 0 <= i < j < |xs| ensures xs[i] != xs[j] {
      assert (xs + ys)[i] == xs[i] && (xs + ys)[j] == xs[j];
    }
    forall i, j | 0 <= i < j < |ys| ensures ys[i] != ys[j] {
      assert (xs + ys)[|xs| + i] == ys[i] && (xs + ys)[|xs| + j] == ys[j];
    }
    forall i, j | 0 <= i < |xs| && 0 <= j < |ys| ensures xs[i] != ys[j] {
      assert (xs + ys)[i] == xs[i] && (xs + ys)[|xs| + j] == ys[j];
    }
  }

  /** The set of the references of a tree is its set of nodes. */
  lemma {:induction false} RefsAreNodes(t: Tables, b: nat, d: nat, x: nat)
    ensures x in Refs(t, b, d) <==> x in Nodes(t, b, d)
    decreases d, 1, 0
  {
    if b != 0 && d > 0 && b in t {
      var row := t[b];
      RowRefsAre(t, row, d - 1, |row|, x);
      assert x in KidNodes(t, row, d - 1) <==> exists i :: 0 <= i < |row| && x in Nodes(t, row[i], d - 1);
    }
  }

  lemma {:induction false} RowRefsAre(t: Tables, row: seq<nat>, d: nat, n: nat, x: nat)
    requires n <= |row|
    ensures x in RowRefs(t, row, d, n) <==> exists i :: 0 <= i < n && x in Nodes(t, row[i], d)
    decreases d, 2, n
  {
    if n > 0 {
      RowRefsAre(t, row, d, n - 1, x);
      RefsAreNodes(t, row[n - 1], d, x);
    }
  }

  /** Tables of B entries at every table of the tree. */
  ghost predicate Tabled(t: Tables, b: nat, d: nat, B: nat) {
    forall x :: x in Nodes(t, b, d) ==> x in t && |t[x]| == B
  }

  /** References without repetition form a tree. */
  lemma {:induction false} NoDupTree(t: Tables, b: nat, d: nat, B: nat)
    requires NoDup(Refs(t, b, d)) && Tabled(t, b, d, B)
    ensures Tree(t, b, d, B)
    decreases d, 1, 0
  {
    if b != 0 && d > 0 {
      assert b in Nodes(t, b, d);
      var row := t[b];
      AppendNoDup([b], RowRefs(t, row, d - 1, B));
      NoDupForest(t, row, d - 1, B, b);
      RowRefsAre(t, row, d - 1, B, b);
    }
  }

  lemma {:induction false} NoDupForest(t: Tables, row: seq<nat>, d: nat, B: nat, b: nat)
    requires NoDup(RowRefs(t, row, d, |row|)) && forall x :: x in KidNodes(t, row, d) ==> x in t && |t[x]| == B
    ensures Forest(t, row, d, B)
    decreases d, 2, 0
  {
    forall i | 0 <= i < |row| ensures Tree(t, row[i], d, B) {
      RowPart(t, row, d, |row|, i);
      KidIn(t, row, d, i);
      NoDupTree(t, row[i], d, B);
    }
    forall i, j | 0 <= i < j < |row| ensures Nodes(t, row[i], d) !! Nodes(t, row[j], d) {
      RowApart2(t, row, d, |row|, i, j);
    }
  }

  lemma {:induction false} RowPart(t: Tables, row: seq<nat>, d: nat, n: nat, i: nat)
    requires i < n <= |row| && NoDup(RowRefs(t, row, d, n))
    ensures NoDup(Refs(t, row[i], d))
    decreases n
  {
    AppendNoDup(RowRefs(t, row, d, n - 1), Refs(t, row[n - 1], d));
    if i < n - 1 { RowPart(t, row, d, n - 1, i); }
  }

  lemma {:induction false} RowApart2(t: Tables, row: seq<nat>, d: nat, n: nat, i: nat, j: nat)
    requires i < j < n <= |row| && NoDup(RowRefs(t, row, d, n))
    ensures Nodes(t, row[i], d) !! Nodes(t, row[j], d)
    decreases n
  {
    AppendNoDup(RowRefs(t, row, d, n - 1), Refs(t, row[n - 1], d));
    if j < n - 1 {
      RowApart2(t, row, d, n - 1, i, j);
    } else {
      forall x | x in Nodes(t, row[i], d) ensures x !in Nodes(t, row[j], d) {
        RowRefsAre(t, row, d, n - 1, x);
        RefsAreNodes(t, row[j], d, x);
      }
    }
  }

  lemma {:induction false} SlotPart(t: Tables, addr: seq<nat>, n: nat, r: nat)
    requires r < n <= |addr| && NoDup(SlotRefs(t, addr, n))
    ensures NoDup(Refs(t, addr[r], Depth(r)))
    decreases n
  {
    AppendNoDup(SlotRefs(t, addr, n - 1), Refs(t, addr[n - 1], Depth(n - 1)));
    if r < n - 1 { SlotPart(t, addr, n - 1, r); }
  }

  lemma {:induction false} SlotRefsAre(t: Tables, addr: seq<nat>, n: nat, x: nat)
    requires n <= |addr|
    ensures x in SlotRefs(t, addr, n) <==> exists r :: 0 <= r < n && x in Nodes(t, addr[r], Depth(r))
  {
    if n > 0 {
      SlotRefsAre(t, addr, n - 1, x);
      RefsAreNodes(t, addr[n - 1], Depth(n - 1), x);
    }
  }

  lemma {:induction false} SlotApart(t: Tables, addr: seq<nat>, n: nat, r: nat, s: nat)
    requires r < s < n <= |addr| && NoDup(SlotRefs(t, addr, n))
    ensures Nodes(t, addr[r], Depth(r)) !! Nodes(t, addr[s], Depth(s))
    decreases n
  {
    AppendNoDup(SlotRefs(t, addr, n - 1), Refs(t, addr[n - 1], Depth(n - 1)));
    if s < n - 1 {
      SlotApart(t, addr, n - 1, r, s);
    } else {
      forall x | x in Nodes(t, addr[r], Depth(r)) ensures x !in Nodes(t, addr[s], Depth(s)) {
        SlotRefsAre(t, addr, n - 1, x);
        RefsAreNodes(t, addr[s], Depth(s), x);
      }
    }
  }

  /** The free blocks according to the bitmaps. */
  ghost function FreeBlocks(im: Image, B: nat): set<nat>
    requires Shaped(im, B)
  {
    set b: nat | b < UsedBlocks(im.sb) && MarkedFree(im, B, b) :: b
  }

  predicate MarkedFree(im: Image, B: nat, b: nat)
    requires Shaped(im, B) && b < UsedBlocks(im.sb)
  {
    !Reserved(im.sb, b) &&
    (BlockIsData(im.sb, b);
     var c, i := Home(im.sb, b), Fs2cluster(im.sb, b);
     assert ClusterShaped(im, c);
     i in BitSet(im.bbitmaps[c], |im.bbitmaps[c]|))
  }

  /** The inode as the kernel sees it. */
  ghost function FileOf(im: Image, B: nat, c: nat, i: nat): FileState
    requires Shaped(im, B) && c < im.sb.clusters && i < im.sb.icluster
  {
    assert ClusterShaped(im, c);
    FileState(im.inodes[c][i].addr, im.inodes[c][i].blocks, im.tables, FreeBlocks(im, B))
  }

  lemma {:induction false} ClusterPart(im: Image, B: nat, c: nat, n: nat, i: nat)
    requires Shaped(im, B) && c < im.sb.clusters && i < n <= im.sb.icluster && NoDup(ClusterRefs(im, B, c, n))
    ensures NoDup(InodeRefs(im, B, c, i))
    ensures forall x :: x in InodeRefs(im, B, c, i) ==> x in ClusterRefs(im, B, c, n)
    decreases n
  {
    assert ClusterShaped(im, c);
    AppendNoDup(ClusterRefs(im, B, c, n - 1), InodeRefs(im, B, c, n - 1));
    if i < n - 1 { ClusterPart(im, B, c, n - 1, i); }
  }

  lemma {:induction false} AllPart(im: Image, B: nat, n: nat, c: nat)
    requires Shaped(im, B) && c < n <= im.sb.clusters && NoDup(AllRefs(im, B, n))
    ensures NoDup(ClusterRefs(im, B, c, im.sb.icluster))
    ensures forall x :: x in ClusterRefs(im, B, c, im.sb.icluster) ==> x in AllRefs(im, B, n)
    decreases n
  {
    AppendNoDup(AllRefs(im, B, n - 1), ClusterRefs(im, B, n - 1, im.sb.icluster));
    if c < n - 1 { AllPart(im, B, n - 1, c); }
  }

  /** Two inodes of a cluster refer to no common block. */
  lemma {:induction false} InodesApart(im: Image, B: nat, c: nat, n: nat, i: nat, j: nat)
    requires Shaped(im, B) && c < im.sb.clusters && i < j < n <= im.sb.icluster && NoDup(ClusterRefs(im, B, c, n))
    ensures forall x :: x in InodeRefs(im, B, c, i) ==> x !in InodeRefs(im, B, c, j)
    decreases n
  {
    assert ClusterShaped(im, c);
    AppendNoDup(ClusterRefs(im, B, c, n - 1), InodeRefs(im, B, c, n - 1));
    if j < n - 1 { InodesApart(im, B, c, n - 1, i, j); } else { ClusterPart(im, B, c, n - 1, i); }
  }

  lemma {:induction false} ClustersApart(im: Image, B: nat, n: nat, c: nat, e: nat)
    requires Shaped(im, B) && c < e < n <= im.sb.clusters && NoDup(AllRefs(im, B, n))
    ensures forall x :: x in ClusterRefs(im, B, c, im.sb.icluster) ==> x !in ClusterRefs(im, B, e, im.sb.icluster)
    decreases n
  {
    if e < n - 1 {
      AppendNoDup(AllRefs(im, B, n - 1), ClusterRefs(im, B, n - 1, im.sb.icluster));
      ClustersApart(im, B, n - 1, c, e);
    } else {
      LastApart(im, B, e, c);
    }
  }

  lemma LastApart(im: Image, B: nat, n: nat, c: nat)
    requires Shaped(im, B) && c < n < im.sb.clusters && NoDup(AllRefs(im, B, n + 1))
    ensures forall x :: x in ClusterRefs(im, B, c, im.sb.icluster) ==> x !in ClusterRefs(im, B, n, im.sb.icluster)
  {
    AppendNoDup(AllRefs(im, B, n), ClusterRefs(im, B, n, im.sb.icluster));
    AllPart(im, B, n, c);
  }

  /** The disk can be read: every block that may hold data has contents. */
  predicate Readable(im: Image, B: nat)
    requires Bpcluster(im.sb) > 0
  {
    forall b: nat :: b < im.sb.fsize ==> b in im.tables && |im.tables[b]| == B
  }

  /** The references of an inode of a consistent file system. */
  lemma InodeClean(im: Image, B: nat, c: nat, i: nat)
    requires Shaped(im, B) && Consistent(im, B) && c < im.sb.clusters && i < im.sb.icluster
    ensures NoDup(InodeRefs(im, B, c, i))
    ensures forall x :: x in InodeRefs(im, B, c, i) ==> x in AllRefs(im, B, im.sb.clusters) && Usable(im.sb, x)
  {
    assert ConsistentTo(im, B, im.sb.clusters);
    AllPart(im, B, im.sb.clusters, c);
    ClusterPart(im, B, c, im.sb.icluster, i);
  }

  /** In a consistent file system every inode in use is a valid file for the kernel: its blocks
      form trees that share no block, none of them is free, and i_blocks is their number. */
  lemma ConsistentIsValid(im: Image, B: nat, c: nat, i: nat)
    requires Shaped(im, B) && Consistent(im, B) && Readable(im, B)
    requires c < im.sb.clusters && i < im.sb.icluster && ClusterShaped(im, c) && InUse(im, c, i)
    ensures ValidFile(FileOf(im, B, c, i), B)
    ensures forall x :: x in FileNodes(FileOf(im, B, c, i)) <==> x in InodeRefs(im, B, c, i)
  {
    var st := FileOf(im, B, c, i);
    var refs := SlotRefs(im.tables, st.addr, ADDRESSES);
    assert refs == InodeRefs(im, B, c, i);
    InodeClean(im, B, c, i);
    assert st.blocks == |refs| by { assert ConsistentTo(im, B, im.sb.clusters) && InodeExact(im, B, c, i); }
    forall x | x in refs ensures x in im.tables && |im.tables[x]| == B && x !in st.free {
      assert Usable(im.sb, x);
      FreeIsUnreferred(im, B, x);
    }
    ZeroIsNotFree(im, B);
    RefsAreFile(st, refs, B);
  }

  lemma ZeroIsNotFree(im: Image, B: nat)
    requires Shaped(im, B)
    ensures 0 !in FreeBlocks(im, B)
  {
  }

  /** References without repetition, as many as i_blocks says and none free, make a valid file. */
  lemma RefsAreFile(st: FileState, refs: seq<nat>, B: nat)
    requires |st.addr| == ADDRESSES && refs == SlotRefs(st.tables, st.addr, ADDRESSES) && NoDup(refs) && B > 0
    requires forall x :: x in refs ==> x in st.tables && |st.tables[x]| == B && x !in st.free
    requires st.blocks == |refs| && 0 !in st.free
    ensures ValidFile(st, B)
    ensures forall x :: x in FileNodes(st) <==> x in refs
  {
    NodesOf(st, refs);
    ToSetIs(refs);
    assert FileNodes(st) == ToSet(refs);
    forall r | 0 <= r < ADDRESSES ensures Tree(st.tables, st.addr[r], Depth(r), B) {
      SlotIsTree(st, refs, r, B);
    }
    forall r, s | 0 <= r < s < ADDRESSES ensures RootNodes(st, r) !! RootNodes(st, s) {
      SlotApart(st.tables, st.addr, ADDRESSES, r, s);
    }
  }

  lemma SlotIsTree(st: FileState, refs: seq<nat>, r: nat, B: nat)
    requires |st.addr| == ADDRESSES && refs == SlotRefs(st.tables, st.addr, ADDRESSES) && NoDup(refs) && r < ADDRESSES
    requires forall x :: x in refs ==> x in st.tables && |st.tables[x]| == B
    ensures Tree(st.tables, st.addr[r], Depth(r), B)
  {
    SlotPart(st.tables, st.addr, ADDRESSES, r);
    forall x | x in RootNodes(st, r) ensures x in st.tables && |st.tables[x]| == B {
      SlotRefsAre(st.tables, st.addr, ADDRESSES, x);
    }
    NoDupTree(st.tables, st.addr[r], Depth(r), B);
  }

  lemma NodesOf(st: FileState, refs: seq<nat>)
    requires |st.addr| == ADDRESSES && refs == SlotRefs(st.tables, st.addr, ADDRESSES)
    ensures forall x :: x in FileNodes(st) <==> x in refs
  {
    forall x ensures x in FileNodes(st) <==> x in refs {
      if x in FileNodes(st) {
        var r :| 0 <= r < |st.addr| && x in RootNodes(st, r);
        assert x in Nodes(st.tables, st.addr[r], Depth(r));
      }
      if r :| 0 <= r < ADDRESSES && x in Nodes(st.tables, st.addr[r], Depth(r)) { assert x in RootNodes(st, r); }
      SlotRefsAre(st.tables, st.addr, ADDRESSES, x);
    }
  }

  function ToSet(xs: seq<nat>): set<nat> {
    if xs == [] then {} else ToSet(xs[..|xs| - 1]) + {xs[|xs| - 1]}
  }

  lemma {:induction false} ToSetIs(xs: seq<nat>)
    ensures forall x :: x in ToSet(xs) <==> x in xs
    ensures NoDup(xs) ==> |ToSet(xs)| == |xs|
  {
    if xs != [] {
      var n := |xs| - 1;
      ToSetIs(xs[..n]);
      assert xs == xs[..n] + [xs[n]];
    }
  }

  /** The free data blocks are exactly those that no file refers to. */
  lemma FreeIsUnreferred(im: Image, B: nat, x: nat)
    requires Shaped(im, B) && Consistent(im, B) && Usable(im.sb, x)
    ensures x in FreeBlocks(im, B) <==> x !in AllRefs(im, B, im.sb.clusters)
  {
    BlockIsData(im.sb, x);
    assert ConsistentTo(im, B, im.sb.clusters) && BitmapExact(im, B, Home(im.sb, x));
    assert MarkedFree(im, B, x) <==> x !in AllRefs(im, B, im.sb.clusters);
  }

  /** Two files of a consistent file system share no block. */
  lemma FilesApart(im: Image, B: nat, c: nat, i: nat, e: nat, j: nat)
    requires Shaped(im, B) && Consistent(im, B) && c < im.sb.clusters && i < im.sb.icluster
    requires e < im.sb.clusters && j < im.sb.icluster && (c, i) != (e, j)
    ensures forall x :: x in InodeRefs(im, B, c, i) ==> x !in InodeRefs(im, B, e, j)
  {
    assert ConsistentTo(im, B, im.sb.clusters);
    if c != e { OthersApart(im, B, c, i, e, j); } else { SameApart(im, B, c, i, j); }
  }

  lemma SameApart(im: Image, B: nat, c: nat, i: nat, j: nat)
    requires Shaped(im, B) && NoDup(AllRefs(im, B, im.sb.clusters)) && c < im.sb.clusters
    requires i < im.sb.icluster && j < im.sb.icluster && i != j
    ensures forall x :: x in InodeRefs(im, B, c, i) ==> x !in InodeRefs(im, B, c, j)
  {
    AllPart(im, B, im.sb.clusters, c);
    InodesApart(im, B, c, im.sb.icluster, if i < j then i else j, if i < j then j else i);
  }

  lemma OthersApart(im: Image, B: nat, c: nat, i: nat, e: nat, j: nat)
    requires Shaped(im, B) && NoDup(AllRefs(im, B, im.sb.clusters)) && c < im.sb.clusters && e < im.sb.clusters
    requires i < im.sb.icluster && j < im.sb.icluster && c != e
    ensures forall x :: x in InodeRefs(im, B, c, i) ==> x !in InodeRefs(im, B, e, j)
  {
    AllPart(im, B, im.sb.clusters, c);
    AllPart(im, B, im.sb.clusters, e);
    ClusterPart(im, B, c, im.sb.icluster, i);
    ClusterPart(im, B, e, im.sb.icluster, j);
    ClustersApart(im, B, im.sb.clusters, if c < e then c else e, if c < e then e else c);
  }
}
