/** What the kernel's work on one file does to the file system as a whole: tfsck's consistency is
    kept, by i_truncate() if and only if its guard holds. */
module Volume {
  import opened Basics
  import opened BlockMap
  import opened InodeMap
  import opened Truncate
  import opened TruncateFile
  import opened Bitmap
  import opened Layout
  import opened FsckModel
  import opened DataRows
  import opened Blocks

  /** The kernel has made u of the file st: blocks have moved between the file and the free ones,
      and only blocks of the file have been written to. */
  ghost predicate Reshaped(st: FileState, u: FileState, B: nat) {
    && ValidFile(st, B) && ValidFile(u, B)
    && FileNodes(u) + u.free == FileNodes(st) + st.free
    && SameOutside(st.tables, u.tables, FileNodes(st) + FileNodes(u))
  }

  lemma GrownReshapes(st: FileState, u: FileState, B: nat)
    requires Grown(st, u, B)
    ensures Reshaped(st, u, B)
  {
  }

  lemma ExactReshapes(st: FileState, u: FileState, cut: nat, B: nat)
    requires ValidFile(st, B) && Exact(st, u, cut, B) && SameOutside(st.tables, u.tables, FileNodes(st))
    requires st.free <= u.free && u.free - st.free <= FileNodes(st)
    ensures Reshaped(st, u, B)
  {
  }

  predicate IsInode(im: Image, c: nat, i: nat) {
    c < im.sb.clusters && i < im.sb.icluster
  }

  /** The blocks that need not hold what u.tables says of them: those of the file and the free ones,
      but for the tables of the file. */
  ghost function Loose(st: FileState, u: FileState): set<nat> {
    FileNodes(st) + st.free - FileTables(u)
  }

  /** The image v shows the inode i of cluster c with the file u, its tables and all blocks but loose
      ones, and the bitmaps and the count of the allocator a; the other inodes are as in im. */
  ghost predicate Replaces(im: Image, v: Image, B: nat, c: nat, i: nat, u: FileState, a: BlockAllocator)
    requires Shaped(im, B) && Shaped(v, B) && IsInode(im, c, i)
    reads a, a.alloc, a.alloc.bitmap
  {
    && OneInode(im, v, B, c, i, u)
    && SameOutside(u.tables, v.tables, Loose(FileOf(im, B, c, i), u))
    && a.Valid() && a.ShownBy(v, B) && a.Free() == u.free
  }

  ghost predicate OneInode(im: Image, v: Image, B: nat, c: nat, i: nat, u: FileState)
    requires Shaped(im, B) && Shaped(v, B) && IsInode(im, c, i)
  {
    && v.sb == im.sb && v.ibitmaps == im.ibitmaps && v.ifree == im.ifree
    && Inode(v, B, c, i) == Inode(im, B, c, i).(addr := u.addr, blocks := Inode(v, B, c, i).blocks,
      size := Inode(v, B, c, i).size)
    && Inode(v, B, c, i).blocks == u.blocks
    && forall e: nat, j: nat :: IsInode(im, e, j) && (e, j) != (c, i) ==> Inode(v, B, e, j) == Inode(im, B, e, j)
  }

  function Inode(im: Image, B: nat, c: nat, i: nat): Dinode
    requires Shaped(im, B) && IsInode(im, c, i)
  {
    assert ClusterShaped(im, c);
    im.inodes[c][i]
  }

  // ------------------------------------------------- the references of a tree that is left alone

  lemma {:induction false} RefsFrame(t: Tables, u: Tables, b: nat, d: nat)
    requires forall x :: x in Refs(t, b, d) ==> SameRow(t, u, x)
    ensures Refs(u, b, d) == Refs(t, b, d)
    decreases d, 1, 0
  {
    if b != 0 && d > 0 {
      assert Refs(t, b, d)[0] == b && SameRow(t, u, b);
      if b in t {
        assert forall x :: x in RowRefs(t, t[b], d - 1, |t[b]|) ==> x in Refs(t, b, d);
        RowRefsFrame(t, u, t[b], d - 1, |t[b]|);
      }
    }
  }

  lemma {:induction false} RowRefsFrame(t: Tables, u: Tables, row: seq<nat>, d: nat, n: nat)
    requires n <= |row| && forall x :: x in RowRefs(t, row, d, n) ==> SameRow(t, u, x)
    ensures RowRefs(u, row, d, n) == RowRefs(t, row, d, n)
    decreases d, 2, n
  {
    if n > 0 {
      RowRefsFrame(t, u, row, d, n - 1);
      RefsFrame(t, u, row[n - 1], d);
    }
  }

  lemma {:induction false} SlotRefsFrame(t: Tables, u: Tables, addr: seq<nat>, n: nat)
    requires n <= |addr| && forall x :: x in SlotRefs(t, addr, n) ==> SameRow(t, u, x)
    ensures SlotRefs(u, addr, n) == SlotRefs(t, addr, n)
  {
    if n > 0 {
      SlotRefsFrame(t, u, addr, n - 1);
      RefsFrame(t, u, addr[n - 1], Depth(n - 1));
    }
  }

  // ------------------------------------------------- a valid file refers to no block twice

  lemma JoinNoDup(xs: seq<nat>, ys: seq<nat>)
    requires NoDup(xs) && NoDup(ys) && forall x :: x in xs ==> x !in ys
    ensures NoDup(xs + ys)
  {
    var zs := xs + ys;
    forall i, j | 0 <= i < j < |zs| ensures zs[i] != zs[j] {
      if i < |xs| <= j { assert xs[i] in xs && ys[j - |xs|] in ys; }
    }
  }

  lemma {:induction false} TreeNoDup(t: Tables, b: nat, d: nat, B: nat)
    requires Tree(t, b, d, B)
    ensures NoDup(Refs(t, b, d))
    decreases d, 1, 0
  {
    if b != 0 && d > 0 {
      var row := t[b];
      ForestNoDup(t, row, d - 1, B, B);
      RowRefsAre(t, row, d - 1, B, b);
      JoinNoDup([b], RowRefs(t, row, d - 1, B));
    }
  }

  lemma {:induction false} ForestNoDup(t: Tables, row: seq<nat>, d: nat, B: nat, n: nat)
    requires Forest(t, row, d, B) && n <= |row|
    ensures NoDup(RowRefs(t, row, d, n))
    decreases d, 2, n
  {
    if n > 0 {
      ForestNoDup(t, row, d, B, n - 1);
      TreeNoDup(t, row[n - 1], d, B);
      var before, last := RowRefs(t, row, d, n - 1), Refs(t, row[n - 1], d);
      forall x | x in before ensures x !in last {
        RowRefsAre(t, row, d, n - 1, x);
        RefsAreNodes(t, row[n - 1], d, x);
      }
      JoinNoDup(before, last);
    }
  }

  lemma {:induction false} SlotsNoDup(st: FileState, B: nat, n: nat)
    requires ValidFile(st, B) && n <= ADDRESSES
    ensures NoDup(SlotRefs(st.tables, st.addr, n))
  {
    if n > 0 {
      SlotsNoDup(st, B, n - 1);
      TreeNoDup(st.tables, st.addr[n - 1], Depth(n - 1), B);
      var before, last := SlotRefs(st.tables, st.addr, n - 1), Refs(st.tables, st.addr[n - 1], Depth(n - 1));
      forall x | x in before ensures x !in last {
        SlotRefsAre(st.tables, st.addr, n - 1, x);
        RefsAreNodes(st.tables, st.addr[n - 1], Depth(n - 1), x);
        var r :| 0 <= r < n - 1 && x in Nodes(st.tables, st.addr[r], Depth(r));
        assert RootNodes(st, r) !! RootNodes(st, n - 1);
      }
      JoinNoDup(before, last);
    }
  }

  /** The references of a valid file: its blocks, each once. */
  lemma FileIsRefs(st: FileState, B: nat)
    requires ValidFile(st, B)
    ensures var refs := SlotRefs(st.tables, st.addr, ADDRESSES);
      && NoDup(refs) && |refs| == st.blocks && forall x :: x in refs <==> x in FileNodes(st)
  {
    var refs := SlotRefs(st.tables, st.addr, ADDRESSES);
    SlotsNoDup(st, B, ADDRESSES);
    NodesOf(st, refs);
    ToSetIs(refs);
    assert FileNodes(st) == ToSet(refs);
  }

  // ------------------------------------------------- all references

  /** x is a block of the file of inode j of cluster e. */
  predicate Owns(im: Image, B: nat, e: nat, j: nat, x: nat)
    requires Shaped(im, B)
  {
    IsInode(im, e, j) && x in InodeRefs(im, B, e, j)
  }

  /** No inode refers to a block twice, and no two to the same. */
  ghost predicate Distinct(im: Image, B: nat)
    requires Shaped(im, B)
  {
    && (forall e: nat, j: nat :: IsInode(im, e, j) ==> NoDup(InodeRefs(im, B, e, j)))
    && forall e: nat, j: nat, f: nat, k: nat, x: nat ::
         Owns(im, B, e, j, x) && Owns(im, B, f, k, x) ==> e == f && j == k
  }

  ghost predicate OwnedIn(im: Image, B: nat, c: nat, n: nat, x: nat)
    requires Shaped(im, B)
  {
    exists j: nat :: j < n && Owns(im, B, c, j, x)
  }

  ghost predicate OwnedBelow(im: Image, B: nat, n: nat, x: nat)
    requires Shaped(im, B)
  {
    exists e: nat, j: nat :: e < n && Owns(im, B, e, j, x)
  }

  lemma {:induction false} ClusterRefsAre(im: Image, B: nat, c: nat, n: nat, x: nat)
    requires Shaped(im, B) && c < im.sb.clusters && n <= im.sb.icluster
    ensures x in ClusterRefs(im, B, c, n) <==> OwnedIn(im, B, c, n, x)
  {
    if n > 0 {
      ClusterRefsAre(im, B, c, n - 1, x);
      assert x in ClusterRefs(im, B, c, n) <==> x in ClusterRefs(im, B, c, n - 1) || Owns(im, B, c, n - 1, x);
    }
  }

  lemma {:induction false} AllRefsAre(im: Image, B: nat, n: nat, x: nat)
    requires Shaped(im, B) && n <= im.sb.clusters
    ensures x in AllRefs(im, B, n) <==> OwnedBelow(im, B, n, x)
  {
    if n > 0 {
      assert x in AllRefs(im, B, n - 1) <==> OwnedBelow(im, B, n - 1, x) by { AllRefsAre(im, B, n - 1, x); }
      RefsNext(im, B, n - 1, x);
    }
  }

  lemma RefsNext(im: Image, B: nat, n: nat, x: nat)
    requires Shaped(im, B) && n < im.sb.clusters && (x in AllRefs(im, B, n) <==> OwnedBelow(im, B, n, x))
    ensures x in AllRefs(im, B, n + 1) <==> OwnedBelow(im, B, n + 1, x)
  {
    assert x in AllRefs(im, B, n + 1) <==> x in AllRefs(im, B, n) || x in ClusterRefs(im, B, n, im.sb.icluster);
    ClusterRefsAre(im, B, n, im.sb.icluster, x);
    OwnedNext(im, B, n, x);
  }

  lemma OwnedNext(im: Image, B: nat, n: nat, x: nat)
    requires Shaped(im, B) && n < im.sb.clusters
    ensures OwnedBelow(im, B, n + 1, x) <==> OwnedBelow(im, B, n, x) || OwnedIn(im, B, n, im.sb.icluster, x)
  {
  }

  lemma {:induction false} ClusterNoDup(im: Image, B: nat, c: nat, n: nat)
    requires Shaped(im, B) && Distinct(im, B) && c < im.sb.clusters && n <= im.sb.icluster
    ensures NoDup(ClusterRefs(im, B, c, n))
  {
    if n > 0 {
      var before, last := ClusterRefs(im, B, c, n - 1), InodeRefs(im, B, c, n - 1);
      ClusterNoDup(im, B, c, n - 1);
      assert IsInode(im, c, n - 1);
      forall x | x in before ensures x !in last {
        ClusterRefsAre(im, B, c, n - 1, x);
        assert !Owns(im, B, c, n - 1, x);
      }
      JoinNoDup(before, last);
    }
  }

  lemma {:induction false} AllNoDup(im: Image, B: nat, n: nat)
    requires Shaped(im, B) && Distinct(im, B) && n <= im.sb.clusters
    ensures NoDup(AllRefs(im, B, n))
  {
    if n > 0 {
      var before, last := AllRefs(im, B, n - 1), ClusterRefs(im, B, n - 1, im.sb.icluster);
      AllNoDup(im, B, n - 1);
      ClusterNoDup(im, B, n - 1, im.sb.icluster);
      forall x | x in before ensures x !in last { LastApartFrom(im, B, n - 1, x); }
      JoinNoDup(before, last);
    }
  }

  lemma LastApartFrom(im: Image, B: nat, n: nat, x: nat)
    requires Shaped(im, B) && Distinct(im, B) && n < im.sb.clusters && x in AllRefs(im, B, n)
    ensures x !in ClusterRefs(im, B, n, im.sb.icluster)
  {
    AllRefsAre(im, B, n, x);
    ClusterRefsAre(im, B, n, im.sb.icluster, x);
  }

  // ------------------------------------------------- one file has changed

  /** Before and after: the images, the inode that changes, its file, and what becomes of it. */
  ghost predicate Change(im: Image, v: Image, B: nat, c: nat, i: nat, st: FileState, u: FileState) {
    && Shaped(im, B) && Shaped(v, B) && Consistent(im, B) && Readable(im, B)
    && IsInode(im, c, i) && ClusterShaped(im, c) && InUse(im, c, i)
    && st == FileOf(im, B, c, i) && |u.addr| == ADDRESSES && OneInode(im, v, B, c, i, u)
    && v.tables == u.tables && FreeBlocks(v, B) == u.free && v.bfree == Sum(v.bbitmaps, v.sb.clusters)
    && SameOutside(st.tables, u.tables, FileNodes(st) + st.free)
  }

  /** What the image shows of the file u: the same blocks, whatever is in the loose ones. */
  lemma ShownFile(im: Image, v: Image, B: nat, c: nat, i: nat, st: FileState, u: FileState, a: BlockAllocator)
    requires Shaped(im, B) && Shaped(v, B) && Consistent(im, B) && Readable(im, B)
    requires IsInode(im, c, i) && ClusterShaped(im, c) && InUse(im, c, i) && st == FileOf(im, B, c, i)
    requires |u.addr| == ADDRESSES && Replaces(im, v, B, c, i, u, a)
    requires SameOutside(st.tables, u.tables, FileNodes(st) + st.free)
    ensures Change(im, v, B, c, i, st, u.(tables := v.tables))
    ensures FileNodes(u.(tables := v.tables)) == FileNodes(u)
    ensures ValidFile(u, B) ==> ValidFile(u.(tables := v.tables), B)
  {
    a.ShownIsFree(v, B);
    RewrittenNodes(u, v.tables);
    if ValidFile(u, B) { RewrittenKeeps(u, v.tables, B); }
    forall x | x !in FileNodes(st) + st.free ensures SameRow(st.tables, v.tables, x) {
      assert SameRow(st.tables, u.tables, x) && SameRow(u.tables, v.tables, x);
    }
  }

  /** The blocks of the other files are neither blocks of this one nor free. */
  lemma OthersOwn(im: Image, v: Image, B: nat, c: nat, i: nat, st: FileState, u: FileState, e: nat, j: nat, x: nat)
    requires Change(im, v, B, c, i, st, u) && Owns(im, B, e, j, x) && (e, j) != (c, i)
    ensures x !in FileNodes(st) && x !in st.free && Usable(im.sb, x)
  {
    ConsistentIsValid(im, B, c, i);
    FilesApart(im, B, e, j, c, i);
    InodeClean(im, B, e, j);
    FreeIsUnreferred(im, B, x);
  }

  lemma OtherRefs(im: Image, v: Image, B: nat, c: nat, i: nat, st: FileState, u: FileState, e: nat, j: nat)
    requires Change(im, v, B, c, i, st, u) && IsInode(im, e, j) && (e, j) != (c, i)
    ensures InodeRefs(v, B, e, j) == InodeRefs(im, B, e, j)
  {
    assert ClusterShaped(im, e) && ClusterShaped(v, e) && Inode(v, B, e, j) == Inode(im, B, e, j);
    if InUse(im, e, j) {
      var addr := Inode(im, B, e, j).addr;
      forall x | x in SlotRefs(im.tables, addr, ADDRESSES) ensures SameRow(im.tables, v.tables, x) {
        assert Owns(im, B, e, j, x);
        OthersOwn(im, v, B, c, i, st, u, e, j, x);
      }
      SlotRefsFrame(im.tables, v.tables, addr, ADDRESSES);
    }
  }

  lemma OwnRefs(im: Image, v: Image, B: nat, c: nat, i: nat, st: FileState, u: FileState)
    requires Change(im, v, B, c, i, st, u)
    ensures InodeRefs(v, B, c, i) == SlotRefs(u.tables, u.addr, ADDRESSES)
    ensures forall x :: x in InodeRefs(v, B, c, i) <==> x in FileNodes(u)
    ensures forall x :: x in InodeRefs(im, B, c, i) <==> x in FileNodes(st)
  {
    assert ClusterShaped(im, c) && ClusterShaped(v, c) && Inode(v, B, c, i).addr == u.addr;
    NodesOf(u, SlotRefs(u.tables, u.addr, ADDRESSES));
    ConsistentIsValid(im, B, c, i);
  }

  /** Who owns a block afterwards. */
  lemma OwnsAfter(im: Image, v: Image, B: nat, c: nat, i: nat, st: FileState, u: FileState, e: nat, j: nat, x: nat)
    requires Change(im, v, B, c, i, st, u)
    ensures Owns(v, B, e, j, x) <==> if (e, j) == (c, i) then x in FileNodes(u) else Owns(im, B, e, j, x)
  {
    if (e, j) == (c, i) {
      OwnRefs(im, v, B, c, i, st, u);
    } else if IsInode(im, e, j) {
      OtherRefs(im, v, B, c, i, st, u, e, j);
    }
  }

  /** The blocks referred to afterwards. */
  lemma RefsAfter(im: Image, v: Image, B: nat, c: nat, i: nat, st: FileState, u: FileState, x: nat)
    requires Change(im, v, B, c, i, st, u)
    ensures x in AllRefs(v, B, v.sb.clusters) <==>
      x in FileNodes(u) || (x in AllRefs(im, B, im.sb.clusters) && x !in FileNodes(st))
  {
    var n := im.sb.clusters;
    AllRefsAre(im, B, n, x);
    AllRefsAre(v, B, n, x);
    if OwnedBelow(v, B, n, x) {
      var e: nat, j: nat :| e < n && Owns(v, B, e, j, x);
      OwnsAfter(im, v, B, c, i, st, u, e, j, x);
      if (e, j) != (c, i) { OthersOwn(im, v, B, c, i, st, u, e, j, x); }
    }
    if x in FileNodes(u) { OwnsAfter(im, v, B, c, i, st, u, c, i, x); }
    if OwnedBelow(im, B, n, x) && x !in FileNodes(st) { StillOwned(im, v, B, c, i, st, u, x); }
  }

  lemma StillOwned(im: Image, v: Image, B: nat, c: nat, i: nat, st: FileState, u: FileState, x: nat)
    requires Change(im, v, B, c, i, st, u) && OwnedBelow(im, B, im.sb.clusters, x) && x !in FileNodes(st)
    ensures OwnedBelow(v, B, im.sb.clusters, x)
  {
    var e: nat, j: nat :| e < im.sb.clusters && Owns(im, B, e, j, x);
    OwnsAfter(im, v, B, c, i, st, u, e, j, x);
    OwnRefs(im, v, B, c, i, st, u);
  }

  lemma DistinctAfter(im: Image, v: Image, B: nat, c: nat, i: nat, st: FileState, u: FileState)
    requires Change(im, v, B, c, i, st, u) && ValidFile(u, B) && FileNodes(u) <= FileNodes(st) + st.free
    ensures Distinct(v, B)
  {
    forall e: nat, j: nat | IsInode(v, e, j) ensures NoDup(InodeRefs(v, B, e, j)) {
      if (e, j) == (c, i) {
        OwnRefs(im, v, B, c, i, st, u);
        FileIsRefs(u, B);
      } else {
        OtherRefs(im, v, B, c, i, st, u, e, j);
        InodeClean(im, B, e, j);
      }
    }
    forall e: nat, j: nat, f: nat, k: nat, x: nat | Owns(v, B, e, j, x) && Owns(v, B, f, k, x)
      ensures e == f && j == k
    {
      OneOwner(im, v, B, c, i, st, u, e, j, f, k, x);
    }
  }

  lemma OneOwner(im: Image, v: Image, B: nat, c: nat, i: nat, st: FileState, u: FileState, e: nat, j: nat, f: nat,
                 k: nat, x: nat)
    requires Change(im, v, B, c, i, st, u) && FileNodes(u) <= FileNodes(st) + st.free
    requires Owns(v, B, e, j, x) && Owns(v, B, f, k, x)
    ensures e == f && j == k
  {
    OwnsAfter(im, v, B, c, i, st, u, e, j, x);
    OwnsAfter(im, v, B, c, i, st, u, f, k, x);
    if (e, j) != (c, i) { OthersOwn(im, v, B, c, i, st, u, e, j, x); }
    if (f, k) != (c, i) { OthersOwn(im, v, B, c, i, st, u, f, k, x); }
    if (e, j) != (c, i) && (f, k) != (c, i) && (e, j) != (f, k) { FilesApart(im, B, e, j, f, k); }
  }

  lemma FreeIsUsable(im: Image, B: nat, x: nat)
    requires Shaped(im, B) && x in FreeBlocks(im, B)
    ensures Usable(im.sb, x)
  {
  }

  lemma CleanAfter(im: Image, v: Image, B: nat, c: nat, i: nat, st: FileState, u: FileState)
    requires Change(im, v, B, c, i, st, u) && ValidFile(u, B) && FileNodes(u) <= FileNodes(st) + st.free
    ensures Clean(v.sb, AllRefs(v, B, v.sb.clusters))
  {
    DistinctAfter(im, v, B, c, i, st, u);
    AllNoDup(v, B, v.sb.clusters);
    forall x | x in AllRefs(v, B, v.sb.clusters) ensures Usable(v.sb, x) {
      UsableAfter(im, v, B, c, i, st, u, x);
    }
  }

  lemma UsableAfter(im: Image, v: Image, B: nat, c: nat, i: nat, st: FileState, u: FileState, x: nat)
    requires Change(im, v, B, c, i, st, u) && FileNodes(u) <= FileNodes(st) + st.free
    requires x in AllRefs(v, B, v.sb.clusters)
    ensures Usable(v.sb, x)
  {
    RefsAfter(im, v, B, c, i, st, u, x);
    if x in st.free {
      FreeIsUsable(im, B, x);
    } else {
      AllUsable(im, v, B, c, i, st, u, x);
    }
  }

  lemma AllUsable(im: Image, v: Image, B: nat, c: nat, i: nat, st: FileState, u: FileState, x: nat)
    requires Change(im, v, B, c, i, st, u) && (x in AllRefs(im, B, im.sb.clusters) || x in FileNodes(st))
    ensures Usable(im.sb, x) && x in AllRefs(im, B, im.sb.clusters)
  {
    if x in FileNodes(st) {
      OwnRefs(im, v, B, c, i, st, u);
      InodeClean(im, B, c, i);
    }
    assert ConsistentTo(im, B, im.sb.clusters);
  }

  /** The free blocks are those that no file refers to, before and after. */
  lemma ExactAfter(im: Image, v: Image, B: nat, c: nat, i: nat, st: FileState, u: FileState, x: nat)
    requires Change(im, v, B, c, i, st, u) && ValidFile(u, B) && Usable(v.sb, x)
    requires FileNodes(u) + u.free == FileNodes(st) + st.free
    ensures x in u.free <==> x !in AllRefs(v, B, v.sb.clusters)
  {
    FreeIsUnreferred(im, B, x);
    RefsAfter(im, v, B, c, i, st, u, x);
    if x in FileNodes(st) { AllUsable(im, v, B, c, i, st, u, x); }
    assert x in u.free ==> x in FileNodes(st) + st.free;
    assert x in st.free || x in FileNodes(st) ==> x in FileNodes(u) + u.free;
  }

  lemma BitmapsAfter(v: Image, B: nat, e: nat)
    requires Shaped(v, B) && e < v.sb.clusters
    requires forall x: nat :: Usable(v.sb, x) ==> (x in FreeBlocks(v, B) <==> x !in AllRefs(v, B, v.sb.clusters))
    ensures BitmapExact(v, B, e)
  {
    assert ClusterShaped(v, e);
    forall k: nat | k < DataBlocks(v.sb, e)
      ensures k in BitSet(v.bbitmaps[e], |v.bbitmaps[e]|) <==> Cluster2fs(v.sb, e, k) !in AllRefs(v, B, v.sb.clusters)
    {
      var x := Cluster2fs(v.sb, e, k);
      DataBlockThere(v.sb, e, k);
      assert Usable(v.sb, x);
      assert MarkedFree(v, B, x) <==> k in BitSet(v.bbitmaps[e], |v.bbitmaps[e]|);
      assert x in FreeBlocks(v, B) <==> MarkedFree(v, B, x);
    }
  }

  lemma InodesAfter(im: Image, v: Image, B: nat, c: nat, i: nat, st: FileState, u: FileState, e: nat, j: nat)
    requires Change(im, v, B, c, i, st, u) && ValidFile(u, B) && IsInode(im, e, j)
    ensures InodeExact(v, B, e, j)
  {
    assert ConsistentTo(im, B, im.sb.clusters) && InodeExact(im, B, e, j);
    assert ClusterShaped(im, e) && ClusterShaped(v, e);
    if (e, j) == (c, i) {
      OwnRefs(im, v, B, c, i, st, u);
      FileIsRefs(u, B);
      assert Inode(v, B, c, i).mode == Inode(im, B, c, i).mode;
    } else {
      OtherRefs(im, v, B, c, i, st, u, e, j);
      assert Inode(v, B, e, j) == Inode(im, B, e, j);
    }
  }

  lemma ChangeKeeps(im: Image, v: Image, B: nat, c: nat, i: nat, st: FileState, u: FileState)
    requires Change(im, v, B, c, i, st, u) && ValidFile(u, B) && FileNodes(u) + u.free == FileNodes(st) + st.free
    ensures Consistent(v, B)
  {
    CleanAfter(im, v, B, c, i, st, u);
    forall e, j | 0 <= e < v.sb.clusters && 0 <= j < v.sb.icluster ensures InodeExact(v, B, e, j) {
      InodesAfter(im, v, B, c, i, st, u, e, j);
    }
    forall x: nat | Usable(v.sb, x) ensures x in FreeBlocks(v, B) <==> x !in AllRefs(v, B, v.sb.clusters) {
      ExactAfter(im, v, B, c, i, st, u, x);
    }
    forall e | 0 <= e < v.sb.clusters ensures BitmapExact(v, B, e) { BitmapsAfter(v, B, e); }
    assert ConsistentTo(im, B, im.sb.clusters);
    assert ConsistentTo(v, B, v.sb.clusters);
  }

  /** Whatever reshapes one file keeps the whole file system consistent. */
  lemma ReshapeKeeps(im: Image, v: Image, B: nat, c: nat, i: nat, u: FileState, a: BlockAllocator)
    requires Shaped(im, B) && Shaped(v, B) && Consistent(im, B) && Readable(im, B)
    requires IsInode(im, c, i) && ClusterShaped(im, c) && InUse(im, c, i) && Replaces(im, v, B, c, i, u, a)
    requires Reshaped(FileOf(im, B, c, i), u, B)
    ensures Consistent(v, B)
  {
    var st := FileOf(im, B, c, i);
    ShownFile(im, v, B, c, i, st, u, a);
    ChangeKeeps(im, v, B, c, i, st, u.(tables := v.tables));
  }

  // ------------------------------------------------- wbmap() and i_truncate()

  /** A file that has grown as wbmap() makes it leaves the file system consistent. */
  lemma GrowthKeeps(im: Image, v: Image, B: nat, c: nat, i: nat, u: FileState, a: BlockAllocator)
    requires Shaped(im, B) && Shaped(v, B) && Consistent(im, B) && Readable(im, B)
    requires IsInode(im, c, i) && ClusterShaped(im, c) && InUse(im, c, i) && Replaces(im, v, B, c, i, u, a)
    requires Grown(FileOf(im, B, c, i), u, B)
    ensures Consistent(v, B)
  {
    GrownReshapes(FileOf(im, B, c, i), u, B);
    ReshapeKeeps(im, v, B, c, i, u, a);
  }

  /** A block that is neither free nor in a file shows. */
  lemma LeakShows(im: Image, v: Image, B: nat, c: nat, i: nat, st: FileState, u: FileState)
    requires Change(im, v, B, c, i, st, u) && Leaks(st, u)
    ensures !Consistent(v, B)
  {
    var x :| x in FileNodes(st) && x !in FileNodes(u) && x !in u.free;
    AllUsable(im, v, B, c, i, st, u, x);
    RefsAfter(im, v, B, c, i, st, u, x);
    if Consistent(v, B) { FreeIsUnreferred(v, B, x); }
  }

  /** i_truncate() leaves the file system consistent if and only if its guard holds. */
  lemma TruncateKeepsIff(im: Image, v: Image, B: nat, c: nat, i: nat, cut: nat, u: FileState, a: BlockAllocator)
    requires Shaped(im, B) && Shaped(v, B) && Consistent(im, B) && Readable(im, B)
    requires IsInode(im, c, i) && ClusterShaped(im, c) && InUse(im, c, i) && Replaces(im, v, B, c, i, u, a)
    requires Truncated(FileOf(im, B, c, i), u, cut, B)
    ensures Consistent(v, B) <==> TruncGuard(FileOf(im, B, c, i), cut, B)
  {
    var st := FileOf(im, B, c, i);
    if TruncGuard(st, cut, B) {
      ExactReshapes(st, u, cut, B);
      ReshapeKeeps(im, v, B, c, i, u, a);
    } else {
      ShownFile(im, v, B, c, i, st, u, a);
      var w := u.(tables := v.tables);
      assert Leaks(st, w);
      LeakShows(im, v, B, c, i, st, w);
    }
  }
}
