/** fs/block.c: b_alloc() and b_free(), over the cluster allocator. Their sets of free blocks are
    those that the inode's methods allocate from and free to. */
module Blocks {
  import opened Bitmap
  import opened Cluster
  import opened Layout
  import opened FsckModel

  /** The resources of a file system's allocator are its data blocks. */
  predicate Fitting(sb: Superblock, limit: seq<nat>) {
    && LaidOut(sb) && |limit| == sb.clusters
    && forall c :: 0 <= c < |limit| ==> 32 * limit[c] == DataBlocks(sb, c)
  }

  function BlockOf(sb: Superblock, r: Resource): nat {
    Cluster2fs(sb, r.cluster, r.bit)
  }

  /** The block numbers of a set of resources. */
  function BlocksOf(sb: Superblock, s: set<Resource>): set<nat> {
    set r | r in s :: BlockOf(sb, r)
  }

  predicate IsData(sb: Superblock, r: Resource) {
    DataBlock(sb, r.cluster, r.bit)
  }

  /** Different data blocks have different numbers. */
  lemma BlocksDiffer(sb: Superblock, r: Resource, q: Resource)
    requires LaidOut(sb) && IsData(sb, r) && IsData(sb, q) && BlockOf(sb, r) == BlockOf(sb, q)
    ensures r == q
  {
    DataBlockThere(sb, r.cluster, r.bit);
    DataBlockThere(sb, q.cluster, q.bit);
  }

  lemma BlocksLess(sb: Superblock, s: set<Resource>, r: Resource)
    requires LaidOut(sb) && r in s && forall q :: q in s ==> IsData(sb, q)
    ensures BlocksOf(sb, s - {r}) == BlocksOf(sb, s) - {BlockOf(sb, r)}
  {
    forall q | q in s && BlockOf(sb, q) == BlockOf(sb, r) ensures q == r { BlocksDiffer(sb, q, r); }
    forall b | b in BlocksOf(sb, s) && b != BlockOf(sb, r) ensures b in BlocksOf(sb, s - {r}) {
      var q :| q in s && BlockOf(sb, q) == b;
      assert q in s - {r};
    }
  }

  lemma BlocksMore(sb: Superblock, s: set<Resource>, r: Resource)
    ensures BlocksOf(sb, s + {r}) == BlocksOf(sb, s) + {BlockOf(sb, r)}
  {
    forall b | b in BlocksOf(sb, s) + {BlockOf(sb, r)} ensures b in BlocksOf(sb, s + {r}) {
      if b != BlockOf(sb, r) {
        var q :| q in s && BlockOf(sb, q) == b;
        assert q in s + {r};
      } else {
        assert r in s + {r};
      }
    }
  }

  /** The free resources are data blocks. */
  lemma FreeIsData(sb: Superblock, maps: seq<seq<nat>>, limit: seq<nat>, r: Resource)
    requires Fitting(sb, limit) && Fits(maps, limit) && r in FreeIn(maps, limit, |limit|)
    ensures IsData(sb, r)
  {
    FreeInIs(maps, limit, |limit|, r);
    BitSetIs(maps[r.cluster], limit[r.cluster], r.bit);
  }

  class BlockAllocator {
    const sb: Superblock
    const alloc: Allocator

    constructor (sb: Superblock, alloc: Allocator)
      requires alloc.Valid() && Fitting(sb, alloc.limit)
      ensures Valid() && this.sb == sb && this.alloc == alloc
    {
      this.sb, this.alloc := sb, alloc;
    }

    ghost predicate Valid()
      reads this, alloc, alloc.bitmap
    {
      alloc.Valid() && Fits(alloc.Maps(), alloc.limit) && Fitting(sb, alloc.limit)
    }

    ghost function Free(): set<nat>
      requires Valid()
      reads this, alloc, alloc.bitmap
    {
      BlocksOf(sb, alloc.Free())
    }

    lemma AllData()
      requires Valid()
      ensures forall r :: r in alloc.Free() ==> IsData(sb, r)
      ensures Free() == {} <==> alloc.free == 0
    {
      forall r | r in alloc.Free() ensures IsData(sb, r) { FreeIsData(sb, alloc.Maps(), alloc.limit, r); }
      alloc.CountsAreExact();
      if r :| r in alloc.Free() { assert BlockOf(sb, r) in Free(); }
    }

    /** The image shows the bitmaps in force and s_bfree. */
    ghost predicate ShownBy(im: Image, B: nat)
      requires Valid() && Shaped(im, B)
      reads this, alloc, alloc.bitmap
    {
      im.sb == sb && Shows(im, B, alloc.Maps(), alloc.limit) && im.bfree == alloc.free
    }

    /** Then tfsck finds the same free blocks, and the right number of them. */
    lemma ShownIsFree(im: Image, B: nat)
      requires Valid() && Shaped(im, B) && ShownBy(im, B)
      ensures FreeBlocks(im, B) == Free() && im.bfree == Sum(im.bbitmaps, im.sb.clusters)
    {
      FreeIsFree(im, B, alloc.Maps(), alloc.limit);
    }

    /** b_alloc(): some free block, or 0 if there is none. */
    method BAlloc() returns (b: nat)
      requires Valid()
      modifies alloc, alloc.bitmap
      ensures Valid()
      ensures if old(Free()) == {} then b == 0 && Free() == old(Free()) && alloc.free == old(alloc.free)
        else b in old(Free()) && Free() == old(Free()) - {b} && alloc.free == old(alloc.free) - 1
    {
      AllData();
      ghost var s := alloc.Free();
      var ok, r := alloc.Alloc();
      if !ok { return 0; }
      BlocksLess(sb, s, r);
      b := Cluster2fs(sb, r.cluster, r.bit);
    }

    /** b_free() of a data block that is not free. */
    method BFree(b: nat)
      requires Valid() && Usable(sb, b) && b !in Free()
      modifies alloc, alloc.bitmap
      ensures Valid() && Free() == old(Free()) + {b} && alloc.free == old(alloc.free) + 1
    {
      BlockIsData(sb, b);
      var r := Resource(Home(sb, b), Fs2cluster(sb, b));
      BlocksMore(sb, alloc.Free(), r);
      alloc.Release(r);
    }
  }

  /** The bitmaps of the image are those in force: the words in use of the one in core and of the
      ones on disk. */
  predicate Shows(im: Image, B: nat, maps: seq<seq<nat>>, limit: seq<nat>)
    requires Shaped(im, B) && Fits(maps, limit)
  {
    && Fitting(im.sb, limit)
    && forall c :: 0 <= c < |limit| ==> im.bbitmaps[c] == maps[c][..limit[c]]
  }

  lemma {:induction false} SameSums(maps: seq<seq<nat>>, limit: seq<nat>, bitmaps: seq<seq<nat>>, n: nat)
    requires Fits(maps, limit) && n <= |limit| == |bitmaps|
    requires forall c :: 0 <= c < |limit| ==> bitmaps[c] == maps[c][..limit[c]]
    ensures Sum(bitmaps, n) == SumIn(maps, limit, n)
  {
    if n > 0 {
      SameSums(maps, limit, bitmaps, n - 1);
      TotalFrame(maps[n - 1], bitmaps[n - 1], limit[n - 1]);
    }
  }

  /** The free blocks of b_alloc() and b_free() are those that tfsck reads off the bitmaps, and
      s_bfree is their number as tfsck counts it. */
  lemma FreeIsFree(im: Image, B: nat, maps: seq<seq<nat>>, limit: seq<nat>)
    requires Shaped(im, B) && Fits(maps, limit) && Shows(im, B, maps, limit)
    ensures BlocksOf(im.sb, FreeIn(maps, limit, |limit|)) == FreeBlocks(im, B)
    ensures Sum(im.bbitmaps, im.sb.clusters) == SumIn(maps, limit, |limit|)
  {
    SameSums(maps, limit, im.bbitmaps, |limit|);
    var s := FreeIn(maps, limit, |limit|);
    forall b | b in BlocksOf(im.sb, s) ensures b in FreeBlocks(im, B) {
      var r :| r in s && BlockOf(im.sb, r) == b;
      FreeIsMarked(im, B, maps, limit, r);
    }
    forall b | b in FreeBlocks(im, B) ensures b in BlocksOf(im.sb, s) {
      var r := MarkedIsFree(im, B, maps, limit, b);
    }
  }

  lemma BitsIn(im: Image, B: nat, maps: seq<seq<nat>>, limit: seq<nat>, c: nat)
    requires Shaped(im, B) && Fits(maps, limit) && Shows(im, B, maps, limit) && c < |limit|
    ensures BitSet(im.bbitmaps[c], |im.bbitmaps[c]|) == BitSet(maps[c], limit[c])
  {
    BitSetFrame(maps[c], im.bbitmaps[c], limit[c]);
  }

  lemma FreeIsMarked(im: Image, B: nat, maps: seq<seq<nat>>, limit: seq<nat>, r: Resource)
    requires Shaped(im, B) && Fits(maps, limit) && Shows(im, B, maps, limit) && r in FreeIn(maps, limit, |limit|)
    ensures BlockOf(im.sb, r) in FreeBlocks(im, B)
  {
    FreeIsData(im.sb, maps, limit, r);
    FreeInIs(maps, limit, |limit|, r);
    BitsIn(im, B, maps, limit, r.cluster);
    DataBlockThere(im.sb, r.cluster, r.bit);
    assert MarkedFree(im, B, BlockOf(im.sb, r));
  }

  lemma MarkedIsFree(im: Image, B: nat, maps: seq<seq<nat>>, limit: seq<nat>, b: nat) returns (r: Resource)
    requires Shaped(im, B) && Fits(maps, limit) && Shows(im, B, maps, limit) && b in FreeBlocks(im, B)
    ensures r in FreeIn(maps, limit, |limit|) && BlockOf(im.sb, r) == b
  {
    assert MarkedFree(im, B, b);
    BlockIsData(im.sb, b);
    r := Resource(Home(im.sb, b), Fs2cluster(im.sb, b));
    BitsIn(im, B, maps, limit, r.cluster);
    FreeInIs(maps, limit, |limit|, r);
  }

  // ------------------------------------------------- the count of free inodes

  /** The inodes that are not in use; inode 0 of the file system does not exist. */
  ghost function FreeInodes(im: Image, B: nat): set<Resource>
    requires Shaped(im, B)
  {
    set c, i | 0 <= c < im.sb.clusters && 0 <= i < im.sb.icluster && FreeInode(im, B, c, i) :: Resource(c, i)
  }

  predicate FreeInode(im: Image, B: nat, c: nat, i: nat)
    requires Shaped(im, B) && c < im.sb.clusters && i < im.sb.icluster
  {
    assert ClusterShaped(im, c);
    (c > 0 || i > 0) && !InUse(im, c, i)
  }

  /** The bit of inode 0 is set. */
  predicate ZeroMarked(im: Image, B: nat)
    requires Shaped(im, B)
  {
    assert ClusterShaped(im, 0);
    im.sb.icluster > 0 && 0 in BitSet(im.ibitmaps[0], |im.ibitmaps[0]|)
  }

  function Lengths(maps: seq<seq<nat>>): seq<nat> {
    seq(|maps|, c requires 0 <= c < |maps| => |maps[c]|)
  }

  lemma {:induction false} SumIsSumIn(maps: seq<seq<nat>>, n: nat)
    requires n <= |maps|
    ensures Fits(maps, Lengths(maps)) && Sum(maps, n) == SumIn(maps, Lengths(maps), n)
  {
    if n > 0 { SumIsSumIn(maps, n - 1); }
  }

  /** s_ifree of a consistent file system is the number of inodes not in use. */
  lemma InodesCounted(im: Image, B: nat)
    requires Shaped(im, B) && Consistent(im, B)
    ensures im.ifree == |FreeInodes(im, B)| + if ZeroMarked(im, B) then 1 else 0
  {
    var n, limit := im.sb.clusters, Lengths(im.ibitmaps);
    assert ConsistentTo(im, B, n);
    SumIsSumIn(im.ibitmaps, n);
    FreeInSize(im.ibitmaps, limit, n);
    var marked := FreeIn(im.ibitmaps, limit, n);
    forall x: Resource
      ensures x in marked <==> x in FreeInodes(im, B) || (ZeroMarked(im, B) && x == Resource(0, 0))
    {
      InodeMarked(im, B, x);
    }
    OneApart(marked, FreeInodes(im, B), Resource(0, 0), ZeroMarked(im, B));
  }

  lemma OneApart(marked: set<Resource>, free: set<Resource>, r: Resource, more: bool)
    requires r !in free && forall x: Resource :: x in marked <==> x in free || (more && x == r)
    ensures |marked| == |free| + if more then 1 else 0
  {
    assert marked == if more then free + {r} else free;
  }

  lemma InodeMarked(im: Image, B: nat, x: Resource)
    requires Shaped(im, B) && Fits(im.ibitmaps, Lengths(im.ibitmaps))
    ensures x in FreeIn(im.ibitmaps, Lengths(im.ibitmaps), im.sb.clusters) <==>
      x in FreeInodes(im, B) || (ZeroMarked(im, B) && x == Resource(0, 0))
  {
    FreeInIs(im.ibitmaps, Lengths(im.ibitmaps), im.sb.clusters, x);
    if x.cluster < im.sb.clusters {
      assert ClusterShaped(im, x.cluster);
      BitSetIs(im.ibitmaps[x.cluster], |im.ibitmaps[x.cluster]|, x.bit);
      if x.bit < im.sb.icluster { assert x in FreeInodes(im, B) <==> FreeInode(im, B, x.cluster, x.bit); }
    }
  }
}
