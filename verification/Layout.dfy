/** How mktfs lays a file system out, and the conversions between file system blocks and cluster
    blocks that the kernel and tfsck use. */
module Layout {
  import opened Arith

  const TFS_MAX_BAD_BLOCKS := 1024

  /** The superblock fields that fix the layout. */
  datatype Superblock = Superblock(
    head: nat,        // 1 + 1 + s_ssbldsz + s_bblsz: boot block, superblock, loader, bad block list
    reserved: nat,    // 1 + 1 + 1 + inode blocks at the head of every cluster
    icluster: nat, bcluster: nat, clusters: nat, lcflag: bool, blcluster: nat,
    fsize: nat, ublocks: int)

  /** s_bpcluster. */
  function Bpcluster(sb: Superblock): nat {
    sb.reserved + sb.bcluster
  }

  /** cluster_data_blocks(). */
  function DataBlocks(sb: Superblock, c: nat): nat {
    if c + 1 == sb.clusters && sb.lcflag then sb.blcluster else sb.bcluster
  }

  /** All blocks but the unused ones at the end. */
  function UsedBlocks(sb: Superblock): int {
    sb.head + sb.reserved * sb.clusters + sb.bcluster * (sb.clusters - 1) + DataBlocks(sb, Last(sb))
  }

  function Last(sb: Superblock): nat {
    if sb.clusters == 0 then 0 else sb.clusters - 1
  }

  /** A sound layout with at least one cluster. */
  predicate LaidOut(sb: Superblock) {
    && sb.head >= 2 && sb.reserved >= 3 && sb.bcluster > 0 && sb.clusters > 0
    && (sb.lcflag ==> sb.blcluster < sb.bcluster)
    && sb.bcluster % 32 == 0 && sb.blcluster % 32 == 0 && sb.icluster % 32 == 0
    && sb.fsize == UsedBlocks(sb) + sb.ublocks && sb.ublocks >= 0
  }

  const BLKSZ := 1024           // the only block size mktfs accepts
  const DINODE := 128           // sizeof(dinode)

  method DivMod(a: nat, b: nat) returns (q: nat, r: nat)
    requires b > 0
    ensures a == q * b + r && r < b
  {
    q, r := a / b, a % b;
  }

  /** The inodes of a cluster, rounded up to whole words of their bitmap, and its reserved blocks. */
  method RoundInodes(icluster0: nat) returns (icluster: nat, reserved: nat)
    ensures icluster % 32 == 0 && icluster0 <= icluster < icluster0 + 32
    ensures reserved >= 3 && (reserved - 3) * BLKSZ == icluster * DINODE
  {
    icluster := icluster0;
    if icluster % 32 != 0 { icluster := icluster + (32 - icluster % 32); }
    reserved := 1 + 1 + 1 + icluster * DINODE / BLKSZ;
  }

  /** The layout part of mktfs, for a device that holds at least the blocks before the clusters. */
  method Format(fsize: nat, icluster0: nat, ssbldsz: nat, maxBadBlocks: nat) returns (sb: Superblock)
    requires 0 < icluster0 <= BLKSZ * 8 && maxBadBlocks <= TFS_MAX_BAD_BLOCKS
    requires fsize >= HeadBlocks(ssbldsz, maxBadBlocks)
    ensures sb.fsize == fsize && sb.head == HeadBlocks(ssbldsz, maxBadBlocks)
    ensures icluster0 <= sb.icluster < icluster0 + 32 && (sb.reserved - 3) * BLKSZ == sb.icluster * DINODE
    ensures sb.bcluster == BLKSZ * 8
    ensures LaidOut(sb) <==> fsize >= sb.head + sb.reserved
    ensures LaidOut(sb) ==> sb.ublocks < sb.reserved + 32
  {
    var bcluster := BLKSZ * 8;
    var bblsz := maxBadBlocks * 4 / BLKSZ + if maxBadBlocks * 4 % BLKSZ != 0 then 1 else 0;
    var icluster, reserved := RoundInodes(icluster0);
    var head := 1 + 1 + ssbldsz + bblsz;
    var used := fsize - head;
    var clusters, rest := DivMod(used, reserved + bcluster);
    var lcflag, blcluster := false, 0;
    if rest >= reserved {
      clusters := clusters + 1;
      lcflag := true;
      blcluster := (rest - reserved) / 32 * 32;
    }
    var last := if lcflag then blcluster else bcluster;
    var ublocks := fsize - (head + reserved * clusters + bcluster * (clusters - 1) + last);
    sb := Superblock(head, reserved, icluster, bcluster, clusters, lcflag, blcluster, fsize, ublocks);
    Leftover(used, reserved, clusters, rest, lcflag, blcluster);
  }

  /** The boot block, the superblock, the second stage loader and the bad block list. */
  function HeadBlocks(ssbldsz: nat, maxBadBlocks: nat): nat {
    2 + ssbldsz + (maxBadBlocks * 4 + BLKSZ - 1) / BLKSZ
  }

  lemma Leftover(used: nat, reserved: nat, clusters: nat, rest: nat, lcflag: bool, blcluster: nat)
    requires reserved >= 3 && rest < reserved + 8192 && lcflag == (rest >= reserved)
    requires lcflag ==> clusters > 0 && used == (clusters - 1) * (reserved + 8192) + rest
    requires lcflag ==> blcluster == (rest - reserved) / 32 * 32
    requires !lcflag ==> used == clusters * (reserved + 8192) + rest
    ensures var ublocks := used - (reserved * clusters + 8192 * (clusters - 1) + if lcflag then blcluster else 8192);
      && 0 <= ublocks < reserved + 32 && (lcflag ==> blcluster < 8192)
    ensures clusters > 0 <==> used >= reserved
  {
    assert clusters * (reserved + 8192) == clusters * reserved + clusters * 8192;
    if lcflag {
      assert (clusters - 1) * (reserved + 8192) == clusters * (reserved + 8192) - (reserved + 8192);
    } else if clusters > 0 {
      MulMono(1, clusters, reserved + 8192);
    }
  }

  // ------------------------------------------------- block numbers

  /** cluster2fs(). */
  function Cluster2fs(sb: Superblock, c: nat, i: nat): nat {
    sb.head + c * Bpcluster(sb) + sb.reserved + i
  }

  /** The division in b_free() and mark_block(). */
  function Home(sb: Superblock, block: int): int
    requires Bpcluster(sb) > 0
  {
    (block - sb.head) / Bpcluster(sb)
  }

  /** fs2cluster(). */
  function Fs2cluster(sb: Superblock, block: int): int
    requires Bpcluster(sb) > 0
  {
    (block - sb.head) % Bpcluster(sb) - sb.reserved
  }

  /** reserved_block(). */
  predicate Reserved(sb: Superblock, block: int)
    requires Bpcluster(sb) > 0
  {
    block < sb.head || (block - sb.head) % Bpcluster(sb) < sb.reserved
  }

  /** Data block i of cluster c exists. */
  predicate DataBlock(sb: Superblock, c: nat, i: nat) {
    c < sb.clusters && i < DataBlocks(sb, c)
  }

  /** The used blocks, cluster by cluster. */
  lemma UsedIs(sb: Superblock)
    requires LaidOut(sb)
    ensures UsedBlocks(sb) ==
      sb.head + (sb.clusters - 1) * Bpcluster(sb) + sb.reserved + DataBlocks(sb, sb.clusters - 1)
  {
    assert (sb.clusters - 1) * Bpcluster(sb) == (sb.clusters - 1) * sb.reserved + (sb.clusters - 1) * sb.bcluster;
    assert sb.reserved * sb.clusters == (sb.clusters - 1) * sb.reserved + sb.reserved;
  }

  /** Every data block has a file system block of its own, in range and not reserved, from which
      the division and the remainder find it again. */
  lemma DataBlockThere(sb: Superblock, c: nat, i: nat)
    requires LaidOut(sb) && DataBlock(sb, c, i)
    ensures var b := Cluster2fs(sb, c, i);
      && sb.head <= b < UsedBlocks(sb) && !Reserved(sb, b) && Home(sb, b) == c && Fs2cluster(sb, b) == i
  {
    var p := Bpcluster(sb);
    assert i < sb.bcluster;
    DivUnique(c * p + (sb.reserved + i), p, c, sb.reserved + i);
    UsedIs(sb);
    if c + 1 < sb.clusters {
      MulMono(c + 1, sb.clusters - 1, p);
      assert (c + 1) * p == c * p + p;
    }
  }

  /** Every used block that is not reserved is a data block: the regions tile the device. */
  lemma BlockIsData(sb: Superblock, block: nat)
    requires LaidOut(sb) && block < UsedBlocks(sb) && !Reserved(sb, block)
    ensures Home(sb, block) >= 0 && Fs2cluster(sb, block) >= 0
    ensures DataBlock(sb, Home(sb, block), Fs2cluster(sb, block))
    ensures Cluster2fs(sb, Home(sb, block), Fs2cluster(sb, block)) == block
  {
    var p := Bpcluster(sb);
    var c, r := Divided(block - sb.head, p);
    UsedIs(sb);
    assert sb.clusters * p == (sb.clusters - 1) * p + p;
    if c >= sb.clusters { MulMono(sb.clusters, c, p); }
  }

  lemma Divided(a: nat, b: nat) returns (q: nat, r: nat)
    requires b > 0
    ensures a == q * b + r && r < b && q == a / b && r == a % b
  {
    q, r := a / b, a % b;
  }

  /** A block below the end of the clusters is reserved, or a data block, and never both. */
  lemma Tiling(sb: Superblock, block: nat)
    requires LaidOut(sb) && block < UsedBlocks(sb)
    ensures !Reserved(sb, block) <==> exists c: nat, i: nat :: DataBlock(sb, c, i) && Cluster2fs(sb, c, i) == block
  {
    if !Reserved(sb, block) {
      BlockIsData(sb, block);
    }
    if c: nat, i: nat :| DataBlock(sb, c, i) && Cluster2fs(sb, c, i) == block {
      DataBlockThere(sb, c, i);
    }
  }

  // ------------------------------------------------- the flat bitmap of tfsck

  /** The bit of a data block in tfsck's bitmap of the whole file system. */
  function FlatIndex(sb: Superblock, block: int): int
    requires Bpcluster(sb) > 0
  {
    sb.bcluster * Home(sb, block) + Fs2cluster(sb, block)
  }

  /** The number of data blocks. */
  function TotalData(sb: Superblock): int {
    sb.bcluster * (sb.clusters - 1) + DataBlocks(sb, Last(sb))
  }

  lemma FlatIs(sb: Superblock, c: nat, i: nat)
    requires LaidOut(sb) && DataBlock(sb, c, i)
    ensures FlatIndex(sb, Cluster2fs(sb, c, i)) == sb.bcluster * c + i
    ensures 0 <= sb.bcluster * c + i < TotalData(sb)
  {
    DataBlockThere(sb, c, i);
    if c + 1 < sb.clusters {
      MulMono(c + 1, sb.clusters - 1, sb.bcluster);
      assert (c + 1) * sb.bcluster == sb.bcluster * c + sb.bcluster;
    }
  }

  /** Different data blocks have different bits, all in range. */
  lemma FlatInjective(sb: Superblock, a: nat, b: nat)
    requires LaidOut(sb) && a < UsedBlocks(sb) && b < UsedBlocks(sb) && !Reserved(sb, a) && !Reserved(sb, b)
    ensures 0 <= FlatIndex(sb, a) < TotalData(sb)
    ensures FlatIndex(sb, a) == FlatIndex(sb, b) ==> a == b
  {
    BlockIsData(sb, a);
    BlockIsData(sb, b);
    FlatIs(sb, Home(sb, a), Fs2cluster(sb, a));
    if FlatIndex(sb, a) == FlatIndex(sb, b) {
      SameFlat(sb.bcluster, Home(sb, a), Fs2cluster(sb, a), Home(sb, b), Fs2cluster(sb, b));
    }
  }

  lemma SameFlat(m: nat, c: nat, i: nat, d: nat, j: nat)
    requires i < m && j < m && m * c + i == m * d + j
    ensures c == d && i == j
  {
    DivUnique(m * c + i, m, c, i);
    DivUnique(m * c + i, m, d, j);
  }

  /** Every bit of the flat bitmap is that of a data block. */
  lemma FlatOnto(sb: Superblock, n: nat) returns (c: nat, i: nat)
    requires LaidOut(sb) && n < TotalData(sb)
    ensures c == n / sb.bcluster && i == n % sb.bcluster
    ensures DataBlock(sb, c, i) && FlatIndex(sb, Cluster2fs(sb, c, i)) == n
  {
    c, i := Divided(n, sb.bcluster);
    assert sb.clusters * sb.bcluster == sb.bcluster * (sb.clusters - 1) + sb.bcluster;
    if c >= sb.clusters { MulMono(sb.clusters, c, sb.bcluster); }
    FlatIs(sb, c, i);
  }
}
