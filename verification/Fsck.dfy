/** The second stage of tfsck, run without repairs: it marks every block referred to in one flat
    bitmap and compares that with the bitmaps on disk. */
module Fsck {
  import opened Arith
  import opened BlockMap
  import opened Bitmap
  import opened Layout
  import opened FsckModel

  /** A number that is not that of one of the unused blocks behind the clusters. */
  predicate InScope(sb: Superblock, b: nat) {
    b < UsedBlocks(sb) || b >= sb.fsize
  }

  /** No number met in walking the tree of depth d at b is that of an unused block. A table is
      followed only if it is in range and not reserved. */
  predicate Scoped(im: Image, b: nat, d: nat)
    requires Bpcluster(im.sb) > 0
    decreases d, 1
  {
    b == 0 || (InScope(im.sb, b) &&
      (d == 0 || b >= im.sb.fsize || Reserved(im.sb, b) || b !in im.tables || RowScoped(im, im.tables[b], d - 1)))
  }

  predicate RowScoped(im: Image, row: seq<nat>, d: nat)
    requires Bpcluster(im.sb) > 0
    decreases d, 2
  {
    forall i :: 0 <= i < |row| ==> Scoped(im, row[i], d)
  }

  predicate SlotsScoped(im: Image, addr: seq<nat>)
    requires Bpcluster(im.sb) > 0
  {
    forall r :: 0 <= r < |addr| ==> Scoped(im, addr[r], Depth(r))
  }

  /** No reference that the walks of the inodes in use meet is to one of the unused blocks. */
  predicate NoUnused(im: Image, B: nat)
    requires Shaped(im, B)
  {
    forall c, i :: 0 <= c < im.sb.clusters && 0 <= i < im.sb.icluster ==> InodeScoped(im, B, c, i)
  }

  predicate InodeScoped(im: Image, B: nat, c: nat, i: nat)
    requires Shaped(im, B) && c < im.sb.clusters && i < im.sb.icluster
  {
    assert ClusterShaped(im, c);
    var di := im.inodes[c][i];
    InUse(im, c, i) && ValidMode(di.mode) ==> SlotsScoped(im, di.addr)
  }

  /** The set bits are those of the data blocks not yet referred to. */
  ghost predicate Marks(sb: Superblock, refs: seq<nat>, bits: set<nat>)
    requires Bpcluster(sb) > 0
  {
    Clean(sb, refs) && forall n: nat :: n < TotalData(sb) ==> (n in bits <==> Unmarked(sb, refs, n))
  }

  predicate Unmarked(sb: Superblock, refs: seq<nat>, n: nat)
    requires Bpcluster(sb) > 0
  {
    forall j :: 0 <= j < |refs| ==> FlatIndex(sb, refs[j]) != n
  }

  function One(block: nat): seq<nat> {
    if block == 0 then [] else [block]
  }

  lemma MarkNext(sb: Superblock, refs: seq<nat>, bits: set<nat>, block: nat)
    requires LaidOut(sb) && Marks(sb, refs, bits) && Usable(sb, block)
    ensures 0 <= FlatIndex(sb, block) < TotalData(sb)
    ensures FlatIndex(sb, block) in bits ==> Marks(sb, refs + [block], bits - {FlatIndex(sb, block)})
  {
    FlatInjective(sb, block, block);
    var n := FlatIndex(sb, block);
    if n in bits {
      var after := refs + [block];
      assert Unmarked(sb, refs, n);
      forall i, j | 0 <= i < j < |after| ensures after[i] != after[j] {
        if j == |refs| { assert FlatIndex(sb, refs[i]) != n; }
      }
      forall m: nat | m < TotalData(sb) ensures m in bits - {n} <==> Unmarked(sb, after, m) {
        assert m in bits <==> Unmarked(sb, refs, m);
        assert after[|refs|] == block;
        if Unmarked(sb, after, m) {
          forall j | 0 <= j < |refs| ensures FlatIndex(sb, refs[j]) != m { assert after[j] == refs[j]; }
        }
      }
    }
  }

  /** The tree can be added to the references and lies within the size. */
  predicate Fine(im: Image, refs: seq<nat>, size: int, b: nat, d: nat)
    requires Bpcluster(im.sb) > 0
  {
    Clean(im.sb, refs + Refs(im.tables, b, d)) && Within(im.tables, b, d, size)
  }

  /** So can the trees of the first n entries of a row. */
  predicate RowFine(im: Image, refs: seq<nat>, size: int, row: seq<nat>, d: nat, n: nat)
    requires Bpcluster(im.sb) > 0 && n <= |row|
  {
    Clean(im.sb, refs + RowRefs(im.tables, row, d, n)) && RowWithin(im.tables, row, d, n, size)
  }

  lemma RowFineNext(im: Image, refs: seq<nat>, size: int, row: seq<nat>, d: nat, n: nat)
    requires Bpcluster(im.sb) > 0 && n < |row|
    ensures var more := refs + RowRefs(im.tables, row, d, n);
      RowFine(im, refs, size, row, d, n + 1) <==>
        RowFine(im, refs, size, row, d, n) && Fine(im, more, RowSize(im.tables, row, d, n, size), row[n], d)
  {
    var some, last := RowRefs(im.tables, row, d, n), Refs(im.tables, row[n], d);
    assert refs + (some + last) == refs + some + last;
    CleanPrefix(im.sb, refs + some, last);
  }

  /** A table that is there: the table itself, then its entries. */
  lemma TableFine(im: Image, refs: seq<nat>, size: int, b: nat, d: nat)
    requires Bpcluster(im.sb) > 0 && b != 0 && d > 0 && b in im.tables
    ensures var row := im.tables[b];
      Fine(im, refs, size, b, d) <==>
        Clean(im.sb, refs + [b]) && size > 0 && RowFine(im, refs + [b], size, row, d - 1, |row|)
  {
    var row := im.tables[b];
    var rest := RowRefs(im.tables, row, d - 1, |row|);
    assert refs + ([b] + rest) == refs + [b] + rest;
    CleanPrefix(im.sb, refs + [b], rest);
  }

  predicate SlotsFine(im: Image, refs: seq<nat>, size: int, addr: seq<nat>, n: nat)
    requires Bpcluster(im.sb) > 0 && n <= |addr|
  {
    Clean(im.sb, refs + SlotRefs(im.tables, addr, n)) && SlotWithin(im.tables, addr, n, size)
  }

  lemma SlotsFineNext(im: Image, refs: seq<nat>, size: int, addr: seq<nat>, n: nat)
    requires Bpcluster(im.sb) > 0 && n < |addr|
    ensures var more := refs + SlotRefs(im.tables, addr, n);
      SlotsFine(im, refs, size, addr, n + 1) <==>
        SlotsFine(im, refs, size, addr, n) && Fine(im, more, SlotSize(im.tables, addr, n, size), addr[n], Depth(n))
    ensures refs + SlotRefs(im.tables, addr, n + 1) ==
      refs + SlotRefs(im.tables, addr, n) + Refs(im.tables, addr[n], Depth(n))
  {
    var some, last := SlotRefs(im.tables, addr, n), Refs(im.tables, addr[n], Depth(n));
    assert refs + (some + last) == refs + some + last;
    CleanPrefix(im.sb, refs + some, last);
  }

  /** The inode is in order and its references can be added. */
  predicate InodeFine(im: Image, B: nat, refs: seq<nat>, c: nat, i: nat)
    requires Shaped(im, B) && c < im.sb.clusters && i < im.sb.icluster
  {
    Clean(im.sb, refs + InodeRefs(im, B, c, i)) && InodeExact(im, B, c, i) && InodeTidy(im, B, c, i)
  }

  /** So are the first n inodes of a cluster. */
  predicate ClusterFine(im: Image, B: nat, refs: seq<nat>, c: nat, n: nat)
    requires Shaped(im, B) && c < im.sb.clusters && n <= im.sb.icluster
  {
    Clean(im.sb, refs + ClusterRefs(im, B, c, n)) && OrderTo(im, B, c, n)
  }

  predicate OrderTo(im: Image, B: nat, c: nat, n: nat)
    requires Shaped(im, B) && c < im.sb.clusters && n <= im.sb.icluster
  {
    forall i :: 0 <= i < n ==> InOrder(im, B, c, i)
  }

  predicate InOrder(im: Image, B: nat, c: nat, i: nat)
    requires Shaped(im, B) && c < im.sb.clusters && i < im.sb.icluster
  {
    InodeExact(im, B, c, i) && InodeTidy(im, B, c, i)
  }

  lemma ClusterFineNext(im: Image, B: nat, refs: seq<nat>, c: nat, n: nat)
    requires Shaped(im, B) && c < im.sb.clusters && n < im.sb.icluster
    ensures ClusterFine(im, B, refs, c, n + 1) <==>
      ClusterFine(im, B, refs, c, n) && InodeFine(im, B, refs + ClusterRefs(im, B, c, n), c, n)
    ensures refs + ClusterRefs(im, B, c, n + 1) == refs + ClusterRefs(im, B, c, n) + InodeRefs(im, B, c, n)
  {
    var some, last := ClusterRefs(im, B, c, n), InodeRefs(im, B, c, n);
    assert ClusterRefs(im, B, c, n + 1) == some + last;
    assert refs + (some + last) == refs + some + last;
    CleanPrefix(im.sb, refs + some, last);
    assert InOrder(im, B, c, n) <==> InodeExact(im, B, c, n) && InodeTidy(im, B, c, n);
  }

  /** So are the first n clusters. */
  predicate AllFine(im: Image, B: nat, n: nat)
    requires Shaped(im, B) && n <= im.sb.clusters
  {
    && Clean(im.sb, AllRefs(im, B, n))
    && forall c :: 0 <= c < n ==> OrderTo(im, B, c, im.sb.icluster)
  }

  predicate FineSoFar(im: Image, B: nat, n: nat, errors: nat, refs: seq<nat>)
    requires Shaped(im, B) && n <= im.sb.clusters
  {
    (errors == 0 <==> AllFine(im, B, n)) && (errors == 0 ==> refs == AllRefs(im, B, n))
  }

  lemma AllFineStep(im: Image, B: nat, n: nat, before: nat, r: seq<nat>, after: nat, refs: seq<nat>)
    requires Shaped(im, B) && n < im.sb.clusters && FineSoFar(im, B, n, before, r)
    requires after == 0 <==> before == 0 && ClusterFine(im, B, r, n, im.sb.icluster)
    requires after == 0 ==> refs == r + ClusterRefs(im, B, n, im.sb.icluster)
    ensures FineSoFar(im, B, n + 1, after, refs)
  {
    AllFineNext(im, B, n);
  }

  lemma AllFineNext(im: Image, B: nat, n: nat)
    requires Shaped(im, B) && n < im.sb.clusters
    ensures AllFine(im, B, n + 1) <==> AllFine(im, B, n) && ClusterFine(im, B, AllRefs(im, B, n), n, im.sb.icluster)
  {
    CleanPrefix(im.sb, AllRefs(im, B, n), ClusterRefs(im, B, n, im.sb.icluster));
  }

  lemma NotFine(im: Image, refs: seq<nat>, size: int, b: nat, d: nat)
    requires Bpcluster(im.sb) > 0 && b != 0 && !Usable(im.sb, b)
    ensures !Fine(im, refs, size, b, d)
  {
    var more := Refs(im.tables, b, d);
    assert more[0] == b && (refs + more)[|refs|] == b;
  }

  lemma CleanPrefix(sb: Superblock, xs: seq<nat>, ys: seq<nat>)
    requires Bpcluster(sb) > 0
    ensures Clean(sb, xs + ys) ==> Clean(sb, xs)
  {
    if Clean(sb, xs + ys) {
      AppendNoDup(xs, ys);
      forall i | 0 <= i < |xs| ensures Usable(sb, xs[i]) { assert (xs + ys)[i] == xs[i]; }
    }
  }

  /** One more reference. */
  lemma CleanOne(sb: Superblock, refs: seq<nat>, block: nat)
    requires Bpcluster(sb) > 0 && block != 0
    ensures Clean(sb, refs + [block]) <==> Clean(sb, refs) && Usable(sb, block) && block !in refs
  {
    var after := refs + [block];
    CleanPrefix(sb, refs, [block]);
    assert after[|refs|] == block;
    if Clean(sb, after) {
      forall i | 0 <= i < |refs| ensures refs[i] != block { assert after[i] == refs[i]; }
    }
  }

  class Checker {
    const im: Image
    const B: nat
    const bitmap: array<nat>
    var size: int
    var fsErrors: nat
    var dataBlocks: nat           // inode_data_blocks
    var totalBlocks: nat          // inode_total_blocks
    var siBlock: nat
    var diBlock: nat
    var tiBlock: nat
    var freeInodes: nat           // total_free_inodes
    var freeBlocks: nat           // total_free_blocks
    ghost var refs: seq<nat>

    ghost predicate Ready()
      reads this
    {
      && Shaped(im, B) && Readable(im, B) && (forall b: nat :: b == B ==> NoUnused(im, b))
      && TotalData(im.sb) >= 0 && bitmap.Length * 32 == TotalData(im.sb)
    }

    ghost predicate Valid()
      reads this, bitmap
    {
      && Ready() && (forall i :: 0 <= i < bitmap.Length ==> bitmap[i] < WORD)
      && (fsErrors == 0 ==> Clean(im.sb, refs))
      && (fsErrors == 0 ==> forall n: nat :: n == bitmap.Length ==> Marks(im.sb, refs, BitSet(bitmap[..], n)))
    }

    /** mark_block(): the old status of the block's bit. */
    method MarkBlock(block: nat) returns (was: bool)
      requires Ready() && Usable(im.sb, block) && 0 <= FlatIndex(im.sb, block) < TotalData(im.sb)
      requires forall i :: 0 <= i < bitmap.Length ==> bitmap[i] < WORD
      modifies bitmap
      ensures was == (FlatIndex(im.sb, block) in old(BitSet(bitmap[..], bitmap.Length)))
      ensures BitSet(bitmap[..], bitmap.Length) == old(BitSet(bitmap[..], bitmap.Length)) - {FlatIndex(im.sb, block)}
      ensures forall i :: 0 <= i < bitmap.Length ==> bitmap[i] < WORD
    {
      var n := FlatIndex(im.sb, block);
      ghost var words := bitmap[..];
      BitSetIs(words, bitmap.Length, n);
      was := Bit(bitmap[n / 32], n % 32);
      BitSetAndNot(words, bitmap.Length, n / 32, n % 32);
      AndNotBitSmall(bitmap[n / 32], n % 32);
      bitmap[n / 32] := AndNotBit(bitmap[n / 32], n % 32);
      assert bitmap[..] == words[n / 32 := AndNotBit(words[n / 32], n % 32)];
    }

    /** insert_block(). */
    method InsertBlock(block: nat, kind: nat)
      requires Valid() && (block == 0 || InScope(im.sb, block))
      modifies this`fsErrors, this`dataBlocks, this`totalBlocks, this`refs, bitmap
      ensures Valid() && fsErrors >= old(fsErrors)
      ensures fsErrors == 0 <==> old(fsErrors) == 0 && Clean(im.sb, old(refs) + One(block)) && (block == 0 || size > 0)
      ensures fsErrors == 0 ==> refs == old(refs) + One(block) && totalBlocks == old(totalBlocks) + |One(block)|
    {
      assert refs + [] == refs;
      if block == 0 { return; }
      CleanOne(im.sb, refs, block);
      if block < im.sb.fsize {
        if Reserved(im.sb, block) {
          fsErrors := fsErrors + 1;
          return;
        }
        if kind == 0 { dataBlocks := dataBlocks + 1; }
        totalBlocks := totalBlocks + 1;
        if size > 0 {
          FlatInjective(im.sb, block, block);
          if fsErrors == 0 {
            assert Marks(im.sb, refs, BitSet(bitmap[..], bitmap.Length));
            MarkNext(im.sb, refs, BitSet(bitmap[..], bitmap.Length), block);
            UnmarkedIs(im.sb, refs, block);
          }
          var was := MarkBlock(block);
          if was {
            refs := refs + [block];
            return;
          }
        }
      }
      fsErrors := fsErrors + 1;
    }

    /** The tree of depth d at b has been walked, from the given state. */
    ghost predicate Counted(errors: nat, before: seq<nat>, left: int, total: nat, b: nat, d: nat)
      requires Bpcluster(im.sb) > 0
      reads this
    {
      && fsErrors >= errors && (fsErrors == 0 <==> errors == 0 && Fine(im, before, left, b, d))
      && (fsErrors == 0 ==> refs == before + Refs(im.tables, b, d) && size == SizeAfter(im.tables, b, d, left))
      && (fsErrors == 0 ==> totalBlocks == total + |Refs(im.tables, b, d)|)
    }

    /** So have the trees of the first n entries of a row. */
    ghost predicate RowCounted(errors: nat, before: seq<nat>, left: int, total: nat, row: seq<nat>, d: nat, n: nat)
      requires Bpcluster(im.sb) > 0 && n <= |row|
      reads this
    {
      && fsErrors >= errors && (fsErrors == 0 <==> errors == 0 && RowFine(im, before, left, row, d, n))
      && (fsErrors == 0 ==> refs == before + RowRefs(im.tables, row, d, n))
      && (fsErrors == 0 ==> size == RowSize(im.tables, row, d, n, left))
      && (fsErrors == 0 ==> totalBlocks == total + |RowRefs(im.tables, row, d, n)|)
    }

    /** single_indirect_block_insert(). */
    method Single()
      requires Valid() && Scoped(im, siBlock, 1)
      modifies this`size, this`fsErrors, this`dataBlocks, this`totalBlocks, this`refs, bitmap
      ensures Valid() && Counted(old(fsErrors), old(refs), old(size), old(totalBlocks), siBlock, 1)
    {
      assert refs + [] == refs;
      if siBlock == 0 { return; }
      if siBlock >= im.sb.fsize || Reserved(im.sb, siBlock) {
        NotFine(im, refs, size, siBlock, 1);
        fsErrors := fsErrors + 1;
        return;
      }
      TableFine(im, refs, size, siBlock, 1);
      InsertBlock(siBlock, 1);
      var row := im.tables[siBlock];
      assert RowScoped(im, row, 0);
      ghost var e, r, s, n := fsErrors, refs, size, totalBlocks;
      assert r + [] == r;
      for i := 0 to B
        invariant Valid() && RowCounted(e, r, s, n, row, 0, i)
      {
        RowFineNext(im, r, s, row, 0, i);
        InsertBlock(row[i], 0);
        size := size - BLKSZ;
      }
    }

    /** double_indirect_block_insert(). */
    method Double()
      requires Valid() && Scoped(im, diBlock, 2)
      modifies this`size, this`fsErrors, this`dataBlocks, this`totalBlocks, this`siBlock, this`refs, bitmap
      ensures Valid() && Counted(old(fsErrors), old(refs), old(size), old(totalBlocks), diBlock, 2)
    {
      assert refs + [] == refs;
      if diBlock == 0 { return; }
      if diBlock >= im.sb.fsize || Reserved(im.sb, diBlock) {
        NotFine(im, refs, size, diBlock, 2);
        fsErrors := fsErrors + 1;
        return;
      }
      siBlock := 0;
      TableFine(im, refs, size, diBlock, 2);
      InsertBlock(diBlock, 2);
      var row := im.tables[diBlock];
      SingleRow(row);
    }

    /** The entries of the table that double_indirect_block_insert() has read. */
    method SingleRow(row: seq<nat>)
      requires Valid() && |row| == B && RowScoped(im, row, 1)
      modifies this`size, this`fsErrors, this`dataBlocks, this`totalBlocks, this`siBlock, this`refs, bitmap
      ensures Valid()
      ensures RowCounted(old(fsErrors), old(refs), old(size), old(totalBlocks), row, 1, B)
    {
      ghost var e, r, s, n := fsErrors, refs, size, totalBlocks;
      assert r + [] == r;
      for i := 0 to B
        invariant Valid() && RowCounted(e, r, s, n, row, 1, i)
      {
        RowFineNext(im, r, s, row, 1, i);
        siBlock := row[i];
        Single();
      }
    }

    /** triple_indirect_block_insert(). */
    method Triple()
      requires Valid() && Scoped(im, tiBlock, 3)
      modifies this`size, this`fsErrors, this`dataBlocks, this`totalBlocks, this`siBlock, this`diBlock, this`refs
      modifies bitmap
      ensures Valid() && Counted(old(fsErrors), old(refs), old(size), old(totalBlocks), tiBlock, 3)
    {
      assert refs + [] == refs;
      if tiBlock == 0 { return; }
      if tiBlock >= im.sb.fsize || Reserved(im.sb, tiBlock) {
        NotFine(im, refs, size, tiBlock, 3);
        fsErrors := fsErrors + 1;
        return;
      }
      diBlock := 0;
      TableFine(im, refs, size, tiBlock, 3);
      InsertBlock(tiBlock, 3);
      var row := im.tables[tiBlock];
      DoubleRow(row);
    }

    /** The entries of the table that triple_indirect_block_insert() has read. */
    method DoubleRow(row: seq<nat>)
      requires Valid() && |row| == B && RowScoped(im, row, 2)
      modifies this`size, this`fsErrors, this`dataBlocks, this`totalBlocks, this`siBlock, this`diBlock, this`refs
      modifies bitmap
      ensures Valid()
      ensures RowCounted(old(fsErrors), old(refs), old(size), old(totalBlocks), row, 2, B)
    {
      ghost var e, r, s, n := fsErrors, refs, size, totalBlocks;
      assert r + [] == r;
      for i := 0 to B
        invariant Valid() && RowCounted(e, r, s, n, row, 2, i)
      {
        RowFineNext(im, r, s, row, 2, i);
        diBlock := row[i];
        Double();
      }
    }

    /** The trees of the first n slots have been walked. */
    ghost predicate SlotsCounted(errors: nat, before: seq<nat>, left: int, addr: seq<nat>, n: nat)
      requires Bpcluster(im.sb) > 0 && n <= |addr|
      reads this
    {
      && fsErrors >= errors && (fsErrors == 0 <==> errors == 0 && SlotsFine(im, before, left, addr, n))
      && (fsErrors == 0 ==> refs == before + SlotRefs(im.tables, addr, n) && size == SlotSize(im.tables, addr, n, left))
      && (fsErrors == 0 ==> totalBlocks == |SlotRefs(im.tables, addr, n)|)
    }

    /** The walk of one inode's address slots in check_cluster_inodes(). */
    method WalkInode(di: Dinode)
      requires Valid() && |di.addr| == ADDRESSES && SlotsScoped(im, di.addr)
      modifies this, bitmap
      ensures Valid() && freeInodes == old(freeInodes) && freeBlocks == old(freeBlocks)
      ensures SlotsCounted(old(fsErrors), old(refs), Rounded(di.size), di.addr, ADDRESSES)
    {
      totalBlocks, dataBlocks := 0, 0;
      size := di.size;
      if size % BLKSZ != 0 { size := size + BLKSZ - size % BLKSZ; }
      siBlock, diBlock, tiBlock := 0, 0, 0;
      ghost var e, r, s := fsErrors, refs, size;
      assert r + [] == r;
      for i := 0 to DIRECT_BLOCKS
        invariant Valid() && freeInodes == old(freeInodes) && freeBlocks == old(freeBlocks)
        invariant SlotsCounted(e, r, s, di.addr, i)
      {
        SlotsFineNext(im, r, s, di.addr, i);
        InsertBlock(di.addr[i], 0);
        size := size - BLKSZ;
      }
      WalkIndirect(di, e, r, s);
    }

    /** The indirect slots, after the direct ones. */
    method WalkIndirect(di: Dinode, ghost e: nat, ghost r: seq<nat>, ghost s: int)
      requires Valid() && |di.addr| == ADDRESSES && SlotsScoped(im, di.addr)
      requires SlotsCounted(e, r, s, di.addr, DIRECT_BLOCKS)
      modifies this, bitmap
      ensures Valid() && freeInodes == old(freeInodes) && freeBlocks == old(freeBlocks)
      ensures SlotsCounted(e, r, s, di.addr, ADDRESSES)
    {
      siBlock := di.addr[SINGLE_INDIRECT_BLOCK];
      SlotsFineNext(im, r, s, di.addr, SINGLE_INDIRECT_BLOCK);
      Single();
      WalkDeeper(di, e, r, s);
    }

    /** The slots of the double and the triple indirect block. */
    method WalkDeeper(di: Dinode, ghost e: nat, ghost r: seq<nat>, ghost s: int)
      requires Valid() && |di.addr| == ADDRESSES && SlotsScoped(im, di.addr)
      requires SlotsCounted(e, r, s, di.addr, DOUBLE_INDIRECT_BLOCK)
      modifies this, bitmap
      ensures Valid() && freeInodes == old(freeInodes) && freeBlocks == old(freeBlocks)
      ensures SlotsCounted(e, r, s, di.addr, ADDRESSES)
    {
      diBlock := di.addr[DOUBLE_INDIRECT_BLOCK];
      SlotsFineNext(im, r, s, di.addr, DOUBLE_INDIRECT_BLOCK);
      Double();
      assert SlotsCounted(e, r, s, di.addr, TRIPLE_INDIRECT_BLOCK);
      tiBlock := di.addr[TRIPLE_INDIRECT_BLOCK];
      SlotsFineNext(im, r, s, di.addr, TRIPLE_INDIRECT_BLOCK);
      Triple();
    }

    /** check_cluster_inodes(). */
    method CheckClusterInodes(c: nat)
      requires Valid() && c < im.sb.clusters
      modifies this, bitmap
      ensures Valid() && freeBlocks == old(freeBlocks)
      ensures freeInodes == old(freeInodes) + Total(im.ibitmaps[c], |im.ibitmaps[c]|)
      ensures fsErrors == 0 <==> old(fsErrors) == 0 && ClusterFine(im, B, old(refs), c, im.sb.icluster)
      ensures fsErrors == 0 ==> refs == old(refs) + ClusterRefs(im, B, c, im.sb.icluster)
    {
      assert ClusterShaped(im, c);
      ghost var e, r := fsErrors, refs;
      var free := CountBitmap(im.ibitmaps[c], |im.ibitmaps[c]|);
      freeInodes := freeInodes + free;
      assert r + [] == r;
      for i := 0 to im.sb.icluster
        invariant Valid() && freeBlocks == old(freeBlocks) && freeInodes == old(freeInodes) + free
        invariant fsErrors == 0 <==> e == 0 && ClusterFine(im, B, r, c, i)
        invariant fsErrors == 0 ==> refs == r + ClusterRefs(im, B, c, i)
      {
        ClusterFineNext(im, B, r, c, i);
        CheckInode(c, i);
      }
    }

    method CheckInode(c: nat, i: nat)
      requires Valid() && c < im.sb.clusters && i < im.sb.icluster
      modifies this, bitmap
      ensures Valid() && freeInodes == old(freeInodes) && freeBlocks == old(freeBlocks)
      ensures fsErrors == 0 <==> old(fsErrors) == 0 && InodeFine(im, B, old(refs), c, i)
      ensures fsErrors == 0 ==> refs == old(refs) + InodeRefs(im, B, c, i)
    {
      assert ClusterShaped(im, c);
      assert refs + [] == refs;
      if c == 0 && i == 0 { return; }
      var di := im.inodes[c][i];
      if Bit(im.ibitmaps[c][i / 32], i % 32) {
        if di.mode != 0 { fsErrors := fsErrors + 1; }
        return;
      }
      if !ValidMode(di.mode) {
        fsErrors := fsErrors + 1;
        return;
      }
      assert NoUnused(im, B) && InodeScoped(im, B, c, i);
      WalkInode(di);
      if totalBlocks != di.blocks { fsErrors := fsErrors + 1; }
    }

    /** check_cluster_blocks(), which repairs nothing. */
    method CheckClusterBlocks(c: nat)
      requires Valid() && c < im.sb.clusters
      modifies this`fsErrors, this`freeBlocks
      ensures Valid() && fsErrors >= old(fsErrors)
      ensures freeBlocks == old(freeBlocks) + Total(im.bbitmaps[c], |im.bbitmaps[c]|)
      ensures fsErrors == 0 <==> old(fsErrors) == 0 && BlocksExact(im, B, c, refs)
    {
      assert ClusterShaped(im, c);
      var offset := c * im.sb.bcluster / 8 / 4;
      var n := DataBlocks(im.sb, c) / 32;
      OffsetFits(im.sb, c, offset);
      var same := true;
      for i := 0 to n
        invariant same <==> forall j :: 0 <= j < i ==> bitmap[offset + j] == im.bbitmaps[c][j]
      {
        if bitmap[offset + i] != im.bbitmaps[c][i] { same := false; }
      }
      if fsErrors == 0 {
        assert Marks(im.sb, refs, BitSet(bitmap[..], bitmap.Length));
        SameBitmap(im, B, c, offset, bitmap[..], refs);
      }
      if !same { fsErrors := fsErrors + 1; }
      var free := CountBitmap(im.bbitmaps[c], n);
      freeBlocks := freeBlocks + free;
    }

    constructor (im: Image, B: nat)
      requires Shaped(im, B) && Readable(im, B) && NoUnused(im, B)
      ensures Valid() && this.im == im && this.B == B && fresh(bitmap)
      ensures fsErrors == 0 && refs == [] && freeInodes == 0 && freeBlocks == 0
    {
      var n := WordsOf(im.sb);
      this.im, this.B := im, B;
      size, fsErrors, dataBlocks, totalBlocks, siBlock, diBlock, tiBlock := 0, 0, 0, 0, 0, 0, 0;
      freeInodes, freeBlocks, refs := 0, 0, [];
      bitmap := new nat[n](_ => 0xFFFF_FFFF);
      new;
      AllFree(im.sb, bitmap[..]);
    }

    /** The second stage: it finds no error if and only if the file system is consistent, no block
        of a file lies past its size, and free inodes have no mode. */
    method Stage2()
      requires Valid() && fsErrors == 0 && refs == [] && freeInodes == 0 && freeBlocks == 0
      modifies this, bitmap
      ensures fsErrors == 0 <==> Consistent(im, B) && Tidy(im, B)
    {
      ConsistentIff(im, B);
      CheckAll();
    }

    /** The checks of the second stage. */
    method CheckAll()
      requires Valid() && fsErrors == 0 && refs == [] && freeInodes == 0 && freeBlocks == 0
      modifies this, bitmap
      ensures fsErrors == 0 <==> ImageFine(im, B)
    {
      CheckInodes();
      CheckBlocks();
      if freeBlocks != im.bfree { fsErrors := fsErrors + 1; }
      if freeInodes != im.ifree { fsErrors := fsErrors + 1; }
    }

    method CheckInodes()
      requires Valid() && fsErrors == 0 && refs == [] && freeInodes == 0
      modifies this, bitmap
      ensures Valid() && freeBlocks == old(freeBlocks) && freeInodes == Sum(im.ibitmaps, im.sb.clusters)
      ensures fsErrors == 0 <==> AllFine(im, B, im.sb.clusters)
      ensures fsErrors == 0 ==> refs == AllRefs(im, B, im.sb.clusters)
    {
      for c := 0 to im.sb.clusters
        invariant Valid() && freeBlocks == old(freeBlocks) && freeInodes == Sum(im.ibitmaps, c)
        invariant FineSoFar(im, B, c, fsErrors, refs)
      {
        ghost var e, r := fsErrors, refs;
        CheckClusterInodes(c);
        AllFineStep(im, B, c, e, r, fsErrors, refs);
      }
    }

    method CheckBlocks()
      requires Valid() && freeBlocks == 0 && (fsErrors == 0 ==> refs == AllRefs(im, B, im.sb.clusters))
      modifies this`fsErrors, this`freeBlocks
      ensures Valid() && freeBlocks == Sum(im.bbitmaps, im.sb.clusters)
      ensures fsErrors == 0 <==> old(fsErrors) == 0 && BlocksFine(im, B, im.sb.clusters)
    {
      for c := 0 to im.sb.clusters
        invariant Valid() && freeBlocks == Sum(im.bbitmaps, c)
        invariant fsErrors == 0 <==> old(fsErrors) == 0 && BlocksFine(im, B, c)
      {
        BlocksFineNext(im, B, c);
        CheckClusterBlocks(c);
      }
    }
  }

  lemma BlocksFineNext(im: Image, B: nat, c: nat)
    requires Shaped(im, B) && c < im.sb.clusters
    ensures BlocksFine(im, B, c + 1) <==>
      BlocksFine(im, B, c) && BlocksExact(im, B, c, AllRefs(im, B, im.sb.clusters))
  {
  }

  /** The clear bits of the bitmap of cluster c are exactly the blocks in refs. */
  predicate BlocksExact(im: Image, B: nat, c: nat, refs: seq<nat>)
    requires Shaped(im, B) && c < im.sb.clusters
  {
    assert ClusterShaped(im, c);
    forall i :: 0 <= i < DataBlocks(im.sb, c) ==>
      (i in BitSet(im.bbitmaps[c], |im.bbitmaps[c]|) <==> Cluster2fs(im.sb, c, i) !in refs)
  }

  /** The bitmaps of the first n clusters are exact. */
  predicate BlocksFine(im: Image, B: nat, n: nat)
    requires Shaped(im, B) && n <= im.sb.clusters
  {
    forall c :: 0 <= c < n ==> BlocksExact(im, B, c, AllRefs(im, B, im.sb.clusters))
  }

  /** All checks of the second stage pass. */
  predicate ImageFine(im: Image, B: nat)
    requires Shaped(im, B)
  {
    && AllFine(im, B, im.sb.clusters) && BlocksFine(im, B, im.sb.clusters)
    && im.bfree == Sum(im.bbitmaps, im.sb.clusters) && im.ifree == Sum(im.ibitmaps, im.sb.clusters)
  }

  lemma ConsistentIff(im: Image, B: nat)
    requires Shaped(im, B)
    ensures Consistent(im, B) && Tidy(im, B) <==> ImageFine(im, B)
  {
    var n := im.sb.clusters;
    if AllFine(im, B, n) {
      forall c, i | 0 <= c < n && 0 <= i < im.sb.icluster ensures InodeExact(im, B, c, i) && InodeTidy(im, B, c, i) {
        assert OrderTo(im, B, c, im.sb.icluster) && InOrder(im, B, c, i);
      }
    }
    forall c | 0 <= c < n ensures BitmapExact(im, B, c) <==> BlocksExact(im, B, c, AllRefs(im, B, n)) {}
    assert Consistent(im, B) <==> ConsistentTo(im, B, n);
  }

  /** The words of the flat bitmap. */
  function WordsOf(sb: Superblock): (n: nat)
    requires LaidOut(sb)
    ensures n * 32 == TotalData(sb)
  {
    var w := sb.bcluster / 32;
    assert sb.bcluster == w * 32;
    assert sb.bcluster * (sb.clusters - 1) == w * (sb.clusters - 1) * 32;
    w * (sb.clusters - 1) + DataBlocks(sb, Last(sb)) / 32
  }

  /** The flat bitmap of cluster c starts on a word and fits. */
  lemma OffsetFits(sb: Superblock, c: nat, offset: nat)
    requires LaidOut(sb) && c < sb.clusters && offset == c * sb.bcluster / 8 / 4
    ensures offset * 32 == c * sb.bcluster && (offset + DataBlocks(sb, c) / 32) * 32 <= TotalData(sb)
  {
    var w := sb.bcluster / 32;
    Words32(c, w, sb.bcluster);
    if c + 1 < sb.clusters {
      MulMono(c + 1, sb.clusters - 1, sb.bcluster);
      assert (c + 1) * sb.bcluster == c * sb.bcluster + sb.bcluster;
    }
  }

  lemma Words32(c: nat, w: nat, n: nat)
    requires n == w * 32
    ensures c * n == c * w * 32
  {
  }

  lemma AllFree(sb: Superblock, words: seq<nat>)
    requires LaidOut(sb) && |words| * 32 == TotalData(sb) && forall i :: 0 <= i < |words| ==> words[i] == 0xFFFF_FFFF
    ensures Marks(sb, [], BitSet(words, |words|))
  {
    WordSize();
    forall n: nat | n < TotalData(sb) ensures n in BitSet(words, |words|) {
      BitSetIs(words, |words|, n);
      AllBits(32, n % 32);
    }
  }

  /** The part of the flat bitmap for cluster c is the bitmap on disk if and only if that is exact. */
  lemma SameBitmap(im: Image, B: nat, c: nat, offset: nat, words: seq<nat>, refs: seq<nat>)
    requires Shaped(im, B) && c < im.sb.clusters && offset * 32 == c * im.sb.bcluster && ClusterShaped(im, c)
    requires |words| * 32 == TotalData(im.sb) && Marks(im.sb, refs, BitSet(words, |words|))
    requires offset + |im.bbitmaps[c]| <= |words| && forall j :: 0 <= j < |words| ==> words[j] < WORD
    ensures BlocksExact(im, B, c, refs) <==>
      forall j :: 0 <= j < |im.bbitmaps[c]| ==> words[offset + j] == im.bbitmaps[c][j]
  {
    var map_ := im.bbitmaps[c];
    forall i | 0 <= i < DataBlocks(im.sb, c)
      ensures i in BitSet(map_, |map_|) <==> Bit(map_[i / 32], i % 32)
      ensures Cluster2fs(im.sb, c, i) !in refs <==> Bit(words[offset + i / 32], i % 32)
    {
      BitSetIs(map_, |map_|, i);
      FlatBit(im, B, c, offset, words, refs, i);
    }
    if BlocksExact(im, B, c, refs) {
      forall j | 0 <= j < |map_| ensures words[offset + j] == map_[j] {
        forall k | 0 <= k < 32 ensures Bit(words[offset + j], k) == Bit(map_[j], k) {
          var i := 32 * j + k;
          assert i / 32 == j && i % 32 == k && i < DataBlocks(im.sb, c);
        }
        WordSize();
        SameBits(words[offset + j], map_[j], 32);
      }
    }
  }

  lemma FlatBit(im: Image, B: nat, c: nat, offset: nat, words: seq<nat>, refs: seq<nat>, i: nat)
    requires Shaped(im, B) && c < im.sb.clusters && offset * 32 == c * im.sb.bcluster && i < DataBlocks(im.sb, c)
    requires |words| * 32 == TotalData(im.sb) && Marks(im.sb, refs, BitSet(words, |words|))
    requires |im.bbitmaps[c]| == DataBlocks(im.sb, c) / 32 && offset + |im.bbitmaps[c]| <= |words|
    ensures i / 32 < |im.bbitmaps[c]|
    ensures Cluster2fs(im.sb, c, i) !in refs <==> Bit(words[offset + i / 32], i % 32)
  {
    var b, n := Cluster2fs(im.sb, c, i), offset * 32 + i;
    BitSetIs(words, |words|, n);
    assert i / 32 < |im.bbitmaps[c]| && n / 32 == offset + i / 32 && n % 32 == i % 32;
    FlatIs(im.sb, c, i);
    DataBlockThere(im.sb, c, i);
    UnmarkedIs(im.sb, refs, b);
  }

  lemma UnmarkedIs(sb: Superblock, refs: seq<nat>, b: nat)
    requires LaidOut(sb) && Clean(sb, refs) && b < UsedBlocks(sb) && !Reserved(sb, b) && FlatIndex(sb, b) >= 0
    ensures Unmarked(sb, refs, FlatIndex(sb, b)) <==> b !in refs
  {
    forall j | 0 <= j < |refs| ensures FlatIndex(sb, refs[j]) == FlatIndex(sb, b) <==> refs[j] == b {
      FlatInjective(sb, refs[j], b);
    }
  }
}
