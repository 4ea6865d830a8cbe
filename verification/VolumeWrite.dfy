/** regular_write() and the file system as a whole: the bytes written are what the data blocks hold,
    and tfsck finds the file system consistent. */
module VolumeWrite {
  import opened BlockMap
  import opened InodeMap
  import opened DataRows
  import opened FileWrite
  import opened FsckModel
  import opened Blocks
  import opened Volume

  /** The contents of a block, read as four-byte numbers. */
  function Words(c: seq<int>): (w: seq<nat>)
    ensures |w| == |c| / 4
  {
    seq(|c| / 4, k requires 0 <= k < |c| / 4 => Word(c, 4 * k))
  }

  function Word(c: seq<int>, o: nat): nat
    requires o + 4 <= |c|
  {
    c[o] % 256 + 256 * (c[o + 1] % 256) + 65536 * (c[o + 2] % 256) + 16777216 * (c[o + 3] % 256)
  }

  /** The blocks t on disk: the data blocks of the file u hold the given contents, all others what
      u.tables says. */
  ghost predicate OnDisk(u: FileState, data: map<nat, seq<int>>, t: Tables, B: nat)
    requires |u.addr| == ADDRESSES && B > 0
  {
    && (forall x: nat :: HoldsData(u, x, B) ==> x in data && x in t && t[x] == Words(data[x]))
    && forall x: nat :: !HoldsData(u, x, B) ==> SameRow(u.tables, t, x)
  }

  lemma OnDiskIsShown(st: FileState, u: FileState, data: map<nat, seq<int>>, t: Tables, B: nat)
    requires Grown(st, u, B) && OnDisk(u, data, t, B)
    ensures SameOutside(u.tables, t, Loose(st, u))
  {
    forall x | x !in Loose(st, u) ensures SameRow(u.tables, t, x) {
      if HoldsData(u, x, B) { DataIsNotTable(u, x, B); }
    }
  }

  /** Every block still holds B numbers. */
  lemma OnDiskIsReadable(im: Image, v: Image, B: nat, st: FileState, u: FileState, data: map<nat, seq<int>>, bs: nat)
    requires Shaped(im, B) && Shaped(v, B) && Readable(im, B) && v.sb == im.sb && st.tables == im.tables
    requires bs == 4 * B && Grown(st, u, B) && Stored(u, data, bs, B) && OnDisk(u, data, v.tables, B)
    ensures Readable(v, B)
  {
    forall b: nat | b < v.sb.fsize ensures b in v.tables && |v.tables[b]| == B {
      if HoldsData(u, b, B) {
        DataIsStored(u, data, b, bs, B);
      } else if b in FileNodes(u) {
        DataOrTable(u, b, B);
      } else {
        assert SameRow(st.tables, u.tables, b) && SameRow(u.tables, v.tables, b);
      }
    }
  }

  lemma DataIsStored(u: FileState, data: map<nat, seq<int>>, x: nat, bs: nat, B: nat)
    requires ValidFile(u, B) && Stored(u, data, bs, B) && HoldsData(u, x, B)
    ensures x in data && |data[x]| == bs
  {
    StoredBlocks(u, data, bs, B);
  }

  /** What regular_write() leaves on disk is consistent and readable, and the file has its blocks
      where it has put them. */
  lemma WriteKeeps(im: Image, v: Image, B: nat, c: nat, i: nat, u: FileState, a: BlockAllocator,
                   data: map<nat, seq<int>>, size: nat, after: map<nat, seq<int>>, size': nat, offset: nat,
                   buf: seq<int>, n: nat, bs: nat)
    requires Shaped(im, B) && Shaped(v, B) && Consistent(im, B) && Readable(im, B)
    requires IsInode(im, c, i) && ClusterShaped(im, c) && InUse(im, c, i) && OneInode(im, v, B, c, i, u)
    requires bs == 4 * B && n <= |buf|
    requires Written(FileOf(im, B, c, i), data, size, u, after, size', offset, buf, n, bs, B)
    requires OnDisk(u, after, v.tables, B) && a.Valid() && a.ShownBy(v, B) && a.Free() == u.free
    ensures Consistent(v, B) && Readable(v, B) && ClusterShaped(v, c) && InUse(v, c, i)
    ensures forall f: nat :: f < MaxBlocks(B) ==> MapOf(FileOf(v, B, c, i), f, B) == MapOf(u, f, B)
  {
    var st := FileOf(im, B, c, i);
    OnDiskIsShown(st, u, after, v.tables, B);
    GrowthKeeps(im, v, B, c, i, u, a);
    OnDiskIsReadable(im, v, B, st, u, after, bs);
    assert ClusterShaped(v, c);
    SameMap(im, v, B, c, i, u);
  }

  lemma SameMap(im: Image, v: Image, B: nat, c: nat, i: nat, u: FileState)
    requires Shaped(im, B) && Shaped(v, B) && IsInode(im, c, i) && OneInode(im, v, B, c, i, u) && ValidFile(u, B)
    requires SameRows(u.tables, v.tables, FileTables(u))
    ensures forall f: nat :: f < MaxBlocks(B) ==> MapOf(FileOf(v, B, c, i), f, B) == MapOf(u, f, B)
  {
    RewrittenKeeps(u, v.tables, B);
    assert ClusterShaped(v, c) && FileOf(v, B, c, i).addr == u.addr;
  }
}
