/** The bytes of a file, and where the extents that bmap() reports give them right. */
module FileModel {
  import opened Basics
  import opened Arith
  import opened BlockMap
  import opened InodeMap
  import opened FileWalk

  // ------------------------------------------------- a file's blocks are different

  /** Different paths into a tree reach different blocks. */
  lemma {:induction false} LookInjective(t: Tables, b: nat, d: nat, p: seq<nat>, q: seq<nat>, B: nat)
    requires Tree(t, b, d, B) && |p| <= d && |q| <= d && p != q
    requires Look(t, b, p) != 0 && Look(t, b, q) != 0
    ensures Look(t, b, p) != Look(t, b, q)
    decreases d
  {
    if p == [] {
      InKid(t, b, d, q, B);
    } else if q == [] {
      InKid(t, b, d, p, B);
    } else if p[0] == q[0] {
      Kid(t, b, d, p[0], B);
      assert p == [p[0]] + p[1..] && q == [q[0]] + q[1..];
      LookInjective(t, t[b][p[0]], d - 1, p[1..], q[1..], B);
    } else {
      Kid(t, b, d, p[0], B);
      LookIsNode(t, t[b][p[0]], d - 1, p[1..]);
      LookIsNode(t, t[b][q[0]], d - 1, q[1..]);
    }
  }

  lemma InKid(t: Tables, b: nat, d: nat, q: seq<nat>, B: nat)
    requires Tree(t, b, d, B) && 0 < |q| <= d && Look(t, b, q) != 0
    ensures Look(t, b, q) != b
  {
    Kid(t, b, d, q[0], B);
    LookIsNode(t, t[b][q[0]], d - 1, q[1..]);
  }

  /** Different places of a file have different blocks. */
  lemma PlacesDiffer(st: FileState, p: Place, q: Place, B: nat)
    requires ValidFile(st, B) && p.root < ADDRESSES && q.root < ADDRESSES && p != q
    requires |p.path| <= Depth(p.root) && |q.path| <= Depth(q.root) && BlockOf(st, p) != 0 && BlockOf(st, q) != 0
    ensures BlockOf(st, p) != BlockOf(st, q)
  {
    if p.root == q.root {
      LookInjective(st.tables, st.addr[p.root], Depth(p.root), p.path, q.path, B);
    } else {
      LookIsNode(st.tables, st.addr[p.root], Depth(p.root), p.path);
      LookIsNode(st.tables, st.addr[q.root], Depth(q.root), q.path);
      assert p.root < q.root ==> RootNodes(st, p.root) !! RootNodes(st, q.root);
      assert q.root < p.root ==> RootNodes(st, q.root) !! RootNodes(st, p.root);
    }
  }

  /** No two file blocks share a disk block. */
  lemma MapInjective(st: FileState, f: nat, g: nat, B: nat)
    requires ValidFile(st, B) && f < MaxBlocks(B) && g < MaxBlocks(B) && f != g
    requires MapOf(st, f, B) != 0 && MapOf(st, g, B) != 0
    ensures MapOf(st, f, B) != MapOf(st, g, B)
  {
    PlaceInverse(f, B);
    PlaceInverse(g, B);
    PlacesDiffer(st, PlaceOf(f, B), PlaceOf(g, B), B);
  }

  // ------------------------------------------------- extents

  /** How many tables on the way to the place are there, from the k-th on. */
  ghost function MissingAt(st: FileState, p: Place, k: nat): (m: nat)
    requires p.root < |st.addr| && k <= |p.path|
    ensures k <= m <= |p.path|
    ensures m < |p.path| ==> BlockOf(st, Prefix(p, m)) == 0
    ensures forall j :: k <= j < m ==> BlockOf(st, Prefix(p, j)) != 0
    decreases |p.path| - k
  {
    if k == |p.path| || BlockOf(st, Prefix(p, k)) == 0 then k else MissingAt(st, p, k + 1)
  }

  /** The number of blocks in the extent that _bmap() reports for the file block f. */
  ghost function ExtentAt(st: FileState, f: nat, B: nat): int
    requires ValidFile(st, B) && f < MaxBlocks(B)
  {
    PlaceInverse(f, B);
    var p := PlaceOf(f, B);
    if p.path == [] then DIRECT_BLOCKS - p.root
    else
      var k := MissingAt(st, p, 0);
      if k == |p.path| then B - p.path[k - 1] else HoleBlocks(|p.path|, k, Value(p.path[k..], B), B)
  }

  /** All tables on the way to the file block are there. */
  ghost predicate FoundAt(st: FileState, f: nat, B: nat)
    requires ValidFile(st, B) && f < MaxBlocks(B)
  {
    PlaceInverse(f, B);
    MissingAt(st, PlaceOf(f, B), 0) == |PlaceOf(f, B).path|
  }

  /** What _bmap() reports is the extent. */
  lemma BmappedExtent(st: FileState, p: Place, found: bool, block: nat, index: int, nblocks: int, k: nat, B: nat)
    requires Bmapped(st, p, found, block, index, nblocks, k, B)
    ensures BlockAt(p, B) < MaxBlocks(B) && nblocks == ExtentAt(st, BlockAt(p, B), B)
    ensures p.path != [] ==> (found <==> MissingAt(st, p, 0) == |p.path|)
    ensures !found ==> k == MissingAt(st, p, 0)
  {
    PlaceUnique(p, B);
    if p.path != [] {
      if found {
        AllThere(st, p, |p.path| - 1, B);
      } else {
        FirstMissing(st, p, k);
      }
    }
  }

  lemma FirstMissing(st: FileState, p: Place, k: nat)
    requires p.root < |st.addr| && k < |p.path| && BlockOf(st, Prefix(p, k)) == 0
    requires k > 0 ==> BlockOf(st, Prefix(p, k - 1)) != 0
    ensures MissingAt(st, p, 0) == k
  {
    var m := MissingAt(st, p, 0);
    if m < k { LookPast(st.tables, st.addr[p.root], p.path[..m], p.path[..k - 1]); }
  }

  lemma AllThere(st: FileState, p: Place, k: nat, B: nat)
    requires ValidFile(st, B) && GoodPlace(p, B) && p.path != [] && k == |p.path| - 1
    requires BlockOf(st, Prefix(p, k)) != 0
    ensures MissingAt(st, p, 0) == |p.path|
  {
    var m := MissingAt(st, p, 0);
    if m < |p.path| { LookPast(st.tables, st.addr[p.root], p.path[..m], p.path[..k]); }
  }

  /** The disk blocks of the file, 0 for holes. */
  ghost function FileBlocks(st: FileState, B: nat): (blocks: seq<nat>)
    requires ValidFile(st, B)
    ensures |blocks| == MaxBlocks(B) && forall f: nat :: f < MaxBlocks(B) ==> blocks[f] == MapOf(st, f, B)
  {
    seq(MaxBlocks(B), f requires 0 <= f < MaxBlocks(B) => MapOf(st, f, B))
  }

  /** The file as _bmap() reports it. */
  ghost function ReportOf(st: FileState, B: nat): (r: Report)
    requires ValidFile(st, B)
    ensures Shape(r) && |r.blocks| == MaxBlocks(B) && r.blocks == FileBlocks(st, B)
    ensures forall f: nat :: f < MaxBlocks(B) ==> r.extents[f] == ExtentAt(st, f, B) && r.found[f] == FoundAt(st, f, B)
  {
    Report(FileBlocks(st, B),
      seq(MaxBlocks(B), f requires 0 <= f < MaxBlocks(B) => ExtentAt(st, f, B)),
      seq(MaxBlocks(B), f requires 0 <= f < MaxBlocks(B) => FoundAt(st, f, B)))
  }

  /** If every table on the way is there, the walk ends and takes the blocks of the file. */
  lemma DenseIsRight(st: FileState, f: nat, n: nat, B: nat)
    requires ValidFile(st, B) && f + n <= MaxBlocks(B)
    requires forall g: nat :: f <= g < f + n ==> FoundAt(st, g, B)
    ensures Advances(ReportOf(st, B), f, n) && HolesAreHoles(ReportOf(st, B), f, n)
  {
    forall g: nat | f <= g < f + n ensures ExtentAt(st, g, B) > 0 {
      assert FoundAt(st, g, B);
      PlaceInverse(g, B);
    }
    TablesThere(ReportOf(st, B), f, n);
  }

  // ------------------------------------------------- io_blocks()

  /** io_blocks(). */
  function IoBlocks(offset: nat, count: nat, size: nat, bs: nat): int
    requires bs > 0
  {
    var n := Min(count, size - offset);
    if n == 0 || offset >= size then 0
    else if offset / bs == (offset + n - 1) / bs then 1
    else
      var rest := n - (bs - offset % bs);
      1 + rest / bs + if rest % bs != 0 then 1 else 0
  }

  /** The first block holds part of the bytes, the other blocks the rest. */
  lemma IoBlocksStep(offset: nat, n: nat, bs: nat) returns (first: nat)
    requires bs > 0 && n > 0
    ensures first == Min(n, bs - offset % bs) && 0 < first <= n
    ensures IoBlocks(offset, n, offset + n, bs) == 1 + IoBlocks(offset + first, n - first, offset + n, bs)
    ensures first < n ==> (offset + first) / bs == offset / bs + 1 && (offset + first) % bs == 0
  {
    var r := offset % bs;
    first := Min(n, bs - r);
    if n <= bs - r { OneBlock(offset, n, offset / bs, r, bs); } else { MoreBlocks(offset, n, offset / bs, r, bs); }
  }

  lemma OneBlock(offset: nat, n: nat, f: nat, r: nat, bs: nat)
    requires bs > 0 && f == offset / bs && r == offset % bs && 0 < n <= bs - r
    ensures IoBlocks(offset, n, offset + n, bs) == 1 && IoBlocks(offset + n, 0, offset + n, bs) == 0
  {
    assert offset == f * bs + r;
    DivUnique(offset + n - 1, bs, f, r + n - 1);
  }

  lemma MoreBlocks(offset: nat, n: nat, f: nat, r: nat, bs: nat)
    requires bs > 0 && f == offset / bs && r == offset % bs && n > bs - r
    ensures var first := bs - r;
      && IoBlocks(offset, n, offset + n, bs) == 1 + IoBlocks(offset + first, n - first, offset + n, bs)
      && (offset + first) / bs == f + 1 && (offset + first) % bs == 0
  {
    NextBlock(offset, f, r, bs);
    RestBlocks(offset + (bs - r), f + 1, n - (bs - r), bs);
    NotSameBlock(offset, n, f, bs);
    ManyBlocks(offset, n, r, bs);
  }

  lemma NextBlock(offset: nat, f: nat, r: nat, bs: nat)
    requires bs > 0 && f == offset / bs && r == offset % bs
    ensures offset + (bs - r) == (f + 1) * bs && (offset + (bs - r)) / bs == f + 1 && (offset + (bs - r)) % bs == 0
  {
    assert offset == f * bs + r && (f + 1) * bs == f * bs + bs;
    DivUnique(offset + (bs - r), bs, f + 1, 0);
  }

  function RoundUp(n: nat, bs: nat): int
    requires bs > 0
  {
    n / bs + if n % bs != 0 then 1 else 0
  }

  lemma ManyBlocks(offset: nat, n: nat, r: nat, bs: nat)
    requires bs > 0 && r == offset % bs && n > bs - r && offset / bs != (offset + n - 1) / bs
    ensures IoBlocks(offset, n, offset + n, bs) == 1 + RoundUp(n - (bs - r), bs)
  {
  }

  lemma NotSameBlock(offset: nat, n: nat, f: nat, bs: nat)
    requires bs > 0 && f == offset / bs && n > bs - offset % bs
    ensures (offset + n - 1) / bs != f
  {
    var m := offset + n - 1;
    assert m == m / bs * bs + m % bs && offset == f * bs + offset % bs;
  }

  /** From a block boundary on, the blocks are the bytes divided, rounded up. */
  lemma RestBlocks(o: nat, f: nat, n: nat, bs: nat)
    requires bs > 0 && n > 0 && o == f * bs
    ensures IoBlocks(o, n, o + n, bs) == RoundUp(n, bs)
  {
    var q, r := n / bs, n % bs;
    assert n == q * bs + r;
    DivUnique(o, bs, f, 0);
    if n <= bs {
      DivUnique(o + n - 1, bs, f, n - 1);
      if n == bs { DivUnique(n, bs, 1, 0); } else { DivUnique(n, bs, 0, n); }
    } else {
      NotSameBlock(o, n, f, bs);
      assert n - bs == (q - 1) * bs + r by { assert (q - 1) * bs == q * bs - bs; }
      assert q >= 1;
      DivUnique(n - bs, bs, q - 1, r);
    }
  }
}
