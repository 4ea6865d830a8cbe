/** When regular_read() returns the bytes of the file, whatever they are. */
module FileExact {
  import opened Arith
  import opened BlockMap
  import opened InodeMap
  import opened FileWalk
  import opened FileModel
  import opened FileRead

  /** The bytes from offset on, total of them, are the same on both lists of disk blocks. */
  ghost predicate SameBytes(blocks: seq<nat>, file: seq<nat>, data: map<nat, seq<int>>, offset: nat, total: nat,
                            bs: nat)
    requires bs > 0
  {
    forall o: nat :: offset <= o < offset + total ==> ByteAt(blocks, data, o, bs) == ByteAt(file, data, o, bs)
  }

  // ------------------------------------------------- which blocks the bytes are in

  /** io_blocks() counts the file blocks up to that of the last byte. */
  lemma {:induction false} LastBlock(offset: nat, total: nat, bs: nat)
    requires bs > 0 && total > 0
    ensures FileBlock(offset + total - 1, bs) == FileBlock(offset, bs) + IoBlocks(offset, total, offset + total, bs) - 1
    decreases total
  {
    if total <= bs - offset % bs {
      InOneBlock(offset, total, bs);
    } else {
      var first := FirstPart(offset, total, bs);
      LastBlock(offset + first, total - first, bs);
    }
  }

  lemma InOneBlock(offset: nat, total: nat, bs: nat)
    requires bs > 0 && 0 < total <= bs - offset % bs
    ensures FileBlock(offset + total - 1, bs) == FileBlock(offset, bs)
    ensures IoBlocks(offset, total, offset + total, bs) == 1
  {
    var f, r := FileBlock(offset, bs), offset % bs;
    OneBlock(offset, total, f, r, bs);
    assert offset == f * bs + r;
    DivUnique(offset + total - 1, bs, f, r + total - 1);
  }

  lemma FirstPart(offset: nat, total: nat, bs: nat) returns (first: nat)
    requires bs > 0 && total > bs - offset % bs
    ensures 0 < first < total && FileBlock(offset + first, bs) == FileBlock(offset, bs) + 1
    ensures IoBlocks(offset, total, offset + total, bs)
         == 1 + IoBlocks(offset + first, total - first, (offset + first) + (total - first), bs)
  {
    first := IoBlocksStep(offset, total, bs);
    assert (offset + first) + (total - first) == offset + total;
  }

  lemma BlockInRange(offset: nat, total: nat, o: nat, n: int, bs: nat)
    requires bs > 0 && total > 0 && offset <= o < offset + total && n == IoBlocks(offset, total, offset + total, bs)
    ensures FileBlock(offset, bs) <= FileBlock(o, bs) < FileBlock(offset, bs) + n
  {
    LastBlock(offset, total, bs);
    DivMono(offset, o, bs);
    DivMono(o, offset + total - 1, bs);
  }

  lemma DivMono(a: nat, b: nat, m: nat)
    requires a <= b && m > 0
    ensures FileBlock(a, m) <= FileBlock(b, m)
  {
    var p, q := FileBlock(a, m), FileBlock(b, m);
    assert a == p * m + a % m && b == q * m + b % m;
    if q < p { MulMono(q + 1, p, m); }
  }

  /** Each of the blocks holds one of the bytes. */
  lemma HoldsByte(offset: nat, total: nat, g: nat, n: int, bs: nat) returns (o: nat)
    requires bs > 0 && total > 0 && n == IoBlocks(offset, total, offset + total, bs)
    requires FileBlock(offset, bs) <= g < FileBlock(offset, bs) + n
    ensures offset <= o < offset + total && FileBlock(o, bs) == g
  {
    LastBlock(offset, total, bs);
    var f, last := FileBlock(offset, bs), offset + total - 1;
    if g == f { return offset; }
    o := g * bs;
    DivUnique(o, bs, g, 0);
    assert offset == f * bs + offset % bs && last == FileBlock(last, bs) * bs + last % bs;
    MulMono(f + 1, g, bs);
    MulMono(g, FileBlock(last, bs), bs);
    assert (f + 1) * bs == f * bs + bs;
  }

  // ------------------------------------------------- the same blocks, the same bytes

  lemma SameBlocks(blocks: seq<nat>, file: seq<nat>, data: map<nat, seq<int>>, offset: nat, total: nat, f: nat,
                   n: nat, bs: nat)
    requires bs > 0 && total > 0 && f == FileBlock(offset, bs) && n == IoBlocks(offset, total, offset + total, bs)
    requires |blocks| == |file| && f + n <= |file| && forall g :: f <= g < f + n ==> blocks[g] == file[g]
    ensures SameBytes(blocks, file, data, offset, total, bs)
  {
    forall o: nat | offset <= o < offset + total ensures ByteAt(blocks, data, o, bs) == ByteAt(file, data, o, bs) {
      BlockInRange(offset, total, o, n, bs);
      assert blocks[FileBlock(o, bs)] == file[FileBlock(o, bs)];
    }
  }

  /** Blocks whose every byte is 1. */
  function Ones(file: seq<nat>, bs: nat): (data: map<nat, seq<int>>)
    ensures Readable(file, data, bs)
    ensures forall b :: b in data ==> data[b] == seq(bs, _ => 1)
  {
    map b | b in file :: seq(bs, _ => 1)
  }

  lemma OtherBlocks(blocks: seq<nat>, file: seq<nat>, offset: nat, total: nat, g: nat, n: int, bs: nat)
    requires bs > 0 && total > 0 && n == IoBlocks(offset, total, offset + total, bs)
    requires FileBlock(offset, bs) <= g < FileBlock(offset, bs) + n && g < |file| == |blocks|
    requires blocks[g] == 0 && file[g] != 0
    ensures !SameBytes(blocks, file, Ones(file, bs), offset, total, bs)
  {
    var o := HoldsByte(offset, total, g, n, bs);
    var data := Ones(file, bs);
    assert file[g] in data && o % bs < |data[file[g]]|;
    assert ByteAt(blocks, data, o, bs) == 0 && ByteAt(file, data, o, bs) == 1;
  }

  /** The bytes that RegularRead() returns are those of the file, whatever the file contains, if
      and only if every block that a missing table made it take for a hole is a hole. */
  lemma ReadsFileIff(st: FileState, blocks: seq<nat>, offset: nat, total: nat, f: nat, n: nat, bs: nat, B: nat)
    requires ValidFile(st, B) && bs > 0 && total > 0 && f == FileBlock(offset, bs)
    requires n == IoBlocks(offset, total, offset + total, bs) && f + n <= MaxBlocks(B)
    requires Reads(st, blocks, f, n, B)
    ensures Advances(ReportOf(st, B), f, n)
    ensures HolesAreHoles(ReportOf(st, B), f, n) <==>
      forall data :: Readable(FileBlocks(st, B), data, bs) ==>
        SameBytes(blocks, FileBlocks(st, B), data, offset, total, bs)
  {
    var r, file := ReportOf(st, B), FileBlocks(st, B);
    assert ReadsAt(st, blocks, f, n, B);
    WalkIsFileIff(r, blocks, f, n);
    assert forall g :: 0 <= g < |blocks| ==> blocks[g] == 0 || blocks[g] == file[g];
    if HolesAreHoles(r, f, n) {
      forall data ensures SameBytes(blocks, file, data, offset, total, bs) {
        SameBlocks(blocks, file, data, offset, total, f, n, bs);
      }
    } else {
      var g :| f <= g < f + n && blocks[g] != file[g];
      OtherBlocks(blocks, file, offset, total, g, n, bs);
      assert Readable(file, Ones(file, bs), bs);
    }
  }

  /** RegularRead() can be called for every walk that ends. */
  lemma WalkCanBeRead(st: FileState, f: nat, n: nat, B: nat)
    requires ValidFile(st, B) && f + n <= MaxBlocks(B) && Advances(ReportOf(st, B), f, n)
    ensures Reads(st, WalkedBlocks(ReportOf(st, B), f, n), f, n, B)
  {
    WalkedIsWalk(ReportOf(st, B), f, n);
    assert ReadsAt(st, WalkedBlocks(ReportOf(st, B), f, n), f, n, B);
  }

  /** The walk stands still where an indirect slot of two or three levels is empty and the file
      block lies further than one table from the slot's first. */
  lemma StuckIff(st: FileState, f: nat, B: nat)
    requires ValidFile(st, B) && f < MaxBlocks(B)
    ensures ReportOf(st, B).extents[f] <= 0 <==>
      var p := PlaceOf(f, B); p.root < ADDRESSES && st.addr[p.root] == 0 && |p.path| >= 2 && Value(p.path, B) >= B
  {
    var p := PlaceOf(f, B);
    PlaceInverse(f, B);
    assert ReportOf(st, B).extents[f] == ExtentAt(st, f, B);
    if p.path != [] {
      assert Prefix(p, 0).path == [] && p.path[0..] == p.path;
      assert MissingAt(st, p, 0) == 0 <==> st.addr[p.root] == 0;
    }
  }
}
