/** regular_write(): what it writes can be read back, and everything else in the file stays. */
module FileWrite {
  import opened Basics
  import opened Arith
  import opened BlockMap
  import opened InodeMap
  import opened FileWalk
  import opened FileModel
  import opened FileRead
  import opened FileExact
  import opened Inode

  const ENOSPC := 28

  /** Byte o of the file; a hole reads as zeros. */
  ghost function ByteOf(st: FileState, data: map<nat, seq<int>>, o: nat, bs: nat, B: nat): int
    requires ValidFile(st, B) && bs > 0
  {
    ByteAt(FileBlocks(st, B), data, o, bs)
  }

  /** Every block of the file has contents. */
  ghost predicate Stored(st: FileState, data: map<nat, seq<int>>, bs: nat, B: nat)
    requires ValidFile(st, B)
  {
    Readable(FileBlocks(st, B), data, bs)
  }

  lemma StoredBlocks(st: FileState, data: map<nat, seq<int>>, bs: nat, B: nat)
    requires ValidFile(st, B) && Stored(st, data, bs, B)
    ensures forall f: nat :: f < MaxBlocks(B) && MapOf(st, f, B) != 0 ==>
      MapOf(st, f, B) in data && |data[MapOf(st, f, B)]| == bs
  {
    var blocks := FileBlocks(st, B);
    forall f: nat | f < MaxBlocks(B) && MapOf(st, f, B) != 0
      ensures MapOf(st, f, B) in data && |data[MapOf(st, f, B)]| == bs
    {
      assert blocks[f] == MapOf(st, f, B);
    }
  }

  /** What a chunk is copied over: zeros if the block is new, or if it lies past the end of the
      file and is not written whole; else what the block holds. */
  function Base(data: map<nat, seq<int>>, b: nat, isNew: bool, pastEnd: bool, bs: nat): (c: seq<int>) {
    if isNew || pastEnd || b !in data then seq(bs, _ => 0) else data[b]
  }

  function Patched(base: seq<int>, boffset: nat, bytes: seq<int>): (c: seq<int>)
    requires boffset + |bytes| <= |base|
    ensures |c| == |base|
    ensures forall i :: 0 <= i < |c| ==>
      c[i] == if boffset <= i < boffset + |bytes| then bytes[i - boffset] else base[i]
  {
    base[..boffset] + bytes + base[boffset + |bytes|..]
  }

  /** wbmap() has found or allocated the block b of the file block f, and a chunk has been copied
      into it. */
  ghost predicate Chunked(st: FileState, data: map<nat, seq<int>>, u: FileState, after: map<nat, seq<int>>,
                          f: nat, b: nat, boffset: nat, bytes: seq<int>, pastEnd: bool, bs: nat, B: nat) {
    && Wrote(st, u, f, b, B) && b != 0 && boffset + |bytes| <= bs
    && var base := Base(data, b, MapOf(st, f, B) == 0, pastEnd, bs);
       |base| == bs && after == data[b := Patched(base, boffset, bytes)]
  }

  lemma OtherBlock(st: FileState, data: map<nat, seq<int>>, u: FileState, after: map<nat, seq<int>>,
                   f: nat, b: nat, boffset: nat, bytes: seq<int>, pastEnd: bool, bs: nat, B: nat, g: nat)
    requires Chunked(st, data, u, after, f, b, boffset, bytes, pastEnd, bs, B) && g < MaxBlocks(B) && g != f
    ensures MapOf(u, g, B) == MapOf(st, g, B) && (MapOf(u, g, B) != 0 ==> MapOf(u, g, B) != b)
  {
    if MapOf(u, g, B) != 0 { MapInjective(u, g, f, B); }
  }

  lemma StoredAfter(st: FileState, data: map<nat, seq<int>>, u: FileState, after: map<nat, seq<int>>,
                    f: nat, b: nat, boffset: nat, bytes: seq<int>, pastEnd: bool, bs: nat, B: nat)
    requires Chunked(st, data, u, after, f, b, boffset, bytes, pastEnd, bs, B) && Stored(st, data, bs, B)
    ensures Stored(u, after, bs, B)
  {
    forall g: nat | g < MaxBlocks(B) && FileBlocks(u, B)[g] != 0
      ensures FileBlocks(u, B)[g] in after && |after[FileBlocks(u, B)[g]]| == bs
    {
      if g != f {
        OtherBlock(st, data, u, after, f, b, boffset, bytes, pastEnd, bs, B, g);
        assert FileBlocks(st, B)[g] == FileBlocks(u, B)[g];
      }
    }
  }

  lemma NotInChunk(o: nat, g: nat, i: nat, f: nat, boffset: nat, n: nat, bs: nat)
    requires o == g * bs + i && i < bs && g != f && boffset + n <= bs
    ensures !(f * bs + boffset <= o < f * bs + boffset + n)
  {
    if g < f { MulMono(g + 1, f, bs); assert (g + 1) * bs == g * bs + bs; }
    else { MulMono(f + 1, g, bs); assert (f + 1) * bs == f * bs + bs; }
  }

  // ------------------------------------------------- regular_write()

  /** Byte o is as it was, or lies past the old end of the file and has been cleared. */
  ghost predicate Kept(st: FileState, data: map<nat, seq<int>>, size: nat, u: FileState, after: map<nat, seq<int>>,
                       o: nat, bs: nat, B: nat)
    requires bs > 0 && ValidFile(st, B) && ValidFile(u, B)
  {
    var x := ByteOf(u, after, o, bs, B);
    x == ByteOf(st, data, o, bs, B) || (x == 0 && o >= size)
  }

  class Writer {
    const bs: nat
    const inode: Inode
    var data: map<nat, seq<int>>        // what the blocks hold, as the buffer cache shows it
    var size: nat                       // i_size
    var offset: nat                     // fdt[].offset

    ghost predicate Valid()
      reads this, inode, inode.iAddr
    {
      bs > 0 && inode.Valid() && Stored(inode.St(), data, bs, inode.B)
    }

    constructor (bs: nat, inode: Inode, data: map<nat, seq<int>>, size: nat, offset: nat)
      requires bs > 0 && inode.Valid() && Stored(inode.St(), data, bs, inode.B)
      ensures Valid() && this.bs == bs && this.inode == inode && this.data == data
      ensures this.size == size && this.offset == offset
    {
      this.bs, this.inode, this.data, this.size, this.offset := bs, inode, data, size, offset;
    }

    /** The part of the loop of regular_write() between wbmap() and buf_write(): the block is read or
        cleared if it is not written whole, and the bytes are copied into it. */
    method Store(f: nat, b: nat, boffset: nat, bytes: seq<int>, unused: set<nat>, ghost st: FileState)
      requires bs > 0 && ValidFile(st, inode.B) && Stored(st, data, bs, inode.B) && unused == st.free
      requires inode.Valid() && Wrote(st, inode.St(), f, b, inode.B) && b != 0 && 0 < |bytes| && boffset + |bytes| <= bs
      modifies this`data
      ensures Chunked(st, old(data), inode.St(), data, f, b, boffset, bytes, PastEnd(f, |bytes|), bs, inode.B)
    {
      NewIffFree(st, inode.St(), f, b, inode.B);
      assert b !in unused ==> FileBlocks(st, inode.B)[f] == b;
      var block := if b in unused then seq(bs, _ => 0) else data[b];
      if |bytes| < bs && f * bs >= size { block := seq(bs, _ => 0); }
      data := data[b := Patched(block, boffset, bytes)];
    }

    /** The chunk does not fill its block, and the block lies past the end of the file. */
    predicate PastEnd(f: nat, n: nat)
      reads this
    {
      n < bs && f * bs >= size
    }

    /** One turn of the loop: bytes of one block at the offset; none if no block is free. */
    method WriteChunk(offset: nat, bytes: seq<int>) returns (ok: bool)
      requires Valid() && 0 < |bytes| && offset % bs + |bytes| <= bs
      requires FileBlock(offset, bs) < WbmapBound(inode.B)
      modifies this`data, this`size, inode, inode.iAddr
      ensures Valid() && bs > 0
      ensures Turn(old(inode.St()), old(data), old(size), inode.St(), data, size, offset, bytes, ok, bs, inode.B)
    {
      ghost var st, was, before := inode.St(), data, size;
      var f, boffset := FileBlock(offset, bs), offset % bs;
      var unused := inode.free;
      var b := inode.Wbmap(f);
      if b == 0 {
        NothingWritten(st, inode.St(), f, data, size, offset, bytes, bs, inode.B);
        return false;
      }
      ghost var pastEnd := PastEnd(f, |bytes|);
      Store(f, b, boffset, bytes, unused, st);
      if size < offset + |bytes| { size := offset + |bytes|; }
      ChunkIsTurn(st, was, before, inode.St(), data, f, b, boffset, bytes, pastEnd, bs, inode.B, offset);
      return true;
    }

    /** The body of that loop: the rest of the bytes, up to the end of the block. */
    method WriteOn(buf: seq<int>, wcount0: nat, ghost st: FileState, ghost was: map<nat, seq<int>>, ghost before: nat)
      returns (wcount: nat, ok: bool)
      requires Valid() && wcount0 < |buf| && FileBlock(offset + |buf| - 1, bs) < WbmapBound(inode.B)
      requires WrittenUpTo(st, was, before, inode.St(), data, size, offset, buf, wcount0, bs, inode.B)
      modifies this`data, this`size, inode, inode.iAddr
      ensures Valid() && (if ok then wcount0 < wcount <= |buf| else wcount == wcount0 && inode.free == {})
      ensures WrittenUpTo(st, was, before, inode.St(), data, size, offset, buf, wcount, bs, inode.B)
    {
      ghost var u, mid, sizeU := inode.St(), data, size;
      var at := offset + wcount0;
      var n: nat := Min(|buf| - wcount0, bs - at % bs);
      DivMono(at, offset + |buf| - 1, bs);
      ok := WriteChunk(at, buf[wcount0..wcount0 + n]);
      WrittenNext(st, was, before, u, mid, sizeU, inode.St(), data, size, offset, buf, wcount0, n, ok, bs, inode.B);
      wcount := if ok then wcount0 + n else wcount0;
    }

    /** regular_write(), for file blocks that wbmap() can reach: the bytes written, or -ENOSPC if
        there are none. Fewer are written only when no block is free. */
    method RegularWrite(append: bool, buf: seq<int>) returns (r: int)
      requires Valid()
      requires buf != [] ==>
        FileBlock((if append then size else offset) + |buf| - 1, bs) < WbmapBound(inode.B)
      modifies this, inode, inode.iAddr
      ensures Valid() && bs > 0 && (r == -ENOSPC || 0 < r <= |buf|)
      ensures var n: nat := if r < 0 then 0 else r;
        var at := if append then old(size) else old(offset);
        && (n < |buf| ==> inode.free == {}) && offset == at + n
        && Written(old(inode.St()), old(data), old(size), inode.St(), data, size, at, buf, n, bs, inode.B)
    {
      ghost var st, was, before := inode.St(), data, size;
      if append { offset := size; }
      var wcount: nat := 0;
      NothingYet(st, was, before, offset, buf, bs, inode.B);
      var ok := true;
      while wcount < |buf| && ok
        invariant Valid() && wcount <= |buf| && offset == (if append then before else old(offset))
        invariant !ok ==> inode.free == {}
        invariant WrittenUpTo(st, was, before, inode.St(), data, size, offset, buf, wcount, bs, inode.B)
        decreases ok, |buf| - wcount
      {
        wcount, ok := WriteOn(buf, wcount, st, was, before);
      }
      assert Written(st, was, before, inode.St(), data, size, offset, buf, wcount, bs, inode.B);
      offset := offset + wcount;
      r := if wcount > 0 then wcount else -ENOSPC;
    }
  }

  /** Nothing but zeros past the end of the file stays so. Truncation does not see to it: it leaves
      the rest of the last block as it is. */
  lemma TailStaysClear(st: FileState, data: map<nat, seq<int>>, size: nat, u: FileState, after: map<nat, seq<int>>,
                       size': nat,
                       offset: nat, buf: seq<int>, n: nat, bs: nat, B: nat)
    requires bs > 0 && n <= |buf| && Written(st, data, size, u, after, size', offset, buf, n, bs, B)
    requires forall o: nat :: o >= size ==> ByteOf(st, data, o, bs, B) == 0
    ensures forall o: nat :: o >= size' ==> ByteOf(u, after, o, bs, B) == 0
  {
    forall o: nat | o >= size' ensures ByteOf(u, after, o, bs, B) == 0 {
      assert WrittenAt(st, data, size, u, after, offset, buf, n, bs, B, o);
    }
  }

  // ------------------------------------------------- reading it back

  /** A file block with a disk block has all the tables on the way to it. */
  lemma MappedIsFound(st: FileState, g: nat, B: nat)
    requires ValidFile(st, B) && g < MaxBlocks(B) && MapOf(st, g, B) != 0
    ensures FoundAt(st, g, B)
  {
    PlaceInverse(g, B);
    var p := PlaceOf(g, B);
    var k := MissingAt(st, p, 0);
    if k < |p.path| { LookPast(st.tables, st.addr[p.root], p.path[..k], p.path); }
  }

  /** What has been written can be read back: the walk of regular_read() over those bytes ends, and
      the blocks it takes hold them. */
  lemma WrittenReadsBack(st: FileState, data: map<nat, seq<int>>, size: nat, u: FileState, after: map<nat, seq<int>>,
                         size': nat,
                         offset: nat, buf: seq<int>, n: nat, bs: nat, B: nat, k: nat)
    requires bs > 0 && 0 < n <= |buf| && Written(st, data, size, u, after, size', offset, buf, n, bs, B)
    requires k == IoBlocks(offset, n, offset + n, bs)
    ensures var f := FileBlock(offset, bs);
      && f + k <= MaxBlocks(B) && Advances(ReportOf(u, B), f, k)
      && forall blocks :: Reads(u, blocks, f, k, B) ==>
        forall o: nat :: offset <= o < offset + n ==> ByteAt(blocks, after, o, bs) == buf[o - offset]
  {
    var f := FileBlock(offset, bs);
    forall g: nat | f <= g < f + k ensures g < MaxBlocks(B) && FoundAt(u, g, B) {
      var o := HoldsByte(offset, n, g, k, bs);
      assert WrittenAt(st, data, size, u, after, offset, buf, n, bs, B, o);
      MappedIsFound(u, g, B);
    }
    LastBlock(offset, n, bs);
    assert WrittenAt(st, data, size, u, after, offset, buf, n, bs, B, offset + n - 1);
    DenseIsRight(u, f, k, B);
    forall blocks | Reads(u, blocks, f, k, B)
      ensures forall o: nat :: offset <= o < offset + n ==> ByteAt(blocks, after, o, bs) == buf[o - offset]
    {
      ReadsFileIff(u, blocks, offset, n, f, k, bs, B);
      assert SameBytes(blocks, FileBlocks(u, B), after, offset, n, bs);
      forall o: nat | offset <= o < offset + n ensures ByteAt(blocks, after, o, bs) == buf[o - offset] {
        assert WrittenAt(st, data, size, u, after, offset, buf, n, bs, B, o);
      }
    }
  }

  /** The first n bytes of buf have been written from the offset on, over mapped blocks, and every
      other byte is kept. */
  ghost predicate Written(st: FileState, data: map<nat, seq<int>>, size: nat, u: FileState, after: map<nat, seq<int>>,
                          size': nat,
                          offset: nat, buf: seq<int>, n: nat, bs: nat, B: nat)
    requires bs > 0 && n <= |buf|
  {
    && Grown(st, u, B) && OnlyMore(st, u, B) && Stored(u, after, bs, B)
    && size' == (if n > 0 && size < offset + n then offset + n else size)
    && forall o: nat :: WrittenAt(st, data, size, u, after, offset, buf, n, bs, B, o)
  }

  ghost predicate WrittenAt(st: FileState, data: map<nat, seq<int>>, size: nat, u: FileState, after: map<nat, seq<int>>,
                            offset: nat, buf: seq<int>, n: nat, bs: nat, B: nat, o: nat)
    requires bs > 0 && n <= |buf| && ValidFile(st, B) && ValidFile(u, B)
  {
    if offset <= o < offset + n then
      && ByteOf(u, after, o, bs, B) == buf[o - offset]
      && FileBlock(o, bs) < MaxBlocks(B) && MapOf(u, FileBlock(o, bs), B) != 0
    else Kept(st, data, size, u, after, o, bs, B)
  }

  /** The same, unfolded only where it is used. */
  ghost predicate WrittenUpTo(st: FileState, data: map<nat, seq<int>>, size: nat, u: FileState,
                              after: map<nat, seq<int>>, size': nat,
                              offset: nat, buf: seq<int>, n: nat, bs: nat, B: nat)
    requires bs > 0
  {
    forall k: nat :: k == n ==> k <= |buf| && Written(st, data, size, u, after, size', offset, buf, k, bs, B)
  }

  lemma NothingYet(st: FileState, data: map<nat, seq<int>>, size: nat, offset: nat, buf: seq<int>, bs: nat, B: nat)
    requires bs > 0 && ValidFile(st, B) && Stored(st, data, bs, B)
    ensures WrittenUpTo(st, data, size, st, data, size, offset, buf, 0, bs, B)
  {
    assert st.free - FileNodes(st) == st.free;
  }

  /** One more turn of the loop. */
  lemma WrittenNext(st: FileState, data: map<nat, seq<int>>, size: nat, u: FileState, mid: map<nat, seq<int>>,
                    sizeU: nat,
                    v: FileState, after: map<nat, seq<int>>, sizeV: nat, offset: nat, buf: seq<int>, n: nat, m: nat,
                    ok: bool,
                    bs: nat, B: nat)
    requires bs > 0 && 0 < m && n + m <= |buf| && (offset + n) % bs + m <= bs
    requires WrittenUpTo(st, data, size, u, mid, sizeU, offset, buf, n, bs, B)
    requires Turn(u, mid, sizeU, v, after, sizeV, offset + n, buf[n..n + m], ok, bs, B)
    ensures WrittenUpTo(st, data, size, v, after, sizeV, offset, buf, if ok then n + m else n, bs, B)
  {
    assert Written(st, data, size, u, mid, sizeU, offset, buf, n, bs, B);
    GrownTrans(st, u, v, B);
    var all := if ok then n + m else n;
    forall o: nat ensures WrittenAt(st, data, size, v, after, offset, buf, all, bs, B, o) {
      assert WrittenAt(st, data, size, u, mid, offset, buf, n, bs, B, o);
      assert TurnAt(u, mid, sizeU, v, after, offset + n, buf[n..n + m], ok, bs, B, o);
      if offset + n <= o < offset + n + m { SameBlock(offset + n, o, m, bs); }
    }
  }

  lemma SameBlock(at: nat, o: nat, m: nat, bs: nat)
    requires bs > 0 && at % bs + m <= bs && at <= o < at + m
    ensures FileBlock(o, bs) == FileBlock(at, bs)
  {
    var f, r := FileBlock(at, bs), at % bs;
    assert at == f * bs + r;
    DivUnique(o, bs, f, r + (o - at));
  }

  /** What one turn of the loop does, at the offset, with the bytes; ok says that it wrote them. */
  ghost predicate Turn(st: FileState, data: map<nat, seq<int>>, size: nat, u: FileState, after: map<nat, seq<int>>,
                       size': nat,
                       offset: nat, bytes: seq<int>, ok: bool, bs: nat, B: nat)
    requires bs > 0
  {
    && Grown(st, u, B) && OnlyMore(st, u, B) && Stored(u, after, bs, B)
    && size' == (if ok && size < offset + |bytes| then offset + |bytes| else size)
    && FileBlock(offset, bs) < MaxBlocks(B)
    && (if ok then MapOf(u, FileBlock(offset, bs), B) != 0 else u.free == {})
    && forall o: nat :: TurnAt(st, data, size, u, after, offset, bytes, ok, bs, B, o)
  }

  ghost predicate TurnAt(st: FileState, data: map<nat, seq<int>>, size: nat, u: FileState, after: map<nat, seq<int>>,
                         offset: nat, bytes: seq<int>, ok: bool, bs: nat, B: nat, o: nat)
    requires bs > 0 && ValidFile(st, B) && ValidFile(u, B)
  {
    if ok && offset <= o < offset + |bytes| then ByteOf(u, after, o, bs, B) == bytes[o - offset]
    else Kept(st, data, size, u, after, o, bs, B)
  }

  /** Byte i of the file block g after a chunk has been written at boffset in the file block f. */
  lemma BlockAfter(st: FileState, data: map<nat, seq<int>>, u: FileState, after: map<nat, seq<int>>,
                   f: nat, b: nat, boffset: nat, bytes: seq<int>, pastEnd: bool, bs: nat, B: nat, g: nat, i: nat)
    requires Chunked(st, data, u, after, f, b, boffset, bytes, pastEnd, bs, B) && Stored(st, data, bs, B)
    requires g < MaxBlocks(B) && i < bs
    ensures var x := BlockByte(FileBlocks(u, B), after, g, i);
      if g == f && boffset <= i < boffset + |bytes| then x == bytes[i - boffset]
      else x == BlockByte(FileBlocks(st, B), data, g, i) || (x == 0 && pastEnd && g == f)
  {
    if g != f {
      OtherBlock(st, data, u, after, f, b, boffset, bytes, pastEnd, bs, B, g);
      assert FileBlocks(st, B)[g] == FileBlocks(u, B)[g];
    } else {
      assert FileBlocks(u, B)[f] == b && FileBlocks(st, B)[f] == MapOf(st, f, B);
    }
  }

  /** Which bytes of the file the chunk is. */
  lemma ChunkPlace(offset: nat, n: nat, o: nat, f: nat, boffset: nat, g: nat, i: nat, bs: nat)
    requires bs > 0 && f == FileBlock(offset, bs) && boffset == offset % bs && g == FileBlock(o, bs) && i == o % bs
    requires boffset + n <= bs
    ensures i < bs && o == g * bs + i
    ensures offset <= o < offset + n <==> g == f && boffset <= i < boffset + n
    ensures g == f ==> o - offset == i - boffset && o >= f * bs
  {
    assert offset == f * bs + boffset && o == g * bs + i;
    if g != f { NotInChunk(o, g, i, f, boffset, n, bs); }
  }

  lemma ByteAfter(st: FileState, data: map<nat, seq<int>>, size: nat, u: FileState, after: map<nat, seq<int>>,
                  f: nat, b: nat, boffset: nat, bytes: seq<int>, pastEnd: bool, bs: nat, B: nat, offset: nat, o: nat)
    requires bs > 0 && Chunked(st, data, u, after, f, b, boffset, bytes, pastEnd, bs, B) && Stored(st, data, bs, B)
    requires f == FileBlock(offset, bs) && boffset == offset % bs && (pastEnd ==> f * bs >= size)
    ensures TurnAt(st, data, size, u, after, offset, bytes, true, bs, B, o)
  {
    var g, i := FileBlock(o, bs), o % bs;
    ChunkPlace(offset, |bytes|, o, f, boffset, g, i, bs);
    if g < MaxBlocks(B) {
      BlockAfter(st, data, u, after, f, b, boffset, bytes, pastEnd, bs, B, g, i);
    }
  }

  lemma ChunkIsTurn(st: FileState, data: map<nat, seq<int>>, size: nat, u: FileState, after: map<nat, seq<int>>,
                    f: nat, b: nat, boffset: nat, bytes: seq<int>, pastEnd: bool, bs: nat, B: nat, offset: nat)
    requires bs > 0 && Chunked(st, data, u, after, f, b, boffset, bytes, pastEnd, bs, B) && Stored(st, data, bs, B)
    requires f == FileBlock(offset, bs) && boffset == offset % bs && (pastEnd ==> f * bs >= size)
    ensures var end := if size < offset + |bytes| then offset + |bytes| else size;
      Turn(st, data, size, u, after, end, offset, bytes, true, bs, B)
  {
    StoredAfter(st, data, u, after, f, b, boffset, bytes, pastEnd, bs, B);
    MoreMapped(st, u, f, b, B);
    forall o: nat ensures TurnAt(st, data, size, u, after, offset, bytes, true, bs, B, o) {
      ByteAfter(st, data, size, u, after, f, b, boffset, bytes, pastEnd, bs, B, offset, o);
    }
  }

  /** Every file block that was mapped still is, to the same block. */
  ghost predicate OnlyMore(st: FileState, u: FileState, B: nat)
    requires ValidFile(st, B) && ValidFile(u, B)
  {
    forall g: nat :: g < MaxBlocks(B) && MapOf(st, g, B) != 0 ==> MapOf(u, g, B) == MapOf(st, g, B)
  }

  lemma MoreMapped(st: FileState, u: FileState, f: nat, b: nat, B: nat)
    requires Wrote(st, u, f, b, B)
    ensures OnlyMore(st, u, B)
  {
  }

  /** The block is one that was free exactly when the file block was a hole. */
  lemma NewIffFree(st: FileState, u: FileState, f: nat, b: nat, B: nat)
    requires Wrote(st, u, f, b, B) && b != 0
    ensures b in st.free <==> MapOf(st, f, B) == 0
  {
    PlaceInverse(f, B);
    if MapOf(st, f, B) != 0 {
      LookIsNode(st.tables, st.addr[PlaceOf(f, B).root], Depth(PlaceOf(f, B).root), PlaceOf(f, B).path);
      assert b in RootNodes(st, PlaceOf(f, B).root);
    }
  }

  /** wbmap() found no free block: tables may have been allocated, but no byte has changed. */
  lemma NothingWritten(st: FileState, u: FileState, f: nat, data: map<nat, seq<int>>, size: nat, offset: nat,
                       bytes: seq<int>, bs: nat, B: nat)
    requires Wrote(st, u, f, 0, B) && bs > 0 && Stored(st, data, bs, B) && f == FileBlock(offset, bs)
    ensures Turn(st, data, size, u, data, size, offset, bytes, false, bs, B)
  {
    assert FileBlocks(u, B) == FileBlocks(st, B);
  }
}
