/** The loops of pipe_read() and pipe_write() between two sleeps, on the blocks of the pipe's inode. */
module PipeLoops {
  import opened Basics
  import opened BlockMap
  import opened InodeMap
  import opened FileModel
  import opened FileRead
  import opened FileWrite
  import opened Inode
  import opened PipeModel
  import opened PipeRuns

  const RING := PIPE_BUF / BLKSZ    // its file blocks, all of them direct ones

  /** The bytes of the disk blocks of the ring; a block that is missing reads as zeros. */
  function Cells(ring: seq<nat>, data: map<nat, seq<int>>): (c: seq<int>)
    ensures |c| == PIPE_BUF && forall o: nat :: o < PIPE_BUF ==> c[o] == ByteAt(ring, data, o, BLKSZ)
  {
    seq(PIPE_BUF, o requires 0 <= o < PIPE_BUF => ByteAt(ring, data, o, BLKSZ))
  }

  /** The blocks of the ring that have a disk block. */
  function There(ring: seq<nat>): (s: set<nat>)
    ensures forall k: nat :: k in s <==> k < |ring| && ring[k] != 0
  {
    set k: nat | k < |ring| && ring[k] != 0
  }

  function PipeOf(ring: seq<nat>, data: map<nat, seq<int>>, roff: nat, woff: nat, size: nat): Pipe {
    Pipe(Cells(ring, data), There(ring), roff, woff, size)
  }

  /** The block b has been found or allocated for the block f of the ring and is nobody else's. */
  predicate Found(ring: seq<nat>, after: seq<nat>, f: nat, b: nat) {
    && |ring| == |after| == RING && f < RING && b != 0 && after == ring[f := b] && (ring[f] == 0 || ring[f] == b)
    && forall g :: 0 <= g < RING && g != f ==> ring[g] != b
  }

  /** The buffer that wbmap() hands back: the contents of the block, or zeros if it is new. */
  function Handed(ring: seq<nat>, data: map<nat, seq<int>>, f: nat): (c: seq<int>)
    requires f < |ring| && Readable(ring, data, BLKSZ)
    ensures |c| == BLKSZ
  {
    if ring[f] == 0 then seq(BLKSZ, _ => 0) else data[ring[f]]
  }

  /** What wbmap() and the copy do to the ring is a turn of pipe_write(). */
  lemma ChunkIsWrite(ring: seq<nat>, data: map<nat, seq<int>>, after: seq<nat>, later: map<nat, seq<int>>, b: nat,
                     bytes: seq<int>, p: Pipe)
    requires |ring| == RING && Readable(ring, data, BLKSZ) && Ok(p) && Fits(p, bytes)
    requires p == PipeOf(ring, data, p.roff, p.woff, p.size) && Found(ring, after, Target(p), b)
    requires later == data[b := Patched(Handed(ring, data, Target(p)), Wrapped(p.woff) % BLKSZ, bytes)]
    ensures Readable(after, later, BLKSZ)
    ensures AfterWrite(p, bytes) == PipeOf(after, later, p.roff, Wrapped(p.woff) + |bytes|, p.size + |bytes|)
  {
    var c, d := AfterWrite(p, bytes).cells, Cells(after, later);
    WriteCell(p, bytes, 0);
    forall x: nat | x < PIPE_BUF ensures c[x] == d[x] {
      ChunkCell(ring, data, after, later, Target(p), b, Wrapped(p.woff) % BLKSZ, bytes, x);
      WriteCell(p, bytes, x);
      CellPlace(p, |bytes|, x);
    }
    assert AfterWrite(p, bytes).there == There(after);
  }

  /** A turn that writes the piece, or nothing for want of a block. */
  predicate IsTurn(p: Pipe, q: Pipe, piece: seq<int>)
    requires Ok(p)
  {
    if piece == [] then q == NotWritten(p) && Target(p) !in p.there
    else Fits(p, piece) && q == AfterWrite(p, piece)
  }

  /** IsTurn(), unfolded only where it is used. */
  ghost predicate Turned(p: Pipe, q: Pipe, piece: seq<int>)
    requires Ok(p)
  {
    forall x: Pipe :: x == q ==> IsTurn(p, x, piece)
  }

  lemma QueueFits(p: Pipe, u: seq<int>)
    requires Queued(p, u)
    ensures p.size == |u| <= PIPE_BUF
  {
    assert Ok(p) && Unread(p) == u;
  }

  lemma NoTurn(p: Pipe)
    requires Ok(p) && Target(p) !in p.there
    ensures Turned(p, NotWritten(p), [])
  {
  }

  lemma TurnAppends(p: Pipe, q: Pipe, piece: seq<int>)
    requires Ok(p) && Turned(p, q, piece)
    ensures q.size == p.size + |piece| && Queued(q, Unread(p) + piece)
  {
    assert IsTurn(p, q, piece);
    if piece == [] { NotWrittenKeeps(p); } else { WriteAppends(p, piece); }
    assert Ok(q) && Unread(q) == Unread(p) + piece;
  }

  /** The bytes written and not yet read are these; unfolded only where it is used. */
  ghost predicate Queued(p: Pipe, u: seq<int>) {
    forall x: Pipe :: x == p ==> Ok(x) && Unread(x) == u
  }

  lemma Taken(p: Pipe, q: Pipe, count: nat, left: seq<int>)
    requires Ok(p) && Unread(p) == left && q == p.(roff := Wrapped(p.roff) + ReadSize(p, count), size := q.size)
    requires q.size == p.size - ReadSize(p, count)
    ensures ReadSize(p, count) <= |left| && Wrapped(p.roff) + ReadSize(p, count) <= PIPE_BUF
    ensures left[..ReadSize(p, count)] == p.cells[Wrapped(p.roff)..Wrapped(p.roff) + ReadSize(p, count)]
    ensures Queued(q, left[ReadSize(p, count)..])
  {
    ReadTakes(p, count);
    assert q == AfterRead(p, ReadSize(p, count));
    assert Ok(q) && Unread(q) == left[ReadSize(p, count)..];
  }

  /** The byte x of the ring after the copy. */
  lemma ChunkCell(ring: seq<nat>, data: map<nat, seq<int>>, after: seq<nat>, later: map<nat, seq<int>>, f: nat, b: nat,
                  boffset: nat, bytes: seq<int>, x: nat)
    requires |ring| == RING && Readable(ring, data, BLKSZ) && boffset + |bytes| <= BLKSZ && Found(ring, after, f, b)
    requires later == data[b := Patched(Handed(ring, data, f), boffset, bytes)] && x < PIPE_BUF
    ensures x / BLKSZ == f && boffset <= x % BLKSZ < boffset + |bytes| ==>
      Cells(after, later)[x] == bytes[x % BLKSZ - boffset]
    ensures !(x / BLKSZ == f && boffset <= x % BLKSZ < boffset + |bytes|) ==>
      Cells(after, later)[x] == Cells(ring, data)[x]
    ensures x / BLKSZ == f && ring[f] == 0 ==> Cells(ring, data)[x] == 0
  {
  }

  /** The bytes of the turn are those of the block from the offset in it on. */
  lemma CellPlace(p: Pipe, n: nat, x: nat)
    requires p.woff <= PIPE_BUF && Wrapped(p.woff) % BLKSZ + n <= BLKSZ && x < PIPE_BUF
    ensures var w, o := Wrapped(p.woff), Wrapped(p.woff) % BLKSZ;
      && (w <= x < w + n <==> x / BLKSZ == Target(p) && o <= x % BLKSZ < o + n)
      && (w <= x < w + n ==> x - w == x % BLKSZ - o)
      && (BlockStart(p) <= x < BlockStart(p) + BLKSZ <==> x / BLKSZ == Target(p))
  {
  }

  /** Bytes of one block of the ring. */
  lemma RingPart(ring: seq<nat>, data: map<nat, seq<int>>, at: nat, n: nat)
    requires |ring| == RING && Readable(ring, data, BLKSZ) && at < PIPE_BUF && at % BLKSZ + n <= BLKSZ
    requires ring[at / BLKSZ] != 0
    ensures at + n <= PIPE_BUF
    ensures Cells(ring, data)[at..at + n] == data[ring[at / BLKSZ]][at % BLKSZ..at % BLKSZ + n]
  {
    var c, d := Cells(ring, data)[at..at + n], data[ring[at / BLKSZ]][at % BLKSZ..at % BLKSZ + n];
    forall i: nat | i < n ensures c[i] == d[i] {
      assert (at + i) / BLKSZ == at / BLKSZ && (at + i) % BLKSZ == at % BLKSZ + i;
    }
  }

  // ------------------------------------------------- the ring of the inode

  function RingOf(st: FileState): (ring: seq<nat>)
    requires |st.addr| == ADDRESSES
    ensures |ring| == RING
  {
    st.addr[..RING]
  }

  lemma SlotOf(st: FileState, g: nat, B: nat)
    requires |st.addr| == ADDRESSES && B > 0 && g < RING
    ensures g < MaxBlocks(B) && MapOf(st, g, B) == st.addr[g]
  {
  }

  /** One block of the ring before and after wbmap(). */
  lemma SlotAfter(st: FileState, u: FileState, f: nat, b: nat, B: nat, g: nat)
    requires Wrote(st, u, f, b, B) && f < RING && g < RING
    ensures |st.addr| == |u.addr| == ADDRESSES
    ensures g == f ==> u.addr[f] == b && (st.addr[f] != 0 ==> b == st.addr[f])
    ensures g != f ==> u.addr[g] == st.addr[g] && (b != 0 ==> st.addr[g] != b)
  {
    SlotOf(st, g, B);
    SlotOf(u, g, B);
    SlotOf(u, f, B);
    if g != f && u.addr[g] != 0 && b != 0 { MapInjective(u, g, f, B); }
  }

  /** wbmap() in the ring. */
  lemma WbmapInRing(st: FileState, u: FileState, f: nat, b: nat, B: nat)
    requires Wrote(st, u, f, b, B) && f < RING
    ensures |st.addr| == |u.addr| == ADDRESSES
    ensures b != 0 ==> Found(RingOf(st), RingOf(u), f, b) && (b in st.free <==> RingOf(st)[f] == 0)
    ensures b == 0 ==> RingOf(u) == RingOf(st) && RingOf(st)[f] == 0 && u.free == {}
  {
    SlotAfter(st, u, f, b, B, f);
    SlotOf(st, f, B);
    forall g: nat | g < RING && g != f ensures u.addr[g] == st.addr[g] && (b != 0 ==> st.addr[g] != b) {
      SlotAfter(st, u, f, b, B, g);
    }
    if b != 0 {
      NewIffFree(st, u, f, b, B);
      assert RingOf(u) == RingOf(st)[f := b];
    } else {
      assert RingOf(u) == RingOf(st);
    }
  }

  /** bmap() in the ring: the numbers are in the inode. */
  lemma BmapInRing(st: FileState, p: Place, found: bool, block: nat, index: int, nblocks: int, k: nat, B: nat, f: nat)
    requires Bmapped(st, p, found, block, index, nblocks, k, B) && BlockAt(p, B) == f && f < RING
    ensures index == f && |st.addr| == ADDRESSES
  {
    assert p == Place(f, []) by { PlaceUnique(p, B); }
  }

  /** The file has grown; unfolded only where it is used. */
  ghost predicate GrownFrom(st: FileState, u: FileState, B: nat) {
    forall n: nat :: n == B ==> Grown(st, u, n)
  }

  lemma GrownSame(st: FileState, B: nat)
    requires ValidFile(st, B)
    ensures GrownFrom(st, st, B)
  {
    assert st.free - FileNodes(st) == st.free;
    assert Grown(st, st, B);
  }

  lemma GrownOn(st: FileState, u: FileState, v: FileState, B: nat)
    requires GrownFrom(st, u, B) && GrownFrom(u, v, B)
    ensures GrownFrom(st, v, B)
  {
    assert Grown(st, u, B) && Grown(u, v, B);
    GrownTrans(st, u, v, B);
  }

  class PipeInode {
    const inode: Inode
    var data: map<nat, seq<int>>    // what the blocks hold, as the buffer cache shows it
    var roff: nat                   // i_piperoff
    var woff: nat                   // i_pipewoff
    var size: nat                   // i_pipesize

    ghost predicate Shape()
      reads inode, inode.iAddr
    {
      Bytes(inode.iAddr[..]) && forall n: nat :: n == inode.B ==> InodeValid(n)
    }

    /** The inode is sound; unfolded only where it is used. */
    ghost predicate InodeValid(n: nat)
      reads inode, inode.iAddr
    {
      n == inode.B && inode.Valid()
    }

    ghost function Ring(): (ring: seq<nat>)
      requires Shape()
      reads inode, inode.iAddr
      ensures |ring| == RING
    {
      RingOf(inode.St())
    }

    ghost function Abs(): Pipe
      requires Shape()
      reads this, inode, inode.iAddr
    {
      PipeOf(Ring(), data, roff, woff, size)
    }

    ghost predicate Valid()
      reads this, inode, inode.iAddr
    {
      Shape() && Readable(Ring(), data, BLKSZ) && Ok(Abs())
    }

    /** A new pipe, on an inode without blocks. */
    constructor (inode: Inode)
      requires inode.Valid() && inode.St().addr == ZeroRow(ADDRESSES)
      ensures Valid() && Unread(Abs()) == [] && this.inode == inode
    {
      this.inode, data, roff, woff, size := inode, map[], 0, 0, 0;
      new;
      assert InodeValid(inode.B);
    }

    // ----------------------------------------------- pipe_read()

    /** The loop of pipe_read(), once there is something to read or nothing is to be waited for. */
    method ReadLoop(buf: array<int>, count0: nat) returns (rcount: nat)
      requires Valid() && buf != inode.iAddr && count0 <= buf.Length
      modifies this`roff, this`size, buf
      ensures Valid() && rcount == Min(count0, old(size))
      ensures buf[..rcount] == old(Unread(Abs()))[..rcount] && Unread(Abs()) == old(Unread(Abs()))[rcount..]
      ensures forall k :: rcount <= k < buf.Length ==> buf[k] == old(buf[k])
    {
      ghost var all := Unread(Abs());
      assert Queued(Abs(), all);
      rcount := ReadTurns(buf, count0, all);
      assert Ok(Abs());
    }

    /** The loop itself. */
    method ReadTurns(buf: array<int>, count0: nat, ghost all: seq<int>) returns (rcount: nat)
      requires Shape() && Readable(Ring(), data, BLKSZ) && Queued(Abs(), all)
      requires buf != inode.iAddr && count0 <= buf.Length && |all| == size
      modifies this`roff, this`size, buf
      ensures Shape() && Readable(Ring(), data, BLKSZ) && rcount == Min(count0, |all|)
      ensures buf[..rcount] == all[..rcount] && Queued(Abs(), all[rcount..])
      ensures forall k :: rcount <= k < buf.Length ==> buf[k] == old(buf[k])
    {
      var count: nat := count0;
      rcount := 0;
      assert all[0..] == all;
      while count > 0 && size != 0
        invariant Shape() && Readable(Ring(), data, BLKSZ) && rcount + count == count0 && rcount + size == |all|
        invariant buf[..rcount] == all[..rcount] && Queued(Abs(), all[rcount..])
        invariant forall k :: rcount <= k < buf.Length ==> buf[k] == old(buf[k])
        decreases count
      {
        var n := ReadOn(buf, rcount, count, all[rcount..]);
        assert buf[..rcount + n] == buf[..rcount] + buf[rcount..rcount + n];
        assert all[..rcount + n] == all[..rcount] + all[rcount..][..n] && all[rcount..][n..] == all[rcount + n..];
        rcount, count := rcount + n, count - n;
      }
    }

    /** The body of that loop. */
    method ReadOn(buf: array<int>, rcount: nat, count: nat, ghost left: seq<int>) returns (n: nat)
      requires Shape() && Readable(Ring(), data, BLKSZ) && Queued(Abs(), left)
      requires buf != inode.iAddr && rcount + count <= buf.Length && count > 0 && size > 0 && |left| == size
      modifies this`roff, this`size, buf
      ensures Shape() && Readable(Ring(), data, BLKSZ) && 0 < n <= count && n <= |left| && size == old(size) - n
      ensures buf[rcount..rcount + n] == left[..n] && Queued(Abs(), left[n..])
      ensures forall k :: 0 <= k < buf.Length && !(rcount <= k < rcount + n) ==> buf[k] == old(buf[k])
    {
      ghost var p := Abs();
      assert Ok(p) && Unread(p) == left;
      n := NextPart(count);
      ReadChunk(buf, rcount, n);
      Taken(p, Abs(), count, left);
    }

    /** The rest of the turn: n bytes of the block at the offset; it never reaches the panic. */
    method ReadChunk(buf: array<int>, rcount: nat, n: nat)
      requires Shape() && Readable(Ring(), data, BLKSZ) && buf != inode.iAddr && rcount + n <= buf.Length
      requires roff < PIPE_BUF && roff % BLKSZ + n <= BLKSZ && n <= size && Ring()[roff / BLKSZ] != 0
      modifies this`roff, this`size, buf
      ensures Shape() && Ring() == old(Ring()) && roff == old(roff) + n <= PIPE_BUF && size == old(size) - n
      ensures buf[rcount..rcount + n] == Cells(Ring(), data)[old(roff)..roff]
      ensures forall k :: 0 <= k < buf.Length && !(rcount <= k < rcount + n) ==> buf[k] == old(buf[k])
    {
      var b := Rbmap(roff / BLKSZ);
      if b == 0 {
        assert false;
      }
      CopyOut(buf, rcount, b, roff % BLKSZ, n);
      RingPart(Ring(), data, roff, n);
      roff, size := roff + n, size - n;
    }

    /** The bytes of the next turn, in a block that is there. */
    method NextPart(count: nat) returns (n: nat)
      requires Shape() && Ok(Abs()) && count > 0 && size > 0
      modifies this`roff
      ensures roff == Wrapped(old(roff)) && n == ReadSize(old(Abs()), count) && 0 < n <= count && n <= size
      ensures roff % BLKSZ + n <= BLKSZ && roff < PIPE_BUF && roff / BLKSZ < RING && Ring()[roff / BLKSZ] != 0
    {
      ReadTakes(Abs(), count);
      if roff >= PIPE_BUF { roff := 0; }
      n := Min(count, Min(BLKSZ - roff % BLKSZ, size));
    }

    /** rbmap(), for a file block in the ring: its disk block, or 0. */
    method Rbmap(f: nat) returns (b: nat)
      requires Shape() && f < RING
      ensures b == Ring()[f]
    {
      assert InodeValid(inode.B);
      var found, ibd;
      ghost var p, k;
      RingReached(inode.B);
      found, ibd, p, k := inode.Bmap(f);
      BmapInRing(inode.St(), p, found, ibd.block, ibd.index, ibd.nblocks, k, inode.B, f);
      b := inode.GetBlock(ibd.index);
    }

    /** The memcpy() from a buffer of the ring. */
    method CopyOut(buf: array<int>, dst: nat, b: nat, boffset: nat, n: nat)
      requires b in data && |data[b]| == BLKSZ && boffset + n <= BLKSZ && dst + n <= buf.Length
      modifies buf
      ensures buf[dst..dst + n] == data[b][boffset..boffset + n]
      ensures forall k :: 0 <= k < buf.Length && !(dst <= k < dst + n) ==> buf[k] == old(buf[k])
    {
      for i := 0 to n
        invariant forall k :: dst <= k < dst + i ==> buf[k] == data[b][boffset + (k - dst)]
        invariant forall k :: 0 <= k < buf.Length && !(dst <= k < dst + i) ==> buf[k] == old(buf[k])
      {
        buf[dst + i] := data[b][boffset + i];
      }
    }

    // ----------------------------------------------- pipe_write()

    /** The loop of pipe_write() until all is written, the pipe is full or no block is free. */
    method WriteLoop(bytes: seq<int>) returns (wcount: nat)
      requires Valid()
      modifies this`data, this`woff, this`size, inode, inode.iAddr
      ensures Valid() && wcount <= Min(|bytes|, PIPE_BUF - old(size))
      ensures Unread(Abs()) == old(Unread(Abs())) + bytes[..wcount]
      ensures wcount < Min(|bytes|, PIPE_BUF - old(size)) ==> inode.free == {}
      ensures GrownFrom(old(inode.St()), inode.St(), inode.B)
    {
      ghost var before := Unread(Abs());
      assert Queued(Abs(), before);
      wcount := WriteTurns(bytes, before);
      assert Ok(Abs());
    }

    /** The loop itself. */
    method WriteTurns(bytes: seq<int>, ghost before: seq<int>) returns (wcount: nat)
      requires Shape() && Readable(Ring(), data, BLKSZ) && Queued(Abs(), before) && size <= PIPE_BUF
      modifies this`data, this`woff, this`size, inode, inode.iAddr
      ensures Shape() && Readable(Ring(), data, BLKSZ) && wcount <= Min(|bytes|, PIPE_BUF - old(size))
      ensures Queued(Abs(), before + bytes[..wcount])
      ensures wcount < Min(|bytes|, PIPE_BUF - old(size)) ==> inode.free == {}
      ensures GrownFrom(old(inode.St()), inode.St(), inode.B)
    {
      ghost var st := inode.St();
      var count: nat := |bytes|;
      wcount := 0;
      assert GrownFrom(st, st, inode.B) by {
        assert InodeValid(inode.B);
        GrownSame(st, inode.B);
      }
      assert before + bytes[..0] == before;
      while count > 0 && size != PIPE_BUF
        invariant Shape() && Readable(Ring(), data, BLKSZ) && wcount + count == |bytes|
        invariant size == old(size) + wcount <= PIPE_BUF
        invariant Queued(Abs(), before + bytes[..wcount]) && GrownFrom(st, inode.St(), inode.B)
        decreases count
      {
        ghost var u := inode.St();
        var n := WriteOn(bytes, wcount, count, before + bytes[..wcount]);
        GrownOn(st, u, inode.St(), inode.B);
        assert (before + bytes[..wcount]) + bytes[wcount..wcount + n] == before + bytes[..wcount + n];
        if n == 0 { return; }
        wcount, count := wcount + n, count - n;
      }
    }

    /** The body of that loop. */
    method WriteOn(bytes: seq<int>, wcount: nat, count: nat, ghost queue: seq<int>) returns (n: nat)
      requires Shape() && Readable(Ring(), data, BLKSZ) && Queued(Abs(), queue)
      requires wcount + count <= |bytes| && count > 0 && size < PIPE_BUF
      modifies this`data, this`woff, this`size, inode, inode.iAddr
      ensures Shape() && Readable(Ring(), data, BLKSZ) && n <= count && (n == 0 ==> inode.free == {})
      ensures size == old(size) + n <= PIPE_BUF && GrownFrom(old(inode.St()), inode.St(), inode.B)
      ensures Queued(Abs(), queue + bytes[wcount..wcount + n])
    {
      ghost var p := Abs();
      assert Ok(p) && Unread(p) == queue;
      n := WriteChunk(bytes[wcount..wcount + count]);
      assert bytes[wcount..wcount + count][..n] == bytes[wcount..wcount + n];
      TurnAppends(p, Abs(), bytes[wcount..wcount + n]);
      QueueFits(Abs(), queue + bytes[wcount..wcount + n]);
    }

    /** One turn of the loop, for the bytes that are left; it writes nothing only if wbmap() finds no
        block. */
    method WriteChunk(rest: seq<int>) returns (n: nat)
      requires Valid() && rest != [] && size < PIPE_BUF
      modifies this`data, this`woff, this`size, inode, inode.iAddr
      ensures Shape() && Readable(Ring(), data, BLKSZ) && n <= |rest| && (n == 0 ==> inode.free == {})
      ensures Turned(old(Abs()), Abs(), rest[..n]) && GrownFrom(old(inode.St()), inode.St(), inode.B)
    {
      ghost var p, ring := Abs(), Ring();
      n := NextSize(|rest|);
      var b, isNew := Wbmap(woff / BLKSZ);
      if b == 0 {
        NoTurn(p);
        return 0;
      }
      Store(b, isNew, rest[..n], p, ring);
    }

    /** The bytes of the next turn. */
    method NextSize(count: nat) returns (n: nat)
      requires Shape() && Ok(Abs()) && count > 0 && size < PIPE_BUF
      modifies this`woff
      ensures Abs() == NotWritten(old(Abs())) && woff == Wrapped(old(woff)) && 0 < n <= count
      ensures Wrapped(old(woff)) % BLKSZ + n <= BLKSZ && n + size <= PIPE_BUF
      ensures woff / BLKSZ == Target(old(Abs())) < RING
    {
      TurnFits(Abs(), count);
      if woff >= PIPE_BUF { woff := 0; }
      n := Min(count, Min(BLKSZ - woff % BLKSZ, PIPE_BUF - size));
    }

    /** The rest of the turn. The buffer that wbmap() has handed back is valid: it holds the block, or
        zeros if that is new; the bytes are copied into it. */
    method Store(b: nat, isNew: bool, piece: seq<int>, ghost p: Pipe, ghost ring: seq<nat>)
      requires Shape() && Ok(p) && Fits(p, piece) && piece != [] && |ring| == RING && Readable(ring, data, BLKSZ)
      requires p == PipeOf(ring, data, roff, p.woff, size) && woff == Wrapped(p.woff)
      requires Found(ring, Ring(), Target(p), b) && (isNew <==> ring[Target(p)] == 0)
      modifies this`data, this`woff, this`size
      ensures Readable(Ring(), data, BLKSZ) && Turned(p, Abs(), piece)
    {
      ghost var was := data;
      var block := if isNew then seq(BLKSZ, _ => 0) else data[b];
      data := data[b := Patched(block, woff % BLKSZ, piece)];
      ChunkIsWrite(ring, was, Ring(), data, b, piece, p);
      woff, size := woff + |piece|, size + |piece|;
      assert IsTurn(p, Abs(), piece);
    }

    /** wbmap(), for a file block in the ring; isNew says that it allocates the block. */
    method Wbmap(f: nat) returns (b: nat, isNew: bool)
      requires Shape() && f < RING
      modifies inode, inode.iAddr
      ensures Shape() && GrownFrom(old(inode.St()), inode.St(), inode.B)
      ensures b != 0 ==> Found(old(Ring()), Ring(), f, b) && (isNew <==> old(Ring())[f] == 0)
      ensures b == 0 ==> Ring() == old(Ring()) && Ring()[f] == 0 && inode.free == {}
    {
      ghost var st := inode.St();
      assert InodeValid(inode.B);
      var unused := inode.free;
      RingReached(inode.B);
      b := inode.Wbmap(f);
      isNew := b in unused;
      WbmapInRing(st, inode.St(), f, b, inode.B);
      assert InodeValid(inode.B) && Grown(st, inode.St(), inode.B);
    }
  }

  /** The ring lies in the direct blocks. */
  lemma RingReached(B: nat)
    ensures RING <= DIRECT_BLOCKS <= WbmapBound(B)
  {
  }
}
