/** The ring of a pipe (fs/pipe.c): one chunk read or written at a time, as values. */
module PipeModel {
  import opened Basics

  const PIPE_BUF := 8192
  const BLKSZ := 1024

  /** The bytes of the pipe's blocks, the blocks that the inode has so far, pipe_roff, pipe_woff and
      pipe_size. */
  datatype Pipe = Pipe(cells: seq<int>, there: set<nat>, roff: nat, woff: nat, size: nat)

  predicate Ok(p: Pipe) {
    && |p.cells| == PIPE_BUF && p.roff <= PIPE_BUF && p.woff <= PIPE_BUF && p.size <= PIPE_BUF
    && (p.roff + p.size) % PIPE_BUF == p.woff % PIPE_BUF
    && Backed(p)
  }

  /** Every unread byte lies in a block that is there. */
  predicate Backed(p: Pipe) {
    forall i: nat :: i < p.size ==> HomeOf(p, i) in p.there
  }

  /** The block that holds the byte i after the next to be read. */
  function HomeOf(p: Pipe, i: nat): nat {
    (p.roff + i) % PIPE_BUF / BLKSZ
  }

  /** The bytes written and not yet read, the oldest first. */
  function Unread(p: Pipe): (u: seq<int>)
    requires Ok(p)
    ensures |u| == p.size && forall i :: 0 <= i < p.size ==> u[i] == p.cells[(p.roff + i) % PIPE_BUF]
  {
    seq(p.size, i requires 0 <= i < p.size => p.cells[(p.roff + i) % PIPE_BUF])
  }

  function Wrapped(o: nat): nat {
    if o >= PIPE_BUF then 0 else o
  }

  // ------------------------------------------------- reading

  /** The bytes that the next turn of pipe_read() copies. */
  function ReadSize(p: Pipe, count: nat): nat
    requires Ok(p)
  {
    Min(count, Min(BLKSZ - Wrapped(p.roff) % BLKSZ, p.size))
  }

  function AfterRead(p: Pipe, n: nat): Pipe
    requires n <= p.size
  {
    p.(roff := Wrapped(p.roff) + n, size := p.size - n)
  }

  lemma ReadFits(p: Pipe, count: nat)
    requires Ok(p)
    ensures var n := ReadSize(p, count); Wrapped(p.roff) + n <= PIPE_BUF && n <= p.size && Ok(AfterRead(p, n))
  {
    var n := ReadSize(p, count);
    var q := AfterRead(p, n);
    forall i: nat | i < q.size ensures HomeOf(q, i) in q.there {
      SameHome(p, n, i);
      assert HomeOf(p, n + i) in p.there;
    }
  }

  lemma SameHome(p: Pipe, n: nat, i: nat)
    requires p.roff <= PIPE_BUF && n <= p.size
    ensures HomeOf(AfterRead(p, n), i) == HomeOf(p, n + i)
  {
    assert (Wrapped(p.roff) + n + i) % PIPE_BUF == (p.roff + n + i) % PIPE_BUF;
  }

  /** A turn takes the oldest bytes, from a block that is there: rbmap() finds it. */
  lemma ReadTakes(p: Pipe, count: nat)
    requires Ok(p)
    ensures var n := ReadSize(p, count); var r := Wrapped(p.roff);
      && r + n <= PIPE_BUF && n <= p.size && Ok(AfterRead(p, n))
      && Unread(p) == p.cells[r..r + n] + Unread(AfterRead(p, n))
      && (n > 0 ==> r / BLKSZ in p.there)
  {
    var n, r := ReadSize(p, count), Wrapped(p.roff);
    var q := AfterRead(p, n);
    assert r + n <= PIPE_BUF && n <= p.size && Ok(q) by { ReadFits(p, count); }
    var u, v := Unread(p), p.cells[r..r + n] + Unread(q);
    forall i: nat | i < p.size ensures u[i] == v[i] { ReadByte(p, n, i); }
    ReadThere(p);
  }

  lemma ReadThere(p: Pipe)
    requires Ok(p)
    ensures p.size > 0 ==> Wrapped(p.roff) / BLKSZ in p.there
  {
    if p.size > 0 { assert HomeOf(p, 0) in p.there; }
  }

  lemma ReadByte(p: Pipe, n: nat, i: nat)
    requires Ok(p) && n <= p.size && Wrapped(p.roff) + n <= PIPE_BUF && Ok(AfterRead(p, n)) && i < p.size
    ensures Unread(p)[i] == if i < n then p.cells[Wrapped(p.roff) + i] else Unread(AfterRead(p, n))[i - n]
  {
    assert (p.roff + i) % PIPE_BUF == (Wrapped(p.roff) + i) % PIPE_BUF;
    if i >= n { assert AfterRead(p, n).roff + (i - n) == Wrapped(p.roff) + i; }
  }

  // ------------------------------------------------- writing

  /** The bytes that the next turn of pipe_write() copies. */
  function WriteSize(p: Pipe, count: nat): nat
    requires Ok(p)
  {
    Min(count, Min(BLKSZ - Wrapped(p.woff) % BLKSZ, PIPE_BUF - p.size))
  }

  /** The block that is written to, and its first byte. */
  function Target(p: Pipe): nat {
    Wrapped(p.woff) / BLKSZ
  }

  function BlockStart(p: Pipe): nat {
    Wrapped(p.woff) - Wrapped(p.woff) % BLKSZ
  }

  /** The bytes once wbmap() has found the block, or allocated it and filled it with zeros. */
  function Mapped(p: Pipe): seq<int>
    requires |p.cells| == PIPE_BUF && p.woff <= PIPE_BUF
  {
    if Target(p) in p.there then p.cells
    else p.cells[..BlockStart(p)] + seq(BLKSZ, _ => 0) + p.cells[BlockStart(p) + BLKSZ..]
  }

  /** A turn with these bytes, which fit the block and the room that is left. */
  predicate Fits(p: Pipe, bytes: seq<int>) {
    Wrapped(p.woff) % BLKSZ + |bytes| <= BLKSZ && |bytes| + p.size <= PIPE_BUF
  }

  function AfterWrite(p: Pipe, bytes: seq<int>): Pipe
    requires Ok(p) && Fits(p, bytes)
  {
    var w, c := Wrapped(p.woff), Mapped(p);
    Pipe(c[..w] + bytes + c[w + |bytes|..], p.there + {Target(p)}, p.roff, w + |bytes|, p.size + |bytes|)
  }

  /** wbmap() has found no block. */
  function NotWritten(p: Pipe): Pipe {
    p.(woff := Wrapped(p.woff))
  }

  lemma NotWrittenKeeps(p: Pipe)
    requires Ok(p)
    ensures Ok(NotWritten(p)) && Unread(NotWritten(p)) == Unread(p)
  {
    forall i: nat | i < p.size ensures HomeOf(NotWritten(p), i) in p.there { assert HomeOf(p, i) in p.there; }
  }

  lemma WriteCell(p: Pipe, bytes: seq<int>, x: nat)
    requires Ok(p) && Fits(p, bytes) && x < PIPE_BUF
    ensures var w, s, c := Wrapped(p.woff), BlockStart(p), AfterWrite(p, bytes).cells;
      |c| == PIPE_BUF && c[x] ==
        if w <= x < w + |bytes| then bytes[x - w]
        else if Target(p) !in p.there && s <= x < s + BLKSZ then 0
        else p.cells[x]
  {
    BlockFits(p);
    Spliced(p.cells, BlockStart(p), seq(BLKSZ, _ => 0), x);
    Spliced(Mapped(p), Wrapped(p.woff), bytes, x);
  }

  lemma BlockFits(p: Pipe)
    requires p.woff <= PIPE_BUF
    ensures BlockStart(p) + BLKSZ <= PIPE_BUF && BlockStart(p) <= Wrapped(p.woff) < BlockStart(p) + BLKSZ
    ensures forall x: nat :: BlockStart(p) <= x < BlockStart(p) + BLKSZ <==> x / BLKSZ == Target(p)
  {
  }

  lemma Spliced(c: seq<int>, at: nat, piece: seq<int>, x: nat)
    requires at + |piece| <= |c| && x < |c|
    ensures var d := c[..at] + piece + c[at + |piece|..];
      |d| == |c| && d[x] == if at <= x < at + |piece| then piece[x - at] else c[x]
  {
  }

  /** How often the unread bytes run past the end of the ring. */
  lemma Turns(p: Pipe) returns (k: nat)
    requires Ok(p)
    ensures p.roff + p.size == Wrapped(p.woff) + k * PIPE_BUF && k <= 2
  {
    k := (p.roff + p.size) / PIPE_BUF;
  }

  /** Where the byte i after the next to be read lies, and what the turn does to it. */
  lemma CellAt(p: Pipe, n: nat, i: nat)
    requires Ok(p) && Wrapped(p.woff) % BLKSZ + n <= BLKSZ && n + p.size <= PIPE_BUF && i < p.size + n
    ensures var x, w := (p.roff + i) % PIPE_BUF, Wrapped(p.woff);
      if i < p.size then !(w <= x < w + n) else x == w + (i - p.size)
  {
    var k := Turns(p);
  }

  /** The blocks of the bytes that are unread after the turn are there. */
  lemma AfterWriteOk(p: Pipe, bytes: seq<int>)
    requires Ok(p) && Fits(p, bytes)
    ensures Ok(AfterWrite(p, bytes))
  {
    var q := AfterWrite(p, bytes);
    var k := Turns(p);
    assert (p.roff + p.size + |bytes|) % PIPE_BUF == (Wrapped(p.woff) + |bytes|) % PIPE_BUF;
    WriteCell(p, bytes, 0);
    forall i: nat | i < q.size ensures HomeOf(q, i) in q.there {
      CellAt(p, |bytes|, i);
      BlockFits(p);
      if i < p.size { assert HomeOf(p, i) in p.there; }
    }
  }

  /** A turn appends its bytes to the unread ones. */
  lemma WriteAppends(p: Pipe, bytes: seq<int>)
    requires Ok(p) && Fits(p, bytes)
    ensures Ok(AfterWrite(p, bytes)) && Unread(AfterWrite(p, bytes)) == Unread(p) + bytes
  {
    AfterWriteOk(p, bytes);
    var q := AfterWrite(p, bytes);
    forall i: nat | i < q.size ensures Follows(p, q, bytes, i) {
      ByteStays(p, bytes, i);
    }
    CellsAppend(p, q, bytes);
  }

  /** The byte i after the next to be read is the old one, or one of the new ones. */
  predicate Follows(p: Pipe, q: Pipe, bytes: seq<int>, i: nat)
    requires Ok(p) && Ok(q) && i < p.size + |bytes|
  {
    q.cells[(p.roff + i) % PIPE_BUF] ==
      if i < p.size then p.cells[(p.roff + i) % PIPE_BUF] else bytes[i - p.size]
  }

  lemma CellsAppend(p: Pipe, q: Pipe, bytes: seq<int>)
    requires Ok(p) && Ok(q) && q.roff == p.roff && q.size == p.size + |bytes|
    requires forall i: nat :: i < q.size ==> Follows(p, q, bytes, i)
    ensures Unread(q) == Unread(p) + bytes
  {
    forall i: nat | i < q.size ensures Unread(q)[i] == (Unread(p) + bytes)[i] {
      assert Follows(p, q, bytes, i);
    }
  }

  /** The byte i after the next to be read, before and after the turn. */
  lemma ByteStays(p: Pipe, bytes: seq<int>, i: nat)
    requires Ok(p) && Fits(p, bytes) && i < p.size + |bytes|
    ensures |AfterWrite(p, bytes).cells| == PIPE_BUF
    ensures AfterWrite(p, bytes).cells[(p.roff + i) % PIPE_BUF] ==
      if i < p.size then p.cells[(p.roff + i) % PIPE_BUF] else bytes[i - p.size]
  {
    var x := (p.roff + i) % PIPE_BUF;
    CellAt(p, |bytes|, i);
    WriteCell(p, bytes, x);
    if i < p.size {
      assert HomeOf(p, i) in p.there;
      BlockFits(p);
    }
  }
}
