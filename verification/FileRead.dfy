/** regular_read(): blocks that are not in the cache are gathered into requests for consecutive
    disk blocks, the others are copied at once. */
module FileRead {
  import opened Basics
  import opened Arith
  import opened BlockMap
  import opened InodeMap
  import opened FileWalk
  import opened FileModel
  import opened Inode

  /** The request being gathered: nblocks disk blocks from block on, whose bytes from boffset on
      go to the count places of the caller's buffer from start on. */
  datatype Request = NoRequest | Request(block: nat, nblocks: nat, start: nat, boffset: nat, count: nat)

  /** The buffers of a request, each named by the block it stands for. */
  function Buffers(req: Request): set<nat> {
    if req.NoRequest? then {} else Run(req.block, req.nblocks)
  }

  function Run(b: nat, n: nat): set<nat> {
    if n == 0 then {} else Run(b, n - 1) + {b + n - 1}
  }

  lemma {:induction false} RunIs(b: nat, n: nat, x: nat)
    ensures x in Run(b, n) <==> b <= x < b + n
  {
    if n > 0 { RunIs(b, n - 1, x); }
  }

  /** Every mapped block can be read. */
  predicate Readable(blocks: seq<nat>, data: map<nat, seq<int>>, bs: nat) {
    forall f :: 0 <= f < |blocks| && blocks[f] != 0 ==> blocks[f] in data && |data[blocks[f]]| == bs
  }

  /** The byte i of the file block f. */
  function BlockByte(blocks: seq<nat>, data: map<nat, seq<int>>, f: nat, i: nat): int
    requires f < |blocks|
  {
    if blocks[f] != 0 && blocks[f] in data && i < |data[blocks[f]]| then data[blocks[f]][i] else 0
  }

  /** Byte o of the file that consists of the given disk blocks; a hole reads as zeros. */
  function ByteAt(blocks: seq<nat>, data: map<nat, seq<int>>, o: nat, bs: nat): int
    requires bs > 0
  {
    DivNat(o, bs);
    if o / bs < |blocks| then BlockByte(blocks, data, o / bs, o % bs) else 0
  }

  lemma ByteIn(blocks: seq<nat>, data: map<nat, seq<int>>, f: nat, i: nat, bs: nat)
    requires i < bs && f < |blocks|
    ensures ByteAt(blocks, data, f * bs + i, bs) == BlockByte(blocks, data, f, i)
  {
    DivUnique(f * bs + i, bs, f, i);
  }

  /** The request is for the file blocks from f on, up to place rc of the caller's buffer, which
      holds the bytes of the file from off on. */
  predicate Gathered(blocks: seq<nat>, req: Request, next: map<nat, nat>, f: nat, rc: nat, off: nat, bs: nat) {
    req.Request? ==>
      && req.nblocks > 0 && req.start + req.count == rc && req.block > 0
      && off + req.start == f * bs + req.boffset && req.boffset < bs
      && (req.nblocks - 1) * bs < req.boffset + req.count <= req.nblocks * bs
      && f + req.nblocks <= |blocks|
      && forall i :: 0 <= i < req.nblocks ==> Asked(blocks, req, next, f, i)
  }

  /** Buffer i of the request is the one of the file block f + i, and .next leads on. */
  predicate Asked(blocks: seq<nat>, req: Request, next: map<nat, nat>, f: nat, i: nat)
    requires req.Request? && f + i < |blocks|
  {
    && blocks[f + i] == req.block + i
    && req.block + i in next && next[req.block + i] == if i + 1 < req.nblocks then req.block + i + 1 else 0
  }

  /** The request once its first j buffers have been taken, done bytes of it. */
  predicate Reading(req: Request, bs: nat, j: nat, b: nat, boffset: nat, left: nat, done: nat)
    requires req.Request?
  {
    && j <= req.nblocks && b == (if j < req.nblocks then req.block + j else 0)
    && left + done == req.count && (j == req.nblocks ==> left == 0)
    && (j < req.nblocks ==> boffset < bs && req.boffset + done == j * bs + boffset)
  }

  lemma LessOne(all: set<nat>, b: nat, j: nat, before: set<nat>, after: set<nat>)
    requires before == all - Run(b, j) && after == before - {b + j}
    ensures after == all - Run(b, j + 1)
  {
  }

  lemma PartSize(req: Request, j: nat, boffset: nat, done: nat, left: nat, bs: nat, f: nat, off: nat)
    requires req.Request? && j < req.nblocks && boffset < bs && req.boffset + done == j * bs + boffset
    requires left + done == req.count
    requires (req.nblocks - 1) * bs < req.boffset + req.count <= req.nblocks * bs
    requires off + req.start == f * bs + req.boffset
    ensures off + (req.start + done) == (f + j) * bs + boffset
    ensures var n := Min(left, bs - boffset);
      if j + 1 < req.nblocks then n == bs - boffset && req.boffset + (done + n) == (j + 1) * bs else n == left
  {
    assert (f + j) * bs == f * bs + j * bs && (j + 1) * bs == j * bs + bs;
    if j + 1 < req.nblocks {
      MulMono(j + 1, req.nblocks - 1, bs);
    } else {
      assert j + 1 == req.nblocks;
    }
  }

  class Reader {
    const bs: nat                        // s_blksz
    const data: map<nat, seq<int>>       // the contents of the blocks
    const buf: array<int>                // the caller's buffer
    var cached: set<nat>                 // the blocks with a valid buffer
    var held: set<nat>                   // the buffers in this process's hands
    var next: map<nat, nat>              // .next
    ghost const blocks: seq<nat>         // the disk blocks of the file
    ghost var issued: seq<Request>       // the requests given to the driver

    constructor (bs: nat, data: map<nat, seq<int>>, buf: array<int>, cached: set<nat>, ghost blocks: seq<nat>)
      requires bs > 0 && Readable(blocks, data, bs)
      ensures Valid() && this.bs == bs && this.data == data && this.buf == buf && this.blocks == blocks && held == {}
    {
      this.bs, this.data, this.buf, this.cached, this.blocks := bs, data, buf, cached, blocks;
      held, next, issued := {}, map[], [];
    }

    ghost predicate Valid()
      reads this
    {
      bs > 0 && Readable(blocks, data, bs)
    }

    /** The caller's buffer holds the file's bytes from place lo up to hi. */
    ghost predicate Filled(off: nat, lo: nat, hi: nat)
      requires bs > 0
      reads this, buf
    {
      hi <= buf.Length && forall k :: lo <= k < hi ==> buf[k] == ByteAt(blocks, data, off + k, bs)
    }

    /** buf_get(): the buffer becomes busy; it is valid or not. */
    method BufGet(block: nat) returns (valid: bool)
      requires block !in held
      modifies this`held
      ensures held == old(held) + {block} && valid == (block in cached)
    {
      held := held + {block};
      valid := block in cached;
    }

    /** buf_release(). */
    method BufRelease(block: nat)
      requires block in held
      modifies this`held
      ensures held == old(held) - {block}
    {
      held := held - {block};
    }

    /** memcpy() from a buffer: part of the file block f. */
    method CopyOut(dst: nat, block: nat, boffset: nat, n: nat, ghost off: nat, ghost f: nat)
      requires Valid() && dst + n <= buf.Length && boffset + n <= bs && f < |blocks|
      requires off + dst == f * bs + boffset && block == blocks[f] != 0
      modifies buf
      ensures Filled(off, dst, dst + n)
      ensures forall k :: 0 <= k < buf.Length && !(dst <= k < dst + n) ==> buf[k] == old(buf[k])
    {
      for i := 0 to n
        invariant Filled(off, dst, dst + i)
        invariant forall k :: 0 <= k < buf.Length && !(dst <= k < dst + i) ==> buf[k] == old(buf[k])
      {
        ByteIn(blocks, data, f, boffset + i, bs);
        buf[dst + i] := data[block][boffset + i];
      }
    }

    /** memset() of a hole. */
    method ZeroOut(dst: nat, boffset: nat, n: nat, ghost off: nat, ghost f: nat)
      requires Valid() && dst + n <= buf.Length && boffset + n <= bs && f < |blocks|
      requires off + dst == f * bs + boffset && blocks[f] == 0
      modifies buf
      ensures Filled(off, dst, dst + n)
      ensures forall k :: 0 <= k < buf.Length && !(dst <= k < dst + n) ==> buf[k] == old(buf[k])
    {
      for i := 0 to n
        invariant Filled(off, dst, dst + i)
        invariant forall k :: 0 <= k < buf.Length && !(dst <= k < dst + i) ==> buf[k] == old(buf[k])
      {
        ByteIn(blocks, data, f, boffset + i, bs);
        buf[dst + i] := 0;
      }
    }

    /** do_request: the driver reads the chain, then its bytes are copied and its buffers released. */
    method DoRequest(req: Request, ghost f: nat, ghost rc: nat, ghost off: nat)
      requires Valid() && req.Request? && Gathered(blocks, req, next, f, rc, off, bs)
      requires rc <= buf.Length && Buffers(req) <= held
      modifies this`cached, this`held, this`issued, buf
      ensures held == old(held) - Buffers(req) && issued == old(issued) + [req]
      ensures Filled(off, req.start, rc)
      ensures forall k :: 0 <= k < buf.Length && !(req.start <= k < rc) ==> buf[k] == old(buf[k])
    {
      cached := cached + Buffers(req);
      issued := issued + [req];
      var b, boffset, left, done: nat := req.block, req.boffset, req.count, 0;
      ghost var j: nat := 0;
      while b != 0
        invariant Reading(req, bs, j, b, boffset, left, done) && held == old(held) - Run(req.block, j)
        invariant issued == old(issued) + [req]
        invariant Filled(off, req.start, req.start + done)
        invariant forall k :: 0 <= k < buf.Length && !(req.start <= k < rc) ==> buf[k] == old(buf[k])
        decreases req.nblocks - j
      {
        ghost var h := held;
        RunIs(req.block, j, b);
        RunIs(req.block, req.nblocks, b);
        var n;
        b, n := TakePart(req, b, boffset, left, done, j, rc, off, f);
        LessOne(old(held), req.block, j, h, held);
        boffset, left, done := 0, left - n, done + n;
        j := j + 1;
      }
    }

    /** One buffer of the request: its part is copied and it is released. */
    method TakePart(req: Request, b: nat, boffset: nat, left: nat, done: nat,
                    ghost j: nat, ghost rc: nat, ghost off: nat, ghost f: nat)
      returns (b': nat, n: nat)
      requires Valid() && req.Request? && Gathered(blocks, req, next, f, rc, off, bs) && rc <= buf.Length
      requires Reading(req, bs, j, b, boffset, left, done) && b != 0 && b in held
      requires Filled(off, req.start, req.start + done)
      modifies this`held, buf
      ensures n <= left && held == old(held) - {b} && Reading(req, bs, j + 1, b', 0, left - n, done + n)
      ensures Filled(off, req.start, req.start + done + n)
      ensures forall k :: 0 <= k < buf.Length && !(req.start + done <= k < req.start + done + n) ==>
        buf[k] == old(buf[k])
    {
      assert Asked(blocks, req, next, f, j);
      n := Min(left, bs - boffset);
      PartSize(req, j, boffset, done, left, bs, f, off);
      CopyOut(req.start + done, b, boffset, n, off, f + j);
      BufRelease(b);
      b' := next[b];
    }

    /** Between two blocks: rc bytes are in the caller's buffer or gathered in the request, whose
        blocks end where the file block f begins; the buffers held are base and the request's. */
    ghost predicate Between(req: Request, fr: nat, f: nat, rc: nat, off: nat, base: set<nat>)
      requires bs > 0
      reads this, buf
    {
      && Gathered(blocks, req, next, fr, rc, off, bs) && rc <= buf.Length
      && (req.Request? ==> f == fr + req.nblocks && req.boffset + req.count == req.nblocks * bs)
      && held == base + Buffers(req) && base !! Buffers(req)
      && Filled(off, 0, if req.NoRequest? then rc else req.start)
      && forall r :: r in issued ==> OfFile(blocks, r)
    }

    /** The request is given to the driver, after what lies behind it has been filled up to hi. */
    method Finish(req: Request, ghost fr: nat, ghost rc: nat, ghost hi: nat, ghost off: nat, ghost base: set<nat>)
      requires Valid() && req.Request? && Gathered(blocks, req, next, fr, rc, off, bs) && rc <= hi <= buf.Length
      requires held == base + Buffers(req) && base !! Buffers(req)
      requires Filled(off, 0, req.start) && Filled(off, rc, hi) && forall r :: r in issued ==> OfFile(blocks, r)
      modifies this`cached, this`held, this`issued, buf
      ensures held == base && Filled(off, 0, hi) && forall r :: r in issued ==> OfFile(blocks, r)
      ensures forall k :: hi <= k < buf.Length ==> buf[k] == old(buf[k])
    {
      GatheredIsOfFile(blocks, req, next, fr, rc, off, bs);
      DoRequest(req, fr, rc, off);
    }

    /** new_request: the block starts a request, which is given to the driver at once if it is
        the last of the extent or of the read. */
    method NewRequest(block: nat, last: bool, rc: nat, boffset: nat, n: nat, ghost f: nat, ghost off: nat,
                      ghost base: set<nat>)
      returns (req: Request)
      requires Valid() && f < |blocks| && block == blocks[f] != 0 && 0 < n <= bs - boffset && rc + n <= buf.Length
      requires off + rc == f * bs + boffset && (!last ==> boffset + n == bs)
      requires held == base + {block} && block !in base && Filled(off, 0, rc)
      requires forall r :: r in issued ==> OfFile(blocks, r)
      modifies this`cached, this`held, this`issued, this`next, buf
      ensures Between(req, f, f + 1, rc + n, off, base) && (last ==> req.NoRequest?)
      ensures forall k :: rc + n <= k < buf.Length ==> buf[k] == old(buf[k])
    {
      req := Request(block, 1, rc, boffset, n);
      next := next[block := 0];
      assert Asked(blocks, req, next, f, 0);
      assert Buffers(req) == {block} by { assert Run(block, 0) == {}; }
      if last {
        Finish(req, f, rc + n, rc + n, off, base);
        req := NoRequest;
      }
    }

    /** The body of the inner loop: the next block of the file, a hole if the number is 0. */
    method ReadEntry(block: nat, last: bool, rc: nat, boffset: nat, n: nat, req0: Request,
                     ghost fr0: nat, ghost f: nat, ghost off: nat, ghost base: set<nat>)
      returns (req: Request, ghost fr: nat)
      requires Valid() && Between(req0, fr0, f, rc, off, base) && f < |blocks| && block == blocks[f]
      requires 0 < n <= bs - boffset && rc + n <= buf.Length && off + rc == f * bs + boffset
      requires !last ==> boffset + n == bs
      requires block != 0 ==> block !in held
      modifies this`cached, this`held, this`issued, this`next, buf
      ensures Between(req, fr, f + 1, rc + n, off, base) && (last ==> req.NoRequest?)
      ensures forall k :: rc + n <= k < buf.Length ==> buf[k] == old(buf[k])
    {
      req, fr := req0, fr0;
      if block == 0 {
        ZeroOut(rc, boffset, n, off, f);
        if req.Request? { Finish(req, fr, rc, rc + n, off, base); }
        return NoRequest, f;
      }
      var valid := BufGet(block);
      if valid {
        CopyOut(rc, block, boffset, n, off, f);
        BufRelease(block);
        if req.Request? { Finish(req, fr, rc, rc + n, off, base); }
        return NoRequest, f;
      }
      if req.NoRequest? {
        req := NewRequest(block, last, rc, boffset, n, f, off, base);
        return req, f;
      }
      if block == req.block + req.nblocks {
        req := Lengthen(block, last, rc, boffset, n, req, fr, f, off, base);
        return req, fr;
      }
      Finish(req, fr, rc, rc, off, base + {block});
      req := NewRequest(block, last, rc, boffset, n, f, off, base);
      return req, f;
    }

    /** The block continues the request. */
    method Lengthen(block: nat, last: bool, rc: nat, boffset: nat, n: nat, req0: Request,
                    ghost fr: nat, ghost f: nat, ghost off: nat, ghost base: set<nat>) returns (req: Request)
      requires Valid() && req0.Request? && Gathered(blocks, req0, next, fr, rc, off, bs) && rc + n <= buf.Length
      requires f == fr + req0.nblocks < |blocks| && req0.boffset + req0.count == req0.nblocks * bs
      requires held == base + Buffers(req0) + {block} && base !! Buffers(req0) && block !in base + Buffers(req0)
      requires Filled(off, 0, req0.start) && forall r :: r in issued ==> OfFile(blocks, r)
      requires block == blocks[f] == req0.block + req0.nblocks && off + rc == f * bs + boffset
      requires 0 < n <= bs - boffset && (!last ==> boffset + n == bs)
      modifies this`cached, this`held, this`issued, this`next, buf
      ensures Between(req, fr, f + 1, rc + n, off, base) && (last ==> req.NoRequest?)
      ensures forall k :: rc + n <= k < buf.Length ==> buf[k] == old(buf[k])
    {
      ghost var before := next;
      req := req0.(nblocks := req0.nblocks + 1, count := req0.count + n);
      next := next[block - 1 := block][block := 0];
      GatherOne(blocks, req0, before, fr, f, rc, off, bs, block, boffset, n);
      if last {
        Finish(req, fr, rc + n, rc + n, off, base);
        req := NoRequest;
      }
    }

    // ----------------------------------------------- the loops of regular_read()

    /** block_map[i]: from the zero table, the copy of the inode's numbers or the table block. */
    method BlockMapEntry(inode: Inode, ibd: IblkData, i: nat) returns (entry: nat)
      requires inode.Valid() && !ibd.missing
      requires if ibd.block == 0 then i < ADDRESSES else ibd.block in inode.tables && i < |inode.tables[ibd.block]|
      ensures entry == if ibd.block == 0 then inode.St().addr[i] else inode.tables[ibd.block][i]
    {
      if ibd.block == 0 {
        entry := inode.GetBlock(i);
      } else {
        entry := inode.TableEntry(ibd.block, i);
      }
    }

    /** One turn of the outer loop: the extent that bmap() reports. */
    method ReadExtent(inode: Inode, off: nat, rc0: nat, iob0: nat, total: nat) returns (rc: nat, iob: nat)
      requires Valid() && inode.Valid() && buf != inode.iAddr
      requires total <= buf.Length && AtBlock(off, rc0, iob0, total, bs) && iob0 > 0 && held == {}
      requires Reads(inode.St(), blocks, FileBlock(off + rc0, bs), iob0, inode.B)
      requires Filled(off, 0, rc0) && forall r :: r in issued ==> OfFile(blocks, r)
      modifies this`cached, this`held, this`issued, this`next, buf
      ensures held == {} && iob < iob0 && AtBlock(off, rc, iob, total, bs)
      ensures iob > 0 ==> Reads(inode.St(), blocks, FileBlock(off + rc, bs), iob, inode.B)
      ensures Filled(off, 0, rc) && forall r :: r in issued ==> OfFile(blocks, r)
      ensures forall k :: total <= k < buf.Length ==> buf[k] == old(buf[k])
    {
      var f0 := FileBlock(off + rc0, bs);
      ReadsInRange(inode.St(), blocks, f0, iob0, inode.B);
      var found, ibd;
      ghost var p, k;
      found, ibd, p, k := inode.Bmap(f0);
      ghost var x := Extent(p, found, ibd.block, ibd.index, ibd.nblocks, k);
      ExtentThere(inode.St(), x, blocks, f0, iob0, inode.B);
      if ibd.block != 0 { var _ := BufGet(ibd.block); }
      assert {} + Buffers(NoRequest) == {} && held + {} == held;
      rc, iob := ReadLoop(inode, ibd, x, f0, off, rc0, iob0, total);
      if ibd.block != 0 { BufRelease(ibd.block); }
    }

    /** The inner loop of regular_read(). */
    method ReadLoop(inode: Inode, ibd: IblkData, ghost x: Extent, f0: nat, off: nat, rc0: nat, iob0: nat, total: nat)
      returns (rc: nat, iob: nat)
      requires Valid() && InExtent(inode, ibd, x, f0, 0, NoRequest, f0, rc0, iob0, off, total, held)
      requires held == if ibd.block == 0 then {} else {ibd.block}
      requires iob0 > 0 && ibd.nblocks > 0
      modifies this`cached, this`held, this`issued, this`next, buf
      ensures held == old(held) && iob < iob0 && AtBlock(off, rc, iob, total, bs)
      ensures iob == 0 || (iob == iob0 - ibd.nblocks && FileBlock(off + rc, bs) == f0 + ibd.nblocks)
      ensures Filled(off, 0, rc) && forall r :: r in issued ==> OfFile(blocks, r)
      ensures forall k :: total <= k < buf.Length ==> buf[k] == old(buf[k])
    {
      rc, iob := rc0, iob0;
      ghost var base := held;
      var req := NoRequest;
      ghost var fr: nat := f0;
      var i: nat := 0;
      while iob > 0 && i < ibd.nblocks
        invariant i <= ibd.nblocks && iob == iob0 - i
        invariant InExtent(inode, ibd, x, f0, i, req, fr, rc, iob, off, total, base)
        invariant iob == 0 || i == ibd.nblocks ==> req.NoRequest?
        invariant forall k :: total <= k < buf.Length ==> buf[k] == old(buf[k])
      {
        req, rc, fr := ReadStep(inode, ibd, x, f0, i, req, fr, rc, iob, off, total, base);
        i, iob := i + 1, iob - 1;
      }
      assert InExtentAt(inode, ibd, x, f0, i, req, fr, rc, iob, off, total, base);
    }

    /** One turn of the inner loop. */
    method ReadStep(inode: Inode, ibd: IblkData, ghost x: Extent, f0: nat, i: nat, req0: Request, ghost fr0: nat,
                    rc0: nat, iob: nat,
                    off: nat, total: nat, ghost base: set<nat>)
      returns (req: Request, rc: nat, ghost fr: nat)
      requires Valid() && InExtent(inode, ibd, x, f0, i, req0, fr0, rc0, iob, off, total, base)
      requires base == (if ibd.block == 0 then {} else {ibd.block}) && iob > 0 && i < ibd.nblocks
      modifies this`cached, this`held, this`issued, this`next, buf
      ensures InExtent(inode, ibd, x, f0, i + 1, req, fr, rc, iob - 1, off, total, base)
      ensures iob == 1 || i + 1 == ibd.nblocks ==> req.NoRequest?
      ensures forall k :: total <= k < buf.Length ==> buf[k] == old(buf[k])
    {
      assert InExtentAt(inode, ibd, x, f0, i, req0, fr0, rc0, iob, off, total, base);
      var boffset, n := StepSize(off, rc0, iob, total, bs);
      req, fr := ReadPart(inode, ibd, x, f0, i, req0, fr0, rc0, iob, off, total, base, boffset, n);
      rc := rc0 + n;
      assert InExtentAt(inode, ibd, x, f0, i + 1, req, fr, rc, iob - 1, off, total, base);
    }

    /** The part of one block. */
    method ReadPart(inode: Inode, ibd: IblkData, ghost x: Extent, ghost f0: nat, i: nat, req0: Request, ghost fr0: nat,
                    rc0: nat, iob: nat, ghost off: nat, ghost total: nat, ghost base: set<nat>, boffset: nat, n: nat)
      returns (req: Request, ghost fr: nat)
      requires Valid() && InExtent(inode, ibd, x, f0, i, req0, fr0, rc0, iob, off, total, base)
      requires base == (if ibd.block == 0 then {} else {ibd.block}) && iob > 0 && i < ibd.nblocks
      requires 0 < n <= bs - boffset && rc0 + n <= total && off + rc0 == (f0 + i) * bs + boffset
      requires iob > 1 ==> boffset + n == bs
      modifies this`cached, this`held, this`issued, this`next, buf
      ensures Between(req, fr, f0 + i + 1, rc0 + n, off, base)
      ensures iob == 1 || i + 1 == ibd.nblocks ==> req.NoRequest?
      ensures forall k :: total <= k < buf.Length ==> buf[k] == old(buf[k])
    {
      assert InExtentAt(inode, ibd, x, f0, i, req0, fr0, rc0, iob, off, total, base);
      var entry := FetchEntry(inode, ibd, x, f0, i, req0, fr0, rc0, iob, off, total, base);
      req, fr := ReadEntry(entry, !(iob > 1 && i < ibd.nblocks - 1), rc0, boffset, n, req0, fr0, f0 + i, off, base);
    }

    /** The entry of the next file block, which this process does not hold yet. */
    method FetchEntry(inode: Inode, ibd: IblkData, ghost x: Extent, ghost f0: nat, i: nat, ghost req: Request,
                      ghost fr: nat, ghost rc: nat, iob: nat, ghost off: nat, ghost total: nat, ghost base: set<nat>)
      returns (entry: nat)
      requires Valid() && InExtent(inode, ibd, x, f0, i, req, fr, rc, iob, off, total, base)
      requires base == (if ibd.block == 0 then {} else {ibd.block}) && iob > 0 && i < ibd.nblocks
      ensures f0 + i < |blocks| && entry == blocks[f0 + i] && (entry != 0 ==> entry !in held)
    {
      assert InExtentAt(inode, ibd, x, f0, i, req, fr, rc, iob, off, total, base);
      entry := NextEntry(inode, ibd, x, f0, Min(i + iob, ibd.nblocks), i);
      NotHeld(inode.St(), x, blocks, f0, Min(i + iob, ibd.nblocks), i, req, next, fr, rc, off, bs, inode.B);
    }

    /** block_map[i] is the disk block of the next file block. */
    method NextEntry(inode: Inode, ibd: IblkData, ghost x: Extent, ghost f0: nat, ghost m: nat,
                     i: nat) returns (entry: nat)
      requires inode.Valid() && x == Extent(x.p, !ibd.missing, ibd.block, ibd.index, ibd.nblocks, x.k)
      requires Reported(inode.St(), x, f0, inode.B) && Gives(inode.St(), blocks, f0, m, inode.B) && i < m <= x.nblocks
      ensures f0 + i < |blocks| && entry == blocks[f0 + i]
    {
      EntryThere(inode.St(), x, blocks, f0, m, i, inode.B);
      entry := 0;
      if !ibd.missing { entry := BlockMapEntry(inode, ibd, ibd.index + i); }
    }

    /** Where the inner loop stands; unfolded only where it is used. */
    ghost predicate InExtent(inode: Inode, ibd: IblkData, x: Extent, f0: nat, i: nat, req: Request, fr: nat, rc: nat,
                             iob: nat,
                             off: nat, total: nat, base: set<nat>)
      requires bs > 0
      reads this, buf, inode, inode.iAddr
    {
      forall j: nat :: j == i ==> InExtentAt(inode, ibd, x, f0, j, req, fr, rc, iob, off, total, base)
    }

    ghost predicate InExtentAt(inode: Inode, ibd: IblkData, x: Extent, f0: nat, i: nat, req: Request, fr: nat,
                               rc: nat, iob: nat,
                               off: nat, total: nat, base: set<nat>)
      requires bs > 0
      reads this, buf, inode, inode.iAddr
    {
      && inode.Valid() && buf != inode.iAddr && total <= buf.Length
      && x == Extent(x.p, !ibd.missing, ibd.block, ibd.index, ibd.nblocks, x.k)
      && Reported(inode.St(), x, f0, inode.B) && ibd.nblocks >= 0
      && Gives(inode.St(), blocks, f0, Min(i + iob, ibd.nblocks), inode.B)
      && (ibd.missing ==> ibd.block == 0)
      && AtBlock(off, rc, iob, total, bs) && (iob > 0 ==> FileBlock(off + rc, bs) == f0 + i)
      && Between(req, fr, f0 + i, rc, off, base)
    }

    /** regular_read(): as many bytes as are asked for and there, from the blocks that the walk
        over the extents takes; ReadsFileIff() says when those are the bytes of the file. */
    method RegularRead(inode: Inode, offset: nat, count: nat, size: nat) returns (rcount: nat)
      requires Valid() && inode.Valid() && buf != inode.iAddr
      requires count <= buf.Length && held == {} && issued == []
      requires Reads(inode.St(), blocks, FileBlock(offset, bs), BlockCount(offset, count, size, bs), inode.B)
      modifies this`cached, this`held, this`issued, this`next, buf
      ensures rcount == (if offset >= size then 0 else Min(count, size - offset))
      ensures forall k :: 0 <= k < rcount ==> buf[k] == ByteAt(blocks, data, offset + k, bs)
      ensures forall k :: rcount <= k < buf.Length ==> buf[k] == old(buf[k])
      ensures held == {} && forall r :: r in issued ==> OfFile(blocks, r)
    {
      var iob := BlockCount(offset, count, size, bs);
      var total: nat := if offset >= size then 0 else Min(count, size - offset);
      rcount := 0;
      while iob > 0
        invariant inode.Valid() && held == {}
        invariant AtBlock(offset, rcount, iob, total, bs)
        invariant iob > 0 ==> Reads(inode.St(), blocks, FileBlock(offset + rcount, bs), iob, inode.B)
        invariant Filled(offset, 0, rcount) && forall r :: r in issued ==> OfFile(blocks, r)
        invariant forall k :: total <= k < buf.Length ==> buf[k] == old(buf[k])
      {
        rcount, iob := ReadExtent(inode, offset, rcount, iob, total);
      }
    }
  }

  function FileBlock(o: nat, bs: nat): nat
    requires bs > 0
  {
    DivNat(o, bs);
    o / bs
  }

  /** io_blocks() is not negative. */
  function BlockCount(offset: nat, count: nat, size: nat, bs: nat): (n: nat)
    requires bs > 0
    ensures n == IoBlocks(offset, count, size, bs)
    ensures n == 0 <==> offset >= size || count == 0
  {
    IoBlocksNat(offset, count, size, bs);
    IoBlocks(offset, count, size, bs)
  }

  /** With rc of the total bytes read, iob blocks are left, and the next one is read from its
      start unless it is the first. */
  predicate AtBlock(off: nat, rc: nat, iob: nat, total: nat, bs: nat)
    requires bs > 0
  {
    && rc <= total && (iob == 0 <==> rc == total)
    && iob == IoBlocks(off + rc, total - rc, off + total, bs)
  }

  /** The part of the next block that is read. */
  method StepSize(off: nat, rc: nat, iob: nat, total: nat, bs: nat) returns (boffset: nat, n: nat)
    requires bs > 0 && AtBlock(off, rc, iob, total, bs) && iob > 0
    ensures boffset < bs && 0 < n <= bs - boffset && rc + n <= total
    ensures off + rc == FileBlock(off + rc, bs) * bs + boffset
    ensures AtBlock(off, rc + n, iob - 1, total, bs)
    ensures iob > 1 ==> boffset + n == bs && FileBlock(off + rc + n, bs) == FileBlock(off + rc, bs) + 1
  {
    boffset := (off + rc) % bs;
    n := Min(total - rc, bs - boffset);
    PartOfBlock(off + rc, total - rc, boffset, n, bs);
  }

  /** The part of the block at which the last bytes of a request start. */
  lemma PartOfBlock(at: nat, left: nat, boffset: nat, n: int, bs: nat)
    requires bs > 0 && left > 0 && boffset == at % bs && n == Min(left, bs - boffset)
    ensures boffset < bs && 0 < n <= left && n <= bs - boffset && at == FileBlock(at, bs) * bs + boffset
    ensures IoBlocks(at, left, at + left, bs) - 1 == IoBlocks(at + n, left - n, at + left, bs) >= 0
    ensures IoBlocks(at + n, left - n, at + left, bs) == 0 <==> n == left
    ensures n < left ==> boffset + n == bs && FileBlock(at + n, bs) == FileBlock(at, bs) + 1
  {
    assert IoBlocks(at, left, at + left, bs) - 1 == IoBlocks(at + n, left - n, at + left, bs) by {
      var _ := IoBlocksStep(at, left, bs);
    }
    IoBlocksNat(at + n, left - n, at + left, bs);
    PartPlace(at, boffset, bs);
  }

  lemma PartPlace(at: nat, boffset: nat, bs: nat)
    requires bs > 0 && boffset == at % bs
    ensures boffset < bs && at == FileBlock(at, bs) * bs + boffset
    ensures FileBlock(at + (bs - boffset), bs) == FileBlock(at, bs) + 1
  {
    var q := at / bs;
    assert at + (bs - boffset) == (q + 1) * bs;
    DivUnique(at + (bs - boffset), bs, q + 1, 0);
  }

  predicate SameCount(offset: nat, count: nat, size: nat, n: nat, bs: nat)
    requires bs > 0
  {
    IoBlocks(offset, count, size, bs) == IoBlocks(offset, n, offset + n, bs)
  }

  lemma IoBlocksNat(offset: nat, count: nat, size: nat, bs: nat)
    requires bs > 0
    ensures IoBlocks(offset, count, size, bs) >= 0
    ensures IoBlocks(offset, count, size, bs) == 0 <==> offset >= size || count == 0
    ensures offset < size ==> SameCount(offset, count, size, Min(count, size - offset), bs)
  {
    if offset < size && count > 0 {
      var n := Min(count, size - offset);
      if n <= bs - offset % bs {
        OneBlock(offset, n, offset / bs, offset % bs, bs);
      } else {
        DivNat(n - (bs - offset % bs), bs);
      }
    }
  }

  /** An extent as bmap() reports it. */
  datatype Extent = Extent(p: Place, found: bool, block: nat, index: int, nblocks: int, k: nat)

  ghost predicate Reported(st: FileState, x: Extent, f: nat, B: nat) {
    Bmapped(st, x.p, x.found, x.block, x.index, x.nblocks, x.k, B) && BlockAt(x.p, B) == f
  }

  predicate EntryIs(row: seq<nat>, i: int, b: nat) {
    0 <= i < |row| && row[i] == b
  }

  /** The walk over n blocks from f takes the given blocks; unfolded only where it is used. */
  ghost predicate Reads(st: FileState, blocks: seq<nat>, f: nat, n: nat, B: nat) {
    forall k: nat :: k == n ==> ReadsAt(st, blocks, f, k, B)
  }

  ghost predicate ReadsAt(st: FileState, blocks: seq<nat>, f: nat, n: nat, B: nat) {
    ValidFile(st, B) && PartOf(ReportOf(st, B), blocks) && WalksAll(ReportOf(st, B), blocks, f, n)
  }

  /** The extent at f gives the blocks from f on, m of them; unfolded only where it is used. */
  ghost predicate Gives(st: FileState, blocks: seq<nat>, f: nat, m: int, B: nat) {
    forall k: nat :: k == m ==> GivesAt(st, blocks, f, k, B)
  }

  ghost predicate GivesAt(st: FileState, blocks: seq<nat>, f: nat, m: nat, B: nat) {
    && ValidFile(st, B) && f < MaxBlocks(B)
    && PartOf(ReportOf(st, B), blocks) && Taken(ReportOf(st, B), blocks, f, m)
  }

  lemma ReadsInRange(st: FileState, blocks: seq<nat>, f: nat, n: nat, B: nat)
    requires Reads(st, blocks, f, n, B) && n > 0
    ensures f < MaxBlocks(B)
  {
    assert ReadsAt(st, blocks, f, n, B);
    assert Walks(ReportOf(st, B), blocks, f, n);
  }

  /** The extent that bmap() reports for f is the next one of the walk. */
  lemma ExtentThere(st: FileState, x: Extent, blocks: seq<nat>, f: nat, n: nat, B: nat)
    requires Reported(st, x, f, B) && Reads(st, blocks, f, n, B) && n > 0
    ensures x.nblocks > 0 && Gives(st, blocks, f, Min(n, x.nblocks), B)
    ensures n > x.nblocks ==> Reads(st, blocks, f + x.nblocks, n - x.nblocks, B)
  {
    var r := ReportOf(st, B);
    assert ReadsAt(st, blocks, f, n, B) && Walks(r, blocks, f, n);
    BmappedExtent(st, x.p, x.found, x.block, x.index, x.nblocks, x.k, B);
    assert x.nblocks == r.extents[f];
    assert GivesAt(st, blocks, f, Min(n, x.nblocks), B);
    if n > x.nblocks {
      assert Walks(r, blocks, f + x.nblocks, n - x.nblocks);
      assert ReadsAt(st, blocks, f + x.nblocks, n - x.nblocks, B);
    }
  }

  /** Entry i of the extent is the disk block taken for the file block f + i. */
  lemma EntryThere(st: FileState, x: Extent, blocks: seq<nat>, f: nat, m: nat, i: nat, B: nat)
    requires Reported(st, x, f, B) && Gives(st, blocks, f, m, B) && i < m <= x.nblocks
    ensures f + i < |blocks|
    ensures if !x.found then blocks[f + i] == 0
      else if x.block == 0 then EntryIs(st.addr, x.index + i, blocks[f + i])
      else x.block in st.tables && EntryIs(st.tables[x.block], x.index + i, blocks[f + i])
  {
    FoundIs(st, x, f, B);
    GivesEntry(st, blocks, f, m, i, B);
    if x.found {
      if x.p.path == [] {
        PlaceUnique(x.p, B);
        DirectExtent(st, f, i, B);
      } else {
        Slice(st, x.p, x.block, x.index, x.nblocks, x.k, i, B);
      }
    }
  }

  lemma FoundIs(st: FileState, x: Extent, f: nat, B: nat)
    requires Reported(st, x, f, B)
    ensures ValidFile(st, B) && f < MaxBlocks(B) && x.found == FoundAt(st, f, B)
  {
    BmappedExtent(st, x.p, x.found, x.block, x.index, x.nblocks, x.k, B);
    PlaceUnique(x.p, B);
  }

  /** The next block is neither the table in hand nor one of the request's blocks. */
  lemma NotHeld(st: FileState, x: Extent, blocks: seq<nat>, f: nat, m: nat, i: nat, req: Request, next: map<nat, nat>,
                fr: nat, rc: nat, off: nat, bs: nat, B: nat)
    requires Reported(st, x, f, B) && Gives(st, blocks, f, m, B) && i < m && (!x.found ==> x.block == 0)
    requires Gathered(blocks, req, next, fr, rc, off, bs) && (req.Request? ==> fr + req.nblocks == f + i)
    ensures f + i < |blocks|
    ensures blocks[f + i] != 0 ==> blocks[f + i] != x.block && blocks[f + i] !in Buffers(req)
  {
    GivesEntry(st, blocks, f, m, i, B);
    var b := blocks[f + i];
    if b != 0 {
      if x.block != 0 { NotTheTable(st, x, f, i, B); }
      if req.Request? && b in Buffers(req) {
        RunIs(req.block, req.nblocks, b);
        NotEarlier(st, blocks, f, m, i, req, next, fr, rc, off, bs, B);
      }
    }
  }

  lemma NotEarlier(st: FileState, blocks: seq<nat>, f: nat, m: nat, i: nat, req: Request, next: map<nat, nat>,
                   fr: nat, rc: nat, off: nat, bs: nat, B: nat)
    requires Gives(st, blocks, f, m, B) && i < m && req.Request? && Gathered(blocks, req, next, fr, rc, off, bs)
    requires fr + req.nblocks == f + i < |blocks| && blocks[f + i] != 0
    ensures !(req.block <= blocks[f + i] < req.block + req.nblocks)
  {
    var k := blocks[f + i] - req.block;
    if 0 <= k < req.nblocks {
      assert Asked(blocks, req, next, fr, k);
      GivesEntry(st, blocks, f, m, i, B);
      OfTheFile(st, blocks, f, m, fr + k, B);
      MapInjective(st, fr + k, f + i, B);
    }
  }

  lemma GivesEntry(st: FileState, blocks: seq<nat>, f: nat, m: nat, i: nat, B: nat)
    requires Gives(st, blocks, f, m, B) && i < m
    ensures ValidFile(st, B) && f + i < |blocks| == MaxBlocks(B)
    ensures blocks[f + i] == if FoundAt(st, f, B) then MapOf(st, f + i, B) else 0
  {
    assert GivesAt(st, blocks, f, m, B);
    var r := ReportOf(st, B);
    assert blocks[f + i] == TakenAt(r, f, f + i - f) && r.blocks[f + i] == MapOf(st, f + i, B);
  }

  lemma OfTheFile(st: FileState, blocks: seq<nat>, f: nat, m: nat, g: nat, B: nat)
    requires Gives(st, blocks, f, m, B) && g < |blocks| && blocks[g] != 0
    ensures ValidFile(st, B) && g < MaxBlocks(B) && blocks[g] == MapOf(st, g, B)
  {
    assert GivesAt(st, blocks, f, m, B);
    assert ReportOf(st, B).blocks[g] == MapOf(st, g, B);
  }

  lemma NotTheTable(st: FileState, x: Extent, f: nat, i: nat, B: nat)
    requires Reported(st, x, f, B) && f + i < MaxBlocks(B) && x.found && x.block != 0 && MapOf(st, f + i, B) != 0
    ensures MapOf(st, f + i, B) != x.block
  {
    PlaceInverse(f + i, B);
    PlacesDiffer(st, PlaceOf(f + i, B), Prefix(x.p, x.k), B);
  }

  /** The request's disk blocks are those of consecutive blocks of the file. */
  ghost predicate OfFile(blocks: seq<nat>, req: Request) {
    exists f: nat :: OfFileAt(blocks, req, f)
  }

  predicate OfFileAt(blocks: seq<nat>, req: Request, f: nat) {
    && req.Request? && f + req.nblocks <= |blocks|
    && forall i :: f <= i < f + req.nblocks ==> blocks[i] == req.block + (i - f)
  }

  lemma GatheredIsOfFile(blocks: seq<nat>, req: Request, next: map<nat, nat>, f: nat, rc: nat, off: nat, bs: nat)
    requires req.Request? && Gathered(blocks, req, next, f, rc, off, bs)
    ensures OfFile(blocks, req)
  {
    forall i | f <= i < f + req.nblocks ensures blocks[i] == req.block + (i - f) {
      assert Asked(blocks, req, next, f, i - f);
    }
    assert OfFileAt(blocks, req, f);
  }

  lemma GatherOne(blocks: seq<nat>, req: Request, next: map<nat, nat>, fr: nat, f: nat, rc: nat, off: nat, bs: nat,
                  block: nat, boffset: nat, n: nat)
    requires req.Request? && Gathered(blocks, req, next, fr, rc, off, bs) && f == fr + req.nblocks < |blocks|
    requires req.boffset + req.count == req.nblocks * bs && off + rc == f * bs + boffset
    requires block == blocks[f] == req.block + req.nblocks && 0 < n <= bs - boffset
    ensures boffset == 0
    ensures Gathered(blocks, req.(nblocks := req.nblocks + 1, count := req.count + n),
      next[block - 1 := block][block := 0], fr, rc + n, off, bs)
  {
    var more, next' := req.(nblocks := req.nblocks + 1, count := req.count + n), next[block - 1 := block][block := 0];
    assert f * bs == fr * bs + req.nblocks * bs && (req.nblocks + 1) * bs == req.nblocks * bs + bs;
    forall i | 0 <= i < more.nblocks ensures Asked(blocks, more, next', fr, i) {
      if i < req.nblocks { assert Asked(blocks, req, next, fr, i); }
    }
  }
}
