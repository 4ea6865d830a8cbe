/** The inode as the kernel updates it: packed block numbers, _bmap(), bmap(), wbmap(). */
module Inode {
  import opened Basics
  import opened BlockMap
  import opened InodeMap
  import opened Truncate
  import opened TruncateFile

  const MAX_BLOCK := 0x1000000

  predicate Bytes(a: seq<int>) {
    |a| == 70 && forall i :: 0 <= i < |a| ==> 0 <= a[i] < 256
  }

  /** The block number packed in bytes 3i, 3i + 1 and 3i + 2. */
  function Unpack(a: seq<int>, i: nat): nat
    requires Bytes(a) && i < ADDRESSES
  {
    a[3 * i] + 256 * a[3 * i + 1] + 65536 * a[3 * i + 2]
  }

  function Addresses(a: seq<int>): (r: seq<nat>)
    requires Bytes(a)
    ensures |r| == ADDRESSES && forall i :: 0 <= i < ADDRESSES ==> r[i] == Unpack(a, i)
  {
    seq(ADDRESSES, i requires 0 <= i < ADDRESSES => Unpack(a, i))
  }

  /** The blocks of the file and the free blocks have 24-bit numbers. */
  ghost predicate Small(st: FileState) {
    forall b :: b in FileNodes(st) + st.free ==> b < MAX_BLOCK
  }

  lemma SmallFree(st: FileState, b: nat)
    requires Small(st) && b in st.free
    ensures b < MAX_BLOCK
  {
    assert b in FileNodes(st) + st.free;
  }

  lemma SmallGrown(st: FileState, u: FileState, B: nat)
    requires Small(st) && Grown(st, u, B)
    ensures Small(u)
  {
    forall b | b in FileNodes(u) + u.free ensures b < MAX_BLOCK {
      assert b in FileNodes(st) + st.free;
    }
  }

  lemma SmallCut(st: FileState, u: FileState, cut: nat, B: nat)
    requires Small(st) && ValidFile(st, B) && Exact(st, u, cut, B) && u.free - st.free <= FileNodes(st)
    ensures Small(u)
  {
    forall b | b in FileNodes(u) + u.free ensures b < MAX_BLOCK {
      assert b in FileNodes(st) + st.free;
    }
  }

  /** iblk_data: block is the table found, or 0 when the numbers come from the inode (source:
      buf_no); missing says that a table on the way is missing (buf_no == 1). */
  datatype IblkData = IblkData(missing: bool, block: nat, index: int, nblocks: int)

  class Inode {
    const B: nat                // BLOCKS_PER_IBLOCK
    const iAddr: array<int>     // i_addr[]
    var blocks: int             // i_blocks
    var tables: Tables
    var free: set<nat>

    ghost function St(): FileState
      reads this, iAddr
      requires Bytes(iAddr[..])
    {
      FileState(Addresses(iAddr[..]), blocks, tables, free)
    }

    ghost predicate Valid()
      reads this, iAddr
    {
      Bytes(iAddr[..]) && ValidFile(St(), B) && Small(St())
    }

    /** get_block_from_inode(): a four-byte load masked to 24 bits. */
    method GetBlock(index: nat) returns (b: nat)
      requires Bytes(iAddr[..]) && index < ADDRESSES
      ensures b == St().addr[index]
    {
      var a := iAddr;
      b := (a[3 * index] + 256 * a[3 * index + 1] + 65536 * a[3 * index + 2] + 16777216 * a[3 * index + 3]) % MAX_BLOCK;
      assert iAddr[..][3 * index] == a[3 * index];
    }

    /** put_block_to_inode(): the low two bytes, then the third. */
    method PutBlock(index: nat, value: nat)
      requires Bytes(iAddr[..]) && index < ADDRESSES && value < MAX_BLOCK
      modifies iAddr
      ensures Bytes(iAddr[..]) && St() == old(St()).(addr := Put(old(St()).addr, index, value))
    {
      iAddr[3 * index] := value % 256;
      iAddr[3 * index + 1] := value / 256 % 256;
      iAddr[3 * index + 2] := value / 65536 % 256;
      assert Bytes(iAddr[..]);
      assert value == value % 256 + 256 * (value / 256 % 256) + 65536 * (value / 65536 % 256);
      assert Addresses(iAddr[..]) == Put(old(Addresses(iAddr[..])), index, value);
    }

    // ----------------------------------------------- _bmap(), bmap()

    /** An entry of a table block in the buffer cache. */
    function TableEntry(table: nat, i: nat): nat
      reads this
      requires table in tables && i < |tables[table]|
    {
      tables[table][i]
    }

    /** set_indirection_level(). */
    method IndirectionLevel(f: nat) returns (level: nat, g: nat)
      ensures AtLevel(f, level, g, B)
    {
      g := f;
      if g < DIRECT_BLOCKS { return 0, g; }
      g := g - DIRECT_BLOCKS;
      if g < B { return 1, g; }
      g := g - B;
      if g < B * B { return 2, g; }
      return 3, g - B * B;
    }

    /** The last table on the way to the file block f, or the inode itself, and how many
        consecutive numbers it holds from f on. */
    method Bmap(f: nat) returns (found: bool, ibd: IblkData, ghost p: Place, ghost k: nat)
      requires Valid() && f < MaxBlocks(B)
      ensures GoodPlace(p, B) && BlockAt(p, B) == f
      ensures Bmapped(St(), p, found, ibd.block, ibd.index, ibd.nblocks, k, B) && ibd.missing == !found
      ensures ibd.missing ==> ibd.block == 0
    {
      ghost var st := St();
      p := ThePlace(f, B);
      k := 0;
      var level, g := IndirectionLevel(f);
      WalkStart(st, f, p, level, g, B);
      if level == 0 { return true, IblkData(false, 0, f, DIRECT_BLOCKS - f), p, 0; }
      var block := GetBlock(DIRECT_BLOCKS + level - 1);
      if block == 0 { return false, IblkData(true, 0, g, B - g), p, 0; }
      found, ibd, k := FollowTables(level, block, g, p);
    }

    /** The loop of _bmap(): from the block of the inode's slot down to the last table. */
    method FollowTables(level: nat, first: nat, position: nat, ghost p: Place)
      returns (found: bool, ibd: IblkData, ghost k: nat)
      requires Valid() && level == |p.path| && WalkedTo(St(), p, 0, first, position, B) && first != 0
      ensures Bmapped(St(), p, found, ibd.block, ibd.index, ibd.nblocks, k, B) && ibd.missing == !found
      ensures ibd.missing ==> ibd.block == 0
    {
      ghost var st := St();
      var block, g, ilevel := first, position, 0;
      while ilevel < level - 1
        invariant 0 <= ilevel <= level - 1 && block != 0
        invariant WalkedTo(st, p, ilevel, block, g, B)
      {
        var lc := Span(level - 1 - ilevel, B);
        WalkNext(st, p, ilevel, block, g, lc, B);
        var i := g / lc;
        g := g % lc;
        block := TableEntry(block, i);
        ilevel := ilevel + 1;
        if block == 0 {
          var index := g / lc;
          WalkMissing(st, p, ilevel, g, index, B - index, B);
          return false, IblkData(true, 0, index, B - index), ilevel;
        }
      }
      WalkEnd(st, p, block, g, B);
      return true, IblkData(false, block, g, B - g), ilevel;
    }

    // ----------------------------------------------- b_alloc(), alloc_dlevel(), alloc_ilevel(), wbmap()

    /** b_alloc(): some free block, or 0. */
    method BAlloc() returns (b: nat)
      requires Valid()
      modifies this`free
      ensures if old(free) == {} then b == 0 && free == old(free)
              else b in old(free) && free == old(free) - {b}
    {
      if free == {} { return 0; }
      b :| b in free;
      free := free - {b};
    }

    method AllocDlevel(index: nat) returns (b: nat)
      requires Valid() && index < ADDRESSES
      modifies this, iAddr
      ensures Valid()
      ensures Extended(old(St()), St(), Place(index, []), b, B)
    {
      ghost var st := St();
      ghost var p := Place(index, []);
      b := GetBlock(index);
      if b != 0 { return; }
      b := BAlloc();
      if b != 0 {
        blocks := blocks + 1;
        tables := tables[b := ZeroRow(B)];
        SmallFree(st, b);
        PutBlock(index, b);
        assert St() == Extend(st, p, b, B);
      }
      ExtendedIs(st, St(), p, b, B);
      SmallGrown(st, St(), B);
    }

    /** One step down the place p from the table block found after k steps. */
    method AllocIlevel(table: nat, index: nat, ghost st: FileState, ghost p: Place, ghost k: nat) returns (b: nat)
      requires Valid() && Along(st, St(), p, k, table, B) && k < |p.path| && index == p.path[k] && table != 0
      modifies this
      ensures Valid() && Along(st, St(), p, k + 1, b, B)
      ensures old(free) >= free
    {
      ghost var u := St();
      ghost var q := Prefix(p, k + 1);
      AlongParent(st, u, p, k, table, B);
      ParentTable(u, q, B);
      b := TableEntry(table, index);
      if b == 0 {
        b := BAlloc();
        if b != 0 {
          blocks := blocks + 1;
          tables := tables[table := Put(tables[table], index, b)][b := ZeroRow(B)];
          assert St() == Extend(u, q, b, B);
        }
      }
      ExtendedIs(u, St(), q, b, B);
      SmallGrown(u, St(), B);
      AlongNext(st, u, St(), p, k, table, b, B);
    }

    /** Two steps down, or fewer if no block is free. */
    method AllocTwo(table: nat, i: nat, j: nat, ghost st: FileState, ghost p: Place, ghost k0: nat)
      returns (b: nat, ghost k: nat)
      requires Valid() && Along(st, St(), p, k0, table, B) && table != 0
      requires k0 + 2 <= |p.path| && i == p.path[k0] && j == p.path[k0 + 1]
      modifies this
      ensures Valid() && Along(st, St(), p, k, b, B) && (k == k0 + 2 || b == 0)
    {
      b := AllocIlevel(table, i, st, p, k0);
      k := k0 + 1;
      if b != 0 {
        b := AllocIlevel(b, j, st, p, k0 + 1);
        k := k0 + 2;
      }
    }

    /** The block for the file block f, allocated with the tables above it where missing. */
    method Wbmap(f: nat) returns (b: nat)
      requires Valid() && f < WbmapBound(B)
      modifies this, iAddr
      ensures Valid() && Wrote(old(St()), St(), f, b, B)
    {
      ghost var st := St();
      BoundFits(B);
      var level, g := IndirectionLevel(f);
      ghost var p := WbmapPlace(f, level, g, B);
      b := AllocDlevel(if level == 0 then g else DIRECT_BLOCKS + level - 1);
      AlongStart(st, St(), p, b, B);
      ghost var k := 0;
      if level > 0 && b != 0 { b, k := AllocTables(level, b, g, st, p); }
      AlongEnd(st, St(), f, p, k, b, B);
    }

    /** The indirect levels of wbmap(), from the block of the inode's slot down. */
    method AllocTables(level: nat, first: nat, g: nat, ghost st: FileState, ghost p: Place)
      returns (b: nat, ghost k: nat)
      requires Valid() && Along(st, St(), p, 0, first, B) && first != 0 && 1 <= level <= 3 && |p.path| == level
      requires level == 1 ==> p.path[0] == g
      requires level == 2 ==> p.path[0] == g / B && p.path[1] == g % B
      requires level == 3 ==> B * B > 0 && p.path[0] == g / (B * B) && p.path[1] == g / B && p.path[2] == g % B
      modifies this
      ensures Valid() && Along(st, St(), p, k, b, B) && (k == level || b == 0)
    {
      if level == 1 {
        b := AllocIlevel(first, g, st, p, 0);
        k := 1;
      } else if level == 2 {
        b, k := AllocTwo(first, g / B, g % B, st, p, 0);
      } else {
        b := AllocIlevel(first, g / (B * B), st, p, 0);
        k := 1;
        if b != 0 { b, k := AllocTwo(b, g / B, g % B, st, p, 1); }
      }
    }

    // ----------------------------------------------- b_free(), free_*level*(), i_truncate()

    /** b_free(). */
    method BFree(b: nat)
      requires b !in free
      modifies this`free
      ensures free == old(free) + {b}
    {
      free := free + {b};
    }

    method FreeIlevel1(iblock: nat, start: nat) returns (whole: bool)
      requires Ready1(tables, iblock, free, B) && start < B
      modifies this`free, this`blocks, this`tables
      ensures whole == (start == 0)
      ensures free == old(free) + Freed1(old(tables), iblock, start)
      ensures blocks == old(blocks) - |Freed1(old(tables), iblock, start)|
      ensures tables == Tables1(old(tables), iblock, start, B)
    {
      OwnApart(tables[iblock], free, iblock, start, B);
      FreeEntries1(iblock, start);
      if start == 0 {
        BFree(iblock);
        blocks := blocks - 1;
      }
      whole := start == 0;
    }

    /** One entry of the table goes; it is cleared if the table stays. */
    method FreeEntry(iblock: nat, index: nat, block: nat, clear: bool)
      requires iblock in tables && index < |tables[iblock]| && block !in free
      modifies this`free, this`blocks, this`tables
      ensures free == old(free) + {block} && blocks == old(blocks) - 1
      ensures tables == if clear then old(tables)[iblock := Put(old(tables)[iblock], index, 0)] else old(tables)
    {
      if clear { tables := tables[iblock := Put(tables[iblock], index, 0)]; }
      BFree(block);
      blocks := blocks - 1;
    }

    /** The loop of free_ilevel1(). */
    method FreeEntries1(iblock: nat, start: nat)
      requires iblock in tables && |tables[iblock]| == B && start <= B && RowApart(tables[iblock], free)
      modifies this`free, this`blocks, this`tables
      ensures free == old(free) + RowBlocks(old(tables)[iblock], start, B)
      ensures blocks == old(blocks) - |RowBlocks(old(tables)[iblock], start, B)|
      ensures tables == Tables1(old(tables), iblock, start, B)
    {
      ghost var t, fr, n := tables, free, blocks;
      Tables1Start(t, iblock, start);
      var index := start;
      while index < B
        invariant start <= index <= B && Freeing1(t, fr, n, iblock, start, index, tables, free, blocks)
      {
        Freeing1Next(t, fr, n, iblock, start, index, tables, free, blocks);
        var block := TableEntry(iblock, index);
        if block != 0 { FreeEntry(iblock, index, block, start != 0); }
        index := index + 1;
      }
    }

    method FreeIlevel2(iblock: nat, start: nat, fblock: nat) returns (whole: bool)
      requires Hidden2(tables, iblock, free, B)
      modifies this`free, this`blocks, this`tables
      ensures iblock in old(tables) && |old(tables)[iblock]| == B
      ensures whole == (start == 0 && fblock % B == 0)
      ensures free == old(free) + Freed2(old(tables), iblock, start, fblock % B)
      ensures blocks == old(blocks) - |Freed2(old(tables), iblock, start, fblock % B)|
      ensures tables == Tables2(old(tables), iblock, start, fblock % B, B)
    {
      ghost var t := tables;
      var next := fblock % B;
      var partial := start != 0 || next != 0;
      Freed2Ready(t, iblock, start, next, free, B);
      ghost var fr, n := free, blocks;
      FreeEntries2(iblock, start, next, partial);
      assert Upto2(t, fr, n, iblock, start, next, B, tables, free, blocks);
      if !partial {
        BFree(iblock);
        blocks := blocks - 1;
      }
      whole := !partial;
    }

    /** The loop of free_ilevel2(). */
    method FreeEntries2(iblock: nat, start: nat, next: nat, partial: bool)
      requires Hidden2(tables, iblock, free, B) && next < B && partial == (start != 0 || next != 0)
      modifies this`free, this`blocks, this`tables
      ensures Done2(old(tables), old(free), old(blocks), iblock, start, next, B)
    {
      ghost var t, fr, n := tables, free, blocks;
      Done2Start(iblock, start, next);
      var index := start;
      while index < B
        invariant start <= index
        invariant Done2(t, fr, n, iblock, start, next, Min(index, B))
      {
        assert Min(index, B) == index;
        FreeEntry2(iblock, index, start, next, partial, t, fr, n);
        index := index + 1;
        assert Min(index, B) == index;
      }
      assert Min(index, B) == B;
    }

    lemma Done2Start(iblock: nat, start: nat, next: nat)
      requires Hidden2(tables, iblock, free, B)
      ensures Done2(tables, free, blocks, iblock, start, next, Min(start, B))
    {
      assert Tree(tables, iblock, 2, B);
      Tables2Start(tables, iblock, start, next);
      Tables2None(tables, iblock, start, next, B);
      assert Upto2(tables, free, blocks, iblock, start, next, Min(start, B), tables, free, blocks);
    }

    /** free_ilevel2() has dealt with the entries below hi. */
    ghost predicate Done2(t: Tables, fr: set<nat>, n: int, iblock: nat, start: nat, next: nat, hi: nat)
      reads this
    {
      Dealt2(t, fr, n, iblock, start, next, hi, tables, free, blocks)
    }

    /** The body of the loop of free_ilevel2(). */
    method FreeEntry2(iblock: nat, index: nat, start: nat, next: nat, partial: bool,
                      ghost t: Tables, ghost fr: set<nat>, ghost n: int)
      requires Hidden2(t, iblock, fr, B)
      requires start <= index < B && next < B && partial == (start != 0 || next != 0)
      requires Done2(t, fr, n, iblock, start, next, index)
      modifies this`free, this`blocks, this`tables
      ensures Done2(t, fr, n, iblock, start, next, index + 1)
    {
      EntryThere2(t, iblock, start, next, index, fr, n, tables, free, blocks, B);
      var block := TableEntry(iblock, index);
      if block != 0 {
        var k := if index == start then next else 0;
        Next2(t, iblock, start, next, index, fr, n, tables, free, blocks, k, partial, B);
        tables := if partial then tables[iblock := Put(tables[iblock], index, 0)] else tables;
        var _ := FreeIlevel1(block, k);
      }
    }

    method FreeIlevel3(iblock: nat, start: nat, fblock: nat) returns (whole: bool, ghost F: set<nat>)
      requires Hidden3(tables, iblock, free, B)
      modifies this`free, this`blocks, this`tables
      ensures whole == (start == 0 && fblock == 0)
      ensures Freed3(old(tables), tables, F, iblock, whole)
      ensures iblock in old(tables) && F == FreedBy3(old(tables), iblock, start, fblock, B)
      ensures free == old(free) + F && blocks == old(blocks) - |F|
    {
      ghost var t, fr := tables, free;
      var partial := start != 0 || fblock % B != 0 || fblock / B != 0;
      assert partial == (start != 0 || fblock != 0) by { SplitsToZero(fblock, B); }
      F := FreeEntries3(iblock, start, fblock, partial);
      Freed3Is(t, tables, F, iblock, start, partial, fr, B);
      if !partial {
        BFree(iblock);
        blocks := blocks - 1;
        F := F + {iblock};
      }
      whole := !partial;
    }

    /** The loop of free_ilevel3(). */
    method FreeEntries3(iblock: nat, start: nat, fblock: nat, partial: bool) returns (ghost F: set<nat>)
      requires Hidden3(tables, iblock, free, B) && partial == (start != 0 || fblock != 0)
      modifies this`free, this`blocks, this`tables
      ensures Done3(old(tables), tables, F, iblock, start, partial, B, B)
      ensures iblock in old(tables)
      ensures FreedBy3(old(tables), iblock, start, fblock, B) == F + if start == 0 && fblock == 0 then {iblock} else {}
      ensures free == old(free) + F && blocks == old(blocks) - |F|
    {
      ghost var t, fr, n := tables, free, blocks;
      var next := fblock / B;
      F := {};
      Done3Start(t, iblock, start, partial, fr, Min(start, B), B);
      EntryThere3(t, t, {}, iblock, start, partial, Min(start, B), B);
      SoFarStart(t, iblock, start, next, fblock % B, Min(start, B));
      var index := start;
      while index < B
        invariant start <= index && free == fr + F && blocks == n - |F|
        invariant Done3(t, tables, F, iblock, start, partial, Min(index, B), B)
        invariant SoFar3(t, F, iblock, start, next, fblock % B, Min(index, B))
      {
        assert Min(index, B) == index;
        F := FreeEntry3(iblock, index, start, next, fblock, partial, t, fr, n, F);
        index := index + 1;
        assert Min(index, B) == index;
      }
      assert Min(index, B) == B;
      SoFarEnd(t, F, iblock, start, fblock, B);
    }

    /** The body of the loop of free_ilevel3(). */
    method FreeEntry3(iblock: nat, index: nat, start: nat, next: nat, fblock: nat, partial: bool,
                      ghost t: Tables, ghost fr: set<nat>, ghost n: int, ghost F: set<nat>) returns (ghost G: set<nat>)
      requires Hidden3(t, iblock, fr, B) && start <= index < B && next == fblock / B
      requires free == fr + F && blocks == n - |F|
      requires partial == (start != 0 || fblock != 0)
      requires Done3(t, tables, F, iblock, start, partial, index, B)
      requires SoFar3(t, F, iblock, start, next, fblock % B, index)
      modifies this`free, this`blocks, this`tables
      ensures Done3(t, tables, G, iblock, start, partial, index + 1, B)
      ensures SoFar3(t, G, iblock, start, next, fblock % B, index + 1)
      ensures free == fr + G && blocks == n - |G|
    {
      EntryThere3(t, tables, F, iblock, start, partial, index, B);
      var block := TableEntry(iblock, index);
      SoFarNext(t, F, iblock, start, next, fblock % B, index);
      if block == 0 {
        assert F + {} == F;
        Hole3(t, tables, F, iblock, start, partial, index, B);
        G := F;
      } else {
        ghost var u := tables;
        var s := if index == start then next else 0;
        ghost var w := if partial then tables[iblock := Put(tables[iblock], index, 0)] else tables;
        Step3(t, u, F, iblock, start, partial, index, fr, B, w, s, fblock % B);
        if partial { tables := tables[iblock := Put(tables[iblock], index, 0)]; }
        assert tables == w && free == fr + F;
        var _ := FreeIlevel2(block, s, fblock);
        G := F + Freed2(w, block, s, fblock % B);
      }
    }

    method FreeDlevel(fblock: nat)
      requires Bytes(iAddr[..]) && fblock <= DIRECT_BLOCKS && RowApart(St().addr[..DIRECT_BLOCKS], free)
      modifies this, iAddr
      ensures Bytes(iAddr[..]) && St() == DirectDone(old(St()), fblock, DIRECT_BLOCKS)
    {
      ghost var st := St();
      CutRowNone(st.addr, fblock);
      var b := fblock;
      while b < DIRECT_BLOCKS
        invariant fblock <= b <= DIRECT_BLOCKS && Bytes(iAddr[..])
        invariant St() == DirectDone(st, fblock, b)
      {
        DirectNext(st, fblock, b);
        var block := GetBlock(b);
        if block != 0 {
          BFree(block);
          blocks := blocks - 1;
          PutBlock(b, 0);
        }
        b := b + 1;
      }
    }

    /** The body of the loop of i_truncate(). */
    method TruncateLevel(l: nat, fblock: nat) returns (ghost F: set<nat>)
      requires Bytes(iAddr[..]) && LevelReady(St(), l, B) && l <= 3
      requires (l == 0 ==> fblock <= DIRECT_BLOCKS) && (l == 1 ==> fblock < B)
      modifies this, iAddr
      ensures Bytes(iAddr[..]) && CutLevel(old(St()), St(), F, l, fblock, B)
    {
      ghost var u := St();
      if l == 0 {
        FreeDlevel(fblock);
        F := RowBlocks(u.addr, fblock, DIRECT_BLOCKS);
        DirectCut(u, fblock, B);
        return;
      }
      var block := GetBlock(DIRECT_BLOCKS + l - 1);
      if block == 0 {
        HoleCut(u, l, fblock, B);
        F := {};
      } else if l == 1 {
        F := TruncateSingle(block, fblock);
      } else if l == 2 {
        F := TruncateDouble(block, fblock);
      } else {
        F := TruncateTriple(block, fblock);
      }
    }

    method TruncateSingle(block: nat, fblock: nat) returns (ghost F: set<nat>)
      requires Bytes(iAddr[..]) && LevelReady(St(), 1, B) && fblock < B
      requires block == St().addr[SINGLE_INDIRECT_BLOCK] != 0
      modifies this, iAddr
      ensures Bytes(iAddr[..]) && CutLevel(old(St()), St(), F, 1, fblock, B)
    {
      ghost var u := St();
      SingleReady(u, fblock, B);
      F := Freed1(tables, block, fblock);
      var whole := FreeIlevel1(block, fblock % B);
      if whole { PutBlock(SINGLE_INDIRECT_BLOCK, 0); }
      SingleCut(u, St(), fblock, B);
    }

    method TruncateDouble(block: nat, fblock: nat) returns (ghost F: set<nat>)
      requires Bytes(iAddr[..]) && LevelReady(St(), 2, B)
      requires block == St().addr[DOUBLE_INDIRECT_BLOCK] != 0
      modifies this, iAddr
      ensures Bytes(iAddr[..]) && CutLevel(old(St()), St(), F, 2, fblock, B)
    {
      ghost var u := St();
      DoubleReady(u, B);
      F := Freed2(tables, block, fblock / B, fblock % B);
      var whole := FreeIlevel2(block, fblock / B, fblock);
      if whole { PutBlock(DOUBLE_INDIRECT_BLOCK, 0); }
      DoubleCut(u, St(), F, fblock, B);
    }

    method TruncateTriple(block: nat, fblock: nat) returns (ghost F: set<nat>)
      requires Bytes(iAddr[..]) && LevelReady(St(), 3, B)
      requires block == St().addr[TRIPLE_INDIRECT_BLOCK] != 0
      modifies this, iAddr
      ensures Bytes(iAddr[..]) && CutLevel(old(St()), St(), F, 3, fblock, B)
    {
      ghost var u := St();
      TripleReady(u, fblock, B);
      var whole;
      whole, F := FreeIlevel3(block, fblock / (B * B), fblock);
      PutBlock(TRIPLE_INDIRECT_BLOCK, 0);
      TripleCut(u, St(), F, fblock, B);
    }

    /** i_truncate(), for a new size that ends at the file block cut: exactly the blocks past the
        cut are released, and everything before it keeps its place, if and only if the guard
        holds; without it a block is lost. Whatever is freed is taken off i_blocks in any case. */
    method ITruncate(cut: nat)
      requires Valid()
      modifies this, iAddr
      ensures Bytes(iAddr[..]) && Truncated(old(St()), St(), cut, B)
      ensures TruncGuard(old(St()), cut, B) ==> Valid()
    {
      ghost var st := St();
      var level, fblock := IndirectionLevel(cut);
      ghost var g, F := fblock, {};
      ProgressStart(st, level, g, B);
      var l := level;
      while l < 4
        invariant level <= l <= 4 && Bytes(iAddr[..])
        invariant fblock == if l == level then g else 0
        invariant InProgress(st, St(), F, l, level, g, B)
        invariant l == level ==> St() == st && F == {}
      {
        ghost var u := St();
        ProgressReady(st, u, F, l, level, g, B);
        ghost var G := TruncateLevel(l, fblock);
        ProgressStep(st, u, F, St(), G, l, level, g, B);
        F := F + G;
        fblock, l := 0, l + 1;
      }
      FinishedIsTruncated(st, St(), F, cut, level, g, B);
      if TruncGuard(st, cut, B) { SmallCut(st, St(), cut, B); }
    }
  }
}
