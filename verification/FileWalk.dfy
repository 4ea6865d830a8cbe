/** The walk of regular_read() from extent to extent, and when it takes the blocks of the file. */
module FileWalk {
  import opened Basics

  /** A file as _bmap() reports it: the disk block of every file block (0 for a hole), the number
      of blocks in the extent reported at each, and whether the tables on the way are there. */
  datatype Report = Report(blocks: seq<nat>, extents: seq<int>, found: seq<bool>)

  predicate Shape(r: Report) {
    |r.blocks| == |r.extents| == |r.found|
  }

  /** The disk block taken for block f + i when the extent at f is reported. */
  function TakenAt(r: Report, f: nat, i: nat): nat
    requires Shape(r) && f + i < |r.blocks|
  {
    if r.found[f] then r.blocks[f + i] else 0
  }

  /** Every extent that a walk from f over n file blocks comes to has a block, so the walk ends. */
  predicate Advances(r: Report, f: nat, n: nat)
    requires Shape(r)
    decreases n
  {
    n == 0 || (f < |r.blocks| && r.extents[f] > 0 &&
      (n <= r.extents[f] || Advances(r, f + r.extents[f], n - r.extents[f])))
  }

  /** The blocks from f on, m of them, are those taken from the extent at f. */
  predicate Taken(r: Report, blocks: seq<nat>, f: nat, m: nat)
    requires Shape(r)
  {
    && |blocks| == |r.blocks| && f + m <= |blocks|
    && forall g :: f <= g < f + m ==> blocks[g] == TakenAt(r, f, g - f)
  }

  /** The walk from f over n file blocks ends, and blocks[f..f + n] are the disk blocks it takes. */
  predicate Walks(r: Report, blocks: seq<nat>, f: nat, n: nat)
    requires Shape(r)
    decreases n
  {
    n == 0 || (f < |r.blocks| && r.extents[f] > 0 && Taken(r, blocks, f, Min(n, r.extents[f])) &&
      (n <= r.extents[f] || Walks(r, blocks, f + r.extents[f], n - r.extents[f])))
  }

  /** The same, unfolded only where it is used. */
  ghost predicate WalksAll(r: Report, blocks: seq<nat>, f: nat, n: nat)
    requires Shape(r)
  {
    forall k: nat :: k == n ==> Walks(r, blocks, f, k)
  }

  /** The blocks are those of the file, or 0. */
  predicate PartOf(r: Report, blocks: seq<nat>) {
    |blocks| == |r.blocks| && forall g :: 0 <= g < |blocks| ==> blocks[g] == 0 || blocks[g] == r.blocks[g]
  }

  /** Where the walk meets a missing table, the blocks it takes for holes are holes. */
  predicate HolesAreHoles(r: Report, f: nat, n: nat)
    requires Shape(r) && Advances(r, f, n) && f + n <= |r.blocks|
    decreases n
  {
    n == 0 ||
      (var m := r.extents[f];
       && (r.found[f] || forall g :: f <= g < f + Min(n, m) ==> r.blocks[g] == 0)
       && (n <= m || HolesAreHoles(r, f + m, n - m)))
  }

  /** Block g once those of the extent at f have been put in their place. */
  function TakenOr(r: Report, rest: seq<nat>, f: nat, m: nat, g: nat): nat
    requires Shape(r) && |rest| == |r.blocks| && f + m <= |rest| && g < |rest|
  {
    if f <= g < f + m then TakenAt(r, f, g - f) else rest[g]
  }

  /** The disk blocks a walk takes, and those of the file elsewhere. */
  function WalkedBlocks(r: Report, f: nat, n: nat): (blocks: seq<nat>)
    requires Shape(r) && Advances(r, f, n) && f + n <= |r.blocks|
    ensures PartOf(r, blocks)
    ensures forall g :: 0 <= g < |blocks| && !(f <= g < f + n) ==> blocks[g] == r.blocks[g]
    decreases n
  {
    if n == 0 then r.blocks
    else
      var m := r.extents[f];
      var rest := if n <= m then r.blocks else WalkedBlocks(r, f + m, n - m);
      seq(|r.blocks|, g requires 0 <= g < |r.blocks| => TakenOr(r, rest, f, Min(n, m), g))
  }

  lemma {:induction false} WalksFrame(r: Report, blocks: seq<nat>, other: seq<nat>, f: nat, n: nat)
    requires Shape(r) && WalksAll(r, blocks, f, n) && |other| == |blocks|
    requires forall g :: f <= g < f + n && g < |blocks| ==> other[g] == blocks[g]
    ensures WalksAll(r, other, f, n)
    decreases n
  {
    assert Walks(r, blocks, f, n);
    if n > 0 {
      var m := r.extents[f];
      if n > m { WalksFrame(r, blocks, other, f + m, n - m); }
    }
  }

  /** Every walk that ends takes some blocks. */
  lemma {:induction false} WalkedIsWalk(r: Report, f: nat, n: nat)
    requires Shape(r) && Advances(r, f, n) && f + n <= |r.blocks|
    ensures WalksAll(r, WalkedBlocks(r, f, n), f, n)
    decreases n
  {
    if n > 0 {
      var m := r.extents[f];
      var rest := if n <= m then r.blocks else WalkedBlocks(r, f + m, n - m);
      forall g | 0 <= g < |r.blocks| ensures WalkedBlocks(r, f, n)[g] == TakenOr(r, rest, f, Min(n, m), g) {}
      if n > m {
        WalkedIsWalk(r, f + m, n - m);
        WalksFrame(r, WalkedBlocks(r, f + m, n - m), WalkedBlocks(r, f, n), f + m, n - m);
        assert Walks(r, WalkedBlocks(r, f, n), f + m, n - m);
      }
    }
  }

  /** A walk that ends takes the blocks of the file if and only if what it takes for holes are
      holes. */
  lemma {:induction false} WalkIsFileIff(r: Report, blocks: seq<nat>, f: nat, n: nat)
    requires Shape(r) && WalksAll(r, blocks, f, n) && f + n <= |r.blocks| == |blocks|
    ensures Advances(r, f, n)
    ensures (forall g :: f <= g < f + n ==> blocks[g] == r.blocks[g]) <==> HolesAreHoles(r, f, n)
    decreases n
  {
    assert Walks(r, blocks, f, n);
    if n > 0 {
      var m := r.extents[f];
      if n > m { WalkIsFileIff(r, blocks, f + m, n - m); }
    }
  }

  /** So it does when every table on the way is there. */
  lemma {:induction false} TablesThere(r: Report, f: nat, n: nat)
    requires Shape(r) && f + n <= |r.blocks|
    requires forall g :: f <= g < f + n ==> r.found[g] && r.extents[g] > 0
    ensures Advances(r, f, n) && HolesAreHoles(r, f, n)
    decreases n
  {
    if n > 0 {
      var m := r.extents[f];
      if n > m { TablesThere(r, f + m, n - m); }
    }
  }
}
