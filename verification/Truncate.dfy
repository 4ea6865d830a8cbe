/** What truncating a file should do, and what the recursive frees of fs/inode.c do. */
module Truncate {
  import opened Arith
  import opened BlockMap
  import opened InodeMap

  // ------------------------------------------------- the blocks past a boundary

  function Rest(c: nat, s: nat): nat {
    if c <= s then 0 else c - s
  }

  /** The blocks of a tree whose first file block is at or past position c. */
  ghost function Past(t: Tables, b: nat, d: nat, c: nat, B: nat): set<nat>
    requires d <= 3
    decreases d, 2
  {
    if b == 0 || ((d == 0 || b !in t) && c > 0) then {}
    else if d == 0 || b !in t then {b}
    else (if c == 0 then {b} else {}) + PastKids(t, t[b], d - 1, c, B)
  }

  ghost function PastKids(t: Tables, row: seq<nat>, d: nat, c: nat, B: nat): set<nat>
    requires d <= 2
    decreases d, 4
  {
    set i, x | 0 <= i < |row| && x in PastKid(t, row, i, d, c, B) :: x
  }

  /** Entry i of a table covers the positions from i * Span(d) on. */
  ghost function PastKid(t: Tables, row: seq<nat>, i: nat, d: nat, c: nat, B: nat): set<nat>
    requires i < |row| && d <= 2
    decreases d, 3
  {
    Past(t, row[i], d, KidCut(c, i, d, B), B)
  }

  function KidCut(c: nat, i: nat, d: nat, B: nat): nat {
    Rest(c, i * Span(d, B))
  }

  /** The first file block below an address slot. */
  function RootStart(r: nat, B: nat): nat {
    if r <= DIRECT_BLOCKS then r
    else if r == DOUBLE_INDIRECT_BLOCK then DIRECT_BLOCKS + B
    else DIRECT_BLOCKS + B + B * B
  }

  ghost function RootPast(st: FileState, r: nat, cut: nat, B: nat): set<nat>
    requires r < |st.addr| <= ADDRESSES
  {
    Past(st.tables, st.addr[r], Depth(r), Rest(cut, RootStart(r, B)), B)
  }

  /** All blocks of the file that truncation at the file block cut is to release: the data
      blocks from cut on and the tables all of whose file blocks are. */
  ghost function FilePast(st: FileState, cut: nat, B: nat): set<nat>
    requires |st.addr| == ADDRESSES
  {
    set r, x | 0 <= r < ADDRESSES && x in RootPast(st, r, cut, B) :: x
  }

  /** Truncation from st to u is exact. */
  ghost predicate Exact(st: FileState, u: FileState, cut: nat, B: nat)
    requires ValidFile(st, B)
  {
    && ValidFile(u, B)
    && u.free == st.free + FilePast(st, cut, B)
    && FileNodes(u) == FileNodes(st) - FilePast(st, cut, B)
    && forall f: nat :: f < MaxBlocks(B) ==> MapOf(u, f, B) == if f < cut then MapOf(st, f, B) else 0
  }

  lemma {:induction false} PastZero(t: Tables, b: nat, d: nat, B: nat)
    requires d <= 3
    ensures Past(t, b, d, 0, B) == Nodes(t, b, d)
    decreases d
  {
    if b != 0 && d > 0 && b in t {
      forall i | 0 <= i < |t[b]| ensures PastKid(t, t[b], i, d - 1, 0, B) == Nodes(t, t[b][i], d - 1) {
        PastZero(t, t[b][i], d - 1, B);
      }
      assert PastKids(t, t[b], d - 1, 0, B) == KidNodes(t, t[b], d - 1);
    }
  }

  lemma PastBeyond(t: Tables, b: nat, c: nat, B: nat)
    requires Tree(t, b, 1, B) && c >= B > 0
    ensures Past(t, b, 1, c, B) == {}
  {
  }

  /** The table with the entries from start up to end cleared. */
  function CutRow(row: seq<nat>, start: nat, end: nat): (r: seq<nat>)
    ensures |r| == |row|
    ensures forall j :: 0 <= j < |row| ==> r[j] == if start <= j < end then 0 else row[j]
  {
    seq(|row|, j requires 0 <= j < |row| => if start <= j < end then 0 else row[j])
  }

  function Cleared(row: seq<nat>, start: nat): (r: seq<nat>)
    ensures |r| == |row|
    ensures forall j :: 0 <= j < |row| ==> r[j] == if j < start then row[j] else 0
  {
    CutRow(row, start, |row|)
  }

  lemma KidSplit(t: Tables, row: seq<nat>, d: nat, s: nat)
    requires s <= |row|
    ensures KidNodes(t, row, d) == KidNodes(t, row[..s], d) + KidNodes(t, row[s..], d)
  {
    var all, lo, hi := KidNodes(t, row, d), KidNodes(t, row[..s], d), KidNodes(t, row[s..], d);
    forall x | x in all ensures x in lo + hi {
      var i :| 0 <= i < |row| && x in Nodes(t, row[i], d);
      if i < s { assert row[..s][i] == row[i]; KidIn(t, row[..s], d, i); }
      else { assert row[s..][i - s] == row[i]; KidIn(t, row[s..], d, i - s); }
    }
    forall x | x in lo ensures x in all {
      var i :| 0 <= i < |row[..s]| && x in Nodes(t, row[..s][i], d);
      KidIn(t, row, d, i);
    }
    forall x | x in hi ensures x in all {
      var i :| 0 <= i < |row[s..]| && x in Nodes(t, row[s..][i], d);
      KidIn(t, row, d, s + i);
    }
  }

  lemma KidDisjoint(t: Tables, row: seq<nat>, d: nat, s: nat, B: nat)
    requires s <= |row| && Forest(t, row, d, B)
    ensures KidNodes(t, row[..s], d) !! KidNodes(t, row[s..], d)
  {
  }

  lemma KidZero(t: Tables, row: seq<nat>, d: nat)
    requires forall i :: 0 <= i < |row| ==> row[i] == 0
    ensures KidNodes(t, row, d) == {}
  {
  }

  lemma ClearedKids(t: Tables, u: Tables, b: nat, d: nat, start: nat, B: nat)
    requires Tree(t, b, d, B) && b != 0 && d > 0 && start <= B
    requires b in t && |t[b]| == B && u == t[b := Cleared(t[b], start)]
    ensures forall j :: 0 <= j < start ==>
      Nodes(u, t[b][j], d - 1) == Nodes(t, t[b][j], d - 1) && Tree(u, t[b][j], d - 1, B)
  {
    forall j | 0 <= j < start
      ensures Nodes(u, t[b][j], d - 1) == Nodes(t, t[b][j], d - 1) && Tree(u, t[b][j], d - 1, B)
    {
      Kid(t, b, d, j, B);
      KidRows(t, u, b, d, j, {b});
      NodesFrame(t, u, t[b][j], d - 1);
      TreeFrame(t, u, t[b][j], d - 1, B);
    }
  }

  lemma ClearedForest(t: Tables, u: Tables, b: nat, d: nat, start: nat, B: nat)
    requires Tree(t, b, d, B) && b != 0 && d > 0 && start <= B
    requires b in t && |t[b]| == B && u == t[b := Cleared(t[b], start)]
    ensures Forest(u, u[b], d - 1, B)
    ensures KidNodes(u, u[b], d - 1) == KidNodes(t, t[b][..start], d - 1)
  {
    ClearedKids(t, u, b, d, start, B);
    KidSplit(u, u[b], d - 1, start);
    KidZero(u, u[b][start..], d - 1);
    SameKids(t, u, t[b][..start], u[b][..start], d - 1);
    forall i, j | 0 <= i < j < B ensures Nodes(u, u[b][i], d - 1) !! Nodes(u, u[b][j], d - 1) {
      if j < start { Kid(t, b, d, i, B); }
    }
  }

  /** Clearing entries takes their trees off. */
  lemma ClearedTree(t: Tables, u: Tables, b: nat, d: nat, start: nat, B: nat)
    requires Tree(t, b, d, B) && b != 0 && d > 0 && start <= B
    requires b in t && |t[b]| == B && u == t[b := Cleared(t[b], start)]
    ensures Tree(u, b, d, B)
    ensures Nodes(u, b, d) == Nodes(t, b, d) - KidNodes(t, t[b][start..], d - 1)
  {
    var all, lo, hi := KidNodes(t, t[b], d - 1), KidNodes(t, t[b][..start], d - 1), KidNodes(t, t[b][start..], d - 1);
    assert b !in all && Nodes(t, b, d) == {b} + all;
    assert all == lo + hi by { KidSplit(t, t[b], d - 1, start); }
    assert lo !! hi by { KidDisjoint(t, t[b], d - 1, start, B); }
    assert Forest(u, u[b], d - 1, B) && KidNodes(u, u[b], d - 1) == lo by { ClearedForest(t, u, b, d, start, B); }
    assert Nodes(u, b, d) == {b} + lo;
    TakeOff(b, KidNodes(t, t[b][..start], d - 1), KidNodes(t, t[b][start..], d - 1));
  }

  lemma TakeOff<T>(b: T, lo: set<T>, hi: set<T>)
    requires b !in lo + hi && lo !! hi
    ensures {b} + lo == {b} + (lo + hi) - hi
  {
  }

  lemma SameKids(t: Tables, u: Tables, row: seq<nat>, sow: seq<nat>, d: nat)
    requires |row| == |sow| && forall j :: 0 <= j < |row| ==> Nodes(u, sow[j], d) == Nodes(t, row[j], d)
    ensures KidNodes(u, sow, d) == KidNodes(t, row, d)
  {
  }

  lemma ClearedLook(t: Tables, u: Tables, b: nat, d: nat, start: nat, B: nat, q: seq<nat>)
    requires Tree(t, b, d, B) && b != 0 && 0 < |q| <= d && start <= B && q[0] < B
    requires b in t && |t[b]| == B && u == t[b := Cleared(t[b], start)]
    ensures Look(u, b, q) == if q[0] < start then Look(t, b, q) else 0
  {
    if q[0] < start {
      Kid(t, b, d, q[0], B);
      KidRows(t, u, b, d, q[0], {b});
      LookFrame(t, u, t[b][q[0]], d - 1, q[1..]);
    }
  }

  // ------------------------------------------------- what the code frees

  /** The data blocks in the entries from lo up to hi. */
  function RowBlocks(row: seq<nat>, lo: nat, hi: nat): set<nat>
    requires hi <= |row|
  {
    if hi <= lo then {}
    else if row[hi - 1] == 0 then RowBlocks(row, lo, hi - 1)
    else RowBlocks(row, lo, hi - 1) + {row[hi - 1]}
  }

  /** free_ilevel1(): the entries from start on, and the table itself if start is 0. */
  ghost function Freed1(t: Tables, b: nat, start: nat): set<nat>
    requires b in t
  {
    RowBlocks(t[b], start, |t[b]|) + (if start == 0 then {b} else {})
  }

  /** The part of free_ilevel2() that deals with entry j. */
  ghost function Part(t: Tables, row: seq<nat>, j: nat, start: nat, next: nat): set<nat>
    requires j < |row|
  {
    if j == start && row[j] in t && 0 < next <= |t[row[j]]| && row[j] != 0 then Freed1(t, row[j], next)
    else Nodes(t, row[j], 1)
  }

  ghost function Parts(t: Tables, row: seq<nat>, start: nat, next: nat, hi: nat): set<nat>
    requires hi <= |row|
  {
    if hi <= start then {} else Parts(t, row, start, next, hi - 1) + Part(t, row, hi - 1, start, next)
  }

  lemma {:induction false} PartsAre(t: Tables, row: seq<nat>, start: nat, next: nat, hi: nat, x: nat)
    requires hi <= |row|
    ensures x in Parts(t, row, start, next, hi) <==> exists j :: start <= j < hi && x in Part(t, row, j, start, next)
  {
    if hi > start { PartsAre(t, row, start, next, hi - 1, x); }
  }

  /** free_ilevel2() with start and next: entry start is cut at next, the later ones go, and the
      table goes if both are 0. */
  ghost function Freed2(t: Tables, b: nat, start: nat, next: nat): set<nat>
    requires b in t
  {
    Parts(t, t[b], start, next, |t[b]|) + (if start == 0 && next == 0 then {b} else {})
  }

  /** A cut in the double indirect range that free_ilevel2() gets right: it does not fall inside
      a table that is there. */
  predicate Aligned(t: Tables, b: nat, c: nat, B: nat)
    requires B > 0
  {
    c % B == 0 || b !in t || c / B >= |t[b]| || t[b][c / B] == 0
  }

  lemma PastRow(t: Tables, b: nat, c: nat, B: nat)
    requires Tree(t, b, 1, B) && b != 0 && 0 < c < B
    ensures b in t && |t[b]| == B && Past(t, b, 1, c, B) == KidNodes(t, t[b][c..], 0)
  {
    var row := t[b];
    forall i | 0 <= i < B ensures PastKid(t, row, i, 0, c, B) == if i < c then {} else Nodes(t, row[i], 0) {}
    var past, kids := PastKids(t, row, 0, c, B), KidNodes(t, row[c..], 0);
    assert Past(t, b, 1, c, B) == past;
    forall x | x in kids ensures x in past {
      var i :| 0 <= i < |row[c..]| && x in Nodes(t, row[c..][i], 0);
      assert x in PastKid(t, row, c + i, 0, c, B);
    }
    forall x | x in past ensures x in kids {
      var i :| 0 <= i < |row| && x in PastKid(t, row, i, 0, c, B);
      assert row[c..][i - c] == row[i];
      KidIn(t, row[c..], 0, i - c);
    }
  }

  lemma Freed1IsPast(t: Tables, b: nat, c: nat, B: nat)
    requires Tree(t, b, 1, B) && b != 0 && c < B
    ensures b in t && |t[b]| == B && Freed1(t, b, c) == Past(t, b, 1, c, B)
  {
    Freed1Nodes(t, b, c);
    if c == 0 { PastZero(t, b, 1, B); } else { PastRow(t, b, c, B); }
  }

  /** An entry of the double indirect table is wholly before the cut, holds it, or is past it. */
  lemma RestOfKid(c: nat, i: nat, B: nat)
    requires B > 0
    ensures i < c / B ==> Rest(c, i * B) >= B
    ensures i > c / B ==> Rest(c, i * B) == 0
    ensures i == c / B ==> Rest(c, i * B) == c % B
  {
    assert c == c / B * B + c % B;
    if i < c / B { MulMono(i + 1, c / B, B); assert (i + 1) * B == i * B + B; }
    if i > c / B { MulMono(c / B + 1, i, B); assert (c / B + 1) * B == c / B * B + B; }
  }

  lemma PastKid2(t: Tables, b: nat, c: nat, i: nat, B: nat)
    requires Tree(t, b, 2, B) && b != 0 && B > 0 && i < B && Aligned(t, b, c, B)
    ensures b in t && |t[b]| == B
    ensures PastKid(t, t[b], i, 1, c, B) == if i < c / B then {} else Part(t, t[b], i, c / B, c % B)
  {
    Kid(t, b, 2, i, B);
    RestOfKid(c, i, B);
    if i < c / B {
      PastBeyond(t, t[b][i], Rest(c, i * B), B);
    } else if Rest(c, i * B) == 0 {
      PastZero(t, t[b][i], 1, B);
    }
  }

  lemma Freed2IsPast(t: Tables, b: nat, c: nat, B: nat)
    requires Tree(t, b, 2, B) && b != 0 && B > 0 && c < B * B && Aligned(t, b, c, B)
    ensures b in t && |t[b]| == B
    ensures Freed2(t, b, c / B, c % B) == Past(t, b, 2, c, B)
  {
    assert b in t && |t[b]| == B;
    var start: nat, next: nat := c / B, c % B;
    assert c == 0 <==> start == 0 && next == 0 by { assert c == c / B * B + c % B; }
    assert PastKids(t, t[b], 1, c, B) == Parts(t, t[b], start, next, B) by { PartsPast(t, b, c, B); }
    TableApart(t, b, c, start, next, B);
  }

  lemma TableApart(t: Tables, b: nat, c: nat, start: nat, next: nat, B: nat)
    requires b in t && b != 0 && |t[b]| == B && (c == 0 <==> start == 0 && next == 0)
    requires PastKids(t, t[b], 1, c, B) == Parts(t, t[b], start, next, B)
    ensures Freed2(t, b, start, next) == Past(t, b, 2, c, B)
  {
  }

  lemma PartsPast(t: Tables, b: nat, c: nat, B: nat)
    requires Tree(t, b, 2, B) && b != 0 && B > 0 && Aligned(t, b, c, B) && b in t && |t[b]| == B
    ensures PastKids(t, t[b], 1, c, B) == Parts(t, t[b], c / B, c % B, B)
  {
    var row := t[b];
    var kids, parts := PastKids(t, row, 1, c, B), Parts(t, row, c / B, c % B, B);
    forall x | x in kids ensures x in parts {
      var i :| 0 <= i < |row| && x in PastKid(t, row, i, 1, c, B);
      PastKid2(t, b, c, i, B);
      PartsAre(t, row, c / B, c % B, B, x);
    }
    forall x | x in parts ensures x in kids {
      PartsAre(t, row, c / B, c % B, B, x);
      var i :| c / B <= i < B && x in Part(t, row, i, c / B, c % B);
      PastKid2(t, b, c, i, B);
      assert x in PastKid(t, row, i, 1, c, B);
    }
  }

  /** The tables once free_ilevel2() has dealt with the entries below hi. */
  function Tables2(t: Tables, b: nat, start: nat, next: nat, hi: nat): Tables
    requires b in t
  {
    if start == 0 && next == 0 then t
    else
      var u := t[b := CutRow(t[b], start, hi)];
      if start < hi && start < |t[b]| && next > 0 && t[b][start] != 0 && t[b][start] in t
      then u[t[b][start] := Cleared(t[t[b][start]], next)]
      else u
  }

  // ------------------------------------------------- one address slot

  /** The position of a place below its slot. */
  function Position(p: Place, B: nat): nat {
    if p.path == [] then 0 else Value(p.path, B)
  }

  /** The slot r has been cut exactly at position c: freed holds its blocks past c, u holds the
      others and their mapping. */
  ghost predicate RootDone(st: FileState, u: FileState, freed: set<nat>, r: nat, c: nat, B: nat)
    requires |st.addr| == |u.addr| == ADDRESSES && r < ADDRESSES
  {
    var past := Past(st.tables, st.addr[r], Depth(r), c, B);
    && Tree(u.tables, u.addr[r], Depth(r), B)
    && past <= RootNodes(st, r) && freed * RootNodes(st, r) == past
    && RootNodes(u, r) == RootNodes(st, r) - past
    && KeepsBelow(st, u, r, c, B)
  }

  ghost predicate KeepsBelow(st: FileState, u: FileState, r: nat, c: nat, B: nat)
    requires |st.addr| == |u.addr| == ADDRESSES && r < ADDRESSES
  {
    forall q: Place :: GoodPlace(q, B) && q.root == r ==>
      BlockOf(u, q) == if Position(q, B) < c then BlockOf(st, q) else 0
  }

  lemma DoneWhole(st: FileState, u: FileState, freed: set<nat>, r: nat, B: nat)
    requires |st.addr| == |u.addr| == ADDRESSES && r < ADDRESSES
    requires u.addr[r] == 0 && RootNodes(st, r) <= freed
    ensures RootDone(st, u, freed, r, 0, B)
  {
    PastZero(st.tables, st.addr[r], Depth(r), B);
  }

  lemma DoneHole(st: FileState, u: FileState, freed: set<nat>, r: nat, c: nat, B: nat)
    requires |st.addr| == |u.addr| == ADDRESSES && r < ADDRESSES
    requires st.addr[r] == 0 && u.addr[r] == 0
    ensures RootDone(st, u, freed, r, c, B)
  {
  }

  lemma DoneKept(st: FileState, u: FileState, freed: set<nat>, r: nat, c: nat, B: nat)
    requires |st.addr| == |u.addr| == ADDRESSES && r < DIRECT_BLOCKS && c > 0
    requires u.addr[r] == st.addr[r] && freed !! RootNodes(st, r)
    ensures RootDone(st, u, freed, r, c, B)
  {
  }

  /** The single indirect slot, cut at 0 < c < B. */
  lemma DoneSingle(st: FileState, u: FileState, freed: set<nat>, c: nat, B: nat)
    requires ValidFile(st, B) && |u.addr| == ADDRESSES && 0 < c < B
    requires var b := st.addr[SINGLE_INDIRECT_BLOCK];
      && b != 0 && b in st.tables && |st.tables[b]| == B && u.addr[SINGLE_INDIRECT_BLOCK] == b
      && u.tables == st.tables[b := Cleared(st.tables[b], c)]
      && freed * Nodes(st.tables, b, 1) == Freed1(st.tables, b, c)
    ensures RootDone(st, u, freed, SINGLE_INDIRECT_BLOCK, c, B)
  {
    var b := st.addr[SINGLE_INDIRECT_BLOCK];
    assert Tree(st.tables, b, 1, B);
    assert Freed1(st.tables, b, c) == Past(st.tables, b, 1, c, B) by { Freed1IsPast(st.tables, b, c, B); }
    assert Past(st.tables, b, 1, c, B) == KidNodes(st.tables, st.tables[b][c..], 0) by { PastRow(st.tables, b, c, B); }
    ClearedTree(st.tables, u.tables, b, 1, c, B);
    forall q: Place | GoodPlace(q, B) && q.root == SINGLE_INDIRECT_BLOCK
      ensures BlockOf(u, q) == if Position(q, B) < c then BlockOf(st, q) else 0
    {
      ClearedLook(st.tables, u.tables, b, 1, c, B, q.path);
    }
  }

  /** The double indirect slot, cut at 0 < c < B * B and not inside a table that is there. */
  lemma DoneDouble(st: FileState, u: FileState, freed: set<nat>, c: nat, B: nat)
    requires ValidFile(st, B) && |u.addr| == ADDRESSES && 0 < c < B * B
    requires var b := st.addr[DOUBLE_INDIRECT_BLOCK];
      && b != 0 && b in st.tables && |st.tables[b]| == B && u.addr[DOUBLE_INDIRECT_BLOCK] == b
      && Aligned(st.tables, b, c, B)
      && u.tables == Tables2(st.tables, b, c / B, c % B, B)
      && freed * Nodes(st.tables, b, 2) == Freed2(st.tables, b, c / B, c % B)
    ensures RootDone(st, u, freed, DOUBLE_INDIRECT_BLOCK, c, B)
  {
    var b := st.addr[DOUBLE_INDIRECT_BLOCK];
    DoubleTables(st, u, b, c, B);
    var past := Past(st.tables, b, 2, c, B);
    assert freed * Nodes(st.tables, b, 2) == past by { Freed2IsPast(st.tables, b, c, B); }
    DoubleNodes(st, u, b, c, B);
    DoubleLook(st, u, c, B);
  }

  lemma DoubleTables(st: FileState, u: FileState, b: nat, c: nat, B: nat)
    requires b in st.tables && |st.tables[b]| == B && 0 < c < B * B && Aligned(st.tables, b, c, B)
    requires u.tables == Tables2(st.tables, b, c / B, c % B, B)
    ensures c / B < B && u.tables == st.tables[b := Cleared(st.tables[b], c / B)]
  {
    Split(c, B, B);
    SplitsToZero(c, B);
  }

  lemma DoubleNodes(st: FileState, u: FileState, b: nat, c: nat, B: nat)
    requires Tree(st.tables, b, 2, B) && b != 0 && 0 < c < B * B
    requires b in st.tables && |st.tables[b]| == B && Aligned(st.tables, b, c, B)
    requires c / B < B && u.tables == st.tables[b := Cleared(st.tables[b], c / B)]
    ensures Tree(u.tables, b, 2, B)
    ensures Nodes(u.tables, b, 2) == Nodes(st.tables, b, 2) - Past(st.tables, b, 2, c, B)
    ensures Past(st.tables, b, 2, c, B) <= Nodes(st.tables, b, 2)
  {
    var start := c / B;
    var kids := KidNodes(st.tables, st.tables[b][start..], 1);
    assert Past(st.tables, b, 2, c, B) == kids by {
      Freed2IsPast(st.tables, b, c, B);
      DoubleFreed(st.tables, b, c, B);
    }
    ClearedTree(st.tables, u.tables, b, 2, start, B);
    assert kids <= Nodes(st.tables, b, 2) by { KidSplit(st.tables, st.tables[b], 1, start); }
  }

  lemma DoubleLook(st: FileState, u: FileState, c: nat, B: nat)
    requires ValidFile(st, B) && |u.addr| == ADDRESSES && 0 < c < B * B
    requires var b := st.addr[DOUBLE_INDIRECT_BLOCK];
      && b != 0 && b in st.tables && |st.tables[b]| == B && u.addr[DOUBLE_INDIRECT_BLOCK] == b
      && Aligned(st.tables, b, c, B) && u.tables == st.tables[b := Cleared(st.tables[b], c / B)]
    ensures KeepsBelow(st, u, DOUBLE_INDIRECT_BLOCK, c, B)
  {
    var b := st.addr[DOUBLE_INDIRECT_BLOCK];
    var start := c / B;
    assert Tree(st.tables, b, 2, B);
    Split(c, B, B);
    forall q: Place | GoodPlace(q, B) && q.root == DOUBLE_INDIRECT_BLOCK
      ensures BlockOf(u, q) == if Position(q, B) < c then BlockOf(st, q) else 0
    {
      ClearedLook(st.tables, u.tables, b, 2, start, B, q.path);
      PositionBelow(q.path[0], q.path[1], c, B);
      if q.path[0] == start && c % B != 0 { assert Look(st.tables, b, q.path) == Look(st.tables, 0, q.path[1..]); }
    }
  }

  lemma PositionBelow(i: nat, j: nat, c: nat, B: nat)
    requires B > 0 && j < B
    ensures i < c / B ==> i * B + j < c
    ensures i > c / B ==> i * B + j >= c
    ensures i == c / B && c % B == 0 ==> i * B + j >= c
  {
    assert c == c / B * B + c % B;
    if i < c / B { MulMono(i + 1, c / B, B); assert (i + 1) * B == i * B + B; }
    if i > c / B { MulMono(c / B + 1, i, B); assert (c / B + 1) * B == c / B * B + B; }
  }

  lemma {:induction false} PartsAreEntries(t: Tables, row: seq<nat>, start: nat, next: nat, hi: nat)
    requires hi <= |row| && (next == 0 || start >= |row| || row[start] == 0)
    ensures Parts(t, row, start, next, hi) == Entries(t, row, 1, start, hi)
  {
    if start < hi { PartsAreEntries(t, row, start, next, hi - 1); }
  }

  /** An aligned cut frees the trees of the entries from the quotient on. */
  lemma DoubleFreed(t: Tables, b: nat, c: nat, B: nat)
    requires b in t && |t[b]| == B && 0 < c < B * B && Aligned(t, b, c, B)
    ensures c / B < B && Freed2(t, b, c / B, c % B) == KidNodes(t, t[b][c / B..], 1)
  {
    Split(c, B, B);
    PartsAreEntries(t, t[b], c / B, c % B, B);
    EntriesAre(t, t[b], 1, c / B, B);
    assert t[b][c / B..B] == t[b][c / B..];
  }

  // ------------------------------------------------- the whole file

  /** The cuts i_truncate() gets right: below the triple indirect range and not inside a table
      that is there, or with nothing in the triple indirect slot, or just below it. */
  predicate TruncGuard(st: FileState, cut: nat, B: nat)
    requires |st.addr| == ADDRESSES && B > 0
  {
    if cut < DIRECT_BLOCKS + B then true
    else if cut < DIRECT_BLOCKS + B + B * B then
      st.addr[DOUBLE_INDIRECT_BLOCK] == 0 ||
      Aligned(st.tables, st.addr[DOUBLE_INDIRECT_BLOCK], cut - DIRECT_BLOCKS - B, B)
    else cut == DIRECT_BLOCKS + B + B * B || st.addr[TRIPLE_INDIRECT_BLOCK] == 0
  }

  ghost predicate AllDone(st: FileState, u: FileState, freed: set<nat>, cut: nat, B: nat)
    requires |st.addr| == |u.addr| == ADDRESSES
  {
    forall r :: 0 <= r < ADDRESSES ==> RootDone(st, u, freed, r, Rest(cut, RootStart(r, B)), B)
  }

  ghost predicate Released(st: FileState, u: FileState, freed: set<nat>) {
    && |u.addr| == ADDRESSES && u.free == st.free + freed && freed <= FileNodes(st)
    && u.blocks == st.blocks - |freed|
  }

  lemma FreedIsPast(st: FileState, u: FileState, freed: set<nat>, cut: nat, B: nat)
    requires ValidFile(st, B) && Released(st, u, freed) && AllDone(st, u, freed, cut, B)
    ensures freed == FilePast(st, cut, B)
    ensures FileNodes(u) == FileNodes(st) - freed
  {
    var past := FilePast(st, cut, B);
    forall x | x in freed ensures x in past {
      var r :| 0 <= r < ADDRESSES && x in RootNodes(st, r);
      assert RootDone(st, u, freed, r, Rest(cut, RootStart(r, B)), B);
      assert x in RootPast(st, r, cut, B);
    }
    forall x | x in past ensures x in freed {
      var r :| 0 <= r < ADDRESSES && x in RootPast(st, r, cut, B);
      assert RootDone(st, u, freed, r, Rest(cut, RootStart(r, B)), B);
    }
    forall x | x in FileNodes(u) ensures x in FileNodes(st) - freed {
      var r :| 0 <= r < ADDRESSES && x in RootNodes(u, r);
      assert RootDone(st, u, freed, r, Rest(cut, RootStart(r, B)), B);
    }
    forall x | x in FileNodes(st) - freed ensures x in FileNodes(u) {
      var r :| 0 <= r < ADDRESSES && x in RootNodes(st, r);
      assert RootDone(st, u, freed, r, Rest(cut, RootStart(r, B)), B);
      assert x in RootNodes(u, r);
    }
  }

  lemma CutMap(st: FileState, u: FileState, freed: set<nat>, cut: nat, B: nat, f: nat)
    requires ValidFile(st, B) && |u.addr| == ADDRESSES && AllDone(st, u, freed, cut, B) && f < MaxBlocks(B)
    ensures MapOf(u, f, B) == if f < cut then MapOf(st, f, B) else 0
  {
    PlaceInverse(f, B);
    var q := PlaceOf(f, B);
    assert RootDone(st, u, freed, q.root, Rest(cut, RootStart(q.root, B)), B);
    assert f == RootStart(q.root, B) + Position(q, B);
  }

  lemma DoneIsValid(st: FileState, u: FileState, freed: set<nat>, cut: nat, B: nat)
    requires ValidFile(st, B) && Released(st, u, freed) && AllDone(st, u, freed, cut, B)
    requires FileNodes(u) == FileNodes(st) - freed
    ensures ValidFile(u, B)
  {
    forall r | 0 <= r < ADDRESSES
      ensures Tree(u.tables, u.addr[r], Depth(r), B) && RootNodes(u, r) <= RootNodes(st, r)
    {
      assert RootDone(st, u, freed, r, Rest(cut, RootStart(r, B)), B);
    }
    forall r, s | 0 <= r < s < ADDRESSES ensures RootNodes(u, r) !! RootNodes(u, s) {
      assert RootNodes(st, r) !! RootNodes(st, s);
    }
    assert |FileNodes(u)| == |FileNodes(st)| - |freed| by { assert FileNodes(st) == FileNodes(u) + freed; }
    FileNonzero(st);
  }

  lemma FileNonzero(st: FileState)
    ensures 0 !in FileNodes(st)
  {
    if 0 in FileNodes(st) {
      var r :| 0 <= r < |st.addr| && 0 in RootNodes(st, r);
      NodesNonzero(st.tables, st.addr[r], Depth(r));
    }
  }

  /** Slots all cut exactly make an exact truncation. */
  lemma DoneIsExact(st: FileState, u: FileState, freed: set<nat>, cut: nat, B: nat)
    requires ValidFile(st, B) && Released(st, u, freed) && AllDone(st, u, freed, cut, B)
    ensures Exact(st, u, cut, B)
  {
    assert freed == FilePast(st, cut, B) && FileNodes(u) == FileNodes(st) - freed by {
      FreedIsPast(st, u, freed, cut, B);
    }
    assert ValidFile(u, B) by { DoneIsValid(st, u, freed, cut, B); }
    forall f: nat | f < MaxBlocks(B) ensures MapOf(u, f, B) == if f < cut then MapOf(st, f, B) else 0 {
      CutMap(st, u, freed, cut, B, f);
    }
  }

  /** A block of the file that is neither freed nor reachable any more is lost. */
  lemma LeakIsNotExact(st: FileState, u: FileState, freed: set<nat>, cut: nat, B: nat, x: nat)
    requires ValidFile(st, B) && Released(st, u, freed)
    requires x in FileNodes(st) && x !in freed && x !in FileNodes(u)
    ensures !Exact(st, u, cut, B)
  {
  }

  // ------------------------------------------------- steps of the loops that free

  /** The trees of the entries of a row from lo up to hi. */
  ghost function Entries(t: Tables, row: seq<nat>, d: nat, lo: nat, hi: nat): set<nat>
    requires hi <= |row|
  {
    if hi <= lo then {} else Entries(t, row, d, lo, hi - 1) + Nodes(t, row[hi - 1], d)
  }

  lemma KidSnoc(t: Tables, row: seq<nat>, b: nat, d: nat)
    ensures KidNodes(t, row + [b], d) == KidNodes(t, row, d) + Nodes(t, b, d)
  {
    var sow := row + [b];
    var all, lo, last := KidNodes(t, sow, d), KidNodes(t, row, d), Nodes(t, b, d);
    forall x | x in all ensures x in lo + last {
      var i :| 0 <= i < |sow| && x in Nodes(t, sow[i], d);
      if i < |row| { KidIn(t, row, d, i); }
    }
    forall x | x in lo ensures x in all {
      var i :| 0 <= i < |row| && x in Nodes(t, row[i], d);
      assert sow[i] == row[i];
      KidIn(t, sow, d, i);
    }
    assert sow[|row|] == b;
    KidIn(t, sow, d, |row|);
  }

  lemma {:induction false} EntriesAre(t: Tables, row: seq<nat>, d: nat, lo: nat, hi: nat)
    requires lo <= hi <= |row|
    ensures Entries(t, row, d, lo, hi) == KidNodes(t, row[lo..hi], d)
    decreases hi
  {
    if lo < hi {
      assert row[lo..hi] == row[lo..hi - 1] + [row[hi - 1]];
      KidSnoc(t, row[lo..hi - 1], row[hi - 1], d);
      EntriesAre(t, row, d, lo, hi - 1);
    }
  }

  lemma {:induction false} EntriesApart(t: Tables, row: seq<nat>, d: nat, lo: nat, hi: nat, j: nat, B: nat)
    requires hi <= j < |row| && Forest(t, row, d, B)
    ensures Entries(t, row, d, lo, hi) !! Nodes(t, row[j], d)
  {
    if lo < hi { EntriesApart(t, row, d, lo, hi - 1, j, B); }
  }

  lemma {:induction false} PartsApart(t: Tables, row: seq<nat>, start: nat, next: nat, hi: nat, j: nat, B: nat)
    requires hi <= j < |row| && Forest(t, row, 1, B)
    ensures Parts(t, row, start, next, hi) !! Nodes(t, row[j], 1)
  {
    if start < hi {
      PartsApart(t, row, start, next, hi - 1, j, B);
      PartIn(t, row, hi - 1, start, next);
    }
  }

  lemma PartIn(t: Tables, row: seq<nat>, j: nat, start: nat, next: nat)
    requires j < |row|
    ensures Part(t, row, j, start, next) <= Nodes(t, row[j], 1)
  {
    if row[j] in t && row[j] != 0 && next <= |t[row[j]]| { Freed1Nodes(t, row[j], next); }
  }

  lemma CutRowNext(row: seq<nat>, start: nat, hi: nat)
    requires start <= hi < |row|
    ensures CutRow(row, start, hi + 1) == Put(CutRow(row, start, hi), hi, 0)
  {
  }

  lemma CutRowNone(row: seq<nat>, start: nat)
    ensures CutRow(row, start, start) == row
  {
  }

  /** The table block as free_ilevel1() leaves it once it has looked at the entries below hi. */
  function Tables1(t: Tables, b: nat, start: nat, hi: nat): Tables
    requires b in t
  {
    if start == 0 then t else t[b := CutRow(t[b], start, hi)]
  }

  lemma Tables1Start(t: Tables, b: nat, start: nat)
    requires b in t
    ensures Tables1(t, b, start, start) == t
  {
    CutRowNone(t[b], start);
    assert t[b := t[b]] == t;
  }

  lemma Tables1Next(t: Tables, b: nat, start: nat, hi: nat)
    requires b in t && start <= hi < |t[b]|
    ensures var u := Tables1(t, b, start, hi);
      && b in u && |u[b]| == |t[b]| && u[b][hi] == t[b][hi]
      && (t[b][hi] == 0 ==> Tables1(t, b, start, hi + 1) == u)
      && (start != 0 ==> Tables1(t, b, start, hi + 1) == u[b := Put(u[b], hi, 0)])
  {
    CutRowNext(t[b], start, hi);
    if t[b][hi] == 0 { assert CutRow(t[b], start, hi + 1) == CutRow(t[b], start, hi); }
  }

  /** The entries of a table of data blocks are distinct and none is in the set fr. */
  predicate RowApart(row: seq<nat>, fr: set<nat>) {
    && (forall j :: 0 <= j < |row| && row[j] != 0 ==> row[j] !in fr)
    && (forall i, j :: 0 <= i < j < |row| && row[i] != 0 ==> row[i] != row[j])
  }

  lemma {:induction false} RowBlocksApart(row: seq<nat>, fr: set<nat>, lo: nat, hi: nat, j: nat)
    requires RowApart(row, fr) && hi <= j < |row| && row[j] != 0
    ensures row[j] !in RowBlocks(row, lo, hi)
  {
    if lo < hi { RowBlocksApart(row, fr, lo, hi - 1, j); }
  }

  lemma {:induction false} RowBlocksAre(t: Tables, row: seq<nat>, lo: nat, hi: nat)
    requires hi <= |row|
    ensures RowBlocks(row, lo, hi) == Entries(t, row, 0, lo, hi)
  {
    if lo < hi { RowBlocksAre(t, row, lo, hi - 1); }
  }

  lemma Freed1Nodes(t: Tables, b: nat, start: nat)
    requires b in t && b != 0 && start <= |t[b]|
    ensures Freed1(t, b, start) == if start == 0 then Nodes(t, b, 1) else KidNodes(t, t[b][start..], 0)
    ensures Freed1(t, b, start) <= Nodes(t, b, 1)
  {
    var row := t[b];
    RowBlocksAre(t, row, start, |row|);
    EntriesAre(t, row, 0, start, |row|);
    assert row[start..|row|] == row[start..];
    assert start == 0 ==> row[start..] == row;
    KidSplit(t, row, 0, start);
  }

  /** A table of data blocks that can be freed: its blocks are distinct and none is free. */
  predicate Ready1(t: Tables, b: nat, fr: set<nat>, B: nat) {
    b in t && |t[b]| == B && RowApart(t[b], fr + {b}) && b !in fr
  }

  lemma TreeReady1(t: Tables, b: nat, fr: set<nat>, B: nat)
    requires Tree(t, b, 1, B) && b != 0 && B > 0 && Nodes(t, b, 1) !! fr
    ensures Ready1(t, b, fr, B)
  {
    var row := t[b];
    forall j | 0 <= j < B && row[j] != 0 ensures row[j] !in fr + {b} {
      Kid(t, b, 1, j, B);
    }
    forall i, j | 0 <= i < j < B && row[i] != 0 ensures row[i] != row[j] {
      Kid(t, b, 1, i, B);
    }
    Kid(t, b, 1, 0, B);
  }

  lemma {:induction false} OwnApart(row: seq<nat>, fr: set<nat>, b: nat, lo: nat, hi: nat)
    requires RowApart(row, fr + {b}) && hi <= |row|
    ensures b !in RowBlocks(row, lo, hi)
  {
    if lo < hi { OwnApart(row, fr, b, lo, hi - 1); }
  }

  // ------------------------------------------------- free_ilevel2(), entry by entry

  /** The tables while free_ilevel1() is called for entry hi: its number has been cleared. */
  function Cleared2(t: Tables, b: nat, start: nat, next: nat, hi: nat): Tables
    requires b in t && hi < |t[b]|
  {
    var u := Tables2(t, b, start, next, hi);
    if (start == 0 && next == 0) || b !in u || hi >= |u[b]| then u else u[b := Put(u[b], hi, 0)]
  }

  lemma Kids2(t: Tables, b: nat, start: nat, next: nat, hi: nat, B: nat)
    requires Tree(t, b, 2, B) && b != 0 && hi < B
    ensures b in t && |t[b]| == B
    ensures t[b][hi] != b && forall j :: 0 <= j < B && j != hi && t[b][j] != 0 ==> t[b][j] != t[b][hi]
    ensures t[b][hi] != 0 ==> b !in Nodes(t, t[b][hi], 1)
    ensures forall j :: 0 <= j < B && j != hi && t[b][j] != 0 ==> t[b][j] !in Nodes(t, t[b][hi], 1)
  {
    Kid(t, b, 2, hi, B);
    forall j | 0 <= j < B && j != hi && t[b][j] != 0 ensures t[b][j] !in Nodes(t, t[b][hi], 1) && t[b][j] != t[b][hi] {
      Kid(t, b, 2, j, B);
      assert t[b][j] in Nodes(t, t[b][j], 1);
    }
  }

  lemma Tables2Start(t: Tables, b: nat, start: nat, next: nat)
    requires b in t
    ensures Tables2(t, b, start, next, start) == t
  {
    CutRowNone(t[b], start);
    assert t[b := t[b]] == t;
  }

  /** Clearing the number and cutting the table it named is one step of Tables2(). */
  lemma Step2(t: Tables, b: nat, start: nat, next: nat, hi: nat, B: nat)
    requires Tree(t, b, 2, B) && b != 0 && start <= hi < B && t[b][hi] != 0 && next < B
    ensures var u := Tables2(t, b, start, next, hi); b in u && |u[b]| == B && u[b][hi] == t[b][hi]
    ensures var k := t[b][hi]; var w := Cleared2(t, b, start, next, hi); var n := if hi == start then next else 0;
      k in w && k in t && w[k] == t[k] && |t[k]| == B
      && Tables1(w, k, n, B) == Tables2(t, b, start, next, hi + 1)
  {
    Kids2(t, b, start, next, hi, B);
    Kid(t, b, 2, hi, B);
    CutRowNext(t[b], start, hi);
  }

  /** The tree under entry hi is as it was, and none of its blocks is free. */
  lemma Child2(t: Tables, b: nat, start: nat, next: nat, hi: nat, fr: set<nat>, B: nat)
    requires Tree(t, b, 2, B) && b != 0 && start <= hi < B && t[b][hi] != 0 && next < B && Nodes(t, b, 2) !! fr
    ensures var k := t[b][hi]; var w := Cleared2(t, b, start, next, hi); var n := if hi == start then next else 0;
      && Tree(w, k, 1, B) && Nodes(w, k, 1) !! fr + Parts(t, t[b], start, next, hi)
      && k in w && k in t && w[k] == t[k] && |t[k]| == B
      && Freed1(w, k, n) == Part(t, t[b], hi, start, next)
      && Part(t, t[b], hi, start, next) !! Parts(t, t[b], start, next, hi)
  {
    var k, w := t[b][hi], Cleared2(t, b, start, next, hi);
    Kids2(t, b, start, next, hi, B);
    Step2(t, b, start, next, hi, B);
    Kid(t, b, 2, hi, B);
    PartsApart(t, t[b], start, next, hi, hi, B);
    PartIn(t, t[b], hi, start, next);
    assert SameRows(t, w, Nodes(t, k, 1));
    NodesFrame(t, w, k, 1);
    TreeFrame(t, w, k, 1, B);
    Freed1Nodes(t, k, 0);
  }

  /** A tree of depth 2 none of whose blocks is free; stated for the depth d so that only a use
      of it unfolds the tree. */
  ghost predicate Hidden2(t: Tables, b: nat, fr: set<nat>, B: nat) {
    && B > 0 && b != 0 && 0 !in fr
    && forall d :: d == 2 ==> Tree(t, b, d, B) && Nodes(t, b, d) !! fr
  }

  /** The table under entry hi can be freed. */
  lemma Ready2(t: Tables, b: nat, start: nat, next: nat, hi: nat, fr: set<nat>, B: nat)
    requires Hidden2(t, b, fr, B) && start <= hi < B && next < B
    requires b in t && |t[b]| == B && t[b][hi] != 0
    ensures Ready1(Cleared2(t, b, start, next, hi), t[b][hi], fr + Parts(t, t[b], start, next, hi), B)
  {
    assert Tree(t, b, 2, B) && Nodes(t, b, 2) !! fr;
    Child2(t, b, start, next, hi, fr, B);
    TreeReady1(Cleared2(t, b, start, next, hi), t[b][hi], fr + Parts(t, t[b], start, next, hi), B);
  }

  /** Freeing it frees its part. */
  lemma Part2(t: Tables, b: nat, start: nat, next: nat, hi: nat, fr: set<nat>, w: Tables, c: nat, k: nat, B: nat)
    requires Hidden2(t, b, fr, B) && start <= hi < B && next < B
    requires b in t && |t[b]| == B && c == t[b][hi] != 0 && Cleared2Is(t, b, start, next, hi, w)
    requires k == (if hi == start then next else 0) && c in w && |w[c]| == B
    ensures Freed1(w, c, k) == Part(t, t[b], hi, start, next)
  {
    assert Tree(t, b, 2, B) && Nodes(t, b, 2) !! fr && w == Cleared2(t, b, start, next, hi);
    Child2(t, b, start, next, hi, fr, B);
  }

  lemma Cut2(t: Tables, b: nat, start: nat, next: nat, hi: nat, fr: set<nat>, w: Tables, c: nat, k: nat, B: nat)
    requires Hidden2(t, b, fr, B) && start <= hi < B && next < B
    requires b in t && |t[b]| == B && c == t[b][hi] != 0 && Cleared2Is(t, b, start, next, hi, w)
    requires k == (if hi == start then next else 0) && c in w && |w[c]| == B
    ensures Tables1(w, c, k, B) == Tables2(t, b, start, next, hi + 1)
  {
    assert Tree(t, b, 2, B) && w == Cleared2(t, b, start, next, hi);
    Step2(t, b, start, next, hi, B);
  }

  /** w is Cleared2(), unfolded only where it is used. */
  ghost predicate Cleared2Is(t: Tables, b: nat, start: nat, next: nat, hi: nat, w: Tables)
    requires b in t
  {
    forall e: nat :: e == hi && e < |t[b]| ==> w == Cleared2(t, b, start, next, e)
  }

  /** The number of blocks in the parts, one by one. */
  ghost function PartsSize(t: Tables, row: seq<nat>, start: nat, next: nat, hi: nat): nat
    requires hi <= |row|
  {
    if hi <= start then 0 else PartsSize(t, row, start, next, hi - 1) + |Part(t, row, hi - 1, start, next)|
  }

  lemma {:induction false} PartsSizeIs(t: Tables, row: seq<nat>, start: nat, next: nat, hi: nat, B: nat)
    requires hi <= |row| && Forest(t, row, 1, B)
    ensures PartsSize(t, row, start, next, hi) == |Parts(t, row, start, next, hi)|
  {
    if start < hi {
      PartsSizeIs(t, row, start, next, hi - 1, B);
      PartApart(t, row, start, next, hi, B);
      DisjointSize(Parts(t, row, start, next, hi - 1), Part(t, row, hi - 1, start, next));
    }
  }

  lemma PartApart(t: Tables, row: seq<nat>, start: nat, next: nat, hi: nat, B: nat)
    requires start < hi <= |row| && Forest(t, row, 1, B)
    ensures Parts(t, row, start, next, hi - 1) !! Part(t, row, hi - 1, start, next)
  {
    PartsApart(t, row, start, next, hi - 1, hi - 1, B);
    PartIn(t, row, hi - 1, start, next);
  }

  lemma DisjointSize(a: set<nat>, b: set<nat>)
    requires a !! b
    ensures |a + b| == |a| + |b|
  {
  }

  /** Upto2(), unfolded only where it is used. */
  ghost predicate Dealt2(t: Tables, fr: set<nat>, n: int, b: nat, start: nat, next: nat, hi: nat,
                         u: Tables, free: set<nat>, blocks: int) {
    forall e: nat :: e == hi ==> Upto2(t, fr, n, b, start, next, e, u, free, blocks)
  }

  /** From the tables t, the free blocks fr and n blocks, free_ilevel2() has come to u, free and
      blocks, having dealt with the entries below hi. */
  ghost predicate Upto2(t: Tables, fr: set<nat>, n: int, b: nat, start: nat, next: nat, hi: nat,
                        u: Tables, free: set<nat>, blocks: int) {
    && b in t && hi <= |t[b]|
    && u == Tables2(t, b, start, next, hi)
    && free == fr + Parts(t, t[b], start, next, hi)
    && blocks == n - PartsSize(t, t[b], start, next, hi)
  }

  /** The entry to be dealt with next is as it was; if it is a hole, it has been dealt with. */
  lemma EntryThere2(t: Tables, b: nat, start: nat, next: nat, hi: nat, fr: set<nat>, n: int,
                    u: Tables, free: set<nat>, blocks: int, B: nat)
    requires Hidden2(t, b, fr, B) && start <= hi < B && next < B
    requires Dealt2(t, fr, n, b, start, next, hi, u, free, blocks)
    ensures b in t && |t[b]| == B && b in u && |u[b]| == B && u[b][hi] == t[b][hi]
    ensures t[b][hi] == 0 ==> Dealt2(t, fr, n, b, start, next, hi + 1, u, free, blocks)
  {
    assert Upto2(t, fr, n, b, start, next, hi, u, free, blocks);
    RowKept2(t, b, start, next, hi, fr, B);
    if t[b][hi] == 0 { HoleDealt2(t, b, start, next, hi, fr, n, u, free, blocks, B); }
  }

  lemma RowKept2(t: Tables, b: nat, start: nat, next: nat, hi: nat, fr: set<nat>, B: nat)
    requires Hidden2(t, b, fr, B) && start <= hi < B && next < B
    ensures b in t && |t[b]| == B
    ensures var u := Tables2(t, b, start, next, hi); b in u && |u[b]| == B && u[b][hi] == t[b][hi]
  {
    assert Tree(t, b, 2, B);
    Kid(t, b, 2, start, B);
  }

  lemma HoleDealt2(t: Tables, b: nat, start: nat, next: nat, hi: nat, fr: set<nat>, n: int,
                   u: Tables, free: set<nat>, blocks: int, B: nat)
    requires start <= hi < B && b in t && |t[b]| == B && t[b][hi] == 0
    requires Upto2(t, fr, n, b, start, next, hi, u, free, blocks)
    ensures Dealt2(t, fr, n, b, start, next, hi + 1, u, free, blocks)
  {
    assert CutRow(t[b], start, hi + 1) == CutRow(t[b], start, hi);
    assert Part(t, t[b], hi, start, next) == {};
    assert Upto2(t, fr, n, b, start, next, hi + 1, u, free, blocks);
  }

  /** What the call for the entry hi leads to. */
  lemma Next2(t: Tables, b: nat, start: nat, next: nat, hi: nat, fr: set<nat>, n: int,
              u: Tables, free: set<nat>, blocks: int, k: nat, partial: bool, B: nat)
    requires Hidden2(t, b, fr, B) && start <= hi < B && next < B
    requires Dealt2(t, fr, n, b, start, next, hi, u, free, blocks)
    requires b in t && |t[b]| == B && t[b][hi] != 0 && b in u && |u[b]| == B
    requires k == (if hi == start then next else 0) && partial == (start != 0 || next != 0)
    ensures var w := if partial then u[b := Put(u[b], hi, 0)] else u; var c := t[b][hi];
      && Ready1(w, c, free, B)
      && Dealt2(t, fr, n, b, start, next, hi + 1, Tables1(w, c, k, B),
                free + Freed1(w, c, k), blocks - |Freed1(w, c, k)|)
  {
    assert Upto2(t, fr, n, b, start, next, hi, u, free, blocks);
    var w, c := if partial then u[b := Put(u[b], hi, 0)] else u, t[b][hi];
    assert w == Cleared2(t, b, start, next, hi);
    assert Ready1(w, c, free, B) by { Ready2(t, b, start, next, hi, fr, B); }
    Dealt2Next(t, b, start, next, hi, fr, n, w, c, k, B);
  }

  lemma Dealt2Next(t: Tables, b: nat, start: nat, next: nat, hi: nat, fr: set<nat>, n: int,
                   w: Tables, c: nat, k: nat, B: nat)
    requires Hidden2(t, b, fr, B) && start <= hi < B && next < B
    requires b in t && |t[b]| == B && c == t[b][hi] != 0 && Cleared2Is(t, b, start, next, hi, w)
    requires k == if hi == start then next else 0
    requires c in w && |w[c]| == B
    ensures Dealt2(t, fr, n, b, start, next, hi + 1, Tables1(w, c, k, B),
      fr + Parts(t, t[b], start, next, hi) + Freed1(w, c, k),
      n - PartsSize(t, t[b], start, next, hi) - |Freed1(w, c, k)|)
  {
    Part2(t, b, start, next, hi, fr, w, c, k, B);
    Cut2(t, b, start, next, hi, fr, w, c, k, B);
    DealtSum2(t, b, start, next, hi, fr, n, Tables1(w, c, k, B), Freed1(w, c, k));
  }

  lemma DealtSum2(t: Tables, b: nat, start: nat, next: nat, hi: nat, fr: set<nat>, n: int, u: Tables, part: set<nat>)
    requires b in t && start <= hi < |t[b]| && u == Tables2(t, b, start, next, hi + 1)
    requires part == Part(t, t[b], hi, start, next)
    ensures Dealt2(t, fr, n, b, start, next, hi + 1, u, fr + Parts(t, t[b], start, next, hi) + part,
      n - PartsSize(t, t[b], start, next, hi) - |part|)
  {
    var parts := Parts(t, t[b], start, next, hi);
    assert fr + parts + part == fr + (parts + part);
    assert Upto2(t, fr, n, b, start, next, hi + 1, u,
      fr + parts + part, n - PartsSize(t, t[b], start, next, hi) - |part|);
  }

  lemma Tables2None(t: Tables, b: nat, start: nat, next: nat, hi: nat)
    requires b in t
    ensures start >= hi ==> Tables2(t, b, start, next, hi) == t
  {
    if start >= hi {
      assert CutRow(t[b], start, hi) == t[b];
      assert t[b := t[b]] == t;
    }
  }

  lemma Freed2Ready(t: Tables, b: nat, start: nat, next: nat, fr: set<nat>, B: nat)
    requires Hidden2(t, b, fr, B)
    ensures b in t && |t[b]| == B && b !in fr && b !in Parts(t, t[b], start, next, B)
    ensures |Freed2(t, b, start, next)| ==
      PartsSize(t, t[b], start, next, B) + (if start == 0 && next == 0 then 1 else 0)
  {
    assert Tree(t, b, 2, B) && Nodes(t, b, 2) !! fr;
    PartsSizeIs(t, t[b], start, next, B, B);
    Freed2Is(t, b, start, next, B);
  }

  lemma Freed2Is(t: Tables, b: nat, start: nat, next: nat, B: nat)
    requires Tree(t, b, 2, B) && b != 0 && B > 0
    ensures b in t && |t[b]| == B && b !in Parts(t, t[b], start, next, B)
    ensures forall fr: set<nat> :: Nodes(t, b, 2) !! fr ==> b !in fr
    ensures Freed2(t, b, start, next) == Parts(t, t[b], start, next, B) + (if start == 0 && next == 0 then {b} else {})
    ensures |Freed2(t, b, start, next)| == |Parts(t, t[b], start, next, B)| + (if start == 0 && next == 0 then 1 else 0)
  {
    Kid(t, b, 2, 0, B);
    if b in Parts(t, t[b], start, next, B) {
      PartsAre(t, t[b], start, next, B, b);
      var j :| start <= j < B && b in Part(t, t[b], j, start, next);
      PartIn(t, t[b], j, start, next);
      Kid(t, b, 2, j, B);
    }
  }

  // ------------------------------------------------- free_ilevel3(), entry by entry

  /** What any call of free_ilevel2() frees and changes lies in the tree. */
  lemma Freed2Within(t: Tables, b: nat, start: nat, next: nat, B: nat)
    requires Tree(t, b, 2, B) && b != 0 && B > 0 && next < B
    ensures b in t && |t[b]| == B && Freed2(t, b, start, next) <= Nodes(t, b, 2)
    ensures start != 0 || next != 0 ==> b !in Freed2(t, b, start, next)
  {
    Freed2Is(t, b, start, next, B);
    forall x | x in Parts(t, t[b], start, next, B) ensures x in Nodes(t, b, 2) {
      PartsAre(t, t[b], start, next, B, x);
      var j :| start <= j < B && x in Part(t, t[b], j, start, next);
      PartIn(t, t[b], j, start, next);
      Kid(t, b, 2, j, B);
    }
  }

  lemma Freed2Rows(t: Tables, b: nat, start: nat, next: nat, B: nat)
    requires Tree(t, b, 2, B) && b != 0 && B > 0
    ensures b in t && |t[b]| == B
    ensures forall x :: x !in Nodes(t, b, 2) ==> SameRow(t, Tables2(t, b, start, next, B), x)
  {
    Kid(t, b, 2, 0, B);
    if start < B { Kid(t, b, 2, start, B); }
  }

  lemma Freed2Whole(t: Tables, b: nat, B: nat)
    requires Tree(t, b, 2, B) && b != 0 && B > 0
    ensures b in t && |t[b]| == B
    ensures Freed2(t, b, 0, 0) == Nodes(t, b, 2)
  {
    assert 0 / B == 0 && 0 % B == 0;
    assert B * B > 0;
    Freed2IsPast(t, b, 0, B);
    PastZero(t, b, 2, B);
  }

  /** Upto3(), unfolded only where it is used. */
  ghost predicate Done3(t: Tables, u: Tables, F: set<nat>, b: nat, start: nat, partial: bool, hi: nat, B: nat) {
    forall e: nat :: e == hi ==> Upto3(t, u, F, b, start, partial, e, B)
  }

  /** free_ilevel3() has freed F and made u of the tables t, having dealt with the entries below hi. */
  ghost predicate Upto3(t: Tables, u: Tables, F: set<nat>, b: nat, start: nat, partial: bool, hi: nat, B: nat)
  {
    && b in t && |t[b]| == B && hi <= B && b in u && |u[b]| == B
    && F <= Entries(t, t[b], 2, start, hi)
    && (forall j :: hi <= j < B ==> u[b][j] == t[b][j])
    && (forall x :: x != b && x !in Entries(t, t[b], 2, start, hi) ==> SameRow(t, u, x))
    && (!partial ==> u == t && F == Entries(t, t[b], 2, start, hi))
  }

  /** As Hidden2(), for depth 3. */
  ghost predicate Hidden3(t: Tables, b: nat, fr: set<nat>, B: nat) {
    && B > 0 && b != 0 && 0 !in fr
    && forall d :: d == 3 ==> Tree(t, b, d, B) && Nodes(t, b, d) !! fr
  }

  lemma Done3Start(t: Tables, b: nat, start: nat, partial: bool, fr: set<nat>, hi: nat, B: nat)
    requires Hidden3(t, b, fr, B) && hi <= start && hi <= B
    ensures Done3(t, t, {}, b, start, partial, hi, B)
  {
    assert Tree(t, b, 3, B);
    Kid(t, b, 3, 0, B);
    assert Upto3(t, t, {}, b, start, partial, hi, B);
  }

  ghost predicate Apart3(t: Tables, w: Tables, F: set<nat>, k: nat, B: nat) {
    Tree(w, k, 2, B) && Nodes(w, k, 2) == Nodes(t, k, 2) && F !! Nodes(t, k, 2)
  }

  /** The tree under entry hi is untouched. */
  lemma Ready3(t: Tables, u: Tables, F: set<nat>, b: nat, start: nat, partial: bool, hi: nat, fr: set<nat>, B: nat)
    requires Hidden3(t, b, fr, B) && Upto3(t, u, F, b, start, partial, hi, B) && hi < B && t[b][hi] != 0
    ensures Apart3(t, if partial then u[b := Put(u[b], hi, 0)] else u, F, t[b][hi], B)
    ensures Hidden2(if partial then u[b := Put(u[b], hi, 0)] else u, t[b][hi], fr + F, B)
    ensures b !in Nodes(t, t[b][hi], 2) && t[b][hi] in t
    ensures SameRows(t, if partial then u[b := Put(u[b], hi, 0)] else u, Nodes(t, t[b][hi], 2))
  {
    var k := t[b][hi];
    var w := if partial then u[b := Put(u[b], hi, 0)] else u;
    assert Tree(t, b, 3, B) && Nodes(t, b, 3) !! fr;
    Kid(t, b, 3, hi, B);
    EntriesApart(t, t[b], 2, start, hi, hi, B);
    assert SameRows(t, w, Nodes(t, k, 2));
    NodesFrame(t, w, k, 2);
    TreeFrame(t, w, k, 2, B);
    if 0 in F { EntriesNonzero(t, t[b], 2, start, hi); }
  }

  lemma SplitsToZero(f: nat, B: nat)
    requires B > 0
    ensures f == 0 <==> f / B == 0 && f % B == 0
  {
    assert f == f / B * B + f % B;
  }

  lemma {:induction false} EntriesNonzero(t: Tables, row: seq<nat>, d: nat, lo: nat, hi: nat)
    requires hi <= |row|
    ensures 0 !in Entries(t, row, d, lo, hi)
  {
    if lo < hi {
      EntriesNonzero(t, row, d, lo, hi - 1);
      NodesNonzero(t, row[hi - 1], d);
    }
  }

  /** What the loop of free_ilevel3() frees below entry j: the call for the first entry gets next,
      the others 0, and all of them the same remainder n. */
  ghost function Part3(t: Tables, row: seq<nat>, j: nat, start: nat, next: nat, n: nat): set<nat>
    requires j < |row|
  {
    if row[j] == 0 || row[j] !in t then {} else Freed2(t, row[j], if j == start then next else 0, n)
  }

  ghost function Parts3(t: Tables, row: seq<nat>, start: nat, next: nat, n: nat, hi: nat): set<nat>
    requires hi <= |row|
  {
    if hi <= start then {} else Parts3(t, row, start, next, n, hi - 1) + Part3(t, row, hi - 1, start, next, n)
  }

  /** All that free_ilevel3() frees. */
  ghost function FreedBy3(t: Tables, b: nat, start: nat, fblock: nat, B: nat): set<nat>
    requires b in t && B > 0
  {
    DivNat(fblock, B);
    Parts3(t, t[b], start, fblock / B, fblock % B, |t[b]|) + if start == 0 && fblock == 0 then {b} else {}
  }

  /** So far; unfolded only where it is used. */
  ghost predicate SoFar3(t: Tables, F: set<nat>, b: nat, start: nat, next: nat, n: nat, hi: nat) {
    forall e: nat :: e == hi ==> b in t && e <= |t[b]| && F == Parts3(t, t[b], start, next, n, e)
  }

  lemma SoFarStart(t: Tables, b: nat, start: nat, next: nat, n: nat, hi: nat)
    requires b in t && hi <= |t[b]| && hi <= start
    ensures SoFar3(t, {}, b, start, next, n, hi)
  {
  }

  lemma SoFarNext(t: Tables, F: set<nat>, b: nat, start: nat, next: nat, n: nat, hi: nat)
    requires SoFar3(t, F, b, start, next, n, hi) && start <= hi && b in t && hi < |t[b]|
    ensures SoFar3(t, F + Part3(t, t[b], hi, start, next, n), b, start, next, n, hi + 1)
  {
    assert F == Parts3(t, t[b], start, next, n, hi);
  }

  lemma SoFarEnd(t: Tables, F: set<nat>, b: nat, start: nat, fblock: nat, B: nat)
    requires B > 0 && b in t && |t[b]| == B && fblock / B >= 0
    requires SoFar3(t, F, b, start, fblock / B, fblock % B, B)
    ensures FreedBy3(t, b, start, fblock, B) == F + if start == 0 && fblock == 0 then {b} else {}
  {
  }

  /** free_ilevel2() frees the same in tables that agree on the tree. */
  lemma Freed2Frame(t: Tables, w: Tables, k: nat, s: nat, n: nat)
    requires k != 0 && k in t && SameRows(t, w, Nodes(t, k, 2))
    ensures k in w && Freed2(w, k, s, n) == Freed2(t, k, s, n)
  {
    assert k in Nodes(t, k, 2);
    PartsFrame(t, w, t[k], s, n, |t[k]|);
  }

  lemma {:induction false} PartsFrame(t: Tables, w: Tables, row: seq<nat>, start: nat, next: nat, hi: nat)
    requires hi <= |row| && SameRows(t, w, KidNodes(t, row, 1))
    ensures Parts(w, row, start, next, hi) == Parts(t, row, start, next, hi)
  {
    if hi > start {
      PartsFrame(t, w, row, start, next, hi - 1);
      PartFrame(t, w, row, hi - 1, start, next);
    }
  }

  lemma PartFrame(t: Tables, w: Tables, row: seq<nat>, j: nat, start: nat, next: nat)
    requires j < |row| && SameRows(t, w, KidNodes(t, row, 1))
    ensures Part(w, row, j, start, next) == Part(t, row, j, start, next)
  {
    KidIn(t, row, 1, j);
    NodesFrame(t, w, row[j], 1);
    if row[j] != 0 { assert row[j] in Nodes(t, row[j], 1); }
  }

  lemma Step3(t: Tables, u: Tables, F: set<nat>, b: nat, start: nat, partial: bool, hi: nat, fr: set<nat>, B: nat,
              w: Tables, s: nat, n: nat)
    requires Hidden3(t, b, fr, B) && Done3(t, u, F, b, start, partial, hi, B) && start <= hi < B && n < B
    requires b in t && |t[b]| == B && b in u && |u[b]| == B && t[b][hi] != 0
    requires w == (if partial then u[b := Put(u[b], hi, 0)] else u)
    requires !partial ==> s == 0 && n == 0
    ensures Hidden2(w, t[b][hi], fr + F, B) && t[b][hi] in w && |w[t[b][hi]]| == B
    ensures Done3(t, Tables2(w, t[b][hi], s, n, B), F + Freed2(w, t[b][hi], s, n), b, start, partial, hi + 1, B)
    ensures |F + Freed2(w, t[b][hi], s, n)| == |F| + |Freed2(w, t[b][hi], s, n)|
    ensures t[b][hi] in t && Freed2(w, t[b][hi], s, n) == Freed2(t, t[b][hi], s, n)
  {
    var k := t[b][hi];
    assert Upto3(t, u, F, b, start, partial, hi, B);
    Ready3(t, u, F, b, start, partial, hi, fr, B);
    Freed2Frame(t, w, k, s, n);
    Freed2Within(w, k, s, n, B);
    Freed2Rows(w, k, s, n, B);
    assert Freed2(w, k, s, n) <= Nodes(t, k, 2);
    if !partial { Freed2Whole(w, k, B); }
    More3(t, u, F, b, start, partial, hi, B, w, Tables2(w, k, s, n, B), Freed2(w, k, s, n));
  }

  /** One more entry, of whose tree G is freed and the rows are changed from those in w to those in v. */
  lemma More3(t: Tables, u: Tables, F: set<nat>, b: nat, start: nat, partial: bool, hi: nat, B: nat,
              w: Tables, v: Tables, G: set<nat>)
    requires Upto3(t, u, F, b, start, partial, hi, B) && start <= hi < B
    requires w == (if partial then u[b := Put(u[b], hi, 0)] else u)
    requires G <= Nodes(t, t[b][hi], 2) && b !in Nodes(t, t[b][hi], 2)
    requires forall x :: x !in Nodes(t, t[b][hi], 2) ==> SameRow(w, v, x)
    requires !partial ==> v == w && G == Nodes(t, t[b][hi], 2)
    ensures Done3(t, v, F + G, b, start, partial, hi + 1, B)
  {
    assert SameRow(w, v, b);
    assert Upto3(t, v, F + G, b, start, partial, hi + 1, B);
  }

  lemma Hole3(t: Tables, u: Tables, F: set<nat>, b: nat, start: nat, partial: bool, hi: nat, B: nat)
    requires Done3(t, u, F, b, start, partial, hi, B) && start <= hi < B && b in t && |t[b]| == B && t[b][hi] == 0
    ensures Done3(t, u, F, b, start, partial, hi + 1, B)
  {
    assert Upto3(t, u, F, b, start, partial, hi, B);
    assert Upto3(t, u, F, b, start, partial, hi + 1, B);
  }

  lemma EntryThere3(t: Tables, u: Tables, F: set<nat>, b: nat, start: nat, partial: bool, hi: nat, B: nat)
    requires Done3(t, u, F, b, start, partial, hi, B)
    ensures b in t && |t[b]| == B && b in u && |u[b]| == B && (hi < B ==> u[b][hi] == t[b][hi])
  {
    assert Upto3(t, u, F, b, start, partial, hi, B);
  }

  /** What free_ilevel3() does to the tables t: it frees F in the tree and changes rows only
      there; all of the tree goes if the cut is at its start, else the table itself stays. */
  ghost predicate Freed3(t: Tables, u: Tables, F: set<nat>, b: nat, whole: bool) {
    && F <= Nodes(t, b, 3)
    && (forall x :: x !in Nodes(t, b, 3) ==> SameRow(t, u, x))
    && (if whole then u == t && F == Nodes(t, b, 3) else b !in F)
  }

  lemma Freed3Is(t: Tables, u: Tables, F: set<nat>, b: nat, start: nat, partial: bool, fr: set<nat>, B: nat)
    requires Hidden3(t, b, fr, B) && Done3(t, u, F, b, start, partial, B, B) && (!partial ==> start == 0)
    ensures b !in F && b !in fr && (partial ==> Freed3(t, u, F, b, false))
    ensures !partial ==> Freed3(t, u, F + {b}, b, true)
  {
    assert Upto3(t, u, F, b, start, partial, B, B);
    var kids, ent := KidNodes(t, t[b], 2), Entries(t, t[b], 2, start, B);
    assert Nodes(t, b, 3) == {b} + kids && b !in kids && Nodes(t, b, 3) !! fr by { assert Tree(t, b, 3, B); }
    assert ent <= kids && (start == 0 ==> ent == kids) by { EntriesWithin(t, t[b], 2, start); }
  }

  lemma EntriesWithin(t: Tables, row: seq<nat>, d: nat, start: nat)
    ensures Entries(t, row, d, start, |row|) <= KidNodes(t, row, d)
    ensures start == 0 ==> Entries(t, row, d, start, |row|) == KidNodes(t, row, d)
  {
    if start <= |row| {
      EntriesAre(t, row, d, start, |row|);
      KidSplit(t, row, d, start);
      assert row[start..|row|] == row[start..];
      assert start == 0 ==> row[start..] == row;
    }
  }

  /** The entries from start to hi of a table of data blocks have been given back. */
  ghost predicate Freeing1(t: Tables, fr: set<nat>, n: int, b: nat, start: nat, hi: nat, u: Tables, free: set<nat>,
                           blocks: int)
    requires b in t && start <= hi <= |t[b]|
  {
    && u == Tables1(t, b, start, hi)
    && free == fr + RowBlocks(t[b], start, hi) && blocks == n - |RowBlocks(t[b], start, hi)|
  }

  lemma Freeing1Next(t: Tables, fr: set<nat>, n: int, b: nat, start: nat, hi: nat, u: Tables, free: set<nat>,
                     blocks: int)
    requires b in t && start <= hi < |t[b]| && RowApart(t[b], fr)
    requires Freeing1(t, fr, n, b, start, hi, u, free, blocks)
    ensures b in u && |u[b]| == |t[b]| && u[b][hi] == t[b][hi]
    ensures t[b][hi] == 0 ==> Freeing1(t, fr, n, b, start, hi + 1, u, free, blocks)
    ensures t[b][hi] != 0 ==> t[b][hi] !in free
    ensures t[b][hi] != 0 ==>
      Freeing1(t, fr, n, b, start, hi + 1, if start != 0 then u[b := Put(u[b], hi, 0)] else u, free + {t[b][hi]},
               blocks - 1)
  {
    Tables1Next(t, b, start, hi);
    if t[b][hi] != 0 { RowBlocksApart(t[b], fr, start, hi, hi); }
  }
}
