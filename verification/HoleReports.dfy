/** What _bmap() reports of a block below a missing table: when it is right for every file. */
module HoleReports {
  import opened Arith
  import opened BlockMap
  import opened InodeMap

  /** The blocks of the report for the place p, whose table under the first k indices is missing. */
  function Reported(p: Place, k: nat, B: nat): int
    requires k < |p.path|
  {
    HoleBlocks(|p.path|, k, Value(p.path[k..], B), B)
  }

  /** In the file st that table is missing, and the ones above it are there. */
  ghost predicate Missing(st: FileState, p: Place, k: nat, B: nat)
    requires k < |p.path|
  {
    Bmapped(st, p, false, 0, 0, Reported(p, k, B), k, B)
  }

  /** The report is of at least one block, and of holes only. */
  ghost predicate Honest(st: FileState, p: Place, k: nat, B: nat)
    requires ValidFile(st, B) && k < |p.path|
  {
    && Reported(p, k, B) > 0
    && forall g: nat :: BlockAt(p, B) <= g < BlockAt(p, B) + Reported(p, k, B) && g < MaxBlocks(B) ==>
         MapOf(st, g, B) == 0
  }

  /** The first file block after those below the missing table. */
  function Beyond(p: Place, k: nat, B: nat): int
    requires k < |p.path| <= 3
  {
    BlockAt(p, B) + Span(|p.path| - k, B) - Value(p.path[k..], B)
  }

  ghost predicate Position(p: Place, k: nat, B: nat) {
    B > 0 && GoodPlace(p, B) && k < |p.path|
  }

  // ------------------------------------------------- sound positions

  lemma ValueFits(p: Place, k: nat, B: nat)
    requires Position(p, k, B)
    ensures |p.path| <= 3 && Value(p.path[k..], B) < Span(|p.path| - k, B)
  {
    var q := p.path[k..];
    if |q| >= 2 { Below(q[|q| - 2], q[|q| - 1], B, B); }
    if |q| == 3 {
      assert B * B * B == B * (B * B);
      Below(q[0], q[1] * B + q[2], B * B, B);
    }
  }

  lemma BelowIsHoles(st: FileState, p: Place, k: nat, B: nat, g: nat)
    requires Position(p, k, B) && Missing(st, p, k, B) && |p.path| <= 3 && BlockAt(p, B) <= g < Beyond(p, k, B)
    ensures g < MaxBlocks(B) && MapOf(st, g, B) == 0
  {
    PlaceUnique(p, B);
    HoleBelow(st, BlockAt(p, B), k, g - BlockAt(p, B), B);
  }

  lemma SoundIsHonest(st: FileState, p: Place, k: nat, B: nat)
    requires Position(p, k, B) && Missing(st, p, k, B) && |p.path| <= 3
    requires SoundExtent(|p.path|, k, Value(p.path[k..], B), B) || (k > 0 && Beyond(p, k, B) >= MaxBlocks(B))
    ensures Honest(st, p, k, B)
  {
    forall g: nat | BlockAt(p, B) <= g < BlockAt(p, B) + Reported(p, k, B) && g < MaxBlocks(B)
      ensures MapOf(st, g, B) == 0
    {
      BelowIsHoles(st, p, k, B, g);
    }
  }

  // ------------------------------------------------- a file with two given paths

  function EmptyFile(): FileState {
    FileState(ZeroRow(ADDRESSES), 0, map[], {1, 2, 3, 4, 5, 6, 7, 8})
  }

  lemma EmptyIsValid(B: nat)
    requires B > 0
    ensures ValidFile(EmptyFile(), B) && |EmptyFile().free| == 8
    ensures forall r: Place :: r.root < ADDRESSES ==> BlockOf(EmptyFile(), r) == 0
  {
    assert FileNodes(EmptyFile()) == {};
  }

  predicate InTree(r: Place) {
    r.root < ADDRESSES && |r.path| <= Depth(r.root)
  }

  /** The place r is one of the first k + 1 blocks on the way to p. */
  predicate OnWay(r: Place, p: Place, k: nat)
    requires k <= |p.path|
  {
    r.root == p.root && |r.path| <= k && r.path == p.path[..|r.path|]
  }

  /** Every block that is there stays, and only those on the way to p may be new. */
  ghost predicate Paved(st: FileState, u: FileState, p: Place, k: nat)
    requires k <= |p.path| && |st.addr| == |u.addr| == ADDRESSES
  {
    forall r: Place :: InTree(r) && (BlockOf(st, r) != 0 || !OnWay(r, p, k)) ==> BlockOf(u, r) == BlockOf(st, r)
  }

  /** The blocks on the way to p can be allocated. */
  lemma {:induction false} Pave(st: FileState, p: Place, k: nat, B: nat) returns (u: FileState)
    requires ValidFile(st, B) && GoodPlace(p, B) && k <= |p.path| && |st.free| > k
    ensures ValidFile(u, B) && BlockOf(u, Prefix(p, k)) != 0 && |u.free| + k + 1 >= |st.free|
    ensures Paved(st, u, p, k)
    decreases k
  {
    if k == 0 {
      u := PaveOne(st, p, 0, B);
    } else {
      var v := Pave(st, p, k - 1, B);
      assert p.path[..k][..k - 1] == p.path[..k - 1];
      u := PaveOne(v, p, k, B);
      PavedOn(st, v, u, p, k);
    }
  }

  lemma PavedOn(st: FileState, v: FileState, u: FileState, p: Place, k: nat)
    requires 0 < k <= |p.path| && |st.addr| == |v.addr| == |u.addr| == ADDRESSES
    requires Paved(st, v, p, k - 1) && forall r: Place :: InTree(r) && (BlockOf(v, r) != 0 || r != Prefix(p, k)) ==>
      BlockOf(u, r) == BlockOf(v, r)
    ensures Paved(st, u, p, k)
  {
    forall r: Place | InTree(r) && (BlockOf(st, r) != 0 || !OnWay(r, p, k)) ensures BlockOf(u, r) == BlockOf(st, r) {
      if |r.path| == k && r == Prefix(p, k) {
        assert OnWay(r, p, k);
      }
    }
  }

  lemma PaveOne(st: FileState, p: Place, k: nat, B: nat) returns (u: FileState)
    requires ValidFile(st, B) && GoodPlace(p, B) && k <= |p.path| && st.free != {}
    requires k > 0 ==> BlockOf(st, Place(p.root, Prefix(p, k).path[..k - 1])) != 0
    ensures ValidFile(u, B) && BlockOf(u, Prefix(p, k)) != 0 && |u.free| + 1 >= |st.free|
    ensures forall r: Place :: InTree(r) && (BlockOf(st, r) != 0 || r != Prefix(p, k)) ==>
      BlockOf(u, r) == BlockOf(st, r)
    ensures k == 0 ==> Paved(st, u, p, k)
  {
    var e := Prefix(p, k);
    if BlockOf(st, e) != 0 { return st; }
    var nb :| nb in st.free;
    u := Extend(st, e, nb, B);
    ExtendValid(st, e, nb, B);
    ExtendMap(st, e, nb, B, e);
    forall r: Place | InTree(r) && r != e ensures BlockOf(u, r) == BlockOf(st, r) {
      ExtendMap(st, e, nb, B, r);
    }
    assert k == 0 ==> OnWay(e, p, 0);
  }

  // ------------------------------------------------- positions that are not

  /** The block after the missing table is not below it. */
  lemma BeyondIsOff(p: Place, k: nat, B: nat, q: Place)
    requires Position(p, k, B) && 0 < k && |p.path| <= 3 && GoodPlace(q, B) && BlockAt(q, B) == Beyond(p, k, B)
    ensures !OnWay(Prefix(p, k), q, |q.path|)
  {
    if q.root == p.root && k <= |q.path| && p.path[..k] == q.path[..k] {
      SameFirst(p.path, q.path, k);
      ValueFits(q, k, B);
      SameStart(p, q, k, B);
    }
  }

  lemma SameFirst(p: seq<nat>, q: seq<nat>, k: nat)
    requires 0 < k <= |p| && k <= |q| && p[..k] == q[..k]
    ensures p[0] == q[0] && (k >= 2 ==> p[1] == q[1])
  {
    assert p[..k][0] == q[..k][0] && (k >= 2 ==> p[..k][1] == q[..k][1]);
  }

  /** Two places below one table lie as far apart as their positions below it. */
  lemma SameStart(p: Place, q: Place, k: nat, B: nat)
    requires Position(p, k, B) && Position(q, k, B) && 0 < k && p.root == q.root && |p.path| == |q.path| <= 3
    requires p.path[0] == q.path[0] && (k == 2 ==> p.path[1] == q.path[1])
    ensures BlockAt(q, B) - BlockAt(p, B) == Value(q.path[k..], B) - Value(p.path[k..], B)
  {
  }

  lemma UnsoundFile(p: Place, k: nat, B: nat) returns (st: FileState)
    requires Position(p, k, B) && 0 < k && |p.path| <= 3 && BlockAt(p, B) <= Beyond(p, k, B) < MaxBlocks(B)
    ensures Missing(st, p, k, B) && MapOf(st, Beyond(p, k, B), B) != 0
  {
    var q := PlaceOf(Beyond(p, k, B), B);
    PlaceInverse(Beyond(p, k, B), B);
    BeyondIsOff(p, k, B, q);
    EmptyIsValid(B);
    var v := Pave(EmptyFile(), p, k - 1, B);
    var e := Prefix(p, k);
    assert InTree(e) && !OnWay(e, p, k - 1) && BlockOf(v, e) == 0;
    st := Pave(v, q, |q.path|, B);
    assert q.path[..|q.path|] == q.path;
    assert BlockOf(st, e) == BlockOf(v, e);
    assert InTree(Prefix(p, k - 1)) && BlockOf(v, Prefix(p, k - 1)) != 0;
  }

  /** Where the position is not sound, some file makes the report empty or wrong. */
  lemma UnsoundIsNotHonest(p: Place, k: nat, B: nat) returns (st: FileState)
    requires Position(p, k, B) && |p.path| <= 3
    requires !SoundExtent(|p.path|, k, Value(p.path[k..], B), B) && (k > 0 ==> Beyond(p, k, B) < MaxBlocks(B))
    ensures Missing(st, p, k, B) && !Honest(st, p, k, B)
  {
    ValueFits(p, k, B);
    if k > 0 {
      st := UnsoundFile(p, k, B);
      var g := Beyond(p, k, B);
      assert BlockAt(p, B) <= g < BlockAt(p, B) + Reported(p, k, B);
    } else {
      st := EmptyFile();
      EmptyIsValid(B);
      assert Value(p.path[0..], B) < Span(|p.path|, B);
      HoleExtentIff(|p.path|, 0, Value(p.path[0..], B), B);
    }
  }

  /** For every position: the report is at least one block and only holes, in every file in which
      the table is missing, if and only if the position is sound or the file cannot go on after
      the table. */
  lemma HoleReportIff(p: Place, k: nat, B: nat)
    requires Position(p, k, B)
    ensures |p.path| <= 3
    ensures (forall st: FileState :: Missing(st, p, k, B) ==> Honest(st, p, k, B)) <==>
      SoundExtent(|p.path|, k, Value(p.path[k..], B), B) || (k > 0 && Beyond(p, k, B) >= MaxBlocks(B))
  {
    ValueFits(p, k, B);
    if SoundExtent(|p.path|, k, Value(p.path[k..], B), B) || (k > 0 && Beyond(p, k, B) >= MaxBlocks(B)) {
      forall st: FileState | Missing(st, p, k, B) ensures Honest(st, p, k, B) { SoundIsHonest(st, p, k, B); }
    } else {
      var st := UnsoundIsNotHonest(p, k, B);
    }
  }

  // ------------------------------------------------- one such file

  /** A table whose only entry in use is the entry i. */
  lemma OneKid(t: Tables, b: nat, d: nat, i: nat, B: nat)
    requires b != 0 && d > 0 && b in t && |t[b]| == B && i < B && forall j :: 0 <= j < B && j != i ==> t[b][j] == 0
    requires Tree(t, t[b][i], d - 1, B) && b !in Nodes(t, t[b][i], d - 1)
    ensures Tree(t, b, d, B) && Nodes(t, b, d) == {b} + Nodes(t, t[b][i], d - 1)
  {
    assert forall j :: 0 <= j < B && j != i ==> Nodes(t, t[b][j], d - 1) == {};
    assert KidNodes(t, t[b], d - 1) == Nodes(t, t[b][i], d - 1);
  }

  /** One table under the second entry of the double indirect table, with one data block. */
  function Gap(): FileState {
    FileState(Put(ZeroRow(ADDRESSES), DOUBLE_INDIRECT_BLOCK, 100), 3,
      map[100 := Put(ZeroRow(256), 1, 101), 101 := Put(ZeroRow(256), 0, 7)], {})
  }

  lemma GapTree(t: Tables)
    requires t == Gap().tables
    ensures Tree(t, 100, 2, 256) && |Nodes(t, 100, 2)| == 3
  {
    assert Nodes(t, 7, 0) == {7};
    OneKid(t, 101, 1, 0, 256);
    OneKid(t, 100, 2, 1, 256);
    assert Nodes(t, 100, 2) == {100, 101, 7};
    assert |{100, 101, 7}| == 3;
  }

  lemma GapRoot(st: FileState)
    requires st == Gap()
    ensures |st.addr| == ADDRESSES && st.addr[DOUBLE_INDIRECT_BLOCK] == 100 && st.free == {} && st.blocks == 3
    ensures forall r :: 0 <= r < ADDRESSES && r != DOUBLE_INDIRECT_BLOCK ==> st.addr[r] == 0
  {
  }

  lemma GapIsValid()
    ensures ValidFile(Gap(), 256)
  {
    var st := Gap();
    GapRoot(st);
    GapTree(st.tables);
    RootIsValid(st);
  }

  lemma RootIsValid(st: FileState)
    requires |st.addr| == ADDRESSES && st.addr[DOUBLE_INDIRECT_BLOCK] == 100 && st.free == {} && st.blocks == 3
    requires forall r :: 0 <= r < ADDRESSES && r != DOUBLE_INDIRECT_BLOCK ==> st.addr[r] == 0
    requires Tree(st.tables, 100, 2, 256) && |Nodes(st.tables, 100, 2)| == 3
    ensures ValidFile(st, 256)
  {
    OneRoot(st, DOUBLE_INDIRECT_BLOCK, 256);
  }

  /** A valid file in which the look-up of the second block under the missing table reports as a
      hole the first block of the next table, which is there. */
  lemma HoleExtentFails()
    ensures var B, f, st := 256, DIRECT_BLOCKS + 256 + 1, Gap();
      && ValidFile(st, B) && PlaceOf(f, B) == Place(DOUBLE_INDIRECT_BLOCK, [0, 1])
      && Missing(st, PlaceOf(f, B), 1, B) && Reported(PlaceOf(f, B), 1, B) == 256
      && MapOf(st, f + 255, B) == 7
  {
    GapIsValid();
    var t := Gap().tables;
    assert [0, 1][..1] == [0] && [0, 1][..0] == [];
    assert Look(t, 100, [0]) == Look(t, 0, [0][1..]);
    assert [1, 0][1..] == [0] && [0][1..] == [];
    assert Look(t, 100, [1, 0]) == Look(t, 101, [0]) == Look(t, 7, []);
  }
}
