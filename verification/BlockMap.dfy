/** The 0/1/2/3-level block tree of an inode (fs/inode.c), read off the table blocks on disk. */
module BlockMap {

  const DIRECT_BLOCKS := 20
  const SINGLE_INDIRECT_BLOCK := 20
  const DOUBLE_INDIRECT_BLOCK := 21
  const TRIPLE_INDIRECT_BLOCK := 22
  const ADDRESSES := 23

  /** The contents of the blocks that serve as indirect blocks. */
  type Tables = map<nat, seq<nat>>

  /** The levels of tables above the data blocks of the address slot r. */
  function Depth(r: nat): nat {
    if r < DIRECT_BLOCKS then 0 else r - DIRECT_BLOCKS + 1
  }

  function ZeroRow(B: nat): (row: seq<nat>)
    ensures |row| == B && forall i :: 0 <= i < B ==> row[i] == 0
  {
    seq(B, _ => 0)
  }

  /** The table with entry i set to v. */
  function Put(row: seq<nat>, i: nat, v: nat): (r: seq<nat>)
    requires i < |row|
    ensures |r| == |row| && r[i] == v && forall j :: 0 <= j < |row| && j != i ==> r[j] == row[j]
  {
    row[..i] + [v] + row[i + 1..]
  }

  // ------------------------------------------------- trees

  /** The blocks of the tree of depth d rooted at block b; block 0 is a hole. */
  ghost function Nodes(t: Tables, b: nat, d: nat): set<nat>
    decreases d, 1
  {
    if b == 0 then {}
    else if d == 0 || b !in t then {b}
    else {b} + KidNodes(t, t[b], d - 1)
  }

  /** The blocks of the trees of depth d rooted at the entries of a table. */
  ghost function KidNodes(t: Tables, row: seq<nat>, d: nat): set<nat>
    decreases d, 2
  {
    set i, x | 0 <= i < |row| && x in Nodes(t, row[i], d) :: x
  }

  /** The trees rooted at the entries of a table are trees and share no block. */
  ghost predicate Forest(t: Tables, row: seq<nat>, d: nat, B: nat)
    decreases d, 1
  {
    && (forall i :: 0 <= i < |row| ==> Tree(t, row[i], d, B))
    && (forall i, j :: 0 <= i < j < |row| ==> Nodes(t, row[i], d) !! Nodes(t, row[j], d))
  }

  ghost predicate Tree(t: Tables, b: nat, d: nat, B: nat)
    decreases d, 0
  {
    b == 0 || d == 0 ||
    (b in t && |t[b]| == B && Forest(t, t[b], d - 1, B) && b !in KidNodes(t, t[b], d - 1))
  }

  /** The block reached from b by following the indices of a path; 0 if there is a hole. */
  function Look(t: Tables, b: nat, path: seq<nat>): nat
    decreases |path|
  {
    if b == 0 || path == [] then b
    else if b in t && path[0] < |t[b]| then Look(t, t[b][path[0]], path[1..])
    else 0
  }

  lemma KidIn(t: Tables, row: seq<nat>, d: nat, i: nat)
    requires i < |row|
    ensures Nodes(t, row[i], d) <= KidNodes(t, row, d)
  {
  }

  lemma {:induction false} NodesNonzero(t: Tables, b: nat, d: nat)
    ensures 0 !in Nodes(t, b, d)
    decreases d
  {
    if b != 0 && d > 0 && b in t {
      forall i | 0 <= i < |t[b]| ensures 0 !in Nodes(t, t[b][i], d - 1) {
        NodesNonzero(t, t[b][i], d - 1);
      }
    }
  }

  /** The child i of a table is a tree, apart from the table and from its brothers. */
  lemma Kid(t: Tables, b: nat, d: nat, i: nat, B: nat)
    requires Tree(t, b, d, B) && b != 0 && d > 0 && i < B
    ensures b in t && |t[b]| == B && Tree(t, t[b][i], d - 1, B)
    ensures b !in Nodes(t, t[b][i], d - 1) && Nodes(t, t[b][i], d - 1) <= Nodes(t, b, d)
    ensures forall j :: 0 <= j < B && j != i ==> Nodes(t, t[b][i], d - 1) !! Nodes(t, t[b][j], d - 1)
  {
    KidIn(t, t[b], d - 1, i);
  }

  ghost predicate SameRows(t: Tables, u: Tables, s: set<nat>) {
    forall x :: x in s ==> (x in t <==> x in u) && (x in t ==> t[x] == u[x])
  }

  predicate SameRow(t: Tables, u: Tables, x: nat) {
    (x in t <==> x in u) && (x in t ==> t[x] == u[x])
  }

  ghost predicate SameOutside(t: Tables, u: Tables, s: set<nat>) {
    forall x :: x !in s ==> SameRow(t, u, x)
  }

  lemma {:induction false} NodesFrame(t: Tables, u: Tables, b: nat, d: nat)
    requires SameRows(t, u, Nodes(t, b, d))
    ensures Nodes(u, b, d) == Nodes(t, b, d)
    decreases d, 1
  {
    if b != 0 && d > 0 && b in t {
      KidsFrame(t, u, t[b], d - 1);
    }
  }

  lemma {:induction false} KidsFrame(t: Tables, u: Tables, row: seq<nat>, d: nat)
    requires SameRows(t, u, KidNodes(t, row, d))
    ensures forall i :: 0 <= i < |row| ==> Nodes(u, row[i], d) == Nodes(t, row[i], d)
    ensures KidNodes(u, row, d) == KidNodes(t, row, d)
    decreases d, 2
  {
    forall i | 0 <= i < |row| ensures Nodes(u, row[i], d) == Nodes(t, row[i], d) {
      assert forall x :: x in Nodes(t, row[i], d) ==> x in KidNodes(t, row, d);
      NodesFrame(t, u, row[i], d);
    }
  }

  lemma {:induction false} TreeFrame(t: Tables, u: Tables, b: nat, d: nat, B: nat)
    requires SameRows(t, u, Nodes(t, b, d)) && Tree(t, b, d, B)
    ensures Tree(u, b, d, B)
    decreases d, 1
  {
    if b != 0 && d > 0 {
      KidsFrame(t, u, t[b], d - 1);
      ForestFrame(t, u, t[b], d - 1, B);
    }
  }

  lemma {:induction false} ForestFrame(t: Tables, u: Tables, row: seq<nat>, d: nat, B: nat)
    requires SameRows(t, u, KidNodes(t, row, d)) && Forest(t, row, d, B)
    ensures Forest(u, row, d, B)
    decreases d, 2
  {
    KidsFrame(t, u, row, d);
    forall i | 0 <= i < |row| ensures Tree(u, row[i], d, B) {
      assert forall x :: x in Nodes(t, row[i], d) ==> x in KidNodes(t, row, d);
      TreeFrame(t, u, row[i], d, B);
    }
  }

  lemma {:induction false} LookFrame(t: Tables, u: Tables, b: nat, d: nat, path: seq<nat>)
    requires SameRows(t, u, Nodes(t, b, d)) && |path| <= d
    ensures Look(u, b, path) == Look(t, b, path)
    decreases |path|
  {
    if b != 0 && path != [] && b in t && path[0] < |t[b]| {
      var c := t[b][path[0]];
      KidIn(t, t[b], d - 1, path[0]);
      LookFrame(t, u, c, d - 1, path[1..]);
    }
  }

  /** Everything a path reaches is a node of the tree. */
  lemma {:induction false} LookIsNode(t: Tables, b: nat, d: nat, path: seq<nat>)
    requires |path| <= d && Look(t, b, path) != 0
    ensures Look(t, b, path) in Nodes(t, b, d)
    decreases |path|
  {
    if path != [] {
      var c := t[b][path[0]];
      LookIsNode(t, c, d - 1, path[1..]);
      KidIn(t, t[b], d - 1, path[0]);
    }
  }

  // ------------------------------------------------- grafting a new block

  /** The tables once the new block nb hangs at the end of the path. */
  function Graft(t: Tables, b: nat, path: seq<nat>, nb: nat, B: nat): Tables
    requires path != []
  {
    var p := Look(t, b, path[..|path| - 1]);
    var i := path[|path| - 1];
    if p in t && i < |t[p]| then t[p := Put(t[p], i, nb)][nb := ZeroRow(B)]
    else t
  }

  ghost predicate CanGraft(t: Tables, b: nat, d: nat, path: seq<nat>, nb: nat, B: nat) {
    && Tree(t, b, d, B) && 0 < |path| <= d && (forall k :: 0 <= k < |path| ==> path[k] < B)
    && Look(t, b, path[..|path| - 1]) != 0 && Look(t, b, path) == 0
    && nb != 0 && nb !in Nodes(t, b, d)
  }

  lemma NewTable(t: Tables, nb: nat, d: nat, B: nat)
    requires nb in t && nb != 0 && t[nb] == ZeroRow(B)
    ensures Nodes(t, nb, d) == {nb} && Tree(t, nb, d, B)
  {
    if d > 0 {
      forall i | 0 <= i < B ensures Nodes(t, t[nb][i], d - 1) == {} {}
      assert KidNodes(t, t[nb], d - 1) == {};
    }
  }

  /** A path below the root continues in the child its first index names. */
  lemma Descend(t: Tables, b: nat, d: nat, path: seq<nat>, nb: nat, B: nat)
    requires CanGraft(t, b, d, path, nb, B) && |path| > 1
    ensures b != 0 && b in t && |t[b]| == B
    ensures CanGraft(t, t[b][path[0]], d - 1, path[1..], nb, B)
    ensures Graft(t, b, path, nb, B) == Graft(t, t[b][path[0]], path[1..], nb, B)
    ensures Look(t, b, path[..|path| - 1]) == Look(t, t[b][path[0]], path[1..][..|path| - 2])
  {
    assert path[..|path| - 1][1..] == path[1..][..|path| - 2];
    Kid(t, b, d, path[0], B);
  }

  /** Grafting changes the table at the end of the path and the new block, nothing else. */
  lemma GraftRows(t: Tables, b: nat, d: nat, path: seq<nat>, nb: nat, B: nat)
    requires CanGraft(t, b, d, path, nb, B)
    ensures var p := Look(t, b, path[..|path| - 1]); var u := Graft(t, b, path, nb, B);
      && p in Nodes(t, b, d) && p != nb && p in t && |t[p]| == B && t[p][path[|path| - 1]] == 0
      && u == t[p := Put(t[p], path[|path| - 1], nb)][nb := ZeroRow(B)]
  {
    var p := Look(t, b, path[..|path| - 1]);
    LookIsNode(t, b, d, path[..|path| - 1]);
    LookLast(t, b, d, path, B);
  }

  /** Only the new block and a table of the tree are written to. */
  lemma GraftOutside(t: Tables, b: nat, d: nat, path: seq<nat>, nb: nat, B: nat, s: set<nat>)
    requires CanGraft(t, b, d, path, nb, B) && Nodes(t, b, d) <= s && nb in s
    ensures SameOutside(t, Graft(t, b, path, nb, B), s)
  {
    GraftRows(t, b, d, path, nb, B);
  }

  lemma {:induction false} LookLast(t: Tables, b: nat, d: nat, path: seq<nat>, B: nat)
    requires Tree(t, b, d, B) && 0 < |path| <= d && (forall k :: 0 <= k < |path| ==> path[k] < B)
    requires Look(t, b, path[..|path| - 1]) != 0
    ensures var p := Look(t, b, path[..|path| - 1]);
      p in t && |t[p]| == B && Look(t, b, path) == t[p][path[|path| - 1]]
    decreases |path|
  {
    if |path| == 1 {
      assert path[1..] == [];
    } else {
      assert path[..|path| - 1][1..] == path[1..][..|path| - 2];
      LookLast(t, t[b][path[0]], d - 1, path[1..], B);
    }
  }

  /** The tree gains exactly the new block. */
  lemma {:induction false} GraftNodes(t: Tables, b: nat, d: nat, path: seq<nat>, nb: nat, B: nat)
    requires CanGraft(t, b, d, path, nb, B)
    ensures Tree(Graft(t, b, path, nb, B), b, d, B)
    ensures Nodes(Graft(t, b, path, nb, B), b, d) == Nodes(t, b, d) + {nb}
    decreases d
  {
    var u := Graft(t, b, path, nb, B);
    var i := path[0];
    GraftRows(t, b, d, path, nb, B);
    if |path| == 1 {
      OtherKids(t, u, b, d, i, b, nb, B);
      NewTable(u, nb, d - 1, B);
      KidChange(t, u, b, d, i, {nb}, B);
    } else {
      var c := t[b][i];
      Descend(t, b, d, path, nb, B);
      GraftNodes(t, c, d - 1, path[1..], nb, B);
      GraftRows(t, c, d - 1, path[1..], nb, B);
      var p := Look(t, b, path[..|path| - 1]);
      Kid(t, b, d, i, B);
      OtherKids(t, u, b, d, i, p, nb, B);
      KidChange(t, u, b, d, i, Nodes(t, c, d - 1) + {nb}, B);
    }
  }

  lemma KidRows(t: Tables, u: Tables, b: nat, d: nat, j: nat, changed: set<nat>)
    requires b != 0 && d > 0 && b in t && j < |t[b]|
    requires forall x :: x !in changed ==> (x in t <==> x in u) && (x in t ==> t[x] == u[x])
    requires changed !! Nodes(t, t[b][j], d - 1)
    ensures SameRows(t, u, Nodes(t, t[b][j], d - 1))
  {
  }

  /** The brothers of a child in whose tree (or in whose place) the table changed. */
  lemma OtherKids(t: Tables, u: Tables, b: nat, d: nat, i: nat, p: nat, nb: nat, B: nat)
    requires Tree(t, b, d, B) && b != 0 && d > 0 && i < B && nb !in Nodes(t, b, d)
    requires forall x :: x != p && x != nb ==> (x in t <==> x in u) && (x in t ==> t[x] == u[x])
    requires p == b || p in Nodes(t, t[b][i], d - 1)
    ensures forall j :: 0 <= j < B && j != i ==>
      Nodes(u, t[b][j], d - 1) == Nodes(t, t[b][j], d - 1) && Tree(u, t[b][j], d - 1, B)
  {
    forall j | 0 <= j < B && j != i
      ensures Nodes(u, t[b][j], d - 1) == Nodes(t, t[b][j], d - 1) && Tree(u, t[b][j], d - 1, B)
    {
      Kid(t, b, d, j, B);
      KidRows(t, u, b, d, j, {p, nb});
      NodesFrame(t, u, t[b][j], d - 1);
      TreeFrame(t, u, t[b][j], d - 1, B);
    }
  }

  /** One child's tree has become another one, disjoint from its brothers. */
  lemma KidChange(t: Tables, u: Tables, b: nat, d: nat, i: nat, kid: set<nat>, B: nat)
    requires Tree(t, b, d, B) && d > 0 && b != 0 && i < B
    requires b in u && |u[b]| == B
    requires forall j :: 0 <= j < B && j != i ==> Nodes(u, u[b][j], d - 1) == Nodes(t, t[b][j], d - 1)
    requires forall j :: 0 <= j < B ==> Tree(u, u[b][j], d - 1, B)
    requires Nodes(u, u[b][i], d - 1) == kid
    requires b !in kid && forall j :: 0 <= j < B && j != i ==> kid !! Nodes(t, t[b][j], d - 1)
    ensures Tree(u, b, d, B)
    ensures Nodes(u, b, d) == Nodes(t, b, d) - Nodes(t, t[b][i], d - 1) + kid
  {
    Kid(t, b, d, i, B);
    var old_kids, new_kids := KidNodes(t, t[b], d - 1), KidNodes(u, u[b], d - 1);
    forall x | x in new_kids ensures x in old_kids - Nodes(t, t[b][i], d - 1) + kid {
      var j :| 0 <= j < B && x in Nodes(u, u[b][j], d - 1);
      if j != i { KidIn(t, t[b], d - 1, j); }
    }
    forall x | x in old_kids && x !in Nodes(t, t[b][i], d - 1) ensures x in new_kids {
      var j :| 0 <= j < B && x in Nodes(t, t[b][j], d - 1);
      KidIn(u, u[b], d - 1, j);
    }
    KidIn(u, u[b], d - 1, i);
    assert new_kids == old_kids - Nodes(t, t[b][i], d - 1) + kid;
    assert Forest(u, u[b], d - 1, B);
  }

  lemma ThroughNew(u: Tables, nb: nat, q: seq<nat>, B: nat)
    requires nb in u && u[nb] == ZeroRow(B) && q != []
    ensures Look(u, nb, q) == 0
  {
  }

  /** A path finds the new block if it is the grafted path and what it found before if it does
      not run through the new block. */
  lemma {:induction false} GraftLook(t: Tables, b: nat, d: nat, path: seq<nat>, nb: nat, B: nat, q: seq<nat>)
    requires CanGraft(t, b, d, path, nb, B) && |q| <= d
    ensures var u := Graft(t, b, path, nb, B);
      && (q == path ==> Look(u, b, q) == nb)
      && (!(path <= q) ==> Look(u, b, q) == Look(t, b, q))
      && (path < q ==> Look(u, b, q) == 0)
    decreases d
  {
    var u := Graft(t, b, path, nb, B);
    var i := path[0];
    GraftRows(t, b, d, path, nb, B);
    if q == [] {
    } else if q[0] != i {
      if q[0] < B {
        var p := Look(t, b, path[..|path| - 1]);
        if |path| > 1 {
          Descend(t, b, d, path, nb, B);
          LookIsNode(t, t[b][i], d - 1, path[1..][..|path| - 2]);
        }
        Kid(t, b, d, q[0], B);
        KidRows(t, u, b, d, q[0], {p, nb});
        LookFrame(t, u, t[b][q[0]], d - 1, q[1..]);
      }
    } else if |path| == 1 {
      assert path == [i] && q == [i] + q[1..];
      if |q| > 1 { ThroughNew(u, nb, q[1..], B); }
    } else {
      Descend(t, b, d, path, nb, B);
      GraftLook(t, t[b][i], d - 1, path[1..], nb, B, q[1..]);
      assert path == [i] + path[1..] && q == [i] + q[1..];
    }
  }
}
