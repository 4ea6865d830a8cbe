/** Tables and data blocks of a file: what the data blocks hold, read as block numbers, does not
    matter to the file. */
module DataRows {
  import opened BlockMap
  import opened InodeMap

  /** The blocks of a tree that are read as tables. */
  ghost function Inner(t: Tables, b: nat, d: nat): set<nat>
    decreases d, 1
  {
    if b == 0 || d == 0 then {}
    else if b !in t then {b}
    else {b} + InnerKids(t, t[b], d - 1)
  }

  ghost function InnerKids(t: Tables, row: seq<nat>, d: nat): set<nat>
    decreases d, 2
  {
    set i, x | 0 <= i < |row| && x in Inner(t, row[i], d) :: x
  }

  lemma InnerKid(t: Tables, row: seq<nat>, d: nat, i: nat)
    requires i < |row|
    ensures Inner(t, row[i], d) <= InnerKids(t, row, d)
  {
  }

  lemma {:induction false} InnerNodes(t: Tables, b: nat, d: nat)
    ensures Inner(t, b, d) <= Nodes(t, b, d)
    decreases d
  {
    if b != 0 && d > 0 && b in t {
      forall i | 0 <= i < |t[b]| ensures Inner(t, t[b][i], d - 1) <= KidNodes(t, t[b], d - 1) {
        InnerNodes(t, t[b][i], d - 1);
        KidIn(t, t[b], d - 1, i);
      }
    }
  }

  /** A tree depends on the rows of its tables only. */
  lemma {:induction false} InnerFrame(t: Tables, u: Tables, b: nat, d: nat)
    requires SameRows(t, u, Inner(t, b, d))
    ensures Nodes(u, b, d) == Nodes(t, b, d) && Inner(u, b, d) == Inner(t, b, d)
    decreases d
  {
    if b != 0 && d > 0 && b in t {
      assert b in u && u[b] == t[b];
      forall i | 0 <= i < |t[b]|
        ensures Nodes(u, t[b][i], d - 1) == Nodes(t, t[b][i], d - 1)
        ensures Inner(u, t[b][i], d - 1) == Inner(t, t[b][i], d - 1)
      {
        InnerKid(t, t[b], d - 1, i);
        InnerFrame(t, u, t[b][i], d - 1);
      }
      SameKids(t, u, t[b], d - 1);
    }
  }

  lemma SameKids(t: Tables, u: Tables, row: seq<nat>, d: nat)
    requires forall i :: 0 <= i < |row| ==>
      Nodes(u, row[i], d) == Nodes(t, row[i], d) && Inner(u, row[i], d) == Inner(t, row[i], d)
    ensures KidNodes(u, row, d) == KidNodes(t, row, d) && InnerKids(u, row, d) == InnerKids(t, row, d)
  {
  }

  lemma {:induction false} InnerTree(t: Tables, u: Tables, b: nat, d: nat, B: nat)
    requires SameRows(t, u, Inner(t, b, d)) && Tree(t, b, d, B)
    ensures Tree(u, b, d, B)
    decreases d
  {
    if b != 0 && d > 0 {
      forall i | 0 <= i < |t[b]|
        ensures Tree(u, t[b][i], d - 1, B) && Nodes(u, t[b][i], d - 1) == Nodes(t, t[b][i], d - 1)
      {
        InnerKid(t, t[b], d - 1, i);
        InnerTree(t, u, t[b][i], d - 1, B);
        InnerFrame(t, u, t[b][i], d - 1);
      }
      InnerFrame(t, u, b, d);
      assert u[b] == t[b] && KidNodes(u, t[b], d - 1) == KidNodes(t, t[b], d - 1);
    }
  }

  lemma {:induction false} InnerLook(t: Tables, u: Tables, b: nat, d: nat, path: seq<nat>)
    requires SameRows(t, u, Inner(t, b, d)) && |path| <= d
    ensures Look(u, b, path) == Look(t, b, path)
    decreases |path|
  {
    if b != 0 && path != [] && b in t && path[0] < |t[b]| {
      InnerKid(t, t[b], d - 1, path[0]);
      InnerLook(t, u, t[b][path[0]], d - 1, path[1..]);
    }
  }

  // ------------------------------------------------- tables and data are different blocks

  /** A path all the way down does not end at a table. */
  lemma {:induction false} LeafIsNotInner(t: Tables, b: nat, d: nat, path: seq<nat>, B: nat)
    requires Tree(t, b, d, B) && |path| == d && (forall k :: 0 <= k < d ==> path[k] < B) && Look(t, b, path) != 0
    ensures Look(t, b, path) !in Inner(t, b, d)
    decreases d
  {
    if d > 0 {
      var i, x := path[0], Look(t, b, path);
      Kid(t, b, d, i, B);
      LeafIsNotInner(t, t[b][i], d - 1, path[1..], B);
      LookIsNode(t, t[b][i], d - 1, path[1..]);
      forall j | 0 <= j < B ensures x !in Inner(t, t[b][j], d - 1) {
        if j != i { InnerNodes(t, t[b][j], d - 1); }
      }
    }
  }

  /** Every node is a table of B entries or the end of a path all the way down. */
  lemma {:induction false} NodeIsEither(t: Tables, b: nat, d: nat, x: nat, B: nat) returns (path: seq<nat>)
    requires Tree(t, b, d, B) && x in Nodes(t, b, d) && x !in Inner(t, b, d)
    ensures |path| == d && (forall k :: 0 <= k < d ==> path[k] < B) && Look(t, b, path) == x
    decreases d
  {
    if d == 0 {
      path := [];
    } else {
      var i :| 0 <= i < |t[b]| && x in Nodes(t, t[b][i], d - 1);
      InnerKid(t, t[b], d - 1, i);
      Kid(t, b, d, i, B);
      var rest := NodeIsEither(t, t[b][i], d - 1, x, B);
      path := [i] + rest;
      assert path[1..] == rest;
    }
  }

  lemma {:induction false} InnerIsTable(t: Tables, b: nat, d: nat, x: nat, B: nat)
    requires Tree(t, b, d, B) && x in Inner(t, b, d)
    ensures x in t && |t[x]| == B
    decreases d
  {
    if x != b {
      var i :| 0 <= i < |t[b]| && x in Inner(t, t[b][i], d - 1);
      InnerIsTable(t, t[b][i], d - 1, x, B);
    }
  }

  // ------------------------------------------------- a file

  /** The indirect blocks of the file. */
  ghost function FileTables(st: FileState): set<nat> {
    set r, x | 0 <= r < |st.addr| && x in Inner(st.tables, st.addr[r], Depth(r)) :: x
  }

  lemma RootTables(st: FileState, r: nat)
    requires r < |st.addr|
    ensures Inner(st.tables, st.addr[r], Depth(r)) <= FileTables(st)
  {
  }

  lemma TablesAreNodes(st: FileState)
    ensures FileTables(st) <= FileNodes(st)
  {
    forall r, x | 0 <= r < |st.addr| && x in Inner(st.tables, st.addr[r], Depth(r)) ensures x in FileNodes(st) {
      InnerNodes(st.tables, st.addr[r], Depth(r));
      assert x in RootNodes(st, r);
    }
  }

  /** Whatever its other blocks hold, the file has the same blocks. */
  lemma RewrittenNodes(st: FileState, t: Tables)
    requires SameRows(st.tables, t, FileTables(st))
    ensures forall r :: 0 <= r < |st.addr| ==> RootNodes(st.(tables := t), r) == RootNodes(st, r)
    ensures FileNodes(st.(tables := t)) == FileNodes(st)
  {
    forall r | 0 <= r < |st.addr| ensures RootNodes(st.(tables := t), r) == RootNodes(st, r) {
      RootTables(st, r);
      InnerFrame(st.tables, t, st.addr[r], Depth(r));
    }
    SameNodes(st, st.(tables := t));
  }

  lemma SameNodes(st: FileState, u: FileState)
    requires |u.addr| == |st.addr| && forall r :: 0 <= r < |st.addr| ==> RootNodes(u, r) == RootNodes(st, r)
    ensures FileNodes(u) == FileNodes(st)
  {
    forall x ensures x in FileNodes(u) <==> x in FileNodes(st) {
      if x in FileNodes(u) {
        var r :| 0 <= r < |u.addr| && x in RootNodes(u, r);
        assert x in RootNodes(st, r);
      }
      if x in FileNodes(st) {
        var r :| 0 <= r < |st.addr| && x in RootNodes(st, r);
        assert x in RootNodes(u, r);
      }
    }
  }

  /** Rewriting any blocks but its tables keeps the file valid and every block where it is. */
  lemma RewrittenKeeps(st: FileState, t: Tables, B: nat)
    requires ValidFile(st, B) && SameRows(st.tables, t, FileTables(st))
    ensures ValidFile(st.(tables := t), B) && FileNodes(st.(tables := t)) == FileNodes(st)
    ensures forall f: nat :: f < MaxBlocks(B) ==> MapOf(st.(tables := t), f, B) == MapOf(st, f, B)
  {
    RewrittenNodes(st, t);
    forall r | 0 <= r < ADDRESSES ensures Tree(t, st.addr[r], Depth(r), B) {
      RootTables(st, r);
      InnerTree(st.tables, t, st.addr[r], Depth(r), B);
    }
    forall f: nat | f < MaxBlocks(B) ensures MapOf(st.(tables := t), f, B) == MapOf(st, f, B) {
      PlaceInverse(f, B);
      var p := PlaceOf(f, B);
      RootTables(st, p.root);
      InnerLook(st.tables, t, st.addr[p.root], Depth(p.root), p.path);
    }
  }

  /** x is the disk block of some file block. */
  ghost predicate HoldsData(st: FileState, x: nat, B: nat)
    requires |st.addr| == ADDRESSES && B > 0
  {
    exists f: nat :: f < MaxBlocks(B) && MapOf(st, f, B) == x != 0
  }

  lemma DataIsNotTable(st: FileState, x: nat, B: nat)
    requires ValidFile(st, B) && HoldsData(st, x, B)
    ensures x in FileNodes(st) && x !in FileTables(st)
  {
    var f: nat :| f < MaxBlocks(B) && MapOf(st, f, B) == x != 0;
    PlaceInverse(f, B);
    var p := PlaceOf(f, B);
    LookIsNode(st.tables, st.addr[p.root], Depth(p.root), p.path);
    assert x in RootNodes(st, p.root);
    LeafIsNotInner(st.tables, st.addr[p.root], Depth(p.root), p.path, B);
    forall r | 0 <= r < ADDRESSES ensures x !in Inner(st.tables, st.addr[r], Depth(r)) {
      if r != p.root {
        InnerNodes(st.tables, st.addr[r], Depth(r));
        assert RootNodes(st, r) !! RootNodes(st, p.root);
      }
    }
  }

  /** Every block of the file is a data block or a table of B entries. */
  lemma DataOrTable(st: FileState, x: nat, B: nat)
    requires ValidFile(st, B) && x in FileNodes(st)
    ensures HoldsData(st, x, B) || (x in st.tables && |st.tables[x]| == B)
  {
    var r :| 0 <= r < ADDRESSES && x in RootNodes(st, r);
    if x in Inner(st.tables, st.addr[r], Depth(r)) {
      InnerIsTable(st.tables, st.addr[r], Depth(r), x, B);
    } else {
      NodesNonzero(st.tables, st.addr[r], Depth(r));
      var path := NodeIsEither(st.tables, st.addr[r], Depth(r), x, B);
      var p := Place(r, path);
      PlaceUnique(p, B);
      assert MapOf(st, BlockAt(p, B), B) == x;
    }
  }
}
