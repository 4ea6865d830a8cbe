/** What tfsck's accounting of sizes finds: whether a file has a block past its size. */
module FsckTidy {
  import opened Arith
  import opened BlockMap
  import opened InodeMap
  import opened HoleReports
  import opened Truncate
  import opened Layout
  import opened FsckModel

  // ------------------------------------------------- the last block of a tree

  /** All tables of the tree are there. */
  predicate Full(t: Tables, b: nat, d: nat)
    decreases d
  {
    d == 0 || (b != 0 && b in t && forall i :: 0 <= i < |t[b]| ==> Full(t, t[b][i], d - 1))
  }

  /** No block of the tree lies behind a missing table. */
  predicate Packed(t: Tables, b: nat, d: nat)
    decreases d
  {
    b == 0 || d == 0 || b !in t
    || (RowPacked(t, t[b], d - 1) && forall i :: 0 <= i < |t[b]| ==> Packed(t, t[b][i], d - 1))
  }

  predicate RowPacked(t: Tables, row: seq<nat>, d: nat) {
    forall i, j :: 0 <= i < j < |row| && row[j] != 0 ==> Full(t, row[i], d)
  }

  lemma {:induction false} FullPacked(t: Tables, b: nat, d: nat)
    requires Full(t, b, d)
    ensures Packed(t, b, d)
    decreases d
  {
    if d > 0 {
      forall i | 0 <= i < |t[b]| ensures Packed(t, t[b][i], d - 1) { FullPacked(t, t[b][i], d - 1); }
    }
  }

  /** One past the last entry in use. */
  function Used(row: seq<nat>): (n: nat)
    ensures n <= |row| && (n > 0 ==> row[n - 1] != 0) && forall i :: n <= i < |row| ==> row[i] == 0
  {
    if row == [] then 0
    else if row[|row| - 1] != 0 then |row|
    else
      assert forall i :: 0 <= i < |row| - 1 ==> row[..|row| - 1][i] == row[i];
      Used(row[..|row| - 1])
  }

  /** The position where the last block of the tree, data or table, begins. */
  function Top(t: Tables, b: nat, d: nat, B: nat): nat
    decreases d
  {
    if d == 0 || b !in t || Used(t[b]) == 0 then 0
    else (Used(t[b]) - 1) * Span(d - 1, B) + Top(t, t[b][Used(t[b]) - 1], d - 1, B)
  }

  lemma Spans(d: nat, B: nat)
    requires 1 <= d <= 3
    ensures Span(d, B) == B * Span(d - 1, B)
  {
  }

  lemma {:induction false} SpanPositive(d: nat, B: nat)
    requires d <= 3 && B > 0
    ensures Span(d, B) > 0
  {
    if d > 0 {
      SpanPositive(d - 1, B);
      MulMono(1, B, Span(d - 1, B));
      Spans(d, B);
    }
  }

  lemma {:induction false} TopBelow(t: Tables, b: nat, d: nat, B: nat)
    requires B > 0 && d <= 3 && Tree(t, b, d, B) && b != 0
    ensures Top(t, b, d, B) < Span(d, B)
    decreases d
  {
    SpanPositive(d, B);
    if d > 0 && Used(t[b]) > 0 {
      var i := Used(t[b]) - 1;
      Kid(t, b, d, i, B);
      TopBelow(t, t[b][i], d - 1, B);
      Below(i, Top(t, t[b][i], d - 1, B), Span(d - 1, B), B);
      Spans(d, B);
    }
  }

  /** Entry i of the table b is in use. */
  ghost predicate InTable(t: Tables, b: nat, d: nat, i: nat, B: nat) {
    B > 0 && 0 < d <= 3 && Tree(t, b, d, B) && b != 0 && i < |t[b]| && t[b][i] != 0
  }

  /** The position where the last block below entry i begins. */
  function KidTop(t: Tables, row: seq<nat>, d: nat, i: nat, B: nat): nat
    requires i < |row|
  {
    i * Span(d, B) + Top(t, row[i], d, B)
  }

  lemma TopIs(t: Tables, b: nat, d: nat, i: nat, B: nat)
    requires 0 < d && b in t && i == Used(t[b]) - 1
    ensures Top(t, b, d, B) == KidTop(t, t[b], d - 1, i, B)
  {
  }

  lemma KidTopBelow(t: Tables, b: nat, d: nat, i: nat, B: nat)
    requires InTable(t, b, d, i, B)
    ensures i < Used(t[b]) && Top(t, t[b][i], d - 1, B) < Span(d - 1, B)
  {
    Kid(t, b, d, i, B);
    TopBelow(t, t[b][i], d - 1, B);
  }

  lemma KidsBelow(t: Tables, row: seq<nat>, d: nat, i: nat, j: nat, B: nat)
    requires i < j < |row| && Top(t, row[i], d, B) < Span(d, B)
    ensures KidTop(t, row, d, i, B) < KidTop(t, row, d, j, B)
  {
    Below(i, Top(t, row[i], d, B), Span(d, B), j);
  }

  /** The last block below any entry but the last one begins before the one below that. */
  lemma KidBelow(t: Tables, b: nat, d: nat, i: nat, B: nat)
    requires InTable(t, b, d, i, B)
    ensures i < Used(t[b])
    ensures KidTop(t, t[b], d - 1, i, B) < Top(t, b, d, B)
      || (i == Used(t[b]) - 1 && KidTop(t, t[b], d - 1, i, B) == Top(t, b, d, B))
  {
    KidTopBelow(t, b, d, i, B);
    TopIs(t, b, d, Used(t[b]) - 1, B);
    if i < Used(t[b]) - 1 { KidsBelow(t, t[b], d - 1, i, Used(t[b]) - 1, B); }
  }

  // ------------------------------------------------- what truncation would release

  /** Truncation at c releases something of the tree exactly if its last block begins at or past c. */
  lemma {:induction false} PastTop(t: Tables, b: nat, d: nat, c: nat, B: nat)
    requires B > 0 && d <= 3 && Tree(t, b, d, B) && b != 0
    ensures Past(t, b, d, c, B) == {} <==> Top(t, b, d, B) < c
    decreases d, 1
  {
    if c == 0 {
      assert b in Past(t, b, d, c, B);
    } else if d > 0 {
      assert Past(t, b, d, c, B) == PastKids(t, t[b], d - 1, c, B);
      if Top(t, b, d, B) < c { NothingPast(t, b, d, c, B); } else { SomethingPast(t, b, d, c, B); }
    }
  }

  lemma {:induction false} PastKidTop(t: Tables, b: nat, d: nat, i: nat, c: nat, B: nat)
    requires InTable(t, b, d, i, B) && c > 0
    ensures PastKid(t, t[b], i, d - 1, c, B) == {} <==> KidTop(t, t[b], d - 1, i, B) < c
    decreases d, 0, 0
  {
    Kid(t, b, d, i, B);
    PastTop(t, t[b][i], d - 1, KidCut(c, i, d - 1, B), B);
  }

  lemma {:induction false} NothingPast(t: Tables, b: nat, d: nat, c: nat, B: nat)
    requires B > 0 && 0 < d <= 3 && Tree(t, b, d, B) && b != 0 && c > 0 && Top(t, b, d, B) < c
    ensures PastKids(t, t[b], d - 1, c, B) == {}
    decreases d, 0, 1
  {
    if PastKids(t, t[b], d - 1, c, B) != {} {
      var x :| x in PastKids(t, t[b], d - 1, c, B);
      var i :| 0 <= i < |t[b]| && x in PastKid(t, t[b], i, d - 1, c, B);
      PastKidTop(t, b, d, i, c, B);
      KidBelow(t, b, d, i, B);
    }
  }

  lemma {:induction false} SomethingPast(t: Tables, b: nat, d: nat, c: nat, B: nat)
    requires B > 0 && 0 < d <= 3 && Tree(t, b, d, B) && b != 0 && c > 0 && Top(t, b, d, B) >= c
    ensures PastKids(t, t[b], d - 1, c, B) != {}
    decreases d, 0, 1
  {
    var i := Used(t[b]) - 1;
    PastKidTop(t, b, d, i, c, B);
    var x :| x in PastKid(t, t[b], i, d - 1, c, B);
    assert x in PastKids(t, t[b], d - 1, c, B);
  }

  // ------------------------------------------------- what tfsck counts

  /** Walking a tree uses up at most its span of blocks, and all of it exactly if every table is there. */
  lemma {:induction false} SizeBounds(t: Tables, b: nat, d: nat, size: int, B: nat)
    requires d <= 3 && Tree(t, b, d, B)
    ensures size - BLKSZ * Span(d, B) <= SizeAfter(t, b, d, size) <= size
    ensures Full(t, b, d) ==> SizeAfter(t, b, d, size) == size - BLKSZ * Span(d, B)
    ensures !Full(t, b, d) && B > 0 ==> size - BLKSZ * (Span(d, B) - 1) <= SizeAfter(t, b, d, size)
    decreases d, 1, 0
  {
    if d > 0 {
      if b == 0 {
        if B > 0 { SpanPositive(d, B); }
      } else {
        RowBounds(t, b, d, B, size, B);
        Spans(d, B);
      }
    }
  }

  /** The first n entries of a table. */
  predicate FullTo(t: Tables, row: seq<nat>, d: nat, n: nat)
    requires n <= |row|
  {
    forall i :: 0 <= i < n ==> Full(t, row[i], d)
  }

  /** The size left lies between these bounds. */
  predicate Left(left: int, size: int, blocks: nat, full: bool) {
    && size - BLKSZ * blocks <= left <= size
    && (full ==> left == size - BLKSZ * blocks) && (!full ==> size - BLKSZ * (blocks - 1) <= left)
  }

  lemma {:induction false} RowBounds(t: Tables, b: nat, d: nat, n: nat, size: int, B: nat)
    requires 0 < d <= 3 && Tree(t, b, d, B) && b != 0 && n <= B
    ensures Left(RowSize(t, t[b], d - 1, n, size), size, n * Span(d - 1, B), FullTo(t, t[b], d - 1, n))
    decreases d, 0, n
  {
    if n > 0 {
      var row, S := t[b], Span(d - 1, B);
      Kid(t, b, d, n - 1, B);
      RowBounds(t, b, d, n - 1, size, B);
      SizeBounds(t, row[n - 1], d - 1, RowSize(t, row, d - 1, n - 1, size), B);
      OneMore(n, S);
      FullOneMore(t, row, d - 1, n);
    }
  }

  lemma OneMore(n: nat, S: nat)
    requires n > 0
    ensures (n - 1) * S + S == n * S
  {
  }

  lemma FullOneMore(t: Tables, row: seq<nat>, d: nat, n: nat)
    requires 0 < n <= |row|
    ensures FullTo(t, row, d, n) <==> FullTo(t, row, d, n - 1) && Full(t, row[n - 1], d)
  {
  }

  /** Size enough for the last block below every one of the first n entries. */
  predicate Enough(t: Tables, row: seq<nat>, d: nat, n: nat, size: int, B: nat)
    requires n <= |row|
  {
    forall i :: 0 <= i < n && row[i] != 0 ==> size > BLKSZ * KidTop(t, row, d, i, B)
  }

  /** Size enough for the last block is enough for the tree. */
  lemma {:induction false} TopWithin(t: Tables, b: nat, d: nat, size: int, B: nat)
    requires B > 0 && d <= 3 && Tree(t, b, d, B) && b != 0 && size > BLKSZ * Top(t, b, d, B)
    ensures Within(t, b, d, size)
    decreases d, 1, 0
  {
    if d > 0 {
      forall i | 0 <= i < |t[b]| && t[b][i] != 0 ensures size > BLKSZ * KidTop(t, t[b], d - 1, i, B) {
        KidBelow(t, b, d, i, B);
      }
      EnoughWithin(t, b, d, B, size, B);
    }
  }

  lemma {:induction false} EnoughWithin(t: Tables, b: nat, d: nat, n: nat, size: int, B: nat)
    requires B > 0 && 0 < d <= 3 && Tree(t, b, d, B) && b != 0 && n <= B && Enough(t, t[b], d - 1, n, size, B)
    ensures RowWithin(t, t[b], d - 1, n, size)
    decreases d, 0, n
  {
    if n > 0 {
      EnoughWithin(t, b, d, n - 1, size, B);
      if t[b][n - 1] != 0 {
        Kid(t, b, d, n - 1, B);
        RowBounds(t, b, d, n - 1, size, B);
        TopWithin(t, t[b][n - 1], d - 1, RowSize(t, t[b], d - 1, n - 1, size), B);
      }
    }
  }

  /** In a packed tree no less will do. */
  lemma {:induction false} WithinTop(t: Tables, b: nat, d: nat, size: int, B: nat)
    requires B > 0 && d <= 3 && Tree(t, b, d, B) && b != 0 && Packed(t, b, d) && Within(t, b, d, size)
    ensures size > BLKSZ * Top(t, b, d, B)
    decreases d
  {
    if d > 0 && Used(t[b]) > 0 {
      var kid, left, p := LastLeft(t, b, d, size, B);
      WithinTop(t, kid, d - 1, left, B);
    }
  }

  /** What is left of the size at the last entry in use. */
  lemma LastLeft(t: Tables, b: nat, d: nat, size: int, B: nat) returns (kid: nat, left: int, p: nat)
    requires 0 < d <= 3 && Tree(t, b, d, B) && b != 0 && Packed(t, b, d) && Within(t, b, d, size) && Used(t[b]) > 0
    ensures kid != 0 && Tree(t, kid, d - 1, B) && Packed(t, kid, d - 1) && Within(t, kid, d - 1, left)
    ensures left == size - BLKSZ * p && Top(t, b, d, B) == p + Top(t, kid, d - 1, B)
  {
    var i := Used(t[b]) - 1;
    kid, left := t[b][i], RowSize(t, t[b], d - 1, i, size);
    Kid(t, b, d, i, B);
    PartWithin(t, t[b], d - 1, |t[b]|, i, size);
    UsedFull(t, b, d);
    p := FullLeft(t, b, d, i, size, B);
  }

  /** All tables before the last entry are there. */
  lemma FullLeft(t: Tables, b: nat, d: nat, i: nat, size: int, B: nat) returns (p: nat)
    requires 0 < d <= 3 && Tree(t, b, d, B) && b != 0 && i == Used(t[b]) - 1 && FullTo(t, t[b], d - 1, i)
    ensures RowSize(t, t[b], d - 1, i, size) == size - BLKSZ * p
    ensures Top(t, b, d, B) == p + Top(t, t[b][i], d - 1, B)
  {
    p := i * Span(d - 1, B);
    RowBounds(t, b, d, i, size, B);
    TopIs(t, b, d, i, B);
  }

  lemma UsedFull(t: Tables, b: nat, d: nat)
    requires b != 0 && 0 < d && b in t && Packed(t, b, d) && Used(t[b]) > 0
    ensures FullTo(t, t[b], d - 1, Used(t[b]) - 1) && Packed(t, t[b][Used(t[b]) - 1], d - 1)
  {
  }

  lemma {:induction false} PartWithin(t: Tables, row: seq<nat>, d: nat, n: nat, i: nat, size: int)
    requires i < n <= |row| && RowWithin(t, row, d, n, size)
    ensures Within(t, row[i], d, RowSize(t, row, d, i, size))
    decreases n
  {
    if i < n - 1 { PartWithin(t, row, d, n - 1, i, size); }
  }

  /** A tree that is not packed: a table is missing before the last entry, or that one is not. */
  lemma LooseLast(t: Tables, b: nat, d: nat, B: nat)
    requires 0 < d && Tree(t, b, d, B) && b != 0 && !Packed(t, b, d)
    ensures var i := Used(t[b]) - 1; i >= 0 && (FullTo(t, t[b], d - 1, i) ==> !Packed(t, t[b][i], d - 1))
  {
    var row, n := t[b], Used(t[b]);
    if n == 0 || FullTo(t, row, d - 1, n - 1) {
      assert RowPacked(t, row, d - 1);
      var i :| 0 <= i < |row| && !Packed(t, row[i], d - 1);
      if i < n - 1 { FullPacked(t, row[i], d - 1); }
    }
  }

  /** In any other tree a block less will do. */
  lemma {:induction false} LooseWithin(t: Tables, b: nat, d: nat, size: int, B: nat)
    requires B > 0 && d <= 3 && Tree(t, b, d, B) && b != 0 && !Packed(t, b, d) && size >= BLKSZ * Top(t, b, d, B)
    ensures Within(t, b, d, size) && Top(t, b, d, B) > 0
    decreases d
  {
    LooseLast(t, b, d, B);
    var i := Used(t[b]) - 1;
    var kid, left := t[b][i], RowSize(t, t[b], d - 1, i, size);
    Kid(t, b, d, i, B);
    var p := LeftAt(t, b, d, i, size, B);
    if Packed(t, kid, d - 1) { TopWithin(t, kid, d - 1, left, B); } else { LooseWithin(t, kid, d - 1, left, B); }
    LastWithin(t, b, d, size, B);
  }

  /** What is left of the size at the last entry in use: a block more if a table is missing before it. */
  lemma LeftAt(t: Tables, b: nat, d: nat, i: nat, size: int, B: nat) returns (p: nat)
    requires B > 0 && 0 < d <= 3 && Tree(t, b, d, B) && b != 0 && i == Used(t[b]) - 1
    ensures Top(t, b, d, B) == p + Top(t, t[b][i], d - 1, B)
    ensures var left := RowSize(t, t[b], d - 1, i, size);
      && left >= size - BLKSZ * p
      && (!FullTo(t, t[b], d - 1, i) ==> left >= size - BLKSZ * p + BLKSZ && p > 0)
  {
    p := i * Span(d - 1, B);
    RowBounds(t, b, d, i, size, B);
    TopIs(t, b, d, i, B);
    if !FullTo(t, t[b], d - 1, i) { SomeSpan(i, d - 1, B); }
  }

  lemma SomeSpan(i: nat, d: nat, B: nat)
    requires B > 0 && d <= 3 && i > 0
    ensures i * Span(d, B) > 0
  {
    SpanPositive(d, B);
    MulMono(1, i, Span(d, B));
  }

  /** If the tree below the last entry in use is in order, the whole table is. */
  lemma LastWithin(t: Tables, b: nat, d: nat, size: int, B: nat)
    requires B > 0 && 0 < d <= 3 && Tree(t, b, d, B) && b != 0 && Used(t[b]) > 0 && size >= BLKSZ * Top(t, b, d, B)
    requires var i := Used(t[b]) - 1; Within(t, t[b][i], d - 1, RowSize(t, t[b], d - 1, i, size))
    ensures RowWithin(t, t[b], d - 1, |t[b]|, size)
  {
    var i := Used(t[b]) - 1;
    forall j | 0 <= j < i && t[b][j] != 0 ensures size > BLKSZ * KidTop(t, t[b], d - 1, j, B) {
      KidBelow(t, b, d, j, B);
    }
    EnoughWithin(t, b, d, i, size, B);
    ZerosWithin(t, t[b], d - 1, i + 1, |t[b]|, size);
  }

  lemma {:induction false} ZerosWithin(t: Tables, row: seq<nat>, d: nat, k: nat, n: nat, size: int)
    requires k <= n <= |row| && RowWithin(t, row, d, k, size) && forall i :: k <= i < |row| ==> row[i] == 0
    ensures RowWithin(t, row, d, n, size)
  {
    if k < n { ZerosWithin(t, row, d, k, n - 1, size); }
  }

  // ------------------------------------------------- a whole file

  /** No block of the file lies behind a missing table. */
  predicate FilePacked(st: FileState)
    requires |st.addr| == ADDRESSES
  {
    && (forall r, s :: 0 <= r < s < ADDRESSES && st.addr[s] != 0 ==> Full(st.tables, st.addr[r], Depth(r)))
    && (forall r :: 0 <= r < ADDRESSES ==> Packed(st.tables, st.addr[r], Depth(r)))
  }

  /** The position where the last block below slot r begins. */
  function SlotTop(st: FileState, r: nat, B: nat): nat
    requires r < |st.addr|
  {
    RootStart(r, B) + Top(st.tables, st.addr[r], Depth(r), B)
  }

  /** Slot r is in use. */
  ghost predicate InFile(st: FileState, r: nat, B: nat) {
    ValidFile(st, B) && r < ADDRESSES && st.addr[r] != 0
  }

  lemma StartNext(r: nat, B: nat)
    requires r < ADDRESSES - 1
    ensures RootStart(r + 1, B) == RootStart(r, B) + Span(Depth(r), B)
  {
  }

  lemma {:induction false} StartMono(r: nat, s: nat, B: nat)
    requires r <= s < ADDRESSES
    ensures RootStart(r, B) <= RootStart(s, B)
  {
    if r < s {
      StartMono(r, s - 1, B);
      StartNext(s - 1, B);
    }
  }

  lemma SlotBelow(st: FileState, r: nat, B: nat)
    requires InFile(st, r, B)
    ensures var n := Used(st.addr); r < n && SlotTop(st, r, B) <= SlotTop(st, n - 1, B)
    ensures var n := Used(st.addr); r < n - 1 ==> SlotTop(st, r, B) < RootStart(n - 1, B)
  {
    TopBelow(st.tables, st.addr[r], Depth(r), B);
    var n := Used(st.addr);
    if r < n - 1 {
      StartNext(r, B);
      StartMono(r + 1, n - 1, B);
    }
  }

  lemma RootPastTop(st: FileState, r: nat, cut: nat, B: nat)
    requires InFile(st, r, B)
    ensures RootPast(st, r, cut, B) == {} <==> SlotTop(st, r, B) < cut
  {
    PastTop(st.tables, st.addr[r], Depth(r), Rest(cut, RootStart(r, B)), B);
  }

  /** Truncation at cut releases something exactly if the last block of the file begins at or past it. */
  lemma FilePastTop(st: FileState, cut: nat, B: nat)
    requires ValidFile(st, B)
    ensures var n := Used(st.addr); FilePast(st, cut, B) == {} <==> n == 0 || SlotTop(st, n - 1, B) < cut
  {
    var n := Used(st.addr);
    if FilePast(st, cut, B) != {} { PastInFile(st, cut, B); }
    if n > 0 && SlotTop(st, n - 1, B) >= cut {
      RootPastTop(st, n - 1, cut, B);
      RootInFile(st, n - 1, cut, B);
    }
  }

  lemma PastInFile(st: FileState, cut: nat, B: nat)
    requires ValidFile(st, B) && FilePast(st, cut, B) != {}
    ensures var n := Used(st.addr); n > 0 && SlotTop(st, n - 1, B) >= cut
  {
    var x :| x in FilePast(st, cut, B);
    var r :| 0 <= r < ADDRESSES && x in RootPast(st, r, cut, B);
    RootPastTop(st, r, cut, B);
    SlotBelow(st, r, B);
  }

  lemma RootInFile(st: FileState, r: nat, cut: nat, B: nat)
    requires |st.addr| == ADDRESSES && r < ADDRESSES
    ensures RootPast(st, r, cut, B) <= FilePast(st, cut, B)
  {
  }

  predicate SlotsFull(st: FileState, n: nat)
    requires n <= |st.addr|
  {
    forall r :: 0 <= r < n ==> Full(st.tables, st.addr[r], Depth(r))
  }

  lemma {:induction false} SlotBounds(st: FileState, n: nat, size: int, B: nat)
    requires ValidFile(st, B) && n < ADDRESSES
    ensures Left(SlotSize(st.tables, st.addr, n, size), size, RootStart(n, B), SlotsFull(st, n))
  {
    if n > 0 {
      SlotBounds(st, n - 1, size, B);
      SizeBounds(st.tables, st.addr[n - 1], Depth(n - 1), SlotSize(st.tables, st.addr, n - 1, size), B);
      StartNext(n - 1, B);
      assert SlotsFull(st, n) <==> SlotsFull(st, n - 1) && Full(st.tables, st.addr[n - 1], Depth(n - 1));
    }
  }

  /** Size enough for the last block below every one of the first n slots. */
  predicate EnoughTo(st: FileState, n: nat, size: int, B: nat)
    requires n <= |st.addr|
  {
    forall r :: 0 <= r < n && st.addr[r] != 0 ==> size > BLKSZ * SlotTop(st, r, B)
  }

  lemma {:induction false} EnoughSlots(st: FileState, n: nat, size: int, B: nat)
    requires ValidFile(st, B) && n <= ADDRESSES && EnoughTo(st, n, size, B)
    ensures SlotWithin(st.tables, st.addr, n, size)
  {
    if n > 0 {
      EnoughSlots(st, n - 1, size, B);
      if st.addr[n - 1] != 0 {
        SlotBounds(st, n - 1, size, B);
        TopWithin(st.tables, st.addr[n - 1], Depth(n - 1), SlotSize(st.tables, st.addr, n - 1, size), B);
      }
    }
  }

  /** A file whose last block lies within the size is in order. */
  lemma TopSlots(st: FileState, size: int, B: nat)
    requires ValidFile(st, B) && (Used(st.addr) > 0 ==> size > BLKSZ * SlotTop(st, Used(st.addr) - 1, B))
    ensures SlotWithin(st.tables, st.addr, ADDRESSES, size)
  {
    forall r | 0 <= r < ADDRESSES && st.addr[r] != 0 ensures size > BLKSZ * SlotTop(st, r, B) {
      SlotBelow(st, r, B);
    }
    EnoughSlots(st, ADDRESSES, size, B);
  }

  lemma {:induction false} SlotPartWithin(t: Tables, addr: seq<nat>, n: nat, r: nat, size: int)
    requires r < n <= |addr| && SlotWithin(t, addr, n, size)
    ensures Within(t, addr[r], Depth(r), SlotSize(t, addr, r, size))
    decreases n
  {
    if r < n - 1 { SlotPartWithin(t, addr, n - 1, r, size); }
  }

  lemma SlotsTop(st: FileState, size: int, B: nat)
    requires ValidFile(st, B) && FilePacked(st) && SlotWithin(st.tables, st.addr, ADDRESSES, size)
    ensures Used(st.addr) > 0 ==> size > BLKSZ * SlotTop(st, Used(st.addr) - 1, B)
  {
    var n := Used(st.addr);
    if n > 0 {
      SlotBounds(st, n - 1, size, B);
      SlotPartWithin(st.tables, st.addr, ADDRESSES, n - 1, size);
      WithinTop(st.tables, st.addr[n - 1], Depth(n - 1), SlotSize(st.tables, st.addr, n - 1, size), B);
    }
  }

  /** A file that is not packed: a table is missing before the last slot in use, or below it. */
  lemma LooseSlot(st: FileState, B: nat)
    requires ValidFile(st, B) && !FilePacked(st)
    ensures var n := Used(st.addr);
      n > 0 && (SlotsFull(st, n - 1) ==> !Packed(st.tables, st.addr[n - 1], Depth(n - 1)))
  {
    var n := Used(st.addr);
    if n == 0 || SlotsFull(st, n - 1) {
      var r :| 0 <= r < ADDRESSES && !Packed(st.tables, st.addr[r], Depth(r));
      if r < n - 1 { FullPacked(st.tables, st.addr[r], Depth(r)); }
    }
  }

  /** Such a file is found in order with its last block past the size. */
  lemma LooseSlots(st: FileState, B: nat)
    requires ValidFile(st, B) && !FilePacked(st)
    ensures Used(st.addr) > 0
    ensures SlotWithin(st.tables, st.addr, ADDRESSES, BLKSZ * SlotTop(st, Used(st.addr) - 1, B))
  {
    LooseSlot(st, B);
    var n := Used(st.addr);
    var size := BLKSZ * SlotTop(st, n - 1, B);
    var left := SlotSize(st.tables, st.addr, n - 1, size);
    SlotBounds(st, n - 1, size, B);
    if SlotsFull(st, n - 1) {
      LooseWithin(st.tables, st.addr[n - 1], Depth(n - 1), left, B);
    } else {
      TopWithin(st.tables, st.addr[n - 1], Depth(n - 1), left, B);
    }
    forall r | 0 <= r < n - 1 && st.addr[r] != 0 ensures size > BLKSZ * SlotTop(st, r, B) {
      SlotBelow(st, r, B);
    }
    EnoughSlots(st, n - 1, size, B);
    ZeroSlots(st, n, ADDRESSES, size);
  }

  lemma {:induction false} ZeroSlots(st: FileState, k: nat, n: nat, size: int)
    requires k <= n <= |st.addr| && SlotWithin(st.tables, st.addr, k, size)
    requires forall r :: k <= r < |st.addr| ==> st.addr[r] == 0
    ensures SlotWithin(st.tables, st.addr, n, size)
  {
    if k < n { ZeroSlots(st, k, n - 1, size); }
  }

  // ------------------------------------------------- the inodes of an image

  /** The number of blocks that hold size bytes. */
  predicate Blocks(cut: nat, size: int) {
    size <= cut * BLKSZ && forall k: nat :: k < cut ==> k * BLKSZ < size
  }

  lemma RoundedIs(cut: nat, size: int)
    requires Blocks(cut, size)
    ensures if size > 0 then Rounded(size) == cut * BLKSZ else cut == 0 && Rounded(size) <= 0
  {
    if cut > 0 { assert (cut - 1) * BLKSZ < size; }
  }

  /** Inode i of cluster c is in use in a consistent image that can be read. */
  ghost predicate Live(im: Image, B: nat, c: nat, i: nat) {
    && Shaped(im, B) && Consistent(im, B) && Readable(im, B) && c < im.sb.clusters && i < im.sb.icluster
    && ClusterShaped(im, c) && InUse(im, c, i)
  }

  /** tfsck accepts every file of which i_truncate() at its size would release nothing. */
  lemma NothingPastIsTidy(im: Image, B: nat, c: nat, i: nat, cut: nat)
    requires Live(im, B, c, i) && Blocks(cut, im.inodes[c][i].size) && FilePast(FileOf(im, B, c, i), cut, B) == {}
    ensures InodeTidy(im, B, c, i)
  {
    var st, size := FileOf(im, B, c, i), im.inodes[c][i].size;
    ConsistentIsValid(im, B, c, i);
    FilePastTop(st, cut, B);
    RoundedIs(cut, size);
    TopSlots(st, Rounded(size), B);
  }

  /** The image with another size in the inode. */
  function Resized(im: Image, c: nat, i: nat, size: int): Image
    requires c < |im.inodes| && i < |im.inodes[c]|
  {
    im.(inodes := im.inodes[c := im.inodes[c][i := im.inodes[c][i].(size := size)]])
  }

  lemma ResizedShaped(im: Image, B: nat, c: nat, i: nat, size: int)
    requires Shaped(im, B) && c < im.sb.clusters && i < im.sb.icluster && c < |im.inodes| && i < |im.inodes[c]|
    ensures Shaped(Resized(im, c, i, size), B)
  {
    forall e | 0 <= e < im.sb.clusters ensures ClusterShaped(Resized(im, c, i, size), e) {
      assert ClusterShaped(im, e);
    }
  }

  /** With this size tfsck accepts the inode exactly if no block of it lies past the size. */
  ghost predicate RightFor(im: Image, B: nat, c: nat, i: nat, size: int, cut: nat)
    requires Live(im, B, c, i)
  {
    ResizedShaped(im, B, c, i, size);
    InodeTidy(Resized(im, c, i, size), B, c, i) <==> FilePast(FileOf(im, B, c, i), cut, B) == {}
  }

  /** In a packed file. */
  lemma SizeIsRight(st: FileState, size: int, cut: nat, B: nat)
    requires ValidFile(st, B) && FilePacked(st) && Blocks(cut, size)
    ensures SlotWithin(st.tables, st.addr, ADDRESSES, Rounded(size)) <==> FilePast(st, cut, B) == {}
  {
    FilePastTop(st, cut, B);
    RoundedIs(cut, size);
    if SlotWithin(st.tables, st.addr, ADDRESSES, Rounded(size)) { SlotsTop(st, Rounded(size), B); }
    if FilePast(st, cut, B) == {} { TopSlots(st, Rounded(size), B); }
  }

  /** Of a packed file tfsck accepts no block that i_truncate() at its size would release. */
  lemma TidyIsNothingPast(im: Image, B: nat, c: nat, i: nat, cut: nat)
    requires Live(im, B, c, i) && FilePacked(FileOf(im, B, c, i)) && Blocks(cut, im.inodes[c][i].size)
    ensures InodeTidy(im, B, c, i) <==> FilePast(FileOf(im, B, c, i), cut, B) == {}
  {
    ConsistentIsValid(im, B, c, i);
    SizeIsRight(FileOf(im, B, c, i), im.inodes[c][i].size, cut, B);
  }

  lemma PackedIsRight(im: Image, B: nat, c: nat, i: nat, size: int, cut: nat)
    requires Live(im, B, c, i) && Blocks(cut, size) && FilePacked(FileOf(im, B, c, i))
    ensures RightFor(im, B, c, i, size, cut)
  {
    ConsistentIsValid(im, B, c, i);
    SizeIsRight(FileOf(im, B, c, i), size, cut, B);
    ResizedShaped(im, B, c, i, size);
  }

  lemma LooseFile(st: FileState, B: nat) returns (cut: nat)
    requires ValidFile(st, B) && !FilePacked(st)
    ensures Blocks(cut, cut * BLKSZ) && FilePast(st, cut, B) != {}
    ensures SlotWithin(st.tables, st.addr, ADDRESSES, Rounded(cut * BLKSZ))
  {
    LooseSlots(st, B);
    cut := SlotTop(st, Used(st.addr) - 1, B);
    FilePastTop(st, cut, B);
    RoundedIs(cut, cut * BLKSZ);
  }

  lemma LooseIsWrong(im: Image, B: nat, c: nat, i: nat) returns (cut: nat)
    requires Live(im, B, c, i) && !FilePacked(FileOf(im, B, c, i))
    ensures Blocks(cut, cut * BLKSZ) && !RightFor(im, B, c, i, cut * BLKSZ, cut)
  {
    ConsistentIsValid(im, B, c, i);
    cut := LooseFile(FileOf(im, B, c, i), B);
    ResizedShaped(im, B, c, i, cut * BLKSZ);
  }

  /** tfsck's notion of a block past the size is that of i_truncate(), whatever the size, exactly
      for the files of which no block lies behind a missing table. */
  lemma TidyIff(im: Image, B: nat, c: nat, i: nat)
    requires Live(im, B, c, i)
    ensures FilePacked(FileOf(im, B, c, i)) <==>
      forall size: int, cut: nat :: Blocks(cut, size) ==> RightFor(im, B, c, i, size, cut)
  {
    if FilePacked(FileOf(im, B, c, i)) {
      forall size: int, cut: nat | Blocks(cut, size) ensures RightFor(im, B, c, i, size, cut) {
        PackedIsRight(im, B, c, i, size, cut);
      }
    } else {
      var cut := LooseIsWrong(im, B, c, i);
    }
  }

  // ------------------------------------------------- one such file

  lemma UsedIs(row: seq<nat>, n: nat)
    requires 0 < n <= |row| && row[n - 1] != 0 && forall i :: n <= i < |row| ==> row[i] == 0
    ensures Used(row) == n
  {
  }

  lemma GapTop(t: Tables)
    requires t == Gap().tables
    ensures Top(t, 100, 2, 256) == 256
  {
    UsedIs(t[100], 2);
    UsedIs(t[101], 1);
    assert Top(t, 7, 0, 256) == 0;
    assert Top(t, 101, 1, 256) == 0;
  }

  /** A file of 532 blocks with only a block behind them, under the second table of the double
      indirect one: as the tables before it are missing, tfsck still has its size left there. */
  lemma TidyFails()
    ensures var st, cut := Gap(), DIRECT_BLOCKS + 256 + 256;
      && ValidFile(st, 256) && FilePast(st, cut, 256) != {}
      && SlotWithin(st.tables, st.addr, ADDRESSES, Rounded(cut * BLKSZ))
  {
    var st, cut := Gap(), DIRECT_BLOCKS + 256 + 256;
    GapIsValid();
    GapRoot(st);
    GapTop(st.tables);
    UsedIs(st.addr, DOUBLE_INDIRECT_BLOCK + 1);
    assert SlotTop(st, DOUBLE_INDIRECT_BLOCK, 256) == cut;
    assert !Full(st.tables, st.addr[SINGLE_INDIRECT_BLOCK], Depth(SINGLE_INDIRECT_BLOCK));
    LooseSlots(st, 256);
    FilePastTop(st, cut, 256);
    RoundedIs(cut, cut * BLKSZ);
  }
}
