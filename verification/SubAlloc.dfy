/** The memory sub-allocator (vm/vmalloc.c) for chunks of 512, 1024 and 2048 bytes. */
module SubAlloc {
  import opened Basics

  const UNITS := 8                // 512-byte units in a page

  /** Chunk sizes in units, and the list of the pages cut into such chunks: bsf(size >> 9) + 1. */
  predicate IsSize(u: nat) {
    u == 1 || u == 2 || u == 4
  }

  function Index(u: nat): nat {
    if u == 1 then 1 else if u == 2 then 2 else 3
  }

  /** The unit at which the chunk of unit k begins. */
  function Group(k: nat, u: nat): nat {
    if u == 1 then k else if u == 2 then k / 2 * 2 else k / 4 * 4
  }

  /** All units of a page. */
  function All(): set<nat> {
    {0, 1, 2, 3, 4, 5, 6, 7}
  }

  /** The units of the chunk at an offset. */
  function Units(offset: nat, u: nat): set<nat> {
    set k | k in All() && offset <= k < offset + u
  }

  /** A chunk handed out: its page, its first unit and its size in units. */
  datatype Chunk = Chunk(page: nat, offset: nat, units: nat)

  /** bsf: the least free unit. */
  function Least(map_: set<nat>): (k: nat)
    requires map_ != {} && map_ <= All()
    ensures k in map_ && forall j :: j in map_ ==> k <= j
  {
    if 0 in map_ then 0 else if 1 in map_ then 1 else if 2 in map_ then 2 else if 3 in map_ then 3
    else if 4 in map_ then 4 else if 5 in map_ then 5 else if 6 in map_ then 6 else 7
  }

  /** The free units of a page of size u are those whose chunk has not been handed out. */
  predicate MapOk(map_: set<nat>, u: nat, page: nat, live: set<Chunk>) {
    map_ <= All() && forall k :: k in All() ==> (k in map_ <==> Chunk(page, Group(k, u), u) !in live)
  }

  /** All chunks of the page before this one have been handed out. */
  predicate First(live: set<Chunk>, page: nat, offset: nat, u: nat) {
    forall o: nat :: o < offset && Group(o, u) == o ==> Chunk(page, o, u) in live
  }

  lemma LeastIsFirst(map_: set<nat>, u: nat, page: nat, live: set<Chunk>)
    requires map_ != {} && MapOk(map_, u, page, live)
    ensures First(live, page, Least(map_), u)
  {
    forall o: nat | o < Least(map_) && Group(o, u) == o ensures Chunk(page, o, u) in live {
      assert o in All() && o !in map_;
    }
  }

  /** Chunks are aligned, inside their page, and of the size their page is cut into. */
  predicate ChunkOk(c: Chunk, sizes: seq<nat>) {
    && c.page < |sizes| && IsSize(c.units) && sizes[c.page] == c.units
    && c.offset + c.units <= UNITS && Group(c.offset, c.units) == c.offset
  }

  /** Two chunks of one page that share a unit are the same. */
  lemma ChunksApart(c: Chunk, d: Chunk, sizes: seq<nat>)
    requires ChunkOk(c, sizes) && ChunkOk(d, sizes) && c != d && c.page == d.page
    ensures Units(c.offset, c.units) !! Units(d.offset, d.units)
  {
  }

  // ------------------------------------------------- lists of pages

  /** A list linked both ways from its head; 0 ends it. */
  predicate ListOk(head: nat, next: seq<nat>, prev: seq<nat>, xs: seq<nat>) {
    && |next| == |prev| && head == (if xs == [] then 0 else xs[0])
    && forall i :: 0 <= i < |xs| ==> LinkAt(next, prev, xs, i)
  }

  predicate LinkAt(next: seq<nat>, prev: seq<nat>, xs: seq<nat>, i: nat)
    requires i < |xs| && |next| == |prev|
  {
    && 0 < xs[i] < |next| && next[xs[i]] == (if i + 1 < |xs| then xs[i + 1] else 0)
    && prev[xs[i]] == if i > 0 then xs[i - 1] else 0
  }

  lemma ListInsert(head: nat, next: seq<nat>, prev: seq<nat>, xs: seq<nat>, k: nat)
    requires ListOk(head, next, prev, xs) && k !in xs && 0 < k < |next|
    ensures xs != [] ==> head < |prev|
    ensures var prev' := if xs == [] then prev else prev[head := k];
      ListOk(k, next[k := head], prev'[k := 0], [k] + xs)
  {
    var ys := [k] + xs;
    if xs != [] { assert LinkAt(next, prev, xs, 0); }
    var next', prev' := next[k := head], (if xs == [] then prev else prev[head := k])[k := 0];
    forall i | 0 <= i < |ys| ensures LinkAt(next', prev', ys, i) {
      if i > 0 { assert LinkAt(next, prev, xs, i - 1) && ys[i] == xs[i - 1]; }
      if i > 1 { assert LinkAt(next, prev, xs, 0) && LinkAt(next, prev, xs, i - 2); }
    }
  }

  /** What vm_alloc_delete() does to the links. */
  function NextAfter(next: seq<nat>, prev: seq<nat>, k: nat): seq<nat>
    requires k < |next| == |prev| && prev[k] < |next|
  {
    if prev[k] != 0 then next[prev[k] := next[k]] else next
  }

  function PrevAfter(next: seq<nat>, prev: seq<nat>, k: nat): seq<nat>
    requires k < |next| == |prev| && next[k] < |next|
  {
    if next[k] != 0 then prev[next[k] := prev[k]] else prev
  }

  lemma ListDelete(head: nat, next: seq<nat>, prev: seq<nat>, xs: seq<nat>, i: nat)
    requires ListOk(head, next, prev, xs) && NoDup(xs) && i < |xs|
    ensures xs[i] < |next| && prev[xs[i]] < |next| && next[xs[i]] < |next|
    ensures ListOk(if prev[xs[i]] == 0 then next[xs[i]] else head,
      NextAfter(next, prev, xs[i]), PrevAfter(next, prev, xs[i]),
      xs[..i] + xs[i + 1..])
  {
    var ys := xs[..i] + xs[i + 1..];
    assert LinkAt(next, prev, xs, i);
    if i > 0 { assert LinkAt(next, prev, xs, i - 1); }
    if i + 1 < |xs| { assert LinkAt(next, prev, xs, i + 1); }
    forall j | 0 <= j < |ys| ensures LinkAt(NextAfter(next, prev, xs[i]), PrevAfter(next, prev, xs[i]), ys, j) {
      assert LinkAt(next, prev, xs, if j < i then j else j + 1);
      assert ys[j] == xs[if j < i then j else j + 1];
    }
  }

  /** The four lists (the first is not used), with no page in two of them. */
  predicate ListsOk(heads: seq<nat>, next: seq<nat>, prev: seq<nat>, lists: seq<seq<nat>>) {
    && |heads| == |lists| == 4
    && (forall i :: 0 <= i < 4 ==> ListOk(heads[i], next, prev, lists[i]) && NoDup(lists[i]))
    && forall i, j, k :: 0 <= i < 4 && 0 <= j < 4 && k in lists[i] && k in lists[j] ==> i == j
  }

  predicate InLists(lists: seq<seq<nat>>, k: nat) {
    exists i :: 0 <= i < |lists| && k in lists[i]
  }

  /** A list does not notice changes of the links of pages that it does not hold. */
  lemma ListFrame(head: nat, next: seq<nat>, prev: seq<nat>, xs: seq<nat>, next': seq<nat>, prev': seq<nat>)
    requires ListOk(head, next, prev, xs) && |next'| == |prev'| == |next|
    requires forall k :: k in xs && k < |next| ==> next'[k] == next[k] && prev'[k] == prev[k]
    ensures ListOk(head, next', prev', xs)
  {
    forall i | 0 <= i < |xs| ensures LinkAt(next', prev', xs, i) {
      assert LinkAt(next, prev, xs, i) && xs[i] in xs;
    }
  }

  lemma ListsInsert(heads: seq<nat>, next: seq<nat>, prev: seq<nat>, lists: seq<seq<nat>>, j: nat, k: nat)
    requires ListsOk(heads, next, prev, lists) && j < 4 && 0 < k < |next| && !InLists(lists, k)
    ensures heads[j] != 0 ==> heads[j] < |prev|
    ensures var prev' := if heads[j] == 0 then prev else prev[heads[j] := k];
      ListsOk(heads[j := k], next[k := heads[j]], prev'[k := 0], lists[j := [k] + lists[j]])
  {
    var xs := lists[j];
    assert ListOk(heads[j], next, prev, xs) && NoDup(xs);
    if xs != [] { assert LinkAt(next, prev, xs, 0); }
    assert k !in xs;
    ListInsert(heads[j], next, prev, xs, k);
    var next', prev' := next[k := heads[j]], (if heads[j] == 0 then prev else prev[heads[j] := k])[k := 0];
    forall i | 0 <= i < 4 && i != j ensures ListOk(heads[i], next', prev', lists[i]) {
      assert ListOk(heads[i], next, prev, lists[i]) && k !in lists[i];
      if xs != [] { assert xs[0] in xs; }
      ListFrame(heads[i], next, prev, lists[i], next', prev');
    }
    forall x ensures x in lists[j := [k] + xs][j] <==> x in xs || x == k {}
  }

  lemma ListsDelete(heads: seq<nat>, next: seq<nat>, prev: seq<nat>, lists: seq<seq<nat>>, j: nat, n: nat)
    requires ListsOk(heads, next, prev, lists) && j < 4 && n < |lists[j]|
    ensures var k := lists[j][n]; k < |next| == |prev| && prev[k] < |next| && next[k] < |next|
    ensures var k := lists[j][n]; var after := lists[j := lists[j][..n] + lists[j][n + 1..]];
      ListsOk(if prev[k] == 0 then heads[j := next[k]] else heads,
        NextAfter(next, prev, k), PrevAfter(next, prev, k), after)
      && forall i, x :: 0 <= i < 4 ==> (x in after[i] <==> x in lists[i] && x != k)
  {
    var xs, k := lists[j], lists[j][n];
    assert ListOk(heads[j], next, prev, xs) && NoDup(xs);
    ListDelete(heads[j], next, prev, xs, n);
    assert LinkAt(next, prev, xs, n);
    var ys := xs[..n] + xs[n + 1..];
    forall x ensures x in ys <==> x in xs && x != k {
      if x in xs && x != k {
        var m :| 0 <= m < |xs| && xs[m] == x;
        assert ys[if m < n then m else m - 1] == x;
      }
    }
    forall i | 0 <= i < 4 && i != j
      ensures ListOk(heads[i], NextAfter(next, prev, k), PrevAfter(next, prev, k), lists[i])
    {
      assert ListOk(heads[i], next, prev, lists[i]);
      if n > 0 { assert xs[n - 1] in xs; }
      if n + 1 < |xs| { assert xs[n + 1] in xs; }
      ListFrame(heads[i], next, prev, lists[i], NextAfter(next, prev, k), PrevAfter(next, prev, k));
    }
  }

  // ------------------------------------------------- the state, as values

  /** A page that is cut into chunks: its map is the complement of its live chunks, it is on the
      list of its size if and only if it is not full, and it is not empty. */
  predicate PageOk(p: nat, map_: set<nat>, u: nat, lists: seq<seq<nat>>, live: set<Chunk>)
    requires |lists| == 4
  {
    && (u != 0 ==> IsSize(u) && MapOk(map_, u, p, live) && map_ != All())
    && forall i :: 0 <= i < 4 ==> (p in lists[i] <==> u != 0 && i == Index(u) && map_ != {})
  }

  /** Chunks and pages agree, but for the page except; no page is exempt if that is not one. */
  ghost predicate PagesOk(maps: seq<set<nat>>, sizes: seq<nat>, lists: seq<seq<nat>>, live: set<Chunk>, except: nat) {
    && |maps| == |sizes| && |lists| == 4
    && (forall c :: c in live ==> ChunkOk(c, sizes))
    && forall p: nat :: p < |sizes| && p != except ==> PageOk(p, maps[p], sizes[p], lists, live)
  }

  /** Only one page, its lists and its chunks have changed, and that page is sound. */
  lemma PageBack(maps: seq<set<nat>>, sizes: seq<nat>, lists: seq<seq<nat>>, live: set<Chunk>, maps': seq<set<nat>>,
                 sizes': seq<nat>, lists': seq<seq<nat>>, live': set<Chunk>, page: nat)
    requires PagesOk(maps, sizes, lists, live, page) || PagesOk(maps, sizes, lists, live, |sizes|)
    requires |maps'| == |sizes'| == |sizes| && |lists'| == 4 && page < |sizes|
    requires forall p: nat :: p < |sizes| && p != page ==> maps'[p] == maps[p] && sizes'[p] == sizes[p]
    requires forall i, x :: 0 <= i < 4 && x != page ==> (x in lists'[i] <==> x in lists[i])
    requires forall c: Chunk :: c.page != page ==> (c in live' <==> c in live)
    requires forall c :: c in live' && c.page == page ==> ChunkOk(c, sizes')
    requires PageOk(page, maps'[page], sizes'[page], lists', live')
    ensures PagesOk(maps', sizes', lists', live', |sizes'|)
  {
    forall p: nat | p < |sizes| ensures PageOk(p, maps'[p], sizes'[p], lists', live') {
      if p != page { assert PageOk(p, maps[p], sizes[p], lists, live); }
    }
    forall c | c in live' ensures ChunkOk(c, sizes') {
      if c.page != page { assert ChunkOk(c, sizes); }
    }
  }

  /** Every page is in its pool or cut into chunks, and a page that is cut knows its pool. */
  ghost predicate HomesOk(pool: set<nat>, general: set<nat>, home: set<nat>, all: set<nat>, sizes: seq<nat>,
                          dedicated: seq<bool>) {
    && |dedicated| == |sizes| && pool !! general
    && (forall p :: p in pool + general ==> 0 < p < |sizes| && sizes[p] == 0)
    && (forall p :: p in pool ==> p in home) && (forall p :: p in general ==> p !in home)
    && (forall p: nat :: p < |sizes| && sizes[p] != 0 ==> dedicated[p] == (p in home))
    && forall p: nat :: p < |sizes| ==> (p in all <==> p in pool + general || sizes[p] != 0)
  }

  lemma HomeLeft(pool: set<nat>, general: set<nat>, home: set<nat>, all: set<nat>, sizes: seq<nat>,
                 dedicated: seq<bool>, page: nat, u: nat)
    requires HomesOk(pool, general, home, all, sizes, dedicated) && page in pool + general && u != 0
    ensures 0 < page < |sizes| && sizes[page] == 0
    ensures HomesOk(pool - {page}, general - {page}, home, all, sizes[page := u], dedicated[page := page in pool])
  {
  }

  lemma HomeAgain(pool: set<nat>, general: set<nat>, home: set<nat>, all: set<nat>, sizes: seq<nat>,
                  dedicated: seq<bool>, page: nat)
    requires HomesOk(pool, general, home, all, sizes, dedicated) && 0 < page < |sizes| && sizes[page] != 0
    ensures dedicated[page] == (page in home) && page !in pool + general
    ensures var d := dedicated[page];
      HomesOk(if d then pool + {page} else pool, if d then general else general + {page}, home, all, sizes[page := 0],
              dedicated)
  {
  }

  lemma TakeUnits(map_: set<nat>, u: nat, p: nat, live: set<Chunk>)
    requires IsSize(u) && MapOk(map_, u, p, live) && map_ != {}
    ensures var o := Least(map_);
      && Group(o, u) == o && o + u <= UNITS && Units(o, u) <= map_ && Chunk(p, o, u) !in live
      && MapOk(map_ - Units(o, u), u, p, live + {Chunk(p, o, u)}) && map_ - Units(o, u) != All()
  {
    var o := Least(map_);
    forall k | k in All() ensures k in map_ - Units(o, u) <==> Chunk(p, Group(k, u), u) !in live + {Chunk(p, o, u)} {
      assert Group(k, u) == o <==> o <= k < o + u;
    }
  }

  /** vm_free() puts the units back that vm_alloc() took. */
  lemma GiveUnits(map_: set<nat>, u: nat, p: nat, live: set<Chunk>, o: nat)
    requires IsSize(u) && MapOk(map_, u, p, live) && Chunk(p, o, u) in live && Group(o, u) == o && o + u <= UNITS
    ensures Units(o, u) !! map_ && MapOk(map_ + Units(o, u), u, p, live - {Chunk(p, o, u)}) && map_ + Units(o, u) != {}
  {
    forall k | k in All() ensures k in map_ + Units(o, u) <==> Chunk(p, Group(k, u), u) !in live - {Chunk(p, o, u)} {
      assert Group(k, u) == o <==> o <= k < o + u;
    }
    assert o in Units(o, u);
  }

  /** Allocating and freeing leave the map as it was. */
  lemma FreeUndoesAlloc(map_: set<nat>, u: nat, p: nat, live: set<Chunk>)
    requires IsSize(u) && MapOk(map_, u, p, live) && map_ != {}
    ensures var o := Least(map_); map_ - Units(o, u) + Units(o, u) == map_
  {
    TakeUnits(map_, u, p, live);
  }
}
