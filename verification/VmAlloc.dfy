/** vm_alloc() and vm_free() on the page descriptors. */
module VmAlloc {
  import opened Basics
  import opened SubAlloc

  class SubAllocator {
    const heads: array<nat>         // m_vect[]
    const next: array<nat>          // pgdata[].lnext
    const prev: array<nat>          // pgdata[].lprev
    const maps: array<set<nat>>     // pgdata[].aux.map, as the set of its bits
    const sizes: array<nat>         // pgdata[].block >> 9, 0 for a page that is not cut
    const dedicated: array<bool>    // pgdata[].dedicated
    var pool: set<nat>              // the dedicated pages that are free
    var general: set<nat>           // the free pages
    ghost const home: set<nat>      // the dedicated pages
    ghost const all: set<nat>       // all pages that are in a pool or cut into chunks
    ghost var lists: seq<seq<nat>>
    ghost var live: set<Chunk>

    ghost predicate Shape()
      reads this
    {
      && heads.Length == 4 && heads != next && heads != prev && next != prev
      && heads != sizes && next != sizes && prev != sizes
      && next.Length == prev.Length == maps.Length == sizes.Length == dedicated.Length
    }

    ghost predicate Valid()
      reads this, heads, next, prev, maps, sizes, dedicated
    {
      && Shape() && ListsOk(heads[..], next[..], prev[..], lists)
      && Pages(sizes.Length) && Homes(pool, general, sizes[..], dedicated[..])
    }

    /** PagesOk(), unfolded only where it is used. */
    ghost predicate Pages(except: nat)
      reads this, maps, sizes
    {
      forall n: nat :: n == except ==> PagesOk(maps[..], sizes[..], lists, live, n)
    }

    /** HomesOk(), unfolded only where it is used. */
    ghost predicate Homes(pool: set<nat>, general: set<nat>, sizes: seq<nat>, dedicated: seq<bool>) {
      forall h: set<nat> :: h == home ==> HomesOk(pool, general, h, all, sizes, dedicated)
    }

    constructor (n: nat, pool: set<nat>, general: set<nat>)
      requires pool !! general && forall p :: p in pool + general ==> 0 < p < n
      ensures Valid() && live == {} && this.pool == pool && this.general == general
      ensures fresh(heads) && fresh(next) && fresh(prev) && fresh(maps) && fresh(sizes) && fresh(dedicated)
    {
      heads := new nat[4](i => 0);
      next := new nat[n](i => 0);
      prev := new nat[n](i => 0);
      maps := new set<nat>[n](i => {});
      sizes := new nat[n](i => 0);
      dedicated := new bool[n](i => false);
      this.pool, this.general, home, all := pool, general, pool, pool + general;
      lists, live := [[], [], [], []], {};
      new;
      assert PagesOk(maps[..], sizes[..], lists, live, sizes.Length);
      assert HomesOk(pool, general, home, all, sizes[..], dedicated[..]);
    }

    /** vm_alloc_insert(). */
    method Insert(k: nat, index: nat)
      requires Shape() && ListsOk(heads[..], next[..], prev[..], lists) && index < 4 && 0 < k < next.Length
      requires !InLists(lists, k)
      modifies this`lists, heads, next, prev
      ensures ListsOk(heads[..], next[..], prev[..], lists) && lists == old(lists)[index := [k] + old(lists)[index]]
    {
      ListsInsert(heads[..], next[..], prev[..], lists, index, k);
      ghost var h: seq<nat>, nx: seq<nat>, pv: seq<nat> := heads[..], next[..], prev[..];
      next[k] := heads[index];
      if next[k] != 0 { prev[heads[index]] := k; }
      prev[k] := 0;
      heads[index] := k;
      lists := lists[index := [k] + lists[index]];
      assert next[..] == nx[k := h[index]] && heads[..] == h[index := k];
      assert prev[..] == (if h[index] == 0 then pv else pv[h[index] := k])[k := 0];
    }

    /** vm_alloc_delete(). */
    method Delete(k: nat, index: nat)
      requires Shape() && ListsOk(heads[..], next[..], prev[..], lists) && index < 4 && k in lists[index]
      modifies this`lists, heads, next, prev
      ensures ListsOk(heads[..], next[..], prev[..], lists)
      ensures |lists| == |old(lists)| && forall i, x :: 0 <= i < 4 ==> (x in lists[i] <==> x in old(lists)[i] && x != k)
    {
      ghost var xs: seq<nat>, h: seq<nat>, nx: seq<nat>, pv: seq<nat> := lists[index], heads[..], next[..], prev[..];
      ghost var n :| 0 <= n < |xs| && xs[n] == k;
      ListsDelete(h, nx, pv, lists, index, n);
      assert ListOk(h[index], nx, pv, xs) && NoDup(xs);
      NotOwn(h[index], nx, pv, xs, n);
      if prev[k] != 0 {
        next[prev[k]] := next[k];
        if next[prev[k]] != 0 { prev[next[k]] := prev[k]; }
      } else {
        heads[index] := next[k];
        if heads[index] != 0 { prev[next[k]] := 0; }
      }
      assert next[..] == NextAfter(nx, pv, k) && prev[..] == PrevAfter(nx, pv, k);
      assert heads[..] == if pv[k] == 0 then h[index := nx[k]] else h;
      lists := lists[index := xs[..n] + xs[n + 1..]];
    }

    /** vm_alloc(), for chunks of u units; with a dedicated allocator or not. */
    method Alloc(u: nat, useDedicated: bool) returns (ok: bool, page: nat, offset: nat)
      requires Valid() && IsSize(u)
      modifies this, heads, next, prev, maps, sizes, dedicated
      ensures Valid() && ok == (old(lists)[Index(u)] != [] || (useDedicated && old(pool) != {}) || old(general) != {})
      ensures ok ==> Chunk(page, offset, u) !in old(live) && live == old(live) + {Chunk(page, offset, u)}
      ensures ok ==> First(old(live), page, offset, u)
      ensures ok && old(lists)[Index(u)] != [] ==>
        page == old(lists)[Index(u)][0] && pool == old(pool) && general == old(general)
      ensures ok && old(lists)[Index(u)] == [] && useDedicated && old(pool) != {} ==>
        page in old(pool) && pool == old(pool) - {page} && general == old(general)
      ensures ok && old(lists)[Index(u)] == [] && !(useDedicated && old(pool) != {}) ==>
        page in old(general) && general == old(general) - {page} && pool == old(pool)
      ensures !ok ==> live == old(live) && pool == old(pool) && general == old(general)
      ensures forall p :: 0 <= p < sizes.Length && old(sizes[p]) != 0 ==> sizes[p] == old(sizes[p])
    {
      var index := Index(u);
      HeadIs(index);
      if heads[index] != 0 {
        page := heads[index];
        offset := TakeChunk(page, u);
        return true, page, offset;
      }
      page := 0;
      assert HomesOk(pool, general, home, all, sizes[..], dedicated[..]);
      if useDedicated && pool != {} {
        page :| page in pool;
        HomeLeft(pool, general, home, all, sizes[..], dedicated[..], page, u);
        assert general - {page} == general;
        pool := pool - {page};
        dedicated[page] := true;
      } else {
        if general == {} { return false, 0, 0; }
        page :| page in general;
        HomeLeft(pool, general, home, all, sizes[..], dedicated[..], page, u);
        assert pool - {page} == pool;
        general := general - {page};
        dedicated[page] := false;
      }
      assert dedicated[..] == old(dedicated[..])[page := dedicated[page]];
      CutPage(page, u);
      return true, page, 0;
    }

    /** A chunk of a page that has one. */
    method TakeChunk(page: nat, u: nat) returns (offset: nat)
      requires Valid() && IsSize(u) && page in lists[Index(u)]
      modifies this`live, this`lists, heads, next, prev, maps
      ensures Valid() && page < sizes.Length && Chunk(page, offset, u) !in old(live)
      ensures live == old(live) + {Chunk(page, offset, u)} && First(old(live), page, offset, u)
    {
      OnList(page, Index(u));
      assert PagesOk(maps[..], sizes[..], lists, live, sizes.Length);
      assert PageOk(page, maps[page], sizes[page], lists, live);
      TakeUnits(maps[page], u, page, live);
      offset := Least(maps[page]);
      LeastIsFirst(maps[page], u, page, live);
      TakeFrom(page, u, offset);
    }

    method TakeFrom(page: nat, u: nat, offset: nat)
      requires Valid() && IsSize(u) && page < sizes.Length && page in lists[Index(u)] && sizes[page] == u
      requires PageOk(page, maps[page], u, lists, live) && Group(offset, u) == offset && offset + u <= UNITS
      requires MapOk(maps[page] - Units(offset, u), u, page, live + {Chunk(page, offset, u)})
      requires maps[page] - Units(offset, u) != All()
      modifies this`live, this`lists, heads, next, prev, maps
      ensures Valid() && live == old(live) + {Chunk(page, offset, u)}
    {
      ghost var ms, ls, lv := maps[..], lists, live;
      assert PagesOk(ms, sizes[..], ls, lv, sizes.Length);
      maps[page] := maps[page] - Units(offset, u);
      live := live + {Chunk(page, offset, u)};
      if maps[page] == {} { Delete(page, Index(u)); }
      PageBack(ms, sizes[..], ls, lv, maps[..], sizes[..], lists, live, page);
    }

    lemma HeadIs(i: nat)
      requires Valid() && i < 4
      ensures heads[i] == 0 <==> lists[i] == []
      ensures heads[i] != 0 ==> heads[i] == lists[i][0]
    {
      assert ListOk(heads[..][i], next[..], prev[..], lists[i]);
      if lists[i] != [] { assert LinkAt(next[..], prev[..], lists[i], 0); }
    }

    lemma OnList(page: nat, i: nat)
      requires Valid() && i < 4 && page in lists[i]
      ensures 0 < page < sizes.Length
    {
      assert ListOk(heads[..][i], next[..], prev[..], lists[i]);
      var n :| 0 <= n < |lists[i]| && lists[i][n] == page;
      assert LinkAt(next[..], prev[..], lists[i], n);
    }

    /** A free page is cut into chunks, the first of which is handed out. */
    method CutPage(page: nat, u: nat)
      requires Shape() && ListsOk(heads[..], next[..], prev[..], lists) && Pages(sizes.Length)
      requires IsSize(u) && 0 < page < sizes.Length && sizes[page] == 0
      requires Homes(pool, general, sizes[..][page := u], dedicated[..])
      modifies this`live, this`lists, heads, next, prev, maps, sizes
      ensures Valid() && Chunk(page, 0, u) !in old(live) && live == old(live) + {Chunk(page, 0, u)}
      ensures forall p :: 0 <= p < sizes.Length && p != page ==> sizes[p] == old(sizes[p])
    {
      ghost var ms, ss, ls, lv := maps[..], sizes[..], lists, live;
      assert PagesOk(ms, ss, ls, lv, sizes.Length);
      assert PageOk(page, maps[page], sizes[page], lists, live);
      NotOnList(page);
      FreshPage(page, u, live, ss);
      sizes[page] := u;
      maps[page] := All() - Units(0, u);
      Insert(page, Index(u));
      live := live + {Chunk(page, 0, u)};
      assert sizes[..] == ss[page := u];
      PageBack(ms, ss, ls, lv, maps[..], sizes[..], lists, live, page);
    }

    /** The page still has a chunk that is handed out. */
    ghost predicate Cut(page: nat)
      reads this
    {
      exists c :: c in live && c.page == page
    }

    /** vm_free(): the chunk is free again, and a page that is empty returns to where it came from. */
    method Free(page: nat, offset: nat)
      requires Valid() && 0 < page < sizes.Length && Chunk(page, offset, sizes[page]) in live
      modifies this, heads, next, prev, maps, sizes
      ensures Valid() && live == old(live) - {Chunk(page, offset, old(sizes[page]))}
      ensures Cut(page) ==> sizes[page] == old(sizes[page]) && pool == old(pool) && general == old(general)
      ensures !Cut(page) ==> sizes[page] == 0 && pool == if page in home then old(pool) + {page} else old(pool)
      ensures !Cut(page) ==> general == if page in home then old(general) else old(general) + {page}
    {
      var u := sizes[page];
      var index := Index(u);
      ghost var ms, lv := maps[..], live;
      assert PagesOk(ms, sizes[..], lists, lv, sizes.Length);
      assert PageOk(page, maps[page], u, lists, live) && ChunkOk(Chunk(page, offset, u), sizes[..]);
      GiveUnits(maps[page], u, page, live, offset);
      var full := maps[page] == {};
      maps[page] := maps[page] + Units(offset, u);
      live := live - {Chunk(page, offset, u)};
      PagesExcept(ms, sizes[..], lists, lv, maps[..], live, page);
      EmptyIff(maps[page], u, page, live, sizes[..]);
      if full {
        NotEmpty(u, offset);
        BackOnList(page, index);
      } else if maps[page] == All() {
        BackToPool(page, index);
      } else {
        PageBack(maps[..], sizes[..], lists, live, maps[..], sizes[..], lists, live, page);
      }
    }

    /** Valid(), but for the page itself. */
    ghost predicate ValidExcept(page: nat)
      reads this, heads, next, prev, maps, sizes, dedicated
    {
      && Shape() && ListsOk(heads[..], next[..], prev[..], lists)
      && Pages(page) && Homes(pool, general, sizes[..], dedicated[..])
    }

    /** A page that was full is on the list of its size again. */
    method BackOnList(page: nat, index: nat)
      requires ValidExcept(page) && 0 < page < sizes.Length && IsSize(sizes[page]) && index == Index(sizes[page])
      requires MapOk(maps[page], sizes[page], page, live) && maps[page] != All() && maps[page] != {}
      requires forall i :: 0 <= i < 4 ==> page !in lists[i]
      modifies this`lists, heads, next, prev
      ensures Valid()
    {
      ghost var ls := lists;
      assert PagesOk(maps[..], sizes[..], ls, live, page);
      NotOnList(page);
      Insert(page, index);
      PageBack(maps[..], sizes[..], ls, live, maps[..], sizes[..], lists, live, page);
    }

    /** A page that is empty leaves its list and returns to where it came from. */
    method BackToPool(page: nat, index: nat)
      requires ValidExcept(page) && 0 < page < sizes.Length && IsSize(sizes[page]) && index == Index(sizes[page])
      requires forall i :: 0 <= i < 4 ==> (page in lists[i] <==> i == index)
      requires forall c :: c in live ==> c.page != page
      modifies this, heads, next, prev, sizes
      ensures Valid() && live == old(live) && sizes[page] == 0
      ensures pool == if page in home then old(pool) + {page} else old(pool)
      ensures general == if page in home then old(general) else old(general) + {page}
    {
      ghost var ss, ls := sizes[..], lists;
      assert PagesOk(maps[..], ss, ls, live, page) && HomesOk(pool, general, home, all, ss, dedicated[..]);
      HomeAgain(pool, general, home, all, ss, dedicated[..], page);
      Delete(page, index);
      sizes[page] := 0;
      if dedicated[page] { pool := pool + {page}; } else { general := general + {page}; }
      assert sizes[..] == ss[page := 0];
      PageBack(maps[..], ss, ls, live, maps[..], sizes[..], lists, live, page);
    }

    lemma NotOnList(page: nat)
      requires |lists| == 4 && forall i :: 0 <= i < 4 ==> page !in lists[i]
      ensures !InLists(lists, page)
    {
    }
  }

  /** Only the map and the chunks of one page have changed. */
  lemma PagesExcept(maps: seq<set<nat>>, sizes: seq<nat>, lists: seq<seq<nat>>, live: set<Chunk>,
                    maps': seq<set<nat>>, live': set<Chunk>, page: nat)
    requires PagesOk(maps, sizes, lists, live, |sizes|) && |maps'| == |maps| && live' <= live
    requires forall p: nat :: p < |maps| && p != page ==> maps'[p] == maps[p]
    requires forall c: Chunk :: c.page != page ==> (c in live' <==> c in live)
    ensures PagesOk(maps', sizes, lists, live', page)
  {
    forall p: nat | p < |sizes| && p != page ensures PageOk(p, maps'[p], sizes[p], lists, live') {
      assert PageOk(p, maps[p], sizes[p], lists, live);
    }
  }

  lemma NotOwn(head: nat, next: seq<nat>, prev: seq<nat>, xs: seq<nat>, n: nat)
    requires ListOk(head, next, prev, xs) && NoDup(xs) && n < |xs|
    ensures xs[n] < |next| == |prev| && next[xs[n]] != xs[n] && prev[xs[n]] != xs[n]
  {
    assert LinkAt(next, prev, xs, n);
    if n > 0 { assert xs[n - 1] != xs[n]; }
    if n + 1 < |xs| { assert xs[n] != xs[n + 1]; }
  }

  /** No chunk of a page that is not cut is live, and the first chunk of it leaves the rest free. */
  lemma FreshPage(page: nat, u: nat, live: set<Chunk>, sizes: seq<nat>)
    requires IsSize(u) && page < |sizes| && sizes[page] == 0 && forall c :: c in live ==> ChunkOk(c, sizes)
    ensures Chunk(page, 0, u) !in live && All() - Units(0, u) != All() && All() - Units(0, u) != {}
    ensures MapOk(All() - Units(0, u), u, page, live + {Chunk(page, 0, u)})
  {
    assert 0 in Units(0, u) && 7 !in Units(0, u);
    forall k | k in All()
      ensures k in All() - Units(0, u) <==> Chunk(page, Group(k, u), u) !in live + {Chunk(page, 0, u)}
    {
      assert Group(k, u) == 0 <==> k < u;
    }
  }

  /** The map is that of an empty page if and only if no chunk of the page is live. */
  lemma EmptyIff(map_: set<nat>, u: nat, page: nat, live: set<Chunk>, sizes: seq<nat>)
    requires IsSize(u) && MapOk(map_, u, page, live) && page < |sizes| && sizes[page] == u
    requires forall c :: c in live ==> ChunkOk(c, sizes)
    ensures map_ == All() <==> !exists c :: c in live && c.page == page
  {
    if c :| c in live && c.page == page {
      assert c == Chunk(page, Group(c.offset, u), u) && c.offset in All();
    } else {
      assert forall k :: k in All() ==> k in map_;
    }
  }

  lemma NotEmpty(u: nat, offset: nat)
    requires IsSize(u)
    ensures {} + Units(offset, u) != All()
  {
    if offset > 0 { assert 0 !in Units(offset, u); } else { assert 7 !in Units(offset, u); }
  }
}
