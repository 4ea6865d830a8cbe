/** The page frames of vm/mm.c: pgdata[] with its reference counts, its free list and its hash
    table, changed in place. */
module Frames {
  import opened Rings
  import opened VmModel
  import opened PageLists

  /** The page p: a page is hashed when its hnext is in use. */
  function PageOf(d: Desc, hnext: nat): Page {
    Page(d.count, d.key, d.kind, hnext != USED, d.data)
  }

  function PagesOf(descs: seq<Desc>, hnext: seq<nat>): (r: seq<Page>)
    requires |descs| <= |hnext|
    ensures |r| == |descs| && forall p :: 0 <= p < |r| ==> r[p] == PageOf(descs[p], hnext[p])
  {
    seq(|descs|, p requires 0 <= p < |descs| => PageOf(descs[p], hnext[p]))
  }

  lemma HeadOff(rings: map<nat, seq<nat>>, h: nat)
    requires Apart(rings) && h in rings && rings[h] != []
    ensures Without(rings[h], rings[h][0]) == rings[h][1..]
  {
    var xs := rings[h];
    forall j | 0 < j < |xs| ensures xs[j] != xs[0] {
      assert Cyc(h, xs, j + 1) == xs[j] && Cyc(h, xs, 1) == xs[0];
    }
    WithoutAt(xs, 0);
  }

  /** A change of a page's description that its chain does not notice. */
  lemma ChainedKept(pages: seq<Desc>, qages: seq<Desc>, rings: map<nat, seq<nat>>, vmdevs: seq<nat>)
    requires Chained(pages, rings, vmdevs) && |qages| == |pages|
    requires forall p: nat :: p < |pages| && qages[p].key != pages[p].key ==> Loose(rings, p)
    ensures Chained(qages, rings, vmdevs)
  {
    forall h, p | h in rings && p in rings[h] ensures Home(qages, vmdevs, h, p) {
      assert Home(pages, vmdevs, h, p);
      LooseIs(rings, p);
    }
  }

  /** What clear_free_list() has done after j pages of the list. */
  predicate Cleared(pages: seq<Page>, free: seq<nat>, j: nat, now: seq<Page>) {
    j <= |free| && now == ClearPages(pages, free[..j]) && Keyed(pages)
  }

  /** A page without a block is in no chain. */
  predicate Keyed(pages: seq<Page>) {
    forall p :: 0 <= p < |pages| && pages[p].key.None? ==> !pages[p].hashed
  }

  /** The same, unfolded only where it is used. */
  ghost predicate ClearedUpTo(pages: seq<Page>, free: seq<nat>, j: nat, now: seq<Page>) {
    forall i: nat :: i == j ==> Cleared(pages, free, i, now)
  }

  lemma CutNone(pages: seq<Page>, free: seq<nat>)
    requires Keyed(pages)
    ensures ClearedUpTo(pages, free, 0, pages)
  {
    assert Cleared(pages, free, 0, pages);
  }

  lemma CutAll(pages: seq<Page>, free: seq<nat>, now: seq<Page>)
    requires ClearedUpTo(pages, free, |free|, now)
    ensures now == ClearPages(pages, free)
  {
    assert Cleared(pages, free, |free|, now);
    assert free[..|free|] == free;
  }

  lemma CutNext(pages: seq<Page>, free: seq<nat>, j: nat, now: seq<Page>, next: seq<Page>)
    requires ClearedUpTo(pages, free, j, now) && j < |free| && free[j] < |now|
    requires next == now[free[j] := Cut(now[free[j]])]
    ensures ClearedUpTo(pages, free, j + 1, next)
  {
    assert Cleared(pages, free, j, now);
    assert free[..j + 1] == free[..j] + [free[j]];
    assert Cleared(pages, free, j + 1, next);
  }

  class Frames {
    const N: nat                // MAX_PAGES
    const pgd: array<Desc>      // pgdata[]
    const list: FreeList
    const cache: PageHash

    ghost function Repr(): set<object> {
      {this, pgd, list, list.links, list.links.next, list.links.prev,
       cache, cache.links, cache.links.next, cache.links.prev}
    }

    ghost predicate Valid()
      reads Repr()
    {
      && pgd.Length == N == list.N == cache.N <= cache.links.next.Length && N in list.links.rings
      && (forall n: nat :: n == N ==> Sound(n))
      && list.links != cache.links
      && {list.links.next, list.links.prev} !! {cache.links.next, cache.links.prev}
    }

    /** The lists are sound; unfolded only where it is used. */
    ghost predicate Sound(n: nat)
      reads Repr()
    {
      list.Valid() && cache.Valid(pgd[..])
    }

    ghost function Pages(): seq<Page>
      requires pgd.Length <= cache.links.next.Length
      reads pgd, cache.links.next
    {
      PagesOf(pgd[..], cache.links.next[..])
    }

    ghost function Free(): seq<nat>
      requires list.N in list.links.rings
      reads list.links
    {
      list.Free()
    }

    /** pg_init() and the release of every page. */
    constructor (n: nat, vmdevs: seq<nat>)
      requires n + BUCKETS <= USED
      ensures Valid() && fresh(Repr()) && |Pages()| == n
      ensures Free() == seq(n, i => i)
      ensures forall p :: 0 <= p < n ==> Pages()[p] == Page(0, None, DemandZero, false, [])
    {
      N := n;
      pgd := new Desc[n](_ => Desc(0, None, DemandZero, []));
      list := new FreeList(n);
      cache := new PageHash(n, vmdevs);
      new;
      assert Sound(N);
      FreeAll();
    }

    method FreeAll()
      requires Valid() && Free() == [] && forall p :: 0 <= p < N ==> !cache.Has(p)
      requires forall p :: 0 <= p < N ==> pgd[p] == Desc(0, None, DemandZero, [])
      modifies list, list.links, list.links.next, list.links.prev
      ensures Valid() && Free() == seq(N, i => i) && |Pages()| == N
      ensures forall p :: 0 <= p < N ==> Pages()[p] == Page(0, None, DemandZero, false, [])
    {
      assert Sound(N);
      forall p | 0 <= p < N ensures Pages()[p] == Page(0, None, DemandZero, false, []) {
        assert !cache.Has(p);
      }
      var p := 0;
      while p < N
        invariant p <= N && Valid() && Free() == seq(p, i => i) && Pages() == old(Pages())
      {
        assert Sound(N);
        list.Insert(p);
        assert Sound(N);
        p := p + 1;
      }
    }

    method Search(loc: Loc) returns (r: Option<nat>)
      requires Valid()
      ensures Valid() && (r.Some? ==> InHash(Pages(), r.value, loc))
      ensures r.None? ==> forall p :: !InHash(Pages(), p, loc)
    {
      assert Sound(N);
      r := cache.Search(loc, pgd);
    }

    /** A page is described anew; its key changes only while it is in no chain. */
    method Describe(p: nat, d: Desc)
      requires Valid() && p < N && (cache.Has(p) ==> d.key == pgd[p].key)
      modifies pgd
      ensures Valid() && Free() == old(Free())
      ensures Pages() == old(Pages())[p := PageOf(d, old(cache.links.next[p]))]
    {
      assert Sound(N);
      ghost var was := pgd[..];
      pgd[p] := d;
      ChainedKept(was, pgd[..], cache.links.rings, cache.vmdevs);
      assert Sound(N);
    }

    /** pg_hash_delete() and block = 0, if the page has a block. */
    method CutPage(p: nat)
      requires Valid() && p < N
      modifies pgd, cache.links, cache.links.next, cache.links.prev
      ensures Valid() && Free() == old(Free()) && Pages() == old(Pages())[p := Cut(old(Pages())[p])]
      ensures pgd[p] == old(pgd[p]).(key := None)
    {
      assert Sound(N);
      if pgd[p].key.Some? {
        cache.Delete(p, pgd);
        assert Sound(N);
        Describe(p, pgd[p].(key := None));
      } else if cache.Has(p) {
        InChain(pgd[..], cache.links.rings, cache.vmdevs, p);
      }
    }

    /** pg_hash_insert(). */
    method HashInsert(p: nat)
      requires Valid() && p < N && !Pages()[p].hashed && Pages()[p].key.Some?
      modifies cache.links, cache.links.next, cache.links.prev
      ensures Valid() && Free() == old(Free()) && Pages() == old(Pages())[p := old(Pages())[p].(hashed := true)]
    {
      assert Sound(N);
      cache.Insert(p, pgd);
      assert Sound(N);
    }

    /** A page with no block enters the page cache under a key. */
    method Enter(p: nat, loc: Loc)
      requires Valid() && p < N && !Pages()[p].hashed
      modifies pgd, cache.links, cache.links.next, cache.links.prev
      ensures Valid() && Free() == old(Free())
      ensures Pages() == old(Pages())[p := old(Pages())[p].(key := Some(loc), hashed := true)]
    {
      Describe(p, pgd[p].(key := Some(loc)));
      HashInsert(p);
    }

    /** The page has been read: it enters the page cache if it has a block. */
    method Loaded(p: nat, data: Contents)
      requires Valid() && p < N && !Pages()[p].hashed
      modifies pgd, cache.links, cache.links.next, cache.links.prev
      ensures Valid() && Free() == old(Free())
      ensures Pages() == old(Pages())[p := old(Pages())[p].(data := data, hashed := old(Pages())[p].key.Some?)]
    {
      Describe(p, pgd[p].(data := data));
      if pgd[p].key.Some? { HashInsert(p); }
    }

    method HeadPage() returns (p: nat)
      requires Valid() && Free() != []
      ensures Valid() && p == Free()[0] && p < N
    {
      assert Sound(N);
      p := list.First();
    }

    /** The head of the free list leaves it. */
    method TakeHead(p: nat)
      requires Valid() && Free() != [] && p == Free()[0] && p < N
      modifies list, list.links, list.links.next, list.links.prev
      ensures Valid() && Free() == old(Free())[1..] && Pages() == old(Pages())
    {
      assert Sound(N);
      HeadOff(list.links.rings, list.N);
      list.Delete(p);
      assert Sound(N);
    }

    /** get_page(), when the list is not empty. */
    method GetPage() returns (p: nat)
      requires Valid() && Free() != [] && (Free()[0] < N ==> Pages()[Free()[0]].count == 0)
      modifies Repr()
      ensures Valid() && p == old(Free())[0] && Free() == old(Free())[1..]
      ensures p < N && Pages() == old(Pages())[p := Cut(old(Pages())[p]).(count := 1)]
      ensures !Pages()[p].hashed && Pages()[p].key.None? && pgd[p] == Desc(1, None, pgd[p].kind, pgd[p].data)
    {
      p := HeadPage();
      CutPage(p);
      if pgd[p].count != 0 { assert false; }
      TakeHead(p);
      Describe(p, pgd[p].(count := 1));
    }

    /** get_page(), and what the page is to hold. */
    method NewPage(key: Option<Loc>, kind: Kind) returns (p: nat)
      requires Valid() && Free() != [] && (Free()[0] < N ==> Pages()[Free()[0]].count == 0)
      modifies Repr()
      ensures Valid() && p == old(Free())[0] && p < N && Free() == old(Free())[1..]
      ensures Pages() == old(Pages())[p := Cut(old(Pages())[p]).(count := 1, key := key, kind := kind)]
      ensures pgd[p] == Desc(1, key, kind, old(Pages())[p].data)
    {
      p := GetPage();
      Describe(p, pgd[p].(key := key, kind := kind));
    }

    /** The page o loses a reference, and a new page gets its contents. */
    method CopyPage(o: nat) returns (p: nat)
      requires Valid() && o < N && pgd[o].count > 0 && Free() != [] && Free()[0] != o
      requires Free()[0] < N ==> Pages()[Free()[0]].count == 0
      modifies Repr()
      ensures Valid() && p == old(Free())[0] && p < N && Free() == old(Free())[1..]
      ensures Pages() == old(Pages())[o := old(Pages())[o].(count := old(Pages())[o].count - 1)]
        [p := Cut(old(Pages())[p]).(count := 1, kind := FromSwap, data := old(Pages())[o].data)]
    {
      Describe(o, pgd[o].(count := pgd[o].count - 1));
      p := NewPage(None, FromSwap);
      Describe(p, pgd[p].(data := pgd[o].data));
    }

    /** release_page(); the result says whether the page went back to the list. */
    method ReleasePage(p: nat) returns (freed: bool)
      requires Valid() && p < N && p !in Free() && Pages()[p].count > 0
      modifies Repr()
      ensures Valid() && freed == (old(Pages())[p].count == 1)
      ensures Pages() == old(Pages())[p := old(Pages())[p].(count := old(Pages())[p].count - 1)]
      ensures Free() == if old(Pages())[p].count == 1 then old(Free()) + [p] else old(Free())
    {
      Describe(p, pgd[p].(count := pgd[p].count - 1));
      freed := pgd[p].count == 0;
      if freed {
        assert Sound(N);
        list.Insert(p);
        assert Sound(N);
      }
    }

    /** reuse_page() if the page is on the free list, and one more reference to it. */
    method TakeHashed(p: nat)
      requires Valid() && p < N && (p in Free() <==> Pages()[p].count == 0)
      modifies Repr()
      ensures Valid() && Free() == Without(old(Free()), p)
      ensures Pages() == old(Pages())[p := old(Pages())[p].(count := old(Pages())[p].count + 1)]
    {
      assert Sound(N);
      var listed := list.OnList(p);
      if listed {
        if pgd[p].count != 0 { assert false; }
        list.Delete(p);
        assert Sound(N);
      } else {
        WithoutNone(Free(), p);
      }
      Describe(p, pgd[p].(count := pgd[p].count + 1));
    }

    lemma HashedHasKey()
      requires Valid()
      ensures Keyed(Pages())
    {
      assert Sound(N);
      forall p | 0 <= p < N && Pages()[p].key.None? ensures !Pages()[p].hashed {
        if cache.Has(p) { InChain(pgd[..], cache.links.rings, cache.vmdevs, p); }
      }
    }

    method NextFree(p: nat, ghost j: nat) returns (next: nat)
      requires Valid() && j <= |Free()| && p == if j == 0 then N else list.At(j - 1)
      ensures Valid() && next == list.At(j) && (j < |Free()| ==> next < N)
    {
      assert Sound(N);
      next := list.Next(p, j);
    }

    /** The test for free pages in get_page() and reserve_pages(). */
    method NoneFree() returns (r: bool)
      requires Valid()
      ensures Valid() && (r <==> Free() == [])
    {
      assert Sound(N);
      r := list.freePages < 1;
    }

    /** clear_free_list(). */
    method ClearFreeList()
      requires Valid()
      modifies pgd, cache.links, cache.links.next, cache.links.prev
      ensures Valid() && Free() == old(Free()) && Pages() == ClearPages(old(Pages()), old(Free()))
    {
      ghost var pages: seq<Page>, free: seq<nat>, j: nat := Pages(), Free(), 0;
      HashedHasKey();
      CutNone(pages, free);
      var p := NextFree(N, 0);
      while p != N
        invariant Valid() && Free() == free && j <= |free| && p == list.At(j) && (j < |free| ==> p < N)
        invariant ClearedUpTo(pages, free, j, Pages())
        decreases |free| - j
      {
        ghost var now := Pages();
        CutPage(p);
        CutNext(pages, free, j, now, Pages());
        j := j + 1;
        p := NextFree(p, j);
      }
      CutAll(pages, free, Pages());
    }
  }
}
