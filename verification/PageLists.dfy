/** The links of pgdata[] (vm/mm.c): the list of free pages and the hash chains of the page
    cache.  A link of USED says that a page is not on the list, or in no chain. */
module PageLists {
  import opened Rings
  import opened VmModel
  import HashTable

  const USED := 0xFFFF
  const BUCKETS := 199

  /** pgdata_t without its links. */
  datatype Desc = Desc(count: nat, key: Option<Loc>, kind: Kind, data: Contents)

  /** The bucket of a location; vmdevs gives the vmdev of each index of sdt[]. */
  function Bucket(loc: Loc, vmdevs: seq<nat>): (r: nat)
    ensures r < BUCKETS
  {
    var vmdev := if loc.File? then loc.vmdev else if loc.dev < |vmdevs| then vmdevs[loc.dev] else 0;
    HashTable.Xor(vmdev, loc.block) % BUCKETS
  }

  /** The link of p is USED exactly when p is in no list. */
  ghost predicate Marked(next: seq<nat>, rings: map<nat, seq<nat>>, n: nat) {
    n <= |next| && forall p :: 0 <= p < n ==> (next[p] == USED <==> Loose(rings, p))
  }

  lemma MarksKept(next: seq<nat>, next': seq<nat>, prev': seq<nat>, rings: map<nat, seq<nat>>,
                  rings': map<nat, seq<nat>>,
                  n: nat, x: nat)
    requires x < n && Marked(next, rings, n) && Linked(next', prev', rings') && |next'| == |next| <= USED
    requires LooseKept(next, next'[x := next[x]], rings')
    requires forall p: nat :: p != x ==> (Loose(rings', p) <==> Loose(rings, p))
    requires Loose(rings', x) ==> next'[x] == USED
    ensures Marked(next', rings', n)
  {
    forall p | 0 <= p < n ensures next'[p] == USED <==> Loose(rings', p) {
      if !Loose(rings', p) { InUse(next', prev', rings', p); }
    }
  }

  /** A head or member of a list has a link to an element. */
  lemma InUse(next: seq<nat>, prev: seq<nat>, rings: map<nat, seq<nat>>, p: nat)
    requires Linked(next, prev, rings) && !Loose(rings, p)
    ensures p < |next| && next[p] < |next|
  {
    var h, i :| h in rings && 0 <= i <= |rings[h]| && Cyc(h, rings[h], i) == p;
    assert RingAt(next, prev, h, rings[h], i);
    assert RingAt(next, prev, h, rings[h], if i == |rings[h]| then 0 else i + 1);
  }

  lemma OneMore(rings: map<nat, seq<nat>>, rings': map<nat, seq<nat>>, h: nat, x: nat, p: nat)
    requires h in rings && rings'.Keys == rings.Keys && (forall k :: k in rings && k != h ==> rings'[k] == rings[k])
    requires forall y :: y in rings'[h] <==> y in rings[h] || y == x
    requires p != x
    ensures Loose(rings', p) <==> Loose(rings, p)
  {
    LooseIs(rings, p);
    LooseIs(rings', p);
  }

  lemma MembersBelow(next: seq<nat>, prev: seq<nat>, rings: map<nat, seq<nat>>, n: nat)
    requires Linked(next, prev, rings) && n in rings && |next| == n + 1
    ensures forall p :: p in rings[n] ==> p < n
  {
    forall i | 0 <= i < |rings[n]| ensures rings[n][i] < n {
      assert RingAt(next, prev, n, rings[n], i + 1);
      assert Cyc(n, rings[n], i + 1) != Cyc(n, rings[n], 0);
    }
  }

  lemma LooseIs(rings: map<nat, seq<nat>>, p: nat)
    ensures Loose(rings, p) <==> forall h :: h in rings ==> h != p && p !in rings[h]
  {
    forall h | h in rings ensures Loose(rings, p) ==> h != p && p !in rings[h] {
      assert Cyc(h, rings[h], 0) == h;
      forall i | 0 <= i < |rings[h]| ensures Loose(rings, p) ==> rings[h][i] != p {
        assert Cyc(h, rings[h], i + 1) == rings[h][i];
      }
    }
  }

  lemma OneLess(rings: map<nat, seq<nat>>, h: nat, x: nat)
    requires Apart(rings) && h in rings && x in rings[h]
    ensures |Without(rings[h], x)| == |rings[h]| - 1
    ensures forall p: nat :: p != x ==> (Loose(rings[h := Without(rings[h], x)], p) <==> Loose(rings, p))
  {
    var xs, rings' := rings[h], rings[h := Without(rings[h], x)];
    var i :| 0 <= i < |xs| && xs[i] == x;
    forall j | 0 <= j < |xs| && j != i ensures xs[j] != xs[i] {
      assert Cyc(h, xs, j + 1) == xs[j] && Cyc(h, xs, i + 1) == xs[i];
    }
    WithoutAt(xs, i);
    forall p: nat | p != x ensures Loose(rings', p) <==> Loose(rings, p) {
      forall y ensures y in rings[h] <==> y in rings'[h] || y == x { WithoutIn(xs, x, y); }
      OneMore(rings', rings, h, x, p);
    }
  }

  /** The list of free pages; its head is the element N. */
  class FreeList {
    const N: nat
    const links: Links          // lnext, lprev
    var freePages: int

    ghost predicate Valid()
      reads this, links, links.next, links.prev
    {
      && links.Valid() && links.next.Length == N + 1 <= USED && links.rings.Keys == {N}
      && Marked(links.next[..], links.rings, N) && freePages == |links.rings[N]|
    }

    ghost function Free(): seq<nat>
      requires N in links.rings
      reads links
    {
      links.rings[N]
    }

    /** pg_init(): an empty list, and the other links marked. */
    constructor (n: nat)
      requires n < USED
      ensures Valid() && Free() == [] && N == n && fresh(links) && fresh(links.next) && fresh(links.prev)
    {
      N, freePages := n, 0;
      links := new Links(n + 1, {n});
      new;
      var p := 0;
      while p < n
        invariant p <= n && links.Valid() && freePages == 0 && links.rings == map[n := []]
        invariant forall q :: 0 <= q < p ==> links.next[q] == USED
      {
        LooseIs(links.rings, p);
        links.SetLoose(p, USED);
        p := p + 1;
      }
      forall q | 0 <= q < n ensures Loose(links.rings, q) { LooseIs(links.rings, q); }
    }

    /** The test of lnext in page_not_present_fault(). */
    method OnList(p: nat) returns (r: bool)
      requires Valid() && p < N
      ensures r <==> p in Free()
    {
      LooseIs(links.rings, p);
      r := links.next[p] != USED;
    }

    /** The element before the first member is the head, and so is the one after the last. */
    ghost function At(j: nat): nat
      requires N in links.rings
      reads links
    {
      if j < |Free()| then Free()[j] else N
    }

    /** lnext of the head (j == 0) or of the member before the place j. */
    method Next(p: nat, ghost j: nat) returns (next: nat)
      requires Valid() && j <= |Free()| && p == if j == 0 then N else At(j - 1)
      ensures next == At(j) && (j < |Free()| ==> next < N && next in Free())
    {
      MembersBelow(links.next[..], links.prev[..], links.rings, N);
      assert RingAt(links.next[..], links.prev[..], N, links.rings[N], j);
      next := links.next[p];
      if j < |links.rings[N]| { assert links.rings[N][j] in links.rings[N]; }
    }

    method First() returns (p: nat)
      requires Valid() && Free() != []
      ensures p == Free()[0] && p < N
    {
      p := Next(N, 0);
    }

    /** pg_list_insert(). */
    method Insert(p: nat)
      requires Valid() && p < N && p !in Free()
      modifies this, links, links.next, links.prev
      ensures Valid() && Free() == old(Free()) + [p]
    {
      ghost var rings, next := links.rings, links.next[..];
      LooseIs(rings, p);
      links.InsertTail(N, p);
      forall q: nat | q != p ensures Loose(links.rings, q) <==> Loose(rings, q) {
        OneMore(rings, links.rings, N, p, q);
      }
      LooseIs(links.rings, p);
      MarksKept(next, links.next[..], links.prev[..], rings, links.rings, N, p);
      freePages := freePages + 1;
    }

    /** pg_list_delete(). */
    method Delete(p: nat)
      requires Valid() && p < N && p in Free()
      modifies this, links, links.next, links.prev
      ensures Valid() && Free() == Without(old(Free()), p)
    {
      ghost var rings, next := links.rings, links.next[..];
      links.Remove(p, N);
      links.SetLoose(p, USED);
      OneLess(rings, N, p);
      MarksKept(next, links.next[..], links.prev[..], rings, links.rings, N, p);
      freePages := freePages - 1;
    }
  }

  // ------------------------------------------------- the hash chains

  ghost predicate Chained(pages: seq<Desc>, rings: map<nat, seq<nat>>, vmdevs: seq<nat>) {
    && (forall h :: h in rings <==> |pages| <= h < |pages| + BUCKETS)
    && forall h, p :: h in rings && p in rings[h] ==> Home(pages, vmdevs, h, p)
  }

  /** A page in a chain has a key, and the chain is the one of its bucket. */
  predicate Home(pages: seq<Desc>, vmdevs: seq<nat>, h: nat, p: nat) {
    p < |pages| && pages[p].key.Some? && h == |pages| + Bucket(pages[p].key.value, vmdevs)
  }

  /** A page that is hashed is in the chain of its bucket. */
  lemma InChain(pages: seq<Desc>, rings: map<nat, seq<nat>>, vmdevs: seq<nat>, p: nat)
    requires Chained(pages, rings, vmdevs) && p < |pages| && !Loose(rings, p)
    ensures pages[p].key.Some? && |pages| + Bucket(pages[p].key.value, vmdevs) in rings
    ensures p in rings[|pages| + Bucket(pages[p].key.value, vmdevs)]
  {
    LooseIs(rings, p);
    var h :| h in rings && p in rings[h];
    assert Home(pages, vmdevs, h, p);
  }

  /** The page cache: pages with a key, found by key. */
  class PageHash {
    const N: nat
    const vmdevs: seq<nat>      // sdt[].vmdev
    const links: Links          // hnext, hprev

    ghost predicate Valid(pages: seq<Desc>)
      reads this, links, links.next, links.prev
    {
      && links.Valid() && |pages| == N && links.next.Length == N + BUCKETS <= USED
      && Marked(links.next[..], links.rings, N) && Chained(pages, links.rings, vmdevs)
    }

    /** The page is in a chain. */
    ghost predicate Has(p: nat)
      reads links.next
    {
      p < links.next.Length && links.next[p] != USED
    }

    constructor (n: nat, v: seq<nat>)
      requires n + BUCKETS <= USED
      ensures N == n && vmdevs == v && fresh(links) && fresh(links.next) && fresh(links.prev)
      ensures forall pages: seq<Desc> :: |pages| == n ==> Valid(pages)
      ensures forall p :: 0 <= p < n ==> !Has(p)
    {
      N, vmdevs := n, v;
      assert forall h :: h in HashTable.Span(n, BUCKETS) <==> n <= h < n + BUCKETS by {
        forall h: nat ensures h in HashTable.Span(n, BUCKETS) <==> n <= h < n + BUCKETS {
          HashTable.SpanIs(n, BUCKETS, h);
        }
      }
      links := new Links(n + BUCKETS, HashTable.Span(n, BUCKETS));
      new;
      ghost var rings := links.rings;
      var p := 0;
      while p < n
        invariant p <= n && links.Valid() && links.rings == rings
        invariant forall q :: 0 <= q < p ==> links.next[q] == USED
      {
        LooseIs(links.rings, p);
        links.SetLoose(p, USED);
        p := p + 1;
      }
      forall q | 0 <= q < n ensures Loose(links.rings, q) { LooseIs(links.rings, q); }
    }

    /** pg_hash_insert(). */
    method Insert(p: nat, pages: array<Desc>)
      requires Valid(pages[..]) && p < N && !Has(p) && pages[p].key.Some?
      modifies links, links.next, links.prev
      ensures Valid(pages[..])
      ensures forall q :: 0 <= q < N ==> (links.next[q] == USED <==> q != p && old(links.next[q] == USED))
    {
      var index := N + Bucket(pages[p].key.value, vmdevs);
      ghost var rings, next := links.rings, links.next[..];
      links.InsertHead(index, p);
      forall q: nat | q != p ensures Loose(links.rings, q) <==> Loose(rings, q) {
        OneMore(rings, links.rings, index, p, q);
      }
      LooseIs(links.rings, p);
      assert p in links.rings[index];
      MarksKept(next, links.next[..], links.prev[..], rings, links.rings, N, p);
      assert Chained(pages[..], links.rings, vmdevs) by {
        forall h, q | h in links.rings && q in links.rings[h] ensures Home(pages[..], vmdevs, h, q) {
          if q != p || h != index { assert Home(pages[..], vmdevs, h, q) by { assert q in rings[h]; } }
        }
      }
    }

    /** pg_hash_delete(); a page in no chain is left alone. */
    method Delete(p: nat, pages: array<Desc>)
      requires Valid(pages[..]) && p < N
      modifies links, links.next, links.prev
      ensures Valid(pages[..])
      ensures forall q :: 0 <= q < N ==> (links.next[q] == USED <==> q == p || old(links.next[q] == USED))
    {
      if links.next[p] == USED { return; }
      ghost var rings, next := links.rings, links.next[..];
      InChain(pages[..], rings, vmdevs, p);
      ghost var h := N + Bucket(pages[p].key.value, vmdevs);
      links.Remove(p, h);
      links.SetLoose(p, USED);
      OneLess(rings, h, p);
      MarksKept(next, links.next[..], links.prev[..], rings, links.rings, N, p);
      forall k, q | k in rings && q in links.rings[k] ensures Home(pages[..], vmdevs, k, q) {
        WithoutIn(rings[h], p, q);
        assert q in rings[k];
      }
    }

    /** pg_hash_search(): a page of the chains with the given key, if there is one. */
    method Search(loc: Loc, pages: array<Desc>) returns (r: Option<nat>)
      requires Valid(pages[..])
      ensures r.Some? ==> r.value < N && Has(r.value) && pages[r.value].key == Some(loc)
      ensures r.None? ==> forall p :: 0 <= p < N && Has(p) ==> pages[p].key != Some(loc)
    {
      var index := N + Bucket(loc, vmdevs);
      ghost var xs, i := links.rings[index], 0;
      forall j | 0 <= j < |xs| ensures Home(pages[..], vmdevs, index, xs[j]) {
        assert xs[j] in links.rings[index];
      }
      assert RingAt(links.next[..], links.prev[..], index, xs, 0);
      var p := links.next[index];
      while p != index && pages[p].key != Some(loc)
        invariant 0 <= i <= |xs| && p == if i == |xs| then index else xs[i]
        invariant forall j :: 0 <= j < i ==> pages[xs[j]].key != Some(loc)
        decreases |xs| - i
      {
        assert RingAt(links.next[..], links.prev[..], index, xs, i + 1);
        p := links.next[p];
        i := i + 1;
      }
      if p != index {
        LooseIs(links.rings, p);
        return Some(p);
      }
      forall q | 0 <= q < N && Has(q) ensures pages[q].key != Some(loc) {
        InChain(pages[..], links.rings, vmdevs, q);
      }
      return None;
    }
  }
}
