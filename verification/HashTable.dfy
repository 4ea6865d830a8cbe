/** The hash chains of fs/buffer.c: buf_hash_search(), buf_hash_insert(), buf_hash_delete(). */
module HashTable {
  import opened Rings
  import opened BufferModel

  const BUCKETS := 199

  /** The bitwise exclusive or. */
  function Xor(a: nat, b: nat): nat {
    if a == 0 && b == 0 then 0 else (a % 2 + b % 2) % 2 + 2 * Xor(a / 2, b / 2)
  }

  function Bucket(k: Key): (r: nat)
    ensures r < BUCKETS
  {
    Xor(k.device, k.block) % BUCKETS
  }

  /** The k numbers from lo on. */
  function Span(lo: nat, k: nat): set<nat> {
    if k == 0 then {} else Span(lo, k - 1) + {lo + k - 1}
  }

  lemma {:induction false} SpanIs(lo: nat, k: nat, x: nat)
    ensures x in Span(lo, k) <==> lo <= x < lo + k
  {
    if k > 0 { SpanIs(lo, k - 1, x); }
  }

  /** The chains of the buckets hold exactly the buffers of the table, each in the chain of its
      block. */
  ghost predicate Chained(s: seq<Buf>, hash: map<Key, nat>, rings: map<nat, seq<nat>>, n: nat) {
    && (forall h :: h in rings <==> n <= h < n + BUCKETS)
    && (forall k :: k in hash ==> Filed(s, hash[k], rings, n, k))
    && (forall h, b :: h in rings && b in rings[h] ==> Home(s, hash, n, h, b))
  }

  predicate Filed(s: seq<Buf>, b: nat, rings: map<nat, seq<nat>>, n: nat, k: Key) {
    b < |s| && s[b].key == k && n + Bucket(k) in rings && b in rings[n + Bucket(k)]
  }

  ghost predicate Home(s: seq<Buf>, hash: map<Key, nat>, n: nat, h: nat, b: nat) {
    b < |s| && s[b].key in hash && hash[s[b].key] == b && n + Bucket(s[b].key) == h
  }

  class Table {
    const N: nat
    const links: Links
    ghost var hash: map<Key, nat>

    ghost predicate Valid(s: seq<Buf>)
      reads this, links, links.next, links.prev
    {
      && links.Valid() && links.next.Length == N + BUCKETS && |s| == N
      && Chained(s, hash, links.rings, N)
    }

    constructor (n: nat)
      ensures N == n && hash == map[] && fresh(links) && fresh(links.next) && fresh(links.prev)
      ensures forall s: seq<Buf> :: |s| == n ==> Valid(s)
    {
      N, hash := n, map[];
      assert forall h :: h in Span(n, BUCKETS) <==> n <= h < n + BUCKETS by {
        forall h: nat ensures h in Span(n, BUCKETS) <==> n <= h < n + BUCKETS { SpanIs(n, BUCKETS, h); }
      }
      links := new Links(n + BUCKETS, Span(n, BUCKETS));
    }

    /** The buffer of the block, or 0. */
    method Search(k: Key, bufs: array<Buf>) returns (b: nat)
      requires Valid(bufs[..])
      ensures b == if k in hash then hash[k] else 0
    {
      var index := N + Bucket(k);
      ghost var xs, i := links.rings[index], 0;
      forall j | 0 <= j < |xs| ensures Home(bufs[..], hash, N, index, xs[j]) {
        assert xs[j] in links.rings[index];
      }
      assert RingAt(links.next[..], links.prev[..], index, xs, 0);
      b := links.next[index];
      while b != index && bufs[b].key != k
        invariant 0 <= i <= |xs| && b == if i == |xs| then index else xs[i]
        invariant forall j :: 0 <= j < i ==> bufs[xs[j]].key != k
        decreases |xs| - i
      {
        assert RingAt(links.next[..], links.prev[..], index, xs, i + 1);
        b := links.next[b];
        i := i + 1;
      }
      if b == index { b := 0; }
    }

    /** The buffer b, in no chain so far, enters the one of its block. */
    method Insert(b: nat, bufs: array<Buf>, ghost s: seq<Buf>)
      requires Valid(s) && |bufs[..]| == |s| && b < |s| && bufs[..] == s[b := bufs[b]]
      requires b !in hash.Values && bufs[b].key !in hash
      modifies this, links, links.next, links.prev
      ensures Valid(bufs[..]) && hash == old(hash)[bufs[b].key := b]
    {
      var k := bufs[b].key;
      var index := N + Bucket(k);
      ghost var rings := links.rings;
      LooseBuf(s, hash, rings, N, b);
      links.InsertHead(index, b);
      hash := hash[k := b];
      ChainedInsert(s, old(hash), rings, N, b, bufs[..]);
    }

    method Delete(b: nat, bufs: array<Buf>)
      requires Valid(bufs[..]) && b < N && bufs[b].key in hash && hash[bufs[b].key] == b
      modifies this, links, links.next, links.prev
      ensures Valid(bufs[..]) && hash == DropKey(old(hash), bufs[b].key)
    {
      ghost var k, rings := bufs[b].key, links.rings;
      ghost var g := N + Bucket(k);
      FiledHome(bufs[..], hash, rings, N, k);
      links.Remove(b, g);
      hash := DropKey(hash, k);
      ChainedDelete(bufs[..], old(hash), rings, N, b, g);
    }
  }

  lemma LooseBuf(s: seq<Buf>, hash: map<Key, nat>, rings: map<nat, seq<nat>>, n: nat, b: nat)
    requires Chained(s, hash, rings, n) && b < n && b !in hash.Values
    ensures Loose(rings, b)
  {
    forall h, i | h in rings && 0 <= i <= |rings[h]| ensures Cyc(h, rings[h], i) != b {
      if i > 0 { assert Home(s, hash, n, h, rings[h][i - 1]); }
    }
  }

  lemma ChainedInsert(s: seq<Buf>, hash: map<Key, nat>, rings: map<nat, seq<nat>>, n: nat, b: nat, t: seq<Buf>)
    requires Chained(s, hash, rings, n) && b < |s| && |t| == |s| && t == s[b := t[b]]
    requires b !in hash.Values && t[b].key !in hash
    ensures var h := n + Bucket(t[b].key); Chained(t, hash[t[b].key := b], rings[h := [b] + rings[h]], n)
  {
    var g := n + Bucket(t[b].key);
    var after := rings[g := [b] + rings[g]];
    forall h, x | h in after && x in after[h] ensures Home(t, hash[t[b].key := b], n, h, x) {
      if x != b || h != g { assert Home(s, hash, n, h, x); }
    }
  }

  lemma FiledHome(s: seq<Buf>, hash: map<Key, nat>, rings: map<nat, seq<nat>>, n: nat, k: Key)
    requires Chained(s, hash, rings, n) && k in hash
    ensures var g := n + Bucket(k); g in rings && hash[k] in rings[g] && Home(s, hash, n, g, hash[k])
  {
    assert Filed(s, hash[k], rings, n, k);
  }

  lemma ChainedDelete(s: seq<Buf>, hash: map<Key, nat>, rings: map<nat, seq<nat>>, n: nat, b: nat, g: nat)
    requires Chained(s, hash, rings, n) && g in rings && Home(s, hash, n, g, b)
    ensures Chained(s, DropKey(hash, s[b].key), rings[g := Without(rings[g], b)], n)
  {
    forall x ensures x in Without(rings[g], b) <==> x in rings[g] && x != b { WithoutIn(rings[g], b, x); }
    HomesLeft(s, hash, rings, n, b, g, Without(rings[g], b));
    FilesLeft(s, hash, rings, n, b, g, Without(rings[g], b));
  }

  lemma HomesLeft(s: seq<Buf>, hash: map<Key, nat>, rings: map<nat, seq<nat>>, n: nat, b: nat, g: nat, ring: seq<nat>)
    requires forall h, x :: h in rings && x in rings[h] ==> Home(s, hash, n, h, x)
    requires Home(s, hash, n, g, b) && g in rings && forall x :: x in ring <==> x in rings[g] && x != b
    ensures forall h, x :: h in rings && x in rings[g := ring][h] ==> Home(s, DropKey(hash, s[b].key), n, h, x)
  {
    forall h, x | h in rings && x in rings[g := ring][h] ensures Home(s, DropKey(hash, s[b].key), n, h, x) {
      assert Home(s, hash, n, h, x);
    }
  }

  lemma FilesLeft(s: seq<Buf>, hash: map<Key, nat>, rings: map<nat, seq<nat>>, n: nat, b: nat, g: nat, ring: seq<nat>)
    requires forall j :: j in hash ==> Filed(s, hash[j], rings, n, j)
    requires Home(s, hash, n, g, b) && g in rings && forall x :: x in ring <==> x in rings[g] && x != b
    ensures forall j :: j in DropKey(hash, s[b].key) ==> Filed(s, hash[j], rings[g := ring], n, j)
  {
    forall j | j in hash && j != s[b].key ensures Filed(s, hash[j], rings[g := ring], n, j) {
      assert Filed(s, hash[j], rings, n, j);
    }
  }
}
