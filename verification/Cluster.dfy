/** The cluster allocator (fs/cluster.c) under b_alloc(), b_free(), i_alloc() and i_free(): one
    bitmap in core, the bitmaps of the other clusters on disk, and the file system's free count. */
module Cluster {
  import opened Bitmap

  /** A resource of the file system: its cluster and its number in the bitmap. */
  datatype Resource = Resource(cluster: nat, bit: nat)

  function InCluster(c: nat, bits: set<nat>): set<Resource> {
    set b | b in bits :: Resource(c, b)
  }

  lemma {:induction false} InClusterSize(c: nat, bits: set<nat>)
    ensures |InCluster(c, bits)| == |bits|
    decreases bits
  {
    if b :| b in bits {
      InClusterSize(c, bits - {b});
      assert InCluster(c, bits) == InCluster(c, bits - {b}) + {Resource(c, b)};
    }
  }

  /** The free resources of the first n clusters; maps[c] is the bitmap of cluster c. */
  ghost function FreeIn(maps: seq<seq<nat>>, limit: seq<nat>, n: nat): set<Resource>
    requires Fits(maps, limit) && n <= |maps|
  {
    if n == 0 then {} else FreeIn(maps, limit, n - 1) + InCluster(n - 1, BitSet(maps[n - 1], limit[n - 1]))
  }

  /** The words of each bitmap that matter are there. */
  predicate Fits(maps: seq<seq<nat>>, limit: seq<nat>) {
    |maps| == |limit| && forall c :: 0 <= c < |maps| ==> limit[c] <= |maps[c]|
  }

  /** The sum of the counts of the first n bitmaps. */
  function SumIn(maps: seq<seq<nat>>, limit: seq<nat>, n: nat): nat
    requires Fits(maps, limit) && n <= |maps|
  {
    if n == 0 then 0 else SumIn(maps, limit, n - 1) + Total(maps[n - 1], limit[n - 1])
  }

  lemma {:induction false} FreeInIs(maps: seq<seq<nat>>, limit: seq<nat>, n: nat, x: Resource)
    requires Fits(maps, limit) && n <= |maps|
    ensures x in FreeIn(maps, limit, n) <==> x.cluster < n && x.bit in BitSet(maps[x.cluster], limit[x.cluster])
  {
    if n > 0 { FreeInIs(maps, limit, n - 1, x); }
  }

  lemma {:induction false} FreeInSize(maps: seq<seq<nat>>, limit: seq<nat>, n: nat)
    requires Fits(maps, limit) && n <= |maps|
    ensures |FreeIn(maps, limit, n)| == SumIn(maps, limit, n)
  {
    if n > 0 {
      assert |FreeIn(maps, limit, n - 1)| == SumIn(maps, limit, n - 1) by { FreeInSize(maps, limit, n - 1); }
      FreeInStep(maps, limit, n, FreeIn(maps, limit, n - 1), FreeIn(maps, limit, n));
    }
  }

  lemma FreeInStep(maps: seq<seq<nat>>, limit: seq<nat>, n: nat, below: set<Resource>, all: set<Resource>)
    requires Fits(maps, limit) && 0 < n <= |maps|
    requires below == FreeIn(maps, limit, n - 1) && all == FreeIn(maps, limit, n)
    ensures |all| == |below| + Total(maps[n - 1], limit[n - 1])
  {
    forall x | x in below ensures x.cluster < n - 1 { FreeInIs(maps, limit, n - 1, x); }
    BitmapAdds(below, n - 1, maps[n - 1], limit[n - 1], all);
  }

  lemma BitmapAdds(below: set<Resource>, c: nat, m: seq<nat>, limit: nat, all: set<Resource>)
    requires limit <= |m| && all == below + InCluster(c, BitSet(m, limit)) && forall x :: x in below ==> x.cluster < c
    ensures |all| == |below| + Total(m, limit)
  {
    BitSetSize(m, limit);
    ClusterAdds(below, c, BitSet(m, limit), all);
  }

  lemma ClusterAdds(below: set<Resource>, c: nat, bits: set<nat>, all: set<Resource>)
    requires all == below + InCluster(c, bits) && forall x :: x in below ==> x.cluster < c
    ensures |all| == |below| + |bits|
  {
    InClusterSize(c, bits);
    assert below !! InCluster(c, bits);
  }

  /** One bitmap has changed from cluster c's. */
  lemma {:induction false} SumChange(maps: seq<seq<nat>>, limit: seq<nat>, n: nat, c: nat, m: seq<nat>)
    requires Fits(maps, limit) && n <= |maps| && c < |maps| && limit[c] <= |m|
    ensures SumIn(maps[c := m], limit, n) ==
      SumIn(maps, limit, n) + if c < n then Total(m, limit[c]) - Total(maps[c], limit[c]) else 0
  {
    if n > 0 { SumChange(maps, limit, n - 1, c, m); }
  }

  lemma {:induction false} SumZero(maps: seq<seq<nat>>, limit: seq<nat>, n: nat)
    requires Fits(maps, limit) && n <= |maps| && forall c :: 0 <= c < n ==> Total(maps[c], limit[c]) == 0
    ensures SumIn(maps, limit, n) == 0
  {
    if n > 0 { SumZero(maps, limit, n - 1); }
  }

  /** Then the file system has none. */
  lemma NoneFree(maps: seq<seq<nat>>, limit: seq<nat>)
    requires Fits(maps, limit) && AllUsed(maps, limit, 0, |maps|)
    ensures SumIn(maps, limit, |limit|) == 0
  {
    forall c | 0 <= c < |limit| ensures Total(maps[c], limit[c]) == 0 { assert CountOf(maps, limit, c) == 0; }
    SumZero(maps, limit, |limit|);
  }

  lemma FreeChange(maps: seq<seq<nat>>, limit: seq<nat>, c: nat, m: seq<nat>)
    requires Fits(maps, limit) && c < |maps| && limit[c] <= |m|
    ensures forall x: Resource :: x in FreeIn(maps[c := m], limit, |maps|) <==>
      if x.cluster == c then x.bit in BitSet(m, limit[c]) else x in FreeIn(maps, limit, |maps|)
  {
    forall x: Resource
      ensures x in FreeIn(maps[c := m], limit, |maps|) <==>
        if x.cluster == c then x.bit in BitSet(m, limit[c]) else x in FreeIn(maps, limit, |maps|)
    {
      FreeInIs(maps, limit, |maps|, x);
      FreeInIs(maps[c := m], limit, |maps|, x);
    }
  }

  lemma ClearLowest(m: seq<nat>, n: nat, i: nat)
    requires i < n <= |m| && 0 < m[i] < WORD
    ensures var k := Bsf(m[i]); var w := AndNotBit(m[i], k);
      k < 32 && w < WORD && 32 * i + k in BitSet(m, n) && BitSet(m[i := w], n) == BitSet(m, n) - {32 * i + k}
  {
    NonzeroInSet(m, n, i);
    AndNotBitSmall(m[i], Bsf(m[i]));
    BitSetAndNot(m, n, i, Bsf(m[i]));
  }

  /** No bit of the first i words is set: the lowest one of word i comes before all others. */
  lemma LowestBit(m: seq<nat>, n: nat, i: nat, x: nat)
    requires i < n <= |m| && 0 < m[i] < WORD && (forall j :: 0 <= j < i ==> m[j] == 0) && x in BitSet(m, n)
    ensures 32 * i + Bsf(m[i]) <= x
  {
    BitSetIs(m, n, x);
    NonzeroInSet(m, n, i);
    if x / 32 < i { NoBit(x % 32); }
    assert x / 32 == i ==> Bsf(m[i]) <= x % 32;
  }

  lemma {:induction false} NoBit(k: nat)
    ensures !Bit(0, k)
  {
    if k > 0 { NoBit(k - 1); }
  }

  /** No resource of its cluster comes before r. */
  ghost predicate Lowest(free: set<Resource>, r: Resource) {
    forall x :: x in free && x.cluster == r.cluster ==> r.bit <= x.bit
  }

  /** The number of free resources of a cluster. */
  function CountOf(maps: seq<seq<nat>>, limit: seq<nat>, c: nat): nat
    requires Fits(maps, limit) && c < |maps|
  {
    Total(maps[c], limit[c])
  }

  /** Round the clusters from the one after was, c is the first with a free resource. */
  predicate NextCluster(maps: seq<seq<nat>>, limit: seq<nat>, was: int, c: int)
    requires Fits(maps, limit)
  {
    && 0 <= c < |maps| && CountOf(maps, limit, c) > 0
    && (forall k :: 0 <= k < c && (was < k || c <= was) ==> CountOf(maps, limit, k) == 0)
    && (forall k :: 0 <= k < |maps| && c <= was < k ==> CountOf(maps, limit, k) == 0)
  }

  /** All clusters from lo up to hi are empty. */
  predicate AllUsed(maps: seq<seq<nat>>, limit: seq<nat>, lo: nat, hi: nat)
    requires Fits(maps, limit) && hi <= |maps|
  {
    forall k :: lo <= k < hi ==> CountOf(maps, limit, k) == 0
  }

  class Allocator {
    const words: nat                // s_blksz / 4
    const limit: seq<nat>           // per cluster, the words in use: icluster / 32, cluster_data_blocks() / 32
    const bitmap: array<nat>        // mpt[].ibitmap, mpt[].bbitmap
    var cluster: int                // icluster, bcluster
    var count: int                  // icount, bcount
    var free: int                   // s_ifree, s_bfree
    var disk: seq<seq<nat>>         // the bitmap blocks of the clusters, as the buffer cache shows them

    /** The bitmaps in force: the loaded one instead of its stale copy on disk. */
    ghost function Maps(): seq<seq<nat>>
      reads this, bitmap
    {
      if 0 <= cluster < |disk| then disk[cluster := bitmap[..]] else disk
    }

    ghost function Free(): set<Resource>
      requires Fits(Maps(), limit)
      reads this, bitmap
    {
      FreeIn(Maps(), limit, |limit|)
    }

    ghost predicate Valid()
      reads this, bitmap
    {
      && |disk| == |limit| && bitmap.Length == words && -1 <= cluster < |limit|
      && (forall c :: 0 <= c < |limit| ==> limit[c] <= words && |disk[c]| == words)
      && (forall c, i :: 0 <= c < |disk| && 0 <= i < words ==> disk[c][i] < WORD)
      && (forall i :: 0 <= i < words ==> bitmap[i] < WORD)
      && count == (if cluster < 0 then 0 else Total(bitmap[..], limit[cluster]))
      && free == SumIn(Maps(), limit, |limit|)
    }

    /** s_bfree is the number of free blocks, and bcount that of the loaded cluster. */
    lemma CountsAreExact()
      requires Valid()
      ensures free == |Free()|
      ensures cluster >= 0 ==> count == |BitSet(bitmap[..], limit[cluster])|
      ensures cluster >= 0 ==> free == count + SumIn(disk, limit, |limit|) - Total(disk[cluster], limit[cluster])
    {
      FreeInSize(Maps(), limit, |limit|);
      if cluster >= 0 {
        BitSetSize(bitmap[..], limit[cluster]);
        SumChange(disk, limit, |limit|, cluster, bitmap[..]);
      }
    }

    /** get_bitmap_resource(): the lowest set bit of the loaded bitmap, cleared. */
    method GetResource() returns (r: nat)
      requires 0 <= cluster < |limit| && limit[cluster] <= words == bitmap.Length
      requires Total(bitmap[..], limit[cluster]) > 0 && forall i :: 0 <= i < words ==> bitmap[i] < WORD
      modifies bitmap
      ensures r in old(BitSet(bitmap[..], limit[cluster]))
      ensures forall b :: b in old(BitSet(bitmap[..], limit[cluster])) ==> r <= b
      ensures BitSet(bitmap[..], limit[cluster]) == old(BitSet(bitmap[..], limit[cluster])) - {r}
      ensures forall i :: 0 <= i < words ==> bitmap[i] < WORD
    {
      ghost var m, n := bitmap[..], limit[cluster];
      if BitSet(m, n) == {} { BitSetSize(m, n); }
      for i := 0 to limit[cluster]
        invariant bitmap[..] == m && forall j :: 0 <= j < i ==> m[j] == 0
      {
        if bitmap[i] != 0 {
          var index := Bsf(bitmap[i]);
          bitmap[i] := AndNotBit(bitmap[i], index);
          assert bitmap[..] == m[i := AndNotBit(m[i], index)];
          ClearLowest(m, n, i);
          forall b | b in BitSet(m, n) ensures i * 32 + index <= b { LowestBit(m, n, i, b); }
          return i * 32 + index;
        }
      }
      BitSetEmpty(m, n);
      assert false;
    }

    /** release_bitmap_resource(). */
    method ReleaseResource(r: nat)
      requires Valid() && cluster >= 0 && r < 32 * limit[cluster]
      modifies bitmap
      ensures BitSet(bitmap[..], limit[cluster]) == old(BitSet(bitmap[..], limit[cluster])) + {r}
      ensures forall i :: 0 <= i < words ==> bitmap[i] < WORD
    {
      BitSetOr(bitmap[..], limit[cluster], r);
      WordSize();
      OrBitSmall(bitmap[r / 32], r % 32, 32);
      ghost var m := bitmap[..];
      bitmap[r / 32] := OrBit(bitmap[r / 32], r % 32);
      assert bitmap[..] == m[r / 32 := OrBit(m[r / 32], r % 32)];
    }

    /** flush_cluster(). */
    method FlushCluster()
      requires Valid()
      modifies this`disk
      ensures Valid() && Maps() == old(Maps()) && disk == old(Maps())
    {
      ghost var maps := Maps();
      if cluster != -1 { disk := disk[cluster := bitmap[..]]; }
      assert Maps() == maps;
    }

    /** switch_cluster(): cluster c is loaded if it has free resources, or if told so. */
    method SwitchCluster(c: nat, force: bool) returns (ok: bool)
      requires Valid() && c < |limit| && c != cluster
      modifies this`disk, this`cluster, this`count, bitmap
      ensures Valid() && free == old(free) && Fits(old(Maps()), limit) && Free() == old(Free())
      ensures ok == (force || Total(old(disk[c]), limit[c]) > 0)
      ensures if ok then cluster == c && (!force ==> count > 0)
        else cluster == old(cluster) && count == old(count) && disk == old(disk) && bitmap[..] == old(bitmap[..])
    {
      var address := disk[c];
      if !force {
        var found := false;
        for i := 0 to limit[c]
          invariant found == exists j :: 0 <= j < i && address[j] != 0
        {
          if address[i] != 0 { found := true; }
        }
        TotalZero(address, limit[c]);
        if !found { return false; }
      }
      var n := CountBitmap(address, limit[c]);
      Load(c, address, n);
      return true;
    }

    /** do_switch_cluster: write the loaded bitmap back and copy the words in use of the other. */
    method Load(c: nat, address: seq<nat>, n: nat)
      requires Valid() && c < |limit| && c != cluster && address == disk[c] && n == Total(address, limit[c])
      modifies this`disk, this`cluster, this`count, bitmap
      ensures Valid() && free == old(free) && Fits(old(Maps()), limit) && Free() == old(Free()) && cluster == c
      ensures count == n
    {
      ghost var maps := Maps();
      FlushCluster();
      ghost var was := bitmap[..];
      for i := 0 to limit[c]
        invariant disk == maps
        invariant forall j :: 0 <= j < words ==> bitmap[j] == if j < i then address[j] else was[j]
      {
        bitmap[i] := address[i];
      }
      cluster, count := c, n;
      TotalFrame(bitmap[..], address, limit[c]);
      BitSetFrame(bitmap[..], address, limit[c]);
      SumChange(maps, limit, |limit|, c, bitmap[..]);
      FreeChange(maps, limit, c, bitmap[..]);
      FreeChange(maps, limit, c, address);
      assert maps[c := address] == maps;
      assert Free() == FreeIn(maps, limit, |limit|);
    }

    /** search_cluster(): another cluster with free resources, if the file system has any. */
    method SearchCluster() returns (ok: bool)
      requires Valid() && count == 0
      modifies this`disk, this`cluster, this`count, bitmap
      ensures Valid() && free == old(free) && Fits(old(Maps()), limit) && Free() == old(Free())
      ensures ok == (free > 0) && (ok ==> count > 0 && NextCluster(old(Maps()), limit, old(cluster), cluster))
    {
      if free == 0 { return false; }
      var oldCluster := cluster;
      var start := oldCluster + 1;
      var firstTime := oldCluster == -1;
      if !firstTime && start == |limit| { start := 0; }
      ok := SearchAbove(oldCluster, start);
      if ok { return; }
      if !firstTime {
        ok := SearchBelow(oldCluster);
        if ok { return; }
      }
      NoneFree(Maps(), limit);
      assert false;
    }

    /** The first loop: the clusters from start on. */
    method SearchAbove(oldCluster: int, start: nat) returns (ok: bool)
      requires Valid() && count == 0 && free > 0 && cluster == oldCluster
      requires start == if oldCluster != -1 && oldCluster + 1 == |limit| then 0 else oldCluster + 1
      modifies this`disk, this`cluster, this`count, bitmap
      ensures Valid() && free == old(free) && Fits(old(Maps()), limit) && Free() == old(Free())
      ensures if ok then start <= cluster && count > 0 && CountOf(old(Maps()), limit, cluster) > 0
          && AllUsed(old(Maps()), limit, start, cluster)
        else cluster == oldCluster && count == 0 && Maps() == old(Maps()) && AllUsed(Maps(), limit, start, |limit|)
    {
      ghost var maps := Maps();
      var c := start;
      while c < |limit|
        invariant start <= c <= |limit| && Valid() && free == old(free) && Maps() == maps && cluster == oldCluster
        invariant count == 0
        invariant AllUsed(maps, limit, start, c)
      {
        if c == oldCluster { AllEmpty(maps, limit, oldCluster, start); }
        var found := SwitchCluster(c, false);
        if found { return true; }
        c := c + 1;
      }
      return false;
    }

    /** The second loop: the clusters below the one loaded. */
    method SearchBelow(oldCluster: int) returns (ok: bool)
      requires Valid() && count == 0 && cluster == oldCluster >= 0
      modifies this`disk, this`cluster, this`count, bitmap
      ensures Valid() && free == old(free) && Fits(old(Maps()), limit) && Free() == old(Free())
      ensures if ok then 0 <= cluster < oldCluster && count > 0 && CountOf(old(Maps()), limit, cluster) > 0
          && AllUsed(old(Maps()), limit, 0, cluster)
        else Maps() == old(Maps()) && AllUsed(Maps(), limit, 0, oldCluster)
    {
      ghost var maps := Maps();
      var c := 0;
      while c < oldCluster
        invariant 0 <= c <= oldCluster && Valid() && free == old(free) && Maps() == maps && cluster == oldCluster
        invariant count == 0
        invariant AllUsed(maps, limit, 0, c)
      {
        var found := SwitchCluster(c, false);
        if found { return true; }
        c := c + 1;
      }
      return false;
    }

    /** The allocation in b_alloc() and i_alloc(): a free resource, if there is one. */
    method Alloc() returns (ok: bool, r: Resource)
      requires Valid()
      modifies this, bitmap
      ensures Valid() && Fits(old(Maps()), limit) && ok == (old(free) > 0)
      ensures if ok then r in old(Free()) && Free() == old(Free()) - {r} && free == old(free) - 1
        else Free() == old(Free()) && free == old(free)
      ensures ok && old(count) > 0 ==> r.cluster == old(cluster)
      ensures ok && old(count) == 0 ==> NextCluster(old(Maps()), limit, old(cluster), r.cluster)
      ensures ok ==> Lowest(old(Free()), r)
    {
      r := Resource(0, 0);
      if count == 0 {
        ok := SearchCluster();
        if !ok { return; }
      }
      r := Take();
      ok := true;
    }

    /** A resource of the loaded cluster, which has one. */
    method Take() returns (r: Resource)
      requires Valid() && cluster >= 0 && count > 0
      modifies this`count, this`free, bitmap
      ensures Valid() && Fits(old(Maps()), limit) && free == old(free) - 1
      ensures r in old(Free()) && Free() == old(Free()) - {r} && r.cluster == cluster && Lowest(old(Free()), r)
    {
      ghost var maps, before := Maps(), Free();
      var bit := GetResource();
      r := Resource(cluster, bit);
      count, free := count - 1, free - 1;
      Changed(maps);
      ghost var bits := BitSet(maps[cluster], limit[cluster]);
      assert Free() == before - {r} && Lowest(before, r) && r in before by {
        OneLess(before, Free(), bits, r);
        LowestIs(before, bits, r);
      }
      SizeWithout(bits, bit);
    }

    /** A resource of the loaded cluster is given back. */
    method Give(bit: nat)
      requires Valid() && cluster >= 0 && bit < 32 * limit[cluster] && Fits(Maps(), limit)
      requires Resource(cluster, bit) !in Free()
      modifies this`count, this`free, bitmap
      ensures Valid() && free == old(free) + 1 && Free() == old(Free()) + {Resource(cluster, bit)}
    {
      ghost var maps, before := Maps(), Free();
      ReleaseResource(bit);
      count, free := count + 1, free + 1;
      Changed(maps);
      OneMore(before, Free(), BitSet(maps[cluster], limit[cluster]), Resource(cluster, bit));
    }

    /** The release in b_free() and i_free(), of a resource that is in use. */
    method Release(r: Resource)
      requires Valid() && r.cluster < |limit| && r.bit < 32 * limit[r.cluster]
      requires Fits(Maps(), limit) && r !in Free()
      modifies this, bitmap
      ensures Valid() && Free() == old(Free()) + {r} && free == old(free) + 1
    {
      if r.cluster != cluster {
        var _ := SwitchCluster(r.cluster, true);
      }
      Give(r.bit);
    }

    /** The loaded bitmap has changed; what follows from the change of its set of bits. */
    lemma Changed(maps: seq<seq<nat>>)
      requires 0 <= cluster < |disk| == |limit| == |maps| && Fits(maps, limit) && bitmap.Length >= limit[cluster]
      requires Maps() == maps[cluster := bitmap[..]]
      ensures Fits(Maps(), limit)
      ensures SumIn(Maps(), limit, |limit|) ==
        SumIn(maps, limit, |limit|) + |BitSet(bitmap[..], limit[cluster])| - |BitSet(maps[cluster], limit[cluster])|
      ensures Total(bitmap[..], limit[cluster]) == |BitSet(bitmap[..], limit[cluster])|
      ensures Total(maps[cluster], limit[cluster]) == |BitSet(maps[cluster], limit[cluster])|
      ensures forall x: Resource :: x in Free() <==>
        if x.cluster == cluster then x.bit in BitSet(bitmap[..], limit[cluster]) else x in FreeIn(maps, limit, |limit|)
      ensures forall x: Resource :: x.cluster == cluster ==>
        (x in FreeIn(maps, limit, |limit|) <==> x.bit in BitSet(maps[cluster], limit[cluster]))
    {
      SumChange(maps, limit, |limit|, cluster, bitmap[..]);
      BitSetSize(bitmap[..], limit[cluster]);
      BitSetSize(maps[cluster], limit[cluster]);
      FreeChange(maps, limit, cluster, bitmap[..]);
      FreeChange(maps, limit, cluster, maps[cluster]);
      assert maps[cluster := maps[cluster]] == maps;
    }
  }

  lemma OneLess(before: set<Resource>, after: set<Resource>, bits: set<nat>, r: Resource)
    requires forall x: Resource :: x.cluster == r.cluster ==> (x in before <==> x.bit in bits)
    requires forall x: Resource :: x in after <==>
      if x.cluster == r.cluster then x.bit in bits - {r.bit} else x in before
    ensures after == before - {r}
  {
  }

  lemma LowestIs(before: set<Resource>, bits: set<nat>, r: Resource)
    requires forall x: Resource :: x.cluster == r.cluster ==> (x in before <==> x.bit in bits)
    requires forall b :: b in bits ==> r.bit <= b
    ensures Lowest(before, r)
  {
  }

  lemma OneMore(before: set<Resource>, after: set<Resource>, bits: set<nat>, r: Resource)
    requires forall x: Resource :: x.cluster == r.cluster ==> (x in before <==> x.bit in bits)
    requires forall x: Resource :: x in after <==>
      if x.cluster == r.cluster then x.bit in bits + {r.bit} else x in before
    ensures after == before + {r}
  {
  }

  lemma SizeWithout(s: set<nat>, x: nat)
    requires x in s
    ensures |s - {x}| == |s| - 1
  {
  }

  lemma {:induction false} TotalZero(words: seq<nat>, n: nat)
    requires n <= |words| && forall i :: 0 <= i < |words| ==> words[i] < WORD
    ensures Total(words, n) > 0 <==> exists i :: 0 <= i < n && words[i] != 0
  {
    BitSetSize(words, n);
    if i :| 0 <= i < n && words[i] != 0 {
      NonzeroInSet(words, n, i);
    } else {
      BitSetEmpty(words, n);
    }
  }

  lemma {:induction false} TotalFrame(words: seq<nat>, other: seq<nat>, n: nat)
    requires n <= |words| && n <= |other| && forall i :: 0 <= i < n ==> words[i] == other[i]
    ensures Total(words, n) == Total(other, n)
  {
    if n > 0 { TotalFrame(words, other, n - 1); }
  }

  /** If the search has come back to the cluster it started from, all clusters are empty. */
  lemma AllEmpty(maps: seq<seq<nat>>, limit: seq<nat>, was: int, start: nat)
    requires Fits(maps, limit) && 0 <= was < |limit| && CountOf(maps, limit, was) == 0
    requires start == if was + 1 == |limit| then 0 else was + 1
    requires start <= was && AllUsed(maps, limit, start, was)
    ensures SumIn(maps, limit, |limit|) == 0
  {
    NoneFree(maps, limit);
  }
}
