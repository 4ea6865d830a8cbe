/** fs/buffer.c as the kernel runs it: an array of buffer records, with the two lists and the
    hash chains embedded in arrays of links. */
module Buffer {
  import opened Basics
  import opened Rings
  import opened BufferModel
  import opened BufferSteps
  import opened BufferFlush
  import opened HashTable

  const MASTER := 0
  const FREE := 1
  const FLUSH_ALL_BUFFERS := 0x7FFFFFFF

  /** What one turn of the loop of buf_get() comes to. */
  datatype Outcome = Got(b: nat) | Wait | FlushFirst | NoMemory

  /** Lists and hash table are sound, and whatever is on no list is in somebody's hands. */
  ghost predicate Structure(c: Cache) {
    Lists(c) && Hashed(c) && |c.bufs| >= FIRST && forall b: nat :: Out(c, b) ==> c.bufs[b].busy
  }

  lemma InvIsStructure(w: World)
    requires Inv(w) && |w.c.bufs| >= FIRST
    ensures Structure(w.c)
  {
    forall b: nat | Out(w.c, b) ensures w.c.bufs[b].busy {
      assert BitsOk(w.c, w.flights, w.touched, b);
    }
  }

  function Head(c: Cache): (b: nat)
    requires Structure(c) && c.free != []
    ensures IsBuf(c, b) && b in c.free && b == c.free[0]
  {
    assert c.free[0] in c.free;
    c.free[0]
  }

  function MasterHead(c: Cache): (b: nat)
    requires Structure(c) && c.master != []
    ensures IsBuf(c, b) && b in c.master && b == c.master[0]
  {
    assert c.master[0] in c.master;
    c.master[0]
  }

  /** memory: there are free pages enough, or dedicated ones. */
  function GetOutcome(c: Cache, k: Key, memory: bool): Outcome
    requires Structure(c)
  {
    if k in c.hash then if c.bufs[c.hash[k]].busy then Wait else Got(c.hash[k])
    else if !memory then NoMemory
    else if c.master != [] then Got(MasterHead(c))
    else if c.free == [] || c.bufs[Head(c)].busy then Wait
    else if c.bufs[Head(c)].dirty then FlushFirst
    else Got(Head(c))
  }

  function GetCache(c: Cache, k: Key): Cache
    requires Structure(c) && (k in c.hash || c.master != [] || c.free != [])
  {
    if k in c.hash then Hit(c, c.hash[k])
    else if c.master != [] then var _ := MasterHead(c); FromMaster(c, k)
    else var _ := Head(c); Evict(c, k)
  }

  /** buf_get() gets a buffer exactly where the step Get is enabled, and does what it does. */
  lemma GetIsStep(w: World, k: Key)
    requires Inv(w) && Structure(w.c)
    ensures GetOutcome(w.c, k, true).Got? <==> Enabled(w, Get(k))
    ensures GetOutcome(w.c, k, true).Got? ==> Apply(w, Get(k)) == w.(c := GetCache(w.c, k))
  {
    if w.c.master != [] { var _ := MasterHead(w.c); }
    if w.c.free != [] { var _ := Head(w.c); }
  }

  lemma TakeOut(c: Cache, d: Cache, b: nat)
    requires Structure(c) && b in c.free && |d.bufs| == |c.bufs| && d.master == c.master && d.hash == c.hash
    requires d.bufs[b].key == c.bufs[b].key && d.bufs[b].busy
    requires forall x: nat :: x < |c.bufs| && x != b ==> d.bufs[x] == c.bufs[x]
    requires d.free == Without(c.free, b)
    ensures Structure(d)
  {
    WithoutNoDup(c.free, b);
    forall x ensures x in d.free <==> x in c.free && x != b { WithoutIn(c.free, b, x); }
  }

  lemma PutBack(c: Cache, d: Cache, b: nat)
    requires Structure(c) && Out(c, b) && |d.bufs| == |c.bufs| && d.master == c.master && d.hash == c.hash
    requires d.bufs[b].key == c.bufs[b].key
    requires forall x: nat :: x < |c.bufs| && x != b ==> d.bufs[x] == c.bufs[x]
    requires d.free == c.free + [b] || d.free == [b] + c.free
    ensures Structure(d)
  {
    forall x ensures x in d.free <==> x in c.free || x == b {}
  }

  /** The buffer b has left its list and, if it was hashed, the hash table, and gets the block k. */
  lemma AssignStructure(c: Cache, d: Cache, b: nat, k: Key)
    requires Structure(c) && IsBuf(c, b) && !Out(c, b) && k !in c.hash
    requires d.master == Without(c.master, b) && d.free == Without(c.free, b)
    requires d.hash == (if b in c.master then c.hash else DropKey(c.hash, c.bufs[b].key))[k := b]
    requires |d.bufs| == |c.bufs| && d.bufs[b].key == k && d.bufs[b].busy
    requires forall x: nat :: x < |c.bufs| && x != b ==> d.bufs[x] == c.bufs[x]
    ensures Structure(d)
  {
    WithoutNoDup(c.free, b);
    WithoutNoDup(c.master, b);
    forall x ensures (x in d.free <==> x in c.free && x != b) && (x in d.master <==> x in c.master && x != b) {
      WithoutIn(c.free, b, x);
      WithoutIn(c.master, b, x);
    }
  }

  lemma DropStructure(c: Cache, b: nat)
    requires Structure(c) && b in c.free
    ensures Structure(Drop(c, b))
  {
    var d := Drop(c, b);
    WithoutNoDup(c.free, b);
    forall x ensures x in d.free <==> x in c.free && x != b { WithoutIn(c.free, b, x); }
  }

  /** A change of a buffer that leaves its block alone, and its busy bit if it is checked out. */
  lemma BitsStructure(c: Cache, b: nat, x: Buf)
    requires Structure(c) && b < |c.bufs| && x.key == c.bufs[b].key && (Out(c, b) ==> x.busy)
    ensures Structure(SetBuf(c, b, x))
  {
  }

  class BufferCache {
    const N: nat                // MAX_BUFFERS
    const bufs: array<Buf>      // buf_vect[]
    const chain: array<nat>     // .next
    const lists: Links          // .lnext, .lprev
    const table: Table          // .hnext, .hprev
    var disk: map<Key, Data>
    var masterFree: int         // master_free_buffers
    var freeBuffers: int        // free_buffers

    ghost predicate Shape()
      reads this, table
    {
      && FIRST <= N && bufs.Length == N && chain.Length == N && lists.next.Length == N && table.N == N
      && lists != table.links
      && {lists.next, lists.prev} !! {table.links.next, table.links.prev}
      && chain !in {lists.next, lists.prev, table.links.next, table.links.prev}
    }

    ghost function Abs(): Cache
      requires MASTER in lists.rings && FREE in lists.rings
      reads this, bufs, lists, table
    {
      Cache(bufs[..], lists.rings[MASTER], lists.rings[FREE], table.hash, disk)
    }

    ghost predicate Valid()
      reads this, bufs, chain, lists, lists.next, lists.prev, table, table.links, table.links.next, table.links.prev
    {
      Linked() && Structure(Abs())
    }

    ghost predicate Linked()
      reads this, bufs, chain, lists, lists.next, lists.prev, table, table.links, table.links.next, table.links.prev
    {
      && MASTER in lists.rings && FREE in lists.rings && bufs.Length == N && chain.Length == N
      && forall n: nat :: n == N ==> Consistent(n)
    }

    /** The body of Linked(), unfolded only where it is used. */
    ghost predicate Consistent(n: nat)
      reads this, bufs, chain, lists, lists.next, lists.prev, table, table.links, table.links.next, table.links.prev
    {
      && Shape() && lists.Valid() && lists.rings.Keys == {MASTER, FREE} && table.Valid(bufs[..])
      && masterFree == |lists.rings[MASTER]| && freeBuffers == |lists.rings[FREE]|
    }

    /** buf_init(): all buffers on the master list. */
    constructor (n: nat, d: map<Key, Data>)
      requires FIRST <= n
      ensures Valid() && Abs() == Boot(n, d).c
      ensures fresh(bufs) && fresh(chain) && fresh(lists) && fresh(lists.next) && fresh(lists.prev)
      ensures fresh(table) && fresh(table.links) && fresh(table.links.next) && fresh(table.links.prev)
    {
      N := n;
      bufs := new Buf[n](i => Buf(Key(0, 0), false, false, false, []));
      chain := new nat[n](i => 0);
      lists := new Links(n, {MASTER, FREE});
      table := new Table(n);
      disk, masterFree, freeBuffers := d, 0, 0;
      new;
      FillMaster(d);
      BootIsValid(n, d);
      InvIsStructure(Boot(n, d));
      assert Consistent(N);
    }

    method FillMaster(ghost d: map<Key, Data>)
      requires Shape() && lists.Valid() && lists.rings == map[MASTER := [], FREE := []]
      requires table.Valid(bufs[..]) && table.hash == map[] && masterFree == 0 == freeBuffers
      requires disk == d && bufs[..] == Boot(N, d).c.bufs
      modifies this`masterFree, lists, lists.next, lists.prev
      ensures lists.Valid() && lists.rings.Keys == {MASTER, FREE} && masterFree == |lists.rings[MASTER]|
      ensures Abs() == Boot(N, d).c
    {
      ghost var boot := Boot(N, d).c;
      var i := FIRST;
      while i < N
        invariant FIRST <= i <= N && lists.Valid() && lists.rings.Keys == {MASTER, FREE}
        invariant lists.rings[MASTER] == boot.master[..i - FIRST] && lists.rings[FREE] == [] && masterFree == i - FIRST
      {
        assert Loose(lists.rings, i);
        lists.InsertTail(MASTER, i);
        assert boot.master[..i - FIRST] + [i] == boot.master[..i + 1 - FIRST];
        masterFree := masterFree + 1;
        i := i + 1;
      }
      assert boot.master[..N - FIRST] == boot.master;
    }

    /** buf_master_list_insert(). */
    method MasterListInsert(b: nat)
      requires Linked() && b < N && Loose(lists.rings, b)
      modifies this`masterFree, lists, lists.next, lists.prev
      ensures Linked() && chain[..] == old(chain[..])
      ensures Abs() == old(Abs()).(master := old(Abs()).master + [b])
    {
      assert Consistent(N);
      lists.InsertTail(MASTER, b);
      masterFree := masterFree + 1;
      assert Consistent(N);
    }

    /** buf_master_list_delete(). */
    method MasterListDelete(b: nat)
      requires Linked() && b in lists.rings[MASTER] && NoDup(lists.rings[MASTER])
      modifies this`masterFree, lists, lists.next, lists.prev
      ensures Linked() && chain[..] == old(chain[..]) && Loose(lists.rings, b)
      ensures Abs() == old(Abs()).(master := Without(old(Abs()).master, b))
    {
      assert Consistent(N);
      WithoutNoDup(lists.rings[MASTER], b);
      lists.Remove(b, MASTER);
      masterFree := masterFree - 1;
      assert Consistent(N);
    }

    /** buf_list_insert_head() and buf_list_insert_tail(). */
    method ListInsert(b: nat, tail: bool)
      requires Linked() && b < N && Loose(lists.rings, b)
      modifies this`freeBuffers, lists, lists.next, lists.prev
      ensures Linked() && chain[..] == old(chain[..])
      ensures Abs() == old(Abs()).(free := if tail then old(Abs()).free + [b] else [b] + old(Abs()).free)
    {
      assert Consistent(N);
      if tail { lists.InsertTail(FREE, b); } else { lists.InsertHead(FREE, b); }
      freeBuffers := freeBuffers + 1;
      assert Consistent(N);
    }

    /** buf_list_delete(). */
    method ListDelete(b: nat)
      requires Linked() && b in lists.rings[FREE] && NoDup(lists.rings[FREE])
      modifies this`freeBuffers, lists, lists.next, lists.prev
      ensures Linked() && chain[..] == old(chain[..]) && Loose(lists.rings, b)
      ensures Abs() == old(Abs()).(free := Without(old(Abs()).free, b))
    {
      assert Consistent(N);
      WithoutNoDup(lists.rings[FREE], b);
      lists.Remove(b, FREE);
      freeBuffers := freeBuffers - 1;
      assert Consistent(N);
    }

    /** buf_hash_delete(). */
    method HashDelete(b: nat)
      requires Linked() && b < N && bufs[b].key in table.hash && table.hash[bufs[b].key] == b
      modifies table, table.links, table.links.next, table.links.prev
      ensures Linked() && chain[..] == old(chain[..]) && lists.rings == old(lists.rings)
      ensures Abs() == old(Abs()).(hash := DropKey(old(Abs()).hash, old(bufs[b].key)))
    {
      assert Consistent(N);
      table.Delete(b, bufs);
      assert Consistent(N);
    }

    /** A change of one record that leaves its block alone. */
    method PutRecord(b: nat, x: Buf)
      requires Linked() && b < N && x.key == bufs[b].key
      modifies bufs
      ensures Linked() && Abs() == SetBuf(old(Abs()), b, x)
    {
      assert Consistent(N);
      ghost var c := Abs();
      bufs[b] := x;
      KeysKept(c.bufs, bufs[..], table.hash, table.links.rings, N);
      assert Consistent(N);
    }

    lemma LooseOut(b: nat)
      requires Linked() && Out(Abs(), b)
      ensures Loose(lists.rings, b)
    {
      assert Consistent(N);
    }

    /** One turn of the loop of buf_get(). */
    method BufGetOnce(k: Key, memory: bool) returns (r: Outcome)
      requires Valid()
      modifies this, bufs, lists, lists.next, lists.prev, table, table.links, table.links.next, table.links.prev
      ensures Valid() && r == GetOutcome(old(Abs()), k, memory)
      ensures Abs() == if r.Got? then GetCache(old(Abs()), k) else old(Abs())
    {
      assert Consistent(N);
      var b := table.Search(k, bufs);
      if b != 0 {
        if bufs[b].busy { return Wait; }
        GetHit(b);
        return Got(b);
      }
      if !memory { return NoMemory; }
      r := GetMissing(k);
    }

    /** The block is in no buffer. */
    method GetMissing(k: Key) returns (r: Outcome)
      requires Valid() && k !in table.hash
      modifies this, bufs, lists, lists.next, lists.prev, table, table.links, table.links.next, table.links.prev
      ensures Valid() && r == GetOutcome(old(Abs()), k, true)
      ensures Abs() == if r.Got? then GetCache(old(Abs()), k) else old(Abs())
    {
      assert Consistent(N);
      ghost var c := Abs();
      if masterFree != 0 {
        var b := First(MASTER);
        GetMaster(b, k);
        return Got(b);
      }
      if freeBuffers == 0 { return Wait; }
      var b := First(FREE);
      assert b == Head(c);
      if bufs[b].busy { return Wait; }
      if bufs[b].dirty { return FlushFirst; }
      GetEvicted(b, k);
      assert Abs() == GetCache(c, k);
      return Got(b);
    }

    method First(h: nat) returns (b: nat)
      requires Valid() && h in {MASTER, FREE} && lists.rings[h] != []
      ensures b == lists.rings[h][0] && b in lists.rings[h] && FIRST <= b < N
    {
      assert Consistent(N);
      assert lists.rings[h][0] in lists.rings[h];
      assert RingAt(lists.next[..], lists.prev[..], h, lists.rings[h], 0);
      b := lists.next[h];
    }

    method GetHit(b: nat)
      requires Valid() && b < N && b in lists.rings[FREE]
      modifies this, bufs, lists, lists.next, lists.prev
      ensures Valid() && Abs() == Hit(old(Abs()), b)
    {
      ghost var c := Abs();
      PutRecord(b, bufs[b].(busy := true));
      ListDelete(b);
      TakeOut(c, Abs(), b);
    }

    /** buf_update(). */
    method Update(b: nat, k: Key)
      requires Linked() && b < N && b !in table.hash.Values && k !in table.hash
      modifies bufs, table, table.links, table.links.next, table.links.prev
      ensures Linked() && Abs() == Assign(old(Abs()), b, k)
    {
      assert Consistent(N);
      ghost var s := bufs[..];
      bufs[b] := bufs[b].(key := k, busy := true, valid := false);
      table.Insert(b, bufs, s);
      assert Consistent(N);
    }

    method GetMaster(b: nat, k: Key)
      requires Valid() && k !in table.hash && lists.rings[MASTER] != [] && b == lists.rings[MASTER][0]
      modifies this, bufs, lists, lists.next, lists.prev, table, table.links, table.links.next, table.links.prev
      ensures Valid() && Abs() == GetCache(old(Abs()), k)
    {
      ghost var c := Abs();
      assert b in c.master && b !in c.free;
      MasterListDelete(b);
      Update(b, k);
      WithoutNone(c.free, b);
      AssignStructure(c, Abs(), b, k);
    }

    method GetEvicted(b: nat, k: Key)
      requires Valid() && k !in table.hash && lists.rings[MASTER] == [] && lists.rings[FREE] != []
      requires b == lists.rings[FREE][0]
      modifies this, bufs, lists, lists.next, lists.prev, table, table.links, table.links.next, table.links.prev
      ensures Valid() && Abs() == GetCache(old(Abs()), k)
    {
      ghost var c := Abs();
      assert b in c.free && b !in c.master;
      ListDelete(b);
      HashDelete(b);
      Update(b, k);
      assert Structure(Evict(c, k)) by {
        WithoutNone(c.master, b);
        AssignStructure(c, Evict(c, k), b, k);
      }
    }

    /** A change of a buffer's bits or contents. */
    method SetRecord(b: nat, x: Buf)
      requires Valid() && b < N && x.key == bufs[b].key && (Out(Abs(), b) ==> x.busy)
      modifies bufs
      ensures Valid() && Abs() == SetBuf(old(Abs()), b, x)
    {
      ghost var c := Abs();
      PutRecord(b, x);
      BitsStructure(c, b, x);
    }

    /** buf_release(). */
    method BufRelease(b: nat)
      requires Valid() && Out(Abs(), b)
      modifies this, bufs, lists, lists.next, lists.prev
      ensures Valid() && Abs() == Release(old(Abs()), b)
    {
      ghost var c := Abs();
      LooseOut(b);
      ListInsert(b, bufs[b].valid);
      PutRecord(b, bufs[b].(busy := false));
      PutBack(c, Abs(), b);
    }

    /** buf_write(). */
    method BufWrite(b: nat)
      requires Valid() && Out(Abs(), b)
      modifies this, bufs, lists, lists.next, lists.prev
      ensures Valid() && Abs() == Write(old(Abs()), b)
    {
      SetRecord(b, bufs[b].(valid := true, dirty := true));
      BufRelease(b);
    }

    /** buf_remove(). */
    method BufRemove(b: nat)
      requires Valid() && b in lists.rings[FREE]
      modifies this, lists, lists.next, lists.prev, table, table.links, table.links.next, table.links.prev
      ensures Valid() && Abs() == Drop(old(Abs()), b) && chain[..] == old(chain[..])
    {
      ghost var c := Abs();
      ListDelete(b);
      HashDelete(b);
      MasterListInsert(b);
      DropStructure(c, b);
    }

    /** The buffer part of b_free(). */
    method BufInvalidate(k: Key)
      requires Valid()
      modifies bufs
      ensures Valid() && Abs() == Invalidate(old(Abs()), k)
    {
      assert Consistent(N);
      var b := table.Search(k, bufs);
      if b != 0 { SetRecord(b, bufs[b].(valid := false, dirty := false)); }
    }

    // ----------------------------------------------- buf_flush()

    /** The dirty buffer b enters the request, after prev if it is not the first. */
    method AddToRequest(request: bool, prev: nat, b: nat, ghost req: seq<nat>)
      requires Valid() && Linking(chain[..], req) && b in lists.rings[FREE] && b !in req
      requires request == (req != []) && (request ==> prev == req[|req| - 1])
      modifies bufs, chain
      ensures Valid() && Abs() == Mark(old(Abs()), b) && Linking(chain[..], req + [b])
    {
      assert Consistent(N);
      assert IsBuf(Abs(), b);
      if request { chain[prev] := b; }
      chain[b] := 0;
      assert Consistent(N);
      SetRecord(b, bufs[b].(busy := true, dirty := false));
    }

    /** The for loop of buf_flush(): a request to be written, or none if first is 0. */
    method ScanPass(device0: nat, count0: nat, remove: bool)
      returns (first: nat, nblocks: nat, device: nat, count: nat, ghost req: seq<nat>)
      requires Valid() && InRange(Abs(), Abs().free)
      modifies this, bufs, chain, lists, lists.next, lists.prev, table, table.links, table.links.next, table.links.prev
      ensures Valid() && Linking(chain[..], req) && nblocks == |req| && first == if req == [] then 0 else req[0]
      ensures Pass(Abs(), req, device, count) == Scan(old(Abs()), old(Abs()).free, [], device0, count0, remove)
      ensures forall x :: x in req ==> x in lists.rings[FREE]
    {
      assert Consistent(N);
      first, nblocks, device, count, req := 0, 0, device0, count0, [];
      var prev: nat, stop := 0, false;
      ghost var j: nat := 0;
      assert lists.rings[FREE][0..] == lists.rings[FREE];
      ghost var goal := Scan(Abs(), Abs().free, [], device0, count0, remove);
      assert LeadsFrom(Abs(), 0, [], device0, count0, remove, goal);
      assert AtPlace(Abs(), chain[..], 0, Following(Abs(), 0), 0, 0, 0, []);
      assert RingAt(lists.next[..], lists.prev[..], FREE, lists.rings[FREE], 0);
      var b: nat := lists.next[FREE];
      while b != FREE && count > 0 && !stop
        invariant Valid() && At(Abs(), chain[..], j, b, first, nblocks, prev, req)
        invariant if stop then Pass(Abs(), req, device, count) == goal
          else Leads(Abs(), j, req, device, count, remove, goal)
        decreases !stop, |lists.rings[FREE]| - j
      {
        AtFacts(Abs(), chain[..], j, b, first, nblocks, prev, req);
        b, first, nblocks, prev, device, count, stop, req, j :=
          ScanEntry(b, first, nblocks, prev, device, count, remove, req, j, goal);
      }
      AtFacts(Abs(), chain[..], j, b, first, nblocks, prev, req);
      if !stop {
        assert LeadsFrom(Abs(), j, req, device, count, remove, goal);
      }
    }

    method NextOf(b: nat, ghost j: nat) returns (next: nat)
      requires Valid() && j < |lists.rings[FREE]| && b == lists.rings[FREE][j]
      ensures next == Following(Abs(), j + 1)
    {
      assert Consistent(N);
      NextOne(lists.next[..], lists.prev[..], lists.rings[FREE], j);
      next := lists.next[b];
    }

    /** The buffer b joins the request. */
    method TakeEntry(b: nat, first0: nat, nblocks: nat, prev: nat, device0: nat, ghost count: nat, ghost remove: bool,
                     ghost req: seq<nat>, ghost j: nat, ghost goal: Pass)
      returns (first: nat, device: nat)
      requires Valid() && At(Abs(), chain[..], j, b, first0, nblocks, prev, req) && j < |lists.rings[FREE]| && count > 0
      requires b < N && bufs[b].dirty && InRange(Abs(), req)
      requires !(req == [] && device0 != 0 && bufs[b].key.device != device0) && Follows(Abs(), req, device0, b)
      requires Leads(Abs(), j, req, device0, count, remove, goal)
      modifies bufs, chain
      ensures Valid() && Abs() == Mark(old(Abs()), b)
      ensures At(Abs(), chain[..], j + 1, Following(Abs(), j + 1), first, nblocks + 1, b, req + [b])
      ensures Leads(Abs(), j + 1, req + [b], device, count - 1, remove, goal)
    {
      ghost var c := Abs();
      AtFacts(c, chain[..], j, b, first0, nblocks, prev, req);
      assert AtPlace(c, chain[..], j, b, first0, nblocks, prev, req);
      AddToRequest(nblocks != 0, prev, b, req);
      TakeStep(c, chain[..], j, b, first0, nblocks, prev, req, device0, count, remove, goal);
      device := if device0 == 0 then bufs[b].key.device else device0;
      first := if nblocks == 0 then b else first0;
    }

    /** The buffer b leaves the cache. */
    method DropEntry(b: nat, ghost next: nat, ghost first: nat, ghost nblocks: nat, ghost prev: nat, ghost device: nat,
                     ghost count: nat, ghost req: seq<nat>, ghost j: nat, ghost goal: Pass)
      requires Valid() && At(Abs(), chain[..], j, b, first, nblocks, prev, req) && j < |lists.rings[FREE]| && count > 0
      requires b < N && !bufs[b].dirty && !bufs[b].busy && next == Following(Abs(), j + 1)
      requires Leads(Abs(), j, req, device, count, true, goal)
      modifies this, lists, lists.next, lists.prev, table, table.links, table.links.next, table.links.prev
      ensures Valid() && At(Abs(), chain[..], j, next, first, nblocks, prev, req)
      ensures Leads(Abs(), j, req, device, count - 1, true, goal)
      ensures |lists.rings[FREE]| == |old(lists.rings)[FREE]| - 1
    {
      AtFacts(Abs(), chain[..], j, b, first, nblocks, prev, req);
      DropStep(Abs(), chain[..], j, b, first, nblocks, prev, req, device, count, goal);
      BufRemove(b);
    }

    /** The body of that loop; stop says that the request cannot take the buffer. */
    method ScanEntry(b: nat, first0: nat, nblocks0: nat, prev0: nat, device0: nat, count0: nat, remove: bool,
                     ghost req0: seq<nat>, ghost j0: nat, ghost goal: Pass)
      returns (next: nat, first: nat, nblocks: nat, prev: nat, device: nat, count: nat, stop: bool,
               ghost req: seq<nat>, ghost j: nat)
      requires Valid() && At(Abs(), chain[..], j0, b, first0, nblocks0, prev0, req0) && j0 < |lists.rings[FREE]|
      requires count0 > 0
      requires Leads(Abs(), j0, req0, device0, count0, remove, goal)
      modifies this, bufs, chain, lists, lists.next, lists.prev, table, table.links, table.links.next, table.links.prev
      ensures Valid() && At(Abs(), chain[..], j, next, first, nblocks, prev, req)
      ensures if stop then Pass(Abs(), req, device, count) == goal
        else Leads(Abs(), j, req, device, count, remove, goal)
      ensures !stop ==> |lists.rings[FREE]| - j < |old(lists.rings)[FREE]| - j0
    {
      first, nblocks, prev, device, count, stop, req, j := first0, nblocks0, prev0, device0, count0, false, req0, j0;
      ghost var c := Abs();
      AtFacts(c, chain[..], j, b, first, nblocks, prev, req);
      next := NextOf(b, j);
      if bufs[b].dirty && !(nblocks == 0 && device != 0 && bufs[b].key.device != device) {
        if nblocks == 0 || bufs[b].key == Key(device, bufs[prev].key.block + 1) {
          first, device := TakeEntry(b, first, nblocks, prev, device, count, remove, req, j, goal);
          prev, nblocks, count := b, nblocks + 1, count - 1;
          req, j := req + [b], j + 1;
          return;
        }
        StopStep(c, chain[..], j, b, first, nblocks, prev, req, device, count, remove, goal);
        next, stop := b, true;
        return;
      }
      if !bufs[b].dirty && remove && !bufs[b].busy {
        DropEntry(b, next, first, nblocks, prev, device, count, req, j, goal);
        count := count - 1;
        return;
      }
      SkipStep(c, chain[..], j, b, first, nblocks, prev, req, device, count, remove, goal);
      j := j + 1;
    }

    /** drv_write(): the disk takes the buffers of the chain. */
    method DrvWrite(device: nat, block: nat, first: nat, nblocks: nat, ghost req: seq<nat>)
      requires Valid() && Linking(chain[..], req) && nblocks == |req| && first == if req == [] then 0 else req[0]
      modifies this`disk
      ensures Valid() && InRange(Abs(), req)
      ensures Abs() == old(Abs()).(disk := WriteChain(old(Abs()), req, device, block))
    {
      ghost var c := Abs();
      assert Consistent(N);
      assert InRange(c, req);
      var b, i := first, 0;
      while i < nblocks
        invariant 0 <= i <= nblocks && b == if i == |req| then 0 else req[i]
        invariant InRange(c, req[..i]) && disk == WriteChain(c, req[..i], device, block)
      {
        assert req[..i + 1][..i] == req[..i];
        disk := disk[Key(device, block + i) := bufs[b].data];
        b := chain[b];
        i := i + 1;
      }
      assert req[..nblocks] == req;
      assert Consistent(N);
    }

    /** One buffer of a finished request goes idle, or leaves the cache. */
    method IdleBuffer(b: nat, remove: bool)
      requires Valid() && b in lists.rings[FREE] && b < N
      modifies this, bufs, lists, lists.next, lists.prev, table, table.links, table.links.next, table.links.prev
      ensures Valid() && Abs() == IdleOne(old(Abs()), b, remove) && chain[..] == old(chain[..])
    {
      assert Consistent(N);
      SetRecord(b, bufs[b].(busy := false));
      if remove { BufRemove(b); }
    }

    /** The buffers of the finished request go idle, or leave the cache. */
    method FinishRequest(first: nat, remove: bool, ghost req: seq<nat>)
      requires Valid() && Linking(chain[..], req) && first == (if req == [] then 0 else req[0])
      requires forall x :: x in req ==> x in lists.rings[FREE]
      modifies this, bufs, lists, lists.next, lists.prev, table, table.links, table.links.next, table.links.prev
      ensures Valid() && chain[..] == old(chain[..]) && InRange(old(Abs()), req)
      ensures Abs() == Idle(old(Abs()), req, remove)
    {
      ghost var i: nat, goal := 0, Idle(Abs(), req, remove);
      assert req[0..] == req;
      assert Idles(Abs(), req, 0, remove, goal);
      var b := first;
      while b != 0
        invariant Valid() && chain[..] == old(chain[..]) && i <= |req| && b == if i == |req| then 0 else req[i]
        invariant Linking(chain[..], req) && IdlesFrom(Abs(), req, i, remove, goal)
        decreases |req| - i
      {
        IdleNext(Abs(), req, i, remove, goal);
        LinkNext(chain[..], req, i);
        IdleBuffer(b, remove);
        b := chain[b];
        i := i + 1;
      }
      assert Idles(Abs(), req, i, remove, goal);
    }

    /** buf_flush(), with nobody else at work; it returns the number of buffers written or removed. */
    method BufFlush(device0: nat, count0: nat, remove: bool) returns (n: nat)
      requires Valid()
      modifies this, bufs, chain, lists, lists.next, lists.prev, table, table.links, table.links.next, table.links.prev
      ensures Valid() && InRange(old(Abs()), old(Abs()).free)
      ensures var f := Flush(old(Abs()), device0, count0, remove);
        Abs() == f.c && f.left <= count0 && n == count0 - f.left
    {
      ghost var goal := FlushGoal(device0, count0, remove);
      var device: nat, count: nat := device0, count0;
      while true
        invariant Valid() && count <= count0 && Ends(Abs(), device, count, remove, goal)
        decreases count
      {
        ghost var c := Abs();
        ListInRange(c);
        var first, nblocks, d, left, req := ScanPass(device, count, remove);
        PassStep(c, device, count, remove, Pass(Abs(), req, d, left), goal);
        device, count := d, left;
        if first == 0 { return count0 - count; }
        DrvWrite(device, bufs[first].key.block, first, nblocks, req);
        FinishRequest(first, remove, req);
      }
    }

    /** _buf_read(), with a disk that does not fail. */
    method BufRead(b: nat)
      requires Valid() && Out(Abs(), b)
      modifies bufs
      ensures Valid() && bufs[b].valid
      ensures Abs() == if old(bufs[b].valid) then old(Abs()) else ReadIn(old(Abs()), b)
    {
      if !bufs[b].valid {
        var k := bufs[b].key;
        SetRecord(b, bufs[b].(valid := true, data := if k in disk then disk[k] else []));
      }
    }

    /** The number of delayed writes on the free list. */
    method CountDirty() returns (count: nat)
      requires Valid()
      ensures InRange(Abs(), Abs().free) && count == Dirty(Abs(), Abs().free)
    {
      ghost var j: nat, free := 0, Abs().free;
      ListInRange(Abs());
      assert Consistent(N);
      assert RingAt(lists.next[..], lists.prev[..], FREE, free, 0);
      assert free[0..] == free;
      var b := lists.next[FREE];
      count := 0;
      while b != FREE
        invariant j <= |free| && b == Following(Abs(), j) && InRange(Abs(), free[j..])
        invariant count + Dirty(Abs(), free[j..]) == Dirty(Abs(), free)
        decreases |free| - j
      {
        assert free[j..][1..] == free[j + 1..];
        count := count + if bufs[b].dirty then 1 else 0;
        b := NextOf(b, j);
        j := j + 1;
      }
      assert free[j..] == [];
    }

    /** buf_sync_device(), with nobody else at work. */
    method BufSyncDevice(device: nat, remove: bool)
      requires Valid() && device != 0 && N <= FLUSH_ALL_BUFFERS
      modifies this, bufs, chain, lists, lists.next, lists.prev, table, table.links, table.links.next, table.links.prev
      ensures Valid()
      ensures remove ==> Emptied(Abs(), device)
      ensures !remove ==> Abs().free == old(Abs()).free
      ensures !remove ==> forall b :: b in Abs().free && IsBuf(Abs(), b) && bufs[b].dirty ==>
        bufs[b].key.device != device
    {
      ghost var c := Abs();
      var count := FLUSH_ALL_BUFFERS;
      if !remove { count := CountDirty(); }
      ListInRange(c);
      var _ := BufFlush(device, count, remove);
      if remove {
        FreeFits(c);
        RemoveEmpties(c, device, count);
      } else {
        SyncCleans(c, device, count);
      }
    }

    ghost function FlushGoal(device: nat, count: nat, remove: bool): (goal: Flushed)
      requires Valid()
      reads this, bufs, chain, lists, lists.next, lists.prev, table, table.links, table.links.next, table.links.prev
      ensures Ends(Abs(), device, count, remove, goal) && InRange(Abs(), Abs().free)
      ensures goal == Flush(Abs(), device, count, remove)
    {
      ListInRange(Abs());
      Flush(Abs(), device, count, remove)
    }
  }

  lemma LinkNext(chain: seq<nat>, req: seq<nat>, i: nat)
    requires Linking(chain, req) && i < |req|
    ensures req[i] < |chain| && chain[req[i]] == if i + 1 < |req| then req[i + 1] else 0
  {
  }

  /** From its place i on, the request leads to goal; unfolded only where it is used. */
  ghost predicate IdlesFrom(c: Cache, req: seq<nat>, i: nat, remove: bool, goal: Cache) {
    forall k: nat :: k == i ==> Idles(c, req, k, remove, goal)
  }

  predicate Idles(c: Cache, req: seq<nat>, i: nat, remove: bool, goal: Cache) {
    && i <= |req| && InRange(c, req) && (forall k :: i <= k < |req| ==> req[k] in c.free)
    && InRange(c, req[i..]) && Idle(c, req[i..], remove) == goal
  }

  lemma IdleNext(c: Cache, req: seq<nat>, i: nat, remove: bool, goal: Cache)
    requires IdlesFrom(c, req, i, remove, goal) && i < |req| && NoDup(req)
    ensures req[i] < |c.bufs| && req[i] in c.free
    ensures IdlesFrom(IdleOne(c, req[i], remove), req, i + 1, remove, goal)
  {
    assert Idles(c, req, i, remove, goal);
    var b := req[i];
    assert req[i..][1..] == req[i + 1..] && req[i..][0] == b;
    forall k | i < k < |req| ensures req[k] in IdleOne(c, b, remove).free { WithoutIn(c.free, b, req[k]); }
    assert Idles(IdleOne(c, b, remove), req, i + 1, remove, goal);
  }

  lemma {:induction false} Pigeons(xs: seq<nat>, n: nat)
    requires NoDup(xs) && forall i :: 0 <= i < |xs| ==> xs[i] < n
    ensures |xs| <= n
    decreases n
  {
    if n > 0 {
      var ys := Without(xs, n - 1);
      WithoutNoDup(xs, n - 1);
      forall i | 0 <= i < |ys| ensures ys[i] < n - 1 {
        WithoutIn(xs, n - 1, ys[i]);
      }
      Pigeons(ys, n - 1);
    }
  }

  lemma FreeFits(c: Cache)
    requires Structure(c)
    ensures |c.free| <= |c.bufs|
  {
    ListInRange(c);
    Pigeons(c.free, |c.bufs|);
  }

  lemma ListInRange(c: Cache)
    requires Structure(c)
    ensures InRange(c, c.free)
  {
    forall i | 0 <= i < |c.free| ensures c.free[i] < |c.bufs| {
      assert c.free[i] in c.free;
    }
  }

  /** buf_flush() from here on ends in goal. */
  predicate Ends(c: Cache, device: nat, count: nat, remove: bool, goal: Flushed) {
    InRange(c, c.free) && Flush(c, device, count, remove) == goal
  }

  /** After a pass that ended with s, buf_flush() is done or goes on with its request written. */
  lemma PassStep(c: Cache, device: nat, count: nat, remove: bool, s: Pass, goal: Flushed)
    requires Ends(c, device, count, remove, goal) && s == Scan(c, c.free, [], device, count, remove)
    ensures InRange(s.c, s.req) && s.count <= count
    ensures s.req == [] ==> goal == Flushed(s.c, s.count)
    ensures s.req != [] ==> s.count < count
    ensures s.req != [] ==>
      Ends(Complete(s.c, s.req, s.device, s.c.bufs[s.req[0]].key.block, remove), s.device, s.count, remove, goal)
  {
    ScanRange(c, c.free, [], device, count, remove);
    if s.req != [] {
      IdleRange(s.c.(disk := WriteChain(s.c, s.req, s.device, s.c.bufs[s.req[0]].key.block)), s.req, remove);
    }
  }

  /** Where the for loop of buf_flush() stands: at the buffer b, j places down the free list. */
  ghost predicate At(c: Cache, chain: seq<nat>, j: nat, b: nat, first: nat, nblocks: nat, prev: nat, req: seq<nat>) {
    forall i: nat :: i == j ==> AtPlace(c, chain, i, b, first, nblocks, prev, req)
  }

  /** The body of At(), unfolded only where it is used. */
  predicate AtPlace(c: Cache, chain: seq<nat>, j: nat, b: nat, first: nat, nblocks: nat, prev: nat, req: seq<nat>) {
    && Linking(chain, req) && nblocks == |req| && first == (if req == [] then 0 else req[0])
    && (req != [] ==> prev == req[|req| - 1])
    && j <= |c.free| && b == Following(c, j)
    && NoDup(c.free) && InRange(c, c.free) && InRange(c, req) && forall x :: x in req ==> x in c.free[..j]
  }

  /** From place j on the pass ends in goal; unfolded only where it is used. */
  ghost predicate Leads(c: Cache, j: nat, req: seq<nat>, device: nat, count: nat, remove: bool, goal: Pass) {
    forall i: nat :: i == j ==> LeadsFrom(c, i, req, device, count, remove, goal)
  }

  predicate LeadsFrom(c: Cache, j: nat, req: seq<nat>, device: nat, count: nat, remove: bool, goal: Pass) {
    && j <= |c.free| && InRange(c, c.free[j..]) && InRange(c, req)
    && Scan(c, c.free[j..], req, device, count, remove) == goal
  }

  lemma AtFacts(c: Cache, chain: seq<nat>, j: nat, b: nat, first: nat, nblocks: nat, prev: nat, req: seq<nat>)
    requires At(c, chain, j, b, first, nblocks, prev, req)
    ensures j <= |c.free| && b == Following(c, j) && nblocks == |req| && InRange(c, req)
    ensures first == (if req == [] then 0 else req[0]) && Linking(chain, req)
    ensures req != [] ==> prev == req[|req| - 1]
    ensures j < |c.free| ==> b in c.free && b !in req && b < |c.bufs|
    ensures forall x :: x in req ==> x in c.free
  {
    assert AtPlace(c, chain, j, b, first, nblocks, prev, req);
    if j < |c.free| { assert c.free[j] in c.free && c.free[j] !in c.free[..j]; }
  }

  function Following(c: Cache, j: nat): nat {
    if j < |c.free| then c.free[j] else FREE
  }

  lemma SkipStep(c: Cache, chain: seq<nat>, j: nat, b: nat, first: nat, nblocks: nat, prev: nat, req: seq<nat>,
                 device: nat, count: nat, remove: bool, goal: Pass)
    requires Leads(c, j, req, device, count, remove, goal)
    requires At(c, chain, j, b, first, nblocks, prev, req) && j < |c.free| && count > 0
    requires b < |c.bufs| && InRange(c, req)
    requires if c.bufs[b].dirty then req == [] && device != 0 && c.bufs[b].key.device != device
      else !remove || c.bufs[b].busy
    ensures At(c, chain, j + 1, Following(c, j + 1), first, nblocks, prev, req)
    ensures Leads(c, j + 1, req, device, count, remove, goal)
  {
    assert LeadsFrom(c, j, req, device, count, remove, goal) && AtPlace(c, chain, j, b, first, nblocks, prev, req);
    assert c.free[j..][1..] == c.free[j + 1..] && c.free[..j + 1] == c.free[..j] + [b];
    assert LeadsFrom(c, j + 1, req, device, count, remove, goal);
    assert AtPlace(c, chain, j + 1, Following(c, j + 1), first, nblocks, prev, req);
  }

  lemma StopStep(c: Cache, chain: seq<nat>, j: nat, b: nat, first: nat, nblocks: nat, prev: nat, req: seq<nat>,
                 device: nat, count: nat, remove: bool, goal: Pass)
    requires Leads(c, j, req, device, count, remove, goal)
    requires At(c, chain, j, b, first, nblocks, prev, req) && j < |c.free| && count > 0
    requires b < |c.bufs| && InRange(c, req)
    requires c.bufs[b].dirty && req != [] && !Follows(c, req, device, b)
    ensures Pass(c, req, device, count) == goal
  {
    assert LeadsFrom(c, j, req, device, count, remove, goal) && AtPlace(c, chain, j, b, first, nblocks, prev, req);
    assert c.free[j..][0] == b;
  }

  lemma TakeStep(c: Cache, chain: seq<nat>, j: nat, b: nat, first: nat, nblocks: nat, prev: nat, req: seq<nat>,
                 device: nat, count: nat, remove: bool, goal: Pass)
    requires Leads(c, j, req, device, count, remove, goal)
    requires j < |c.free| && b == c.free[j] && count > 0 && NoDup(c.free) && InRange(c, c.free) && InRange(c, req)
    requires nblocks == |req| && first == (if req == [] then 0 else req[0]) && forall x :: x in req ==> x in c.free[..j]
    requires c.bufs[b].dirty && !(req == [] && device != 0 && c.bufs[b].key.device != device)
    requires Follows(c, req, device, b)
    requires Linking(chain, req + [b])
    ensures At(Mark(c, b), chain, j + 1, Following(c, j + 1), if req == [] then b else first, nblocks + 1, b, req + [b])
    ensures var d := if device == 0 then c.bufs[b].key.device else device;
      Leads(Mark(c, b), j + 1, req + [b], d, count - 1, remove, goal)
  {
    assert LeadsFrom(c, j, req, device, count, remove, goal);
    assert c.free[j..][1..] == c.free[j + 1..] && c.free[..j + 1] == c.free[..j] + [b];
    var d := if device == 0 then c.bufs[b].key.device else device;
    assert LeadsFrom(Mark(c, b), j + 1, req + [b], d, count - 1, remove, goal);
    var head := if req == [] then b else first;
    assert AtPlace(Mark(c, b), chain, j + 1, Following(c, j + 1), head, nblocks + 1, b, req + [b]);
  }

  lemma DropStep(c: Cache, chain: seq<nat>, j: nat, b: nat, first: nat, nblocks: nat, prev: nat, req: seq<nat>,
                 device: nat, count: nat, goal: Pass)
    requires Leads(c, j, req, device, count, true, goal)
    requires At(c, chain, j, b, first, nblocks, prev, req) && j < |c.free| && count > 0
    requires b < |c.bufs| && InRange(c, req)
    requires !c.bufs[b].dirty && !c.bufs[b].busy
    ensures |Drop(c, b).free| == |c.free| - 1
    ensures At(Drop(c, b), chain, j, Following(c, j + 1), first, nblocks, prev, req)
    ensures Leads(Drop(c, b), j, req, device, count - 1, true, goal)
  {
    assert LeadsFrom(c, j, req, device, count, true, goal) && AtPlace(c, chain, j, b, first, nblocks, prev, req);
    CutOne(c.free, j);
    WithoutNoDup(c.free, b);
    DropRange(c, b);
    assert c.free[j..][1..] == Drop(c, b).free[j..];
    assert j < |Drop(c, b).free| ==> Drop(c, b).free[j] == Drop(c, b).free[j..][0];
    assert LeadsFrom(Drop(c, b), j, req, device, count - 1, true, goal);
    assert AtPlace(Drop(c, b), chain, j, Following(c, j + 1), first, nblocks, prev, req);
  }

  lemma NextOne(next: seq<nat>, prev: seq<nat>, ring: seq<nat>, j: nat)
    requires Ring(next, prev, FREE, ring) && j < |ring| && NoDup(ring)
    ensures ring[j] < |next| && next[ring[j]] == if j + 1 == |ring| then FREE else ring[j + 1]
    ensures ring[j..] == [ring[j]] + ring[j + 1..] && ring[..j + 1] == ring[..j] + [ring[j]]
    ensures ring[j] !in ring[..j]
  {
    assert RingAt(next, prev, FREE, ring, j + 1);
  }

  lemma CutOne(ring: seq<nat>, j: nat)
    requires j < |ring| && NoDup(ring)
    ensures |Without(ring, ring[j])| == |ring| - 1
    ensures Without(ring, ring[j])[j..] == ring[j + 1..] && Without(ring, ring[j])[..j] == ring[..j]
  {
    WithoutAt(ring, j);
  }

  /** The .next fields run through the request and end with 0. */
  predicate Linking(chain: seq<nat>, req: seq<nat>) {
    && NoDup(req)
    && forall i :: 0 <= i < |req| ==> 0 < req[i] < |chain| && chain[req[i]] == if i + 1 < |req| then req[i + 1] else 0
  }

  lemma KeysKept(s: seq<Buf>, t: seq<Buf>, hash: map<Key, nat>, rings: map<nat, seq<nat>>, n: nat)
    requires Chained(s, hash, rings, n) && |t| == |s| && forall x: nat :: x < |s| ==> t[x].key == s[x].key
    ensures Chained(t, hash, rings, n)
  {
    forall h, b | h in rings && b in rings[h] ensures Home(t, hash, n, h, b) {
      assert Home(s, hash, n, h, b);
    }
    forall k | k in hash ensures Filed(t, hash[k], rings, n, k) {
      assert Filed(s, hash[k], rings, n, k);
    }
  }
}
