/** The buffer cache with several processes at work in it: the atomic steps between two points
    where a process may sleep, and what every step keeps. */
module BufferSteps {
  import opened Basics
  import opened Rings
  import opened BufferModel

  /** A write request on its way to the disk, in the hands of the process that issued it. */
  datatype Flight = Flight(device: nat, block: nat, req: seq<nat>, remove: bool)

  /** Besides the cache: the requests on their way, the buffers whose holder has changed them
      since it got them, and the blocks that have been freed and not been written again. */
  datatype World = World(c: Cache, flights: map<nat, Flight>, touched: set<nat>, dead: set<Key>)

  // ------------------------------------------------- the invariant

  predicate IsBuf(c: Cache, b: nat) {
    FIRST <= b < |c.bufs|
  }

  /** Every buffer is on the master list, on the free list or checked out. */
  predicate Lists(c: Cache) {
    && NoDup(c.master) && NoDup(c.free)
    && (forall b :: b in c.master ==> IsBuf(c, b))
    && (forall b :: b in c.free ==> IsBuf(c, b) && b !in c.master)
  }

  predicate Out(c: Cache, b: nat) {
    IsBuf(c, b) && b !in c.master && b !in c.free
  }

  /** The hash table holds exactly the buffers off the master list, each under its block. */
  ghost predicate Hashed(c: Cache) {
    && (forall k :: k in c.hash ==> IsBuf(c, c.hash[k]) && c.hash[k] !in c.master && c.bufs[c.hash[k]].key == k)
    && (forall b: nat :: IsBuf(c, b) && b !in c.master ==> c.bufs[b].key in c.hash && c.hash[c.bufs[b].key] == b)
  }

  ghost predicate InFlight(flights: map<nat, Flight>, b: nat) {
    exists p :: p in flights && b in flights[p].req
  }

  ghost predicate BitsOk(c: Cache, flights: map<nat, Flight>, touched: set<nat>, b: nat)
    requires IsBuf(c, b)
  {
    && (b in c.master ==> !c.bufs[b].busy && !c.bufs[b].dirty)
    && (c.bufs[b].dirty ==> c.bufs[b].valid)
    && (Out(c, b) ==> c.bufs[b].busy)
    && (b in c.free ==> (c.bufs[b].busy <==> InFlight(flights, b)))
    && (InFlight(flights, b) ==> b in c.free && !c.bufs[b].dirty)
    && (b in touched ==> Out(c, b))
  }

  /** A valid clean buffer that nobody holds or writes equals the disk. */
  ghost predicate CleanOk(c: Cache, flights: map<nat, Flight>, touched: set<nat>, b: nat)
    requires IsBuf(c, b)
  {
    b !in c.master && c.bufs[b].valid && !c.bufs[b].dirty && !InFlight(flights, b) && b !in touched ==>
      c.bufs[b].data == DiskAt(c.disk, c.bufs[b].key)
  }

  /** The chain of a request is one of different buffers for consecutive blocks of one device. */
  predicate ChainOk(c: Cache, f: Flight) {
    && f.req != [] && NoDup(f.req)
    && (forall i :: 0 <= i < |f.req| ==> IsBuf(c, f.req[i]))
    && forall i :: 0 <= i < |f.req| ==> c.bufs[f.req[i]].key == Key(f.device, f.block + i)
  }

  ghost predicate Flights(w: World) {
    && (forall p :: p in w.flights ==> ChainOk(w.c, w.flights[p]))
    && (forall p, q, b :: p in w.flights && q in w.flights && b in w.flights[p].req && b in w.flights[q].req ==> p == q)
    && (forall b: nat :: IsBuf(w.c, b) && InFlight(w.flights, b) && !w.c.bufs[b].valid ==> w.c.bufs[b].key in w.dead)
  }

  ghost predicate Inv(w: World) {
    && Lists(w.c) && Hashed(w.c) && Flights(w)
    && (forall b :: b in w.touched ==> IsBuf(w.c, b))
    && (forall b: nat :: IsBuf(w.c, b) ==> BitsOk(w.c, w.flights, w.touched, b))
    && (forall b: nat :: IsBuf(w.c, b) ==> CleanOk(w.c, w.flights, w.touched, b))
  }

  // ------------------------------------------------- the steps

  datatype Step =
    | Get(k: Key)                          // buf_get() finds, takes from the master list or evicts
    | Begin(p: nat, b: nat, remove: bool)  // buf_flush() starts a request
    | Extend(p: nat, b: nat)               // and lengthens it
    | Drop1(b: nat)                        // buf_remove() of an idle clean buffer
    | Complete1(p: nat)                    // drv_write() is done
    | Read(b: nat)                         // drv_read() into a buffer one holds
    | Change(b: nat, d: Data, valid: bool) // the holder changes the contents
    | Write1(b: nat)                       // buf_write()
    | Release1(b: nat)                     // buf_release()
    | Free(k: Key)                         // b_free()

  ghost predicate Enabled(w: World, s: Step) {
    match s
    case Get(k) =>
      if k in w.c.hash then IsBuf(w.c, w.c.hash[k]) && !w.c.bufs[w.c.hash[k]].busy
      else if w.c.master != [] then IsBuf(w.c, w.c.master[0])
      else w.c.free != [] && IsBuf(w.c, w.c.free[0]) && !w.c.bufs[w.c.free[0]].busy && !w.c.bufs[w.c.free[0]].dirty
    case Begin(p, b, _) => p !in w.flights && IsBuf(w.c, b) && b in w.c.free && w.c.bufs[b].dirty
    case Extend(p, b) =>
      && p in w.flights && IsBuf(w.c, b) && b in w.c.free && w.c.bufs[b].dirty
      && w.c.bufs[b].key == Key(w.flights[p].device, w.flights[p].block + |w.flights[p].req|)
    case Drop1(b) => IsBuf(w.c, b) && b in w.c.free && !w.c.bufs[b].busy && !w.c.bufs[b].dirty
    case Complete1(p) => p in w.flights && InRange(w.c, w.flights[p].req)
    case Read(b) => Out(w.c, b) && !w.c.bufs[b].valid
    case Change(b, _, _) => Out(w.c, b)
    case Write1(b) => Out(w.c, b)
    case Release1(b) => Out(w.c, b) && (b in w.touched ==> !w.c.bufs[b].valid || w.c.bufs[b].dirty)
    case Free(k) => true
  }

  function DropFlight(m: map<nat, Flight>, p: nat): (r: map<nat, Flight>)
    ensures forall x :: x in r <==> x in m && x != p
    ensures forall x :: x in r ==> r[x] == m[x]
  {
    map x | x in m && x != p :: m[x]
  }

  ghost function Apply(w: World, s: Step): World
    requires Enabled(w, s)
  {
    match s
    case Get(k) => w.(c := if k in w.c.hash then Hit(w.c, w.c.hash[k])
      else if w.c.master != [] then FromMaster(w.c, k)
      else Evict(w.c, k))
    case Begin(p, b, remove) =>
      var f := Flight(w.c.bufs[b].key.device, w.c.bufs[b].key.block, [b], remove);
      w.(c := Mark(w.c, b), flights := w.flights[p := f])
    case Extend(p, b) =>
      w.(c := Mark(w.c, b), flights := w.flights[p := w.flights[p].(req := w.flights[p].req + [b])])
    case Drop1(b) => w.(c := Drop(w.c, b))
    case Complete1(p) =>
      var f := w.flights[p];
      w.(c := Complete(w.c, f.req, f.device, f.block, f.remove), flights := DropFlight(w.flights, p))
    case Read(b) => w.(c := ReadIn(w.c, b), touched := w.touched - {b})
    case Change(b, d, valid) =>
      w.(c := Fill(w.c, b, d, valid), touched := w.touched + {b},
        dead := if valid || w.c.bufs[b].valid then w.dead - {w.c.bufs[b].key} else w.dead)
    case Write1(b) => w.(c := Write(w.c, b), touched := w.touched - {b}, dead := w.dead - {w.c.bufs[b].key})
    case Release1(b) => w.(c := Release(w.c, b), touched := w.touched - {b})
    case Free(k) => w.(c := Invalidate(w.c, k), dead := w.dead + {k})
  }

  // ------------------------------------------------- buf_get()

  lemma HitKeeps(w: World, b: nat)
    requires Inv(w) && IsBuf(w.c, b) && b !in w.c.master && !w.c.bufs[b].busy
    ensures Inv(w.(c := Hit(w.c, b)))
    ensures forall k :: Logical(Hit(w.c, b), k) == Logical(w.c, k)
  {
    var c := Hit(w.c, b);
    assert BitsOk(w.c, w.flights, w.touched, b);
    WithoutNoDup(w.c.free, b);
    forall x ensures x in c.free <==> x in w.c.free && x != b { WithoutIn(w.c.free, b, x); }
    forall x: nat | IsBuf(c, x) ensures BitsOk(c, w.flights, w.touched, x) && CleanOk(c, w.flights, w.touched, x) {
      assert BitsOk(w.c, w.flights, w.touched, x) && CleanOk(w.c, w.flights, w.touched, x);
    }
  }

  lemma WithoutNoDup(xs: seq<nat>, x: nat)
    requires NoDup(xs)
    ensures NoDup(Without(xs, x))
    ensures |Without(xs, x)| == if x in xs then |xs| - 1 else |xs|
  {
    if x in xs {
      var i :| 0 <= i < |xs| && xs[i] == x;
      WithoutAt(xs, i);
    } else {
      WithoutNone(xs, x);
    }
  }

  /** The buffer b, off all lists, becomes the one for the block k. */
  lemma AssignKeeps(w: World, c: Cache, b: nat, k: Key)
    requires Inv(w) && IsBuf(w.c, b) && k !in w.c.hash && !InFlight(w.flights, b) && !w.c.bufs[b].dirty && !Out(w.c, b)
    requires c.bufs == w.c.bufs && c.disk == w.c.disk && NoDup(c.master) && NoDup(c.free)
    requires forall x :: x in c.master <==> x in w.c.master && x != b
    requires forall x :: x in c.free <==> x in w.c.free && x != b
    requires c.hash == if b in w.c.master then w.c.hash else DropKey(w.c.hash, w.c.bufs[b].key)
    ensures Inv(w.(c := Assign(c, b, k)))
  {
    var d := Assign(c, b, k);
    forall x: nat | IsBuf(d, x)
      ensures BitsOk(d, w.flights, w.touched, x) && CleanOk(d, w.flights, w.touched, x)
    {
      assert BitsOk(w.c, w.flights, w.touched, x) && CleanOk(w.c, w.flights, w.touched, x);
    }
    assert Hashed(d);
    forall p | p in w.flights ensures ChainOk(d, w.flights[p]) {
      assert b !in w.flights[p].req;
      assert ChainOk(w.c, w.flights[p]);
    }
  }

  lemma FromMasterKeeps(w: World, k: Key)
    requires Inv(w) && k !in w.c.hash && w.c.master != []
    ensures IsBuf(w.c, w.c.master[0]) && Inv(w.(c := FromMaster(w.c, k)))
    ensures forall x :: Logical(FromMaster(w.c, k), x) == Logical(w.c, x)
  {
    var b := w.c.master[0];
    var c := w.c.(master := Without(w.c.master, b));
    assert BitsOk(w.c, w.flights, w.touched, b);
    WithoutNoDup(w.c.master, b);
    forall x ensures x in c.master <==> x in w.c.master && x != b { WithoutIn(w.c.master, b, x); }
    AssignKeeps(w, c, b, k);
  }

  lemma EvictKeeps(w: World, k: Key)
    requires Inv(w) && k !in w.c.hash && w.c.free != []
    requires IsBuf(w.c, w.c.free[0]) && !w.c.bufs[w.c.free[0]].busy && !w.c.bufs[w.c.free[0]].dirty
    ensures Inv(w.(c := Evict(w.c, k)))
    ensures forall x :: Logical(Evict(w.c, k), x) == Logical(w.c, x)
  {
    var b := w.c.free[0];
    var c := w.c.(free := Without(w.c.free, b), hash := DropKey(w.c.hash, w.c.bufs[b].key));
    assert BitsOk(w.c, w.flights, w.touched, b) && CleanOk(w.c, w.flights, w.touched, b);
    assert Inv(w.(c := Evict(w.c, k))) by {
      WithoutNoDup(w.c.free, b);
      forall x ensures x in c.free <==> x in w.c.free && x != b { WithoutIn(w.c.free, b, x); }
      AssignKeeps(w, c, b, k);
    }
  }

  // ------------------------------------------------- holders

  /** A change of one buffer's bits or contents that leaves its block and all lists alone. */
  lemma HolderKeeps(w: World, v: World, b: nat, x: Buf)
    requires Inv(w) && Out(w.c, b) && x.key == w.c.bufs[b].key && x.busy && (x.dirty ==> x.valid)
    requires v.c == SetBuf(w.c, b, x) && v.flights == w.flights
    requires forall y :: y != b ==> (y in v.touched <==> y in w.touched)
    requires x.valid && !x.dirty && b !in v.touched ==> x.data == DiskAt(w.c.disk, x.key)
    requires w.dead - {x.key} <= v.dead
    ensures Inv(v)
  {
    assert BitsOk(w.c, w.flights, w.touched, b);
    forall y: nat | IsBuf(v.c, y)
      ensures BitsOk(v.c, v.flights, v.touched, y) && CleanOk(v.c, v.flights, v.touched, y)
    {
      assert BitsOk(w.c, w.flights, w.touched, y) && CleanOk(w.c, w.flights, w.touched, y);
    }
    forall p | p in v.flights ensures ChainOk(v.c, v.flights[p]) {
      assert ChainOk(w.c, w.flights[p]);
    }
    forall y: nat | IsBuf(v.c, y) && InFlight(v.flights, y) && !v.c.bufs[y].valid ensures v.c.bufs[y].key in v.dead {
      assert y != b;
    }
  }

  lemma ReleaseKeeps(w: World, b: nat)
    requires Inv(w) && Out(w.c, b) && b !in w.touched
    ensures Inv(w.(c := Release(w.c, b)))
    ensures forall k :: Logical(Release(w.c, b), k) == Logical(w.c, k)
  {
    var c := Release(w.c, b);
    assert BitsOk(w.c, w.flights, w.touched, b);
    forall x ensures x in c.free <==> x in w.c.free || x == b {}
    forall x: nat | IsBuf(c, x) ensures BitsOk(c, w.flights, w.touched, x) && CleanOk(c, w.flights, w.touched, x) {
      assert BitsOk(w.c, w.flights, w.touched, x) && CleanOk(w.c, w.flights, w.touched, x);
    }
    forall p | p in w.flights ensures ChainOk(c, w.flights[p]) {
      assert ChainOk(w.c, w.flights[p]);
    }
  }

  lemma FreeKeeps(w: World, k: Key)
    requires Inv(w)
    ensures Inv(w.(c := Invalidate(w.c, k), dead := w.dead + {k}))
    ensures forall x :: x != k ==> Logical(Invalidate(w.c, k), x) == Logical(w.c, x)
  {
    var c := Invalidate(w.c, k);
    forall x: nat | IsBuf(c, x) ensures BitsOk(c, w.flights, w.touched, x) && CleanOk(c, w.flights, w.touched, x) {
      assert BitsOk(w.c, w.flights, w.touched, x) && CleanOk(w.c, w.flights, w.touched, x);
    }
    forall p | p in w.flights ensures ChainOk(c, w.flights[p]) {
      assert ChainOk(w.c, w.flights[p]);
    }
  }

  // ------------------------------------------------- buf_flush()

  /** The request f is the one of process p with the buffer b added. */
  predicate Joins(c: Cache, flights: map<nat, Flight>, p: nat, b: nat, f: Flight)
    requires b < |c.bufs|
  {
    if p in flights
    then f == flights[p].(req := flights[p].req + [b]) && c.bufs[b].key == Key(f.device, f.block + |flights[p].req|)
    else f.req == [b] && c.bufs[b].key == Key(f.device, f.block)
  }

  lemma MarkFlights(c: Cache, flights: map<nat, Flight>, p: nat, b: nat, f: Flight, x: nat)
    requires b < |c.bufs| && Joins(c, flights, p, b, f)
    ensures InFlight(flights[p := f], x) <==> x == b || InFlight(flights, x)
  {
    var after := flights[p := f];
    if x == b {
      assert f.req[|f.req| - 1] == b;
      assert p in after && x in after[p].req;
    }
    if InFlight(flights, x) {
      var q :| q in flights && x in flights[q].req;
      assert q in after && x in after[q].req;
    }
  }

  /** A dirty buffer on the free list joins the request of process p. */
  lemma MarkKeeps(w: World, p: nat, b: nat, f: Flight)
    requires Inv(w) && IsBuf(w.c, b) && b in w.c.free && w.c.bufs[b].dirty && Joins(w.c, w.flights, p, b, f)
    ensures Inv(w.(c := Mark(w.c, b), flights := w.flights[p := f]))
    ensures forall k :: Logical(Mark(w.c, b), k) == Logical(w.c, k)
  {
    var c, flights := Mark(w.c, b), w.flights[p := f];
    assert BitsOk(w.c, w.flights, w.touched, b);
    forall x ensures InFlight(flights, x) <==> x == b || InFlight(w.flights, x) {
      MarkFlights(w.c, w.flights, p, b, f, x);
    }
    forall x: nat | IsBuf(c, x) ensures BitsOk(c, flights, w.touched, x) && CleanOk(c, flights, w.touched, x) {
      assert BitsOk(w.c, w.flights, w.touched, x) && CleanOk(w.c, w.flights, w.touched, x);
    }
    assert Flights(w.(c := c, flights := flights)) by { MarkChains(w, p, b, f); }
  }

  lemma MarkChains(w: World, p: nat, b: nat, f: Flight)
    requires Inv(w) && IsBuf(w.c, b) && w.c.bufs[b].dirty && Joins(w.c, w.flights, p, b, f)
    ensures Flights(w.(c := Mark(w.c, b), flights := w.flights[p := f]))
  {
    var c, flights := Mark(w.c, b), w.flights[p := f];
    assert BitsOk(w.c, w.flights, w.touched, b);
    forall q | q in flights ensures ChainOk(c, flights[q]) {
      MarkChain(w, p, b, f, q);
    }
    forall q, r, x | q in flights && r in flights && x in flights[q].req && x in flights[r].req ensures q == r {
      if q != p { assert x in w.flights[q].req && InFlight(w.flights, x); }
      if r != p { assert x in w.flights[r].req && InFlight(w.flights, x); }
    }
    forall x: nat | IsBuf(c, x) && InFlight(flights, x) && !c.bufs[x].valid ensures c.bufs[x].key in w.dead {
      MarkFlights(w.c, w.flights, p, b, f, x);
    }
  }

  lemma MarkChain(w: World, p: nat, b: nat, f: Flight, q: nat)
    requires Inv(w) && IsBuf(w.c, b) && w.c.bufs[b].dirty && Joins(w.c, w.flights, p, b, f)
    requires q in w.flights[p := f]
    ensures ChainOk(Mark(w.c, b), w.flights[p := f][q])
  {
    assert BitsOk(w.c, w.flights, w.touched, b);
    if q in w.flights {
      assert ChainOk(w.c, w.flights[q]);
      assert b in w.flights[q].req ==> InFlight(w.flights, b);
    }
  }

  lemma DropKeeps(w: World, b: nat)
    requires Inv(w) && IsBuf(w.c, b) && b in w.c.free && !w.c.bufs[b].busy && !w.c.bufs[b].dirty
    ensures Inv(w.(c := Drop(w.c, b)))
    ensures forall k :: Logical(Drop(w.c, b), k) == Logical(w.c, k)
  {
    var c := Drop(w.c, b);
    assert BitsOk(w.c, w.flights, w.touched, b) && CleanOk(w.c, w.flights, w.touched, b);
    WithoutNoDup(w.c.free, b);
    forall x ensures x in c.free <==> x in w.c.free && x != b { WithoutIn(w.c.free, b, x); }
    forall x: nat | IsBuf(c, x) ensures BitsOk(c, w.flights, w.touched, x) && CleanOk(c, w.flights, w.touched, x) {
      assert BitsOk(w.c, w.flights, w.touched, x) && CleanOk(w.c, w.flights, w.touched, x);
    }
    forall p | p in w.flights ensures ChainOk(c, w.flights[p]) {
      assert ChainOk(w.c, w.flights[p]);
    }
  }

  /** The chain has been written: the disk holds its buffers. */
  predicate Written(c: Cache, req: seq<nat>)
    requires InRange(c, req)
  {
    forall i :: 0 <= i < |req| ==> DiskAt(c.disk, c.bufs[req[i]].key) == c.bufs[req[i]].data
  }

  lemma {:induction false} WriteChainIs(c: Cache, f: Flight, n: nat, k: Key)
    requires ChainOk(c, f) && n <= |f.req| && InRange(c, f.req[..n])
    ensures DiskAt(WriteChain(c, f.req[..n], f.device, f.block), k) ==
      if k.device == f.device && f.block <= k.block < f.block + n then c.bufs[f.req[k.block - f.block]].data
      else DiskAt(c.disk, k)
    decreases n
  {
    if n > 0 {
      assert f.req[..n][..n - 1] == f.req[..n - 1];
      WriteChainIs(c, f, n - 1, k);
    }
  }

  /** The key k is that of a block of the request f. */
  predicate Covers(f: Flight, k: Key) {
    k.device == f.device && f.block <= k.block < f.block + |f.req|
  }

  /** What the disk holds once the request of process p has been written. */
  lemma WrittenDisk(w: World, p: nat, k: Key)
    requires Inv(w) && p in w.flights && InRange(w.c, w.flights[p].req)
    ensures var f := w.flights[p]; var disk := WriteChain(w.c, f.req, f.device, f.block);
      if !Covers(f, k) then DiskAt(disk, k) == DiskAt(w.c.disk, k)
      else k in w.c.hash && InFlight(w.flights, w.c.hash[k]) && DiskAt(disk, k) == w.c.bufs[w.c.hash[k]].data
  {
    var f := w.flights[p];
    assert f.req[..|f.req|] == f.req;
    WriteChainIs(w.c, f, |f.req|, k);
    if Covers(f, k) {
      var i := k.block - f.block;
      assert w.c.bufs[f.req[i]].key == Key(f.device, f.block + i) && f.req[i] in f.req && InFlight(w.flights, f.req[i]);
      assert BitsOk(w.c, w.flights, w.touched, f.req[i]);
    }
  }

  lemma WriteKeeps(w: World, p: nat)
    requires Inv(w) && p in w.flights && InRange(w.c, w.flights[p].req)
    ensures var f := w.flights[p]; var c := w.c.(disk := WriteChain(w.c, f.req, f.device, f.block));
      && Inv(w.(c := c)) && Written(c, f.req)
      && forall k :: k !in w.dead ==> Logical(c, k) == Logical(w.c, k)
  {
    var f := w.flights[p];
    var c := w.c.(disk := WriteChain(w.c, f.req, f.device, f.block));
    forall x: nat | IsBuf(c, x) ensures BitsOk(c, w.flights, w.touched, x) && CleanOk(c, w.flights, w.touched, x) {
      assert BitsOk(w.c, w.flights, w.touched, x) && CleanOk(w.c, w.flights, w.touched, x);
      WrittenDisk(w, p, w.c.bufs[x].key);
    }
    forall q | q in w.flights ensures ChainOk(c, w.flights[q]) {
      assert ChainOk(w.c, w.flights[q]);
    }
    forall k | k !in w.dead ensures Logical(c, k) == Logical(w.c, k) {
      WrittenDisk(w, p, k);
    }
    forall i | 0 <= i < |f.req| ensures DiskAt(c.disk, c.bufs[f.req[i]].key) == c.bufs[f.req[i]].data {
      assert f.req[..|f.req|] == f.req;
      WriteChainIs(w.c, f, |f.req|, c.bufs[f.req[i]].key);
    }
  }

  function IdleOne(c: Cache, b: nat, remove: bool): Cache
    requires b < |c.bufs|
  {
    var d := SetBuf(c, b, c.bufs[b].(busy := false));
    if remove then Drop(d, b) else d
  }

  /** The requests once the first buffer of the one of process p has left it. */
  function Shorter(flights: map<nat, Flight>, p: nat): map<nat, Flight>
    requires p in flights && flights[p].req != []
  {
    if |flights[p].req| == 1 then DropFlight(flights, p)
    else flights[p := flights[p].(req := flights[p].req[1..], block := flights[p].block + 1)]
  }

  lemma ShorterFlights(w: World, p: nat)
    requires Flights(w) && p in w.flights
    ensures w.flights[p].req != []
    ensures Flights(w.(flights := Shorter(w.flights, p)))
    ensures forall x :: InFlight(Shorter(w.flights, p), x) <==> InFlight(w.flights, x) && x != w.flights[p].req[0]
  {
    var f := w.flights[p];
    assert ChainOk(w.c, f);
    var b, rest, flights := f.req[0], f.req[1..], Shorter(w.flights, p);
    assert b !in rest;
    forall q | q in flights ensures ChainOk(w.c, flights[q]) {
      assert ChainOk(w.c, w.flights[q]);
    }
    forall x ensures InFlight(flights, x) <==> InFlight(w.flights, x) && x != b {
      if InFlight(w.flights, x) && x != b {
        var q :| q in w.flights && x in w.flights[q].req;
        if q == p { assert f.req == [b] + rest; }
        assert q in flights && x in flights[q].req;
      }
    }
  }

  lemma IdleOneKeeps(w: World, p: nat)
    requires Inv(w) && p in w.flights && InRange(w.c, w.flights[p].req) && Written(w.c, w.flights[p].req)
    ensures w.flights[p].req != []
    ensures var f := w.flights[p]; var c := IdleOne(w.c, f.req[0], f.remove);
      && Inv(w.(c := c, flights := Shorter(w.flights, p)))
      && InRange(c, f.req[1..]) && Written(c, f.req[1..])
      && forall k :: Logical(c, k) == Logical(w.c, k)
  {
    var f := w.flights[p];
    assert ChainOk(w.c, f);
    var v := w.(c := SetBuf(w.c, f.req[0], w.c.bufs[f.req[0]].(busy := false)), flights := Shorter(w.flights, p));
    BitOffKeeps(w, p);
    if f.remove { DropKeeps(v, f.req[0]); }
  }

  /** The first buffer of a written request is not busy any more. */
  lemma BitOffKeeps(w: World, p: nat)
    requires Inv(w) && p in w.flights && InRange(w.c, w.flights[p].req) && Written(w.c, w.flights[p].req)
    requires ChainOk(w.c, w.flights[p])
    ensures var b := w.flights[p].req[0]; var c := SetBuf(w.c, b, w.c.bufs[b].(busy := false));
      Inv(w.(c := c, flights := Shorter(w.flights, p))) && IsBuf(c, b) && b in c.free && !c.bufs[b].dirty
  {
    var f := w.flights[p];
    var b, flights := f.req[0], Shorter(w.flights, p);
    assert b in f.req && InFlight(w.flights, b);
    var c := SetBuf(w.c, b, w.c.bufs[b].(busy := false));
    ShorterFlights(w, p);
    assert BitsOk(w.c, w.flights, w.touched, b);
    forall x: nat | IsBuf(c, x) ensures BitsOk(c, flights, w.touched, x) && CleanOk(c, flights, w.touched, x) {
      assert BitsOk(w.c, w.flights, w.touched, x) && CleanOk(w.c, w.flights, w.touched, x);
    }
    forall q | q in flights ensures ChainOk(c, flights[q]) {
      assert ChainOk(w.c, flights[q]);
    }
    assert Inv(w.(c := c, flights := flights));
  }

  /** All buffers of a written request go idle. */
  lemma {:induction false} IdleKeeps(w: World, p: nat)
    requires Inv(w) && p in w.flights && InRange(w.c, w.flights[p].req) && Written(w.c, w.flights[p].req)
    ensures var c := Idle(w.c, w.flights[p].req, w.flights[p].remove);
      && Inv(w.(c := c, flights := DropFlight(w.flights, p)))
      && forall k :: Logical(c, k) == Logical(w.c, k)
    decreases |w.flights[p].req|
  {
    var f := w.flights[p];
    IdleOneKeeps(w, p);
    var c := IdleOne(w.c, f.req[0], f.remove);
    if |f.req| > 1 {
      var v := w.(c := c, flights := Shorter(w.flights, p));
      IdleKeeps(v, p);
      assert DropFlight(v.flights, p) == DropFlight(w.flights, p);
    } else {
      assert f.req[1..] == [];
    }
  }

  // ------------------------------------------------- every step, every run

  /** What the step writes to the plain disk that the cache stands for. */
  ghost function Plain(w: World, s: Step, disk: map<Key, Data>): map<Key, Data>
    requires Enabled(w, s)
  {
    match s
    case Change(b, d, valid) => if valid || w.c.bufs[b].valid then disk[w.c.bufs[b].key := d] else disk
    case Write1(b) => disk[w.c.bufs[b].key := w.c.bufs[b].data]
    case _ => disk
  }

  /** The cache and the plain disk show the same, except for blocks freed and not written since. */
  ghost predicate Same(w: World, disk: map<Key, Data>) {
    forall k :: k !in w.dead ==> Logical(w.c, k) == DiskAt(disk, k)
  }

  lemma GetKeeps(w: World, k: Key)
    requires Inv(w) && Enabled(w, Get(k))
    ensures Inv(Apply(w, Get(k))) && forall x :: Logical(Apply(w, Get(k)).c, x) == Logical(w.c, x)
  {
    if k in w.c.hash { HitKeeps(w, w.c.hash[k]); }
    else if w.c.master != [] { FromMasterKeeps(w, k); }
    else { EvictKeeps(w, k); }
  }

  lemma CompleteKeeps(w: World, p: nat)
    requires Inv(w) && Enabled(w, Complete1(p))
    ensures var v := Apply(w, Complete1(p)); Inv(v) && forall k :: k !in w.dead ==> Logical(v.c, k) == Logical(w.c, k)
  {
    WriteKeeps(w, p);
    var f := w.flights[p];
    IdleKeeps(w.(c := w.c.(disk := WriteChain(w.c, f.req, f.device, f.block))), p);
  }

  lemma WriteBufKeeps(w: World, b: nat)
    requires Inv(w) && Enabled(w, Write1(b))
    ensures Inv(Apply(w, Write1(b)))
    ensures forall k ::
      Logical(Apply(w, Write1(b)).c, k) == if k == w.c.bufs[b].key then w.c.bufs[b].data else Logical(w.c, k)
  {
    var x := w.c.bufs[b].(valid := true, dirty := true);
    var u := w.(c := SetBuf(w.c, b, x), touched := w.touched - {b}, dead := w.dead - {x.key});
    assert BitsOk(w.c, w.flights, w.touched, b);
    HolderKeeps(w, u, b, x);
    ReleaseKeeps(u, b);
    assert Out(w.c, b) && w.c.hash[w.c.bufs[b].key] == b;
  }

  lemma ReleaseBufKeeps(w: World, b: nat)
    requires Inv(w) && Enabled(w, Release1(b))
    ensures Inv(Apply(w, Release1(b)))
    ensures forall k :: Logical(Apply(w, Release1(b)).c, k) == Logical(w.c, k)
  {
    var u := w.(touched := w.touched - {b});
    assert BitsOk(w.c, w.flights, w.touched, b) && CleanOk(w.c, w.flights, w.touched, b);
    assert SetBuf(w.c, b, w.c.bufs[b]) == w.c;
    HolderKeeps(w, u, b, w.c.bufs[b]);
    ReleaseKeeps(u, b);
  }

  /** The step changes what the block k shows. */
  predicate Changes(w: World, s: Step, k: Key)
    requires (s.Read? || s.Change?) && s.b < |w.c.bufs|
  {
    s.Change? && k == w.c.bufs[s.b].key && (s.valid || w.c.bufs[s.b].valid)
  }

  /** Reading and changing a buffer one holds. */
  lemma HoldKeeps(w: World, s: Step)
    requires Inv(w) && (s.Read? || s.Change?) && Enabled(w, s)
    ensures Inv(Apply(w, s))
    ensures forall k :: Logical(Apply(w, s).c, k) == if Changes(w, s, k) then s.d else Logical(w.c, k)
  {
    var v, b := Apply(w, s), s.b;
    assert BitsOk(w.c, w.flights, w.touched, b);
    HolderKeeps(w, v, b, v.c.bufs[b]);
    assert Out(w.c, b) && w.c.hash[w.c.bufs[b].key] == b;
  }

  lemma RequestKeeps(w: World, s: Step, p: nat, b: nat, disk: map<Key, Data>)
    requires Inv(w) && Enabled(w, s) && Same(w, disk) && (s.Begin? || s.Extend?) && s.p == p && s.b == b
    ensures Inv(Apply(w, s)) && Same(Apply(w, s), disk)
  {
    MarkKeeps(w, p, b, Apply(w, s).flights[p]);
  }

  /** A step keeps the invariant, and the cache goes on showing what the plain disk holds. */
  lemma StepKeeps(w: World, s: Step, disk: map<Key, Data>)
    requires Inv(w) && Enabled(w, s) && Same(w, disk)
    ensures Inv(Apply(w, s)) && Same(Apply(w, s), Plain(w, s, disk))
  {
    match s
    case Get(k) => GetKeeps(w, k);
    case Begin(p, b, remove) => RequestKeeps(w, s, p, b, disk);
    case Extend(p, b) => RequestKeeps(w, s, p, b, disk);
    case Drop1(b) => DropKeeps(w, b);
    case Complete1(p) => CompleteKeeps(w, p);
    case Read(b) => HoldKeeps(w, s);
    case Change(b, d, valid) => HoldKeeps(w, s);
    case Write1(b) => WriteBufKeeps(w, b);
    case Release1(b) => ReleaseBufKeeps(w, b);
    case Free(k) => FreeKeeps(w, k);
  }

  ghost predicate Runs(w: World, steps: seq<Step>)
    decreases |steps|
  {
    steps == [] || (Enabled(w, steps[0]) && Runs(Apply(w, steps[0]), steps[1..]))
  }

  ghost function Run(w: World, steps: seq<Step>): World
    requires Runs(w, steps)
    decreases |steps|
  {
    if steps == [] then w else Run(Apply(w, steps[0]), steps[1..])
  }

  /** The plain disk, after the same writes. */
  ghost function PlainRun(w: World, steps: seq<Step>, disk: map<Key, Data>): map<Key, Data>
    requires Runs(w, steps)
    decreases |steps|
  {
    if steps == [] then disk
    else PlainRun(Apply(w, steps[0]), steps[1..], Plain(w, steps[0], disk))
  }

  /** Over every interleaving the cache shows what a plain disk would hold after the same writes. */
  lemma {:induction false} RunKeeps(w: World, steps: seq<Step>, disk: map<Key, Data>)
    requires Inv(w) && Runs(w, steps) && Same(w, disk)
    ensures Inv(Run(w, steps)) && Same(Run(w, steps), PlainRun(w, steps, disk))
    decreases |steps|
  {
    if steps != [] {
      StepKeeps(w, steps[0], disk);
      RunKeeps(Apply(w, steps[0]), steps[1..], Plain(w, steps[0], disk));
    }
  }

  /** buf_init(): all buffers on the master list. */
  function Boot(n: nat, disk: map<Key, Data>): World
    requires n >= FIRST
  {
    var bufs := seq(n, i => Buf(Key(0, 0), false, false, false, []));
    World(Cache(bufs, seq(n - FIRST, i requires 0 <= i => FIRST + i), [], map[], disk), map[], {}, {})
  }

  lemma BootIsValid(n: nat, disk: map<Key, Data>)
    requires n >= FIRST
    ensures Inv(Boot(n, disk)) && Same(Boot(n, disk), disk)
  {
    var w := Boot(n, disk);
    forall b: nat | IsBuf(w.c, b) ensures b in w.c.master && BitsOk(w.c, w.flights, w.touched, b) {
      assert w.c.master[b - FIRST] == b;
    }
  }

  /** No buffer is dirty, being written or changed in its holder's hands. */
  predicate Quiet(w: World) {
    w.flights == map[] && w.touched == {} && forall b: nat :: b < |w.c.bufs| ==> !w.c.bufs[b].dirty
  }

  /** A holder's valid buffer shows the plain disk. */
  predicate HolderSees(w: World, b: nat, plain: map<Key, Data>)
    requires b < |w.c.bufs|
  {
    w.c.bufs[b].valid && w.c.bufs[b].key !in w.dead ==> w.c.bufs[b].data == DiskAt(plain, w.c.bufs[b].key)
  }

  /** In every reachable state a process that holds a valid buffer sees the plain disk, and once
      all is quiet the disk itself holds it. */
  lemma ReachableIsTransparent(n: nat, disk: map<Key, Data>, steps: seq<Step>)
    requires n >= FIRST && Runs(Boot(n, disk), steps)
    ensures Inv(Run(Boot(n, disk), steps))
    ensures var w := Run(Boot(n, disk), steps); var plain := PlainRun(Boot(n, disk), steps, disk);
      && (forall b: nat :: Out(w.c, b) ==> HolderSees(w, b, plain))
      && (Quiet(w) ==> forall k :: k !in w.dead ==> DiskAt(w.c.disk, k) == DiskAt(plain, k))
  {
    BootIsValid(n, disk);
    RunKeeps(Boot(n, disk), steps, disk);
    var w := Run(Boot(n, disk), steps);
    var plain := PlainRun(Boot(n, disk), steps, disk);
    forall b: nat | Out(w.c, b) ensures HolderSees(w, b, plain) {
      assert w.c.hash[w.c.bufs[b].key] == b;
    }
    if Quiet(w) {
      forall k | k !in w.dead ensures DiskAt(w.c.disk, k) == DiskAt(plain, k) {
        assert Logical(w.c, k) == DiskAt(plain, k);
        if k in w.c.hash { assert CleanOk(w.c, w.flights, w.touched, w.c.hash[k]); }
      }
    }
  }

  /** A dirty buffer keeps its block and stays dirty until a request takes it or its block is
      freed; only its holder changes its contents. */
  lemma DirtyStays(w: World, s: Step, b: nat)
    requires Inv(w) && Enabled(w, s) && IsBuf(w.c, b) && w.c.bufs[b].dirty
    ensures |Apply(w, s).c.bufs| == |w.c.bufs|
    ensures var x := Apply(w, s).c.bufs[b];
      && x.key == w.c.bufs[b].key
      && (x.data == w.c.bufs[b].data || (s.Change? && s.b == b))
      && (x.dirty || ((s.Begin? || s.Extend?) && s.b == b) || s == Free(x.key))
  {
    assert BitsOk(w.c, w.flights, w.touched, b);
    if s.Complete1? {
      var f := w.flights[s.p];
      assert ChainOk(w.c, f);
      assert b in f.req ==> InFlight(w.flights, b);
      IdleFrame(w.c.(disk := WriteChain(w.c, f.req, f.device, f.block)), f.req, f.remove, b);
    }
  }

  lemma {:induction false} IdleFrame(c: Cache, req: seq<nat>, remove: bool, b: nat)
    requires InRange(c, req) && b !in req && b < |c.bufs|
    ensures |Idle(c, req, remove).bufs| == |c.bufs| && Idle(c, req, remove).bufs[b] == c.bufs[b]
    decreases |req|
  {
    if req != [] { IdleFrame(IdleOne(c, req[0], remove), req[1..], remove, b); }
  }
}
