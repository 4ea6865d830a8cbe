/** The buffer cache of fs/buffer.c as values: what each operation does to the buffers, the
    lists, the hash table and the disks. */
module BufferModel {
  import opened Rings

  /** The contents of a block. */
  type Data = seq<int>

  datatype Key = Key(device: nat, block: nat)

  datatype Buf = Buf(key: Key, busy: bool, dirty: bool, valid: bool, data: Data)

  /** buf_vect[] from buffer 2 on, the master and the free list in order, the hash table and the
      contents of the devices. */
  datatype Cache = Cache(bufs: seq<Buf>, master: seq<nat>, free: seq<nat>, hash: map<Key, nat>, disk: map<Key, Data>)

  const FIRST := 2

  function DiskAt(disk: map<Key, Data>, k: Key): Data {
    if k in disk then disk[k] else []
  }

  /** The contents a process that asks for a block is to see. */
  function Logical(c: Cache, k: Key): Data {
    if k in c.hash && c.hash[k] < |c.bufs| && c.bufs[c.hash[k]].valid then c.bufs[c.hash[k]].data
    else DiskAt(c.disk, k)
  }

  function SetBuf(c: Cache, b: nat, x: Buf): Cache
    requires b < |c.bufs|
  {
    c.(bufs := c.bufs[b := x])
  }

  function DropKey(m: map<Key, nat>, k: Key): (r: map<Key, nat>)
    ensures forall x :: x in r <==> x in m && x != k
    ensures forall x :: x in r ==> r[x] == m[x]
  {
    map x | x in m && x != k :: m[x]
  }

  // ------------------------------------------------- buf_get()

  /** The buffer of the block is in the cache and idle. */
  function Hit(c: Cache, b: nat): Cache
    requires b < |c.bufs|
  {
    SetBuf(c, b, c.bufs[b].(busy := true)).(free := Without(c.free, b))
  }

  /** buf_update(): the buffer b now stands for the block k and holds nothing. */
  function Assign(c: Cache, b: nat, k: Key): Cache
    requires b < |c.bufs|
  {
    SetBuf(c, b, c.bufs[b].(key := k, busy := true, valid := false)).(hash := c.hash[k := b])
  }

  function FromMaster(c: Cache, k: Key): Cache
    requires c.master != [] && c.master[0] < |c.bufs|
  {
    Assign(c.(master := Without(c.master, c.master[0])), c.master[0], k)
  }

  /** The least recently used buffer is taken for the block k. */
  function Evict(c: Cache, k: Key): Cache
    requires c.free != [] && c.free[0] < |c.bufs|
  {
    var b := c.free[0];
    Assign(c.(free := Without(c.free, b), hash := DropKey(c.hash, c.bufs[b].key)), b, k)
  }

  // ------------------------------------------------- buf_release(), buf_write(), buf_remove(), b_free()

  function Release(c: Cache, b: nat): Cache
    requires b < |c.bufs|
  {
    SetBuf(c, b, c.bufs[b].(busy := false)).(free := if c.bufs[b].valid then c.free + [b] else [b] + c.free)
  }

  function Write(c: Cache, b: nat): Cache
    requires b < |c.bufs|
  {
    Release(SetBuf(c, b, c.bufs[b].(valid := true, dirty := true)), b)
  }

  function Drop(c: Cache, b: nat): Cache
    requires b < |c.bufs|
  {
    c.(free := Without(c.free, b), hash := DropKey(c.hash, c.bufs[b].key), master := c.master + [b])
  }

  /** The buffer part of b_free(). */
  function Invalidate(c: Cache, k: Key): Cache {
    if k in c.hash && c.hash[k] < |c.bufs|
    then SetBuf(c, c.hash[k], c.bufs[c.hash[k]].(valid := false, dirty := false))
    else c
  }

  /** drv_read() into a buffer. */
  function ReadIn(c: Cache, b: nat): Cache
    requires b < |c.bufs|
  {
    SetBuf(c, b, c.bufs[b].(valid := true, data := DiskAt(c.disk, c.bufs[b].key)))
  }

  /** Its holder changes the contents of a buffer, and may mark it valid. */
  function Fill(c: Cache, b: nat, d: Data, valid: bool): Cache
    requires b < |c.bufs|
  {
    SetBuf(c, b, c.bufs[b].(data := d, valid := valid || c.bufs[b].valid))
  }

  // ------------------------------------------------- buf_flush()

  /** A dirty buffer enters a write request. */
  function Mark(c: Cache, b: nat): Cache
    requires b < |c.bufs|
  {
    SetBuf(c, b, c.bufs[b].(busy := true, dirty := false))
  }

  predicate InRange(c: Cache, xs: seq<nat>) {
    forall i :: 0 <= i < |xs| ==> xs[i] < |c.bufs|
  }

  /** drv_write(): the blocks from block on receive the buffers of the chain in turn. */
  function WriteChain(c: Cache, req: seq<nat>, device: nat, block: nat): map<Key, Data>
    requires InRange(c, req)
  {
    if req == [] then c.disk
    else WriteChain(c, req[..|req| - 1], device, block)[Key(device, block + |req| - 1) := c.bufs[req[|req| - 1]].data]
  }

  /** The buffers of a finished request become idle, or leave the cache. */
  function Idle(c: Cache, req: seq<nat>, remove: bool): Cache
    requires InRange(c, req)
    decreases |req|
  {
    if req == [] then c
    else
      var d := SetBuf(c, req[0], c.bufs[req[0]].(busy := false));
      Idle(if remove then Drop(d, req[0]) else d, req[1..], remove)
  }

  function Complete(c: Cache, req: seq<nat>, device: nat, block: nat, remove: bool): Cache
    requires InRange(c, req)
  {
    Idle(c.(disk := WriteChain(c, req, device, block)), req, remove)
  }

  /** Where a pass over the free list stops: with a request to write, or at the end. */
  datatype Pass = Pass(c: Cache, req: seq<nat>, device: nat, count: nat)

  /** The request req can take the buffer b as its next. */
  predicate Follows(c: Cache, req: seq<nat>, device: nat, b: nat)
    requires InRange(c, req) && b < |c.bufs|
  {
    req == [] || c.bufs[b].key == Key(device, c.bufs[req[|req| - 1]].key.block + 1)
  }

  /** The for loop of buf_flush() over the rest xs of the free list, with the request req. */
  function Scan(c: Cache, xs: seq<nat>, req: seq<nat>, device: nat, count: nat, remove: bool): Pass
    requires InRange(c, xs) && InRange(c, req)
    decreases |xs|
  {
    if xs == [] || count == 0 then Pass(c, req, device, count)
    else
      var b := xs[0];
      if c.bufs[b].dirty then
        if req == [] && device != 0 && c.bufs[b].key.device != device then
          Scan(c, xs[1..], req, device, count, remove)
        else if Follows(c, req, device, b) then
          Scan(Mark(c, b), xs[1..], req + [b], if device == 0 then c.bufs[b].key.device else device, count - 1, remove)
        else Pass(c, req, device, count)
      else if remove && !c.bufs[b].busy then
        Scan(Drop(c, b), xs[1..], req, device, count - 1, remove)
      else Scan(c, xs[1..], req, device, count, remove)
  }
}
