/** In which order buffers leave the cache, over every run, and what b_free() saves. */
module BufferOrder {
  import opened Basics
  import opened Rings
  import opened BufferModel
  import opened BufferSteps
  import opened BufferFlush

  // ------------------------------------------------- the least recently used buffer

  /** The step puts the buffer back on the free list. */
  predicate GivesBack(s: Step, b: nat) {
    s == Write1(b) || s == Release1(b)
  }

  /** When the buffer was last given back, or -1. */
  function LastUse(steps: seq<Step>, b: nat): (t: int)
    ensures -1 <= t < |steps|
  {
    if steps == [] then -1
    else if GivesBack(steps[|steps| - 1], b) then |steps| - 1
    else LastUse(steps[..|steps| - 1], b)
  }

  lemma LastUseOne(steps: seq<Step>, s: Step, b: nat)
    ensures LastUse(steps + [s], b) == if GivesBack(s, b) then |steps| else LastUse(steps, b)
  {
    assert (steps + [s])[..|steps|] == steps;
  }

  /** The buffer is on the list and valid. */
  predicate ValidAt(c: Cache, i: nat) {
    i < |c.free| && c.free[i] < |c.bufs| && c.bufs[c.free[i]].valid
  }

  /** Of two valid buffers, the one further down the list was given back later. */
  ghost predicate InOrder(c: Cache, steps: seq<Step>) {
    forall i: nat, j: nat :: i < j && ValidAt(c, i) && ValidAt(c, j) ==>
      LastUse(steps, c.free[i]) < LastUse(steps, c.free[j])
  }

  /** Every buffer on the list was given back at some time. */
  ghost predicate AllUsed(c: Cache, steps: seq<Step>) {
    forall i: nat :: i < |c.free| ==> 0 <= LastUse(steps, c.free[i])
  }

  ghost predicate Aged(c: Cache, steps: seq<Step>) {
    InOrder(c, steps) && AllUsed(c, steps)
  }

  /** The free list of d is that of c or lacks one buffer, and no buffer on it becomes valid. */
  ghost predicate Leaves(c: Cache, d: Cache) {
    && (d.free == c.free || exists x :: d.free == Without(c.free, x))
    && |d.bufs| == |c.bufs| && forall i: nat :: ValidAt(d, i) ==> c.bufs[d.free[i]].valid
  }

  lemma LeavesAged(c: Cache, d: Cache, steps: seq<Step>)
    requires NoDup(c.free) && Aged(c, steps) && Leaves(c, d)
    ensures Aged(d, steps) && NoDup(d.free)
  {
    if d.free == c.free {
      assert forall i: nat :: ValidAt(d, i) ==> ValidAt(c, i);
    } else {
      var x :| d.free == Without(c.free, x);
      if x !in c.free { WithoutNone(c.free, x); }
      var k :| 0 <= k < |c.free| && c.free[k] == x;
      WithoutAt(c.free, k);
      WithoutNoDup(c.free, x);
      SkipAged(c, d, k, steps);
    }
  }

  lemma SkipAged(c: Cache, d: Cache, k: nat, steps: seq<Step>)
    requires Aged(c, steps) && k < |c.free| && d.free == c.free[..k] + c.free[k + 1..]
    requires |d.bufs| == |c.bufs| && forall i: nat :: ValidAt(d, i) ==> c.bufs[d.free[i]].valid
    ensures Aged(d, steps)
  {
    forall i: nat, j: nat | i < j && ValidAt(d, i) && ValidAt(d, j)
      ensures LastUse(steps, d.free[i]) < LastUse(steps, d.free[j])
    {
      assert ValidAt(c, if i < k then i else i + 1) && ValidAt(c, if j < k then j else j + 1);
    }
  }

  /** A step that gives nothing back leaves the times of all buffers alone. */
  lemma AgedOne(c: Cache, steps: seq<Step>, s: Step)
    requires Aged(c, steps) && !s.Write1? && !s.Release1?
    ensures Aged(c, steps + [s])
  {
    forall b: nat ensures LastUse(steps + [s], b) == LastUse(steps, b) { LastUseOne(steps, s, b); }
  }

  lemma {:induction false} IdleAged(c: Cache, req: seq<nat>, remove: bool, steps: seq<Step>)
    requires InRange(c, req) && NoDup(c.free) && Aged(c, steps)
    ensures Aged(Idle(c, req, remove), steps)
    decreases |req|
  {
    if req != [] {
      var d := IdleOne(c, req[0], remove);
      assert Leaves(c, d);
      LeavesAged(c, d, steps);
      IdleAged(d, req[1..], remove, steps);
    }
  }

  /** A buffer given back goes last if it is valid, and first if it is not. */
  lemma BackAged(c: Cache, d: Cache, b: nat, steps: seq<Step>, s: Step)
    requires Aged(c, steps) && GivesBack(s, b) && b !in c.free && b < |d.bufs| == |c.bufs|
    requires forall x: nat :: x < |c.bufs| && x != b ==> d.bufs[x] == c.bufs[x]
    requires d.free == if d.bufs[b].valid then c.free + [b] else [b] + c.free
    ensures Aged(d, steps + [s])
  {
    forall x: nat ensures LastUse(steps + [s], x) == if x == b then |steps| else LastUse(steps, x) {
      LastUseOne(steps, s, x);
    }
    forall i: nat, j: nat | i < j && ValidAt(d, i) && ValidAt(d, j)
      ensures LastUse(steps + [s], d.free[i]) < LastUse(steps + [s], d.free[j])
    {
      if d.bufs[b].valid {
        assert ValidAt(c, i);
        if j < |c.free| { assert ValidAt(c, j); }
      } else {
        assert ValidAt(c, i - 1) && ValidAt(c, j - 1);
      }
    }
  }

  lemma CompleteAged(w: World, p: nat, steps: seq<Step>)
    requires Inv(w) && Enabled(w, Complete1(p)) && Aged(w.c, steps)
    ensures Aged(Apply(w, Complete1(p)).c, steps)
  {
    var f := w.flights[p];
    var c := w.c.(disk := WriteChain(w.c, f.req, f.device, f.block));
    assert Leaves(w.c, c);
    LeavesAged(w.c, c, steps);
    IdleAged(c, f.req, f.remove, steps);
  }

  lemma OtherAged(w: World, s: Step, steps: seq<Step>)
    requires Inv(w) && Enabled(w, s) && Aged(w.c, steps) && !s.Write1? && !s.Release1? && !s.Complete1?
    ensures Aged(Apply(w, s).c, steps)
  {
    assert Leaves(w.c, Apply(w, s).c);
    LeavesAged(w.c, Apply(w, s).c, steps);
  }

  lemma StepAged(w: World, s: Step, steps: seq<Step>)
    requires Inv(w) && Enabled(w, s) && Aged(w.c, steps)
    ensures Aged(Apply(w, s).c, steps + [s])
  {
    var d := Apply(w, s).c;
    if s.Write1? || s.Release1? {
      BackAged(w.c, d, s.b, steps, s);
    } else {
      if s.Complete1? { CompleteAged(w, s.p, steps); } else { OtherAged(w, s, steps); }
      AgedOne(d, steps, s);
    }
  }

  lemma {:induction false} RunAged(w: World, done: seq<Step>, steps: seq<Step>, disk: map<Key, Data>)
    requires Inv(w) && Same(w, disk) && Runs(w, steps) && Aged(w.c, done)
    ensures Aged(Run(w, steps).c, done + steps)
    decreases |steps|
  {
    if steps == [] {
      assert done + [] == done;
    } else {
      StepAged(w, steps[0], done);
      StepKeeps(w, steps[0], disk);
      RunAged(Apply(w, steps[0]), done + [steps[0]], steps[1..], Plain(w, steps[0], disk));
      assert done + [steps[0]] + steps[1..] == done + steps;
    }
  }

  /** Over every interleaving the valid buffers on the free list stand in the order in which they
      were last given back. */
  lemma FreeListIsLru(n: nat, disk: map<Key, Data>, steps: seq<Step>)
    requires n >= FIRST && Runs(Boot(n, disk), steps)
    ensures Inv(Run(Boot(n, disk), steps)) && Aged(Run(Boot(n, disk), steps).c, steps)
  {
    BootIsValid(n, disk);
    RunKeeps(Boot(n, disk), steps, disk);
    RunAged(Boot(n, disk), [], steps, disk);
    assert [] + steps == steps;
  }

  /** The block has this buffer. */
  predicate Has(c: Cache, k: Key, b: nat) {
    k in c.hash && c.hash[k] == b
  }

  /** buf_get() of a block that is in the cache lets no block go. Of any other it takes a buffer
      that has no block if there is one, and else the one buffer whose block goes: if that holds
      data, it was given back before all other idle buffers that do. */
  lemma GetTakesOldest(n: nat, disk: map<Key, Data>, steps: seq<Step>, k: Key)
    requires n >= FIRST && Runs(Boot(n, disk), steps) && Enabled(Run(Boot(n, disk), steps), Get(k))
    ensures var c := Run(Boot(n, disk), steps).c; var d := Apply(Run(Boot(n, disk), steps), Get(k)).c;
      && k in d.hash && |d.bufs| == |c.bufs|
      && (forall x, b :: x != k && Has(c, x, b) && b != d.hash[k] ==> Has(d, x, b))
      && (k in c.hash ==> d.hash == c.hash)
      && (k !in c.hash && c.master != [] ==> d.hash[k] in c.master && forall x, b :: Has(c, x, b) ==> Has(d, x, b))
      && (k !in c.hash && c.master == [] ==> Oldest(c, steps, d.hash[k]))
  {
    FreeListIsLru(n, disk, steps);
    var w := Run(Boot(n, disk), steps);
    if k !in w.c.hash && w.c.master == [] { HeadIsOldest(w, steps); }
  }

  /** The buffer is on the free list and, if valid, was given back before all others that are. */
  ghost predicate Oldest(c: Cache, steps: seq<Step>, b: nat) {
    && b in c.free && b < |c.bufs|
    && (c.bufs[b].valid ==>
      forall x :: x in c.free && x < |c.bufs| && x != b && c.bufs[x].valid ==> LastUse(steps, b) < LastUse(steps, x))
  }

  lemma HeadIsOldest(w: World, steps: seq<Step>)
    requires Inv(w) && Aged(w.c, steps) && w.c.free != []
    ensures Oldest(w.c, steps, w.c.free[0])
  {
    var c := w.c;
    var b := c.free[0];
    assert b in c.free;
    forall x | x in c.free && x < |c.bufs| && x != b && c.bufs[x].valid && c.bufs[b].valid
      ensures LastUse(steps, b) < LastUse(steps, x)
    {
      var j: nat :| j < |c.free| && c.free[j] == x;
      assert ValidAt(c, 0) && ValidAt(c, j);
    }
  }

  /** A buffer that was given back without data is the first to be taken again. */
  lemma EmptyGoesFirst(w: World, b: nat, k: Key)
    requires Inv(w) && Enabled(w, Release1(b)) && !w.c.bufs[b].valid && w.c.master == [] && k !in w.c.hash
    ensures var v := Apply(w, Release1(b)); Enabled(v, Get(k)) && Has(Apply(v, Get(k)).c, k, b)
  {
    assert BitsOk(w.c, w.flights, w.touched, b);
  }

  // ------------------------------------------------- freed blocks

  /** No buffer of a block that was freed, and not written since, is going to be written. */
  ghost predicate DeadClean(w: World) {
    forall b: nat :: IsBuf(w.c, b) && w.c.bufs[b].dirty ==> w.c.bufs[b].key !in w.dead
  }

  lemma StepDeadClean(w: World, s: Step)
    requires Inv(w) && Enabled(w, s) && DeadClean(w)
    ensures DeadClean(Apply(w, s))
  {
    var v := Apply(w, s);
    forall b: nat | IsBuf(v.c, b) && v.c.bufs[b].dirty ensures v.c.bufs[b].key !in v.dead {
      if s.Complete1? { CompleteBits(w, s.p, b); }
      if IsBuf(w.c, b) { assert BitsOk(w.c, w.flights, w.touched, b); }
    }
  }

  predicate SameBits(c: Cache, d: Cache, b: nat)
    requires b < |c.bufs| && b < |d.bufs|
  {
    d.bufs[b].dirty == c.bufs[b].dirty && d.bufs[b].key == c.bufs[b].key
  }

  lemma CompleteBits(w: World, p: nat, b: nat)
    requires Inv(w) && Enabled(w, Complete1(p))
    ensures var c := Apply(w, Complete1(p)).c; |c.bufs| == |w.c.bufs| && (b < |c.bufs| ==> SameBits(w.c, c, b))
  {
    var f := w.flights[p];
    IdleBits(w.c.(disk := WriteChain(w.c, f.req, f.device, f.block)), f.req, f.remove, b);
  }

  lemma {:induction false} IdleBits(c: Cache, req: seq<nat>, remove: bool, b: nat)
    requires InRange(c, req)
    ensures var d := Idle(c, req, remove);
      |d.bufs| == |c.bufs| && (b < |d.bufs| ==> SameBits(c, d, b))
    decreases |req|
  {
    if req != [] { IdleBits(IdleOne(c, req[0], remove), req[1..], remove, b); }
  }

  lemma {:induction false} RunDeadClean(w: World, steps: seq<Step>, disk: map<Key, Data>)
    requires Inv(w) && Same(w, disk) && Runs(w, steps) && DeadClean(w)
    ensures DeadClean(Run(w, steps))
    decreases |steps|
  {
    if steps != [] {
      StepDeadClean(w, steps[0]);
      StepKeeps(w, steps[0], disk);
      RunDeadClean(Apply(w, steps[0]), steps[1..], Plain(w, steps[0], disk));
    }
  }

  /** The step takes a buffer of the block into a request. */
  predicate Requests(w: World, s: Step, k: Key) {
    (s.Begin? || s.Extend?) && s.b < |w.c.bufs| && w.c.bufs[s.b].key == k
  }

  /** In every reachable state the buffers of freed blocks are clean, so that no request takes one
      before somebody writes the block again. */
  lemma FreedIsNotWritten(n: nat, disk: map<Key, Data>, steps: seq<Step>, s: Step, k: Key)
    requires n >= FIRST && Runs(Boot(n, disk), steps) && Enabled(Run(Boot(n, disk), steps), s)
    ensures DeadClean(Run(Boot(n, disk), steps))
    ensures Requests(Run(Boot(n, disk), steps), s, k) ==> k !in Run(Boot(n, disk), steps).dead
  {
    BootIsValid(n, disk);
    RunDeadClean(Boot(n, disk), steps, disk);
  }

  // ------------------------------------------------- how long a request is

  /** The dirty buffers of the list, in its order. */
  function Unwritten(c: Cache, xs: seq<nat>): (r: seq<nat>)
    requires InRange(c, xs)
    ensures InRange(c, r)
    ensures forall b :: b in r <==> b in xs && c.bufs[b].dirty
  {
    if xs == [] then []
    else if c.bufs[xs[0]].dirty then [xs[0]] + Unwritten(c, xs[1..])
    else Unwritten(c, xs[1..])
  }

  lemma {:induction false} UnwrittenSame(c: Cache, d: Cache, xs: seq<nat>)
    requires InRange(c, xs) && InRange(d, xs)
    requires forall b :: b in xs ==> d.bufs[b].dirty == c.bufs[b].dirty
    ensures Unwritten(d, xs) == Unwritten(c, xs)
  {
    if xs != [] { UnwrittenSame(c, d, xs[1..]); }
  }

  /** The list from the first buffer of the device on; device 0 stands for any. */
  function From(c: Cache, xs: seq<nat>, device: nat): (r: seq<nat>)
    requires InRange(c, xs)
    ensures InRange(c, r)
  {
    if xs == [] || device == 0 || c.bufs[xs[0]].key.device == device then xs else From(c, xs[1..], device)
  }

  /** The dirty buffers that a pass with the request req may still take. */
  function Candidates(c: Cache, xs: seq<nat>, req: seq<nat>, device: nat): (r: seq<nat>)
    requires InRange(c, xs)
    ensures InRange(c, r)
  {
    if req == [] then From(c, Unwritten(c, xs), device) else Unwritten(c, xs)
  }

  /** The request s.req is req with the first n of the candidates ds, and it had to end there. */
  predicate Longest(c: Cache, s: Pass, req: seq<nat>, ds: seq<nat>, n: nat) {
    && n <= |ds| && s.req == req + ds[..n] && InRange(c, s.req) && InRange(c, ds)
    && (n == |ds| || s.count == 0
        || (s.req != [] && c.bufs[ds[n]].key != Key(s.device, c.bufs[s.req[|s.req| - 1]].key.block + 1)))
  }

  predicate SameKeys(c: Cache, d: Cache) {
    |c.bufs| == |d.bufs| && forall b: nat :: b < |c.bufs| ==> c.bufs[b].key == d.bufs[b].key
  }

  /** The buffer x leads the candidates and is taken. */
  lemma TakenLongest(c: Cache, d: Cache, x: nat, s: Pass, req: seq<nat>, ds: seq<nat>, n: nat)
    requires SameKeys(c, d) && x < |c.bufs| && Longest(d, s, req + [x], ds, n)
    ensures Longest(c, s, req, [x] + ds, n + 1)
  {
    assert ([x] + ds)[..n + 1] == [x] + ds[..n] && req + ([x] + ds[..n]) == req + [x] + ds[..n];
    if n < |ds| { assert ([x] + ds)[n + 1] == ds[n]; }
  }

  lemma {:induction false} ScanLongest(c: Cache, xs: seq<nat>, req: seq<nat>, device: nat, count: nat, remove: bool)
    returns (n: nat)
    requires InRange(c, xs) && InRange(c, req) && NoDup(xs)
    ensures Longest(c, Scan(c, xs, req, device, count, remove), req, Candidates(c, xs, req, device), n)
    decreases |xs|
  {
    if xs == [] || count == 0 { return 0; }
    var x := xs[0];
    if !c.bufs[x].dirty {
      n := CleanLongest(c, xs, req, device, count, remove);
    } else if req == [] && device != 0 && c.bufs[x].key.device != device {
      n := ScanLongest(c, xs[1..], req, device, count, remove);
    } else if Follows(c, req, device, x) {
      n := DirtyLongest(c, xs, req, device, count, remove);
    } else {
      n := 0;
    }
  }

  lemma {:induction false} CleanLongest(c: Cache, xs: seq<nat>, req: seq<nat>, device: nat, count: nat, remove: bool)
    returns (n: nat)
    requires InRange(c, xs) && InRange(c, req) && NoDup(xs) && xs != [] && count > 0 && !c.bufs[xs[0]].dirty
    ensures Longest(c, Scan(c, xs, req, device, count, remove), req, Candidates(c, xs, req, device), n)
    decreases |xs|, 0
  {
    var ys := xs[1..];
    if remove && !c.bufs[xs[0]].busy {
      var d := Drop(c, xs[0]);
      n := ScanLongest(d, ys, req, device, count - 1, remove);
      RemovedLongest(c, d, Scan(d, ys, req, device, count - 1, remove), ys, req, device, n);
    } else {
      n := ScanLongest(c, ys, req, device, count, remove);
    }
  }

  /** The pass in d is one in c, which has the same buffers. */
  lemma RemovedLongest(c: Cache, d: Cache, s: Pass, xs: seq<nat>, req: seq<nat>, device: nat, n: nat)
    requires d.bufs == c.bufs && InRange(d, xs) && Longest(d, s, req, Candidates(d, xs, req, device), n)
    ensures Longest(c, s, req, Candidates(c, xs, req, device), n)
  {
    UnwrittenSame(c, d, xs);
    FromSame(c, d, Unwritten(c, xs), device);
  }

  lemma {:induction false} FromSame(c: Cache, d: Cache, xs: seq<nat>, device: nat)
    requires InRange(c, xs) && SameKeys(c, d)
    ensures From(d, xs, device) == From(c, xs, device)
  {
    if xs != [] { FromSame(c, d, xs[1..], device); }
  }

  lemma {:induction false} DirtyLongest(c: Cache, xs: seq<nat>, req: seq<nat>, device: nat, count: nat, remove: bool)
    returns (n: nat)
    requires InRange(c, xs) && InRange(c, req) && NoDup(xs) && xs != [] && count > 0 && c.bufs[xs[0]].dirty
    requires req == [] ==> device == 0 || c.bufs[xs[0]].key.device == device
    requires Follows(c, req, device, xs[0])
    ensures Longest(c, Scan(c, xs, req, device, count, remove), req, Candidates(c, xs, req, device), n)
    decreases |xs|, 0
  {
    var x, d := xs[0], Mark(c, xs[0]);
    UnwrittenSame(c, d, xs[1..]);
    n := ScanLongest(d, xs[1..], req + [x], if device == 0 then c.bufs[x].key.device else device, count - 1, remove);
    TakenLongest(c, d, x, Scan(c, xs, req, device, count, remove), req, Unwritten(c, xs[1..]), n);
    n := n + 1;
  }

  /** A request of buf_flush() begins with the first dirty buffer on the free list (of the device,
      if one is asked for) and takes in the dirty ones behind it, until the count is used up, none
      is left, or the next is not the following block of the device. */
  lemma RequestIsLongest(w: World, device: nat, count: nat, remove: bool) returns (n: nat)
    requires Inv(w)
    ensures InRange(w.c, w.c.free)
    ensures var s := Scan(w.c, w.c.free, [], device, count, remove);
      Longest(w.c, s, [], From(w.c, Unwritten(w.c, w.c.free), device), n)
  {
    FreeInRange(w);
    n := ScanLongest(w.c, w.c.free, [], device, count, remove);
  }
}
