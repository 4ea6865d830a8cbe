/** buf_flush() run to its end, and what it leaves behind. */
module BufferFlush {
  import opened Basics
  import opened Rings
  import opened BufferModel
  import opened BufferSteps

  /** A pass keeps the number of buffers and only shortens the free list; what it counts off is
      what it takes into the request or removes. */
  lemma {:induction false} ScanRange(c: Cache, xs: seq<nat>, req: seq<nat>, device: nat, count: nat, remove: bool)
    requires InRange(c, xs) && InRange(c, req) && InRange(c, c.free)
    ensures var s := Scan(c, xs, req, device, count, remove);
      && |s.c.bufs| == |c.bufs| && InRange(s.c, s.req) && InRange(s.c, s.c.free) && s.c.disk == c.disk
      && req <= s.req && s.count + |s.req| <= count + |req| && (device != 0 ==> s.device == device)
    decreases |xs|
  {
    if xs != [] && count > 0 {
      var b := xs[0];
      var d := if device == 0 then c.bufs[b].key.device else device;
      if c.bufs[b].dirty {
        if req == [] && device != 0 && c.bufs[b].key.device != device {
          ScanRange(c, xs[1..], req, device, count, remove);
        } else if Follows(c, req, device, b) {
          ScanRange(Mark(c, b), xs[1..], req + [b], d, count - 1, remove);
        }
      } else if remove && !c.bufs[b].busy {
        DropRange(c, b);
        ScanRange(Drop(c, b), xs[1..], req, device, count - 1, remove);
      } else {
        ScanRange(c, xs[1..], req, device, count, remove);
      }
    }
  }

  lemma DropRange(c: Cache, b: nat)
    requires InRange(c, c.free) && b < |c.bufs|
    ensures InRange(Drop(c, b), Drop(c, b).free)
  {
    forall i | 0 <= i < |Drop(c, b).free| ensures Drop(c, b).free[i] < |c.bufs| {
      WithoutIn(c.free, b, Drop(c, b).free[i]);
    }
  }

  lemma {:induction false} IdleRange(c: Cache, req: seq<nat>, remove: bool)
    requires InRange(c, req) && InRange(c, c.free)
    ensures var d := Idle(c, req, remove); |d.bufs| == |c.bufs| && InRange(d, d.free)
    decreases |req|
  {
    if req != [] {
      var d := SetBuf(c, req[0], c.bufs[req[0]].(busy := false));
      DropRange(d, req[0]);
      IdleRange(IdleOne(c, req[0], remove), req[1..], remove);
    }
  }

  datatype Flushed = Flushed(c: Cache, left: nat)

  /** buf_flush() with nobody else at work: passes over the free list, each followed by the
      write of the request it ended with, until one ends without a request. */
  function Flush(c: Cache, device: nat, count: nat, remove: bool): Flushed
    requires InRange(c, c.free)
    decreases count
  {
    var s := Scan(c, c.free, [], device, count, remove);
    ScanRange(c, c.free, [], device, count, remove);
    if s.req == [] then Flushed(s.c, s.count)
    else
      IdleRange(s.c.(disk := WriteChain(s.c, s.req, s.device, s.c.bufs[s.req[0]].key.block)), s.req, remove);
      Flush(Complete(s.c, s.req, s.device, s.c.bufs[s.req[0]].key.block, remove), s.device, s.count, remove)
  }

  // ------------------------------------------------- buf_flush() is a run of steps

  /** The buffers that the steps take into requests or remove. */
  function Taken(steps: seq<Step>): nat {
    if steps == [] then 0
    else (if steps[0].Begin? || steps[0].Extend? || steps[0].Drop1? then 1 else 0) + Taken(steps[1..])
  }

  /** The process p has this request on its way, or none. */
  predicate Asked(w: World, p: nat, req: seq<nat>, device: nat, remove: bool) {
    if req == [] then p !in w.flights
    else p in w.flights && w.flights[p].req == req && w.flights[p].device == device && w.flights[p].remove == remove
  }

  /** The steps lead from w to the cache of the pass s with count - s.count buffers taken, its
      request on its way, and nothing else changed. */
  ghost predicate PassRun(w: World, p: nat, steps: seq<Step>, s: Pass, count: nat, remove: bool) {
    forall v: World :: v == w ==> PassRunFrom(v, p, steps, s, count, remove)
  }

  ghost predicate PassRunFrom(w: World, p: nat, steps: seq<Step>, s: Pass, count: nat, remove: bool) {
    && Runs(w, steps) && Inv(Run(w, steps)) && Run(w, steps).c == s.c
    && s.count + Taken(steps) == count
    && Asked(Run(w, steps), p, s.req, s.device, remove)
    && DropFlight(Run(w, steps).flights, p) == DropFlight(w.flights, p)
    && Run(w, steps).touched == w.touched && Run(w, steps).dead == w.dead
    && forall k :: Logical(Run(w, steps).c, k) == Logical(w.c, k)
  }

  /** Inv(), unfolded only where it is used. */
  ghost predicate Sound(w: World) {
    forall v: World :: v == w ==> Inv(v)
  }

  lemma Prepend(w: World, p: nat, step: Step, rest: seq<Step>, s: Pass, count: nat, remove: bool)
    returns (steps: seq<Step>)
    requires Enabled(w, step) && count > 0 && PassRun(Apply(w, step), p, rest, s, count - 1, remove)
    requires step.Begin? || step.Extend? || step.Drop1?
    requires Silent(w, p, Apply(w, step))
    ensures PassRun(w, p, steps, s, count, remove)
  {
    assert PassRunFrom(Apply(w, step), p, rest, s, count - 1, remove);
    steps := [step] + rest;
    assert steps[1..] == rest;
    assert PassRunFrom(w, p, steps, s, count, remove);
  }

  /** Only the request of process p may have changed, and no block shows anything else. */
  ghost predicate Silent(w: World, p: nat, v: World) {
    && DropFlight(v.flights, p) == DropFlight(w.flights, p) && v.touched == w.touched && v.dead == w.dead
    && forall k :: Logical(v.c, k) == Logical(w.c, k)
  }

  /** A pass with the request of process p, if it has one, is a run. */
  lemma {:induction false} ScanRuns(w: World, p: nat, xs: seq<nat>, req: seq<nat>, device: nat, count: nat,
                                    remove: bool)
    returns (steps: seq<Step>)
    requires Sound(w) && NoDup(xs) && InRange(w.c, xs) && InRange(w.c, req)
    requires forall x :: x in xs ==> x in w.c.free
    requires Asked(w, p, req, device, remove)
    ensures PassRun(w, p, steps, Scan(w.c, xs, req, device, count, remove), count, remove)
    decreases |xs|
  {
    if xs == [] || count == 0 {
      steps := ScanStops(w, p, Scan(w.c, xs, req, device, count, remove), remove);
      return;
    }
    var b := xs[0];
    assert b in w.c.free && forall x :: x in xs[1..] ==> x in w.c.free && x != b;
    if w.c.bufs[b].dirty {
      if req == [] && device != 0 && w.c.bufs[b].key.device != device {
        steps := ScanRuns(w, p, xs[1..], req, device, count, remove);
      } else if Follows(w.c, req, device, b) {
        var step := if req == [] then Begin(p, b, remove) else Extend(p, b);
        var d := if device == 0 then w.c.bufs[b].key.device else device;
        MarkRuns(w, p, b, req, device, remove, step);
        var rest := ScanRuns(Apply(w, step), p, xs[1..], req + [b], d, count - 1, remove);
        steps := Prepend(w, p, step, rest, Scan(w.c, xs, req, device, count, remove), count, remove);
      } else {
        steps := ScanStops(w, p, Scan(w.c, xs, req, device, count, remove), remove);
      }
    } else if remove && !w.c.bufs[b].busy {
      DropRuns(w, p, b, xs[1..]);
      var rest := ScanRuns(Apply(w, Drop1(b)), p, xs[1..], req, device, count - 1, remove);
      steps := Prepend(w, p, Drop1(b), rest, Scan(w.c, xs, req, device, count, remove), count, remove);
    } else {
      steps := ScanRuns(w, p, xs[1..], req, device, count, remove);
    }
  }

  lemma ScanStops(w: World, p: nat, s: Pass, remove: bool) returns (steps: seq<Step>)
    requires Sound(w) && s.c == w.c && Asked(w, p, s.req, s.device, remove)
    ensures PassRun(w, p, steps, s, s.count, remove)
  {
    assert Inv(w);
    steps := [];
    assert PassRunFrom(w, p, steps, s, s.count, remove);
  }

  lemma DropRuns(w: World, p: nat, b: nat, xs: seq<nat>)
    requires Sound(w) && b < |w.c.bufs| && b in w.c.free && !w.c.bufs[b].busy && !w.c.bufs[b].dirty
    requires forall x :: x in xs ==> x in w.c.free && x != b
    ensures Enabled(w, Drop1(b)) && Apply(w, Drop1(b)) == w.(c := Drop(w.c, b)) && Sound(Apply(w, Drop1(b)))
    ensures Silent(w, p, Apply(w, Drop1(b))) && forall x :: x in xs ==> x in Drop(w.c, b).free
  {
    assert Inv(w);
    DropKeeps(w, b);
    forall x | x in xs ensures x in Drop(w.c, b).free { WithoutIn(w.c.free, b, x); }
  }

  lemma MarkRuns(w: World, p: nat, b: nat, req: seq<nat>, device: nat, remove: bool, step: Step)
    requires Sound(w) && b < |w.c.bufs| && b in w.c.free && w.c.bufs[b].dirty && InRange(w.c, req)
    requires Follows(w.c, req, device, b)
    requires Asked(w, p, req, device, remove) && (req == [] ==> device == 0 || w.c.bufs[b].key.device == device)
    requires step == if req == [] then Begin(p, b, remove) else Extend(p, b)
    ensures Enabled(w, step) && Apply(w, step).c == Mark(w.c, b) && Sound(Apply(w, step))
    ensures Asked(Apply(w, step), p, req + [b], if device == 0 then w.c.bufs[b].key.device else device, remove)
    ensures Silent(w, p, Apply(w, step))
  {
    MarkEnabled(w, p, b, req, device, remove, step);
    MarkSound(w, p, b, step);
    assert Asked(Apply(w, step), p, req + [b], if device == 0 then w.c.bufs[b].key.device else device, remove);
  }

  lemma MarkSound(w: World, p: nat, b: nat, step: Step)
    requires Sound(w) && (step.Begin? || step.Extend?) && step.p == p && step.b == b
    requires Enabled(w, step) && Joins(w.c, w.flights, p, b, Apply(w, step).flights[p])
    ensures Apply(w, step).c == Mark(w.c, b) && Sound(Apply(w, step)) && Silent(w, p, Apply(w, step))
  {
    var v := Apply(w, step);
    MarkMoves(w, p, b, v.flights[p]);
    assert v == w.(c := Mark(w.c, b), flights := w.flights[p := v.flights[p]]);
  }

  lemma MarkMoves(w: World, p: nat, b: nat, f: Flight)
    requires Sound(w) && IsBuf(w.c, b) && b in w.c.free && w.c.bufs[b].dirty && Joins(w.c, w.flights, p, b, f)
    ensures var v := w.(c := Mark(w.c, b), flights := w.flights[p := f]); Sound(v) && Silent(w, p, v)
  {
    assert Inv(w);
    MarkKeeps(w, p, b, f);
  }

  lemma MarkEnabled(w: World, p: nat, b: nat, req: seq<nat>, device: nat, remove: bool, step: Step)
    requires Sound(w) && b < |w.c.bufs| && b in w.c.free && w.c.bufs[b].dirty && InRange(w.c, req)
    requires Follows(w.c, req, device, b)
    requires Asked(w, p, req, device, remove)
    requires step == if req == [] then Begin(p, b, remove) else Extend(p, b)
    ensures IsBuf(w.c, b) && Enabled(w, step) && Joins(w.c, w.flights, p, b, Apply(w, step).flights[p])
  {
    assert Inv(w);
    if req != [] { assert ChainOk(w.c, w.flights[p]); }
  }

  // ------------------------------------------------- what a request is

  /** The buffers a pass adds to the request were dirty on the list it looks through. */
  lemma {:induction false} ScanTakes(c: Cache, xs: seq<nat>, req: seq<nat>, device: nat, count: nat, remove: bool,
                                     b: nat)
    requires InRange(c, xs) && InRange(c, req) && NoDup(xs)
    requires b in Scan(c, xs, req, device, count, remove).req
    ensures b in req || (b in xs && c.bufs[b].dirty && (device == 0 || c.bufs[b].key.device == device))
    decreases |xs|
  {
    if xs != [] && count > 0 {
      var x := xs[0];
      var d := if device == 0 then c.bufs[x].key.device else device;
      if c.bufs[x].dirty {
        if req == [] && device != 0 && c.bufs[x].key.device != device {
          ScanTakes(c, xs[1..], req, device, count, remove, b);
        } else if Follows(c, req, device, x) {
          ScanTakes(Mark(c, x), xs[1..], req + [x], d, count - 1, remove, b);
        }
      } else if remove && !c.bufs[x].busy {
        ScanTakes(Drop(c, x), xs[1..], req, device, count - 1, remove, b);
      } else {
        ScanTakes(c, xs[1..], req, device, count, remove, b);
      }
    }
  }

  /** A request that buf_flush() issues is a chain of different buffers, dirty so far, for
      consecutive blocks of one device, the one asked for if there was one, and has at most count
      of them. */
  lemma RequestIsChain(w: World, p: nat, device: nat, count: nat, remove: bool)
    requires Inv(w) && p !in w.flights
    ensures InRange(w.c, w.c.free)
    ensures var s := Scan(w.c, w.c.free, [], device, count, remove);
      && InRange(s.c, s.req) && |s.req| <= count
      && (forall b :: b in s.req ==> b in w.c.free && w.c.bufs[b].dirty)
      && (forall b :: b in s.req ==> device == 0 || w.c.bufs[b].key.device == device)
      && (s.req != [] ==> ChainOk(s.c, Flight(s.device, s.c.bufs[s.req[0]].key.block, s.req, remove)))
  {
    FreeInRange(w);
    var s := Scan(w.c, w.c.free, [], device, count, remove);
    ScanRange(w.c, w.c.free, [], device, count, remove);
    forall b | b in s.req
      ensures b in w.c.free && w.c.bufs[b].dirty && (device == 0 || w.c.bufs[b].key.device == device)
    {
      ScanTakes(w.c, w.c.free, [], device, count, remove, b);
    }
    if s.req != [] {
      var steps := ScanRuns(w, p, w.c.free, [], device, count, remove);
      PassEnds(w, p, steps, s, count, remove);
    }
  }

  lemma PassEnds(w: World, p: nat, steps: seq<Step>, s: Pass, count: nat, remove: bool)
    requires PassRun(w, p, steps, s, count, remove) && InRange(s.c, s.req)
    ensures Runs(w, steps) && Inv(Run(w, steps)) && Run(w, steps).c == s.c && s.count + Taken(steps) == count
    ensures Asked(Run(w, steps), p, s.req, s.device, remove) && Silent(w, p, Run(w, steps))
    ensures s.req != [] ==> var f := Run(w, steps).flights[p];
      f == Flight(s.device, s.c.bufs[s.req[0]].key.block, s.req, remove) && ChainOk(s.c, f)
  {
    assert PassRunFrom(w, p, steps, s, count, remove);
    if s.req != [] {
      var f := Run(w, steps).flights[p];
      assert ChainOk(s.c, f);
      assert s.c.bufs[f.req[0]].key == Key(f.device, f.block + 0);
    }
  }

  // ------------------------------------------------- the whole of buf_flush()

  lemma {:induction false} RunsAppend(w: World, a: seq<Step>, b: seq<Step>)
    requires Runs(w, a) && Runs(Run(w, a), b)
    ensures Runs(w, a + b) && Run(w, a + b) == Run(Run(w, a), b) && Taken(a + b) == Taken(a) + Taken(b)
    decreases |a|
  {
    if a == [] {
      assert [] + b == b;
    } else {
      assert (a + b)[1..] == a[1..] + b && (a + b)[0] == a[0];
      RunsAppend(Apply(w, a[0]), a[1..], b);
    }
  }

  lemma FreeInRange(w: World)
    requires Sound(w)
    ensures InRange(w.c, w.c.free) && NoDup(w.c.free)
  {
    assert Inv(w);
    forall i | 0 <= i < |w.c.free| ensures w.c.free[i] < |w.c.bufs| {
      assert w.c.free[i] in w.c.free;
    }
  }

  /** What the steps of one call of buf_flush() by process p do to the world. */
  ghost predicate FlushRun(w: World, steps: seq<Step>, f: Flushed, count: nat) {
    && Runs(w, steps) && Sound(Run(w, steps)) && Run(w, steps).c == f.c && f.left + Taken(steps) == count
    && Quietly(w, Run(w, steps))
  }

  ghost predicate Quietly(w: World, v: World) {
    && v.flights == w.flights && v.touched == w.touched && v.dead == w.dead
    && forall k :: k !in w.dead ==> Logical(v.c, k) == Logical(w.c, k)
  }

  /** buf_flush() is a run of steps that takes count - left buffers, and no block shows anything
      else afterwards. */
  lemma {:induction false} FlushRuns(w: World, p: nat, device: nat, count: nat, remove: bool) returns (steps: seq<Step>)
    requires Sound(w) && p !in w.flights
    ensures InRange(w.c, w.c.free) && FlushRun(w, steps, Flush(w.c, device, count, remove), count)
    decreases count
  {
    FreeInRange(w);
    var s := Scan(w.c, w.c.free, [], device, count, remove);
    ScanRange(w.c, w.c.free, [], device, count, remove);
    steps := ScanRuns(w, p, w.c.free, [], device, count, remove);
    var v := PassDone(w, p, steps, s, count, remove);
    if s.req == [] { return; }
    var u := Apply(v, Complete1(p));
    var rest := FlushRuns(u, p, s.device, s.count, remove);
    steps := FlushAppend(w, v, steps, Complete1(p), rest, Flush(u.c, s.device, s.count, remove), s.count, count);
  }

  lemma FlushAppend(w: World, v: World, steps: seq<Step>, s: Step, rest: seq<Step>, f: Flushed, middle: nat, count: nat)
    returns (all: seq<Step>)
    requires Runs(w, steps) && v == Run(w, steps) && middle + Taken(steps) == count
    requires Enabled(v, s) && s.Complete1? && Quietly(w, Apply(v, s)) && FlushRun(Apply(v, s), rest, f, middle)
    ensures FlushRun(w, all, f, count)
  {
    var tail := [s] + rest;
    assert tail[1..] == rest;
    RunsAppend(w, steps, tail);
    all := steps + tail;
  }

  /** The world after a pass, and after the write of its request. */
  lemma PassDone(w: World, p: nat, steps: seq<Step>, s: Pass, count: nat, remove: bool) returns (v: World)
    requires p !in w.flights && PassRun(w, p, steps, s, count, remove) && InRange(s.c, s.req)
    ensures Runs(w, steps) && v == Run(w, steps) && v.c == s.c && s.count + Taken(steps) == count
    ensures s.req == [] ==> FlushRun(w, steps, Flushed(s.c, s.count), count)
    ensures s.req != [] ==> Enabled(v, Complete1(p)) && var u := Apply(v, Complete1(p));
      && u.c == Complete(s.c, s.req, s.device, s.c.bufs[s.req[0]].key.block, remove)
      && Sound(u) && Quietly(w, u)
  {
    PassEnds(w, p, steps, s, count, remove);
    v := Run(w, steps);
    if s.req == [] {
      FlightsBack(w.flights, v.flights, p);
    } else {
      CompleteKeeps(v, p);
      FlightsBack(w.flights, Apply(v, Complete1(p)).flights, p);
    }
  }

  lemma FlightsBack(a: map<nat, Flight>, b: map<nat, Flight>, p: nat)
    requires p !in a && p !in b && DropFlight(a, p) == DropFlight(b, p)
    ensures a == b
  {
    assert DropFlight(a, p) == a && DropFlight(b, p) == b;
  }

  // ------------------------------------------------- buf_sync_device() and buf_get()

  /** The number of dirty buffers among xs. */
  function Dirty(c: Cache, xs: seq<nat>): nat
    requires InRange(c, xs)
  {
    if xs == [] then 0 else (if c.bufs[xs[0]].dirty then 1 else 0) + Dirty(c, xs[1..])
  }

  lemma {:induction false} DirtySame(c: Cache, d: Cache, xs: seq<nat>)
    requires InRange(c, xs) && InRange(d, xs) && forall x :: x in xs ==> c.bufs[x].dirty == d.bufs[x].dirty
    ensures Dirty(c, xs) == Dirty(d, xs)
  {
    if xs != [] { DirtySame(c, d, xs[1..]); }
  }

  lemma {:induction false} DirtyMarked(c: Cache, xs: seq<nat>, b: nat)
    requires InRange(c, xs) && NoDup(xs) && b in xs && c.bufs[b].dirty
    ensures Dirty(Mark(c, b), xs) == Dirty(c, xs) - 1
  {
    if xs[0] == b {
      DirtySame(c, Mark(c, b), xs[1..]);
    } else {
      DirtyMarked(c, xs[1..], b);
    }
  }

  lemma {:induction false} DirtyZero(c: Cache, xs: seq<nat>, b: nat)
    requires InRange(c, xs) && b in xs && Dirty(c, xs) == 0
    ensures !c.bufs[b].dirty
  {
    if xs[0] != b { DirtyZero(c, xs[1..], b); }
  }

  /** Without removal a pass leaves the lists alone and cleans what it takes. */
  lemma {:induction false} ScanCleans(c: Cache, xs: seq<nat>, req: seq<nat>, device: nat, count: nat, ys: seq<nat>)
    requires InRange(c, xs) && InRange(c, req) && InRange(c, ys) && NoDup(xs) && NoDup(ys)
    requires forall x :: x in xs ==> x in ys
    ensures var s := Scan(c, xs, req, device, count, false);
      && |s.c.bufs| == |c.bufs| && s.c.free == c.free && InRange(s.c, ys) && req <= s.req
      && Dirty(s.c, ys) + |s.req| == Dirty(c, ys) + |req| && s.count + |s.req| == count + |req|
    decreases |xs|
  {
    if xs != [] && count > 0 {
      var b := xs[0];
      var d := if device == 0 then c.bufs[b].key.device else device;
      if c.bufs[b].dirty && !(req == [] && device != 0 && c.bufs[b].key.device != device) {
        if Follows(c, req, device, b) {
          DirtyMarked(c, ys, b);
          ScanCleans(Mark(c, b), xs[1..], req + [b], d, count - 1, ys);
        }
      } else {
        ScanCleans(c, xs[1..], req, device, count, ys);
      }
    }
  }

  /** A pass that ends without a request has changed no buffer; unless it has used up its count,
      what it leaves dirty is of another device, and what it leaves idle, when it removes, is dirty. */
  lemma {:induction false} ScanEnds(c: Cache, xs: seq<nat>, device: nat, count: nat, remove: bool)
    requires InRange(c, xs) && InRange(c, c.free) && Scan(c, xs, [], device, count, remove).req == [] && NoDup(xs)
    ensures var s := Scan(c, xs, [], device, count, remove); s.c.bufs == c.bufs && s.device == device
    ensures var s := Scan(c, xs, [], device, count, remove);
      s.count > 0 ==> forall b :: b in xs ==> Passed(c, device, remove, b, b in s.c.free)
    ensures forall x :: x in Scan(c, xs, [], device, count, remove).c.free ==> x in c.free
    decreases |xs|
  {
    if xs != [] && count > 0 {
      var b := xs[0];
      if c.bufs[b].dirty {
        if device != 0 && c.bufs[b].key.device != device {
          ScanEnds(c, xs[1..], device, count, remove);
        } else {
          assert [] + [b] == [b];
          var d := if device == 0 then c.bufs[b].key.device else device;
          ScanRangeReq(Mark(c, b), xs[1..], [b], d, count - 1, remove);
        }
      } else if remove && !c.bufs[b].busy {
        DropRange(c, b);
        forall x ensures x in Drop(c, b).free <==> x in c.free && x != b { WithoutIn(c.free, b, x); }
        ScanEnds(Drop(c, b), xs[1..], device, count - 1, remove);
      } else {
        ScanEnds(c, xs[1..], device, count, remove);
      }
    }
  }

  lemma {:induction false} ScanRangeReq(c: Cache, xs: seq<nat>, req: seq<nat>, device: nat, count: nat, remove: bool)
    requires InRange(c, xs) && InRange(c, req)
    ensures req <= Scan(c, xs, req, device, count, remove).req
    decreases |xs|
  {
    if xs != [] && count > 0 {
      var b := xs[0];
      var d := if device == 0 then c.bufs[b].key.device else device;
      if c.bufs[b].dirty {
        if req == [] && device != 0 && c.bufs[b].key.device != device {
          ScanRangeReq(c, xs[1..], req, device, count, remove);
        } else if Follows(c, req, device, b) {
          ScanRangeReq(Mark(c, b), xs[1..], req + [b], d, count - 1, remove);
        }
      } else if remove && !c.bufs[b].busy {
        ScanRangeReq(Drop(c, b), xs[1..], req, device, count - 1, remove);
      } else {
        ScanRangeReq(c, xs[1..], req, device, count, remove);
      }
    }
  }

  /** How a full pass without a request leaves the buffer b, still on the list or not. */
  predicate Passed(c: Cache, device: nat, remove: bool, b: nat, still: bool)
    requires b < |c.bufs|
  {
    && (c.bufs[b].dirty ==> device != 0 && c.bufs[b].key.device != device)
    && (remove && still ==> c.bufs[b].dirty || c.bufs[b].busy)
  }

  lemma {:induction false} IdleClean(c: Cache, req: seq<nat>)
    requires InRange(c, req)
    ensures var d := Idle(c, req, false);
      && |d.bufs| == |c.bufs| && d.free == c.free
      && forall b: nat :: b < |c.bufs| ==>
        d.bufs[b] == if b in req then c.bufs[b].(busy := false) else c.bufs[b]
    decreases |req|
  {
    if req != [] { IdleClean(IdleOne(c, req[0], false), req[1..]); }
  }

  /** buf_sync_device() without removal: with a count of at least the dirty buffers on the free
      list, none of the device is dirty there afterwards. */
  lemma {:induction false} SyncCleans(c: Cache, device: nat, count: nat)
    requires InRange(c, c.free) && NoDup(c.free) && device != 0 && Dirty(c, c.free) <= count
    ensures var f := Flush(c, device, count, false);
      && f.c.free == c.free && InRange(f.c, c.free)
      && forall b :: b in c.free && f.c.bufs[b].dirty ==> f.c.bufs[b].key.device != device
    decreases count
  {
    var s := Scan(c, c.free, [], device, count, false);
    ScanRange(c, c.free, [], device, count, false);
    ScanCleans(c, c.free, [], device, count, c.free);
    if s.req == [] {
      ScanEnds(c, c.free, device, count, false);
      if s.count == 0 {
        forall b | b in c.free ensures !c.bufs[b].dirty { DirtyZero(c, c.free, b); }
      } else {
        assert forall b :: b in c.free ==> Passed(c, device, false, b, b in s.c.free);
      }
    } else {
      var block := s.c.bufs[s.req[0]].key.block;
      var e := s.c.(disk := WriteChain(s.c, s.req, s.device, block));
      IdleClean(e, s.req);
      var d := Complete(s.c, s.req, s.device, block, false);
      DirtySame(s.c, d, c.free);
      SyncCleans(d, device, s.count);
    }
  }

  /** A clean buffer is not touched by a flush without removal. */
  lemma {:induction false} ScanLeaves(c: Cache, xs: seq<nat>, req: seq<nat>, device: nat, count: nat, b: nat)
    requires InRange(c, xs) && InRange(c, req) && b < |c.bufs| && !c.bufs[b].dirty && b !in req
    ensures var s := Scan(c, xs, req, device, count, false);
      |s.c.bufs| == |c.bufs| && s.c.bufs[b] == c.bufs[b] && b !in s.req
    decreases |xs|
  {
    if xs != [] && count > 0 {
      var x := xs[0];
      var d := if device == 0 then c.bufs[x].key.device else device;
      if c.bufs[x].dirty && !(req == [] && device != 0 && c.bufs[x].key.device != device) {
        if Follows(c, req, device, x) {
          ScanLeaves(Mark(c, x), xs[1..], req + [x], d, count - 1, b);
        }
      } else {
        ScanLeaves(c, xs[1..], req, device, count, b);
      }
    }
  }

  lemma {:induction false} FlushLeaves(c: Cache, device: nat, count: nat, b: nat)
    requires InRange(c, c.free) && NoDup(c.free) && b < |c.bufs| && !c.bufs[b].dirty
    ensures var f := Flush(c, device, count, false);
      f.c.free == c.free && |f.c.bufs| == |c.bufs| && f.c.bufs[b] == c.bufs[b]
    decreases count
  {
    var s := Scan(c, c.free, [], device, count, false);
    ScanRange(c, c.free, [], device, count, false);
    ScanCleans(c, c.free, [], device, count, c.free);
    ScanLeaves(c, c.free, [], device, count, b);
    if s.req != [] {
      var block := s.c.bufs[s.req[0]].key.block;
      IdleClean(s.c.(disk := WriteChain(s.c, s.req, s.device, block)), s.req);
      FlushLeaves(Complete(s.c, s.req, s.device, block, false), s.device, s.count, b);
    }
  }

  /** buf_get() makes progress: once it has flushed because the least recently used buffer was
      dirty, that buffer is still the least recently used one, idle and clean. */
  lemma FlushFreesHead(c: Cache)
    requires InRange(c, c.free) && NoDup(c.free) && c.free != [] && c.bufs[c.free[0]].dirty
    ensures var f := Flush(c, 0, 16, false); var b := c.free[0];
      && f.c.free == c.free && b < |f.c.bufs| && f.c.bufs[b] == c.bufs[b].(dirty := false, busy := false)
  {
    var b, xs := c.free[0], c.free[1..];
    var s := Scan(c, c.free, [], 0, 16, false);
    assert [] + [b] == [b];
    assert s == Scan(Mark(c, b), xs, [b], c.bufs[b].key.device, 15, false);
    ScanRange(c, c.free, [], 0, 16, false);
    ScanCleans(c, c.free, [], 0, 16, c.free);
    MarkedStays(Mark(c, b), xs, [b], c.bufs[b].key.device, 15, b);
    var block := s.c.bufs[s.req[0]].key.block;
    IdleClean(s.c.(disk := WriteChain(s.c, s.req, s.device, block)), s.req);
    FlushLeaves(Complete(s.c, s.req, s.device, block, false), s.device, s.count, b);
  }

  lemma {:induction false} MarkedStays(c: Cache, xs: seq<nat>, req: seq<nat>, device: nat, count: nat, b: nat)
    requires InRange(c, xs) && InRange(c, req) && b in req && b < |c.bufs| && b !in xs
    ensures var s := Scan(c, xs, req, device, count, false);
      |s.c.bufs| == |c.bufs| && s.c.bufs[b] == c.bufs[b] && b in s.req
    decreases |xs|
  {
    if xs != [] && count > 0 {
      var x := xs[0];
      var d := if device == 0 then c.bufs[x].key.device else device;
      if c.bufs[x].dirty {
        if Follows(c, req, device, x) {
          MarkedStays(Mark(c, x), xs[1..], req + [x], d, count - 1, b);
        }
      } else {
        MarkedStays(c, xs[1..], req, device, count, b);
      }
    }
  }

  // ------------------------------------------------- with removal

  /** With removal every buffer counted off leaves the free list, at once or with its request. */
  lemma {:induction false} ScanRemoves(c: Cache, xs: seq<nat>, req: seq<nat>, device: nat, count: nat)
    requires InRange(c, xs) && InRange(c, req) && NoDup(c.free) && NoDup(xs) && NoDup(req)
    requires forall x :: x in xs ==> x in c.free && x !in req
    requires forall x :: x in req ==> x in c.free
    ensures var s := Scan(c, xs, req, device, count, true);
      && NoDup(s.c.free) && NoDup(s.req) && (forall x :: x in s.req ==> x in s.c.free)
      && |s.c.free| + count + |req| == |c.free| + s.count + |s.req|
    decreases |xs|
  {
    if xs != [] && count > 0 {
      var b := xs[0];
      var d := if device == 0 then c.bufs[b].key.device else device;
      if c.bufs[b].dirty && !(req == [] && device != 0 && c.bufs[b].key.device != device) {
        if Follows(c, req, device, b) {
          assert b in xs && b !in req;
          ScanRemoves(Mark(c, b), xs[1..], req + [b], d, count - 1);
        }
      } else if !c.bufs[b].dirty && !c.bufs[b].busy {
        WithoutNoDup(c.free, b);
        forall x ensures x in Drop(c, b).free <==> x in c.free && x != b { WithoutIn(c.free, b, x); }
        ScanRemoves(Drop(c, b), xs[1..], req, device, count - 1);
      } else {
        ScanRemoves(c, xs[1..], req, device, count);
      }
    }
  }

  lemma {:induction false} IdleRemoves(c: Cache, req: seq<nat>)
    requires InRange(c, req) && NoDup(c.free) && NoDup(req) && forall x :: x in req ==> x in c.free
    ensures var d := Idle(c, req, true); NoDup(d.free) && |d.free| == |c.free| - |req|
    decreases |req|
  {
    if req != [] {
      var d := IdleOne(c, req[0], true);
      WithoutNoDup(c.free, req[0]);
      forall x ensures x in d.free <==> x in c.free && x != req[0] { WithoutIn(c.free, req[0], x); }
      IdleRemoves(d, req[1..]);
    }
  }

  /** Every buffer left on the free list is in other hands, or dirty and of another device. */
  predicate Emptied(c: Cache, device: nat) {
    forall b :: b in c.free ==> b < |c.bufs| && Passed(c, device, true, b, true)
  }

  /** buf_sync_device() with removal: with a count of at least the length of the free list, only
      buffers in other hands and dirty buffers of other devices stay on it. Idle clean buffers
      leave the cache whatever their device. */
  lemma {:induction false} RemoveEmpties(c: Cache, device: nat, count: nat)
    requires InRange(c, c.free) && NoDup(c.free) && device != 0 && |c.free| <= count
    ensures Emptied(Flush(c, device, count, true).c, device)
    decreases count
  {
    var s := Scan(c, c.free, [], device, count, true);
    ScanRange(c, c.free, [], device, count, true);
    ScanRemoves(c, c.free, [], device, count);
    if s.req == [] {
      ScanEnds(c, c.free, device, count, true);
      forall b | b in s.c.free ensures b < |s.c.bufs| && Passed(s.c, device, true, b, true) {
        assert Passed(c, device, true, b, b in s.c.free);
      }
    } else {
      var block := s.c.bufs[s.req[0]].key.block;
      var e := s.c.(disk := WriteChain(s.c, s.req, s.device, block));
      IdleRange(e, s.req, true);
      IdleRemoves(e, s.req);
      var d := Complete(s.c, s.req, s.device, block, true);
      RemoveEmpties(d, device, s.count);
      assert Flush(c, device, count, true) == Flush(d, device, s.count, true);
    }
  }
}
