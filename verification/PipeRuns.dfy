/** A pipe with several readers and writers, who take turns under the pipe's lock. */
module PipeRuns {
  import opened PipeModel

  /** A write under way: its bytes, how many have been copied, and, for one of at most PIPE_BUF
      bytes, the place of its first byte in all that was ever written. */
  datatype Job = Job(data: seq<int>, done: nat, at: nat)

  /** holder is the process with the lock, 0 if there is none. written and read are all the bytes
      ever copied into and out of the pipe. */
  datatype World = World(p: Pipe, holder: nat, jobs: map<nat, Job>, written: seq<int>, read: seq<int>)

  predicate Done(j: Job) {
    j.done >= |j.data|
  }

  predicate Small(j: Job) {
    |j.data| <= PIPE_BUF
  }

  /** A small write holds the lock from its first byte on, has room for the rest, and what it has
      copied is the end of all that was written. */
  predicate JobOk(w: World, pid: nat)
    requires Ok(w.p) && pid in w.jobs
  {
    var j := w.jobs[pid];
    && pid != 0 && j.done <= |j.data|
    && (Small(j) ==>
      && w.holder == pid && j.at + j.done == |w.written| && w.written[j.at..] == j.data[..j.done]
      && |j.data| - j.done <= PIPE_BUF - w.p.size)
  }

  predicate Inv(w: World) {
    Ok(w.p) && w.written == w.read + Unread(w.p) && forall pid :: pid in w.jobs ==> JobOk(w, pid)
  }

  datatype Step =
    | LockRead(pid: nat)
    | ReadTurn(pid: nat, count: nat)
    | LockWrite(pid: nat, data: seq<int>)                     // a write begins, with room if it is small
    | WriteTurn(pid: nat)
    | Wait(pid: nat)                                          // the pipe is full: unlock and sleep
    | LockAgain(pid: nat)
    | EndWrite(pid: nat)
    | NoSpace(pid: nat)                                       // wbmap() finds no block: the write ends short
    | NoReader(pid: nat)                                      // nobody is left to read: it fails
    | Interrupt(pid: nat)                                     // a signal ends a write that sleeps
    | Unlock(pid: nat)                                        // a reader is done, or sleeps

  predicate Enabled(w: World, s: Step) {
    match s
    case LockRead(pid) => w.holder == 0 && pid != 0 && pid !in w.jobs
    case ReadTurn(pid, count) => w.holder == pid != 0 && pid !in w.jobs
    case LockWrite(pid, data) =>
      w.holder == 0 && pid != 0 && pid !in w.jobs && (|data| <= PIPE_BUF ==> |data| <= PIPE_BUF - w.p.size)
    case WriteTurn(pid) => w.holder == pid && pid in w.jobs && !Done(w.jobs[pid]) && w.p.size < PIPE_BUF
    case Wait(pid) => w.holder == pid && pid in w.jobs && !Done(w.jobs[pid]) && w.p.size == PIPE_BUF
    case LockAgain(pid) => w.holder == 0 && pid in w.jobs
    case EndWrite(pid) => w.holder == pid && pid in w.jobs && Done(w.jobs[pid])
    case NoSpace(pid) =>
      w.holder == pid && pid in w.jobs && !Done(w.jobs[pid]) && w.p.size < PIPE_BUF && Target(w.p) !in w.p.there
    case NoReader(pid) => w.holder == pid && pid in w.jobs && !Done(w.jobs[pid])
    case Interrupt(pid) => w.holder != pid && pid in w.jobs
    case Unlock(pid) => w.holder == pid && pid !in w.jobs
  }

  function Without(jobs: map<nat, Job>, pid: nat): (r: map<nat, Job>)
    ensures forall x :: x in r <==> x in jobs && x != pid
    ensures forall x :: x in r ==> r[x] == jobs[x]
  {
    map x | x in jobs && x != pid :: jobs[x]
  }

  function NextBytes(j: Job, n: nat): (bytes: seq<int>)
    requires j.done + n <= |j.data|
    ensures |bytes| == n
  {
    j.data[j.done..j.done + n]
  }

  /** n bytes of the write have been copied. */
  function Copied(w: World, pid: nat, n: nat): World
    requires pid in w.jobs && w.jobs[pid].done + n <= |w.jobs[pid].data|
  {
    var j := w.jobs[pid];
    w.(jobs := w.jobs[pid := j.(done := j.done + n)], written := w.written + NextBytes(j, n))
  }

  function Apply(w: World, s: Step): World
    requires Inv(w) && Enabled(w, s)
  {
    match s
    case LockRead(pid) => w.(holder := pid)
    case ReadTurn(pid, count) =>
      ReadTakes(w.p, count);
      var n, r := ReadSize(w.p, count), Wrapped(w.p.roff);
      w.(p := AfterRead(w.p, n), read := w.read + w.p.cells[r..r + n])
    case LockWrite(pid, data) => w.(holder := pid, jobs := w.jobs[pid := Job(data, 0, |w.written|)])
    case WriteTurn(pid) =>
      var n := WriteSize(w.p, |w.jobs[pid].data| - w.jobs[pid].done);
      Copied(w, pid, n).(p := AfterWrite(w.p, NextBytes(w.jobs[pid], n)))
    case Wait(pid) => w.(holder := 0)
    case LockAgain(pid) => w.(holder := pid)
    case EndWrite(pid) => w.(holder := 0, jobs := Without(w.jobs, pid))
    case NoSpace(pid) => w.(p := NotWritten(w.p), holder := 0, jobs := Without(w.jobs, pid))
    case NoReader(pid) => w.(holder := 0, jobs := Without(w.jobs, pid))
    case Interrupt(pid) => w.(jobs := Without(w.jobs, pid))
    case Unlock(pid) => w.(holder := 0)
  }

  lemma ReadKeeps(w: World, s: Step)
    requires Inv(w) && s.ReadTurn? && Enabled(w, s)
    ensures Inv(Apply(w, s)) && w.written <= Apply(w, s).written
  {
    var v := Apply(w, s);
    ReadTakes(w.p, s.count);
    var n, r := ReadSize(w.p, s.count), Wrapped(w.p.roff);
    TakenKeeps(w, v, w.p.cells[r..r + n]);
  }

  lemma TakenKeeps(w: World, v: World, bytes: seq<int>)
    requires Inv(w) && Ok(v.p) && w.holder !in w.jobs && v == w.(p := v.p, read := w.read + bytes)
    requires Unread(w.p) == bytes + Unread(v.p) && v.p.size <= w.p.size
    ensures Inv(v)
  {
    assert w.read + (bytes + Unread(v.p)) == v.read + Unread(v.p);
    forall x | x in v.jobs ensures JobOk(v, x) { assert JobOk(w, x); }
  }

  lemma WriteKeeps(w: World, s: Step)
    requires Inv(w) && s.WriteTurn? && Enabled(w, s)
    ensures Inv(Apply(w, s)) && w.written <= Apply(w, s).written
  {
    var j := w.jobs[s.pid];
    TurnDone(w.p, j);
    Assemble(w, Apply(w, s).p, s.pid, WriteSize(w.p, |j.data| - j.done));
  }

  lemma TurnDone(p: Pipe, j: Job)
    requires Ok(p) && j.done < |j.data| && p.size < PIPE_BUF
    ensures var n := WriteSize(p, |j.data| - j.done);
      j.done + n <= |j.data| && Fits(p, NextBytes(j, n))
    ensures var n := WriteSize(p, |j.data| - j.done);
      var q := AfterWrite(p, NextBytes(j, n));
      Ok(q) && q.size == p.size + n && Unread(q) == Unread(p) + NextBytes(j, n)
  {
    TurnFits(p, |j.data| - j.done);
    WriteAppends(p, NextBytes(j, WriteSize(p, |j.data| - j.done)));
  }

  lemma TurnFits(p: Pipe, count: nat)
    requires Ok(p) && count > 0 && p.size < PIPE_BUF
    ensures var n := WriteSize(p, count);
      0 < n <= count && Wrapped(p.woff) % BLKSZ + n <= BLKSZ && n + p.size <= PIPE_BUF
  {
  }

  lemma Assemble(w: World, q: Pipe, pid: nat, n: nat)
    requires Inv(w) && pid in w.jobs && Ok(q) && w.holder == pid && w.jobs[pid].done + n <= |w.jobs[pid].data|
    requires Unread(q) == Unread(w.p) + NextBytes(w.jobs[pid], n) && q.size == w.p.size + n
    ensures var v := Copied(w, pid, n).(p := q); Inv(v) && w.written <= v.written
  {
    var v, bytes := Copied(w, pid, n).(p := q), NextBytes(w.jobs[pid], n);
    assert w.read + (Unread(w.p) + bytes) == v.written;
    forall x | x in v.jobs ensures JobOk(v, x) {
      assert JobOk(w, x) && JobOk(w, pid);
      JobsKeep(w, v, pid, bytes, x);
    }
  }

  /** One write goes on; the others are waiting, large ones. */
  lemma JobsKeep(w: World, v: World, pid: nat, bytes: seq<int>, x: nat)
    requires Ok(w.p) && Ok(v.p) && pid in w.jobs && JobOk(w, pid) && x in w.jobs && JobOk(w, x)
    requires w.holder == pid == v.holder
    requires var j := w.jobs[pid];
      && j.done + |bytes| <= |j.data| && bytes == j.data[j.done..j.done + |bytes|]
      && v.jobs == w.jobs[pid := j.(done := j.done + |bytes|)]
    requires v.written == w.written + bytes && v.p.size == w.p.size + |bytes|
    ensures JobOk(v, x)
  {
    Longer(w.written, w.jobs[pid], bytes);
  }

  lemma Longer(written: seq<int>, j: Job, bytes: seq<int>)
    requires j.done + |bytes| <= |j.data| && bytes == j.data[j.done..j.done + |bytes|]
    ensures j.at <= |written| && written[j.at..] == j.data[..j.done] ==>
      (written + bytes)[j.at..] == j.data[..j.done + |bytes|]
  {
    assert j.data[..j.done] + bytes == j.data[..j.done + |bytes|];
    if j.at <= |written| { assert (written + bytes)[j.at..] == written[j.at..] + bytes; }
  }

  lemma StepKeeps(w: World, s: Step)
    requires Inv(w) && Enabled(w, s)
    ensures Inv(Apply(w, s)) && w.written <= Apply(w, s).written
  {
    if s.ReadTurn? {
      ReadKeeps(w, s);
    } else if s.WriteTurn? {
      WriteKeeps(w, s);
    } else {
      var v := Apply(w, s);
      NotWrittenKeeps(w.p);
      forall x | x in v.jobs ensures JobOk(v, x) {
        if x in w.jobs { assert JobOk(w, x); }
      }
    }
  }

  predicate Runs(w: World, steps: seq<Step>)
    requires Inv(w)
    decreases |steps|
  {
    steps == [] || (Enabled(w, steps[0]) && (StepKeeps(w, steps[0]); Runs(Apply(w, steps[0]), steps[1..])))
  }

  function Run(w: World, steps: seq<Step>): (v: World)
    requires Inv(w) && Runs(w, steps)
    ensures Inv(v)
    decreases |steps|
  {
    if steps == [] then w
    else
      StepKeeps(w, steps[0]);
      Run(Apply(w, steps[0]), steps[1..])
  }

  /** Over every interleaving the bytes read are the first of the bytes written, in order; what
      lies between is in the pipe, and what was written stays where it is in the stream. */
  lemma {:induction false} RunKeeps(w: World, steps: seq<Step>)
    requires Inv(w) && Runs(w, steps)
    ensures var v := Run(w, steps);
      Inv(v) && v.read <= v.written && |v.written| == |v.read| + v.p.size && w.written <= v.written
    decreases |steps|
  {
    if steps != [] {
      StepKeeps(w, steps[0]);
      RunKeeps(Apply(w, steps[0]), steps[1..]);
    }
  }

  /** A write of at most PIPE_BUF bytes never waits once it has begun, and whatever it has copied, up
      to all its bytes when it ends, is a contiguous run of all that was written, and stays one. */
  lemma SmallIsAtomic(w: World, pid: nat, steps: seq<Step>)
    requires Inv(w) && pid in w.jobs && Small(w.jobs[pid]) && Runs(w, steps)
    ensures !Enabled(w, Wait(pid)) && !Enabled(w, Interrupt(pid))
    ensures var j := w.jobs[pid];
      j.done <= |j.data| && InStream(Run(w, steps).written, j.at, j.data[..j.done])
    ensures Enabled(w, EndWrite(pid)) ==> InStream(Run(w, steps).written, w.jobs[pid].at, w.jobs[pid].data)
  {
    assert JobOk(w, pid);
    RunKeeps(w, steps);
    var j := w.jobs[pid];
    assert w.written[j.at..j.at + j.done] == j.data[..j.done];
    if Done(j) { assert j.data[..j.done] == j.data; }
  }

  predicate InStream(all: seq<int>, at: nat, data: seq<int>) {
    at + |data| <= |all| && all[at..at + |data|] == data
  }

  /** A new pipe has no blocks. */
  function Start(cells: seq<int>): World {
    World(Pipe(cells, {}, 0, 0, 0), 0, map[], [], [])
  }

  lemma StartIsValid(cells: seq<int>)
    requires |cells| == PIPE_BUF
    ensures Inv(Start(cells))
  {
  }

  /** Order over every run of a new pipe: the bytes read are the first of those written, and a read
      always finds its block. */
  lemma PipeIsFifo(cells: seq<int>, steps: seq<Step>)
    requires |cells| == PIPE_BUF && Inv(Start(cells)) && Runs(Start(cells), steps)
    ensures var v := Run(Start(cells), steps);
      && Inv(v) && v.read <= v.written && v.written == v.read + Unread(v.p)
      && (v.p.size > 0 ==> Wrapped(v.p.roff) / BLKSZ in v.p.there)
  {
    var v := Run(Start(cells), steps);
    RunKeeps(Start(cells), steps);
    ReadThere(v.p);
  }
}
