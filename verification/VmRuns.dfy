/** All runs: whatever the interleaving of the processes and the swapper, the invariant holds
    and the machine behaves as if every process had a flat memory of its own. */
module VmRuns {
  import opened VmModel
  import opened VmInvariant
  import opened VmSteps
  import opened VmFaults
  import opened VmSharing
  import opened VmSwapping
  import opened VmView

  datatype Step =
    | FaultHit(va: Va)
    | FaultStart(va: Va)
    | FaultAllocate(kpid: nat)
    | FaultFinish(kpid: nat)
    | Unshare(va: Va)
    | CopyStart(va: Va)
    | CopyFinish(kpid: nat)
    | UserStore(va: Va, data: Contents)
    | Unmap(va: Va)
    | MapFile(va: Va, loc: Loc)
    | Fork(parent: nat, child: nat)
    | SwapOut(va: Va)
    | SwapFinish
    | ClearFreeList

  // ------------------------------------------------- fork()

  /** The child is new: it has no page tables and runs no handler. */
  ghost predicate CanFork(s: State, parent: nat, child: nat) {
    && parent != child && parent !in s.faults && child !in s.faults
    && forall vp :: Va(child, vp) !in s.pte
  }

  lemma ShareFrame(s: State, parent: nat, child: nat, vp: nat)
    requires Inv(s) && CanShare(s, parent, child, vp)
    ensures var t := ShareOne(s, parent, child, vp);
      && t.nv == s.nv && t.file == s.file && t.faults == s.faults
      && t.pte.Keys <= s.pte.Keys + {Va(parent, vp), Va(child, vp)}
  {
  }

  /** After n iterations the child's entries from n on are still zero, the child sees the first
      n pages of its parent, and nobody else sees any difference. */
  ghost predicate Forking(s: State, t: State, parent: nat, child: nat, n: nat) {
    && Inv(t) && t.nv == s.nv && t.file == s.file && t.faults == s.faults
    && (forall vp :: vp >= n ==> Va(child, vp) !in t.pte)
    && (forall w :: View(t, w) == if w.kpid == child && w.vp < n then View(s, Va(parent, w.vp)) else View(s, w))
  }

  /** The same, unfolded only where it is used. */
  ghost predicate ForkingUpTo(s: State, t: State, parent: nat, child: nat, n: nat) {
    forall m: nat :: m == n ==> Forking(s, t, parent, child, m)
  }

  /** One iteration, from a state the loop has reached. */
  ghost function ForkNext(s: State, t: State, parent: nat, child: nat, n: nat): (u: State)
    requires CanFork(s, parent, child) && ForkingUpTo(s, t, parent, child, n) && n < s.nv
    ensures ForkingUpTo(s, u, parent, child, n + 1)
  {
    ForkNextKeeps(s, t, parent, child, n);
    ShareOne(t, parent, child, n)
  }

  lemma ForkNextKeeps(s: State, t: State, parent: nat, child: nat, n: nat)
    requires CanFork(s, parent, child) && ForkingUpTo(s, t, parent, child, n) && n < s.nv
    ensures Inv(t) && CanShare(t, parent, child, n)
    ensures Forking(s, ShareOne(t, parent, child, n), parent, child, n + 1)
  {
    assert Forking(s, t, parent, child, n);
    ShareKeeps(t, parent, child, n);
    ShareFrame(t, parent, child, n);
    var u := ShareOne(t, parent, child, n);
    forall w ensures View(u, w) == if w == Va(child, n) then View(t, Va(parent, n)) else View(t, w) {
      ShareView(t, parent, child, n, w);
    }
  }

  /** The fork loop after its first n iterations. */
  ghost function ForkUpTo(s: State, parent: nat, child: nat, n: nat): (t: State)
    requires Inv(s) && CanFork(s, parent, child) && n <= s.nv
    ensures ForkingUpTo(s, t, parent, child, n)
  {
    if n == 0 then
      assert Forking(s, s, parent, child, 0);
      s
    else ForkNext(s, ForkUpTo(s, parent, child, n - 1), parent, child, n - 1)
  }

  lemma ForkOneMore(s: State, t: State, parent: nat, child: nat, n: nat) returns (u: State)
    requires Inv(s) && CanFork(s, parent, child) && n < s.nv && t == ForkUpTo(s, parent, child, n)
    ensures Inv(t) && CanShare(t, parent, child, n)
    ensures u == ForkUpTo(s, parent, child, n + 1) == ShareOne(t, parent, child, n)
  {
    ForkNextKeeps(s, t, parent, child, n);
    u := ForkNext(s, t, parent, child, n);
  }

  // ------------------------------------------------- steps and runs

  ghost predicate Enabled(s: State, step: Step)
    requires Inv(s)
  {
    match step
    case FaultHit(va) => CanHit(s, va)
    case FaultStart(va) => CanStart(s, va)
    case FaultAllocate(k) => CanAllocate(s, k)
    case FaultFinish(k) => CanFinish(s, k)
    case Unshare(va) => CanUnshare(s, va)
    case CopyStart(va) => CanCopyStart(s, va)
    case CopyFinish(k) => CanCopyFinish(s, k)
    case UserStore(va, _) => CanStore(s, va)
    case Unmap(va) => va.kpid !in s.faults && va.vp < s.nv
    case MapFile(va, loc) => CanMapFile(s, va, loc)
    case Fork(parent, child) => CanFork(s, parent, child)
    case SwapOut(va) => CanSwapOut(s, va)
    case SwapFinish => CanSwapFinish(s)
    case ClearFreeList => true
  }

  ghost function Apply(s: State, step: Step): State
    requires Inv(s) && Enabled(s, step)
  {
    match step
    case FaultHit(va) => DoHit(s, va)
    case FaultStart(va) => DoStart(s, va)
    case FaultAllocate(k) => DoAllocate(s, k)
    case FaultFinish(k) => DoFinish(s, k)
    case Unshare(va) => MakePrivate(s, va)
    case CopyStart(va) => DoCopyStart(s, va)
    case CopyFinish(k) => DoCopyFinish(s, k)
    case UserStore(va, data) => DoStore(s, va, data)
    case Unmap(va) => DoUnmap(s, va)
    case MapFile(va, loc) => DoMapFile(s, va, loc)
    case Fork(parent, child) => ForkUpTo(s, parent, child, s.nv)
    case SwapOut(va) => DoSwapOut(s, va)
    case SwapFinish => DoSwapFinish(s)
    case ClearFreeList => DoClear(s)
  }

  lemma StepKeeps(s: State, step: Step)
    requires Inv(s) && Enabled(s, step)
    ensures Inv(Apply(s, step))
  {
    match step
    case FaultHit(va) => HitKeeps(s, va);
    case FaultStart(va) => StartKeeps(s, va);
    case FaultAllocate(k) => AllocateKeeps(s, k);
    case FaultFinish(k) => FinishKeeps(s, k);
    case Unshare(va) => PrivateKeeps(s, va);
    case CopyStart(va) => CopyStartKeeps(s, va);
    case CopyFinish(k) => CopyFinishKeeps(s, k);
    case UserStore(va, data) => StoreKeeps(s, va, data);
    case Unmap(va) => UnmapKeeps(s, va);
    case MapFile(va, loc) => MapFileKeeps(s, va, loc);
    case Fork(parent, child) => assert Forking(s, ForkUpTo(s, parent, child, s.nv), parent, child, s.nv);
    case SwapOut(va) => SwapOutKeeps(s, va);
    case SwapFinish => SwapFinishKeeps(s);
    case ClearFreeList => ClearKeeps(s);
  }

  ghost predicate Runs(s: State, steps: seq<Step>)
    requires Inv(s)
    decreases |steps|
  {
    steps != [] ==>
      Enabled(s, steps[0]) && (StepKeeps(s, steps[0]); Runs(Apply(s, steps[0]), steps[1..]))
  }

  ghost function Run(s: State, steps: seq<Step>): (t: State)
    requires Inv(s) && Runs(s, steps)
    ensures Inv(t)
    decreases |steps|
  {
    if steps == [] then s
    else StepKeeps(s, steps[0]); Run(Apply(s, steps[0]), steps[1..])
  }

  // ------------------------------------------------- flat memories

  /** The simple machine: every process has its own array of pages, nothing is shared, and
      paging does not exist. */
  ghost function FlatStep(mem: Va -> Contents, file: Loc -> Contents, step: Step): Va -> Contents {
    match step
    case UserStore(va, data) => (w: Va) => if w == va then data else mem(w)
    case Unmap(va) => (w: Va) => if w == va then ZeroPage() else mem(w)
    case MapFile(va, loc) => (w: Va) => if w == va then file(loc) else mem(w)
    case Fork(parent, child) => (w: Va) => if w.kpid == child then mem(Va(parent, w.vp)) else mem(w)
    case _ => mem
  }

  ghost function FlatRun(mem: Va -> Contents, file: Loc -> Contents, steps: seq<Step>): Va -> Contents
    decreases |steps|
  {
    if steps == [] then mem else FlatRun(FlatStep(mem, file, steps[0]), file, steps[1..])
  }

  ghost function Memory(s: State): Va -> Contents {
    w => View(s, w)
  }

  lemma PastTheEnd(s: State, w: Va)
    requires Inv(s) && w.vp >= s.nv
    ensures View(s, w) == ZeroPage()
  {
    assert w !in s.pte;
  }

  /** One step of the kernel is the same step of the flat machine, seen from any page. */
  lemma StepIsFlat(s: State, step: Step, w: Va)
    requires Inv(s) && Enabled(s, step)
    ensures View(Apply(s, step), w) == FlatStep(Memory(s), s.file, step)(w)
  {
    match step
    case FaultHit(va) => HitView(s, va, w);
    case FaultStart(va) => StartView(s, va, w);
    case FaultAllocate(k) => AllocateView(s, k, w);
    case FaultFinish(k) => FinishView(s, k, w);
    case Unshare(va) => PrivateView(s, va, w);
    case CopyStart(va) => CopyStartView(s, va, w);
    case CopyFinish(k) => CopyFinishView(s, k, w);
    case UserStore(va, data) => StoreView(s, va, data, w);
    case Unmap(va) => UnmapKeeps(s, va); DropView(s, va, w);
    case MapFile(va, loc) => AddAbsentView(s, va, Some(loc), w);
    case Fork(parent, child) =>
      assert Forking(s, ForkUpTo(s, parent, child, s.nv), parent, child, s.nv);
      if w.kpid == child && w.vp >= s.nv {
        PastTheEnd(s, w);
        PastTheEnd(s, Va(parent, w.vp));
      }
    case SwapOut(va) => SwapOutView(s, va, w);
    case SwapFinish => SwapFinishView(s, w);
    case ClearFreeList => ClearView(s, w);
  }

  lemma FileFrame(s: State, step: Step)
    requires Inv(s) && Enabled(s, step)
    ensures Apply(s, step).file == s.file
  {
    if step.Fork? {
      assert Forking(s, ForkUpTo(s, step.parent, step.child, s.nv), step.parent, step.child, s.nv);
    }
  }

  lemma FlatStepSame(m: Va -> Contents, n: Va -> Contents, file: Loc -> Contents, step: Step, v: Va)
    requires forall v :: m(v) == n(v)
    ensures FlatStep(m, file, step)(v) == FlatStep(n, file, step)(v)
  {
    match step
    case Fork(parent, _) => assert m(Va(parent, v.vp)) == n(Va(parent, v.vp));
    case _ =>
  }

  lemma {:induction false} FlatRunSame(m: Va -> Contents, n: Va -> Contents, file: Loc -> Contents, steps: seq<Step>,
                                       w: Va)
    requires forall v :: m(v) == n(v)
    ensures FlatRun(m, file, steps)(w) == FlatRun(n, file, steps)(w)
    decreases |steps|
  {
    if steps != [] {
      forall v ensures FlatStep(m, file, steps[0])(v) == FlatStep(n, file, steps[0])(v) {
        FlatStepSame(m, n, file, steps[0], v);
      }
      FlatRunSame(FlatStep(m, file, steps[0]), FlatStep(n, file, steps[0]), file, steps[1..], w);
    }
  }

  /** Copy-on-write and swap transparency, for every run and every page of every process. */
  lemma {:induction false} RunIsFlat(s: State, steps: seq<Step>, w: Va)
    requires Inv(s) && Runs(s, steps)
    ensures View(Run(s, steps), w) == FlatRun(Memory(s), s.file, steps)(w)
    decreases |steps|
  {
    if steps != [] {
      var t := Apply(s, steps[0]);
      StepKeeps(s, steps[0]);
      FileFrame(s, steps[0]);
      RunIsFlat(t, steps[1..], w);
      forall v ensures Memory(t)(v) == FlatStep(Memory(s), s.file, steps[0])(v) { StepIsFlat(s, steps[0], v); }
      FlatRunSame(Memory(t), FlatStep(Memory(s), s.file, steps[0]), s.file, steps[1..], w);
    }
  }

  // ------------------------------------------------- the machine after boot

  /** vm_init(), vm_static_alloc() and sys_swapon(): every page free, no swap block in use. */
  ghost predicate Boot(s: State) {
    && s.pte == map[] && s.faults == map[] && s.saving == None
    && (forall p :: 0 <= p < |s.pages| ==> s.pages[p].count == 0 && s.pages[p].key == None && !s.pages[p].hashed)
    && FreeList(s) && s.total == SumFree(s.devs)
    && (forall d :: 0 <= d < |s.devs| ==> NewDev(s.devs[d]))
  }

  ghost predicate NewDev(dev: Dev) {
    && |dev.store| == |dev.bitmap| && dev.latest == 0 && dev.bitmap != []
    && dev.free == |dev.bitmap| - 1
    && forall b :: 0 <= b < |dev.bitmap| ==> dev.bitmap[b] == 0
  }

  lemma {:induction false} AllZero(bitmap: seq<nat>)
    requires bitmap != [] && forall b :: 0 <= b < |bitmap| ==> bitmap[b] == 0
    ensures |ZeroBlocks(bitmap)| == |bitmap| - 1
    decreases |bitmap|
  {
    if |bitmap| == 1 {
      assert ZeroBlocks(bitmap) == {};
    } else {
      var n := |bitmap| - 1;
      AllZero(bitmap[..n]);
      assert ZeroBlocks(bitmap) == ZeroBlocks(bitmap[..n]) + {n};
    }
  }

  lemma BootIsValid(s: State)
    requires Boot(s)
    ensures Inv(s)
  {
    forall p: nat ensures RefsTo(s.pte, p) == {} {}
    forall d | 0 <= d < |s.devs| ensures DevOk(s, d) {
      assert NewDev(s.devs[d]);
      AllZero(s.devs[d].bitmap);
      forall b | 1 <= b < |s.devs[d].bitmap| ensures Users(s, Swap(d, b)) == 0 {
        assert Owners(s.pte, Swap(d, b)) == {} && Loaders(s.faults, Swap(d, b)) == {};
      }
    }
  }

  ghost predicate Reachable(s: State, boot: State, steps: seq<Step>) {
    && Boot(boot)
    && (BootIsValid(boot); Runs(boot, steps))
    && (BootIsValid(boot); s == Run(boot, steps))
  }

  /** In every state a run from boot reaches: a page's count is the entries naming it and the
      swapper's hold; a page is on the free list iff its count is zero; a swap block's count is
      the entries naming it and the loads of it; no two pages are, or are about to be, hashed
      under one key; a hashed page holds what its block holds; a writable page has one user and
      no block. */
  lemma ReachableIsExact(s: State, boot: State, steps: seq<Step>)
    requires Reachable(s, boot, steps)
    ensures Counts(s) && FreeList(s) && SwapCounts(s) && Hash(s) && Exclusive(s) && Truth(s) && Private(s)
  {
    BootIsValid(boot);
  }

  /** A reachable state shows every process the memory of the flat machine. */
  lemma ReachableIsFlat(s: State, boot: State, steps: seq<Step>, w: Va)
    requires Reachable(s, boot, steps)
    ensures View(s, w) == FlatRun(_ => ZeroPage(), boot.file, steps)(w)
  {
    BootIsValid(boot);
    RunIsFlat(boot, steps, w);
    FlatRunSame(Memory(boot), _ => ZeroPage(), boot.file, steps, w);
  }
}
