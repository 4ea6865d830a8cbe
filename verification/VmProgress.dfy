/** Faults come to an end: after the handlers the page is there, and writable if it was written to. */
module VmProgress {
  import opened Rings
  import opened VmModel
  import opened VmInvariant
  import opened VmSteps
  import opened VmRuns
  import opened VmView

  /** A process can read the page without a fault. */
  predicate CanLoad(s: State, va: Va) {
    va.kpid !in s.faults && va in s.pte && s.pte[va].Present? && !s.pte[va].busy
  }

  // ------------------------------------------------- one handler

  /** A page that is in the cache, or has been read, is there. */
  lemma HitLoads(s: State, va: Va)
    requires Inv(s) && Enabled(s, FaultHit(va))
    ensures CanLoad(Apply(s, FaultHit(va)), va)
  {
  }

  lemma FinishLoads(s: State, k: nat)
    requires Inv(s) && Enabled(s, FaultFinish(k))
    ensures CanLoad(Apply(s, FaultFinish(k)), Va(k, s.faults[k].vp))
  {
    assert FaultOk(s, k, s.faults[k], Va(k, s.faults[k].vp));
  }

  /** The only user of a page may write to it at once. */
  lemma UnshareStores(s: State, va: Va)
    requires Inv(s) && Enabled(s, Unshare(va))
    ensures CanStore(Apply(s, Unshare(va)), va)
  {
  }

  /** So may the process whose copy is done, or has turned out not to be needed. */
  lemma CopyStores(s: State, k: nat)
    requires Inv(s) && Enabled(s, CopyFinish(k))
    ensures CanStore(Apply(s, CopyFinish(k)), Va(k, s.faults[k].vp))
  {
    assert FaultOk(s, k, s.faults[k], Va(k, s.faults[k].vp));
  }

  /** A protection fault is over. */
  predicate EndsWriteFault(s: State, step: Step, va: Va) {
    step == Unshare(va) || (step == CopyFinish(va.kpid) && va.kpid in s.faults && s.faults[va.kpid].vp == va.vp)
  }

  /** Then the process writes, and its own memory and no other takes what it writes. */
  lemma WriteFaultEnds(s: State, step: Step, va: Va, data: Contents, w: Va)
    requires Inv(s) && Enabled(s, step) && EndsWriteFault(s, step, va)
    ensures Inv(Apply(s, step)) && Enabled(Apply(s, step), UserStore(va, data))
    ensures View(Apply(Apply(s, step), UserStore(va, data)), w) == if w == va then data else View(s, w)
  {
    StepKeeps(s, step);
    if step.Unshare? { UnshareStores(s, va); } else { CopyStores(s, va.kpid); }
    StepIsFlat(s, step, w);
    StepIsFlat(Apply(s, step), UserStore(va, data), w);
  }

  // ------------------------------------------------- from the first fault to the write

  /** The process is about to touch the page, and nobody else is reading its block. */
  ghost predicate MayFault(s: State, va: Va) {
    && va.kpid !in s.faults && va.vp < s.nv
    && (Entry(s.pte, va).Absent? && Entry(s.pte, va).src.Some? && !Cached(s.pages, Entry(s.pte, va).src.value) ==>
          !Loading(s.faults, Entry(s.pte, va).src.value))
  }

  lemma OneStep(s: State, step: Step, rest: seq<Step>)
    requires Inv(s) && Enabled(s, step)
    ensures Inv(Apply(s, step))
    ensures Runs(Apply(s, step), rest) ==> Runs(s, [step] + rest) && Run(s, [step] + rest) == Run(Apply(s, step), rest)
  {
    StepKeeps(s, step);
    assert ([step] + rest)[1..] == rest;
  }

  /** With two pages to spare, the handlers of a process that writes to any page of its, one after
      the other, lead to a state in which it may, and no memory looks any different. */
  lemma WriteGoesThrough(s: State, va: Va) returns (steps: seq<Step>)
    requires Inv(s) && MayFault(s, va) && !BusyEntry(s, va) && |s.free| >= 2
    ensures Runs(s, steps) && CanStore(Run(s, steps), va)
    ensures forall w :: View(Run(s, steps), w) == View(s, w)
  {
    if Entry(s.pte, va).Present? {
      steps := MakeWritable(s, va);
    } else {
      var first := MakePresent(s, va);
      var t := Run(s, first);
      var more := MakeWritable(t, va);
      RunsOn(s, first, more);
      steps := first + more;
      forall w ensures View(Run(s, steps), w) == View(s, w) { assert View(t, w) == View(s, w); }
    }
  }

  ghost predicate BusyEntry(s: State, va: Va) {
    va in s.pte && s.pte[va].Present? && s.pte[va].busy
  }

  lemma {:induction false} RunsOn(s: State, a: seq<Step>, b: seq<Step>)
    requires Inv(s) && Runs(s, a) && Runs(Run(s, a), b)
    ensures Runs(s, a + b) && Run(s, a + b) == Run(Run(s, a), b)
    decreases |a|
  {
    if a == [] {
      assert [] + b == b;
    } else {
      OneStep(s, a[0], a[1..]);
      RunsOn(Apply(s, a[0]), a[1..], b);
      OneStep(s, a[0], a[1..] + b);
      Rejoin(a, b);
    }
  }

  lemma OnlyStep(s: State, step: Step) returns (steps: seq<Step>)
    requires Inv(s) && Enabled(s, step)
    ensures steps == [step] && Runs(s, steps) && Run(s, steps) == Apply(s, step)
  {
    OneStep(s, step, []);
    steps := [step];
    assert [step] + [] == steps;
  }

  lemma Rejoin(a: seq<Step>, b: seq<Step>)
    requires a != []
    ensures [a[0]] + (a[1..] + b) == a + b && [a[0]] + a[1..] == a
  {
  }

  /** The steps of the fault handlers change no memory. */
  predicate Quiet(step: Step) {
    !step.UserStore? && !step.Unmap? && !step.MapFile? && !step.Fork?
  }

  lemma {:induction false} QuietView(s: State, steps: seq<Step>, w: Va)
    requires Inv(s) && Runs(s, steps) && forall i :: 0 <= i < |steps| ==> Quiet(steps[i])
    ensures View(Run(s, steps), w) == View(s, w)
    decreases |steps|
  {
    if steps != [] {
      assert Quiet(steps[0]);
      StepKeeps(s, steps[0]);
      StepIsFlat(s, steps[0], w);
      QuietView(Apply(s, steps[0]), steps[1..], w);
    }
  }

  /** Writes to a page that is there. */
  lemma MakeWritable(s: State, va: Va) returns (steps: seq<Step>)
    requires Inv(s) && CanLoad(s, va) && s.free != []
    ensures Runs(s, steps) && CanStore(Run(s, steps), va)
    ensures forall w :: View(Run(s, steps), w) == View(s, w)
  {
    if s.pte[va].rw {
      steps := [];
    } else if s.pages[s.pte[va].page].count == 1 {
      steps := OnlyStep(s, Unshare(va));
      UnshareStores(s, va);
    } else {
      steps := CopyNow(s, va);
    }
    forall w ensures View(Run(s, steps), w) == View(s, w) { QuietView(s, steps, w); }
  }

  lemma CopyNow(s: State, va: Va) returns (steps: seq<Step>)
    requires Inv(s) && Enabled(s, CopyStart(va)) && s.free != []
    ensures Runs(s, steps) && CanStore(Run(s, steps), va)
    ensures forall i :: 0 <= i < |steps| ==> Quiet(steps[i])
  {
    StepKeeps(s, CopyStart(va));
    var more := CopyOver(Apply(s, CopyStart(va)), va);
    OneStep(s, CopyStart(va), more);
    steps := [CopyStart(va)] + more;
  }

  lemma CopyOver(t: State, va: Va) returns (steps: seq<Step>)
    requires Inv(t) && Enabled(t, CopyFinish(va.kpid)) && t.faults[va.kpid].vp == va.vp
    ensures steps == [CopyFinish(va.kpid)] && Runs(t, steps) && CanStore(Run(t, steps), va)
  {
    steps := OnlyStep(t, CopyFinish(va.kpid));
    CopyStores(t, va.kpid);
  }

  /** Touches a page that is not. */
  lemma MakePresent(s: State, va: Va) returns (steps: seq<Step>)
    requires Inv(s) && MayFault(s, va) && Entry(s.pte, va).Absent? && |s.free| >= 2
    ensures Runs(s, steps) && CanLoad(Run(s, steps), va) && Run(s, steps).free != []
    ensures forall w :: View(Run(s, steps), w) == View(s, w)
  {
    var src := Entry(s.pte, va).src;
    if src.Some? && Cached(s.pages, src.value) {
      steps := [FaultHit(va)];
      OneStep(s, FaultHit(va), []);
      HitLoads(s, va);
      HitTakesOne(s, va);
    } else {
      steps := ReadIn(s, va);
    }
    forall w ensures View(Run(s, steps), w) == View(s, w) { QuietView(s, steps, w); }
  }

  lemma HitTakesOne(s: State, va: Va)
    requires Inv(s) && Enabled(s, FaultHit(va)) && |s.free| >= 2
    ensures Apply(s, FaultHit(va)).free != []
  {
    var p := HashSearch(s.pages, s.pte[va].src.value, 0);
    var x := if s.free[0] == p then s.free[1] else s.free[0];
    assert x in s.free && x != p;
    WithoutIn(s.free, p, x);
  }

  lemma ReadIn(s: State, va: Va) returns (steps: seq<Step>)
    requires Inv(s) && MayFault(s, va) && Entry(s.pte, va).Absent? && |s.free| >= 2
    requires Entry(s.pte, va).src.Some? ==> !Cached(s.pages, Entry(s.pte, va).src.value)
    ensures Runs(s, steps) && CanLoad(Run(s, steps), va) && Run(s, steps).free != []
    ensures forall i :: 0 <= i < |steps| ==> Quiet(steps[i])
  {
    var k := va.kpid;
    var t := Apply(s, FaultStart(va));
    StepKeeps(s, FaultStart(va));
    var more := ReadOn(t, k);
    OneStep(s, FaultStart(va), more);
    steps := [FaultStart(va)] + more;
  }

  lemma ReadOn(t: State, k: nat) returns (steps: seq<Step>)
    requires Inv(t) && Enabled(t, FaultAllocate(k)) && |t.free| >= 2
    ensures Runs(t, steps) && CanLoad(Run(t, steps), Va(k, t.faults[k].vp)) && Run(t, steps).free != []
    ensures forall i :: 0 <= i < |steps| ==> Quiet(steps[i])
  {
    StepKeeps(t, FaultAllocate(k));
    var more := ReadOver(Apply(t, FaultAllocate(k)), k);
    OneStep(t, FaultAllocate(k), more);
    steps := [FaultAllocate(k)] + more;
  }

  lemma ReadOver(u: State, k: nat) returns (steps: seq<Step>)
    requires Inv(u) && Enabled(u, FaultFinish(k)) && u.free != []
    ensures steps == [FaultFinish(k)] && Runs(u, steps) && CanLoad(Run(u, steps), Va(k, u.faults[k].vp))
    ensures Run(u, steps).free != []
  {
    steps := OnlyStep(u, FaultFinish(k));
    FinishLoads(u, k);
    FinishFree(u, k);
  }

  lemma FinishFree(u: State, k: nat)
    requires Inv(u) && Enabled(u, FaultFinish(k))
    ensures Apply(u, FaultFinish(k)).free == u.free
  {
  }

  // ------------------------------------------------- making room

  /** The page has one user less, and is free if that was the last one. */
  ghost predicate OneUserLess(s: State, t: State, p: nat) {
    && p < |s.pages| && |t.pages| == |s.pages| && t.pages[p].count == s.pages[p].count - 1
    && (t.pages[p].count == 0 ==> p in t.free)
  }

  /** Swapping a page out takes it from its user, unless it has to be written and there is no swap
      space. It is written only if it is nowhere else, and is given up at once otherwise. */
  lemma SwapOutGoes(s: State, va: Va)
    requires Inv(s) && Enabled(s, SwapOut(va))
    ensures s.pte[va].page < |s.pages|
    ensures var t := Apply(s, SwapOut(va)); var p := s.pte[va].page;
      if s.total == 0 && s.pages[p].kind == FromSwap && s.pages[p].key.None? then t == s
      else
        && va in t.pte && t.pte[va].Absent?
        && if s.pages[p].kind == FromSwap && s.pages[p].key.None? then t.saving == Some(p)
           else t.saving.None? && OneUserLess(s, t, p)
  {
    MaySwapOut(s, va);
  }

  /** Once it is written, it is given up too. */
  lemma SavedGoes(s: State)
    requires Inv(s) && Enabled(s, SwapFinish)
    ensures Apply(s, SwapFinish).saving.None? && OneUserLess(s, Apply(s, SwapFinish), s.saving.value)
  {
    assert ValidSrc(s, s.pages[s.saving.value].key) && DevOk(s, s.pages[s.saving.value].key.value.dev);
  }
}
