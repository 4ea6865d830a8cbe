/** Which page and which swap block are taken next. */
module VmOrder {
  import opened Rings
  import opened VmModel
  import opened VmInvariant
  import opened VmSteps
  import opened VmRuns

  // ------------------------------------------------- the free list

  ghost predicate Before(xs: seq<nat>, a: nat, b: nat) {
    exists i, j :: 0 <= i < j < |xs| && xs[i] == a && xs[j] == b
  }

  /** What stays in the list keeps its order, and what is new comes last. */
  ghost predicate Ages(xs: seq<nat>, ys: seq<nat>) {
    && (forall i, j :: 0 <= i < j < |ys| && ys[i] in xs && ys[j] in xs ==> Before(xs, ys[i], ys[j]))
    && (forall i, j :: 0 <= i < j < |ys| && ys[j] in xs ==> ys[i] in xs)
  }

  lemma AgesSame(xs: seq<nat>)
    ensures Ages(xs, xs)
  {
  }

  lemma AgesTail(xs: seq<nat>)
    requires xs != []
    ensures Ages(xs, xs[1..])
  {
    var ys := xs[1..];
    forall i, j | 0 <= i < j < |ys| ensures Before(xs, ys[i], ys[j]) && ys[i] in xs {
      assert xs[i + 1] == ys[i] && xs[j + 1] == ys[j];
    }
  }

  lemma AgesAppend(xs: seq<nat>, x: nat)
    requires x !in xs
    ensures Ages(xs, xs + [x])
  {
    var ys := xs + [x];
    forall i, j | 0 <= i < j < |ys| && ys[j] in xs ensures ys[i] in xs && Before(xs, ys[i], ys[j]) {
      assert xs[i] == ys[i] && xs[j] == ys[j];
    }
  }

  lemma AgesWithout(xs: seq<nat>, x: nat)
    requires forall i, j :: 0 <= i < j < |xs| ==> xs[i] != xs[j]
    ensures Ages(xs, Without(xs, x))
  {
    if x in xs {
      var k :| 0 <= k < |xs| && xs[k] == x;
      WithoutAt(xs, k);
      var ys := Without(xs, x);
      forall i, j | 0 <= i < j < |ys| ensures Before(xs, ys[i], ys[j]) && ys[i] in xs {
        assert xs[if i < k then i else i + 1] == ys[i] && xs[if j < k then j else j + 1] == ys[j];
      }
    } else {
      WithoutNone(xs, x);
    }
  }

  lemma ReleaseAges(s: State, p: nat)
    requires FreeList(s) && p < |s.pages| && s.pages[p].count > 0
    ensures Ages(s.free, Release(s, p).free)
  {
    AgesSame(s.free);
    AgesAppend(s.free, p);
  }

  /** The free list is a queue: no step lets a page overtake another one, and pages given back come
      last. */
  lemma FreeListAges(s: State, step: Step)
    requires Inv(s) && Enabled(s, step)
    ensures Ages(s.free, Apply(s, step).free)
  {
    AgesSame(s.free);
    match step
    case FaultHit(va) => AgesWithout(s.free, HashSearch(s.pages, s.pte[va].src.value, 0));
    case FaultAllocate(k) => AgesTail(s.free);
    case CopyFinish(k) => CopyAges(s, k);
    case Unmap(va) => UnmapAges(s, va);
    case SwapOut(va) => SwapOutAges(s, va);
    case SwapFinish => SaverAges(s);
    case Fork(parent, child) => ForkAges(s, parent, child, s.nv);
    case FaultFinish(k) => FinishAges(s, k);
    case _ =>
  }

  lemma CopyAges(s: State, k: nat)
    requires Inv(s) && CanCopyFinish(s, k)
    ensures Ages(s.free, DoCopyFinish(s, k).free)
  {
    AgesSame(s.free);
    AgesTail(s.free);
  }

  lemma UnmapAges(s: State, va: Va)
    requires Inv(s) && va.kpid !in s.faults
    ensures Ages(s.free, DoUnmap(s, va).free)
  {
    AgesSame(s.free);
    EntryIsHeld(s, va);
    match Entry(s.pte, va)
    case Present(p, _, _) => ReleaseAges(s, p);
    case Absent(_) =>
  }

  lemma SwapOutAges(s: State, va: Va)
    requires Inv(s) && CanSwapOut(s, va)
    ensures Ages(s.free, DoSwapOut(s, va).free)
  {
    AgesSame(s.free);
    MaySwapOut(s, va);
    ReleaseAges(s, s.pte[va].page);
  }

  lemma SaverAges(s: State)
    requires Inv(s) && CanSwapFinish(s)
    ensures Ages(s.free, DoSwapFinish(s).free)
  {
    ReleaseAges(s, s.saving.value);
  }

  lemma FinishAges(s: State, k: nat)
    requires Inv(s) && CanFinish(s, k)
    ensures Ages(s.free, DoFinish(s, k).free)
  {
    AgesSame(s.free);
  }

  lemma {:induction false} ForkAges(s: State, parent: nat, child: nat, n: nat)
    requires Inv(s) && CanFork(s, parent, child) && n <= s.nv
    ensures ForkUpTo(s, parent, child, n).free == s.free
  {
    if n > 0 {
      ForkAges(s, parent, child, n - 1);
      var u := ForkOneMore(s, ForkUpTo(s, parent, child, n - 1), parent, child, n - 1);
    }
  }

  /** The page taken is the one that has been free the longest; a copy takes none if the page has
      become the process's own. */
  lemma TakesOldest(s: State, step: Step)
    requires Inv(s) && Enabled(s, step) && (step.FaultAllocate? || step.CopyFinish?)
    ensures var va := Va(step.kpid, s.faults[step.kpid].vp); var t := Apply(s, step);
      && va in t.pte && t.pte[va].Present?
      && (t.pte[va].page == s.free[0]
          || (step.CopyFinish? && va in s.pte && t.pte[va] == Present(s.pte[va].page, true, false) && t.free == s.free))
  {
    assert FaultOk(s, step.kpid, s.faults[step.kpid], Va(step.kpid, s.faults[step.kpid].vp));
  }

  // ------------------------------------------------- swap blocks

  /** No block in this range is free. */
  predicate Taken(bitmap: seq<nat>, lo: nat, hi: nat)
    requires hi <= |bitmap|
  {
    forall i :: lo <= i < hi ==> bitmap[i] != 0
  }

  /** The block is the next free one after the latest, round the end of the device. */
  predicate Next(dev: Dev, b: nat) {
    && dev.latest < |dev.bitmap| && 1 <= b < |dev.bitmap| && dev.bitmap[b] == 0
    && if b > dev.latest then Taken(dev.bitmap, dev.latest + 1, b)
       else Taken(dev.bitmap, dev.latest + 1, |dev.bitmap|) && Taken(dev.bitmap, 1, b)
  }

  /** A page that is swapped out gets the next free block of the first device that has one, from
      where the search goes on the next time. */
  lemma SwapIsNextFit(s: State, va: Va)
    requires Inv(s) && Enabled(s, SwapOut(va)) && Apply(s, SwapOut(va)).saving.Some?
    ensures var t := Apply(s, SwapOut(va));
      va in t.pte && t.pte[va].Absent? && t.pte[va].src.Some? && t.pte[va].src.value.Swap?
    ensures var t := Apply(s, SwapOut(va)); var d, b := t.pte[va].src.value.dev, t.pte[va].src.value.block;
      && d < |s.devs| && |t.devs| == |s.devs| && Next(s.devs[d], b) && t.devs[d].latest == b
      && forall e :: 0 <= e < d ==> s.devs[e].free == 0 || s.devs[e].bitmap == []
  {
    MaySwapOut(s, va);
    FreeBlockFound(s);
  }
}
