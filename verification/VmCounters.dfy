/** The counters of pages and swap blocks are bytes.  They never overflow: a page or block is used
    at one virtual page number only, so a process uses it at most once. */
module VmCounters {
  import opened VmModel
  import opened VmInvariant
  import opened VmSteps
  import opened VmSharing
  import opened VmSwapping
  import opened VmRuns

  /** The block an entry stands for. */
  function KeyOf(pages: seq<Page>, e: Pte): Option<Loc> {
    match e
    case Absent(src) => src
    case Present(p, _, _) => if p < |pages| then pages[p].key else None
  }

  /** Two entries share a page or a block. */
  predicate Tied(pages: seq<Page>, e: Pte, f: Pte) {
    || (e.Present? && f.Present? && e.page == f.page)
    || (KeyOf(pages, e).Some? && KeyOf(pages, e) == KeyOf(pages, f))
  }

  /** place gives the page number at which an executable's block is mapped, and max bounds the
      process table. */
  ghost predicate Placed(s: State, place: Loc -> nat, max: nat) {
    && (forall v :: v in s.pte ==> v.kpid < max)
    && (forall k :: k in s.faults ==> k < max)
    && (forall v, w :: v in s.pte && w in s.pte && Tied(s.pages, s.pte[v], s.pte[w]) ==> v.vp == w.vp)
    && (forall v :: v in s.pte ==> AtPlace(s.pages, s.pte[v], v, place))
  }

  predicate AtPlace(pages: seq<Page>, e: Pte, v: Va, place: Loc -> nat) {
    KeyOf(pages, e).Some? && KeyOf(pages, e).value.File? ==> v.vp == place(KeyOf(pages, e).value)
  }

  /** exec() maps an image at its place, and only processes of the table run. */
  ghost predicate Proper(step: Step, place: Loc -> nat, max: nat) {
    match step
    case MapFile(va, loc) => va.vp == place(loc) && va.kpid < max
    case FaultStart(va) => va.kpid < max
    case Fork(_, child) => child < max
    case _ => true
  }

  /** The entry f of the later state stands for no more than e did before. */
  predicate Like(pages: seq<Page>, e: Pte, qages: seq<Page>, f: Pte) {
    && (f.Present? ==> e.Present? && e.page == f.page)
    && (KeyOf(qages, f).Some? ==> KeyOf(qages, f) == KeyOf(pages, e))
  }

  ghost predicate LikeBut(s: State, t: State, va: Va) {
    forall w :: w in t.pte && w != va ==> w in s.pte && Like(s.pages, s.pte[w], t.pages, t.pte[w])
  }

  /** A step after which no entry but va stands for anything new. */
  lemma PlacedPut(s: State, t: State, va: Va, place: Loc -> nat, max: nat)
    requires Placed(s, place, max) && LikeBut(s, t, va) && forall k :: k in t.faults ==> k < max
    requires va in t.pte ==> va.kpid < max && AtPlace(t.pages, t.pte[va], va, place)
    requires forall w :: va in t.pte && w in t.pte && w != va && Tied(t.pages, t.pte[va], t.pte[w]) ==> w.vp == va.vp
    ensures Placed(t, place, max)
  {
  }

  lemma PlacedSame(s: State, t: State, place: Loc -> nat, max: nat)
    requires Placed(s, place, max) && forall k :: k in t.faults ==> k < max
    requires forall w :: w in t.pte ==> w in s.pte && Like(s.pages, s.pte[w], t.pages, t.pte[w])
    ensures Placed(t, place, max)
  {
  }

  lemma HitPlaced(s: State, va: Va, place: Loc -> nat, max: nat)
    requires Inv(s) && Placed(s, place, max) && CanHit(s, va)
    ensures Placed(DoHit(s, va), place, max)
  {
    EntryIsHeld(s, va);
    SharedPlaced(s, va, HashSearch(s.pages, s.pte[va].src.value, 0), place, max);
  }

  lemma SharedPlaced(s: State, va: Va, p: nat, place: Loc -> nat, max: nat)
    requires va in s.pte && s.pte[va].Absent? && s.pte[va].src.Some? && Held(s, s.pte[va])
    requires InHash(s.pages, p, s.pte[va].src.value) && Placed(s, place, max)
    ensures Placed(ShareHashed(s, va, p), place, max)
  {
    var t := ShareHashed(s, va, p);
    forall w | w in t.pte && w != va && Tied(t.pages, t.pte[va], t.pte[w]) ensures w.vp == va.vp {
      assert Tied(s.pages, s.pte[va], s.pte[w]);
    }
    PlacedPut(s, t, va, place, max);
  }

  lemma AllocatePlaced(s: State, k: nat, place: Loc -> nat, max: nat)
    requires Tables(s) && Faults(s) && Counts(s) && FreeList(s) && Placed(s, place, max) && CanAllocate(s, k)
    ensures Placed(DoAllocate(s, k), place, max)
  {
    var t, va := DoAllocate(s, k), Va(k, s.faults[k].vp);
    HeadIsUnused(s);
    assert FaultOk(s, k, s.faults[k], va);
    forall w | w in t.pte && w != va && Tied(t.pages, t.pte[va], t.pte[w]) ensures w.vp == va.vp {
      assert va in s.pte && Tied(s.pages, s.pte[va], s.pte[w]);
    }
    PlacedPut(s, t, va, place, max);
  }

  lemma FinishPlaced(s: State, k: nat, place: Loc -> nat, max: nat)
    requires Inv(s) && Placed(s, place, max) && CanFinish(s, k)
    ensures Placed(DoFinish(s, k), place, max)
  {
    var va := Va(k, s.faults[k].vp);
    assert FaultOk(s, k, s.faults[k], va);
    ReaderHolds(s, k);
    ReadPlaced(s, k, va, place, max);
  }

  lemma ReadPlaced(s: State, k: nat, va: Va, place: Loc -> nat, max: nat)
    requires CanFinish(s, k) && va == Va(k, s.faults[k].vp) && s.faults[k].page < |s.pages|
    requires Held(s, Absent(s.faults[k].src)) && Entry(s.pte, va) == Present(s.faults[k].page, false, true)
    requires Placed(s, place, max)
    ensures Placed(FinishRead(s, k), place, max)
  {
    PlacedSame(s, FinishRead(s, k), place, max);
  }

  lemma CopyFinishPlaced(s: State, k: nat, place: Loc -> nat, max: nat)
    requires Inv(s) && Placed(s, place, max) && CanCopyFinish(s, k)
    ensures Placed(DoCopyFinish(s, k), place, max)
  {
    var va := Va(k, s.faults[k].vp);
    HeadIsUnused(s);
    assert FaultOk(s, k, s.faults[k], va);
    EntryIsHeld(s, va);
    CopyPlaced(s, k, va, place, max);
  }

  lemma CopyPlaced(s: State, k: nat, va: Va, place: Loc -> nat, max: nat)
    requires CanCopyFinish(s, k) && va in s.pte && s.pte[va].Present? && Held(s, s.pte[va]) && s.free[0] < |s.pages|
    requires forall w :: w in s.pte && s.pte[w].Present? ==> s.pte[w].page != s.free[0]
    requires Placed(s, place, max)
    ensures Placed(FinishCopy(s, k, va), place, max)
  {
    PlacedPut(s, FinishCopy(s, k, va), va, place, max);
  }

  lemma MapFilePlaced(s: State, va: Va, loc: Loc, place: Loc -> nat, max: nat)
    requires Inv(s) && Placed(s, place, max) && CanMapFile(s, va, loc) && Proper(MapFile(va, loc), place, max)
    ensures Placed(DoMapFile(s, va, loc), place, max)
  {
    var t := DoMapFile(s, va, loc);
    forall w | w in t.pte && w != va && Tied(t.pages, t.pte[va], t.pte[w]) ensures w.vp == va.vp {
      assert AtPlace(s.pages, s.pte[w], w, place);
    }
    PlacedPut(s, t, va, place, max);
  }

  lemma SharePlaced(s: State, parent: nat, child: nat, vp: nat, place: Loc -> nat, max: nat)
    requires Inv(s) && Placed(s, place, max) && CanShare(s, parent, child, vp) && child < max
    ensures Placed(ShareOne(s, parent, child, vp), place, max)
  {
    EntryIsHeld(s, Va(parent, vp));
    ShareEntryPlaced(s, parent, child, vp, place, max);
  }

  lemma ShareEntryPlaced(s: State, parent: nat, child: nat, vp: nat, place: Loc -> nat, max: nat)
    requires Held(s, Entry(s.pte, Va(parent, vp))) && parent != child && Va(child, vp) !in s.pte
    requires Placed(s, place, max) && child < max
    ensures Placed(ShareEntry(s, parent, child, vp), place, max)
  {
    var t, va, vc := ShareEntry(s, parent, child, vp), Va(parent, vp), Va(child, vp);
    if vc in t.pte {
      assert AtPlace(s.pages, s.pte[va], va, place);
      forall w | w in t.pte && w != vc && Tied(t.pages, t.pte[vc], t.pte[w]) ensures w.vp == vp {
        assert Tied(s.pages, s.pte[va], s.pte[w]);
      }
    }
    PlacedPut(s, t, vc, place, max);
  }

  lemma SwapOutPlaced(s: State, va: Va, place: Loc -> nat, max: nat)
    requires Inv(s) && Placed(s, place, max) && CanSwapOut(s, va)
    ensures Placed(DoSwapOut(s, va), place, max)
  {
    var t := DoSwapOut(s, va);
    MaySwapOut(s, va);
    if !Clean(s, va) && s.total != 0 {
      SavePlaced(s, va, place, max);
    } else {
      PlacedSame(s, t, place, max);
    }
  }

  /** The entries naming the page come to stand for its new block, which no other entry does. */
  lemma SavePlaced(s: State, va: Va, place: Loc -> nat, max: nat)
    requires Dirty(s, va) && Placed(s, place, max)
    ensures Placed(DoSwapOut(s, va), place, max)
  {
    var t := DoSwapOut(s, va);
    DirtyPages(s, va, t);
    forall w | w in t.pte ensures w in s.pte && SavedAs(s, s.pte[w], t, t.pte[w], s.pte[va].page) {
      SavedEntry(s, va, t, w);
    }
    SavedTied(s, t, s.pte[va].page, place, max);
  }

  /** An entry stands for the new block if it named the page, and else for no more than before. */
  predicate SavedAs(s: State, e: Pte, t: State, f: Pte, p: nat) {
    && (f.Present? ==> e.Present? && e.page == f.page)
    && (e.Present? && e.page == p ==> KeyOf(t.pages, f) == NewKey(t, p))
    && (!(e.Present? && e.page == p) && KeyOf(t.pages, f).Some? ==> KeyOf(t.pages, f) == KeyOf(s.pages, e))
    && (!(e.Present? && e.page == p) ==> KeyOf(t.pages, f) != NewKey(t, p))
  }

  /** The block that the page p has been given. */
  function NewKey(t: State, p: nat): Option<Loc> {
    if p < |t.pages| then t.pages[p].key else None
  }

  lemma SavedEntry(s: State, va: Va, t: State, w: Va)
    requires Dirty(s, va) && t == DoSwapOut(s, va) && w in t.pte
    ensures w in s.pte && SavedAs(s, s.pte[w], t, t.pte[w], s.pte[va].page)
  {
    DirtyPages(s, va, t);
    TargetUnused(s);
    if w != va { assert t.pte[w] == Entry(s.pte, w); }
    if s.pte[w].Present? && s.pte[w].page != s.pte[va].page { KeyNotTarget(s, s.pte[w].page); }
  }

  lemma SavedTied(s: State, t: State, p: nat, place: Loc -> nat, max: nat)
    requires Placed(s, place, max) && t.faults == s.faults && NewKey(t, p).Some? && NewKey(t, p).value.Swap?
    requires forall w :: w in t.pte ==> w in s.pte && SavedAs(s, s.pte[w], t, t.pte[w], p)
    ensures Placed(t, place, max)
  {
    forall v, w | v in t.pte && w in t.pte && Tied(t.pages, t.pte[v], t.pte[w]) ensures v.vp == w.vp {
      assert Tied(s.pages, s.pte[v], s.pte[w]);
    }
  }

  /** A page that keeps its key when a swap block is taken is not associated with the block. */
  lemma KeyNotTarget(s: State, q: nat)
    requires Inv(s) && s.total != 0 && q < |s.pages|
    requires forall k :: k in s.faults && s.faults[k].Reading? ==> s.faults[k].page < |s.pages|
    ensures s.pages[q].key == Some(Target(s)) ==> InHash(s.pages, q, Target(s))
  {
    TargetUnused(s);
    forall k | k in s.faults && s.faults[k].Reading? ensures s.pages[s.faults[k].page].key == s.faults[k].src {
      assert FaultOk(s, k, s.faults[k], Va(k, s.faults[k].vp));
    }
  }

  // ------------------------------------------------- runs

  /** The same, unfolded only where it is used. */
  ghost predicate StaysPlaced(s: State, place: Loc -> nat, max: nat) {
    forall m: nat :: m == max ==> Placed(s, place, m)
  }

  lemma ForkNextPlaced(s: State, t: State, parent: nat, child: nat, n: nat, place: Loc -> nat, max: nat)
    requires CanFork(s, parent, child) && ForkingUpTo(s, t, parent, child, n) && n < s.nv
    requires StaysPlaced(t, place, max) && child < max
    ensures StaysPlaced(ForkNext(s, t, parent, child, n), place, max)
  {
    assert Forking(s, t, parent, child, n) && Placed(t, place, max);
    SharePlaced(t, parent, child, n, place, max);
  }

  lemma {:induction false} ForkPlaced(s: State, parent: nat, child: nat, n: nat, place: Loc -> nat, max: nat)
    requires Inv(s) && StaysPlaced(s, place, max) && CanFork(s, parent, child) && n <= s.nv && child < max
    ensures StaysPlaced(ForkUpTo(s, parent, child, n), place, max)
  {
    if n > 0 {
      ForkPlaced(s, parent, child, n - 1, place, max);
      ForkNextPlaced(s, ForkUpTo(s, parent, child, n - 1), parent, child, n - 1, place, max);
    }
  }

  lemma StepPlaced(s: State, step: Step, place: Loc -> nat, max: nat)
    requires Inv(s) && Placed(s, place, max) && Enabled(s, step) && Proper(step, place, max)
    ensures Placed(Apply(s, step), place, max)
  {
    match step
    case FaultHit(va) => HitPlaced(s, va, place, max);
    case FaultAllocate(k) => AllocatePlaced(s, k, place, max);
    case FaultFinish(k) => FinishPlaced(s, k, place, max);
    case CopyFinish(k) => CopyFinishPlaced(s, k, place, max);
    case MapFile(va, loc) => MapFilePlaced(s, va, loc, place, max);
    case Fork(parent, child) =>
      ForkPlaced(s, parent, child, s.nv, place, max);
      assert Placed(Apply(s, step), place, max);
    case SwapOut(va) => SwapOutPlaced(s, va, place, max);
    case FaultStart(_) => PlacedSame(s, Apply(s, step), place, max);
    case Unmap(va) => UnmapPlaced(s, va, place, max);
    case SwapFinish => PlacedSame(s, Apply(s, step), place, max);
    case UserStore(_, _) => PlacedSame(s, Apply(s, step), place, max);
    case _ => StillPlaced(s, step, place, max);
  }

  lemma UnmapPlaced(s: State, va: Va, place: Loc -> nat, max: nat)
    requires Inv(s) && Placed(s, place, max) && va.kpid !in s.faults
    ensures Placed(DoUnmap(s, va), place, max)
  {
    EntryIsHeld(s, va);
    PlacedSame(s, DoUnmap(s, va), place, max);
  }

  /** The steps after which every entry stands for what it did, or for less. */
  lemma StillPlaced(s: State, step: Step, place: Loc -> nat, max: nat)
    requires Inv(s) && Placed(s, place, max) && Enabled(s, step) && Proper(step, place, max)
    requires step.Unshare? || step.CopyStart? || step.ClearFreeList?
    ensures Placed(Apply(s, step), place, max)
  {
    PlacedSame(s, Apply(s, step), place, max);
  }

  ghost predicate AllProper(steps: seq<Step>, place: Loc -> nat, max: nat) {
    forall i :: 0 <= i < |steps| ==> Proper(steps[i], place, max)
  }

  lemma {:induction false} RunPlaced(s: State, steps: seq<Step>, place: Loc -> nat, max: nat)
    requires Inv(s) && Placed(s, place, max) && Runs(s, steps) && AllProper(steps, place, max)
    ensures Placed(Run(s, steps), place, max)
    decreases |steps|
  {
    if steps != [] {
      StepKeeps(s, steps[0]);
      StepPlaced(s, steps[0], place, max);
      RunPlaced(Apply(s, steps[0]), steps[1..], place, max);
    }
  }

  // ------------------------------------------------- the bound

  /** Entries at one page number belong to different processes. */
  lemma {:induction false} FewEntries(vs: set<Va>, max: nat)
    requires forall v :: v in vs ==> v.kpid < max
    requires forall v, w :: v in vs && w in vs ==> v.vp == w.vp
    ensures |vs| <= max
    decreases max
  {
    if max == 0 {
      assert vs == {};
    } else {
      var top := set v | v in vs && v.kpid == max - 1;
      assert |top| <= 1 by {
        if v :| v in top { assert top == {v}; }
      }
      FewEntries(vs - top, max - 1);
      assert vs == (vs - top) + top;
    }
  }

  lemma PageFits(s: State, p: nat, place: Loc -> nat, max: nat)
    requires Inv(s) && Placed(s, place, max) && p < |s.pages|
    ensures s.pages[p].count <= max + 1
  {
    forall v, w | v in RefsTo(s.pte, p) && w in RefsTo(s.pte, p) ensures v.vp == w.vp {
      assert Tied(s.pages, s.pte[v], s.pte[w]);
    }
    FewEntries(RefsTo(s.pte, p), max);
  }

  lemma BlockFits(s: State, d: nat, b: nat, place: Loc -> nat, max: nat)
    requires Inv(s) && Placed(s, place, max) && ValidBlock(s.devs, d, b)
    ensures s.devs[d].bitmap[b] <= max + 1
  {
    assert DevOk(s, d);
    var owners, loaders := Owners(s.pte, Swap(d, b)), Loaders(s.faults, Swap(d, b));
    forall v, w | v in owners && w in owners ensures v.vp == w.vp {
      assert Tied(s.pages, s.pte[v], s.pte[w]);
    }
    FewEntries(owners, max);
    assert |loaders| <= 1 by {
      if k :| k in loaders {
        forall l | l in loaders ensures l == k {}
        assert loaders == {k};
      }
    }
  }

  const SYSTEM_PROCESS_MAX := 64
  const BYTE_MAX := 255

  /** In every reachable state each counter fits its unsigned char. */
  lemma CountersFit(s: State, boot: State, steps: seq<Step>, place: Loc -> nat)
    requires Reachable(s, boot, steps) && AllProper(steps, place, SYSTEM_PROCESS_MAX)
    ensures forall p :: 0 <= p < |s.pages| ==> s.pages[p].count <= BYTE_MAX
    ensures forall d: nat, b: nat :: ValidBlock(s.devs, d, b) ==> s.devs[d].bitmap[b] <= BYTE_MAX
  {
    BootIsValid(boot);
    RunPlaced(boot, steps, place, SYSTEM_PROCESS_MAX);
    forall p | 0 <= p < |s.pages| ensures s.pages[p].count <= BYTE_MAX {
      PageFits(s, p, place, SYSTEM_PROCESS_MAX);
    }
    forall d: nat, b: nat | ValidBlock(s.devs, d, b) ensures s.devs[d].bitmap[b] <= BYTE_MAX {
      BlockFits(s, d, b, place, SYSTEM_PROCESS_MAX);
    }
  }
}
