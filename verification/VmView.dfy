/** What a process sees in its memory, and how each step changes it: paging, swapping and
    copy-on-write show through nowhere. */
module VmView {
  import opened VmModel
  import opened VmInvariant
  import opened VmSteps
  import opened VmEntry
  import opened VmFaults
  import opened VmSharing
  import opened VmSwapping

  /** The logical contents of a virtual page, wherever they are kept at the moment. */
  ghost function View(s: State, w: Va): Contents {
    match Entry(s.pte, w)
    case Absent(src) => Source(s, src)
    case Present(p, _, _) =>
      if FaultAt(s.faults, w) && s.faults[w.kpid].Reading? then Source(s, s.faults[w.kpid].src)
      else Shown(s, Present(p, false, false))
  }

  /** What an entry shows once no fault handler is at work on it. */
  ghost function Shown(s: State, e: Pte): Contents {
    match e
    case Absent(src) => Source(s, src)
    case Present(p, _, _) => if p < |s.pages| then s.pages[p].data else ZeroPage()
  }

  lemma BlockFrame(s: State, t: State, loc: Loc)
    requires SameCache(s, t)
    ensures Block(t, loc) == Block(s, loc)
  {
  }

  /** A change of one entry leaves every other entry's contents alone. */
  lemma PutView(s: State, t: State, va: Va, e: Pte, w: Va)
    requires Put(s, t, va, e)
    ensures w != va ==> View(t, w) == View(s, w)
    ensures w == va ==> View(t, w) == Shown(s, e)
  {
    if w != va {
      assert Entry(t.pte, w) == Entry(s.pte, w);
      match Entry(s.pte, w)
      case Absent(src) => if src.Some? { BlockFrame(s, t, src.value); }
      case Present(_, _, _) =>
        if FaultAt(s.faults, w) && s.faults[w.kpid].Reading? && s.faults[w.kpid].src.Some? {
          BlockFrame(s, t, s.faults[w.kpid].src.value);
        }
    } else {
      assert Entry(t.pte, va) == e;
      if e.Absent? && e.src.Some? { BlockFrame(s, t, e.src.value); }
    }
  }

  lemma DropView(s: State, va: Va, w: Va)
    requires Inv(s) && CanDrop(s, va)
    ensures View(Drop(s, va), w) == if w == va then ZeroPage() else View(s, w)
  {
    DropPut(s, va);
    PutView(s, Drop(s, va), va, Absent(None), w);
  }

  lemma AddPageView(s: State, va: Va, p: nat, w: Va)
    requires CanAdd(s, va, Present(p, false, false))
    ensures View(AddPage(s, va, p), w) == if w == va then s.pages[p].data else View(s, w)
  {
    PutView(s, AddPage(s, va, p), va, Present(p, false, false), w);
  }

  lemma AddAbsentView(s: State, va: Va, src: Option<Loc>, w: Va)
    requires CanAdd(s, va, Absent(src))
    ensures View(AddAbsent(s, va, src), w) == if w == va then Source(s, src) else View(s, w)
  {
    PutView(s, AddAbsent(s, va, src), va, Absent(src), w);
  }

  lemma DropBlock(s: State, va: Va, loc: Loc)
    requires Inv(s) && CanDrop(s, va)
    ensures Block(Drop(s, va), loc) == Block(s, loc)
  {
    DropPut(s, va);
    BlockFrame(s, Drop(s, va), loc);
  }

  // ------------------------------------------------- page_not_present_fault()

  lemma HitView(s: State, va: Va, w: Va)
    requires Inv(s) && CanHit(s, va)
    ensures View(DoHit(s, va), w) == View(s, w)
  {
    var p := HashSearch(s.pages, s.pte[va].src.value, 0);
    HitIs(s, va, p);
    DropKeeps(s, va);
    HashedMayBeShared(Drop(s, va), va, p);
    DropView(s, va, w);
    AddPageView(Drop(s, va), va, p, w);
  }

  lemma StartView(s: State, va: Va, w: Va)
    requires Inv(s) && CanStart(s, va)
    ensures View(DoStart(s, va), w) == View(s, w)
  {
    var t := DoStart(s, va);
    assert forall loc :: Block(t, loc) == Block(s, loc);
  }

  predicate SameContents(p: Page, q: Page) {
    p.key == q.key && p.data == q.data
  }

  /** What an entry in use depends on survives any step that leaves these alone. */
  lemma SourceFrame(s: State, t: State, src: Option<Loc>)
    requires t.file == s.file && t.saving == s.saving && |t.devs| == |s.devs|
    requires forall d :: 0 <= d < |s.devs| ==> t.devs[d].store == s.devs[d].store
    requires |s.pages| == |t.pages|
    requires s.saving.Some? && s.saving.value < |s.pages| ==>
      SameContents(s.pages[s.saving.value], t.pages[s.saving.value])
    ensures Source(t, src) == Source(s, src)
  {
  }

  lemma AllocateView(s: State, k: nat, w: Va)
    requires Inv(s) && CanAllocate(s, k)
    ensures View(DoAllocate(s, k), w) == View(s, w)
  {
    var t := DoAllocate(s, k);
    var va := Va(k, s.faults[k].vp);
    assert FaultOk(s, k, s.faults[k], va);
    HeadIsUnused(s);
    forall src ensures Source(t, src) == Source(s, src) { SourceFrame(s, t, src); }
    if w != va { assert Entry(t.pte, w) == Entry(s.pte, w); }
    if w.kpid in s.faults { assert FaultOk(s, w.kpid, s.faults[w.kpid], Va(w.kpid, s.faults[w.kpid].vp)); }
  }

  /** A block being read is not the block being saved: load_page() never finds it in the
      swapper's page. */
  lemma ReadingIsNotSaving(s: State, k: nat)
    requires Inv(s) && CanFinish(s, k) && s.saving.Some?
    ensures s.pages[s.saving.value].key != s.faults[k].src && s.faults[k].page != s.saving.value
  {
    assert FaultOk(s, k, s.faults[k], Va(k, s.faults[k].vp));
  }

  lemma FinishView(s: State, k: nat, w: Va)
    requires Inv(s) && CanFinish(s, k)
    ensures View(DoFinish(s, k), w) == View(s, w)
  {
    var va := Va(k, s.faults[k].vp);
    assert FaultOk(s, k, s.faults[k], va);
    if s.saving.Some? { ReadingIsNotSaving(s, k); }
    ReaderHolds(s, k);
    if w != va && Names(Entry(s.pte, w), s.faults[k].page) { TwoRefs(s, va, w); }
    ReadView(s, k, va, w);
  }

  lemma ReadView(s: State, k: nat, va: Va, w: Va)
    requires CanFinish(s, k) && va == Va(k, s.faults[k].vp) && s.faults[k].page < |s.pages|
    requires Held(s, Absent(s.faults[k].src)) && Entry(s.pte, va) == Present(s.faults[k].page, false, true)
    requires s.saving.Some? ==> s.faults[k].page != s.saving.value
    requires w != va ==> !Names(Entry(s.pte, w), s.faults[k].page)
    ensures View(FinishRead(s, k), w) == View(s, w)
  {
    var t := FinishRead(s, k);
    forall src ensures Source(t, src) == Source(s, src) { SourceFrame(s, t, src); }
    if w != va { assert Entry(t.pte, w) == Entry(s.pte, w); }
  }

  // ------------------------------------------------- page_protection_fault()

  lemma PrivateView(s: State, va: Va, w: Va)
    requires Inv(s) && CanMakePrivate(s, va)
    ensures View(MakePrivate(s, va), w) == View(s, w)
  {
    var t := MakePrivate(s, va);
    OnlyUser(s, va);
    forall src ensures Source(t, src) == Source(s, src) { SourceFrame(s, t, src); }
    if w != va { assert Entry(t.pte, w) == Entry(s.pte, w); }
  }

  lemma CopyStartView(s: State, va: Va, w: Va)
    requires Inv(s) && CanCopyStart(s, va)
    ensures View(DoCopyStart(s, va), w) == View(s, w)
  {
    var t := DoCopyStart(s, va);
    forall src ensures Source(t, src) == Source(s, src) { SourceFrame(s, t, src); }
    if w != va { assert Entry(t.pte, w) == Entry(s.pte, w); }
  }

  lemma AddPrivateView(s: State, va: Va, data: Contents, w: Va)
    requires Inv(s) && CanAddPrivate(s, va)
    ensures View(AddPrivate(s, va, data), w) == if w == va then data else View(s, w)
  {
    var t := AddPrivate(s, va, data);
    HeadIsUnused(s);
    forall src ensures Source(t, src) == Source(s, src) { SourceFrame(s, t, src); }
    if w != va { assert Entry(t.pte, w) == Entry(s.pte, w); }
  }

  lemma CopyFinishView(s: State, k: nat, w: Va)
    requires Inv(s) && CanCopyFinish(s, k)
    ensures View(DoCopyFinish(s, k), w) == View(s, w)
  {
    var va := Va(k, s.faults[k].vp);
    CopyFinishIs(s, k, va);
    if s.pages[s.pte[va].page].count == 1 {
      PrivateView(s, va, w);
    } else {
      DropKeeps(s, va);
      DropView(s, va, w);
      AddPrivateView(Drop(s, va), va, s.pages[s.pte[va].page].data, w);
    }
  }

  // ------------------------------------------------- user code, brk, exec, fork

  lemma StoreView(s: State, va: Va, data: Contents, w: Va)
    requires Inv(s) && CanStore(s, va)
    ensures View(DoStore(s, va, data), w) == if w == va then data else View(s, w)
  {
    var t := DoStore(s, va, data);
    assert PrivatePage(s.pages[s.pte[va].page]);
    OnlyUser(s, va);
    forall src ensures Source(t, src) == Source(s, src) { SourceFrame(s, t, src); }
  }

  /** The page of va loses its write permission and is named by vc, too. */
  lemma SharedPageView(s: State, va: Va, vc: Va, p: nat, w: Va)
    requires va in s.pte && s.pte[va].Present? && s.pte[va].page == p < |s.pages| && va != vc
    requires !FaultAt(s.faults, va) && CanAdd(MakeReadOnly(s, va), vc, Present(p, false, false))
    ensures View(AddPage(MakeReadOnly(s, va), vc, p), w) == if w == vc then View(s, va) else View(s, w)
  {
    var t := MakeReadOnly(s, va);
    AddPageView(t, vc, p, w);
    if w != vc { PutView(s, t, va, t.pte[va], w); }
  }

  lemma ShareView(s: State, parent: nat, child: nat, vp: nat, w: Va)
    requires Inv(s) && CanShare(s, parent, child, vp)
    ensures View(ShareOne(s, parent, child, vp), w)
         == if w == Va(child, vp) then View(s, Va(parent, vp)) else View(s, w)
  {
    ShareIs(s, parent, child, vp);
    var va, vc := Va(parent, vp), Va(child, vp);
    match Entry(s.pte, va)
    case Present(p, _, _) =>
      MakeReadOnlyKeeps(s, va);
      EntryHoldsPage(s, va);
      SharedPageView(s, va, vc, p, w);
    case Absent(None) =>
    case Absent(Some(loc)) =>
      AddAbsentView(s, vc, Some(loc), w);
  }

  // ------------------------------------------------- swapper()

  lemma SwapCleanView(s: State, va: Va, w: Va)
    requires Inv(s) && CanSwapOut(s, va) && Clean(s, va)
    ensures View(DoSwapOut(s, va), w) == View(s, w)
  {
    SwapCleanIs(s, va);
    var p := s.pte[va].page;
    var src := s.pages[p].key;
    DropKeeps(s, va);
    DropView(s, va, w);
    AddAbsentView(Drop(s, va), va, src, w);
    EntryHoldsPage(s, va);
    if src.Some? {
      SwapKeyValid(s, va);
      DropBlock(s, va, src.value);
    }
  }

  lemma SwapDirtyView(s: State, va: Va, w: Va)
    requires Dirty(s, va)
    ensures View(DoSwapOut(s, va), w) == View(s, w)
  {
    var t := DoSwapOut(s, va);
    DirtyPages(s, va, t);
    TargetUnused(s);
    if FaultAt(s.faults, w) { assert FaultOk(s, w.kpid, s.faults[w.kpid], w); }
    if w != va { assert Entry(t.pte, w) == Entry(s.pte, w); }
    forall src | src != Some(Target(s)) ensures Source(t, src) == Source(s, src) {}
  }

  lemma SwapOutView(s: State, va: Va, w: Va)
    requires Inv(s) && CanSwapOut(s, va)
    ensures View(DoSwapOut(s, va), w) == View(s, w)
  {
    if Clean(s, va) {
      SwapCleanView(s, va, w);
    } else if s.total != 0 {
      SwapDirtyView(s, va, w);
    }
  }

  lemma SwapFinishView(s: State, w: Va)
    requires Inv(s) && CanSwapFinish(s)
    ensures View(DoSwapFinish(s), w) == View(s, w)
  {
    var t := DoSwapFinish(s);
    var loc := s.pages[s.saving.value].key.value;
    assert ValidSrc(s, Some(loc)) && DevOk(s, loc.dev);
    forall src ensures Source(t, src) == Source(s, src) {}
  }

  lemma ClearView(s: State, w: Va)
    requires Inv(s)
    ensures View(DoClear(s), w) == View(s, w)
  {
    var t := DoClear(s);
    forall src ensures Source(t, src) == Source(s, src) { SourceFrame(s, t, src); }
  }
}
