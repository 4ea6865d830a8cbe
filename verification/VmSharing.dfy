/** Copy-on-write, fork and unmapping keep the invariant. */
module VmSharing {
  import opened Rings
  import opened VmModel
  import opened VmInvariant
  import opened VmSteps
  import opened VmEntry
  import opened VmFaults

  // ------------------------------------------------- page_protection_fault()

  ghost predicate CanMakePrivate(s: State, va: Va) {
    && va in s.pte && s.pte[va].Present? && s.pte[va].page < |s.pages|
    && s.pages[s.pte[va].page].count == 1
    && (va.kpid in s.faults ==> s.faults[va.kpid] == Copying(va.vp))
  }

  /** A page with one reference that an entry names is neither being read by another handler
      nor being saved. */
  lemma OnlyUser(s: State, va: Va)
    requires Tables(s) && Faults(s) && Counts(s) && CanMakePrivate(s, va)
    ensures !BeingRead(s, s.pte[va].page) && s.saving != Some(s.pte[va].page)
    ensures forall w :: w in s.pte && w != va && s.pte[w].Present? ==> s.pte[w].page != s.pte[va].page
  {
    var p := s.pte[va].page;
    assert va in RefsTo(s.pte, p);
    forall w | w in s.pte && w != va && s.pte[w].Present? ensures s.pte[w].page != p {
      if s.pte[w].page == p { TwoRefs(s, va, w); }
    }
    forall k | k in s.faults && s.faults[k].Reading? ensures s.faults[k].page != p {
      var w := Va(k, s.faults[k].vp);
      assert FaultOk(s, k, s.faults[k], w);
    }
  }

  lemma PrivateRefs(s: State, va: Va)
    requires Inv(s) && CanMakePrivate(s, va)
    ensures Tables(MakePrivate(s, va)) && Counts(MakePrivate(s, va)) && SwapCounts(MakePrivate(s, va))
  {
    var t := MakePrivate(s, va);
    forall p | 0 <= p < |s.pages| ensures t.pages[p].count == |RefsTo(t.pte, p)| + Saving(t, p) {
      RefsPut(s.pte, t.pte, va, t.pte[va], p);
    }
    forall d: nat, b: nat ensures Users(t, Swap(d, b)) == Users(s, Swap(d, b)) {
      OwnersPut(s.pte, t.pte, va, t.pte[va], Swap(d, b));
      LoadersDrop(s.faults, va.kpid, Swap(d, b));
    }
    DevsFrame(s, t);
  }

  lemma PrivateCache(s: State, va: Va)
    requires Inv(s) && CanMakePrivate(s, va)
    ensures Hash(MakePrivate(s, va)) && Exclusive(MakePrivate(s, va)) && Kinds(MakePrivate(s, va))
    ensures Faults(MakePrivate(s, va))
  {
    var t := MakePrivate(s, va);
    OnlyUser(s, va);
    FaultsFrame(s, t);
    forall p | 0 <= p < |s.pages| && BeingRead(s, p) ensures BeingRead(t, p) { ReadFrame(s, t, p); }
  }

  lemma PrivateKeeps(s: State, va: Va)
    requires Inv(s) && CanMakePrivate(s, va)
    ensures Inv(MakePrivate(s, va))
  {
    OnlyUser(s, va);
    PrivateRefs(s, va);
    PrivateCache(s, va);
  }

  lemma CopyStartKeeps(s: State, va: Va)
    requires Inv(s) && CanCopyStart(s, va)
    ensures Inv(DoCopyStart(s, va))
  {
    var t := DoCopyStart(s, va);
    forall p | 0 <= p < |s.pages| ensures t.pages[p].count == |RefsTo(t.pte, p)| + Saving(t, p) {
      RefsPut(s.pte, t.pte, va, t.pte[va], p);
    }
    forall d: nat, b: nat ensures Users(t, Swap(d, b)) == Users(s, Swap(d, b)) {
      OwnersPut(s.pte, t.pte, va, t.pte[va], Swap(d, b));
      LoadersPut(s.faults, va.kpid, t.faults[va.kpid], Swap(d, b));
    }
    DevsFrame(s, t);
    CacheFrame(s, t);
    CopyStartFaults(s, va);
  }

  lemma CopyStartFaults(s: State, va: Va)
    requires Inv(s) && CanCopyStart(s, va)
    ensures Faults(DoCopyStart(s, va)) && Tables(DoCopyStart(s, va)) && Kinds(DoCopyStart(s, va))
  {
    var t := DoCopyStart(s, va);
    forall l | l in t.faults ensures FaultOk(t, l, t.faults[l], Va(l, t.faults[l].vp)) {
      if l != va.kpid { assert FaultOk(s, l, s.faults[l], Va(l, s.faults[l].vp)); }
    }
    forall p | 0 <= p < |s.pages| && BeingRead(s, p) ensures BeingRead(t, p) { ReadFrame(s, t, p); }
  }

  /** A free entry gets a page of its own with the given contents. */
  ghost function AddPrivate(s: State, va: Va, data: Contents): State
    requires FreeList(s) && s.free != []
  {
    var p := s.free[0];
    var t := GetPage(s);
    t.(pages := t.pages[p := t.pages[p].(kind := FromSwap, data := data)],
       pte := t.pte[va := Present(p, true, false)])
  }

  ghost predicate CanAddPrivate(s: State, va: Va) {
    va.vp < s.nv && va !in s.pte && !FaultAt(s.faults, va) && s.free != []
  }

  lemma AddPrivateRefs(s: State, va: Va, data: Contents)
    requires Inv(s) && CanAddPrivate(s, va)
    ensures Tables(AddPrivate(s, va, data)) && Counts(AddPrivate(s, va, data)) && SwapCounts(AddPrivate(s, va, data))
    ensures FreeList(AddPrivate(s, va, data))
  {
    var t := AddPrivate(s, va, data);
    TailIs(s);
    forall p | 0 <= p < |s.pages| ensures t.pages[p].count == |RefsTo(t.pte, p)| + Saving(t, p) {
      RefsPut(s.pte, t.pte, va, t.pte[va], p);
    }
    forall d: nat, b: nat ensures Users(t, Swap(d, b)) == Users(s, Swap(d, b)) {
      OwnersPut(s.pte, t.pte, va, t.pte[va], Swap(d, b));
    }
    DevsFrame(s, t);
  }

  /** The page at the head of the free list is nobody's. */
  lemma HeadIsUnused(s: State)
    requires Tables(s) && Faults(s) && Counts(s) && FreeList(s) && s.free != []
    ensures s.free[0] < |s.pages| && !BeingRead(s, s.free[0]) && s.saving != Some(s.free[0])
    ensures forall w :: w in s.pte && s.pte[w].Present? ==> s.pte[w].page != s.free[0]
  {
    TailIs(s);
    forall k | k in s.faults && s.faults[k].Reading? ensures s.faults[k].page != s.free[0] {
      assert FaultOk(s, k, s.faults[k], Va(k, s.faults[k].vp));
    }
    forall w | w in s.pte && s.pte[w].Present? ensures s.pte[w].page != s.free[0] {
      EntryHoldsPage(s, w);
    }
  }

  lemma AddPrivateCache(s: State, va: Va, data: Contents)
    requires Inv(s) && CanAddPrivate(s, va)
    ensures Hash(AddPrivate(s, va, data)) && Exclusive(AddPrivate(s, va, data)) && Kinds(AddPrivate(s, va, data))
    ensures Faults(AddPrivate(s, va, data))
  {
    var t := AddPrivate(s, va, data);
    HeadIsUnused(s);
    forall k | k in t.faults && t.faults[k].Reading? ensures t.faults[k].page != s.free[0] {
      assert FaultOk(s, k, s.faults[k], Va(k, s.faults[k].vp));
    }
    FaultsFrame(s, t);
    forall p | 0 <= p < |s.pages| && BeingRead(s, p) ensures BeingRead(t, p) { ReadFrame(s, t, p); }
  }

  lemma AddPrivateData(s: State, va: Va, data: Contents)
    requires Inv(s) && CanAddPrivate(s, va)
    ensures Truth(AddPrivate(s, va, data)) && Private(AddPrivate(s, va, data)) && Saver(AddPrivate(s, va, data))
  {
    HeadIsUnused(s);
  }

  lemma AddPrivateKeeps(s: State, va: Va, data: Contents)
    requires Inv(s) && CanAddPrivate(s, va)
    ensures Inv(AddPrivate(s, va, data))
  {
    AddPrivateRefs(s, va, data);
    AddPrivateCache(s, va, data);
    AddPrivateData(s, va, data);
  }

  /** Copying gives up the shared page and takes a private one with its contents. */
  lemma CopyFinishIs(s: State, k: nat, va: Va)
    requires Inv(s) && CanCopyFinish(s, k) && va == Va(k, s.faults[k].vp)
    ensures va in s.pte && s.pte[va].Present? && CanDrop(s, va)
    ensures s.pages[s.pte[va].page].count > 0
    ensures s.pages[s.pte[va].page].count > 1 ==>
      && FreeList(Drop(s, va)) && Drop(s, va).free == s.free
      && DoCopyFinish(s, k) == AddPrivate(Drop(s, va), va, s.pages[s.pte[va].page].data)
  {
    assert FaultOk(s, k, s.faults[k], va);
    EntryHoldsPage(s, va);
    var o := s.pte[va].page;
    if s.pages[o].count > 1 {
      DropFree(s, va);
      HeadIsUnused(s);
      var t, u := DoCopyFinish(s, k), AddPrivate(Drop(s, va), va, s.pages[o].data);
      assert t.pte == u.pte;
      assert t.pages == u.pages;
    }
  }

  lemma CopyFinishKeeps(s: State, k: nat)
    requires Inv(s) && CanCopyFinish(s, k)
    ensures Inv(DoCopyFinish(s, k))
  {
    var va := Va(k, s.faults[k].vp);
    CopyFinishIs(s, k, va);
    if s.pages[s.pte[va].page].count == 1 {
      PrivateKeeps(s, va);
    } else {
      DropKeeps(s, va);
      AddPrivateKeeps(Drop(s, va), va, s.pages[s.pte[va].page].data);
    }
  }

  // ------------------------------------------------- user code, brk, exec, fork

  lemma StoreKeeps(s: State, va: Va, data: Contents)
    requires Inv(s) && CanStore(s, va)
    ensures Inv(DoStore(s, va, data))
  {
    DevsFrame(s, DoStore(s, va, data));
    StoreCounts(s, va, data);
    StoreFaults(s, va, data);
  }

  lemma StoreCounts(s: State, va: Va, data: Contents)
    requires Inv(s) && CanStore(s, va)
    ensures var t := DoStore(s, va, data);
      Tables(t) && Counts(t) && FreeList(t) && Exclusive(t) && Truth(t) && Private(t) && Saver(t)
  {
    assert PrivatePage(s.pages[s.pte[va].page]);
  }

  lemma StoreFaults(s: State, va: Va, data: Contents)
    requires Inv(s) && CanStore(s, va)
    ensures Faults(DoStore(s, va, data)) && Hash(DoStore(s, va, data)) && Kinds(DoStore(s, va, data))
  {
    var t := DoStore(s, va, data);
    assert PrivatePage(s.pages[s.pte[va].page]);
    OnlyUser(s, va);
    FaultsFrame(s, t);
    forall p | 0 <= p < |s.pages| && BeingRead(s, p) ensures BeingRead(t, p) { ReadFrame(s, t, p); }
  }

  lemma UnmapKeeps(s: State, va: Va)
    requires Inv(s) && va.kpid !in s.faults && va.vp < s.nv
    ensures DoUnmap(s, va) == Drop(s, va) && Inv(DoUnmap(s, va))
  {
    DropKeeps(s, va);
  }

  lemma MapFileKeeps(s: State, va: Va, loc: Loc)
    requires Inv(s) && CanMapFile(s, va, loc)
    ensures Inv(DoMapFile(s, va, loc))
  {
    AddAbsentKeeps(s, va, Some(loc));
  }

  /** Sharing one entry makes the parent's read-only and adds the child's. */
  lemma ShareIs(s: State, parent: nat, child: nat, vp: nat)
    requires Inv(s) && CanShare(s, parent, child, vp)
    ensures match Entry(s.pte, Va(parent, vp))
      case Present(p, _, _) =>
        ShareOne(s, parent, child, vp) == AddPage(MakeReadOnly(s, Va(parent, vp)), Va(child, vp), p)
      case Absent(None) => ShareOne(s, parent, child, vp) == s
      case Absent(Some(loc)) =>
        && ValidSrc(s, Some(loc))
        && ShareOne(s, parent, child, vp) == AddAbsent(s, Va(child, vp), Some(loc))
  {
    var va := Va(parent, vp);
    match Entry(s.pte, va)
    case Present(p, _, _) =>
      EntryHoldsPage(s, va);
      WithoutNone(s.free, p);
    case Absent(None) =>
    case Absent(Some(loc)) =>
      if loc.Swap? { EntryHoldsBlock(s, va); }
  }

  lemma ShareKeeps(s: State, parent: nat, child: nat, vp: nat)
    requires Inv(s) && CanShare(s, parent, child, vp)
    ensures Inv(ShareOne(s, parent, child, vp))
  {
    ShareIs(s, parent, child, vp);
    var va, vc := Va(parent, vp), Va(child, vp);
    match Entry(s.pte, va)
    case Present(p, _, _) =>
      MakeReadOnlyKeeps(s, va);
      var t := MakeReadOnly(s, va);
      EntryHoldsPage(s, va);
      assert CanAdd(t, vc, Present(p, false, false));
      AddPageKeeps(t, vc, p);
    case Absent(None) =>
    case Absent(Some(loc)) =>
      AddAbsentKeeps(s, vc, Some(loc));
  }
}
