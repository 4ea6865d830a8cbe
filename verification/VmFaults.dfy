/** page_not_present_fault() keeps the invariant. */
module VmFaults {
  import opened VmModel
  import opened VmInvariant
  import opened VmSteps
  import opened VmEntry

  // ------------------------------------------------- page_not_present_fault()

  lemma HashedMayBeShared(s: State, va: Va, p: nat)
    requires Hash(s) && Faults(s) && Private(s) && va.vp < s.nv && p < |s.pages| && s.pages[p].hashed
    ensures MayPut(s, va, Present(p, false, false))
  {
    forall w | w in s.pte && s.pte[w].Present? && s.pte[w].rw && s.pte[w].page < |s.pages|
      ensures s.pte[w].page != p
    {
      assert PrivatePage(s.pages[s.pte[w].page]);
    }
  }

  /** A hit gives up the absent entry and names the cached page. */
  lemma HitIs(s: State, va: Va, p: nat)
    requires Inv(s) && CanHit(s, va) && p == HashSearch(s.pages, s.pte[va].src.value, 0)
    ensures p < |s.pages| && s.pages[p].hashed
    ensures DoHit(s, va) == AddPage(Drop(s, va), va, p)
  {
    EntryIsHeld(s, va);
    SharedIs(s, va, p);
  }

  lemma SharedIs(s: State, va: Va, p: nat)
    requires Tables(s) && Counts(s) && SwapCounts(s) && p < |s.pages| && va.kpid !in s.faults
    requires va in s.pte && s.pte[va].Absent? && s.pte[va].src.Some? && Held(s, s.pte[va])
    ensures ShareHashed(s, va, p) == AddPage(Drop(s, va), va, p)
  {
    var t, u := ShareHashed(s, va, p), AddPage(Drop(s, va), va, p);
    assert t.pte == u.pte;
  }

  lemma HitKeeps(s: State, va: Va)
    requires Inv(s) && CanHit(s, va)
    ensures Inv(DoHit(s, va))
  {
    var p := HashSearch(s.pages, s.pte[va].src.value, 0);
    HitIs(s, va, p);
    DropKeeps(s, va);
    HashedMayBeShared(Drop(s, va), va, p);
    AddPageKeeps(Drop(s, va), va, p);
  }

  lemma StartCache(s: State, va: Va)
    requires Hash(s) && Exclusive(s) && Kinds(s) && CanStart(s, va)
    ensures Hash(DoStart(s, va)) && Exclusive(DoStart(s, va)) && Kinds(DoStart(s, va))
  {
    var t := DoStart(s, va);
    var src := Entry(s.pte, va).src;
    forall p | 0 <= p < |s.pages| && BeingRead(s, p) ensures BeingRead(t, p) { ReadFrame(s, t, p); }
    forall p | src.Some? && 0 <= p < |s.pages| && s.pages[p].hashed ensures s.pages[p].key != src {
      assert !InHash(s.pages, p, src.value);
    }
  }

  lemma StartKeeps(s: State, va: Va)
    requires Inv(s) && CanStart(s, va)
    ensures Inv(DoStart(s, va))
  {
    var t := DoStart(s, va);
    forall d: nat, b: nat ensures Users(t, Swap(d, b)) == Users(s, Swap(d, b)) {
      LoadersPut(s.faults, va.kpid, t.faults[va.kpid], Swap(d, b));
    }
    DevsFrame(s, t);
    StartCache(s, va);
  }

  lemma AllocateUsers(s: State, k: nat)
    requires Inv(s) && CanAllocate(s, k)
    ensures SwapCounts(DoAllocate(s, k))
  {
    var t := DoAllocate(s, k);
    var va := Va(k, s.faults[k].vp);
    assert FaultOk(s, k, s.faults[k], va);
    forall d: nat, b: nat ensures Users(t, Swap(d, b)) == Users(s, Swap(d, b)) {
      OwnersPut(s.pte, t.pte, va, t.pte[va], Swap(d, b));
      LoadersPut(s.faults, k, t.faults[k], Swap(d, b));
    }
    DevsFrame(s, t);
  }

  lemma AllocateFaults(s: State, k: nat)
    requires Inv(s) && CanAllocate(s, k)
    ensures Faults(DoAllocate(s, k))
  {
    var t := DoAllocate(s, k);
    assert s.free[0] in s.free;
    forall l | l in t.faults ensures FaultOk(t, l, t.faults[l], Va(l, t.faults[l].vp)) {
      assert FaultOk(s, l, s.faults[l], Va(l, s.faults[l].vp));
    }
  }

  lemma AllocateRefs(s: State, k: nat)
    requires Inv(s) && CanAllocate(s, k)
    ensures Tables(DoAllocate(s, k)) && Counts(DoAllocate(s, k))
  {
    var t := DoAllocate(s, k);
    var va := Va(k, s.faults[k].vp);
    assert FaultOk(s, k, s.faults[k], va);
    assert s.free[0] in s.free;
    forall p | 0 <= p < |s.pages| ensures t.pages[p].count == |RefsTo(t.pte, p)| + Saving(t, p) {
      RefsPut(s.pte, t.pte, va, t.pte[va], p);
    }
  }

  /** get_page() takes the head of the list and nothing else off it. */
  lemma TailIs(s: State)
    requires FreeList(s) && s.free != []
    ensures s.free[0] < |s.pages| && s.pages[s.free[0]].count == 0
    ensures forall p :: p in s.free[1..] <==> p in s.free && p != s.free[0]
    ensures forall i, j :: 0 <= i < j < |s.free[1..]| ==> s.free[1..][i] != s.free[1..][j]
  {
    assert s.free[0] in s.free;
    assert s.free == [s.free[0]] + s.free[1..];
  }

  /** The pages being read still are, and the new page is, too. */
  lemma AllocateReads(s: State, k: nat)
    requires CanAllocate(s, k) && s.free[0] < |s.pages|
    ensures BeingRead(DoAllocate(s, k), s.free[0])
    ensures forall p :: 0 <= p < |s.pages| && BeingRead(s, p) ==> BeingRead(DoAllocate(s, k), p)
  {
    var t := DoAllocate(s, k);
    forall p | 0 <= p < |s.pages| && BeingRead(s, p) ensures BeingRead(t, p) { ReadFrame(s, t, p); }
    assert k in t.faults;
  }

  lemma AllocateHash(s: State, k: nat)
    requires Inv(s) && CanAllocate(s, k)
    ensures Hash(DoAllocate(s, k)) && Exclusive(DoAllocate(s, k))
  {
    TailIs(s);
    assert FaultOk(s, k, s.faults[k], Va(k, s.faults[k].vp));
    AllocateReads(s, k);
  }

  lemma AllocateKinds(s: State, k: nat)
    requires Kinds(s) && CanAllocate(s, k) && s.free[0] < |s.pages|
    ensures Kinds(DoAllocate(s, k))
  {
    AllocateReads(s, k);
  }

  lemma AllocateTruth(s: State, k: nat)
    requires Inv(s) && CanAllocate(s, k)
    ensures Truth(DoAllocate(s, k)) && Saver(DoAllocate(s, k))
  {
    TailIs(s);
    assert FaultOk(s, k, s.faults[k], Va(k, s.faults[k].vp));
  }

  lemma AllocateKeeps(s: State, k: nat)
    requires Inv(s) && CanAllocate(s, k)
    ensures Inv(DoAllocate(s, k))
  {
    TailIs(s);
    AllocateRefs(s, k);
    AllocateUsers(s, k);
    AllocateFaults(s, k);
    AllocateHash(s, k);
    AllocateKinds(s, k);
    AllocateTruth(s, k);
    assert FreeList(DoAllocate(s, k));
    assert Private(DoAllocate(s, k));
  }

  lemma FinishUsers(s: State, k: nat)
    requires Inv(s) && CanFinish(s, k)
    ensures SwapCounts(DoFinish(s, k))
  {
    var t := DoFinish(s, k);
    var f := s.faults[k];
    var va := Va(k, f.vp);
    assert FaultOk(s, k, f, va);
    forall d: nat, b: nat
      ensures Users(t, Swap(d, b)) == Users(s, Swap(d, b)) - One(f.src == Some(Swap(d, b)))
    {
      OwnersPut(s.pte, t.pte, va, t.pte[va], Swap(d, b));
      LoadersDrop(s.faults, k, Swap(d, b));
    }
    if f.src.Some? && f.src.value.Swap? {
      LoaderHoldsBlock(s, k);
      assert DevOk(s, f.src.value.dev);
      DevsPut(s, t, f.src.value.dev, f.src.value.block);
    } else {
      DevsFrame(s, t);
    }
  }

  lemma FinishRefs(s: State, k: nat)
    requires Inv(s) && CanFinish(s, k)
    ensures Tables(DoFinish(s, k)) && Counts(DoFinish(s, k))
  {
    var t := DoFinish(s, k);
    var va := Va(k, s.faults[k].vp);
    assert FaultOk(s, k, s.faults[k], va);
    forall p | 0 <= p < |s.pages| ensures t.pages[p].count == |RefsTo(t.pte, p)| + Saving(t, p) {
      RefsPut(s.pte, t.pte, va, t.pte[va], p);
    }
  }

  /** A page is read by one process only. */
  lemma OneReader(s: State, k: nat, l: nat)
    requires Tables(s) && Faults(s) && Counts(s) && k in s.faults && l in s.faults && k != l
    requires s.faults[k].Reading? && s.faults[l].Reading?
    ensures s.faults[k].page != s.faults[l].page
  {
    var v, w := Va(k, s.faults[k].vp), Va(l, s.faults[l].vp);
    assert FaultOk(s, k, s.faults[k], v) && FaultOk(s, l, s.faults[l], w);
    if s.faults[k].page == s.faults[l].page { TwoRefs(s, v, w); }
  }

  lemma FinishFaults(s: State, k: nat)
    requires Inv(s) && CanFinish(s, k)
    ensures Faults(DoFinish(s, k))
  {
    var t := DoFinish(s, k);
    assert FaultOk(s, k, s.faults[k], Va(k, s.faults[k].vp));
    forall l | l in t.faults && t.faults[l].Reading?
      ensures t.faults[l].page < |s.pages| ==> t.pages[t.faults[l].page] == s.pages[t.faults[l].page]
    {
      OneReader(s, k, l);
    }
    FaultsFrame(s, t);
  }

  /** The other pages being read are still being read. */
  lemma FinishReads(s: State, k: nat, p: nat)
    requires Inv(s) && CanFinish(s, k) && BeingRead(s, p) && p != s.faults[k].page
    ensures BeingRead(DoFinish(s, k), p)
  {
    var l :| l in s.faults && s.faults[l].Reading? && s.faults[l].page == p;
    assert l in DoFinish(s, k).faults;
  }

  lemma FinishHash(s: State, k: nat)
    requires Inv(s) && CanFinish(s, k)
    ensures Hash(DoFinish(s, k)) && Exclusive(DoFinish(s, k))
  {
    assert FaultOk(s, k, s.faults[k], Va(k, s.faults[k].vp));
    forall p | BeingRead(s, p) && p != s.faults[k].page ensures BeingRead(DoFinish(s, k), p) { FinishReads(s, k, p); }
  }

  lemma FinishKinds(s: State, k: nat)
    requires Inv(s) && CanFinish(s, k)
    ensures Kinds(DoFinish(s, k))
  {
    assert FaultOk(s, k, s.faults[k], Va(k, s.faults[k].vp));
    forall p | BeingRead(s, p) && p != s.faults[k].page ensures BeingRead(DoFinish(s, k), p) { FinishReads(s, k, p); }
  }

  lemma FinishTruth(s: State, k: nat)
    requires Inv(s) && CanFinish(s, k)
    ensures Truth(DoFinish(s, k)) && Saver(DoFinish(s, k)) && Private(DoFinish(s, k))
  {
    assert FaultOk(s, k, s.faults[k], Va(k, s.faults[k].vp));
  }

  lemma FinishKeeps(s: State, k: nat)
    requires Inv(s) && CanFinish(s, k)
    ensures Inv(DoFinish(s, k))
  {
    FinishRefs(s, k);
    FinishUsers(s, k);
    FinishFaults(s, k);
    FinishHash(s, k);
    FinishKinds(s, k);
    FinishTruth(s, k);
    assert FaultOk(s, k, s.faults[k], Va(k, s.faults[k].vp));
  }
}
