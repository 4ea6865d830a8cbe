/** The swapper keeps the invariant. */
module VmSwapping {
  import opened VmModel
  import opened VmInvariant
  import opened VmSteps
  import opened VmEntry

  // ------------------------------------------------- pages whose contents can be had again

  /** The page has no use for a new swap block. */
  ghost predicate Clean(s: State, va: Va)
    requires Tables(s) && va in s.pte && s.pte[va].Present?
  {
    s.pages[s.pte[va].page].kind != FromSwap || s.pages[s.pte[va].page].key.Some?
  }

  /** Swapping such a page out gives the page up and names its source. */
  lemma SwapCleanIs(s: State, va: Va)
    requires Inv(s) && CanSwapOut(s, va) && Clean(s, va)
    ensures var src := s.pages[s.pte[va].page].key;
      && ValidSrc(s, src) && CanDrop(s, va) && !FaultAt(s.faults, va)
      && DoSwapOut(s, va) == AddAbsent(Drop(s, va), va, src)
  {
    EntryHoldsPage(s, va);
    var src := s.pages[s.pte[va].page].key;
    if src.Some? { SwapKeyValid(s, va); }
    if FaultAt(s.faults, va) { assert FaultOk(s, va.kpid, s.faults[va.kpid], va); }
    var t, u := DoSwapOut(s, va), AddAbsent(Drop(s, va), va, src);
    assert t.pte == u.pte;
  }

  lemma SwapCleanKeeps(s: State, va: Va)
    requires Inv(s) && CanSwapOut(s, va) && Clean(s, va)
    ensures Inv(DoSwapOut(s, va))
  {
    SwapCleanIs(s, va);
    DropKeeps(s, va);
    AddAbsentKeeps(Drop(s, va), va, s.pages[s.pte[va].page].key);
  }

  // ------------------------------------------------- pages that need a swap block

  ghost predicate Dirty(s: State, va: Va) {
    && Inv(s) && CanSwapOut(s, va) && !Clean(s, va) && s.total != 0
  }

  ghost function Target(s: State): (loc: Loc)
    requires SwapCounts(s) && s.total != 0
    ensures loc.Swap? && ValidBlock(s.devs, loc.dev, loc.block) && s.devs[loc.dev].bitmap[loc.block] == 0
  {
    FreeBlockFound(s);
    Swap(FirstDev(s.devs, 0), NewBlock(s.devs[FirstDev(s.devs, 0)]))
  }

  /** Nothing names the block get_swap_block() finds, once it has cut the pages still hashed under it. */
  lemma TargetUnused(s: State)
    requires Faults(s) && SwapCounts(s) && s.total != 0
    ensures forall w :: Entry(s.pte, w) != Absent(Some(Target(s)))
    ensures forall k :: k in s.faults && !s.faults[k].Copying? ==> s.faults[k].src != Some(Target(s))
    ensures forall p :: !InHash(TakeBlock(s, Target(s).dev, Target(s).block).pages, p, Target(s))
  {
    var loc := Target(s);
    assert DevOk(s, loc.dev);
    assert Owners(s.pte, loc) == {} && Loaders(s.faults, loc) == {};
    forall w ensures Entry(s.pte, w) != Absent(Some(loc)) {
      assert w !in Owners(s.pte, loc);
    }
    forall k | k in s.faults && !s.faults[k].Copying? ensures s.faults[k].src != Some(loc) {
      assert k !in Loaders(s.faults, loc);
      assert FaultOk(s, k, s.faults[k], Va(k, s.faults[k].vp));
    }
  }

  /** The page p once the page o has been given the block loc. */
  function AfterSave(s: State, p: nat, o: nat, loc: Loc): Page
    requires p < |s.pages|
  {
    if p == o then s.pages[p].(key := Some(loc), hashed := true)
    else if InHash(s.pages, p, loc) then Cut(s.pages[p])
    else s.pages[p]
  }

  /** What the step does to the pages. */
  lemma DirtyPages(s: State, va: Va, t: State)
    requires Dirty(s, va) && t == DoSwapOut(s, va)
    ensures |t.pages| == |s.pages| && t.saving == Some(s.pte[va].page) && t.faults == s.faults && t.nv == s.nv
    ensures t.pte == s.pte[va := Absent(Some(Target(s)))] && t.file == s.file
    ensures |t.devs| == |s.devs| && forall d :: 0 <= d < |s.devs| ==>
      t.devs[d].store == s.devs[d].store && |t.devs[d].bitmap| == |s.devs[d].bitmap|
    ensures forall p :: 0 <= p < |s.pages| ==> t.pages[p] == AfterSave(s, p, s.pte[va].page, Target(s))
  {
  }

  lemma DirtyRefs(s: State, va: Va)
    requires Dirty(s, va)
    ensures Tables(DoSwapOut(s, va)) && Counts(DoSwapOut(s, va)) && FreeList(DoSwapOut(s, va))
  {
    var t := DoSwapOut(s, va);
    DirtyPages(s, va, t);
    assert ValidSrc(t, Some(Target(s)));
    forall p | 0 <= p < |s.pages| ensures t.pages[p].count == |RefsTo(t.pte, p)| + Saving(t, p) {
      RefsPut(s.pte, t.pte, va, t.pte[va], p);
    }
  }

  lemma DirtyUsers(s: State, va: Va)
    requires Dirty(s, va)
    ensures SwapCounts(DoSwapOut(s, va))
  {
    var t := DoSwapOut(s, va);
    var loc := Target(s);
    TargetUnused(s);
    assert DevOk(s, loc.dev);
    forall d: nat, b: nat
      ensures Users(t, Swap(d, b)) == Users(s, Swap(d, b)) + One(loc == Swap(d, b))
    {
      OwnersPut(s.pte, t.pte, va, Absent(Some(loc)), Swap(d, b));
    }
    DevsPut(s, t, loc.dev, loc.block);
  }

  lemma DirtyHash(s: State, va: Va)
    requires Dirty(s, va)
    ensures Hash(DoSwapOut(s, va)) && Exclusive(DoSwapOut(s, va))
  {
    var t := DoSwapOut(s, va);
    DirtyPages(s, va, t);
    TargetUnused(s);
    forall p | 0 <= p < |s.pages| && BeingRead(s, p) ensures BeingRead(t, p) { ReadFrame(s, t, p); }
  }

  lemma DirtyKinds(s: State, va: Va)
    requires Dirty(s, va)
    ensures Kinds(DoSwapOut(s, va))
  {
    var t := DoSwapOut(s, va);
    DirtyPages(s, va, t);
    TargetUnused(s);
    forall p | 0 <= p < |s.pages| && BeingRead(s, p) ensures BeingRead(t, p) { ReadFrame(s, t, p); }
    forall p | 0 <= p < |s.pages| && InHash(s.pages, p, Target(s)) ensures s.pages[p].kind == FromSwap {}
  }

  lemma DirtyFaults(s: State, va: Va)
    requires Dirty(s, va)
    ensures Faults(DoSwapOut(s, va))
  {
    var t := DoSwapOut(s, va);
    DirtyPages(s, va, t);
    forall k | k in s.faults ensures FaultOk(t, k, t.faults[k], Va(k, t.faults[k].vp)) {
      assert FaultOk(s, k, s.faults[k], Va(k, s.faults[k].vp));
    }
  }

  lemma DirtyData(s: State, va: Va)
    requires Dirty(s, va)
    ensures Truth(DoSwapOut(s, va)) && Private(DoSwapOut(s, va)) && Saver(DoSwapOut(s, va))
  {
    var t := DoSwapOut(s, va);
    DirtyPages(s, va, t);
    EntryHoldsPage(s, va);
    forall w | w in t.pte && t.pte[w].Present? && t.pte[w].rw && t.pte[w].page < |t.pages|
      ensures !t.pte[w].busy && PrivatePage(t.pages[t.pte[w].page])
    {
      assert PrivatePage(s.pages[s.pte[w].page]);
      if s.pte[w].page == s.pte[va].page { TwoRefs(s, va, w); }
    }
  }

  lemma SwapOutKeeps(s: State, va: Va)
    requires Inv(s) && CanSwapOut(s, va)
    ensures Inv(DoSwapOut(s, va))
  {
    if Clean(s, va) {
      SwapCleanKeeps(s, va);
    } else if s.total != 0 {
      DirtyRefs(s, va);
      DirtyUsers(s, va);
      DirtyHash(s, va);
      DirtyKinds(s, va);
      DirtyFaults(s, va);
      DirtyData(s, va);
    }
  }

  // ------------------------------------------------- the end of a write, clear_free_list()

  lemma SwapFinishRefs(s: State)
    requires Inv(s) && CanSwapFinish(s)
    ensures Tables(DoSwapFinish(s)) && Counts(DoSwapFinish(s)) && FreeList(DoSwapFinish(s))
  {
  }

  lemma SwapFinishUsers(s: State)
    requires Inv(s) && CanSwapFinish(s)
    ensures SwapCounts(DoSwapFinish(s))
  {
    var t := DoSwapFinish(s);
    var d := s.pages[s.saving.value].key.value.dev;
    assert DevOk(s, d);
    SumFreePut(s.devs, d, t.devs[d]);
    forall e | 0 <= e < |s.devs| ensures DevOk(t, e) { assert DevOk(s, e); }
  }

  lemma SwapFinishFaults(s: State)
    requires Inv(s) && CanSwapFinish(s)
    ensures Faults(DoSwapFinish(s)) && Hash(DoSwapFinish(s)) && Exclusive(DoSwapFinish(s)) && Kinds(DoSwapFinish(s))
  {
    var t := DoSwapFinish(s);
    forall k | k in t.faults && t.faults[k].Reading? ensures t.faults[k].page != s.saving.value {
      assert FaultOk(s, k, s.faults[k], Va(k, s.faults[k].vp));
    }
    FaultsFrame(s, t);
    forall p | 0 <= p < |s.pages| && BeingRead(s, p) ensures BeingRead(t, p) { ReadFrame(s, t, p); }
  }

  lemma SwapFinishData(s: State)
    requires Inv(s) && CanSwapFinish(s)
    ensures Truth(DoSwapFinish(s)) && Private(DoSwapFinish(s)) && Saver(DoSwapFinish(s))
  {
    var t := DoSwapFinish(s);
    var o := s.saving.value;
    forall p | 0 <= p < |s.pages| && s.pages[p].hashed
      ensures t.pages[p].data == Block(t, t.pages[p].key.value)
    {
      assert ValidSrc(s, s.pages[p].key) && ValidSrc(s, s.pages[o].key);
      if s.pages[p].key.value.Swap? { assert DevOk(s, s.pages[p].key.value.dev); }
      if p != o { assert s.pages[p].key != s.pages[o].key; }
    }
    forall w | w in t.pte && t.pte[w].Present? && t.pte[w].rw && t.pte[w].page < |t.pages|
      ensures !t.pte[w].busy && PrivatePage(t.pages[t.pte[w].page])
    {
      assert PrivatePage(s.pages[s.pte[w].page]);
    }
  }

  lemma SwapFinishKeeps(s: State)
    requires Inv(s) && CanSwapFinish(s)
    ensures Inv(DoSwapFinish(s))
  {
    SwapFinishRefs(s);
    SwapFinishUsers(s);
    SwapFinishFaults(s);
    SwapFinishData(s);
  }

  lemma ClearKeeps(s: State)
    requires Inv(s)
    ensures Inv(DoClear(s))
  {
    var t := DoClear(s);
    forall d: nat, b: nat ensures Users(t, Swap(d, b)) == Users(s, Swap(d, b)) {}
    DevsFrame(s, t);
    ClearFaults(s);
    ClearData(s);
  }

  lemma ClearFaults(s: State)
    requires Inv(s)
    ensures Faults(DoClear(s)) && Hash(DoClear(s)) && Kinds(DoClear(s)) && Exclusive(DoClear(s))
  {
    var t := DoClear(s);
    forall k | k in t.faults && t.faults[k].Reading? ensures t.faults[k].page !in s.free {
      assert FaultOk(s, k, s.faults[k], Va(k, s.faults[k].vp));
    }
    FaultsFrame(s, t);
    forall p | 0 <= p < |s.pages| && BeingRead(s, p) ensures BeingRead(t, p) { ReadFrame(s, t, p); }
  }

  lemma ClearData(s: State)
    requires Inv(s)
    ensures Truth(DoClear(s)) && Private(DoClear(s)) && Saver(DoClear(s))
  {
    var t := DoClear(s);
    forall w | w in t.pte && t.pte[w].Present? && t.pte[w].rw && t.pte[w].page < |t.pages|
      ensures !t.pte[w].busy && PrivatePage(t.pages[t.pte[w].page])
    {
      assert PrivatePage(s.pages[s.pte[w].page]);
    }
  }
}
