/** Changes of one page table entry together with the counts that follow it. */
module VmEntry {
  import opened Rings
  import opened VmModel
  import opened VmInvariant
  import opened VmSteps

  // ------------------------------------------------- how one update changes the counts

  function One(b: bool): nat {
    if b then 1 else 0
  }

  /** Two sets that agree except perhaps on x. */
  lemma OneChange<T>(a: set<T>, c: set<T>, x: T)
    requires forall y :: y != x ==> (y in a <==> y in c)
    ensures |c| == |a| - One(x in a) + One(x in c)
  {
    assert a - {x} == c - {x};
    assert x in a ==> a == a - {x} + {x};
    assert x in c ==> c == c - {x} + {x};
  }

  /** qte is pte with the entry va set to e (a zero entry may be a missing key). */
  ghost predicate EntryPut(pte: map<Va, Pte>, qte: map<Va, Pte>, va: Va, e: Pte) {
    qte.Keys <= pte.Keys + {va} && forall w :: Entry(qte, w) == if w == va then e else Entry(pte, w)
  }

  lemma RefsPut(pte: map<Va, Pte>, qte: map<Va, Pte>, va: Va, e: Pte, p: nat)
    requires EntryPut(pte, qte, va, e)
    ensures |RefsTo(qte, p)| == |RefsTo(pte, p)| - One(Names(Entry(pte, va), p)) + One(Names(e, p))
  {
    var a, c := RefsTo(pte, p), RefsTo(qte, p);
    forall w | w != va ensures w in a <==> w in c {
      assert Entry(qte, w) == Entry(pte, w);
    }
    assert va in c <==> Names(Entry(qte, va), p);
    OneChange(a, c, va);
  }

  lemma OwnersPut(pte: map<Va, Pte>, qte: map<Va, Pte>, va: Va, e: Pte, loc: Loc)
    requires EntryPut(pte, qte, va, e)
    ensures |Owners(qte, loc)|
         == |Owners(pte, loc)| - One(Entry(pte, va) == Absent(Some(loc))) + One(e == Absent(Some(loc)))
  {
    var a, c := Owners(pte, loc), Owners(qte, loc);
    forall w | w != va ensures w in a <==> w in c {
      assert Entry(qte, w) == Entry(pte, w);
    }
    assert va in c <==> Entry(qte, va) == Absent(Some(loc));
    OneChange(a, c, va);
  }

  predicate Reads(f: Fault, loc: Loc) {
    f.Reading? && f.src == Some(loc)
  }

  lemma LoadersPut(faults: map<nat, Fault>, k: nat, f: Fault, loc: Loc)
    ensures |Loaders(faults[k := f], loc)|
         == |Loaders(faults, loc)| - One(k in faults && Reads(faults[k], loc)) + One(Reads(f, loc))
  {
    OneChange(Loaders(faults, loc), Loaders(faults[k := f], loc), k);
  }

  lemma LoadersDrop(faults: map<nat, Fault>, k: nat, loc: Loc)
    ensures |Loaders(faults - {k}, loc)| == |Loaders(faults, loc)| - One(k in faults && Reads(faults[k], loc))
  {
    OneChange(Loaders(faults, loc), Loaders(faults - {k}, loc), k);
  }

  lemma ZeroBlocksPut(bitmap: seq<nat>, b: nat, n: nat)
    requires 1 <= b < |bitmap|
    ensures |ZeroBlocks(bitmap[b := n])| == |ZeroBlocks(bitmap)| - One(bitmap[b] == 0) + One(n == 0)
  {
    OneChange(ZeroBlocks(bitmap), ZeroBlocks(bitmap[b := n]), b);
  }

  lemma {:induction false} SumFreePut(devs: seq<Dev>, d: nat, dev: Dev)
    requires d < |devs|
    ensures SumFree(devs[d := dev]) == SumFree(devs) - devs[d].free + dev.free
  {
    if d == 0 {
      assert devs[d := dev][1..] == devs[1..];
    } else {
      assert devs[d := dev][1..] == devs[1..][d - 1 := dev];
      SumFreePut(devs[1..], d - 1, dev);
    }
  }

  lemma {:induction false} WithoutIs(free: seq<nat>, p: nat)
    requires forall i, j :: 0 <= i < j < |free| ==> free[i] != free[j]
    ensures var r := Without(free, p);
      && (forall q :: q in r <==> q in free && q != p)
      && (forall i, j :: 0 <= i < j < |r| ==> r[i] != r[j])
      && |r| == |free| - One(p in free)
  {
    if free != [] {
      var w := Without(free[1..], p);
      WithoutIs(free[1..], p);
      assert free == [free[0]] + free[1..];
      forall j | 0 <= j < |w| ensures w[j] != free[0] {
        assert w[j] in w;
      }
    }
  }

  // ------------------------------------------------- frames

  /** The counts of the swap devices stand as long as the users of every block do. */
  lemma DevsFrame(s: State, t: State)
    requires SwapCounts(s) && t.devs == s.devs && t.total == s.total
    requires forall d: nat, b: nat :: Users(t, Swap(d, b)) == Users(s, Swap(d, b))
    ensures SwapCounts(t)
  {
    forall d | 0 <= d < |s.devs| ensures DevOk(t, d) {
      assert DevOk(s, d);
    }
  }

  /** One count changes together with the users of its block. */
  lemma DevsPut(s: State, t: State, d: nat, b: nat)
    requires SwapCounts(s) && ValidBlock(s.devs, d, b)
    requires |t.devs| == |s.devs| && t.devs == s.devs[d := t.devs[d]]
    requires |t.devs[d].bitmap| == |s.devs[d].bitmap|
    requires t.devs[d].bitmap == s.devs[d].bitmap[b := t.devs[d].bitmap[b]]
    requires |t.devs[d].store| == |s.devs[d].store| && t.devs[d].latest < |t.devs[d].bitmap|
    requires t.devs[d].free == s.devs[d].free + One(t.devs[d].bitmap[b] == 0) - One(s.devs[d].bitmap[b] == 0)
    requires t.total == s.total + t.devs[d].free - s.devs[d].free
    requires forall e: nat, c: nat :: (e, c) != (d, b) ==> Users(t, Swap(e, c)) == Users(s, Swap(e, c))
    requires t.devs[d].bitmap[b] == Users(t, Swap(d, b))
    ensures SwapCounts(t)
  {
    SumFreePut(s.devs, d, t.devs[d]);
    ZeroBlocksPut(s.devs[d].bitmap, b, t.devs[d].bitmap[b]);
    forall e | 0 <= e < |s.devs| ensures DevOk(t, e) {
      assert DevOk(s, e);
    }
  }

  /** The set of pages being read depends on the fault handlers only. */
  lemma ReadFrame(s: State, t: State, p: nat)
    requires forall k :: k in s.faults && s.faults[k].Reading? && s.faults[k].page == p ==>
      k in t.faults && t.faults[k] == s.faults[k]
    requires BeingRead(s, p)
    ensures BeingRead(t, p)
  {
    var k :| k in s.faults && s.faults[k].Reading? && s.faults[k].page == p;
    assert k in t.faults;
  }

  /** The parts of the invariant that do not look at page counts or contents. */
  lemma FaultsFrame(s: State, t: State)
    requires Faults(s) && t.nv == s.nv && |t.pages| == |s.pages| && |t.devs| == |s.devs|
    requires forall d :: 0 <= d < |s.devs| ==> |t.devs[d].bitmap| == |s.devs[d].bitmap|
    requires forall k :: k in t.faults ==> k in s.faults && t.faults[k] == s.faults[k]
    requires forall k :: k in t.faults ==> Entry(t.pte, Va(k, t.faults[k].vp)) == Entry(s.pte, Va(k, t.faults[k].vp))
    requires forall k :: k in t.faults && t.faults[k].Reading? && t.faults[k].page < |s.pages| ==>
      t.pages[t.faults[k].page] == s.pages[t.faults[k].page]
    ensures Faults(t)
  {
    forall k | k in t.faults ensures FaultOk(t, k, t.faults[k], Va(k, t.faults[k].vp)) {
      assert FaultOk(s, k, s.faults[k], Va(k, s.faults[k].vp));
    }
  }

  /** The two states hold the same pages, up to their counts, and the same blocks. */
  ghost predicate SameCache(s: State, t: State) {
    && |t.pages| == |s.pages| && t.saving == s.saving && t.nv == s.nv && t.file == s.file
    && (forall p :: 0 <= p < |s.pages| ==> t.pages[p] == s.pages[p].(count := t.pages[p].count))
    && |t.devs| == |s.devs|
    && (forall d :: 0 <= d < |s.devs| ==>
          t.devs[d].store == s.devs[d].store && |t.devs[d].bitmap| == |s.devs[d].bitmap|)
  }

  /** The page cache does not look at the counts. */
  lemma CacheFrame(s: State, t: State)
    requires Hash(s) && Exclusive(s) && Truth(s) && SameCache(s, t)
    requires forall k :: k in s.faults && !s.faults[k].Copying? ==> k in t.faults && t.faults[k] == s.faults[k]
    requires forall k :: k in t.faults && !t.faults[k].Copying? ==> k in s.faults && t.faults[k] == s.faults[k]
    ensures Hash(t) && Exclusive(t) && Truth(t)
  {
    forall p | 0 <= p < |s.pages| && BeingRead(s, p) ensures BeingRead(t, p) { ReadFrame(s, t, p); }
  }

  /** A page named by two entries has a count of at least two. */
  lemma TwoRefs(s: State, va: Va, w: Va)
    requires Tables(s) && Counts(s) && va != w
    requires va in s.pte && w in s.pte && s.pte[va].Present? && s.pte[w].Present?
    requires s.pte[va].page == s.pte[w].page
    ensures s.pages[s.pte[va].page].count >= 2
  {
    var p := s.pte[va].page;
    assert {va, w} <= RefsTo(s.pte, p) && |{va, w}| == 2;
    CardinalityMonotonic({va, w}, RefsTo(s.pte, p));
  }

  // ------------------------------------------------- one entry changes

  predicate FaultAt(faults: map<nat, Fault>, va: Va) {
    va.kpid in faults && faults[va.kpid].vp == va.vp
  }

  function Settle(faults: map<nat, Fault>, va: Va): map<nat, Fault> {
    if FaultAt(faults, va) then faults - {va.kpid} else faults
  }

  /** The entry va becomes e, the page counts follow, and a copy fault on va is over. */
  ghost predicate Put(s: State, t: State, va: Va, e: Pte) {
    && SameCache(s, t) && EntryPut(s.pte, t.pte, va, e) && t.faults == Settle(s.faults, va)
    && (FaultAt(s.faults, va) ==> s.faults[va.kpid].Copying?)
    && (forall p :: 0 <= p < |s.pages| ==>
          t.pages[p].count == s.pages[p].count - One(Names(Entry(s.pte, va), p)) + One(Names(e, p)))
  }

  /** The new entry is not writable and names a page that may be shared, or a valid block. */
  ghost predicate MayPut(s: State, va: Va, e: Pte) {
    && va.vp < s.nv
    && match e
       case Present(p, rw, busy) =>
         && !rw && !busy && p < |s.pages| && !BeingRead(s, p)
         && (s.pages[p].count > 0 || s.pages[p].hashed)
         && forall w :: w in s.pte && w != va && s.pte[w].Present? && s.pte[w].rw ==> s.pte[w].page != p
       case Absent(src) => ValidSrc(s, src)
  }

  lemma PutRefs(s: State, t: State, va: Va, e: Pte)
    requires Tables(s) && Counts(s) && Put(s, t, va, e) && MayPut(s, va, e)
    ensures Tables(t) && Counts(t)
  {
    forall p | 0 <= p < |t.pages| ensures t.pages[p].count == |RefsTo(t.pte, p)| + Saving(t, p) {
      RefsPut(s.pte, t.pte, va, e, p);
    }
    forall w | w in t.pte ensures t.pte[w] == if w == va then e else Entry(s.pte, w) {
      assert Entry(t.pte, w) == t.pte[w];
    }
  }

  lemma PutFaults(s: State, t: State, va: Va, e: Pte)
    requires Tables(s) && Faults(s) && Counts(s) && Put(s, t, va, e) && MayPut(s, va, e)
    ensures Faults(t)
  {
    forall k | k in t.faults && t.faults[k].Reading?
      ensures t.faults[k].page < |s.pages| ==> t.pages[t.faults[k].page] == s.pages[t.faults[k].page]
    {
      var w := Va(k, s.faults[k].vp);
      assert FaultOk(s, k, s.faults[k], w);
      assert BeingRead(s, s.faults[k].page);
      if Names(Entry(s.pte, va), s.faults[k].page) {
        TwoRefs(s, va, w);
      }
    }
    FaultsFrame(s, t);
  }

  lemma PutPrivate(s: State, t: State, va: Va, e: Pte)
    requires Tables(s) && Counts(s) && Private(s) && Put(s, t, va, e) && MayPut(s, va, e)
    ensures Private(t)
  {
    forall w | w in t.pte && t.pte[w].Present? && t.pte[w].rw && t.pte[w].page < |t.pages|
      ensures !t.pte[w].busy && PrivatePage(t.pages[t.pte[w].page])
    {
      assert Entry(t.pte, w) == t.pte[w];
      assert w != va && w in s.pte && s.pte[w] == t.pte[w];
      assert PrivatePage(s.pages[s.pte[w].page]);
      if Names(Entry(s.pte, va), s.pte[w].page) { TwoRefs(s, va, w); }
    }
  }

  /** Everything but the free list and the swap counts survives such a change. */
  lemma PutKeeps(s: State, t: State, va: Va, e: Pte)
    requires Inv(s) && Put(s, t, va, e) && MayPut(s, va, e)
    requires FreeList(t) && SwapCounts(t)
    ensures Inv(t)
  {
    PutRefs(s, t, va, e);
    PutFaults(s, t, va, e);
    PutPrivate(s, t, va, e);
    CacheFrame(s, t);
    forall p | 0 <= p < |s.pages| && BeingRead(s, p) ensures BeingRead(t, p) { ReadFrame(s, t, p); }
  }

  // ------------------------------------------------- giving up an entry

  ghost predicate CanDrop(s: State, va: Va) {
    va.vp < s.nv && (FaultAt(s.faults, va) ==> s.faults[va.kpid].Copying?)
  }

  /** The entry va is cleared and its page or block released; a copy fault on it is over. */
  ghost function Drop(s: State, va: Va): State
    requires Tables(s) && Counts(s) && SwapCounts(s)
  {
    var t := s.(pte := s.pte - {va}, faults := Settle(s.faults, va));
    match Entry(s.pte, va)
    case Present(p, _, _) => EntryHoldsPage(s, va); Release(t, p)
    case Absent(None) => t
    case Absent(Some(File(_, _))) => t
    case Absent(Some(Swap(d, b))) => EntryHoldsBlock(s, va); ReleaseBlock(t, d, b)
  }

  lemma DropSwap(s: State, va: Va)
    requires Inv(s) && CanDrop(s, va)
    ensures SwapCounts(Drop(s, va))
  {
    var t := Drop(s, va);
    var e := Entry(s.pte, va);
    forall d: nat, b: nat
      ensures Users(t, Swap(d, b)) == Users(s, Swap(d, b)) - One(e == Absent(Some(Swap(d, b))))
    {
      OwnersPut(s.pte, t.pte, va, Absent(None), Swap(d, b));
      LoadersDrop(s.faults, va.kpid, Swap(d, b));
    }
    if e.Absent? && e.src.Some? && e.src.value.Swap? {
      EntryHoldsBlock(s, va);
      assert DevOk(s, e.src.value.dev);
      DevsPut(s, t, e.src.value.dev, e.src.value.block);
    } else {
      DevsFrame(s, t);
    }
  }

  lemma DropPut(s: State, va: Va)
    requires Tables(s) && Counts(s) && SwapCounts(s) && CanDrop(s, va)
    ensures Put(s, Drop(s, va), va, Absent(None))
  {
  }

  lemma DropFree(s: State, va: Va)
    requires Tables(s) && Counts(s) && SwapCounts(s) && FreeList(s)
    ensures FreeList(Drop(s, va))
  {
  }

  lemma DropKeeps(s: State, va: Va)
    requires Inv(s) && CanDrop(s, va)
    ensures Inv(Drop(s, va))
  {
    DropSwap(s, va);
    DropPut(s, va);
    DropFree(s, va);
    PutKeeps(s, Drop(s, va), va, Absent(None));
  }

  // ------------------------------------------------- naming a page or a block

  /** A free entry comes to name the page p, read-only. */
  ghost function AddPage(s: State, va: Va, p: nat): State
    requires p < |s.pages|
  {
    s.(pages := s.pages[p := s.pages[p].(count := s.pages[p].count + 1)],
       free := Without(s.free, p),
       pte := s.pte[va := Present(p, false, false)])
  }

  ghost predicate CanAdd(s: State, va: Va, e: Pte) {
    !FaultAt(s.faults, va) && va !in s.pte && MayPut(s, va, e)
  }

  lemma AddPageKeeps(s: State, va: Va, p: nat)
    requires Inv(s) && CanAdd(s, va, Present(p, false, false))
    ensures Inv(AddPage(s, va, p))
  {
    var t := AddPage(s, va, p);
    WithoutIs(s.free, p);
    assert FreeList(t) by {
      forall i | 0 <= i < |t.free| ensures t.free[i] < |t.pages| { assert t.free[i] in t.free; }
    }
    forall d: nat, b: nat ensures Users(t, Swap(d, b)) == Users(s, Swap(d, b)) {
      OwnersPut(s.pte, t.pte, va, t.pte[va], Swap(d, b));
    }
    DevsFrame(s, t);
    PutKeeps(s, t, va, t.pte[va]);
  }

  /** A free entry comes to name the contents src, taking a reference to a swap block. */
  ghost function AddAbsent(s: State, va: Va, src: Option<Loc>): State
    requires ValidSrc(s, src)
  {
    var t := s.(pte := s.pte[va := Absent(src)]);
    if src.Some? && src.value.Swap? then HoldBlock(t, src.value.dev, src.value.block) else t
  }

  lemma AddAbsentSwap(s: State, va: Va, src: Option<Loc>)
    requires SwapCounts(s) && CanAdd(s, va, Absent(src))
    ensures SwapCounts(AddAbsent(s, va, src))
  {
    var t := AddAbsent(s, va, src);
    forall d: nat, b: nat
      ensures Users(t, Swap(d, b)) == Users(s, Swap(d, b)) + One(src == Some(Swap(d, b)))
    {
      OwnersPut(s.pte, t.pte, va, Absent(src), Swap(d, b));
    }
    if src.Some? && src.value.Swap? {
      assert DevOk(s, src.value.dev);
      DevsPut(s, t, src.value.dev, src.value.block);
    } else {
      DevsFrame(s, t);
    }
  }

  lemma AddAbsentKeeps(s: State, va: Va, src: Option<Loc>)
    requires Inv(s) && CanAdd(s, va, Absent(src))
    ensures Inv(AddAbsent(s, va, src))
  {
    AddAbsentSwap(s, va, src);
    PutKeeps(s, AddAbsent(s, va, src), va, Absent(src));
  }

  /** The entry loses its write permission. */
  ghost function MakeReadOnly(s: State, va: Va): State
    requires va in s.pte && s.pte[va].Present?
  {
    s.(pte := s.pte[va := Present(s.pte[va].page, false, false)])
  }

  lemma MakeReadOnlyKeeps(s: State, va: Va)
    requires Inv(s) && va in s.pte && s.pte[va].Present? && !FaultAt(s.faults, va)
    ensures Inv(MakeReadOnly(s, va)) && MayPut(s, va, Present(s.pte[va].page, false, false))
  {
    var t := MakeReadOnly(s, va);
    var p := s.pte[va].page;
    EntryHoldsPage(s, va);
    forall d: nat, b: nat ensures Users(t, Swap(d, b)) == Users(s, Swap(d, b)) {
      OwnersPut(s.pte, t.pte, va, t.pte[va], Swap(d, b));
    }
    DevsFrame(s, t);
    forall w | w in s.pte && w != va && s.pte[w].Present? && s.pte[w].rw ensures s.pte[w].page != p {
      assert PrivatePage(s.pages[s.pte[w].page]);
      if s.pte[w].page == p { TwoRefs(s, va, w); }
    }
    assert !BeingRead(s, p) by {
      if BeingRead(s, p) {
        var k :| k in s.faults && s.faults[k].Reading? && s.faults[k].page == p;
        assert FaultOk(s, k, s.faults[k], Va(k, s.faults[k].vp));
        TwoRefs(s, va, Va(k, s.faults[k].vp));
      }
    }
    PutKeeps(s, t, va, t.pte[va]);
  }
}
