/** The atomic steps of the fault handlers, fork, unmapping and the swapper.  Each step is the
    code between two points where a process may sleep. */
module VmSteps {
  import opened Rings
  import opened VmModel
  import opened VmInvariant

  /** block_is_loading(): some process has recorded the block in its busyblock. */
  predicate Loading(faults: map<nat, Fault>, loc: Loc) {
    exists k :: k in faults && !faults[k].Copying? && faults[k].src == Some(loc)
  }

  function HashSearch(pages: seq<Page>, loc: Loc, i: nat): (p: nat)
    requires i <= |pages|
    ensures i <= p <= |pages|
    ensures p < |pages| ==> InHash(pages, p, loc)
    ensures forall j :: i <= j < p ==> !InHash(pages, j, loc)
    decreases |pages| - i
  {
    if i == |pages| || InHash(pages, i, loc) then i else HashSearch(pages, loc, i + 1)
  }

  ghost predicate Cached(pages: seq<Page>, loc: Loc) {
    exists p :: InHash(pages, p, loc)
  }

  // ------------------------------------------------- what a reference guarantees

  /** A page table entry naming a page holds one of the page's references. */
  lemma EntryHoldsPage(s: State, va: Va)
    requires Tables(s) && Counts(s) && va in s.pte && s.pte[va].Present?
    ensures s.pages[s.pte[va].page].count > 0
  {
    assert va in RefsTo(s.pte, s.pte[va].page);
  }

  /** A page table entry naming a swap block holds one of the block's references. */
  lemma EntryHoldsBlock(s: State, va: Va)
    requires Tables(s) && SwapCounts(s) && va in s.pte && s.pte[va].Absent?
    requires s.pte[va].src.Some? && s.pte[va].src.value.Swap?
    ensures ValidBlock(s.devs, s.pte[va].src.value.dev, s.pte[va].src.value.block)
    ensures s.devs[s.pte[va].src.value.dev].bitmap[s.pte[va].src.value.block] > 0
  {
    assert ValidSrc(s, s.pte[va].src);
    assert DevOk(s, s.pte[va].src.value.dev);
    assert va in Owners(s.pte, s.pte[va].src.value);
  }

  /** So does a fault handler that is reading the block. */
  lemma LoaderHoldsBlock(s: State, k: nat)
    requires Faults(s) && SwapCounts(s) && k in s.faults && s.faults[k].Reading?
    requires s.faults[k].src.Some? && s.faults[k].src.value.Swap?
    ensures ValidBlock(s.devs, s.faults[k].src.value.dev, s.faults[k].src.value.block)
    ensures s.devs[s.faults[k].src.value.dev].bitmap[s.faults[k].src.value.block] > 0
  {
    assert FaultOk(s, k, s.faults[k], Va(k, s.faults[k].vp));
    assert DevOk(s, s.faults[k].src.value.dev);
    assert k in Loaders(s.faults, s.faults[k].src.value);
  }

  /** What an entry names has a reference. */
  predicate Held(s: State, e: Pte) {
    match e
    case Present(p, _, _) => p < |s.pages| && s.pages[p].count > 0
    case Absent(Some(Swap(d, b))) => ValidBlock(s.devs, d, b) && s.devs[d].bitmap[b] > 0
    case Absent(_) => true
  }

  /** The swap block of a source is given back, if it is one. */
  function GiveBack(s: State, src: Option<Loc>): State
    requires Held(s, Absent(src))
  {
    match src
    case Some(Swap(d, b)) => ReleaseBlock(s, d, b)
    case _ => s
  }

  lemma EntryIsHeld(s: State, va: Va)
    requires Tables(s) && Counts(s) && SwapCounts(s)
    ensures Held(s, Entry(s.pte, va))
  {
    match Entry(s.pte, va)
    case Present(_, _, _) => EntryHoldsPage(s, va);
    case Absent(Some(Swap(_, _))) => EntryHoldsBlock(s, va);
    case Absent(_) =>
  }

  lemma ReaderHolds(s: State, k: nat)
    requires Faults(s) && SwapCounts(s) && k in s.faults && s.faults[k].Reading?
    ensures Held(s, Absent(s.faults[k].src))
  {
    if s.faults[k].src.Some? && s.faults[k].src.value.Swap? { LoaderHoldsBlock(s, k); }
  }

  lemma {:induction false} SomeDeviceHasFree(devs: seq<Dev>, i: nat)
    requires i <= |devs| && SumFree(devs[i..]) != 0
    ensures FirstDev(devs, i) < |devs| || exists j :: i <= j < |devs| && devs[j].bitmap == [] && devs[j].free != 0
    decreases |devs| - i
  {
    if i < |devs| {
      assert devs[i..][1..] == devs[i + 1..];
      if devs[i].free == 0 { SomeDeviceHasFree(devs, i + 1); }
    }
  }

  /** Neither swap_page() nor get_swap_block() can fail when total_free_swap_blocks is nonzero. */
  lemma FreeBlockFound(s: State)
    requires SwapCounts(s) && s.total != 0
    ensures FirstDev(s.devs, 0) < |s.devs|
    ensures var dev := s.devs[FirstDev(s.devs, 0)];
      dev.latest < |dev.bitmap| && 1 <= NewBlock(dev) < |dev.bitmap| && dev.bitmap[NewBlock(dev)] == 0
  {
    assert s.devs[0..] == s.devs;
    forall j | 0 <= j < |s.devs| && s.devs[j].bitmap == [] ensures s.devs[j].free == 0 {
      assert DevOk(s, j);
      assert ZeroBlocks(s.devs[j].bitmap) == {};
    }
    SomeDeviceHasFree(s.devs, 0);
    var d := FirstDev(s.devs, 0);
    assert DevOk(s, d);
    var dev := s.devs[d];
    assert ZeroBlocks(dev.bitmap) != {};
    var b :| b in ZeroBlocks(dev.bitmap);
  }

  // ------------------------------------------------- page_not_present_fault()

  ghost predicate CanHit(s: State, va: Va) {
    && va.kpid !in s.faults && va.vp < s.nv
    && Entry(s.pte, va).Absent? && Entry(s.pte, va).src.Some? && Cached(s.pages, Entry(s.pte, va).src.value)
  }

  /** The page is in the hash table: take it off the free list if it is there, share it
      read-only and give the swap block back. */
  ghost function DoHit(s: State, va: Va): State
    requires Inv(s) && CanHit(s, va)
  {
    EntryIsHeld(s, va);
    ShareHashed(s, va, HashSearch(s.pages, s.pte[va].src.value, 0))
  }

  function ShareHashed(s: State, va: Va, p: nat): State
    requires va in s.pte && s.pte[va].Absent? && s.pte[va].src.Some? && Held(s, s.pte[va]) && p < |s.pages|
  {
    var t := s.(pages := s.pages[p := s.pages[p].(count := s.pages[p].count + 1)],
                free := Without(s.free, p),
                pte := s.pte[va := Present(p, false, false)]);
    GiveBack(t, s.pte[va].src)
  }

  ghost predicate CanStart(s: State, va: Va) {
    && va.kpid !in s.faults && va.vp < s.nv
    && Entry(s.pte, va).Absent?
    && (Entry(s.pte, va).src.Some? ==>
          !Cached(s.pages, Entry(s.pte, va).src.value) && !Loading(s.faults, Entry(s.pte, va).src.value))
  }

  /** Nobody has the block: record it in busyblock and go and reserve a page. */
  ghost function DoStart(s: State, va: Va): State
    requires CanStart(s, va)
  {
    s.(faults := s.faults[va.kpid := Waiting(va.vp, Entry(s.pte, va).src)])
  }

  ghost predicate CanAllocate(s: State, k: nat) {
    k in s.faults && s.faults[k].Waiting? && s.free != []
  }

  /** reserve_pages() has returned: map a new page, busy, and start filling it. */
  ghost function DoAllocate(s: State, k: nat): State
    requires CanAllocate(s, k) && s.free[0] < |s.pages|
  {
    var f := s.faults[k];
    var p := s.free[0];
    var t := GetPage(s);
    t.(pages := t.pages[p := t.pages[p].(key := f.src, kind := KindOf(f.src))],
       pte := t.pte[Va(k, f.vp) := Present(p, false, true)],
       faults := t.faults[k := Reading(f.vp, p, f.src)])
  }

  ghost predicate CanFinish(s: State, k: nat) {
    k in s.faults && s.faults[k].Reading?
  }

  /** The page is filled: hash it, give the swap block back and clear busy. */
  ghost function DoFinish(s: State, k: nat): State
    requires Inv(s) && CanFinish(s, k)
  {
    assert FaultOk(s, k, s.faults[k], Va(k, s.faults[k].vp));
    ReaderHolds(s, k);
    FinishRead(s, k)
  }

  function FinishRead(s: State, k: nat): State
    requires k in s.faults && s.faults[k].Reading? && s.faults[k].page < |s.pages| && Held(s, Absent(s.faults[k].src))
  {
    var f := s.faults[k];
    var t := s.(pages := s.pages[f.page := s.pages[f.page].(data := Source(s, f.src), hashed := f.src.Some?)],
                pte := s.pte[Va(k, f.vp) := Present(f.page, false, false)],
                faults := s.faults - {k});
    GiveBack(t, f.src)
  }

  // ------------------------------------------------- page_protection_fault()

  /** A write to a page that is present and read-only. */
  ghost predicate WriteFault(s: State, va: Va) {
    va.kpid !in s.faults && va in s.pte && s.pte[va].Present? && !s.pte[va].rw
  }

  /** not_shared: the only user of the page makes it writable and cuts its association. */
  ghost function MakePrivate(s: State, va: Va): State
    requires va in s.pte && s.pte[va].Present? && s.pte[va].page < |s.pages|
  {
    var p := s.pte[va].page;
    s.(pages := s.pages[p := Cut(s.pages[p]).(kind := FromSwap)],
       pte := s.pte[va := Present(p, true, false)],
       faults := s.faults - {va.kpid})
  }

  ghost predicate CanUnshare(s: State, va: Va)
    requires Inv(s)
  {
    WriteFault(s, va) && s.pages[s.pte[va].page].count == 1
  }

  ghost predicate CanCopyStart(s: State, va: Va)
    requires Inv(s)
  {
    WriteFault(s, va) && s.pages[s.pte[va].page].count != 1
  }

  ghost function DoCopyStart(s: State, va: Va): State
    requires WriteFault(s, va)
  {
    s.(pte := s.pte[va := s.pte[va].(busy := true)], faults := s.faults[va.kpid := Copying(va.vp)])
  }

  ghost predicate CanCopyFinish(s: State, k: nat) {
    k in s.faults && s.faults[k].Copying? && s.free != []
  }

  /** reserve_pages() has returned: copy the page unless it is no longer shared. */
  ghost function DoCopyFinish(s: State, k: nat): State
    requires Inv(s) && CanCopyFinish(s, k)
  {
    var va := Va(k, s.faults[k].vp);
    assert FaultOk(s, k, s.faults[k], va);
    EntryIsHeld(s, va);
    FinishCopy(s, k, va)
  }

  ghost function FinishCopy(s: State, k: nat, va: Va): State
    requires CanCopyFinish(s, k) && va in s.pte && s.pte[va].Present? && Held(s, s.pte[va]) && s.free[0] < |s.pages|
    requires s.free[0] != s.pte[va].page
  {
    var o := s.pte[va].page;
    if s.pages[o].count == 1 then MakePrivate(s, va)
    else
      var p := s.free[0];
      var t := GetPage(s);
      t.(pages := t.pages[o := t.pages[o].(count := t.pages[o].count - 1)]
                         [p := t.pages[p].(kind := FromSwap, data := t.pages[o].data)],
         pte := t.pte[va := Present(p, true, false)],
         faults := s.faults - {k})
  }

  // ------------------------------------------------- user code, brk, exec, fork

  ghost predicate CanStore(s: State, va: Va) {
    va.kpid !in s.faults && va in s.pte && s.pte[va].Present? && s.pte[va].rw
  }

  ghost function DoStore(s: State, va: Va, data: Contents): State
    requires Inv(s) && CanStore(s, va)
  {
    var p := s.pte[va].page;
    s.(pages := s.pages[p := s.pages[p].(data := data)])
  }

  /** delete_page(). */
  ghost function DoUnmap(s: State, va: Va): State
    requires Inv(s) && va.kpid !in s.faults
  {
    EntryIsHeld(s, va);
    Unmapped(s, va)
  }

  function Unmapped(s: State, va: Va): State
    requires Held(s, Entry(s.pte, va))
  {
    var t := s.(pte := s.pte - {va});
    match Entry(s.pte, va)
    case Present(p, _, _) => Release(t, p)
    case Absent(src) => GiveBack(t, src)
  }

  ghost predicate CanMapFile(s: State, va: Va, loc: Loc) {
    va.kpid !in s.faults && va.vp < s.nv && va !in s.pte && loc.File?
  }

  /** One iteration of the exec() loop that fills in the entries of an executable image. */
  ghost function DoMapFile(s: State, va: Va, loc: Loc): State
    requires CanMapFile(s, va, loc)
  {
    s.(pte := s.pte[va := Absent(Some(loc))])
  }

  ghost predicate CanShare(s: State, parent: nat, child: nat, vp: nat) {
    && parent != child && parent !in s.faults && child !in s.faults
    && vp < s.nv && Va(child, vp) !in s.pte
  }

  /** One iteration of the fork loop: the child's entry is the parent's, read-only. */
  ghost function ShareOne(s: State, parent: nat, child: nat, vp: nat): State
    requires Inv(s) && CanShare(s, parent, child, vp)
  {
    EntryIsHeld(s, Va(parent, vp));
    ShareEntry(s, parent, child, vp)
  }

  function ShareEntry(s: State, parent: nat, child: nat, vp: nat): State
    requires Held(s, Entry(s.pte, Va(parent, vp)))
  {
    match Entry(s.pte, Va(parent, vp))
    case Present(p, _, busy) =>
      s.(pages := s.pages[p := s.pages[p].(count := s.pages[p].count + 1)],
         pte := s.pte[Va(parent, vp) := Present(p, false, busy)][Va(child, vp) := Present(p, false, busy)])
    case Absent(None) => s
    case Absent(Some(File(v, b))) => s.(pte := s.pte[Va(child, vp) := Absent(Some(File(v, b)))])
    case Absent(Some(Swap(d, b))) =>
      SetCount(s.(pte := s.pte[Va(child, vp) := Absent(Some(Swap(d, b)))]), d, b, s.devs[d].bitmap[b] + 1, 0)
  }

  // ------------------------------------------------- swapper()

  ghost predicate CanSwapOut(s: State, va: Va) {
    s.saving.None? && va in s.pte && s.pte[va].Present? && !s.pte[va].busy
  }

  /** The page is old enough: drop it when its contents can be had again, otherwise give it a
      swap block and start writing it; the reference of the entry is kept by save_page(). */
  ghost function DoSwapOut(s: State, va: Va): State
    requires Inv(s) && CanSwapOut(s, va)
  {
    MaySwapOut(s, va);
    SwapPageOut(s, va)
  }

  /** swap_page() and get_swap_block() find a block if total_free_swap_blocks is nonzero. */
  predicate BlockToSpare(s: State) {
    s.total != 0 ==>
      FirstDev(s.devs, 0) < |s.devs| && BlockOn(s.devs[FirstDev(s.devs, 0)])
  }

  predicate BlockOn(dev: Dev) {
    dev.latest < |dev.bitmap| && 1 <= NewBlock(dev) < |dev.bitmap| && dev.bitmap[NewBlock(dev)] == 0
  }

  predicate SwapReady(s: State, va: Va) {
    && va in s.pte && s.pte[va].Present? && Held(s, s.pte[va]) && BlockToSpare(s)
    && var pg := s.pages[s.pte[va].page];
       pg.kind == FromSwap && pg.key.Some? ==>
         pg.key.value.Swap? && ValidBlock(s.devs, pg.key.value.dev, pg.key.value.block)
  }

  lemma MaySwapOut(s: State, va: Va)
    requires Inv(s) && CanSwapOut(s, va)
    ensures SwapReady(s, va)
  {
    EntryIsHeld(s, va);
    if s.total != 0 { FreeBlockFound(s); }
    if s.pages[s.pte[va].page].key.Some? { SwapKeyValid(s, va); }
  }

  function SwapPageOut(s: State, va: Va): State
    requires SwapReady(s, va)
  {
    var p := s.pte[va].page;
    var pg := s.pages[p];
    if pg.kind != FromSwap then
      Release(s.(pte := s.pte[va := Absent(pg.key)]), p)
    else if pg.key.Some? then
      Release(HoldBlock(s, pg.key.value.dev, pg.key.value.block).(pte := s.pte[va := Absent(pg.key)]), p)
    else if s.total == 0 then s
    else SaveTo(s, va)
  }

  /** The page gets a new swap block, its entry names the block and the write starts. */
  function SaveTo(s: State, va: Va): State
    requires va in s.pte && s.pte[va].Present? && s.pte[va].page < |s.pages|
    requires FirstDev(s.devs, 0) < |s.devs| && BlockOn(s.devs[FirstDev(s.devs, 0)])
  {
    var p := s.pte[va].page;
    var d := FirstDev(s.devs, 0);
    var b := NewBlock(s.devs[d]);
    var t := TakeBlock(s, d, b);
    t.(pages := t.pages[p := t.pages[p].(key := Some(Swap(d, b)), hashed := true)],
       pte := t.pte[va := Absent(Some(Swap(d, b)))],
       saving := Some(p))
  }

  /** A page in use with a key that is not being read is hashed under a valid key of its kind. */
  lemma SwapKeyValid(s: State, va: Va)
    requires Inv(s) && va in s.pte && s.pte[va].Present? && !s.pte[va].busy
    requires s.pages[s.pte[va].page].key.Some?
    ensures s.pages[s.pte[va].page].hashed && ValidSrc(s, s.pages[s.pte[va].page].key)
    ensures s.pages[s.pte[va].page].kind == FromSwap ==> s.pages[s.pte[va].page].key.value.Swap?
  {
    var p := s.pte[va].page;
    if !s.pages[p].hashed {
      assert BeingRead(s, p);
      var k :| k in s.faults && s.faults[k].Reading? && s.faults[k].page == p;
      var w := Va(k, s.faults[k].vp);
      assert FaultOk(s, k, s.faults[k], w);
      assert {va, w} <= RefsTo(s.pte, p) && |{va, w}| == 2;
      CardinalityMonotonic({va, w}, RefsTo(s.pte, p));
    }
  }

  lemma {:induction false} CardinalityMonotonic<T>(a: set<T>, b: set<T>)
    requires a <= b
    ensures |a| <= |b|
  {
    assert b == a + (b - a);
  }

  ghost predicate CanSwapFinish(s: State) {
    s.saving.Some?
  }

  /** drv_write() has returned: the block holds the page; drop the swapper's reference. */
  ghost function DoSwapFinish(s: State): State
    requires Inv(s) && CanSwapFinish(s)
  {
    assert ValidSrc(s, s.pages[s.saving.value].key) && DevOk(s, s.pages[s.saving.value].key.value.dev);
    Saved(s)
  }

  predicate SaveReady(s: State) {
    && s.saving.Some? && s.saving.value < |s.pages|
    && var pg := s.pages[s.saving.value];
       && pg.count > 0 && pg.key.Some? && pg.key.value.Swap? && ValidBlock(s.devs, pg.key.value.dev, pg.key.value.block)
       && pg.key.value.block < |s.devs[pg.key.value.dev].store|
  }

  function Saved(s: State): State
    requires SaveReady(s)
  {
    var p := s.saving.value;
    var d, b := s.pages[p].key.value.dev, s.pages[p].key.value.block;
    var dev := s.devs[d].(store := s.devs[d].store[b := s.pages[p].data]);
    Release(s.(devs := s.devs[d := dev], saving := None), p)
  }

  /** clear_free_list(). */
  ghost function DoClear(s: State): State {
    s.(pages := ClearPages(s.pages, s.free))
  }
}
