/** What every reachable state of the paging tables satisfies. */
module VmInvariant {
  import opened VmModel

  function ZeroBlocks(bitmap: seq<nat>): set<nat> {
    set b: nat | 1 <= b < |bitmap| && bitmap[b] == 0
  }

  function SumFree(devs: seq<Dev>): int {
    if devs == [] then 0 else devs[0].free + SumFree(devs[1..])
  }

  /** The reference save_page() holds while its write is in flight. */
  function Saving(s: State, p: nat): nat {
    if s.saving == Some(p) then 1 else 0
  }

  predicate ValidSrc(s: State, src: Option<Loc>) {
    src.Some? && src.value.Swap? ==> ValidBlock(s.devs, src.value.dev, src.value.block)
  }

  /** Page table entries and fault handlers in progress agree. */
  ghost predicate Tables(s: State) {
    && (forall va :: va in s.pte ==> va.vp < s.nv)
    && (forall va :: va in s.pte && s.pte[va].Present? ==> s.pte[va].page < |s.pages|)
    && (forall va :: va in s.pte && s.pte[va].Absent? ==> ValidSrc(s, s.pte[va].src))
    && (forall va :: va in s.pte && s.pte[va].Present? && s.pte[va].busy ==>
          va.kpid in s.faults && s.faults[va.kpid].vp == va.vp && !s.faults[va.kpid].Waiting?)
  }

  ghost predicate FaultOk(s: State, k: nat, f: Fault, va: Va) {
    && f.vp < s.nv
    && match f
       case Waiting(_, src) => Entry(s.pte, va) == Absent(src)
       case Reading(_, p, src) =>
         && Entry(s.pte, va) == Present(p, false, true)
         && p < |s.pages| && s.pages[p].count == 1 && s.pages[p].key == src
         && s.pages[p].kind == KindOf(src) && !s.pages[p].hashed && ValidSrc(s, src)
       case Copying(_) => va in s.pte && s.pte[va].Present? && s.pte[va].busy && !s.pte[va].rw
  }

  ghost predicate Faults(s: State) {
    forall k :: k in s.faults ==> FaultOk(s, k, s.faults[k], Va(k, s.faults[k].vp))
  }

  /** Reference-count exactness for pages. */
  ghost predicate Counts(s: State) {
    forall p :: 0 <= p < |s.pages| ==> s.pages[p].count == |RefsTo(s.pte, p)| + Saving(s, p)
  }

  ghost predicate FreeList(s: State) {
    && (forall i :: 0 <= i < |s.free| ==> s.free[i] < |s.pages|)
    && (forall i, j :: 0 <= i < j < |s.free| ==> s.free[i] != s.free[j])
    && (forall p :: 0 <= p < |s.pages| ==> (p in s.free <==> s.pages[p].count == 0))
  }

  /** Absent entries naming a block, and fault handlers reading it. */
  function Users(s: State, loc: Loc): nat {
    |Owners(s.pte, loc)| + |Loaders(s.faults, loc)|
  }

  /** Reference-count exactness for the blocks of one swap device. */
  ghost predicate DevOk(s: State, d: nat)
    requires d < |s.devs|
  {
    && |s.devs[d].store| == |s.devs[d].bitmap|
    && (s.devs[d].bitmap != [] ==> s.devs[d].latest < |s.devs[d].bitmap|)
    && s.devs[d].free == |ZeroBlocks(s.devs[d].bitmap)|
    && forall b :: 1 <= b < |s.devs[d].bitmap| ==> s.devs[d].bitmap[b] == Users(s, Swap(d, b))
  }

  ghost predicate SwapCounts(s: State) {
    && s.total == SumFree(s.devs)
    && forall d :: 0 <= d < |s.devs| ==> DevOk(s, d)
  }

  /** The contents of a block.  A block save_page() is writing is still in the page. */
  function Block(s: State, loc: Loc): Contents {
    match loc
    case File(_, _) => s.file(loc)
    case Swap(d, b) =>
      if s.saving.Some? && s.saving.value < |s.pages| && s.pages[s.saving.value].key == Some(loc)
      then s.pages[s.saving.value].data
      else if d < |s.devs| && b < |s.devs[d].store| then s.devs[d].store[b]
      else ZeroPage()
  }

  function Source(s: State, src: Option<Loc>): Contents {
    if src.None? then ZeroPage() else Block(s, src.value)
  }

  /** No two hashed pages share a key, and a page with a key is hashed unless it is being read. */
  ghost predicate Hash(s: State) {
    && (forall p, q | 0 <= p < |s.pages| && 0 <= q < |s.pages| && s.pages[p].hashed && s.pages[q].hashed
          :: s.pages[p].key == s.pages[q].key ==> p == q)
    && (forall p :: 0 <= p < |s.pages| && s.pages[p].hashed ==> s.pages[p].key.Some? && ValidSrc(s, s.pages[p].key))
    && (forall p :: 0 <= p < |s.pages| && !s.pages[p].hashed && s.pages[p].key.Some? ==> BeingRead(s, p))
  }

  ghost predicate BeingRead(s: State, p: nat) {
    exists k :: k in s.faults && s.faults[k].Reading? && s.faults[k].page == p
  }

  /** A block recorded in a busyblock is recorded once and is not in the hash table. */
  ghost predicate Exclusive(s: State) {
    && (forall k, l | k in s.faults && l in s.faults && k != l && !s.faults[k].Copying? && !s.faults[l].Copying?
          :: s.faults[k].src.Some? ==> s.faults[k].src != s.faults[l].src)
    && (forall k, p | k in s.faults && !s.faults[k].Copying? && s.faults[k].src.Some? && 0 <= p < |s.pages|
          :: s.pages[p].hashed ==> s.pages[p].key != s.faults[k].src)
  }

  /** Page-cache truth: a hashed page holds what its block holds. */
  ghost predicate Truth(s: State) {
    forall p :: 0 <= p < |s.pages| && s.pages[p].hashed && s.pages[p].key.Some? ==>
      s.pages[p].data == Block(s, s.pages[p].key.value)
  }

  /** A writable page has one user and no block. */
  ghost predicate Private(s: State) {
    forall va | va in s.pte && s.pte[va].Present? && s.pte[va].rw && s.pte[va].page < |s.pages| ::
      !s.pte[va].busy && PrivatePage(s.pages[s.pte[va].page])
  }

  predicate PrivatePage(pg: Page) {
    pg.count == 1 && pg.key.None? && pg.kind == FromSwap
  }

  /** The type of a page in use agrees with its key, and an untouched demand-zero page is zero. */
  ghost predicate Kinds(s: State) {
    forall p | 0 <= p < |s.pages| :: KindOk(s.pages[p]) && (IdleZero(s.pages[p]) ==> BeingRead(s, p))
  }

  predicate KindOk(pg: Page) {
    && (pg.key.Some? ==> pg.kind == KindOf(pg.key))
    && (pg.count > 0 && pg.kind == FromFile ==> pg.key.Some?)
  }

  predicate IdleZero(pg: Page) {
    pg.count > 0 && pg.kind == DemandZero && pg.data != ZeroPage()
  }

  ghost predicate Saver(s: State) {
    s.saving.Some? ==> s.saving.value < |s.pages| && SavedPage(s.pages[s.saving.value])
  }

  predicate SavedPage(pg: Page) {
    pg.hashed && pg.key.Some? && pg.key.value.Swap? && pg.count > 0
  }

  ghost predicate Inv(s: State) {
    && Tables(s) && Faults(s) && Counts(s) && FreeList(s) && SwapCounts(s)
    && Hash(s) && Exclusive(s) && Truth(s) && Private(s) && Kinds(s) && Saver(s)
  }
}
