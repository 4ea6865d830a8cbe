/** The tables of the demand-paging code (vm/mm.c, vm/swap.c, kernel/fork.c) as one value,
    and every step the paging code takes between two points where it may sleep. */
module VmModel {

  datatype Option<+T> = None | Some(value: T)

  /** The contents of one page or of one block of PAGE_SIZE bytes. */
  type Contents = seq<int>

  const PAGE_SIZE := 4096

  function ZeroPage(): Contents {
    seq(PAGE_SIZE, _ => 0)
  }

  /** A (vmdev, block) pair with a nonzero block.  A swap device is named by its index in
      sdt[], which is what vmdev_aux() yields; any other vmdev is a mounted file system. */
  datatype Loc = Swap(dev: nat, block: nat) | File(vmdev: nat, block: nat)

  /** pgdata_t.type: PAGE_DZ, PAGE_FILE, PAGE_SWAP. */
  datatype Kind = DemandZero | FromFile | FromSwap

  /** The virtual page vp of the process kpid. */
  datatype Va = Va(kpid: nat, vp: nat)

  /** A page table entry.  An absent entry carries the (vmdev, block) of its contents, or
      nothing (block 0) when the page is to be filled with zeros; a file location means
      PAGE_FILE and a swap location PAGE_SWAP. */
  datatype Pte = Present(page: nat, rw: bool, busy: bool) | Absent(src: Option<Loc>)

  /** pgdata_t: key is (vmdev, block) when block is nonzero, hashed is hnext != 0xFFFF, and
      data is what the physical page holds. */
  datatype Page = Page(count: nat, key: Option<Loc>, kind: Kind, hashed: bool, data: Contents)

  /** swap_t, with the blocks of the device behind it. */
  datatype Dev = Dev(bitmap: seq<nat>, free: int, latest: nat, store: seq<Contents>)

  /** Where a process sleeps inside a fault handler.  Waiting: in reserve_pages() with the
      block recorded in busyblock.  Reading: the page is allocated and being filled.
      Copying: in reserve_pages() on the way to a private copy. */
  datatype Fault =
    | Waiting(vp: nat, src: Option<Loc>)
    | Reading(vp: nat, page: nat, src: Option<Loc>)
    | Copying(vp: nat)

  datatype State = State(
    pages: seq<Page>,           // pgdata[]
    free: seq<nat>,             // the list headed by pgdata[0], first element first
    pte: map<Va, Pte>,          // all page tables; a missing key is a zero entry
    devs: seq<Dev>,             // sdt[]
    total: int,                 // total_free_swap_blocks
    file: Loc -> Contents,      // the blocks of the executable images
    faults: map<nat, Fault>,    // fault handlers in progress, by kpid
    saving: Option<nat>,        // the page save_page() is writing (current_pgd)
    nv: nat)                    // virtual pages in an address space

  // ---------------------------------------------------------------- page tables

  function Entry(pte: map<Va, Pte>, va: Va): Pte {
    if va in pte then pte[va] else Absent(None)
  }

  predicate Names(e: Pte, p: nat) {
    e.Present? && e.page == p
  }

  function RefsTo(pte: map<Va, Pte>, p: nat): set<Va> {
    set va | va in pte && Names(pte[va], p)
  }

  function Owners(pte: map<Va, Pte>, loc: Loc): set<Va> {
    set va | va in pte && pte[va] == Absent(Some(loc))
  }

  function Loaders(faults: map<nat, Fault>, loc: Loc): set<nat> {
    set k | k in faults && faults[k].Reading? && faults[k].src == Some(loc)
  }

  function KindOf(src: Option<Loc>): Kind {
    match src
    case None => DemandZero
    case Some(File(_, _)) => FromFile
    case Some(Swap(_, _)) => FromSwap
  }

  // ---------------------------------------------------------------- page frames

  /** pg_hash_search(): a page in the hash table with the given key, if any. */
  predicate InHash(pages: seq<Page>, p: nat, loc: Loc) {
    p < |pages| && pages[p].hashed && pages[p].key == Some(loc)
  }

  /** pg_hash_delete() followed by block = 0. */
  function Cut(pg: Page): Page {
    pg.(key := None, hashed := false)
  }

  /** release_page(). */
  function Release(s: State, p: nat): State
    requires p < |s.pages| && s.pages[p].count > 0
  {
    s.(pages := s.pages[p := s.pages[p].(count := s.pages[p].count - 1)],
       free := if s.pages[p].count == 1 then s.free + [p] else s.free)
  }

  /** get_page(): the first page of the free list. */
  function GetPage(s: State): State
    requires s.free != [] && s.free[0] < |s.pages|
  {
    var p := s.free[0];
    s.(pages := s.pages[p := Cut(s.pages[p]).(count := 1)], free := s.free[1..])
  }

  /** The loop of clear_free_list() over the free list. */
  function ClearPages(pages: seq<Page>, free: seq<nat>): (r: seq<Page>)
    ensures |r| == |pages|
    ensures forall p :: 0 <= p < |r| ==> r[p] == if p in free && pages[p].key.Some? then Cut(pages[p]) else pages[p]
  {
    seq(|pages|, p requires 0 <= p < |pages| => if p in free && pages[p].key.Some? then Cut(pages[p]) else pages[p])
  }

  // ---------------------------------------------------------------- swap blocks

  function SetCount(s: State, d: nat, b: nat, n: nat, free: int): State
    requires d < |s.devs| && b < |s.devs[d].bitmap|
  {
    s.(devs := s.devs[d := s.devs[d].(bitmap := s.devs[d].bitmap[b := n], free := s.devs[d].free + free)],
       total := s.total + free)
  }

  predicate ValidBlock(devs: seq<Dev>, d: nat, b: nat) {
    d < |devs| && 1 <= b < |devs[d].bitmap|
  }

  /** get_swap_block(sd, block) with a block. */
  function HoldBlock(s: State, d: nat, b: nat): State
    requires ValidBlock(s.devs, d, b)
  {
    var n := s.devs[d].bitmap[b];
    SetCount(s, d, b, n + 1, if n == 0 then -1 else 0)
  }

  /** release_swap_block(). */
  function ReleaseBlock(s: State, d: nat, b: nat): State
    requires ValidBlock(s.devs, d, b) && s.devs[d].bitmap[b] > 0
  {
    var n := s.devs[d].bitmap[b];
    SetCount(s, d, b, n - 1, if n == 1 then 1 else 0)
  }

  function FindZero(bitmap: seq<nat>, lo: nat, hi: nat): (b: nat)
    requires lo <= hi <= |bitmap|
    ensures lo <= b <= hi
    ensures b < hi ==> bitmap[b] == 0
    ensures forall i :: lo <= i < b ==> bitmap[i] != 0
    decreases hi - lo
  {
    if lo == hi then hi else if bitmap[lo] == 0 then lo else FindZero(bitmap, lo + 1, hi)
  }

  /** The search of get_swap_block(sd, 0): after latest first, then from 1 up to latest. */
  function NewBlock(dev: Dev): nat
    requires dev.latest < |dev.bitmap|
  {
    var b := FindZero(dev.bitmap, dev.latest + 1, |dev.bitmap|);
    if b < |dev.bitmap| then b else FindZero(dev.bitmap, 1, dev.latest + 1)
  }

  /** The search of swap_page(): the first device with a free block, |devs| if none has. */
  function FirstDev(devs: seq<Dev>, d: nat): (r: nat)
    requires d <= |devs|
    ensures d <= r <= |devs|
    ensures r < |devs| ==> |devs[r].bitmap| > 0 && devs[r].free != 0
    ensures forall i :: d <= i < r ==> |devs[i].bitmap| == 0 || devs[i].free == 0
    decreases |devs| - d
  {
    if d == |devs| then d
    else if |devs[d].bitmap| > 0 && devs[d].free != 0 then d
    else FirstDev(devs, d + 1)
  }

  /** The while loop of get_swap_block(): cuts the pages still associated with the block. */
  function CutStale(pages: seq<Page>, loc: Loc): (r: seq<Page>)
    ensures |r| == |pages|
    ensures forall p :: 0 <= p < |r| ==> r[p] == if InHash(pages, p, loc) then Cut(pages[p]) else pages[p]
  {
    seq(|pages|, p requires 0 <= p < |pages| => if InHash(pages, p, loc) then Cut(pages[p]) else pages[p])
  }

  /** get_swap_block(sd, 0), given the block b its search found. */
  function TakeBlock(s: State, d: nat, b: nat): State
    requires ValidBlock(s.devs, d, b)
  {
    var t := SetCount(s.(pages := CutStale(s.pages, Swap(d, b))), d, b, 1, -1);
    t.(devs := t.devs[d := t.devs[d].(latest := b)])
  }
}
