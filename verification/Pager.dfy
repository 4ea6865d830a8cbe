/** The paging code as the kernel runs it (vm/mm.c, vm/swap.c, kernel/fork.c): page tables, page
    frames and swap tables changed in place.  A method is the code between two points where it
    may sleep. */
module Pager {
  import opened VmModel
  import opened VmInvariant
  import opened VmSteps
  import opened VmRuns
  import opened Frames

  /** How far page_not_present_fault() gets before it sleeps. */
  datatype Reply = Mapped | SleepOn(kpid: nat) | MustRead

  lemma FindZeroIs(bitmap: seq<nat>, lo: nat, b: nat, hi: nat)
    requires lo <= b <= hi <= |bitmap| && (b < hi ==> bitmap[b] == 0)
    requires forall i :: lo <= i < b ==> bitmap[i] != 0
    ensures FindZero(bitmap, lo, hi) == b
  {
  }

  lemma FirstDevIs(devs: seq<Dev>, d: nat)
    requires d <= |devs| && (d < |devs| ==> |devs[d].bitmap| > 0 && devs[d].free != 0)
    requires forall i :: 0 <= i < d ==> |devs[i].bitmap| == 0 || devs[i].free == 0
    ensures FirstDev(devs, 0) == d
  {
  }

  /** A device with no block in use. */
  function Unused(store: seq<Contents>): Dev {
    Dev(seq(|store|, _ => 0), |store| - 1, 0, store)
  }

  lemma {:induction false} SumFreeNext(devs: seq<Dev>, dev: Dev)
    ensures SumFree(devs + [dev]) == SumFree(devs) + dev.free
  {
    if devs != [] {
      assert (devs + [dev])[1..] == devs[1..] + [dev];
      SumFreeNext(devs[1..], dev);
    }
  }

  class Pager {
    const frames: Frames        // pgdata[]
    const sdt: array<Dev>       // sdt[]
    const processes: nat        // SYSTEM_PROCESS_MAX
    const nv: nat
    const file: Loc -> Contents
    var total: int              // total_free_swap_blocks
    var pte: map<Va, Pte>
    var faults: map<nat, Fault> // busyblock, and the handlers asleep
    var saving: Option<nat>     // current_pgd

    ghost predicate Valid()
      reads this, sdt, frames.Repr()
    {
      && frames.Valid() && sdt as object !in frames.Repr()
      && forall k :: k in faults ==> 1 <= k < processes
    }

    ghost function Abs(): State
      requires frames.pgd.Length <= frames.cache.links.next.Length && frames.list.N in frames.list.links.rings
      reads this, sdt, frames.pgd, frames.cache.links.next, frames.list.links
    {
      State(frames.Pages(), frames.Free(), pte, sdt[..], total, file, faults, saving, nv)
    }

    /** pg_init(), the release of all pages and a sys_swapon() for each device. */
    constructor (n: nat, vmdevs: seq<nat>, stores: seq<seq<Contents>>, np: nat, pages: nat, images: Loc -> Contents)
      requires n + PageLists.BUCKETS <= PageLists.USED
      requires forall d :: 0 <= d < |stores| ==> stores[d] != []
      ensures Valid() && Boot(Abs()) && fresh(sdt) && fresh(frames.Repr())
      ensures |Abs().pages| == n && nv == pages && processes == np && file == images
      ensures |Abs().devs| == |stores| && forall d :: 0 <= d < |stores| ==> sdt[d].store == stores[d]
    {
      frames := new Frames(n, vmdevs);
      sdt := new Dev[|stores|](d requires 0 <= d < |stores| => Unused(stores[d]));
      processes, nv, file := np, pages, images;
      total, pte, faults, saving := 0, map[], map[], None;
      new;
      SwapOn();
      assert forall p: nat :: p < n ==> Abs().free[p] == p && Abs().pages[p].count == 0;
    }

    /** The count of sys_swapon(), over all devices. */
    method SwapOn()
      requires Valid() && total == 0
      modifies this`total
      ensures Valid() && total == SumFree(sdt[..]) && Abs() == old(Abs()).(total := total)
    {
      var d := 0;
      while d < sdt.Length
        invariant d <= sdt.Length && Valid() && total == SumFree(sdt[..d])
      {
        total := total + sdt[d].free;
        SumFreeNext(sdt[..d], sdt[d]);
        assert sdt[..d + 1] == sdt[..d] + [sdt[d]];
        d := d + 1;
      }
      assert sdt[..d] == sdt[..];
    }

    // ----------------------------------------------- swap blocks

    /** get_swap_block(sd, block) with a block. */
    method GetSwapBlock(d: nat, b: nat)
      requires Valid() && ValidBlock(sdt[..], d, b)
      modifies this`total, sdt
      ensures Valid() && Abs() == HoldBlock(old(Abs()), d, b)
    {
      var n := sdt[d].bitmap[b];
      if n == 0 {
        sdt[d] := sdt[d].(free := sdt[d].free - 1);
        total := total - 1;
      }
      sdt[d] := sdt[d].(bitmap := sdt[d].bitmap[b := n + 1]);
    }

    /** release_swap_block(). */
    method ReleaseSwapBlock(d: nat, b: nat)
      requires Valid() && ValidBlock(sdt[..], d, b) && sdt[d].bitmap[b] > 0
      modifies this`total, sdt
      ensures Valid() && Abs() == ReleaseBlock(old(Abs()), d, b)
    {
      var n := sdt[d].bitmap[b] - 1;
      sdt[d] := sdt[d].(bitmap := sdt[d].bitmap[b := n]);
      if n == 0 {
        sdt[d] := sdt[d].(free := sdt[d].free + 1);
        total := total + 1;
      }
    }

    /** The two searching loops of get_swap_block(sd, 0). */
    method SearchBlock(d: nat) returns (b: nat)
      requires d < sdt.Length && sdt[d].latest < |sdt[d].bitmap| && NewBlock(sdt[d]) < |sdt[d].bitmap|
      requires sdt[d].bitmap[NewBlock(sdt[d])] == 0
      ensures b == NewBlock(sdt[d])
    {
      ghost var bitmap, latest := sdt[d].bitmap, sdt[d].latest;
      b := sdt[d].latest + 1;
      while b < |sdt[d].bitmap|
        invariant latest + 1 <= b <= |bitmap| && forall i :: latest + 1 <= i < b ==> bitmap[i] != 0
      {
        if sdt[d].bitmap[b] == 0 {
          FindZeroIs(bitmap, latest + 1, b, |bitmap|);
          return;
        }
        b := b + 1;
      }
      FindZeroIs(bitmap, latest + 1, b, |bitmap|);
      b := 1;
      while b <= sdt[d].latest
        invariant 1 <= b <= latest + 1 && forall i :: 1 <= i < b ==> bitmap[i] != 0
      {
        if sdt[d].bitmap[b] == 0 {
          FindZeroIs(bitmap, 1, b, latest + 1);
          return;
        }
        b := b + 1;
      }
      assert false;
    }

    /** The device swap_page() picks. */
    method SearchDevice() returns (d: nat)
      requires FirstDev(sdt[..], 0) < sdt.Length
      ensures d == FirstDev(sdt[..], 0)
    {
      d := 0;
      while d < sdt.Length
        invariant d <= sdt.Length && forall i :: 0 <= i < d ==> |sdt[i].bitmap| == 0 || sdt[i].free == 0
      {
        if |sdt[d].bitmap| != 0 && sdt[d].free != 0 {
          FirstDevIs(sdt[..], d);
          return;
        }
        d := d + 1;
      }
      assert false;
    }

    /** The last loop of get_swap_block(sd, 0): no page stays associated with the block. */
    method CutStalePages(loc: Loc)
      requires Valid() && Unique(Abs().pages)
      modifies frames.Repr()
      ensures Valid() && Abs() == old(Abs()).(pages := CutStale(old(Abs()).pages, loc))
    {
      ghost var pages := Abs().pages;
      var p := frames.Search(loc);
      while p.Some?
        invariant Valid() && Abs() == old(Abs()).(pages := Abs().pages)
        invariant p.Some? ==> InHash(Abs().pages, p.value, loc) && Abs().pages == pages
        invariant p.None? ==> Abs().pages == CutStale(pages, loc)
        decreases p.Some?
      {
        frames.CutPage(p.value);
        p := frames.Search(loc);
      }
    }

    /** get_swap_block(sd, 0). */
    method NewSwapBlock(d: nat) returns (b: nat)
      requires Valid() && Unique(Abs().pages) && d < sdt.Length && BlockOn(sdt[d])
      modifies this`total, sdt, frames.Repr()
      ensures Valid() && b == old(NewBlock(sdt[d])) && Abs() == TakeBlock(old(Abs()), d, b)
    {
      b := SearchBlock(d);
      CutStalePages(Swap(d, b));
      sdt[d] := sdt[d].(free := sdt[d].free - 1, latest := b, bitmap := sdt[d].bitmap[b := 1]);
      total := total - 1;
    }

    /** The call of release_swap_block() for a page or entry with a swap block. */
    method ReleaseSource(src: Option<Loc>)
      requires Valid() && Held(Abs(), Absent(src))
      modifies this`total, sdt
      ensures Valid() && Abs() == GiveBack(old(Abs()), src)
    {
      if src.Some? && src.value.Swap? { ReleaseSwapBlock(src.value.dev, src.value.block); }
    }

    /** The last part of both ends of page_not_present_fault(): the swap block is given back and
        the entry set. */
    method SetEntry(va: Va, e: Pte, src: Option<Loc>, left: map<nat, Fault>)
      requires Valid() && Held(Abs(), Absent(src)) && forall k :: k in left ==> 1 <= k < processes
      modifies this`total, this`pte, this`faults, sdt
      ensures Valid()
      ensures Abs() == GiveBack(old(Abs()).(pte := old(pte)[va := e], faults := left), src)
    {
      ghost var s := Abs();
      ReleaseSource(src);
      pte := pte[va := e];
      faults := left;
      GiveBackRest(s, Abs(), src);
    }

    // ----------------------------------------------- page_not_present_fault()

    /** block_is_loading(). */
    method BlockIsLoading(loc: Loc) returns (r: Option<nat>)
      requires Valid()
      ensures r.Some? <==> Loading(faults, loc)
      ensures r.Some? ==> r.value in faults && !faults[r.value].Copying? && faults[r.value].src == Some(loc)
    {
      var k := 1;
      while k < processes
        invariant 1 <= k && forall j :: 1 <= j < k && j in faults && !faults[j].Copying? ==> faults[j].src != Some(loc)
      {
        if k in faults && !faults[k].Copying? && faults[k].src == Some(loc) { return Some(k); }
        k := k + 1;
      }
      return None;
    }

    /** The page p of the page cache is shared. */
    method Share(va: Va, p: nat)
      requires Valid() && va in pte && pte[va].Absent? && pte[va].src.Some? && Held(Abs(), pte[va])
      requires p < frames.N && (p in Abs().free <==> Abs().pages[p].count == 0)
      modifies this, sdt, frames.Repr()
      ensures Valid() && Abs() == ShareHashed(old(Abs()), va, p)
    {
      frames.TakeHashed(p);
      SetEntry(va, Present(p, false, false), pte[va].src, faults);
    }

    /** The handler up to the point where it reserves a page or sleeps. */
    method PageNotPresentFault(va: Va) returns (r: Reply)
      requires Valid() && Inv(Abs()) && 1 <= va.kpid < processes && va.kpid !in faults && va.vp < nv
      requires Entry(pte, va).Absent?
      modifies this, sdt, frames.Repr()
      ensures Valid()
      ensures Replied(old(Abs()), va, r, Abs())
    {
      ghost var s := Abs();
      var src := if va in pte then pte[va].src else None;
      if src.Some? {
        var p := frames.Search(src.value);
        if p.Some? {
          HitFacts(s, va, p.value);
          Share(va, p.value);
          MappedReply(s, va, p.value);
          return Mapped;
        }
        assert !Cached(Abs().pages, src.value);
      }
      r := StartReading(va, src);
    }

    /** The block, if there is one, is in no page: the process sleeps if another one has it in its
        busyblock, and records it in its own if not. */
    method StartReading(va: Va, src: Option<Loc>) returns (r: Reply)
      requires Valid() && Inv(Abs()) && 1 <= va.kpid < processes && va.kpid !in faults && va.vp < nv
      requires Entry(pte, va) == Absent(src) && (src.Some? ==> !Cached(Abs().pages, src.value))
      modifies this`faults
      ensures Valid() && Replied(old(Abs()), va, r, Abs())
    {
      if src.Some? {
        var k := BlockIsLoading(src.value);
        if k.Some? { return SleepOn(k.value); }
      }
      faults := faults[va.kpid := Waiting(va.vp, src)];
      return MustRead;
    }

    /** get_page() and what the handler does to the page before it is filled. */
    method MapNewPage(k: nat)
      requires Valid() && k in faults && faults[k].Waiting? && HeadIsFree(Abs())
      modifies this, frames.Repr()
      ensures old(Abs()).free[0] < |old(Abs()).pages|
      ensures Valid() && Abs() == DoAllocate(old(Abs()), k)
    {
      var f := faults[k];
      var p := frames.NewPage(f.src, KindOf(f.src));
      pte := pte[Va(k, f.vp) := Present(p, false, true)];
      faults := faults[k := Reading(f.vp, p, f.src)];
    }

    /** reserve_pages() and get_page(): the process has a page to fill, or must sleep. */
    method AllocatePage(k: nat) returns (ok: bool)
      requires Valid() && Inv(Abs()) && k in faults && faults[k].Waiting?
      modifies this, frames.Repr()
      ensures Valid() && ok == Enabled(old(Abs()), FaultAllocate(k))
      ensures Abs() == if ok then Apply(old(Abs()), FaultAllocate(k)) else old(Abs())
    {
      var none := frames.NoneFree();
      if none { return false; }
      assert Abs().free[0] in Abs().free;
      MapNewPage(k);
      return true;
    }

    /** What fills the page: zeros, a_out_read() or load_page(). */
    method Fetch(src: Option<Loc>) returns (data: Contents)
      requires Valid() && Held(Abs(), Absent(src))
      requires saving.Some? ==> saving.value < frames.N
      requires src.Some? && src.value.Swap? ==> src.value.block < |sdt[src.value.dev].store|
      ensures data == Source(Abs(), src)
    {
      match src
      case None => data := ZeroPage();
      case Some(File(v, b)) => data := file(File(v, b));
      case Some(Swap(d, b)) =>
        if saving.Some? && frames.pgd[saving.value].key == src {
          data := frames.pgd[saving.value].data;
        } else {
          data := sdt[d].store[b];
        }
    }

    /** The page of the process k is filled, and enters the page cache if it has a block. */
    method Fill(k: nat)
      requires Valid() && k in faults && faults[k].Reading? && faults[k].page < frames.N
      requires Held(Abs(), Absent(faults[k].src))
      requires Abs().pages[faults[k].page].key == faults[k].src && !Abs().pages[faults[k].page].hashed
      requires saving.Some? ==> saving.value < frames.N
      requires var src := faults[k].src; src.Some? && src.value.Swap? ==> src.value.block < |sdt[src.value.dev].store|
      modifies this, sdt, frames.Repr()
      ensures Valid() && Abs() == FinishRead(old(Abs()), k)
    {
      var f := faults[k];
      var data := Fetch(f.src);
      frames.Loaded(f.page, data);
      SetEntry(Va(k, f.vp), Present(f.page, false, false), f.src, faults - {k});
    }

    /** The end of page_not_present_fault(). */
    method FinishFault(k: nat)
      requires Valid() && Inv(Abs()) && k in faults && faults[k].Reading?
      modifies this, sdt, frames.Repr()
      ensures Valid() && Abs() == Apply(old(Abs()), FaultFinish(k))
    {
      ReadFacts(Abs(), k);
      Fill(k);
    }

    // ----------------------------------------------- page_protection_fault()

    /** not_shared: the page becomes the process's own. */
    method Unshare(va: Va)
      requires Valid() && va in pte && pte[va].Present? && pte[va].page < frames.N
      modifies this`pte, this`faults, frames.Repr()
      ensures Valid() && Abs() == MakePrivate(old(Abs()), va)
    {
      var p := pte[va].page;
      frames.CutPage(p);
      frames.Describe(p, frames.pgd[p].(kind := FromSwap));
      pte := pte[va := Present(p, true, false)];
      faults := faults - {va.kpid};
    }

    /** The handler up to the point where it reserves a page: the page is the process's own, or
        it is to be copied. */
    method PageProtectionFault(va: Va) returns (own: bool)
      requires Valid() && Inv(Abs()) && 1 <= va.kpid < processes && WriteFault(Abs(), va)
      modifies this`pte, this`faults, frames.Repr()
      ensures Valid()
      ensures own ==> Enabled(old(Abs()), VmRuns.Unshare(va)) && Abs() == Apply(old(Abs()), VmRuns.Unshare(va))
      ensures !own ==> Enabled(old(Abs()), CopyStart(va)) && Abs() == Apply(old(Abs()), CopyStart(va))
    {
      if frames.pgd[pte[va].page].count == 1 {
        Unshare(va);
        return true;
      }
      pte := pte[va := pte[va].(busy := true)];
      faults := faults[va.kpid := Copying(va.vp)];
      return false;
    }

    /** The shared page o is copied into a new page of the process. */
    method Copy(va: Va, o: nat)
      requires Valid() && va in pte && pte[va].Present? && pte[va].page == o < frames.N && frames.pgd[o].count > 1
      requires HeadIsFree(Abs()) && Abs().free[0] != o && FaultOf(faults, va)
      modifies this`pte, this`faults, frames.Repr()
      ensures Valid() && old(Abs()).free[0] < |old(Abs()).pages| && Abs() == FinishCopy(old(Abs()), va.kpid, va)
    {
      var p := frames.CopyPage(o);
      pte := pte[va := Present(p, true, false)];
      faults := faults - {va.kpid};
    }

    /** reserve_pages() and the rest of the handler: the process has its own page, or must sleep. */
    method FinishProtectionFault(k: nat) returns (ok: bool)
      requires Valid() && Inv(Abs()) && k in faults && faults[k].Copying?
      modifies this`pte, this`faults, frames.Repr()
      ensures Valid() && ok == Enabled(old(Abs()), CopyFinish(k))
      ensures Abs() == if ok then Apply(old(Abs()), CopyFinish(k)) else old(Abs())
    {
      var none := frames.NoneFree();
      if none { return false; }
      var va := Va(k, faults[k].vp);
      CopyFacts(Abs(), k, va);
      var o := pte[va].page;
      if frames.pgd[o].count == 1 {
        Unshare(va);
        return true;
      }
      if frames.pgd[o].count == 0 { assert false; }
      Copy(va, o);
      return true;
    }

    // ----------------------------------------------- delete_page(), fork()

    method ClearEntry(va: Va)
      requires Valid() && Held(Abs(), Entry(pte, va))
      requires var e := Entry(pte, va); e.Present? ==> e.page !in Abs().free
      modifies this`total, this`pte, sdt, frames.Repr()
      ensures Valid() && Abs() == Unmapped(old(Abs()), va)
    {
      var e := if va in pte then pte[va] else Absent(None);
      pte := pte - {va};
      if e.Present? {
        var _ := frames.ReleasePage(e.page);
      } else {
        ReleaseSource(e.src);
      }
    }

    /** delete_page(). */
    method DeletePage(va: Va)
      requires Valid() && Inv(Abs()) && va.kpid !in faults && va.vp < nv
      modifies this`total, this`pte, sdt, frames.Repr()
      ensures Valid() && Abs() == Apply(old(Abs()), Unmap(va))
    {
      EntryIsHeld(Abs(), va);
      ClearEntry(va);
    }

    /** An entry of the parent that is present: both become read-only. */
    method SharePresent(va: Va, vc: Va, p: nat, busy: bool)
      requires Valid() && p < frames.N
      modifies this`pte, frames.Repr()
      ensures Valid()
      ensures Abs() == old(Abs()).(
        pages := old(Abs()).pages[p := old(Abs()).pages[p].(count := old(Abs()).pages[p].count + 1)],
        pte := old(pte)[va := Present(p, false, busy)][vc := Present(p, false, busy)])
    {
      pte := pte[va := Present(p, false, busy)];
      frames.Describe(p, frames.pgd[p].(count := frames.pgd[p].count + 1));
      pte := pte[vc := Present(p, false, busy)];
    }

    /** One entry of the loop of sys_fork(). */
    method ShareWithChild(parent: nat, child: nat, vp: nat)
      requires Valid() && Held(Abs(), Entry(pte, Va(parent, vp)))
      modifies this`pte, sdt, frames.Repr()
      ensures Valid() && Abs() == ShareEntry(old(Abs()), parent, child, vp)
    {
      var va, vc := Va(parent, vp), Va(child, vp);
      if va !in pte { return; }
      match pte[va]
      case Present(p, _, busy) => SharePresent(va, vc, p, busy);
      case Absent(None) =>
      case Absent(Some(loc)) =>
        if loc.Swap? {
          var dev := sdt[loc.dev];
          sdt[loc.dev] := dev.(bitmap := dev.bitmap[loc.block := dev.bitmap[loc.block] + 1]);
        }
        pte := pte[vc := Absent(Some(loc))];
    }

    /** The loop of sys_fork() that shares the pages of the parent with a new child. */
    method ForkPages(parent: nat, child: nat)
      requires Valid() && Inv(Abs()) && CanFork(Abs(), parent, child)
      modifies this`pte, sdt, frames.Repr()
      ensures Valid() && Abs() == Apply(old(Abs()), Fork(parent, child))
    {
      ghost var s := Abs();
      assert Forked(s, Abs(), parent, child, 0);
      var vp: nat := 0;
      while vp < nv
        invariant Valid() && vp <= nv == s.nv && ForkedUpTo(s, Abs(), parent, child, vp)
      {
        ForkStep(s, Abs(), parent, child, vp);
        ShareWithChild(parent, child, vp);
        vp := vp + 1;
      }
      assert Forked(s, Abs(), parent, child, vp);
    }

    // ----------------------------------------------- swapper()

    /** A page whose contents can be had again: its entry names its source. */
    method DropPage(va: Va)
      requires Valid() && va in pte && pte[va].Present? && Held(Abs(), pte[va]) && pte[va].page !in Abs().free
      modifies this`pte, frames.Repr()
      ensures Valid()
      ensures var p := old(pte)[va].page;
        Abs() == Release(old(Abs()).(pte := old(pte)[va := Absent(old(Abs()).pages[p].key)]), p)
    {
      var p := pte[va].page;
      pte := pte[va := Absent(frames.pgd[p].key)];
      var _ := frames.ReleasePage(p);
    }

    /** swap_page(), pg_hash_insert() and the start of save_page(). */
    method SavePage(va: Va)
      requires Valid() && va in pte && pte[va].Present? && pte[va].page < frames.N && Unique(Abs().pages)
      requires FirstDev(sdt[..], 0) < sdt.Length && BlockOn(sdt[FirstDev(sdt[..], 0)])
      requires Abs().pages[pte[va].page].key.None? && !Abs().pages[pte[va].page].hashed
      modifies this, sdt, frames.Repr()
      ensures Valid() && Abs() == SaveTo(old(Abs()), va)
    {
      var p := pte[va].page;
      var d := SearchDevice();
      var b := NewSwapBlock(d);
      EnterAndSave(va, p, Swap(d, b));
    }

    /** The page is hashed under its new block, the entry names the block and the write starts. */
    method EnterAndSave(va: Va, p: nat, loc: Loc)
      requires Valid() && p < frames.N && !Abs().pages[p].hashed
      modifies this`pte, this`saving, frames.Repr()
      ensures Valid()
      ensures Abs() == old(Abs()).(
        pages := old(Abs()).pages[p := old(Abs()).pages[p].(key := Some(loc), hashed := true)],
        pte := old(pte)[va := Absent(Some(loc))], saving := Some(p))
    {
      frames.Enter(p, loc);
      pte := pte[va := Absent(Some(loc))];
      saving := Some(p);
    }

    /** The body of the swapper's loop for a page that is old enough. */
    method SwapOutPage(va: Va)
      requires Valid() && Inv(Abs()) && Enabled(Abs(), SwapOut(va))
      modifies this, sdt, frames.Repr()
      ensures Valid() && Abs() == Apply(old(Abs()), SwapOut(va))
    {
      SwapFacts(Abs(), va);
      var pg := frames.pgd[pte[va].page];
      if pg.kind != FromSwap {
        DropPage(va);
      } else if pg.key.Some? {
        GetSwapBlock(pg.key.value.dev, pg.key.value.block);
        DropPage(va);
      } else if total != 0 {
        SavePage(va);
      }
    }

    /** The end of save_page(): the device has the page, and the swapper lets go of it. */
    method PageSaved()
      requires Valid() && SaveReady(Abs()) && saving.value !in Abs().free
      modifies this, sdt, frames.Repr()
      ensures Valid() && Abs() == Saved(old(Abs()))
    {
      var p := saving.value;
      var loc := frames.pgd[p].key.value;
      var dev := sdt[loc.dev];
      sdt[loc.dev] := dev.(store := dev.store[loc.block := frames.pgd[p].data]);
      saving := None;
      var _ := frames.ReleasePage(p);
    }

    method FinishSwapOut()
      requires Valid() && Inv(Abs()) && saving.Some?
      modifies this, sdt, frames.Repr()
      ensures Valid() && Abs() == Apply(old(Abs()), SwapFinish)
    {
      SavedFacts(Abs());
      PageSaved();
    }

    method ClearFreeList()
      requires Valid()
      modifies frames.Repr()
      ensures Valid() && Abs() == DoClear(old(Abs()))
    {
      frames.ClearFreeList();
    }
  }

  /** No two hashed pages share a key. */
  ghost predicate Unique(pages: seq<Page>) {
    forall p, q | 0 <= p < |pages| && 0 <= q < |pages| && pages[p].hashed && pages[q].hashed
      :: pages[p].key == pages[q].key ==> p == q
  }

  /** What page_not_present_fault() has done when it answers r: the whole of a hit, the start of a
      read, or nothing, if another process has the block in its busyblock. */
  ghost predicate Replied(s: State, va: Va, r: Reply, t: State)
    requires Inv(s)
  {
    match r
    case Mapped => Enabled(s, FaultHit(va)) && t == Apply(s, FaultHit(va))
    case MustRead => Enabled(s, FaultStart(va)) && t == Apply(s, FaultStart(va))
    case SleepOn(k) =>
      && t == s && k in s.faults && !s.faults[k].Copying?
      && Entry(s.pte, va).Absent? && s.faults[k].src == Entry(s.pte, va).src
  }

  lemma MappedReply(s: State, va: Va, p: nat)
    requires Inv(s) && CanHit(s, va) && Held(s, s.pte[va]) && InHash(s.pages, p, s.pte[va].src.value)
    ensures Replied(s, va, Mapped, ShareHashed(s, va, p))
  {
  }

  /** release_swap_block() does not look at the page tables. */
  lemma GiveBackRest(s: State, t: State, src: Option<Loc>)
    requires Held(s, Absent(src)) && t == GiveBack(s, src).(pte := t.pte, faults := t.faults)
    ensures t == GiveBack(s.(pte := t.pte, faults := t.faults), src)
  {
  }

  /** What a hit relies on. */
  lemma HitFacts(s: State, va: Va, p: nat)
    requires Inv(s) && va.kpid !in s.faults && va.vp < s.nv && va in s.pte && s.pte[va].Absent? && s.pte[va].src.Some?
    requires InHash(s.pages, p, s.pte[va].src.value)
    ensures CanHit(s, va) && Held(s, s.pte[va]) && (p in s.free <==> s.pages[p].count == 0)
    ensures DoHit(s, va) == ShareHashed(s, va, p)
  {
    EntryIsHeld(s, va);
  }

  /** What the end of a read relies on. */
  lemma ReadFacts(s: State, k: nat)
    requires Inv(s) && k in s.faults && s.faults[k].Reading?
    ensures var f := s.faults[k];
      && f.page < |s.pages| && Held(s, Absent(f.src)) && s.pages[f.page].key == f.src && !s.pages[f.page].hashed
      && (f.src.Some? && f.src.value.Swap? ==> f.src.value.block < |s.devs[f.src.value.dev].store|)
    ensures s.saving.Some? ==> s.saving.value < |s.pages|
    ensures DoFinish(s, k) == FinishRead(s, k)
  {
    var src := s.faults[k].src;
    assert FaultOk(s, k, s.faults[k], Va(k, s.faults[k].vp));
    if src.Some? && src.value.Swap? {
      LoaderHoldsBlock(s, k);
      assert DevOk(s, src.value.dev);
    }
  }

  /** The panics of get_page() are out of reach: the list is not empty, and its head unused. */
  predicate HeadIsFree(s: State) {
    s.free != [] && s.free[0] < |s.pages| && s.pages[s.free[0]].count == 0
  }

  predicate FaultOf(faults: map<nat, Fault>, va: Va) {
    va.kpid in faults && faults[va.kpid] == Copying(va.vp)
  }

  /** What the end of a copy relies on. */
  lemma CopyFacts(s: State, k: nat, va: Va)
    requires Inv(s) && CanCopyFinish(s, k) && va == Va(k, s.faults[k].vp)
    ensures va in s.pte && s.pte[va].Present? && Held(s, s.pte[va]) && s.free[0] < |s.pages|
    ensures HeadIsFree(s) && s.free[0] != s.pte[va].page && DoCopyFinish(s, k) == FinishCopy(s, k, va)
  {
    assert FaultOk(s, k, s.faults[k], va);
    EntryIsHeld(s, va);
    assert s.free[0] in s.free;
  }

  /** The fork loop has done its first n entries. */
  ghost predicate Forked(s: State, t: State, parent: nat, child: nat, n: nat) {
    Inv(s) && CanFork(s, parent, child) && n <= s.nv && t == ForkUpTo(s, parent, child, n)
  }

  /** The same, unfolded only where it is used. */
  ghost predicate ForkedUpTo(s: State, t: State, parent: nat, child: nat, n: nat) {
    forall m: nat :: m == n ==> Forked(s, t, parent, child, m)
  }

  lemma ForkStep(s: State, t: State, parent: nat, child: nat, n: nat)
    requires ForkedUpTo(s, t, parent, child, n) && n < s.nv
    ensures Held(t, Entry(t.pte, Va(parent, n)))
    ensures ForkedUpTo(s, ShareEntry(t, parent, child, n), parent, child, n + 1)
  {
    assert Forked(s, t, parent, child, n);
    var u := ForkOneMore(s, t, parent, child, n);
    EntryIsHeld(t, Va(parent, n));
    assert Forked(s, u, parent, child, n + 1);
  }

  /** What swapping a page out relies on. */
  lemma SwapFacts(s: State, va: Va)
    requires Inv(s) && CanSwapOut(s, va)
    ensures SwapReady(s, va) && DoSwapOut(s, va) == SwapPageOut(s, va)
    ensures Unique(s.pages) && s.pte[va].page !in s.free
    ensures s.pages[s.pte[va].page].key.None? ==> !s.pages[s.pte[va].page].hashed
  {
    MaySwapOut(s, va);
  }

  lemma SavedFacts(s: State)
    requires Inv(s) && CanSwapFinish(s)
    ensures SaveReady(s) && DoSwapFinish(s) == Saved(s) && s.saving.value !in s.free
  {
    assert ValidSrc(s, s.pages[s.saving.value].key) && DevOk(s, s.pages[s.saving.value].key.value.dev);
  }
}
