/** kernel/sched.c, kernel/sleep.c and kernel/semaphore.c as they run, on arrays. */
module Scheduler {
  import opened Rings
  import opened SchedModel
  import opened SchedRuns
  import Q = SchedQueues

  class Kernel {
    const procs: array<Proc>        // sched_data[], and the u_area fields of the processes
    const queues: Q.RunQueues
    const sleepers: Q.SleepChains
    var current: nat                // current_kpid
    var touched: bool               // sched_touched

    ghost function Abs(): Sched
      reads this, procs, queues, sleepers
    {
      Sched(procs[..], queues.lists, sleepers.chains, current, touched)
    }

    ghost predicate Valid()
      reads this, procs, queues, queues.head, queues.tail, queues.next, sleepers, sleepers.hash, sleepers.next
    {
      && {queues.head, queues.tail, queues.next} !! {sleepers.hash, sleepers.next}
      && queues.Valid() && sleepers.Valid() && current < procs.Length
      && queues.next.Length == procs.Length == sleepers.next.Length
    }

    constructor (n: nat)
      requires n > 0
      ensures Valid() && Abs() == Start(n)
      ensures fresh(procs) && fresh(queues) && fresh(queues.head) && fresh(queues.tail) && fresh(queues.next)
      ensures fresh(sleepers) && fresh(sleepers.hash) && fresh(sleepers.next)
    {
      procs := new Proc[n](i => Proc(Unused, 0, 0, 0, 0, 0, false));
      queues := new Q.RunQueues(n);
      sleepers := new Q.SleepChains(n);
      current, touched := IDLE, true;
      new;
      assert procs[..] == Start(n).procs;
    }

    /** new_schedulable_process(). */
    method NewSchedulable(k: nat, priority: nat)
      requires Valid() && 0 < k < procs.Length && priority <= MAX_PRIORITY_LEVEL && Q.Loose(queues.lists, k)
      modifies procs, queues, queues.head, queues.tail, queues.next
      ensures Valid() && Abs() == Append(old(Abs()), k, priority)
    {
      procs[k] := procs[k].(usage := priority);
      queues.Append(k, priority);
    }

    /** delete_schedulable_process(). */
    method DeleteSchedulable(k: nat) returns (priority: nat)
      requires Valid() && k < procs.Length && procs[k].usage <= MAX_PRIORITY_LEVEL
      requires queues.lists[procs[k].usage] != [] && queues.lists[procs[k].usage][0] == k
      modifies queues, queues.head, queues.tail
      ensures Valid() && priority == procs[k].usage && Abs() == Delete(old(Abs()), k) && Q.Loose(queues.lists, k)
    {
      priority := procs[k].usage;
      queues.DeleteHead(k, priority);
    }

    /** restore_schedulable_process(). */
    method RestoreSchedulable(k: nat, priority: nat)
      requires Valid() && 0 < k < procs.Length && priority <= MAX_PRIORITY_LEVEL && Q.Loose(queues.lists, k)
      modifies procs, queues, queues.head, queues.tail, queues.next
      ensures Valid() && Abs() == Restore(old(Abs()), k, priority)
    {
      procs[k] := procs[k].(usage := priority);
      queues.Restore(k, priority);
    }

    /** The search of scheduler() from a level down. */
    method FindLevel(first: nat) returns (p: nat)
      requires Valid() && first <= MAX_PRIORITY_LEVEL
      ensures p == Pick(queues.lists, first)
    {
      p := first;
      while p != 0 && queues.head[p] == 0
        invariant p <= first && Pick(queues.lists, p) == Pick(queues.lists, first)
      {
        assert Q.QueueOk(queues.head[p], queues.tail[p], queues.next[..], queues.lists[p]);
        p := p - 1;
      }
      assert Q.QueueOk(queues.head[p], queues.tail[p], queues.next[..], queues.lists[p]);
    }

    /** The head of a list that is not empty. */
    method HeadOf(p: nat) returns (k: nat)
      requires Valid() && p <= MAX_PRIORITY_LEVEL
      ensures k == (if queues.lists[p] == [] then 0 else queues.lists[p][0]) && (k == 0 <==> queues.lists[p] == [])
      ensures k < procs.Length
    {
      assert Q.QueueOk(queues.head[p], queues.tail[p], queues.next[..], queues.lists[p]);
      k := queues.head[p];
    }

    /** The process at the head of its list is reinserted at the tail of another one. */
    method Reinsert(k: nat, priority: nat)
      requires Valid() && Inv(Abs()) && 0 < k < procs.Length && priority <= MAX_PRIORITY_LEVEL
      requires procs[k].usage <= MAX_PRIORITY_LEVEL && queues.lists[procs[k].usage] != []
      requires queues.lists[procs[k].usage][0] == k
      modifies procs, queues, queues.head, queues.tail, queues.next
      ensures Valid() && Abs() == Append(Delete(old(Abs()), k), k, priority)
    {
      var _ := DeleteSchedulable(k);
      NewSchedulable(k, priority);
    }

    /** The refill loop of scheduler(). */
    method RefillLevels()
      requires Valid() && Inv(Abs())
      modifies procs, queues, queues.head, queues.tail, queues.next
      ensures Valid() && Abs() == Refill(old(Abs()))
    {
      ghost var goal := Refill(Abs());
      var k := HeadOf(0);
      while k != 0
        invariant Valid() && Inv(Abs()) && Refill(Abs()) == goal
        invariant k == (if queues.lists[0] == [] then 0 else queues.lists[0][0]) && (k == 0 <==> queues.lists[0] == [])
        decreases |queues.lists[0]|
      {
        ghost var s := Abs();
        assert k in s.lists[0] && Members(s, s.lists[0]) && Placed(s, k);
        DeleteKeeps(s, k);
        PutKeeps(Delete(s, k), k, s.procs[k].base, Append(Delete(s, k), k, s.procs[k].base));
        Reinsert(k, procs[k].base);
        k := HeadOf(0);
      }
    }

    /** scheduler(). */
    method RunScheduler()
      requires Valid() && Inv(Abs()) && (current != IDLE && !procs[current].status.Asleep? ==> Settled(Abs()))
      requires current != IDLE ==> procs[current].usage <= MAX_PRIORITY_LEVEL
      modifies this, procs, queues, queues.head, queues.tail, queues.next
      ensures Valid() && Abs() == Schedule(old(Abs()))
    {
      ghost var s := Abs();
      ChargeKeeps(s);
      TouchKeeps(Charge(s), false);
      var first := ChargeCurrent();
      ChooseNext(first);
      ScheduleIs(s, first);
    }

    /** The running process is charged; the result is the level to start from. */
    method ChargeCurrent() returns (first: nat)
      requires Valid() && Inv(Abs()) && (current != IDLE && !procs[current].status.Asleep? ==> Settled(Abs()))
      requires current != IDLE ==> procs[current].usage <= MAX_PRIORITY_LEVEL
      modifies this, procs, queues, queues.head, queues.tail, queues.next
      ensures Valid() && Abs() == Charge(old(Abs())).(touched := false) && first == FirstLevel(old(Abs()))
    {
      first := MAX_PRIORITY_LEVEL;
      if current != IDLE {
        first := if touched then MAX_PRIORITY_LEVEL else procs[current].usage;
        if !procs[current].status.Asleep? { Reinsert(current, procs[current].usage - 1); }
      }
      touched := false;
    }

    method ChooseNext(first: nat)
      requires Valid() && Inv(Abs()) && first <= MAX_PRIORITY_LEVEL
      modifies this`current, procs, queues, queues.head, queues.tail, queues.next
      ensures Valid() && Abs() == Chosen(old(Abs()), first)
    {
      var p := FindLevel(first);
      if p == 0 {
        RefillLevels();
        p := FindLevel(MAX_PRIORITY_LEVEL);
      }
      current := IDLE;
      if p != 0 {
        var k := HeadOf(p);
        current := k;
      }
    }

    // ----------------------------------------------- sleep(), wakeup()

    /** sleep(), up to the moment the process chosen next runs on. */
    method SleepOn(address: nat, wakeup: nat)
      requires Valid() && Inv(Abs()) && Settled(Abs()) && current != IDLE && 0 < wakeup <= MAX_PRIORITY_LEVEL
      modifies this, procs, queues, queues.head, queues.tail, queues.next, sleepers, sleepers.hash, sleepers.next
      ensures Valid() && Abs() == Sleep(old(Abs()), address, wakeup)
    {
      ghost var s := Abs();
      Enter(address, wakeup);
      FallAsleepKeeps(s, address, wakeup);
      RunScheduler();
      ScheduleKeeps(FallAsleep(s, address, wakeup));
      LeaveSleep();
    }

    /** The running process enters the chain of the address and leaves its list. */
    method Enter(address: nat, wakeup: nat)
      requires Valid() && Inv(Abs()) && Settled(Abs()) && current != IDLE && 0 < wakeup <= MAX_PRIORITY_LEVEL
      modifies procs, queues, queues.head, queues.tail, sleepers, sleepers.hash, sleepers.next
      ensures Valid() && Abs() == FallAsleep(old(Abs()), address, wakeup)
      ensures current == old(current) && procs[current].usage <= MAX_PRIORITY_LEVEL && procs[current].status.Asleep?
    {
      ghost var s := Abs();
      CurrentAwake(s);
      assert Placed(s, current);
      NotChained(s, current);
      sleepers.Push(current, address % SLEEP_BUCKETS);
      var usage := DeleteSchedulable(current);
      procs[current] := procs[current].(status := Asleep, address := address, wakeup := wakeup, oldUsage := usage);
    }

    /** The end of sleep(), for a process that has been woken up. */
    method LeaveSleep()
      requires Valid() && Inv(Abs()) && HeadRuns(Abs())
      modifies procs, queues, queues.head, queues.tail, queues.next
      ensures Valid() && Abs() == Settle(old(Abs()))
    {
      if current != IDLE && procs[current].resuming {
        assert Placed(Abs(), current);
        var _ := DeleteSchedulable(current);
        procs[current] := procs[current].(resuming := false);
        RestoreSchedulable(current, procs[current].oldUsage);
      }
    }

    /** One sleeper becomes runnable: the member i of the chain of its bucket. */
    method WakeMember(b: nat, prev: nat, k: nat, ghost i: nat)
      requires Valid() && Inv(Abs()) && b < SLEEP_BUCKETS && i < |sleepers.chains[b]| && k == sleepers.chains[b][i]
      requires prev == (if i == 0 then 0 else sleepers.chains[b][i - 1]) && k < procs.Length
      requires Sleeps(Abs(), k, procs[k].address)
      requires Bucket(procs[k].address) == b
      modifies this, procs, queues, queues.head, queues.tail, queues.next, sleepers, sleepers.hash, sleepers.next
      ensures Valid() && old(procs[k].wakeup) <= MAX_PRIORITY_LEVEL && Abs() == Wake(old(Abs()), k)
    {
      ghost var s := Abs();
      assert Placed(s, k);
      NotListed(s, k);
      procs[k] := procs[k].(status := Running, resuming := true);
      NewSchedulable(k, procs[k].wakeup);
      ChainWithout(s.chains, b, i);
      sleepers.Unlink(b, prev, i);
      touched := true;
    }

    /** The process at the moving pointer. */
    method AtPointer(b: nat, prev: nat, ghost i: nat) returns (k: nat)
      requires Valid() && b < SLEEP_BUCKETS && i <= |sleepers.chains[b]|
      requires prev == if i == 0 then 0 else sleepers.chains[b][i - 1]
      ensures if i < |sleepers.chains[b]| then k == sleepers.chains[b][i] > 0 && k < procs.Length else k == 0
    {
      ghost var xs := sleepers.chains[b];
      assert Q.ChainOk(sleepers.hash[b], sleepers.next[..], xs);
      if i > 0 { assert Q.LinkAt(sleepers.next[..], xs, i - 1); }
      if i < |xs| { assert Q.LinkAt(sleepers.next[..], xs, i); }
      k := if prev == 0 then sleepers.hash[b] else sleepers.next[prev];
    }

    /** One turn of the loop of wakeup(): the sleeper k is woken up if it waits for the address. */
    method WakeNext(b: nat, prev0: nat, k: nat, address: nat, ghost i0: nat, ghost goal: Sched)
      returns (prev: nat, ghost i: nat)
      requires Valid() && Wakes(Abs(), b, i0, address, goal) && b < SLEEP_BUCKETS && i0 < |sleepers.chains[b]|
      requires prev0 == if i0 == 0 then 0 else sleepers.chains[b][i0 - 1]
      requires k == sleepers.chains[b][i0] && k < procs.Length
      modifies this, procs, queues, queues.head, queues.tail, queues.next, sleepers, sleepers.hash, sleepers.next
      ensures Valid() && Wakes(Abs(), b, i, address, goal) && i <= |sleepers.chains[b]|
      ensures prev == if i == 0 then 0 else sleepers.chains[b][i - 1]
      ensures |sleepers.chains[b]| - i < old(|sleepers.chains[b]|) - i0
    {
      WakesNext(Abs(), b, i0, address, goal);
      prev, i := prev0, i0;
      if procs[k].address == address {
        WakeMember(b, prev, k, i);
      } else {
        prev, i := k, i + 1;
      }
    }

    /** wakeup(). */
    method Wakeup(address: nat)
      requires Valid() && Inv(Abs())
      modifies this, procs, queues, queues.head, queues.tail, queues.next, sleepers, sleepers.hash, sleepers.next
      ensures Valid() && Abs() == WakeAll(old(Abs()), address)
    {
      var b := address % SLEEP_BUCKETS;
      ghost var goal := WakeAll(Abs(), address);
      ghost var i: nat := 0;
      assert sleepers.chains[b][0..] == sleepers.chains[b];
      var prev: nat := 0;
      var k := AtPointer(b, prev, i);
      while k != 0
        invariant Valid() && Wakes(Abs(), b, i, address, goal) && i <= |sleepers.chains[b]|
        invariant prev == if i == 0 then 0 else sleepers.chains[b][i - 1]
        invariant if i < |sleepers.chains[b]| then k == sleepers.chains[b][i] > 0 && k < procs.Length else k == 0
        decreases |sleepers.chains[b]| - i
      {
        prev, i := WakeNext(b, prev, k, address, i, goal);
        k := AtPointer(b, prev, i);
      }
      WakesEnd(Abs(), b, i, address, goal);
    }

    /** The search of wakeup_one_process(): the first sleeper of the chain on the address, or 0. */
    method FindSleeper(address: nat) returns (k: nat, prev: nat, ghost i: nat)
      requires Valid() && Inv(Abs())
      ensures i <= |sleepers.chains[Bucket(address)]|
      ensures prev == if i == 0 then 0 else sleepers.chains[Bucket(address)][i - 1]
      ensures Sleepers(Abs(), address) == [] ==> k == 0
      ensures Sleepers(Abs(), address) != [] ==> i < |sleepers.chains[Bucket(address)]|
      ensures Sleepers(Abs(), address) != [] ==>
        k == sleepers.chains[Bucket(address)][i] == Sleepers(Abs(), address)[0]
    {
      var b := address % SLEEP_BUCKETS;
      ghost var xs := sleepers.chains[b];
      i, prev := 0, 0;
      assert xs[0..] == xs;
      k := AtPointer(b, prev, i);
      while k != 0 && procs[k].address != address
        invariant i <= |xs| && prev == (if i == 0 then 0 else xs[i - 1])
        invariant if i < |xs| then k == xs[i] > 0 && k < procs.Length else k == 0
        invariant Matching(Abs(), xs[i..], address) == Sleepers(Abs(), address)
        decreases |xs| - i
      {
        assert xs[i..][1..] == xs[i + 1..];
        prev := k;
        i := i + 1;
        k := AtPointer(b, prev, i);
      }
    }

    /** wakeup_one_process(): the number of processes woken up. */
    method WakeupOneProcess(address: nat) returns (n: nat)
      requires Valid() && Inv(Abs())
      modifies this, procs, queues, queues.head, queues.tail, queues.next, sleepers, sleepers.hash, sleepers.next
      ensures Valid() && Abs() == WakeOne(old(Abs()), address)
      ensures n == if Sleepers(old(Abs()), address) == [] then 0 else 1
    {
      ghost var s := Abs();
      ghost var xs := Sleepers(s, address);
      var k, prev;
      ghost var i;
      k, prev, i := FindSleeper(address);
      assert xs != [] ==> xs[0] in xs;
      if k == 0 { return 0; }
      assert Sleeps(s, xs[0], address);
      WakeMember(address % SLEEP_BUCKETS, prev, k, i);
      OneWoken(s, xs[0]);
      return 1;
    }

    /** The search of wakeup_process(): a process that sleeps is always found in its chain. */
    method FindProcess(kpid: nat) returns (prev: nat, ghost i: nat)
      requires Valid() && Inv(Abs()) && IsProc(Abs(), kpid) && procs[kpid].status.Asleep?
      ensures var xs := sleepers.chains[Bucket(procs[kpid].address)];
        i < |xs| && xs[i] == kpid && prev == if i == 0 then 0 else xs[i - 1]
    {
      var b := procs[kpid].address % SLEEP_BUCKETS;
      ghost var xs := sleepers.chains[b];
      assert Placed(Abs(), kpid);
      i, prev := 0, 0;
      var k := AtPointer(b, prev, i);
      while k != kpid
        invariant i < |xs| && prev == (if i == 0 then 0 else xs[i - 1]) && kpid in xs[i..]
        invariant k == xs[i] > 0 && k < procs.Length
        decreases |xs| - i
      {
        prev := k;
        i := i + 1;
        k := AtPointer(b, prev, i);
      }
    }

    /** wakeup_process(), of a process that sleeps. */
    method WakeupProcess(kpid: nat)
      requires Valid() && Inv(Abs()) && IsProc(Abs(), kpid) && procs[kpid].status.Asleep?
      modifies this, procs, queues, queues.head, queues.tail, queues.next, sleepers, sleepers.hash, sleepers.next
      ensures Valid() && old(procs[kpid].wakeup) <= MAX_PRIORITY_LEVEL && Abs() == Wake(old(Abs()), kpid)
    {
      var prev;
      ghost var i;
      prev, i := FindProcess(kpid);
      WakeMember(procs[kpid].address % SLEEP_BUCKETS, prev, kpid, i);
    }

    /** down(), on a semaphore of the given value. */
    method Down(sem: array<nat>, address: nat, wakeup: nat)
      requires Valid() && Inv(Abs()) && Settled(Abs()) && current != IDLE && 0 < wakeup <= MAX_PRIORITY_LEVEL
      requires sem.Length == 1
      requires sem !in {queues.head, queues.tail, queues.next, sleepers.hash, sleepers.next}
      modifies sem, this, procs, queues, queues.head, queues.tail, queues.next, sleepers, sleepers.hash, sleepers.next
      ensures Valid() && forall admitted: nat, n: nat :: SemInv(Sem(old(Abs()), address, old(sem[0]), admitted), n) ==>
        SemIs(SemApply(Sem(old(Abs()), address, old(sem[0]), admitted), SemStep.Down(wakeup), n), Abs(), sem[0])
    {
      if sem[0] != 0 {
        sem[0] := sem[0] - 1;
      } else {
        SleepOn(address, wakeup);
      }
    }

    /** up(). */
    method Up(sem: array<nat>, address: nat)
      requires Valid() && Inv(Abs()) && Settled(Abs()) && sem.Length == 1
      requires sem !in {queues.head, queues.tail, queues.next, sleepers.hash, sleepers.next}
      modifies sem, this, procs, queues, queues.head, queues.tail, queues.next, sleepers, sleepers.hash, sleepers.next
      ensures Valid()
      ensures forall admitted: nat, n: nat ::
        SemInv(Sem(old(Abs()), address, old(sem[0]), admitted), n) && admitted > 0 ==>
        SemIs(SemApply(Sem(old(Abs()), address, old(sem[0]), admitted), SemStep.Up, n), Abs(), sem[0])
    {
      var woken := 0;
      if sem[0] == 0 { woken := WakeupOneProcess(address); }
      if woken == 0 { sem[0] := sem[0] + 1; }
    }
  }

  /** The kernel has come to the state of the semaphore's step. */
  predicate SemIs(m: Sem, s: Sched, value: nat) {
    m.s == s && m.value == value
  }

  /** wakeup() has gone past i members of the chain, none of which sleeps on the address. */
  ghost predicate Wakes(s: Sched, b: nat, i: nat, address: nat, goal: Sched) {
    && Inv(s) && b == Bucket(address) && i <= |s.chains[b]|
    && AllAsleep(s, Matching(s, s.chains[b][i..], address))
    && WakeList(s, Matching(s, s.chains[b][i..], address)) == goal
  }

  lemma WakesNext(s: Sched, b: nat, i: nat, address: nat, goal: Sched)
    requires Wakes(s, b, i, address, goal) && i < |s.chains[b]|
    ensures var k := s.chains[b][i];
      && IsProc(s, k) && s.procs[k].status.Asleep?
      && (s.procs[k].address == address ==> s.procs[k].wakeup <= MAX_PRIORITY_LEVEL)
      && (s.procs[k].address == address ==> Wakes(Wake(s, k), b, i, address, goal))
      && (s.procs[k].address == address ==> Wake(s, k).chains[b] == s.chains[b][..i] + s.chains[b][i + 1..])
      && (s.procs[k].address != address ==> Wakes(s, b, i + 1, address, goal))
  {
    var chain := s.chains[b];
    var k := chain[i];
    assert k in chain && Members(s, chain) && Placed(s, k);
    assert chain[i..][1..] == chain[i + 1..];
    if s.procs[k].address == address {
      WakeKeeps(s, k);
      ChainWithout(s.chains, b, i);
      var w := Wake(s, k);
      assert w.chains[b][i..] == chain[i + 1..];
      var xs := Matching(s, chain[i..], address);
      assert xs == [k] + Matching(s, chain[i + 1..], address);
      AsleepAfter(s, xs);
      assert xs[1..] == Matching(s, chain[i + 1..], address);
      SameMatching(s, w, chain[i + 1..], address);
    }
  }

  lemma {:induction false} SameMatching(s: Sched, t: Sched, xs: seq<nat>, address: nat)
    requires |t.procs| == |s.procs| && forall k: nat :: k < |s.procs| ==> t.procs[k].address == s.procs[k].address
    ensures Matching(t, xs, address) == Matching(s, xs, address)
  {
    if xs != [] { SameMatching(s, t, xs[1..], address); }
  }

  lemma WakesEnd(s: Sched, b: nat, i: nat, address: nat, goal: Sched)
    requires Wakes(s, b, i, address, goal) && i == |s.chains[b]|
    ensures s == goal
  {
    assert s.chains[b][i..] == [];
  }

  lemma OneWoken(s: Sched, k: nat)
    requires Inv(s) && IsProc(s, k) && s.procs[k].status.Asleep? && AllAsleep(s, [k])
    ensures s.procs[k].wakeup <= MAX_PRIORITY_LEVEL && WakeList(s, [k]) == Wake(s, k)
  {
    WakeKeeps(s, k);
    assert [k][1..] == [];
  }

  /** The rest of scheduler() once the running process has been charged. */
  function Chosen(s: Sched, first: nat): Sched
    requires Inv(s) && first <= MAX_PRIORITY_LEVEL
  {
    var p := Pick(s.lists, first);
    if p > 0 then Choose(s, p)
    else
      var r := Refill(s);
      Choose(r, Pick(r.lists, MAX_PRIORITY_LEVEL))
  }

  lemma ScheduleIs(s: Sched, first: nat)
    requires Inv(s) && (s.current != IDLE && !s.procs[s.current].status.Asleep? ==> Settled(s))
    requires first == FirstLevel(s) && Inv(Charge(s).(touched := false))
    ensures Schedule(s) == Chosen(Charge(s).(touched := false), first)
  {
  }

  lemma NotChained(s: Sched, k: nat)
    requires Inv(s) && IsProc(s, k) && !s.procs[k].status.Asleep?
    ensures Q.Loose(s.chains, k)
  {
    forall b, i | 0 <= b < |s.chains| && 0 <= i < |s.chains[b]| ensures s.chains[b][i] != k {
      assert Placed(s, k) && s.chains[b][i] in s.chains[b];
    }
  }

  lemma NotListed(s: Sched, k: nat)
    requires Inv(s) && IsProc(s, k) && !s.procs[k].status.Running?
    ensures Q.Loose(s.lists, k)
  {
    forall p, i | 0 <= p < |s.lists| && 0 <= i < |s.lists[p]| ensures s.lists[p][i] != k {
      assert Placed(s, k) && s.lists[p][i] in s.lists[p];
    }
  }

  lemma ChainWithout(chains: seq<seq<nat>>, b: nat, i: nat)
    requires Distinct(chains) && b < |chains| && i < |chains[b]|
    ensures Without(chains[b], chains[b][i]) == chains[b][..i] + chains[b][i + 1..]
  {
    forall j | 0 <= j < |chains[b]| && j != i ensures chains[b][j] != chains[b][i] {}
    WithoutAt(chains[b], i);
  }
}
