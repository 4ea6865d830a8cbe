/** wakeup(), the runs of the scheduler, and semaphores. */
module SchedRuns {
  import opened SchedModel

  // ------------------------------------------------- wakeup(), wakeup_one_process()

  predicate Sleeps(s: Sched, k: nat, address: nat) {
    IsProc(s, k) && s.procs[k].status.Asleep? && s.procs[k].address == address
  }

  lemma {:induction false} MatchingIs(s: Sched, xs: seq<nat>, address: nat, k: nat)
    ensures k in Matching(s, xs, address) <==> k in xs && k < |s.procs| && s.procs[k].address == address
  {
    if xs != [] { MatchingIs(s, xs[1..], address, k); }
  }

  lemma {:induction false} MatchingApart(s: Sched, xs: seq<nat>, address: nat)
    requires forall i, j :: 0 <= i < j < |xs| ==> xs[i] != xs[j]
    ensures var ys := Matching(s, xs, address); forall i, j :: 0 <= i < j < |ys| ==> ys[i] != ys[j]
  {
    if xs != [] {
      MatchingApart(s, xs[1..], address);
      MatchingIs(s, xs[1..], address, xs[0]);
    }
  }

  /** The sleepers on an address, in the order of their chain. */
  function Sleepers(s: Sched, address: nat): (xs: seq<nat>)
    requires Inv(s)
    ensures AllAsleep(s, xs)
    ensures forall k :: k in xs <==> Sleeps(s, k, address)
  {
    var xs := Matching(s, s.chains[Bucket(address)], address);
    SleepersAre(s, address);
    xs
  }

  lemma SleepersAre(s: Sched, address: nat)
    requires Inv(s)
    ensures var xs := Matching(s, s.chains[Bucket(address)], address);
      AllAsleep(s, xs) && forall k :: k in xs <==> Sleeps(s, k, address)
  {
    var chain := s.chains[Bucket(address)];
    var xs := Matching(s, chain, address);
    forall i, j | 0 <= i < j < |chain| ensures chain[i] != chain[j] {}
    MatchingApart(s, chain, address);
    forall k ensures k in xs <==> Sleeps(s, k, address) {
      MatchingIs(s, chain, address, k);
      if k in chain { assert Members(s, chain) && Placed(s, k); }
      if IsProc(s, k) { assert Placed(s, k); }
    }
    forall i | 0 <= i < |xs| ensures IsProc(s, xs[i]) && s.procs[xs[i]].status.Asleep? {
      assert xs[i] in xs;
    }
  }

  function WakeAll(s: Sched, address: nat): Sched
    requires Inv(s)
  {
    WakeList(s, Sleepers(s, address))
  }

  function WakeOne(s: Sched, address: nat): Sched
    requires Inv(s)
  {
    var xs := Sleepers(s, address);
    WakeList(s, if xs == [] then [] else [xs[0]])
  }

  /** The processes xs have been woken up and nobody else. */
  predicate Woken(s: Sched, t: Sched, xs: seq<nat>) {
    && |t.procs| == |s.procs| && t.current == s.current
    && forall k: nat :: k < |s.procs| ==> WokenProc(s.procs[k], t.procs[k], k in xs)
  }

  predicate WokenProc(x: Proc, y: Proc, woken: bool) {
    y == if woken then x.(status := Running, resuming := true, usage := x.wakeup) else x
  }

  lemma {:induction false} WakeListIs(s: Sched, xs: seq<nat>)
    requires Inv(s) && AllAsleep(s, xs) && (s.current != IDLE ==> s.current !in xs)
    ensures Inv(WakeList(s, xs)) && Woken(s, WakeList(s, xs), xs)
    ensures Settled(s) ==> Settled(WakeList(s, xs))
    decreases |xs|
  {
    if xs != [] {
      WakeKeeps(s, xs[0]);
      AsleepAfter(s, xs);
      var w := Wake(s, xs[0]);
      WakeListIs(w, xs[1..]);
      forall k: nat | k < |s.procs| ensures WokenProc(s.procs[k], WakeList(s, xs).procs[k], k in xs) {
        assert WokenProc(w.procs[k], WakeList(w, xs[1..]).procs[k], k in xs[1..]);
        assert k in xs <==> k == xs[0] || k in xs[1..];
      }
    }
  }

  /** wakeup() wakes exactly the sleepers on the address. */
  lemma WakeAllExact(s: Sched, address: nat)
    requires Inv(s) && Settled(s)
    ensures Inv(WakeAll(s, address)) && Settled(WakeAll(s, address))
    ensures Woken(s, WakeAll(s, address), Sleepers(s, address))
    ensures Sleepers(WakeAll(s, address), address) == []
  {
    CurrentAwake(s);
    WakeListIs(s, Sleepers(s, address));
    var t := WakeAll(s, address);
    forall k: nat | k < |s.procs| ensures !Sleeps(t, k, address) {
      assert WokenProc(s.procs[k], t.procs[k], k in Sleepers(s, address));
      assert Sleeps(s, k, address) <==> k in Sleepers(s, address);
    }
    NobodySleeps(t, address);
  }

  lemma NobodySleeps(s: Sched, address: nat)
    requires Inv(s)
    ensures Sleepers(s, address) == [] <==> forall k: nat :: k < |s.procs| ==> !Sleeps(s, k, address)
  {
    var xs := Sleepers(s, address);
    if xs != [] { assert xs[0] in xs; }
  }

  lemma WakeOneExact(s: Sched, address: nat)
    requires Inv(s) && Settled(s)
    ensures Inv(WakeOne(s, address)) && Settled(WakeOne(s, address))
    ensures var xs := Sleepers(s, address); Woken(s, WakeOne(s, address), if xs == [] then [] else [xs[0]])
  {
    CurrentAwake(s);
    var xs := Sleepers(s, address);
    var ys := if xs == [] then [] else [xs[0]];
    if xs != [] { assert xs[0] in xs; }
    assert AllAsleep(s, ys);
    WakeListIs(s, ys);
  }

  /** The running process is not asleep. */
  lemma CurrentAwake(s: Sched)
    requires Inv(s) && Settled(s)
    ensures s.current != IDLE ==> s.procs[s.current].status.Running?
    ensures s.current != IDLE ==> IsProc(s, s.current)
  {
    if s.current != IDLE {
      var u := s.procs[s.current].usage;
      assert s.lists[u][0] in s.lists[u] && Placed(s, s.current);
    }
  }

  // ------------------------------------------------- runs

  datatype Step =
    | Reschedule                             // the process that runs is interrupted
    | FallIntoSleep(address: nat, wakeup: nat)
    | WakeUp(address: nat)
    | WakeUpOne(address: nat)
    | WakeUpProcess(k: nat)                  // a signal
    | Fork(k: nat)                           // a new process, at its parent's base priority
    | Create(k: nat, base: nat)              // one of the first processes
    | SetPriority(k: nat, base: nat)
    | Exit

  predicate Enabled(s: Sched, step: Step) {
    match step
    case FallIntoSleep(address, wakeup) => s.current != IDLE && 0 < wakeup <= MAX_PRIORITY_LEVEL
    case WakeUpProcess(k) => IsProc(s, k) && s.procs[k].status.Asleep?
    case Fork(k) => s.current != IDLE && IsProc(s, k) && s.procs[k].status.Unused?
    case Create(k, base) => IsProc(s, k) && s.procs[k].status.Unused? && 0 < base <= MAX_PRIORITY_LEVEL
    case SetPriority(k, base) => IsProc(s, k) && !s.procs[k].status.Unused? && 0 < base <= MAX_PRIORITY_LEVEL
    case Exit => s.current != IDLE
    case _ => true
  }

  /** A new process enters the list of its base priority. */
  function NewProcess(s: Sched, k: nat, base: nat): Sched
    requires Sizes(s) && k < |s.procs| && base <= MAX_PRIORITY_LEVEL
  {
    Append(SetProc(s, k, s.procs[k].(status := Running, base := base, resuming := false)), k, base)
  }

  /** The running process ends; IDLE stands in for it until the next one is chosen. */
  function Gone(s: Sched): Sched
    requires Inv(s) && Settled(s) && s.current != IDLE
  {
    SetProc(Delete(s, s.current), s.current, s.procs[s.current].(status := Unused)).(current := IDLE, touched := true)
  }

  lemma NewProcessKeeps(s: Sched, k: nat, base: nat)
    requires Inv(s) && Settled(s) && Enabled(s, Create(k, base))
    ensures Inv(NewProcess(s, k, base)) && Settled(NewProcess(s, k, base))
  {
    CurrentAwake(s);
    assert Placed(s, k);
    var m := SetProc(s, k, s.procs[k].(status := Running, base := base, resuming := false));
    forall j: nat | j < |m.procs| && IsProc(m, j) && j != k ensures Placed(m, j) { assert Placed(s, j); }
    PutKeeps(m, k, base, NewProcess(s, k, base));
  }

  lemma ForkIsGood(s: Sched, k: nat)
    requires Inv(s) && Settled(s) && Enabled(s, Fork(k))
    ensures s.procs[s.current].base <= MAX_PRIORITY_LEVEL
    ensures Good(NewProcess(s, k, s.procs[s.current].base).(touched := true), |s.procs|)
  {
    CurrentAwake(s);
    assert Placed(s, s.current);
    var n := NewProcess(s, k, s.procs[s.current].base);
    NewProcessKeeps(s, k, s.procs[s.current].base);
    TouchKeeps(n, true);
  }

  lemma PriorityIsGood(s: Sched, k: nat, base: nat)
    requires Inv(s) && Settled(s) && Enabled(s, SetPriority(k, base))
    ensures Good(SetProc(s, k, s.procs[k].(base := base)).(touched := true), |s.procs|)
  {
    var t := SetProc(s, k, s.procs[k].(base := base)).(touched := true);
    forall j: nat | j < |t.procs| && IsProc(t, j) ensures Placed(t, j) { assert Placed(s, j); }
  }

  lemma GoneKeeps(s: Sched)
    requires Inv(s) && Settled(s) && s.current != IDLE
    ensures Inv(Gone(s))
  {
    CurrentAwake(s);
    DeleteKeeps(s, s.current);
    var d, g := Delete(s, s.current), Gone(s);
    forall j: nat | j < |g.procs| && IsProc(g, j) ensures Placed(g, j) {
      if j != s.current { assert Placed(d, j); }
    }
  }

  /** Between two steps everything is in its place and the process that runs is settled. */
  predicate Good(s: Sched, n: nat) {
    Inv(s) && Settled(s) && |s.procs| == n
  }

  lemma NextIsGood(s: Sched)
    requires Inv(s) && (s.current != IDLE && !s.procs[s.current].status.Asleep? ==> Settled(s))
    ensures Inv(Schedule(s)) && HeadRuns(Schedule(s)) && Good(Settle(Schedule(s)), |s.procs|)
  {
    ScheduleKeeps(s);
    SettleKeeps(Schedule(s));
  }

  lemma SleepIsGood(s: Sched, address: nat, wakeup: nat)
    requires Inv(s) && Settled(s) && s.current != IDLE && 0 < wakeup <= MAX_PRIORITY_LEVEL
    ensures Good(Sleep(s, address, wakeup), |s.procs|)
  {
    FallAsleepKeeps(s, address, wakeup);
    NextIsGood(FallAsleep(s, address, wakeup));
  }

  lemma WakeIsGood(s: Sched, address: nat)
    requires Inv(s) && Settled(s)
    ensures Good(WakeAll(s, address), |s.procs|) && Good(WakeOne(s, address), |s.procs|)
  {
    WakeAllExact(s, address);
    WakeOneExact(s, address);
  }

  lemma ExitIsGood(s: Sched)
    requires Inv(s) && Settled(s) && s.current != IDLE
    ensures Inv(Gone(s)) && Inv(Schedule(Gone(s))) && HeadRuns(Schedule(Gone(s)))
    ensures Good(Settle(Schedule(Gone(s))), |s.procs|)
  {
    GoneKeeps(s);
    NextIsGood(Gone(s));
  }

  function Apply(s: Sched, step: Step): (t: Sched)
    requires Inv(s) && Settled(s) && Enabled(s, step)
    ensures Good(t, |s.procs|)
  {
    match step
    case Reschedule => NextIsGood(s); Settle(Schedule(s))
    case FallIntoSleep(address, wakeup) => SleepIsGood(s, address, wakeup); Sleep(s, address, wakeup)
    case WakeUp(address) => WakeIsGood(s, address); WakeAll(s, address)
    case WakeUpOne(address) => WakeIsGood(s, address); WakeOne(s, address)
    case WakeUpProcess(k) => CurrentAwake(s); WakeKeeps(s, k); Wake(s, k)
    case Fork(k) => ForkIsGood(s, k); NewProcess(s, k, s.procs[s.current].base).(touched := true)
    case Create(k, base) => NewProcessKeeps(s, k, base); NewProcess(s, k, base)
    case SetPriority(k, base) => PriorityIsGood(s, k, base); SetProc(s, k, s.procs[k].(base := base)).(touched := true)
    case Exit => ExitIsGood(s); Settle(Schedule(Gone(s)))
  }

  predicate Runs(s: Sched, steps: seq<Step>)
    requires Inv(s) && Settled(s)
    decreases |steps|
  {
    steps == [] || (Enabled(s, steps[0]) && Runs(Apply(s, steps[0]), steps[1..]))
  }

  /** Every run keeps each process in exactly its place, with the one that runs at the head of its list. */
  function Run(s: Sched, steps: seq<Step>): (t: Sched)
    requires Inv(s) && Settled(s) && Runs(s, steps)
    ensures Inv(t) && Settled(t)
    decreases |steps|
  {
    if steps == [] then s else Run(Apply(s, steps[0]), steps[1..])
  }

  /** The state at start: nobody but IDLE. */
  function Start(n: nat): (s: Sched)
    requires n > 0
    ensures Inv(s) && Settled(s)
  {
    Sched(seq(n, i => Proc(Unused, 0, 0, 0, 0, 0, false)), seq(MAX_PRIORITY_LEVEL + 1, i => []),
          seq(SLEEP_BUCKETS, i => []), IDLE, true)
  }

  // ------------------------------------------------- semaphores

  /** A semaphore at an address that only down() and up() use: its value, and the number of
      processes it has admitted, a woken waiter among them. */
  datatype Sem = Sem(s: Sched, address: nat, value: nat, admitted: nat)

  /** Value and admitted processes make up the initial value n, and a positive value means that
      nobody waits. */
  predicate SemInv(m: Sem, n: nat) {
    && Inv(m.s) && Settled(m.s) && m.value + m.admitted == n
    && (m.value > 0 ==> Sleepers(m.s, m.address) == [])
  }

  datatype SemStep = Down(wakeup: nat) | Up | Other(step: Step)

  /** The other steps leave the sleepers on the semaphore alone. */
  predicate SemEnabled(m: Sem, step: SemStep) {
    match step
    case Down(wakeup) => m.s.current != IDLE && 0 < wakeup <= MAX_PRIORITY_LEVEL
    case Up => m.admitted > 0
    case Other(o) => Enabled(m.s, o) && Elsewhere(m, o)
  }

  predicate Elsewhere(m: Sem, o: Step) {
    match o
    case FallIntoSleep(address, _) => address != m.address
    case WakeUp(address) => address != m.address
    case WakeUpOne(address) => address != m.address
    case WakeUpProcess(k) => !Sleeps(m.s, k, m.address)
    case _ => true
  }

  /** down(): in, or to sleep; up(): a waiter gets the place, or the value rises. */
  function SemApply(m: Sem, step: SemStep, n: nat): Sem
    requires SemInv(m, n) && SemEnabled(m, step)
  {
    match step
    case Down(wakeup) =>
      if m.value > 0 then m.(value := m.value - 1, admitted := m.admitted + 1)
      else m.(s := Apply(m.s, FallIntoSleep(m.address, wakeup)))
    case Up =>
      if m.value > 0 || Sleepers(m.s, m.address) == [] then m.(value := m.value + 1, admitted := m.admitted - 1)
      else m.(s := Apply(m.s, WakeUpOne(m.address)))
    case Other(o) => m.(s := Apply(m.s, o))
  }

  /** Whether a process sleeps on the address does not change in a step that is not about it. */
  lemma OthersSleep(s: Sched, o: Step, address: nat, k: nat)
    requires Inv(s) && Settled(s) && Enabled(s, o) && k < |s.procs|
    requires o.FallIntoSleep? ==> o.address != address
    requires (o.WakeUp? || o.WakeUpOne?) ==> o.address != address
    requires o.WakeUpProcess? ==> !Sleeps(s, o.k, address)
    ensures Sleeps(Apply(s, o), k, address) <==> Sleeps(s, k, address)
  {
    match o
    case Reschedule =>
      CurrentAwake(s);
      NextSleeps(s, k, address);
    case FallIntoSleep(a, wakeup) => SleepOthers(s, a, wakeup, address, k);
    case WakeUp(a) =>
      WakeAllExact(s, a);
      assert WokenProc(s.procs[k], Apply(s, o).procs[k], k in Sleepers(s, a));
    case WakeUpOne(a) => WakeOthers(s, a, address, k);
    case Exit => ExitOthers(s, address, k);
    case _ =>
  }

  lemma SleepOthers(s: Sched, a: nat, wakeup: nat, address: nat, k: nat)
    requires Inv(s) && Settled(s) && Enabled(s, FallIntoSleep(a, wakeup)) && k < |s.procs| && a != address
    ensures Sleeps(Apply(s, FallIntoSleep(a, wakeup)), k, address) <==> Sleeps(s, k, address)
  {
    CurrentAwake(s);
    FallAsleepKeeps(s, a, wakeup);
    NextSleeps(FallAsleep(s, a, wakeup), k, address);
  }

  lemma WakeOthers(s: Sched, a: nat, address: nat, k: nat)
    requires Inv(s) && Settled(s) && Enabled(s, WakeUpOne(a)) && k < |s.procs| && a != address
    ensures Sleeps(Apply(s, WakeUpOne(a)), k, address) <==> Sleeps(s, k, address)
  {
    WakeOneExact(s, a);
    var xs := Sleepers(s, a);
    assert xs != [] ==> xs[0] in xs;
    assert WokenProc(s.procs[k], Apply(s, WakeUpOne(a)).procs[k], k in (if xs == [] then [] else [xs[0]]));
  }

  lemma ExitOthers(s: Sched, address: nat, k: nat)
    requires Inv(s) && Settled(s) && Enabled(s, Exit) && k < |s.procs|
    ensures Sleeps(Apply(s, Exit), k, address) <==> Sleeps(s, k, address)
  {
    CurrentAwake(s);
    GoneKeeps(s);
    NextSleeps(Gone(s), k, address);
  }

  /** Who sleeps does not depend on who runs next. */
  lemma NextSleeps(s: Sched, k: nat, address: nat)
    requires Inv(s) && (s.current != IDLE && !s.procs[s.current].status.Asleep? ==> Settled(s)) && k < |s.procs|
    ensures Inv(Schedule(s)) && HeadRuns(Schedule(s)) && |Schedule(s).procs| == |s.procs|
    ensures Sleeps(Settle(Schedule(s)), k, address) <==> Sleeps(s, k, address)
  {
    ScheduleKeeps(s);
    assert SameButUsage(s.procs[k], Schedule(s).procs[k]);
    ResumeAwake(Schedule(s), k, address);
  }

  lemma ResumeAwake(s: Sched, k: nat, address: nat)
    requires Inv(s) && HeadRuns(s) && k < |s.procs|
    ensures Sleeps(Settle(s), k, address) <==> Sleeps(s, k, address)
  {
    if s.current != IDLE { assert Placed(s, s.current); }
  }

  /** A new semaphore, on whose address nobody sleeps. */
  lemma SemStarts(s: Sched, address: nat, n: nat)
    requires Inv(s) && Settled(s) && forall k: nat :: k < |s.procs| ==> !Sleeps(s, k, address)
    ensures SemInv(Sem(s, address, n, 0), n)
  {
    NobodySleeps(s, address);
  }

  /** Semaphore conservation, step by step. */
  lemma SemKeeps(m: Sem, step: SemStep, n: nat)
    requires SemInv(m, n) && SemEnabled(m, step)
    ensures SemInv(SemApply(m, step, n), n)
  {
    var t := SemApply(m, step, n);
    if step.Other? && m.value > 0 {
      forall k: nat | k < |m.s.procs| ensures !Sleeps(t.s, k, m.address) {
        OthersSleep(m.s, step.step, m.address, k);
        assert Sleeps(m.s, k, m.address) <==> k in Sleepers(m.s, m.address);
      }
      NobodySleeps(t.s, m.address);
    }
  }

  /** up() with waiters makes exactly one of them runnable, and the value stays. */
  lemma UpWakesOne(m: Sem, n: nat)
    requires SemInv(m, n) && SemEnabled(m, Up) && Sleepers(m.s, m.address) != []
    ensures var t := SemApply(m, Up, n);
      t.value == m.value == 0 && Woken(m.s, t.s, [Sleepers(m.s, m.address)[0]])
  {
    WakeOneExact(m.s, m.address);
  }

  predicate SemRuns(m: Sem, steps: seq<SemStep>, n: nat)
    requires SemInv(m, n)
    decreases |steps|
  {
    steps == [] ||
      (SemEnabled(m, steps[0]) && (SemKeeps(m, steps[0], n); SemRuns(SemApply(m, steps[0], n), steps[1..], n)))
  }

  function SemRun(m: Sem, steps: seq<SemStep>, n: nat): Sem
    requires SemInv(m, n) && SemRuns(m, steps, n)
    decreases |steps|
  {
    if steps == [] then m
    else
      SemKeeps(m, steps[0], n);
      SemRun(SemApply(m, steps[0], n), steps[1..], n)
  }

  /** In every reachable state value and admitted processes make up the initial value. */
  lemma {:induction false} SemRunKeeps(m: Sem, steps: seq<SemStep>, n: nat)
    requires SemInv(m, n) && SemRuns(m, steps, n)
    ensures SemInv(SemRun(m, steps, n), n)
    decreases |steps|
  {
    if steps != [] {
      SemKeeps(m, steps[0], n);
      SemRunKeeps(SemApply(m, steps[0], n), steps[1..], n);
    }
  }
}
