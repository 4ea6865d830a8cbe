/** What the choice of scheduler() comes to, and what becomes of a process that sleeps. */
module SchedLaws {
  import opened SchedModel
  import opened SchedRuns

  /** scheduler() may be called here. */
  predicate Ready(s: Sched) {
    Inv(s) && (s.current != IDLE && !s.procs[s.current].status.Asleep? ==> Settled(s))
  }

  // ------------------------------------------------- who has how much time left

  /** The process runs and pays for it. */
  predicate Pays(s: Sched, k: nat)
    requires Sizes(s)
  {
    s.current != IDLE && k == s.current && !s.procs[k].status.Asleep?
  }

  /** The time a process has left when scheduler() looks for the next one. */
  function Left(s: Sched, k: nat): int
    requires Sizes(s) && k < |s.procs|
  {
    if Pays(s, k) then s.procs[k].usage - 1 else s.procs[k].usage
  }

  /** A process of level p is runnable when scheduler() looks for the next one. */
  ghost predicate Somebody(s: Sched, p: int)
    requires Sizes(s)
  {
    exists k: nat :: k < |s.procs| && Runnable(s, k) && Left(s, k) == p
  }

  predicate Runnable(s: Sched, k: nat)
    requires Sizes(s)
  {
    IsProc(s, k) && s.procs[k].status.Running?
  }

  /** The highest level at which scheduler() looks first. */
  function Top(s: Sched): nat
    requires Sizes(s)
  {
    if s.touched || s.current == IDLE then MAX_PRIORITY_LEVEL else s.procs[s.current].usage
  }

  /** Nobody up to the top level has time left, so all are given new time. */
  ghost predicate AllSpent(s: Sched)
    requires Sizes(s)
  {
    forall p :: 0 < p <= Top(s) ==> !Somebody(s, p)
  }

  /** The time of a process after scheduler(). */
  ghost function TimeAfter(s: Sched, k: nat): int
    requires Sizes(s) && k < |s.procs|
  {
    if AllSpent(s) && Runnable(s, k) && Left(s, k) == 0 then s.procs[k].base else Left(s, k)
  }

  lemma LevelOf(s: Sched, p: nat)
    requires Inv(s) && p <= MAX_PRIORITY_LEVEL
    ensures s.lists[p] == [] <==> forall k: nat :: k < |s.procs| && Runnable(s, k) ==> s.procs[k].usage != p
  {
    if s.lists[p] != [] {
      var k := s.lists[p][0];
      assert k in s.lists[p] && Members(s, s.lists[p]) && Placed(s, k);
    } else {
      forall k: nat | k < |s.procs| && Runnable(s, k) ensures s.procs[k].usage != p {
        assert Placed(s, k) && (k in s.lists[p] <==> s.procs[k].status.Running? && s.procs[k].usage == p);
      }
    }
  }

  /** After the running process has paid, the levels are as Left() says. */
  lemma ChargedLevels(s: Sched, c: Sched)
    requires Ready(s) && c == Charge(s).(touched := false)
    ensures Inv(c) && c.current == s.current && |c.procs| == |s.procs|
    ensures forall k: nat :: k < |s.procs| ==> c.procs[k] == s.procs[k].(usage := c.procs[k].usage)
    ensures forall k: nat :: k < |s.procs| ==> c.procs[k].usage == Left(s, k)
    ensures forall p: nat :: p <= MAX_PRIORITY_LEVEL ==> (c.lists[p] == [] <==> !Somebody(s, p))
    ensures forall k: nat :: k < |s.procs| ==> (Runnable(c, k) <==> Runnable(s, k))
  {
    ChargeKeeps(s);
    TouchKeeps(Charge(s), false);
    forall p: nat | p <= MAX_PRIORITY_LEVEL ensures c.lists[p] == [] <==> !Somebody(s, p) {
      LevelOf(c, p);
      if k: nat :| k < |s.procs| && Runnable(s, k) && Left(s, k) == p { assert Runnable(c, k); }
      if k: nat :| k < |c.procs| && Runnable(c, k) && c.procs[k].usage == p {
        assert Runnable(s, k) && Left(s, k) == p;
      }
    }
  }

  /** The time of a process once all are given new time. */
  function Given(s: Sched, k: nat): nat
    requires Sizes(s) && k < |s.procs|
  {
    if Runnable(s, k) && s.procs[k].usage == 0 then s.procs[k].base else s.procs[k].usage
  }

  /** A refill gives their base to those at level 0 and leaves the others alone, each of whom keeps
      his place. */
  lemma {:induction false} RefillLaw(s: Sched)
    requires Inv(s)
    ensures forall k: nat :: k < |s.procs| ==> Refill(s).procs[k].usage == Given(s, k)
    ensures forall p :: 0 < p <= MAX_PRIORITY_LEVEL ==> s.lists[p] <= Refill(s).lists[p]
    decreases |s.lists[0]|
  {
    if s.lists[0] == [] {
      LevelOf(s, 0);
    } else {
      var k := s.lists[0][0];
      assert k in s.lists[0] && Members(s, s.lists[0]) && Placed(s, k);
      var d := Delete(s, k);
      DeleteKeeps(s, k);
      var a := Append(d, k, s.procs[k].base);
      PutKeeps(d, k, s.procs[k].base, a);
      RefillLaw(a);
      RefillOne(s, k, a);
    }
  }

  lemma RefillOne(s: Sched, k: nat, a: Sched)
    requires Inv(s) && Inv(a) && Runnable(s, k) && s.procs[k].usage == 0 && 0 < s.procs[k].base <= MAX_PRIORITY_LEVEL
    requires s.lists[0] != [] && a == Append(Delete(s, k), k, s.procs[k].base)
    requires forall j: nat :: j < |a.procs| ==> Refill(a).procs[j].usage == Given(a, j)
    ensures forall j: nat :: j < |s.procs| ==> Refill(a).procs[j].usage == Given(s, j)
    ensures forall p :: 0 < p <= MAX_PRIORITY_LEVEL ==> s.lists[p] <= a.lists[p]
  {
  }

  // ------------------------------------------------- the choice

  /** Nothing but the times has changed, and they are as TimeAfter() says. */
  ghost predicate Times(s: Sched, t: Sched)
    requires Sizes(s)
  {
    && |t.procs| == |s.procs| && t.chains == s.chains
    && (forall k: nat :: k < |s.procs| ==> t.procs[k] == s.procs[k].(usage := t.procs[k].usage))
    && forall k: nat :: k < |s.procs| ==> t.procs[k].usage == TimeAfter(s, k)
  }

  /** The process that runs next is at the head of its level. Nobody stands above it up to the top
      level, and nobody at all once new time has been given. */
  ghost predicate RunsNext(s: Sched, t: Sched)
    requires Sizes(s) && Sizes(t)
  {
    t.current != IDLE ==>
      var q := t.procs[t.current].usage;
      && Runnable(t, t.current) && 0 < q <= MAX_PRIORITY_LEVEL
      && t.lists[q] != [] && t.lists[q][0] == t.current
      && (AllSpent(s) || q <= Top(s))
      && forall p :: q < p <= (if AllSpent(s) then MAX_PRIORITY_LEVEL else Top(s)) && p < |t.lists| ==> t.lists[p] == []
  }

  /** The law of scheduler(). */
  lemma ScheduleLaw(s: Sched)
    requires Ready(s)
    ensures var t := Schedule(s); Inv(t) && !t.touched && Times(s, t) && RunsNext(s, t)
    ensures Schedule(s).current == IDLE ==> forall k: nat :: k < |s.procs| ==> !Runnable(s, k)
  {
    var c := Charge(s).(touched := false);
    ChargedLevels(s, c);
    ScheduleKeeps(s);
    Nobody(s);
    TopLevel(s);
    var p := Pick(c.lists, Top(s));
    SpentIff(s, c, p);
    if p > 0 { OnTime(s, c, p); } else { NewTime(s, c); }
  }

  lemma OnTime(s: Sched, c: Sched, p: nat)
    requires Ready(s) && Inv(c) && c == Charge(s).(touched := false) && c.chains == s.chains
    requires |c.procs| == |s.procs| && Top(s) <= MAX_PRIORITY_LEVEL && p == Pick(c.lists, Top(s)) > 0 && !AllSpent(s)
    requires forall k: nat :: k < |s.procs| ==> c.procs[k] == s.procs[k].(usage := c.procs[k].usage)
    requires forall k: nat :: k < |s.procs| ==> c.procs[k].usage == Left(s, k)
    ensures var t := Choose(c, p); Sizes(t) && Times(s, t) && RunsNext(s, t)
  {
    HeadOf(c, p);
  }

  lemma NewTime(s: Sched, c: Sched)
    requires Ready(s) && Inv(c) && c == Charge(s).(touched := false) && c.chains == s.chains
    requires |c.procs| == |s.procs| && AllSpent(s)
    requires forall k: nat :: k < |s.procs| ==> c.procs[k] == s.procs[k].(usage := c.procs[k].usage)
    requires forall k: nat :: k < |s.procs| ==> c.procs[k].usage == Left(s, k)
    requires forall k: nat :: k < |s.procs| ==> (Runnable(c, k) <==> Runnable(s, k))
    ensures var r := Refill(c); var t := Choose(r, Pick(r.lists, MAX_PRIORITY_LEVEL));
      Sizes(t) && Times(s, t) && RunsNext(s, t)
  {
    RefillLaw(c);
    var r := Refill(c);
    var q := Pick(r.lists, MAX_PRIORITY_LEVEL);
    if q > 0 { HeadOf(r, q); }
    forall k: nat | k < |s.procs| ensures r.procs[k] == s.procs[k].(usage := TimeAfter(s, k)) {
      assert SameButUsage(c.procs[k], r.procs[k]);
    }
  }

  lemma TopLevel(s: Sched)
    requires Ready(s)
    ensures Top(s) <= MAX_PRIORITY_LEVEL && Top(s) == FirstLevel(s)
  {
    if s.current != IDLE { assert Placed(s, s.current); }
  }

  lemma SpentIff(s: Sched, c: Sched, p: nat)
    requires Sizes(s) && Sizes(c) && Top(s) <= MAX_PRIORITY_LEVEL && p == Pick(c.lists, Top(s))
    requires forall p: nat :: p <= MAX_PRIORITY_LEVEL ==> (c.lists[p] == [] <==> !Somebody(s, p))
    ensures p == 0 <==> AllSpent(s)
  {
    if p > 0 { assert Somebody(s, p); }
  }

  lemma HeadOf(c: Sched, p: nat)
    requires Inv(c) && 0 < p <= MAX_PRIORITY_LEVEL && c.lists[p] != []
    ensures IsProc(c, c.lists[p][0]) && Runnable(c, c.lists[p][0]) && c.procs[c.lists[p][0]].usage == p
  {
    assert c.lists[p][0] in c.lists[p] && Members(c, c.lists[p]) && Placed(c, c.lists[p][0]);
  }

  // ------------------------------------------------- nobody is overtaken at his level

  /** Those who wait at level p: all but the process that runs and pays. */
  function Waiting(s: Sched, p: nat): seq<nat>
    requires Sizes(s) && p < |s.lists|
  {
    if s.lists[p] != [] && Pays(s, s.lists[p][0]) then s.lists[p][1..] else s.lists[p]
  }

  /** Whoever waits at a level keeps his place there: the process that has paid and those given new
      time come behind him. */
  lemma PlacesKept(s: Sched)
    requires Ready(s)
    ensures forall p :: 0 < p <= MAX_PRIORITY_LEVEL ==> Waiting(s, p) <= Schedule(s).lists[p]
  {
    var c := Charge(s).(touched := false);
    ChargeKeeps(s);
    TouchKeeps(Charge(s), false);
    RefillLaw(c);
    TopLevel(s);
    forall p | 0 < p <= MAX_PRIORITY_LEVEL ensures Waiting(s, p) <= c.lists[p] { ChargedPlaces(s, c, p); }
  }

  lemma ChargedPlaces(s: Sched, c: Sched, p: nat)
    requires Ready(s) && c == Charge(s).(touched := false) && Sizes(c) && 0 < p <= MAX_PRIORITY_LEVEL
    ensures Waiting(s, p) <= c.lists[p]
  {
    if s.lists[p] != [] && s.current != IDLE && s.lists[p][0] == s.current && !s.procs[s.current].status.Asleep? {
      assert s.lists[p][0] in s.lists[p] && Placed(s, s.current);
    }
  }

  // ------------------------------------------------- a process that sleeps

  /** The process k, which had the time u, sleeps, or has been woken up at the level w and has yet to
      be chosen. */
  predicate Dozes(s: Sched, k: nat, u: nat, w: nat) {
    && IsProc(s, k) && s.procs[k].oldUsage == u && s.procs[k].wakeup == w && w > 0
    && (s.procs[k].status.Asleep? || (s.procs[k].status.Running? && s.procs[k].resuming && s.procs[k].usage == w))
  }

  /** It goes on with the time it had. */
  predicate GoesOn(s: Sched, k: nat, u: nat) {
    IsProc(s, k) && s.current == k && s.procs[k].status.Running? && s.procs[k].usage == u
  }

  predicate AwayOrOn(s: Sched, k: nat, u: nat, w: nat) {
    if s.current == k then GoesOn(s, k, u) else Dozes(s, k, u, w)
  }

  lemma NextDozes(s: Sched, k: nat, u: nat, w: nat)
    requires Ready(s) && Dozes(s, k, u, w) && (s.current == k ==> s.procs[k].status.Asleep?)
    ensures Inv(Schedule(s)) && HeadRuns(Schedule(s)) && AwayOrOn(Settle(Schedule(s)), k, u, w)
  {
    ScheduleLaw(s);
    ScheduleKeeps(s);
    var t := Schedule(s);
    assert t.procs[k].usage == TimeAfter(s, k) && t.procs[k] == s.procs[k];
    SettleOne(t, k, u, w);
  }

  lemma SettleOne(t: Sched, k: nat, u: nat, w: nat)
    requires Inv(t) && HeadRuns(t) && Dozes(t, k, u, w) && (t.current == k ==> t.procs[k].status.Running?)
    ensures AwayOrOn(Settle(t), k, u, w)
  {
    if t.current != IDLE { assert Placed(t, t.current); }
  }

  lemma SleepDozes(s: Sched, address: nat, wakeup: nat)
    requires Inv(s) && Settled(s) && Enabled(s, FallIntoSleep(address, wakeup))
    ensures AwayOrOn(Apply(s, FallIntoSleep(address, wakeup)), s.current, s.procs[s.current].usage, wakeup)
    ensures Apply(s, FallIntoSleep(address, wakeup)).current != s.current
  {
    var k, f := s.current, FallAsleep(s, address, wakeup);
    CurrentAwake(s);
    FallAsleepKeeps(s, address, wakeup);
    NextDozes(f, k, s.procs[k].usage, wakeup);
    ScheduleLaw(f);
    assert !Runnable(Schedule(f), k);
    ScheduleKeeps(f);
    SettleCurrent(Schedule(f));
  }

  lemma SettleCurrent(t: Sched)
    requires Inv(t) && HeadRuns(t)
    ensures Settle(t).current == t.current
  {
    if t.current != IDLE { assert Placed(t, t.current); }
  }

  lemma OtherSleepDozes(s: Sched, address: nat, wakeup: nat, k: nat, u: nat, w: nat)
    requires Inv(s) && Settled(s) && Enabled(s, FallIntoSleep(address, wakeup)) && Dozes(s, k, u, w) && s.current != k
    ensures AwayOrOn(Apply(s, FallIntoSleep(address, wakeup)), k, u, w)
  {
    FallAsleepKeeps(s, address, wakeup);
    NextDozes(FallAsleep(s, address, wakeup), k, u, w);
  }

  lemma ExitDozes(s: Sched, k: nat, u: nat, w: nat)
    requires Inv(s) && Settled(s) && Enabled(s, Exit) && Dozes(s, k, u, w) && s.current != k
    ensures AwayOrOn(Apply(s, Exit), k, u, w)
  {
    GoneKeeps(s);
    NextDozes(Gone(s), k, u, w);
  }

  lemma WokenDozes(s: Sched, t: Sched, xs: seq<nat>, k: nat, u: nat, w: nat)
    requires Dozes(s, k, u, w) && Woken(s, t, xs)
    ensures Dozes(t, k, u, w)
  {
    assert WokenProc(s.procs[k], t.procs[k], k in xs);
  }

  lemma StepDozes(s: Sched, step: Step, k: nat, u: nat, w: nat)
    requires Inv(s) && Settled(s) && Enabled(s, step) && Dozes(s, k, u, w) && s.current != k
    ensures AwayOrOn(Apply(s, step), k, u, w)
  {
    match step
    case Reschedule => NextDozes(s, k, u, w);
    case FallIntoSleep(address, wakeup) => OtherSleepDozes(s, address, wakeup, k, u, w);
    case WakeUp(address) =>
      WakeAllExact(s, address);
      WokenDozes(s, WakeAll(s, address), Sleepers(s, address), k, u, w);
    case WakeUpOne(address) =>
      WakeOneExact(s, address);
      var xs := Sleepers(s, address);
      WokenDozes(s, WakeOne(s, address), if xs == [] then [] else [xs[0]], k, u, w);
    case WakeUpProcess(j) =>
    case Fork(j) => CurrentAwake(s);
    case Create(j, _) =>
    case SetPriority(j, _) =>
    case Exit => ExitDozes(s, k, u, w);
  }

  /** The process k is not chosen on the way. */
  predicate Passed(s: Sched, steps: seq<Step>, k: nat)
    requires Inv(s) && Settled(s) && Runs(s, steps)
    decreases |steps|
  {
    steps == [] || (s.current != k && Passed(Apply(s, steps[0]), steps[1..], k))
  }

  lemma {:induction false} RunDozes(s: Sched, steps: seq<Step>, k: nat, u: nat, w: nat)
    requires Inv(s) && Settled(s) && Runs(s, steps) && AwayOrOn(s, k, u, w) && Passed(s, steps, k)
    ensures AwayOrOn(Run(s, steps), k, u, w)
    decreases |steps|
  {
    if steps != [] {
      StepDozes(s, steps[0], k, u, w);
      RunDozes(Apply(s, steps[0]), steps[1..], k, u, w);
    }
  }

  /** Sleeping costs no time and gives none: whatever the steps between, the process that falls
      asleep runs on, when it is first chosen again, with the time it had. Until then it sleeps, or
      stands at the level it asked for. */
  lemma SleepKeepsTime(s: Sched, address: nat, wakeup: nat, steps: seq<Step>)
    requires Inv(s) && Settled(s) && Enabled(s, FallIntoSleep(address, wakeup))
    requires var t := Apply(s, FallIntoSleep(address, wakeup)); Runs(t, steps) && Passed(t, steps, s.current)
    ensures var v := Run(Apply(s, FallIntoSleep(address, wakeup)), steps);
      AwayOrOn(v, s.current, s.procs[s.current].usage, wakeup)
  {
    SleepDozes(s, address, wakeup);
    RunDozes(Apply(s, FallIntoSleep(address, wakeup)), steps, s.current, s.procs[s.current].usage, wakeup);
  }

  // ------------------------------------------------- who is woken up, and what it leads to

  /** The one that falls asleep is the first of those on the address, as wakeup_one_process() finds
      them. */
  lemma SleepersStack(s: Sched, address: nat, wakeup: nat)
    requires Inv(s) && Settled(s) && Enabled(s, FallIntoSleep(address, wakeup))
    ensures Sleepers(Apply(s, FallIntoSleep(address, wakeup)), address) == [s.current] + Sleepers(s, address)
  {
    CurrentAwake(s);
    var k, b := s.current, Bucket(address);
    var f, t := FallAsleep(s, address, wakeup), Apply(s, FallIntoSleep(address, wakeup));
    FallAsleepKeeps(s, address, wakeup);
    ScheduleLaw(f);
    ScheduleKeeps(f);
    SettleChains(Schedule(f));
    assert f.chains[b] == [k] + s.chains[b] && ([k] + s.chains[b])[1..] == s.chains[b];
    assert k !in s.chains[b] by { assert Placed(s, k); }
    SameMatching(s, t, s.chains[b], address);
    assert t.procs[k].address == address;
  }

  lemma SettleChains(t: Sched)
    requires Inv(t) && HeadRuns(t)
    ensures Settle(t).chains == t.chains && |Settle(t).procs| == |t.procs|
    ensures forall k: nat :: k < |t.procs| ==> Settle(t).procs[k].address == t.procs[k].address
  {
    if t.current != IDLE { assert Placed(t, t.current); }
  }

  lemma {:induction false} SameMatching(s: Sched, t: Sched, xs: seq<nat>, address: nat)
    requires |t.procs| == |s.procs|
    requires forall k: nat :: k in xs && k < |s.procs| ==> t.procs[k].address == s.procs[k].address
    ensures Matching(t, xs, address) == Matching(s, xs, address)
  {
    if xs != [] { SameMatching(s, t, xs[1..], address); }
  }

  /** Those woken up come behind the ones at their level, and the next scheduler() looks from the top. */
  lemma {:induction false} WakeListPlaces(s: Sched, xs: seq<nat>)
    requires Inv(s) && AllAsleep(s, xs)
    ensures WakeList(s, xs).touched == (s.touched || xs != []) && |WakeList(s, xs).lists| == |s.lists|
    ensures forall p :: 0 <= p < |s.lists| ==> s.lists[p] <= WakeList(s, xs).lists[p]
    decreases |xs|
  {
    if xs != [] {
      WakeKeeps(s, xs[0]);
      AsleepAfter(s, xs);
      WakeListPlaces(Wake(s, xs[0]), xs[1..]);
    }
  }

  /** wakeup(): the next scheduler() passes over none of those it has woken up for a lower level. */
  lemma WokenComeFirst(s: Sched, address: nat)
    requires Inv(s) && Settled(s) && Sleepers(s, address) != []
    ensures Inv(WakeAll(s, address)) && Settled(WakeAll(s, address))
    ensures var t := Schedule(WakeAll(s, address));
      && t.current != IDLE
      && forall k: nat :: k < |t.procs| && Runnable(t, k) ==> t.procs[k].usage <= t.procs[t.current].usage
  {
    WakeAllExact(s, address);
    var w := WakeAll(s, address);
    WakeListPlaces(s, Sleepers(s, address));
    ScheduleLaw(w);
    var t, x := Schedule(w), Sleepers(s, address)[0];
    assert x in Sleepers(s, address) && Sleeps(s, x, address) && WokenProc(s.procs[x], w.procs[x], true);
    assert Runnable(w, x);
    HighestIs(w, t);
  }

  lemma HighestIs(w: Sched, t: Sched)
    requires Sizes(w) && Inv(t) && RunsNext(w, t) && t.current != IDLE && Top(w) == MAX_PRIORITY_LEVEL
    ensures forall k: nat :: k < |t.procs| && Runnable(t, k) ==> t.procs[k].usage <= t.procs[t.current].usage
  {
    forall k: nat | k < |t.procs| && Runnable(t, k) ensures t.procs[k].usage <= t.procs[t.current].usage {
      assert Placed(t, k);
      LevelOf(t, t.procs[k].usage);
    }
  }

  /** A child comes last at its parent's base priority, and the next scheduler() looks from the top. */
  lemma ForkPlaces(s: Sched, k: nat)
    requires Inv(s) && Settled(s) && Enabled(s, Fork(k))
    ensures var t, base := Apply(s, Fork(k)), s.procs[s.current].base;
      && t.touched && base <= MAX_PRIORITY_LEVEL && t.procs[k].base == base && t.procs[k].usage == base
      && t.lists == s.lists[base := s.lists[base] + [k]]
  {
    ForkIsGood(s, k);
  }
}
