/** Processes, the priority lists of the scheduler and the chains of sleepers, as values. */
module SchedModel {
  import opened Rings

  const MAX_PRIORITY_LEVEL := 55
  const SLEEP_BUCKETS := 67
  const IDLE := 0

  datatype Status = Unused | Running | Asleep

  /** usage is sched_data[].cpu_usage, base its priority; the rest is in the u_area. resuming says
      that the process has been woken up and has yet to leave sleep(). */
  datatype Proc = Proc(status: Status, usage: nat, base: nat, address: nat, wakeup: nat, oldUsage: nat, resuming: bool)

  /** lists[p] is the list of priority p, chains[b] the chain of bucket b. */
  datatype Sched = Sched(procs: seq<Proc>, lists: seq<seq<nat>>, chains: seq<seq<nat>>, current: nat, touched: bool)

  function Bucket(address: nat): (b: nat)
    ensures b < SLEEP_BUCKETS
  {
    address % SLEEP_BUCKETS
  }

  // ------------------------------------------------- the invariant

  /** No element is twice in the lists. */
  predicate Distinct(lists: seq<seq<nat>>) {
    forall p, i, q, j :: 0 <= p < |lists| && 0 <= q < |lists| && 0 <= i < |lists[p]| && 0 <= j < |lists[q]| ==>
      lists[p][i] == lists[q][j] ==> p == q && i == j
  }

  predicate Sizes(s: Sched) {
    |s.lists| == MAX_PRIORITY_LEVEL + 1 && |s.chains| == SLEEP_BUCKETS && |s.procs| > 0 && s.current < |s.procs|
  }

  /** A process other than IDLE. */
  predicate IsProc(s: Sched, k: nat) {
    IDLE < k < |s.procs|
  }

  /** A runnable process is in the list its cpu_usage names, a sleeping one in the chain of its
      address, and each is nowhere else. */
  predicate Placed(s: Sched, k: nat)
    requires Sizes(s) && IsProc(s, k)
  {
    var x := s.procs[k];
    && (!x.status.Unused? ==> x.usage <= MAX_PRIORITY_LEVEL)
    && (forall p :: 0 <= p <= MAX_PRIORITY_LEVEL ==> (k in s.lists[p] <==> x.status.Running? && x.usage == p))
    && (forall b :: 0 <= b < SLEEP_BUCKETS ==> (k in s.chains[b] <==> x.status.Asleep? && Bucket(x.address) == b))
    && (x.status.Asleep? || x.resuming ==> 0 < x.wakeup <= MAX_PRIORITY_LEVEL && 0 < x.oldUsage <= MAX_PRIORITY_LEVEL)
    && (x.resuming ==> x.status.Running? && x.usage == x.wakeup)
    && (!x.status.Unused? ==> 0 < x.base <= MAX_PRIORITY_LEVEL)
  }

  /** Only processes are in lists and chains, none twice. */
  predicate Lists(s: Sched)
    requires Sizes(s)
  {
    && Distinct(s.lists) && Distinct(s.chains)
    && (forall p :: 0 <= p <= MAX_PRIORITY_LEVEL ==> Members(s, s.lists[p]))
    && (forall b :: 0 <= b < SLEEP_BUCKETS ==> Members(s, s.chains[b]))
  }

  predicate Members(s: Sched, xs: seq<nat>) {
    forall i :: 0 <= i < |xs| ==> IsProc(s, xs[i])
  }

  predicate Inv(s: Sched) {
    Sizes(s) && Lists(s) && forall k: nat {:trigger Placed(s, k)} :: k < |s.procs| && IsProc(s, k) ==> Placed(s, k)
  }

  /** The process that runs is the head of its list, which is not the one of level 0. */
  predicate HeadRuns(s: Sched)
    requires Sizes(s)
  {
    s.current != IDLE ==>
      var u := s.procs[s.current].usage;
      0 < u <= MAX_PRIORITY_LEVEL && s.lists[u] != [] && s.lists[u][0] == s.current
  }

  /** It has left sleep(), too. */
  predicate Settled(s: Sched)
    requires Sizes(s)
  {
    HeadRuns(s) && (s.current != IDLE ==> !s.procs[s.current].resuming)
  }

  // ------------------------------------------------- the list operations

  function SetProc(s: Sched, k: nat, x: Proc): Sched
    requires k < |s.procs|
  {
    s.(procs := s.procs[k := x])
  }

  /** new_schedulable_process(): to the tail of the list of a priority. */
  function Append(s: Sched, k: nat, priority: nat): Sched
    requires k < |s.procs| && priority < |s.lists|
  {
    SetProc(s, k, s.procs[k].(usage := priority)).(lists := s.lists[priority := s.lists[priority] + [k]])
  }

  /** delete_schedulable_process(): the head of its list leaves it. */
  function Delete(s: Sched, k: nat): Sched
    requires k < |s.procs| && s.procs[k].usage < |s.lists| && s.lists[s.procs[k].usage] != []
  {
    s.(lists := s.lists[s.procs[k].usage := s.lists[s.procs[k].usage][1..]])
  }

  /** restore_schedulable_process(): to the head of the list of a priority. */
  function Restore(s: Sched, k: nat, priority: nat): Sched
    requires k < |s.procs| && priority < |s.lists|
  {
    SetProc(s, k, s.procs[k].(usage := priority)).(lists := s.lists[priority := [k] + s.lists[priority]])
  }

  /** In all lists but its own, the process is as it was; in no list at all when it is taken out. */
  predicate Off(s: Sched, k: nat)
    requires Sizes(s)
  {
    forall p :: 0 <= p <= MAX_PRIORITY_LEVEL ==> k !in s.lists[p]
  }

  /** The invariant but for the process k, which is runnable and in no list. */
  predicate InvBut(s: Sched, k: nat) {
    && Sizes(s) && Lists(s) && IsProc(s, k) && Off(s, k)
    && s.procs[k].status.Running? && 0 < s.procs[k].base <= MAX_PRIORITY_LEVEL
    && (s.procs[k].resuming ==> 0 < s.procs[k].wakeup <= MAX_PRIORITY_LEVEL)
    && (s.procs[k].resuming ==> 0 < s.procs[k].oldUsage <= MAX_PRIORITY_LEVEL)
    && (forall b :: 0 <= b < SLEEP_BUCKETS ==> k !in s.chains[b])
    && forall j: nat {:trigger Placed(s, j)} :: j < |s.procs| && IsProc(s, j) && j != k ==> Placed(s, j)
  }

  lemma DeleteKeeps(s: Sched, k: nat)
    requires Inv(s) && IsProc(s, k) && s.procs[k].status.Running?
    requires s.procs[k].usage <= MAX_PRIORITY_LEVEL && s.lists[s.procs[k].usage] != []
    requires s.lists[s.procs[k].usage][0] == k
    ensures InvBut(Delete(s, k), k)
  {
    var d, u := Delete(s, k), s.procs[k].usage;
    assert Placed(s, k);
    assert s.lists[u] == [k] + d.lists[u];
    forall x | x in d.lists[u] ensures x in s.lists[u] && x != k {
      var i :| 0 <= i < |d.lists[u]| && d.lists[u][i] == x;
      assert s.lists[u][i + 1] == x && s.lists[u][0] == k;
    }
    forall x | x in s.lists[u] && x != k ensures x in d.lists[u] {}
    forall p, i, q, j | 0 <= p < |d.lists| && 0 <= q < |d.lists| && 0 <= i < |d.lists[p]| && 0 <= j < |d.lists[q]|
        && d.lists[p][i] == d.lists[q][j]
      ensures p == q && i == j
    {
      assert d.lists[p][i] == s.lists[p][if p == u then i + 1 else i];
      assert d.lists[q][j] == s.lists[q][if q == u then j + 1 else j];
    }
    forall j: nat | j < |d.procs| && IsProc(d, j) && j != k ensures Placed(d, j) {
      assert Placed(s, j);
    }
  }

  lemma PutKeeps(s: Sched, k: nat, priority: nat, t: Sched)
    requires InvBut(s, k) && priority <= MAX_PRIORITY_LEVEL
    requires t == Append(s, k, priority) || t == Restore(s, k, priority)
    requires s.procs[k].resuming ==> priority == s.procs[k].wakeup
    ensures Inv(t)
  {
    forall x ensures x in t.lists[priority] <==> x in s.lists[priority] || x == k {}
    forall p, i, q, j | 0 <= p < |t.lists| && 0 <= q < |t.lists| && 0 <= i < |t.lists[p]| && 0 <= j < |t.lists[q]|
        && t.lists[p][i] == t.lists[q][j]
      ensures p == q && i == j
    {
      PutAt(s, k, priority, t, p, i);
      PutAt(s, k, priority, t, q, j);
    }
    forall j: nat | j < |t.procs| && IsProc(t, j) ensures Placed(t, j) {
      if j != k { assert Placed(s, j); }
    }
  }

  lemma PutAt(s: Sched, k: nat, priority: nat, t: Sched, p: nat, i: nat)
    requires InvBut(s, k) && priority <= MAX_PRIORITY_LEVEL
    requires t == Append(s, k, priority) || t == Restore(s, k, priority)
    requires p < |t.lists| && i < |t.lists[p]|
    ensures t.lists[p][i] == k || exists j :: 0 <= j < |s.lists[p]| && s.lists[p][j] == t.lists[p][i]
    ensures t.lists[p][i] == k <==> p == priority && i == (if t == Append(s, k, priority) then |s.lists[p]| else 0)
  {
  }

  // ------------------------------------------------- the scheduler

  /** The highest level from p down to 1 with a process, or 0. */
  function Pick(lists: seq<seq<nat>>, p: nat): (q: nat)
    requires p < |lists|
    ensures q <= p && (q > 0 ==> lists[q] != [])
    ensures forall r :: q < r <= p ==> lists[r] == []
  {
    if p == 0 || lists[p] != [] then p else Pick(lists, p - 1)
  }

  /** The processes that have used up their time go back to their base priorities. */
  function Refill(s: Sched): (t: Sched)
    requires Inv(s)
    ensures Inv(t) && t.lists[0] == [] && t.current == s.current && t.touched == s.touched && t.chains == s.chains
    ensures |t.procs| == |s.procs|
    ensures forall k: nat :: k < |s.procs| ==> SameButUsage(s.procs[k], t.procs[k])
    decreases |s.lists[0]|
  {
    if s.lists[0] == [] then s
    else
      var k := s.lists[0][0];
      assert k in s.lists[0] && Members(s, s.lists[0]) && Placed(s, k);
      var d := Delete(s, k);
      DeleteKeeps(s, k);
      var a := Append(d, k, s.procs[k].base);
      PutKeeps(d, k, s.procs[k].base, a);
      Refill(a)
  }

  predicate SameButUsage(x: Proc, y: Proc) {
    y == x.(usage := y.usage)
  }

  /** scheduler(), before it chooses: the running process has used up some of its time. */
  function Charge(s: Sched): Sched
    requires Inv(s) && (s.current != IDLE && !s.procs[s.current].status.Asleep? ==> Settled(s))
  {
    if s.current == IDLE || s.procs[s.current].status.Asleep? then s
    else Append(Delete(s, s.current), s.current, s.procs[s.current].usage - 1)
  }

  /** The level at which the search starts. */
  function FirstLevel(s: Sched): nat
    requires Sizes(s)
  {
    if s.current == IDLE || s.touched || s.procs[s.current].usage > MAX_PRIORITY_LEVEL then MAX_PRIORITY_LEVEL
    else s.procs[s.current].usage
  }

  function Choose(s: Sched, p: nat): Sched
    requires p < |s.lists| && (p > 0 ==> s.lists[p] != [])
  {
    s.(current := if p == 0 then IDLE else s.lists[p][0])
  }

  /** scheduler(). */
  function Schedule(s: Sched): (t: Sched)
    requires Inv(s) && (s.current != IDLE && !s.procs[s.current].status.Asleep? ==> Settled(s))
  {
    ChargeKeeps(s);
    var c := Charge(s).(touched := false);
    TouchKeeps(Charge(s), false);
    var p := Pick(c.lists, FirstLevel(s));
    if p > 0 then Choose(c, p)
    else
      var r := Refill(c);
      Choose(r, Pick(r.lists, MAX_PRIORITY_LEVEL))
  }

  lemma TouchKeeps(s: Sched, touched: bool)
    requires Inv(s)
    ensures Inv(s.(touched := touched))
  {
    var t := s.(touched := touched);
    forall k: nat | k < |t.procs| && IsProc(t, k) ensures Placed(t, k) { assert Placed(s, k); }
  }

  lemma CurrentKeeps(s: Sched, k: nat)
    requires Inv(s) && k < |s.procs|
    ensures Inv(s.(current := k))
  {
    var t := s.(current := k);
    forall j: nat | j < |t.procs| && IsProc(t, j) ensures Placed(t, j) { assert Placed(s, j); }
  }

  lemma ChargeKeeps(s: Sched)
    requires Inv(s) && (s.current != IDLE && !s.procs[s.current].status.Asleep? ==> Settled(s))
    ensures Inv(Charge(s))
  {
    var k := s.current;
    if k != IDLE && !s.procs[k].status.Asleep? {
      var u := s.procs[k].usage;
      assert s.lists[u][0] in s.lists[u] && Placed(s, k);
      DeleteKeeps(s, k);
      PutKeeps(Delete(s, k), k, u - 1, Charge(s));
    }
  }

  /** The scheduler keeps everything in its place and picks the head of a list; it picks IDLE if
      and only if no process is runnable. */
  lemma ScheduleKeeps(s: Sched)
    requires Inv(s) && (s.current != IDLE && !s.procs[s.current].status.Asleep? ==> Settled(s))
    ensures Inv(Schedule(s)) && HeadRuns(Schedule(s))
    ensures Schedule(s).current == IDLE <==> AllEmpty(s)
    ensures |Schedule(s).procs| == |s.procs| && Schedule(s).chains == s.chains
    ensures forall k: nat :: k < |s.procs| ==> SameButUsage(s.procs[k], Schedule(s).procs[k])
  {
    ChargeKeeps(s);
    TouchKeeps(Charge(s), false);
    var c := Charge(s).(touched := false);
    var p := Pick(c.lists, FirstLevel(s));
    var r := if p > 0 then c else Refill(c);
    var q := if p > 0 then p else Pick(r.lists, MAX_PRIORITY_LEVEL);
    assert Schedule(s) == Choose(r, q);
    ChooseKeeps(r, q);
    forall k: nat | k < |s.procs| ensures SameButUsage(s.procs[k], r.procs[k]) {
      assert SameButUsage(s.procs[k], c.procs[k]);
    }
    SameNobody(s, r);
  }

  lemma ChooseKeeps(r: Sched, q: nat)
    requires Inv(r) && q <= MAX_PRIORITY_LEVEL && (q > 0 ==> r.lists[q] != [])
    ensures Inv(Choose(r, q)) && HeadRuns(Choose(r, q))
    ensures Choose(r, q).procs == r.procs && Choose(r, q).chains == r.chains
    ensures Choose(r, q).current == IDLE <==> q == 0
  {
    if q > 0 { assert r.lists[q][0] in r.lists[q] && Members(r, r.lists[q]) && Placed(r, r.lists[q][0]); }
    CurrentKeeps(r, Choose(r, q).current);
  }

  predicate AllEmpty(s: Sched)
    requires Sizes(s)
  {
    forall p :: 0 <= p <= MAX_PRIORITY_LEVEL ==> s.lists[p] == []
  }

  /** The lists are all empty if and only if no process is runnable. */
  lemma Nobody(s: Sched)
    requires Inv(s)
    ensures AllEmpty(s) <==> forall k: nat :: k < |s.procs| && IsProc(s, k) ==> !s.procs[k].status.Running?
  {
    if AllEmpty(s) {
      forall k: nat | k < |s.procs| && IsProc(s, k) ensures !s.procs[k].status.Running? {
        var u := s.procs[k].usage;
        assert Placed(s, k) && (u <= MAX_PRIORITY_LEVEL ==> (k in s.lists[u] <==> s.procs[k].status.Running?));
      }
    } else {
      var p :| 0 <= p <= MAX_PRIORITY_LEVEL && s.lists[p] != [];
      var k := s.lists[p][0];
      assert k in s.lists[p] && Members(s, s.lists[p]) && Placed(s, k);
    }
  }

  lemma SameNobody(s: Sched, t: Sched)
    requires Inv(s) && Inv(t) && |t.procs| == |s.procs|
    requires forall k: nat :: k < |s.procs| ==> SameButUsage(s.procs[k], t.procs[k])
    ensures AllEmpty(s) <==> AllEmpty(t)
  {
    Nobody(s);
    Nobody(t);
    forall k: nat | k < |s.procs| ensures s.procs[k].status == t.procs[k].status {
      assert SameButUsage(s.procs[k], t.procs[k]);
    }
  }

  // ------------------------------------------------- sleep() and wakeup()

  /** The end of sleep(): the process goes to the head of the list it came from. */
  function Resume(s: Sched): Sched
    requires Inv(s) && HeadRuns(s) && s.current != IDLE && s.procs[s.current].oldUsage <= MAX_PRIORITY_LEVEL
  {
    var d := Delete(s, s.current);
    Restore(SetProc(d, s.current, d.procs[s.current].(resuming := false)), s.current, s.procs[s.current].oldUsage)
  }

  /** A process that scheduler() has picked leaves sleep() first. */
  function Settle(s: Sched): Sched
    requires Inv(s) && HeadRuns(s)
  {
    if s.current != IDLE && s.procs[s.current].resuming then
      assert Placed(s, s.current);
      Resume(s)
    else s
  }

  lemma SettleKeeps(s: Sched)
    requires Inv(s) && HeadRuns(s)
    ensures Inv(Settle(s)) && Settled(Settle(s))
  {
    var k := s.current;
    if k != IDLE && s.procs[k].resuming {
      assert Placed(s, k);
      DeleteKeeps(s, k);
      var d := Delete(s, k);
      var e := SetProc(d, k, d.procs[k].(resuming := false));
      forall j: nat | j < |e.procs| && IsProc(e, j) && j != k ensures Placed(e, j) { assert Placed(d, j); }
      PutKeeps(e, k, s.procs[k].oldUsage, Settle(s));
    }
  }

  /** The running process goes to sleep on an address. */
  function FallAsleep(s: Sched, address: nat, wakeup: nat): Sched
    requires Inv(s) && Settled(s) && s.current != IDLE
  {
    var k, b := s.current, Bucket(address);
    var d := Delete(s, k);
    SetProc(d, k, d.procs[k].(status := Asleep, address := address, wakeup := wakeup, oldUsage := s.procs[k].usage))
      .(chains := s.chains[b := [k] + s.chains[b]])
  }

  lemma FallAsleepKeeps(s: Sched, address: nat, wakeup: nat)
    requires Inv(s) && Settled(s) && s.current != IDLE && 0 < wakeup <= MAX_PRIORITY_LEVEL
    ensures Inv(FallAsleep(s, address, wakeup))
  {
    var k, b := s.current, Bucket(address);
    assert s.lists[s.procs[k].usage][0] in s.lists[s.procs[k].usage] && Placed(s, k);
    DeleteKeeps(s, k);
    var d, t := Delete(s, k), FallAsleep(s, address, wakeup);
    forall x ensures x in t.chains[b] <==> x in d.chains[b] || x == k {}
    forall p, i, q, j | 0 <= p < |t.chains| && 0 <= q < |t.chains| && 0 <= i < |t.chains[p]| && 0 <= j < |t.chains[q]|
        && t.chains[p][i] == t.chains[q][j]
      ensures p == q && i == j
    {
      assert p == b && i > 0 ==> t.chains[p][i] == d.chains[p][i - 1];
      assert q == b && j > 0 ==> t.chains[q][j] == d.chains[q][j - 1];
    }
    forall j: nat | j < |t.procs| && IsProc(t, j) ensures Placed(t, j) {
      if j != k { assert Placed(d, j); }
    }
  }

  /** sleep(), up to the moment the next process runs on. */
  function Sleep(s: Sched, address: nat, wakeup: nat): Sched
    requires Inv(s) && Settled(s) && s.current != IDLE && 0 < wakeup <= MAX_PRIORITY_LEVEL
  {
    FallAsleepKeeps(s, address, wakeup);
    ScheduleKeeps(FallAsleep(s, address, wakeup));
    Settle(Schedule(FallAsleep(s, address, wakeup)))
  }

  /** A sleeping process becomes runnable at its wakeup priority. */
  function Wake(s: Sched, k: nat): Sched
    requires Sizes(s) && k < |s.procs| && s.procs[k].wakeup <= MAX_PRIORITY_LEVEL
  {
    var b := Bucket(s.procs[k].address);
    Append(SetProc(s, k, s.procs[k].(status := Running, resuming := true)), k, s.procs[k].wakeup)
      .(chains := s.chains[b := Without(s.chains[b], k)], touched := true)
  }

  lemma WakeKeeps(s: Sched, k: nat)
    requires Inv(s) && IsProc(s, k) && s.procs[k].status.Asleep?
    ensures s.procs[k].wakeup <= MAX_PRIORITY_LEVEL && Inv(Wake(s, k))
    ensures Settled(s) && s.current != k ==> Settled(Wake(s, k))
  {
    assert Placed(s, k);
    var b := Bucket(s.procs[k].address);
    var m := SetProc(s, k, s.procs[k].(status := Running, resuming := true))
      .(chains := s.chains[b := Without(s.chains[b], k)], touched := true);
    UnchainKeeps(s, k, m);
    PutKeeps(m, k, s.procs[k].wakeup, Wake(s, k));
  }

  lemma UnchainKeeps(s: Sched, k: nat, m: Sched)
    requires Inv(s) && IsProc(s, k) && s.procs[k].status.Asleep?
    requires m == SetProc(s, k, s.procs[k].(status := Running, resuming := true)).(touched := true,
      chains := s.chains[Bucket(s.procs[k].address) := Without(s.chains[Bucket(s.procs[k].address)], k)])
    ensures InvBut(m, k)
  {
    var b := Bucket(s.procs[k].address);
    assert Placed(s, k) && k in s.chains[b];
    forall x ensures x in m.chains[b] <==> x in s.chains[b] && x != k { WithoutIn(s.chains[b], k, x); }
    ChainCut(s.chains, b, k);
    forall j: nat | j < |m.procs| && IsProc(m, j) && j != k ensures Placed(m, j) { assert Placed(s, j); }
    forall i | 0 <= i < |m.chains[b]| ensures IsProc(m, m.chains[b][i]) { assert m.chains[b][i] in s.chains[b]; }
  }

  lemma ChainCut(chains: seq<seq<nat>>, b: nat, k: nat)
    requires Distinct(chains) && b < |chains| && k in chains[b]
    ensures Distinct(chains[b := Without(chains[b], k)])
  {
    var xs := chains[b];
    var i :| 0 <= i < |xs| && xs[i] == k;
    WithoutAt(xs, i);
    var ys := Without(xs, k);
    var cut := chains[b := ys];
    forall p, m, q, n | 0 <= p < |cut| && 0 <= q < |cut| && 0 <= m < |cut[p]| && 0 <= n < |cut[q]|
        && cut[p][m] == cut[q][n]
      ensures p == q && m == n
    {
      assert cut[p][m] == chains[p][if p == b && m >= i then m + 1 else m];
      assert cut[q][n] == chains[q][if q == b && n >= i then n + 1 else n];
    }
  }

  /** The processes of a chain that sleep on the address, in order. */
  function Matching(s: Sched, xs: seq<nat>, address: nat): seq<nat> {
    if xs == [] then []
    else if xs[0] < |s.procs| && s.procs[xs[0]].address == address then [xs[0]] + Matching(s, xs[1..], address)
    else Matching(s, xs[1..], address)
  }

  function WakeList(s: Sched, xs: seq<nat>): Sched
    requires Inv(s) && AllAsleep(s, xs)
    decreases |xs|
  {
    if xs == [] then s
    else
      WakeKeeps(s, xs[0]);
      AsleepAfter(s, xs);
      WakeList(Wake(s, xs[0]), xs[1..])
  }

  /** Different processes, all asleep. */
  predicate AllAsleep(s: Sched, xs: seq<nat>) {
    && (forall i :: 0 <= i < |xs| ==> IsProc(s, xs[i]) && s.procs[xs[i]].status.Asleep?)
    && forall i, j :: 0 <= i < j < |xs| ==> xs[i] != xs[j]
  }

  lemma AsleepAfter(s: Sched, xs: seq<nat>)
    requires Inv(s) && AllAsleep(s, xs) && xs != [] && s.procs[xs[0]].wakeup <= MAX_PRIORITY_LEVEL
    ensures AllAsleep(Wake(s, xs[0]), xs[1..])
  {
  }
}
