/** The linked lists of kernel/sched.c and kernel/sleep.c, in arrays. */
module SchedQueues {
  import opened Basics
  import opened SchedModel

  /** A list with a head and a tail, linked by next; 0 ends it. */
  predicate QueueOk(head: nat, tail: nat, next: seq<nat>, xs: seq<nat>) {
    && (forall i :: 0 <= i < |xs| ==> 0 < xs[i] < |next|)
    && ChainOk(head, next, xs)
    && tail == if xs == [] then 0 else xs[|xs| - 1]
  }

  /** A list with a head only. */
  predicate ChainOk(head: nat, next: seq<nat>, xs: seq<nat>) {
    && head == (if xs == [] then 0 else xs[0])
    && forall i :: 0 <= i < |xs| ==> LinkAt(next, xs, i)
  }

  predicate LinkAt(next: seq<nat>, xs: seq<nat>, i: nat)
    requires i < |xs|
  {
    0 < xs[i] < |next| && next[xs[i]] == if i + 1 < |xs| then xs[i + 1] else 0
  }

  /** k is in no list. */
  predicate Loose(lists: seq<seq<nat>>, k: nat) {
    forall p, i :: 0 <= p < |lists| && 0 <= i < |lists[p]| ==> lists[p][i] != k
  }

  lemma OthersKept(lists: seq<seq<nat>>, p: nat, k: nat, next: seq<nat>, next': seq<nat>, q: nat, head: nat)
    requires Distinct(lists) && p < |lists| && q < |lists| && p != q && ChainOk(head, next, lists[q])
    requires |next'| == |next|
    requires Loose(lists, k) || k in lists[p]
    requires forall x: nat :: x < |next| && x != k && x !in lists[p] ==> next'[x] == next[x]
    ensures ChainOk(head, next', lists[q])
  {
    forall i | 0 <= i < |lists[q]| ensures LinkAt(next', lists[q], i) {
      assert LinkAt(next, lists[q], i);
      forall j | 0 <= j < |lists[p]| ensures lists[p][j] != lists[q][i] {}
    }
  }

  lemma QueueAppend(head: nat, tail: nat, next: seq<nat>, xs: seq<nat>, k: nat, next': seq<nat>)
    requires QueueOk(head, tail, next, xs) && NoDup(xs) && k !in xs && 0 < k < |next| && |next'| == |next|
    requires next'[k] == 0 && (xs != [] ==> next'[tail] == k)
    requires forall x: nat :: x < |next| && x != k && (xs != [] ==> x != tail) ==> next'[x] == next[x]
    ensures QueueOk(if xs == [] then k else head, k, next', xs + [k])
  {
    var ys := xs + [k];
    forall i | 0 <= i < |ys| ensures LinkAt(next', ys, i) {
      if i < |xs| { assert LinkAt(next, xs, i); }
      if i < |xs| - 1 { assert xs[i] != xs[|xs| - 1]; }
    }
  }

  lemma QueueRest(head: nat, tail: nat, next: seq<nat>, xs: seq<nat>)
    requires QueueOk(head, tail, next, xs) && xs != []
    ensures QueueOk(next[head], if next[head] == 0 then 0 else tail, next, xs[1..])
  {
    assert LinkAt(next, xs, 0);
    forall i | 0 <= i < |xs[1..]| ensures LinkAt(next, xs[1..], i) {
      assert LinkAt(next, xs, i + 1);
    }
  }

  lemma ChainPush(head: nat, next: seq<nat>, xs: seq<nat>, k: nat)
    requires ChainOk(head, next, xs) && k !in xs && 0 < k < |next|
    ensures ChainOk(k, next[k := head], [k] + xs)
  {
    var ys, after := [k] + xs, next[k := head];
    forall i | 0 <= i < |ys| ensures LinkAt(after, ys, i) {
      if i > 0 { assert LinkAt(next, xs, i - 1) && ys[i] == xs[i - 1]; }
    }
  }

  lemma ChainCutAt(head: nat, next: seq<nat>, xs: seq<nat>, i: nat)
    requires ChainOk(head, next, xs) && NoDup(xs) && i < |xs|
    ensures xs[i] < |next| && (i > 0 ==> xs[i - 1] < |next|)
    ensures var x := next[xs[i]]; var ys := xs[..i] + xs[i + 1..];
      if i == 0 then ChainOk(x, next, ys) else ChainOk(head, next[xs[i - 1] := x], ys)
  {
    var ys := xs[..i] + xs[i + 1..];
    assert LinkAt(next, xs, i);
    if i > 0 { assert LinkAt(next, xs, i - 1); }
    var after := if i == 0 then next else next[xs[i - 1] := next[xs[i]]];
    forall j | 0 <= j < |ys| ensures LinkAt(after, ys, j) {
      assert LinkAt(next, xs, if j < i then j else j + 1);
    }
  }

  class RunQueues {
    const head: array<nat>      // sched_head[]
    const tail: array<nat>      // sched_tail[]
    const next: array<nat>      // sched_data[].next
    ghost var lists: seq<seq<nat>>

    ghost predicate Valid()
      reads this, head, tail, next
    {
      && head != tail && head != next && tail != next
      && |lists| == head.Length == tail.Length == MAX_PRIORITY_LEVEL + 1 && Distinct(lists)
      && forall p :: 0 <= p < |lists| ==> QueueOk(head[p], tail[p], next[..], lists[p])
    }

    constructor (n: nat)
      ensures Valid() && next.Length == n && lists == seq(MAX_PRIORITY_LEVEL + 1, i => [])
      ensures fresh(head) && fresh(tail) && fresh(next)
    {
      head := new nat[MAX_PRIORITY_LEVEL + 1](i => 0);
      tail := new nat[MAX_PRIORITY_LEVEL + 1](i => 0);
      next := new nat[n](i => 0);
      lists := seq(MAX_PRIORITY_LEVEL + 1, i => []);
    }

    /** The links of new_schedulable_process(). */
    method Append(k: nat, p: nat)
      requires Valid() && p < |lists| && 0 < k < next.Length && Loose(lists, k)
      modifies this, head, tail, next
      ensures Valid() && lists == old(lists)[p := old(lists)[p] + [k]]
    {
      ghost var xs, nx := lists[p], next[..];
      assert QueueOk(head[p], tail[p], nx, xs);
      next[k] := 0;
      if head[p] != 0 { next[tail[p]] := k; } else { head[p] := k; }
      QueueAppend(old(head[p]), tail[p], nx, xs, k, next[..]);
      tail[p] := k;
      Others(p, k, nx);
      PutDistinct(lists, p, k, xs + [k]);
      lists := lists[p := xs + [k]];
    }

    /** The other lists after a change of the links of k and of the list p. */
    lemma Others(p: nat, k: nat, nx: seq<nat>)
      requires |lists| == head.Length == tail.Length && Distinct(lists) && p < |lists| && |nx| == next.Length
      requires Loose(lists, k) || k in lists[p]
      requires forall q :: 0 <= q < |lists| && q != p ==> QueueOk(head[q], tail[q], nx, lists[q])
      requires forall x: nat :: x < |nx| && x != k && x !in lists[p] ==> next[..][x] == nx[x]
      ensures forall q :: 0 <= q < |lists| && q != p ==> QueueOk(head[q], tail[q], next[..], lists[q])
    {
      forall q | 0 <= q < |lists| && q != p ensures QueueOk(head[q], tail[q], next[..], lists[q]) {
        OthersKept(lists, p, k, nx, next[..], q, head[q]);
      }
    }

    /** The links of delete_schedulable_process(). */
    method DeleteHead(k: nat, p: nat)
      requires Valid() && p < |lists| && lists[p] != [] && lists[p][0] == k
      modifies this, head, tail
      ensures Valid() && lists == old(lists)[p := old(lists)[p][1..]] && Loose(lists, k)
    {
      ghost var xs := lists[p];
      assert QueueOk(head[p], tail[p], next[..], xs);
      QueueRest(head[p], tail[p], next[..], xs);
      head[p] := next[k];
      if head[p] == 0 { tail[p] := 0; }
      CutDistinct(lists, p);
      lists := lists[p := xs[1..]];
    }

    /** The links of restore_schedulable_process(). */
    method Restore(k: nat, p: nat)
      requires Valid() && p < |lists| && 0 < k < next.Length && Loose(lists, k)
      modifies this, head, tail, next
      ensures Valid() && lists == old(lists)[p := [k] + old(lists)[p]]
    {
      ghost var xs, nx := lists[p], next[..];
      assert QueueOk(head[p], tail[p], nx, xs);
      ChainPush(head[p], nx, xs, k);
      next[k] := head[p];
      assert next[..] == nx[k := head[p]];
      head[p] := k;
      if tail[p] == 0 { tail[p] := k; }
      assert QueueOk(head[p], tail[p], next[..], [k] + xs);
      Others(p, k, nx);
      PutDistinct(lists, p, k, [k] + xs);
      lists := lists[p := [k] + xs];
    }
  }

  lemma PutDistinct(lists: seq<seq<nat>>, p: nat, k: nat, ys: seq<nat>)
    requires Distinct(lists) && p < |lists| && Loose(lists, k) && (ys == lists[p] + [k] || ys == [k] + lists[p])
    ensures Distinct(lists[p := ys])
  {
    var after, front := lists[p := ys], ys == [k] + lists[p];
    forall q, i, r, j | 0 <= q < |after| && 0 <= r < |after| && 0 <= i < |after[q]| && 0 <= j < |after[r]|
        && after[q][i] == after[r][j]
      ensures q == r && i == j
    {
      PutEntry(lists, p, k, ys, front, q, i);
      PutEntry(lists, p, k, ys, front, r, j);
    }
  }

  lemma PutEntry(lists: seq<seq<nat>>, p: nat, k: nat, ys: seq<nat>, front: bool, q: nat, i: nat)
    requires p < |lists| && ys == (if front then [k] + lists[p] else lists[p] + [k])
    requires q < |lists| && i < |lists[p := ys][q]|
    ensures var j: int := if q == p && front then i - 1 else i;
      if q == p && i == (if front then 0 else |lists[p]|) then lists[p := ys][q][i] == k
      else 0 <= j < |lists[q]| && lists[p := ys][q][i] == lists[q][j]
  {
  }

  lemma CutDistinct(lists: seq<seq<nat>>, p: nat)
    requires Distinct(lists) && p < |lists| && lists[p] != []
    ensures Distinct(lists[p := lists[p][1..]]) && Loose(lists[p := lists[p][1..]], lists[p][0])
  {
    var after := lists[p := lists[p][1..]];
    forall q, i | 0 <= q < |after| && 0 <= i < |after[q]|
      ensures after[q][i] == lists[q][if q == p then i + 1 else i] && after[q][i] != lists[p][0] {}
    forall q, i, r, j | 0 <= q < |after| && 0 <= r < |after| && 0 <= i < |after[q]| && 0 <= j < |after[r]|
        && after[q][i] == after[r][j]
      ensures q == r && i == j
    {
      assert after[q][i] == lists[q][if q == p then i + 1 else i];
      assert after[r][j] == lists[r][if r == p then j + 1 else j];
    }
  }

  class SleepChains {
    const hash: array<nat>      // sleep_hash[]
    const next: array<nat>      // sleep_vect[].next
    ghost var chains: seq<seq<nat>>

    ghost predicate Valid()
      reads this, hash, next
    {
      && hash != next && |chains| == hash.Length == SLEEP_BUCKETS && Distinct(chains)
      && forall b :: 0 <= b < |chains| ==> ChainOk(hash[b], next[..], chains[b])
    }

    constructor (n: nat)
      ensures Valid() && next.Length == n && chains == seq(SLEEP_BUCKETS, i => []) && fresh(hash) && fresh(next)
    {
      hash := new nat[SLEEP_BUCKETS](i => 0);
      next := new nat[n](i => 0);
      chains := seq(SLEEP_BUCKETS, i => []);
    }

    /** A process enters the chain of bucket b. */
    method Push(k: nat, b: nat)
      requires Valid() && b < |chains| && 0 < k < next.Length && Loose(chains, k)
      modifies this, hash, next
      ensures Valid() && chains == old(chains)[b := [k] + old(chains)[b]]
    {
      ghost var xs, nx := chains[b], next[..];
      assert ChainOk(hash[b], nx, xs);
      ChainPush(hash[b], nx, xs, k);
      next[k] := hash[b];
      assert next[..] == nx[k := hash[b]];
      hash[b] := k;
      forall q | 0 <= q < |chains| && q != b ensures ChainOk(hash[q], next[..], chains[q]) {
        OthersKept(chains, b, k, nx, next[..], q, hash[q]);
      }
      PutDistinct(chains, b, k, [k] + xs);
      chains := chains[b := [k] + xs];
    }

    /** *proc = sleep_vect[*proc].next: the member i of the chain leaves it. The moving pointer
        is at the next field of prev, or at the bucket if prev is 0. */
    method Unlink(b: nat, prev: nat, ghost i: nat)
      requires Valid() && b < |chains| && i < |chains[b]| && prev == if i == 0 then 0 else chains[b][i - 1]
      modifies this, hash, next
      ensures Valid() && chains == old(chains)[b := old(chains)[b][..i] + old(chains)[b][i + 1..]]
    {
      ghost var xs, nx := chains[b], next[..];
      assert ChainOk(hash[b], nx, xs);
      ChainCutAt(hash[b], nx, xs, i);
      if i > 0 { assert LinkAt(nx, xs, i - 1); }
      assert xs[i] == if prev == 0 then hash[b] else next[prev];
      if prev == 0 {
        hash[b] := next[hash[b]];
      } else {
        next[prev] := next[next[prev]];
        assert next[..] == nx[prev := nx[xs[i]]];
      }
      ghost var ys := xs[..i] + xs[i + 1..];
      forall q | 0 <= q < |chains| && q != b ensures ChainOk(hash[q], next[..], chains[q]) {
        OthersKept(chains, b, xs[i], nx, next[..], q, hash[q]);
      }
      RemoveDistinct(chains, b, i);
      chains := chains[b := ys];
    }
  }

  lemma RemoveDistinct(lists: seq<seq<nat>>, b: nat, n: nat)
    requires Distinct(lists) && b < |lists| && n < |lists[b]|
    ensures Distinct(lists[b := lists[b][..n] + lists[b][n + 1..]])
  {
    var after := lists[b := lists[b][..n] + lists[b][n + 1..]];
    forall q, i, r, j | 0 <= q < |after| && 0 <= r < |after| && 0 <= i < |after[q]| && 0 <= j < |after[r]|
        && after[q][i] == after[r][j]
      ensures q == r && i == j
    {
      assert after[q][i] == lists[q][if q == b && i >= n then i + 1 else i];
      assert after[r][j] == lists[r][if r == b && j >= n then j + 1 else j];
    }
  }
}
