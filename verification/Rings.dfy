/** Circular doubly linked lists embedded in an array of links, as buf_vect[], pgdata[] and the
    page lists of vmalloc.c keep them: a few elements are list heads, any other element is in at
    most one list. */
module Rings {

  /** Element i of the cycle: the head, the members in order, and the head again. */
  function Cyc(h: nat, xs: seq<nat>, i: nat): nat {
    if 1 <= i <= |xs| then xs[i - 1] else h
  }

  /** The links of the head h run through the members xs and back. */
  predicate Ring(next: seq<nat>, prev: seq<nat>, h: nat, xs: seq<nat>) {
    |next| == |prev| && forall i :: 0 <= i <= |xs| ==> RingAt(next, prev, h, xs, i)
  }

  predicate RingAt(next: seq<nat>, prev: seq<nat>, h: nat, xs: seq<nat>, i: nat)
    requires |next| == |prev| && i <= |xs|
  {
    var x := Cyc(h, xs, i);
    && x < |next| && next[x] == Cyc(h, xs, i + 1)
    && prev[x] == Cyc(h, xs, if i == 0 then |xs| else i - 1)
  }

  /** No element is twice in the lists, as head or member. */
  predicate Apart(rings: map<nat, seq<nat>>) {
    forall h, k, i, j :: h in rings && k in rings && 0 <= i <= |rings[h]| && 0 <= j <= |rings[k]| ==>
      Cyc(h, rings[h], i) == Cyc(k, rings[k], j) ==> h == k && i == j
  }

  predicate Linked(next: seq<nat>, prev: seq<nat>, rings: map<nat, seq<nat>>) {
    && |next| == |prev| && Apart(rings)
    && forall h :: h in rings ==> Ring(next, prev, h, rings[h])
  }

  /** The element x is head or member of no list. */
  predicate Loose(rings: map<nat, seq<nat>>, x: nat) {
    forall h, i :: h in rings && 0 <= i <= |rings[h]| ==> Cyc(h, rings[h], i) != x
  }

  /** The links of loose elements stay as they are. */
  predicate LooseKept(next: seq<nat>, next': seq<nat>, rings: map<nat, seq<nat>>) {
    |next'| == |next| && forall y :: 0 <= y < |next| && Loose(rings, y) ==> next'[y] == next[y]
  }

  function Without(xs: seq<nat>, x: nat): (r: seq<nat>) {
    if xs == [] then []
    else if xs[0] == x then Without(xs[1..], x)
    else [xs[0]] + Without(xs[1..], x)
  }

  lemma {:induction false} WithoutAt(xs: seq<nat>, i: nat)
    requires i < |xs| && forall j :: 0 <= j < |xs| && j != i ==> xs[j] != xs[i]
    ensures Without(xs, xs[i]) == xs[..i] + xs[i + 1..]
    decreases xs
  {
    if i == 0 {
      WithoutNone(xs[1..], xs[0]);
    } else {
      var ys := xs[1..];
      assert ys[i - 1] == xs[i];
      forall j | 0 <= j < |ys| && j != i - 1 ensures ys[j] != ys[i - 1] {
        assert ys[j] == xs[j + 1];
      }
      WithoutAt(ys, i - 1);
      assert xs[..i] == [xs[0]] + ys[..i - 1] && xs[i + 1..] == ys[i..];
    }
  }

  lemma {:induction false} WithoutNone(xs: seq<nat>, x: nat)
    requires x !in xs
    ensures Without(xs, x) == xs
  {
    if xs != [] {
      WithoutNone(xs[1..], x);
      assert xs == [xs[0]] + xs[1..];
    }
  }

  lemma {:induction false} WithoutIn(xs: seq<nat>, x: nat, y: nat)
    ensures y in Without(xs, x) <==> y in xs && y != x
  {
    if xs != [] { WithoutIn(xs[1..], x, y); }
  }

  /** Putting x between the elements i and i + 1 of a ring. */
  lemma RingInsert(next: seq<nat>, prev: seq<nat>, h: nat, xs: seq<nat>, x: nat, i: nat, next': seq<nat>,
                   prev': seq<nat>)
    requires Ring(next, prev, h, xs) && i <= |xs| && x < |next|
    requires forall j :: 0 <= j <= |xs| ==> Cyc(h, xs, j) != x
    requires forall j, k :: 0 <= j <= |xs| && 0 <= k <= |xs| && Cyc(h, xs, j) == Cyc(h, xs, k) ==> j == k
    requires var a, b := Cyc(h, xs, i), Cyc(h, xs, i + 1);
      && |next'| == |prev'| == |next|
      && (forall y :: 0 <= y < |next| ==> next'[y] == if y == x then b else if y == a then x else next[y])
      && (forall y :: 0 <= y < |next| ==> prev'[y] == if y == x then a else if y == b then x else prev[y])
    ensures Ring(next', prev', h, xs[..i] + [x] + xs[i..])
  {
    var ys := xs[..i] + [x] + xs[i..];
    forall j | 0 <= j <= |ys| ensures RingAt(next', prev', h, ys, j) {
      CycInsert(xs, h, x, i, j);
      CycInsert(xs, h, x, i, j + 1);
      CycInsert(xs, h, x, i, if j == 0 then |ys| else j - 1);
      assert Cyc(h, xs, i + 1) == Cyc(h, xs, if i == |xs| then 0 else i + 1);
      assert RingAt(next, prev, h, xs, i);
      if j <= i { assert RingAt(next, prev, h, xs, j); }
      if j > i + 1 { assert RingAt(next, prev, h, xs, j - 1); }
    }
  }

  /** Taking out the member i of a ring (counted from 0). */
  lemma RingRemove(next: seq<nat>, prev: seq<nat>, h: nat, xs: seq<nat>, i: nat, next': seq<nat>, prev': seq<nat>)
    requires Ring(next, prev, h, xs) && i < |xs|
    requires forall j, k :: 0 <= j <= |xs| && 0 <= k <= |xs| && Cyc(h, xs, j) == Cyc(h, xs, k) ==> j == k
    requires var a, b := Cyc(h, xs, i), Cyc(h, xs, i + 2);
      && |next'| == |prev'| == |next|
      && (forall y :: 0 <= y < |next| && y != xs[i] ==> next'[y] == if y == a then b else next[y])
      && (forall y :: 0 <= y < |next| && y != xs[i] ==> prev'[y] == if y == b then a else prev[y])
    ensures Ring(next', prev', h, xs[..i] + xs[i + 1..])
  {
    var ys := xs[..i] + xs[i + 1..];
    assert Cyc(h, xs, i + 1) == xs[i];
    forall j | 0 <= j <= |ys| ensures RingAt(next', prev', h, ys, j) {
      CycRemove(xs, h, i, j);
      CycRemove(xs, h, i, j + 1);
      CycRemove(xs, h, i, if j == 0 then |ys| else j - 1);
      assert Cyc(h, xs, i + 2) == Cyc(h, xs, if i + 1 == |xs| then 0 else i + 2);
      assert RingAt(next, prev, h, xs, if j <= i then j else j + 1);
    }
  }

  /** The other lists do not notice a change of the elements of one list and of a loose one. */
  lemma RingFrame(next: seq<nat>, prev: seq<nat>, rings: map<nat, seq<nat>>, h: nat, k: nat, next': seq<nat>,
                  prev': seq<nat>)
    requires Linked(next, prev, rings) && h in rings && k in rings && h != k && |next'| == |prev'| == |next|
    requires forall y :: 0 <= y < |next| && (next'[y] != next[y] || prev'[y] != prev[y]) ==>
      Loose(rings, y) || exists i :: 0 <= i <= |rings[h]| && Cyc(h, rings[h], i) == y
    ensures Ring(next', prev', k, rings[k])
  {
    forall i | 0 <= i <= |rings[k]| ensures RingAt(next', prev', k, rings[k], i) {
      var y := Cyc(k, rings[k], i);
      assert RingAt(next, prev, k, rings[k], i);
      assert !Loose(rings, y);
    }
  }

  lemma ApartInsert(rings: map<nat, seq<nat>>, h: nat, x: nat, i: nat)
    requires Apart(rings) && h in rings && i <= |rings[h]| && Loose(rings, x)
    ensures Apart(rings[h := rings[h][..i] + [x] + rings[h][i..]])
  {
    var ys := rings[h][..i] + [x] + rings[h][i..];
    var rings' := rings[h := ys];
    forall g, k, m, j | g in rings' && k in rings' && 0 <= m <= |rings'[g]| && 0 <= j <= |rings'[k]|
        && Cyc(g, rings'[g], m) == Cyc(k, rings'[k], j)
      ensures g == k && m == j
    {
      CycInsert(rings[h], h, x, i, m);
      CycInsert(rings[h], h, x, i, j);
    }
  }

  lemma CycInsert(xs: seq<nat>, h: nat, x: nat, i: nat, j: nat)
    requires i <= |xs|
    ensures var ys := xs[..i] + [x] + xs[i..];
      Cyc(h, ys, j) == if j <= i then Cyc(h, xs, j) else if j == i + 1 then x else Cyc(h, xs, j - 1)
  {
  }

  lemma CycRemove(xs: seq<nat>, h: nat, i: nat, j: nat)
    requires i < |xs|
    ensures var ys := xs[..i] + xs[i + 1..];
      Cyc(h, ys, j) == if j <= i then Cyc(h, xs, j) else Cyc(h, xs, j + 1)
  {
  }

  lemma ApartRemove(rings: map<nat, seq<nat>>, h: nat, i: nat)
    requires Apart(rings) && h in rings && i < |rings[h]|
    ensures Apart(rings[h := rings[h][..i] + rings[h][i + 1..]])
    ensures Loose(rings[h := rings[h][..i] + rings[h][i + 1..]], rings[h][i])
  {
    var x, ys := rings[h][i], rings[h][..i] + rings[h][i + 1..];
    var rings' := rings[h := ys];
    assert Cyc(h, rings[h], i + 1) == x;
    forall g, k, m, j | g in rings' && k in rings' && 0 <= m <= |rings'[g]| && 0 <= j <= |rings'[k]|
        && Cyc(g, rings'[g], m) == Cyc(k, rings'[k], j)
      ensures g == k && m == j
    {
      CycRemove(rings[h], h, i, m);
      CycRemove(rings[h], h, i, j);
    }
    forall g, m | g in rings' && 0 <= m <= |rings'[g]| ensures Cyc(g, rings'[g], m) != x {
      CycRemove(rings[h], h, i, m);
    }
  }

  /** Two arrays of links and the lists they hold. */
  class Links {
    const next: array<nat>
    const prev: array<nat>
    ghost var rings: map<nat, seq<nat>>

    ghost predicate Valid()
      reads this, next, prev
    {
      next != prev && Linked(next[..], prev[..], rings)
    }

    /** All elements linked to themselves, and the heads given. */
    constructor (size: nat, ghost heads: set<nat>)
      requires forall h :: h in heads ==> h < size
      ensures Valid() && fresh(next) && fresh(prev) && next.Length == size
      ensures rings == map h | h in heads :: []
    {
      next := new nat[size](i => i);
      prev := new nat[size](i => i);
      rings := map h | h in heads :: [];
      new;
    }

    /** Insertion between the element a and its successor. */
    method InsertAfter(a: nat, x: nat, ghost h: nat, ghost i: nat)
      requires Valid() && h in rings && i <= |rings[h]| && a == Cyc(h, rings[h], i) && x < next.Length
      requires Loose(rings, x)
      modifies this, next, prev
      ensures Valid()
      ensures rings == old(rings)[h := old(rings)[h][..i] + [x] + old(rings)[h][i..]]
      ensures LooseKept(old(next[..]), next[..], rings)
    {
      ghost var nx, pv := next[..], prev[..];
      assert RingAt(nx, pv, h, rings[h], i);
      var b := next[a];
      assert b == Cyc(h, rings[h], if i == |rings[h]| then 0 else i + 1) && Ring(nx, pv, h, rings[h]);
      assert RingAt(nx, pv, h, rings[h], if i == |rings[h]| then 0 else i + 1);
      next[x] := b;
      prev[x] := a;
      prev[b] := x;
      next[a] := x;
      InsertIs(nx, pv, rings, h, x, i, next[..], prev[..]);
      InsertLoose(rings, h, x, i);
      rings := rings[h := rings[h][..i] + [x] + rings[h][i..]];
    }

    /** Insertion at the head of a list. */
    method InsertHead(h: nat, x: nat)
      requires Valid() && h in rings && x < next.Length && Loose(rings, x)
      modifies this, next, prev
      ensures Valid() && rings == old(rings)[h := [x] + old(rings)[h]]
      ensures LooseKept(old(next[..]), next[..], rings)
    {
      assert RingAt(next[..], prev[..], h, rings[h], 0);
      InsertAfter(h, x, h, 0);
      assert old(rings)[h][..0] + [x] + old(rings)[h][0..] == [x] + old(rings)[h];
    }

    /** Insertion at the tail of a list. */
    method InsertTail(h: nat, x: nat)
      requires Valid() && h in rings && x < next.Length && Loose(rings, x)
      modifies this, next, prev
      ensures Valid() && rings == old(rings)[h := old(rings)[h] + [x]]
      ensures LooseKept(old(next[..]), next[..], rings)
    {
      assert RingAt(next[..], prev[..], h, rings[h], 0);
      InsertAfter(prev[h], x, h, |rings[h]|);
      ghost var xs := old(rings)[h];
      assert xs[..|xs|] + [x] + xs[|xs|..] == xs + [x];
    }

    /** A loose element's link is free for a mark. */
    method SetLoose(x: nat, mark: nat)
      requires Valid() && x < next.Length && Loose(rings, x)
      modifies next
      ensures Valid() && next[..] == old(next[..])[x := mark]
    {
      ghost var nx := next[..];
      next[x] := mark;
      forall h | h in rings ensures Ring(next[..], prev[..], h, rings[h]) {
        forall i | 0 <= i <= |rings[h]| ensures RingAt(next[..], prev[..], h, rings[h], i) {
          assert RingAt(nx, prev[..], h, rings[h], i);
        }
      }
    }

    /** Removal of a member; the links of the element itself stay as they are. */
    method Remove(x: nat, ghost h: nat)
      requires Valid() && h in rings && x in rings[h]
      modifies this, next, prev
      ensures Valid() && rings == old(rings)[h := Without(old(rings)[h], x)] && Loose(rings, x)
      ensures LooseKept(old(next[..]), next[..], rings)
    {
      ghost var nx, pv, xs := next[..], prev[..], rings[h];
      ghost var i :| 0 <= i < |xs| && xs[i] == x;
      assert RingAt(nx, pv, h, xs, i + 1) && RingAt(nx, pv, h, xs, i);
      assert RingAt(nx, pv, h, xs, if i + 1 == |xs| then 0 else i + 2);
      var a, b := prev[x], next[x];
      next[a] := b;
      prev[b] := a;
      RemoveIs(nx, pv, rings, h, i, next[..], prev[..]);
      RemoveLoose(rings, h, i);
      rings := rings[h := Without(xs, x)];
    }
  }

  /** The element before the place of an insertion is in the list, and so is the new one. */
  lemma InsertLoose(rings: map<nat, seq<nat>>, h: nat, x: nat, i: nat)
    requires h in rings && i <= |rings[h]|
    ensures var rings' := rings[h := rings[h][..i] + [x] + rings[h][i..]];
      !Loose(rings', x) && !Loose(rings', Cyc(h, rings[h], i))
  {
    var rings' := rings[h := rings[h][..i] + [x] + rings[h][i..]];
    assert Cyc(h, rings'[h], i + 1) == x && Cyc(h, rings'[h], i) == Cyc(h, rings[h], i);
  }

  lemma RemoveLoose(rings: map<nat, seq<nat>>, h: nat, i: nat)
    requires Apart(rings) && h in rings && i < |rings[h]|
    ensures !Loose(rings[h := Without(rings[h], rings[h][i])], Cyc(h, rings[h], i))
  {
    var xs := rings[h];
    forall j | 0 <= j < |xs| && j != i ensures xs[j] != xs[i] {
      assert Cyc(h, xs, j + 1) == xs[j] && Cyc(h, xs, i + 1) == xs[i];
    }
    WithoutAt(xs, i);
    var rings' := rings[h := Without(xs, xs[i])];
    assert Cyc(h, rings'[h], i) == Cyc(h, xs, i);
  }

  lemma InsertIs(next: seq<nat>, prev: seq<nat>, rings: map<nat, seq<nat>>, h: nat, x: nat, i: nat,
                 next': seq<nat>, prev': seq<nat>)
    requires Linked(next, prev, rings) && h in rings && i <= |rings[h]| && x < |next| && Loose(rings, x)
    requires var a, b := Cyc(h, rings[h], i), Cyc(h, rings[h], i + 1);
      && |next'| == |prev'| == |next|
      && (forall y :: 0 <= y < |next| ==> next'[y] == if y == x then b else if y == a then x else next[y])
      && (forall y :: 0 <= y < |next| ==> prev'[y] == if y == x then a else if y == b then x else prev[y])
    ensures Linked(next', prev', rings[h := rings[h][..i] + [x] + rings[h][i..]])
  {
    var rings' := rings[h := rings[h][..i] + [x] + rings[h][i..]];
    assert RingAt(next, prev, h, rings[h], i);
    RingInsert(next, prev, h, rings[h], x, i, next', prev');
    ApartInsert(rings, h, x, i);
    assert Cyc(h, rings[h], i + 1) == Cyc(h, rings[h], if i == |rings[h]| then 0 else i + 1);
    forall k | k in rings' && k != h ensures Ring(next', prev', k, rings'[k]) {
      RingFrame(next, prev, rings, h, k, next', prev');
    }
  }

  lemma RemoveIs(next: seq<nat>, prev: seq<nat>, rings: map<nat, seq<nat>>, h: nat, i: nat,
                 next': seq<nat>, prev': seq<nat>)
    requires Linked(next, prev, rings) && h in rings && i < |rings[h]|
    requires var a, b := Cyc(h, rings[h], i), Cyc(h, rings[h], i + 2);
      && |next'| == |prev'| == |next|
      && (forall y :: 0 <= y < |next| ==> next'[y] == if y == a then b else next[y])
      && (forall y :: 0 <= y < |next| ==> prev'[y] == if y == b then a else prev[y])
    ensures var rings' := rings[h := Without(rings[h], rings[h][i])];
      Linked(next', prev', rings') && Loose(rings', rings[h][i])
  {
    var xs := rings[h];
    forall j | 0 <= j < |xs| && j != i ensures xs[j] != xs[i] {
      assert Cyc(h, xs, j + 1) == xs[j] && Cyc(h, xs, i + 1) == xs[i];
    }
    WithoutAt(xs, i);
    RingRemove(next, prev, h, xs, i, next', prev');
    ApartRemove(rings, h, i);
    assert Cyc(h, xs, i + 2) == Cyc(h, xs, if i + 1 == |xs| then 0 else i + 2);
    var rings' := rings[h := Without(xs, xs[i])];
    forall k | k in rings' && k != h ensures Ring(next', prev', k, rings'[k]) {
      RingFrame(next, prev, rings, h, k, next', prev');
    }
  }
}
