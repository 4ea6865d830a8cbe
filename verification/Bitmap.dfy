/** Bitmaps of 32-bit words (fs/cluster.c): a set bit is a free inode or block. */
module Bitmap {
  import opened Arith

  const WORD := 0x1_0000_0000

  /** Bit k of a word. */
  predicate Bit(w: nat, k: nat) {
    if k == 0 then w % 2 == 1 else Bit(w / 2, k - 1)
  }

  /** w | (1 << k), bit by bit. */
  function OrBit(w: nat, k: nat): nat {
    if k == 0 then w / 2 * 2 + 1 else OrBit(w / 2, k - 1) * 2 + w % 2
  }

  /** w & ~(1 << k), bit by bit. */
  function AndNotBit(w: nat, k: nat): nat {
    if k == 0 then w / 2 * 2 else AndNotBit(w / 2, k - 1) * 2 + w % 2
  }

  lemma {:induction false} OrBitIs(w: nat, k: nat, j: nat)
    ensures Bit(OrBit(w, k), j) <==> j == k || Bit(w, j)
    decreases k
  {
    var v := OrBit(w, k);
    if k == 0 {
      assert v / 2 == w / 2;
    } else {
      assert v / 2 == OrBit(w / 2, k - 1) && v % 2 == w % 2;
      if j > 0 { OrBitIs(w / 2, k - 1, j - 1); }
    }
  }

  lemma {:induction false} AndNotBitIs(w: nat, k: nat, j: nat)
    ensures Bit(AndNotBit(w, k), j) <==> j != k && Bit(w, j)
    decreases k
  {
    var v := AndNotBit(w, k);
    if k == 0 {
      assert v / 2 == w / 2;
    } else {
      assert v / 2 == AndNotBit(w / 2, k - 1) && v % 2 == w % 2;
      if j > 0 { AndNotBitIs(w / 2, k - 1, j - 1); }
    }
  }

  /** bsf: the lowest set bit. */
  function Bsf(w: nat): (k: nat)
    requires w != 0
    ensures Bit(w, k) && forall j :: 0 <= j < k ==> !Bit(w, j)
  {
    if w % 2 == 1 then 0
    else
      var k := Bsf(w / 2);
      assert forall j :: 0 < j < k + 1 ==> Bit(w, j) == Bit(w / 2, j - 1);
      k + 1
  }

  function Pow2(n: nat): (p: nat)
    ensures p > 0
  {
    if n == 0 then 1 else 2 * Pow2(n - 1)
  }

  lemma {:induction false} BitBelow(w: nat, k: nat, n: nat)
    requires Bit(w, k) && w < Pow2(n)
    ensures k < n
    decreases k
  {
    if k > 0 { BitBelow(w / 2, k - 1, if n > 0 then n - 1 else 0); }
  }

  lemma {:induction false} OrBitSmall(w: nat, k: nat, n: nat)
    requires k < n && w < Pow2(n)
    ensures OrBit(w, k) < Pow2(n)
    decreases n
  {
    if k > 0 { OrBitSmall(w / 2, k - 1, n - 1); }
  }

  lemma {:induction false} AndNotBitSmall(w: nat, k: nat)
    ensures AndNotBit(w, k) <= w
  {
    if k > 0 { AndNotBitSmall(w / 2, k - 1); }
  }

  lemma WordSize()
    ensures Pow2(32) == WORD
  {
    assert Pow2(8) == 256;
    assert Pow2(16) == 65536;
    assert Pow2(24) == 16777216;
  }

  // ------------------------------------------------- counting ones

  /** The ones among the n lowest bits; bits[] tabulates this for n == 8. */
  function Ones(w: nat, n: nat): nat {
    if n == 0 then 0 else (if w % 2 == 1 then 1 else 0) + Ones(w / 2, n - 1)
  }

  function Shift(w: nat, n: nat): nat {
    if n == 0 then w else Shift(w / 2, n - 1)
  }

  lemma {:induction false} OnesSplit(w: nat, n: nat, m: nat)
    ensures Ones(w, n + m) == Ones(w, n) + Ones(Shift(w, n), m)
    decreases n
  {
    if n > 0 {
      OnesSplit(w / 2, n - 1, m);
    }
  }

  lemma {:induction false} OnesMod(w: nat, n: nat)
    ensures Ones(w % Pow2(n), n) == Ones(w, n)
    decreases n
  {
    if n > 0 {
      OnesMod(w / 2, n - 1);
      HalfMod(w, Pow2(n - 1));
    }
  }

  lemma HalfMod(w: nat, p: nat)
    requires p > 0
    ensures (w % (2 * p)) / 2 == w / 2 % p && w % (2 * p) % 2 == w % 2
  {
    var q, r := w / (2 * p), w % (2 * p);
    assert w == q * (2 * p) + r;
    assert q * (2 * p) == 2 * (q * p);
    assert w / 2 == q * p + r / 2;
    DivUnique(w / 2, p, q, r / 2);
  }

  /** The sum over the four bytes, as count_bitmap() adds it up. */
  lemma OnesBytes(w: nat)
    ensures Ones(w, 32) ==
      Ones(w % 256, 8) + Ones(w / 256 % 256, 8) + Ones(w / 65536 % 256, 8) + Ones(w / 16777216 % 256, 8)
  {
    OnesByte(w, 24);
    OnesByte(w / 256, 16);
    OnesByte(w / 65536, 8);
    OnesByte(w / 16777216, 0);
    assert w / 256 / 256 == w / 65536 && w / 65536 / 256 == w / 16777216;
  }

  lemma Shift4(w: nat, n: nat)
    ensures Shift(w, n + 4) == Shift(w / 16, n)
  {
    assert Shift(w, n + 4) == Shift(w / 2, n + 3) == Shift(w / 4, n + 2) == Shift(w / 8, n + 1);
  }

  lemma OnesByte(w: nat, n: nat)
    ensures Ones(w, 8 + n) == Ones(w % 256, 8) + Ones(w / 256, n)
  {
    assert Pow2(8) == 256;
    Shift4(w, 4);
    Shift4(w / 16, 0);
    assert w / 16 / 16 == w / 256;
    OnesSplit(w, 8, n);
    OnesMod(w, 8);
  }

  lemma OnesNone(n: nat)
    ensures Ones(0, n) == 0
  {
  }

  lemma {:induction false} OnesAll(n: nat)
    ensures Ones(Pow2(n) - 1, n) == n
  {
    if n > 0 {
      OnesAll(n - 1);
      assert (Pow2(n) - 1) / 2 == Pow2(n - 1) - 1;
    }
  }

  lemma {:induction false} AllBits(n: nat, k: nat)
    requires k < n
    ensures Bit(Pow2(n) - 1, k)
    decreases n
  {
    assert (Pow2(n) - 1) / 2 == Pow2(n - 1) - 1;
    if k > 0 { AllBits(n - 1, k - 1); }
  }

  /** Words with the same bits are the same. */
  lemma {:induction false} SameBits(v: nat, w: nat, n: nat)
    requires v < Pow2(n) && w < Pow2(n) && forall k :: 0 <= k < n ==> Bit(v, k) == Bit(w, k)
    ensures v == w
    decreases n
  {
    if n > 0 {
      assert Bit(v, 0) == Bit(w, 0);
      forall k | 0 <= k < n - 1 ensures Bit(v / 2, k) == Bit(w / 2, k) {
        assert Bit(v, k + 1) == Bit(w, k + 1);
      }
      SameBits(v / 2, w / 2, n - 1);
    }
  }

  // ------------------------------------------------- the set of free resources

  /** The numbers base + k of the set bits k < n of a word. */
  function WordSet(w: nat, base: nat, n: nat): set<nat> {
    if n == 0 then {}
    else WordSet(w, base, n - 1) + if Bit(w, n - 1) then {base + n - 1} else {}
  }

  lemma {:induction false} WordSetIs(w: nat, base: nat, n: nat, x: nat)
    ensures x in WordSet(w, base, n) <==> base <= x < base + n && Bit(w, x - base)
  {
    if n > 0 { WordSetIs(w, base, n - 1, x); }
  }

  lemma {:induction false} WordSetSize(w: nat, base: nat, n: nat)
    ensures |WordSet(w, base, n)| == Ones(w, n)
  {
    if n > 0 {
      WordSetSize(w, base, n - 1);
      WordSetIs(w, base, n - 1, base + n - 1);
      OnesTop(w, n - 1);
    }
  }

  lemma {:induction false} OnesTop(w: nat, n: nat)
    ensures Ones(w, n + 1) == Ones(w, n) + if Bit(w, n) then 1 else 0
    decreases n
  {
    if n > 0 {
      OnesTop(w / 2, n - 1);
    } else {
      assert Ones(w / 2, 0) == 0;
    }
  }

  /** The free resources of the first n words. */
  function BitSet(words: seq<nat>, n: nat): set<nat>
    requires n <= |words|
  {
    if n == 0 then {} else BitSet(words, n - 1) + WordSet(words[n - 1], 32 * (n - 1), 32)
  }

  lemma {:induction false} BitSetIs(words: seq<nat>, n: nat, x: nat)
    requires n <= |words|
    ensures x in BitSet(words, n) <==> x < 32 * n && Bit(words[x / 32], x % 32)
  {
    if n > 0 {
      BitSetIs(words, n - 1, x);
      WordSetIs(words[n - 1], 32 * (n - 1), 32, x);
      if 32 * (n - 1) <= x < 32 * n { assert x / 32 == n - 1 && x % 32 == x - 32 * (n - 1); }
    }
  }

  /** What count_bitmap() adds up. */
  function Total(words: seq<nat>, n: nat): nat
    requires n <= |words|
  {
    if n == 0 then 0 else Total(words, n - 1) + Ones(words[n - 1], 32)
  }

  lemma {:induction false} BitSetSize(words: seq<nat>, n: nat)
    requires n <= |words|
    ensures |BitSet(words, n)| == Total(words, n)
  {
    if n > 0 {
      BitSetSize(words, n - 1);
      var some, more := BitSet(words, n - 1), WordSet(words[n - 1], 32 * (n - 1), 32);
      WordSetSize(words[n - 1], 32 * (n - 1), 32);
      assert some !! more by {
        forall x | x in some ensures x !in more {
          BitSetIs(words, n - 1, x);
          WordSetIs(words[n - 1], 32 * (n - 1), 32, x);
        }
      }
      SumSize(some, more);
    }
  }

  lemma SumSize(a: set<nat>, b: set<nat>)
    requires a !! b
    ensures |a + b| == |a| + |b|
  {
  }

  /** Only the first n words matter. */
  lemma {:induction false} BitSetFrame(words: seq<nat>, other: seq<nat>, n: nat)
    requires n <= |words| && n <= |other| && forall i :: 0 <= i < n ==> words[i] == other[i]
    ensures BitSet(words, n) == BitSet(other, n)
  {
    if n > 0 { BitSetFrame(words, other, n - 1); }
  }

  lemma BitSetOr(words: seq<nat>, n: nat, x: nat)
    requires n <= |words| && x < 32 * n
    ensures x / 32 < n && BitSet(words[x / 32 := OrBit(words[x / 32], x % 32)], n) == BitSet(words, n) + {x}
  {
    var i := x / 32;
    var after := words[i := OrBit(words[i], x % 32)];
    forall y: nat ensures y in BitSet(after, n) <==> y in BitSet(words, n) + {x} {
      BitSetIs(words, n, y);
      BitSetIs(after, n, y);
      if y < 32 * n && y / 32 == i {
        OrBitIs(words[i], x % 32, y % 32);
        assert y % 32 == x % 32 ==> y == x;
      }
    }
  }

  lemma BitSetAndNot(words: seq<nat>, n: nat, i: nat, k: nat)
    requires n <= |words| && i < n && k < 32
    ensures BitSet(words[i := AndNotBit(words[i], k)], n) == BitSet(words, n) - {32 * i + k}
  {
    var after := words[i := AndNotBit(words[i], k)];
    forall y: nat ensures y in BitSet(after, n) <==> y in BitSet(words, n) - {32 * i + k} {
      BitSetIs(words, n, y);
      BitSetIs(after, n, y);
      if y < 32 * n && y / 32 == i { AndNotBitIs(words[i], k, y % 32); }
    }
  }

  lemma {:induction false} BitSetEmpty(words: seq<nat>, n: nat)
    requires n <= |words| && forall i :: 0 <= i < n ==> words[i] == 0
    ensures BitSet(words, n) == {}
  {
    if n > 0 {
      BitSetEmpty(words, n - 1);
      WordSetSize(0, 32 * (n - 1), 32);
      OnesNone(32);
    }
  }

  lemma NonzeroInSet(words: seq<nat>, n: nat, i: nat)
    requires i < n <= |words| && 0 < words[i] < WORD
    ensures Bsf(words[i]) < 32 && 32 * i + Bsf(words[i]) in BitSet(words, n)
  {
    var k := Bsf(words[i]);
    WordSize();
    BitBelow(words[i], k, 32);
    BitSetIs(words, n, 32 * i + k);
  }

  // ------------------------------------------------- count_bitmap()

  /** What count_bitmap() adds for a word: nothing, 32, or the counts of its four bytes. */
  function WordCount(w: nat): (n: nat)
    requires w < WORD
    ensures n == Ones(w, 32)
  {
    WordSize();
    OnesNone(32);
    OnesAll(32);
    OnesBytes(w);
    if w == 0 then 0
    else if w == 0xFFFF_FFFF then 32
    else Ones(w % 256, 8) + Ones(w / 256 % 256, 8) + Ones(w / 65536 % 256, 8) + Ones(w / 16777216 % 256, 8)
  }

  /** count_bitmap(). */
  method CountBitmap(words: seq<nat>, n: nat) returns (total: nat)
    requires n <= |words| && forall i :: 0 <= i < |words| ==> words[i] < WORD
    ensures total == Total(words, n)
  {
    total := 0;
    for i := 0 to n
      invariant total == Total(words, i)
    {
      total := total + WordCount(words[i]);
    }
  }
}
