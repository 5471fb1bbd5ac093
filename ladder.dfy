/** The fixed ladder of prime table sizes the engine grows along
    (src/map.c, primes_sizes and the tier clamp of map_new). */
module Ladder {

  /** primes_sizes, one row per line of its initializer. */
  const Row1: seq<nat> := [3, 7, 11, 17, 23, 29, 37, 47, 59, 71, 89, 107, 131]
  const Row2: seq<nat> := [163, 197, 239, 293, 353, 431, 521, 631, 761, 919]
  const Row3: seq<nat> := [1103, 1327, 1597, 1931, 2333, 2801, 3371, 4049, 4861]
  const Row4: seq<nat> := [5839, 7013, 8419, 10103, 12143, 14591, 17519, 21023]
  const Row5: seq<nat> := [25229, 30293, 36353, 43627, 52361, 62851, 75431, 90523]
  const Row6: seq<nat> := [108631, 130363, 156437, 187751, 225307, 270371, 324449]
  const Row7: seq<nat> := [389357, 467237, 560689, 672827, 807403, 968897, 1162687]
  const Row8: seq<nat> := [1395263, 1674319, 2009191, 2411033, 2893249, 3471899]
  const Row9: seq<nat> := [4166287, 4999559, 5999471, 7199369]

  /** primes_sizes: 72 tiers, from 3 buckets to 7199369. */
  const Primes: seq<nat> := Row1 + Row2 + Row3 + Row4 + Row5 + Row6 + Row7 + Row8 + Row9

  /** The index of the last (largest) tier. */
  const LastTier: nat := |Primes| - 1

  /** C `int`. */
  type int32 = x: int | -0x8000_0000 <= x < 0x8000_0000

  /** The value of an `int` converted to the unsigned `size_t` it is
      compared with: a negative value wraps around modulo 2^64. */
  function SizeT(x: int32): (u: nat)
    ensures u < 0x1_0000_0000_0000_0000
    ensures x >= 0 ==> u == x
    ensures x < 0 ==> u >= 0x1_0000_0000_0000_0000 - 0x8000_0000
  {
    x % 0x1_0000_0000_0000_0000
  }

  /** map_new's tier clamp. The requested tier is compared with the element
      count of the ladder after the usual arithmetic conversion to
      `size_t`, so a negative tier becomes a huge unsigned value and is
      clamped to the last tier like a tier past the end. */
  function ClampTier(index: int32): (t: nat)
    ensures t <= LastTier
    ensures t == (if SizeT(index) >= |Primes| then |Primes| - 1 else SizeT(index))
  {
    if index < 0 || index >= |Primes| then |Primes| - 1 else index
  }

  /** Each element is smaller than the next one. */
  predicate Ascending(s: seq<nat>) {
    forall i :: 0 <= i < |s| - 1 ==> s[i] < s[i + 1]
  }

  /** Two ascending runs joined where the first ends below the start of the
      second form one ascending run. */
  lemma AscendingAppend(a: seq<nat>, b: seq<nat>)
    requires Ascending(a) && Ascending(b) && |a| > 0 && |b| > 0 && a[|a| - 1] < b[0]
    ensures Ascending(a + b)
  {
    forall i | 0 <= i < |a + b| - 1
      ensures (a + b)[i] < (a + b)[i + 1]
    {
      if |a| <= i {
        assert (a + b)[i] == b[i - |a|];
      }
    }
  }

  /** Each row of the ladder ascends. */
  lemma RowsAscending()
    ensures Ascending(Row1) && Ascending(Row2) && Ascending(Row3)
    ensures Ascending(Row4) && Ascending(Row5) && Ascending(Row6)
    ensures Ascending(Row7) && Ascending(Row8) && Ascending(Row9)
  {
  }

  /** The ladder ascends: its rows do, and each row ends below the start of
      the next. */
  lemma PrimesAscending()
    ensures Ascending(Primes) && Primes[0] == 3
  {
    RowsAscending();
    var p := Row1;
    AscendingAppend(p, Row2);
    p := p + Row2;
    AscendingAppend(p, Row3);
    p := p + Row3;
    AscendingAppend(p, Row4);
    p := p + Row4;
    AscendingAppend(p, Row5);
    p := p + Row5;
    AscendingAppend(p, Row6);
    p := p + Row6;
    AscendingAppend(p, Row7);
    p := p + Row7;
    AscendingAppend(p, Row8);
    p := p + Row8;
    AscendingAppend(p, Row9);
  }

  /** In an ascending run every element is smaller than every later one. */
  lemma {:induction false} AscendingOrdered(s: seq<nat>, i: nat, j: nat)
    requires Ascending(s) && i < j < |s|
    ensures s[i] < s[j]
  {
    if i + 1 < j {
      AscendingOrdered(s, i, j - 1);
    }
  }

  /** The ladder is strictly ascending: a higher tier is always larger. */
  lemma LadderAscending(i: nat, j: nat)
    requires i < j <= LastTier
    ensures 0 < Primes[i] < Primes[j]
  {
    PrimesAscending();
    AscendingOrdered(Primes, i, j);
    if i > 0 {
      AscendingOrdered(Primes, 0, i);
    }
  }

  /** Every tier has at least one bucket. */
  lemma TierSizePositive(k: nat)
    requires k <= LastTier
    ensures Primes[k] > 0
  {
    PrimesAscending();
    if k > 0 {
      AscendingOrdered(Primes, 0, k);
    }
  }
}
