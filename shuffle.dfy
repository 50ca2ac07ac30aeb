/**
 * The "shuffle" every quiz mode runs on its indices: walking i from `lo` up to
 * `hi`, `Math.random() > 0.5 ? idx.push(i) : idx.unshift(i)`.  The random
 * draws are a sequence of coins; draws beyond the sequence count as true.
 */
module Shuffle {

  /** The coin drawn for the k-th index. */
  function Coin(coins: seq<bool>, k: int): bool
  {
    if 0 <= k < |coins| then coins[k] else true
  }

  /** lo, lo + 1, ..., hi - 1 */
  function Range(lo: int, hi: int): (r: seq<int>)
    ensures |r| == if lo < hi then hi - lo else 0
    decreases hi - lo
  {
    if hi <= lo then [] else Range(lo, hi - 1) + [hi - 1]
  }

  /** The order produced: index i is appended when its coin is true and put in
      front otherwise. */
  function Shuffled(lo: int, hi: int, coins: seq<bool>): (r: seq<int>)
    ensures |r| == if lo < hi then hi - lo else 0
    ensures forall k :: 0 <= k < |r| ==> lo <= r[k] < hi
    decreases hi - lo
  {
    if hi <= lo then []
    else
      var prev := Shuffled(lo, hi - 1, coins);
      if Coin(coins, hi - 1 - lo) then prev + [hi - 1] else [hi - 1] + prev
  }

  /** The loop itself. */
  method ShuffleIndices(lo: int, hi: int, coins: seq<bool>) returns (idx: seq<int>)
    ensures idx == Shuffled(lo, hi, coins)
  {
    idx := [];
    var i := lo;
    while i < hi
      invariant i == lo || lo <= i <= hi
      invariant idx == Shuffled(lo, i, coins)
    {
      if Coin(coins, i - lo) {
        idx := idx + [i];
      } else {
        idx := [i] + idx;
      }
      i := i + 1;
    }
  }

  /** Whatever the coins, every index of [lo, hi) occurs exactly once and
      nothing else occurs. */
  lemma {:induction false} ShuffledCounts(lo: int, hi: int, coins: seq<bool>, k: int)
    ensures multiset(Shuffled(lo, hi, coins))[k] == if lo <= k < hi then 1 else 0
    decreases hi - lo
  {
    if lo < hi {
      ShuffledCounts(lo, hi - 1, coins, k);
    }
  }

  /** The shuffle is a permutation of [lo, hi). */
  lemma ShuffledIsPermutation(lo: int, hi: int, coins: seq<bool>)
    ensures multiset(Shuffled(lo, hi, coins)) == multiset(Range(lo, hi))
  {
    forall k ensures multiset(Shuffled(lo, hi, coins))[k] == multiset(Range(lo, hi))[k] {
      ShuffledCounts(lo, hi, coins, k);
      RangeCounts(lo, hi, k);
    }
  }

  lemma {:induction false} RangeCounts(lo: int, hi: int, k: int)
    ensures multiset(Range(lo, hi))[k] == if lo <= k < hi then 1 else 0
    decreases hi - lo
  {
    if lo < hi {
      RangeCounts(lo, hi - 1, k);
    }
  }

  /** No index is visited twice. */
  lemma ShuffledDistinct(lo: int, hi: int, coins: seq<bool>, a: int, b: int)
    requires 0 <= a < b < |Shuffled(lo, hi, coins)|
    ensures Shuffled(lo, hi, coins)[a] != Shuffled(lo, hi, coins)[b]
  {
    var s := Shuffled(lo, hi, coins);
    ShuffledCounts(lo, hi, coins, s[a]);
    assert s == s[..b] + s[b..];
  }

  /** Every index of [lo, hi) is visited. */
  lemma ShuffledCovers(lo: int, hi: int, coins: seq<bool>, k: int)
    requires lo <= k < hi
    ensures k in Shuffled(lo, hi, coins)
  {
    ShuffledCounts(lo, hi, coins, k);
  }
}
