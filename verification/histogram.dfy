/** Symbol histograms (src/shared/histogram.rs).  The cached `bit_cost` is a floating-point
    estimate and is not part of this model. */
module Histograms {

  ghost function Sum(counts: seq<nat>): nat {
    if |counts| == 0 then 0 else counts[0] + Sum(counts[1..])
  }

  /** `counts[s]` is how often `base + s` occurs in `m`, which holds nothing else. */
  ghost predicate Tallies(counts: seq<nat>, base: nat, m: multiset<nat>) {
    && (forall s :: 0 <= s < |counts| ==> counts[s] == m[base + s])
    && (forall x :: x in m ==> base <= x < base + |counts|)
  }

  /** Conservation: the counts add up to the number of symbols counted. */
  lemma {:induction false} CountsSum(counts: seq<nat>, base: nat, m: multiset<nat>)
    requires Tallies(counts, base, m)
    ensures Sum(counts) == |m|
    decreases |counts|
  {
    if |counts| == 0 {
      assert m == multiset{};
    } else {
      var rest := m[base := 0];
      assert |m| == m[base] + |rest|;
      assert rest[base] == 0;
      forall s | 0 <= s < |counts| - 1
        ensures counts[1..][s] == rest[base + 1 + s]
      {
        assert counts[1 + s] == m[base + (1 + s)];
      }
      CountsSum(counts[1..], base + 1, rest);
    }
  }

  class Histogram {
    const data: array<nat>
    var totalCount: nat
    /** The symbols counted so far. */
    ghost var counted: multiset<nat>

    ghost predicate Valid()
      reads this, data
    {
      && Tallies(data[..], 0, counted)
      && totalCount == |counted|
    }

    /** An empty histogram over `n` symbols. */
    constructor (n: nat)
      ensures Valid() && fresh(data) && data.Length == n && counted == multiset{}
    {
      data := new nat[n](_ => 0);
      totalCount := 0;
      counted := multiset{};
    }

    method Clear()
      modifies this, data
      ensures Valid() && counted == multiset{}
    {
      forall s | 0 <= s < data.Length {
        data[s] := 0;
      }
      totalCount := 0;
      counted := multiset{};
    }

    /** Counts one symbol; a symbol outside the alphabet is ignored. */
    method Add(symbol: nat)
      requires Valid()
      modifies this, data
      ensures Valid()
      ensures counted == old(counted) + if symbol < data.Length then multiset{symbol} else multiset{}
    {
      if symbol < data.Length {
        data[symbol] := data[symbol] + 1;
        totalCount := totalCount + 1;
        counted := counted + multiset{symbol};
      }
    }

    method AddHistogram(other: Histogram)
      requires Valid() && other.Valid() && other != this
      requires other.data != data && other.data.Length == data.Length
      modifies this, data
      ensures Valid() && other.Valid() && counted == old(counted) + other.counted
    {
      totalCount := totalCount + other.totalCount;
      ghost var before := data[..];
      forall s | 0 <= s < data.Length {
        data[s] := data[s] + other.data[s];
      }
      counted := counted + other.counted;
    }

    method SetSum(left: Histogram, right: Histogram)
      requires left.Valid() && right.Valid() && left != this && right != this
      requires left.data != data && right.data != data
      requires left.data.Length == data.Length == right.data.Length
      modifies this, data
      ensures Valid() && counted == left.counted + right.counted
    {
      forall s | 0 <= s < data.Length {
        data[s] := left.data[s] + right.data[s];
      }
      totalCount := left.totalCount + right.totalCount;
      counted := left.counted + right.counted;
    }

    /** `total_count` is the sum of `data`. */
    lemma TotalIsSum()
      requires Valid()
      ensures totalCount == Sum(data[..])
    {
      CountsSum(data[..], 0, counted);
    }
  }

  /** Merging in place is the same as overwriting with the sum, and both keep every count. */
  method MergeBothWays(target: Histogram, left: Histogram, right: Histogram)
    requires target.Valid() && left.Valid() && right.Valid()
    requires target != left && target != right && left != right
    requires target.data != left.data && target.data != right.data && left.data != right.data
    requires left.data.Length == target.data.Length == right.data.Length
    modifies target, target.data, left, left.data
    ensures target.data[..] == left.data[..] && target.totalCount == left.totalCount
  {
    target.SetSum(left, right);
    left.AddHistogram(right);
  }
}
