/** `optimize_huffman_counts_for_rle` (src/shared/histogram.rs): counts are rounded in place so that
    their code lengths run-length code well, without any used symbol losing its code. */
module Smoothing {
  import opened Bits

  const STREAK_LIMIT := 1240

  // --------------------------------------------------------------------- first looks

  ghost function Nonzeros(s: seq<nat>): (n: nat)
    ensures n <= |s|
  {
    if |s| == 0 then 0 else Nonzeros(s[..|s| - 1]) + if s[|s| - 1] != 0 then 1 else 0
  }

  /** One past the last count that is not zero. */
  ghost function UsedLength(s: seq<nat>): (n: nat)
    ensures n <= |s| && (n > 0 ==> s[n - 1] != 0) && forall i :: n <= i < |s| ==> s[i] == 0
  {
    if |s| == 0 then 0 else if s[|s| - 1] != 0 then |s| else UsedLength(s[..|s| - 1])
  }

  ghost function Smallest(s: seq<nat>): nat {
    if |s| == 0 then 0x4000_0000
    else
      var rest := Smallest(s[..|s| - 1]);
      if s[|s| - 1] != 0 && s[|s| - 1] < rest then s[|s| - 1] else rest
  }

  lemma {:induction false} UsedNonzeros(s: seq<nat>)
    ensures Nonzeros(s[..UsedLength(s)]) == Nonzeros(s)
    decreases |s|
  {
    if |s| == 0 {
      assert s[..0] == s;
    } else if s[|s| - 1] != 0 {
      assert s[..|s|] == s;
    } else {
      var front := s[..|s| - 1];
      UsedNonzeros(front);
      assert front[..UsedLength(front)] == s[..UsedLength(s)];
    }
  }

  method CountNonzeros(counts: array<nat>, length: nat) returns (n: nat)
    requires length <= counts.Length
    ensures n == Nonzeros(counts[..length])
  {
    n := 0;
    for i := 0 to length
      invariant n == Nonzeros(counts[..i])
    {
      assert counts[..i + 1][..i] == counts[..i];
      if counts[i] != 0 { n := n + 1; }
    }
  }

  method FindSmallest(counts: array<nat>, length: nat) returns (smallest: nat)
    requires length <= counts.Length
    ensures smallest == Smallest(counts[..length])
  {
    smallest := 0x4000_0000;
    for i := 0 to length
      invariant smallest == Smallest(counts[..i])
    {
      assert counts[..i + 1][..i] == counts[..i];
      if counts[i] != 0 && counts[i] < smallest { smallest := counts[i]; }
    }
  }

  method TrimLength(counts: array<nat>, length: nat) returns (used: nat)
    requires length <= counts.Length
    ensures used == UsedLength(counts[..length])
  {
    used := length;
    while used != 0 && counts[used - 1] == 0
      invariant used <= length && UsedLength(counts[..used]) == UsedLength(counts[..length])
    {
      assert counts[..used][..used - 1] == counts[..used - 1];
      used := used - 1;
    }
  }

  // ------------------------------------------------------------------------ lone gaps

  /** A zero between two counts that are not zero becomes a one. */
  ghost function FilledAt(s: seq<nat>, n: nat, i: nat): nat
    requires n <= |s| && i < |s|
  {
    if 1 <= i < n - 1 && s[i] == 0 && s[i - 1] != 0 && s[i + 1] != 0 then 1 else s[i]
  }

  ghost function Filled(s: seq<nat>, n: nat): (r: seq<nat>)
    requires n <= |s|
    ensures |r| == |s|
  {
    seq(|s|, i requires 0 <= i < |s| => FilledAt(s, n, i))
  }

  /** The pass works in place, but a gap it fills never makes another. */
  method FillGaps(counts: array<nat>, n: nat)
    requires 2 <= n <= counts.Length
    modifies counts
    ensures counts[..] == Filled(old(counts[..]), n)
  {
    ghost var s := counts[..];
    for i := 1 to n - 1
      invariant forall j :: 0 <= j < i ==> counts[j] == FilledAt(s, n, j)
      invariant forall j :: i <= j < counts.Length ==> counts[j] == s[j]
    {
      if counts[i - 1] != 0 && counts[i] == 0 && counts[i + 1] != 0 {
        counts[i] := 1;
      }
    }
  }

  // ----------------------------------------------------------------------- good runs

  ghost predicate Uniform(s: seq<nat>, a: nat, b: nat) {
    a <= b <= |s| && forall i, j :: a <= i < b && a <= j < b ==> s[i] == s[j]
  }

  /** The shortest run that already codes well. */
  function Threshold(v: nat): nat { if v == 0 then 5 else 7 }

  /** Count `j` is in a run of equal counts, among the first `n`, that is long enough. */
  ghost predicate InGoodRun(s: seq<nat>, n: nat, j: nat) {
    j < n <= |s| && exists a: nat, b: nat :: a <= j < b <= n && Uniform(s, a, b) && b - a >= Threshold(s[j])
  }

  /** `[a, b)` is a whole run of the first `n` counts. */
  ghost predicate Run(s: seq<nat>, n: nat, a: nat, b: nat) {
    && a < b <= n <= |s| && Uniform(s, a, b)
    && (a > 0 ==> s[a - 1] != s[a]) && (b < n ==> s[b] != s[a])
  }

  /** Inside a whole run all counts are in a good run, or none is. */
  lemma RunDecides(s: seq<nat>, n: nat, a: nat, b: nat, j: nat)
    requires Run(s, n, a, b) && a <= j < b
    ensures InGoodRun(s, n, j) <==> b - a >= if s[a] == 0 then 5 else 7
  {
    assert s[j] == s[a];
    forall c: nat, d: nat | c <= j < d <= n && Uniform(s, c, d)
      ensures a <= c && d <= b
    {
      var before, behind := if c < a then a - 1 else j, if d > b then b else j;
      assert s[before] == s[j] && s[behind] == s[j];
    }
    if b - a >= Threshold(s[a]) { assert Uniform(s, a, b); }
  }

  /** Marks the runs that already code well, and nothing else. */
  method MarkGoodRuns(counts: array<nat>, good: array<bool>, n: nat)
    requires 0 < n <= counts.Length && n <= good.Length
    modifies good
    ensures forall j :: 0 <= j < n ==> good[j] == InGoodRun(counts[..], n, j)
    ensures counts[..] == old(counts[..])
  {
    hide InGoodRun, Uniform;
    ghost var s := counts[..];
    forall j | 0 <= j < n {
      good[j] := false;
    }
    var symbol, step: nat := counts[0], 0;
    NoStep(s, n);
    for i := 0 to n + 1
      invariant step <= i && (i > 0 ==> 0 < step)
      invariant i <= n ==> Growing(s, n, i - step, i, symbol)
      invariant forall j :: 0 <= j < (if i <= n then i - step else n) ==> good[j] == InGoodRun(s, n, j)
      invariant i <= n ==> forall j :: i - step <= j < n ==> !good[j]
      invariant counts[..] == s
    {
      if i == n || counts[i] != symbol {
        CloseRun(s, n, i - step, i, symbol);
        if (symbol == 0 && step >= 5) || (symbol != 0 && step >= 7) {
          forall k | i - step <= k < i {
            good[k] := true;
          }
        }
        step := 1;
        if i != n {
          symbol := counts[i];
          OpenRun(s, n, i);
        }
      } else {
        GrowRun(s, n, i - step, i, symbol);
        step := step + 1;
      }
    }
  }

  /** `[a, b)` is the beginning of a run of `symbol`. */
  ghost predicate Growing(s: seq<nat>, n: nat, a: int, b: nat, symbol: nat) {
    && 0 <= a <= b <= n <= |s| && (forall i :: a <= i < b ==> s[i] == symbol)
    && (a > 0 ==> s[a - 1] != symbol) && (a == b ==> a < n && s[a] == symbol)
  }

  lemma NoStep(s: seq<nat>, n: nat)
    requires 0 < n <= |s|
    ensures Growing(s, n, 0, 0, s[0])
  {
  }

  lemma GrowRun(s: seq<nat>, n: nat, a: nat, b: nat, symbol: nat)
    requires Growing(s, n, a, b, symbol) && b < n && s[b] == symbol
    ensures Growing(s, n, a, b + 1, symbol)
  {
  }

  lemma OpenRun(s: seq<nat>, n: nat, b: nat)
    requires 0 < b < n <= |s| && s[b - 1] != s[b]
    ensures Growing(s, n, b, b + 1, s[b])
  {
  }

  lemma CloseRun(s: seq<nat>, n: nat, a: nat, b: nat, symbol: nat)
    requires Growing(s, n, a, b, symbol) && (b == n || s[b] != symbol)
    ensures b > 0 && s[b - 1] == symbol
    ensures forall j :: a <= j < b ==> InGoodRun(s, n, j) == (b - a >= Threshold(symbol))
  {
    hide InGoodRun;
    assert Run(s, n, a, b) && s[a] == symbol;
    forall j | a <= j < b
      ensures InGoodRun(s, n, j) == (b - a >= Threshold(symbol))
    {
      RunDecides(s, n, a, b, j);
    }
  }

  // ------------------------------------------------------------- the collapsing pass

  /** The unflushed window: its length, its sum, and the level its counts are compared with. */
  datatype Streak = Streak(stride: nat, sum: nat, limit: nat)

  /** The rounded mean a window is replaced by; a used window never becomes unused. */
  function Mean(sum: nat, stride: nat): (count: nat)
    requires stride > 0
    ensures sum > 0 ==> count > 0
    ensures sum == 0 ==> count == 0
  {
    var count := (sum + stride / 2) / stride;
    if sum == 0 then 0 else if count == 0 then 1 else count
  }

  /** It is the nearest integer, the larger of two as near, except that a small positive mean becomes
      one. */
  lemma MeanRounds(sum: nat, stride: nat)
    requires stride > 0 && sum > 0
    ensures var m := Mean(sum, stride);
            2 * sum - stride < 2 * (m * stride) <= 2 * sum + stride || (m == 1 && 2 * sum < stride)
  {
    var count := (sum + stride / 2) / stride;
    var rest := (sum + stride / 2) % stride;
    assert count * stride + rest == sum + stride / 2;
  }

  /** `(256 * count).wrapping_sub(limit).wrapping_add(STREAK_LIMIT) >= 2 * STREAK_LIMIT` */
  predicate OutOfStreak(count: nat, limit: nat) {
    (256 * count - limit + STREAK_LIMIT) % U64 >= 2 * STREAK_LIMIT
  }

  /** Far from wrapping around, the unsigned comparison is a two-sided one. */
  lemma OutOfStreakMeans(count: nat, limit: nat)
    requires 256 * count < U64 / 2 && limit < U64 / 2
    ensures OutOfStreak(count, limit) <==> 256 * count < limit - STREAK_LIMIT || 256 * count >= limit + STREAK_LIMIT
  {
    var v := 256 * count - limit + STREAK_LIMIT;
    if v < 0 {
      assert v % U64 == v + U64;
    } else {
      assert v % U64 == v;
    }
  }

  /** The level a new window starts from. */
  function StartLimit(s: seq<nat>, n: nat, i: nat): nat
    requires n <= |s|
  {
    if i + 2 < n then 256 * (s[i] + s[i + 1] + s[i + 2]) / 3 + 420
    else if i < n then 256 * s[i]
    else 0
  }

  /** The window before position `i` is closed there. */
  predicate Cut(s: seq<nat>, good: seq<bool>, n: nat, i: nat, st: Streak)
    requires n <= |s| && n <= |good|
  {
    i >= n || good[i] || (i != 0 && good[i - 1]) || OutOfStreak(s[i], st.limit)
  }

  /** The window once position `i` has joined it, or started a new one. */
  function NextStreak(s: seq<nat>, good: seq<bool>, n: nat, i: nat, st: Streak): Streak
    requires n <= |s| && n <= |good|
  {
    var st := if Cut(s, good, n, i, st) then Streak(0, 0, StartLimit(s, n, i)) else st;
    var stride := st.stride + 1;
    if i >= n then Streak(stride, st.sum, st.limit)
    else
      var sum := st.sum + s[i];
      var limit := if stride >= 4 then (256 * sum + stride / 2) / stride else st.limit;
      Streak(stride, sum, if stride == 4 then limit + 120 else limit)
  }

  /** The window before position `i`. */
  ghost function StreakAt(s: seq<nat>, good: seq<bool>, n: nat, i: nat): Streak
    requires 3 <= n <= |s| && n <= |good|
  {
    if i == 0 then Streak(0, 0, 256 * (s[0] + s[1] + s[2]) / 3 + 420)
    else NextStreak(s, good, n, i - 1, StreakAt(s, good, n, i - 1))
  }

  ghost function Total(s: seq<nat>, a: nat, b: nat): nat
    requires a <= b <= |s|
  {
    if a == b then 0 else Total(s, a, b - 1) + s[b - 1]
  }

  /** `sum` and `stride` describe exactly the unflushed window, and a window of two or more holds no
      count of a good run. */
  lemma {:induction false} StreakDescribes(s: seq<nat>, good: seq<bool>, n: nat, i: nat)
    requires 3 <= n <= |s| && n <= |good| && i <= n
    ensures var st := StreakAt(s, good, n, i);
            && st.stride <= i && (i > 0 ==> st.stride > 0)
            && st.sum == Total(s, i - st.stride, i)
            && (st.stride >= 2 ==> forall j :: i - st.stride <= j < i ==> !good[j])
  {
    hide OutOfStreak, StartLimit;
    if i > 0 {
      StreakDescribes(s, good, n, i - 1);
      var before := StreakAt(s, good, n, i - 1);
      if Cut(s, good, n, i - 1, before) {
        assert Total(s, i - 1, i) == Total(s, i - 1, i - 1) + s[i - 1];
      }
    }
  }

  /** A window is replaced when it is long enough. */
  predicate Replaced(st: Streak) { st.stride >= 4 || (st.stride >= 3 && st.sum == 0) }

  ghost function Replace(s: seq<nat>, a: nat, b: nat, v: nat): (r: seq<nat>)
    requires a <= b <= |s|
    ensures |r| == |s|
  {
    seq(|s|, i requires 0 <= i < |s| => if a <= i < b then v else s[i])
  }

  /** The counts once the positions before `i` have been visited. */
  ghost function CollapsedAt(s: seq<nat>, good: seq<bool>, n: nat, i: nat): (r: seq<nat>)
    requires 3 <= n <= |s| && n <= |good| && i <= n + 1
    ensures |r| == |s|
  {
    if i == 0 then s
    else
      var r := CollapsedAt(s, good, n, i - 1);
      var st := StreakAt(s, good, n, i - 1);
      StreakDescribes(s, good, n, i - 1);
      if Cut(s, good, n, i - 1, st)
          && Replaced(st) then Replace(r, i - 1 - st.stride, i - 1, Mean(st.sum, st.stride)) else r
  }

  ghost function Collapsed(s: seq<nat>, good: seq<bool>, n: nat): (r: seq<nat>)
    requires 3 <= n <= |s| && n <= |good|
    ensures |r| == |s|
  {
    CollapsedAt(s, good, n, n + 1)
  }

  /** Closes the window `[i - stride, i)`. */
  method Flush(counts: array<nat>, i: nat, stride: nat, sum: nat)
    requires stride <= i <= counts.Length
    modifies counts
    ensures counts[..] == if Replaced(Streak(stride, sum, 0))
            then Replace(old(counts[..]), i - stride, i, Mean(sum, stride))
                          else old(counts[..])
  {
    if stride >= 4 || (stride >= 3 && sum == 0) {
      var count := (sum + stride / 2) / stride;
      if count == 0 { count := 1; }
      if sum == 0 { count := 0; }
      forall k | i - stride <= k < i {
        counts[k] := count;
      }
    }
  }

  /** The collapsing pass, in place. */
  method Collapse(counts: array<nat>, good: array<bool>, n: nat)
    requires 3 <= n <= counts.Length && n <= good.Length
    modifies counts
    ensures counts[..] == Collapsed(old(counts[..]), old(good[..n]), n)
  {
    hide OutOfStreak, StartLimit, NextStreak, Mean, Total, Replace;
    ghost var s, g := counts[..], good[..n];
    var stride: nat, sum: nat, limit: nat := 0, 0, 256 * (counts[0] + counts[1] + counts[2]) / 3 + 420;
    for i := 0 to n + 1
      invariant StreakAt(s, g, n, i) == Streak(stride, sum, limit)
      invariant counts[..] == CollapsedAt(s, g, n, i)
      invariant good[..n] == g
      invariant forall j :: i <= j < counts.Length ==> counts[j] == s[j]
      invariant i <= n ==> stride <= i
    {
      StreakDescribes(s, g, n, i);
      var cut := i == n || good[i] || (i != 0 && good[i - 1]) || OutOfStreak(counts[i], limit);
      assert i < n ==> g[i] == good[i];
      assert 0 < i ==> g[i - 1] == good[i - 1];
      assert cut == Cut(s, g, n, i, Streak(stride, sum, limit));
      if cut {
        Flush(counts, i, stride, sum);
        KeepsTail(CollapsedAt(s, g, n, i), counts[..], i - stride, i, Streak(stride, sum, 0));
        stride, sum := 0, 0;
        limit := if i + 2 < n then 256 * (counts[i] + counts[i + 1] + counts[i + 2]) / 3 + 420
                 else if i < n then 256 * counts[i] else 0;
        StartLimitIs(s, n, i, limit);
      }
      StepIs(s, g, n, i, StreakAt(s, g, n, i));
      stride := stride + 1;
      if i != n {
        sum := sum + counts[i];
        if stride >= 4 { limit := (256 * sum + stride / 2) / stride; }
        if stride == 4 { limit := limit + 120; }
      }
      if i < n { StreakDescribes(s, g, n, i + 1); }
    }
  }

  lemma KeepsTail(before: seq<nat>, after: seq<nat>, a: nat, b: nat, st: Streak)
    requires a <= b <= |before| == |after| && (st.stride > 0 || a == b)
    requires after == if Replaced(st) && st.stride > 0 then Replace(before, a, b, Mean(st.sum, st.stride)) else before
    ensures forall j :: b <= j < |before| ==> after[j] == before[j]
  {
  }

  lemma StartLimitIs(s: seq<nat>, n: nat, i: nat, limit: nat)
    requires n <= |s|
    requires limit == if i + 2 < n then 256 * (s[i] + s[i + 1] + s[i + 2]) / 3 + 420 else if i < n then 256 * s[i]
             else 0
    ensures limit == StartLimit(s, n, i)
  {
  }

  lemma StepIs(s: seq<nat>, good: seq<bool>, n: nat, i: nat, before: Streak)
    requires n <= |s| && n <= |good|
    ensures var st := if Cut(s, good, n, i, before) then Streak(0, 0, StartLimit(s, n, i)) else before;
            var stride := st.stride + 1;
            NextStreak(s, good, n, i, before)
            == if i >= n then Streak(stride, st.sum, st.limit)
               else
                 var sum := st.sum + s[i];
                 var limit := if stride >= 4 then (256 * sum + stride / 2) / stride else st.limit;
                 Streak(stride, sum, if stride == 4 then limit + 120 else limit)
  {
    hide OutOfStreak, StartLimit;
  }

  // ------------------------------------------------------------- what is kept

  lemma {:induction false} TotalPositive(s: seq<nat>, a: nat, b: nat, j: nat)
    requires a <= j < b <= |s|
    ensures Total(s, a, b) >= s[j]
    decreases b
  {
    if j < b - 1 { TotalPositive(s, a, b - 1, j); }
  }

  /** Replacing a window of the original counts keeps what was used, used. */
  lemma ReplaceKeeps(s: seq<nat>, before: seq<nat>, a: nat, b: nat, st: Streak)
    requires a <= b <= |s| == |before| && st.stride > 0 && st.sum == Total(s, a, b)
    requires forall j :: 0 <= j < |s| && s[j] != 0 ==> before[j] != 0
    ensures var after := Replace(before, a, b, Mean(st.sum, st.stride));
            forall j :: 0 <= j < |s| && s[j] != 0 ==> after[j] != 0
  {
    hide Mean, Total;
    var after := Replace(before, a, b, Mean(st.sum, st.stride));
    forall j | 0 <= j < |s| && s[j] != 0
      ensures after[j] != 0
    {
      if a <= j < b { TotalPositive(s, a, b, j); }
    }
  }

  /** No used count becomes unused. */
  lemma {:induction false} CollapseKeepsUsed(s: seq<nat>, good: seq<bool>, n: nat, i: nat)
    requires 3 <= n <= |s| && n <= |good| && i <= n + 1
    ensures forall j :: 0 <= j < |s| && s[j] != 0 ==> CollapsedAt(s, good, n, i)[j] != 0
  {
    hide Cut, Mean, Total, Replace, StreakAt;
    if i > 0 {
      CollapseKeepsUsed(s, good, n, i - 1);
      StreakDescribes(s, good, n, i - 1);
      var st := StreakAt(s, good, n, i - 1);
      if st.stride > 0 { ReplaceKeeps(s, CollapsedAt(s, good, n, i - 1), i - 1 - st.stride, i - 1, st); }
    }
  }

  /** Counts of good runs, and counts past the window, are not altered. */
  lemma {:induction false} CollapseKeepsGood(s: seq<nat>, good: seq<bool>, n: nat, i: nat, j: nat)
    requires 3 <= n <= |s| && n <= |good| && i <= n + 1 && j < |s| && (j >= n || good[j])
    ensures CollapsedAt(s, good, n, i)[j] == s[j]
  {
    hide Cut, Mean, Total, StreakAt;
    if i > 0 {
      CollapseKeepsGood(s, good, n, i - 1, j);
      StreakDescribes(s, good, n, i - 1);
    }
  }

  // ------------------------------------------------------------------ the whole rewrite

  ghost function GoodMarks(s: seq<nat>, n: nat): (good: seq<bool>)
    ensures |good| == n
  {
    seq(n, j requires 0 <= j < n => InGoodRun(s, n, j))
  }

  /** Whether lone gaps are filled. */
  ghost predicate FillsGaps(s: seq<nat>, n: nat)
    requires n <= |s|
  {
    Smallest(s[..n]) < 4 && n - Nonzeros(s[..n]) < 6
  }

  /** What `optimize_huffman_counts_for_rle` makes of the counts. */
  ghost function Smoothed(s: seq<nat>, length: nat): (r: seq<nat>)
    requires length <= |s|
    ensures |r| == |s|
  {
    var used := UsedLength(s[..length]);
    var filled := if FillsGaps(s, used) then Filled(s, used) else s;
    UsedEnough(s, length);
    if Nonzeros(s[..length]) < 16 then s
    else if Nonzeros(s[..length]) < 28 then filled
    else Collapsed(filled, GoodMarks(filled, used), used)
  }

  lemma UsedEnough(s: seq<nat>, length: nat)
    requires length <= |s|
    ensures var used := UsedLength(s[..length]);
            used <= length && Nonzeros(s[..used]) == Nonzeros(s[..length]) <= used
  {
    var used := UsedLength(s[..length]);
    UsedNonzeros(s[..length]);
    assert s[..length][..used] == s[..used];
  }

  /** The whole function, in place. */
  method OptimizeHuffmanCountsForRle(length: nat, counts: array<nat>, goodForRle: array<bool>)
    requires length <= counts.Length && length <= goodForRle.Length
    modifies counts, goodForRle
    ensures counts[..] == Smoothed(old(counts[..]), length)
  {
    hide Nonzeros, UsedLength, Smallest, Filled, InGoodRun, Collapsed;
    ghost var s := counts[..];
    UsedEnough(s, length);
    var nonzeroCount := CountNonzeros(counts, length);
    if nonzeroCount < 16 { return; }
    var used := TrimLength(counts, length);
    if used == 0 { return; }
    var nonzeros := CountNonzeros(counts, used);
    var smallest := FindSmallest(counts, used);
    if nonzeros < 5 { return; }
    if smallest < 4 && used - nonzeros < 6 {
      FillGaps(counts, used);
    }
    if nonzeros < 28 { return; }
    ghost var filled := counts[..];
    MarkGoodRuns(counts, goodForRle, used);
    assert goodForRle[..used] == GoodMarks(filled, used);
    Collapse(counts, goodForRle, used);
  }

  lemma FilledKeeps(s: seq<nat>, n: nat, j: nat)
    requires n <= |s| && j < |s|
    ensures s[j] != 0 ==> Filled(s, n)[j] == s[j]
    ensures j >= n ==> Filled(s, n)[j] == s[j]
  {
  }

  /** Smoothing never loses a symbol: every count that was not zero is still not zero. */
  lemma SmoothingKeepsUsed(s: seq<nat>, length: nat, j: nat)
    requires length <= |s| && j < |s| && s[j] != 0
    ensures Smoothed(s, length)[j] != 0
  {
    hide Nonzeros, UsedLength, Smallest, Filled, InGoodRun, GoodMarks;
    UsedEnough(s, length);
    var used := UsedLength(s[..length]);
    FilledKeeps(s, used, j);
    var filled := if FillsGaps(s, used) then Filled(s, used) else s;
    if Nonzeros(s[..length]) >= 28 { CollapseKeepsUsed(filled, GoodMarks(filled, used), used, used + 1); }
  }

  /** Entries past the last used one are unchanged. */
  lemma SmoothingKeepsTail(s: seq<nat>, length: nat, j: nat)
    requires length <= |s| && UsedLength(s[..length]) <= j < |s|
    ensures Smoothed(s, length)[j] == s[j]
  {
    hide Nonzeros, UsedLength, Smallest, Filled, InGoodRun, GoodMarks;
    UsedEnough(s, length);
    var used := UsedLength(s[..length]);
    FilledKeeps(s, used, j);
    var filled := if FillsGaps(s, used) then Filled(s, used) else s;
    if Nonzeros(s[..length]) >= 28 { CollapseKeepsGood(filled, GoodMarks(filled, used), used, used + 1, j); }
  }

  /** Runs that already code well come through the collapsing pass as they went in. */
  lemma SmoothingKeepsGoodRuns(s: seq<nat>, length: nat, j: nat)
    requires length <= |s| && Nonzeros(s[..length]) >= 28
    requires var used := UsedLength(s[..length]);
             InGoodRun(if FillsGaps(s, used) then Filled(s, used) else s, used, j)
    ensures Smoothed(s, length)[j]
            == (if FillsGaps(s, UsedLength(s[..length])) then Filled(s, UsedLength(s[..length])) else s)[j]
  {
    hide Nonzeros, UsedLength, Smallest, Filled;
    UsedEnough(s, length);
    var used := UsedLength(s[..length]);
    var filled := if FillsGaps(s, used) then Filled(s, used) else s;
    CollapseKeepsGood(filled, GoodMarks(filled, used), used, used + 1, j);
  }

  // ------------------------------------------------------------- what smoothing achieves

  /** The counts of a histogram are 32 bits wide. */
  predicate Narrow(s: seq<nat>) {
    forall i :: 0 <= i < |s| ==> s[i] < U32
  }

  /** What the count at `i` is compared with when the window so far is `[a, i)`, in units of a 256th:
      at first the mean of the three counts the window starts with, and a margin; from four on the
      mean of the window, with a margin once. */
  ghost function Level(s: seq<nat>, n: nat, a: nat, i: nat): nat
    requires a < i <= n <= |s|
  {
    var width := i - a;
    if width > 4 then (256 * Total(s, a, i) + width / 2) / width
    else if width == 4 then (256 * Total(s, a, i) + 2) / 4 + 120
    else if a + 2 < n then 256 * (s[a] + s[a + 1] + s[a + 2]) / 3 + 420
    else 256 * s[a]
  }

  /** A count within the band of a level: 1240 256ths to either side. */
  predicate InBand(count: nat, level: nat) { level <= 256 * count + 1240 && 256 * count < level + 1240 }

  /** The count at `i` goes on with the window that started at `a`: no good run begins or ends there,
      and the count is near the level of the window. */
  ghost predicate GoesOn(s: seq<nat>, n: nat, a: nat, i: nat)
    requires a < i < n <= |s|
  {
    !InGoodRun(s, n, i) && !InGoodRun(s, n, i - 1) && InBand(s[i], Level(s, n, a, i))
  }

  /** `[a, b)` is a window: every count behind its first goes on with it, and the one after does not. */
  ghost predicate IsWindow(s: seq<nat>, n: nat, a: nat, b: nat) {
    && a < b <= n <= |s| && (forall i :: a < i < b ==> GoesOn(s, n, a, i)) && (b < n ==> !GoesOn(s, n, a, b))
  }

  /** `r` is `s` with a window averaged when it has four counts, or three zeros. */
  ghost predicate WindowAveraged(s: seq<nat>, r: seq<nat>, a: nat, b: nat)
    requires a < b <= |s| == |r|
  {
    forall j :: a <= j < b ==>
      r[j] == if b - a >= 4 || (b - a == 3 && Total(s, a, b) == 0) then Mean(Total(s, a, b), b - a) else s[j]
  }

  /** The first `n` counts of `s`, from `a` on, window after window. */
  ghost predicate Averaged(s: seq<nat>, r: seq<nat>, n: nat, a: nat)
    requires a <= n <= |s| == |r|
    decreases n - a
  {
    a == n || exists b: nat :: IsWindow(s, n, a, b) && WindowAveraged(s, r, a, b) && Averaged(s, r, n, b)
  }

  /** There is one way only to cut the counts into windows. */
  lemma WindowsUnique(s: seq<nat>, n: nat, a: nat, b: nat, c: nat)
    requires IsWindow(s, n, a, b) && IsWindow(s, n, a, c)
    ensures b == c
  {
    hide GoesOn;
  }

  lemma SameWindow(s: seq<nat>, p: seq<nat>, q: seq<nat>, a: nat, b: nat)
    requires a < b <= |s| == |p| == |q| && WindowAveraged(s, p, a, b) && WindowAveraged(s, q, a, b)
    ensures p[a..b] == q[a..b]
  {
    hide Mean, Total;
  }

  /** So being averaged window by window determines every count. */
  lemma {:induction false} AveragedUnique(s: seq<nat>, p: seq<nat>, q: seq<nat>, n: nat, a: nat)
    requires a <= n <= |s| == |p| == |q| && Averaged(s, p, n, a) && Averaged(s, q, n, a)
    ensures p[a..n] == q[a..n]
    decreases n - a
  {
    hide GoesOn, Mean, Total, WindowAveraged;
    if a < n {
      var b: nat :| IsWindow(s, n, a, b) && WindowAveraged(s, p, a, b) && Averaged(s, p, n, b);
      var c: nat :| IsWindow(s, n, a, c) && WindowAveraged(s, q, a, c) && Averaged(s, q, n, c);
      WindowsUnique(s, n, a, b, c);
      SameWindow(s, p, q, a, b);
      AveragedUnique(s, p, q, n, b);
      assert p[a..n] == p[a..b] + p[b..n] && q[a..n] == q[a..b] + q[b..n];
    }
  }

  lemma {:induction false} TotalBound(s: seq<nat>, a: nat, b: nat)
    requires a <= b <= |s| && Narrow(s)
    ensures Total(s, a, b) <= (b - a) * (U32 - 1)
    decreases b
  {
    if a < b {
      TotalBound(s, a, b - 1);
      assert (b - a) * (U32 - 1) == (b - 1 - a) * (U32 - 1) + (U32 - 1);
    }
  }

  lemma MeanBound(total: nat, width: nat)
    requires width > 0 && total <= width * (U32 - 1)
    ensures (256 * total + width / 2) / width <= 256 * U32
  {
    var q := (256 * total + width / 2) / width;
    assert q * width <= 256 * total + width / 2;
    assert 256 * total + width / 2 < (256 * U32 + 1) * width;
    if q >= 256 * U32 + 1 { TimesMonotone(256 * U32 + 1, q, width); }
  }

  lemma TimesMonotone(a: nat, b: nat, w: nat)
    requires a <= b
    ensures a * w <= b * w
  {
  }

  lemma LevelBound(s: seq<nat>, n: nat, a: nat, i: nat)
    requires a < i <= n <= |s| && Narrow(s)
    ensures Level(s, n, a, i) < U64 / 2
  {
    hide Total;
    TotalBound(s, a, i);
    MeanBound(Total(s, a, i), i - a);
  }

  /** The marks are those of the good runs. */
  ghost predicate Marks(s: seq<nat>, good: seq<bool>, n: nat) {
    3 <= n <= |s| && |good| == n && forall j :: 0 <= j < n ==> good[j] == InGoodRun(s, n, j)
  }

  /** The state before position `i` is that of the window `[a, i)`. */
  ghost predicate InWindow(s: seq<nat>, good: seq<bool>, n: nat, a: nat, i: nat)
    requires Marks(s, good, n)
  {
    a < i <= n && StreakAt(s, good, n, i) == Streak(i - a, Total(s, a, i), Level(s, n, a, i))
  }

  /** The next position opens a window when the one before is closed, and else goes on with it. */
  lemma WindowStep(s: seq<nat>, good: seq<bool>, n: nat, a: nat, i: nat)
    requires Marks(s, good, n) && Narrow(s) && InWindow(s, good, n, a, i) && i < n
    ensures Cut(s, good, n, i, StreakAt(s, good, n, i)) <==> !GoesOn(s, n, a, i)
    ensures GoesOn(s, n, a, i) ==> InWindow(s, good, n, a, i + 1)
    ensures !GoesOn(s, n, a, i) ==> InWindow(s, good, n, i, i + 1)
  {
    hide InGoodRun, OutOfStreak;
    LevelBound(s, n, a, i);
    OutOfStreakMeans(s[i], Level(s, n, a, i));
    assert Total(s, i, i + 1) == Total(s, i, i) + s[i];
    assert Total(s, a, i + 1) == Total(s, a, i) + s[i];
  }

  lemma FirstWindow(s: seq<nat>, good: seq<bool>, n: nat)
    requires Marks(s, good, n)
    ensures InWindow(s, good, n, 0, 1)
  {
    hide InGoodRun, OutOfStreak;
    assert Total(s, 0, 1) == Total(s, 0, 0) + s[0];
    assert StreakAt(s, good, n, 1) == NextStreak(s, good, n, 0, StreakAt(s, good, n, 0));
  }

  /** Nothing from the open window on has been rewritten. */
  lemma {:induction false} OpenUntouched(s: seq<nat>, good: seq<bool>, n: nat, i: nat)
    requires 3 <= n <= |s| && n <= |good| && i <= n
    ensures StreakAt(s, good, n, i).stride <= i
    ensures forall j :: i - StreakAt(s, good, n, i).stride <= j < |s| ==> CollapsedAt(s, good, n, i)[j] == s[j]
  {
    hide Cut, StartLimit, Mean, Total;
    if i > 0 {
      OpenUntouched(s, good, n, i - 1);
      StreakDescribes(s, good, n, i - 1);
    }
  }

  /** A closed window is not rewritten again. */
  lemma {:induction false} ClosedUntouched(s: seq<nat>, good: seq<bool>, n: nat, b: nat, i: nat)
    requires 3 <= n <= |s| && n <= |good| && b < i <= n + 1 && Cut(s, good, n, b, StreakAt(s, good, n, b))
    ensures i <= n ==> StreakAt(s, good, n, i).stride <= i - b
    ensures CollapsedAt(s, good, n, i)[..b] == CollapsedAt(s, good, n, b + 1)[..b]
    decreases i
  {
    hide OutOfStreak, StartLimit, Mean, Total, CollapsedAt;
    if i > b + 1 {
      ClosedUntouched(s, good, n, b, i - 1);
      StepRewrites(s, good, n, i);
    }
  }

  lemma StepRewrites(s: seq<nat>, good: seq<bool>, n: nat, i: nat)
    requires 3 <= n <= |s| && n <= |good| && 0 < i <= n + 1
    ensures var st := StreakAt(s, good, n, i - 1);
            && st.stride < i
            && CollapsedAt(s, good, n, i)
               == if Cut(s, good, n, i - 1, st) && Replaced(st)
                  then Replace(CollapsedAt(s, good, n, i - 1), i - 1 - st.stride, i - 1, Mean(st.sum, st.stride))
                  else CollapsedAt(s, good, n, i - 1)
  {
    hide Cut, Mean, StreakAt;
    StreakDescribes(s, good, n, i - 1);
  }

  /** A window, once found, ends up averaged. */
  lemma WindowCloses(s: seq<nat>, good: seq<bool>, n: nat, a: nat, b: nat)
    requires Marks(s, good, n) && InWindow(s, good, n, a, b) && Cut(s, good, n, b, StreakAt(s, good, n, b))
    ensures WindowAveraged(s, Collapsed(s, good, n), a, b)
  {
    hide OutOfStreak, Mean, Total, InGoodRun, Level, CollapsedAt, StreakAt, Cut;
    OpenUntouched(s, good, n, b);
    StepRewrites(s, good, n, b + 1);
    ClosedUntouched(s, good, n, b, n + 1);
    var r := Collapsed(s, good, n);
    forall j | a <= j < b
      ensures r[j] == CollapsedAt(s, good, n, b + 1)[j]
    {
      assert r[..b][j] == CollapsedAt(s, good, n, b + 1)[..b][j];
    }
  }

  /** The collapsing pass averages window after window, from any window's start. */
  lemma {:induction false} CollapseAverages(s: seq<nat>, good: seq<bool>, n: nat, a: nat)
    requires Marks(s, good, n) && Narrow(s) && a <= n && (a < n ==> InWindow(s, good, n, a, a + 1))
    ensures Averaged(s, Collapsed(s, good, n), n, a)
    decreases n - a
  {
    hide InGoodRun, OutOfStreak, Level, Mean, Total, InBand, CollapsedAt, StreakAt, GoesOn, Cut, Marks, WindowAveraged;
    MarksShape(s, good, n);
    if a < n {
      var b := a + 1;
      while b < n && GoesOn(s, n, a, b)
        invariant a < b <= n && InWindow(s, good, n, a, b)
        invariant forall i :: a < i < b ==> GoesOn(s, n, a, i)
      {
        WindowStep(s, good, n, a, b);
        b := b + 1;
      }
      if b < n { WindowStep(s, good, n, a, b); } else { CutAtEnd(s, good, n); }
      WindowCloses(s, good, n, a, b);
      assert IsWindow(s, n, a, b);
      CollapseAverages(s, good, n, b);
    }
  }

  lemma MarksShape(s: seq<nat>, good: seq<bool>, n: nat)
    requires Marks(s, good, n)
    ensures 3 <= n <= |s| && |good| == n
  {
  }

  lemma CutAtEnd(s: seq<nat>, good: seq<bool>, n: nat)
    requires 3 <= n <= |s| && n <= |good|
    ensures Cut(s, good, n, n, StreakAt(s, good, n, n))
  {
  }

  // ------------------------------------------------------------- the whole of smoothing

  /** What the averaging starts from. */
  ghost function Prepared(s: seq<nat>, length: nat): (r: seq<nat>)
    requires length <= |s|
    ensures |r| == |s|
  {
    var used := UsedLength(s[..length]);
    if FillsGaps(s, used) then Filled(s, used) else s
  }

  /** A zero with a used count on either side, below the last used count. */
  ghost predicate LoneGap(s: seq<nat>, n: nat, j: nat)
    requires n <= |s|
  {
    1 <= j && j + 1 < n && s[j] == 0 && s[j - 1] != 0 && s[j + 1] != 0
  }

  ghost function UsedSymbols(s: seq<nat>): set<nat> { set j: nat | j < |s| && s[j] != 0 }

  /** The number of counts that are not zero. */
  lemma {:induction false} NonzerosCount(s: seq<nat>)
    ensures Nonzeros(s) == |UsedSymbols(s)|
    decreases |s|
  {
    if |s| == 0 {
      assert UsedSymbols(s) == {};
    } else {
      var front := s[..|s| - 1];
      NonzerosCount(front);
      assert UsedSymbols(s) == UsedSymbols(front) + if s[|s| - 1] != 0 then {|s| - 1} else {};
    }
  }

  lemma {:induction false} SmallestBelow(s: seq<nat>, v: nat)
    requires v <= 0x4000_0000
    ensures Smallest(s) < v <==> exists j :: 0 <= j < |s| && 0 < s[j] < v
    decreases |s|
  {
    if |s| > 0 {
      var front := s[..|s| - 1];
      SmallestBelow(front, v);
      assert forall j :: 0 <= j < |front| ==> front[j] == s[j];
      if exists j :: 0 <= j < |s| && 0 < s[j] < v {
        var j :| 0 <= j < |s| && 0 < s[j] < v;
        assert j < |front| ==> 0 < front[j] < v;
      }
    }
  }

  /** Lone gaps become ones when some used count is below four and fewer than six counts, up to the
      last used one, are zero; nothing else is prepared. */
  lemma PreparedMeans(s: seq<nat>, length: nat, j: nat)
    requires length <= |s| && j < |s|
    ensures var n := UsedLength(s[..length]);
            Prepared(s, length)[j]
            == if (exists k :: 0 <= k < n && 0 < s[k] < 4) && n - |UsedSymbols(s[..n])| < 6 && LoneGap(s, n, j) then 1
               else s[j]
  {
    hide UsedLength, Nonzeros, Smallest;
    var n := UsedLength(s[..length]);
    NonzerosCount(s[..n]);
    SmallestBelow(s[..n], 4);
    assert forall k :: 0 <= k < n ==> s[..n][k] == s[k];
  }

  /** What smoothing makes of a histogram. With fewer than sixteen used counts: nothing. With fewer
      than twenty-eight: lone gaps filled. Otherwise, that and the averaging of windows. */
  lemma SmoothingOutcome(s: seq<nat>, length: nat)
    requires length <= |s| && Narrow(s)
    ensures var used := |UsedSymbols(s[..length])|;
            && (used < 16 ==> Smoothed(s, length) == s)
            && (16 <= used < 28 ==> Smoothed(s, length) == Prepared(s, length))
            && (used >= 28 ==> Averaged(Prepared(s, length), Smoothed(s, length), UsedLength(s[..length]), 0))
  {
    hide UsedLength, Nonzeros, Smallest, InGoodRun, Filled, Averaged, FillsGaps, InWindow;
    NonzerosCount(s[..length]);
    UsedEnough(s, length);
    var n, prepared := UsedLength(s[..length]), Prepared(s, length);
    if Nonzeros(s[..length]) >= 28 {
      PreparedNarrow(s, length);
      var good := GoodMarks(prepared, n);
      assert Marks(prepared, good, n);
      FirstWindow(prepared, good, n);
      CollapseAverages(prepared, good, n, 0);
    }
  }

  lemma PreparedNarrow(s: seq<nat>, length: nat)
    requires length <= |s| && Narrow(s)
    ensures Narrow(Prepared(s, length))
  {
    hide UsedLength, Nonzeros, Smallest;
  }

  // ------------------------------------------------------------- nearly equal counts

  /** The first `n` counts are `v` or `v + 1`, and no seven in a row are equal. */
  ghost predicate NearlyEqual(s: seq<nat>, n: nat, v: nat) {
    && n <= |s| && (forall j :: 0 <= j < n ==> v <= s[j] <= v + 1)
    && forall a: nat, b: nat :: b <= n && b - a == 7 ==> !Uniform(s, a, b)
  }

  lemma {:induction false} TotalBetween(s: seq<nat>, a: nat, b: nat, v: nat)
    requires a <= b <= |s| && forall j :: a <= j < b ==> v <= s[j] <= v + 1
    ensures v * (b - a) <= Total(s, a, b) <= (v + 1) * (b - a)
    decreases b
  {
    if a < b {
      TotalBetween(s, a, b - 1, v);
      OneMore(v, b - 1 - a);
      OneMore(v + 1, b - 1 - a);
    }
  }

  lemma OneMore(v: nat, w: nat)
    ensures v * (w + 1) == v * w + v
  {
  }

  lemma MeanBetween(total: nat, width: nat, v: nat)
    requires width >= 4 && v * width <= total <= (v + 1) * width
    ensures 256 * v <= (256 * total + width / 2) / width <= 256 * v + 256
  {
    var x := 256 * total + width / 2;
    var q := x / width;
    assert q * width <= x < (q + 1) * width;
    assert (256 * v) * width <= x < (256 * v + 257) * width;
    if q + 1 <= 256 * v { TimesMonotone(q + 1, 256 * v, width); }
    if 256 * v + 257 <= q { TimesMonotone(256 * v + 257, q, width); }
  }

  lemma NearlyEqualGoesOn(s: seq<nat>, n: nat, v: nat, i: nat)
    requires NearlyEqual(s, n, v) && v >= 1 && n >= 28 && 0 < i < n
    ensures GoesOn(s, n, 0, i)
  {
    hide InGoodRun, Total;
    NoGoodRun(s, n, v, i);
    NoGoodRun(s, n, v, i - 1);
    TotalBetween(s, 0, i, v);
    if i >= 4 { MeanBetween(Total(s, 0, i), i, v); }
  }

  lemma NoGoodRun(s: seq<nat>, n: nat, v: nat, j: nat)
    requires NearlyEqual(s, n, v) && v >= 1 && j < n
    ensures !InGoodRun(s, n, j)
  {
    forall a: nat, b: nat | a <= j < b <= n && Uniform(s, a, b)
      ensures b - a < Threshold(s[j])
    {
      if b - a >= 7 { assert Uniform(s, a, a + 7); }
    }
  }

  /** Nearly equal counts all become their rounded mean. */
  lemma NearlyEqualAveraged(s: seq<nat>, length: nat, v: nat, j: nat)
    requires length <= |s| && Narrow(s) && v >= 1
    requires var n := UsedLength(s[..length]); n >= 28 && NearlyEqual(s, n, v) && j < n
    ensures var n := UsedLength(s[..length]); Smoothed(s, length)[j] == Mean(Total(s, 0, n), n)
  {
    hide UsedLength, InGoodRun, Total, Mean, GoesOn, NearlyEqual, Prepared, UsedSymbols, FillsGaps, Uniform;
    var n := UsedLength(s[..length]);
    AllUsed(s, length, v);
    SmoothingOutcome(s, length);
    forall i | 0 < i < n
      ensures GoesOn(s, n, 0, i)
    {
      NearlyEqualGoesOn(s, n, v, i);
    }
    OneWindow(s, Smoothed(s, length), n);
  }

  lemma OneWindow(s: seq<nat>, r: seq<nat>, n: nat)
    requires 4 <= n <= |s| == |r| && Averaged(s, r, n, 0) && IsWindow(s, n, 0, n)
    ensures forall j :: 0 <= j < n ==> r[j] == Mean(Total(s, 0, n), n)
  {
    hide GoesOn, Mean, Total;
    var b: nat :| IsWindow(s, n, 0, b) && WindowAveraged(s, r, 0, b) && Averaged(s, r, n, b);
    WindowsUnique(s, n, 0, b, n);
  }

  lemma AllUsed(s: seq<nat>, length: nat, v: nat)
    requires length <= |s| && v >= 1 && var n := UsedLength(s[..length]); n >= 28 && NearlyEqual(s, n, v)
    ensures Prepared(s, length) == s && |UsedSymbols(s[..length])| >= 28
  {
    hide UsedLength, Nonzeros, Smallest, Uniform;
    var n := UsedLength(s[..length]);
    UsedNonzeros(s[..length]);
    NonzerosCount(s[..length]);
    NoneZero(s[..n]);
    assert s[..length][..n] == s[..n];
    forall j | 0 <= j < |s|
      ensures Filled(s, n)[j] == s[j]
    {
    }
  }

  lemma {:induction false} NoneZero(s: seq<nat>)
    requires forall j :: 0 <= j < |s| ==> s[j] != 0
    ensures Nonzeros(s) == |s|
    decreases |s|
  {
    if |s| > 0 { NoneZero(s[..|s| - 1]); }
  }
}
