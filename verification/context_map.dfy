/** Context maps (src/shared/bitstream.rs): move to front, zero runs coded in place, and the reader
    of section 7.3 of RFC 7932 that undoes both. */
module ContextMaps {
  import opened Bits
  import opened BitWriting
  import opened BlockEncoders
  import opened Commands
  import opened PrefixCodes

  const CONTEXT_MAP_SYMBOL_BITS := 9
  const MAX_CLUSTERS := 256
  const MAX_RUN_LENGTH_PREFIX := 16

  // ---------------------------------------------------------------------- move to front

  /** `index_of`: the first place of `value`, or the length. */
  function IndexOf(list: seq<nat>, value: nat): (i: nat)
    ensures i <= |list| && (i < |list| ==> list[i] == value)
    ensures value in list ==> i < |list|
  {
    if |list| == 0 || list[0] == value then 0 else 1 + IndexOf(list[1..], value)
  }

  function ToFront(list: seq<nat>, i: nat): (r: seq<nat>)
    requires i < |list|
    ensures |r| == |list|
  {
    [list[i]] + list[..i] + list[i + 1..]
  }

  function Iota(n: nat): (r: seq<nat>)
    ensures |r| == n && forall i :: 0 <= i < n ==> r[i] == i
  {
    seq(n, i => i)
  }

  ghost predicate Covers(list: seq<nat>, input: seq<nat>) {
    forall v :: v in input ==> v in list
  }

  ghost function Transform(list: seq<nat>, input: seq<nat>): (r: seq<nat>)
    requires Covers(list, input)
    ensures |r| == |input| && forall i :: 0 <= i < |r| ==> r[i] < |list|
    decreases |input|
  {
    if |input| == 0 then []
    else
      var i := IndexOf(list, input[0]);
      FrontKeeps(list, i);
      [i] + Transform(ToFront(list, i), input[1..])
  }

  lemma FrontKeeps(list: seq<nat>, i: nat)
    requires i < |list|
    ensures forall v :: v in list ==> v in ToFront(list, i)
  {
    forall v | v in list
      ensures v in ToFront(list, i)
    {
      var k :| 0 <= k < |list| && list[k] == v;
      assert ToFront(list, i)[if k == i then 0 else if k < i then k + 1 else k] == v;
    }
  }

  /** RFC 7932, section 7.3: the inverse transform. */
  function Inverse(list: seq<nat>, symbols: seq<nat>): seq<nat>
    decreases |symbols|
  {
    if |symbols| == 0 then []
    else if symbols[0] >= |list| then []
    else [list[symbols[0]]] + Inverse(ToFront(list, symbols[0]), symbols[1..])
  }

  /** A decoder that starts from a longer list undoes the transform of its prefix. */
  lemma {:induction false} InverseUndoes(list: seq<nat>, cut: nat, input: seq<nat>)
    requires cut <= |list| && Covers(list[..cut], input)
    ensures Inverse(list, Transform(list[..cut], input)) == input
    decreases |input|
  {
    if |input| > 0 {
      var i := IndexOf(list[..cut], input[0]);
      assert input[0] in list[..cut];
      FrontKeeps(list[..cut], i);
      assert ToFront(list, i)[..cut] == ToFront(list[..cut], i);
      InverseUndoes(ToFront(list, i), cut, input[1..]);
      assert Transform(list[..cut], input)[1..] == Transform(ToFront(list[..cut], i), input[1..]);
    }
  }

  /** `move_to_front`: rotates the first `index + 1` entries right by one. */
  method MoveToFront(v: array<nat>, length: nat, index: nat)
    requires index <= length <= v.Length
    modifies v
    ensures index < length ==> v[..length] == ToFront(old(v[..length]), index)
    ensures index == length ==> v[..] == old(v[..])
  {
    if index < length {
      var front := v[index];
      forall i | 0 < i <= index {
        v[i] := v[i - 1];
      }
      v[0] := front;
    }
  }

  ghost function Largest(input: seq<nat>): (m: nat)
    requires |input| > 0
    ensures m in input && forall v :: v in input ==> v <= m
  {
    if |input| == 1 then input[0]
    else
      var m := Largest(input[1..]);
      assert forall v :: v in input ==> v == input[0] || v in input[1..];
      if input[0] > m then input[0] else m
  }

  method MaxOf(input: seq<nat>) returns (m: nat)
    requires |input| > 0
    ensures m == Largest(input)
  {
    m := input[0];
    for i := 1 to |input|
      invariant m in input && forall k :: 0 <= k < i ==> input[k] <= m
    {
      if input[i] > m { m := input[i]; }
    }
  }

  /** What `move_to_front_transform` outputs. */
  ghost function TransformOf(input: seq<nat>): (r: seq<nat>)
    requires forall v :: v in input ==> v < MAX_CLUSTERS
    ensures |r| == |input|
  {
    if |input| == 0 then []
    else
      InRange(input, Largest(input) + 1);
      Transform(Iota(MAX_CLUSTERS)[..Largest(input) + 1], input)
  }

  /** The inverse transform, started from all 256 values, gives the input back, and no symbol
      reaches the number of clusters. */
  lemma TransformRoundTrip(input: seq<nat>, clusters: nat)
    requires clusters <= MAX_CLUSTERS && forall v :: v in input ==> v < clusters
    ensures Inverse(Iota(MAX_CLUSTERS), TransformOf(input)) == input
    ensures forall i :: 0 <= i < |input| ==> TransformOf(input)[i] < clusters
  {
    hide Transform, Iota, Covers, Inverse;
    if |input| == 0 {
      Empty();
      assert input == [];
    } else {
      InRange(input, Largest(input) + 1);
      InverseUndoes(Iota(MAX_CLUSTERS), Largest(input) + 1, input);
    }
  }

  /** `move_to_front_transform`: the list is cut at the largest value used. */
  method MoveToFrontTransform(input: seq<nat>) returns (output: seq<nat>)
    requires forall v :: v in input ==> v < MAX_CLUSTERS
    ensures output == TransformOf(input)
  {
    hide Transform, ToFront, Iota, IndexOf, Covers, Largest;
    output := [];
    if |input| == 0 {
      return;
    }
    var max := MaxOf(input);
    var values := new nat[MAX_CLUSTERS](i => i);
    var length := max + 1;
    assert values[..length] == Iota(MAX_CLUSTERS)[..length];
    InRange(input, length);
    for k := 0 to |input|
      invariant |output| == k
      invariant Covers(values[..length], input[k..])
      invariant TransformOf(input) == output + Transform(values[..length], input[k..])
    {
      var index := IndexOf(values[..length], input[k]);
      TransformStep(values[..length], input[k..]);
      assert input[k..][1..] == input[k + 1..];
      output := output + [index];
      MoveToFront(values, length, index);
    }
    assert input[|input|..] == [];
  }

  lemma Empty()
    ensures Inverse(Iota(MAX_CLUSTERS), []) == []
  {
  }

  lemma TransformStep(list: seq<nat>, input: seq<nat>)
    requires |input| > 0 && Covers(list, input)
    ensures var i := IndexOf(list, input[0]);
            && i < |list| && Covers(ToFront(list, i), input[1..])
            && Transform(list, input) == [i] + Transform(ToFront(list, i), input[1..])
  {
    hide ToFront;
    FrontKeeps(list, IndexOf(list, input[0]));
  }

  lemma InRange(input: seq<nat>, length: nat)
    requires length <= MAX_CLUSTERS && forall v :: v in input ==> v < length
    ensures Covers(Iota(MAX_CLUSTERS)[..length], input)
    ensures input[0..] == input
  {
    forall v | v in input
      ensures v in Iota(MAX_CLUSTERS)[..length]
    {
      assert Iota(MAX_CLUSTERS)[..length][v] == v;
    }
  }

  // -------------------------------------------------------------------------- zero runs

  /** The zeros at the front. */
  function ZeroRun(s: seq<nat>): (n: nat)
    ensures n <= |s| && (forall i :: 0 <= i < n ==> s[i] == 0) && (n < |s| ==> s[n] != 0)
  {
    if |s| == 0 || s[0] != 0 then 0 else 1 + ZeroRun(s[1..])
  }

  /** A symbol in the low nine bits, its extra bits above. */
  function Packed(symbol: nat, extra: nat): nat { symbol + Shl(extra, CONTEXT_MAP_SYMBOL_BITS) }

  /** The words of a run of zeros. */
  ghost function RunWords(reps: nat, p: nat): (w: seq<nat>)
    ensures |w| <= reps
    decreases reps
  {
    if reps == 0 then []
    else if reps < 2 * Pow2(p) then [Packed(Log2(reps), reps - Pow2(Log2(reps)))]
    else [Packed(p, Pow2(p) - 1)] + RunWords(reps - (2 * Pow2(p) - 1), p)
  }

  ghost function RunLengthWords(s: seq<nat>, p: nat): (w: seq<nat>)
    ensures |w| <= |s|
    decreases |s|
  {
    if |s| == 0 then []
    else if s[0] != 0 then [s[0] + p] + RunLengthWords(s[1..], p)
    else RunWords(ZeroRun(s), p) + RunLengthWords(s[ZeroRun(s)..], p)
  }

  ghost function LongestRun(s: seq<nat>): (n: nat)
    decreases |s|
  {
    if |s| == 0 then 0
    else if s[0] != 0 then LongestRun(s[1..])
    else
      var rest := LongestRun(s[ZeroRun(s)..]);
      if rest > ZeroRun(s) then rest else ZeroRun(s)
  }

  /** A stretch of zeros. */
  ghost predicate Zeroed(s: seq<nat>, a: nat, b: nat) {
    a <= b <= |s| && forall i :: a <= i < b ==> s[i] == 0
  }

  /** It is the length of some stretch of zeros, and no stretch is longer. */
  lemma {:induction false} LongestRunExact(s: seq<nat>)
    ensures exists a: nat, b: nat :: Zeroed(s, a, b) && b - a == LongestRun(s)
    ensures forall a: nat, b: nat :: Zeroed(s, a, b) ==> b - a <= LongestRun(s)
    decreases |s|
  {
    if |s| == 0 {
      assert Zeroed(s, 0, 0);
    } else {
      var n := if s[0] != 0 then 1 else ZeroRun(s);
      var tail := s[n..];
      LongestRunExact(tail);
      var a: nat, b: nat :| Zeroed(tail, a, b) && b - a == LongestRun(tail);
      assert Zeroed(s, a + n, b + n);
      if s[0] == 0 { assert Zeroed(s, 0, n); }
      forall c: nat, d: nat | Zeroed(s, c, d)
        ensures d - c <= LongestRun(s)
      {
        StretchInTail(s, n, c, d);
      }
    }
  }

  /** A stretch of zeros is within the first run, or behind it. */
  lemma StretchInTail(s: seq<nat>, n: nat, c: nat, d: nat)
    requires |s| > 0 && n == (if s[0] != 0 then 1 else ZeroRun(s)) && Zeroed(s, c, d)
    ensures (s[0] == 0 && d - c <= n) || (c == d) || (n <= c && Zeroed(s[n..], c - n, d - n))
  {
  }

  ghost function PrefixFor(longest: nat, cap: nat): (p: nat)
    ensures p <= cap
  {
    if longest == 0 then 0 else if Log2(longest) < cap then Log2(longest) else cap
  }

  /** It is the most bits, up to the cap, whose shortest run the longest one reaches. */
  lemma PrefixForExact(longest: nat, cap: nat, p: nat)
    ensures p == PrefixFor(longest, cap) <==>
              && p <= cap && (p > 0 ==> Pow2(p) <= longest) && (p < cap ==> longest < Pow2(p + 1))
  {
    hide Log2;
    var q := PrefixFor(longest, cap);
    assert Pow2(0) == 1;
    if longest > 0 { Pow2Monotone(q, Log2(longest)); }
    if p < q { Pow2Monotone(p + 1, q); }
    if q < p { Pow2Monotone(q + 1, p); }
  }

  /** The entries a word stands for: RFC 7932, section 7.3, run-length decoding. */
  ghost function Entries(word: nat, p: nat): seq<nat> {
    var symbol := Low(word, CONTEXT_MAP_SYMBOL_BITS);
    if symbol == 0 then [0]
    else if symbol <= p then ZeroEntries(Pow2(symbol) + Shr(word, CONTEXT_MAP_SYMBOL_BITS))
    else [symbol - p]
  }

  function ZeroEntries(n: nat): (s: seq<nat>)
    ensures |s| == n && forall i :: 0 <= i < n ==> s[i] == 0
  {
    seq(n, _ => 0)
  }

  ghost function Expand(words: seq<nat>, p: nat): seq<nat> {
    if |words| == 0 then [] else Entries(words[0], p) + Expand(words[1..], p)
  }

  lemma {:induction false} ExpandConcat(a: seq<nat>, b: seq<nat>, p: nat)
    ensures Expand(a + b, p) == Expand(a, p) + Expand(b, p)
  {
    hide Entries;
    if |a| == 0 {
      assert a + b == b;
    } else {
      assert (a + b)[1..] == a[1..] + b;
      ExpandConcat(a[1..], b, p);
    }
  }

  lemma PackedFields(symbol: nat, extra: nat)
    requires symbol < 512
    ensures Low(Packed(symbol, extra), CONTEXT_MAP_SYMBOL_BITS) == symbol
    ensures Shr(Packed(symbol, extra), CONTEXT_MAP_SYMBOL_BITS) == extra
  {
    Pow2Values();
    Compose(symbol, extra, CONTEXT_MAP_SYMBOL_BITS);
  }

  /** A word's symbol is below the alphabet, and a run's extra bits fit as many as its symbol. */
  ghost predicate WordFits(word: nat, p: nat, alphabet: nat) {
    var symbol := Low(word, CONTEXT_MAP_SYMBOL_BITS);
    symbol < alphabet && (0 < symbol <= p ==> Shr(word, CONTEXT_MAP_SYMBOL_BITS) < Pow2(symbol))
  }

  /** The word of a short run. */
  lemma ShortRun(reps: nat, p: nat, alphabet: nat)
    requires 0 < reps < 2 * Pow2(p) && p <= MAX_RUN_LENGTH_PREFIX && p < alphabet
    ensures var word := Packed(Log2(reps), reps - Pow2(Log2(reps)));
            Entries(word, p) == ZeroEntries(reps) && WordFits(word, p, alphabet)
  {
    hide Shl, Shr, Low, Packed, Log2, Pow2;
    var l := Log2(reps);
    ShortLog(reps, p);
    PackedFields(l, reps - Pow2(l));
  }

  lemma ShortLog(reps: nat, p: nat)
    requires 0 < reps < 2 * Pow2(p)
    ensures Log2(reps) <= p && (Log2(reps) == 0 ==> reps == 1)
    ensures Pow2(Log2(reps)) <= reps < 2 * Pow2(Log2(reps))
  {
    hide Log2;
    if Log2(reps) > p { Pow2Monotone(p + 1, Log2(reps)); }
  }

  /** The word of the longest run a prefix expresses. */
  lemma FullRun(p: nat, alphabet: nat)
    requires p <= MAX_RUN_LENGTH_PREFIX && p < alphabet
    ensures var word := Packed(p, Pow2(p) - 1);
            Entries(word, p) == ZeroEntries(2 * Pow2(p) - 1) && WordFits(word, p, alphabet)
  {
    hide Shl, Shr, Low, Packed, Pow2;
    PowZero();
    PackedFields(p, Pow2(p) - 1);
  }

  /** The longest run one word can stand for. */
  lemma WordReach(word: nat, p: nat, alphabet: nat)
    requires WordFits(word, p, alphabet) && SymbolOf(word) <= p
    ensures |Entries(word, p)| <= 2 * Pow2(p) - 1
  {
    hide Shl, Shr, Low;
    Pow2Monotone(0, p);
    if SymbolOf(word) > 0 { Pow2Monotone(SymbolOf(word), p); }
  }

  /** No words that stand for as many zeros are fewer. */
  lemma {:induction false} RunWordsFewest(reps: nat, p: nat, words: seq<nat>, alphabet: nat)
    requires |Expand(words, p)| >= reps
    requires forall i :: 0 <= i < |words| ==> WordFits(words[i], p, alphabet) && SymbolOf(words[i]) <= p
    ensures |RunWords(reps, p)| <= |words|
    decreases |words|
  {
    hide Entries, WordFits, SymbolOf, Pow2, Packed;
    if reps > 0 && |words| > 0 {
      WordReach(words[0], p, alphabet);
      var most := 2 * Pow2(p) - 1;
      RunWordsFewest(if reps > most then reps - most else 0, p, words[1..], alphabet);
    }
  }

  lemma {:induction false} RunWordsExpand(reps: nat, p: nat, alphabet: nat)
    requires p <= MAX_RUN_LENGTH_PREFIX && p < alphabet
    ensures Expand(RunWords(reps, p), p) == ZeroEntries(reps)
    ensures forall i :: 0 <= i < |RunWords(reps, p)| ==> WordFits(RunWords(reps, p)[i], p, alphabet)
    decreases reps
  {
    hide Shl, Shr, Low, Packed, Log2, Pow2, Entries, WordFits;
    if reps == 0 {
    } else if reps < 2 * Pow2(p) {
      ShortRun(reps, p, alphabet);
    } else {
      FullRun(p, alphabet);
      var rest := reps - (2 * Pow2(p) - 1);
      RunWordsExpand(rest, p, alphabet);
      assert RunWords(reps, p)[1..] == RunWords(rest, p);
      assert ZeroEntries(reps) == ZeroEntries(2 * Pow2(p) - 1) + ZeroEntries(rest);
    }
  }

  /** Run-length decoding undoes run-length coding, and every symbol fits an alphabet of the
      largest entry and the run-length prefix. */
  lemma {:induction false} RunLengthRoundTrip(s: seq<nat>, p: nat, clusters: nat)
    requires p <= MAX_RUN_LENGTH_PREFIX && 0 < clusters <= MAX_CLUSTERS
    requires forall i :: 0 <= i < |s| ==> s[i] < clusters
    ensures Expand(RunLengthWords(s, p), p) == s
    ensures forall i :: 0 <= i < |RunLengthWords(s, p)| ==> WordFits(RunLengthWords(s, p)[i], p, clusters + p)
    decreases |s|
  {
    hide Shl, Shr, Low, Packed, Log2, Pow2, RunWords, WordFits, Entries;
    if |s| == 0 {
      assert s == [];
    } else if s[0] != 0 {
      RunLengthRoundTrip(s[1..], p, clusters);
      PlainRoundTrip(s, p, clusters);
    } else {
      RunLengthRoundTrip(s[ZeroRun(s)..], p, clusters);
      RunRoundTrip(s, ZeroRun(s), p, clusters);
    }
  }

  lemma PlainRoundTrip(s: seq<nat>, p: nat, clusters: nat)
    requires p <= MAX_RUN_LENGTH_PREFIX && 0 < clusters <= MAX_CLUSTERS
    requires |s| > 0 && 0 < s[0] < clusters
    requires Expand(RunLengthWords(s[1..], p), p) == s[1..]
    requires forall i :: 0 <= i < |RunLengthWords(s[1..], p)| ==>
             WordFits(RunLengthWords(s[1..], p)[i], p, clusters + p)
    ensures Expand(RunLengthWords(s, p), p) == s
    ensures forall i :: 0 <= i < |RunLengthWords(s, p)| ==> WordFits(RunLengthWords(s, p)[i], p, clusters + p)
  {
    hide Shl, Shr, Low, Packed, Log2, Pow2, RunWords, WordFits, Entries;
    var tail := RunLengthWords(s[1..], p);
    PlainWord(s[0], p, clusters);
    assert RunLengthWords(s, p) == [s[0] + p] + tail;
    assert ([s[0] + p] + tail)[1..] == tail;
    assert s == [s[0]] + s[1..];
  }

  lemma RunRoundTrip(s: seq<nat>, n: nat, p: nat, clusters: nat)
    requires p <= MAX_RUN_LENGTH_PREFIX && 0 < clusters <= MAX_CLUSTERS
    requires |s| > 0 && s[0] == 0 && n == ZeroRun(s) && n > 0
    requires Expand(RunLengthWords(s[n..], p), p) == s[n..]
    requires forall i :: 0 <= i < |RunLengthWords(s[n..], p)| ==>
             WordFits(RunLengthWords(s[n..], p)[i], p, clusters + p)
    ensures Expand(RunLengthWords(s, p), p) == s
    ensures forall i :: 0 <= i < |RunLengthWords(s, p)| ==> WordFits(RunLengthWords(s, p)[i], p, clusters + p)
  {
    hide Shl, Shr, Low, Packed, Log2, Pow2, RunWords, WordFits, Entries, Expand;
    var tail := RunLengthWords(s[n..], p);
    RunWordsExpand(n, p, clusters + p);
    assert RunLengthWords(s, p) == RunWords(n, p) + tail;
    ExpandConcat(RunWords(n, p), tail, p);
    assert s == ZeroEntries(n) + s[n..];
  }

  lemma PlainWord(v: nat, p: nat, clusters: nat)
    requires 0 < v < clusters <= MAX_CLUSTERS && p <= MAX_RUN_LENGTH_PREFIX
    ensures WordFits(v + p, p, clusters + p) && Entries(v + p, p) == [v]
  {
    ShlZero(CONTEXT_MAP_SYMBOL_BITS);
    PackedFields(v + p, 0);
  }

  // ------------------------------------------------------------------ coding runs in place

  lemma ZeroRunIs(s: seq<nat>, n: nat)
    requires n <= |s| && (forall i :: 0 <= i < n ==> s[i] == 0) && (n < |s| ==> s[n] != 0)
    ensures ZeroRun(s) == n
  {
  }

  /** The first pass: the longest run of zeros. */
  method FindLongestRun(v: array<nat>) returns (maxReps: nat)
    ensures maxReps == LongestRun(v[..])
  {
    hide LongestRun;
    maxReps := 0;
    var index := 0;
    assert v[0..] == v[..];
    while index < v.Length
      invariant index <= v.Length
      invariant LongestRun(v[..]) == if LongestRun(v[index..]) > maxReps then LongestRun(v[index..]) else maxReps
    {
      while index < v.Length && v[index] != 0
        invariant index <= v.Length
        invariant LongestRun(v[..]) == if LongestRun(v[index..]) > maxReps then LongestRun(v[index..]) else maxReps
      {
        SkipNonzero(v[index..]);
        assert v[index..][1..] == v[index + 1..];
        index := index + 1;
      }
      var reps := 0;
      ghost var from := index;
      while index < v.Length && v[index] == 0
        invariant from <= index <= v.Length && reps == index - from
        invariant forall i :: from <= i < index ==> v[i] == 0
      {
        reps := reps + 1;
        index := index + 1;
      }
      SkipZeros(v[from..], reps);
      assert v[from..][reps..] == v[index..];
      maxReps := if reps > maxReps then reps else maxReps;
    }
    NoRun(v[index..]);
  }

  lemma SkipNonzero(s: seq<nat>)
    requires |s| > 0 && s[0] != 0
    ensures LongestRun(s) == LongestRun(s[1..])
  {
  }

  lemma SkipZeros(s: seq<nat>, n: nat)
    requires n <= |s| && (forall i :: 0 <= i < n ==> s[i] == 0) && (n < |s| ==> s[n] != 0)
    ensures LongestRun(s) == if LongestRun(s[n..]) > n then LongestRun(s[n..]) else n
  {
    ZeroRunIs(s, n);
    assert s[0..] == s;
  }

  lemma NoRun(s: seq<nat>)
    requires |s| == 0
    ensures LongestRun(s) == 0
  {
  }

  /** The words of one run, written below the read index. */
  method StoreRun(v: array<nat>, start: nat, run: nat, p: nat) returns (outSize: nat)
    requires start + run <= v.Length && run > 0
    modifies v
    ensures start <= outSize <= start + run
    ensures v[..outSize] == old(v[..start]) + RunWords(run, p)
    ensures v[start + run..] == old(v[start + run..])
  {
    hide Shl, Log2, Packed, RunWords, Pow2;
    outSize := start;
    var reps: nat := run;
    ghost var all := v[..start] + RunWords(run, p);
    while reps != 0
      invariant start <= outSize && outSize + reps <= start + run
      invariant v[..outSize] + RunWords(reps, p) == all
      invariant v[start + run..] == old(v[start + run..])
      decreases reps
    {
      RunUnfolds(reps, p);
      ghost var done := v[..outSize];
      if reps < 2 * Pow2(p) {
        var runLengthPrefix := Log2(reps);
        v[outSize] := Packed(runLengthPrefix, reps - Pow2(runLengthPrefix));
        outSize := outSize + 1;
        assert v[..outSize] == all;
        return;
      }
      v[outSize] := Packed(p, Pow2(p) - 1);
      reps := reps - (2 * Pow2(p) - 1);
      outSize := outSize + 1;
      assert v[..outSize] == done + [Packed(p, Pow2(p) - 1)];
    }
    assert RunWords(0, p) == [] by { NoRunWords(p); }
  }

  lemma RunUnfolds(reps: nat, p: nat)
    requires reps > 0
    ensures reps < 2 * Pow2(p) ==> RunWords(reps, p) == [Packed(Log2(reps), reps - Pow2(Log2(reps)))]
    ensures reps >= 2 * Pow2(p) ==>
              RunWords(reps, p) == [Packed(p, Pow2(p) - 1)] + RunWords(reps - (2 * Pow2(p) - 1), p)
  {
  }

  lemma NoRunWords(p: nat)
    ensures RunWords(0, p) == []
  {
  }

  /** `run_length_code_zeros`: rewrites the vector in place. What it returns of the vector is the
      run-length coding of what it was given, and writing never passes reading. */
  method RunLengthCodeZeros(v: array<nat>, cap: nat) returns (outSize: nat, maxPrefix: nat)
    modifies v
    ensures maxPrefix == PrefixFor(LongestRun(old(v[..])), cap)
    ensures outSize <= v.Length && v[..outSize] == RunLengthWords(old(v[..]), maxPrefix)
  {
    hide LongestRun, Log2, RunLengthWords, RunWords;
    var maxReps := FindLongestRun(v);
    maxPrefix := PrefixForReps(maxReps, cap);
    ghost var was := v[..];
    outSize := 0;
    var index := 0;
    assert was[0..] == was;
    while index < v.Length
      invariant outSize <= index <= v.Length
      invariant v[index..] == was[index..]
      invariant v[..outSize] + RunLengthWords(was[index..], maxPrefix) == RunLengthWords(was, maxPrefix)
    {
      if v[index] != 0 {
        outSize := CodeEntry(v, outSize, index, maxPrefix, was);
        index := index + 1;
      } else {
        outSize, index := CodeRun(v, outSize, index, maxPrefix, was);
      }
    }
    assert RunLengthWords(was[index..], maxPrefix) == [] by { NoWords(was[index..], maxPrefix); }
  }

  /** An entry that is not zero is shifted past the run-length symbols. */
  method CodeEntry(v: array<nat>, outSize: nat, index: nat, p: nat, ghost was: seq<nat>) returns (next: nat)
    requires outSize <= index < v.Length == |was| && v[index] != 0 && v[index..] == was[index..]
    modifies v
    ensures next == outSize + 1
    ensures v[index + 1..] == was[index + 1..]
    ensures v[..next] + RunLengthWords(was[index + 1..], p) == old(v[..outSize]) + RunLengthWords(was[index..], p)
  {
    hide RunLengthWords;
    assert v[index] == v[index..][0];
    NonzeroWords(was[index..], p);
    assert was[index..][1..] == was[index + 1..];
    v[outSize] := v[index] + p;
    next := outSize + 1;
    assert v[..next] == old(v[..outSize]) + [was[index] + p];
    assert v[index + 1..] == old(v[index..])[1..];
  }

  method CodeRun(v: array<nat>, outSize: nat, index: nat, p: nat, ghost was: seq<nat>) returns (next: nat, resume: nat)
    requires outSize <= index < v.Length == |was| && v[index] == 0 && v[index..] == was[index..]
    modifies v
    ensures next <= resume <= v.Length && index < resume
    ensures v[resume..] == was[resume..]
    ensures v[..next] + RunLengthWords(was[resume..], p) == old(v[..outSize]) + RunLengthWords(was[index..], p)
  {
    hide RunLengthWords, RunWords;
    var reps := CountZeros(v, index);
    resume := index + reps;
    assert forall i :: 0 <= i < |was| - index ==> was[index..][i] == v[index + i];
    ZeroWords(was[index..], reps, p);
    assert was[index..][reps..] == was[resume..];
    assert v[resume..] == v[index..][reps..];
    next := PackRun(v, outSize, index, reps, p);
  }

  method PrefixForReps(maxReps: nat, cap: nat) returns (p: nat)
    ensures p == PrefixFor(maxReps, cap)
  {
    p := if maxReps > 0 then Log2(maxReps) else 0;
    p := if p < cap then p else cap;
  }

  method CountZeros(v: array<nat>, index: nat) returns (reps: nat)
    requires index < v.Length && v[index] == 0
    ensures 0 < reps <= v.Length - index && (forall i :: index <= i < index + reps ==> v[i] == 0)
    ensures index + reps < v.Length ==> v[index + reps] != 0
  {
    reps := 1;
    var k := index + 1;
    while k < v.Length && v[k] == 0
      invariant k == index + reps <= v.Length && forall i :: index <= i < k ==> v[i] == 0
    {
      reps := reps + 1;
      k := k + 1;
    }
  }

  method PackRun(v: array<nat>, start: nat, index: nat, reps: nat, p: nat) returns (outSize: nat)
    requires start <= index && index + reps <= v.Length && reps > 0
    modifies v
    ensures start <= outSize <= index + reps
    ensures v[..outSize] == old(v[..start]) + RunWords(reps, p)
    ensures v[index + reps..] == old(v[index + reps..])
  {
    hide RunWords;
    ghost var was := v[..];
    outSize := StoreRun(v, start, reps, p);
    assert v[index + reps..] == v[start + reps..][index - start..];
    assert was[index + reps..] == was[start + reps..][index - start..];
  }

  lemma NonzeroWords(s: seq<nat>, p: nat)
    requires |s| > 0 && s[0] != 0
    ensures RunLengthWords(s, p) == [s[0] + p] + RunLengthWords(s[1..], p)
  {
  }

  lemma ZeroWords(s: seq<nat>, n: nat, p: nat)
    requires 0 < n <= |s| && (forall i :: 0 <= i < n ==> s[i] == 0) && (n < |s| ==> s[n] != 0)
    ensures RunLengthWords(s, p) == RunWords(n, p) + RunLengthWords(s[n..], p)
  {
    hide RunWords;
    ZeroRunIs(s, n);
  }

  lemma NoWords(s: seq<nat>, p: nat)
    requires |s| == 0
    ensures RunLengthWords(s, p) == []
  {
  }

  // --------------------------------------------------------------------- writing a map

  const MAX_CONTEXT_MAP_SYMBOLS := 272

  function SymbolOf(word: nat): nat { Low(word, CONTEXT_MAP_SYMBOL_BITS) }

  function ExtraOf(word: nat): nat { Shr(word, CONTEXT_MAP_SYMBOL_BITS) }

  ghost function Symbols(words: seq<nat>): (r: seq<nat>)
    ensures |r| == |words|
  {
    seq(|words|, i requires 0 <= i < |words| => SymbolOf(words[i]))
  }

  ghost predicate MapWords(words: seq<nat>, p: nat, clusters: nat) {
    && p <= MAX_RUN_LENGTH_PREFIX && 1 <= clusters <= MAX_CLUSTERS
    && forall i :: 0 <= i < |words| ==> WordFits(words[i], p, clusters + p)
  }

  ghost function MapStored(h: Huffman, words: seq<nat>, alphabet: nat): StoredCode
    requires alphabet <= MAX_CONTEXT_MAP_SYMBOLS
  {
    h.build(Tally(MAX_CONTEXT_MAP_SYMBOLS, multiset(Symbols(words)))[..alphabet], alphabet)
  }

  lemma MapCodeCovers(h: Huffman, words: seq<nat>, p: nat, clusters: nat)
    requires h.Valid() && MapWords(words, p, clusters)
    ensures var t := MapStored(h, words, clusters + p);
            && t.code.PrefixFree() && Tabulates(t.depth, t.pattern, t.code)
            && (forall i :: 0 <= i < |words| ==> SymbolOf(words[i]) in t.code.symbols)
            && (forall rest :: h.read(clusters + p, t.description + rest) == Got(t.code, rest))
  {
    hide Pow2, Shl, Shr, Low, PrefixCode.PrefixFree;
    var counts := Tally(MAX_CONTEXT_MAP_SYMBOLS, multiset(Symbols(words)))[..clusters + p];
    assert h.Codable(counts, clusters + p);
    assert h.Codes(counts, clusters + p);
    forall i | 0 <= i < |words|
      ensures SymbolOf(words[i]) in MapStored(h, words, clusters + p).code.symbols
    {
      assert Symbols(words)[i] == SymbolOf(words[i]);
      assert WordFits(words[i], p, clusters + p);
      assert counts[SymbolOf(words[i])] > 0;
    }
  }

  /** One word: its symbol, and for a run its extra bits. */
  ghost function WordBits(code: PrefixCode, word: nat, p: nat): bits
    requires code.Fits() && SymbolOf(word) in code.symbols
  {
    code.Word(SymbolOf(word)) + if 0 < SymbolOf(word) <= p then ToBits(SymbolOf(word), ExtraOf(word)) else []
  }

  ghost function WordsBits(code: PrefixCode, words: seq<nat>, p: nat, i: nat): bits
    requires code.Fits() && forall i :: 0 <= i < |words| ==> SymbolOf(words[i]) in code.symbols
    decreases |words| - i
  {
    if i >= |words| then [] else WordBits(code, words[i], p) + WordsBits(code, words, p, i + 1)
  }

  /** RLEMAX: absent, or a value from one to sixteen. */
  ghost function RunLengthMaxBits(p: nat): bits {
    if p == 0 then ToBits(1, 0) else ToBits(1, 1) + ToBits(4, p - 1)
  }

  /** A context map of several clusters: RLEMAX, the code, the words, and the inverse
      move-to-front flag. */
  ghost function MapBodyBits(h: Huffman, words: seq<nat>, p: nat, clusters: nat): bits
    requires h.Valid() && MapWords(words, p, clusters)
  {
    var t := MapStored(h, words, clusters + p);
    MapCodeCovers(h, words, p, clusters);
    RunLengthMaxBits(p) + (t.description + (WordsBits(t.code, words, p, 0) + ToBits(1, 1)))
  }

  ghost function ContextMapBits(h: Huffman, words: seq<nat>, p: nat, clusters: nat): bits
    requires h.Valid() && MapWords(words, p, clusters)
  {
    VarLenBits(clusters - 1) + if clusters == 1 then [] else MapBodyBits(h, words, p, clusters)
  }

  method StoreWord(depth: seq<nat>, pattern: seq<nat>, word: nat, p: nat, ghost code: PrefixCode, w: BitWriter)
    requires w.Valid() && code.Fits() && SymbolOf(word) in code.symbols && Tabulates(depth, pattern, code)
    requires p <= MAX_RUN_LENGTH_PREFIX && (0 < SymbolOf(word) <= p ==> ExtraOf(word) < Pow2(SymbolOf(word)))
    modifies w, w.storage
    ensures w.Valid() && w.contents == old(w.contents) + WordBits(code, word, p)
    ensures old(w.overflowed) ==> w.overflowed
    ensures !old(w.overflowed) && w.Roomy() ==> !w.overflowed
  {
    hide Pow2, Shl, Shr, Low, Bit, BitOr, BitAnd, LittleEndian, Represents, ToBits;
    var symbol := SymbolOf(word);
    WriteSymbol(depth, pattern, symbol, code, w);
    if symbol > 0 && symbol <= p {
      w.Write(symbol, ExtraOf(word));
    }
  }

  method CountSymbols(words: seq<nat>) returns (histogram: seq<nat>)
    requires forall i :: 0 <= i < |words| ==> SymbolOf(words[i]) < MAX_CONTEXT_MAP_SYMBOLS
    ensures histogram == Tally(MAX_CONTEXT_MAP_SYMBOLS, multiset(Symbols(words)))
  {
    hide SymbolOf, Tally;
    var counts := new nat[MAX_CONTEXT_MAP_SYMBOLS](_ => 0);
    NoneCounted(counts);
    ghost var symbols := Symbols(words);
    for i := 0 to |words|
      invariant counts[..] == Tally(MAX_CONTEXT_MAP_SYMBOLS, multiset(symbols[..i]))
    {
      PrefixGrows(symbols, i);
      CountOne(counts, SymbolOf(words[i]), multiset(symbols[..i]));
    }
    assert symbols[..|words|] == symbols;
    histogram := counts[..];
  }

  method StoreRunLengthMax(p: nat, w: BitWriter)
    requires w.Valid() && p <= MAX_RUN_LENGTH_PREFIX
    modifies w, w.storage
    ensures w.Valid() && w.contents == old(w.contents) + RunLengthMaxBits(p)
    ensures old(w.overflowed) ==> w.overflowed
    ensures !old(w.overflowed) && w.Roomy() ==> !w.overflowed
  {
    hide Shl, Shr, Low, Bit, BitOr, BitAnd, LittleEndian, Represents, ToBits;
    Pow2Values();
    w.Write(1, if p > 0 then 1 else 0);
    if p > 0 {
      w.Write(4, p - 1);
    }
  }

  /** The words a map is coded with. */
  ghost function EncodedPrefix(entries: seq<nat>): nat
    requires forall v :: v in entries ==> v < MAX_CLUSTERS
  {
    PrefixFor(LongestRun(TransformOf(entries)), 6)
  }

  ghost function EncodedWords(entries: seq<nat>): seq<nat>
    requires forall v :: v in entries ==> v < MAX_CLUSTERS
  {
    RunLengthWords(TransformOf(entries), EncodedPrefix(entries))
  }

  /** Undoing the run lengths and then the move to front gives the map back, and every symbol is
      below the clusters and the run-length prefix. */
  /** The prefix has as many bits as the longest stretch of zeros calls for, and six at most. */
  lemma EncodedPrefixExact(entries: seq<nat>)
    requires forall v :: v in entries ==> v < MAX_CLUSTERS
    ensures var p, zeros := EncodedPrefix(entries), TransformOf(entries);
            && p <= 6
            && (p > 0 ==> exists a: nat, b: nat :: Zeroed(zeros, a, b) && b - a >= Pow2(p))
            && (p < 6 ==> forall a: nat, b: nat :: Zeroed(zeros, a, b) ==> b - a < Pow2(p + 1))
  {
    hide TransformOf, LongestRun, Pow2, PrefixFor, Zeroed;
    LongestRunExact(TransformOf(entries));
    PrefixForExact(LongestRun(TransformOf(entries)), 6, EncodedPrefix(entries));
  }

  lemma EncodedWordsFit(entries: seq<nat>, clusters: nat)
    requires 1 <= clusters <= MAX_CLUSTERS && forall v :: v in entries ==> v < clusters
    ensures MapWords(EncodedWords(entries), EncodedPrefix(entries), clusters)
    ensures Inverse(Iota(MAX_CLUSTERS), Expand(EncodedWords(entries), EncodedPrefix(entries))) == entries
    ensures |Expand(EncodedWords(entries), EncodedPrefix(entries))| == |entries|
  {
    hide Iota, Inverse, Expand, RunLengthWords, LongestRun, TransformOf, WordFits;
    TransformRoundTrip(entries, clusters);
    RunLengthRoundTrip(TransformOf(entries), EncodedPrefix(entries), clusters);
  }

  method EncodeContextMap(h: Huffman, contextMap: seq<nat>, numClusters: nat, w: BitWriter)
    requires w.Valid() && h.Valid() && 1 <= numClusters <= MAX_CLUSTERS
    requires forall v :: v in contextMap ==> v < numClusters
    modifies w, w.storage
    ensures w.Valid()
    ensures MapWords(EncodedWords(contextMap), EncodedPrefix(contextMap), numClusters)
    ensures w.contents == old(w.contents)
                          + ContextMapBits(h, EncodedWords(contextMap), EncodedPrefix(contextMap), numClusters)
    ensures old(w.overflowed) ==> w.overflowed
    ensures !old(w.overflowed) && w.Roomy() ==> !w.overflowed
  {
    hide Iota, Inverse, Expand, RunLengthWords, LongestRun, TransformOf, WordFits, Pow2, VarLenBits, SymbolOf,
      MapBodyBits;
    EncodedWordsFit(contextMap, numClusters);
    StoreVarLenUint8(numClusters - 1, w);
    if numClusters == 1 {
      return;
    }
    var transformed := MoveToFrontTransform(contextMap);
    var v := new nat[|transformed|](i requires 0 <= i < |transformed| => transformed[i]);
    assert v[..] == transformed;
    var outSize, p := RunLengthCodeZeros(v, 6);
    StoreWords(h, v[..outSize], p, numClusters, w);
  }

  /** What follows the number of clusters. */
  method StoreWords(h: Huffman, words: seq<nat>, p: nat, clusters: nat, w: BitWriter)
    requires w.Valid() && h.Valid() && MapWords(words, p, clusters) && clusters > 1
    modifies w, w.storage
    ensures w.Valid() && w.contents == old(w.contents) + MapBodyBits(h, words, p, clusters)
    ensures old(w.overflowed) ==> w.overflowed
    ensures !old(w.overflowed) && w.Roomy() ==> !w.overflowed
  {
    hide Pow2, VarLenBits, SymbolOf, Shl, Shr, Low, Bit, BitOr, BitAnd, LittleEndian, Represents, ToBits, WordBits,
      WordsBits, Tally, PrefixCode.PrefixFree, RunLengthMaxBits;
    ghost var c0 := w.contents;
    ghost var t := MapStored(h, words, clusters + p);
    MapCodeCovers(h, words, p, clusters);
    WordSymbols(words, p, clusters);
    var histogram := CountSymbols(words);
    StoreRunLengthMax(p, w);
    var stored := BuildAndStoreHuffmanTree(h, histogram[..clusters + p], clusters + p, w);
    ghost var code := stored.code;
    CodeFits(code);
    ghost var c1 := w.contents;
    for i := 0 to |words|
      invariant w.Valid() && w.contents + WordsBits(code, words, p, i) == c1 + WordsBits(code, words, p, 0)
      invariant old(w.overflowed) ==> w.overflowed
      invariant !old(w.overflowed) && w.Roomy() ==> !w.overflowed
    {
      NextWord(code, words, p, i);
      StoreWord(stored.depth, stored.pattern, words[i], p, code, w);
    }
    NoMoreWords(code, words, p);
    assert w.contents == c1 + WordsBits(code, words, p, 0);
    PowOne();
    w.Write(1, 1);
    assert w.contents == c0 + (RunLengthMaxBits(p) + (t.description + (WordsBits(t.code, words, p, 0) + ToBits(1, 1))));
  }

  lemma NextWord(code: PrefixCode, words: seq<nat>, p: nat, i: nat)
    requires code.Fits() && (forall i :: 0 <= i < |words| ==> SymbolOf(words[i]) in code.symbols) && i < |words|
    ensures WordsBits(code, words, p, i) == WordBits(code, words[i], p) + WordsBits(code, words, p, i + 1)
  {
    hide WordBits, SymbolOf;
  }

  lemma PowOne()
    ensures Pow2(1) == 2
  {
  }

  lemma CodeFits(code: PrefixCode)
    requires code.PrefixFree()
    ensures code.Fits()
  {
  }

  lemma WordSymbols(words: seq<nat>, p: nat, clusters: nat)
    requires MapWords(words, p, clusters)
    ensures forall i :: 0 <= i < |words| ==>
                          && SymbolOf(words[i]) < clusters + p
                          && (0 < SymbolOf(words[i]) <= p ==> ExtraOf(words[i]) < Pow2(SymbolOf(words[i])))
  {
    hide Shr, Low, Pow2;
    forall i | 0 <= i < |words|
      ensures && SymbolOf(words[i]) < clusters + p
              && (0 < SymbolOf(words[i]) <= p ==> ExtraOf(words[i]) < Pow2(SymbolOf(words[i])))
    {
      assert WordFits(words[i], p, clusters + p);
    }
  }

  // ------------------------------------------------------------ RFC 7932, section 7.3

  /** The entries of one symbol: a zero, a run of zeros, or a value. */
  function ReadEntry(code: PrefixCode, p: nat, s: bits): Read<seq<nat>> {
    var (symbol, s) :- code.Read(s);
    if symbol == 0 then Got([0], s)
    else if symbol <= p then
      var (extra, s) :- ReadBits(symbol, s);
      Got(ZeroEntries(Pow2(symbol) + extra), s)
    else Got([symbol - p], s)
  }

  /** Entries until the map is full; a run that overflows it is rejected. */
  function ReadEntries(code: PrefixCode, p: nat, size: nat, s: bits): Read<seq<nat>>
    decreases size
  {
    if size == 0 then Got([], s)
    else
      var (entries, s) :- ReadEntry(code, p, s);
      if |entries| == 0 || |entries| > size then Fail
      else
        var (tail, s) :- ReadEntries(code, p, size - |entries|, s);
        Got(entries + tail, s)
  }

  function ReadRunLengthMax(s: bits): Read<nat> {
    var (present, s) :- ReadBits(1, s);
    if present == 0 then Got(0, s)
    else
      var (p, s) :- ReadBits(4, s);
      Got(p + 1, s)
  }

  function ReadMapBody(h: Huffman, clusters: nat, size: nat, s: bits): Read<seq<nat>> {
    var (p, s) :- ReadRunLengthMax(s);
    var (code, s) :- h.read(clusters + p, s);
    var (entries, s) :- ReadEntries(code, p, size, s);
    var (inverse, s) :- ReadBits(1, s);
    Got(if inverse == 1 then Inverse(Iota(MAX_CLUSTERS), entries) else entries, s)
  }

  /** The number of clusters and the map, of the given size. */
  function ReadContextMap(h: Huffman, size: nat, s: bits): Read<(nat, seq<nat>)> {
    var (n, s) :- ReadVarLen(s);
    if n == 0 then Got((1, ZeroEntries(size)), s)
    else
      var (entries, s) :- ReadMapBody(h, n + 1, size, s);
      Got((n + 1, entries), s)
  }

  lemma EntryRoundTrip(code: PrefixCode, word: nat, p: nat, rest: bits)
    requires code.PrefixFree() && SymbolOf(word) in code.symbols
    requires 0 < SymbolOf(word) <= p ==> ExtraOf(word) < Pow2(SymbolOf(word))
    ensures ReadEntry(code, p, WordBits(code, word, p) + rest) == Got(Entries(word, p), rest)
    ensures |Entries(word, p)| > 0
  {
    hide Pow2, Shl, Shr, Low, Bit, ToBits, FromBits, ReadBits, PrefixCode.Read;
    var symbol := SymbolOf(word);
    var tail := (if 0 < symbol <= p then ToBits(symbol, ExtraOf(word)) else []) + rest;
    assert WordBits(code, word, p) + rest == code.Word(symbol) + tail;
    ReadSymbolInverts(code, symbol, tail);
    if 0 < symbol <= p { ReadBitsInverts(symbol, ExtraOf(word), rest); }
  }

  lemma {:induction false} EntriesRoundTrip(code: PrefixCode, words: seq<nat>, p: nat, i: nat, rest: bits)
    requires code.PrefixFree() && i <= |words|
    requires forall k :: 0 <= k < |words| ==> SymbolOf(words[k]) in code.symbols
    requires forall k :: 0 <= k < |words| ==>
               0 < SymbolOf(words[k]) <= p ==> ExtraOf(words[k]) < Pow2(SymbolOf(words[k]))
    ensures ReadEntries(code, p, |Expand(words[i..], p)|, WordsBits(code, words, p, i) + rest)
         == Got(Expand(words[i..], p), rest)
    decreases |words| - i
  {
    hide Pow2, SymbolOf, ExtraOf, Bit, ToBits, FromBits, ReadEntry, WordBits, Entries;
    if i == |words| {
      assert words[i..] == [];
      assert WordsBits(code, words, p, i) + rest == rest;
    } else {
      var tail := WordsBits(code, words, p, i + 1) + rest;
      assert WordsBits(code, words, p, i) + rest == WordBits(code, words[i], p) + tail;
      EntryRoundTrip(code, words[i], p, tail);
      assert words[i..][1..] == words[i + 1..];
      EntriesRoundTrip(code, words, p, i + 1, rest);
    }
  }

  lemma RunLengthMaxRoundTrip(p: nat, rest: bits)
    requires p <= MAX_RUN_LENGTH_PREFIX
    ensures ReadRunLengthMax(RunLengthMaxBits(p) + rest) == Got(p, rest)
  {
    hide Bit, ToBits, FromBits, ReadBits;
    Pow2Values();
    if p == 0 {
      ReadBitsInverts(1, 0, rest);
    } else {
      assert RunLengthMaxBits(p) + rest == ToBits(1, 1) + (ToBits(4, p - 1) + rest);
      ReadBitsInverts(1, 1, ToBits(4, p - 1) + rest);
      ReadBitsInverts(4, p - 1, rest);
    }
  }

  /** A reader of section 7.3 recovers the map whose words were written. */
  lemma ContextMapRoundTrip(h: Huffman, words: seq<nat>, p: nat, clusters: nat, entries: seq<nat>, rest: bits)
    requires h.Valid() && MapWords(words, p, clusters)
    requires if clusters == 1 then entries == ZeroEntries(|entries|)
             else |Expand(words, p)| == |entries| && Inverse(Iota(MAX_CLUSTERS), Expand(words, p)) == entries
    ensures ReadContextMap(h, |entries|, ContextMapBits(h, words, p, clusters) + rest) == Got((clusters, entries), rest)
  {
    hide Pow2, Bit, ToBits, FromBits, ReadBits, VarLenBits, ReadVarLen, MapBodyBits, ReadMapBody, Iota, Inverse, Expand;
    if clusters == 1 {
      VarLenRoundTrip(0, rest);
      assert ContextMapBits(h, words, p, clusters) + rest == VarLenBits(0) + rest;
    } else {
      var body := MapBodyBits(h, words, p, clusters) + rest;
      assert ContextMapBits(h, words, p, clusters) + rest == VarLenBits(clusters - 1) + body;
      VarLenRoundTrip(clusters - 1, body);
      MapBodyRoundTrip(h, words, p, clusters, rest);
    }
  }

  lemma MapBodyRoundTrip(h: Huffman, words: seq<nat>, p: nat, clusters: nat, rest: bits)
    requires h.Valid() && MapWords(words, p, clusters)
    ensures ReadMapBody(h, clusters, |Expand(words, p)|, MapBodyBits(h, words, p, clusters) + rest)
         == Got(Inverse(Iota(MAX_CLUSTERS), Expand(words, p)), rest)
  {
    hide Pow2, SymbolOf, ExtraOf, Bit, ToBits, FromBits, ReadBits, Iota, Inverse, Expand, ReadEntries, WordsBits,
      ReadRunLengthMax, RunLengthMaxBits, MapStored, PrefixCode.PrefixFree;
    var t := MapStored(h, words, clusters + p);
    MapCodeCovers(h, words, p, clusters);
    WordSymbols(words, p, clusters);
    PowOne();
    CodeFits(t.code);
    var r2 := ToBits(1, 1) + rest;
    var r1 := WordsBits(t.code, words, p, 0) + r2;
    var r0 := t.description + r1;
    assert MapBodyBits(h, words, p, clusters) + rest == RunLengthMaxBits(p) + r0;
    RunLengthMaxRoundTrip(p, r0);
    assert words[0..] == words;
    EntriesRoundTrip(t.code, words, p, 0, r2);
    ReadBitsInverts(1, 1, rest);
  }

  // --------------------------------------------------------------------- trivial maps

  /** The word of a type, or the run that repeats it over its contexts. */
  function TrivialWord(contextBits: nat, j: nat): nat
    requires contextBits >= 2
  {
    if j % 2 == 1 then Packed(contextBits - 1, Pow2(contextBits - 1) - 1)
    else if j == 0 then 0
    else Packed(j / 2 + contextBits - 1, 0)
  }

  ghost function TrivialWords(numTypes: nat, contextBits: nat): (words: seq<nat>)
    requires contextBits >= 2
    ensures |words| == 2 * numTypes
  {
    seq(2 * numTypes, j requires j >= 0 => TrivialWord(contextBits, j))
  }

  /** Each type repeated over its contexts. */
  ghost function TrivialMap(numTypes: nat, contextBits: nat): (entries: seq<nat>)
    ensures |entries| == Shl(numTypes, contextBits)
  {
    seq(Shl(numTypes, contextBits), i requires i >= 0 => Shr(i, contextBits))
  }

  /** The list after types `0 .. n` have been moved to the front in turn. */
  ghost function Shape(n: nat): seq<nat> {
    seq(MAX_CLUSTERS, k => if 0 <= k < n then n - 1 - k else k)
  }

  ghost function ListAfter(list: seq<nat>, symbols: seq<nat>): (r: seq<nat>)
    decreases |symbols|
  {
    if |symbols| == 0 || symbols[0] >= |list| then list else ListAfter(ToFront(list, symbols[0]), symbols[1..])
  }

  lemma {:induction false} InverseConcat(list: seq<nat>, a: seq<nat>, b: seq<nat>)
    requires forall i :: 0 <= i < |a| ==> a[i] < |list|
    ensures Inverse(list, a + b) == Inverse(list, a) + Inverse(ListAfter(list, a), b)
    decreases |a|
  {
    hide ToFront;
    if |a| == 0 {
      assert a + b == b;
    } else {
      assert (a + b)[1..] == a[1..] + b && (a + b)[0] == a[0];
      InverseConcat(ToFront(list, a[0]), a[1..], b);
    }
  }

  lemma {:induction false} ListAfterConcat(list: seq<nat>, a: seq<nat>, b: seq<nat>)
    requires forall i :: 0 <= i < |a| ==> a[i] < |list|
    ensures ListAfter(list, a + b) == ListAfter(ListAfter(list, a), b)
    decreases |a|
  {
    hide ToFront;
    if |a| == 0 {
      assert a + b == b;
    } else {
      assert (a + b)[1..] == a[1..] + b && (a + b)[0] == a[0];
      ListAfterConcat(ToFront(list, a[0]), a[1..], b);
    }
  }

  function Repeat(v: nat, n: nat): (s: seq<nat>)
    ensures |s| == n
  {
    seq(n, _ => v)
  }

  lemma {:induction false} InverseZeros(list: seq<nat>, n: nat)
    requires |list| > 0
    ensures Inverse(list, ZeroEntries(n)) == Repeat(list[0], n)
    ensures ListAfter(list, ZeroEntries(n)) == list
  {
    if n > 0 {
      assert ToFront(list, 0) == list;
      assert ZeroEntries(n)[1..] == ZeroEntries(n - 1);
      InverseZeros(list, n - 1);
      assert Repeat(list[0], n) == [list[0]] + Repeat(list[0], n - 1);
    } else {
      assert ZeroEntries(0) == [];
    }
  }

  /** One type and its run, read with the list in the shape the types before it left. */
  lemma TypeRound(n: nat, reps: nat)
    requires n < MAX_CLUSTERS
    ensures Inverse(Shape(n), [n] + ZeroEntries(reps)) == Repeat(n, reps + 1)
    ensures ListAfter(Shape(n), [n] + ZeroEntries(reps)) == Shape(n + 1)
  {
    var symbols := [n] + ZeroEntries(reps);
    assert symbols[1..] == ZeroEntries(reps);
    assert ToFront(Shape(n), n) == Shape(n + 1);
    InverseZeros(Shape(n + 1), reps);
    assert Repeat(n, reps + 1) == [n] + Repeat(n, reps);
  }

  ghost function TypeEntries(n: nat, contextBits: nat): seq<nat> {
    if n == 0 then [] else TypeEntries(n - 1, contextBits) + ([n - 1] + ZeroEntries(Pow2(contextBits) - 1))
  }

  lemma {:induction false} TypesInverse(n: nat, contextBits: nat)
    requires n <= MAX_CLUSTERS
    ensures Inverse(Iota(MAX_CLUSTERS), TypeEntries(n, contextBits)) == TrivialMap(n, contextBits)
    ensures ListAfter(Iota(MAX_CLUSTERS), TypeEntries(n, contextBits)) == Shape(n)
    ensures forall i :: 0 <= i < |TypeEntries(n, contextBits)| ==> TypeEntries(n, contextBits)[i] < MAX_CLUSTERS
    ensures |TypeEntries(n, contextBits)| == Shl(n, contextBits)
  {
    hide Pow2, Shr, Shl, Inverse, ListAfter, TrivialMap, Shape;
    if n == 0 {
      NoTypes(contextBits);
    } else {
      var block := [n - 1] + ZeroEntries(Pow2(contextBits) - 1);
      TypesInverse(n - 1, contextBits);
      InverseConcat(Iota(MAX_CLUSTERS), TypeEntries(n - 1, contextBits), block);
      ListAfterConcat(Iota(MAX_CLUSTERS), TypeEntries(n - 1, contextBits), block);
      TypeRound(n - 1, Pow2(contextBits) - 1);
      TrivialMapGrows(n - 1, contextBits);
    }
  }

  lemma NoTypes(contextBits: nat)
    ensures Inverse(Iota(MAX_CLUSTERS), []) == TrivialMap(0, contextBits)
    ensures ListAfter(Iota(MAX_CLUSTERS), []) == Shape(0)
    ensures Shl(0, contextBits) == 0
  {
    ShlZero(contextBits);
    assert Iota(MAX_CLUSTERS) == Shape(0);
  }

  lemma TrivialMapGrows(n: nat, contextBits: nat)
    ensures Shl(n + 1, contextBits) == Shl(n, contextBits) + Pow2(contextBits)
    ensures TrivialMap(n + 1, contextBits) == TrivialMap(n, contextBits) + Repeat(n, Pow2(contextBits))
  {
    hide Pow2, Shr, Shl;
    ShlAdd(n, 1, contextBits);
    assert Shl(1, contextBits) == Pow2(contextBits) by { ShlTimes(1, contextBits); }
    var entries := TrivialMap(n + 1, contextBits);
    forall i: nat | i < Pow2(contextBits)
      ensures entries[Shl(n, contextBits)..][i] == n
    {
      Compose(i, n, contextBits);
    }
    assert entries[..Shl(n, contextBits)] == TrivialMap(n, contextBits);
    assert entries[Shl(n, contextBits)..] == Repeat(n, Pow2(contextBits));
  }

  /** The words expand to every type followed by the zeros that repeat it. */
  lemma {:induction false} TrivialExpands(n: nat, contextBits: nat)
    requires 2 <= contextBits <= MAX_RUN_LENGTH_PREFIX + 1 && n <= MAX_CLUSTERS
    ensures Expand(TrivialWords(n, contextBits), contextBits - 1) == TypeEntries(n, contextBits)
  {
    hide Pow2, Shr, Shl, Low, Packed, TrivialWord, Expand;
    if n == 0 {
      assert TrivialWords(0, contextBits) == [];
      ExpandNone(contextBits - 1);
    } else {
      var pair := [TrivialWord(contextBits, 2 * (n - 1)), TrivialWord(contextBits, 2 * (n - 1) + 1)];
      assert TrivialWords(n, contextBits) == TrivialWords(n - 1, contextBits) + pair;
      TrivialExpands(n - 1, contextBits);
      ExpandConcat(TrivialWords(n - 1, contextBits), pair, contextBits - 1);
      TrivialPair(n - 1, contextBits);
    }
  }

  lemma ExpandNone(p: nat)
    ensures Expand([], p) == []
  {
  }

  lemma ExpandPair(a: nat, b: nat, p: nat)
    ensures Expand([a, b], p) == Entries(a, p) + Entries(b, p)
  {
    hide Entries;
    assert [a, b][1..] == [b] && [b][1..] == [];
    assert Expand([b], p) == Entries(b, p) + Expand([], p);
    assert Entries(b, p) + Expand([], p) == Entries(b, p);
  }

  lemma TrivialPair(i: nat, contextBits: nat)
    requires 2 <= contextBits <= MAX_RUN_LENGTH_PREFIX + 1 && i < MAX_CLUSTERS
    ensures Expand([TrivialWord(contextBits, 2 * i), TrivialWord(contextBits, 2 * i + 1)], contextBits - 1)
         == [i] + ZeroEntries(Pow2(contextBits) - 1)
  {
    hide Shr, Shl, Low, Packed, Expand, Entries, Pow2;
    var p := contextBits - 1;
    ExpandPair(TrivialWord(contextBits, 2 * i), TrivialWord(contextBits, 2 * i + 1), p);
    RepeatEntries(contextBits);
    TypeEntry(i, contextBits);
  }

  lemma RepeatEntries(contextBits: nat)
    requires 2 <= contextBits <= MAX_RUN_LENGTH_PREFIX + 1
    ensures Entries(Packed(contextBits - 1, Pow2(contextBits - 1) - 1), contextBits - 1)
            == ZeroEntries(Pow2(contextBits) - 1)
  {
    hide Shr, Shl, Low, Packed;
    PackedFields(contextBits - 1, Pow2(contextBits - 1) - 1);
  }

  lemma TypeEntry(i: nat, contextBits: nat)
    requires 2 <= contextBits <= MAX_RUN_LENGTH_PREFIX + 1 && i < MAX_CLUSTERS
    ensures Entries(TrivialWord(contextBits, 2 * i), contextBits - 1) == [i]
    ensures TrivialWord(contextBits, 2 * i + 1) == Packed(contextBits - 1, Pow2(contextBits - 1) - 1)
  {
    hide Shr, Shl, Packed, Pow2;
    assert (2 * i) / 2 == i && (2 * i) % 2 == 0 && (2 * i + 1) % 2 == 1;
    if i == 0 {
      LowZero(CONTEXT_MAP_SYMBOL_BITS);
    } else {
      PackedFields(i + contextBits - 1, 0);
    }
  }

  lemma LowZero(n: nat)
    ensures Low(0, n) == 0
  {
    LowSmall(0, n);
  }

  /** The trivial map's words undo to the map that repeats each type over its contexts. */
  lemma TrivialWordsFit(numTypes: nat, contextBits: nat)
    requires 2 <= contextBits <= MAX_RUN_LENGTH_PREFIX + 1 && 1 <= numTypes <= MAX_CLUSTERS
    ensures MapWords(TrivialWords(numTypes, contextBits), contextBits - 1, numTypes)
    ensures var entries := Expand(TrivialWords(numTypes, contextBits), contextBits - 1);
            Inverse(Iota(MAX_CLUSTERS), entries) == TrivialMap(numTypes, contextBits)
            && |entries| == |TrivialMap(numTypes, contextBits)|
  {
    hide Pow2, Shl, Shr, Low, Packed, TrivialWord, Iota, Inverse, TrivialMap, Expand;
    TrivialExpands(numTypes, contextBits);
    TypesInverse(numTypes, contextBits);
    forall j | 0 <= j < 2 * numTypes
      ensures WordFits(TrivialWords(numTypes, contextBits)[j], contextBits - 1, numTypes + contextBits - 1)
    {
      TrivialSymbol(contextBits, j);
    }
  }

  /** The symbol of a trivial word. */
  function TrivialSymbolOf(contextBits: nat, j: nat): nat
    requires contextBits >= 2
  {
    if j % 2 == 1 then contextBits - 1 else if j == 0 then 0 else j / 2 + contextBits - 1
  }

  lemma TrivialSymbol(contextBits: nat, j: nat)
    requires 2 <= contextBits <= MAX_RUN_LENGTH_PREFIX + 1 && j < 2 * MAX_CLUSTERS
    ensures SymbolOf(TrivialWord(contextBits, j)) == TrivialSymbolOf(contextBits, j)
    ensures j % 2 == 1 ==> ExtraOf(TrivialWord(contextBits, j)) == Pow2(contextBits - 1) - 1
  {
    hide Pow2, Shl, Shr, Low, Packed;
    if j % 2 == 1 {
      PackedFields(contextBits - 1, Pow2(contextBits - 1) - 1);
    } else if j == 0 {
      LowZero(CONTEXT_MAP_SYMBOL_BITS);
    } else {
      PackedFields(j / 2 + contextBits - 1, 0);
    }
  }

  /** The counts `store_trivial_context_map` writes down without counting. */
  ghost function TrivialCounts(numTypes: nat, contextBits: nat): (counts: seq<nat>)
    requires contextBits >= 2
    ensures |counts| == MAX_CONTEXT_MAP_SYMBOLS
  {
    seq(MAX_CONTEXT_MAP_SYMBOLS, s => if s == contextBits - 1 then numTypes
                                      else if (s == 0 && numTypes > 0)
                                          || contextBits <= s < numTypes + contextBits - 1 then 1
                                      else 0)
  }

  /** They are exactly the symbols written. */
  lemma {:induction false} TrivialCountsExact(numTypes: nat, contextBits: nat)
    requires 2 <= contextBits <= MAX_RUN_LENGTH_PREFIX + 1 && numTypes <= MAX_CLUSTERS
    ensures TrivialCounts(numTypes, contextBits)
         == Tally(MAX_CONTEXT_MAP_SYMBOLS, multiset(Symbols(TrivialWords(numTypes, contextBits))))
  {
    hide Pow2, Shl, Shr, Low, Packed, SymbolOf, TrivialWord, TrivialWords, Symbols, Tally, TrivialCounts,
      TrivialSymbolOf;
    if numTypes == 0 {
      NoTypesCounted(contextBits);
    } else {
      TrivialCountsExact(numTypes - 1, contextBits);
      TwoMoreSymbols(numTypes - 1, contextBits);
      TwoMoreCounted(numTypes - 1, contextBits, multiset(Symbols(TrivialWords(numTypes - 1, contextBits))));
    }
  }

  lemma NoTypesCounted(contextBits: nat)
    requires 2 <= contextBits <= MAX_RUN_LENGTH_PREFIX + 1
    ensures TrivialCounts(0, contextBits)
            == Tally(MAX_CONTEXT_MAP_SYMBOLS, multiset(Symbols(TrivialWords(0, contextBits))))
  {
    hide Pow2, Shl, Shr, Low, Packed, SymbolOf, TrivialWord;
    assert Symbols(TrivialWords(0, contextBits)) == [];
  }

  lemma TwoMoreSymbols(n: nat, contextBits: nat)
    requires 2 <= contextBits <= MAX_RUN_LENGTH_PREFIX + 1 && n < MAX_CLUSTERS
    ensures multiset(Symbols(TrivialWords(n + 1, contextBits)))
         == multiset(Symbols(TrivialWords(n, contextBits)))
            + multiset{TrivialSymbolOf(contextBits, 2 * n)} + multiset{TrivialSymbolOf(contextBits, 2 * n + 1)}
  {
    hide Symbols, TrivialWords, TrivialSymbolOf;
    TrivialSymbolsGrow(n, contextBits);
    assert forall s: seq<nat>, a: nat, b: nat :: multiset(s + [a, b]) == multiset(s) + multiset{a} + multiset{b};
  }

  lemma TrivialSymbolsGrow(n: nat, contextBits: nat)
    requires 2 <= contextBits <= MAX_RUN_LENGTH_PREFIX + 1 && n < MAX_CLUSTERS
    ensures Symbols(TrivialWords(n + 1, contextBits))
         == Symbols(TrivialWords(n, contextBits))
            + [TrivialSymbolOf(contextBits, 2 * n), TrivialSymbolOf(contextBits, 2 * n + 1)]
  {
    hide Pow2, Shl, Shr, Low, Packed, SymbolOf, TrivialWord, TrivialSymbolOf;
    TrivialSymbol(contextBits, 2 * n);
    TrivialSymbol(contextBits, 2 * n + 1);
  }

  lemma TwoMoreCounted(n: nat, contextBits: nat, m: multiset<nat>)
    requires 2 <= contextBits <= MAX_RUN_LENGTH_PREFIX + 1 && n < MAX_CLUSTERS
    requires TrivialCounts(n, contextBits) == Tally(MAX_CONTEXT_MAP_SYMBOLS, m)
    ensures TrivialCounts(n + 1, contextBits)
         == Tally(MAX_CONTEXT_MAP_SYMBOLS,
                  m + multiset{TrivialSymbolOf(contextBits, 2 * n)} + multiset{TrivialSymbolOf(contextBits, 2 * n + 1)})
  {
    assert (2 * n) % 2 == 0 && (2 * n + 1) % 2 == 1 && (2 * n) / 2 == n;
    forall s | 0 <= s < MAX_CONTEXT_MAP_SYMBOLS
      ensures TrivialCounts(n, contextBits)[s] == m[s]
    {
      assert Tally(MAX_CONTEXT_MAP_SYMBOLS, m)[s] == m[s];
    }
  }

  /** `store_trivial_context_map`. */
  method StoreTrivialContextMap(h: Huffman, numTypes: nat, contextBits: nat, w: BitWriter)
    requires w.Valid() && h.Valid() && 1 <= numTypes <= MAX_CLUSTERS
    requires 2 <= contextBits <= MAX_RUN_LENGTH_PREFIX + 1
    modifies w, w.storage
    ensures w.Valid()
    ensures MapWords(TrivialWords(numTypes, contextBits), contextBits - 1, numTypes)
    ensures w.contents == old(w.contents)
                          + ContextMapBits(h, TrivialWords(numTypes, contextBits), contextBits - 1, numTypes)
    ensures old(w.overflowed) ==> w.overflowed
    ensures !old(w.overflowed) && w.Roomy() ==> !w.overflowed
  {
    hide Pow2, Shl, Shr, Low, Bit, BitOr, BitAnd, LittleEndian, Represents, ToBits, Packed, Iota, Inverse, Expand,
      TrivialMap, TrivialWords, MapBodyBits, VarLenBits, MapWords;
    TrivialWordsFit(numTypes, contextBits);
    StoreVarLenUint8(numTypes - 1, w);
    if numTypes > 1 {
      StoreTrivialWords(h, numTypes, contextBits, w);
    }
  }

  method FillTrivialCounts(numTypes: nat, contextBits: nat) returns (counts: seq<nat>)
    requires 2 <= contextBits <= MAX_RUN_LENGTH_PREFIX + 1 && 1 < numTypes <= MAX_CLUSTERS
    ensures counts == TrivialCounts(numTypes, contextBits)
  {
    var histogram := new nat[MAX_CONTEXT_MAP_SYMBOLS](_ => 0);
    histogram[contextBits - 1] := numTypes;
    histogram[0] := 1;
    forall s | contextBits <= s < numTypes + contextBits - 1 {
      histogram[s] := 1;
    }
    counts := histogram[..];
  }

  method StoreTrivialWords(h: Huffman, numTypes: nat, contextBits: nat, w: BitWriter)
    requires w.Valid() && h.Valid() && 1 < numTypes <= MAX_CLUSTERS
    requires 2 <= contextBits <= MAX_RUN_LENGTH_PREFIX + 1
    requires MapWords(TrivialWords(numTypes, contextBits), contextBits - 1, numTypes)
    modifies w, w.storage
    ensures w.Valid()
    ensures w.contents == old(w.contents)
            + MapBodyBits(h, TrivialWords(numTypes, contextBits), contextBits - 1, numTypes)
    ensures old(w.overflowed) ==> w.overflowed
    ensures !old(w.overflowed) && w.Roomy() ==> !w.overflowed
  {
    hide Pow2, SymbolOf, Shl, Shr, Low, Bit, BitOr, BitAnd, LittleEndian, Represents, ToBits, WordBits, Tally,
      WordsBits, PrefixCode.PrefixFree, RunLengthMaxBits, TrivialWord, TrivialWords, TrivialCounts, MapWords;
    var repeatCode := contextBits - 1;
    var alphabetSize := numTypes + repeatCode;
    ghost var c0, words := w.contents, TrivialWords(numTypes, contextBits);
    ghost var t := MapStored(h, words, alphabetSize);
    MapCodeCovers(h, words, repeatCode, numTypes);
    StoreRunLengthMax(repeatCode, w);
    var histogram := FillTrivialCounts(numTypes, contextBits);
    TrivialCountsExact(numTypes, contextBits);
    var stored := BuildAndStoreHuffmanTree(h, histogram[..alphabetSize], alphabetSize, w);
    ghost var code := stored.code;
    CodeFits(code);
    ghost var c1 := w.contents;
    for index := 0 to numTypes
      invariant w.Valid()
      invariant w.contents + WordsBits(code, words, repeatCode, 2 * index) == c1 + WordsBits(code, words, repeatCode, 0)
      invariant old(w.overflowed) ==> w.overflowed
      invariant !old(w.overflowed) && w.Roomy() ==> !w.overflowed
    {
      StoreTrivialPair(stored.depth, stored.pattern, numTypes, contextBits, index, code, w);
    }
    NoMoreWords(code, words, repeatCode);
    assert w.contents == c1 + WordsBits(code, words, repeatCode, 0);
    PowOne();
    w.Write(1, 1);
    assert w.contents
        == c0 + (RunLengthMaxBits(repeatCode)
                 + (t.description + (WordsBits(t.code, words, repeatCode, 0) + ToBits(1, 1))));
  }

  lemma NoMoreWords(code: PrefixCode, words: seq<nat>, p: nat)
    requires code.Fits() && forall i :: 0 <= i < |words| ==> SymbolOf(words[i]) in code.symbols
    ensures WordsBits(code, words, p, |words|) == []
  {
  }

  /** A type's symbol, then the run that covers its other contexts. */
  method StoreTrivialPair(depth: seq<nat>, pattern: seq<nat>, ghost numTypes: nat, contextBits: nat, index: nat,
                          ghost code: PrefixCode, w: BitWriter)
    requires w.Valid() && 2 <= contextBits <= MAX_RUN_LENGTH_PREFIX + 1 && index < numTypes <= MAX_CLUSTERS
    requires code.Fits() && Tabulates(depth, pattern, code)
    requires forall i :: 0 <= i < 2 * numTypes ==> SymbolOf(TrivialWords(numTypes, contextBits)[i]) in code.symbols
    modifies w, w.storage
    ensures w.Valid()
    ensures w.contents + WordsBits(code, TrivialWords(numTypes, contextBits), contextBits - 1, 2 * index + 2)
         == old(w.contents) + WordsBits(code, TrivialWords(numTypes, contextBits), contextBits - 1, 2 * index)
    ensures |w.contents| >= |old(w.contents)|
    ensures old(w.overflowed) ==> w.overflowed
    ensures !old(w.overflowed) && w.Roomy() ==> !w.overflowed
  {
    hide Shl, Shr, Low, Bit, BitOr, BitAnd, LittleEndian, Represents, ToBits, Packed, WordsBits, SymbolOf, ExtraOf,
      Pow2, TrivialWord;
    var repeatCode := contextBits - 1;
    ghost var words := TrivialWords(numTypes, contextBits);
    TrivialSymbol(contextBits, 2 * index);
    TrivialSymbol(contextBits, 2 * index + 1);
    assert words[2 * index] == TrivialWord(contextBits, 2 * index);
    assert words[2 * index + 1] == TrivialWord(contextBits, 2 * index + 1);
    var symbol := if index == 0 then 0 else index + contextBits - 1;
    WriteSymbol(depth, pattern, symbol, code, w);
    WriteSymbol(depth, pattern, repeatCode, code, w);
    w.Write(repeatCode, Pow2(repeatCode) - 1);
    WordPair(code, words, repeatCode, 2 * index);
  }

  lemma WordPair(code: PrefixCode, words: seq<nat>, p: nat, i: nat)
    requires code.Fits() && forall k :: 0 <= k < |words| ==> SymbolOf(words[k]) in code.symbols
    requires i + 1 < |words|
    ensures WordsBits(code, words, p, i)
         == WordBits(code, words[i], p) + WordBits(code, words[i + 1], p) + WordsBits(code, words, p, i + 2)
  {
    hide WordBits, SymbolOf;
    assert WordsBits(code, words, p, i + 1) == WordBits(code, words[i + 1], p) + WordsBits(code, words, p, i + 2);
  }

  /** A section 7.3 reader recovers the identity from a trivial map: type `i`, over all of its
      contexts, for every `i`. */
  lemma TrivialContextMapRoundTrip(h: Huffman, numTypes: nat, contextBits: nat, rest: bits)
    requires h.Valid() && 1 <= numTypes <= MAX_CLUSTERS && 2 <= contextBits <= MAX_RUN_LENGTH_PREFIX + 1
    ensures MapWords(TrivialWords(numTypes, contextBits), contextBits - 1, numTypes)
    ensures ReadContextMap(h, Shl(numTypes, contextBits),
                           ContextMapBits(h, TrivialWords(numTypes, contextBits), contextBits - 1, numTypes) + rest)
         == Got((numTypes, TrivialMap(numTypes, contextBits)), rest)
  {
    hide Pow2, Shl, Shr, Low, Packed, TrivialWords, Iota, Inverse, Expand, MapWords, ReadContextMap, ContextMapBits;
    TrivialWordsFit(numTypes, contextBits);
    if numTypes == 1 { LoneTypeMap(contextBits); }
    ContextMapRoundTrip(h, TrivialWords(numTypes, contextBits), contextBits - 1, numTypes,
                        TrivialMap(numTypes, contextBits), rest);
  }

  lemma LoneTypeMap(contextBits: nat)
    ensures TrivialMap(1, contextBits) == ZeroEntries(Shl(1, contextBits))
  {
    hide Shl, Shr, Low;
    ShlTimes(1, contextBits);
    forall i: nat | i < Shl(1, contextBits)
      ensures TrivialMap(1, contextBits)[i] == 0
    {
      LowSmall(i, contextBits);
    }
  }

  /** The same for a map of any clusters: run lengths, move to front and the code read back. */
  lemma EncodedContextMapRoundTrip(h: Huffman, entries: seq<nat>, clusters: nat, rest: bits)
    requires h.Valid() && 1 <= clusters <= MAX_CLUSTERS && forall v :: v in entries ==> v < clusters
    ensures MapWords(EncodedWords(entries), EncodedPrefix(entries), clusters)
    ensures ReadContextMap(h, |entries|,
                           ContextMapBits(h, EncodedWords(entries), EncodedPrefix(entries), clusters) + rest)
         == Got((clusters, entries), rest)
  {
    hide Iota, Inverse, Expand, MapWords, ReadContextMap, ContextMapBits, EncodedWords, EncodedPrefix;
    EncodedWordsFit(entries, clusters);
    if clusters == 1 {
      forall i | 0 <= i < |entries|
        ensures entries[i] == 0
      {
        assert entries[i] in entries;
      }
      assert entries == ZeroEntries(|entries|);
    }
    ContextMapRoundTrip(h, EncodedWords(entries), EncodedPrefix(entries), clusters, entries, rest);
  }
}
