/** `optimize_histograms` (src/shared/metablock.rs): smoothing the histograms of a meta-block leaves
    every symbol it stores with a code, so what is stored from them still decodes to the text. */
module HistogramOptimization {
  import opened Bits
  import opened BlockSplits
  import opened Commands
  import opened DataWriting
  import opened Decoding
  import opened Distances
  import opened MetaBlocks
  import opened MetaBlockWriting
  import opened PrefixCodes
  import opened Smoothing
  import opened StreamDecoding
  import opened SymbolStreams

  /** Histograms smoothed over their first `n` symbols. */
  ghost function SmoothedAll(histograms: seq<seq<nat>>, n: nat): (r: seq<seq<nat>>)
    requires forall t :: 0 <= t < |histograms| ==> n <= |histograms[t]|
    ensures |r| == |histograms|
  {
    seq(|histograms|, t requires 0 <= t < |histograms| => Smoothed(histograms[t], n))
  }

  /** One kind of histogram in `optimize_histograms`: each is smoothed in place, none twice. */
  method SmoothAll(histograms: seq<array<nat>>, n: nat, goodForRle: array<bool>)
    requires n <= goodForRle.Length && forall t :: 0 <= t < |histograms| ==> n <= histograms[t].Length
    requires forall t, u :: 0 <= t < u < |histograms| ==> histograms[t] != histograms[u]
    modifies goodForRle, set t | 0 <= t < |histograms| :: histograms[t]
    ensures forall t :: 0 <= t < |histograms| ==> histograms[t][..] == Smoothed(old(histograms[t][..]), n)
  {
    hide Smoothed;
    for t := 0 to |histograms|
      invariant forall u :: 0 <= u < t ==> histograms[u][..] == Smoothed(old(histograms[u][..]), n)
      invariant forall u :: t <= u < |histograms| ==> histograms[u][..] == old(histograms[u][..])
    {
      OptimizeHuffmanCountsForRle(n, histograms[t], goodForRle);
    }
  }

  /** `optimize_histograms`: the histograms of all three streams. */
  method OptimizeHistograms(distanceCodes: nat, literals: seq<array<nat>>, commands: seq<array<nat>>,
                            distances: seq<array<nat>>)
    requires forall t :: 0 <= t < |literals| ==> NUM_LITERAL_SYMBOLS <= literals[t].Length
    requires forall t :: 0 <= t < |commands| ==> NUM_COMMAND_SYMBOLS <= commands[t].Length
    requires forall t :: 0 <= t < |distances| ==> distanceCodes <= distances[t].Length
    requires distanceCodes <= NUM_COMMAND_SYMBOLS
    requires var all := literals + commands + distances; forall t, u :: 0 <= t < u < |all| ==> all[t] != all[u]
    modifies set t | 0 <= t < |literals| :: literals[t]
    modifies set t | 0 <= t < |commands| :: commands[t]
    modifies set t | 0 <= t < |distances| :: distances[t]
    ensures forall t :: 0 <= t < |literals| ==>
              literals[t][..] == Smoothed(old(literals[t][..]), NUM_LITERAL_SYMBOLS)
    ensures forall t :: 0 <= t < |commands| ==>
              commands[t][..] == Smoothed(old(commands[t][..]), NUM_COMMAND_SYMBOLS)
    ensures forall t :: 0 <= t < |distances| ==> distances[t][..] == Smoothed(old(distances[t][..]), distanceCodes)
  {
    hide Smoothed;
    ghost var all := literals + commands + distances;
    assert forall t :: 0 <= t < |literals| ==> all[t] == literals[t];
    assert forall t :: 0 <= t < |commands| ==> all[|literals| + t] == commands[t];
    assert forall t :: 0 <= t < |distances| ==> all[|literals| + |commands| + t] == distances[t];
    var goodForRle := new bool[NUM_COMMAND_SYMBOLS](_ => false);
    SmoothAll(literals, NUM_LITERAL_SYMBOLS, goodForRle);
    SmoothAll(commands, NUM_COMMAND_SYMBOLS, goodForRle);
    SmoothAll(distances, distanceCodes, goodForRle);
  }

  ghost function SmoothedPart(part: Part, n: nat): Part
    requires forall t :: 0 <= t < |part.histograms| ==> n <= |part.histograms[t]|
  {
    part.(histograms := SmoothedAll(part.histograms, n))
  }

  ghost function SmoothedParts(parts: Parts, distanceCodes: nat): Parts
    requires Smoothable(parts, distanceCodes)
  {
    Parts(SmoothedPart(parts.literal, NUM_LITERAL_SYMBOLS), SmoothedPart(parts.command, parts.command.length),
          SmoothedPart(parts.distance, distanceCodes))
  }

  ghost predicate Smoothable(parts: Parts, distanceCodes: nat) {
    && (forall t :: 0 <= t < |parts.literal.histograms| ==> NUM_LITERAL_SYMBOLS <= |parts.literal.histograms[t]|)
    && (forall t :: 0 <= t < |parts.command.histograms| ==> parts.command.length <= |parts.command.histograms[t]|)
    && (forall t :: 0 <= t < |parts.distance.histograms| ==> distanceCodes <= |parts.distance.histograms[t]|)
  }

  /** A symbol counted before smoothing is counted after it. */
  lemma StillCounted(part: Part, n: nat, j: nat, symbol: nat, context: nat)
    requires forall t :: 0 <= t < |part.histograms| ==> n <= |part.histograms[t]|
    requires part.Counts(j, symbol, context)
    ensures SmoothedPart(part, n).Counts(j, symbol, context)
  {
    hide Smoothed, BlockSplit.Valid, BlockSplit.Total, KindAt, Pow2, Shl;
    var t := part.HistogramOf(KindAt(part.split, j), context);
    SmoothingKeepsUsed(part.histograms[t], n, symbol);
  }

  lemma UsedWithin(counts: seq<nat>, alphabet: nat)
    requires forall s :: alphabet <= s < |counts| ==> counts[s] == 0
    ensures UsedLength(counts) <= alphabet
  {
  }

  /** Counts with none past the alphabet have none there after smoothing. */
  lemma StillCodable(h: Huffman, counts: seq<nat>, n: nat, length: nat, alphabet: nat)
    requires n <= length <= |counts| && h.Codable(counts[..length], alphabet)
    ensures h.Codable(Smoothed(counts, n)[..length], alphabet)
  {
    hide Smoothed;
    assert forall s :: alphabet <= s < length ==> counts[..length][s] == counts[s];
    UsedWithin(counts[..n], alphabet);
    forall s | alphabet <= s < length
      ensures Smoothed(counts, n)[s] == 0
    {
      SmoothingKeepsTail(counts, n, s);
    }
  }

  /** Smoothed histograms can be coded whenever the old ones could. */
  lemma StillValid(h: Huffman, part: Part, n: nat)
    requires part.Valid(h) && n <= part.length
    ensures forall t :: 0 <= t < |part.histograms| ==> n <= |part.histograms[t]|
    ensures SmoothedPart(part, n).Valid(h)
  {
    hide Smoothed, BlockSplit.Valid, Huffman.Valid, Huffman.Codable, Shl;
    forall t | 0 <= t < |part.histograms|
      ensures h.Codable(Smoothed(part.histograms[t], n)[..part.length], part.alphabet)
    {
      StillCodable(h, part.histograms[t], n, part.length, part.alphabet);
    }
  }

  /** A meta-block whose symbols were all counted can be stored from the smoothed histograms. */
  lemma {:induction false} AllStillCounted(parts: Parts, distanceCodes: nat, items: seq<Item>, js: Counters)
    requires Smoothable(parts, distanceCodes) && AllCounted(parts, items, js)
    ensures AllCounted(SmoothedParts(parts, distanceCodes), items, js)
    decreases |items|
  {
    hide Part.Counts, SmoothedPart;
    if |items| > 0 {
      var item := items[0];
      if item.Symbol? {
        match item.stream
        case LiteralStream => StillCounted(parts.literal, NUM_LITERAL_SYMBOLS, js.literals, item.symbol, item.context);
        case CommandStream => StillCounted(parts.command, parts.command.length, js.commands, item.symbol, item.context);
        case DistanceStream => StillCounted(parts.distance, distanceCodes, js.distances, item.symbol, item.context);
      }
      AllStillCounted(parts, distanceCodes, items[1..], js.After(item));
    }
  }

  // ------------------------------------------------------------------------ whole jobs

  /** What `optimize_histograms` makes of the description of a meta-block. */
  ghost function SmoothedSplit(mb: MetaBlockSplit, distanceCodes: nat): MetaBlockSplit
    requires forall t :: 0 <= t < |mb.literalHistograms| ==> NUM_LITERAL_SYMBOLS <= |mb.literalHistograms[t]|
    requires forall t :: 0 <= t < |mb.commandHistograms| ==> NUM_COMMAND_SYMBOLS <= |mb.commandHistograms[t]|
    requires forall t :: 0 <= t < |mb.distanceHistograms| ==> distanceCodes <= |mb.distanceHistograms[t]|
  {
    mb.(literalHistograms := SmoothedAll(mb.literalHistograms, NUM_LITERAL_SYMBOLS),
        commandHistograms := SmoothedAll(mb.commandHistograms, NUM_COMMAND_SYMBOLS),
        distanceHistograms := SmoothedAll(mb.distanceHistograms, distanceCodes))
  }

  /** The histograms of a job that is ready run at least as far as they are smoothed. */
  lemma ReadyIsSmoothable(job: Job, distanceCodes: nat)
    requires job.Ready() && distanceCodes <= job.params.alphabetSizeLimit
    ensures Smoothable(job.Parts(), distanceCodes)
  {
    hide Job.Consistent, BlockSplit.Valid, Huffman.Valid, Huffman.Codable, AllCounted, Legal, DistanceAlphabet;
  }

  ghost function SmoothedJob(job: Job, distanceCodes: nat): (r: Job)
    requires job.Ready() && distanceCodes <= job.params.alphabetSizeLimit
    ensures Smoothable(job.Parts(), distanceCodes) && r.Parts() == SmoothedParts(job.Parts(), distanceCodes)
    ensures r == job.(mb := r.mb)
  {
    ReadyIsSmoothable(job, distanceCodes);
    job.(mb := SmoothedSplit(job.mb, distanceCodes))
  }

  /** A job that could be stored can be stored from its smoothed histograms. */
  lemma SmoothedIsReady(job: Job, distanceCodes: nat)
    requires job.Ready() && distanceCodes <= job.params.alphabetSizeLimit
    ensures SmoothedJob(job, distanceCodes).Ready()
  {
    hide Part.Valid, AllCounted, Legal, DistanceAlphabet, Describes, AllSized, Span, ItemsFrom, SmoothedPart;
    var parts := job.Parts();
    var after := SmoothedJob(job, distanceCodes);
    AllStillCounted(parts, distanceCodes, job.Items(), Counters(0, 0, 0));
    StillValid(job.dec.huffman, parts.literal, NUM_LITERAL_SYMBOLS);
    StillValid(job.dec.huffman, parts.command, NUM_COMMAND_SYMBOLS);
    StillValid(job.dec.huffman, parts.distance, distanceCodes);
    assert after.Items() == job.Items();
  }

  /** What is stored from the smoothed histograms decodes to the same text. */
  lemma SmoothedRoundTrip(job: Job, distanceCodes: nat, last: bool, pos: nat, rest: bits)
    requires job.Ready() && distanceCodes <= job.params.alphabetSizeLimit
    ensures SmoothedJob(job, distanceCodes).Ready()
    ensures ReadMetaBlock(job.dec, pos, job.ring, job.history, JobBits(SmoothedJob(job, distanceCodes), last) + rest)
         == Got(Decoded(last, job.after, job.text), rest)
  {
    hide Job.Ready, JobBits, ReadMetaBlock;
    SmoothedIsReady(job, distanceCodes);
    JobRoundTrip(SmoothedJob(job, distanceCodes), last, pos, rest);
  }
}
