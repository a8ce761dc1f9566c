/** What `store_meta_block` asks of its caller can be met, with any block split and any context map
    of the literals (src/shared/bitstream.rs, src/shared/metablock.rs). */
module SpreadJobs {
  import opened Bits
  import opened BlockSplits
  import opened Commands
  import opened ContextMaps
  import opened DataWriting
  import opened Decoding
  import opened Distances
  import opened Headers
  import opened MetaBlocks
  import opened MetaBlockWriting
  import opened PackedCommands
  import opened PrefixCodes
  import opened StreamDecoding
  import opened SymbolStreams
  import opened TrivialWriting

  /** A histogram in which every symbol was seen once. */
  function Ones(n: nat): (counts: seq<nat>)
    ensures |counts| == n && forall s :: 0 <= s < n ==> counts[s] == 1
  {
    seq(n, _ => 1)
  }

  /** Literals split and clustered as given; commands and distances in one block each. */
  function SpreadSplit(split: BlockSplit, contextMap: seq<nat>, clusters: nat, distances: nat): MetaBlockSplit {
    MetaBlockSplit(split, LONE_SPLIT, LONE_SPLIT, contextMap, [],
                   seq(clusters, _ => Ones(NUM_LITERAL_SYMBOLS)), [Ones(NUM_COMMAND_SYMBOLS)], [ZeroEntries(distances)])
  }

  /** A job that inserts `data` with one command. */
  function SpreadJob(dec: Decoder, params: DistanceParams, mode: nat, split: BlockSplit, contextMap: seq<nat>,
                     clusters: nat, history: seq<byte>, data: seq<byte>, ring: Ring, x: bool): Job
  {
    Job(dec, params, mode, [InsertOnly(|data|)], x, SpreadSplit(split, contextMap, clusters, params.alphabetSizeLimit),
        history, history + data, ring, ring)
  }

  /** The distance alphabet is the one the decoder derives, and contexts are in range. */
  ghost predicate Sane(dec: Decoder, params: DistanceParams, mode: nat, data: seq<byte>) {
    && dec.huffman.Valid() && mode < 4 && 1 <= |data| <= MAX_MLEN && (forall a, b :: dec.contexts(mode, a, b) < 64)
    && Legal(params.postfixBits, params.numDirect)
    && params.alphabetSizeMax == DistanceAlphabet(dec.large, params.numDirect, params.postfixBits)
    && 0 < params.alphabetSizeLimit <= MAX_ALPHABET && 0 < params.alphabetSizeMax <= MAX_ALPHABET
  }

  /** The split holds the data, and the map fits split and clusters. */
  ghost predicate Spreadable(dec: Decoder, params: DistanceParams, mode: nat, split: BlockSplit, contextMap: seq<nat>,
                             clusters: nat, data: seq<byte>)
  {
    && Sane(dec, params, mode, data) && split.Valid() && |data| <= split.Total()
    && |contextMap| == Shl(split.numTypes, LITERAL_CONTEXT_BITS) && 1 <= clusters <= MAX_CLUSTERS
    && (forall v :: v in contextMap ==> v < clusters)
  }

  lemma SpreadPartsValid(dec: Decoder, params: DistanceParams, mode: nat, split: BlockSplit, contextMap: seq<nat>,
                         clusters: nat, data: seq<byte>)
    requires Spreadable(dec, params, mode, split, contextMap, clusters, data)
    ensures SpreadSplit(split, contextMap, clusters, params.alphabetSizeLimit).Streams(params).Valid(dec.huffman)
    ensures contextMap != [] && LONE_SPLIT.Valid() && LONE_SPLIT.Total() == MAX_MLEN
  {
    hide Huffman.Valid, Legal, DistanceAlphabet, Shl, BlockSplit.Total, BlockSplit.Valid;
    LoneSplitValid();
    TypesHaveContexts(split);
  }

  lemma LoneSplitValid()
    ensures LONE_SPLIT.Valid() && LONE_SPLIT.Total() == MAX_MLEN && LONE_SPLIT.numTypes == 1
  {
    assert SumTo([MAX_MLEN], 1) == SumTo([MAX_MLEN], 0) + MAX_MLEN;
  }

  lemma TypesHaveContexts(split: BlockSplit)
    requires split.Valid()
    ensures Shl(split.numTypes, LITERAL_CONTEXT_BITS) > 0 && Pow2(LITERAL_CONTEXT_BITS) == 64
  {
    Pow2Values();
    ShlTimes(split.numTypes, LITERAL_CONTEXT_BITS);
  }

  /** Whatever block and context a literal falls in, its histogram counted it. */
  lemma LiteralCounted(part: Part, j: nat, symbol: nat, context: nat)
    requires part.split.Valid() && j < part.split.Total() && symbol < part.length == NUM_LITERAL_SYMBOLS && context < 64
    requires part.contextBits == LITERAL_CONTEXT_BITS
             && |part.contextMap| == Shl(part.split.numTypes, LITERAL_CONTEXT_BITS)
    requires forall v :: v in part.contextMap ==> v < |part.histograms|
    requires forall t :: 0 <= t < |part.histograms| ==> part.histograms[t] == Ones(NUM_LITERAL_SYMBOLS)
    ensures part.Counts(j, symbol, context)
  {
    hide Shl, Pow2, BlockSplit.Valid, BlockSplit.Total, KindAt;
    TypesHaveContexts(part.split);
    ContextInMap(KindAt(part.split, j), part.split.numTypes, context, LITERAL_CONTEXT_BITS);
    var v := part.contextMap[Shl(KindAt(part.split, j), LITERAL_CONTEXT_BITS) + context];
    assert v in part.contextMap;
  }

  lemma {:induction false} LiteralsCounted(parts: Parts, text: seq<byte>, k: nat, n: nat, context: ContextOf,
                                           js: Counters)
    requires k + n <= |text| && (forall a, b :: context(a, b) < 64)
    requires var part := parts.literal;
             && part.split.Valid() && js.literals + n <= part.split.Total() && part.length == NUM_LITERAL_SYMBOLS
             && part.contextBits == LITERAL_CONTEXT_BITS
                 && |part.contextMap| == Shl(part.split.numTypes, LITERAL_CONTEXT_BITS)
             && (forall v :: v in part.contextMap ==> v < |part.histograms|)
             && forall t :: 0 <= t < |part.histograms| ==> part.histograms[t] == Ones(NUM_LITERAL_SYMBOLS)
    ensures AllCounted(parts, LiteralItems(text, k, n, context), js)
    decreases n
  {
    hide Part.Counts, Previous, BlockSplit.Valid, BlockSplit.Total, Shl;
    if n > 0 {
      var item := LiteralItem(text, k, context);
      LiteralCounted(parts.literal, js.literals, item.symbol, item.context);
      assert LiteralItems(text, k, n, context)[1..] == LiteralItems(text, k + 1, n - 1, context);
      LiteralsCounted(parts, text, k + 1, n - 1, context, js.After(item));
    }
  }

  lemma SymbolCounted(part: Part, symbol: nat)
    requires part.split == LONE_SPLIT && part.contextMap == [] && part.contextBits == 0
    requires symbol < part.length == NUM_COMMAND_SYMBOLS && part.histograms == [Ones(NUM_COMMAND_SYMBOLS)]
    ensures part.Counts(0, symbol, 0)
  {
    LoneSplitValid();
  }

  /** The items of the one command. */
  lemma InsertItems(c: Command, text: seq<byte>, k: nat, context: ContextOf, x: bool)
    requires Sized(c, x) && !c.HasDistance() && c.CopyLen() == 0 && k + c.insertLen == |text|
    ensures AllSized([c], x) && Span([c], 0) == c.insertLen
    ensures ItemsFrom([c], 0, text, k, context, x) == LengthItems(c, x) + LiteralItems(text, k, c.insertLen, context)
  {
    hide Command.HasDistance, Command.CopyLen, Command.CopyLenCode, LengthItems, LiteralItems;
    assert Span([c], 1) == 0;
    assert ItemsFrom([c], 1, text, k + c.insertLen, context, x) == [];
    assert DistanceItems(c) == [];
  }

  /** Any split, any context map and any bytes: there is a job that stores them, and
      `store_meta_block` may be called with it. */
  lemma SpreadJobIsReady(dec: Decoder, params: DistanceParams, mode: nat, split: BlockSplit, contextMap: seq<nat>,
                         clusters: nat, history: seq<byte>, data: seq<byte>, ring: Ring, x: bool)
    requires Spreadable(dec, params, mode, split, contextMap, clusters, data)
    ensures SpreadJob(dec, params, mode, split, contextMap, clusters, history, data, ring, x).Ready()
  {
    hide Huffman.Valid, Legal, DistanceAlphabet, Shl, BlockSplit.Total, BlockSplit.Valid, Part.Valid, LengthItems,
      LiteralItems, AllCounted, ItemsFrom, Command.CopyLen, Command.CopyLenCode, Command.HasDistance, Span, AllSized,
      LengthsFit;
    var job := SpreadJob(dec, params, mode, split, contextMap, clusters, history, data, ring, x);
    var c, parts, context := InsertOnly(|data|), job.Parts(), AtMode(dec.contexts, mode);
    SpreadPartsValid(dec, params, mode, split, contextMap, clusters, data);
    InsertOnlyIsTrailing(|data|, x);
    TrailingSymbol(c, x);
    InsertItems(c, job.text, |history|, context, x);
    assert job.commands[0] == c && |job.commands| == 1;
    LiteralsCounted(parts, job.text, |history|, |data|, context, Counters(0, 1, 0));
    SymbolCounted(parts.command, c.cmdPrefix);
    LengthsThen(parts, c, x, LiteralItems(job.text, |history|, |data|, context));
  }

  /** The lengths of the first command, and what comes after them. */
  lemma LengthsThen(parts: Parts, c: Command, x: bool, tail: seq<Item>)
    requires Sized(c, x) && parts.command.Counts(0, c.cmdPrefix, 0) && AllCounted(parts, tail, Counters(0, 1, 0))
    ensures AllCounted(parts, LengthItems(c, x) + tail, Counters(0, 0, 0))
  {
    hide Part.Counts, Command.CopyLenCode, ExtraBitsOf;
    var items := LengthItems(c, x) + tail;
    assert items[1..][1..] == tail;
    assert items[1..][0].Raw?;
    assert AllCounted(parts, items[1..], Counters(0, 1, 0));
  }

  /** Two literal block types, and contexts that share their codes across the types. */
  lemma TwoTypesSpread(dec: Decoder, params: DistanceParams, mode: nat, data: seq<byte>, cut: nat)
    requires Sane(dec, params, mode, data) && 1 <= cut < |data|
    ensures Spreadable(dec, params, mode, BlockSplit(2, 2, [0, 1], [cut, |data| - cut]),
                       seq(128, i => if i % 2 == 0 then 0 else 1),
                       2, data)
  {
    hide Sane, Shl, Pow2;
    SaneLength(dec, params, mode, data);
    TwoBlocks(cut, |data| - cut);
    Pow2Values();
    ShlTimes(2, LITERAL_CONTEXT_BITS);
  }

  lemma SaneLength(dec: Decoder, params: DistanceParams, mode: nat, data: seq<byte>)
    requires Sane(dec, params, mode, data)
    ensures 1 <= |data| <= MAX_MLEN
  {
  }

  lemma TwoBlocks(a: nat, b: nat)
    requires 1 <= a && 1 <= b && a + b <= MAX_MLEN
    ensures var split := BlockSplit(2, 2, [0, 1], [a, b]); split.Valid() && split.Total() == a + b
  {
    assert SumTo([a, b], 0) == 0;
    assert SumTo([a, b], 1) == a;
  }
}
