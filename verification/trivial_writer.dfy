/** `store_meta_block_trivial` (src/shared/bitstream.rs): one prefix code per stream, counted in one
    pass and written in another. */
module TrivialWriting {
  import opened Bits
  import opened BitWriting
  import opened BlockEncoders
  import opened BlockSplits
  import opened Commands
  import opened ContextMaps
  import opened DataWriting
  import opened Decoding
  import opened Distances
  import opened Headers
  import opened Histograms
  import opened MetaBlocks
  import opened MetaBlockWriting
  import opened PackedCommands
  import opened PrefixCodes
  import opened StreamDecoding
  import opened SymbolStreams

  const MAX_SIMPLE_DISTANCE_ALPHABET_SIZE := 140

  /** What the writer needs: commands that describe the text, coded with no postfix bits and no
      direct distances, and distance symbols inside both the table and the alphabet. */
  ghost predicate Simple(job: Job) {
    && job.Consistent() && job.dec.huffman.Valid() && job.mode == 0
    && job.params.postfixBits == 0 && job.params.numDirect == 0
    && job.params.alphabetSizeMax == DistanceAlphabet(job.dec.large, 0, 0)
    && InAlphabets(job.commands, MAX_SIMPLE_DISTANCE_ALPHABET_SIZE)
        && InAlphabets(job.commands, job.params.alphabetSizeMax)
    && forall a, b :: job.dec.contexts(0, a, b) < 64
  }

  // -------------------------------------------------------------- one part per stream

  ghost function LonePart(counts: seq<nat>, contextBits: nat, length: nat, alphabet: nat): Part {
    Part(LONE_SPLIT, [counts], [], contextBits, length, alphabet)
  }

  /** The parts of a meta-block with one code per stream, from the counts of the three streams. */
  ghost function LoneParts(literals: seq<nat>, lengths: seq<nat>, distances: seq<nat>, params: DistanceParams): Parts {
    Parts(LonePart(literals, LITERAL_CONTEXT_BITS, NUM_LITERAL_SYMBOLS, NUM_LITERAL_SYMBOLS),
          LonePart(lengths, 0, NUM_COMMAND_SYMBOLS, NUM_COMMAND_SYMBOLS),
          LonePart(distances, DISTANCE_CONTEXT_BITS, MAX_SIMPLE_DISTANCE_ALPHABET_SIZE, params.alphabetSizeMax))
  }

  lemma LonePartValid(h: Huffman, counts: seq<nat>, contextBits: nat, length: nat, alphabet: nat)
    requires h.Valid() && 0 < length <= |counts| && length <= MAX_ALPHABET && 0 < alphabet <= MAX_ALPHABET
    requires forall s :: alphabet <= s < length ==> counts[s] == 0
    ensures LonePart(counts, contextBits, length, alphabet).Valid(h)
    ensures var stored := h.build(counts[..length], alphabet);
            var code := stored.code;
            && code.PrefixFree() && Tabulates(stored.depth, stored.pattern, code)
            && LonePart(counts, contextBits, length, alphabet).Coded(h) == LoneCoding(code, contextBits)
            && forall s :: 0 <= s < length && counts[s] > 0 ==> s in code.symbols
  {
    hide PrefixCode.PrefixFree, TrivialMap, Huffman.Valid, Tabulates;
    var part := LonePart(counts, contextBits, length, alphabet);
    assert h.Codable(part.histograms[0][..length], alphabet);
    LoneTypeMap(contextBits);
    ShlTimes(1, contextBits);
    StreamCodesCover(h, part.histograms, length, alphabet, 0);
    assert StreamCodes(h, part.histograms, length, alphabet) == [h.build(counts[..length], alphabet).code];
  }

  /** Thirteen zero bits: one block type in each stream, no distance parameters, context mode zero,
      and one cluster in each context map. */
  lemma ThirteenZeros(h: Huffman, parts: Parts, params: DistanceParams)
    requires Storable(h, parts, params) && params.postfixBits == 0 && params.numDirect == 0
    requires parts.literal.split == LONE_SPLIT && parts.command.split == LONE_SPLIT
             && parts.distance.split == LONE_SPLIT
    requires parts.literal.contextMap == [] && parts.distance.contextMap == []
    ensures SplitsBits(h, parts) + ContextBits(h, parts, params, 0) == ToBits(13, 0)
  {
    hide Part.Valid, Legal, Pow2, Log2, TrivialWords, MapWords, MapBodyBits, TypeStored, LengthStored, Bit;
    LoneHeader(h, parts.literal);
    LoneHeader(h, parts.command);
    LoneHeader(h, parts.distance);
    assert ModeBits(0, 1) == ToBits(2, 0) + ModeBits(0, 0);
    assert Shr(0, 0) == 0;
    ToBitsZero(13);
    ToBitsZero(4);
    ToBitsZero(2);
    ToBitsZero(1);
  }

  lemma LoneHeader(h: Huffman, part: Part)
    requires part.Valid(h) && part.split == LONE_SPLIT && part.contextMap == []
    ensures h.Valid() && SplitCodeBits(h, part.split) == ToBits(1, 0)
    ensures 2 <= part.contextBits <= MAX_RUN_LENGTH_PREFIX + 1 ==> MapBits(h, part) == ToBits(1, 0)
  {
    hide Pow2, Log2, TrivialWords, MapBodyBits, TypeStored, LengthStored, AllCodable, Bit, Huffman.Valid;
    if 2 <= part.contextBits <= MAX_RUN_LENGTH_PREFIX + 1 { TrivialWordsFit(1, part.contextBits); }
  }

  // --------------------------------------------------------------- two-pass agreement

  lemma {:induction false} SymbolIsListed(items: seq<Item>, i: nat)
    requires i < |items| && items[i].Symbol?
    ensures items[i].symbol in SymbolsOf(items, items[i].stream)
    decreases i
  {
    if i > 0 { SymbolIsListed(items[1..], i - 1); }
  }

  /** Every symbol stored was counted: codes that cover the counted symbols cover the items. */
  lemma CountedAreCoded(codes: Codes, items: seq<Item>)
    requires CodesPrefixFree(codes) && AllRawFit(items)
    requires forall stream, s :: s in SymbolsOf(items, stream) ==> s in codes.Of(stream).symbols
    ensures codes.HasAll(items)
  {
    hide SymbolsOf, Pow2;
    forall i | 0 <= i < |items|
      ensures codes.Has(items[i])
    {
      assert RawFits(items[i]);
      if items[i].Symbol? { SymbolIsListed(items, i); }
    }
  }

  /** Text behind a history contributes the same symbols. */
  lemma {:induction false} StreamShift(commands: seq<Command>, i: nat, history: seq<byte>, text: seq<byte>, k: nat,
                                       stream: Stream)
    requires k + Span(commands, i) <= |text| && i <= |commands|
    ensures StreamFrom(commands, i, history + text, |history| + k, stream) == StreamFrom(commands, i, text, k, stream)
    decreases |commands| - i
  {
    hide Command.CopyLen, StreamFrom, CommandSymbols, Span;
    if i < |commands| {
      SpanStep(commands, i);
      var next := k + commands[i].insertLen + commands[i].CopyLen();
      StreamShift(commands, i + 1, history, text, next, stream);
      StreamUnfolds(commands, i, text, k, next, stream);
      StreamUnfolds(commands, i, history + text, |history| + k, |history| + next, stream);
      CommandSymbolsShift(commands[i], history, text, k, stream);
    } else {
      StreamEnd(commands, text, k);
      StreamEnd(commands, history + text, |history| + k);
    }
  }

  lemma CommandSymbolsShift(c: Command, history: seq<byte>, text: seq<byte>, k: nat, stream: Stream)
    requires k + c.insertLen <= |text|
    ensures CommandSymbols(c, history + text, |history| + k, stream) == CommandSymbols(c, text, k, stream)
  {
    hide Command.HasDistance, Command.DistanceCode;
    assert Bytes(history + text, |history| + k, c.insertLen) == Bytes(text, k, c.insertLen);
  }

  /** Literals are bytes, and command and distance symbols are in their alphabets. */
  lemma {:induction false} StreamBounds(commands: seq<Command>, i: nat, text: seq<byte>, k: nat, distances: nat)
    requires k + Span(commands, i) <= |text| && i <= |commands| && InAlphabets(commands, distances)
    ensures forall s :: s in StreamFrom(commands, i, text, k, LiteralStream) ==> s < NUM_LITERAL_SYMBOLS
    ensures forall s :: s in StreamFrom(commands, i, text, k, CommandStream) ==> s < NUM_COMMAND_SYMBOLS
    ensures forall s :: s in StreamFrom(commands, i, text, k, DistanceStream) ==> s < distances
    decreases |commands| - i
  {
    hide Command.CopyLen, Command.HasDistance, Command.DistanceCode, StreamFrom;
    if i < |commands| {
      StreamStep(commands, i, text, k);
      StreamBounds(commands, i + 1, text, k + commands[i].insertLen + commands[i].CopyLen(), distances);
    } else {
      StreamEnd(commands, text, k);
    }
  }

  /** Contexts of a meta-block with the first context mode are within their ranges. */
  lemma {:induction false} ItemsInContext(commands: seq<Command>, i: nat, text: seq<byte>, k: nat, context: ContextOf,
                                          x: bool)
    requires AllSized(commands, x) && k + Span(commands, i) <= |text| && i <= |commands|
    requires forall a, b :: context(a, b) < 64
    ensures AllInContext(ItemsFrom(commands, i, text, k, context, x))
    decreases |commands| - i
  {
    hide Command.CopyLen, Command.HasDistance, Command.DistanceCode, Command.CopyLenCode, ExtraBitsOf, LiteralItems,
      Command.DistanceExtraBits, Command.DistanceContext;
    if i < |commands| {
      var c := commands[i];
      ItemsInContext(commands, i + 1, text, k + c.insertLen + c.CopyLen(), context, x);
      LiteralsInContext(text, k, c.insertLen, context);
    }
  }

  lemma {:induction false} LiteralsInContext(text: seq<byte>, k: nat, n: nat, context: ContextOf)
    requires k + n <= |text| && forall a, b :: context(a, b) < 64
    ensures AllInContext(LiteralItems(text, k, n, context))
    decreases n
  {
    hide Previous;
    if n > 0 { LiteralsInContext(text, k + 1, n - 1, context); }
  }

  lemma {:induction false} DistancesWithin(commands: seq<Command>, i: nat)
    requires i <= |commands|
    ensures DistanceTotal(commands, i) <= |commands| - i && InsertTotal(commands, i) <= Span(commands, i)
    decreases |commands| - i
  {
    hide Command.CopyLen, Command.HasDistance;
    if i < |commands| { DistancesWithin(commands, i + 1); }
  }

  // ------------------------------------------------------------------------ the job

  /** The counts of one stream of the job. */
  ghost function StreamCounts(job: Job, stream: Stream, n: nat): (counts: seq<nat>)
    requires job.Consistent()
    ensures |counts| == n
  {
    Tally(n, multiset(StreamFrom(job.commands, 0, job.text, |job.history|, stream)))
  }

  ghost function SimpleParts(job: Job): Parts
    requires job.Consistent()
  {
    LoneParts(StreamCounts(job, LiteralStream, NUM_LITERAL_SYMBOLS),
              StreamCounts(job, CommandStream, NUM_COMMAND_SYMBOLS),
              StreamCounts(job, DistanceStream, NUM_HISTOGRAM_DISTANCE_SYMBOLS), job.params)
  }

  /** What is built for each stream of the job. */
  ghost function SimpleStored(job: Job, stream: Stream): StoredCode
    requires job.Consistent()
  {
    var h := job.dec.huffman;
    match stream
    case LiteralStream =>
      h.build(StreamCounts(job, stream, NUM_LITERAL_SYMBOLS)[..NUM_LITERAL_SYMBOLS], NUM_LITERAL_SYMBOLS)
    case CommandStream =>
      h.build(StreamCounts(job, stream, NUM_COMMAND_SYMBOLS)[..NUM_COMMAND_SYMBOLS], NUM_COMMAND_SYMBOLS)
    case DistanceStream =>
      h.build(StreamCounts(job, stream, NUM_HISTOGRAM_DISTANCE_SYMBOLS)[..MAX_SIMPLE_DISTANCE_ALPHABET_SIZE],
              job.params.alphabetSizeMax)
  }

  ghost function SimpleCodes(job: Job): Codes
    requires job.Consistent()
  {
    Codes(SimpleStored(job, LiteralStream).code, SimpleStored(job, CommandStream).code,
          SimpleStored(job, DistanceStream).code)
  }

  ghost function SimpleTables(job: Job): Tables
    requires job.Consistent()
  {
    var l, c, d := SimpleStored(job, LiteralStream), SimpleStored(job, CommandStream),
        SimpleStored(job, DistanceStream);
    Tables(l.depth, l.pattern, c.depth, c.pattern, d.depth, d.pattern)
  }

  lemma SimpleAlphabet(large: bool)
    ensures DistanceAlphabet(large, 0, 0) == if large then 140 else 64
    ensures Legal(0, 0)
  {
    LowSmall(0, 0);
    assert Shl(24, 1) == 2 * Shl(24, 0) && Shl(62, 1) == 2 * Shl(62, 0);
  }

  /** The three codes cover the symbols of the job and are those of its parts. */
  lemma SimplePartsValid(job: Job)
    requires Simple(job)
    ensures Storable(job.dec.huffman, SimpleParts(job), job.params)
    ensures CodesPrefixFree(SimpleCodes(job)) && SimpleTables(job).Hold(SimpleCodes(job))
    ensures SimpleParts(job).Plans(job.dec.huffman) == LonePlans(SimpleCodes(job))
    ensures forall s :: s in StreamFrom(job.commands, 0, job.text, |job.history|, LiteralStream) ==>
            s in SimpleCodes(job).literal.symbols
    ensures forall s :: s in StreamFrom(job.commands, 0, job.text, |job.history|, CommandStream) ==>
            s in SimpleCodes(job).command.symbols
    ensures forall s :: s in StreamFrom(job.commands, 0, job.text, |job.history|, DistanceStream) ==>
            s in SimpleCodes(job).distance.symbols
  {
    hide Describes, StreamFrom, Span, Huffman.Valid, Legal, DistanceAlphabet, PrefixCode.PrefixFree, Part.Valid,
      Part.Coded, LoneCoding, AllSized, InAlphabets;
    var h, parts := job.dec.huffman, SimpleParts(job);
    SimpleAlphabet(job.dec.large);
    StreamBounds(job.commands, 0, job.text, |job.history|, MAX_SIMPLE_DISTANCE_ALPHABET_SIZE);
    StreamBounds(job.commands, 0, job.text, |job.history|, job.params.alphabetSizeMax);
    NoneCountedPast(StreamFrom(job.commands, 0, job.text, |job.history|, DistanceStream),
                    NUM_HISTOGRAM_DISTANCE_SYMBOLS, job.params.alphabetSizeMax);
    LonePartValid(h, parts.literal.histograms[0], LITERAL_CONTEXT_BITS, NUM_LITERAL_SYMBOLS, NUM_LITERAL_SYMBOLS);
    LonePartValid(h, parts.command.histograms[0], 0, NUM_COMMAND_SYMBOLS, NUM_COMMAND_SYMBOLS);
    LonePartValid(h, parts.distance.histograms[0], DISTANCE_CONTEXT_BITS, MAX_SIMPLE_DISTANCE_ALPHABET_SIZE,
                  job.params.alphabetSizeMax);
    CountedSymbols(StreamFrom(job.commands, 0, job.text, |job.history|, LiteralStream), NUM_LITERAL_SYMBOLS);
    CountedSymbols(StreamFrom(job.commands, 0, job.text, |job.history|, CommandStream), NUM_COMMAND_SYMBOLS);
    CountedSymbols(StreamFrom(job.commands, 0, job.text, |job.history|, DistanceStream),
                   NUM_HISTOGRAM_DISTANCE_SYMBOLS);
  }

  lemma CountedSymbols(symbols: seq<nat>, n: nat)
    ensures forall s :: s in symbols && s < n ==> Tally(n, multiset(symbols))[s] > 0
  {
  }

  lemma NoneCountedPast(symbols: seq<nat>, n: nat, bound: nat)
    requires forall s :: s in symbols ==> s < bound
    ensures forall s :: bound <= s < n ==> Tally(n, multiset(symbols))[s] == 0
  {
    forall s | bound <= s < n
      ensures Tally(n, multiset(symbols))[s] == 0
    {
      assert s in multiset(symbols) <==> s in symbols;
    }
  }

  /** Storing the items with the three codes emits exactly what the block form does. */
  lemma SimpleIsWritable(job: Job)
    requires Simple(job)
    ensures Storable(job.dec.huffman, SimpleParts(job), job.params)
    ensures SimpleCodes(job).HasAll(job.Items()) && SimpleTables(job).Hold(SimpleCodes(job))
    ensures AllWritable(SimpleParts(job).Plans(job.dec.huffman), job.Items(), Counters(0, 0, 0))
    ensures Emit(SimpleParts(job).Plans(job.dec.huffman), job.Items(), Counters(0, 0, 0))
            == SimpleCodes(job).Words(job.Items())
  {
    hide Describes, StreamFrom, Span, Huffman.Valid, Legal, DistanceAlphabet, CodesPrefixFree, ItemsFrom, SymbolsOf,
      AllWritable, Emit, Codes.HasAll, Codes.Words, LonePlans, SimpleParts, SimpleCodes, Storable, AllRawFit,
      AllInContext, AllFine, InAlphabets, AllSized, SimpleTables, Tables.Hold;
    var context, k := AtMode(job.dec.contexts, 0), |job.history|;
    var codes, items := SimpleCodes(job), job.Items();
    SimplePartsValid(job);
    DescribedAreFine(job.commands, 0, job.params, job.x, job.ring, job.after, job.dec.window, job.text, k);
    FineFieldsFit(job.commands, 0, job.text, k, context, job.x);
    ItemsInContext(job.commands, 0, job.text, k, context, job.x);
    ItemStreams(job.commands, 0, job.text, k, context, job.x, LiteralStream);
    ItemStreams(job.commands, 0, job.text, k, context, job.x, CommandStream);
    ItemStreams(job.commands, 0, job.text, k, context, job.x, DistanceStream);
    StreamTotals(job.commands, 0, job.text, k);
    DistancesWithin(job.commands, 0);
    forall stream, s | s in SymbolsOf(items, stream)
      ensures s in codes.Of(stream).symbols
    {
      match stream case LiteralStream => case CommandStream => case DistanceStream =>
    }
    CountedAreCoded(codes, items);
    LoneEmit(codes, items, Counters(0, 0, 0));
  }

  ghost function SimpleBits(job: Job, last: bool): bits
    requires Simple(job)
  {
    SimpleIsWritable(job);
    MetaBlockBits(job.dec.huffman, SimpleParts(job), job.params, 0, last, |job.text| - |job.history|, job.Items())
  }

  /** What `store_meta_block_trivial` writes decodes, after any earlier output, to the text. */
  lemma SimpleRoundTrip(job: Job, last: bool, pos: nat, rest: bits)
    requires Simple(job)
    ensures ReadMetaBlock(job.dec, pos, job.ring, job.history, SimpleBits(job, last) + rest)
         == Got(Decoded(last, job.after, job.text), rest)
  {
    hide ItemsFrom, AllWritable, Describes, Part.Valid, Legal, DistanceAlphabet, Span, AtMode, MetaBlockBits,
      ReadMetaBlock, Storable, SimpleParts, SimpleCodes, InAlphabets, AllSized;
    SimpleIsWritable(job);
    MetaBlockRoundTrip(job.dec, SimpleParts(job), job.params, 0, last, job.commands, job.x, job.ring, job.after,
                       job.history, job.text, pos, rest);
  }

  // ----------------------------------------------------------------------- the writer

  /** The counts of a histogram that started empty. */
  lemma HistogramCounts(data: seq<nat>, m: multiset<nat>)
    requires Tallies(data, 0, m)
    ensures data == Tally(|data|, m)
  {
  }

  /** `store_meta_block_trivial`. */
  method StoreMetaBlockTrivial(h: Huffman, input: seq<byte>, startPos: nat, length: nat, mask: nat, isLast: bool,
                               params: DistanceParams, commands: seq<Command>, x: bool, ghost job: Job, w: BitWriter)
    requires w.Valid() && Simple(job)
    requires h == job.dec.huffman && params == job.params && commands == job.commands && x == job.x
    requires job.text == job.history + Window(input, mask, startPos, length)
    modifies w, w.storage
    ensures w.Valid()
    ensures w.contents == if isLast then Padded(old(w.contents) + SimpleBits(job, true))
            else old(w.contents) + SimpleBits(job, false)
    ensures old(w.overflowed) ==> w.overflowed
    ensures !old(w.overflowed) && w.Roomy() ==> w.Kept()
  {
    hide Represents, CompressedHeaderBits, Part.Valid, Window, AtMode, Padded, Job.Consistent, Job.Items, SimpleBits,
      SimpleCodes, Simple, ToBits, SimpleCodeBits, Codes.Words, Codes.HasAll, AllSized, ItemsFrom, Span, StreamCounts,
      InAlphabets, Tables.Hold, SimpleTables;
    ghost var c0 := w.contents;
    SimplePieces(job, isLast, input, mask, startPos, length);
    var tables := StoreSimpleHeader(h, input, startPos, length, mask, isLast, params, commands, job, w);
    StoreDataWithHuffmanCodes(input, startPos, mask, commands, x, tables, SimpleCodes(job), job.history,
                              AtMode(job.dec.contexts, 0), w);
    assert w.contents == c0 + SimpleBits(job, isLast);
    PaddedLength(w.contents);
    ghost var c1 := w.contents;
    if isLast {
      w.JumpToByteBoundary();
    }
    assert |c1| <= |w.contents|;
    if !w.overflowed { StaysKept(w); }
  }

  /** The descriptions of the three codes. */
  ghost function SimpleCodeBits(job: Job): bits
    requires job.Consistent()
  {
    SimpleStored(job, LiteralStream).description
    + (SimpleStored(job, CommandStream).description + SimpleStored(job, DistanceStream).description)
  }

  method StoreSimpleCodes(h: Huffman, literals: seq<nat>, lengths: seq<nat>, distances: seq<nat>,
                          params: DistanceParams, ghost job: Job, w: BitWriter) returns (tables: Tables)
    requires w.Valid() && job.Consistent() && h == job.dec.huffman && params == job.params
    requires literals == StreamCounts(job, LiteralStream, NUM_LITERAL_SYMBOLS)
    requires lengths == StreamCounts(job, CommandStream, NUM_COMMAND_SYMBOLS)
    requires distances == StreamCounts(job, DistanceStream, NUM_HISTOGRAM_DISTANCE_SYMBOLS)
    modifies w, w.storage
    ensures w.Valid() && w.contents == old(w.contents) + SimpleCodeBits(job) && tables == SimpleTables(job)
    ensures old(w.overflowed) ==> w.overflowed
    ensures !old(w.overflowed) && w.Roomy() ==> !w.overflowed
  {
    hide Represents, StreamCounts, Job.Consistent;
    var literal := BuildAndStoreHuffmanTree(h, literals[..NUM_LITERAL_SYMBOLS], NUM_LITERAL_SYMBOLS, w);
    var command := BuildAndStoreHuffmanTree(h, lengths[..NUM_COMMAND_SYMBOLS], NUM_COMMAND_SYMBOLS, w);
    var distance := BuildAndStoreHuffmanTree(h, distances[..MAX_SIMPLE_DISTANCE_ALPHABET_SIZE], params.alphabetSizeMax,
                                             w);
    tables := Tables(literal.depth, literal.pattern, command.depth, command.pattern, distance.depth, distance.pattern);
  }

  /** Everything before the data. */
  method StoreSimpleHeader(h: Huffman, input: seq<byte>, startPos: nat, length: nat, mask: nat, isLast: bool,
                           params: DistanceParams, commands: seq<Command>, ghost job: Job,
                           w: BitWriter) returns (tables: Tables)
    requires w.Valid() && job.Consistent() && 1 <= length <= MAX_MLEN && Span(commands, 0) == length
    requires h == job.dec.huffman && params == job.params && commands == job.commands
    requires InAlphabets(commands, MAX_SIMPLE_DISTANCE_ALPHABET_SIZE)
    requires job.text == job.history + Window(input, mask, startPos, length)
    modifies w, w.storage
    ensures w.Valid() && tables == SimpleTables(job)
    ensures w.contents == old(w.contents) + CompressedHeaderBits(isLast, length) + ToBits(13, 0) + SimpleCodeBits(job)
    ensures old(w.overflowed) ==> w.overflowed
    ensures !old(w.overflowed) && w.Roomy() ==> !w.overflowed
  {
    hide Represents, CompressedHeaderBits, Window, Job.Consistent, SimpleTables, ToBits, SimpleCodeBits, Span,
      StreamCounts, InAlphabets;
    StoreCompressedMetaBlockHeader(isLast, length, w);
    var literals, lengths, distances := CountStreams(input, startPos, mask, commands, job);
    PowPositive(13);
    w.Write(13, 0);
    tables := StoreSimpleCodes(h, literals, lengths, distances, params, job, w);
  }

  lemma PowPositive(n: nat)
    ensures 0 < Pow2(n)
  {
  }

  lemma NoneBefore(m: multiset<nat>)
    ensures multiset{} + m == m
  {
  }

  /** The counting pass. */
  method CountStreams(input: seq<byte>, startPos: nat, mask: nat, commands: seq<Command>, ghost job: Job)
    returns (literals: seq<nat>, lengths: seq<nat>, distances: seq<nat>)
    requires job.Consistent() && commands == job.commands && InAlphabets(commands, MAX_SIMPLE_DISTANCE_ALPHABET_SIZE)
    requires job.text == job.history + Window(input, mask, startPos, Span(commands, 0))
    ensures literals == StreamCounts(job, LiteralStream, NUM_LITERAL_SYMBOLS)
    ensures lengths == StreamCounts(job, CommandStream, NUM_COMMAND_SYMBOLS)
    ensures distances == StreamCounts(job, DistanceStream, NUM_HISTOGRAM_DISTANCE_SYMBOLS)
  {
    hide Window, Job.Consistent, Span, StreamFrom, Tally, Tallies;
    var literalHisto := new Histogram(NUM_LITERAL_SYMBOLS);
    var commandHisto := new Histogram(NUM_COMMAND_SYMBOLS);
    var distanceHisto := new Histogram(NUM_HISTOGRAM_DISTANCE_SYMBOLS);
    BuildHistograms(input, startPos, mask, commands, literalHisto, commandHisto, distanceHisto);
    ghost var text := Window(input, mask, startPos, Span(commands, 0));
    StreamShift(commands, 0, job.history, text, 0, LiteralStream);
    StreamShift(commands, 0, job.history, text, 0, CommandStream);
    StreamShift(commands, 0, job.history, text, 0, DistanceStream);
    NoneBefore(multiset(StreamFrom(commands, 0, text, 0, LiteralStream)));
    NoneBefore(multiset(StreamFrom(commands, 0, text, 0, CommandStream)));
    NoneBefore(multiset(StreamFrom(commands, 0, text, 0, DistanceStream)));
    HistogramCounts(literalHisto.data[..], literalHisto.counted);
    HistogramCounts(commandHisto.data[..], commandHisto.counted);
    HistogramCounts(distanceHisto.data[..], distanceHisto.counted);
    literals, lengths, distances := literalHisto.data[..], commandHisto.data[..], distanceHisto.data[..];
  }

  /** What storing the job needs, and the pieces its bits consist of. */
  lemma SimplePieces(job: Job, last: bool, input: seq<byte>, mask: nat, start: nat, length: nat)
    requires Simple(job) && job.text == job.history + Window(input, mask, start, length)
    ensures 1 <= length <= MAX_MLEN && AllSized(job.commands, job.x) && Span(job.commands, 0) == length
            && job.Consistent()
    ensures InAlphabets(job.commands, MAX_SIMPLE_DISTANCE_ALPHABET_SIZE)
    ensures var items := ItemsFrom(job.commands, 0, job.history + Window(input, mask, start, length), |job.history|,
                                   AtMode(job.dec.contexts, 0), job.x);
            && SimpleCodes(job).HasAll(items) && SimpleTables(job).Hold(SimpleCodes(job))
            && SimpleBits(job, last)
               == CompressedHeaderBits(last, length)
                   + (ToBits(13, 0) + (SimpleCodeBits(job) + SimpleCodes(job).Words(items)))
  {
    hide Window, CompressedHeaderBits, AllWritable, Emit, ItemsFrom, Describes, Part.Valid, Legal, Span, AllSized,
      InAlphabets, AtMode, DistanceAlphabet, SplitsBits, ContextBits, Codes.Words, Codes.HasAll, StreamCounts,
      CodesBits, ToBits, SimpleTables, Tables.Hold;
    var h, parts := job.dec.huffman, SimpleParts(job);
    SimpleIsWritable(job);
    ThirteenZeros(h, parts, job.params);
    LoneDescriptions(h, parts);
  }

  lemma LoneDescriptions(h: Huffman, parts: Parts)
    requires parts.Valid(h)
    requires |parts.literal.histograms| == 1 && |parts.command.histograms| == 1 && |parts.distance.histograms| == 1
    requires |parts.literal.histograms[0]| >= parts.literal.length
             && |parts.command.histograms[0]| >= parts.command.length
    requires |parts.distance.histograms[0]| >= parts.distance.length
    ensures CodesBits(h, parts)
         == h.build(parts.literal.histograms[0][..parts.literal.length], parts.literal.alphabet).description
            + (h.build(parts.command.histograms[0][..parts.command.length], parts.command.alphabet).description
               + h.build(parts.distance.histograms[0][..parts.distance.length], parts.distance.alphabet).description)
  {
    hide Part.Valid;
    LoneDescription(h, parts.literal);
    LoneDescription(h, parts.command);
    LoneDescription(h, parts.distance);
  }

  lemma LoneDescription(h: Huffman, part: Part)
    requires part.Valid(h) && |part.histograms| == 1
    ensures |part.histograms[0]| >= part.length
    ensures PartCodeBits(h, part) == h.build(part.histograms[0][..part.length], part.alphabet).description
  {
    hide BlockSplit.Valid, Huffman.Valid;
    assert DescriptionsFrom(h, part.histograms, part.length, part.alphabet, 1) == [];
  }

  // ------------------------------------------------------------------ what the contract covers

  /** For any three prefix-free codes that cover them, the items of commands that describe a text are
      read back as that text. */
  lemma PlainDataRoundTrip(codes: Codes, params: DistanceParams, contexts: ModeContext, commands: seq<Command>, x: bool,
                           ring: Ring, after: Ring, window: nat, history: seq<byte>, text: seq<byte>, rest: bits)
    requires CodesPrefixFree(codes) && forall a, b :: contexts(0, a, b) < 64
    requires history <= text && |text| - |history| <= MAX_MLEN
    requires AllSized(commands, x) && |history| + Span(commands, 0) <= |text|
    requires Describes(commands, 0, params, x, ring, after, window, text, |history|)
    requires codes.HasAll(ItemsFrom(commands, 0, text, |history|, AtMode(contexts, 0), x))
    ensures AllWithin(LonePlans(codes), Counters(0, 0, 0))
    ensures ReadData(HeaderOf(LonePlans(codes), 0, params), contexts, window, |text|,
                     Progress(BlocksAt(LonePlans(codes), Counters(0, 0, 0)), ring, history),
                     codes.Words(ItemsFrom(commands, 0, text, |history|, AtMode(contexts, 0), x)) + rest)
         == Got((after, text), rest)
  {
    hide Describes, StreamFrom, Span, CodesPrefixFree, ItemsFrom, SymbolsOf, AllWritable, Emit, Codes.HasAll,
      Codes.Words, LonePlans, AllInContext, AllFine, AllSized, HeaderOf, ReadData, StateAt;
    var context, k, zero := AtMode(contexts, 0), |history|, Counters(0, 0, 0);
    var items := ItemsFrom(commands, 0, text, k, context, x);
    DescribedAreFine(commands, 0, params, x, ring, after, window, text, k);
    ItemsInContext(commands, 0, text, k, context, x);
    ItemStreams(commands, 0, text, k, context, x, LiteralStream);
    ItemStreams(commands, 0, text, k, context, x, CommandStream);
    ItemStreams(commands, 0, text, k, context, x, DistanceStream);
    StreamTotals(commands, 0, text, k);
    DistancesWithin(commands, 0);
    LoneEmit(codes, items, zero);
    LoneWithin(codes);
    assert text[..k] == history;
    DataRoundTrip(LonePlans(codes), 0, params, contexts, commands, 0, x, ring, after, window, text, k, zero, rest);
  }

  lemma LoneWithin(codes: Codes)
    requires CodesPrefixFree(codes)
    ensures AllWithin(LonePlans(codes), Counters(0, 0, 0))
  {
    hide PrefixCode.PrefixFree;
    LoneCodingComplete(codes.literal, 6);
  }

  /** A job that only inserts: there is one for every text of a length a meta-block can declare, so
      the writer's precondition can always be met. */
  function LiteralJob(dec: Decoder, params: DistanceParams, mb: MetaBlockSplit, history: seq<byte>, data: seq<byte>,
                      ring: Ring, x: bool): Job {
    Job(dec, params, 0, [InsertOnly(|data|)], x, mb, history, history + data, ring, ring)
  }

  lemma LiteralJobIsSimple(dec: Decoder, params: DistanceParams, mb: MetaBlockSplit, history: seq<byte>,
                           data: seq<byte>, ring: Ring, x: bool)
    requires dec.huffman.Valid() && 1 <= |data| <= MAX_MLEN && forall a, b :: dec.contexts(0, a, b) < 64
    requires params.postfixBits == 0 && params.numDirect == 0
             && params.alphabetSizeMax == DistanceAlphabet(dec.large, 0, 0)
    ensures Simple(LiteralJob(dec, params, mb, history, data, ring, x))
  {
    hide Pow2, Shl, Shr, Low, BitOr, BitAnd, Log2, LengthCode, DistanceAlphabet, Command.CopyLenCode, Huffman.Valid;
    var job, c := LiteralJob(dec, params, mb, history, data, ring, x), InsertOnly(|data|);
    InsertOnlyIsTrailing(|data|, x);
    assert job.commands[0] == c && |job.commands| == 1;
    assert Span(job.commands, 1) == 0;
    TrailingSymbol(c, x);
  }

  lemma TrailingSymbol(c: Command, x: bool)
    requires Trailing(c, x)
    ensures c.cmdPrefix < NUM_COMMAND_SYMBOLS && Sized(c, x) && !c.HasDistance() && c.CopyLen() == 0
  {
    hide Pow2, Shl, Shr, Low, BitOr, BitAnd, Log2, CombineLengthCodes, InsertLengthCode, CopyLengthCode,
      Command.CopyLenCode, Command.CopyLen;
    InsertBelow(c.insertLen);
    CopyBelow(c.CopyLenCode(x));
    CommandSymbolRoundTrip(InsertLengthCode(c.insertLen), CopyLengthCode(c.CopyLenCode(x)), false);
  }
}
