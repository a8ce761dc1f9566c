/** A whole compressed meta-block: what describes it (src/shared/metablock.rs), the bits it is
    written as (src/shared/bitstream.rs), and the reader of section 9.2 of RFC 7932. */
module MetaBlocks {
  import opened Bits
  import opened BitWriting
  import opened BlockEncoders
  import opened BlockSplits
  import opened Commands
  import opened ContextMaps
  import opened DataWriting
  import opened Decoding
  import opened Distances
  import opened PackedCommands
  import opened PrefixCodes
  import opened SymbolStreams

  const LITERAL_CONTEXT_BITS := 6
  const DISTANCE_CONTEXT_BITS := 2

  // --------------------------------------------------------------------- descriptions

  /** One stream of a meta-block: its blocks, its histograms, and the map that picks among them,
      empty when every block type has its own. */
  datatype Part = Part(split: BlockSplit, histograms: seq<seq<nat>>, contextMap: seq<nat>, contextBits: nat,
                       length: nat, alphabet: nat) {
    ghost predicate Valid(h: Huffman) {
      && h.Valid() && split.Valid() && AllCodable(h, histograms, length, alphabet)
      && 1 <= |histograms| <= MAX_CLUSTERS
      && if contextMap == [] then |histograms| == split.numTypes
         else |contextMap| == Shl(split.numTypes, contextBits) && forall v :: v in contextMap ==> v < |histograms|
    }

    /** The map a decoder applies. */
    ghost function Map(): seq<nat> {
      if contextMap == [] then TrivialMap(split.numTypes, contextBits) else contextMap
    }

    /** What the decoder knows once it has read the header. */
    ghost function Coded(h: Huffman): Coding
      requires Valid(h)
    {
      var header := SplitHeaderOf(h, split);
      Coding(split.numTypes, header.typeCode, header.lengthCode, contextBits, Map(),
             StreamCodes(h, histograms, length, alphabet))
    }

    /** The `j`th symbol of the stream was counted in the histogram it will be coded from. */
    ghost predicate Counts(j: nat, symbol: nat, context: nat) {
      && split.Valid() && j < split.Total() && context < Pow2(contextBits) && symbol < length
      && var t := HistogramOf(KindAt(split, j), context);
         t < |histograms| && symbol < |histograms[t]| && histograms[t][symbol] > 0
    }

    /** The histogram of a block type and a context. */
    function HistogramOf(kind: nat, context: nat): nat {
      if contextMap == [] then kind
      else if Shl(kind, contextBits) + context < |contextMap| then contextMap[Shl(kind, contextBits) + context]
      else 0
    }
  }

  datatype Parts = Parts(literal: Part, command: Part, distance: Part) {
    ghost predicate Valid(h: Huffman) {
      literal.Valid(h) && command.Valid(h) && distance.Valid(h)
    }

    ghost function Plans(h: Huffman): Plans
      requires Valid(h)
    {
      DataWriting.Plans(Plan(literal.split, literal.Coded(h)), Plan(command.split, command.Coded(h)),
                        Plan(distance.split, distance.Coded(h)))
    }

    function Of(stream: Stream): Part {
      match stream
      case LiteralStream => literal
      case CommandStream => command
      case DistanceStream => distance
    }
  }

  /** `MetaBlockSplit`. */
  datatype MetaBlockSplit = MetaBlockSplit(literalSplit: BlockSplit, commandSplit: BlockSplit,
                                           distanceSplit: BlockSplit, literalContextMap: seq<nat>,
                                           distanceContextMap: seq<nat>, literalHistograms: seq<seq<nat>>,
                                           commandHistograms: seq<seq<nat>>, distanceHistograms: seq<seq<nat>>) {
    function Streams(params: DistanceParams): Parts {
      Parts(Part(literalSplit, literalHistograms, literalContextMap, LITERAL_CONTEXT_BITS, NUM_LITERAL_SYMBOLS,
                 NUM_LITERAL_SYMBOLS),
            Part(commandSplit, commandHistograms, [], 0, NUM_COMMAND_SYMBOLS, NUM_COMMAND_SYMBOLS),
            Part(distanceSplit, distanceHistograms, distanceContextMap, DISTANCE_CONTEXT_BITS, params.alphabetSizeLimit,
                 params.alphabetSizeMax))
    }
  }

  /** Every symbol was counted where it is needed. */
  ghost predicate AllCounted(parts: Parts, items: seq<Item>, js: Counters)
    decreases |items|
  {
    |items| == 0
    || ((items[0].Symbol? ==> parts.Of(items[0].stream).Counts(js.Of(items[0].stream), items[0].symbol,
                                                               items[0].context))
        && AllCounted(parts, items[1..], js.After(items[0])))
  }

  predicate RawFits(item: Item) {
    item.Raw? ==> item.n <= MAX_BITS_PER_WRITE && item.v < Pow2(item.n)
  }

  lemma TrivialMapFits(numTypes: nat, contextBits: nat)
    ensures forall i :: 0 <= i < |TrivialMap(numTypes, contextBits)| ==> TrivialMap(numTypes, contextBits)[i] < numTypes
  {
    hide Shl, Shr, Low, Pow2;
    forall i | 0 <= i < |TrivialMap(numTypes, contextBits)|
      ensures TrivialMap(numTypes, contextBits)[i] < numTypes
    {
      LowShr(i, contextBits);
      if Shr(i, contextBits) >= numTypes { ShlMonotone(numTypes, Shr(i, contextBits), contextBits); }
    }
  }

  /** The codes built from the part cover its switches and complete its map. */
  lemma PartCompletes(h: Huffman, part: Part)
    requires part.Valid(h)
    ensures Switchable(part.split, part.Coded(h)) && part.Coded(h).Complete()
    ensures part.contextMap == [] ==> Trivial(part.Coded(h))
  {
    hide Shl, Shr, Pow2, PrefixCode.PrefixFree, TypeStored, LengthStored, TypeCode, LengthSymbol, BlockSplit.SwitchCode;
    StoredCodesCover(h, part.split);
    TrivialMapFits(part.split.numTypes, part.contextBits);
    forall i | 0 <= i < |part.Map()|
      ensures part.Map()[i] < |part.histograms|
    {
      assert part.Map()[i] in part.Map();
    }
    forall t | 0 <= t < |part.histograms|
      ensures StreamCodes(h, part.histograms, part.length, part.alphabet)[t].PrefixFree()
    {
      StreamCodesCover(h, part.histograms, part.length, part.alphabet, t);
    }
  }

  lemma CountedIsEncodable(h: Huffman, part: Part, j: nat, symbol: nat, context: nat)
    requires part.Valid(h) && part.Counts(j, symbol, context)
    ensures Encodable(part.split, part.Coded(h), j, symbol, context)
  {
    hide Shl, Shr, Pow2, PrefixCode.PrefixFree, Switchable, Coding.Complete, SplitHeaderOf, TrivialMap, KindAt,
      BlockSplit.Valid, BlockSplit.Total, StreamCodes, Part.Valid;
    var coding := part.Coded(h);
    PartCompletes(h, part);
    PartTree(h, part, KindAt(part.split, j), context);
    StreamCodesCover(h, part.histograms, part.length, part.alphabet, part.HistogramOf(KindAt(part.split, j), context));
  }

  /** The tree of a block type and context is the code of its histogram. */
  lemma PartTree(h: Huffman, part: Part, kind: nat, context: nat)
    requires part.Valid(h) && kind < part.split.numTypes && context < Pow2(part.contextBits)
    ensures h.Valid() && AllCodable(h, part.histograms, part.length, part.alphabet) && part.Coded(h).Complete()
    ensures part.HistogramOf(kind, context) < |part.histograms|
    ensures part.Coded(h).Tree(kind, context)
         == StreamCodes(h, part.histograms, part.length, part.alphabet)[part.HistogramOf(kind, context)]
  {
    hide Shl, Shr, Pow2, PrefixCode.PrefixFree, SplitHeaderOf, StreamCodes, Switchable;
    PartCompletes(h, part);
    ContextInMap(kind, part.split.numTypes, context, part.contextBits);
    Compose(context, kind, part.contextBits);
  }

  /** Counted symbols and fields that fit make every item writable. */
  lemma {:induction false} CountedIsWritable(h: Huffman, parts: Parts, items: seq<Item>, js: Counters)
    requires parts.Valid(h) && AllCounted(parts, items, js) && forall i :: 0 <= i < |items| ==> RawFits(items[i])
    ensures AllWritable(parts.Plans(h), items, js)
    decreases |items|
  {
    hide Part.Valid, Part.Counts, Part.Coded, Encodable, Pow2;
    if |items| > 0 {
      var item := items[0];
      assert RawFits(item);
      if item.Symbol? {
        CountedIsEncodable(h, parts.Of(item.stream), js.Of(item.stream), item.symbol, item.context);
      }
      assert Writable(parts.Plans(h), item, js);
      assert forall i :: 0 <= i < |items[1..]| ==> items[1..][i] == items[i + 1];
      CountedIsWritable(h, parts, items[1..], js.After(item));
    }
  }

  // ------------------------------------------------------------- commands that describe

  /** What writing a command needs of it. */
  ghost predicate Fine(c: Command, x: bool) {
    && Sized(c, x) && c.CopyLen() != 1
    && (c.HasDistance() ==> c.DistanceExtraBits() <= 29 && c.distExtra < Pow2(c.DistanceExtraBits()))
  }

  ghost predicate AllFine(commands: seq<Command>, i: nat, x: bool) {
    forall j :: i <= j < |commands| ==> Fine(commands[j], x)
  }

  /** Commands that describe a text cover it, one byte or more each, and can be written. */
  lemma {:induction false} DescribedAreFine(commands: seq<Command>, i: nat, params: DistanceParams, x: bool, ring: Ring,
                                            after: Ring, window: nat, text: seq<byte>, k: nat)
    requires Describes(commands, i, params, x, ring, after, window, text, k) && i <= |commands|
    ensures AllFine(commands, i, x) && k + Span(commands, i) == |text| && |commands| - i <= Span(commands, i)
    decreases |commands| - i
  {
    hide Pow2, Command.CopyLenCode, Command.CopyLen, Command.HasDistance, Command.DistanceCode, ExtraBits,
      Command.DistanceExtraBits, CommandDistance, Remember, LengthCode, AllFine;
    if i == |commands| {
      NoneLeft(commands, x);
    } else {
      var c := commands[i];
      SpanStep(commands, i);
      if c.CopyLen() == 0 {
        NoneLeft(commands, x);
        FineStep(commands, i, x);
      } else {
        var distance := CommandDistance(c, ring, params.numDirect, params.postfixBits);
        DescribedAreFine(commands, i + 1, params, x, Remember(ring, c.DistanceCode(), distance), after, window, text,
                         k + c.insertLen + c.CopyLen());
        FineStep(commands, i, x);
      }
    }
  }

  lemma NoneLeft(commands: seq<Command>, x: bool)
    ensures AllFine(commands, |commands|, x) && Span(commands, |commands|) == 0
  {
  }

  lemma FineStep(commands: seq<Command>, i: nat, x: bool)
    requires i < |commands| && AllFine(commands, i + 1, x) && LengthsFitSome(commands[i], x)
    requires commands[i].CopyLen() != 1
    requires commands[i].CopyLen() == 0
             || (commands[i].DistanceExtraBits() <= 29 && commands[i].distExtra < Pow2(commands[i].DistanceExtraBits()))
    ensures AllFine(commands, i, x)
  {
    hide Pow2, Command.CopyLenCode, Command.CopyLen, Command.DistanceExtraBits, LengthCode;
    assert Fine(commands[i], x);
  }

  ghost predicate LengthsFitSome(c: Command, x: bool) {
    LengthsFit(c, x, true) || LengthsFit(c, x, false)
  }

  ghost predicate AllRawFit(items: seq<Item>) {
    forall i :: 0 <= i < |items| ==> RawFits(items[i])
  }

  /** The raw fields of fine commands fit the writes they are stored with. */
  lemma {:induction false} FineFieldsFit(commands: seq<Command>, i: nat, text: seq<byte>, k: nat, context: ContextOf,
                                         x: bool)
    requires AllFine(commands, 0, x) && AllSized(commands, x) && i <= |commands| && k + Span(commands, i) <= |text|
    ensures AllRawFit(ItemsFrom(commands, i, text, k, context, x))
    decreases |commands| - i
  {
    hide Pow2, Command.CopyLenCode, Command.CopyLen, Command.HasDistance, LengthItems, LiteralItems, DistanceItems,
      RawFits, Fine;
    if i < |commands| {
      var c := commands[i];
      assert Fine(c, x);
      FineFieldsFit(commands, i + 1, text, k + c.insertLen + c.CopyLen(), context, x);
      LengthFieldsFit(c, x);
      LiteralsRaw(text, k, c.insertLen, context);
      DistanceFieldsFit(c, x);
    }
  }

  lemma LengthFieldsFit(c: Command, x: bool)
    requires Sized(c, x)
    ensures AllRawFit(LengthItems(c, x))
  {
    hide Pow2, Command.CopyLenCode, ExtraBitsOf, ReadLengths, InsertLengthCode, CopyLengthCode, ToBits;
    ReadLengthsInverts(c.insertLen, c.CopyLenCode(x), []);
  }

  lemma {:induction false} LiteralsRaw(text: seq<byte>, k: nat, n: nat, context: ContextOf)
    requires k + n <= |text|
    ensures AllRawFit(LiteralItems(text, k, n, context))
    decreases n
  {
    hide Pow2;
    if n > 0 { LiteralsRaw(text, k + 1, n - 1, context); }
  }

  lemma DistanceFieldsFit(c: Command, x: bool)
    requires Fine(c, x)
    ensures AllRawFit(DistanceItems(c))
  {
    hide Pow2, Command.CopyLenCode, Command.CopyLen, Command.HasDistance, Command.DistanceCode,
      Command.DistanceExtraBits, Command.DistanceContext;
  }

  // ------------------------------------------------------------------------- the header

  /** The context map of a stream, trivial or encoded. */
  ghost function MapBits(h: Huffman, part: Part): bits
    requires part.Valid(h) && 2 <= part.contextBits <= MAX_RUN_LENGTH_PREFIX + 1
  {
    if part.contextMap == [] then
      TrivialWordsFit(|part.histograms|, part.contextBits);
      ContextMapBits(h, TrivialWords(|part.histograms|, part.contextBits), part.contextBits - 1, |part.histograms|)
    else
      EncodedWordsFit(part.contextMap, |part.histograms|);
      ContextMapBits(h, EncodedWords(part.contextMap), EncodedPrefix(part.contextMap), |part.histograms|)
  }

  lemma MapRoundTrip(h: Huffman, part: Part, rest: bits)
    requires part.Valid(h) && 2 <= part.contextBits <= MAX_RUN_LENGTH_PREFIX + 1
    ensures ReadContextMap(h, Shl(part.split.numTypes, part.contextBits), MapBits(h, part) + rest)
         == Got((|part.histograms|, part.Map()), rest)
  {
    hide Shl, Shr, Pow2, TrivialWords, EncodedWords, EncodedPrefix, ReadContextMap, ContextMapBits, MapWords,
      TrivialMap, AllCodable, BlockSplit.Valid, Huffman.Valid;
    if part.contextMap == [] {
      TrivialContextMapRoundTrip(h, part.split.numTypes, part.contextBits, rest);
    } else {
      EncodedContextMapRoundTrip(h, part.contextMap, |part.histograms|, rest);
    }
  }

  /** Context modes, one per literal block type. */
  ghost function ModeBits(mode: nat, n: nat): bits {
    if n == 0 then [] else ToBits(2, mode) + ModeBits(mode, n - 1)
  }

  function ReadModes(n: nat, s: bits): Read<seq<nat>> {
    if n == 0 then Got([], s)
    else
      var (mode, s) :- ReadBits(2, s);
      var (modes, s) :- ReadModes(n - 1, s);
      Got([mode] + modes, s)
  }

  lemma {:induction false} ModesRoundTrip(mode: nat, n: nat, rest: bits)
    requires mode < 4
    ensures ReadModes(n, ModeBits(mode, n) + rest) == Got(Modes(mode, n), rest)
  {
    hide ToBits, Bit, ReadBits;
    if n == 0 {
      assert ModeBits(mode, 0) + rest == rest;
      assert Modes(mode, 0) == [];
    } else {
      assert Pow2(2) == 4;
      assert ModeBits(mode, n) + rest == ToBits(2, mode) + (ModeBits(mode, n - 1) + rest);
      ReadBitsInverts(2, mode, ModeBits(mode, n - 1) + rest);
      ModesRoundTrip(mode, n - 1, rest);
      assert Modes(mode, n) == [mode] + Modes(mode, n - 1);
    }
  }

  ghost function PartCodeBits(h: Huffman, part: Part): bits
    requires part.Valid(h)
  {
    DescriptionsFrom(h, part.histograms, part.length, part.alphabet, 0)
  }

  /** NPOSTFIX, and NDIRECT without the bits NPOSTFIX implies. */
  ghost function DistanceParamBits(params: DistanceParams): bits {
    ToBits(2, params.postfixBits) + ToBits(4, Shr(params.numDirect, params.postfixBits))
  }

  function ReadDistanceParams(s: bits): Read<(nat, nat)> {
    var (postfixBits, s) :- ReadBits(2, s);
    var (field, s) :- ReadBits(4, s);
    Got((postfixBits, Shl(field, postfixBits)), s)
  }

  lemma DistanceParamsRoundTrip(params: DistanceParams, rest: bits)
    requires Legal(params.postfixBits, params.numDirect)
    ensures ReadDistanceParams(DistanceParamBits(params) + rest) == Got((params.postfixBits, params.numDirect), rest)
  {
    hide ToBits, Bit, ReadBits, Shl, Shr, Low;
    Pow2Values();
    LegalDirect(params.postfixBits, params.numDirect);
    var tail := ToBits(4, Shr(params.numDirect, params.postfixBits)) + rest;
    assert DistanceParamBits(params) + rest == ToBits(2, params.postfixBits) + tail;
    ReadBitsInverts(2, params.postfixBits, tail);
    ReadBitsInverts(4, Shr(params.numDirect, params.postfixBits), rest);
  }

  ghost predicate Storable(h: Huffman, parts: Parts, params: DistanceParams) {
    && parts.Valid(h) && Legal(params.postfixBits, params.numDirect)
    && parts.literal.contextBits == LITERAL_CONTEXT_BITS && parts.literal.alphabet == NUM_LITERAL_SYMBOLS
    && parts.command.contextBits == 0 && parts.command.alphabet == NUM_COMMAND_SYMBOLS && parts.command.contextMap == []
    && parts.distance.contextBits == DISTANCE_CONTEXT_BITS && parts.distance.alphabet == params.alphabetSizeMax
  }

  /** Everything between the length of a meta-block and its data: how the streams are split, the
      distance parameters, context modes and context maps, and the prefix codes. */
  ghost function BlockHeaderBits(h: Huffman, parts: Parts, params: DistanceParams, mode: nat): bits
    requires Storable(h, parts, params)
  {
    SplitsBits(h, parts) + (ContextBits(h, parts, params, mode) + CodesBits(h, parts))
  }

  ghost function SplitsBits(h: Huffman, parts: Parts): bits
    requires parts.Valid(h)
  {
    SplitCodeBits(h, parts.literal.split)
        + (SplitCodeBits(h, parts.command.split) + SplitCodeBits(h, parts.distance.split))
  }

  ghost function ContextBits(h: Huffman, parts: Parts, params: DistanceParams, mode: nat): bits
    requires Storable(h, parts, params)
  {
    DistanceParamBits(params)
    + (ModeBits(mode, parts.literal.split.numTypes) + (MapBits(h, parts.literal) + MapBits(h, parts.distance)))
  }

  ghost function CodesBits(h: Huffman, parts: Parts): bits
    requires parts.Valid(h)
  {
    PartCodeBits(h, parts.literal) + (PartCodeBits(h, parts.command) + PartCodeBits(h, parts.distance))
  }

  /** The size of the distance alphabet, for regular and for large windows. */
  function DistanceAlphabet(large: bool, numDirect: nat, postfixBits: nat): nat {
    NUM_DISTANCE_SHORT_CODES + numDirect
        + Shl(if large then LARGE_MAX_DISTANCE_BITS else MAX_DISTANCE_BITS, postfixBits + 1)
  }

  /** RFC 7932, section 9.2: from the first number of block types to the last prefix code. */
  function ReadBlockHeader(h: Huffman, large: bool, s: bits): Read<(DataHeader, Blocks)> {
    var (l, s) :- ReadSplitHeader(h, s);
    var (c, s) :- ReadSplitHeader(h, s);
    var (d, s) :- ReadSplitHeader(h, s);
    var (params, s) :- ReadDistanceParams(s);
    var (modes, s) :- ReadModes(l.numTypes, s);
    var (literalMap, s) :- ReadContextMap(h, Shl(l.numTypes, LITERAL_CONTEXT_BITS), s);
    var (distanceMap, s) :- ReadContextMap(h, Shl(d.numTypes, DISTANCE_CONTEXT_BITS), s);
    var (literalCodes, s) :- ReadCodes(h, literalMap.0, NUM_LITERAL_SYMBOLS, s);
    var (commandCodes, s) :- ReadCodes(h, c.numTypes, NUM_COMMAND_SYMBOLS, s);
    var (distanceCodes, s) :- ReadCodes(h, distanceMap.0, DistanceAlphabet(large, params.1, params.0), s);
    Got((DataHeader(
           Coding(l.numTypes, l.typeCode, l.lengthCode, LITERAL_CONTEXT_BITS, literalMap.1, literalCodes),
           Coding(c.numTypes, c.typeCode, c.lengthCode, 0, Iota(c.numTypes), commandCodes),
           Coding(d.numTypes, d.typeCode, d.lengthCode, DISTANCE_CONTEXT_BITS, distanceMap.1, distanceCodes),
           modes, params.1, params.0),
         Blocks(l.st, c.st, d.st)), s)
  }

  /** The decoder recovers the codings, the context modes, the distance parameters, and the state in
      which each stream starts. */
  lemma BlockHeaderRoundTrip(h: Huffman, parts: Parts, params: DistanceParams, mode: nat, large: bool, rest: bits)
    requires Storable(h, parts, params) && mode < 4
    requires params.alphabetSizeMax == DistanceAlphabet(large, params.numDirect, params.postfixBits)
    ensures AllWithin(parts.Plans(h), Counters(0, 0, 0))
    ensures ReadBlockHeader(h, large, BlockHeaderBits(h, parts, params, mode) + rest)
         == Got((HeaderOf(parts.Plans(h), mode, params), BlocksAt(parts.Plans(h), Counters(0, 0, 0))), rest)
  {
    hide Shl, Shr, Low, Pow2, ReadSplitHeader, SplitCodeBits, SplitHeaderOf, ReadDistanceParams, DistanceParamBits,
      ReadModes, ModeBits, ReadContextMap, MapBits, ReadCodes, PartCodeBits, Legal, Modes, StateAt, Part.Valid,
      StreamCodes, TrivialMap, Part.Map, Iota, Part.Coded, SumTo, DistanceAlphabet, BlockHeaderBits;
    var s0 := PartCodeBits(h, parts.distance) + rest;
    var s1 := PartCodeBits(h, parts.command) + s0;
    var s2 := PartCodeBits(h, parts.literal) + s1;
    var s3 := MapBits(h, parts.distance) + s2;
    var s4 := MapBits(h, parts.literal) + s3;
    var s5 := ModeBits(mode, parts.literal.split.numTypes) + s4;
    var s6 := DistanceParamBits(params) + s5;
    PartHeader(h, parts.literal);
    PartHeader(h, parts.command);
    PartHeader(h, parts.distance);
    var s7 := SplitCodeBits(h, parts.distance.split) + s6;
    var s8 := SplitCodeBits(h, parts.command.split) + s7;
    HeaderPieces(h, parts, params, mode, rest);
    SplitHeaderRoundTrip(h, parts.literal.split, s8);
    SplitHeaderRoundTrip(h, parts.command.split, s7);
    SplitHeaderRoundTrip(h, parts.distance.split, s6);
    DistanceParamsRoundTrip(params, s5);
    ModesRoundTrip(mode, parts.literal.split.numTypes, s4);
    MapRoundTrip(h, parts.literal, s3);
    MapRoundTrip(h, parts.distance, s2);
    PartCodesRoundTrip(h, parts.literal, s1);
    PartCodesRoundTrip(h, parts.command, s0);
    PartCodesRoundTrip(h, parts.distance, rest);
    CommandMap(h, parts.command);
  }

  lemma HeaderPieces(h: Huffman, parts: Parts, params: DistanceParams, mode: nat, rest: bits)
    requires Storable(h, parts, params)
    ensures parts.literal.Valid(h) && parts.command.Valid(h) && parts.distance.Valid(h)
    ensures BlockHeaderBits(h, parts, params, mode) + rest
         == SplitCodeBits(h, parts.literal.split)
             + (SplitCodeBits(h, parts.command.split) + (SplitCodeBits(h, parts.distance.split)
            + (DistanceParamBits(params) + (ModeBits(mode, parts.literal.split.numTypes)
            + (MapBits(h, parts.literal) + (MapBits(h, parts.distance)
            + (PartCodeBits(h, parts.literal)
               + (PartCodeBits(h, parts.command) + (PartCodeBits(h, parts.distance) + rest)))))))))
  {
    hide SplitCodeBits, DistanceParamBits, ModeBits, MapBits, PartCodeBits, Part.Valid, Legal;
    PartHeader(h, parts.literal);
    PartHeader(h, parts.command);
    PartHeader(h, parts.distance);
  }

  /** What a valid part's coding is made of. */
  lemma PartHeader(h: Huffman, part: Part)
    requires part.Valid(h)
    ensures h.Valid() && part.split.Valid()
    ensures Within(Plan(part.split, part.Coded(h)), 0)
    ensures var header, coding := SplitHeaderOf(h, part.split), part.Coded(h);
            && header.numTypes == part.split.numTypes && header.st == StateAt(part.split, 0)
            && coding.numTypes == header.numTypes && coding.typeCode == header.typeCode
                && coding.lengthCode == header.lengthCode
            && coding.contextBits == part.contextBits && coding.contextMap == part.Map()
  {
    hide AllCodable, StateAt, SumTo, TypeStored, LengthStored, Part.Map, StreamCodes, Huffman.Valid;
  }

  lemma PartCodesRoundTrip(h: Huffman, part: Part, rest: bits)
    requires part.Valid(h)
    ensures ReadCodes(h, |part.histograms|, part.alphabet, PartCodeBits(h, part) + rest)
            == Got(part.Coded(h).trees, rest)
  {
    hide ReadCodes, DescriptionsFrom, SplitHeaderOf, Huffman.Valid, Part.Map, BlockSplit.Valid;
    CodesRoundTrip(h, part.histograms, part.length, part.alphabet, 0, rest);
    var codes := StreamCodes(h, part.histograms, part.length, part.alphabet);
    assert codes[0..] == codes;
  }

  /** Commands have no context: each block type has one code. */
  lemma CommandMap(h: Huffman, part: Part)
    requires part.Valid(h) && part.contextBits == 0 && part.contextMap == []
    ensures part.Map() == Iota(part.split.numTypes) && |part.histograms| == part.split.numTypes
  {
    hide AllCodable, BlockSplit.Valid, Huffman.Valid;
    var m, n := part.Map(), part.split.numTypes;
    assert Shl(n, 0) == n;
    forall i: nat | i < n
      ensures m[i] == Iota(n)[i]
    {
      assert Shr(i, 0) == i;
    }
  }
}
