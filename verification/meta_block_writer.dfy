/** `store_meta_block` (src/shared/bitstream.rs): a meta-block with block splitting and context
    modelling. */
module MetaBlockWriting {
  import opened Bits
  import opened BitWriting
  import opened BlockEncoders
  import opened BlockSplits
  import opened Commands
  import opened ContextMaps
  import opened DataWriting
  import opened Decoding
  import opened Distances
  import opened Headers
  import opened MetaBlocks
  import opened PackedCommands
  import opened PrefixCodes
  import opened StreamDecoding
  import opened SymbolStreams

  // -------------------------------------------------------------------- the contract

  /** A meta-block to be stored: the bytes, and everything that was decided about them. */
  datatype Job = Job(dec: Decoder, params: DistanceParams, mode: nat, commands: seq<Command>, x: bool,
                     mb: MetaBlockSplit, history: seq<byte>, text: seq<byte>, ring: Ring, after: Ring) {
    function Parts(): Parts { mb.Streams(params) }

    ghost function Items(): seq<Item>
      requires Consistent()
    {
      ItemsFrom(commands, 0, text, |history|, AtMode(dec.contexts, mode), x)
    }

    /** The commands describe the text that follows the history, and the histograms counted every
        symbol they need, with room in the blocks for each. */
    ghost predicate Consistent() {
      && history <= text && 1 <= |text| - |history| <= MAX_MLEN && mode < 4
      && AllSized(commands, x) && |history| + Span(commands, 0) == |text|
      && Describes(commands, 0, params, x, ring, after, dec.window, text, |history|)
    }

    ghost predicate Ready() {
      && Consistent()
      && Parts().Valid(dec.huffman) && Legal(params.postfixBits, params.numDirect)
      && params.alphabetSizeMax == DistanceAlphabet(dec.large, params.numDirect, params.postfixBits)
      && AllCounted(Parts(), Items(), Counters(0, 0, 0))
    }
  }

  /** A job that is ready can be written. */
  lemma ReadyIsWritable(job: Job)
    requires job.Ready()
    ensures Storable(job.dec.huffman, job.Parts(), job.params)
    ensures AllWritable(job.Parts().Plans(job.dec.huffman), job.Items(), Counters(0, 0, 0))
    ensures AllFine(job.commands, 0, job.x)
  {
    hide ItemsFrom, AllWritable, Describes, Part.Valid, AllCounted, Legal, DistanceAlphabet, Span, Fine, AllFine,
      RawFits, AtMode;
    DescribedAreFine(job.commands, 0, job.params, job.x, job.ring, job.after, job.dec.window, job.text, |job.history|);
    FineFieldsFit(job.commands, 0, job.text, |job.history|, AtMode(job.dec.contexts, job.mode), job.x);
    CountedIsWritable(job.dec.huffman, job.Parts(), job.Items(), Counters(0, 0, 0));
  }

  /** The bits of the job's meta-block. */
  ghost function JobBits(job: Job, last: bool): bits
    requires job.Ready()
  {
    ReadyIsWritable(job);
    MetaBlockBits(job.dec.huffman, job.Parts(), job.params, job.mode, last, |job.text| - |job.history|, job.Items())
  }

  /** What `store_meta_block` writes decodes, after any earlier output, to the text. */
  lemma JobRoundTrip(job: Job, last: bool, pos: nat, rest: bits)
    requires job.Ready()
    ensures ReadMetaBlock(job.dec, pos, job.ring, job.history, JobBits(job, last) + rest)
         == Got(Decoded(last, job.after, job.text), rest)
  {
    hide ItemsFrom, AllWritable, Describes, Part.Valid, AllCounted, Legal, DistanceAlphabet, Span, AtMode,
      MetaBlockBits, ReadMetaBlock, Storable;
    ReadyIsWritable(job);
    MetaBlockRoundTrip(job.dec, job.Parts(), job.params, job.mode, last, job.commands, job.x, job.ring, job.after,
                       job.history, job.text, pos, rest);
  }

  // ------------------------------------------------------------------------ the data

  /** The encoder is in step with the plan, `j` symbols in. */
  ghost predicate InStep(enc: BlockEncoder, plan: Plan, j: nat, mapped: bool)
    reads enc, enc.splitCode, enc.splitCode.calculator
  {
    enc.split == plan.split && enc.coded == j && enc.Ready(plan.coding, mapped)
  }

  lemma BlockLiteral(plans: Plans, text: seq<byte>, k: nat, n: nat, context: ContextOf, js: Counters)
    requires n > 0 && k + n <= |text| && AllWritable(plans, LiteralItems(text, k, n, context), js)
    ensures var c := context(Previous(text, k, 1), Previous(text, k, 2));
            && Encodable(plans.literal.split, plans.literal.coding, js.literals, text[k], c)
            && AllWritable(plans, LiteralItems(text, k + 1, n - 1, context), js.(literals := js.literals + 1))
            && Emit(plans, LiteralItems(text, k, n, context), js)
               == SymbolBits(plans.literal.split, plans.literal.coding, js.literals, text[k], c)
                  + Emit(plans, LiteralItems(text, k + 1, n - 1, context), js.(literals := js.literals + 1))
  {
    hide Encodable, SymbolBits, Previous, AllWritable, Emit;
    EmitCons(plans, LiteralItem(text, k, context), LiteralItems(text, k + 1, n - 1, context), js);
  }

  /** The literals of one command, each with the code of its block, or of its block and context. */
  method StoreBlockLiterals(input: seq<byte>, start: nat, mask: nat, n: nat, contextMap: seq<nat>,
                            contexts: ModeContext, mode: nat, prevByte: byte, prevByte2: byte, enc: BlockEncoder,
                            ghost plans: Plans, ghost text: seq<byte>, ghost k: nat, ghost js: Counters, w: BitWriter)
    returns (p1: byte, p2: byte)
    requires w.Valid() && InStep(enc, plans.literal, js.literals, contextMap != [])
    requires contextMap != [] ==>
               && contextMap == plans.literal.coding.contextMap
               && plans.literal.coding.contextBits == LITERAL_CONTEXT_BITS
    requires k + n <= |text| && text[k..k + n] == Window(input, mask, start, n)
    requires contextMap != [] ==> prevByte == Previous(text, k, 1) && prevByte2 == Previous(text, k, 2)
    requires AllWritable(plans, LiteralItems(text, k, n, AtMode(contexts, mode)), js)
    modifies enc, enc.splitCode.calculator, w, w.storage
    ensures w.Valid() && InStep(enc, plans.literal, js.literals + n, contextMap != [])
    ensures w.contents == old(w.contents) + Emit(plans, LiteralItems(text, k, n, AtMode(contexts, mode)), js)
    ensures contextMap != [] ==> p1 == Previous(text, k + n, 1) && p2 == Previous(text, k + n, 2)
    ensures old(w.overflowed) ==> w.overflowed
    ensures !old(w.overflowed) && w.Roomy() ==> !w.overflowed
  {
    hide BitAnd, Pow2, Shl, Shr, Low, Bit, BitOr, LittleEndian, Represents, ToBits, ByteAt, LiteralItems, AllWritable,
      Emit, Encodable, SymbolBits, BlockEncoder.Ready;
    ghost var context := AtMode(contexts, mode);
    p1, p2 := prevByte, prevByte2;
    var pos: nat := start;
    for j := 0 to n
      invariant w.Valid() && pos == start + j && InStep(enc, plans.literal, js.literals + j, contextMap != [])
      invariant contextMap != [] ==> p1 == Previous(text, k + j, 1) && p2 == Previous(text, k + j, 2)
      invariant AllWritable(plans, LiteralItems(text, k + j, n - j, context), js.(literals := js.literals + j))
      invariant w.contents + Emit(plans, LiteralItems(text, k + j, n - j, context), js.(literals := js.literals + j))
             == old(w.contents) + Emit(plans, LiteralItems(text, k, n, context), js)
      invariant old(w.overflowed) ==> w.overflowed
      invariant !old(w.overflowed) && w.Roomy() ==> !w.overflowed
    {
      var literal := ByteAt(input, mask, pos);
      assert literal == text[k..k + n][j];
      BlockLiteral(plans, text, k + j, n - j, context, js.(literals := js.literals + j));
      if contextMap == [] {
        enc.StoreSymbol(literal, context(Previous(text, k + j, 1), Previous(text, k + j, 2)), plans.literal.coding, w);
      } else {
        enc.StoreSymbolWithContext(literal, contexts(mode, p1, p2), contextMap, LITERAL_CONTEXT_BITS,
                                   plans.literal.coding, w);
        p2 := p1;
        p1 := literal;
      }
      pos := pos + 1;
    }
    NoBlockLiterals(plans, text, k + n, context, js.(literals := js.literals + n));
  }

  lemma NoBlockLiterals(plans: Plans, text: seq<byte>, k: nat, context: ContextOf, js: Counters)
    requires k <= |text|
    ensures LiteralItems(text, k, 0, context) == [] && AllWritable(plans, [], js) && Emit(plans, [], js) == []
  {
  }

  method StoreBlockLengths(command: Command, x: bool, enc: BlockEncoder, ghost plans: Plans, ghost js: Counters,
                           w: BitWriter)
    requires w.Valid() && InStep(enc, plans.command, js.commands, false)
    requires Sized(command, x) && AllWritable(plans, LengthItems(command, x), js)
    modifies enc, enc.splitCode.calculator, w, w.storage
    ensures w.Valid() && InStep(enc, plans.command, js.commands + 1, false)
    ensures w.contents == old(w.contents) + Emit(plans, LengthItems(command, x), js)
    ensures old(w.overflowed) ==> w.overflowed
    ensures !old(w.overflowed) && w.Roomy() ==> !w.overflowed
  {
    hide BitAnd, Pow2, Shl, Shr, Low, Bit, BitOr, LittleEndian, Represents, ToBits, ExtraBitsOf, Command.CopyLenCode,
      AllWritable, Emit, Encodable, SymbolBits, BlockEncoder.Ready;
    ghost var items := LengthItems(command, x);
    assert items == [items[0], items[1]];
    EmitPair(plans, items[0], items[1], js);
    enc.StoreSymbol(command.cmdPrefix, 0, plans.command.coding, w);
    var (n, v) := ExtraBitsOf(command.insertLen, command.CopyLenCode(x));
    w.Write(n, v);
  }

  method StoreBlockDistance(command: Command, contextMap: seq<nat>, enc: BlockEncoder, ghost plans: Plans,
                            ghost js: Counters, w: BitWriter)
    requires w.Valid() && InStep(enc, plans.distance, js.distances, contextMap != [])
    requires contextMap != [] ==>
               && contextMap == plans.distance.coding.contextMap
               && plans.distance.coding.contextBits == DISTANCE_CONTEXT_BITS
    requires AllWritable(plans, DistanceItems(command), js)
    modifies enc, enc.splitCode.calculator, w, w.storage
    ensures w.Valid()
    ensures InStep(enc, plans.distance, js.distances + if command.HasDistance() then 1 else 0, contextMap != [])
    ensures w.contents == old(w.contents) + Emit(plans, DistanceItems(command), js)
    ensures old(w.overflowed) ==> w.overflowed
    ensures !old(w.overflowed) && w.Roomy() ==> !w.overflowed
  {
    hide BitAnd, Pow2, Shl, Shr, Low, Bit, BitOr, LittleEndian, Represents, ToBits, Command.DistanceCode,
      Command.DistanceExtraBits, Command.DistanceContext, AllWritable, Emit, Encodable, SymbolBits, BlockEncoder.Ready,
      Command.CopyLen;
    ghost var items := DistanceItems(command);
    if command.CopyLen() != 0 && command.cmdPrefix >= 128 {
      assert items == [items[0], items[1]];
      EmitPair(plans, items[0], items[1], js);
      var code := command.DistanceCode();
      if contextMap == [] {
        enc.StoreSymbol(code, command.DistanceContext(), plans.distance.coding, w);
      } else {
        enc.StoreSymbolWithContext(code, command.DistanceContext(), contextMap, DISTANCE_CONTEXT_BITS,
                                   plans.distance.coding, w);
      }
      w.Write(command.DistanceExtraBits(), command.distExtra);
    } else {
      NothingEmitted(plans, js);
    }
  }

  /** Three encoders that share nothing. */
  ghost predicate Apart(l: BlockEncoder, c: BlockEncoder, d: BlockEncoder) {
    && l != c && l != d && c != d
    && l.splitCode != c.splitCode && l.splitCode != d.splitCode && c.splitCode != d.splitCode
    && l.splitCode.calculator != c.splitCode.calculator && l.splitCode.calculator != d.splitCode.calculator
    && c.splitCode.calculator != d.splitCode.calculator
  }

  /** The bytes before position `k`, once a copy of two bytes or more has passed. */
  lemma PreviousInWindow(input: seq<byte>, mask: nat, start: nat, n: nat, history: seq<byte>, j: nat)
    requires 2 <= j <= n
    ensures var text := history + Window(input, mask, start, n);
            && Previous(text, |history| + j, 1) == ByteAt(input, mask, start + j - 1)
            && Previous(text, |history| + j, 2) == ByteAt(input, mask, start + j - 2)
  {
    hide BitAnd, ByteAt;
  }

  /** One command: lengths, literals, and a distance when the copy needs one. */
  method StoreBlockCommand(input: seq<byte>, pos: nat, mask: nat, prevByte: byte, prevByte2: byte, mode: nat,
                           command: Command, x: bool, contexts: ModeContext, literalMap: seq<nat>,
                           distanceMap: seq<nat>, literalEnc: BlockEncoder, commandEnc: BlockEncoder,
                           distanceEnc: BlockEncoder, ghost plans: Plans, ghost history: seq<byte>, ghost start: nat,
                           ghost total: nat, ghost k: nat, ghost js: Counters, ghost j1: Counters, ghost j2: Counters,
                           w: BitWriter)
    returns (p1: byte, p2: byte)
    requires w.Valid() && Apart(literalEnc, commandEnc, distanceEnc)
    requires InStep(literalEnc, plans.literal, js.literals, literalMap != [])
             && InStep(commandEnc, plans.command, js.commands, false)
    requires InStep(distanceEnc, plans.distance, js.distances, distanceMap != [])
    requires literalMap != [] ==>
               && literalMap == plans.literal.coding.contextMap
               && plans.literal.coding.contextBits == LITERAL_CONTEXT_BITS
    requires distanceMap != [] ==>
               && distanceMap == plans.distance.coding.contextMap
               && plans.distance.coding.contextBits == DISTANCE_CONTEXT_BITS
    requires pos - start == k - |history| >= 0 && k + command.insertLen + command.CopyLen() <= |history| + total
    requires Sized(command, x) && command.CopyLen() != 1
    requires var text, context := history + Window(input, mask, start, total), AtMode(contexts, mode);
             && (literalMap != [] ==> prevByte == Previous(text, k, 1) && prevByte2 == Previous(text, k, 2))
             && j1 == js.AfterAll(LengthItems(command, x)) && AllWritable(plans, LengthItems(command, x), js)
             && j2 == j1.AfterAll(LiteralItems(text, k, command.insertLen, context))
             && AllWritable(plans, LiteralItems(text, k, command.insertLen, context), j1)
             && AllWritable(plans, DistanceItems(command), j2)
    modifies literalEnc, literalEnc.splitCode.calculator, commandEnc, commandEnc.splitCode.calculator,
             distanceEnc, distanceEnc.splitCode.calculator, w, w.storage
    ensures w.Valid()
    ensures var text, context := history + Window(input, mask, start, total), AtMode(contexts, mode);
            && w.contents == old(w.contents) + Emit(plans, LengthItems(command, x), js)
                             + Emit(plans, LiteralItems(text, k, command.insertLen, context), j1)
                                 + Emit(plans, DistanceItems(command), j2)
            && (literalMap != [] ==> p1 == Previous(text, k + command.insertLen + command.CopyLen(), 1)
                                     && p2 == Previous(text, k + command.insertLen + command.CopyLen(), 2))
    ensures j1 == js.(commands := js.commands + 1) && j2 == j1.(literals := j1.literals + command.insertLen)
    ensures InStep(literalEnc, plans.literal, j2.literals, literalMap != [])
            && InStep(commandEnc, plans.command, j2.commands, false)
    ensures InStep(distanceEnc, plans.distance, j2.distances + if command.HasDistance() then 1 else 0,
                   distanceMap != [])
    ensures old(w.overflowed) ==> w.overflowed
    ensures !old(w.overflowed) && w.Roomy() ==> !w.overflowed
  {
    hide BitAnd, Pow2, Shl, Shr, Low, Bit, BitOr, LittleEndian, Represents, ToBits, ByteAt, LiteralItems, AllWritable,
      Emit, LengthItems, DistanceItems, Command.CopyLen, Command.CopyLenCode, Command.HasDistance, Window,
      BlockEncoder.Ready, Counters.AfterAll, AtMode, Previous;
    ghost var text := history + Window(input, mask, start, total);
    ghost var next := k + command.insertLen + command.CopyLen();
    AfterLengths(command, x, js);
    AfterLiterals(text, k, command.insertLen, AtMode(contexts, mode), j1);
    WindowSlice(input, mask, start, total, history, k - |history|, command.insertLen);
    StoreBlockLengths(command, x, commandEnc, plans, js, w);
    p1, p2 := StoreBlockLiterals(input, pos, mask, command.insertLen, literalMap, contexts, mode, prevByte, prevByte2,
                                 literalEnc, plans, text, k, j1, w);
    if command.CopyLen() != 0 {
      PreviousInWindow(input, mask, start, total, history, next - |history|);
      p2 := ByteAt(input, mask, pos + command.insertLen + command.CopyLen() - 2);
      p1 := ByteAt(input, mask, pos + command.insertLen + command.CopyLen() - 1);
    }
    StoreBlockDistance(command, distanceMap, distanceEnc, plans, j2, w);
  }

  /** The commands, in the order of section 9.3 of RFC 7932. */
  method StoreCommands(input: seq<byte>, startPos: nat, mask: nat, prevByte: byte, prevByte2: byte, mode: nat,
                       commands: seq<Command>, x: bool, contexts: ModeContext, literalMap: seq<nat>,
                       distanceMap: seq<nat>, literalEnc: BlockEncoder, commandEnc: BlockEncoder,
                       distanceEnc: BlockEncoder, ghost plans: Plans, ghost history: seq<byte>, w: BitWriter)
    requires w.Valid() && Apart(literalEnc, commandEnc, distanceEnc)
    requires InStep(literalEnc, plans.literal, 0, literalMap != []) && InStep(commandEnc, plans.command, 0, false)
    requires InStep(distanceEnc, plans.distance, 0, distanceMap != [])
    requires literalMap != [] ==>
               && literalMap == plans.literal.coding.contextMap
               && plans.literal.coding.contextBits == LITERAL_CONTEXT_BITS
    requires distanceMap != [] ==>
               && distanceMap == plans.distance.coding.contextMap
               && plans.distance.coding.contextBits == DISTANCE_CONTEXT_BITS
    requires prevByte == Previous(history, |history|, 1) && prevByte2 == Previous(history, |history|, 2)
    requires AllSized(commands, x) && AllFine(commands, 0, x)
    requires AllWritable(plans, ItemsFrom(commands, 0, history + Window(input, mask, startPos, Span(commands, 0)),
                                          |history|,
                                          AtMode(contexts, mode), x), Counters(0, 0, 0))
    modifies literalEnc, literalEnc.splitCode.calculator, commandEnc, commandEnc.splitCode.calculator,
             distanceEnc, distanceEnc.splitCode.calculator, w, w.storage
    ensures w.Valid()
    ensures var text := history + Window(input, mask, startPos, Span(commands, 0));
            w.contents == old(w.contents)
                          + Emit(plans, ItemsFrom(commands, 0, text, |history|, AtMode(contexts, mode), x),
                                 Counters(0, 0, 0))
    ensures old(w.overflowed) ==> w.overflowed
    ensures !old(w.overflowed) && w.Roomy() ==> !w.overflowed
  {
    hide BitAnd, Pow2, Shl, Shr, Low, Bit, BitOr, LittleEndian, Represents, ToBits, ByteAt, LiteralItems, AllWritable,
      Emit, Span, LengthItems, DistanceItems, ItemsFrom, Command.CopyLen, Command.CopyLenCode, Command.HasDistance,
      Window, BlockEncoder.Ready, Counters.AfterAll, AtMode, Previous, AllFine;
    ghost var total := Span(commands, 0);
    ghost var text := history + Window(input, mask, startPos, total);
    ghost var context := AtMode(contexts, mode);
    ghost var all := w.contents + Emit(plans, ItemsFrom(commands, 0, text, |history|, context, x), Counters(0, 0, 0));
    var pos: nat, p1, p2 := startPos, prevByte, prevByte2;
    ghost var k: nat, js := |history|, Counters(0, 0, 0);
    PreviousOfHistory(history, Window(input, mask, startPos, total));
    for i := 0 to |commands|
      invariant w.Valid() && pos - startPos == k - |history| >= 0 && k + Span(commands, i) == |text|
      invariant InStep(literalEnc, plans.literal, js.literals, literalMap != [])
      invariant InStep(commandEnc, plans.command, js.commands, false)
      invariant InStep(distanceEnc, plans.distance, js.distances, distanceMap != [])
      invariant literalMap != [] ==> p1 == Previous(text, k, 1) && p2 == Previous(text, k, 2)
      invariant AllWritable(plans, ItemsFrom(commands, i, text, k, context, x), js)
      invariant w.contents + Emit(plans, ItemsFrom(commands, i, text, k, context, x), js) == all
      invariant old(w.overflowed) ==> w.overflowed
      invariant !old(w.overflowed) && w.Roomy() ==> !w.overflowed
    {
      var command := commands[i];
      SpanStep(commands, i);
      ghost var next := k + command.insertLen + command.CopyLen();
      ghost var j1, j2, j3 := CommandEmits(plans, commands, i, text, k, next, context, x, js);
      AfterDistance(command, j2);
      NotOne(commands, i, x);
      p1, p2 := StoreBlockCommand(input, pos, mask, p1, p2, mode, command, x, contexts, literalMap, distanceMap,
                                  literalEnc, commandEnc, distanceEnc, plans, history, startPos, total, k, js, j1, j2,
                                  w);
      pos := pos + command.insertLen + command.CopyLen();
      k, js := next, j3;
    }
    NoMoreItems(plans, commands, text, k, context, x, js);
  }

  lemma PreviousOfHistory(history: seq<byte>, window: seq<byte>)
    ensures Previous(history + window, |history|, 1) == Previous(history, |history|, 1)
    ensures Previous(history + window, |history|, 2) == Previous(history, |history|, 2)
  {
  }

  lemma NotOne(commands: seq<Command>, i: nat, x: bool)
    requires i < |commands| && AllFine(commands, 0, x)
    ensures commands[i].CopyLen() != 1
  {
    hide Command.CopyLen;
    assert Fine(commands[i], x);
  }

  // ------------------------------------------------------------------------- the header

  /** The block switch codes of the part are stored and nothing is coded yet. */
  ghost predicate Started(enc: BlockEncoder, h: Huffman, part: Part)
    reads enc, enc.splitCode, enc.splitCode.calculator
  {
    && part.Valid(h) && enc.split == part.split && enc.histogramLength == part.length
    && enc.coded == 0 && enc.blockIx == 0 && enc.entropyIx == 0
    && enc.Switching(SplitHeaderOf(h, part.split).typeCode, SplitHeaderOf(h, part.split).lengthCode)
  }

  method StartEncoder(h: Huffman, split: BlockSplit, histogramLength: nat, ghost part: Part, w: BitWriter)
    returns (enc: BlockEncoder)
    requires w.Valid() && part.Valid(h) && split == part.split && histogramLength == part.length
    modifies w, w.storage
    ensures fresh(enc) && fresh(enc.splitCode) && fresh(enc.splitCode.calculator)
    ensures w.Valid() && w.contents == old(w.contents) + SplitCodeBits(h, split) && Started(enc, h, part)
    ensures old(w.overflowed) ==> w.overflowed
    ensures !old(w.overflowed) && w.Roomy() ==> !w.overflowed
  {
    hide SplitCodeBits, SplitHeaderOf, AllCodable, Huffman.Valid, BlockSplit.Valid, BlockEncoder.Switching, Represents,
      Shl, Pow2;
    PartOpens(h, part);
    enc := new BlockEncoder(histogramLength, split);
    StartsFresh(enc);
    enc.BuildAndStoreBlockSwitchCodes(h, split, w);
  }

  /** Stores the prefix codes of the part, after which the encoder is in step. */
  method FinishEncoder(enc: BlockEncoder, h: Huffman, histograms: seq<seq<nat>>, alphabet: nat, ghost part: Part,
                       w: BitWriter)
    requires w.Valid() && Started(enc, h, part) && histograms == part.histograms && alphabet == part.alphabet
    modifies enc, w, w.storage
    ensures w.Valid() && w.contents == old(w.contents) + PartCodeBits(h, part)
    ensures InStep(enc, Plan(part.split, part.Coded(h)), 0, part.contextMap != [])
    ensures old(w.overflowed) ==> w.overflowed
    ensures !old(w.overflowed) && w.Roomy() ==> !w.overflowed
  {
    hide SplitHeaderOf, AllCodable, Huffman.Valid, BlockSplit.Valid, Represents, Shl, Shr, Low, BitOr, LittleEndian,
      Bit, ToBits, Pow2, DescriptionsFrom, Part.Valid, StreamCodes, Tabled, Row, Switchable, Coding.Complete, Trivial,
      BlockSplit.At, BlockSplit.Total, Part.Map, BlockSplitCode.Holds, Tracks, TrivialMap;
    PartOpens(h, part);
    PartCompletes(h, part);
    enc.BuildAndStoreEntropyCodes(h, histograms, alphabet, w);
    ShlRowZero(part.contextBits, part.length);
    PartHeader(h, part);
    KindStarts(enc, part, h);
  }

  lemma ShlRowZero(contextBits: nat, length: nat)
    ensures Shl(0, contextBits) == 0 == Row(0, length)
  {
    ShlZero(contextBits);
  }

  lemma KindStarts(enc: BlockEncoder, part: Part, h: Huffman)
    requires part.Valid(h) && enc.split == part.split && enc.blockIx == 0 && enc.blockTypes == part.split.types
    ensures enc.Kind() == 0
  {
  }

  method StoreContextMap(h: Huffman, contextMap: seq<nat>, clusters: nat, contextBits: nat, ghost part: Part,
                         w: BitWriter)
    requires w.Valid() && part.Valid(h) && contextMap == part.contextMap && contextBits == part.contextBits
    requires clusters == |part.histograms| && 2 <= contextBits <= MAX_RUN_LENGTH_PREFIX + 1
    modifies w, w.storage
    ensures w.Valid() && w.contents == old(w.contents) + MapBits(h, part)
    ensures old(w.overflowed) ==> w.overflowed
    ensures !old(w.overflowed) && w.Roomy() ==> !w.overflowed
  {
    hide Pow2, Shl, TrivialWords, EncodedWords, EncodedPrefix, ContextMapBits, MapWords, AllCodable, BlockSplit.Valid,
      Huffman.Valid, Represents;
    if contextMap == [] {
      StoreTrivialContextMap(h, clusters, contextBits, w);
    } else {
      EncodeContextMap(h, contextMap, clusters, w);
    }
  }

  method StoreDistanceParams(params: DistanceParams, w: BitWriter)
    requires w.Valid() && Legal(params.postfixBits, params.numDirect)
    modifies w, w.storage
    ensures w.Valid() && w.contents == old(w.contents) + DistanceParamBits(params)
    ensures old(w.overflowed) ==> w.overflowed
    ensures !old(w.overflowed) && w.Roomy() ==> !w.overflowed
  {
    hide Shl, Shr, Low, Bit, BitOr, LittleEndian, Represents, ToBits;
    Pow2Values();
    w.Write(2, params.postfixBits);
    w.Write(4, Shr(params.numDirect, params.postfixBits));
  }

  method StoreModes(mode: nat, n: nat, w: BitWriter)
    requires w.Valid() && mode < 4
    modifies w, w.storage
    ensures w.Valid() && w.contents == old(w.contents) + ModeBits(mode, n)
    ensures old(w.overflowed) ==> w.overflowed
    ensures !old(w.overflowed) && w.Roomy() ==> !w.overflowed
  {
    hide Shl, Shr, Low, Bit, BitOr, LittleEndian, Represents, ToBits;
    assert Pow2(2) == 4;
    for i := 0 to n
      invariant w.Valid() && w.contents + ModeBits(mode, n - i) == old(w.contents) + ModeBits(mode, n)
      invariant old(w.overflowed) ==> w.overflowed
      invariant !old(w.overflowed) && w.Roomy() ==> !w.overflowed
    {
      w.Write(2, mode);
    }
  }

  /** The three block encoders, with every code between the length of the meta-block and its data
      stored. */
  method StoreBlockHeader(h: Huffman, mb: MetaBlockSplit, params: DistanceParams, mode: nat, w: BitWriter)
    returns (l: BlockEncoder, c: BlockEncoder, d: BlockEncoder)
    requires w.Valid() && mode < 4 && Storable(h, mb.Streams(params), params)
    modifies w, w.storage
    ensures w.Valid() && w.contents == old(w.contents) + BlockHeaderBits(h, mb.Streams(params), params, mode)
    ensures Apart(l, c, d) && fresh({l, c, d}) && fresh({l.splitCode, c.splitCode, d.splitCode})
    ensures fresh({l.splitCode.calculator, c.splitCode.calculator, d.splitCode.calculator})
    ensures var plans := mb.Streams(params).Plans(h);
            && InStep(l, plans.literal, 0, mb.literalContextMap != []) && InStep(c, plans.command, 0, false)
            && InStep(d, plans.distance, 0, mb.distanceContextMap != [])
    ensures old(w.overflowed) ==> w.overflowed
    ensures !old(w.overflowed) && w.Roomy() ==> !w.overflowed
  {
    hide Represents, SplitsBits, ContextBits, CodesBits, Legal, InStep, Started, Part.Valid, Part.Coded;
    l, c, d := StartEncoders(h, mb, params, w);
    StoreContexts(h, mb, params, mode, w);
    FinishEncoders(h, mb, params, l, c, d, w);
  }

  method StartEncoders(h: Huffman, mb: MetaBlockSplit, params: DistanceParams, w: BitWriter)
    returns (l: BlockEncoder, c: BlockEncoder, d: BlockEncoder)
    requires w.Valid() && mb.Streams(params).Valid(h)
    modifies w, w.storage
    ensures w.Valid() && w.contents == old(w.contents) + SplitsBits(h, mb.Streams(params))
    ensures Apart(l, c, d) && fresh({l, c, d}) && fresh({l.splitCode, c.splitCode, d.splitCode})
    ensures fresh({l.splitCode.calculator, c.splitCode.calculator, d.splitCode.calculator})
    ensures var parts := mb.Streams(params);
            Started(l, h, parts.literal) && Started(c, h, parts.command) && Started(d, h, parts.distance)
    ensures old(w.overflowed) ==> w.overflowed
    ensures !old(w.overflowed) && w.Roomy() ==> !w.overflowed
  {
    hide Represents, SplitCodeBits, Started, Part.Valid;
    ghost var parts := mb.Streams(params);
    PartOpens(h, parts.literal);
    PartOpens(h, parts.command);
    PartOpens(h, parts.distance);
    l := StartEncoder(h, mb.literalSplit, NUM_LITERAL_SYMBOLS, parts.literal, w);
    c := StartEncoder(h, mb.commandSplit, NUM_COMMAND_SYMBOLS, parts.command, w);
    d := StartEncoder(h, mb.distanceSplit, params.alphabetSizeLimit, parts.distance, w);
  }

  method StoreContexts(h: Huffman, mb: MetaBlockSplit, params: DistanceParams, mode: nat, w: BitWriter)
    requires w.Valid() && mode < 4 && Storable(h, mb.Streams(params), params)
    modifies w, w.storage
    ensures w.Valid() && w.contents == old(w.contents) + ContextBits(h, mb.Streams(params), params, mode)
    ensures old(w.overflowed) ==> w.overflowed
    ensures !old(w.overflowed) && w.Roomy() ==> !w.overflowed
  {
    hide Represents, DistanceParamBits, ModeBits, MapBits, Legal, Part.Valid;
    ghost var parts := mb.Streams(params);
    StoreDistanceParams(params, w);
    StoreModes(mode, mb.literalSplit.numTypes, w);
    StoreContextMap(h, mb.literalContextMap, |mb.literalHistograms|, LITERAL_CONTEXT_BITS, parts.literal, w);
    StoreContextMap(h, mb.distanceContextMap, |mb.distanceHistograms|, DISTANCE_CONTEXT_BITS, parts.distance, w);
  }

  method FinishEncoders(h: Huffman, mb: MetaBlockSplit, params: DistanceParams, l: BlockEncoder, c: BlockEncoder,
                        d: BlockEncoder, w: BitWriter)
    requires w.Valid() && mb.Streams(params).Valid(h) && Apart(l, c, d)
    requires var parts := mb.Streams(params);
             Started(l, h, parts.literal) && Started(c, h, parts.command) && Started(d, h, parts.distance)
    modifies l, c, d, w, w.storage
    ensures w.Valid() && w.contents == old(w.contents) + CodesBits(h, mb.Streams(params))
    ensures var plans := mb.Streams(params).Plans(h);
            && InStep(l, plans.literal, 0, mb.literalContextMap != []) && InStep(c, plans.command, 0, false)
            && InStep(d, plans.distance, 0, mb.distanceContextMap != [])
    ensures old(w.overflowed) ==> w.overflowed
    ensures !old(w.overflowed) && w.Roomy() ==> !w.overflowed
  {
    hide Represents, PartCodeBits, InStep, Started, Part.Valid, Part.Coded;
    ghost var parts := mb.Streams(params);
    FinishEncoder(l, h, mb.literalHistograms, NUM_LITERAL_SYMBOLS, parts.literal, w);
    FinishEncoder(c, h, mb.commandHistograms, NUM_COMMAND_SYMBOLS, parts.command, w);
    FinishEncoder(d, h, mb.distanceHistograms, params.alphabetSizeMax, parts.distance, w);
  }

  lemma PartOpens(h: Huffman, part: Part)
    requires part.Valid(h)
    ensures h.Valid() && part.split.Valid() && AllCodable(h, part.histograms, part.length, part.alphabet)
    ensures PartCodeBits(h, part) == DescriptionsFrom(h, part.histograms, part.length, part.alphabet, 0)
  {
    hide BlockSplit.Valid, Huffman.Valid, DescriptionsFrom;
  }

  lemma StartsFresh(enc: BlockEncoder)
    requires enc.Fresh()
    ensures enc.split.Valid() && enc.coded == 0 && enc.blockIx == 0 && enc.entropyIx == 0
  {
  }

  /** `store_meta_block`: the bits of the job, padded to a byte when the stream ends here. */
  method StoreMetaBlock(h: Huffman, contexts: ModeContext, input: seq<byte>, startPos: nat, length: nat, mask: nat,
                        prevByte: byte, prevByte2: byte, isLast: bool, mode: nat, params: DistanceParams,
                        commands: seq<Command>, x: bool, mb: MetaBlockSplit, ghost job: Job, w: BitWriter)
    requires w.Valid() && job.Ready()
    requires h == job.dec.huffman && contexts == job.dec.contexts && mode == job.mode && params == job.params
    requires commands == job.commands && x == job.x && mb == job.mb
    requires job.text == job.history + Window(input, mask, startPos, length)
    requires prevByte == Previous(job.history, |job.history|, 1) && prevByte2 == Previous(job.history, |job.history|, 2)
    modifies w, w.storage
    ensures w.Valid()
    ensures w.contents == if isLast then Padded(old(w.contents) + JobBits(job, true))
            else old(w.contents) + JobBits(job, false)
    ensures old(w.overflowed) ==> w.overflowed
    ensures !old(w.overflowed) && w.Roomy() ==> w.Kept()
  {
    hide Represents, CompressedHeaderBits, BlockHeaderBits, AllWritable, Emit, ItemsFrom, Part.Valid, Window, Span,
      AllFine, AtMode, Padded, Legal, Job.Ready, Job.Consistent, Job.Items, JobBits, Apart, InStep, Parts.Plans,
      Previous, AllSized;
    ghost var c0 := w.contents;
    JobPieces(job, isLast, input, mask, startPos, length);
    StoreCompressedMetaBlockHeader(isLast, length, w);
    var literalEnc, commandEnc, distanceEnc := StoreBlockHeader(h, mb, params, mode, w);
    StoreCommands(input, startPos, mask, prevByte, prevByte2, mode, commands, x, contexts, mb.literalContextMap,
                  mb.distanceContextMap, literalEnc, commandEnc, distanceEnc, job.Parts().Plans(h), job.history, w);
    assert w.contents == c0 + JobBits(job, isLast);
    PaddedLength(w.contents);
    ghost var c1 := w.contents;
    if isLast {
      w.JumpToByteBoundary();
    }
    assert |c1| <= |w.contents|;
    if !w.overflowed { StaysKept(w); }
  }

  /** What storing the job needs, and the pieces its bits consist of. */
  lemma JobPieces(job: Job, last: bool, input: seq<byte>, mask: nat, start: nat, length: nat)
    requires job.Ready() && job.text == job.history + Window(input, mask, start, length)
    ensures 1 <= length <= MAX_MLEN && job.mode < 4 && Storable(job.dec.huffman, job.Parts(), job.params)
    ensures AllSized(job.commands, job.x) && AllFine(job.commands, 0, job.x) && Span(job.commands, 0) == length
    ensures var plans := job.Parts().Plans(job.dec.huffman);
            var items := ItemsFrom(job.commands, 0, job.history + Window(input, mask, start, length), |job.history|,
                                   AtMode(job.dec.contexts, job.mode), job.x);
            && AllWritable(plans, items, Counters(0, 0, 0))
            && JobBits(job, last) == CompressedHeaderBits(last, length)
                                     + (BlockHeaderBits(job.dec.huffman, job.Parts(), job.params, job.mode)
                                        + Emit(plans, items, Counters(0, 0, 0)))
    ensures var plans, parts := job.Parts().Plans(job.dec.huffman), job.Parts();
            && (parts.literal.contextMap != [] ==> plans.literal.coding.contextMap == parts.literal.contextMap)
            && (parts.distance.contextMap != [] ==> plans.distance.coding.contextMap == parts.distance.contextMap)
            && plans.literal.coding.contextBits == LITERAL_CONTEXT_BITS
                && plans.distance.coding.contextBits == DISTANCE_CONTEXT_BITS
  {
    hide Window, CompressedHeaderBits, BlockHeaderBits, AllWritable, Emit, ItemsFrom, Describes, Part.Valid, AllCounted,
      Legal, Span, AllFine, AtMode, DistanceAlphabet;
    ReadyIsWritable(job);
    PlanMaps(job.dec.huffman, job.Parts());
  }

  lemma PlanMaps(h: Huffman, parts: Parts)
    requires parts.Valid(h)
    ensures parts.literal.contextMap != [] ==> parts.literal.Coded(h).contextMap == parts.literal.contextMap
    ensures parts.distance.contextMap != [] ==> parts.distance.Coded(h).contextMap == parts.distance.contextMap
    ensures parts.literal.Coded(h).contextBits == parts.literal.contextBits
    ensures parts.distance.Coded(h).contextBits == parts.distance.contextBits
  {
    hide Part.Valid, SplitHeaderOf, StreamCodes, TrivialMap;
  }
}
