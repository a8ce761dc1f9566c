/** The items of a meta-block as bits: with one code per stream, as
    `store_data_with_huffman_codes` writes them, and with block switches and context maps, as
    `store_meta_block` does (src/shared/bitstream.rs). */
module DataWriting {
  import opened Bits
  import opened BitWriting
  import opened BlockEncoders
  import opened BlockSplits
  import opened Commands
  import opened ContextMaps
  import opened Headers
  import opened PackedCommands
  import opened PrefixCodes
  import opened SymbolStreams

  // ---------------------------------------------------------------- one code per stream

  datatype Codes = Codes(literal: PrefixCode, command: PrefixCode, distance: PrefixCode) {
    function Of(stream: Stream): PrefixCode {
      match stream
      case LiteralStream => literal
      case CommandStream => command
      case DistanceStream => distance
    }

    /** The item can be written: its code has a word for it, or the field fits. */
    ghost predicate Has(item: Item) {
      match item
      case Symbol(stream, symbol, _) => Of(stream).Fits() && symbol in Of(stream).symbols
      case Raw(n, v) => n <= MAX_BITS_PER_WRITE && v < Pow2(n)
    }

    ghost function Word(item: Item): bits
      requires Has(item)
    {
      match item
      case Symbol(stream, symbol, _) => Of(stream).Word(symbol)
      case Raw(n, v) => ToBits(n, v)
    }

    ghost predicate HasAll(items: seq<Item>) {
      forall i :: 0 <= i < |items| ==> Has(items[i])
    }

    ghost function Words(items: seq<Item>): bits
      requires HasAll(items)
    {
      if |items| == 0 then [] else Word(items[0]) + Words(items[1..])
    }
  }

  lemma {:induction false} WordsConcat(codes: Codes, a: seq<Item>, b: seq<Item>)
    requires codes.HasAll(a) && codes.HasAll(b)
    ensures codes.HasAll(a + b) && codes.Words(a + b) == codes.Words(a) + codes.Words(b)
  {
    hide Codes.Has, Codes.Word;
    if |a| == 0 {
      assert a + b == b;
    } else {
      assert (a + b)[1..] == a[1..] + b;
      WordsConcat(codes, a[1..], b);
    }
  }

  lemma WordsPair(codes: Codes, a: Item, b: Item)
    requires codes.Has(a) && codes.Has(b)
    ensures codes.Words([a, b]) == codes.Word(a) + codes.Word(b)
  {
    hide Codes.Has, Codes.Word;
    assert [a, b][1..] == [b] && [b][1..] == [];
    assert codes.Words([b]) == codes.Word(b) + codes.Words([]);
  }

  lemma WordsNone(codes: Codes)
    ensures codes.Words([]) == []
  {
  }

  lemma HasParts(codes: Codes, a: seq<Item>, b: seq<Item>)
    requires codes.HasAll(a + b)
    ensures codes.HasAll(a) && codes.HasAll(b)
  {
    hide Codes.Has;
    forall i | 0 <= i < |a|
      ensures codes.Has(a[i])
    {
      assert (a + b)[i] == a[i];
    }
    forall i | 0 <= i < |b|
      ensures codes.Has(b[i])
    {
      assert (a + b)[|a| + i] == b[i];
    }
  }

  /** The code tables of the three streams. */
  datatype Tables = Tables(literalDepth: seq<nat>, literalBits: seq<nat>, commandDepth: seq<nat>, commandBits: seq<nat>,
                           distanceDepth: seq<nat>, distanceBits: seq<nat>) {
    ghost predicate Hold(codes: Codes) {
      && Tabulates(literalDepth, literalBits, codes.literal)
      && Tabulates(commandDepth, commandBits, codes.command)
      && Tabulates(distanceDepth, distanceBits, codes.distance)
    }
  }

  lemma WindowSlice(input: seq<byte>, mask: nat, start: nat, n: nat, history: seq<byte>, j: nat, m: nat)
    requires j + m <= n
    ensures (history + Window(input, mask, start, n))[|history| + j..|history| + j + m]
            == Window(input, mask, start + j, m)
  {
    hide BitAnd, ByteAt;
  }

  /** The literals of one command. */
  method StoreLiterals(input: seq<byte>, start: nat, mask: nat, n: nat, tables: Tables,
                       ghost codes: Codes, ghost text: seq<byte>, ghost k: nat, ghost context: ContextOf, w: BitWriter)
    requires w.Valid() && tables.Hold(codes) && k + n <= |text|
    requires text[k..k + n] == Window(input, mask, start, n)
    requires codes.HasAll(LiteralItems(text, k, n, context))
    modifies w, w.storage
    ensures w.Valid() && w.contents == old(w.contents) + codes.Words(LiteralItems(text, k, n, context))
    ensures old(w.overflowed) ==> w.overflowed
    ensures !old(w.overflowed) && w.Roomy() ==> !w.overflowed
  {
    hide BitAnd, Pow2, Shl, Shr, Low, Bit, BitOr, LittleEndian, Represents, ToBits, ByteAt, LiteralItems, Codes.HasAll,
      Codes.Words, Codes.Has, Codes.Word, LiteralItem;
    var pos: nat := start;
    for j := 0 to n
      invariant w.Valid() && pos == start + j
      invariant codes.HasAll(LiteralItems(text, k + j, n - j, context))
      invariant w.contents + codes.Words(LiteralItems(text, k + j, n - j, context))
             == old(w.contents) + codes.Words(LiteralItems(text, k, n, context))
      invariant old(w.overflowed) ==> w.overflowed
      invariant !old(w.overflowed) && w.Roomy() ==> !w.overflowed
    {
      var literal := ByteAt(input, mask, pos);
      assert literal == text[k..k + n][j];
      LiteralWord(codes, text, k + j, n - j, context);
      WriteSymbol(tables.literalDepth, tables.literalBits, literal, codes.literal, w);
      pos := pos + 1;
    }
    NoLiterals(codes, text, k + n, context);
  }

  lemma LiteralWord(codes: Codes, text: seq<byte>, k: nat, n: nat, context: ContextOf)
    requires n > 0 && k + n <= |text| && codes.HasAll(LiteralItems(text, k, n, context))
    ensures codes.literal.Fits() && text[k] in codes.literal.symbols
    ensures codes.HasAll(LiteralItems(text, k + 1, n - 1, context))
    ensures codes.Words(LiteralItems(text, k, n, context))
         == codes.literal.Word(text[k]) + codes.Words(LiteralItems(text, k + 1, n - 1, context))
  {
    hide Pow2, ToBits, Previous;
    var items := LiteralItems(text, k, n, context);
    assert codes.Has(items[0]);
    assert items[1..] == LiteralItems(text, k + 1, n - 1, context);
  }

  lemma NoLiterals(codes: Codes, text: seq<byte>, k: nat, context: ContextOf)
    requires k <= |text|
    ensures LiteralItems(text, k, 0, context) == [] && codes.Words([]) == []
  {
  }

  /** The items of command `i`, then those of the rest. */
  lemma CommandWords(codes: Codes, commands: seq<Command>, i: nat, text: seq<byte>, k: nat, next: nat,
                     context: ContextOf, x: bool)
    requires AllSized(commands, x) && k + Span(commands, i) <= |text| && i < |commands| && Sized(commands[i], x)
    requires next == k + commands[i].insertLen + commands[i].CopyLen() && next + Span(commands, i + 1) <= |text|
    requires codes.HasAll(ItemsFrom(commands, i, text, k, context, x))
    ensures codes.HasAll(LengthItems(commands[i], x))
            && codes.HasAll(LiteralItems(text, k, commands[i].insertLen, context))
    ensures codes.HasAll(DistanceItems(commands[i])) && codes.HasAll(ItemsFrom(commands, i + 1, text, next, context, x))
    ensures codes.Words(ItemsFrom(commands, i, text, k, context, x))
         == codes.Words(LengthItems(commands[i], x))
             + codes.Words(LiteralItems(text, k, commands[i].insertLen, context))
            + codes.Words(DistanceItems(commands[i])) + codes.Words(ItemsFrom(commands, i + 1, text, next, context, x))
  {
    hide Codes.HasAll, Codes.Words, LengthItems, LiteralItems, DistanceItems, Command.CopyLen, Command.CopyLenCode,
      Command.HasDistance, Codes.Has, Codes.Word;
    var c := commands[i];
    var a, b, d := LengthItems(c, x), LiteralItems(text, k, c.insertLen, context), DistanceItems(c);
    var tail := ItemsFrom(commands, i + 1, text, next, context, x);
    assert ItemsFrom(commands, i, text, k, context, x) == a + (b + (d + tail));
    HasParts(codes, a, b + (d + tail));
    HasParts(codes, b, d + tail);
    HasParts(codes, d, tail);
    WordsConcat(codes, a, b + (d + tail));
    WordsConcat(codes, b, d + tail);
    WordsConcat(codes, d, tail);
  }

  /** The symbol and extra bits of one command's lengths. */
  method StoreLengths(command: Command, x: bool, tables: Tables, ghost codes: Codes, w: BitWriter)
    requires w.Valid() && tables.Hold(codes) && Sized(command, x) && codes.HasAll(LengthItems(command, x))
    modifies w, w.storage
    ensures w.Valid() && w.contents == old(w.contents) + codes.Words(LengthItems(command, x))
    ensures old(w.overflowed) ==> w.overflowed
    ensures !old(w.overflowed) && w.Roomy() ==> !w.overflowed
  {
    hide BitAnd, Pow2, Shl, Shr, Low, Bit, BitOr, LittleEndian, Represents, ToBits, ExtraBitsOf, Command.CopyLenCode,
      Codes.Words;
    ghost var items := LengthItems(command, x);
    assert codes.Has(items[0]) && codes.Has(items[1]);
    WordsPair(codes, items[0], items[1]);
    WriteSymbol(tables.commandDepth, tables.commandBits, command.cmdPrefix, codes.command, w);
    var (n, v) := ExtraBitsOf(command.insertLen, command.CopyLenCode(x));
    w.Write(n, v);
  }

  /** The distance of one command, if it has one. */
  method StoreDistance(command: Command, tables: Tables, ghost codes: Codes, w: BitWriter)
    requires w.Valid() && tables.Hold(codes) && codes.HasAll(DistanceItems(command))
    modifies w, w.storage
    ensures w.Valid() && w.contents == old(w.contents) + codes.Words(DistanceItems(command))
    ensures old(w.overflowed) ==> w.overflowed
    ensures !old(w.overflowed) && w.Roomy() ==> !w.overflowed
  {
    hide BitAnd, Pow2, Shl, Shr, Low, Bit, BitOr, LittleEndian, Represents, ToBits, Command.DistanceCode,
      Command.DistanceExtraBits, Command.DistanceContext, Codes.Words, Command.CopyLen;
    ghost var items := DistanceItems(command);
    if command.HasDistance() {
      assert codes.Has(items[0]) && codes.Has(items[1]);
      WordsPair(codes, items[0], items[1]);
      WriteSymbol(tables.distanceDepth, tables.distanceBits, command.DistanceCode(), codes.distance, w);
      w.Write(command.DistanceExtraBits(), command.distExtra);
    } else {
      WordsNone(codes);
    }
  }

  /** `store_data_with_huffman_codes`: the items, in order, each in its stream's code. */
  method StoreDataWithHuffmanCodes(input: seq<byte>, startPos: nat, mask: nat, commands: seq<Command>, x: bool,
                                   tables: Tables, ghost codes: Codes, ghost history: seq<byte>,
                                   ghost context: ContextOf, w: BitWriter)
    requires w.Valid() && tables.Hold(codes) && AllSized(commands, x)
    requires codes.HasAll(ItemsFrom(commands, 0, history + Window(input, mask, startPos, Span(commands, 0)), |history|,
                                    context, x))
    modifies w, w.storage
    ensures w.Valid()
    ensures var text := history + Window(input, mask, startPos, Span(commands, 0));
            w.contents == old(w.contents) + codes.Words(ItemsFrom(commands, 0, text, |history|, context, x))
    ensures old(w.overflowed) ==> w.overflowed
    ensures !old(w.overflowed) && w.Roomy() ==> !w.overflowed
  {
    hide BitAnd, Pow2, Shl, Shr, Low, Bit, BitOr, LittleEndian, Represents, ToBits, ByteAt, LiteralItems, Codes.HasAll,
      Codes.Words, LengthItems, DistanceItems, ItemsFrom, Command.CopyLen, Command.CopyLenCode, Command.HasDistance,
      Span, Window;
    ghost var total := Span(commands, 0);
    ghost var text := history + Window(input, mask, startPos, total);
    var pos: nat := startPos;
    ghost var k: nat := |history|;
    for i := 0 to |commands|
      invariant w.Valid() && pos - startPos == k - |history| >= 0 && k + Span(commands, i) == |text|
      invariant codes.HasAll(ItemsFrom(commands, i, text, k, context, x))
      invariant w.contents + codes.Words(ItemsFrom(commands, i, text, k, context, x))
             == old(w.contents) + codes.Words(ItemsFrom(commands, 0, text, |history|, context, x))
      invariant old(w.overflowed) ==> w.overflowed
      invariant !old(w.overflowed) && w.Roomy() ==> !w.overflowed
    {
      var command := commands[i];
      SpanStep(commands, i);
      CommandWords(codes, commands, i, text, k, k + command.insertLen + command.CopyLen(), context, x);
      WindowSlice(input, mask, startPos, total, history, k - |history|, command.insertLen);
      StoreLengths(command, x, tables, codes, w);
      StoreLiterals(input, pos, mask, command.insertLen, tables, codes, text, k, context, w);
      pos := pos + command.insertLen + command.CopyLen();
      k := k + command.insertLen + command.CopyLen();
      StoreDistance(command, tables, codes, w);
    }
    NoItems(codes, commands, text, k, context, x);
  }

  lemma NoItems(codes: Codes, commands: seq<Command>, text: seq<byte>, k: nat, context: ContextOf, x: bool)
    requires AllSized(commands, x) && k + Span(commands, |commands|) <= |text|
    ensures ItemsFrom(commands, |commands|, text, k, context, x) == [] && codes.Words([]) == []
  {
  }

  // ------------------------------------------------------- block switches and contexts

  /** How one stream is split and coded. */
  datatype Plan = Plan(split: BlockSplit, coding: Coding)

  datatype Plans = Plans(literal: Plan, command: Plan, distance: Plan) {
    function Of(stream: Stream): Plan {
      match stream
      case LiteralStream => literal
      case CommandStream => command
      case DistanceStream => distance
    }
  }

  /** How many symbols of each stream have been coded. */
  datatype Counters = Counters(literals: nat, commands: nat, distances: nat) {
    function Of(stream: Stream): nat {
      match stream
      case LiteralStream => literals
      case CommandStream => commands
      case DistanceStream => distances
    }

    function After(item: Item): Counters {
      match item
      case Symbol(LiteralStream, _, _) => this.(literals := literals + 1)
      case Symbol(CommandStream, _, _) => this.(commands := commands + 1)
      case Symbol(DistanceStream, _, _) => this.(distances := distances + 1)
      case Raw(_, _) => this
    }

    function AfterAll(items: seq<Item>): Counters
      decreases |items|
    {
      if |items| == 0 then this else After(items[0]).AfterAll(items[1..])
    }
  }

  ghost predicate Writable(plans: Plans, item: Item, js: Counters) {
    match item
    case Symbol(stream, symbol, context) =>
        Encodable(plans.Of(stream).split, plans.Of(stream).coding, js.Of(stream), symbol, context)
    case Raw(n, v) => n <= MAX_BITS_PER_WRITE && v < Pow2(n)
  }

  ghost function ItemBits(plans: Plans, item: Item, js: Counters): bits
    requires Writable(plans, item, js)
  {
    match item
    case Symbol(stream, symbol, context) =>
        SymbolBits(plans.Of(stream).split, plans.Of(stream).coding, js.Of(stream), symbol, context)
    case Raw(n, v) => ToBits(n, v)
  }

  ghost predicate AllWritable(plans: Plans, items: seq<Item>, js: Counters)
    decreases |items|
  {
    |items| == 0 || (Writable(plans, items[0], js) && AllWritable(plans, items[1..], js.After(items[0])))
  }

  ghost function Emit(plans: Plans, items: seq<Item>, js: Counters): bits
    requires AllWritable(plans, items, js)
    decreases |items|
  {
    if |items| == 0 then [] else ItemBits(plans, items[0], js) + Emit(plans, items[1..], js.After(items[0]))
  }

  lemma {:induction false} EmitConcat(plans: Plans, a: seq<Item>, b: seq<Item>, js: Counters)
    requires AllWritable(plans, a + b, js)
    ensures AllWritable(plans, a, js) && AllWritable(plans, b, js.AfterAll(a))
    ensures Emit(plans, a + b, js) == Emit(plans, a, js) + Emit(plans, b, js.AfterAll(a))
    decreases |a|
  {
    hide Writable, ItemBits, Counters.After;
    if |a| == 0 {
      assert a + b == b;
    } else {
      assert (a + b)[1..] == a[1..] + b && (a + b)[0] == a[0];
      EmitConcat(plans, a[1..], b, js.After(a[0]));
    }
  }

  lemma EmitCons(plans: Plans, item: Item, rest: seq<Item>, js: Counters)
    requires AllWritable(plans, [item] + rest, js)
    ensures Writable(plans, item, js) && AllWritable(plans, rest, js.After(item))
    ensures Emit(plans, [item] + rest, js) == ItemBits(plans, item, js) + Emit(plans, rest, js.After(item))
  {
    hide Writable, ItemBits, Counters.After;
    assert ([item] + rest)[1..] == rest;
  }

  /** A symbol and the raw field behind it. */
  lemma EmitPair(plans: Plans, a: Item, b: Item, js: Counters)
    requires AllWritable(plans, [a, b], js)
    ensures Writable(plans, a, js) && Writable(plans, b, js.After(a))
    ensures Emit(plans, [a, b], js) == ItemBits(plans, a, js) + ItemBits(plans, b, js.After(a))
    ensures js.AfterAll([a, b]) == js.After(a).After(b)
  {
    hide Writable, ItemBits, Counters.After;
    assert [a, b] == [a] + [b] && [b] == [b] + [];
    EmitCons(plans, a, [b], js);
    EmitCons(plans, b, [], js.After(a));
    assert [a, b][1..] == [b] && [b][1..] == [];
    assert js.After(a).AfterAll([b]) == js.After(a).After(b).AfterAll([]);
  }

  /** The items of command `i`, then those of the rest. */
  lemma CommandEmits(plans: Plans, commands: seq<Command>, i: nat, text: seq<byte>, k: nat, next: nat,
                     context: ContextOf, x: bool, js: Counters) returns (j1: Counters, j2: Counters, j3: Counters)
    requires AllSized(commands, x) && k + Span(commands, i) <= |text| && i < |commands| && Sized(commands[i], x)
    requires next == k + commands[i].insertLen + commands[i].CopyLen() && next + Span(commands, i + 1) <= |text|
    requires AllWritable(plans, ItemsFrom(commands, i, text, k, context, x), js)
    ensures j1 == js.AfterAll(LengthItems(commands[i], x))
    ensures j2 == j1.AfterAll(LiteralItems(text, k, commands[i].insertLen, context))
    ensures j3 == j2.AfterAll(DistanceItems(commands[i]))
    ensures AllWritable(plans, LengthItems(commands[i], x), js)
    ensures AllWritable(plans, LiteralItems(text, k, commands[i].insertLen, context), j1)
    ensures AllWritable(plans, DistanceItems(commands[i]), j2)
    ensures AllWritable(plans, ItemsFrom(commands, i + 1, text, next, context, x), j3)
    ensures Emit(plans, ItemsFrom(commands, i, text, k, context, x), js)
         == Emit(plans, LengthItems(commands[i], x), js)
            + (Emit(plans, LiteralItems(text, k, commands[i].insertLen, context), j1)
               + (Emit(plans, DistanceItems(commands[i]), j2)
                  + Emit(plans, ItemsFrom(commands, i + 1, text, next, context, x), j3)))
  {
    hide AllWritable, Emit, LengthItems, LiteralItems, DistanceItems, Command.CopyLen, Command.CopyLenCode,
      Command.HasDistance, Writable, ItemBits, Counters.AfterAll;
    var c := commands[i];
    var a, b, d := LengthItems(c, x), LiteralItems(text, k, c.insertLen, context), DistanceItems(c);
    var tail := ItemsFrom(commands, i + 1, text, next, context, x);
    assert ItemsFrom(commands, i, text, k, context, x) == a + (b + (d + tail));
    j1 := js.AfterAll(a);
    j2 := j1.AfterAll(b);
    j3 := j2.AfterAll(d);
    EmitConcat(plans, a, b + (d + tail), js);
    EmitConcat(plans, b, d + tail, j1);
    EmitConcat(plans, d, tail, j2);
  }

  /** The counters after the literals of one command. */
  lemma {:induction false} AfterLiterals(text: seq<byte>, k: nat, n: nat, context: ContextOf, js: Counters)
    requires k + n <= |text|
    ensures js.AfterAll(LiteralItems(text, k, n, context)) == js.(literals := js.literals + n)
    decreases n
  {
    hide Previous;
    if n > 0 {
      var items := LiteralItems(text, k, n, context);
      assert items[1..] == LiteralItems(text, k + 1, n - 1, context);
      AfterLiterals(text, k + 1, n - 1, context, js.(literals := js.literals + 1));
    }
  }

  // ------------------------------------------------------ one code per stream is a plan

  /** A single block of the only type, as long as a meta-block can be. */
  const LONE_SPLIT: BlockSplit := BlockSplit(1, 1, [0], [MAX_MLEN])

  function LoneCoding(code: PrefixCode, contextBits: nat): Coding {
    Coding(1, NO_CODE, NO_CODE, contextBits, ZeroEntries(Pow2(contextBits)), [code])
  }

  function LonePlans(codes: Codes): Plans {
    Plans(Plan(LONE_SPLIT, LoneCoding(codes.literal, 6)), Plan(LONE_SPLIT, LoneCoding(codes.command, 0)),
          Plan(LONE_SPLIT, LoneCoding(codes.distance, 2)))
  }

  lemma LoneCodingComplete(code: PrefixCode, contextBits: nat)
    requires code.PrefixFree()
    ensures LoneCoding(code, contextBits).Complete() && Switchable(LONE_SPLIT, LoneCoding(code, contextBits))
    ensures LONE_SPLIT.Valid() && LONE_SPLIT.Total() == MAX_MLEN
  {
    hide PrefixCode.PrefixFree;
    ShlTimes(1, contextBits);
    assert SumTo([MAX_MLEN], 1) == SumTo([MAX_MLEN], 0) + MAX_MLEN;
  }

  /** A lone block needs no switch. */
  lemma {:induction false} LoneCursor(j: nat)
    requires j <= MAX_MLEN && LONE_SPLIT.Valid()
    ensures LONE_SPLIT.At(j) == Cursor(0, MAX_MLEN - j)
  {
    hide BlockSplit.Valid;
    if j > 0 { LoneCursor(j - 1); }
  }

  lemma LoneSymbol(code: PrefixCode, contextBits: nat, j: nat, symbol: nat, context: nat)
    requires code.PrefixFree() && symbol in code.symbols && j < MAX_MLEN && context < Pow2(contextBits)
    ensures Encodable(LONE_SPLIT, LoneCoding(code, contextBits), j, symbol, context)
    ensures SymbolBits(LONE_SPLIT, LoneCoding(code, contextBits), j, symbol, context) == code.Word(symbol)
  {
    hide PrefixCode.PrefixFree, Pow2, SumTo, Shl;
    LoneCodingComplete(code, contextBits);
    LoneCursor(j);
    LoneCursor(j + 1);
    ShlZero(contextBits);
  }

  /** Contexts are within the sixty-four and four the format has room for. */
  ghost predicate InContext(item: Item) {
    item.Symbol? ==>
      item.context < match item.stream case LiteralStream => 64 case CommandStream => 1 case DistanceStream => 4
  }

  ghost predicate AllInContext(items: seq<Item>) {
    forall i :: 0 <= i < |items| ==> InContext(items[i])
  }

  ghost predicate CodesPrefixFree(codes: Codes) {
    codes.literal.PrefixFree() && codes.command.PrefixFree() && codes.distance.PrefixFree()
  }

  lemma LoneItem(codes: Codes, item: Item, js: Counters)
    requires CodesPrefixFree(codes) && codes.Has(item) && InContext(item)
    requires item.Symbol? ==> js.Of(item.stream) < MAX_MLEN
    ensures Writable(LonePlans(codes), item, js) && ItemBits(LonePlans(codes), item, js) == codes.Word(item)
  {
    hide PrefixCode.PrefixFree, Pow2, Encodable, SymbolBits, LoneCoding;
    Pow2Values();
    PowZero();
    match item
    case Raw(n, v) =>
    case Symbol(LiteralStream, s, c) => LoneSymbol(codes.literal, 6, js.literals, s, c);
    case Symbol(CommandStream, s, c) => LoneSymbol(codes.command, 0, js.commands, s, c);
    case Symbol(DistanceStream, s, c) => LoneSymbol(codes.distance, 2, js.distances, s, c);
  }

  /** The simple form is the block form with one block and one tree per stream. */
  lemma {:induction false} LoneEmit(codes: Codes, items: seq<Item>, js: Counters)
    requires CodesPrefixFree(codes) && codes.HasAll(items) && AllInContext(items)
    requires js.literals + |SymbolsOf(items, LiteralStream)| <= MAX_MLEN
    requires js.commands + |SymbolsOf(items, CommandStream)| <= MAX_MLEN
    requires js.distances + |SymbolsOf(items, DistanceStream)| <= MAX_MLEN
    ensures AllWritable(LonePlans(codes), items, js) && Emit(LonePlans(codes), items, js) == codes.Words(items)
    decreases |items|
  {
    hide PrefixCode.PrefixFree, Pow2, Writable, ItemBits, Codes.Word, Codes.Has, InContext, CodesPrefixFree, LonePlans;
    if |items| > 0 {
      assert codes.Has(items[0]) && InContext(items[0]);
      assert forall i :: 0 <= i < |items[1..]| ==> items[1..][i] == items[i + 1];
      LoneItem(codes, items[0], js);
      LoneEmit(codes, items[1..], js.After(items[0]));
    }
  }
}
