/** A decoder of compressed meta-block data, written from sections 4, 5, 6 and 10 of RFC 7932, and
    the proof that it reads back what the writers emit. Copies that reach past the window address a
    dictionary, which is not part of this model, so the decoder rejects them. */
module Decoding {
  import opened Bits
  import opened BlockEncoders
  import opened BlockSplits
  import opened Commands
  import opened DataWriting
  import opened Distances
  import opened Headers
  import opened PackedCommands
  import opened SymbolStreams

  // ------------------------------------------------------------------------- distances

  /** The last four distances, most recent first. */
  type Ring = r: seq<nat> | |r| == 4 witness [4, 11, 15, 16]

  /** RFC 7932, section 4: the distance of one of the sixteen short codes; it may be invalid. */
  function ShortDistance(ring: Ring, code: nat): int
    requires code < 16
  {
    if code < 4 then ring[code]
    else
      var last := if code < 10 then ring[0] else ring[1];
      var step := (if code < 10 then code - 4 else code - 10) / 2 + 1;
      if code % 2 == 0 then last - step else last + step
  }

  /** The table of section 4 of RFC 7932: which of the last distances, and what is added to it. */
  const SHORT_BACK: seq<nat> := [0, 1, 2, 3, 0, 0, 0, 0, 0, 0, 1, 1, 1, 1, 1, 1]
  const SHORT_STEP: seq<int> := [0, 0, 0, 0, -1, 1, -2, 2, -3, 3, -1, 1, -2, 2, -3, 3]

  lemma ShortDistanceTable(ring: Ring, code: nat)
    requires code < 16
    ensures ShortDistance(ring, code) == ring[SHORT_BACK[code]] + SHORT_STEP[code]
  {
  }

  function DistanceOf(ring: Ring, symbol: nat, extra: nat, numDirect: nat, postfixBits: nat): int {
    if symbol < NUM_DISTANCE_SHORT_CODES then ShortDistance(ring, symbol)
    else Distance(symbol, extra, numDirect, postfixBits)
  }

  /** Every distance but a repeat of the last one is remembered. */
  function Remember(ring: Ring, symbol: nat, distance: nat): Ring {
    if symbol == 0 then ring else [distance, ring[0], ring[1], ring[2]]
  }

  /** `n` bytes copied from `distance` back; source and destination may overlap. */
  function CopyFrom(out: seq<byte>, distance: nat, n: nat): (r: seq<byte>)
    requires 1 <= distance <= |out|
    ensures |r| == |out| + n
    decreases n
  {
    if n == 0 then out else CopyFrom(out + [out[|out| - distance]], distance, n - 1)
  }

  // --------------------------------------------------------------------- the data decoder

  /** What the header of a meta-block tells the decoder. */
  datatype DataHeader = DataHeader(literal: Coding, command: Coding, distance: Coding, modes: seq<nat>,
                                   numDirect: nat, postfixBits: nat)

  datatype Blocks = Blocks(literal: BlockState, command: BlockState, distance: BlockState)

  /** Context of a literal by context mode and the two bytes before it. */
  type ModeContext = (nat, byte, byte) -> nat

  function ReadLiterals(d: DataHeader, contexts: ModeContext, n: nat, st: BlockState, out: seq<byte>, s: bits)
    : (r: Read<(BlockState, seq<byte>)>)
    ensures r.Got? ==> |r.value.1| == |out| + n
    decreases n
  {
    if n == 0 then Got((st, out), s)
    else
      var (st, s) :- ReadAdvance(d.literal, st, s);
      if st.kind >= |d.modes| then Fail
      else
        var context := contexts(d.modes[st.kind], Previous(out, |out|, 1), Previous(out, |out|, 2));
        var (literal, s) :- ReadInContext(d.literal, st.kind, context, s);
        if literal >= 256 then Fail else ReadLiterals(d, contexts, n - 1, st, out + [literal], s)
  }

  /** Insert length, copy length, and whether the last distance is implied. */
  datatype Lengths = Lengths(insert: nat, copy: nat, implied: bool)

  function ReadCommandLengths(d: DataHeader, st: BlockState, s: bits): (r: Read<(BlockState, Lengths)>)
    ensures r.Got? ==> r.value.1.copy >= 2
  {
    var (st, s) :- ReadAdvance(d.command, st, s);
    var (symbol, s) :- ReadInContext(d.command, st.kind, 0, s);
    if symbol >= NUM_COMMAND_SYMBOLS then Fail
    else
      var (insCode, copyCode, implied) := SplitCommandSymbol(symbol);
      SplitCodesBelow(symbol);
      var (lengths, s) :- ReadLengths(insCode, copyCode, s);
      Got((st, Lengths(lengths.0, lengths.1, implied)), s)
  }

  lemma SplitCodesBelow(symbol: nat)
    requires symbol < NUM_COMMAND_SYMBOLS
    ensures var (insCode, copyCode, implied) := SplitCommandSymbol(symbol); insCode < 24 && copyCode < 24
  {
    CellTable(symbol / 64);
  }

  /** Distance symbol and extra bits; nothing is read when the last distance is implied. */
  function ReadDistance(d: DataHeader, copy: nat, implied: bool, st: BlockState, s: bits): Read<(BlockState, nat, nat)>
    requires copy >= 2
  {
    if implied then Got((st, 0, 0), s)
    else
      var (st, s) :- ReadAdvance(d.distance, st, s);
      var (symbol, s) :- ReadInContext(d.distance, st.kind, if copy > 4 then 3 else copy - 2, s);
      var (extra, s) :- ReadBits(ExtraBits(symbol, d.numDirect, d.postfixBits), s);
      Got((st, symbol, extra), s)
  }

  datatype Progress = Progress(blocks: Blocks, ring: Ring, out: seq<byte>)

  /** One command. The data ends as soon as `end` bytes are out, before any copy. */
  function ReadCommand(d: DataHeader, contexts: ModeContext, window: nat, end: nat, p: Progress,
                       s: bits): (r: Read<Progress>)
    requires |p.out| < end
    ensures r.Got? ==> |p.out| < |r.value.out| <= end
  {
    var (command, s) :- ReadCommandLengths(d, p.blocks.command, s);
    var (st, lengths) := command;
    if |p.out| + lengths.insert > end then Fail
    else
      var (literals, s) :- ReadLiterals(d, contexts, lengths.insert, p.blocks.literal, p.out, s);
      var (literal, out) := literals;
      if |out| == end then Got(Progress(Blocks(literal, st, p.blocks.distance), p.ring, out), s)
      else
        var (distance, s) :- ReadDistance(d, lengths.copy, lengths.implied, p.blocks.distance, s);
        var (copied, s) :- CopyBack(d, window, end, p.ring, out, lengths.copy, distance.1, distance.2, s);
        Got(Progress(Blocks(literal, st, distance.0), copied.0, copied.1), s)
  }

  /** The copy itself: an invalid distance, one past the window, or a copy past the end fails. */
  function CopyBack(d: DataHeader, window: nat, end: nat, ring: Ring, out: seq<byte>, n: nat, symbol: nat, extra: nat,
                    s: bits)
    : (r: Read<(Ring, seq<byte>)>)
    ensures r.Got? ==> |r.value.1| == |out| + n <= end
  {
    var distance := DistanceOf(ring, symbol, extra, d.numDirect, d.postfixBits);
    if distance <= 0 || distance > window || distance > |out| || |out| + n > end then Fail
    else Got((Remember(ring, symbol, distance), CopyFrom(out, distance, n)), s)
  }

  function ReadData(d: DataHeader, contexts: ModeContext, window: nat, end: nat, p: Progress, s: bits)
    : Read<(Ring, seq<byte>)>
    requires |p.out| <= end
    decreases end - |p.out|
  {
    if |p.out| == end then Got((p.ring, p.out), s)
    else
      var (p, s) :- ReadCommand(d, contexts, window, end, p, s);
      ReadData(d, contexts, window, end, p, s)
  }

  // ------------------------------------------------- what the commands have to describe

  /** The distance a command copies from. */
  function CommandDistance(c: Command, ring: Ring, numDirect: nat, postfixBits: nat): int {
    DistanceOf(ring, c.DistanceCode(), c.distExtra, numDirect, postfixBits)
  }

  /** A copy the decoder can make: its distance is inside the window and the text, and the text
      repeats itself at that distance for the length of the copy. */
  ghost predicate Repeats(text: seq<byte>, at: nat, distance: int, n: nat, window: nat) {
    && 1 <= distance <= window && distance <= at && at + n <= |text|
    && forall j :: at <= j < at + n ==> text[j] == text[j - distance]
  }

  /** The commands from the `i`th on stand for the text from `k` on: literals and copies in turn,
      none of them a dictionary word, with only a final command that copies nothing. They take the
      distance ring from `ring` to `after`. */
  ghost predicate Describes(commands: seq<Command>, i: nat, params: DistanceParams, x: bool, ring: Ring, after: Ring,
                            window: nat, text: seq<byte>, k: nat)
    decreases |commands| - i
  {
    if i >= |commands| then k == |text| && ring == after
    else
      var c := commands[i];
      var at := k + c.insertLen;
      if c.CopyLen() == 0 then
        i + 1 == |commands| && Trailing(c, x) && at == |text| && ring == after
      else
        var distance := CommandDistance(c, ring, params.numDirect, params.postfixBits);
        && PlainCopy(c, params, x) && Repeats(text, at, distance, c.CopyLen(), window)
        && Describes(commands, i + 1, params, x, Remember(ring, c.DistanceCode(), distance), after, window, text,
                     at + c.CopyLen())
  }

  /** A text that repeats at a distance is the copy the decoder makes. */
  lemma {:induction false} RepeatsIsCopy(text: seq<byte>, at: nat, distance: nat, n: nat, window: nat)
    requires Repeats(text, at, distance, n, window)
    ensures CopyFrom(text[..at], distance, n) == text[..at + n]
    decreases n
  {
    if n > 0 {
      assert text[..at + 1] == text[..at] + [text[at - distance]];
      RepeatsIsCopy(text, at + 1, distance, n - 1, window);
    }
  }

  // ------------------------------------------------------------------------- round trips

  function AtMode(contexts: ModeContext, mode: nat): ContextOf { (a, b) => contexts(mode, a, b) }

  function Modes(mode: nat, n: nat): (modes: seq<nat>)
    ensures |modes| == n && forall i :: 0 <= i < n ==> modes[i] == mode
  {
    seq(n, _ => mode)
  }

  /** The header that announces the plans, with one context mode for every literal block type. */
  function HeaderOf(plans: Plans, mode: nat, params: DistanceParams): DataHeader {
    DataHeader(plans.literal.coding, plans.command.coding, plans.distance.coding,
               Modes(mode, plans.literal.coding.numTypes), params.numDirect, params.postfixBits)
  }

  /** A stream can be read `j` symbols in. */
  ghost predicate Within(plan: Plan, j: nat) {
    plan.split.Valid() && j <= plan.split.Total() && j <= MAX_MLEN
  }

  ghost predicate AllWithin(plans: Plans, js: Counters) {
    Within(plans.literal, js.literals) && Within(plans.command, js.commands) && Within(plans.distance, js.distances)
  }

  ghost function BlocksAt(plans: Plans, js: Counters): Blocks
    requires AllWithin(plans, js)
  {
    Blocks(StateAt(plans.literal.split, js.literals), StateAt(plans.command.split, js.commands),
           StateAt(plans.distance.split, js.distances))
  }

  /** Any symbol of any stream: the decoder follows the block switch and reads the symbol. */
  lemma SymbolRoundTrip(plan: Plan, j: nat, symbol: nat, context: nat, rest: bits) returns (word: bits)
    requires Encodable(plan.split, plan.coding, j, symbol, context) && Within(plan, j) && j < MAX_MLEN
    ensures Within(plan, j + 1)
    ensures ReadAdvance(plan.coding, StateAt(plan.split, j),
                        SymbolBits(plan.split, plan.coding, j, symbol, context) + rest)
         == Got(StateAt(plan.split, j + 1), word)
    ensures StateAt(plan.split, j + 1).kind < plan.coding.numTypes
    ensures ReadInContext(plan.coding, StateAt(plan.split, j + 1).kind, context, word) == Got(symbol, rest)
  {
    hide Pow2, ToBits, Bit, OpeningBits, ReadAdvance, ReadInContext, SumTo;
    var kind := KindAt(plan.split, j);
    word := plan.coding.Tree(kind, context).Word(symbol) + rest;
    assert SymbolBits(plan.split, plan.coding, j, symbol, context) + rest
        == OpeningBits(plan.split, plan.coding, j) + word;
    AdvanceRoundTrip(plan.split, plan.coding, j, word);
    InContextRoundTrip(plan.coding, kind, context, symbol, rest);
  }

  lemma {:induction false} LiteralsRoundTrip(plans: Plans, mode: nat, params: DistanceParams, contexts: ModeContext,
                                             text: seq<byte>, k: nat, n: nat, js: Counters, rest: bits)
    requires k + n <= |text| && AllWritable(plans, LiteralItems(text, k, n, AtMode(contexts, mode)), js)
    requires Within(plans.literal, js.literals) && js.literals + n <= MAX_MLEN
    ensures Within(plans.literal, js.literals + n)
    ensures ReadLiterals(HeaderOf(plans, mode, params), contexts, n, StateAt(plans.literal.split, js.literals),
                         text[..k],
                         Emit(plans, LiteralItems(text, k, n, AtMode(contexts, mode)), js) + rest)
         == Got((StateAt(plans.literal.split, js.literals + n), text[..k + n]), rest)
    decreases n
  {
    hide Pow2, ToBits, Bit, ReadAdvance, ReadInContext, Within, StateAt, Encodable, SymbolBits;
    var context := AtMode(contexts, mode);
    var items := LiteralItems(text, k, n, context);
    if n == 0 {
      assert Emit(plans, items, js) + rest == rest;
    } else {
      var item := LiteralItem(text, k, context);
      var tail := LiteralItems(text, k + 1, n - 1, context);
      EmitCons(plans, item, tail, js);
      var after := Emit(plans, tail, js.After(item)) + rest;
      assert Emit(plans, items, js) + rest == ItemBits(plans, item, js) + after;
      var word := SymbolRoundTrip(plans.literal, js.literals, item.symbol, item.context, after);
      PreviousAgree(text, k);
      assert text[..k + 1] == text[..k] + [text[k]];
      LiteralsRoundTrip(plans, mode, params, contexts, text, k + 1, n - 1, js.After(item), rest);
    }
  }

  lemma PreviousAgree(text: seq<byte>, k: nat)
    requires k <= |text|
    ensures forall back :: back > 0 ==> Previous(text[..k], k, back) == Previous(text, k, back)
  {
  }

  /** The symbol and extra bits of a command's lengths read back. */
  lemma LengthsRoundTrip(plans: Plans, mode: nat, params: DistanceParams, c: Command, x: bool, useLast: bool,
                         js: Counters, rest: bits)
    requires Sized(c, x) && LengthsFit(c, x, useLast) && AllWritable(plans, LengthItems(c, x), js)
    requires Within(plans.command, js.commands) && js.commands < MAX_MLEN
    ensures Within(plans.command, js.commands + 1)
    ensures ReadCommandLengths(HeaderOf(plans, mode, params), StateAt(plans.command.split, js.commands),
                               Emit(plans, LengthItems(c, x), js) + rest)
         == Got((StateAt(plans.command.split, js.commands + 1),
                 Lengths(c.insertLen, c.CopyLenCode(x), c.cmdPrefix < 128)), rest)
    ensures c.cmdPrefix < 128 ==> useLast
  {
    hide Pow2, ToBits, Bit, ReadAdvance, ReadInContext, Within, StateAt, Encodable, SymbolBits, InsertLengthCode,
      CopyLengthCode, CombineLengthCodes, Command.CopyLenCode, ExtraBitsOf, ReadLengths, SplitCommandSymbol,
      AllWritable, Emit;
    var items := LengthItems(c, x);
    EmitPair(plans, items[0], items[1], js);
    var copyLen := c.CopyLenCode(x);
    var (n, v) := ExtraBitsOf(c.insertLen, copyLen);
    var after := ToBits(n, v) + rest;
    assert items == [items[0], items[1]];
    assert Emit(plans, items, js) + rest == ItemBits(plans, items[0], js) + after;
    var word := SymbolRoundTrip(plans.command, js.commands, c.cmdPrefix, 0, after);
    InsertBelow(c.insertLen);
    CopyBelow(copyLen);
    CommandSymbolRoundTrip(InsertLengthCode(c.insertLen), CopyLengthCode(copyLen), useLast);
    ImpliedBelow(c.cmdPrefix);
    ReadLengthsInverts(c.insertLen, copyLen, rest);
  }

  lemma InsertBelow(insertLen: nat)
    requires insertLen < INSERT_LIMIT
    ensures InsertLengthCode(insertLen) < 24
  {
    InsertExtraFits(insertLen);
  }

  lemma CopyBelow(copyLen: nat)
    requires 2 <= copyLen < COPY_LIMIT
    ensures CopyLengthCode(copyLen) < 24
  {
    CopyExtraFits(copyLen);
  }

  lemma ImpliedBelow(symbol: nat)
    requires symbol < NUM_COMMAND_SYMBOLS
    ensures SplitCommandSymbol(symbol).2 == (symbol < 128)
  {
  }

  /** The context a distance is written in is the one the decoder derives from the copy length. */
  lemma ContextOfLength(c: Command, x: bool, useLast: bool)
    requires LengthsFit(c, x, useLast)
    ensures c.DistanceContext() == if c.CopyLenCode(x) > 4 then 3 else c.CopyLenCode(x) - 2
  {
    hide Pow2, InsertLengthCode, CopyLengthCode, CombineLengthCodes, Command.CopyLenCode, Shl, Shr, Low;
    var copyLen := c.CopyLenCode(x);
    var i, k := InsertLengthCode(c.insertLen), CopyLengthCode(copyLen);
    InsertBelow(c.insertLen);
    CopyBelow(copyLen);
    CombinedValue(i, k, useLast);
    var cell := if useLast && i < 8 && k < 16 then k / 8 else Cell(i / 8, k / 8);
    PositionInCell(cell, i % 8, k % 8);
    assert c.cmdPrefix / 64 == cell && c.cmdPrefix % 8 == k % 8;
    ShortCopyCode(copyLen);
  }

  /** The eight shortest copies have the first eight codes. */
  lemma ShortCopyCode(copyLen: nat)
    requires 2 <= copyLen < COPY_LIMIT
    ensures copyLen < 10 ==> CopyLengthCode(copyLen) == copyLen - 2
    ensures copyLen >= 10 ==> CopyLengthCode(copyLen) >= 8
  {
    hide ClassOf;
    TablesAscend();
    CopyCodeClass(copyLen);
    var k := CopyLengthCode(copyLen);
    AscendingOrder(COPY_BASE, if k < 8 then k + 1 else 8, 8);
  }

  /** Distance symbol and extra bits read back; nothing was written when the distance is implied. */
  lemma DistanceRoundTrip(plans: Plans, mode: nat, params: DistanceParams, c: Command, x: bool, js: Counters,
                          rest: bits)
    requires PlainCopy(c, params, x) && c.CopyLen() != 0 && AllWritable(plans, DistanceItems(c), js)
    requires Within(plans.distance, js.distances) && js.distances < MAX_MLEN
    requires c.cmdPrefix < 128 ==> c.DistanceCode() == 0
    ensures var after := if c.HasDistance() then js.distances + 1 else js.distances;
            && Within(plans.distance, after)
            && ReadDistance(HeaderOf(plans, mode, params), c.CopyLen(), c.cmdPrefix < 128,
                            StateAt(plans.distance.split, js.distances),
                            Emit(plans, DistanceItems(c), js) + rest)
               == Got((StateAt(plans.distance.split, after), c.DistanceCode(),
                       if c.cmdPrefix < 128 then 0 else c.distExtra), rest)
  {
    hide Pow2, ToBits, Bit, ReadAdvance, ReadInContext, Within, StateAt, Encodable, SymbolBits, InsertLengthCode,
      CopyLengthCode, CombineLengthCodes, Command.CopyLenCode, Command.CopyLen, Command.DistanceCode,
      Command.DistanceExtraBits, Command.DistanceContext, ExtraBits, AllWritable, Emit, ReadBits, LengthCode;
    var items := DistanceItems(c);
    if c.HasDistance() {
      EmitPair(plans, items[0], items[1], js);
      var after := ToBits(c.DistanceExtraBits(), c.distExtra) + rest;
      assert items == [items[0], items[1]];
      assert Emit(plans, items, js) + rest == ItemBits(plans, items[0], js) + after;
      ContextOfLength(c, x, c.DistanceCode() == 0);
      var word := SymbolRoundTrip(plans.distance, js.distances, c.DistanceCode(), c.DistanceContext(), after);
      ReadBitsInverts(c.DistanceExtraBits(), c.distExtra, rest);
    } else {
      NothingEmitted(plans, js);
      assert [] + rest == rest;
    }
  }

  lemma NothingEmitted(plans: Plans, js: Counters)
    ensures AllWritable(plans, [], js) && Emit(plans, [], js) == []
  {
  }

  // ---------------------------------------------------------------------- whole data

  /** A copy whose distance the ring or the code gives is made as the text has it. */
  lemma CopyRoundTrip(plans: Plans, mode: nat, params: DistanceParams, c: Command, ring: Ring, window: nat,
                      text: seq<byte>, at: nat, extra: nat, rest: bits)
    requires c.CopyLen() > 0
    requires Repeats(text, at, CommandDistance(c, ring, params.numDirect, params.postfixBits), c.CopyLen(), window)
    requires extra == c.distExtra || c.DistanceCode() == 0
    ensures var distance := CommandDistance(c, ring, params.numDirect, params.postfixBits);
            CopyBack(HeaderOf(plans, mode, params), window, |text|, ring, text[..at], c.CopyLen(), c.DistanceCode(),
                     extra, rest)
            == Got((Remember(ring, c.DistanceCode(), distance), text[..at + c.CopyLen()]), rest)
  {
    hide Pow2, Distance, Command.CopyLen, Command.DistanceCode, ShortDistance;
    var distance := CommandDistance(c, ring, params.numDirect, params.postfixBits);
    RepeatsIsCopy(text, at, distance, c.CopyLen(), window);
  }

  /** Where decoding stands once the commands before the `i`th are done. */
  ghost function ProgressAt(plans: Plans, js: Counters, ring: Ring, text: seq<byte>, k: nat): Progress
    requires AllWithin(plans, js) && k <= |text|
  {
    Progress(BlocksAt(plans, js), ring, text[..k])
  }

  /** The counters leave room for the commands still to come. */
  ghost predicate Room(js: Counters, k: nat, text: seq<byte>) {
    && k <= |text|
    && js.literals + (|text| - k) <= MAX_MLEN && js.commands + (|text| - k) <= MAX_MLEN
        && js.distances + (|text| - k) <= MAX_MLEN
  }

  lemma AfterLengths(c: Command, x: bool, js: Counters)
    requires Sized(c, x)
    ensures js.AfterAll(LengthItems(c, x)) == js.(commands := js.commands + 1)
  {
    hide ExtraBitsOf, Command.CopyLenCode;
    var items := LengthItems(c, x);
    AfterPair(items[0], items[1], js);
    assert items == [items[0], items[1]];
  }

  lemma AfterPair(a: Item, b: Item, js: Counters)
    ensures js.AfterAll([a, b]) == js.After(a).After(b)
  {
    hide Counters.After;
    assert [a, b][1..] == [b] && [b][1..] == [];
    assert js.After(a).AfterAll([b]) == js.After(a).After(b).AfterAll([]);
  }

  lemma AfterDistance(c: Command, js: Counters)
    ensures js.AfterAll(DistanceItems(c)) == if c.HasDistance() then js.(distances := js.distances + 1) else js
  {
    hide Command.DistanceCode, Command.DistanceExtraBits, Command.DistanceContext, Command.HasDistance;
    var items := DistanceItems(c);
    if c.HasDistance() {
      AfterPair(items[0], items[1], js);
      assert items == [items[0], items[1]];
    }
  }

  /** Everything one command emits. */
  ghost predicate CommandWritable(plans: Plans, c: Command, x: bool, text: seq<byte>, k: nat, context: ContextOf,
                                  js: Counters)
    requires Sized(c, x) && k + c.insertLen <= |text|
  {
    var j1 := js.AfterAll(LengthItems(c, x));
    var j2 := j1.AfterAll(LiteralItems(text, k, c.insertLen, context));
    && AllWritable(plans, LengthItems(c, x), js) && AllWritable(plans, LiteralItems(text, k, c.insertLen, context), j1)
    && AllWritable(plans, DistanceItems(c), j2)
  }

  ghost function CommandBits(plans: Plans, c: Command, x: bool, text: seq<byte>, k: nat, context: ContextOf,
                             js: Counters, tail: bits)
    : bits
    requires Sized(c, x) && k + c.insertLen <= |text| && CommandWritable(plans, c, x, text, k, context, js)
  {
    var j1 := js.AfterAll(LengthItems(c, x));
    var j2 := j1.AfterAll(LiteralItems(text, k, c.insertLen, context));
    Emit(plans, LengthItems(c, x), js)
    + (Emit(plans, LiteralItems(text, k, c.insertLen, context), j1) + (Emit(plans, DistanceItems(c), j2) + tail))
  }

  /** The counters once the command is written. */
  function AfterCommand(c: Command, js: Counters): Counters {
    Counters(js.literals + c.insertLen, js.commands + 1, js.distances + if c.HasDistance() then 1 else 0)
  }

  /** The lengths and the literals of any command. */
  lemma OpeningRoundTrip(plans: Plans, mode: nat, params: DistanceParams, contexts: ModeContext, c: Command, x: bool,
                         useLast: bool, text: seq<byte>, k: nat, js: Counters, tail: bits) returns (s1: bits, s2: bits)
    requires Sized(c, x) && LengthsFit(c, x, useLast) && k + c.insertLen <= |text| && k < |text|
    requires AllWithin(plans, js) && Room(js, k, text)
             && CommandWritable(plans, c, x, text, k, AtMode(contexts, mode), js)
    ensures Within(plans.command, js.commands + 1) && Within(plans.literal, js.literals + c.insertLen)
    ensures ReadCommandLengths(HeaderOf(plans, mode, params), StateAt(plans.command.split, js.commands),
                               CommandBits(plans, c, x, text, k, AtMode(contexts, mode), js, tail))
         == Got((StateAt(plans.command.split, js.commands + 1),
                 Lengths(c.insertLen, c.CopyLenCode(x), c.cmdPrefix < 128)), s1)
    ensures ReadLiterals(HeaderOf(plans, mode, params), contexts, c.insertLen,
                         StateAt(plans.literal.split, js.literals), text[..k], s1)
         == Got((StateAt(plans.literal.split, js.literals + c.insertLen), text[..k + c.insertLen]), s2)
    ensures var j2 := AfterCommand(c, js).(distances := js.distances);
            AllWritable(plans, DistanceItems(c), j2) && s2 == Emit(plans, DistanceItems(c), j2) + tail
    ensures c.cmdPrefix < 128 ==> useLast
  {
    hide Pow2, Within, StateAt, Command.CopyLenCode, Command.CopyLen, Command.HasDistance, AllWritable, Emit,
      LengthItems, LiteralItems, DistanceItems, ReadCommandLengths, ReadLiterals, HeaderOf, LengthsFit,
      Counters.AfterAll, AtMode;
    var context := AtMode(contexts, mode);
    AfterLengths(c, x, js);
    AfterLiterals(text, k, c.insertLen, context, js.(commands := js.commands + 1));
    var j1 := js.(commands := js.commands + 1);
    s2 := Emit(plans, DistanceItems(c), j1.(literals := j1.literals + c.insertLen)) + tail;
    s1 := Emit(plans, LiteralItems(text, k, c.insertLen, context), j1) + s2;
    LengthsRoundTrip(plans, mode, params, c, x, useLast, js, s1);
    LiteralsRoundTrip(plans, mode, params, contexts, text, k, c.insertLen, j1, s2);
  }

  /** A command that copies. */
  lemma CopyCommandRoundTrip(plans: Plans, mode: nat, params: DistanceParams, contexts: ModeContext, c: Command,
                             x: bool, ring: Ring, window: nat, text: seq<byte>, k: nat, js: Counters, tail: bits)
    requires Sized(c, x) && k + c.insertLen + c.CopyLen() <= |text| && k < |text| && c.CopyLen() > 0
    requires AllWithin(plans, js) && Room(js, k, text)
             && CommandWritable(plans, c, x, text, k, AtMode(contexts, mode), js)
    requires PlainCopy(c, params, x)
    requires Repeats(text, k + c.insertLen, CommandDistance(c, ring, params.numDirect, params.postfixBits),
                     c.CopyLen(), window)
    ensures AllWithin(plans, AfterCommand(c, js))
    ensures var distance := CommandDistance(c, ring, params.numDirect, params.postfixBits);
            (ReadCommand(HeaderOf(plans, mode, params), contexts, window, |text|, ProgressAt(plans, js, ring, text, k),
                        CommandBits(plans, c, x, text, k, AtMode(contexts, mode), js, tail))
         == Got(ProgressAt(plans, AfterCommand(c, js), Remember(ring, c.DistanceCode(), distance), text,
                           k + c.insertLen + c.CopyLen()), tail))
  {
    hide Pow2, Within, StateAt, Command.CopyLenCode, Command.CopyLen, Command.HasDistance, Command.DistanceCode,
      AllWritable, Emit, LengthItems, LiteralItems, DistanceItems, ReadCommandLengths, ReadLiterals, ReadDistance,
      CopyBack, HeaderOf, LengthsFit, Counters.AfterAll, AtMode, CommandBits, CommandWritable, CommandDistance,
      Remember, Repeats, ExtraBits, Command.DistanceExtraBits;
    var s1, s2 := OpeningRoundTrip(plans, mode, params, contexts, c, x, c.DistanceCode() == 0, text, k, js, tail);
    var at := k + c.insertLen;
    DistanceRoundTrip(plans, mode, params, c, x, AfterCommand(c, js).(distances := js.distances), tail);
    CopyRoundTrip(plans, mode, params, c, ring, window, text, at, if c.cmdPrefix < 128 then 0 else c.distExtra, tail);
  }

  /** The last command, when it copies nothing. */
  lemma TrailingRoundTrip(plans: Plans, mode: nat, params: DistanceParams, contexts: ModeContext, c: Command, x: bool,
                          ring: Ring, window: nat, text: seq<byte>, k: nat, js: Counters, tail: bits)
    requires Sized(c, x) && k + c.insertLen == |text| && k < |text| && Trailing(c, x)
    requires AllWithin(plans, js) && Room(js, k, text)
             && CommandWritable(plans, c, x, text, k, AtMode(contexts, mode), js)
    ensures AllWithin(plans, AfterCommand(c, js))
    ensures ReadCommand(HeaderOf(plans, mode, params), contexts, window, |text|, ProgressAt(plans, js, ring, text, k),
                        CommandBits(plans, c, x, text, k, AtMode(contexts, mode), js, tail))
         == Got(ProgressAt(plans, AfterCommand(c, js), ring, text, |text|), tail)
  {
    hide Pow2, Within, StateAt, Command.CopyLenCode, Command.CopyLen, AllWritable, Emit, LengthItems, LiteralItems,
      ReadCommandLengths, ReadLiterals, ReadDistance, CopyBack, HeaderOf, LengthsFit, Counters.AfterAll, AtMode,
      CommandBits, CommandWritable;
    var s1, s2 := OpeningRoundTrip(plans, mode, params, contexts, c, x, false, text, k, js, tail);
    NothingEmitted(plans, AfterCommand(c, js));
    assert [] + tail == tail;
  }

  /** Section 10 of RFC 7932 reads back the text that the commands describe. */
  lemma {:induction false} DataRoundTrip(plans: Plans, mode: nat, params: DistanceParams, contexts: ModeContext,
                                         commands: seq<Command>, i: nat, x: bool, ring: Ring, after: Ring, window: nat,
                                         text: seq<byte>, k: nat, js: Counters, rest: bits)
    requires AllSized(commands, x) && i <= |commands| && k + Span(commands, i) <= |text|
    requires Describes(commands, i, params, x, ring, after, window, text, k)
    requires AllWithin(plans, js) && Room(js, k, text)
    requires AllWritable(plans, ItemsFrom(commands, i, text, k, AtMode(contexts, mode), x), js)
    ensures ReadData(HeaderOf(plans, mode, params), contexts, window, |text|, ProgressAt(plans, js, ring, text, k),
                     Emit(plans, ItemsFrom(commands, i, text, k, AtMode(contexts, mode), x), js) + rest)
         == Got((after, text), rest)
    decreases |commands| - i
  {
    hide Pow2, Within, StateAt, Command.CopyLenCode, Command.CopyLen, Command.HasDistance, Command.DistanceCode,
      AllWritable, Emit, LengthItems, LiteralItems, DistanceItems, ReadCommand, HeaderOf, Counters.AfterAll, AtMode,
      CommandBits, CommandWritable, CommandDistance, Remember, ExtraBits, Command.DistanceExtraBits, ReadData,
      ProgressAt, BlocksAt, AllWithin, Trailing, PlainCopy, Repeats, AfterCommand, ItemsFrom, Span;
    var context := AtMode(contexts, mode);
    var d := HeaderOf(plans, mode, params);
    if i == |commands| {
      DataEnds(d, contexts, window, plans, js, ring, text, rest);
      NoMoreItems(plans, commands, text, k, context, x, js);
      assert [] + rest == rest;
    } else {
      var c := commands[i];
      SpanStep(commands, i);
      var next := k + c.insertLen + c.CopyLen();
      var tail := DataStep(plans, commands, i, text, k, next, context, x, js, rest);
      var p, s := ProgressAt(plans, js, ring, text, k), CommandBits(plans, c, x, text, k, context, js, tail);
      if c.CopyLen() == 0 {
        TrailingIsMore(c, x, k, text);
        TrailingRoundTrip(plans, mode, params, contexts, c, x, ring, window, text, k, js, tail);
        DataContinues(d, contexts, window, |text|, p, ProgressAt(plans, AfterCommand(c, js), ring, text, |text|), s,
                      tail);
        NoMoreItems(plans, commands, text, next, context, x, AfterCommand(c, js));
        assert [] + rest == rest;
        DataEnds(d, contexts, window, plans, AfterCommand(c, js), ring, text, rest);
      } else {
        RepeatsForward(text, k + c.insertLen, CommandDistance(c, ring, params.numDirect, params.postfixBits),
                       c.CopyLen(), window);
        var ring' := Remember(ring, c.DistanceCode(), CommandDistance(c, ring, params.numDirect, params.postfixBits));
        CopyCommandRoundTrip(plans, mode, params, contexts, c, x, ring, window, text, k, js, tail);
        DataContinues(d, contexts, window, |text|, p, ProgressAt(plans, AfterCommand(c, js), ring', text, next), s,
                      tail);
        DistanceAtMost(c, js);
        DataRoundTrip(plans, mode, params, contexts, commands, i + 1, x, ring', after, window,
                      text, next, AfterCommand(c, js), rest);
      }
    }
  }

  lemma RepeatsForward(text: seq<byte>, at: nat, distance: int, n: nat, window: nat)
    requires Repeats(text, at, distance, n, window)
    ensures distance >= 1 && at <= |text|
  {
  }

  lemma TrailingIsMore(c: Command, x: bool, k: nat, text: seq<byte>)
    requires Trailing(c, x) && k + c.insertLen == |text|
    ensures k < |text|
  {
  }

  lemma DistanceAtMost(c: Command, js: Counters)
    ensures AfterCommand(c, js).commands == js.commands + 1 && AfterCommand(c, js).literals == js.literals + c.insertLen
    ensures js.distances <= AfterCommand(c, js).distances <= js.distances + 1
  {
  }

  /** All the bytes are out. */
  lemma DataEnds(d: DataHeader, contexts: ModeContext, window: nat, plans: Plans, js: Counters, ring: Ring,
                 text: seq<byte>, s: bits)
    requires AllWithin(plans, js)
    ensures ReadData(d, contexts, window, |text|, ProgressAt(plans, js, ring, text, |text|), s) == Got((ring, text), s)
  {
    hide AllWithin, BlocksAt;
    assert text[..|text|] == text;
  }

  lemma DataContinues(d: DataHeader, contexts: ModeContext, window: nat, end: nat, p: Progress, p': Progress, s: bits,
                      s': bits)
    requires |p.out| < end && ReadCommand(d, contexts, window, end, p, s) == Got(p', s')
    ensures |p'.out| <= end && ReadData(d, contexts, window, end, p, s) == ReadData(d, contexts, window, end, p', s')
  {
    hide ReadCommand;
  }

  lemma NoMoreItems(plans: Plans, commands: seq<Command>, text: seq<byte>, k: nat, context: ContextOf, x: bool,
                    js: Counters)
    requires AllSized(commands, x) && k + Span(commands, |commands|) <= |text|
    ensures ItemsFrom(commands, |commands|, text, k, context, x) == []
    ensures AllWritable(plans, [], js) && Emit(plans, [], js) == []
  {
  }

  /** The bits of the commands from the `i`th on, as its own and those of the rest. */
  lemma DataStep(plans: Plans, commands: seq<Command>, i: nat, text: seq<byte>, k: nat, next: nat, context: ContextOf,
                 x: bool, js: Counters, rest: bits) returns (tail: bits)
    requires AllSized(commands, x) && k + Span(commands, i) <= |text| && i < |commands| && Sized(commands[i], x)
    requires next == k + commands[i].insertLen + commands[i].CopyLen() && next + Span(commands, i + 1) <= |text|
    requires AllWritable(plans, ItemsFrom(commands, i, text, k, context, x), js)
    ensures CommandWritable(plans, commands[i], x, text, k, context, js)
    ensures AllWritable(plans, ItemsFrom(commands, i + 1, text, next, context, x), AfterCommand(commands[i], js))
    ensures tail == Emit(plans, ItemsFrom(commands, i + 1, text, next, context, x), AfterCommand(commands[i], js))
            + rest
    ensures Emit(plans, ItemsFrom(commands, i, text, k, context, x), js) + rest
         == CommandBits(plans, commands[i], x, text, k, context, js, tail)
  {
    hide Command.CopyLenCode, Command.CopyLen, Command.HasDistance, AllWritable, Emit, LengthItems, LiteralItems,
      DistanceItems, ItemsFrom, Counters.AfterAll;
    var c := commands[i];
    var j1, j2, j3 := CommandEmits(plans, commands, i, text, k, next, context, x, js);
    AfterLengths(c, x, js);
    AfterLiterals(text, k, c.insertLen, context, j1);
    AfterDistance(c, j2);
    tail := Emit(plans, ItemsFrom(commands, i + 1, text, next, context, x), j3) + rest;
  }
}
