/** What a meta-block's commands put on the wire (src/shared/bitstream.rs): the one list of symbols
    and raw fields that the counting pass counts and the storing pass stores. */
module SymbolStreams {
  import opened Bits
  import opened Commands
  import opened Histograms
  import opened PackedCommands

  const NUM_LITERAL_SYMBOLS := 256

  // ---------------------------------------------------------------------------- the input

  /** `input.get(pos & mask).copied().unwrap_or(0)` */
  function ByteAt(input: seq<byte>, mask: nat, pos: nat): byte {
    var i := BitAnd(pos, mask);
    if i < |input| then input[i] else 0
  }

  /** The `n` bytes a masked buffer holds from `pos` on. */
  function Window(input: seq<byte>, mask: nat, pos: nat, n: nat): (text: seq<byte>)
    ensures |text| == n
  {
    seq<byte>(n, i requires i >= 0 => ByteAt(input, mask, pos + i))
  }

  /** The byte `back` positions before the end, or zero at the start of a stream. */
  function Previous(text: seq<byte>, k: nat, back: nat): byte
    requires k <= |text| && back > 0
  {
    if back <= k then text[k - back] else 0
  }

  // ---------------------------------------------------------------------------- the items

  datatype Stream = LiteralStream | CommandStream | DistanceStream

  /** A symbol of one of the three streams, with the context it is coded in, or a raw field. */
  datatype Item = Symbol(stream: Stream, symbol: nat, context: nat) | Raw(n: nat, v: nat)

  type ContextOf = (byte, byte) -> nat

  /** The lengths of a command have codes. */
  predicate Sized(c: Command, x: bool) {
    c.insertLen < INSERT_LIMIT && 2 <= c.CopyLenCode(x) < COPY_LIMIT
  }

  predicate AllSized(commands: seq<Command>, x: bool) {
    forall i :: 0 <= i < |commands| ==> Sized(commands[i], x)
  }

  function LiteralItem(text: seq<byte>, k: nat, context: ContextOf): Item
    requires k < |text|
  {
    Symbol(LiteralStream, text[k], context(Previous(text, k, 1), Previous(text, k, 2)))
  }

  function LiteralItems(text: seq<byte>, k: nat, n: nat, context: ContextOf): (items: seq<Item>)
    requires k + n <= |text|
    ensures |items| == n
    decreases n
  {
    if n == 0 then [] else [LiteralItem(text, k, context)] + LiteralItems(text, k + 1, n - 1, context)
  }

  function LengthItems(c: Command, x: bool): seq<Item>
    requires Sized(c, x)
  {
    var (n, v) := ExtraBitsOf(c.insertLen, c.CopyLenCode(x));
    [Symbol(CommandStream, c.cmdPrefix, 0), Raw(n, v)]
  }

  function DistanceItems(c: Command): seq<Item> {
    if c.HasDistance() then
      [Symbol(DistanceStream, c.DistanceCode(), c.DistanceContext()), Raw(c.DistanceExtraBits(), c.distExtra)]
    else []
  }

  /** The bytes the commands from the `i`th on stand for. */
  function Span(commands: seq<Command>, i: nat): nat
    decreases |commands| - i
  {
    if i >= |commands| then 0 else commands[i].insertLen + commands[i].CopyLen() + Span(commands, i + 1)
  }

  /** The items of the commands from the `i`th on; the first of them starts at position `k`. */
  function ItemsFrom(commands: seq<Command>, i: nat, text: seq<byte>, k: nat, context: ContextOf, x: bool): seq<Item>
    requires AllSized(commands, x) && k + Span(commands, i) <= |text|
    decreases |commands| - i
  {
    if i >= |commands| then []
    else
      var c := commands[i];
      LengthItems(c, x) + (LiteralItems(text, k, c.insertLen, context)
        + (DistanceItems(c) + ItemsFrom(commands, i + 1, text, k + c.insertLen + c.CopyLen(), context, x)))
  }

  /** The symbols of one stream, in order. */
  function SymbolsOf(items: seq<Item>, stream: Stream): seq<nat> {
    if |items| == 0 then []
    else
      (if items[0].Symbol? && items[0].stream == stream then [items[0].symbol] else [])
      + SymbolsOf(items[1..], stream)
  }

  lemma {:induction false} SymbolsOfConcat(a: seq<Item>, b: seq<Item>, stream: Stream)
    ensures SymbolsOf(a + b, stream) == SymbolsOf(a, stream) + SymbolsOf(b, stream)
  {
    if |a| == 0 {
      assert a + b == b;
    } else {
      assert (a + b)[1..] == a[1..] + b;
      SymbolsOfConcat(a[1..], b, stream);
    }
  }

  // ------------------------------------------------------------------------ the totals

  function InsertTotal(commands: seq<Command>, i: nat): nat
    decreases |commands| - i
  {
    if i >= |commands| then 0 else commands[i].insertLen + InsertTotal(commands, i + 1)
  }

  function DistanceTotal(commands: seq<Command>, i: nat): nat
    decreases |commands| - i
  {
    if i >= |commands| then 0 else (if commands[i].HasDistance() then 1 else 0) + DistanceTotal(commands, i + 1)
  }

  lemma {:induction false} LiteralSymbols(text: seq<byte>, k: nat, n: nat, context: ContextOf, stream: Stream)
    requires k + n <= |text|
    ensures SymbolsOf(LiteralItems(text, k, n, context), stream) == if stream
            == LiteralStream then Bytes(text, k, n) else []
    decreases n
  {
    hide SymbolsOf, LiteralItem, Previous;
    if n > 0 {
      SymbolsCons(LiteralItem(text, k, context), LiteralItems(text, k + 1, n - 1, context), stream);
      LiteralSymbols(text, k + 1, n - 1, context, stream);
      LiteralItemIs(text, k, context);
      assert Bytes(text, k, n) == [text[k] as nat] + Bytes(text, k + 1, n - 1);
    } else {
      NoSymbols(stream);
    }
  }

  lemma LiteralItemIs(text: seq<byte>, k: nat, context: ContextOf)
    requires k < |text|
    ensures var item := LiteralItem(text, k, context);
            item.Symbol? && item.stream == LiteralStream && item.symbol == text[k]
  {
  }

  lemma SymbolsCons(item: Item, rest: seq<Item>, stream: Stream)
    ensures SymbolsOf([item] + rest, stream)
         == (if item.Symbol? && item.stream == stream then [item.symbol] else []) + SymbolsOf(rest, stream)
  {
    assert ([item] + rest)[1..] == rest;
  }

  lemma NoSymbols(stream: Stream)
    ensures SymbolsOf([], stream) == []
  {
  }

  function Bytes(text: seq<byte>, k: nat, n: nat): (s: seq<nat>)
    requires k + n <= |text|
    ensures |s| == n
  {
    seq(n, i requires 0 <= i < n => text[k + i])
  }

  lemma ShortSymbols(c: Command, x: bool, stream: Stream)
    requires Sized(c, x)
    ensures SymbolsOf(LengthItems(c, x), stream) == if stream == CommandStream then [c.cmdPrefix] else []
    ensures SymbolsOf(DistanceItems(c), stream)
         == if stream == DistanceStream && c.HasDistance() then [c.DistanceCode()] else []
  {
    hide Pow2, Shl, Shr, Low, BitOr, ExtraBitsOf, Command.CopyLenCode, Command.HasDistance, Command.DistanceContext;
    var lengths := LengthItems(c, x);
    assert lengths[1..] == [lengths[1]] && lengths[1..][1..] == [];
    PairSymbols(lengths, stream);
    if c.HasDistance() { PairSymbols(DistanceItems(c), stream); }
  }

  lemma PairSymbols(items: seq<Item>, stream: Stream)
    requires |items| == 2 && items[0].Symbol? && items[1].Raw?
    ensures SymbolsOf(items, stream) == if items[0].stream == stream then [items[0].symbol] else []
  {
    assert items[1..][1..] == [];
    assert SymbolsOf(items[1..], stream) == [];
  }

  /** The symbols one command contributes to a stream. */
  function CommandSymbols(c: Command, text: seq<byte>, k: nat, stream: Stream): seq<nat>
    requires k + c.insertLen <= |text|
  {
    match stream
    case LiteralStream => Bytes(text, k, c.insertLen)
    case CommandStream => [c.cmdPrefix]
    case DistanceStream => if c.HasDistance() then [c.DistanceCode()] else []
  }

  lemma CommandItemsSymbols(commands: seq<Command>, i: nat, text: seq<byte>, k: nat, context: ContextOf, x: bool,
                            stream: Stream)
    requires AllSized(commands, x) && k + Span(commands, i) <= |text| && i < |commands|
    ensures SymbolsOf(ItemsFrom(commands, i, text, k, context, x), stream)
         == CommandSymbols(commands[i], text, k, stream)
            + SymbolsOf(ItemsFrom(commands, i + 1, text, k + commands[i].insertLen + commands[i].CopyLen(), context,
                                  x), stream)
  {
    hide Pow2, Shl, Shr, Low, BitOr, ExtraBitsOf, Command.CopyLenCode, Command.HasDistance, Command.DistanceContext,
      Command.CopyLen, LengthItems, LiteralItems, DistanceItems, SymbolsOf;
    var c := commands[i];
    var tail := ItemsFrom(commands, i + 1, text, k + c.insertLen + c.CopyLen(), context, x);
    LiteralSymbols(text, k, c.insertLen, context, stream);
    ShortSymbols(c, x, stream);
    SymbolsOfConcat(LengthItems(c, x), LiteralItems(text, k, c.insertLen, context) + (DistanceItems(c) + tail), stream);
    SymbolsOfConcat(LiteralItems(text, k, c.insertLen, context), DistanceItems(c) + tail, stream);
    SymbolsOfConcat(DistanceItems(c), tail, stream);
  }

  /** The symbols of one stream that the commands from the `i`th on contribute. */
  function StreamFrom(commands: seq<Command>, i: nat, text: seq<byte>, k: nat, stream: Stream): seq<nat>
    requires k + Span(commands, i) <= |text|
    decreases |commands| - i
  {
    if i >= |commands| then []
    else
      CommandSymbols(commands[i], text, k, stream)
      + StreamFrom(commands, i + 1, text, k + commands[i].insertLen + commands[i].CopyLen(), stream)
  }

  lemma {:induction false} ItemStreams(commands: seq<Command>, i: nat, text: seq<byte>, k: nat, context: ContextOf,
                                       x: bool, stream: Stream)
    requires AllSized(commands, x) && k + Span(commands, i) <= |text| && i <= |commands|
    ensures SymbolsOf(ItemsFrom(commands, i, text, k, context, x), stream) == StreamFrom(commands, i, text, k, stream)
    decreases |commands| - i
  {
    hide Pow2, Shl, Shr, Low, BitOr, ExtraBitsOf, Command.CopyLenCode, Command.HasDistance, Command.DistanceContext,
      Command.CopyLen, LengthItems, LiteralItems, DistanceItems, CommandSymbols;
    if i < |commands| {
      CommandItemsSymbols(commands, i, text, k, context, x, stream);
      ItemStreams(commands, i + 1, text, k + commands[i].insertLen + commands[i].CopyLen(), context, x, stream);
    }
  }

  /** One command's share of each stream. */
  lemma StreamStep(commands: seq<Command>, i: nat, text: seq<byte>, k: nat)
    requires i < |commands| && k + Span(commands, i) <= |text|
    ensures var c := commands[i];
            var next := k + c.insertLen + c.CopyLen();
            && next + Span(commands, i + 1) == k + Span(commands, i)
            && StreamFrom(commands, i, text, k, LiteralStream)
               == Bytes(text, k, c.insertLen) + StreamFrom(commands, i + 1, text, next, LiteralStream)
            && StreamFrom(commands, i, text, k, CommandStream)
               == [c.cmdPrefix] + StreamFrom(commands, i + 1, text, next, CommandStream)
            && StreamFrom(commands, i, text, k, DistanceStream)
               == (if c.HasDistance() then [c.DistanceCode()] else [])
                   + StreamFrom(commands, i + 1, text, next, DistanceStream)
  {
    hide Command.HasDistance, Command.CopyLen, Command.DistanceCode;
  }

  /** The streams hold one literal per inserted byte, one symbol per command, and one distance per
      command that has a distance. */
  lemma {:induction false} StreamTotals(commands: seq<Command>, i: nat, text: seq<byte>, k: nat)
    requires k + Span(commands, i) <= |text| && i <= |commands|
    ensures |StreamFrom(commands, i, text, k, LiteralStream)| == InsertTotal(commands, i)
    ensures |StreamFrom(commands, i, text, k, CommandStream)| == |commands| - i
    ensures |StreamFrom(commands, i, text, k, DistanceStream)| == DistanceTotal(commands, i)
    decreases |commands| - i
  {
    hide Command.HasDistance, Command.CopyLen, StreamFrom, Bytes;
    if i < |commands| {
      StreamStep(commands, i, text, k);
      StreamTotals(commands, i + 1, text, k + commands[i].insertLen + commands[i].CopyLen());
    } else {
      StreamEnd(commands, text, k);
    }
  }

  // --------------------------------------------------------------------- the counting pass

  /** The symbols of the commands are in their alphabets. */
  predicate InAlphabets(commands: seq<Command>, distances: nat) {
    forall i :: 0 <= i < |commands| ==>
                  && commands[i].cmdPrefix < NUM_COMMAND_SYMBOLS
                  && (commands[i].HasDistance() ==> commands[i].DistanceCode() < distances)
  }

  /** Counts the literals of one command. */
  method CountLiterals(input: seq<byte>, start: nat, mask: nat, n: nat, literals: Histogram)
    requires literals.Valid() && literals.data.Length == NUM_LITERAL_SYMBOLS
    modifies literals, literals.data
    ensures literals.Valid()
    ensures literals.counted == old(literals.counted) + multiset(Bytes(Window(input, mask, start, n), 0, n))
  {
    hide BitAnd, Tallies, Histogram.Valid;
    ghost var text := Window(input, mask, start, n);
    var pos: nat := start;
    assert Bytes(text, 0, 0) == [];
    for i := 0 to n
      invariant literals.Valid() && pos == start + i
      invariant literals.counted == old(literals.counted) + multiset(Bytes(text, 0, i))
    {
      literals.Add(ByteAt(input, mask, pos));
      assert Bytes(text, 0, i + 1) == Bytes(text, 0, i) + [text[i] as nat];
      pos := pos + 1;
    }
  }

  /** `build_histograms`: counts, stream by stream, exactly the symbols of the items. */
  method BuildHistograms(input: seq<byte>, startPos: nat, mask: nat, commands: seq<Command>,
                         literals: Histogram, lengths: Histogram, distances: Histogram)
    requires literals.Valid() && lengths.Valid() && distances.Valid()
    requires literals != lengths && literals != distances && lengths != distances
    requires literals.data != lengths.data && literals.data != distances.data && lengths.data != distances.data
    requires literals.data.Length == NUM_LITERAL_SYMBOLS && lengths.data.Length == NUM_COMMAND_SYMBOLS
    requires InAlphabets(commands, distances.data.Length)
    modifies literals, literals.data, lengths, lengths.data, distances, distances.data
    ensures literals.Valid() && lengths.Valid() && distances.Valid()
    ensures var text := Window(input, mask, startPos, Span(commands, 0));
            && literals.counted == old(literals.counted) + multiset(StreamFrom(commands, 0, text, 0, LiteralStream))
            && lengths.counted == old(lengths.counted) + multiset(StreamFrom(commands, 0, text, 0, CommandStream))
            && distances.counted == old(distances.counted) + multiset(StreamFrom(commands, 0, text, 0, DistanceStream))
  {
    hide BitAnd, Command.HasDistance, Command.CopyLen, Command.DistanceCode, Tallies, Span, StreamFrom, Window,
      CommandSymbols, Histogram.Valid;
    ghost var text := Window(input, mask, startPos, Span(commands, 0));
    ghost var l0, c0, d0 := literals.counted, lengths.counted, distances.counted;
    var pos: nat := startPos;
    ghost var k: nat := 0;
    for i := 0 to |commands|
      invariant literals.Valid() && lengths.Valid() && distances.Valid()
      invariant pos == startPos + k && k + Span(commands, i) == |text|
      invariant literals.counted + multiset(StreamFrom(commands, i, text, k, LiteralStream))
             == l0 + multiset(StreamFrom(commands, 0, text, 0, LiteralStream))
      invariant lengths.counted + multiset(StreamFrom(commands, i, text, k, CommandStream))
             == c0 + multiset(StreamFrom(commands, 0, text, 0, CommandStream))
      invariant distances.counted + multiset(StreamFrom(commands, i, text, k, DistanceStream))
             == d0 + multiset(StreamFrom(commands, 0, text, 0, DistanceStream))
    {
      ghost var l1, c1, d1 := literals.counted, lengths.counted, distances.counted;
      SpanStep(commands, i);
      CountCommand(input, pos, mask, commands[i], literals, lengths, distances, startPos, Span(commands, 0), k);
      ghost var next := k + commands[i].insertLen + commands[i].CopyLen();
      CountedStep(commands, i, text, k, next, LiteralStream, l1, literals.counted,
                  l0 + multiset(StreamFrom(commands, 0, text, 0, LiteralStream)));
      CountedStep(commands, i, text, k, next, CommandStream, c1, lengths.counted,
                  c0 + multiset(StreamFrom(commands, 0, text, 0, CommandStream)));
      CountedStep(commands, i, text, k, next, DistanceStream, d1, distances.counted,
                  d0 + multiset(StreamFrom(commands, 0, text, 0, DistanceStream)));
      pos := pos + commands[i].insertLen + commands[i].CopyLen();
      k := next;
    }
    StreamEnd(commands, text, k);
  }

  lemma SpanStep(commands: seq<Command>, i: nat)
    requires i < |commands|
    ensures Span(commands, i) == commands[i].insertLen + commands[i].CopyLen() + Span(commands, i + 1)
  {
    hide Command.CopyLen;
  }

  lemma StreamUnfolds(commands: seq<Command>, i: nat, text: seq<byte>, k: nat, next: nat, stream: Stream)
    requires i < |commands| && k + Span(commands, i) <= |text|
    requires next == k + commands[i].insertLen + commands[i].CopyLen() && next + Span(commands, i + 1) <= |text|
    ensures StreamFrom(commands, i, text, k, stream)
         == CommandSymbols(commands[i], text, k, stream) + StreamFrom(commands, i + 1, text, next, stream)
  {
    hide Command.CopyLen, CommandSymbols;
  }

  lemma HeadCounted(before: multiset<nat>, head: seq<nat>, tail: seq<nat>)
    ensures before + multiset(head) + multiset(tail) == before + multiset(head + tail)
  {
  }

  lemma CountedStep(commands: seq<Command>, i: nat, text: seq<byte>, k: nat, next: nat, stream: Stream,
                    before: multiset<nat>, after: multiset<nat>, total: multiset<nat>)
    requires i < |commands| && k + Span(commands, i) <= |text|
    requires next == k + commands[i].insertLen + commands[i].CopyLen() && next + Span(commands, i + 1) <= |text|
    requires after == before + multiset(CommandSymbols(commands[i], text, k, stream))
    requires before + multiset(StreamFrom(commands, i, text, k, stream)) == total
    ensures after + multiset(StreamFrom(commands, i + 1, text, next, stream)) == total
  {
    hide Command.CopyLen, CommandSymbols, StreamFrom;
    StreamUnfolds(commands, i, text, k, next, stream);
    HeadCounted(before, CommandSymbols(commands[i], text, k, stream), StreamFrom(commands, i + 1, text, next, stream));
  }

  /** One command: its symbol, its literals, and its distance if it has one. */
  method CountCommand(input: seq<byte>, pos: nat, mask: nat, command: Command,
                      literals: Histogram, lengths: Histogram, distances: Histogram,
                      ghost start: nat, ghost total: nat, ghost k: nat)
    requires literals.Valid() && lengths.Valid() && distances.Valid()
    requires literals != lengths && literals != distances && lengths != distances
    requires literals.data != lengths.data && literals.data != distances.data && lengths.data != distances.data
    requires literals.data.Length == NUM_LITERAL_SYMBOLS && lengths.data.Length == NUM_COMMAND_SYMBOLS
    requires InAlphabets([command], distances.data.Length)
    requires pos == start + k && k + command.insertLen <= total
    modifies literals, literals.data, lengths, lengths.data, distances, distances.data
    ensures literals.Valid() && lengths.Valid() && distances.Valid()
    ensures var text := Window(input, mask, start, total);
            && literals.counted == old(literals.counted) + multiset(CommandSymbols(command, text, k, LiteralStream))
            && lengths.counted == old(lengths.counted) + multiset(CommandSymbols(command, text, k, CommandStream))
            && distances.counted == old(distances.counted) + multiset(CommandSymbols(command, text, k, DistanceStream))
  {
    hide BitAnd, Command.HasDistance, Command.CopyLen, Command.DistanceCode, Tallies, Window, Bytes;
    assert [command][0] == command;
    WindowPart(input, mask, start, total, k, command.insertLen);
    lengths.Add(command.cmdPrefix);
    CountLiterals(input, pos, mask, command.insertLen, literals);
    if command.HasDistance() {
      distances.Add(command.DistanceCode());
    }
  }

  lemma StreamEnd(commands: seq<Command>, text: seq<byte>, k: nat)
    requires k + Span(commands, |commands|) <= |text|
    ensures forall stream :: StreamFrom(commands, |commands|, text, k, stream) == []
  {
  }

  lemma WindowPart(input: seq<byte>, mask: nat, start: nat, n: nat, k: nat, m: nat)
    requires k + m <= n
    ensures Bytes(Window(input, mask, start + k, m), 0, m) == Bytes(Window(input, mask, start, n), k, m)
  {
    hide BitAnd;
  }
}
