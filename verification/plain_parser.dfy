/** Reading back a command list: what `store_data_with_huffman_codes` (src/shared/bitstream.rs)
    writes is, to a parser of section 10 of RFC 7932 that knows MLEN, the list itself, whether or
    not its copies can be made. */
module PlainParsing {
  import opened Bits
  import opened Commands
  import opened DataWriting
  import opened Decoding
  import opened Distances
  import opened PackedCommands
  import opened PrefixCodes
  import opened SymbolStreams

  /** What a parser learns of a command: its literals, and the length, distance symbol and distance
      extra bits of its copy; or its literals alone, when the data ends with them. */
  datatype Parsed = Copied(literals: seq<byte>, length: nat, symbol: nat, extra: nat) | Ended(literals: seq<byte>)

  function ParseLiterals(codes: Codes, n: nat, s: bits): Read<seq<byte>> {
    if n == 0 then Got([], s)
    else
      var (literal, s) :- codes.literal.Read(s);
      if literal >= 256 then Fail
      else
        var (literals, s) :- ParseLiterals(codes, n - 1, s);
        Got([literal as byte] + literals, s)
  }

  function ParseLengths(codes: Codes, s: bits): (r: Read<Lengths>)
    ensures r.Got? ==> r.value.copy >= 2
  {
    var (symbol, s) :- codes.command.Read(s);
    if symbol >= NUM_COMMAND_SYMBOLS then Fail
    else
      var (insCode, copyCode, implied) := SplitCommandSymbol(symbol);
      SplitCodesBelow(symbol);
      var (lengths, s) :- ReadLengths(insCode, copyCode, s);
      Got(Lengths(lengths.0, lengths.1, implied), s)
  }

  /** An implied distance is the last one, symbol zero, and takes no bits. */
  function ParseDistance(codes: Codes, params: DistanceParams, implied: bool, s: bits): Read<(nat, nat)> {
    if implied then Got((0, 0), s)
    else
      var (symbol, s) :- codes.distance.Read(s);
      var (extra, s) :- ReadBits(ExtraBits(symbol, params.numDirect, params.postfixBits), s);
      Got((symbol, extra), s)
  }

  /** The commands of the next `left` bytes. The data may end before the copy of the last one. */
  function ParseCommands(codes: Codes, params: DistanceParams, left: nat, s: bits): Read<seq<Parsed>> {
    if left == 0 then Got([], s)
    else
      var (lengths, s) :- ParseLengths(codes, s);
      if lengths.insert > left then Fail
      else
        var (literals, s) :- ParseLiterals(codes, lengths.insert, s);
        if lengths.insert == left then Got([Ended(literals)], s)
        else
          var (distance, s) :- ParseDistance(codes, params, lengths.implied, s);
          if lengths.insert + lengths.copy > left then Fail
          else
            var (commands, s) :- ParseCommands(codes, params, left - lengths.insert - lengths.copy, s);
            Got([Copied(literals, lengths.copy, distance.0, distance.1)] + commands, s)
  }

  // ------------------------------------------------------------------------- round trip

  /** No dictionary matches, and only a final command that copies nothing. */
  ghost predicate Plain(commands: seq<Command>, params: DistanceParams, x: bool) {
    forall i :: 0 <= i < |commands| ==>
                  if commands[i].CopyLen() == 0 then i == |commands| - 1 && Trailing(commands[i], x)
                  else PlainCopy(commands[i], params, x)
  }

  /** The command as a parser sees it. */
  function ParsedOf(c: Command, text: seq<byte>, k: nat): Parsed
    requires k + c.insertLen <= |text|
  {
    if c.CopyLen() == 0 then Ended(text[k..k + c.insertLen])
    else Copied(text[k..k + c.insertLen], c.CopyLen(), c.DistanceCode(), c.distExtra)
  }

  function ParsedFrom(commands: seq<Command>, i: nat, text: seq<byte>, k: nat): seq<Parsed>
    requires k + Span(commands, i) <= |text|
    decreases |commands| - i
  {
    if i >= |commands| then []
    else
      [ParsedOf(commands[i], text, k)]
      + ParsedFrom(commands, i + 1, text, k + commands[i].insertLen + commands[i].CopyLen())
  }

  lemma {:induction false} LiteralsParse(codes: Codes, text: seq<byte>, k: nat, n: nat, context: ContextOf, rest: bits)
    requires CodesPrefixFree(codes) && k + n <= |text| && codes.HasAll(LiteralItems(text, k, n, context))
    ensures ParseLiterals(codes, n, codes.Words(LiteralItems(text, k, n, context)) + rest) == Got(text[k..k + n], rest)
    decreases n
  {
    hide LiteralItems, Codes.HasAll, Codes.Words, PrefixCode.Read, ToBits, Pow2;
    if n == 0 {
      NoLiterals(codes, text, k, context);
      assert [] + rest == rest;
    } else {
      LiteralWord(codes, text, k, n, context);
      var tail := codes.Words(LiteralItems(text, k + 1, n - 1, context)) + rest;
      assert codes.Words(LiteralItems(text, k, n, context)) + rest == codes.literal.Word(text[k]) + tail;
      ReadSymbolInverts(codes.literal, text[k], tail);
      LiteralsParse(codes, text, k + 1, n - 1, context, rest);
      assert text[k..k + n] == [text[k]] + text[k + 1..k + n];
    }
  }

  lemma LengthsParse(codes: Codes, c: Command, x: bool, useLast: bool, rest: bits)
    requires CodesPrefixFree(codes) && Sized(c, x) && LengthsFit(c, x, useLast) && codes.HasAll(LengthItems(c, x))
    ensures ParseLengths(codes, codes.Words(LengthItems(c, x)) + rest)
         == Got(Lengths(c.insertLen, c.CopyLenCode(x), c.cmdPrefix < 128), rest)
    ensures c.cmdPrefix < 128 ==> useLast
  {
    hide Pow2, ToBits, InsertLengthCode, CopyLengthCode, CombineLengthCodes, Command.CopyLenCode, ExtraBitsOf,
      ReadLengths, SplitCommandSymbol, Codes.Words, PrefixCode.Read, PrefixCode.PrefixFree;
    var items, copyLen := LengthItems(c, x), c.CopyLenCode(x);
    var (n, v) := ExtraBitsOf(c.insertLen, copyLen);
    assert codes.Has(items[0]) && codes.Has(items[1]) && items == [items[0], items[1]];
    WordsPair(codes, items[0], items[1]);
    assert codes.Words(items) + rest == codes.command.Word(c.cmdPrefix) + (ToBits(n, v) + rest);
    ReadSymbolInverts(codes.command, c.cmdPrefix, ToBits(n, v) + rest);
    InsertBelow(c.insertLen);
    CopyBelow(copyLen);
    CommandSymbolRoundTrip(InsertLengthCode(c.insertLen), CopyLengthCode(copyLen), useLast);
    ImpliedBelow(c.cmdPrefix);
    ReadLengthsInverts(c.insertLen, copyLen, rest);
  }

  lemma DistanceParse(codes: Codes, c: Command, params: DistanceParams, x: bool, rest: bits)
    requires CodesPrefixFree(codes) && PlainCopy(c, params, x) && c.CopyLen() != 0 && codes.HasAll(DistanceItems(c))
    requires c.cmdPrefix < 128 ==> c.DistanceCode() == 0
    ensures ParseDistance(codes, params, c.cmdPrefix < 128, codes.Words(DistanceItems(c)) + rest)
         == Got((c.DistanceCode(), c.distExtra), rest)
  {
    hide Pow2, ToBits, Command.CopyLenCode, Command.CopyLen, Command.DistanceCode, Command.DistanceExtraBits,
      Command.DistanceContext, Codes.Words, PrefixCode.Read, PrefixCode.PrefixFree, LengthCode, ReadBits;
    var items := DistanceItems(c);
    if c.cmdPrefix < 128 {
      WordsNone(codes);
      assert [] + rest == rest;
      PowZero();
    } else {
      var field := ToBits(c.DistanceExtraBits(), c.distExtra);
      assert codes.Has(items[0]) && codes.Has(items[1]) && items == [items[0], items[1]];
      WordsPair(codes, items[0], items[1]);
      assert codes.Words(items) + rest == codes.distance.Word(c.DistanceCode()) + (field + rest);
      ReadSymbolInverts(codes.distance, c.DistanceCode(), field + rest);
      ReadBitsInverts(c.DistanceExtraBits(), c.distExtra, rest);
    }
  }

  /** One command of a plain list, and what is left of the data after it. */
  lemma CommandParse(codes: Codes, params: DistanceParams, c: Command, x: bool, text: seq<byte>, k: nat,
                     context: ContextOf, left: nat, rest: bits)
    requires CodesPrefixFree(codes) && Sized(c, x) && k + c.insertLen <= |text|
    requires if c.CopyLen() == 0 then Trailing(c, x) && left == c.insertLen
             else PlainCopy(c, params, x) && left >= c.insertLen + c.CopyLen()
    requires codes.HasAll(LengthItems(c, x)) && codes.HasAll(LiteralItems(text, k, c.insertLen, context))
    requires codes.HasAll(DistanceItems(c))
    ensures left > 0
    ensures ParseCommands(codes, params, left,
                          codes.Words(LengthItems(c, x)) + (codes.Words(LiteralItems(text, k, c.insertLen, context))
                                                            + (codes.Words(DistanceItems(c)) + rest)))
         == if c.CopyLen() == 0 then Got([ParsedOf(c, text, k)], rest)
            else match ParseCommands(codes, params, left - c.insertLen - c.CopyLen(), rest)
                 case Fail => Fail
                 case Got(tail, s) => Got([ParsedOf(c, text, k)] + tail, s)
  {
    hide Codes.HasAll, Codes.Words, LengthItems, LiteralItems, Command.CopyLen, Command.CopyLenCode, Pow2, ExtraBits,
      Command.DistanceCode, Command.DistanceExtraBits, ParseLengths, ParseLiterals, ParseDistance, CodesPrefixFree,
      LengthCode;
    var s2 := codes.Words(DistanceItems(c)) + rest;
    var s1 := codes.Words(LiteralItems(text, k, c.insertLen, context)) + s2;
    LengthsParse(codes, c, x, c.CopyLen() != 0 && c.DistanceCode() == 0, s1);
    LiteralsParse(codes, text, k, c.insertLen, context, s2);
    if c.CopyLen() == 0 {
      WordsNone(codes);
      assert [] + rest == rest;
    } else {
      DistanceParse(codes, c, params, x, rest);
    }
  }

  /** For any three prefix-free codes and any plain command list, given the number of bytes it
      spans: the parser recovers literals, insert lengths, copy lengths and distances. */
  lemma {:induction false} ParseRoundTrip(codes: Codes, params: DistanceParams, commands: seq<Command>, i: nat, x: bool,
                                          text: seq<byte>, k: nat, context: ContextOf, rest: bits)
    requires CodesPrefixFree(codes) && AllSized(commands, x) && Plain(commands, params, x)
    requires i <= |commands| && k + Span(commands, i) <= |text|
    requires codes.HasAll(ItemsFrom(commands, i, text, k, context, x))
    ensures ParseCommands(codes, params, Span(commands, i),
                          codes.Words(ItemsFrom(commands, i, text, k, context, x)) + rest)
         == Got(ParsedFrom(commands, i, text, k), rest)
    decreases |commands| - i
  {
    hide Codes.HasAll, Codes.Words, LengthItems, LiteralItems, DistanceItems, ItemsFrom, Command.CopyLen, ParsedOf,
      ParseCommands, PlainCopy, Trailing, CodesPrefixFree, Span, Sized;
    if i == |commands| {
      NoItems(codes, commands, text, k, context, x);
      NothingLeft(codes, params, commands, rest);
    } else {
      var c := commands[i];
      var next := k + c.insertLen + c.CopyLen();
      SpanStep(commands, i);
      CommandWords(codes, commands, i, text, k, next, context, x);
      var tail := codes.Words(ItemsFrom(commands, i + 1, text, next, context, x)) + rest;
      assert codes.Words(ItemsFrom(commands, i, text, k, context, x)) + rest
          == codes.Words(LengthItems(c, x)) + (codes.Words(LiteralItems(text, k, c.insertLen, context))
                                               + (codes.Words(DistanceItems(c)) + tail));
      if c.CopyLen() == 0 {
        NoItems(codes, commands, text, next, context, x);
        NothingLeft(codes, params, commands, rest);
        CommandParse(codes, params, c, x, text, k, context, Span(commands, i), tail);
        assert tail == rest;
        assert ParsedFrom(commands, i + 1, text, next) == [];
        assert ParsedFrom(commands, i, text, k) == [ParsedOf(c, text, k)];
      } else {
        CommandParse(codes, params, c, x, text, k, context, Span(commands, i), tail);
        assert ParsedFrom(commands, i, text, k) == [ParsedOf(c, text, k)] + ParsedFrom(commands, i + 1, text, next);
        ParseRoundTrip(codes, params, commands, i + 1, x, text, next, context, rest);
      }
    }
  }

  lemma NothingLeft(codes: Codes, params: DistanceParams, commands: seq<Command>, rest: bits)
    ensures Span(commands, |commands|) == 0 && [] + rest == rest
    ensures ParseCommands(codes, params, 0, rest) == Got([], rest)
  {
  }
}
