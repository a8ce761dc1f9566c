/** A decoder of whole streams of meta-blocks: sections 9.2 and 10 of RFC 7932. */
module StreamDecoding {
  import opened Bits
  import opened BitWriting
  import opened DataWriting
  import opened Decoding
  import opened Distances
  import opened Headers
  import opened MetaBlocks
  import opened PackedCommands
  import opened PrefixCodes
  import opened SymbolStreams

  /** What a decoder brings along: the reader of code descriptions, the literal context tables, the
      window, and whether the stream uses large windows. */
  datatype Decoder = Decoder(huffman: Huffman, contexts: ModeContext, window: nat, large: bool)

  function ReadCompressed(dec: Decoder, mlen: nat, ring: Ring, out: seq<byte>, s: bits): Read<(Ring, seq<byte>)> {
    var (header, s) :- ReadBlockHeader(dec.huffman, dec.large, s);
    ReadData(header.0, dec.contexts, dec.window, |out| + mlen, Progress(header.1, ring, out), s)
  }

  /** Bytes taken whole from the next byte boundary on. `pos` is where `s` starts. */
  function ReadAligned(pos: nat, n: nat, s: bits): Read<seq<byte>> {
    var (_, s) :- ReadPadding(pos, s);
    ReadBytes(n, s)
  }

  /** Whether the stream is over, the distance ring, and everything decoded so far. */
  datatype Decoded = Decoded(last: bool, ring: Ring, out: seq<byte>)

  /** One meta-block of any kind. `pos` is where `s` starts in the stream. */
  function ReadMetaBlock(dec: Decoder, pos: nat, ring: Ring, out: seq<byte>, s: bits): Read<Decoded> {
    var (header, body) :- ReadHeader(s);
    var at := if |body| <= |s| then pos + (|s| - |body|) else pos;
    match header
    case LastEmpty => Got(Decoded(true, ring, out), body)
    case Metadata(skip) =>
      if skip == 0 then
        var (_, rest) :- ReadPadding(at, body);
        Got(Decoded(false, ring, out), rest)
      else
        var (_, rest) :- ReadAligned(at, skip, body);
        Got(Decoded(false, ring, out), rest)
    case Data(last, mlen, uncompressed) =>
      if uncompressed then
        var (data, rest) :- ReadAligned(at, mlen, body);
        Got(Decoded(last, ring, out + data), rest)
      else
        var (r, rest) :- ReadCompressed(dec, mlen, ring, out, body);
        Got(Decoded(last, r.0, r.1), rest)
  }

  /** Meta-blocks up to the last one, whose byte is padded with zeros. */
  function ReadMetaBlocks(dec: Decoder, pos: nat, ring: Ring, out: seq<byte>, s: bits): Read<seq<byte>>
    decreases |s|
  {
    var (r, rest) :- ReadMetaBlock(dec, pos, ring, out, s);
    if |rest| >= |s| then Fail
    else
      var at := pos + (|s| - |rest|);
      if r.last then
        var (_, rest) :- ReadPadding(at, rest);
        Got(r.out, rest)
      else ReadMetaBlocks(dec, at, r.ring, r.out, rest)
  }

  /** The distances a stream starts as if it had used. */
  const FIRST_RING: Ring := [4, 11, 15, 16]

  /** The decoder of a stream with the given window. */
  function DecoderOf(h: Huffman, contexts: ModeContext, w: StreamWindow): Decoder {
    Decoder(h, contexts, if Pow2(w.wbits) >= 16 then Pow2(w.wbits) - 16 else 0, w.large)
  }

  /** RFC 7932, section 9.1: the window, then meta-blocks until the last. */
  function ReadStream(h: Huffman, contexts: ModeContext, s: bits): Read<seq<byte>> {
    var (w, rest) :- ReadWindow(s);
    ReadMetaBlocks(DecoderOf(h, contexts, w), if |rest| <= |s| then |s| - |rest| else 0, FIRST_RING, [], rest)
  }

  // ----------------------------------------------------------------- compressed blocks

  /** The bits of a compressed meta-block, up to any padding behind it. */
  ghost function MetaBlockBits(h: Huffman, parts: Parts, params: DistanceParams, mode: nat, last: bool, length: nat,
                               items: seq<Item>)
    : bits
    requires 1 <= length <= MAX_MLEN && Storable(h, parts, params)
    requires AllWritable(parts.Plans(h), items, Counters(0, 0, 0))
  {
    CompressedHeaderBits(last, length)
    + (BlockHeaderBits(h, parts, params, mode) + Emit(parts.Plans(h), items, Counters(0, 0, 0)))
  }

  /** Reading a compressed meta-block appends to the text so far exactly the bytes its commands
      describe, and leaves the distance ring as they left it. */
  lemma MetaBlockRoundTrip(dec: Decoder, parts: Parts, params: DistanceParams, mode: nat, last: bool,
                           commands: seq<Command>, x: bool, ring: Ring, after: Ring, history: seq<byte>,
                           text: seq<byte>, pos: nat, rest: bits)
    requires history <= text && 1 <= |text| - |history| <= MAX_MLEN && mode < 4
    requires Storable(dec.huffman, parts, params)
    requires params.alphabetSizeMax == DistanceAlphabet(dec.large, params.numDirect, params.postfixBits)
    requires AllSized(commands, x) && |history| + Span(commands, 0) <= |text|
    requires Describes(commands, 0, params, x, ring, after, dec.window, text, |history|)
    requires AllWritable(parts.Plans(dec.huffman),
                         ItemsFrom(commands, 0, text, |history|, AtMode(dec.contexts, mode), x),
                         Counters(0, 0, 0))
    ensures ReadMetaBlock(dec, pos, ring, history,
                          MetaBlockBits(dec.huffman, parts, params, mode, last, |text| - |history|,
                                        ItemsFrom(commands, 0, text, |history|, AtMode(dec.contexts, mode), x)) + rest)
         == Got(Decoded(last, after, text), rest)
  {
    hide CompressedHeaderBits, BlockHeaderBits, Emit, ItemsFrom, AllWritable, Describes, ReadHeader, ReadBlockHeader,
      ReadData, DistanceAlphabet, Span, AtMode, HeaderOf, ReadAligned, ReadPadding;
    var items := ItemsFrom(commands, 0, text, |history|, AtMode(dec.contexts, mode), x);
    var plans, zero := parts.Plans(dec.huffman), Counters(0, 0, 0);
    var s2 := Emit(plans, items, zero) + rest;
    var s1 := BlockHeaderBits(dec.huffman, parts, params, mode) + s2;
    assert MetaBlockBits(dec.huffman, parts, params, mode, last, |text| - |history|, items) + rest
        == CompressedHeaderBits(last, |text| - |history|) + s1;
    CompressedHeaderRoundTrip(last, |text| - |history|, s1);
    BlockHeaderRoundTrip(dec.huffman, parts, params, mode, dec.large, s2);
    assert text[..|history|] == history;
    DataRoundTrip(plans, mode, params, dec.contexts, commands, 0, x, ring, after, dec.window, text, |history|, zero,
                  rest);
  }

  // -------------------------------------------------------------------- other blocks

  /** The bits of an uncompressed meta-block that starts at `pos`. */
  ghost function UncompressedBits(pos: nat, data: seq<byte>): bits
    requires 1 <= |data| <= MAX_MLEN
  {
    var header := UncompressedHeaderBits(|data|);
    header + (Zeros(Aligned(pos + |header|) - (pos + |header|)) + BytesToBits(data))
  }

  lemma UncompressedRoundTrip(dec: Decoder, pos: nat, ring: Ring, out: seq<byte>, data: seq<byte>, rest: bits)
    requires 1 <= |data| <= MAX_MLEN
    ensures ReadMetaBlock(dec, pos, ring, out, UncompressedBits(pos, data) + rest)
            == Got(Decoded(false, ring, out + data), rest)
  {
    hide UncompressedHeaderBits, ReadHeader, ReadPadding, ReadBytes, ReadCompressed, Aligned;
    var header := UncompressedHeaderBits(|data|);
    var at := pos + |header|;
    var s2 := BytesToBits(data) + rest;
    var s1 := Zeros(Aligned(at) - at) + s2;
    assert UncompressedBits(pos, data) + rest == header + s1;
    UncompressedHeaderRoundTrip(|data|, s1);
    ReadPaddingInverts(at, s2);
    ReadBytesInverts(data, rest);
  }

  lemma EmptyBlockRoundTrip(dec: Decoder, pos: nat, ring: Ring, out: seq<byte>, rest: bits)
    ensures ReadMetaBlock(dec, pos, ring, out, LastEmptyBits() + rest) == Got(Decoded(true, ring, out), rest)
  {
    hide ReadHeader, LastEmptyBits, ReadCompressed, ReadAligned, ReadPadding;
    LastEmptyRoundTrip(rest);
  }

  /** A byte-aligning seal decodes as a block that carries nothing, padding included. */
  lemma SealRoundTrip(dec: Decoder, pos: nat, ring: Ring, out: seq<byte>, rest: bits)
    ensures ReadMetaBlock(dec, pos, ring, out, SealBits() + (Zeros(Aligned(pos + 6) - (pos + 6)) + rest))
         == Got(Decoded(false, ring, out), rest)
  {
    hide ReadHeader, ReadCompressed, ReadAligned, ReadPadding, ToBits, Aligned;
    SealDecodes(Zeros(Aligned(pos + 6) - (pos + 6)) + rest);
    ReadPaddingInverts(pos + 6, rest);
  }

  // -------------------------------------------------------------------- whole streams

  /** A block that is not the last hands over to the rest of the stream. */
  lemma StreamContinues(dec: Decoder, pos: nat, ring: Ring, out: seq<byte>, block: bits, rest: bits, ring': Ring,
                        out': seq<byte>)
    requires |block| > 0 && ReadMetaBlock(dec, pos, ring, out, block + rest) == Got(Decoded(false, ring', out'), rest)
    ensures ReadMetaBlocks(dec, pos, ring, out, block + rest) == ReadMetaBlocks(dec, pos + |block|, ring', out', rest)
  {
    hide ReadMetaBlock, ReadPadding;
  }

  /** The last block ends the stream at the next byte boundary. */
  lemma StreamEnds(dec: Decoder, pos: nat, ring: Ring, out: seq<byte>, block: bits, rest: bits, ring': Ring,
                   out': seq<byte>)
    requires |block| > 0
    requires var padded := Zeros(Aligned(pos + |block|) - (pos + |block|)) + rest;
             ReadMetaBlock(dec, pos, ring, out, block + padded) == Got(Decoded(true, ring', out'), padded)
    ensures ReadMetaBlocks(dec, pos, ring, out, block + (Zeros(Aligned(pos + |block|) - (pos + |block|)) + rest))
            == Got(out', rest)
  {
    hide ReadMetaBlock, ReadPadding, Aligned;
    ReadPaddingInverts(pos + |block|, rest);
  }
}
