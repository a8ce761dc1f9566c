/** The stored fallback of the one-shot C entry point (mbrotli-ffi/src/core.rs): a complete stream
    of uncompressed meta-blocks, its bound, and when `compress` falls back to it. */
module StoredStreams {
  import opened Bits
  import opened BitWriting
  import opened Decoding
  import opened Headers
  import opened PrefixCodes
  import opened StreamDecoding

  const STORED_CHUNK: nat := 0x100_0000
  const EMPTY_STREAM: byte := 0x06

  // ------------------------------------------------------------------------- headers

  /** `stored_header` */
  function StoredHeader(len: nat): nat
    requires 1 <= len <= STORED_CHUNK
  {
    var extraNibbles := if len > 0x10_0000 then 2 else if len > 0x1_0000 then 1 else 0;
    BitOr(BitOr(Shl(extraNibbles, 1), Shl(len - 1, 3)), Shl(1, 19 + 4 * extraNibbles))
  }

  function HeaderLen(len: nat): nat { if len > 0x10_0000 then 4 else 3 }

  lemma HeaderValue(e: nat, m: nat)
    requires e < 4 && m < Pow2(16 + 4 * e)
    ensures BitOr(BitOr(Shl(e, 1), Shl(m, 3)), Shl(1, 19 + 4 * e)) == Shl(e + Shl(m + Shl(1, 16 + 4 * e), 2), 1)
  {
    hide Low, Shr, BitOr, Pow2;
    Pow2Values();
    var w := 16 + 4 * e;
    assert Shl(e, 1) == 2 * Shl(e, 0) == 2 * e;
    BitOrDisjoint(3, 2 * e, m);
    assert 2 * e + Shl(m, 3) < Pow2(w + 3) by {
      ShlMonotone(m, Pow2(w), 3);
      ShlPow2(w, 3);
    }
    BitOrDisjoint(w + 3, 2 * e + Shl(m, 3), 1);
    ShlAdd(e, Shl(m + Shl(1, w), 2), 1);
    ShlShl(m + Shl(1, w), 2, 1);
    ShlAdd(m, Shl(1, w), 3);
    ShlShl(1, w, 3);
  }

  /** The fields of a header, laid end to end. */
  lemma HeaderFields(e: nat, m: nat)
    requires e < 4 && m < Pow2(16 + 4 * e)
    ensures ToBits(20 + 4 * e, Shl(e + Shl(m + Shl(1, 16 + 4 * e), 2), 1))
         == ToBits(1, 0) + (ToBits(2, e) + (ToBits(16 + 4 * e, m) + ToBits(1, 1)))
  {
    hide Low, Shr, Shl, BitOr, Bit, ToBits, Pow2;
    Pow2Values();
    var w := 16 + 4 * e;
    var v2 := m + Shl(1, w);
    var v1 := e + Shl(v2, 2);
    ToBitsSplit(1, w + 3, 0, v1);
    ToBitsSplit(2, w + 1, e, v2);
    ToBitsSplit(w, 1, m, 1);
  }

  /** For every length the stored header is the uncompressed meta-block header the bit writer
      writes, padded to a byte. */
  lemma StoredHeaderBits(len: nat)
    requires 1 <= len <= STORED_CHUNK
    ensures var n := |UncompressedHeaderBits(len)|;
            && n == 20 + 4 * (Mnibbles(len) - 4) && Aligned(n) == 8 * HeaderLen(len)
            && BytesToBits(LittleEndian(HeaderLen(len), StoredHeader(len)))
                == UncompressedHeaderBits(len) + Zeros(8 * HeaderLen(len) - n)
  {
    hide Low, Shr, Shl, BitOr, Bit, ToBits, LittleEndian, BytesToBits, Pow2, Mnibbles;
    var e := Mnibbles(len) - 4;
    var n := 20 + 4 * e;
    MlenIsNarrowest(len);
    HeaderValue(e, len - 1);
    HeaderFields(e, len - 1);
    LittleEndianBits(HeaderLen(len), StoredHeader(len));
    HeaderFits(e, len - 1);
    ToBitsPad(n, 8 * HeaderLen(len) - n, StoredHeader(len));
    assert UncompressedHeaderBits(len) == ToBits(1, 0) + (ToBits(2, e) + (ToBits(16 + 4 * e, len - 1) + ToBits(1, 1)));
  }

  lemma HeaderFits(e: nat, m: nat)
    requires e < 4 && m < Pow2(16 + 4 * e)
    ensures Shl(e + Shl(m + Shl(1, 16 + 4 * e), 2), 1) < Pow2(20 + 4 * e)
  {
    hide Low, Shr, Shl, BitOr, Bit, Pow2;
    Pow2Values();
    var w := 16 + 4 * e;
    ShlPow2(0, w);
    PowStep(w);
    ShlBelow(m + Shl(1, w), w + 1, e, 2);
    ShlBelow(e + Shl(m + Shl(1, w), 2), w + 3, 0, 1);
  }

  lemma PowStep(w: nat)
    ensures Pow2(w + 1) == 2 * Pow2(w) && Pow2(0) == 1
  {
  }

  lemma ShlBelow(v: nat, a: nat, low: nat, n: nat)
    requires v < Pow2(a) && low < Pow2(n)
    ensures low + Shl(v, n) < Pow2(a + n)
  {
    hide Shl;
    ShlMonotone(v, Pow2(a), n);
    ShlPow2(a, n);
  }

  // ------------------------------------------------------------------------- streams

  function Chunk(src: seq<byte>): (chunk: seq<byte>)
    requires |src| > 0
    ensures 1 <= |chunk| <= STORED_CHUNK && |chunk| <= |src| && chunk == src[..|chunk|]
  {
    if |src| <= STORED_CHUNK then src else src[..STORED_CHUNK]
  }

  function StoredChunks(src: seq<byte>): seq<byte>
    decreases |src|
  {
    if |src| == 0 then []
    else
      LittleEndian(HeaderLen(|Chunk(src)|), StoredHeader(|Chunk(src)|))
          + (Chunk(src) + StoredChunks(src[|Chunk(src)|..]))
  }

  /** The whole stored stream. */
  function StoredStream(src: seq<byte>): seq<byte> {
    [0x21, 0x03] + (StoredChunks(src) + [0x03])
  }

  /** `bound`, before the check that it fits. */
  function Bound(len: nat): (bound: nat)
    ensures bound > 0
  {
    if len == 0 then 2 else len + (2 + 4 * Shr(len, 14) + 3 + 1)
  }

  /** The bound is a `usize`, on a machine where that holds values below `limit`. */
  predicate BoundFits(len: nat, limit: nat) { len == 0 || Bound(len) < limit }

  lemma {:induction false} ChunksBound(src: seq<byte>)
    requires |src| > 0
    ensures |StoredChunks(src)| <= |src| + 4 * (|src| / 0x4000) + 3
    decreases |src|
  {
    hide StoredHeader, LittleEndian;
    var chunk, rest := Chunk(src), src[|Chunk(src)|..];
    assert |StoredChunks(src)| == HeaderLen(|chunk|) + |chunk| + |StoredChunks(rest)|;
    if |rest| > 0 {
      ChunksBound(rest);
      assert |rest| == |src| - STORED_CHUNK;
    } else {
      assert |StoredChunks(rest)| == 0;
    }
  }

  /** The bytes in front of a last chunk of `n` bytes, none when there is no such chunk. */
  function LastHeader(n: nat): nat { if n == 0 then 0 else if n > 0x10_0000 then 4 else 3 }

  /** A stored stream is as long as its input, three bytes, and a header for every full chunk of
      sixteen mebibytes and for what is left. */
  lemma {:induction false} ChunksLength(src: seq<byte>)
    ensures |StoredChunks(src)| == |src| + 4 * (|src| / 0x100_0000) + LastHeader(|src| % 0x100_0000)
    decreases |src|
  {
    hide StoredHeader, LittleEndian, StoredChunks;
    if |src| > 0 {
      var rest := src[|Chunk(src)|..];
      ChunkLength(src);
      ChunksLength(rest);
    } else {
      NoChunks(src);
    }
  }

  lemma ChunkLength(src: seq<byte>)
    requires |src| > 0
    ensures |Chunk(src)| == if |src| < 0x100_0000 then |src| else 0x100_0000
    ensures |StoredChunks(src)| == HeaderLen(|Chunk(src)|) + |Chunk(src)| + |StoredChunks(src[|Chunk(src)|..])|
  {
    hide StoredHeader, LittleEndian;
  }

  lemma StoredLength(src: seq<byte>)
    ensures |StoredStream(src)| == 3 + |src| + 4 * (|src| / 0x100_0000) + LastHeader(|src| % 0x100_0000)
  {
    hide StoredChunks;
    ChunksLength(src);
  }

  /** The bound is met by every input of one to 16383 bytes, and beyond that it is never further off
      than four bytes in sixteen kibibytes. */
  lemma BoundTight(src: seq<byte>)
    requires src != []
    ensures |src| < 0x4000 ==> Bound(|src|) == |StoredStream(src)|
    ensures Bound(|src|) <= |StoredStream(src)| + 4 * (|src| / 0x4000)
  {
    hide StoredStream, Shr;
    StoredLength(src);
    ShiftFourteen(|src|);
  }

  /** A stored stream never exceeds the bound. */
  lemma StoredWithinBound(src: seq<byte>)
    requires |src| > 0
    ensures |StoredStream(src)| <= Bound(|src|)
  {
    hide StoredChunks, Shr;
    ChunksBound(src);
    ShiftFourteen(|src|);
  }

  lemma ShiftFourteen(n: nat)
    ensures Shr(n, 14) == n / 0x4000
  {
    hide Shr, Shl, Low, Pow2;
    Pow2Values();
    LowShr(n, 14);
    LowBound(n, 14);
    ShlTimes(Shr(n, 14), 14);
  }

  // ----------------------------------------------------------------- decoding a stream

  /** The chunks, and the empty block behind them, decode to what they hold. */
  lemma {:induction false} ChunksRoundTrip(dec: Decoder, pos: nat, ring: Ring, out: seq<byte>, src: seq<byte>)
    requires pos % 8 == 0
    ensures ReadMetaBlocks(dec, pos, ring, out, BytesToBits(StoredChunks(src)) + BytesToBits([0x03]))
            == Got(out + src, [])
    decreases |src|
  {
    hide ReadMetaBlock, ReadMetaBlocks, BytesToBits, ToBits, LittleEndian, StoredHeader, UncompressedHeaderBits,
      Aligned, UncompressedBits;
    if |src| == 0 {
      EmptyEnds(dec, pos, ring, out);
      NoBytes();
      assert StoredChunks(src) == [] && out + src == out;
      assert BytesToBits([]) + BytesToBits([0x03]) == BytesToBits([0x03]);
    } else {
      var chunk := Chunk(src);
      var rest := src[|chunk|..];
      var tail := BytesToBits(StoredChunks(rest)) + BytesToBits([0x03]);
      ChunkBits(pos, src);
      var block := UncompressedBits(pos, chunk);
      assert BytesToBits(StoredChunks(src)) + BytesToBits([0x03]) == block + tail;
      UncompressedRoundTrip(dec, pos, ring, out, chunk, tail);
      StreamContinues(dec, pos, ring, out, block, tail, ring, out + chunk);
      ChunksRoundTrip(dec, pos + |block|, ring, out + chunk, rest);
      assert out + chunk + rest == out + src;
    }
  }

  /** One stored chunk is an uncompressed meta-block. */
  lemma ChunkBits(pos: nat, src: seq<byte>)
    requires pos % 8 == 0 && |src| > 0
    ensures var chunk := Chunk(src);
            && |UncompressedBits(pos, chunk)| > 0 && |UncompressedBits(pos, chunk)| % 8 == 0
            && BytesToBits(StoredChunks(src))
                == UncompressedBits(pos, chunk) + BytesToBits(StoredChunks(src[|chunk|..]))
  {
    hide BytesToBits, ToBits, LittleEndian, StoredHeader, UncompressedHeaderBits, Aligned, StoredChunks, Chunk,
      HeaderLen, Mnibbles;
    var chunk := Chunk(src);
    var rest := StoredChunks(src[|chunk|..]);
    var header := LittleEndian(HeaderLen(|chunk|), StoredHeader(|chunk|));
    var n := |UncompressedHeaderBits(|chunk|)|;
    StoredHeaderBits(|chunk|);
    AlignedShift(pos, n);
    ChunksUnfold(src);
    BytesToBitsConcat(header, chunk + rest);
    BytesToBitsConcat(chunk, rest);
    assert UncompressedBits(pos, chunk) == BytesToBits(header) + BytesToBits(chunk);
  }

  lemma ChunksUnfold(src: seq<byte>)
    requires |src| > 0
    ensures StoredChunks(src)
         == LittleEndian(HeaderLen(|Chunk(src)|), StoredHeader(|Chunk(src)|))
             + (Chunk(src) + StoredChunks(src[|Chunk(src)|..]))
  {
  }

  lemma AlignedShift(pos: nat, n: nat)
    requires pos % 8 == 0
    ensures Aligned(pos + n) == pos + Aligned(n)
  {
  }

  lemma NoBytes()
    ensures BytesToBits([]) == []
  {
  }

  /** The last byte of a stored stream. */
  lemma EmptyEnds(dec: Decoder, pos: nat, ring: Ring, out: seq<byte>)
    requires pos % 8 == 0
    ensures ReadMetaBlocks(dec, pos, ring, out, BytesToBits([0x03])) == Got(out, [])
  {
    hide ReadMetaBlock, ReadMetaBlocks;
    LastByte();
    AlignedShift(pos, 2);
    var block := LastEmptyBits();
    assert BytesToBits([0x03]) == block + (Zeros(Aligned(pos + |block|) - (pos + |block|)) + []);
    EmptyBlockRoundTrip(dec, pos, ring, out, Zeros(Aligned(pos + |block|) - (pos + |block|)) + []);
    StreamEnds(dec, pos, ring, out, block, [], ring, out);
  }

  lemma LastByte()
    ensures |LastEmptyBits()| == 2 && BytesToBits([0x03]) == LastEmptyBits() + Zeros(6)
  {
    BytesToBitsAt([0x03], 0);
    ToBitsCut(2, 6, 3);
    ToBitsCut(1, 1, 3);
    ToBitsZero(6);
    assert Shr(3, 2) == Shr(3 / 2, 1) == Shr(1, 1) == Shr(0, 0) == 0;
    assert Shr(3, 1) == Shr(1, 0) == 1;
    assert ToBits(1, 3) == ToBits(1, 1);
  }

  /** The two bytes in front: ten window bits, and an empty metadata block. */
  lemma OpeningBytes(rest: bits)
    ensures BytesToBits([0x21, 0x03]) == ToBits(7, 0x21) + (SealBits() + Zeros(3))
    ensures ReadWindow(ToBits(7, 0x21) + rest) == Got(StreamWindow(10, false), rest)
  {
    OpeningLayout();
    OpeningWindow(rest);
  }

  lemma OpeningLayout()
    ensures BytesToBits([0x21, 0x03]) == ToBits(7, 0x21) + (SealBits() + Zeros(3))
  {
    hide Pow2;
    LittleEndianBits(2, 0x321);
    assert LittleEndian(2, 0x321) == [0x21, 0x03] by {
      ShrByte(0x321);
      assert Shr(0x321, 0) == 0x321;
    }
    SmallPowers();
    ToBitsPad(10, 6, 0x321);
    ToBitsPad(3, 3, 6);
    ShlTimes(6, 7);
    ToBitsSplit(7, 3, 0x21, 6);
  }

  lemma SmallPowers()
    ensures Pow2(3) == 8 && Pow2(7) == 128 && Pow2(10) == 1024
  {
    Pow2Values();
  }

  lemma OpeningWindow(rest: bits)
    ensures ReadWindow(ToBits(7, 0x21) + rest) == Got(StreamWindow(10, false), rest)
  {
    hide ReadWindow, ToBits, BitOr, Shl;
    var w := StreamWindow(10, false);
    Pow2Values();
    BitOrDisjoint(4, 1, 2);
    ShlTimes(2, 4);
    assert WindowHeader(w) == (0x21, 7);
    WindowRoundTrip(w, rest);
  }

  /** A stored stream decodes to exactly the bytes it stores. */
  lemma StoredRoundTrip(h: Huffman, contexts: ModeContext, src: seq<byte>)
    ensures ReadStream(h, contexts, BytesToBits(StoredStream(src))) == Got(src, [])
  {
    hide BytesToBits, ToBits, StoredChunks, ReadMetaBlocks, ReadMetaBlock, ReadWindow, SealBits, Pow2;
    var body := BytesToBits(StoredChunks(src)) + BytesToBits([0x03]);
    var s := SealBits() + (Zeros(3) + body);
    OpeningBytes(s);
    BytesToBitsConcat([0x21, 0x03], StoredChunks(src) + [0x03]);
    BytesToBitsConcat(StoredChunks(src), [0x03]);
    assert BytesToBits(StoredStream(src)) == ToBits(7, 0x21) + s;
    var dec := DecoderOf(h, contexts, StreamWindow(10, false));
    SealLength();
    SealRoundTrip(dec, 7, [4, 11, 15, 16], [], body);
    var block := SealBits() + Zeros(3);
    assert s == block + body;
    StreamContinues(dec, 7, [4, 11, 15, 16], [], block, body, [4, 11, 15, 16], []);
    ChunksRoundTrip(dec, 16, [4, 11, 15, 16], [], src);
    assert [] + src == src;
  }

  lemma SealLength()
    ensures |SealBits()| == 6 && Aligned(13) == 16
  {
  }

  /** The one byte an empty input compresses to. */
  lemma EmptyRoundTrip(h: Huffman, contexts: ModeContext)
    ensures ReadStream(h, contexts, BytesToBits([EMPTY_STREAM])) == Got([], [])
  {
    hide ReadMetaBlocks, ReadMetaBlock;
    EmptyByte();
    var rest := LastEmptyBits() + Zeros(5);
    ReadBitsInverts(1, 0, rest);
    var dec := DecoderOf(h, contexts, StreamWindow(16, false));
    var ring := FIRST_RING;
    assert Zeros(5) + [] == Zeros(5);
    EmptyBlockRoundTrip(dec, 1, ring, [], Zeros(5) + []);
    StreamEnds(dec, 1, ring, [], LastEmptyBits(), [], ring, []);
  }

  lemma EmptyByte()
    ensures |LastEmptyBits()| == 2 && Pow2(1) == 2
    ensures BytesToBits([EMPTY_STREAM]) == ToBits(1, 0) + (LastEmptyBits() + Zeros(5))
  {
    BytesToBitsAt([EMPTY_STREAM], 0);
    ToBitsCut(1, 7, 6);
    ToBitsCut(2, 5, 3);
    ToBitsCut(1, 1, 3);
    ToBitsZero(5);
    assert Shr(6, 1) == Shr(3, 0) == 3;
    assert Shr(3, 2) == Shr(3 / 2, 1) == Shr(1, 1) == Shr(0, 0) == 0;
    assert Shr(3, 1) == Shr(1, 0) == 1;
    assert ToBits(1, 3) == ToBits(1, 1) && ToBits(1, 6) == ToBits(1, 0);
  }

  // ------------------------------------------------------------------ the entry points

  datatype FfiError = BadQuality(value: int) | BadWindow(value: int) | OutputTooSmall(provided: nat) | EncodeFailed

  datatype Outcome = Ok(written: nat) | Err(error: FfiError)

  /** One `put`: takes the bytes off the front of what is left of the destination. */
  method Put(dst: array<byte>, at: nat, data: seq<byte>) returns (ok: bool, next: nat)
    requires at <= dst.Length
    modifies dst
    ensures ok == (at + |data| <= dst.Length) && next <= dst.Length
    ensures ok ==> next == at + |data| && dst[..next] == old(dst[..at]) + data
    ensures !ok ==> next == at && dst[..] == old(dst[..])
  {
    ok, next := at + |data| <= dst.Length, at;
    if ok {
      forall i | 0 <= i < |data| {
        dst[at + i] := data[i];
      }
      next := at + |data|;
    }
  }

  /** `stored_stream`: the stored stream when the destination holds it, an error when it does not. */
  method StoreStream(src: seq<byte>, dst: array<byte>) returns (r: Outcome)
    modifies dst
    ensures |StoredStream(src)| <= dst.Length ==> r == Ok(|StoredStream(src)|) && dst[..r.written] == StoredStream(src)
    ensures |StoredStream(src)| > dst.Length ==> r == Err(OutputTooSmall(dst.Length))
  {
    hide LittleEndian, StoredHeader, StoredChunks, Chunk;
    var ok: bool, at: nat := Put(dst, 0, [0x21, 0x03]);
    if !ok { return Err(OutputTooSmall(dst.Length)); }
    var rest := src;
    while |rest| > 0
      invariant at <= dst.Length && dst[..at] + (StoredChunks(rest) + [0x03]) == StoredStream(src)
      decreases |rest|
    {
      ChunksUnfold(rest);
      var chunk := Chunk(rest);
      ghost var done, tail := dst[..at], StoredChunks(rest[|chunk|..]) + [0x03];
      var header := LittleEndian(HeaderLen(|chunk|), StoredHeader(|chunk|));
      assert StoredStream(src) == done + (header + (chunk + tail));
      ok, at := Put(dst, at, header);
      if !ok { return Err(OutputTooSmall(dst.Length)); }
      ok, at := Put(dst, at, chunk);
      if !ok { return Err(OutputTooSmall(dst.Length)); }
      assert dst[..at] == done + header + chunk;
      rest := rest[|chunk|..];
    }
    NoChunks(rest);
    ok, at := Put(dst, at, [0x03]);
    if !ok { return Err(OutputTooSmall(dst.Length)); }
    r := Ok(at);
  }

  lemma NoChunks(src: seq<byte>)
    requires |src| == 0
    ensures StoredChunks(src) == []
  {
  }

  predicate QualityAccepted(value: int) { 0 <= value <= 11 }

  predicate WindowAccepted(value: int) { 10 <= value <= 24 }

  datatype WindowEncoding = Standard | Large

  datatype EncoderConfig = EncoderConfig(quality: nat, windowBits: nat, encoding: WindowEncoding) {
    /** `EncoderConfig::validate`, the one thing `Compressor::new` can refuse. */
    predicate Validates() { !(encoding.Large? && quality <= 2) }
  }

  /** The configuration `compress` builds: an ordinary window, whatever the arguments. */
  function ConfigFor(quality: int, lgwin: int): (config: EncoderConfig)
    requires QualityAccepted(quality) && WindowAccepted(lgwin)
    ensures config.Validates()
  {
    EncoderConfig(quality, lgwin, Standard)
  }

  /** What the encoder behind `compress` comes back with: the stream it left in the destination, or
      a failure. */
  datatype Inner = Wrote(stream: seq<byte>) | Failed(error: FfiError)

  /** `compress`. `inner` is what the encoder returned, and `limit` one past the largest `usize`. */
  method Compress(src: seq<byte>, dst: array<byte>, quality: int, lgwin: int, inner: Inner, limit: nat)
    returns (r: Outcome)
    requires inner.Wrote? ==> |inner.stream| <= dst.Length
    modifies dst
    ensures !(0 <= quality <= 11) ==> r == Err(BadQuality(quality))
    ensures 0 <= quality <= 11 && !(10 <= lgwin <= 24) ==> r == Err(BadWindow(lgwin))
    ensures 0 <= quality <= 11 && 10 <= lgwin <= 24 && src == [] ==>
              && r == (if dst.Length == 0 then Err(OutputTooSmall(0)) else Ok(1))
              && (dst.Length > 0 ==> dst[..1] == [EMPTY_STREAM])
    ensures 0 <= quality <= 11 && 10 <= lgwin <= 24 && src != [] ==>
              && (dst.Length >= Bound(|src|) && BoundFits(|src|, limit) ==> r.Ok? && r.written <= Bound(|src|))
              && (r.Ok? ==> r.written <= dst.Length
                            && ((inner.Wrote? && dst[..r.written] == inner.stream)
                                || dst[..r.written] == StoredStream(src)))
              && (r.Err? ==> inner.Failed? && r.error == inner.error)
    ensures 0 <= quality <= 11 && 10 <= lgwin <= 24 && src != [] ==>
              var replaced := BoundFits(|src|, limit) && dst.Length >= Bound(|src|)
                              && (inner.Failed? || |inner.stream| > Bound(|src|));
              if replaced then r == Ok(|StoredStream(src)|) && dst[..r.written] == StoredStream(src)
              else match inner
                   case Wrote(stream) => r == Ok(|stream|) && dst[..r.written] == stream
                   case Failed(error) => r == Err(error)
  {
    hide StoredStream, Bound;
    if !QualityAccepted(quality) { return Err(BadQuality(quality)); }
    if !WindowAccepted(lgwin) { return Err(BadWindow(lgwin)); }
    if |src| == 0 {
      if dst.Length == 0 { return Err(OutputTooSmall(0)); }
      dst[0] := EMPTY_STREAM;
      return Ok(1);
    }
    assert ConfigFor(quality, lgwin).Validates();
    if inner.Wrote? {
      forall i | 0 <= i < |inner.stream| {
        dst[i] := inner.stream[i];
      }
    }
    var outcome := if inner.Wrote? then Ok(|inner.stream|) else Err(inner.error);
    if !BoundFits(|src|, limit) || (inner.Wrote? && |inner.stream| <= Bound(|src|)) {
      return outcome;
    }
    if dst.Length >= Bound(|src|) {
      StoredWithinBound(src);
      r := StoreStream(src, dst);
    } else {
      r := outcome;
    }
  }

  /** Whatever `compress` returns a length for decodes to its input, provided the encoder's own
      output does. */
  lemma CompressedDecodes(h: Huffman, contexts: ModeContext, src: seq<byte>, inner: Inner, output: seq<byte>)
    requires src != []
    requires (inner.Wrote? && output == inner.stream) || output == StoredStream(src)
    requires inner.Wrote? ==> ReadStream(h, contexts, BytesToBits(inner.stream)) == Got(src, [])
    ensures ReadStream(h, contexts, BytesToBits(output)) == Got(src, [])
  {
    hide ReadStream, StoredStream, BytesToBits;
    StoredRoundTrip(h, contexts, src);
  }
}
