/** Uncompressed meta-blocks over a ring buffer (src/shared/bitstream.rs). */
module Uncompressed {
  import opened Bits
  import opened BitWriting
  import opened Decoding
  import opened Headers
  import opened StreamDecoding
  import opened SymbolStreams

  /** `usize::MAX`: the mask of a flat buffer that cannot wrap. */
  const FLAT: nat := U64 - 1

  /** The buffer holds what the block needs: a whole window when the mask wraps, the bytes themselves
      when it does not. */
  ghost predicate Holds(input: seq<byte>, position: nat, mask: nat, len: nat) {
    if mask == FLAT then position + len <= |input| && position + len <= U64
    else mask < |input| && len <= mask + 1
  }

  lemma PowWord()
    ensures Pow2(64) == U64
  {
    Pow2Values();
    ShlPow2(32, 32);
    ShlTimes(Pow2(32), 32);
  }

  /** One byte of the window. */
  lemma WindowAt(input: seq<byte>, position: nat, mask: nat, len: nat, k: nat, i: nat)
    requires mask == Pow2(k) - 1 && i < len <= mask + 1
    ensures var at := BitAnd(position, mask) + i;
            var index := if at <= mask then at else at - (mask + 1);
            Window(input, mask, position, len)[i] == if index < |input| then input[index] else 0
  {
    hide BitAnd, Pow2;
    MaskedStep(position, k, i);
    assert Window(input, mask, position, len)[i] == ByteAt(input, mask, position + i);
  }

  /** The window from `position` is one stretch of the buffer, or two when it wraps. */
  lemma WindowStretches(input: seq<byte>, position: nat, mask: nat, len: nat, k: nat)
    requires mask == Pow2(k) - 1 && len <= mask + 1
    ensures var at := BitAnd(position, mask);
            && at <= mask
            && (at + len <= mask + 1 && at + len <= |input| ==>
                Window(input, mask, position, len) == input[at..at + len])
            && (at + len > mask + 1 && mask < |input| ==>
                  Window(input, mask, position, len) == input[at..mask + 1] + input[..at + len - (mask + 1)])
  {
    hide BitAnd, Pow2, Window;
    var at := BitAnd(position, mask);
    MaskFits(k, position);
    var text := Window(input, mask, position, len);
    if at + len <= mask + 1 && at + len <= |input| {
      forall i | 0 <= i < len
        ensures text[i] == input[at..at + len][i]
      {
        WindowAt(input, position, mask, len, k, i);
      }
    }
    if at + len > mask + 1 && mask < |input| {
      var pieces := input[at..mask + 1] + input[..at + len - (mask + 1)];
      forall i | 0 <= i < len
        ensures text[i] == pieces[i]
      {
        WindowAt(input, position, mask, len, k, i);
      }
    }
  }

  /** The block, and when the stream ends here an empty last block padded to a byte. */
  ghost function BlockBits(pos: nat, data: seq<byte>, last: bool): bits
    requires 1 <= |data| <= MAX_MLEN
  {
    var block := UncompressedBits(pos, data);
    if last then block + (LastEmptyBits() + Zeros(Aligned(pos + |block| + 2) - (pos + |block| + 2))) else block
  }

  /** The stretches to copy, as bits. */
  lemma StretchBits(input: seq<byte>, position: nat, mask: nat, len: nat, k: nat)
    requires k <= 64 && mask == Pow2(k) - 1 && position < U64 && Holds(input, position, mask, len)
    ensures var at := BitAnd(position, mask);
            if mask != FLAT && at + len > mask + 1 then
              var head := mask + 1 - at;
              && at <= mask < |input| && len - head <= |input|
              && BytesToBits(Window(input, mask, position, len))
                  == BytesToBits(input[at..at + head]) + BytesToBits(input[..len - head])
            else at + len <= |input| && Window(input, mask, position, len) == input[at..at + len]
  {
    hide BitAnd, Pow2, BytesToBits, Window;
    PowWord();
    FlatPosition(position);
    Pow2Monotone(k, 64);
    var at := BitAnd(position, mask);
    if mask == FLAT {
      FlatWindow(input, position, len);
    } else {
      WindowStretches(input, position, mask, len, k);
      if at + len > mask + 1 {
        BytesToBitsConcat(input[at..mask + 1], input[..at + len - (mask + 1)]);
      }
    }
  }

  lemma FlatWindow(input: seq<byte>, position: nat, len: nat)
    requires position + len <= |input|
    requires position < U64
    ensures position + len <= U64 ==> Window(input, FLAT, position, len) == input[position..position + len]
  {
    hide BitAnd;
    if position + len <= U64 {
      var text := Window(input, FLAT, position, len);
      forall i: nat | i < len
        ensures text[i] == input[position..position + len][i]
      {
        FlatPosition(position + i);
        assert text[i] == ByteAt(input, FLAT, position + i);
      }
    }
  }

  method WriteSlice(input: seq<byte>, from: nat, n: nat, w: BitWriter)
    requires w.Valid() && w.position % 8 == 0
    modifies w, w.storage
    ensures w.Valid() && w.position % 8 == 0
    ensures w.contents == old(w.contents) + if from + n <= |input| then BytesToBits(input[from..from + n]) else []
    ensures old(w.overflowed) ==> w.overflowed
    ensures !old(w.overflowed) && w.Roomy() ==> !w.overflowed
  {
    hide BytesToBits, Represents;
    if from + n <= |input| {
      w.WriteBytes(input[from..from + n]);
    }
  }

  /** Writes the stretches of the window that the buffer has; a stretch past its end is skipped. */
  method WriteWindow(input: seq<byte>, position: nat, mask: nat, length: nat, ghost k: nat, w: BitWriter)
    requires w.Valid() && w.position % 8 == 0 && 1 <= length && k <= 64 && mask == Pow2(k) - 1 && position < U64
    modifies w, w.storage
    ensures w.Valid() && w.position % 8 == 0
    ensures Holds(input, position, mask, length) ==>
              w.contents == old(w.contents) + BytesToBits(Window(input, mask, position, length))
    ensures |w.contents| >= |old(w.contents)|
    ensures old(w.overflowed) ==> w.overflowed
    ensures !old(w.overflowed) && w.Roomy() ==> !w.overflowed
  {
    hide BitAnd, Pow2, BytesToBits, Represents, Window, Holds, BitWriter.Valid;
    MaskFits(k, position);
    if Holds(input, position, mask, length) { StretchBits(input, position, mask, length, k); }
    var maskedPos, len := BitAnd(position, mask), length;
    if mask != FLAT && maskedPos + len > mask + 1 {
      var head := mask + 1 - maskedPos;
      WriteSlice(input, maskedPos, head, w);
      len := len - head;
      maskedPos := 0;
    }
    WriteSlice(input, maskedPos, len, w);
  }

  lemma FlatPosition(position: nat)
    requires position < U64
    ensures BitAnd(position, FLAT) == position
  {
    hide Pow2, BitAnd, Low;
    PowWord();
    BitAndMask(64, position);
    LowSmall(position, 64);
  }

  /** `store_uncompressed_meta_block`. */
  method StoreUncompressedMetaBlock(isFinalBlock: bool, input: seq<byte>, position: nat, mask: nat, len: nat,
                                    ghost k: nat, w: BitWriter)
    requires w.Valid() && 1 <= len <= MAX_MLEN && k <= 64 && mask == Pow2(k) - 1 && position < U64
    modifies w, w.storage
    ensures w.Valid()
    ensures Holds(input, position, mask, len) ==>
              w.contents == old(w.contents)
                            + BlockBits(|old(w.contents)|, Window(input, mask, position, len), isFinalBlock)
    ensures old(w.overflowed) ==> w.overflowed
    ensures !old(w.overflowed) && w.Roomy() ==> w.Kept()
  {
    hide BitAnd, BytesToBits, Represents, Window, UncompressedHeaderBits, ToBits, Holds, Aligned, LastEmptyBits, Pow2;
    ghost var c0 := w.contents;
    StoreUncompressedMetaBlockHeader(len, w);
    PaddedLength(w.contents);
    w.JumpToByteBoundary();
    WriteWindow(input, position, mask, len, k, w);
    ghost var c1 := w.contents;
    ghost var data := Window(input, mask, position, len);
    assert Holds(input, position, mask, len) ==> c1 == c0 + UncompressedBits(|c0|, data);
    PrepareAgain(w);
    w.PrepareStorage();
    if isFinalBlock {
      StoreLastEmpty(w);
    }
    if !w.overflowed { StaysKept(w); }
  }

  /** An empty last meta-block and the padding behind it. */
  method StoreLastEmpty(w: BitWriter)
    requires w.Valid()
    modifies w, w.storage
    ensures w.Valid()
    ensures w.contents == old(w.contents)
                          + (LastEmptyBits() + Zeros(Aligned(|old(w.contents)| + 2) - (|old(w.contents)| + 2)))
    ensures old(w.overflowed) ==> w.overflowed
    ensures !old(w.overflowed) && w.Roomy() ==> !w.overflowed
  {
    hide Represents, ToBits, Aligned;
    ghost var c := w.contents;
    assert Pow2(1) == 2;
    w.Write(1, 1);
    w.Write(1, 1);
    assert w.contents == c + LastEmptyBits();
    PaddedLength(w.contents);
    w.JumpToByteBoundary();
  }

  lemma PrepareAgain(w: BitWriter)
    requires w.Valid()
    ensures |w.contents| == w.position
    ensures !w.overflowed ==>
              && w.position <= 8 * w.storage.Length
              && w.contents == BytesToBits(w.storage[..])[..w.position]
  {
    hide BytesToBits;
  }

  /** A block that is not final decodes to the bytes the mask selects. */
  lemma BlockDecodes(dec: Decoder, pos: nat, ring: Ring, out: seq<byte>, input: seq<byte>, position: nat, mask: nat,
                     len: nat, rest: bits)
    requires 1 <= len <= MAX_MLEN
    ensures var data := Window(input, mask, position, len);
            ReadMetaBlock(dec, pos, ring, out, BlockBits(pos, data, false) + rest)
                == Got(Decoded(false, ring, out + data), rest)
  {
    hide Window, ReadMetaBlock, UncompressedBits;
    UncompressedRoundTrip(dec, pos, ring, out, Window(input, mask, position, len), rest);
  }

  /** A final block decodes to those bytes and ends the stream. */
  lemma FinalBlockDecodes(dec: Decoder, pos: nat, ring: Ring, out: seq<byte>, input: seq<byte>, position: nat,
                          mask: nat, len: nat, rest: bits)
    requires 1 <= len <= MAX_MLEN
    ensures var data := Window(input, mask, position, len);
            ReadMetaBlocks(dec, pos, ring, out, BlockBits(pos, data, true) + rest) == Got(out + data, rest)
  {
    hide Window, ReadMetaBlock, UncompressedBits, ReadMetaBlocks, LastEmptyBits, Aligned;
    var data := Window(input, mask, position, len);
    var block := UncompressedBits(pos, data);
    TwoBits();
    BlockIsLong(pos, data);
    var at := pos + |block|;
    var padded := Zeros(Aligned(at + 2) - (at + 2)) + rest;
    assert BlockBits(pos, data, true) + rest == block + (LastEmptyBits() + padded);
    UncompressedRoundTrip(dec, pos, ring, out, data, LastEmptyBits() + padded);
    StreamContinues(dec, pos, ring, out, block, LastEmptyBits() + padded, ring, out + data);
    EmptyBlockRoundTrip(dec, at, ring, out + data, padded);
    StreamEnds(dec, at, ring, out + data, LastEmptyBits(), rest, ring, out + data);
  }

  lemma TwoBits()
    ensures |LastEmptyBits()| == 2
  {
  }

  lemma BlockIsLong(pos: nat, data: seq<byte>)
    requires 1 <= |data| <= MAX_MLEN
    ensures |UncompressedBits(pos, data)| > 0
  {
    hide UncompressedHeaderBits, Aligned;
  }
}
