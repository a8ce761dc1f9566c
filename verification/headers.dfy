/** Stream and meta-block headers: the RFC 7932 readers and the writers of
    src/shared/bitstream.rs and src/shared/bits.rs that they invert. */
module Headers {
  import opened Bits
  import opened BitWriting

  /** The lengths a meta-block may declare. */
  const MAX_MLEN := 0x100_0000

  datatype Header =
    | LastEmpty
    | Metadata(skip: nat)
    | Data(last: bool, mlen: nat, uncompressed: bool)

  // ------------------------------------------------------ RFC 7932, sections 9.1 and 9.2

  /** The window a stream declares, and whether in the large form. */
  datatype StreamWindow = StreamWindow(wbits: nat, large: bool) {
    predicate Legal() { 10 <= wbits <= if large then 62 else 24 }
  }

  /** WBITS. The pattern that RFC 7932 reserves opens the large form: a zero bit, and six bits of
      window. */
  function ReadWindow(s: bits): Read<StreamWindow> {
    var (wide, s) :- ReadBits(1, s);
    if wide == 0 then Got(StreamWindow(16, false), s)
    else
      var (n, s) :- ReadBits(3, s);
      if n != 0 then Got(StreamWindow(17 + n, false), s)
      else
        var (m, s) :- ReadBits(3, s);
        if m == 0 then Got(StreamWindow(17, false), s)
        else if m != 1 then Got(StreamWindow(8 + m, false), s)
        else
          var (reserved, s) :- ReadBits(1, s);
          var (wbits, s) :- ReadBits(6, s);
          if reserved == 0 && StreamWindow(wbits, true).Legal() then Got(StreamWindow(wbits, true), s) else Fail
  }

  /** MNIBBLES and MLEN. A wide length whose last nibble is zero is rejected. */
  function ReadLength(nibbles: nat, s: bits): Read<nat>
  {
    var (field, s) :- ReadBits(4 * nibbles, s);
    if nibbles > 4 && Shr(field, 4 * (nibbles - 1)) == 0 then Fail else Got(field + 1, s)
  }

  function ReadMetadata(s: bits): Read<Header> {
    var (reserved, s) :- ReadBits(1, s);
    if reserved != 0 then Fail
    else
      var (skipBytes, s) :- ReadBits(2, s);
      var (skip, s) :- ReadBits(8 * skipBytes, s);
      if skipBytes > 1 && Shr(skip, 8 * (skipBytes - 1)) == 0 then Fail
      else Got(Metadata(if skipBytes == 0 then 0 else skip + 1), s)
  }

  function ReadBody(last: bool, s: bits): Read<Header> {
    var (code, s) :- ReadBits(2, s);
    if code == 3 then ReadMetadata(s)
    else
      var (mlen, s) :- ReadLength(4 + code, s);
      if last then Got(Data(true, mlen, false), s)
      else
        var (uncompressed, s) :- ReadBits(1, s);
        Got(Data(false, mlen, uncompressed == 1), s)
  }

  function ReadHeader(s: bits): Read<Header> {
    var (last, s) :- ReadBits(1, s);
    if last == 1 then
      var (empty, s) :- ReadBits(1, s);
      if empty == 1 then Got(LastEmpty, s) else ReadBody(true, s)
    else ReadBody(false, s)
  }

  /** The bits up to the next byte boundary, which have to be zero. `pos` is where `s` starts. */
  function ReadPadding(pos: nat, s: bits): Read<()> {
    var n := Aligned(pos) - pos;
    var (v, s) :- ReadBits(n, s);
    if v == 0 then Got((), s) else Fail
  }

  lemma ReadPaddingInverts(pos: nat, rest: bits)
    ensures ReadPadding(pos, Zeros(Aligned(pos) - pos) + rest) == Got((), rest)
  {
    hide Bit, FromBits, ToBits, ReadBits;
    var n := Aligned(pos) - pos;
    ToBitsZero(n);
    ReadBitsInverts(n, 0, rest);
  }

  // ------------------------------------------------------------------- the writers

  /** The nibble count `encode_mlen` chooses: the narrowest that holds `length - 1`. */
  function Mnibbles(length: nat): (m: nat)
    requires 1 <= length <= MAX_MLEN
    ensures m == if length <= 0x1_0000 then 4 else if length <= 0x10_0000 then 5 else 6
  {
    var lg := if length == 1 then 1 else Log2(length - 1) + 1;
    Log2Range(length, lg);
    (if lg < 16 then 16 else lg + 3) / 4
  }

  lemma Log2Range(length: nat, lg: nat)
    requires 1 <= length <= MAX_MLEN
    requires lg == if length == 1 then 1 else Log2(length - 1) + 1
    ensures lg <= 24
    ensures lg <= 16 <==> length <= 0x1_0000
    ensures lg <= 20 <==> length <= 0x10_0000
  {
    hide Shl, Shr;
    Pow2Values();
    assert Pow2(20) == 16 * Pow2(16);
    if length > 1 {
      var l := lg - 1;
      if l >= 24 { Pow2Monotone(24, l); } else { Pow2Monotone(l + 1, 24); }
      if l >= 20 { Pow2Monotone(20, l); } else { Pow2Monotone(l + 1, 20); }
      if l >= 16 { Pow2Monotone(16, l); } else { Pow2Monotone(l + 1, 16); }
    }
  }

  /** `encode_mlen`: the nibble code, the width of the length field and the field. */
  function EncodeMlen(length: nat): (nat, nat, nat)
    requires 1 <= length <= MAX_MLEN
  {
    (Mnibbles(length) - 4, Mnibbles(length) * 4, length - 1)
  }

  /** The field fits its width, and one wider than four nibbles has a last nibble that is not
      zero. */
  lemma MlenIsNarrowest(length: nat)
    requires 1 <= length <= MAX_MLEN
    ensures var (code, width, field) := EncodeMlen(length);
            && code <= 2 && width == 4 * (4 + code) && field < Pow2(width)
            && (code > 0 ==> Shr(field, width - 4) > 0)
  {
    hide Bit, Log2, Mnibbles;
    Pow2Values();
    assert Pow2(20) == 16 * Pow2(16);
    var (code, width, field) := EncodeMlen(length);
    if code > 0 {
      LowShr(field, width - 4);
      LowBound(field, width - 4);
      ShlZero(width - 4);
    }
  }

  lemma ReadLengthInverts(length: nat, rest: bits)
    requires 1 <= length <= MAX_MLEN
    ensures var (code, width, field) := EncodeMlen(length);
            ReadLength(4 + code, ToBits(width, field) + rest) == Got(length, rest)
  {
    hide Pow2, Shl, Shr, Low, Bit, BitOr, BitAnd, LittleEndian, Log2, FromBits, ToBits, BytesToBits, Mnibbles;
    MlenIsNarrowest(length);
    var (code, width, field) := EncodeMlen(length);
    ReadBitsInverts(width, field, rest);
  }

  ghost function MlenBits(length: nat): bits
    requires 1 <= length <= MAX_MLEN
  {
    var (code, width, field) := EncodeMlen(length);
    ToBits(2, code) + ToBits(width, field)
  }

  ghost function CompressedHeaderBits(last: bool, length: nat): bits
    requires 1 <= length <= MAX_MLEN
  {
    (if last then ToBits(1, 1) + ToBits(1, 0) else ToBits(1, 0)) + MlenBits(length)
    + (if last then [] else ToBits(1, 0))
  }

  ghost function UncompressedHeaderBits(length: nat): bits
    requires 1 <= length <= MAX_MLEN
  {
    ToBits(1, 0) + MlenBits(length) + ToBits(1, 1)
  }

  method WriteMlen(length: nat, w: BitWriter)
    requires w.Valid() && 1 <= length <= MAX_MLEN
    modifies w, w.storage
    ensures w.Valid() && w.contents == old(w.contents) + MlenBits(length)
    ensures old(w.overflowed) ==> w.overflowed
    ensures !old(w.overflowed) && w.Roomy() ==> !w.overflowed
  {
    hide Shl, Shr, Low, Bit, BitOr, BitAnd, LittleEndian, Log2, FromBits, ToBits, BytesToBits, Mnibbles;
    MlenIsNarrowest(length);
    assert Pow2(2) == 4;
    var (code, width, field) := EncodeMlen(length);
    w.Write(2, code);
    w.Write(width, field);
  }

  method StoreCompressedMetaBlockHeader(isFinalBlock: bool, length: nat, w: BitWriter)
    requires w.Valid() && 1 <= length <= MAX_MLEN
    modifies w, w.storage
    ensures w.Valid() && w.contents == old(w.contents) + CompressedHeaderBits(isFinalBlock, length)
    ensures old(w.overflowed) ==> w.overflowed
    ensures !old(w.overflowed) && w.Roomy() ==> !w.overflowed
  {
    hide Shl, Shr, Low, Bit, BitOr, BitAnd, LittleEndian, Log2, FromBits, ToBits, BytesToBits, EncodeMlen, MlenBits,
      Represents;
    assert Pow2(1) == 2;
    ghost var c0 := w.contents;
    w.Write(1, if isFinalBlock then 1 else 0);
    if isFinalBlock {
      w.Write(1, 0);
    }
    assert w.contents == c0 + if isFinalBlock then ToBits(1, 1) + ToBits(1, 0) else ToBits(1, 0);
    WriteMlen(length, w);
    if !isFinalBlock {
      w.Write(1, 0);
    }
  }

  method StoreUncompressedMetaBlockHeader(length: nat, w: BitWriter)
    requires w.Valid() && 1 <= length <= MAX_MLEN
    modifies w, w.storage
    ensures w.Valid() && w.contents == old(w.contents) + UncompressedHeaderBits(length)
    ensures old(w.overflowed) ==> w.overflowed
    ensures !old(w.overflowed) && w.Roomy() ==> !w.overflowed
  {
    hide Shl, Shr, Low, Bit, BitOr, BitAnd, LittleEndian, Log2, FromBits, ToBits, BytesToBits, EncodeMlen, MlenBits,
      Represents;
    Pow2Values();
    w.Write(1, 0);
    WriteMlen(length, w);
    w.Write(1, 1);
  }

  // ---------------------------------------------------------------- round trips

  lemma ReadBodyInverts(length: nat, last: bool, flag: bool, rest: bits)
    requires 1 <= length <= MAX_MLEN
    ensures ReadBody(last, MlenBits(length) + (if last then [] else ToBits(1, if flag then 1 else 0)) + rest)
         == Got(Data(last, length, !last && flag), rest)
  {
    hide Pow2, Shl, Shr, Low, Bit, BitOr, BitAnd, LittleEndian, Log2, FromBits, ToBits, BytesToBits, Mnibbles,
      ReadMetadata, ReadBits;
    Pow2Values();
    MlenIsNarrowest(length);
    var (code, width, field) := EncodeMlen(length);
    var tail := (if last then [] else ToBits(1, if flag then 1 else 0)) + rest;
    assert MlenBits(length) + (if last then [] else ToBits(1, if flag then 1 else 0)) + rest
        == ToBits(2, code) + (ToBits(width, field) + tail);
    ReadBitsInverts(2, code, ToBits(width, field) + tail);
    ReadLengthInverts(length, tail);
    if last {
      assert tail == rest;
    } else {
      ReadBitsInverts(1, if flag then 1 else 0, rest);
    }
  }

  lemma ReadHeaderLast(body: bits)
    ensures ReadHeader(ToBits(1, 1) + ToBits(1, 0) + body) == ReadBody(true, body)
    ensures ReadHeader(ToBits(1, 1) + ToBits(1, 1) + body) == Got(LastEmpty, body)
  {
    hide Shl, Shr, Low, Bit, BitOr, BitAnd, LittleEndian, Log2, FromBits, ToBits, BytesToBits, ReadBody;
    assert Pow2(1) == 2;
    forall e | 0 <= e < 2
      ensures ReadBits(1, ToBits(1, 1) + ToBits(1, e) + body) == Got(1, ToBits(1, e) + body)
      ensures ReadBits(1, ToBits(1, e) + body) == Got(e, body)
    {
      assert ToBits(1, 1) + ToBits(1, e) + body == ToBits(1, 1) + (ToBits(1, e) + body);
      ReadBitsInverts(1, 1, ToBits(1, e) + body);
      ReadBitsInverts(1, e, body);
    }
  }

  lemma ReadHeaderNotLast(body: bits)
    ensures ReadHeader(ToBits(1, 0) + body) == ReadBody(false, body)
  {
    hide Shl, Shr, Low, Bit, BitOr, BitAnd, LittleEndian, Log2, FromBits, ToBits, BytesToBits, ReadBody;
    assert Pow2(1) == 2;
    ReadBitsInverts(1, 0, body);
  }

  /** A section 9.2 reader recovers the header of a compressed meta-block. */
  lemma CompressedHeaderRoundTrip(last: bool, length: nat, rest: bits)
    requires 1 <= length <= MAX_MLEN
    ensures ReadHeader(CompressedHeaderBits(last, length) + rest) == Got(Data(last, length, false), rest)
  {
    hide Pow2, Shl, Shr, Low, Bit, BitOr, BitAnd, LittleEndian, Log2, FromBits, ToBits, BytesToBits, ReadHeader,
      ReadBody, MlenBits;
    var flag := if last then [] else ToBits(1, 0);
    var body := MlenBits(length) + flag + rest;
    var head := if last then ToBits(1, 1) + ToBits(1, 0) else ToBits(1, 0);
    assert CompressedHeaderBits(last, length) + rest == head + body;
    assert ReadHeader(head + body) == ReadBody(last, body) by {
      if last { ReadHeaderLast(body); } else { ReadHeaderNotLast(body); }
    }
    ReadBodyInverts(length, last, false, rest);
  }

  /** A section 9.2 reader recovers the header of an uncompressed meta-block. */
  lemma UncompressedHeaderRoundTrip(length: nat, rest: bits)
    requires 1 <= length <= MAX_MLEN
    ensures ReadHeader(UncompressedHeaderBits(length) + rest) == Got(Data(false, length, true), rest)
  {
    hide Pow2, Shl, Shr, Low, Bit, BitOr, BitAnd, LittleEndian, Log2, FromBits, ToBits, BytesToBits, ReadHeader,
      ReadBody, MlenBits;
    var body := MlenBits(length) + ToBits(1, 1) + rest;
    ReadBodyInverts(length, false, true, rest);
    assert UncompressedHeaderBits(length) + rest == ToBits(1, 0) + body;
    ReadHeaderNotLast(body);
  }

  ghost function LastEmptyBits(): bits { ToBits(1, 1) + ToBits(1, 1) }

  lemma LastEmptyRoundTrip(rest: bits)
    ensures ReadHeader(LastEmptyBits() + rest) == Got(LastEmpty, rest)
  {
    hide Pow2, Shl, Shr, Low, Bit, BitOr, BitAnd, LittleEndian, Log2, FromBits, ToBits, BytesToBits, ReadHeader;
    ReadHeaderLast(rest);
  }

  // ------------------------------------------------------------------ stream headers

  /** `ResolvedWindow::header`: the bits, and how many of them there are. */
  function WindowHeader(w: StreamWindow): (nat, nat)
    requires w.Legal()
  {
    if w.large then (BitOr(0x11, Shl(Low(w.wbits, 6), 8)), 14)
    else if w.wbits == 16 then (0, 1)
    else if w.wbits == 17 then (1, 7)
    else if w.wbits > 17 then (BitOr(1, Shl(w.wbits - 17, 1)), 4)
    else (BitOr(1, Shl(w.wbits - 8, 4)), 7)
  }

  function WindowBits(w: StreamWindow): bits
    requires w.Legal()
  {
    ToBits(WindowHeader(w).1, WindowHeader(w).0)
  }

  /** The fields a header consists of. */
  function WindowFields(w: StreamWindow): bits
    requires w.Legal()
  {
    if w.large then ToBits(1, 1) + ToBits(3, 0) + ToBits(3, 1) + ToBits(1, 0) + ToBits(6, w.wbits)
    else if w.wbits == 16 then ToBits(1, 0)
    else if w.wbits == 17 then ToBits(1, 1) + ToBits(3, 0) + ToBits(3, 0)
    else if w.wbits > 17 then ToBits(1, 1) + ToBits(3, w.wbits - 17)
    else ToBits(1, 1) + ToBits(3, 0) + ToBits(3, w.wbits - 8)
  }

  lemma WindowLayout(w: StreamWindow)
    requires w.Legal()
    ensures WindowBits(w) == WindowFields(w)
  {
    hide Shl, Shr, Low, BitOr, ToBits, Pow2;
    Pow2Values();
    ShlValues(w.wbits);
    if w.large {
      LowSmall(w.wbits, 6);
      BitOrDisjoint(8, 0x11, w.wbits);
      ToBitsSplit(8, 6, 0x11, w.wbits);
      ToBitsSplit(7, 1, 0x11, 0);
      ToBitsSplit(4, 3, 1, 1);
      ToBitsSplit(1, 3, 1, 0);
    } else if w.wbits == 17 {
      ToBitsSplit(4, 3, 1, 0);
      ToBitsSplit(1, 3, 1, 0);
    } else if w.wbits > 17 {
      BitOrDisjoint(1, 1, w.wbits - 17);
      ToBitsSplit(1, 3, 1, w.wbits - 17);
    } else if w.wbits < 16 {
      BitOrDisjoint(4, 1, w.wbits - 8);
      ToBitsSplit(4, 3, 1, w.wbits - 8);
      ToBitsSplit(1, 3, 1, 0);
    }
  }

  lemma ShlValues(n: nat)
    ensures Shl(0, 1) == Shl(0, 3) == Shl(0, 4) == Shl(0, 7) == 0 && Shl(1, 4) == 16
  {
    ShlZero(1);
    ShlZero(3);
    ShlZero(4);
    ShlZero(7);
    Pow2Values();
    ShlTimes(1, 4);
  }

  /** A section 9.1 reader recovers every window a stream can declare, in either form. */
  lemma WindowRoundTrip(w: StreamWindow, rest: bits)
    requires w.Legal()
    ensures ReadWindow(WindowBits(w) + rest) == Got(w, rest)
  {
    hide Shl, Shr, Low, BitOr, ToBits, Pow2, Bit, FromBits, ReadBits, WindowBits;
    Pow2Values();
    WindowLayout(w);
    if w.large {
      var r2 := ToBits(1, 0) + (ToBits(6, w.wbits) + rest);
      var r1 := ToBits(3, 1) + r2;
      assert WindowBits(w) + rest == ToBits(1, 1) + (ToBits(3, 0) + r1);
      ReadBitsInverts(1, 1, ToBits(3, 0) + r1);
      ReadBitsInverts(3, 0, r1);
      ReadBitsInverts(3, 1, r2);
      ReadBitsInverts(1, 0, ToBits(6, w.wbits) + rest);
      ReadBitsInverts(6, w.wbits, rest);
    } else if w.wbits == 16 {
      ReadBitsInverts(1, 0, rest);
    } else if w.wbits > 17 {
      assert WindowBits(w) + rest == ToBits(1, 1) + (ToBits(3, w.wbits - 17) + rest);
      ReadBitsInverts(1, 1, ToBits(3, w.wbits - 17) + rest);
      ReadBitsInverts(3, w.wbits - 17, rest);
    } else {
      var m := if w.wbits == 17 then 0 else w.wbits - 8;
      assert WindowBits(w) + rest == ToBits(1, 1) + (ToBits(3, 0) + (ToBits(3, m) + rest));
      ReadBitsInverts(1, 1, ToBits(3, 0) + (ToBits(3, m) + rest));
      ReadBitsInverts(3, 0, ToBits(3, m) + rest);
      ReadBitsInverts(3, m, rest);
    }
  }

  // ------------------------------------------------------------------ byte padding

  const BYTE_PADDING_SLACK := 3

  /** The six bits of an empty metadata block: ISLAST 0, MNIBBLES 3, reserved 0, MSKIPBYTES 0. */
  ghost function SealBits(): bits { ToBits(6, 6) }

  /** `inject_byte_padding`: the carried bits, an empty metadata block and zeros up to a byte
      boundary, or nothing at all when the stream is aligned or `dst` is too short. */
  method InjectBytePadding(lastBytes: nat, lastBytesBits: nat, dst: array<byte>)
    returns (carried: nat, carriedBits: nat, written: nat)
    requires lastBytesBits <= 16 && lastBytes < Pow2(lastBytesBits)
    modifies dst
    ensures lastBytesBits == 0 || dst.Length < BYTE_PADDING_SLACK ==>
              written == 0 && carried == lastBytes && carriedBits == lastBytesBits && dst[..] == old(dst[..])
    ensures lastBytesBits > 0 && dst.Length >= BYTE_PADDING_SLACK ==>
              && carried == 0 && carriedBits == 0
              && 0 < written <= BYTE_PADDING_SLACK
              && BytesToBits(dst[..written]) == Padded(ToBits(lastBytesBits, lastBytes) + SealBits())
              && dst[BYTE_PADDING_SLACK..] == old(dst[BYTE_PADDING_SLACK..])
  {
    carried, carriedBits, written := lastBytes, lastBytesBits, 0;
    if lastBytesBits == 0 || dst.Length < BYTE_PADDING_SLACK {
      return;
    }
    var seal := BitOr(lastBytes, Shl(6, lastBytesBits));
    carried, carriedBits := 0, 0;
    ghost var word := LittleEndian(BYTE_PADDING_SLACK, seal);
    assert word[0] == seal % 256 && word[1] == Shr(seal, 8) % 256 && word[2] == Shr(seal, 16) % 256;
    dst[0] := seal % 256;
    dst[1] := Shr(seal, 8) % 256;
    dst[2] := Shr(seal, 16) % 256;
    written := (lastBytesBits + 6 + 7) / 8;
    assert dst[..written] == word[..written];
    SealWord(lastBytes, lastBytesBits, written, word[..written]);
  }

  lemma SealWord(lastBytes: nat, k: nat, written: nat, word: seq<byte>)
    requires 0 < k <= 16 && lastBytes < Pow2(k) && written == (k + 13) / 8
    requires word == LittleEndian(BYTE_PADDING_SLACK, BitOr(lastBytes, Shl(6, k)))[..written]
    ensures BytesToBits(word) == Padded(ToBits(k, lastBytes) + SealBits())
  {
    hide Shl, Shr, Low, Bit, BitOr, LittleEndian, Log2;
    assert Pow2(6) == 64;
    var seal := BitOr(lastBytes, Shl(6, k));
    var want := Padded(ToBits(k, lastBytes) + SealBits());
    forall j | 0 <= j < 8 * written
      ensures BytesToBits(word)[j] == want[j]
    {
      LittleEndianBit(BYTE_PADDING_SLACK, seal, j / 8, j % 8);
      BitOrBit(lastBytes, Shl(6, k), j);
      BitShl(6, k, j);
      if k <= j { BitHigh(lastBytes, k, j); }
      if k + 6 <= j { BitHigh(6, 6, j - k); }
    }
  }

  lemma SealFields()
    ensures SealBits() == ToBits(1, 0) + ToBits(2, 3) + ToBits(1, 0) + ToBits(2, 0)
  {
    ToBitsCut(1, 5, 6);
    ToBitsCut(2, 3, 3);
    ToBitsCut(1, 2, 0);
  }

  /** The seal decodes as a metadata block that carries nothing. */
  lemma SealDecodes(rest: bits)
    ensures ReadHeader(SealBits() + rest) == Got(Metadata(0), rest)
  {
    hide Shl, Shr, Low, Bit, BitOr, BitAnd, LittleEndian, Log2, FromBits, ToBits, BytesToBits, ReadHeader;
    assert Pow2(1) == 2 && Pow2(2) == 4;
    var r3 := ToBits(2, 0) + rest;
    var r2 := ToBits(1, 0) + r3;
    var r1 := ToBits(2, 3) + r2;
    SealFields();
    assert SealBits() + rest == ToBits(1, 0) + r1;
    ReadHeaderNotLast(r1);
    ReadBitsInverts(2, 3, r2);
    ReadBitsInverts(1, 0, r3);
    ReadBitsInverts(2, 0, rest);
    assert ReadBits(0, rest) == Got(0, rest);
  }
}
