/** The bit writer (src/shared/bits.rs).

    `BitWriter` is the writer over a fixed slice and `VecBitWriter` the writer over a growable
    vector.  Both carry the abstract value `contents`: the sequence of bits appended so far.
    `Represents` ties it to the buffer, whatever stale bytes lie beyond the position. */
module BitWriting {
  import opened Bits

  const MAX_BITS_PER_WRITE := 56
  const WRITE_SLACK := 8

  /** The first `position` bits of the buffer are `contents`, and the rest of the byte the
      position falls in is clear. */
  ghost predicate Represents(storage: seq<byte>, position: nat, contents: bits) {
    && |contents| == position <= 8 * |storage|
    && contents == BytesToBits(storage)[..position]
    && (position / 8 < |storage| ==> storage[position / 8] < Pow2(position % 8))
  }

  /** The machine word a write stores: the partial byte, and the new bits shifted past it. */
  function WrittenWord(partial: byte, shift: nat, v: nat): (word: seq<byte>)
    ensures |word| == WRITE_SLACK
  {
    LittleEndian(WRITE_SLACK, BitOr(partial, Shl(v, shift)))
  }

  /** The mask an update keeps: `!((1u32 << total) - 1) | ((1u32 << skip) - 1)`. */
  function KeepMask(skip: nat, total: nat): nat
    requires total <= 8
  {
    Pow2Monotone(total, 8);
    Pow2Values();
    BitOr(U32 - 1 - (Pow2(total) - 1), Pow2(skip) - 1)
  }

  /** The byte an update stores: `changed` bits from bit `skip` up come from `v`. */
  function UpdatedByte(was: byte, skip: nat, changed: nat, v: nat): byte
    requires skip + changed <= 8
  {
    BitOr(Shl(Low(v, changed), skip), BitAnd(was, KeepMask(skip, skip + changed))) % 256
  }

  /** `after` is `before` with `n` bits of `v` written over position `at`. */
  ghost predicate Overwritten(before: bits, after: bits, at: nat, n: nat, v: nat) {
    && at + n <= |before| == |after|
    && forall j :: 0 <= j < |before| ==> after[j] == if at <= j < at + n then Bit(v, j - at) else before[j]
  }

  lemma OverwrittenIs(before: bits, after: bits, at: nat, n: nat, v: nat)
    requires Overwritten(before, after, at, n, v)
    ensures after == before[..at] + ToBits(n, v) + before[at + n..]
  {
  }

  // ------------------------------------------------------------ byte-level lemmas

  lemma SplicedBits(storage: seq<byte>, at: nat, chosen: seq<byte>)
    requires at + |chosen| <= |storage|
    ensures BytesToBits(storage[..at] + chosen + storage[at + |chosen|..])
         == BytesToBits(storage)[..8 * at] + BytesToBits(chosen) + BytesToBits(storage)[8 * (at + |chosen|)..]
  {
    hide Pow2, Shl, Shr, Low, Bit, BitOr, BitAnd, LittleEndian, WrittenWord, KeepMask, UpdatedByte;
  }

  /** Replacing one byte replaces its eight bits. */
  lemma OneByte(storage: seq<byte>, at: nat, b: byte)
    requires at < |storage|
    ensures BytesToBits(storage[at := b])
         == BytesToBits(storage)[..8 * at] + ToBits(8, b) + BytesToBits(storage)[8 * at + 8..]
  {
    hide Pow2, Shl, Shr, Low, Bit, BitOr, BitAnd, LittleEndian, WrittenWord, KeepMask, UpdatedByte;
    assert storage[at := b] == storage[..at] + [b] + storage[at + 1..];
    SplicedBits(storage, at, [b]);
    BytesToBitsAt([b], 0);
  }

  /** A byte whose bits from `k` up are clear is below `2^k`. */
  lemma ClearAbove(b: byte, k: nat)
    requires k <= 8 && forall i :: k <= i < 8 ==> !Bit(b, i)
    ensures b < Pow2(k)
  {
    var high := Shr(b, k);
    forall i | 0 <= i < 8 - k
      ensures !Bit(high, i)
    {
      BitShr(b, k, i);
    }
    assert ToBits(8 - k, high) == Zeros(8 - k);
    Pow2Values();
    ShrBound(b, k, 8 - k);
    ToBitsZero(8 - k);
    FromToBits(8 - k, high);
    FromToBits(8 - k, 0);
    ShlZero(k);
    LowShr(b, k);
    LowBound(b, k);
  }

  /** Bit `m` of the word a write stores: what was there, the new bits, and zeros. */
  lemma WordBit(partial: byte, k: nat, n: nat, v: nat, t: nat, i: nat)
    requires k < 8 && n <= MAX_BITS_PER_WRITE && v < Pow2(n) && partial < Pow2(k) && t < 8 && i < 8
    ensures var m := 8 * t + i;
            Bit(WrittenWord(partial, k, v)[t], i)
            == if m < k then Bit(partial, m) else m < k + n && Bit(v, m - k)
  {
    var m := 8 * t + i;
    var value := BitOr(partial, Shl(v, k));
    LittleEndianBit(WRITE_SLACK, value, t, i);
    BitOrBit(partial, Shl(v, k), m);
    BitShl(v, k, m);
    if k <= m { BitHigh(partial, k, m); }
    if k + n <= m { BitHigh(v, n, m - k); }
  }

  lemma WriteAppends(storage: seq<byte>, position: nat, contents: bits, n: nat, v: nat, word: seq<byte>)
    requires Represents(storage, position, contents)
    requires n <= MAX_BITS_PER_WRITE && v < Pow2(n)
    requires position / 8 + WRITE_SLACK <= |storage|
    requires word == WrittenWord(storage[position / 8], position % 8, v)
    ensures |word| == WRITE_SLACK
    ensures Represents(storage[..position / 8] + word + storage[position / 8 + WRITE_SLACK..],
                       position + n, contents + ToBits(n, v))
  {
    hide Pow2, Shl, Shr, Low, Bit, BitOr, BitAnd, LittleEndian, WrittenWord, KeepMask, UpdatedByte;
    var s, k := position / 8, position % 8;
    var result := storage[..s] + word + storage[s + WRITE_SLACK..];
    forall j | 0 <= j < position + n
      ensures Bit(result[j / 8], j % 8) == (contents + ToBits(n, v))[j]
    {
      if j >= 8 * s {
        WordBit(storage[s], k, n, v, j / 8 - s, j % 8);
        if j < position { assert contents[j] == Bit(storage[s], j - 8 * s); }
      }
    }
    var end := position + n;
    var last := word[end / 8 - s];
    forall i | end % 8 <= i < 8
      ensures !Bit(last, i)
    {
      WordBit(storage[s], k, n, v, end / 8 - s, i);
    }
    ClearAbove(last, end % 8);
    assert BytesToBits(result)[..end] == contents + ToBits(n, v);
  }

  lemma ChosenBit(skip: nat, changed: nat, v: nat, i: nat)
    requires skip + changed <= 8 && i < 8
    ensures Shl(Low(v, changed), skip) < Pow2(8) == 256
    ensures Bit(Shl(Low(v, changed), skip), i) == (skip <= i < skip + changed && Bit(v, i - skip))
  {
    hide Shl, Shr, Low, Bit, BitOr, BitAnd;
    LowBound(v, changed);
    ShlMonotone(Low(v, changed), Pow2(changed), skip);
    ShlPow2(changed, skip);
    Pow2Monotone(skip + changed, 8);
    BitShl(Low(v, changed), skip, i);
    if skip <= i { BitLow(v, changed, i - skip); }
  }

  /** Bit `i` of an updated byte. */
  lemma UpdatedByteBit(b: byte, skip: nat, changed: nat, v: nat, i: nat)
    requires skip + changed <= 8 && i < 8
    ensures Bit(UpdatedByte(b, skip, changed, v), i)
         == if skip <= i < skip + changed then Bit(v, i - skip) else Bit(b, i)
  {
    hide Pow2, Shl, Shr, Low, Bit, BitOr, BitAnd, KeepMask;
    var kept := BitAnd(b, KeepMask(skip, skip + changed));
    var chosen := Shl(Low(v, changed), skip);
    ChosenBit(skip, changed, v, i);
    assert Bit(kept, i) == (Bit(b, i) && (i < skip || i >= skip + changed)) by {
      KeepMaskBit(skip, skip + changed, i);
      BitAndBit(b, KeepMask(skip, skip + changed), i);
    }
    assert BitOr(chosen, kept) < 256 by {
      BitAndBound(b, KeepMask(skip, skip + changed));
      BitOrBound(8, chosen, kept);
    }
    BitOrBit(chosen, kept, i);
  }

  lemma KeepMaskBit(skip: nat, total: nat, i: nat)
    requires skip <= total <= 8 && i < 8
    ensures Bit(KeepMask(skip, total), i) == (i < skip || i >= total)
  {
    hide Shl, Shr, Low, Bit, BitOr, BitAnd;
    Pow2Values();
    Pow2Monotone(total, 8);
    NotBit(32, Pow2(total) - 1, i);
    MaskBit(total, i);
    MaskBit(skip, i);
    BitOrBit(U32 - 1 - (Pow2(total) - 1), Pow2(skip) - 1, i);
  }

  lemma UpdateOverwrites(storage: seq<byte>, position: nat, contents: bits, at: nat, changed: nat, v: nat, b: byte,
                         after: bits)
    requires Represents(storage, position, contents)
    requires at % 8 + changed <= 8 && at + changed <= position && changed > 0
    requires b == UpdatedByte(storage[at / 8], at % 8, changed, v)
    requires Overwritten(contents, after, at, changed, v)
    ensures Represents(storage[at / 8 := b], position, after)
  {
    hide Pow2, Shl, Shr, Low, Bit, BitOr, BitAnd, LittleEndian, WrittenWord, KeepMask, UpdatedByte;
    var s, k := at / 8, at % 8;
    var result := storage[s := b];
    forall j | 0 <= j < position
      ensures Bit(result[j / 8], j % 8) == after[j]
    {
      if j / 8 == s { UpdatedByteBit(storage[s], k, changed, v, j % 8); }
      assert contents[j] == Bit(storage[j / 8], j % 8);
    }
    if position / 8 == s {
      forall i | position % 8 <= i < 8
        ensures !Bit(b, i)
      {
        UpdatedByteBit(storage[s], k, changed, v, i);
        BitHigh(storage[s], position % 8, i);
      }
      ClearAbove(b, position % 8);
    }
    assert BytesToBits(result)[..position] == after;
  }

  lemma RewindTruncates(storage: seq<byte>, position: nat, contents: bits, to: nat)
    requires Represents(storage, position, contents)
    requires to <= position && to / 8 < |storage|
    ensures Represents(storage[to / 8 := BitAnd(storage[to / 8], Pow2(to % 8) - 1) % 256], to, contents[..to])
  {
    hide Pow2, Shl, Shr, Low, Bit, BitOr, BitAnd, LittleEndian;
    var s, k := to / 8, to % 8;
    var cut := MaskedByte(storage[s], k);
    forall i | 0 <= i < k
      ensures Bit(cut, i) == Bit(storage[s], i)
    {
      BitLow(storage[s], k, i);
    }
    CutTo(storage, to, cut);
    assert BytesToBits(storage)[..to] == contents[..to];
  }

  lemma CutTo(storage: seq<byte>, to: nat, cut: byte)
    requires to / 8 < |storage| && cut < Pow2(to % 8)
    requires forall i :: 0 <= i < to % 8 ==> Bit(cut, i) == Bit(storage[to / 8], i)
    ensures Represents(storage[to / 8 := cut], to, BytesToBits(storage)[..to])
  {
    hide Pow2, Shl, Shr, Low, Bit, BitOr, BitAnd, LittleEndian, WrittenWord, KeepMask, UpdatedByte;
    var s, result := to / 8, storage[to / 8 := cut];
    OneByte(storage, s, cut);
    assert ToBits(8, cut)[..to % 8] == BytesToBits(storage)[8 * s..to];
    assert BytesToBits(result)[..to] == BytesToBits(storage)[..to];
  }

  lemma MaskedByte(b: byte, k: nat) returns (cut: byte)
    requires k < 8
    ensures cut == Low(b, k) == BitAnd(b, Pow2(k) - 1) && cut < Pow2(k)
  {
    BitAndMask(k, b);
    BitAndBound(b, Pow2(k) - 1);
    LowBound(b, k);
    cut := Low(b, k);
  }

  /** Overwriting the next `changed` bits of a field extends the part already overwritten. */
  lemma OverwriteExtends(c0: bits, c1: bits, c2: bits, at: nat, done: nat, changed: nat, v: nat)
    requires Overwritten(c0, c1, at, done, v) && Overwritten(c1, c2, at + done, changed, Shr(v, done))
    ensures Overwritten(c0, c2, at, done + changed, v)
  {
    forall j | at + done <= j < at + done + changed
      ensures c2[j] == Bit(v, j - at)
    {
      BitShr(v, done, j - at - done);
    }
  }

  /** The next byte boundary, `(position + 7) & !7`. */
  function Aligned(position: nat): (p: nat)
    ensures position <= p < position + 8 && p % 8 == 0
  {
    (position + 7) / 8 * 8
  }

  function Padded(contents: bits): bits {
    contents + Zeros(Aligned(|contents|) - |contents|)
  }

  lemma AlignPads(storage: seq<byte>, position: nat, contents: bits)
    requires Represents(storage, position, contents)
    ensures Aligned(position) <= 8 * |storage|
    ensures Padded(contents) == BytesToBits(storage)[..Aligned(position)]
  {
    hide Pow2, Shl, Shr, Low, Bit, BitOr, BitAnd, LittleEndian, WrittenWord, KeepMask, UpdatedByte;
    forall j | position <= j < Aligned(position)
      ensures !BytesToBits(storage)[j]
    {
      BitHigh(storage[position / 8], position % 8, j % 8);
    }
  }

  lemma PrepareClears(storage: seq<byte>, position: nat, contents: bits)
    requires |contents| == position && position % 8 == 0 && position / 8 < |storage|
    requires contents == BytesToBits(storage)[..position]
    ensures Represents(storage[position / 8 := 0], position, contents)
  {
    hide Shl, Shr, Low, BitOr, BitAnd, LittleEndian;
    OneByte(storage, position / 8, 0);
  }

  lemma CopyAppends(storage: seq<byte>, position: nat, contents: bits, data: seq<byte>)
    requires Represents(storage, position, contents) && position % 8 == 0
    requires position / 8 + |data| <= |storage|
    ensures var s := position / 8;
            var result := storage[..s] + data + storage[s + |data|..];
            BytesToBits(result)[..position + 8 * |data|] == contents + BytesToBits(data)
  {
    hide Pow2, Shl, Shr, Low, Bit, BitOr, BitAnd, LittleEndian, WrittenWord, KeepMask, UpdatedByte;
    SplicedBits(storage, position / 8, data);
  }

  /** Two buffers that represent the same bits agree on every complete byte below them. */
  lemma RepresentationsAgree(a: seq<byte>, b: seq<byte>, position: nat, contents: bits)
    requires Represents(a, position, contents) && Represents(b, position, contents)
    ensures a[..position / 8] == b[..position / 8]
  {
    hide Pow2, Shl, Shr, Low, Bit, BitOr, BitAnd, LittleEndian, WrittenWord, KeepMask, UpdatedByte, BytesToBits;
    var n := position / 8;
    BytesToBitsCut(a, n);
    BytesToBitsCut(b, n);
    assert BytesToBits(a)[..8 * n] == contents[..8 * n];
    assert BytesToBits(b)[..8 * n] == contents[..8 * n];
    BytesToBitsInjective(a[..n], b[..n]);
  }

  // ---------------------------------------------------------------- the fixed writer

  class BitWriter {
    const storage: array<byte>
    var position: nat
    var overflowed: bool
    ghost var contents: bits

    ghost predicate Valid()
      reads this, storage
    {
      && |contents| == position
      && (!overflowed ==> Represents(storage[..], position, contents))
    }

    /** A write would still have its headroom at the position reached: that many whole bytes. */
    ghost predicate Roomy()
      reads this
    {
      |contents| + 8 * WRITE_SLACK < 8 * (storage.Length + 1)
    }

    /** The bytes hold every bit written. */
    ghost predicate Kept()
      reads this, storage
    {
      && !overflowed && position <= 8 * storage.Length
      && contents == BytesToBits(storage[..])[..position]
    }

    constructor (storage: array<byte>, position: nat)
      requires position <= 8 * storage.Length
      requires Represents(storage[..], position, BytesToBits(storage[..])[..position])
      ensures Valid() && this.storage == storage && this.position == position && !overflowed
      ensures contents == BytesToBits(storage[..])[..position]
    {
      this.storage, this.position, overflowed := storage, position, false;
      contents := BytesToBits(storage[..])[..position];
    }

    method Write(n: nat, v: nat)
      requires Valid() && n <= MAX_BITS_PER_WRITE && v < Pow2(n)
      modifies this, storage
      ensures Valid() && contents == old(contents) + ToBits(n, v)
      ensures overflowed <==> old(overflowed) || old(position) / 8 + WRITE_SLACK > storage.Length
    {
      hide Pow2, Shl, Shr, Low, Bit, BitOr, BitAnd, LittleEndian, WrittenWord, KeepMask, UpdatedByte, BytesToBits,
        ToBits;
      var start := position / 8;
      ghost var before := storage[..];
      if start + WRITE_SLACK > storage.Length {
        overflowed := true;
      } else {
        var word := WrittenWord(storage[start], position % 8, v);
        forall i | 0 <= i < WRITE_SLACK {
          storage[start + i] := word[i];
        }
        assert storage[..] == before[..start] + word + before[start + WRITE_SLACK..];
        if !overflowed { WriteAppends(before, position, contents, n, v, word); }
      }
      position := position + n;
      contents := contents + ToBits(n, v);
    }

    /** One turn of the loop of `update`: the bits that fall in one byte. */
    method UpdateByte(at: nat, changed: nat, v: nat) returns (ok: bool)
      requires Valid() && at % 8 + changed <= 8 && at + changed <= position && changed > 0
      modifies this`overflowed, this`contents, storage
      ensures Valid() && ok == (at / 8 < storage.Length) && overflowed == (old(overflowed) || !ok)
      ensures Overwritten(old(contents), contents, at, changed, v)
    {
      hide Pow2, Shl, Shr, Low, Bit, BitOr, BitAnd, LittleEndian, WrittenWord, KeepMask, UpdatedByte, BytesToBits,
        Represents;
      ghost var before, c0 := storage[..], contents;
      contents := c0[..at] + ToBits(changed, v) + c0[at + changed..];
      ok := at / 8 < storage.Length;
      if ok {
        var b := UpdatedByte(storage[at / 8], at % 8, changed, v);
        storage[at / 8] := b;
        assert storage[..] == before[at / 8 := b];
        if !overflowed { UpdateOverwrites(before, position, c0, at, changed, v, b, contents); }
      } else {
        overflowed := true;
      }
    }

    method Update(n: nat, v: nat, at: nat)
      requires Valid() && n <= 32 && v < U32 && at + n <= position
      modifies this, storage
      ensures Valid() && position == old(position)
      ensures contents == old(contents)[..at] + ToBits(n, v) + old(contents)[at + n..]
      ensures overflowed <==> old(overflowed) || (n > 0 && (at + n - 1) / 8 >= storage.Length)
    {
      hide Pow2, Shl, Low, Bit, BitOr, BitAnd, LittleEndian, WrittenWord, KeepMask, UpdatedByte, BytesToBits;
      var rest, chosen, cursor := n, v, at;
      ghost var c0 := contents;
      while rest > 0
        invariant 0 <= rest <= n && cursor == at + (n - rest) && chosen == Shr(v, n - rest)
        invariant Valid() && position == old(position) == |c0|
        invariant Overwritten(c0, contents, at, n - rest, v)
        invariant overflowed == old(overflowed)
        invariant rest < n ==> (cursor - 1) / 8 < storage.Length
      {
        var skip := cursor % 8;
        var changed := if rest < 8 - skip then rest else 8 - skip;
        ghost var c1 := contents;
        var ok := UpdateByte(cursor, changed, chosen);
        OverwriteExtends(c0, c1, contents, at, n - rest, changed, v);
        ShrShr(v, n - rest, changed);
        if !ok {
          contents := c0[..at] + ToBits(n, v) + c0[at + n..];
          return;
        }
        rest, chosen, cursor := rest - changed, Shr(chosen, changed), cursor + changed;
      }
      OverwrittenIs(c0, contents, at, n, v);
    }

    method Rewind(to: nat)
      requires Valid() && to <= position
      modifies this, storage
      ensures Valid() && contents == old(contents)[..to]
      ensures overflowed <==> old(overflowed) || to / 8 >= storage.Length
    {
      hide Pow2, Shl, Shr, Low, Bit, BitOr, BitAnd, LittleEndian, BytesToBits;
      ghost var before := storage[..];
      if to / 8 < storage.Length {
        BitAndBound(storage[to / 8], Pow2(to % 8) - 1);
        storage[to / 8] := BitAnd(storage[to / 8], Pow2(to % 8) - 1) % 256;
        assert storage[..] == before[to / 8 := BitAnd(before[to / 8], Pow2(to % 8) - 1) % 256];
        if !overflowed { RewindTruncates(before, position, contents, to); }
      } else {
        overflowed := true;
      }
      position := to;
      contents := contents[..to];
    }

    /** Clears the byte at an aligned position. */
    method PrepareStorage()
      requires |contents| == position && position % 8 == 0
      requires !overflowed ==> position <= 8 * storage.Length && contents == BytesToBits(storage[..])[..position]
      modifies this`overflowed, storage
      ensures Valid()
      ensures overflowed <==> old(overflowed) || position / 8 >= storage.Length
    {
      ghost var before := storage[..];
      if position / 8 < storage.Length {
        storage[position / 8] := 0;
        assert storage[..] == before[position / 8 := 0];
        if !overflowed { PrepareClears(before, position, contents); }
      } else {
        overflowed := true;
      }
    }

    method JumpToByteBoundary()
      requires Valid()
      modifies this, storage
      ensures Valid() && contents == Padded(old(contents))
      ensures overflowed <==> old(overflowed) || Aligned(old(position)) / 8 >= storage.Length
    {
      if !overflowed { AlignPads(storage[..], position, contents); }
      position := Aligned(position);
      contents := Padded(contents);
      PrepareStorage();
    }

    method WriteBytes(data: seq<byte>)
      requires Valid() && position % 8 == 0
      modifies this, storage
      ensures Valid() && contents == old(contents) + BytesToBits(data)
      ensures overflowed <==> old(overflowed) || old(position) / 8 + |data| >= storage.Length
    {
      hide Pow2, Shl, Shr, Low, Bit, BitOr, BitAnd, LittleEndian, WrittenWord, KeepMask, UpdatedByte, BytesToBits;
      var start := position / 8;
      ghost var before := storage[..];
      position := position + 8 * |data|;
      contents := contents + BytesToBits(data);
      if start + |data| > storage.Length {
        overflowed := true;
        return;
      }
      forall i | 0 <= i < |data| {
        storage[start + i] := data[i];
      }
      assert storage[..] == before[..start] + data + before[start + |data|..];
      if !overflowed { CopyAppends(before, old(position), old(contents), data); }
      PrepareStorage();
    }
  }

  lemma PaddedLength(contents: bits)
    ensures |contents| <= |Padded(contents)| == Aligned(|contents|)
  {
  }

  /** What was written is in the bytes, as long as nothing overflowed. */
  lemma StaysKept(w: BitWriter)
    requires w.Valid() && !w.overflowed
    ensures w.Kept()
  {
    hide BytesToBits;
  }

  // ------------------------------------------------------------- the growable writer

  class VecBitWriter {
    var storage: seq<byte>
    var capacity: nat
    var position: nat
    var overflowed: bool
    ghost var contents: bits

    ghost predicate Valid()
      reads this
    {
      && |storage| <= capacity
      && !overflowed
      && Represents(storage, position, contents)
    }

    constructor (storage: seq<byte>, capacity: nat, position: nat)
      requires |storage| <= capacity && position <= 8 * |storage|
      requires Represents(storage, position, BytesToBits(storage)[..position])
      ensures Valid() && this.position == position && this.storage == storage
      ensures contents == BytesToBits(storage)[..position]
    {
      this.storage, this.capacity, this.position, overflowed := storage, capacity, position, false;
      contents := BytesToBits(storage)[..position];
    }

    /** `Vec::resize` with zeros; a reallocation chooses any sufficient capacity. */
    method Resize(length: nat)
      requires Valid() && |storage| <= length
      modifies this`storage, this`capacity
      ensures Valid() && |storage| == length
      ensures old(storage) <= storage
      ensures forall i :: |old(storage)| <= i < length ==> storage[i] == 0
    {
      ghost var before := storage;
      var zeros: seq<byte> := seq(length - |storage|, _ => 0);
      BytesToBitsConcat(storage, zeros);
      ZeroBytes(|zeros|);
      storage := storage + zeros;
      if capacity < length {
        var grown: nat :| grown >= length;
        capacity := grown;
      }
    }

    /** `grow_bit_output`: initialises in batches while spare capacity lasts. */
    method Grow(required: nat)
      requires Valid() && |storage| < required
      modifies this`storage, this`capacity
      ensures Valid() && |storage| >= required && old(storage) <= storage
    {
      var end := (required + 255) / 256 * 256;
      var batch := if end < capacity then end else capacity;
      Resize(if required > batch then required else batch);
    }

    method Window(end: nat)
      requires Valid()
      modifies this`storage, this`capacity
      ensures Valid() && |storage| >= end && old(storage) <= storage
    {
      if |storage| < end {
        Grow(end);
      }
    }

    method Write(n: nat, v: nat)
      requires Valid() && n <= MAX_BITS_PER_WRITE && v < Pow2(n)
      modifies this
      ensures Valid() && contents == old(contents) + ToBits(n, v)
    {
      hide Pow2, Shl, Shr, Low, Bit, BitOr, BitAnd, LittleEndian, WrittenWord, KeepMask, UpdatedByte, BytesToBits,
        ToBits;
      var start := position / 8;
      Window(start + WRITE_SLACK);
      var word := WrittenWord(storage[start], position % 8, v);
      WriteAppends(storage, position, contents, n, v, word);
      storage := storage[..start] + word + storage[start + WRITE_SLACK..];
      position := position + n;
      contents := contents + ToBits(n, v);
    }

    method UpdateByte(at: nat, changed: nat, v: nat)
      requires Valid() && at % 8 + changed <= 8 && at + changed <= position && changed > 0
      modifies this
      ensures Valid() && position == old(position)
      ensures Overwritten(old(contents), contents, at, changed, v)
    {
      hide Pow2, Shl, Shr, Low, Bit, BitOr, BitAnd, LittleEndian, WrittenWord, KeepMask, UpdatedByte, BytesToBits;
      Window(at / 8 + 1);
      var b := UpdatedByte(storage[at / 8], at % 8, changed, v);
      ghost var after := contents[..at] + ToBits(changed, v) + contents[at + changed..];
      UpdateOverwrites(storage, position, contents, at, changed, v, b, after);
      storage := storage[at / 8 := b];
      contents := after;
    }

    method Update(n: nat, v: nat, at: nat)
      requires Valid() && n <= 32 && v < U32 && at + n <= position
      modifies this
      ensures Valid() && position == old(position)
      ensures contents == old(contents)[..at] + ToBits(n, v) + old(contents)[at + n..]
    {
      hide Pow2, Shl, Low, Bit, BitOr, BitAnd, LittleEndian, WrittenWord, KeepMask, UpdatedByte, BytesToBits;
      var rest, chosen, cursor := n, v, at;
      ghost var c0 := contents;
      while rest > 0
        invariant 0 <= rest <= n && cursor == at + (n - rest) && chosen == Shr(v, n - rest)
        invariant Valid() && position == old(position) == |c0|
        invariant Overwritten(c0, contents, at, n - rest, v)
      {
        var skip := cursor % 8;
        var changed := if rest < 8 - skip then rest else 8 - skip;
        ghost var c1 := contents;
        UpdateByte(cursor, changed, chosen);
        OverwriteExtends(c0, c1, contents, at, n - rest, changed, v);
        ShrShr(v, n - rest, changed);
        rest, chosen, cursor := rest - changed, Shr(chosen, changed), cursor + changed;
      }
      OverwrittenIs(c0, contents, at, n, v);
    }

    method Rewind(to: nat)
      requires Valid() && to <= position
      modifies this
      ensures Valid() && contents == old(contents)[..to]
    {
      hide Pow2, Shl, Shr, Low, Bit, BitOr, BitAnd, LittleEndian, BytesToBits;
      Window(to / 8 + 1);
      BitAndBound(storage[to / 8], Pow2(to % 8) - 1);
      RewindTruncates(storage, position, contents, to);
      storage := storage[to / 8 := BitAnd(storage[to / 8], Pow2(to % 8) - 1) % 256];
      position := to;
      contents := contents[..to];
    }

    method JumpToByteBoundary()
      requires Valid()
      modifies this
      ensures Valid() && contents == Padded(old(contents))
    {
      Window(Aligned(position) / 8 + 1);
      AlignPads(storage, position, contents);
      position := Aligned(position);
      contents := Padded(contents);
      PrepareClears(storage, position, contents);
      storage := storage[position / 8 := 0];
    }

    method WriteBytes(data: seq<byte>)
      requires Valid() && position % 8 == 0
      modifies this
      ensures Valid() && contents == old(contents) + BytesToBits(data)
    {
      hide Pow2, Shl, Shr, Low, Bit, BitOr, BitAnd, LittleEndian, WrittenWord, KeepMask, UpdatedByte, BytesToBits;
      var start := position / 8;
      var initialized := if |storage| - start < |data| then |storage| - start else |data|;
      AppendOrOverwrite(storage, position, contents, data, initialized);
      storage := storage[..start] + data[..initialized] + storage[start + initialized..] + data[initialized..];
      if capacity < |storage| {
        var grown: nat :| grown >= |storage|;
        capacity := grown;
      }
      position := position + 8 * |data|;
      contents := contents + BytesToBits(data);
      if |storage| < position / 8 + 1 {
        Window(position / 8 + 1);
      }
      PrepareClears(storage, position, contents);
      storage := storage[position / 8 := 0];
    }
  }

  /** The two halves of `copy_bytes` on a vector: overwrite what is initialised, append the rest. */
  lemma AppendOrOverwrite(storage: seq<byte>, position: nat, contents: bits, data: seq<byte>, initialized: nat)
    requires Represents(storage, position, contents) && position % 8 == 0
    requires initialized <= |data| && position / 8 + initialized <= |storage|
    requires initialized < |data| ==> position / 8 + initialized == |storage|
    ensures var s := position / 8;
            var result := storage[..s] + data[..initialized] + storage[s + initialized..] + data[initialized..];
            && position + 8 * |data| <= 8 * |result|
            && BytesToBits(result)[..position + 8 * |data|] == contents + BytesToBits(data)
            && (initialized < |data| ==> |result| == s + |data|)
  {
    hide Pow2, Shl, Shr, Low, Bit, BitOr, BitAnd, LittleEndian, WrittenWord, KeepMask, UpdatedByte, BytesToBits;
    var s := position / 8;
    var result := storage[..s] + data[..initialized] + storage[s + initialized..] + data[initialized..];
    assert result[..s + |data|] == storage[..s] + data by {
      if initialized < |data| {
        assert result == storage[..s] + (data[..initialized] + data[initialized..]);
      } else {
        assert result == (storage[..s] + data) + storage[s + |data|..];
      }
    }
    AppendedBits(storage, s, data, result);
  }

  lemma AppendedBits(storage: seq<byte>, s: nat, data: seq<byte>, result: seq<byte>)
    requires s <= |storage| && s + |data| <= |result| && result[..s + |data|] == storage[..s] + data
    ensures BytesToBits(result)[..8 * (s + |data|)] == BytesToBits(storage)[..8 * s] + BytesToBits(data)
  {
    hide Pow2, Shl, Shr, Low, Bit, BitOr, BitAnd, LittleEndian, WrittenWord, KeepMask, UpdatedByte, BytesToBits;
    BytesToBitsCut(result, s + |data|);
    BytesToBitsConcat(storage[..s], data);
    BytesToBitsCut(storage, s);
  }

  lemma ZeroBytes(n: nat)
    ensures BytesToBits(seq(n, _ => 0)) == Zeros(8 * n)
  {
    forall j | 0 <= j < 8 * n
      ensures !Bit(0, j % 8)
    {
      BitHigh(0, 0, j % 8);
    }
  }
}
