/** Block switches: the partition of a symbol stream into typed blocks (src/shared/block_split.rs),
    the codes a switch is written with (src/shared/bitstream.rs), and the reader of section 6 of
    RFC 7932 that has to stay in step with them. */
module BlockSplits {
  import opened Bits
  import opened Commands
  import opened Headers
  import opened PrefixCodes

  const MAX_NUMBER_OF_BLOCK_TYPES := 256
  const NUM_BLOCK_LEN_SYMBOLS := 26

  /** `PREFIX_CODE_RANGES`: offset and extra bits of each block-length code. */
  const RANGE_OFFSET: seq<nat> :=
    [1, 5, 9, 13, 17, 25, 33, 41, 49, 65, 81, 97, 113, 145, 177, 209, 241, 305, 369, 497, 753, 1265, 2289, 4337, 8433,
     16625]
  const RANGE_NBITS: seq<nat> :=
    [2, 2, 2, 2, 3, 3, 3, 3, 4, 4, 4, 4, 5, 5, 5, 5, 6, 6, 7, 8, 9, 10, 11, 12, 13, 24]

  /** One past the longest block the format expresses. */
  const BLOCK_LIMIT: nat := 16625 + 0x100_0000

  // ------------------------------------------------------------------------ block lengths

  ghost function LengthSymbol(len: nat): (code: nat)
    requires len >= 1
    ensures InClass(RANGE_OFFSET, len, code) && code < NUM_BLOCK_LEN_SYMBOLS
  {
    ClassOf(RANGE_OFFSET, len, 0)
  }

  lemma RangesAscend()
    ensures Ascending(RANGE_OFFSET)
  {
  }

  /** The search starts at one of four hints and still finds the only code whose range holds the
      length. */
  method BlockLengthPrefixCode(len: nat) returns (code: nat)
    requires len >= 1
    ensures code == LengthSymbol(len) && code < NUM_BLOCK_LEN_SYMBOLS
  {
    hide ClassOf, Ascending;
    code := if len >= 177 then (if len >= 753 then 20 else 14) else if len >= 41 then 7 else 0;
    while code < NUM_BLOCK_LEN_SYMBOLS - 1 && len >= RANGE_OFFSET[code + 1]
      invariant code < NUM_BLOCK_LEN_SYMBOLS && RANGE_OFFSET[code] <= len
    {
      code := code + 1;
    }
    RangesAscend();
    ClassUnique(RANGE_OFFSET, len, code, LengthSymbol(len));
  }

  lemma RangeEnds(c: nat)
    requires c < NUM_BLOCK_LEN_SYMBOLS - 1
    ensures RANGE_OFFSET[c] + Pow2(RANGE_NBITS[c]) == RANGE_OFFSET[c + 1]
    ensures RANGE_NBITS[c] <= 13
  {
    hide Pow2;
    Pow2Values();
    OddPowers();
  }

  /** The ranges are those of section 6 of RFC 7932: from one on, each begins where the one before it
      ends. */
  lemma RangesTile(c: nat)
    requires c < NUM_BLOCK_LEN_SYMBOLS
    ensures RANGE_OFFSET[0] == 1
    ensures RANGE_NBITS[c] == if c < 16 then 2 + c / 4 else if c < 18 then 6 else if c < 25 then c - 11 else 24
    ensures c < NUM_BLOCK_LEN_SYMBOLS - 1 ==> RANGE_OFFSET[c] + Pow2(RANGE_NBITS[c]) == RANGE_OFFSET[c + 1]
  {
    hide Pow2;
    if c < NUM_BLOCK_LEN_SYMBOLS - 1 { RangeEnds(c); }
  }

  lemma OddPowers()
    ensures Pow2(11) == 2048 && Pow2(13) == 8192
  {
    var p8 := Pow2(8);
    assert p8 == 256;
  }

  /** A length is its code's offset and extra bits that fit. */
  lemma BlockLengthFits(len: nat)
    requires 1 <= len < BLOCK_LIMIT
    ensures var c := LengthSymbol(len);
            RANGE_NBITS[c] <= 24 && RANGE_OFFSET[c] <= len < RANGE_OFFSET[c] + Pow2(RANGE_NBITS[c])
  {
    hide Pow2, ClassOf;
    var c := LengthSymbol(len);
    if c < NUM_BLOCK_LEN_SYMBOLS - 1 { RangeEnds(c); } else { Pow2Values(); }
  }

  ghost function BlockLengthBits(lengthCode: PrefixCode, len: nat): bits
    requires 1 <= len && LengthSymbol(len) in lengthCode.symbols && lengthCode.Fits()
  {
    lengthCode.Word(LengthSymbol(len))
    + ToBits(RANGE_NBITS[LengthSymbol(len)], len - RANGE_OFFSET[LengthSymbol(len)])
  }

  /** RFC 7932, section 6: a block count. */
  function ReadBlockLength(lengthCode: PrefixCode, s: bits): Read<nat> {
    var (c, s) :- lengthCode.Read(s);
    if c >= NUM_BLOCK_LEN_SYMBOLS then Fail
    else
      var (extra, s) :- ReadBits(RANGE_NBITS[c], s);
      Got(RANGE_OFFSET[c] + extra, s)
  }

  lemma BlockLengthRoundTrip(lengthCode: PrefixCode, len: nat, rest: bits)
    requires 1 <= len < BLOCK_LIMIT && LengthSymbol(len) in lengthCode.symbols && lengthCode.PrefixFree()
    ensures ReadBlockLength(lengthCode, BlockLengthBits(lengthCode, len) + rest) == Got(len, rest)
  {
    hide Pow2, Bit, FromBits, ToBits, LengthSymbol, ReadBits;
    var c := LengthSymbol(len);
    BlockLengthFits(len);
    var tail := ToBits(RANGE_NBITS[c], len - RANGE_OFFSET[c]) + rest;
    assert BlockLengthBits(lengthCode, len) + rest == lengthCode.Word(c) + tail;
    ReadSymbolInverts(lengthCode, c, tail);
    ReadBitsInverts(RANGE_NBITS[c], len - RANGE_OFFSET[c], rest);
  }

  // ------------------------------------------------------------------------ block types

  /** The code for switching to type `t` from `last`, when the type before that was `second`. */
  function TypeCode(last: nat, second: nat, t: nat): nat {
    if t == last + 1 then 1 else if t == second then 0 else t + 2
  }

  class BlockTypeCodeCalculator {
    var lastType: nat
    var secondLastType: nat

    constructor ()
      ensures lastType == 1 && secondLastType == 0
    {
      lastType, secondLastType := 1, 0;
    }

    method Next(blockType: nat) returns (code: nat)
      modifies this
      ensures code == TypeCode(old(lastType), old(secondLastType), blockType)
      ensures forall numTypes :: blockType < numTypes ==>
                code < numTypes + 2 && DecodeType(numTypes, code, old(lastType), old(secondLastType)) == blockType
      ensures lastType == blockType && secondLastType == old(lastType)
    {
      code := TypeCode(lastType, secondLastType, blockType);
      secondLastType := lastType;
      lastType := blockType;
    }
  }

  /** RFC 7932, section 6: the type a block-type code stands for. */
  function DecodeType(numTypes: nat, code: nat, last: nat, previous: nat): nat {
    if code == 0 then previous
    else if code == 1 then (if last + 1 == numTypes then 0 else last + 1)
    else code - 2
  }

  lemma TypeCodeDecodes(numTypes: nat, last: nat, previous: nat, t: nat)
    requires t < numTypes
    ensures DecodeType(numTypes, TypeCode(last, previous, t), last, previous) == t
    ensures TypeCode(last, previous, t) < numTypes + 2
  {
  }

  /** The two short codes are used whenever one of them stands for the type: the successor of the
      last type, before the type before it. Any other type is spelled out. */
  lemma TypeCodeShort(last: nat, previous: nat, t: nat)
    ensures TypeCode(last, previous, t) == 1 <==> t == last + 1
    ensures TypeCode(last, previous, t) == 0 <==> t == previous && t != last + 1
    ensures TypeCode(last, previous, t) < 2 <==> t == last + 1 || t == previous
  {
  }

  // -------------------------------------------------------------------------- partitions

  ghost function SumTo(lengths: seq<nat>, n: nat): nat
    requires n <= |lengths|
  {
    if n == 0 then 0 else SumTo(lengths, n - 1) + lengths[n - 1]
  }

  /** A block and the symbols of it still to come. */
  datatype Cursor = Cursor(block: nat, left: nat)

  datatype BlockSplit = BlockSplit(numTypes: nat, numBlocks: nat, types: seq<nat>, lengths: seq<nat>) {
    ghost predicate Valid() {
      && 1 <= numTypes <= MAX_NUMBER_OF_BLOCK_TYPES
      && numBlocks <= |types| && numBlocks <= |lengths|
      && (forall b :: 0 <= b < numBlocks ==> types[b] < numTypes)
      && (forall b :: 0 <= b < numBlocks ==> 1 <= lengths[b] < BLOCK_LIMIT)
      && (numBlocks > 0 ==> types[0] == 0)
      && (numTypes > 1 ==> numBlocks > 0)
      && (numTypes == 1 ==> numBlocks <= 1)
    }

    /** The number of symbols the blocks hold together. */
    ghost function Total(): nat
      requires Valid()
    {
      SumTo(lengths, numBlocks)
    }

    /** The cursor once `j` symbols have been coded: it moves on only when the next symbol needs
        it to. */
    ghost function At(j: nat): (c: Cursor)
      requires Valid()
    {
      if j == 0 then Cursor(0, if numBlocks == 0 then 0 else lengths[0])
      else
        var c := At(j - 1);
        if c.left > 0 then Cursor(c.block, c.left - 1)
        else if c.block + 1 < numBlocks then Cursor(c.block + 1, lengths[c.block + 1] - 1)
        else c
    }

    /** The type of the block before `b`, as coder and decoder assume it at the start. */
    ghost function Before(b: nat): nat
      requires b <= numBlocks && Valid()
    {
      if b == 0 then 1 else types[b - 1]
    }

    /** The symbol that announces block `b`. */
    ghost function SwitchCode(b: nat): nat
      requires Valid() && b < numBlocks
    {
      TypeCode(Before(b), if b == 0 then 0 else Before(b - 1), types[b])
    }
  }

  /** Coding never runs past the last block, and the cursor counts the current block down. */
  lemma {:induction false} CursorAt(split: BlockSplit, j: nat)
    requires split.Valid() && j <= split.Total()
    ensures var c := split.At(j);
            && (split.numBlocks > 0 ==> c.block < split.numBlocks && c.left + j == SumTo(split.lengths, c.block + 1))
            && (split.numBlocks == 0 ==> c == Cursor(0, 0))
    ensures j < split.Total() && split.At(j).left == 0 ==>
              split.At(j).block + 1 < split.numBlocks
              && split.At(j + 1) == Cursor(split.At(j).block + 1, split.lengths[split.At(j).block + 1] - 1)
  {
    if j > 0 {
      CursorAt(split, j - 1);
    } else if split.numBlocks > 0 {
      assert SumTo(split.lengths, 1) == SumTo(split.lengths, 0) + split.lengths[0];
    }
  }

  /** The block the `j`th symbol is coded in is the one that contains it. */
  lemma BlockHoldsSymbol(split: BlockSplit, j: nat)
    requires split.Valid() && j < split.Total()
    ensures var b := split.At(j + 1).block;
            b < split.numBlocks && SumTo(split.lengths, b) <= j < SumTo(split.lengths, b + 1)
  {
    CursorAt(split, j);
    CursorAt(split, j + 1);
    var b := split.At(j + 1).block;
    BlockLeft(split, j + 1);
    assert SumTo(split.lengths, b + 1) == SumTo(split.lengths, b) + split.lengths[b];
  }

  lemma {:induction false} BlockLeft(split: BlockSplit, j: nat)
    requires split.Valid() && 0 < j <= split.Total()
    ensures split.At(j).block < split.numBlocks && split.At(j).left < split.lengths[split.At(j).block]
  {
    CursorAt(split, j - 1);
    CursorAt(split, j);
    if j > 1 { BlockLeft(split, j - 1); }
  }

  // --------------------------------------------------------------- codes of one stream

  /** What a decoder knows of one symbol stream: its block switch codes, its prefix codes and the
      context map that picks among them. */
  datatype Coding = Coding(numTypes: nat, typeCode: PrefixCode, lengthCode: PrefixCode,
                           contextBits: nat, contextMap: seq<nat>, trees: seq<PrefixCode>) {
    ghost predicate Complete() {
      && |contextMap| == Shl(numTypes, contextBits)
      && (forall i :: 0 <= i < |contextMap| ==> contextMap[i] < |trees|)
      && (forall t :: 0 <= t < |trees| ==> trees[t].PrefixFree())
    }

    /** The code of a symbol in a block of the given type. */
    ghost function Tree(kind: nat, context: nat): (tree: PrefixCode)
      requires Complete() && kind < numTypes && context < Pow2(contextBits)
      ensures tree in trees && tree.PrefixFree()
    {
      ContextInMap(kind, numTypes, context, contextBits);
      trees[contextMap[Shl(kind, contextBits) + context]]
    }
  }

  lemma ContextInMap(kind: nat, numTypes: nat, context: nat, contextBits: nat)
    requires kind < numTypes && context < Pow2(contextBits)
    ensures Shl(kind, contextBits) + context < Shl(numTypes, contextBits)
  {
    ShlMonotone(kind, numTypes, contextBits);
  }

  /** The codes cover every switch the split needs. */
  ghost predicate Switchable(split: BlockSplit, coding: Coding) {
    && split.Valid() && coding.numTypes == split.numTypes
    && (split.numTypes > 1 ==>
          && coding.typeCode.PrefixFree() && coding.lengthCode.PrefixFree()
          && (forall b :: 0 < b < split.numBlocks ==> split.SwitchCode(b) in coding.typeCode.symbols)
          && (forall b :: 0 <= b < split.numBlocks ==> LengthSymbol(split.lengths[b]) in coding.lengthCode.symbols))
  }

  /** The bits that open block `b`. */
  ghost function SwitchBits(split: BlockSplit, coding: Coding, b: nat): bits
    requires Switchable(split, coding) && 0 < b < split.numBlocks
  {
    coding.typeCode.Word(split.SwitchCode(b)) + BlockLengthBits(coding.lengthCode, split.lengths[b])
  }

  /** The switch, if any, in front of the `j`th symbol. */
  ghost function OpeningBits(split: BlockSplit, coding: Coding, j: nat): bits
    requires Switchable(split, coding) && j < split.Total()
  {
    CursorAt(split, j);
    if split.At(j).left == 0 then SwitchBits(split, coding, split.At(j).block + 1) else []
  }

  /** The type of the block the `j`th symbol falls in. */
  ghost function KindAt(split: BlockSplit, j: nat): (t: nat)
    requires split.Valid() && j < split.Total()
    ensures t < split.numTypes
  {
    CursorAt(split, j + 1);
    split.types[split.At(j + 1).block]
  }

  // --------------------------------------------------------------- RFC 7932, section 6

  /** A decoder's view of one stream: block type, the type before it, symbols left. */
  datatype BlockState = BlockState(kind: nat, previous: nat, left: nat)

  function ReadSwitch(coding: Coding, st: BlockState, s: bits): Read<BlockState> {
    if coding.numTypes <= 1 then Fail
    else
      var (code, s) :- coding.typeCode.Read(s);
      var kind := DecodeType(coding.numTypes, code, st.kind, st.previous);
      if kind >= coding.numTypes then Fail
      else
        var (len, s) :- ReadBlockLength(coding.lengthCode, s);
        Got(BlockState(kind, st.kind, len), s)
  }

  /** Accounts for one symbol, after a switch if the block has run out. */
  function ReadAdvance(coding: Coding, st: BlockState, s: bits): Read<BlockState> {
    var (st, s) :- if st.left == 0 then ReadSwitch(coding, st, s) else Got(st, s);
    if st.left == 0 then Fail else Got(st.(left := st.left - 1), s)
  }

  function ReadInContext(coding: Coding, kind: nat, context: nat, s: bits): Read<nat> {
    var i := Shl(kind, coding.contextBits) + context;
    if i >= |coding.contextMap| || coding.contextMap[i] >= |coding.trees| then Fail
    else coding.trees[coding.contextMap[i]].Read(s)
  }

  /** The decoder's state after `j` symbols. A lone block type is never switched away from. */
  ghost function StateAt(split: BlockSplit, j: nat): BlockState
    requires split.Valid() && j <= split.Total()
  {
    CursorAt(split, j);
    if split.numTypes > 1 then
      var c := split.At(j);
      BlockState(split.types[c.block], split.Before(c.block), c.left)
    else
      BlockState(0, 1, if j <= MAX_MLEN then MAX_MLEN - j else 0)
  }

  lemma SwitchRoundTrip(split: BlockSplit, coding: Coding, b: nat, left: nat, rest: bits)
    requires Switchable(split, coding) && split.numTypes > 1 && 0 < b < split.numBlocks
    ensures ReadSwitch(coding, BlockState(split.types[b - 1], split.Before(b - 1), left),
                       SwitchBits(split, coding, b) + rest)
         == Got(BlockState(split.types[b], split.types[b - 1], split.lengths[b]), rest)
  {
    hide Pow2, Bit, FromBits, ToBits, LengthSymbol, ReadBlockLength, BlockLengthBits, TypeCode, DecodeType;
    var tail := BlockLengthBits(coding.lengthCode, split.lengths[b]) + rest;
    assert SwitchBits(split, coding, b) + rest == coding.typeCode.Word(split.SwitchCode(b)) + tail;
    ReadSymbolInverts(coding.typeCode, split.SwitchCode(b), tail);
    TypeCodeDecodes(split.numTypes, split.types[b - 1], split.Before(b - 1), split.types[b]);
    BlockLengthRoundTrip(coding.lengthCode, split.lengths[b], rest);
  }

  /** Lockstep: after the opening bits of any symbol the decoder is in the block that holds it. */
  lemma AdvanceRoundTrip(split: BlockSplit, coding: Coding, j: nat, rest: bits)
    requires Switchable(split, coding) && j < split.Total() && (split.numTypes == 1 ==> j < MAX_MLEN)
    ensures ReadAdvance(coding, StateAt(split, j), OpeningBits(split, coding, j) + rest)
            == Got(StateAt(split, j + 1), rest)
    ensures StateAt(split, j + 1).kind == KindAt(split, j)
  {
    hide Pow2, Bit, FromBits, ToBits, LengthSymbol, ReadSwitch, SwitchBits, SumTo;
    CursorAt(split, j);
    CursorAt(split, j + 1);
    var c := split.At(j);
    if c.left == 0 {
      SwitchRoundTrip(split, coding, c.block + 1, 0, rest);
    } else {
      assert OpeningBits(split, coding, j) + rest == rest;
    }
  }

  /** A symbol is read with the code its block and context select. */
  lemma InContextRoundTrip(coding: Coding, kind: nat, context: nat, symbol: nat, rest: bits)
    requires coding.Complete() && kind < coding.numTypes && context < Pow2(coding.contextBits)
    requires symbol in coding.Tree(kind, context).symbols
    ensures ReadInContext(coding, kind, context, coding.Tree(kind, context).Word(symbol) + rest) == Got(symbol, rest)
  {
    hide Pow2, Bit, FromBits, ToBits;
    ContextInMap(kind, coding.numTypes, context, coding.contextBits);
    ReadSymbolInverts(coding.Tree(kind, context), symbol, rest);
  }
}
