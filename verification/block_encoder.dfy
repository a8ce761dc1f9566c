/** Writing a symbol stream block by block (src/shared/bitstream.rs): the codes of its block
    switches, the first pass that counts them, and the encoder that emits them. */
module BlockEncoders {
  import opened Bits
  import opened BitWriting
  import opened BlockSplits
  import opened Headers
  import opened PrefixCodes

  const MAX_BLOCK_TYPE_SYMBOLS := MAX_NUMBER_OF_BLOCK_TYPES + 2

  ghost function Tally(n: nat, m: multiset<nat>): (counts: seq<nat>)
    ensures |counts| == n
  {
    seq(n, s => m[s])
  }

  method CountOne(counts: array<nat>, symbol: nat, ghost m: multiset<nat>)
    requires symbol < counts.Length && counts[..] == Tally(counts.Length, m)
    modifies counts
    ensures counts[..] == Tally(counts.Length, m + multiset{symbol})
  {
    forall s | 0 <= s < counts.Length
      ensures counts[s] == m[s]
    {
      assert counts[..][s] == m[s];
    }
    counts[symbol] := counts[symbol] + 1;
  }

  lemma NoneCounted(counts: array<nat>)
    requires forall s :: 0 <= s < counts.Length ==> counts[s] == 0
    ensures counts[..] == Tally(counts.Length, multiset{})
  {
  }

  /** One more element of `codes` counted. */
  lemma PrefixGrows(codes: seq<nat>, b: nat)
    requires b < |codes|
    ensures multiset(codes[..b + 1]) == multiset(codes[..b]) + multiset{codes[b]}
  {
    assert codes[..b + 1] == codes[..b] + [codes[b]];
  }

  // --------------------------------------------------------------------- the first pass

  /** The block-type symbols the split is announced with: one per block but the first. */
  ghost function TypeCodes(split: BlockSplit): (codes: seq<nat>)
    requires split.Valid()
    ensures |codes| == if split.numBlocks == 0 then 0 else split.numBlocks - 1
    ensures forall i :: 0 <= i < |codes| ==> codes[i] < split.numTypes + 2
  {
    seq(if split.numBlocks == 0 then 0 else split.numBlocks - 1,
        i requires 0 <= i < split.numBlocks - 1 => SwitchCodeBelow(split, i + 1))
  }

  ghost function SwitchCodeBelow(split: BlockSplit, b: nat): (code: nat)
    requires split.Valid() && b < split.numBlocks
    ensures code == split.SwitchCode(b) && code < split.numTypes + 2
  {
    split.SwitchCode(b)
  }

  ghost function LengthCodes(split: BlockSplit): (codes: seq<nat>)
    requires split.Valid()
    ensures |codes| == split.numBlocks
    ensures forall i :: 0 <= i < |codes| ==> codes[i] < NUM_BLOCK_LEN_SYMBOLS
  {
    seq(split.numBlocks, i requires 0 <= i < split.numBlocks => LengthSymbol(split.lengths[i]))
  }

  /** The calculator has seen the types of the blocks before `b`. */
  ghost predicate Tracks(calculator: BlockTypeCodeCalculator, split: BlockSplit, b: nat)
    requires split.Valid() && b <= split.numBlocks
    reads calculator
  {
    && calculator.lastType == split.Before(b)
    && calculator.secondLastType == if b == 0 then 0 else split.Before(b - 1)
  }

  lemma CodesOfBlock(split: BlockSplit, b: nat)
    requires split.Valid() && b < split.numBlocks
    ensures split.Before(b + 1) == split.types[b] && split.lengths[b] >= 1
    ensures LengthCodes(split)[b] == LengthSymbol(split.lengths[b])
    ensures b > 0 ==> TypeCodes(split)[b - 1] == split.SwitchCode(b)
    ensures split.SwitchCode(b) == TypeCode(split.Before(b), if b == 0 then 0 else split.Before(b - 1), split.types[b])
    ensures split.SwitchCode(b) < split.numTypes + 2 <= MAX_BLOCK_TYPE_SYMBOLS
  {
    if b > 0 { assert TypeCodes(split)[b - 1] == SwitchCodeBelow(split, b); }
  }

  /** The first pass of `build_and_store_block_split_code` counts exactly the switch symbols the
      second pass writes. */
  method CountSwitches(split: BlockSplit) returns (typeHisto: seq<nat>, lengthHisto: seq<nat>)
    requires split.Valid()
    ensures typeHisto == Tally(MAX_BLOCK_TYPE_SYMBOLS, multiset(TypeCodes(split)))
    ensures lengthHisto == Tally(NUM_BLOCK_LEN_SYMBOLS, multiset(LengthCodes(split)))
  {
    hide TypeCode, LengthSymbol, Tally, TypeCodes, LengthCodes, BlockSplit.SwitchCode, BlockSplit.At;
    var types := new nat[MAX_BLOCK_TYPE_SYMBOLS](_ => 0);
    var lengths := new nat[NUM_BLOCK_LEN_SYMBOLS](_ => 0);
    var calculator := new BlockTypeCodeCalculator();
    ghost var typeCodes, lengthCodes := TypeCodes(split), LengthCodes(split);
    NoneCounted(types);
    NoneCounted(lengths);
    for b := 0 to split.numBlocks
      invariant Tracks(calculator, split, b)
      invariant types.Length == MAX_BLOCK_TYPE_SYMBOLS && lengths.Length == NUM_BLOCK_LEN_SYMBOLS
      invariant types[..] == Tally(MAX_BLOCK_TYPE_SYMBOLS, multiset(typeCodes[..if b == 0 then 0 else b - 1]))
      invariant lengths[..] == Tally(NUM_BLOCK_LEN_SYMBOLS, multiset(lengthCodes[..b]))
    {
      CodesOfBlock(split, b);
      var code := calculator.Next(split.types[b]);
      if b != 0 {
        PrefixGrows(typeCodes, b - 1);
        CountOne(types, code, multiset(typeCodes[..b - 1]));
      }
      var lengthCode := BlockLengthPrefixCode(split.lengths[b]);
      PrefixGrows(lengthCodes, b);
      CountOne(lengths, lengthCode, multiset(lengthCodes[..b]));
    }
    assert typeCodes[..|typeCodes|] == typeCodes && lengthCodes[..|lengthCodes|] == lengthCodes;
    typeHisto, lengthHisto := types[..], lengths[..];
  }

  // ------------------------------------------------------------------ the switch codes

  ghost function TypeStored(h: Huffman, split: BlockSplit): StoredCode
    requires split.Valid()
  {
    h.build(Tally(MAX_BLOCK_TYPE_SYMBOLS, multiset(TypeCodes(split)))[..split.numTypes + 2], split.numTypes + 2)
  }

  ghost function LengthStored(h: Huffman, split: BlockSplit): StoredCode
    requires split.Valid()
  {
    h.build(Tally(NUM_BLOCK_LEN_SYMBOLS, multiset(LengthCodes(split))), NUM_BLOCK_LEN_SYMBOLS)
  }

  /** The codes of the split cover every switch it needs, and their descriptions read back. */
  lemma StoredCodesCover(h: Huffman, split: BlockSplit)
    requires h.Valid() && split.Valid()
    ensures var t, l := TypeStored(h, split), LengthStored(h, split);
            && t.code.PrefixFree() && l.code.PrefixFree()
            && Tabulates(t.depth, t.pattern, t.code) && Tabulates(l.depth, l.pattern, l.code)
            && (forall b :: 0 < b < split.numBlocks ==> split.SwitchCode(b) in t.code.symbols)
            && (forall b :: 0 <= b < split.numBlocks ==> LengthSymbol(split.lengths[b]) in l.code.symbols)
            && (forall rest :: h.read(split.numTypes + 2, t.description + rest) == Got(t.code, rest))
            && (forall rest :: h.read(NUM_BLOCK_LEN_SYMBOLS, l.description + rest) == Got(l.code, rest))
  {
    hide TypeCode, LengthSymbol, Pow2, PrefixCode.PrefixFree;
    var typeCounts := Tally(MAX_BLOCK_TYPE_SYMBOLS, multiset(TypeCodes(split)))[..split.numTypes + 2];
    var lengthCounts := Tally(NUM_BLOCK_LEN_SYMBOLS, multiset(LengthCodes(split)));
    assert h.Codable(typeCounts, split.numTypes + 2) && h.Codable(lengthCounts, NUM_BLOCK_LEN_SYMBOLS);
    assert h.Codes(typeCounts, split.numTypes + 2) && h.Codes(lengthCounts, NUM_BLOCK_LEN_SYMBOLS);
    forall b | 0 < b < split.numBlocks
      ensures split.SwitchCode(b) in TypeStored(h, split).code.symbols
    {
      assert TypeCodes(split)[b - 1] == SwitchCodeBelow(split, b);
      assert typeCounts[SwitchCodeBelow(split, b)] > 0;
    }
    forall b | 0 <= b < split.numBlocks
      ensures lengthCounts[LengthSymbol(split.lengths[b])] > 0
    {
      assert LengthCodes(split)[b] == LengthSymbol(split.lengths[b]);
    }
  }

  /** What `build_and_store_block_split_code` writes: the number of types, and when there is more
      than one, both codes and the length of the first block. */
  ghost function SplitCodeBits(h: Huffman, split: BlockSplit): bits
    requires h.Valid() && split.Valid()
  {
    VarLenBits(split.numTypes - 1)
    + if split.numTypes == 1 then []
      else
        StoredCodesCover(h, split);
        TypeStored(h, split).description + LengthStored(h, split).description
        + BlockLengthBits(LengthStored(h, split).code, split.lengths[0])
  }

  datatype SplitHeader = SplitHeader(numTypes: nat, typeCode: PrefixCode, lengthCode: PrefixCode, st: BlockState)

  /** RFC 7932, section 9.2: number of block types, their codes, and the first block count. */
  function ReadSplitHeader(h: Huffman, s: bits): Read<SplitHeader> {
    var (n, s) :- ReadVarLen(s);
    if n == 0 then Got(SplitHeader(1, NO_CODE, NO_CODE, BlockState(0, 1, MAX_MLEN)), s)
    else
      var (typeCode, s) :- h.read(n + 3, s);
      var (lengthCode, s) :- h.read(NUM_BLOCK_LEN_SYMBOLS, s);
      var (len, s) :- ReadBlockLength(lengthCode, s);
      Got(SplitHeader(n + 1, typeCode, lengthCode, BlockState(0, 1, len)), s)
  }

  const NO_CODE := PrefixCode({}, [], [])

  /** The header the decoder reads names the types, the codes of the switches and the state in
      which decoding starts. */
  ghost function SplitHeaderOf(h: Huffman, split: BlockSplit): SplitHeader
    requires split.Valid()
  {
    if split.numTypes == 1 then SplitHeader(1, NO_CODE, NO_CODE, StateAt(split, 0))
    else SplitHeader(split.numTypes, TypeStored(h, split).code, LengthStored(h, split).code, StateAt(split, 0))
  }

  lemma SplitHeaderRoundTrip(h: Huffman, split: BlockSplit, rest: bits)
    requires h.Valid() && split.Valid()
    ensures ReadSplitHeader(h, SplitCodeBits(h, split) + rest) == Got(SplitHeaderOf(h, split), rest)
  {
    hide Pow2, Bit, FromBits, ToBits, LengthSymbol, VarLenBits, ReadVarLen, TypeStored, LengthStored, BlockLengthBits,
      ReadBlockLength, TypeCode;
    StoredCodesCover(h, split);
    if split.numTypes == 1 {
      assert SplitCodeBits(h, split) + rest == VarLenBits(0) + rest;
      VarLenRoundTrip(0, rest);
    } else {
      var t, l := TypeStored(h, split), LengthStored(h, split);
      var tail := BlockLengthBits(l.code, split.lengths[0]) + rest;
      var body := l.description + tail;
      assert SplitCodeBits(h, split) + rest == VarLenBits(split.numTypes - 1) + (t.description + body);
      VarLenRoundTrip(split.numTypes - 1, t.description + body);
      BlockLengthRoundTrip(l.code, split.lengths[0], rest);
    }
  }

  // ------------------------------------------------------------------- block switches

  /** `BlockSplitCode`: the calculator and the tables of both codes. */
  class BlockSplitCode {
    const calculator: BlockTypeCodeCalculator
    var typeDepths: seq<nat>
    var typeBits: seq<nat>
    var lengthDepths: seq<nat>
    var lengthBits: seq<nat>

    constructor ()
      ensures fresh(calculator) && calculator.lastType == 1 && calculator.secondLastType == 0
    {
      calculator := new BlockTypeCodeCalculator();
      typeDepths, typeBits, lengthDepths, lengthBits := [], [], [], [];
    }

    /** The tables give the symbols of both codes their words. */
    ghost predicate Holds(typeCode: PrefixCode, lengthCode: PrefixCode)
      reads this
    {
      Tabulates(typeDepths, typeBits, typeCode) && Tabulates(lengthDepths, lengthBits, lengthCode)
    }

    method StoreBlockLength(blockLen: nat, ghost typeCode: PrefixCode, ghost lengthCode: PrefixCode, w: BitWriter)
      requires w.Valid() && Holds(typeCode, lengthCode) && 1 <= blockLen < BLOCK_LIMIT
      requires lengthCode.Fits() && LengthSymbol(blockLen) in lengthCode.symbols
      modifies w, w.storage
      ensures w.Valid() && w.contents == old(w.contents) + BlockLengthBits(lengthCode, blockLen)
      ensures old(w.overflowed) ==> w.overflowed
      ensures !old(w.overflowed) && w.Roomy() ==> !w.overflowed
    {
      hide Shl, Shr, Low, Bit, BitOr, BitAnd, LittleEndian, Represents, LengthSymbol, ToBits;
      var code := BlockLengthPrefixCode(blockLen);
      BlockLengthFits(blockLen);
      WriteSymbol(lengthDepths, lengthBits, code, lengthCode, w);
      w.Write(RANGE_NBITS[code], blockLen - RANGE_OFFSET[code]);
    }

    /** `store_block_switch`: announces block `b` of the split. */
    method StoreBlockSwitch(blockLen: nat, blockType: nat, isFirstBlock: bool, ghost split: BlockSplit,
                            ghost coding: Coding, ghost b: nat, w: BitWriter)
      requires w.Valid() && Switchable(split, coding) && split.numTypes > 1 && b < split.numBlocks
      requires Holds(coding.typeCode, coding.lengthCode) && Tracks(calculator, split, b)
      requires blockLen == split.lengths[b] && blockType == split.types[b] && isFirstBlock == (b == 0)
      modifies calculator, w, w.storage
      ensures w.Valid() && Tracks(calculator, split, b + 1)
      ensures w.contents == old(w.contents)
                            + if b == 0 then BlockLengthBits(coding.lengthCode, blockLen)
                              else SwitchBits(split, coding, b)
      ensures old(w.overflowed) ==> w.overflowed
      ensures !old(w.overflowed) && w.Roomy() ==> !w.overflowed
    {
      hide Pow2, Shl, Shr, Low, Bit, BitOr, BitAnd, LittleEndian, Represents, LengthSymbol, ToBits, BlockLengthBits,
        TypeCode;
      var code := calculator.Next(blockType);
      assert code == split.SwitchCode(b);
      if !isFirstBlock {
        WriteSymbol(typeDepths, typeBits, code, coding.typeCode, w);
      }
      StoreBlockLength(blockLen, coding.typeCode, coding.lengthCode, w);
    }
  }

  /** The part of a stream's coding that its block switches use. */
  ghost function SwitchCoding(h: Huffman, split: BlockSplit): Coding
    requires split.Valid()
  {
    var header := SplitHeaderOf(h, split);
    Coding(split.numTypes, header.typeCode, header.lengthCode, 0, [], [])
  }

  method BuildAndStoreBlockSplitCode(h: Huffman, split: BlockSplit, code: BlockSplitCode, w: BitWriter)
    requires w.Valid() && h.Valid() && split.Valid() && Tracks(code.calculator, split, 0)
    modifies code, code.calculator, w, w.storage
    ensures w.Valid() && w.contents == old(w.contents) + SplitCodeBits(h, split)
    ensures split.numTypes > 1 ==>
              && Tracks(code.calculator, split, 1)
              && code.Holds(SplitHeaderOf(h, split).typeCode, SplitHeaderOf(h, split).lengthCode)
    ensures old(w.overflowed) ==> w.overflowed
    ensures !old(w.overflowed) && w.Roomy() ==> !w.overflowed
  {
    hide Pow2, Shl, Shr, Low, Bit, BitOr, BitAnd, LittleEndian, Represents, LengthSymbol, ToBits, BlockLengthBits,
      TypeCode, VarLenBits, Tally, TypeCodes, LengthCodes, StateAt, Tabulates, PrefixCode.PrefixFree;
    StoredCodesCover(h, split);
    var typeHisto, lengthHisto := CountSwitches(split);
    StoreVarLenUint8(split.numTypes - 1, w);
    if split.numTypes > 1 {
      var types := BuildAndStoreHuffmanTree(h, typeHisto[..split.numTypes + 2], split.numTypes + 2, w);
      code.typeDepths, code.typeBits := types.depth, types.pattern;
      var lengths := BuildAndStoreHuffmanTree(h, lengthHisto, NUM_BLOCK_LEN_SYMBOLS, w);
      code.lengthDepths, code.lengthBits := lengths.depth, lengths.pattern;
      code.StoreBlockSwitch(split.lengths[0], split.types[0], true, split, SwitchCoding(h, split), 0, w);
    }
  }

  // --------------------------------------------------------------------- entropy codes

  /** The codes of a stream, one per histogram. */
  ghost function StreamCodes(h: Huffman, histograms: seq<seq<nat>>, length: nat,
                             alphabet: nat): (codes: seq<PrefixCode>)
    requires forall t :: 0 <= t < |histograms| ==> |histograms[t]| >= length
    ensures |codes| == |histograms|
  {
    seq(|histograms|, t requires 0 <= t < |histograms| => h.build(histograms[t][..length], alphabet).code)
  }

  /** The descriptions of the codes from the `t`th on. */
  ghost function DescriptionsFrom(h: Huffman, histograms: seq<seq<nat>>, length: nat, alphabet: nat, t: nat): bits
    requires forall i :: 0 <= i < |histograms| ==> |histograms[i]| >= length
    decreases |histograms| - t
  {
    if t >= |histograms| then []
    else
      h.build(histograms[t][..length], alphabet).description
      + DescriptionsFrom(h, histograms, length, alphabet, t + 1)
  }

  /** Histograms that are codable at the given length and alphabet. */
  ghost predicate AllCodable(h: Huffman, histograms: seq<seq<nat>>, length: nat, alphabet: nat) {
    forall t :: 0 <= t < |histograms| ==> |histograms[t]| >= length && h.Codable(histograms[t][..length], alphabet)
  }

  /** RFC 7932, section 9.2: the prefix codes of one stream. */
  function ReadCodes(h: Huffman, n: nat, alphabet: nat, s: bits): Read<seq<PrefixCode>> {
    if n == 0 then Got([], s)
    else
      var (code, s) :- h.read(alphabet, s);
      var (codes, s) :- ReadCodes(h, n - 1, alphabet, s);
      Got([code] + codes, s)
  }

  lemma {:induction false} CodesRoundTrip(h: Huffman, histograms: seq<seq<nat>>, length: nat, alphabet: nat, t: nat,
                                          rest: bits)
    requires h.Valid() && AllCodable(h, histograms, length, alphabet) && t <= |histograms|
    ensures ReadCodes(h, |histograms| - t, alphabet, DescriptionsFrom(h, histograms, length, alphabet, t) + rest)
         == Got(StreamCodes(h, histograms, length, alphabet)[t..], rest)
    decreases |histograms| - t
  {
    hide PrefixCode.PrefixFree;
    var codes := StreamCodes(h, histograms, length, alphabet);
    if t == |histograms| {
      assert DescriptionsFrom(h, histograms, length, alphabet, t) + rest == rest;
      assert codes[t..] == [];
    } else {
      var counts := histograms[t][..length];
      var tail := DescriptionsFrom(h, histograms, length, alphabet, t + 1) + rest;
      assert h.Codable(counts, alphabet);
      assert h.Codes(counts, alphabet);
      assert DescriptionsFrom(h, histograms, length, alphabet, t) + rest
          == h.build(counts, alphabet).description + tail;
      CodesRoundTrip(h, histograms, length, alphabet, t + 1, rest);
      assert codes[t..] == [codes[t]] + codes[t + 1..];
    }
  }

  lemma StreamCodesCover(h: Huffman, histograms: seq<seq<nat>>, length: nat, alphabet: nat, t: nat)
    requires h.Valid() && AllCodable(h, histograms, length, alphabet) && t < |histograms|
    ensures var code, stored := StreamCodes(h, histograms, length, alphabet)[t],
            h.build(histograms[t][..length], alphabet);
            && code.PrefixFree() && code == stored.code
            && |stored.depth| == |stored.pattern| == length && Tabulates(stored.depth, stored.pattern, code)
            && forall s :: 0 <= s < length && histograms[t][s] > 0 ==> s in code.symbols
  {
    hide PrefixCode.PrefixFree;
    var counts := histograms[t][..length];
    assert h.Codable(counts, alphabet);
    assert h.Codes(counts, alphabet);
    forall s | 0 <= s < length && histograms[t][s] > 0
      ensures s in h.build(counts, alphabet).code.symbols
    {
      assert counts[s] > 0;
    }
  }

  // ----------------------------------------------------------------------- flat tables

  /** Where code `t` starts in a flat table. */
  function Row(t: nat, length: nat): nat { t * length }

  lemma RowsApart(t: nat, u: nat, length: nat)
    requires t < u
    ensures Row(t, length) + length <= Row(u, length)
  {
    assert (t + 1) * length <= u * length;
  }

  /** The flat tables give the symbols of the first `n` codes their words, one row per code. */
  ghost predicate Tabled(depths: seq<nat>, patterns: seq<nat>, codes: seq<PrefixCode>, length: nat, n: nat)
    requires n <= |codes|
  {
    && |depths| == |patterns| == Row(|codes|, length)
    && forall t :: 0 <= t < n ==>
                     && Row(t, length) + length <= |depths|
                     && Tabulates(depths[Row(t, length)..Row(t, length) + length],
                                  patterns[Row(t, length)..Row(t, length) + length], codes[t])
  }

  lemma NoRows(depths: seq<nat>, patterns: seq<nat>, codes: seq<PrefixCode>, length: nat)
    requires |depths| == |patterns| == Row(|codes|, length)
    ensures Tabled(depths, patterns, codes, length, 0)
  {
  }

  /** A flat table with row `t` replaced. */
  function WithRow(table: seq<nat>, row: seq<nat>, t: nat): seq<nat>
    requires Row(t, |row|) + |row| <= |table|
  {
    table[..Row(t, |row|)] + row + table[Row(t, |row|) + |row|..]
  }

  lemma OtherRow(table: seq<nat>, row: seq<nat>, t: nat, u: nat)
    requires u < t && Row(t, |row|) + |row| <= |table|
    ensures var ix := Row(u, |row|);
            ix + |row| <= |table| && WithRow(table, row, t)[ix..ix + |row|] == table[ix..ix + |row|]
  {
    hide Row;
    RowsApart(u, t, |row|);
  }

  /** Storing one more row leaves the ones before it alone. */
  lemma TablesGrow(depths: seq<nat>, patterns: seq<nat>, codes: seq<PrefixCode>, length: nat, t: nat,
                   depth: seq<nat>, pattern: seq<nat>)
    requires t < |codes| && Tabled(depths, patterns, codes, length, t)
    requires |depth| == |pattern| == length && Tabulates(depth, pattern, codes[t])
    ensures Row(t, length) + length <= |depths|
    ensures Tabled(WithRow(depths, depth, t), WithRow(patterns, pattern, t), codes, length, t + 1)
  {
    hide Row, Tabulates;
    RowsApart(t, |codes|, length);
    var ds, ps := WithRow(depths, depth, t), WithRow(patterns, pattern, t);
    forall u | 0 <= u < t + 1
      ensures Row(u, length) + length <= |ds|
      ensures Tabulates(ds[Row(u, length)..Row(u, length) + length], ps[Row(u, length)..Row(u, length) + length],
                        codes[u])
    {
      if u < t {
        OtherRow(depths, depth, t, u);
        OtherRow(patterns, pattern, t, u);
      } else {
        assert ds[Row(t, length)..Row(t, length) + length] == depth;
        assert ps[Row(t, length)..Row(t, length) + length] == pattern;
      }
    }
  }

  /** The bits of the `j`th symbol of a stream: the switch it forces, then its code word. */
  ghost function SymbolBits(split: BlockSplit, coding: Coding, j: nat, symbol: nat, context: nat): bits
    requires Encodable(split, coding, j, symbol, context)
  {
    OpeningBits(split, coding, j) + coding.Tree(KindAt(split, j), context).Word(symbol)
  }

  /** The stream has room for a `j`th symbol, and the code that block and context select has a
      word for it. */
  ghost predicate Encodable(split: BlockSplit, coding: Coding, j: nat, symbol: nat, context: nat) {
    && Switchable(split, coding) && coding.Complete()
    && j < split.Total() && context < Pow2(coding.contextBits)
    && symbol in coding.Tree(KindAt(split, j), context).symbols
  }

  // ------------------------------------------------------------------------ the encoder

  /** A map that gives each block type its own code, whatever the context. */
  ghost predicate Trivial(coding: Coding) {
    forall i :: 0 <= i < |coding.contextMap| ==> coding.contextMap[i] == Shr(i, coding.contextBits)
  }

  /** The step of the cursor over the `j`th symbol, and what has to be written before it. */
  lemma NextBlock(split: BlockSplit, coding: Coding, j: nat, block: nat, left: nat)
    requires Switchable(split, coding) && split.Valid() && j < split.Total() && split.At(j) == Cursor(block, left)
    ensures split.numBlocks <= |split.types| && split.numBlocks <= |split.lengths|
    ensures if left != 0 then
              && block < split.numBlocks && split.At(j + 1) == Cursor(block, left - 1)
              && OpeningBits(split, coding, j) == [] && KindAt(split, j) == split.types[block]
            else
              && block + 1 < split.numBlocks && split.numTypes > 1 && split.lengths[block + 1] >= 1
              && split.At(j + 1) == Cursor(block + 1, split.lengths[block + 1] - 1)
              && OpeningBits(split, coding, j) == SwitchBits(split, coding, block + 1)
              && KindAt(split, j) == split.types[block + 1]
  {
    hide Pow2, PrefixCode.PrefixFree, SwitchBits, LengthSymbol, SumTo, Switchable;
    CursorAt(split, j);
    CursorAt(split, j + 1);
  }

  /** What an encodable symbol needs of its code. */
  lemma EncodableCode(split: BlockSplit, coding: Coding, j: nat, symbol: nat, context: nat) returns (t: nat)
    requires Encodable(split, coding, j, symbol, context)
    ensures Switchable(split, coding) && split.Valid() && coding.Complete() && j < split.Total()
    ensures context < Pow2(coding.contextBits)
    ensures Shl(KindAt(split, j), coding.contextBits) + context < |coding.contextMap|
    ensures t == coding.contextMap[Shl(KindAt(split, j), coding.contextBits) + context] < |coding.trees|
    ensures coding.trees[t].PrefixFree() && symbol in coding.trees[t].symbols
    ensures SymbolBits(split, coding, j, symbol, context)
            == OpeningBits(split, coding, j) + coding.trees[t].Word(symbol)
    ensures Trivial(coding) ==> t == KindAt(split, j)
  {
    hide Pow2, Shl, Shr, PrefixCode.PrefixFree, OpeningBits;
    var kind := KindAt(split, j);
    ContextInMap(kind, coding.numTypes, context, coding.contextBits);
    if Trivial(coding) { Compose(context, kind, coding.contextBits); }
    t := coding.contextMap[Shl(kind, coding.contextBits) + context];
  }

  class BlockEncoder {
    const histogramLength: nat
    const blockTypes: seq<nat>
    const blockLengths: seq<nat>
    const splitCode: BlockSplitCode
    var blockIx: nat
    var blockLen: nat
    var entropyIx: nat
    var depths: seq<nat>
    var bits: seq<nat>
    ghost const split: BlockSplit
    /** How many symbols have been coded. */
    ghost var coded: nat

    constructor (histogramLength: nat, split: BlockSplit)
      requires split.Valid()
      ensures this.histogramLength == histogramLength && this.split == split && Fresh()
      ensures fresh(splitCode) && fresh(splitCode.calculator)
    {
      this.histogramLength, this.split := histogramLength, split;
      blockTypes, blockLengths := split.types, split.lengths;
      splitCode := new BlockSplitCode();
      blockIx, blockLen, entropyIx := 0, if split.numBlocks == 0 then 0 else split.lengths[0], 0;
      depths, bits := [], [];
      coded := 0;
    }

    /** Nothing has been coded yet. */
    ghost predicate Fresh()
      reads this, splitCode, splitCode.calculator
    {
      && split.Valid() && blockTypes == split.types && blockLengths == split.lengths
      && coded == 0 && split.At(0) == Cursor(blockIx, blockLen) && entropyIx == 0
      && splitCode.calculator.lastType == 1 && splitCode.calculator.secondLastType == 0
    }

    ghost predicate Switching(typeCode: PrefixCode, lengthCode: PrefixCode)
      reads this, splitCode, splitCode.calculator
    {
      && split.Valid() && blockTypes == split.types && blockLengths == split.lengths
      && coded <= split.Total() && split.At(coded) == Cursor(blockIx, blockLen)
      && (split.numTypes > 1 ==>
            && blockIx < split.numBlocks
            && Tracks(splitCode.calculator, split, blockIx + 1)
            && splitCode.Holds(typeCode, lengthCode))
    }

    ghost function Kind(): nat
      reads this
    {
      if blockIx < |blockTypes| && blockIx < split.numBlocks then blockTypes[blockIx] else 0
    }

    /** The encoder is in step with a decoder that knows `coding`. */
    ghost predicate Ready(coding: Coding, mapped: bool)
      reads this, splitCode, splitCode.calculator
    {
      && Switching(coding.typeCode, coding.lengthCode) && Switchable(split, coding) && coding.Complete()
      && Tabled(depths, bits, coding.trees, histogramLength, |coding.trees|)
      && (!mapped ==> Trivial(coding))
      && entropyIx == if mapped then Shl(Kind(), coding.contextBits) else Row(Kind(), histogramLength)
    }

    method BuildAndStoreBlockSwitchCodes(h: Huffman, split: BlockSplit, w: BitWriter)
      requires w.Valid() && h.Valid() && Fresh() && split == this.split
      modifies splitCode, splitCode.calculator, w, w.storage
      ensures w.Valid() && w.contents == old(w.contents) + SplitCodeBits(h, split)
      ensures Switching(SplitHeaderOf(h, split).typeCode, SplitHeaderOf(h, split).lengthCode)
      ensures old(w.overflowed) ==> w.overflowed
      ensures !old(w.overflowed) && w.Roomy() ==> !w.overflowed
    {
      hide Pow2, Shl, Shr, Low, Bit, BitOr, BitAnd, LittleEndian, Represents, ToBits, SplitCodeBits, SplitHeaderOf,
        SumTo;
      BuildAndStoreBlockSplitCode(h, split, splitCode, w);
      CursorAt(split, 0);
    }

    /** `build_and_store_entropy_codes`: the flat tables hold one row per histogram. */
    method BuildAndStoreEntropyCodes(h: Huffman, histograms: seq<seq<nat>>, alphabet: nat, w: BitWriter)
      requires w.Valid() && h.Valid() && AllCodable(h, histograms, histogramLength, alphabet)
      modifies this`depths, this`bits, w, w.storage
      ensures w.Valid()
      ensures w.contents == old(w.contents) + DescriptionsFrom(h, histograms, histogramLength, alphabet, 0)
      ensures var codes := StreamCodes(h, histograms, histogramLength, alphabet);
              Tabled(depths, bits, codes, histogramLength, |codes|)
      ensures old(w.overflowed) ==> w.overflowed
      ensures !old(w.overflowed) && w.Roomy() ==> !w.overflowed
    {
      hide Pow2, Shl, Shr, Low, Bit, BitOr, BitAnd, LittleEndian, Represents, ToBits, PrefixCode.PrefixFree, Row,
        Tabled, Tabulates, Huffman.Codable;
      var tableSize := Row(|histograms|, histogramLength);
      depths := seq(tableSize, _ => 0);
      bits := seq(tableSize, _ => 0);
      ghost var codes := StreamCodes(h, histograms, histogramLength, alphabet);
      NoRows(depths, bits, codes, histogramLength);
      ghost var all := w.contents + DescriptionsFrom(h, histograms, histogramLength, alphabet, 0);
      for t := 0 to |histograms|
        invariant w.Valid()
        invariant w.contents + DescriptionsFrom(h, histograms, histogramLength, alphabet, t) == all
        invariant Tabled(depths, bits, codes, histogramLength, t)
        invariant old(w.overflowed) ==> w.overflowed
        invariant !old(w.overflowed) && w.Roomy() ==> !w.overflowed
      {
        StreamCodesCover(h, histograms, histogramLength, alphabet, t);
        StoreEntropyCode(h, histograms[t][..histogramLength], alphabet, t, codes, w);
      }
    }

    /** One code of the stream: its description, and its row of the flat tables. */
    method StoreEntropyCode(h: Huffman, counts: seq<nat>, alphabet: nat, t: nat, ghost codes: seq<PrefixCode>,
                            w: BitWriter)
      requires w.Valid() && t < |codes| && Tabled(depths, bits, codes, histogramLength, t)
      requires var stored := h.build(counts, alphabet);
               |stored.depth| == |stored.pattern| == histogramLength
                   && Tabulates(stored.depth, stored.pattern, codes[t])
      modifies this`depths, this`bits, w, w.storage
      ensures w.Valid() && w.contents == old(w.contents) + h.build(counts, alphabet).description
      ensures Tabled(depths, bits, codes, histogramLength, t + 1)
      ensures old(w.overflowed) ==> w.overflowed
      ensures !old(w.overflowed) && w.Roomy() ==> !w.overflowed
    {
      hide Pow2, Shl, Shr, Low, Bit, BitOr, BitAnd, LittleEndian, Represents, ToBits, PrefixCode.PrefixFree, Row,
        Tabled, Tabulates;
      var stored := BuildAndStoreHuffmanTree(h, counts, alphabet, w);
      TablesGrow(depths, bits, codes, histogramLength, t, stored.depth, stored.pattern);
      assert |depths| == |bits| by { TabledLengths(depths, bits, codes, histogramLength, t); }
      depths, bits := WithRow(depths, stored.depth, t), WithRow(bits, stored.pattern, t);
    }

    /** `advance_block`: opens the next block when the current one has run out. The caller says
        how a block type indexes its tables. */
    method AdvanceBlock(mapped: bool, contextBits: nat, ghost coding: Coding, w: BitWriter)
      requires w.Valid() && Switchable(split, coding) && Switching(coding.typeCode, coding.lengthCode)
      requires coded < split.Total()
      requires entropyIx == if mapped then Shl(Kind(), contextBits) else Row(Kind(), histogramLength)
      modifies this`blockIx, this`blockLen, this`entropyIx, splitCode.calculator, w, w.storage
      ensures w.Valid() && w.contents == old(w.contents) + OpeningBits(split, coding, coded)
      ensures blockLen > 0 && split.At(coded + 1) == Cursor(blockIx, blockLen - 1)
      ensures entropyIx == if mapped then Shl(Kind(), contextBits) else Row(Kind(), histogramLength)
      ensures split.numTypes > 1 ==> blockIx < split.numBlocks && Tracks(splitCode.calculator, split, blockIx + 1)
      ensures Kind() == KindAt(split, coded)
      ensures old(w.overflowed) ==> w.overflowed
      ensures !old(w.overflowed) && w.Roomy() ==> !w.overflowed
    {
      hide Pow2, Shl, Shr, Low, Bit, BitOr, BitAnd, LittleEndian, Represents, ToBits, PrefixCode.PrefixFree, SwitchBits,
        BlockLengthBits, Row, Tabled, Trivial, SumTo, LengthSymbol, TypeCode, Switchable, BlockSplit.Valid,
        BlockSplit.At, BlockSplit.Total, BlockSplit.Before, OpeningBits, KindAt;
      NextBlock(split, coding, coded, blockIx, blockLen);
      if blockLen != 0 {
        return;
      }
      blockIx := blockIx + 1;
      blockLen := blockLengths[blockIx];
      var blockType := blockTypes[blockIx];
      entropyIx := if mapped then Shl(blockType, contextBits) else Row(blockType, histogramLength);
      splitCode.StoreBlockSwitch(blockLen, blockType, false, split, coding, blockIx, w);
    }

    /** `store_symbol`: the code is that of the block holding the symbol. */
    method StoreSymbol(symbol: nat, ghost context: nat, ghost coding: Coding, w: BitWriter)
      requires w.Valid() && Ready(coding, false) && Encodable(split, coding, coded, symbol, context)
      modifies this`blockIx, this`blockLen, this`entropyIx, this`coded, splitCode.calculator, w, w.storage
      ensures w.Valid() && Ready(coding, false) && coded == old(coded) + 1
      ensures w.contents == old(w.contents) + SymbolBits(split, coding, old(coded), symbol, context)
      ensures old(w.overflowed) ==> w.overflowed
      ensures !old(w.overflowed) && w.Roomy() ==> !w.overflowed
    {
      hide Pow2, Shl, Shr, Low, Bit, BitOr, BitAnd, LittleEndian, Represents, ToBits, SwitchBits, BlockLengthBits, Row,
        Tabled, Trivial, SumTo, LengthSymbol, TypeCode, OpeningBits, Switchable, BlockSplit.Valid, BlockSplit.At,
        BlockSplit.Total, BlockSplit.Before, KindAt, Encodable, SymbolBits, Coding.Complete, PrefixCode.PrefixFree;
      ghost var t := EncodableCode(split, coding, coded, symbol, context);
      AdvanceBlock(false, 0, coding, w);
      blockLen := blockLen - 1;
      LookupWord(depths, bits, coding.trees, histogramLength, t, symbol);
      var ix := entropyIx + symbol;
      w.Write(depths[ix], bits[ix]);
      coded := coded + 1;
    }

    /** `store_symbol_with_context`: the code is the one the map gives block and context. */
    method StoreSymbolWithContext(symbol: nat, context: nat, contextMap: seq<nat>, contextBits: nat,
                                  ghost coding: Coding, w: BitWriter)
      requires w.Valid() && Ready(coding, true) && Encodable(split, coding, coded, symbol, context)
      requires contextMap == coding.contextMap && contextBits == coding.contextBits
      modifies this`blockIx, this`blockLen, this`entropyIx, this`coded, splitCode.calculator, w, w.storage
      ensures w.Valid() && Ready(coding, true) && coded == old(coded) + 1
      ensures w.contents == old(w.contents) + SymbolBits(split, coding, old(coded), symbol, context)
      ensures old(w.overflowed) ==> w.overflowed
      ensures !old(w.overflowed) && w.Roomy() ==> !w.overflowed
    {
      hide Pow2, Shl, Shr, Low, Bit, BitOr, BitAnd, LittleEndian, Represents, ToBits, SwitchBits, BlockLengthBits, Row,
        Tabled, Trivial, SumTo, LengthSymbol, TypeCode, OpeningBits, Switchable, BlockSplit.Valid, BlockSplit.At,
        BlockSplit.Total, BlockSplit.Before, KindAt, Encodable, SymbolBits, Coding.Complete, PrefixCode.PrefixFree;
      ghost var t := EncodableCode(split, coding, coded, symbol, context);
      AdvanceBlock(true, contextBits, coding, w);
      blockLen := blockLen - 1;
      var histoIx := contextMap[entropyIx + context];
      LookupWord(depths, bits, coding.trees, histogramLength, histoIx, symbol);
      var ix := Row(histoIx, histogramLength) + symbol;
      w.Write(depths[ix], bits[ix]);
      coded := coded + 1;
    }
  }

  lemma TabledLengths(depths: seq<nat>, patterns: seq<nat>, codes: seq<PrefixCode>, length: nat, n: nat)
    requires n <= |codes| && Tabled(depths, patterns, codes, length, n)
    ensures |depths| == |patterns|
  {
  }

  /** The flat tables give a symbol the word its code has for it. */
  lemma LookupWord(depths: seq<nat>, patterns: seq<nat>, trees: seq<PrefixCode>, length: nat, t: nat, symbol: nat)
    requires Tabled(depths, patterns, trees, length, |trees|)
    requires t < |trees| && trees[t].PrefixFree() && symbol in trees[t].symbols
    ensures var ix := Row(t, length) + symbol;
            && ix < |depths| && ix < |patterns| && depths[ix] <= MAX_DEPTH && patterns[ix] < Pow2(depths[ix])
            && ToBits(depths[ix], patterns[ix]) == trees[t].Word(symbol)
  {
    hide Pow2, Bit, ToBits, Row;
    var ix := Row(t, length);
    assert Tabulates(depths[ix..ix + length], patterns[ix..ix + length], trees[t]);
    assert depths[ix..ix + length][symbol] == depths[ix + symbol]
        && patterns[ix..ix + length][symbol] == patterns[ix + symbol];
  }
}
