# Brotli wire format: a verified model

This project models the wire-format layer of a Brotli codec: the code that turns commands, block
splits, context maps and distances into bits, the fallback that stores input verbatim, and the
decoder-side parser of serialized dictionaries. For each encoder there is a small decoder written
from the standard (RFC 7932, and RFC 9841 for large windows and serialized dictionaries), and a proof that it reads
back what the encoder writes, for all inputs.

A bit stream is a sequence of booleans, least significant bit first. Writers append to such a
sequence; decoders take it apart and return a value with the bits that remain. The main results:

- A whole stream (a window header of either form, then any chain of meta-blocks from
  `store_meta_block`, `store_meta_block_trivial`, the uncompressed writer and the byte-aligning
  metadata block) is decoded by sections 4 to 10 of RFC 7932 to the text the blocks describe: block
  switches, context maps, prefix codes, literals, lengths, distances, the distance ring and
  overlapping copies included. Stored streams decode likewise, and never exceed their bound.
- For any three prefix-free codes and any command list without dictionary matches, a parser that knows
  only the length reads back exactly the literals, lengths and distances of the list.
- The bit writer over a dirty buffer refines a growing sequence of bits under any script of its
  operations, says exactly when the buffer was too short, and its two storages agree.
- Distance coding is a bijection within an alphabet whose limit is exact.
- Smoothing a histogram in place never takes the code of a used symbol away, so a meta-block that
  could be stored can be stored from its smoothed histograms, and decodes to the same text. What the
  averaging does to every count is determined by a partition into windows stated without the pass.
- A dictionary that parses keeps every offset inside what it retains, and its addresses correspond
  one to one to combination, transform and word, in preferred-first order. A printer for
  dictionaries shows that what is written is what is found.

How the files fit together:

| files | about |
|---|---|
| `bits.dfy`, `bit_writer.dfy`, `bit_scripts.dfy` | bits, the two writers, scripts of operations |
| `headers.dfy`, `prefix_code.dfy` | meta-block headers; prefix codes as tables of depths and patterns |
| `distance.dfy`, `command.dfy`, `packed_command.dfy`, `extension.dfy` | distances, length classes, command symbols, the packed record, extending the last command |
| `histogram.dfy`, `smoothing.dfy`, `optimize.dfy` | counting symbols and smoothing the counts |
| `block_split.dfy`, `block_encoder.dfy`, `context_map.dfy` | block switches and context maps, with their readers |
| `symbol_streams.dfy`, `data_writer.dfy`, `plain_parser.dfy` | the symbols of a meta-block, counted, written and parsed back |
| `decoding.dfy`, `meta_block.dfy`, `stream_decoder.dfy` | the decoder, and the round trip of a meta-block |
| `meta_block_writer.dfy`, `trivial_writer.dfy`, `spread_job.dfy`, `block_sequence.dfy` | the writers of whole meta-blocks, what they can be called with, and whole streams |
| `uncompressed.dfy`, `stored_stream.dfy` | uncompressed meta-blocks and stored streams |
| `serialized_cursor.dfy`, `serialized.dfy`, `serialized_dictionary.dfy`, `serialized_printer.dfy`, `prefixes.dfy` | serialized dictionaries, a printer for them, and attached prefixes |

## What enters as a parameter

- The builder of prefix codes, with the reader of code descriptions (`Huffman` in
  `prefix_code.dfy`): the code is prefix free, no deeper than fifteen, has a word for every counted
  symbol, and its description reads back as the same symbols with the same words. The tables the
  writer keeps are as long as the counts; a decoder knows nothing of that length. `HuffmanExists`
  shows that this can be met by descriptions that, like the program's, do not tell it either.
- The literal context tables, the built-in dictionary and its transforms, and the match-length
  kernel, which is the longest common prefix of two windows.
- The allocator, which grants an exact reservation or fails, and what the encoder behind `compress`
  returns.

## Where the code and its documentation differ

- `distance_code_limit` documents that the limit has to leave room for one more; its 32-bit sum
  needs room for four more past the direct codes when there are no postfix bits
  (`Distances.OffsetWraps`). The only limit the program passes is far below that.
- `Command::new` takes any code delta, but only those of a signed seven-bit field, less the modifiers
  that long transforms use, survive packing (`PackedCommands.CopyLenCodeExact` says exactly which).
- Recomputing the command symbol reads the delta as unsigned; `Extension.UnsignedDeltaExact` says
  exactly when that is the length the decoder reconstructs.
- Attaching a serialized dictionary without word or transform lists leaves no description live, even
  when one was attached before (`DictionaryPrefixes.Prefixes.AttachSerialized`).

## Model

| member | source | states |
|---|---|---|
| `BitWriting.BitWriter.constructor` | src/shared/bits.rs:97-103 | resuming over a buffer whose current byte is clear above the position makes the bits below it the contents |
| `BitWriting.BitWriter.Write` | src/shared/bits.rs:171-183 | up to 56 bits are appended, whatever stale bytes lie beyond; it overflows exactly when the eight bytes of headroom are not there |
| `BitWriting.BitWriter.UpdateByte` | src/shared/bits.rs:191-206 | one turn of the update loop overwrites exactly the bits that fall in one byte, and fails exactly when there is no such byte |
| `BitWriting.BitWriter.Update` | src/shared/bits.rs:189-211 | bits already emitted are overwritten in place and all others kept, unless one of them is past the buffer |
| `BitWriting.BitWriter.Rewind` | src/shared/bits.rs:214-226 | the sequence is truncated and the byte it ends in is clear above it; it overflows exactly when there is no such byte |
| `BitWriting.BitWriter.PrepareStorage` | src/shared/bits.rs:246-256 | clearing the byte at an aligned position re-establishes the writer invariant, exactly when there is such a byte |
| `BitWriting.BitWriter.JumpToByteBoundary` | src/shared/bits.rs:229-241 | the sequence is padded with zeros to a byte; it overflows exactly when the byte landed on does not exist |
| `BitWriting.BitWriter.WriteBytes` | src/shared/bits.rs:259-276 | whole bytes are appended at an aligned position; it overflows exactly when they and the byte behind them do not fit |
| `BitWriting.WriteAppends` | src/shared/bits.rs:180-182 | the machine word a write stores leaves the old bits, the new bits, and a clear rest of the byte |
| `BitWriting.UpdatedByteBit` | src/shared/bits.rs:203-206 | bit by bit, the masked byte is the new value inside the field and the old byte outside it |
| `BitWriting.RewindTruncates` | src/shared/bits.rs:214-225 | masking the byte of the target position leaves a buffer that represents the shorter sequence |
| `BitWriting.RepresentationsAgree` | src/shared/bits.rs:49-82 | two buffers that represent the same bits agree on every whole byte below the position |
| `BitWriting.VecBitWriter.Grow` | src/shared/bits.rs:50-53 | growing in batches keeps the existing bytes and reaches the size asked for |
| `BitWriting.VecBitWriter.Window` | src/shared/bits.rs:62-68 | a vector always provides the window, and keeps its prefix |
| `BitWriting.VecBitWriter.Write` | src/shared/bits.rs:171-183 | the growable writer appends the same bits and never overflows |
| `BitWriting.VecBitWriter.Update` | src/shared/bits.rs:189-211 | the growable writer overwrites the same bits |
| `BitWriting.VecBitWriter.Rewind` | src/shared/bits.rs:214-226 | the growable writer truncates alike |
| `BitWriting.VecBitWriter.JumpToByteBoundary` | src/shared/bits.rs:229-241 | the growable writer pads alike |
| `BitWriting.VecBitWriter.WriteBytes` | src/shared/bits.rs:71-81 | bytes overwrite what is initialised and extend the vector with the rest |
| `BitScripts.RunPreserves` | src/shared/bits.rs:171-276 | a script keeps every bit before its start, unless one of its steps goes below it |
| `BitScripts.RunFixed` | src/shared/bits.rs:171-276 | any legal script leaves its abstract result in the bytes of the slice, and overflows exactly when one of its calls lacks the bytes it needs |
| `BitScripts.HeadroomSuffices` | src/shared/bits.rs:160-170 | eight bytes past the largest position a script reaches are enough |
| `BitScripts.RunGrowing` | src/shared/bits.rs:106-115 | the same for the growable writer |
| `BitScripts.RunBoth` | src/shared/bits.rs:49-82 | both storages, given the same script, end at the same position with the same bytes below it when the slice does not overflow |
| `Headers.InjectBytePadding` | src/shared/bits.rs:305-328 | the carried bits, an empty metadata block and zeros are written as whole bytes, or nothing is when the stream is aligned or the buffer short |
| `Headers.SealDecodes` | src/shared/bits.rs:289-294 | the six bits read as a metadata block that carries nothing |
| `Headers.MlenIsNarrowest` | src/shared/bitstream.rs:75-84 | the length field fits its nibbles and uses no more of them than it has to |
| `Headers.WindowRoundTrip` | src/compressor/core/rfc9841/window.rs:86-101 | a section 9.1 reader recovers every window a stream can declare, ordinary or large |
| `Headers.StoreCompressedMetaBlockHeader` | src/shared/bitstream.rs:89-104 | the header bits of a compressed meta-block are appended |
| `Headers.StoreUncompressedMetaBlockHeader` | src/shared/bitstream.rs:111-117 | the header bits of an uncompressed meta-block are appended |
| `Headers.CompressedHeaderRoundTrip` | src/shared/bitstream.rs:89-104 | a section 9.2 reader recovers the last flag and the length for every length a meta-block can declare |
| `Headers.UncompressedHeaderRoundTrip` | src/shared/bitstream.rs:111-117 | the same for the uncompressed header |
| `PrefixCodes.ReadSymbolInverts` | src/shared/bitstream.rs:1083-1109 | reading a prefix-free code gives back the symbol whose word was written |
| `PrefixCodes.HuffmanExists` | src/shared/huffman.rs:653-699 | what is asked of the builder of codes can be met, by descriptions that do not depend on zeros behind the last counted symbol |
| `PrefixCodes.StoreVarLenUint8` | src/shared/bitstream.rs:63-72 | the variable-length form of a number below 256 is appended |
| `PrefixCodes.VarLenRoundTrip` | src/shared/bitstream.rs:63-72 | that form reads back as the number |
| `Distances.SplitDenotesDistance` | src/shared/command.rs:103-125 | symbol and extra bits of a distance code denote its distance by section 4 of RFC 7932, for every NPOSTFIX and NDIRECT |
| `Distances.DistanceDeterminesSplit` | src/shared/command.rs:103-125 | every symbol and extra bits that section 4 allows is the split of the distance it denotes: the coding is onto as well |
| `Distances.RestoreInvertsEncode` | src/shared/command.rs:258-271 | restoring a distance code undoes the split |
| `Distances.DistanceCodingRoundTrip` | src/shared/command.rs:103-125 | for all distances up to the maximum of sound parameters: symbol in the alphabet and in ten bits, code restored, distance denoted |
| `Distances.GroupsExpress` | src/shared/distance.rs:128-132 | an alphabet of whole groups expresses exactly the distances below the start of the next group |
| `Distances.NewParamsExact` | src/shared/distance.rs:71-83 | the stated maximum is exactly the largest distance the RFC 7932 alphabet expresses |
| `Distances.ComputeDistanceCodeLimit` | src/shared/distance.rs:139-193 | the alphabet returned expresses exactly the distances up to the returned maximum, which is within the limit, and the next group contains limit + 1 |
| `Distances.FloorLog2` | src/shared/distance.rs:158-165 | the loop computes the floor of the base-two logarithm |
| `Distances.OffsetWraps` | src/shared/distance.rs:134-156 | the 32-bit sum wraps exactly without postfix bits and with a limit within four of the top past the direct codes, closer than the documented room for one more |
| `Distances.NewLargeParams` | src/shared/distance.rs:92-103 | the large-window maximum is exact for its alphabet and within the allowed distance, and the alphabet fits the histogram and the alphabet written |
| `Distances.GroupsFitHistogram` | src/shared/distance.rs:40-42 | whole groups within the allowed distance never exceed the histogram of distance symbols |
| `Distances.NewParamsSound` | src/shared/distance.rs:71-83 | parameters of the ordinary window meet the conditions of the round trip |
| `Commands.InsertCodeClass` | src/shared/command.rs:23-38 | the arithmetic insert code is the class of the table that holds the length |
| `Commands.CopyCodeClass` | src/shared/command.rs:58-66 | the copy code is the class of the table that holds the length |
| `Commands.BuildCopyLengthCodes` | src/shared/command.rs:42-54 | the table built in one pass holds the class of every short copy length |
| `Commands.InsertExtraFits` | src/shared/command.rs:278-289 | an insert length is its class base plus extra bits that fit |
| `Commands.CopyExtraFits` | src/shared/command.rs:278-289 | a copy length is its class base plus extra bits that fit |
| `Commands.InsertClassesDisjoint` | src/shared/format.rs:106-115 | no insert length has two codes |
| `Commands.CopyClassesDisjoint` | src/shared/format.rs:117-125 | no copy length has two codes |
| `Commands.InsertTableTiles` | src/shared/format.rs:106-115 | the insert classes start at nought, have the widths of the standard, and tile |
| `Commands.CopyTableTiles` | src/shared/format.rs:117-125 | the copy classes start at two, have the widths of the standard, and tile |
| `Commands.MagicCell` | src/shared/command.rs:84-86 | the shifted constant selects the cell of the command table for its row and column |
| `Commands.CommandSymbolRoundTrip` | src/shared/command.rs:73-87 | section 5 splits the symbol back into both codes, with the distance implied exactly below 128 |
| `Commands.CommandSymbolsAllUsed` | src/shared/command.rs:73-87 | every one of the 704 symbols is the combination of the codes it splits into |
| `PackedCommands.CopyLenCodeExact` | src/shared/command.rs:153-219 | the code delta survives packing if and only if it is in the signed range, less the reserved modifiers |
| `PackedCommands.PackedCopyLen` | src/shared/command.rs:204-206 | length and code field read back from the packed word |
| `PackedCommands.ReadLengthsInverts` | src/shared/command.rs:278-289 | the extra bits of both lengths, read by section 5, give the lengths back |
| `PackedCommands.NewIsCoded` | src/shared/command.rs:153-184 | for every code delta that survives packing, symbol, lengths and distance fields of a new command belong together, and its distance code is restored |
| `PackedCommands.NewIsPlain` | src/shared/command.rs:153-184 | without a delta it is a copy the decoder reconstructs |
| `PackedCommands.InsertOnlyIsTrailing` | src/shared/command.rs:192-200 | the insert-only command copies nothing, has no distance, and carries copy code four and distance code sixteen |
| `Extension.ExtentLongest` | src/shared/command.rs:347-364 | the byte scan finds the longest repeating stretch: equal before it ends, different where it ends |
| `Extension.StretchExtent` | src/shared/command.rs:350-358 | the match-length kernel on one contiguous stretch counts what the byte scan counts |
| `Extension.CommandExtension.ExtendInWindow` | src/shared/command.rs:347-364 | across both wrap points the window branch absorbs exactly the byte scan's stretch |
| `Extension.CommandExtension.ExtendIntoPrefix` | src/shared/command.rs:401-440 | the prefix branch absorbs exactly the stretch that equals the joined prefix, across segment seams |
| `Extension.PrefixExtentLongest` | src/shared/command.rs:420-439 | that stretch is the longest |
| `Extension.UnsignedDeltaExact` | src/shared/command.rs:377-383 | the unsigned reading of the delta is the decoder's length if and only if the modifier is below 64, or 32 with the experimental modifiers |
| `Extension.CommandExtension.ExtendLastCommand` | src/shared/command.rs:318-385 | a command created with a short code or the code of the last distance absorbs exactly the bytes that continue it, any other none; copy length plus bytes and position plus bytes are kept, and the symbol is that of the new length |
| `Extension.CodeDecides` | src/shared/command.rs:338-342 | the command continues exactly when it was created with a code below 16 or with that of the last distance |
| `Extension.NewIsCreatedWith` | src/shared/command.rs:153-184 | a new command is created with the code it was given, whatever its lengths |
| `Extension.GainMeans` | src/shared/command.rs:333-376 | in the window the bytes that repeat at the last distance, past it those of the attached prefix from where the copy stopped, are what is absorbed |
| `Histograms.Histogram.constructor` | src/shared/histogram.rs:84-93 | a new histogram is empty |
| `Histograms.Histogram.Clear` | src/shared/histogram.rs:34-38 | all counts and the total are forgotten |
| `Histograms.Histogram.Add` | src/shared/histogram.rs:42-47 | one more symbol is counted, and one outside the alphabet is not |
| `Histograms.Histogram.AddHistogram` | src/shared/histogram.rs:53-58 | the counted symbols are those of both |
| `Histograms.Histogram.SetSum` | src/shared/histogram.rs:64-70 | the counted symbols are those of left and right, whatever was there |
| `Histograms.MergeBothWays` | src/shared/histogram.rs:60-70 | overwriting with a sum and merging in place give the same counts and total |
| `Histograms.CountsSum` | src/shared/histogram.rs:20-24 | the counts add up to the number of symbols counted |
| `Histograms.Histogram.TotalIsSum` | src/shared/histogram.rs:20-24 | the cached total is the sum of the counts |
| `Smoothing.FillGaps` | src/shared/histogram.rs:196-202 | filling lone gaps in place fills exactly the gaps of the original counts |
| `Smoothing.MarkGoodRuns` | src/shared/histogram.rs:208-230 | a count is marked exactly when it is in a run of five zeros or seven equal counts |
| `Smoothing.StreakDescribes` | src/shared/histogram.rs:232-279 | stride and sum describe exactly the unflushed window, and a window of two or more holds no good run |
| `Smoothing.OutOfStreakMeans` | src/shared/histogram.rs:241-244 | the wrapping comparison is the two-sided distance test |
| `Smoothing.MeanRounds` | src/shared/histogram.rs:247-254 | a window is replaced by its mean to the nearest integer, a half rounded up, except that a small positive mean becomes one |
| `Smoothing.Collapse` | src/shared/histogram.rs:232-279 | the in-place pass computes the window state machine's result |
| `Smoothing.CollapseKeepsUsed` | src/shared/histogram.rs:245-258 | closing windows never makes a used count unused |
| `Smoothing.OptimizeHuffmanCountsForRle` | src/shared/histogram.rs:159-280 | all passes together, in place, with every early return |
| `Smoothing.SmoothingKeepsUsed` | src/shared/histogram.rs:159-280 | every count that was not zero is still not zero |
| `Smoothing.SmoothingKeepsTail` | src/shared/histogram.rs:174-180 | entries past the last used one are unchanged |
| `Smoothing.SmoothingKeepsGoodRuns` | src/shared/histogram.rs:208-230 | runs that already code well come through the collapsing pass unaltered |
| `Smoothing.PreparedMeans` | src/shared/histogram.rs:182-207 | lone gaps become ones exactly when some used count is below four and fewer than six counts up to the last used one are zero |
| `Smoothing.CollapseAverages` | src/shared/histogram.rs:231-279 | the pass averages window after window: a window goes on while no good run starts or ends and the count is within 1240 256ths of the level, and is averaged from four counts, or three zeros, on |
| `Smoothing.AveragedUnique` | src/shared/histogram.rs:231-279 | being averaged window by window determines every count |
| `Smoothing.SmoothingOutcome` | src/shared/histogram.rs:162-281 | below 16 used counts nothing changes, below 28 only lone gaps, and from there on the counts are averaged window by window |
| `Smoothing.NearlyEqualAveraged` | src/shared/histogram.rs:231-279 | 28 or more used counts of v and v + 1, no seven in a row equal, all become their rounded mean |
| `HistogramOptimization.AllStillCounted` | src/shared/metablock.rs:89-107 | a meta-block whose symbols were all counted can be stored from the smoothed histograms |
| `HistogramOptimization.SmoothAll` | src/shared/metablock.rs:91-107 | every histogram of a list is smoothed in place, whatever the scratch marks hold |
| `HistogramOptimization.OptimizeHistograms` | src/shared/metablock.rs:89-108 | the histograms of all three streams are smoothed over their alphabets |
| `HistogramOptimization.StillValid` | src/shared/metablock.rs:89-107 | smoothed histograms can be coded whenever the old ones could |
| `HistogramOptimization.SmoothedIsReady` | src/shared/metablock.rs:85-107 | a meta-block that could be stored can be stored from its smoothed histograms |
| `HistogramOptimization.SmoothedRoundTrip` | src/shared/metablock.rs:85-107 | what is stored from them decodes to the same text |
| `BlockSplits.BlockLengthPrefixCode` | src/shared/bitstream.rs:41-53 | from any of its hints the search finds the one code whose range holds the length |
| `BlockSplits.BlockLengthRoundTrip` | src/shared/bitstream.rs:56-60 | code and extra bits of a block length read back |
| `BlockSplits.RangesTile` | src/shared/format.rs:134-161 | the block-length ranges start at one, have the widths of the standard, and tile |
| `BlockSplits.BlockTypeCodeCalculator.Next` | src/shared/bitstream.rs:138-150 | the code is one that a section 6 decoder with the same two last types turns back into the block type, and those two types move on |
| `BlockSplits.TypeCodeDecodes` | src/shared/bitstream.rs:138-150 | a section 6 decoder with the same two types recovers the block type |
| `BlockSplits.TypeCodeShort` | src/shared/bitstream.rs:138-150 | a short code is used exactly when one stands for the type, the successor code first |
| `BlockSplits.CursorAt` | src/shared/bitstream.rs:543-554 | coding never runs past the last block, and the cursor counts the current one down |
| `BlockSplits.BlockHoldsSymbol` | src/shared/bitstream.rs:543-560 | the block a symbol is coded in is the one that contains it |
| `BlockSplits.SwitchRoundTrip` | src/shared/bitstream.rs:175-195 | the bits of a switch take the decoder into the next block |
| `BlockSplits.AdvanceRoundTrip` | src/shared/bitstream.rs:543-554 | lockstep: after the opening bits of any symbol the decoder is in the block that holds it |
| `BlockSplits.InContextRoundTrip` | src/shared/bitstream.rs:566-579 | a symbol is read with the code its block and context select |
| `BlockEncoders.CountSwitches` | src/shared/bitstream.rs:208-217 | the first pass counts exactly the switch symbols the second pass writes |
| `BlockEncoders.StoredCodesCover` | src/shared/bitstream.rs:219-237 | the codes built from those counts have a word for every switch |
| `BlockEncoders.BlockSplitCode.StoreBlockSwitch` | src/shared/bitstream.rs:175-195 | the bits that open a block are appended and the calculator moves on |
| `BlockEncoders.BuildAndStoreBlockSplitCode` | src/shared/bitstream.rs:201-240 | type count, both codes and the first block length are appended |
| `BlockEncoders.SplitHeaderRoundTrip` | src/shared/bitstream.rs:201-240 | a section 9.2 reader recovers the codes and the starting state |
| `BlockEncoders.BlockEncoder.constructor` | src/shared/bitstream.rs:480-501 | an encoder starts at the first block with nothing coded |
| `BlockEncoders.BlockEncoder.BuildAndStoreBlockSwitchCodes` | src/shared/bitstream.rs:504-511 | the switch codes are stored and the encoder holds them |
| `BlockEncoders.BlockEncoder.BuildAndStoreEntropyCodes` | src/shared/bitstream.rs:516-540 | every description is appended and the flat tables hold one row per histogram |
| `BlockEncoders.CodesRoundTrip` | src/shared/bitstream.rs:528-539 | the descriptions read back as the codes |
| `BlockEncoders.BlockEncoder.AdvanceBlock` | src/shared/bitstream.rs:543-554 | a switch is written exactly when the block has run out, and the table index follows the new type |
| `BlockEncoders.BlockEncoder.StoreSymbol` | src/shared/bitstream.rs:557-563 | the symbol is written with the code of the block that holds it |
| `BlockEncoders.BlockEncoder.StoreSymbolWithContext` | src/shared/bitstream.rs:566-579 | the symbol is written with the code the map gives block and context |
| `ContextMaps.MoveToFront` | src/shared/bitstream.rs:250-254 | rotating a slice moves one entry to the front and keeps the order of the others |
| `ContextMaps.MoveToFrontTransform` | src/shared/bitstream.rs:259-273 | the array algorithm computes the transform from a list cut at the largest value |
| `ContextMaps.TransformRoundTrip` | src/shared/bitstream.rs:259-273 | a decoder that starts from all 256 values undoes it, and no symbol reaches the number of clusters |
| `ContextMaps.FindLongestRun` | src/shared/bitstream.rs:281-294 | the first pass finds the longest run of zeros |
| `ContextMaps.LongestRunExact` | src/shared/bitstream.rs:281-294 | what it finds is the length of some stretch of zeros, and none is longer |
| `ContextMaps.EncodedPrefixExact` | src/shared/bitstream.rs:295-300 | the run-length prefix is the largest up to six whose shortest run some stretch of zeros reaches |
| `ContextMaps.StoreRun` | src/shared/bitstream.rs:319-331 | the words of one run are written below the read index |
| `ContextMaps.RunLengthCodeZeros` | src/shared/bitstream.rs:280-335 | the in-place rewrite leaves the run-length coding of the original vector, and writing never passes reading |
| `ContextMaps.RunLengthRoundTrip` | src/shared/bitstream.rs:280-335 | section 7.3 run-length decoding gives the vector back, and every symbol is below clusters plus prefix |
| `ContextMaps.RunWordsFewest` | src/shared/bitstream.rs:319-331 | no words that stand for as many zeros are fewer than those of a run |
| `ContextMaps.EncodeContextMap` | src/shared/bitstream.rs:358-406 | the bits of a context map are appended |
| `ContextMaps.EncodedContextMapRoundTrip` | src/shared/bitstream.rs:358-406 | a section 7.3 reader recovers every map with entries below its clusters |
| `ContextMaps.StoreTrivialContextMap` | src/shared/bitstream.rs:411-461 | the bits of the trivial map are appended |
| `ContextMaps.TrivialCountsExact` | src/shared/bitstream.rs:425-437 | the counts written down without counting are exactly the symbols written |
| `ContextMaps.TypeRound` | src/shared/bitstream.rs:447-459 | with the list in the shape earlier types left, a type and its run decode to the type over its contexts |
| `ContextMaps.TrivialContextMapRoundTrip` | src/shared/bitstream.rs:411-461 | the trivial map decodes to each type over all of its contexts, for up to 256 types |
| `SymbolStreams.BuildHistograms` | src/shared/bitstream.rs:1040-1061 | the three histograms count exactly the symbols of the items that are stored |
| `SymbolStreams.ItemStreams` | src/shared/bitstream.rs:1088-1110 | the symbols of the stored items, stream by stream, are those the counting pass visits |
| `SymbolStreams.StreamTotals` | src/shared/bitstream.rs:1049-1060 | one literal per inserted byte, one symbol per command, one distance per command that has one |
| `DataWriting.StoreDataWithHuffmanCodes` | src/shared/bitstream.rs:1070-1111 | the items are appended in order, each in the code of its stream |
| `DataWriting.LoneEmit` | src/shared/bitstream.rs:1070-1111 | the simple form writes what the block form writes with one block and one tree per stream |
| `Decoding.SymbolRoundTrip` | src/shared/bitstream.rs:557-579 | for any stream the decoder follows the switch and reads the symbol |
| `Decoding.LiteralsRoundTrip` | src/shared/bitstream.rs:749-769 | inserted literals, with their contexts, read back |
| `Decoding.LengthsRoundTrip` | src/shared/bitstream.rs:746-748 | command symbol and extra bits read back as insert length, copy length and the implied distance |
| `Decoding.ContextOfLength` | src/shared/command.rs:243-251 | the distance context is the one a decoder derives from the copy length |
| `Decoding.DistanceRoundTrip` | src/shared/bitstream.rs:771-789 | distance symbol and extra bits read back, and nothing is read when the distance is implied |
| `Decoding.RepeatsIsCopy` | src/shared/bitstream.rs:770-773 | a text that repeats at a distance is what copying byte by byte produces, overlap included |
| `Decoding.DataRoundTrip` | src/shared/bitstream.rs:742-790 | section 10 of RFC 7932 reads back the text that the commands describe |
| `MetaBlocks.CountedIsWritable` | src/shared/bitstream.rs:723-790 | counted symbols make every item writable with the codes built from the counts |
| `MetaBlocks.DescribedAreFine` | src/shared/command.rs:128-151 | commands that describe a text cover it, a byte or more each, with fields that fit |
| `MetaBlocks.MapRoundTrip` | src/shared/bitstream.rs:688-721 | either form of context map reads back as the map the encoder used |
| `MetaBlocks.DistanceParamsRoundTrip` | src/shared/bitstream.rs:682-683 | NPOSTFIX and NDIRECT read back for all legal parameters |
| `MetaBlocks.BlockHeaderRoundTrip` | src/shared/bitstream.rs:678-740 | a section 9.2 reader recovers all codings, modes, parameters and starting states |
| `StreamDecoding.MetaBlockRoundTrip` | src/shared/bitstream.rs:639-794 | reading a compressed meta-block appends exactly the described bytes and leaves the distance ring as the commands do |
| `MetaBlockWriting.StoreCommands` | src/shared/bitstream.rs:742-790 | with block switches and contexts, the items are appended in order |
| `MetaBlockWriting.StoreBlockHeader` | src/shared/bitstream.rs:659-740 | everything between length and data is appended, and the three encoders are in step |
| `MetaBlockWriting.StoreMetaBlock` | src/shared/bitstream.rs:639-794 | the whole meta-block is appended, padded to a byte when it is last, and is in the bytes of a buffer with headroom |
| `MetaBlockWriting.JobRoundTrip` | src/shared/bitstream.rs:639-794 | what it writes decodes, after any earlier output, to the text |
| `BlockSequences.PieceRoundTrip` | src/shared/bitstream.rs:639-1152 | each kind of meta-block, wherever it starts, takes the decoder from the state before it to the state after it |
| `BlockSequences.BlocksRoundTrip` | src/shared/bitstream.rs:639-1152 | any chain of meta-blocks of all kinds decodes to the whole text and ends on a byte |
| `BlockSequences.StreamRoundTrip` | src/compressor/core/rfc9841/window.rs:78-101 | a window header and any chain of meta-blocks make a stream of whole bytes that decodes to exactly the text |
| `SpreadJobs.SpreadJobIsReady` | src/shared/bitstream.rs:639-658 | for any valid literal split, any context map that fits it, and any bytes there is a meta-block the writer may be called with |
| `SpreadJobs.TwoTypesSpread` | src/shared/bitstream.rs:639-658 | two literal block types with contexts that share codes across them are such a split and map |
| `TrivialWriting.CountedAreCoded` | src/shared/bitstream.rs:1040-1110 | every symbol stored was counted, so the codes built from the counts have a word for it |
| `TrivialWriting.StoreMetaBlockTrivial` | src/shared/bitstream.rs:938-1014 | the whole meta-block is appended, padded to a byte when it is last, and is in the bytes of a buffer with headroom |
| `TrivialWriting.SimpleRoundTrip` | src/shared/bitstream.rs:938-1014 | what it writes decodes, after any earlier output, to the text |
| `TrivialWriting.PlainDataRoundTrip` | src/shared/bitstream.rs:1070-1111 | for any three prefix-free codes, the stored items of commands that describe a text read back as the text |
| `PlainParsing.ParseRoundTrip` | src/shared/bitstream.rs:1070-1111 | for any three prefix-free codes and every command list without dictionary matches whose only zero-length copy is a final insert, a parser that knows the length recovers the literals, insert lengths, copy lengths and distances |
| `PlainParsing.LengthsParse` | src/shared/bitstream.rs:1088-1090 | command symbol and extra bits parse as the lengths, with the distance implied exactly below symbol 128 |
| `TrivialWriting.LiteralJobIsSimple` | src/shared/command.rs:187-200 | every text of a length a meta-block can declare can be stored with one insert-only command |
| `Uncompressed.WindowStretches` | src/shared/bitstream.rs:1130-1144 | the masked window is one stretch of the buffer, or two when it wraps |
| `Uncompressed.StoreUncompressedMetaBlock` | src/shared/bitstream.rs:1117-1152 | header, padding and the masked bytes are appended, and an empty last block when the stream ends; a buffer with headroom holds them |
| `Uncompressed.BlockDecodes` | src/shared/bitstream.rs:1117-1145 | a block that is not final decodes to the bytes the mask selects |
| `Uncompressed.FinalBlockDecodes` | src/shared/bitstream.rs:1147-1151 | a final block decodes to those bytes and ends the stream |
| `StoredStreams.StoredHeaderBits` | mbrotli-ffi/src/core.rs:396-407 | for every length the stored header is the header the bit writer writes, padded to a byte |
| `StoredStreams.StoreStream` | mbrotli-ffi/src/core.rs:364-389 | the stored stream when it fits the destination, an error exactly when it does not |
| `StoredStreams.StoredRoundTrip` | mbrotli-ffi/src/core.rs:364-389 | a stored stream decodes to exactly its input |
| `StoredStreams.StoredWithinBound` | mbrotli-ffi/src/core.rs:489-494 | a stored stream never exceeds the bound |
| `StoredStreams.StoredLength` | mbrotli-ffi/src/core.rs:364-389 | a stored stream is its input, three bytes, and one header for every 16 MiB chunk |
| `StoredStreams.BoundTight` | mbrotli-ffi/src/core.rs:489-494 | inputs of 1 to 16383 bytes meet the bound, and beyond that it is off by at most four bytes in 16 KiB |
| `StoredStreams.EmptyRoundTrip` | mbrotli-ffi/src/core.rs:335-350 | the byte for an empty input decodes to nothing |
| `StoredStreams.ConfigFor` | src/compressor/config.rs:747-754 | every configuration `compress` builds is one that creating the encoder accepts |
| `StoredStreams.Compress` | mbrotli-ffi/src/core.rs:305-331 | with valid arguments the encoder's stream is returned unless it failed or exceeded the bound and the destination holds the bound; then, and only then, the stored stream is, which is within the bound |
| `StoredStreams.CompressedDecodes` | mbrotli-ffi/src/core.rs:305-331 | what it returns decodes to the input whenever the encoder's own output does |
| `SerializedCursor.VarintRoundTrip` | src/shared/decode_serialized.rs:68-78 | a base-128 integer reads back, for every value below two to the sixty-third |
| `SerializedCursor.VarintTooLong` | src/shared/decode_serialized.rs:68-78 | an integer that has not ended after nine bytes is rejected |
| `SerializedCursor.Cursor.constructor` | src/shared/decode_serialized.rs:118-121 | a cursor starts at the first byte |
| `SerializedCursor.Cursor.Take` | src/shared/decode_serialized.rs:46-57 | the next bytes, or an error that leaves the cursor where it was |
| `SerializedCursor.Cursor.Byte` | src/shared/decode_serialized.rs:58-60 | the next byte |
| `SerializedCursor.Cursor.Count` | src/shared/decode_serialized.rs:61-67 | a list length of at most 64 |
| `SerializedCursor.Cursor.ReadVarint` | src/shared/decode_serialized.rs:68-78 | the loop reads the base-128 integer of section 4 of RFC 9841, or rejects |
| `SerializedCursor.Reserve` | src/shared/decode_serialized.rs:81-103 | succeeds exactly within the limit, and adds what was granted |
| `Serialized.ParseWords` | src/shared/decode_serialized.rs:234-248 | succeeds exactly when a word list fits, and lays out its words one length after another |
| `Serialized.LayoutInside` | src/shared/decode_serialized.rs:237-246 | every word of a list that was read is inside what was read |
| `Serialized.ParseStrings` | src/shared/decode_serialized.rs:257-277 | finds the starts of all length-prefixed strings, or rejects |
| `Serialized.CheckTriples` | src/shared/decode_serialized.rs:281-288 | accepts exactly triples that name strings and operations that exist, and says whether one shifts |
| `Serialized.CheckParameters` | src/shared/decode_serialized.rs:292-301 | accepts exactly parameters that are zero wherever no shift needs one |
| `Serialized.ParseTransforms` | src/shared/decode_serialized.rs:252-313 | succeeds exactly when there is a transform list, and lays it out |
| `Serialized.ReadTransformsInside` | src/shared/decode_serialized.rs:252-313 | strings, triples and parameters of a list that was read are inside what was read |
| `SerializedDictionaries.ParseHeader` | src/shared/decode_serialized.rs:122-131 | magic number, prefix length and prefix, or a rejection |
| `SerializedDictionaries.ParseCombinations` | src/shared/decode_serialized.rs:150-157 | accepts exactly combinations of lists that exist |
| `SerializedDictionaries.ParseContexts` | src/shared/decode_serialized.rs:158-169 | an optional map from contexts to combinations that exist |
| `SerializedDictionaries.Parse` | src/shared/decode_serialized.rs:113-177 | succeeds exactly when the source holds a dictionary there is memory for, returns it, and a dictionary with lists is sound |
| `SerializedDictionaries.ViewIsWhole` | src/shared/decode_serialized.rs:315-330 | the strings of a transform are whole, inside the retained source |
| `SerializedDictionaries.WordIsWhole` | src/shared/decode_serialized.rs:209-218 | the word of every place is whole, inside its source |
| `SerializedDictionaries.LocateTotal` | src/shared/decode_serialized.rs:189-229 | exactly the addresses below the total span stand for a place, whose address they are |
| `SerializedDictionaries.LocateInverts` | src/shared/decode_serialized.rs:189-229 | every combination, transform and word has an address below the total span that stands for it |
| `SerializedDictionaries.AddressInOrder` | src/shared/decode_serialized.rs:189-208 | the combination the context map names, or the first without a map, takes the lowest addresses, and the others follow by number |
| `SerializedDictionaries.EveryWordExists` | src/shared/decode_serialized.rs:197-205 | every word of every list a combination names is found under every transform, of its own or the 121 built-in ones |
| `SerializedDictionaries.TurnsExact` | src/shared/decode_serialized.rs:189-194 | the preferred-first order is a permutation of the combinations |
| `SerializedDictionaries.Resolve` | src/shared/decode_serialized.rs:179-230 | for a sound description it finds the word and transform of the address, and rejects every address that has none |
| `SerializedPrinting.PrintParses` | src/shared/decode_serialized.rs:113-177 | every dictionary written as section 5 of RFC 9841 lays it out parses to a description that holds its prefix, words, transforms, combinations and contexts, whatever follows it |
| `SerializedPrinting.PrintedIsFound` | src/shared/decode_serialized.rs:209-226 | the word and transform of any address are the ones that were written |
| `SerializedPrinting.ParsedWithinLimits` | src/shared/decode_serialized.rs:113-177 | whatever parses is within the limits of the format and accounts for every record and byte it keeps |
| `DictionaryPrefixes.Prefixes.constructor` | src/shared/decode_dictionary.rs:21-21 | nothing is attached |
| `DictionaryPrefixes.Prefixes.Attach` | src/shared/decode_dictionary.rs:81-110 | appends one segment exactly when slots, limit and allocator allow it |
| `DictionaryPrefixes.Prefixes.AttachSerialized` | src/shared/decode_dictionary.rs:51-79 | succeeds exactly when the source parses, competes with no live description and its prefix has room at the peak; it appends the prefix, and the new description becomes live, or none when it has no lists |
| `DictionaryPrefixes.Build` | src/shared/decode_dictionary.rs:17-48 | succeeds exactly when every attachment is admitted in turn; the state it reaches reads as the prefixes joined, accounts for every byte and holds both limits |
| `DictionaryPrefixes.RawPrefixesHeld` | src/shared/decode_dictionary.rs:17-48 | raw prefixes are held exactly when there are at most fifteen and together they keep to both limits |
| `DictionaryPrefixes.SecondDictionary` | src/shared/decode_dictionary.rs:51-79 | a second dictionary with lists is refused while one is live, and one without lists ends its life |
| `DictionaryPrefixes.Prefixes.Run` | src/shared/decode_dictionary.rs:125-133 | a nonempty prefix of what follows the offset, and empty past the end |
| `DictionaryPrefixes.WalkRebuilds` | src/shared/decode_dictionary.rs:122-133 | run after run rebuilds the concatenation |

## Left out

- PackedCommands.NewIsPlain: covers commands without a code delta; other deltas are dictionary words, which `PackedCommands.NewIsCoded` covers.
- Decoding.DataRoundTrip: covers commands that copy from the window; copies past it address a dictionary, whose words are fixed data.
- Uncompressed.StoreUncompressedMetaBlock: states the bytes written when the buffer holds the window; a slice that is out of range is skipped, as in the source, and then only the writer invariant is stated.
- StoredStreams.Compress: takes the encoder's result as given; the bytes a failed encoder leaves in the destination are not modelled.
- Extension.CommandExtension.ExtendLastCommand: positions are unbounded and the absorbed length keeps to the copy length's twenty-five bits, which the block size guarantees.
- Histograms.Histogram.Add: counts are unbounded; a meta-block has at most 2^24 symbols, far from the 32 bits of a count.
- `store_meta_block_fast`: the same data writer under the fast builder of prefix codes and, for few commands, static tables whose contents are fixed data.
- Construction of prefix codes and the layout of their descriptions (src/shared/huffman.rs): the builder is a parameter, taken on counts of any size.
- `bits_entropy`, `population_cost` and the cached `bit_cost`: floating-point estimates.
- Choosing block splits, clusters, contexts and matches, ring-buffer upkeep and encoder sessions: quality decisions and thin wrappers around what is modelled.
- Carrying out a dictionary transform, and the contents of the built-in words, transforms and context tables: fixed data.
- `decompress`, pointer checks and panic guards of the C interface: foreign calls.
- `byte`, `set_byte` and retained-size reporting of the writers: single reads and writes.
