/** Whole streams: a header that names the window, then meta-blocks of every kind one after another.
    Whatever the blocks are, the stream decodes to the bytes they stand for, one after another. */
module BlockSequences {
  import opened Bits
  import opened BitWriting
  import opened DataWriting
  import opened Decoding
  import opened Distances
  import opened Headers
  import opened MetaBlocks
  import opened MetaBlockWriting
  import opened PrefixCodes
  import StoredStreams
  import opened StreamDecoding
  import opened SymbolStreams
  import opened TrivialWriting
  import opened Uncompressed

  /** Where a stream stands between two meta-blocks. */
  datatype State = State(dec: Decoder, ring: Ring, text: seq<byte>)

  /** A meta-block that is not the last: compressed with block splitting and contexts, compressed
      with one code per stream, uncompressed, or the empty one that aligns the stream to a byte. */
  datatype Piece = Compressed(job: Job) | Plain(job: Job) | Verbatim(data: seq<byte>) | Sealed

  datatype Ending = LastCompressed(job: Job) | LastPlain(job: Job) | NothingMore

  /** The job goes on from the text and the distance ring of the stream so far. */
  ghost predicate Continues(job: Job, st: State) {
    job.dec == st.dec && job.ring == st.ring && job.history == st.text
  }

  ghost predicate Follows(piece: Piece, st: State) {
    match piece
    case Compressed(job) => job.Ready() && Continues(job, st)
    case Plain(job) => Simple(job) && Continues(job, st)
    case Verbatim(data) => 1 <= |data| <= MAX_MLEN
    case Sealed => true
  }

  function After(piece: Piece, st: State): State {
    match piece
    case Compressed(job) => st.(ring := job.after, text := job.text)
    case Plain(job) => st.(ring := job.after, text := job.text)
    case Verbatim(data) => st.(text := st.text + data)
    case Sealed => st
  }

  ghost predicate Ends(ending: Ending, st: State) {
    match ending
    case LastCompressed(job) => job.Ready() && Continues(job, st)
    case LastPlain(job) => Simple(job) && Continues(job, st)
    case NothingMore => true
  }

  /** Every block goes on where the one before it stopped. */
  ghost predicate Chained(pieces: seq<Piece>, ending: Ending, st: State) {
    if |pieces| == 0 then Ends(ending, st)
    else Follows(pieces[0], st) && Chained(pieces[1..], ending, After(pieces[0], st))
  }

  /** The text once all blocks are decoded. */
  function FinalText(pieces: seq<Piece>, ending: Ending, st: State): seq<byte> {
    if |pieces| > 0 then FinalText(pieces[1..], ending, After(pieces[0], st))
    else
      match ending
      case LastCompressed(job) => job.text
      case LastPlain(job) => job.text
      case NothingMore => st.text
  }

  // ------------------------------------------------------------------------- the bits

  /** The bits of a block that starts at `pos` of the stream. */
  ghost function PieceBits(piece: Piece, st: State, pos: nat): bits
    requires Follows(piece, st)
  {
    match piece
    case Compressed(job) => JobBits(job, false)
    case Plain(job) => SimpleBits(job, false)
    case Verbatim(data) => UncompressedBits(pos, data)
    case Sealed => SealBits() + Zeros(Aligned(pos + 6) - (pos + 6))
  }

  ghost function EndingBits(ending: Ending, st: State): bits
    requires Ends(ending, st)
  {
    match ending
    case LastCompressed(job) => JobBits(job, true)
    case LastPlain(job) => SimpleBits(job, true)
    case NothingMore => LastEmptyBits()
  }

  /** The last block is padded to a byte. */
  ghost function BlocksBits(pieces: seq<Piece>, ending: Ending, st: State, pos: nat): bits
    requires Chained(pieces, ending, st)
    decreases |pieces|
  {
    if |pieces| == 0 then
      var block := EndingBits(ending, st);
      block + Zeros(Aligned(pos + |block|) - (pos + |block|))
    else
      var block := PieceBits(pieces[0], st, pos);
      block + BlocksBits(pieces[1..], ending, After(pieces[0], st), pos + |block|)
  }

  ghost function StreamBits(w: StreamWindow, pieces: seq<Piece>, ending: Ending, st: State): bits
    requires w.Legal() && Chained(pieces, ending, st)
  {
    WindowBits(w) + BlocksBits(pieces, ending, st, |WindowBits(w)|)
  }

  // ------------------------------------------------------------------------ round trip

  lemma JobIsLong(job: Job, last: bool)
    requires job.Ready()
    ensures |JobBits(job, last)| > 0
  {
    hide Job.Ready, BlockHeaderBits, MlenBits;
    JobStarts(job, last);
  }

  lemma JobStarts(job: Job, last: bool)
    requires job.Ready()
    ensures 1 <= |job.text| - |job.history| <= MAX_MLEN
    ensures |JobBits(job, last)| >= |CompressedHeaderBits(last, |job.text| - |job.history|)|
  {
    hide CompressedHeaderBits, BlockHeaderBits, AllCounted, Part.Valid, Describes, ItemsFrom, AllWritable, Emit, Legal,
      DistanceAlphabet, Span, AllSized, AtMode;
    ReadyIsWritable(job);
  }

  lemma SimpleIsLong(job: Job, last: bool)
    requires Simple(job)
    ensures |SimpleBits(job, last)| > 0
  {
    hide Simple, BlockHeaderBits, MlenBits;
    SimpleStarts(job, last);
  }

  lemma SimpleStarts(job: Job, last: bool)
    requires Simple(job)
    ensures 1 <= |job.text| - |job.history| <= MAX_MLEN
    ensures |SimpleBits(job, last)| >= |CompressedHeaderBits(last, |job.text| - |job.history|)|
  {
    hide CompressedHeaderBits, BlockHeaderBits, Part.Valid, Describes, ItemsFrom, AllWritable, Emit, Legal,
      DistanceAlphabet, Span, AllSized, AtMode, SimpleParts, Huffman.Valid, InAlphabets;
    SimpleIsWritable(job);
  }

  /** Each kind of block, wherever it starts, takes the decoder to the next state. */
  lemma PieceRoundTrip(piece: Piece, st: State, pos: nat, rest: bits)
    requires Follows(piece, st)
    ensures |PieceBits(piece, st, pos)| > 0
    ensures ReadMetaBlock(st.dec, pos, st.ring, st.text, PieceBits(piece, st, pos) + rest)
         == Got(Decoded(false, After(piece, st).ring, After(piece, st).text), rest)
  {
    hide Job.Ready, Simple, JobBits, SimpleBits, ReadMetaBlock, Aligned, UncompressedBits, SealBits;
    match piece
    case Compressed(job) =>
      JobIsLong(job, false);
      JobRoundTrip(job, false, pos, rest);
    case Plain(job) =>
      SimpleIsLong(job, false);
      SimpleRoundTrip(job, false, pos, rest);
    case Verbatim(data) =>
      BlockIsLong(pos, data);
      UncompressedRoundTrip(st.dec, pos, st.ring, st.text, data, rest);
    case Sealed =>
      StoredStreams.SealLength();
      var padding := Zeros(Aligned(pos + 6) - (pos + 6));
      assert SealBits() + padding + rest == SealBits() + (padding + rest);
      SealRoundTrip(st.dec, pos, st.ring, st.text, rest);
  }

  lemma EndingRoundTrip(ending: Ending, st: State, pos: nat, rest: bits)
    requires Ends(ending, st)
    ensures |EndingBits(ending, st)| > 0
    ensures var r := ReadMetaBlock(st.dec, pos, st.ring, st.text, EndingBits(ending, st) + rest);
            r.Got? && r.value.last && r.value.out == FinalText([], ending, st) && r.rest == rest
  {
    hide Job.Ready, Simple, JobBits, SimpleBits, ReadMetaBlock, LastEmptyBits;
    match ending
    case LastCompressed(job) =>
      JobIsLong(job, true);
      JobRoundTrip(job, true, pos, rest);
    case LastPlain(job) =>
      SimpleIsLong(job, true);
      SimpleRoundTrip(job, true, pos, rest);
    case NothingMore =>
      TwoBits();
      EmptyBlockRoundTrip(st.dec, pos, st.ring, st.text, rest);
  }

  /** Every chain of blocks decodes: reading meta-blocks until the last gives the whole text, and
      stops at a byte boundary. */
  lemma {:induction false} BlocksRoundTrip(pieces: seq<Piece>, ending: Ending, st: State, pos: nat, rest: bits)
    requires Chained(pieces, ending, st)
    ensures ReadMetaBlocks(st.dec, pos, st.ring, st.text, BlocksBits(pieces, ending, st, pos) + rest)
         == Got(FinalText(pieces, ending, st), rest)
    ensures (pos + |BlocksBits(pieces, ending, st, pos)|) % 8 == 0
    decreases |pieces|
  {
    hide ReadMetaBlock, ReadMetaBlocks, Aligned, PieceBits, EndingBits, Follows, Ends;
    if |pieces| == 0 {
      var block := EndingBits(ending, st);
      var padding := Zeros(Aligned(pos + |block|) - (pos + |block|));
      EndingRoundTrip(ending, st, pos, padding + rest);
      var r := ReadMetaBlock(st.dec, pos, st.ring, st.text, block + (padding + rest));
      StreamEnds(st.dec, pos, st.ring, st.text, block, rest, r.value.ring, r.value.out);
      assert BlocksBits(pieces, ending, st, pos) + rest == block + (padding + rest);
    } else {
      var next := After(pieces[0], st);
      var block := PieceBits(pieces[0], st, pos);
      var tail := BlocksBits(pieces[1..], ending, next, pos + |block|) + rest;
      PieceRoundTrip(pieces[0], st, pos, tail);
      StreamContinues(st.dec, pos, st.ring, st.text, block, tail, next.ring, next.text);
      BlocksRoundTrip(pieces[1..], ending, next, pos + |block|, rest);
      assert BlocksBits(pieces, ending, st, pos) + rest == block + tail;
    }
  }

  /** A whole stream of whole bytes: any window, any chain of blocks. */
  lemma StreamRoundTrip(h: Huffman, contexts: ModeContext, w: StreamWindow, pieces: seq<Piece>, ending: Ending)
    requires w.Legal() && Chained(pieces, ending, State(DecoderOf(h, contexts, w), FIRST_RING, []))
    ensures var st := State(DecoderOf(h, contexts, w), FIRST_RING, []);
            && ReadStream(h, contexts, StreamBits(w, pieces, ending, st)) == Got(FinalText(pieces, ending, st), [])
            && |StreamBits(w, pieces, ending, st)| % 8 == 0
  {
    hide ReadMetaBlocks, BlocksBits, Chained, FinalText, DecoderOf, WindowBits, ReadWindow;
    var st := State(DecoderOf(h, contexts, w), FIRST_RING, []);
    var header := WindowBits(w);
    var blocks := BlocksBits(pieces, ending, st, |header|);
    WindowRoundTrip(w, blocks);
    BlocksRoundTrip(pieces, ending, st, |header|, []);
    assert blocks + [] == blocks;
  }
}
