/** Writing serialized dictionaries, as section 5 of RFC 9841 lays them out, and the proof that the
    parser of src/shared/decode_serialized.rs gives back what was written. */
module SerializedPrinting {
  import opened Bits
  import opened Serialized
  import opened SerializedCursor
  import opened SerializedDictionaries

  // --------------------------------------------------------------------- pieces of a source

  /** The source holds `piece` from `at` on. */
  predicate At(source: seq<byte>, at: nat, piece: seq<byte>) {
    at + |piece| <= |source| && source[at..at + |piece|] == piece
  }

  lemma AtParts(source: seq<byte>, at: nat, a: seq<byte>, b: seq<byte>)
    ensures At(source, at, a + b) <==> At(source, at, a) && At(source, at + |a|, b)
  {
    if at + |a| + |b| <= |source| {
      assert source[at..at + |a| + |b|] == source[at..at + |a|] + source[at + |a|..at + |a| + |b|];
      if source[at..at + |a + b|] == a + b {
        assert source[at..at + |a|] == (a + b)[..|a|] == a;
        assert source[at + |a|..at + |a| + |b|] == (a + b)[|a|..] == b;
      }
    }
  }

  lemma AtIndex(source: seq<byte>, at: nat, piece: seq<byte>, i: nat)
    requires At(source, at, piece) && i < |piece|
    ensures source[at + i] == piece[i]
  {
    assert source[at..at + |piece|][i] == piece[i];
  }

  /** A piece of what comes first in a longer source. */
  lemma AtFront(source: seq<byte>, n: nat, at: nat, piece: seq<byte>)
    requires n <= |source| && at + |piece| <= n
    ensures At(source[..n], at, piece) <==> At(source, at, piece)
  {
    assert source[..n][at..at + |piece|] == source[at..at + |piece|];
  }

  // --------------------------------------------------------------------------- word lists

  /** Words by length, from four on: none, or two to the size of them. */
  datatype WordList = WordList(sizes: seq<byte>, words: seq<seq<seq<byte>>>) {
    predicate Valid() {
      && |sizes| == |words| == 28
      && forall k :: 0 <= k < 28 ==>
                       && sizes[k] <= 15 && |words[k]| == (if sizes[k] == 0 then 0 else Pow2(sizes[k]))
                       && forall i :: 0 <= i < |words[k]| ==> |words[k][i]| == k + 4
    }
  }

  function Joined(words: seq<seq<byte>>): seq<byte> {
    if |words| == 0 then [] else words[0] + Joined(words[1..])
  }

  function AllJoined(words: seq<seq<seq<byte>>>, k: nat): seq<byte>
    decreases |words| - k
  {
    if k >= |words| then [] else Joined(words[k]) + AllJoined(words, k + 1)
  }

  function PrintWords(w: WordList): seq<byte> { w.sizes + AllJoined(w.words, 0) }

  lemma {:induction false} JoinedLength(words: seq<seq<byte>>, n: nat)
    requires forall i :: 0 <= i < |words| ==> |words[i]| == n
    ensures |Joined(words)| == n * |words|
  {
    if |words| > 0 {
      JoinedLength(words[1..], n);
      assert n * |words| == n * (|words| - 1) + n;
    }
  }

  /** Each word of a list is where its number says. */
  lemma {:induction false} JoinedWord(source: seq<byte>, at: nat, words: seq<seq<byte>>, n: nat, i: nat)
    requires At(source, at, Joined(words)) && i < |words| && forall j :: 0 <= j < |words| ==> |words[j]| == n
    ensures At(source, at + i * n, words[i])
    decreases i
  {
    AtParts(source, at, words[0], Joined(words[1..]));
    if i > 0 {
      JoinedWord(source, at + n, words[1..], n, i - 1);
      assert i * n == (i - 1) * n + n;
    }
  }

  /** Where the words of each length start, and what is there. */
  lemma {:induction false} WordsReach(source: seq<byte>, at: nat, w: WordList, k: nat)
    requires w.Valid() && At(source, at, PrintWords(w)) && k <= 28
    ensures at + 28 <= |source| && SizesAt(source, at) == [0, 0, 0, 0] + w.sizes
    ensures var here := WordOffset(SizesAt(source, at), at + 28, k + 4);
            At(source, here, AllJoined(w.words, k)) && here + |AllJoined(w.words, k)| == at + |PrintWords(w)|
    decreases k
  {
    hide Shl, WordCount, At;
    AtParts(source, at, w.sizes, AllJoined(w.words, 0));
    SizesRead(source, at, w.sizes);
    if k > 0 {
      WordsReach(source, at, w, k - 1);
      var before := WordOffset(SizesAt(source, at), at + 28, k + 3);
      AtParts(source, before, Joined(w.words[k - 1]), AllJoined(w.words, k));
      JoinedLength(w.words[k - 1], k + 3);
      BytesOfLength(w, k - 1);
    }
  }

  lemma SizesRead(source: seq<byte>, at: nat, sizes: seq<byte>)
    requires |sizes| == 28 && At(source, at, sizes)
    ensures at + 28 <= |source| && SizesAt(source, at) == [0, 0, 0, 0] + sizes
  {
  }

  lemma BytesOfLength(w: WordList, k: nat)
    requires w.Valid() && k < 28
    ensures WordBytes(k + 4, w.sizes[k]) == (k + 4) * |w.words[k]|
  {
    hide Shl, Pow2;
    ShlTimes(k + 4, w.sizes[k]);
  }

  /** A word list that was written is read as one, and every word is found in it. */
  lemma WordsRead(source: seq<byte>, at: nat, w: WordList)
    requires w.Valid() && At(source, at, PrintWords(w))
    ensures WordsFit(source, at)
    ensures WordOffset(SizesAt(source, at), at + 28, 32) == at + |PrintWords(w)|
    ensures LayoutAt(source, at).sizeBits == [0, 0, 0, 0] + w.sizes
    ensures forall k, i :: 0 <= k < 28 && 0 <= i < |w.words[k]| ==>
                             WordBytesAt(LayoutAt(source, at), source, k + 4, i) == w.words[k][i]
  {
    hide Shl, WordCount, At, WordOffset, WordBytesAt, PrintWords;
    WordsReach(source, at, w, 28);
    SourceReaches(source, at, w);
    forall k, i | 0 <= k < 28 && 0 <= i < |w.words[k]|
      ensures WordBytesAt(LayoutAt(source, at), source, k + 4, i) == w.words[k][i]
    {
      WordRead(source, at, w, k, i);
    }
  }

  lemma SourceReaches(source: seq<byte>, at: nat, w: WordList)
    requires At(source, at, PrintWords(w))
    ensures at + |PrintWords(w)| <= |source|
  {
  }

  lemma WordRead(source: seq<byte>, at: nat, w: WordList, k: nat, i: nat)
    requires w.Valid() && At(source, at, PrintWords(w)) && k < 28 && i < |w.words[k]|
    ensures at + 28 <= |source| && WordBytesAt(LayoutAt(source, at), source, k + 4, i) == w.words[k][i]
  {
    hide Shl, WordCount, WordOffset, PrintWords;
    WordsReach(source, at, w, k);
    var here := WordOffset(SizesAt(source, at), at + 28, k + 4);
    AtParts(source, here, Joined(w.words[k]), AllJoined(w.words, k + 1));
    JoinedWord(source, here, w.words[k], k + 4, i);
  }

  // ---------------------------------------------------------------------- transform lists

  /** A transform by the numbers of its strings. */
  datatype RawTransform = RawTransform(prefix: byte, operation: byte, suffix: byte, parameter: nat)

  /** Strings that are not empty, with the empty one behind them, and transforms. */
  datatype TransformList = TransformList(strings: seq<seq<byte>>, transforms: seq<RawTransform>) {
    predicate Valid() {
      && |strings| < 256 && |PrintStrings(strings)| < 0x1_0000 && |transforms| < 256
      && (forall i :: 0 <= i < |strings| ==> 0 < |strings[i]| < 256)
      && forall i :: 0 <= i < |transforms| ==>
                       && transforms[i].prefix as nat <= |strings| && transforms[i].suffix as nat <= |strings|
                       && transforms[i].operation <= 22 && transforms[i].parameter < 0x1_0000
                       && (transforms[i].operation < 21 ==> transforms[i].parameter == 0)
    }

    function Text(i: nat): seq<byte> { if i < |strings| then strings[i] else [] }

    function Nth(i: nat): Transform
      requires i < |transforms|
    {
      var t := transforms[i];
      Transform(Text(t.prefix), t.operation, Text(t.suffix), t.parameter)
    }

    ghost predicate Shifting() { exists i :: 0 <= i < |transforms| && transforms[i].operation >= 21 }
  }

  function PrintStrings(strings: seq<seq<byte>>): seq<byte> {
    if |strings| == 0 then [0]
    else [if |strings[0]| < 256 then |strings[0]| else 255] + strings[0] + PrintStrings(strings[1..])
  }

  /** Three bytes for every transform. */
  function PrintTriples(ts: seq<RawTransform>): seq<byte> {
    seq(3 * |ts|, j requires 0 <= j < 3 * |ts| =>
      if j % 3 == 0 then ts[j / 3].prefix else if j % 3 == 1 then ts[j / 3].operation else ts[j / 3].suffix)
  }

  /** Two bytes for every parameter, the low one first. */
  function PrintParameters(ts: seq<RawTransform>): seq<byte> {
    seq(2 * |ts|, j requires 0 <= j < 2 * |ts| =>
      if j % 2 == 0 then ts[j / 2].parameter % 256 else ts[j / 2].parameter / 256 % 256)
  }

  ghost function PrintTransforms(t: TransformList): seq<byte>
    requires t.Valid()
  {
    var block := PrintStrings(t.strings);
    [|block| % 256, |block| / 256] + (block + ([|t.transforms|] + (PrintTriples(t.transforms)
      + if t.Shifting() then PrintParameters(t.transforms) else [])))
  }

  /** Where each string of a block starts. */
  function Starts(strings: seq<seq<byte>>, position: nat): (r: seq<nat>)
    ensures |r| == |strings| + 1
  {
    if |strings| == 0 then [position] else [position] + Starts(strings[1..], position + 1 + |strings[0]|)
  }

  lemma {:induction false} StringsRead(block: seq<byte>, position: nat, found: nat, strings: seq<seq<byte>>)
    requires At(block, position, PrintStrings(strings)) && position + |PrintStrings(strings)| == |block|
    requires found + |strings| < MAX_STRINGS && forall i :: 0 <= i < |strings| ==> 0 < |strings[i]| < 256
    ensures Strings(block, position, found) == Some(Starts(strings, position))
    decreases |strings|
  {
    hide At;
    if |strings| == 0 {
      AtByte(block, position, [0]);
    } else {
      var s := strings[0];
      AtParts(block, position, [|s|] + s, PrintStrings(strings[1..]));
      AtParts(block, position, [|s|], s);
      AtByte(block, position, [|s|]);
      StringsRead(block, position + 1 + |s|, found + 1, strings[1..]);
    }
  }

  lemma AtByte(source: seq<byte>, at: nat, piece: seq<byte>)
    requires At(source, at, piece) && |piece| > 0
    ensures at < |source| && source[at] == piece[0]
  {
    AtIndex(source, at, piece, 0);
  }

  /** Each string is found where it starts, and behind them all the empty one. */
  lemma {:induction false} StringRead(source: seq<byte>, base: nat, position: nat, strings: seq<seq<byte>>, i: nat)
    requires At(source, base + position, PrintStrings(strings)) && i <= |strings|
    requires forall i :: 0 <= i < |strings| ==> 0 < |strings[i]| < 256
    ensures StringAt(source, base + Starts(strings, position)[i]) == if i < |strings| then strings[i] else []
    decreases |strings|
  {
    hide At, StringAt;
    if |strings| == 0 {
      EmptyHere(source, base + position);
    } else {
      var s := strings[0];
      AtParts(source, base + position, [|s|] + s, PrintStrings(strings[1..]));
      AtParts(source, base + position, [|s|], s);
      AtByte(source, base + position, [|s|]);
      if i == 0 {
        StringHere(source, base + position, s);
      } else {
        StringRead(source, base, position + 1 + |s|, strings[1..], i - 1);
      }
    }
  }

  lemma EmptyHere(source: seq<byte>, at: nat)
    requires At(source, at, [0])
    ensures StringAt(source, at) == []
  {
    AtByte(source, at, [0]);
  }

  lemma StringHere(source: seq<byte>, at: nat, s: seq<byte>)
    requires at < |source| && source[at] == |s| && At(source, at + 1, s)
    ensures StringAt(source, at) == s
  {
  }

  /** The parts of a transform list, one behind the other. */
  ghost predicate ListParts(source: seq<byte>, at: nat, t: TransformList)
    requires t.Valid()
  {
    var size, n := |PrintStrings(t.strings)|, |t.transforms|;
    && At(source, at, [size % 256, size / 256]) && At(source, at + 2, PrintStrings(t.strings))
    && At(source, at + 2 + size, [n]) && At(source, at + 3 + size, PrintTriples(t.transforms))
    && (t.Shifting() ==> At(source, at + 3 + size + 3 * n, PrintParameters(t.transforms)))
    && |PrintTransforms(t)| == 3 + size + 3 * n + if t.Shifting() then 2 * n else 0
  }

  lemma TransformParts(source: seq<byte>, at: nat, t: TransformList)
    requires t.Valid() && At(source, at, PrintTransforms(t))
    ensures ListParts(source, at, t)
  {
    hide At, PrintStrings, PrintTriples, PrintParameters, TransformList.Shifting;
    var block, n := PrintStrings(t.strings), |t.transforms|;
    var parameters := if t.Shifting() then PrintParameters(t.transforms) else [];
    var triples := PrintTriples(t.transforms) + parameters;
    AtParts(source, at, [|block| % 256, |block| / 256], block + ([n] + triples));
    AtParts(source, at + 2, block, [n] + triples);
    AtParts(source, at + 2 + |block|, [n], triples);
    AtParts(source, at + 3 + |block|, PrintTriples(t.transforms), parameters);
    TripleLength(t.transforms);
  }

  lemma TripleLength(ts: seq<RawTransform>)
    ensures |PrintTriples(ts)| == 3 * |ts| && |PrintParameters(ts)| == 2 * |ts|
  {
  }

  /** The bytes of one triple, and of one parameter. */
  lemma TripleRead(source: seq<byte>, at: nat, ts: seq<RawTransform>, i: nat)
    requires At(source, at, PrintTriples(ts)) && i < |ts|
    ensures at + 3 * i + 3 <= |source|
    ensures source[at + 3 * i] == ts[i].prefix && source[at + 3 * i + 1] == ts[i].operation
            && source[at + 3 * i + 2] == ts[i].suffix
  {
    AtIndex(source, at, PrintTriples(ts), 3 * i);
    AtIndex(source, at, PrintTriples(ts), 3 * i + 1);
    AtIndex(source, at, PrintTriples(ts), 3 * i + 2);
  }

  lemma ParameterRead(source: seq<byte>, at: nat, ts: seq<RawTransform>, i: nat)
    requires At(source, at, PrintParameters(ts)) && i < |ts| && ts[i].parameter < 0x1_0000
    ensures at + 2 * i + 2 <= |source|
    ensures source[at + 2 * i] as nat == ts[i].parameter % 256 && source[at + 2 * i + 1] as nat == ts[i].parameter / 256
    ensures LittleWord(source[at + 2 * i], source[at + 2 * i + 1]) == ts[i].parameter
  {
    AtIndex(source, at, PrintParameters(ts), 2 * i);
    AtIndex(source, at, PrintParameters(ts), 2 * i + 1);
  }

  /** What the triples and parameters of a list that was written come to. */
  lemma TriplesRead(source: seq<byte>, at: nat, t: TransformList)
    requires t.Valid() && ListParts(source, at, t)
    ensures var strings, size, n := at + 2, |PrintStrings(t.strings)|, |t.transforms|;
            var triples := strings + size + 1;
            TriplesAt(source, strings, Starts(t.strings, 0), n, triples)
            == Some((TransformLayout(strings, Starts(t.strings, 0), triples, n,
                                     if t.Shifting() then Some(triples + 3 * n) else None), at + |PrintTransforms(t)|))
  {
    hide At, PrintStrings, PrintTriples, PrintParameters, PrintTransforms, Starts;
    var n, strings, triples := |t.transforms|, |t.strings| + 1, at + 3 + |PrintStrings(t.strings)|;
    var parameters := triples + 3 * n;
    TripleLength(t.transforms);
    PieceEnds(source, triples, PrintTriples(t.transforms));
    forall i | 0 <= i < n
      ensures TripleFits(source, triples, i, strings)
    {
      TripleRead(source, triples, t.transforms, i);
    }
    ShiftsRead(source, triples, t);
    if t.Shifting() {
      PieceEnds(source, parameters, PrintParameters(t.transforms));
      forall i | 0 <= i < n
        ensures ParameterFits(source, triples, parameters, i)
      {
        TripleRead(source, triples, t.transforms, i);
        ParameterRead(source, parameters, t.transforms, i);
      }
    }
  }

  lemma ShiftsRead(source: seq<byte>, triples: nat, t: TransformList)
    requires At(source, triples, PrintTriples(t.transforms))
    ensures AnyShift(source, triples, |t.transforms|) <==> t.Shifting()
  {
    hide At, PrintTriples;
    if AnyShift(source, triples, |t.transforms|) {
      var i :| 0 <= i < |t.transforms| && Shifts(source, triples, i);
      TripleRead(source, triples, t.transforms, i);
    }
    if t.Shifting() {
      var i :| 0 <= i < |t.transforms| && t.transforms[i].operation >= FIRST_SHIFT;
      TripleRead(source, triples, t.transforms, i);
      assert Shifts(source, triples, i);
    }
  }

  lemma PieceEnds(source: seq<byte>, at: nat, piece: seq<byte>)
    requires At(source, at, piece)
    ensures at + |piece| <= |source|
  {
  }

  /** A transform list that was written is read as one. */
  lemma TransformsRead(source: seq<byte>, at: nat, t: TransformList)
    requires t.Valid() && At(source, at, PrintTransforms(t))
    ensures TransformsAt(source, at).Some? && TransformsAt(source, at).value.1 == at + |PrintTransforms(t)|
    ensures TransformsAt(source, at).value.0.count == |t.transforms|
    ensures ListParts(source, at, t)
    ensures var layout := TransformsAt(source, at).value.0;
            && layout.strings == at + 2 && layout.offsets == Starts(t.strings, 0)
            && layout.triples == at + 3 + |PrintStrings(t.strings)|
            && layout.params == if t.Shifting() then Some(layout.triples + 3 * |t.transforms|) else None
  {
    hide PrintStrings, PrintTriples, PrintParameters, PrintTransforms, Starts, Strings, TriplesAt,
      TransformList.Shifting;
    TransformParts(source, at, t);
    var block := PrintStrings(t.strings);
    AtIndex(source, at, [|block| % 256, |block| / 256], 0);
    AtIndex(source, at, [|block| % 256, |block| / 256], 1);
    AtByte(source, at + 2 + |block|, [|t.transforms|]);
    WholeBlock(source, at + 2, block);
    StringsRead(block, 0, 0, t.strings);
    TriplesRead(source, at, t);
  }

  lemma WholeBlock(source: seq<byte>, at: nat, block: seq<byte>)
    requires At(source, at, block)
    ensures at + |block| <= |source| && source[at..at + |block|] == block && At(block, 0, block)
  {
    assert block[0..|block|] == block;
  }

  /** Every transform of a list that was written is the one viewed. */
  lemma ViewRead(source: seq<byte>, at: nat, t: TransformList, n: nat, i: nat)
    requires t.Valid() && At(source, at, PrintTransforms(t)) && at + |PrintTransforms(t)| <= n <= |source|
    requires i < |t.transforms|
    ensures TransformsAt(source, at).Some?
    ensures var layout := TransformsAt(source, at).value.0;
            TransformsInside(layout, source[..n]) && i < layout.count && View(layout, source[..n], i) == t.Nth(i)
  {
    hide PrintStrings, PrintTriples, PrintParameters, PrintTransforms, Starts, TransformsInside, At, StringAt,
      ListParts, View, TransformList.Shifting, TransformsAt;
    TransformsRead(source, at, t);
    ReadTransformsInside(source, at, n);
    AtFront(source, n, at, PrintTransforms(t));
    TransformParts(source[..n], at, t);
    FieldsViewed(source[..n], at, t, TransformsAt(source, at).value.0, i);
  }

  lemma FieldsViewed(source: seq<byte>, at: nat, t: TransformList, layout: TransformLayout, i: nat)
    requires t.Valid() && ListParts(source, at, t) && TransformsInside(layout, source)
    requires i < |t.transforms| == layout.count
    requires layout.strings == at + 2 && layout.offsets == Starts(t.strings, 0)
    requires layout.triples == at + 3 + |PrintStrings(t.strings)|
    requires layout.params == if t.Shifting() then Some(layout.triples + 3 * |t.transforms|) else None
    ensures View(layout, source, i) == t.Nth(i)
  {
    hide PrintStrings, PrintTriples, PrintParameters, PrintTransforms, Starts, TransformsInside, At, StringAt;
    var raw := t.transforms[i];
    TripleRead(source, layout.triples, t.transforms, i);
    StringRead(source, at + 2, 0, t.strings, raw.prefix);
    StringRead(source, at + 2, 0, t.strings, raw.suffix);
    TripleInside(layout, source, i);
    if t.Shifting() { ParameterRead(source, layout.params.value, t.transforms, i); } else { NoShift(t, i); }
  }

  lemma NoShift(t: TransformList, i: nat)
    requires t.Valid() && !t.Shifting() && i < |t.transforms|
    ensures t.transforms[i].parameter == 0
  {
    hide PrintStrings;
  }

  // ------------------------------------------------------------------ whole dictionaries

  /** A dictionary to be written: a prefix, lists, combinations of them, and which combination each
      context prefers. */
  datatype Dictionary = Dictionary(prefix: seq<byte>, words: seq<WordList>, transforms: seq<TransformList>,
                                   combinations: seq<(byte, byte)>, contexts: Option<seq<byte>>) {
    predicate Custom() { |words| > 0 || |transforms| > 0 }

    ghost predicate Valid() {
      && |prefix| <= Pow2(62) - 16 && |words| <= 64 && |transforms| <= 64
      && (forall i :: 0 <= i < |words| ==> words[i].Valid())
      && (forall i :: 0 <= i < |transforms| ==> transforms[i].Valid())
      && (Custom() ==>
            && 0 < |combinations| <= 64
            && (forall c :: 0 <= c < |combinations| ==>
                              combinations[c].0 as nat <= |words| && combinations[c].1 as nat <= |transforms|)
            && (contexts.Some? ==>
                  |contexts.value| == 64 && forall i :: 0 <= i < 64 ==> contexts.value[i] as nat < |combinations|))
    }
  }

  function PrintWordLists(words: seq<WordList>): seq<byte> {
    if |words| == 0 then [] else PrintWordLists(words[..|words| - 1]) + PrintWords(words[|words| - 1])
  }

  ghost function PrintTransformLists(ts: seq<TransformList>): seq<byte>
    requires forall i :: 0 <= i < |ts| ==> ts[i].Valid()
  {
    if |ts| == 0 then [] else PrintTransformLists(ts[..|ts| - 1]) + PrintTransforms(ts[|ts| - 1])
  }

  function PrintCombinations(cs: seq<(byte, byte)>): seq<byte> {
    seq(2 * |cs|, j requires 0 <= j < 2 * |cs| => if j % 2 == 0 then cs[j / 2].0 else cs[j / 2].1)
  }

  function PrintContexts(contexts: Option<seq<byte>>): seq<byte> {
    match contexts
    case None => [0]
    case Some(m) => [1] + m
  }

  ghost function PrintHeader(d: Dictionary): seq<byte> {
    [0x91, 0] + (EncodeVarint(|d.prefix|) + d.prefix)
  }

  ghost function PrintLists(d: Dictionary): seq<byte>
    requires d.Valid()
  {
    [|d.words|] + (PrintWordLists(d.words) + ([|d.transforms|] + PrintTransformLists(d.transforms)))
  }

  ghost function PrintCustom(d: Dictionary): seq<byte>
    requires d.Valid() && d.Custom()
  {
    [|d.combinations|] + (PrintCombinations(d.combinations) + PrintContexts(d.contexts))
  }

  ghost function Print(d: Dictionary): seq<byte>
    requires d.Valid()
  {
    PrintHeader(d) + (PrintLists(d) + if d.Custom() then PrintCustom(d) else [])
  }

  /** What has been read of word lists holds the words that were written. */
  ghost predicate HoldsWords(source: seq<byte>, layouts: seq<WordLayout>, words: seq<WordList>) {
    && |layouts| == |words|
    && forall i :: 0 <= i < |words| ==> HoldsList(source, layouts[i], words[i])
  }

  ghost predicate HoldsList(source: seq<byte>, layout: WordLayout, w: WordList) {
    && w.Valid() && layout.sizeBits == [0, 0, 0, 0] + w.sizes
    && forall k, i :: 0 <= k < 28 && 0 <= i < |w.words[k]| ==> WordBytesAt(layout, source, k + 4, i) == w.words[k][i]
  }

  lemma {:induction false} WordListsRead(source: seq<byte>, at: nat, words: seq<WordList>)
    requires (forall i :: 0 <= i < |words| ==> words[i].Valid()) && At(source, at, PrintWordLists(words))
    ensures WordLists(source, at, |words|).Some?
    ensures WordLists(source, at, |words|).value.1 == at + |PrintWordLists(words)|
    ensures HoldsWords(source, WordLists(source, at, |words|).value.0, words)
    decreases |words|
  {
    hide At, PrintWords, WordsFit, LayoutAt, WordOffset, SizesAt, WordList.Valid, WordBytesAt;
    if |words| > 0 {
      var n := |words| - 1;
      AtParts(source, at, PrintWordLists(words[..n]), PrintWords(words[n]));
      WordListsRead(source, at, words[..n]);
      var here := at + |PrintWordLists(words[..n])|;
      WordsRead(source, here, words[n]);
      FitsIn(source, here);
      var layouts := WordLists(source, at, n).value.0;
      forall i | 0 <= i < |words|
        ensures HoldsList(source, (layouts + [LayoutAt(source, here)])[i], words[i])
      {
        if i < n { assert words[..n][i] == words[i]; }
      }
    }
  }

  lemma FitsIn(source: seq<byte>, at: nat)
    requires WordsFit(source, at)
    ensures at + 28 <= |source|
  {
  }

  /** What has been read of transform lists holds the transforms that were written. */
  ghost predicate HoldsTransforms(source: seq<byte>, layouts: seq<TransformLayout>, ts: seq<TransformList>) {
    && |layouts| == |ts|
    && forall i :: 0 <= i < |ts| ==> HoldsViews(source, layouts[i], ts[i])
  }

  ghost predicate HoldsViews(source: seq<byte>, layout: TransformLayout, t: TransformList) {
    && TransformsInside(layout, source) && layout.count == |t.transforms|
    && forall i :: 0 <= i < |t.transforms| ==> View(layout, source, i) == t.Nth(i)
  }

  lemma {:induction false} TransformListsRead(source: seq<byte>, at: nat, ts: seq<TransformList>, m: nat)
    requires (forall i :: 0 <= i < |ts| ==> ts[i].Valid()) && At(source, at, PrintTransformLists(ts))
    requires at + |PrintTransformLists(ts)| <= m <= |source|
    ensures TransformLists(source, at, |ts|).Some?
    ensures TransformLists(source, at, |ts|).value.1 == at + |PrintTransformLists(ts)|
    ensures HoldsTransforms(source[..m], TransformLists(source, at, |ts|).value.0, ts)
    decreases |ts|
  {
    hide At, PrintTransforms, TransformsAt, TransformsInside, TransformList.Valid, View, TransformList.Nth, ListParts;
    if |ts| > 0 {
      var n := |ts| - 1;
      AtParts(source, at, PrintTransformLists(ts[..n]), PrintTransforms(ts[n]));
      TransformListsRead(source, at, ts[..n], m);
      var here := at + |PrintTransformLists(ts[..n])|;
      TransformsRead(source, here, ts[n]);
      ListViewed(source, here, ts[n], m);
      var layouts := TransformLists(source, at, n).value.0;
      forall i | 0 <= i < |ts|
        ensures HoldsViews(source[..m], (layouts + [TransformsAt(source, here).value.0])[i], ts[i])
      {
        if i < n { assert ts[..n][i] == ts[i]; }
      }
    }
  }

  lemma ListViewed(source: seq<byte>, at: nat, t: TransformList, m: nat)
    requires t.Valid() && At(source, at, PrintTransforms(t)) && at + |PrintTransforms(t)| <= m <= |source|
    ensures TransformsAt(source, at).Some? && HoldsViews(source[..m], TransformsAt(source, at).value.0, t)
  {
    hide At, PrintTransforms, TransformsAt, TransformsInside, TransformList.Valid, View, TransformList.Nth, ListParts;
    TransformsRead(source, at, t);
    ReadTransformsInside(source, at, m);
    forall i | 0 <= i < |t.transforms|
      ensures View(TransformsAt(source, at).value.0, source[..m], i) == t.Nth(i)
    {
      ViewRead(source, at, t, m, i);
    }
  }

  lemma HeaderRead(source: seq<byte>, d: Dictionary)
    requires d.Valid() && At(source, 0, PrintHeader(d))
    ensures HeaderAt(source).Some?
    ensures var (from, to) := HeaderAt(source).value;
            from <= to <= |source| && to == |PrintHeader(d)| && source[from..to] == d.prefix
  {
    hide Pow2, Varint, EncodeVarint, Dictionary.Valid;
    PrefixFits(d);
    var length := EncodeVarint(|d.prefix|);
    AtParts(source, 0, [0x91, 0], length + d.prefix);
    AtParts(source, 2, length, d.prefix);
    assert source[2..] == length + source[2 + |length|..];
    VarintRoundTrip(|d.prefix|, MAX_VARINT_BYTES, source[2 + |length|..]);
  }

  lemma PrefixFits(d: Dictionary)
    requires d.Valid()
    ensures |d.prefix| <= Pow2(62) - 16 && |d.prefix| < Pow2(7 * MAX_VARINT_BYTES)
  {
    hide Pow2;
    Pow2Monotone(62, 63);
  }

  lemma ListsRead(source: seq<byte>, at: nat, d: Dictionary, m: nat)
    requires d.Valid() && At(source, at, PrintLists(d)) && at + |PrintLists(d)| <= m <= |source|
    ensures ListsAt(source, at).Some?
    ensures var l := ListsAt(source, at).value;
            && l.end == at + |PrintLists(d)| && |l.words| == |d.words| && |l.transforms| == |d.transforms|
            && HoldsWords(source[..m], l.words, d.words) && HoldsTransforms(source[..m], l.transforms, d.transforms)
  {
    hide At, PrintWordLists, PrintTransformLists, WordList.Valid, TransformList.Valid, HoldsList, HoldsViews, Pow2,
      WordLists, TransformLists;
    var words, transforms := PrintWordLists(d.words), PrintTransformLists(d.transforms);
    AtParts(source, at, [|d.words|], words + ([|d.transforms|] + transforms));
    AtParts(source, at + 1, words, [|d.transforms|] + transforms);
    AtParts(source, at + 1 + |words|, [|d.transforms|], transforms);
    AtByte(source, at, [|d.words|]);
    AtByte(source, at + 1 + |words|, [|d.transforms|]);
    WordListsRead(source, at + 1, d.words);
    TransformListsRead(source, at + 2 + |words|, d.transforms, m);
    WordsInFront(source, at + 1, d.words, m);
  }

  /** The words are in the part of the source that is kept. */
  lemma WordsInFront(source: seq<byte>, at: nat, words: seq<WordList>, m: nat)
    requires (forall i :: 0 <= i < |words| ==> words[i].Valid()) && At(source, at, PrintWordLists(words))
    requires at + |PrintWordLists(words)| <= m <= |source|
    ensures WordLists(source, at, |words|).Some?
    ensures HoldsWords(source[..m], WordLists(source, at, |words|).value.0, words)
  {
    hide At, PrintWordLists, WordLists, WordsInside, HoldsList, WordList.Valid;
    WordListsRead(source, at, words);
    WordListsInside(source, at, |words|);
    var r := WordLists(source, at, |words|).value;
    forall i | 0 <= i < |words|
      ensures HoldsList(source[..m], r.0[i], words[i])
    {
      InsideMore(r.0[i], r.1, m);
      ListInFront(source, r.0[i], words[i], m);
    }
  }

  lemma ListInFront(source: seq<byte>, layout: WordLayout, w: WordList, m: nat)
    requires HoldsList(source, layout, w) && WordsInside(layout, m) && m <= |source|
    ensures HoldsList(source[..m], layout, w)
  {
    hide Pow2, WordsInside, WordBytesAt;
    forall k, i | 0 <= k < 28 && 0 <= i < |w.words[k]|
      ensures WordBytesAt(layout, source[..m], k + 4, i) == w.words[k][i]
    {
      assert layout.sizeBits[k + 4] == w.sizes[k];
      WordInFront(source, layout, m, k + 4, i);
    }
  }

  lemma WordInFront(source: seq<byte>, layout: WordLayout, m: nat, length: nat, i: nat)
    requires WordsInside(layout, m) && m <= |source| && 4 <= length < 32 && i < WordCount(layout.sizeBits[length])
    ensures WordBytesAt(layout, source[..m], length, i) == WordBytesAt(layout, source, length, i)
  {
    hide WordCount, WordBytes;
    WordInside(layout, m, length, i);
    var from := layout.offsets[length] + i * length;
    assert source[..m][from..][..length] == source[from..][..length];
  }

  /** The combinations that were written. */
  function Combinations(cs: seq<(byte, byte)>): seq<Combination> {
    seq(|cs|, c requires 0 <= c < |cs| => Combination(cs[c].0, cs[c].1))
  }

  lemma CombinationsRead(source: seq<byte>, at: nat, cs: seq<(byte, byte)>)
    requires At(source, at, PrintCombinations(cs))
    ensures at + 2 * |cs| <= |source| && CombinationsAt(source, at, |cs|) == Combinations(cs)
  {
    forall c | 0 <= c < |cs|
      ensures source[at + 2 * c] == cs[c].0 && source[at + 2 * c + 1] == cs[c].1
    {
      AtIndex(source, at, PrintCombinations(cs), 2 * c);
      AtIndex(source, at, PrintCombinations(cs), 2 * c + 1);
    }
  }

  lemma ContextsRead(source: seq<byte>, at: nat, contexts: Option<seq<byte>>, combinations: nat)
    requires At(source, at, PrintContexts(contexts))
    requires contexts.Some? ==> ContextsFit(contexts.value, combinations)
    ensures ContextsAt(source, at, combinations) == Some((contexts, at + |PrintContexts(contexts)|))
  {
    match contexts
    case None => AtByte(source, at, [0]);
    case Some(m) =>
      AtParts(source, at, [1], m);
      AtByte(source, at, [1]);
  }

  lemma CustomRead(source: seq<byte>, at: nat, d: Dictionary)
    requires d.Valid() && d.Custom() && At(source, at, PrintCustom(d))
    ensures CustomAt(source, at, |d.words|, |d.transforms|)
         == Some((Combinations(d.combinations), d.contexts, at + |PrintCustom(d)|))
  {
    hide At, WordList.Valid, TransformList.Valid, PrintCombinations, PrintContexts, ContextsAt, ContextsFit, Pow2;
    var n := |d.combinations|;
    CombinationsLength(d.combinations);
    AtParts(source, at, [n], PrintCombinations(d.combinations) + PrintContexts(d.contexts));
    AtParts(source, at + 1, PrintCombinations(d.combinations), PrintContexts(d.contexts));
    AtByte(source, at, [n]);
    CombinationsRead(source, at + 1, d.combinations);
    ContextsRead(source, at + 1 + 2 * n, d.contexts, n);
  }

  lemma CombinationsLength(cs: seq<(byte, byte)>)
    ensures |PrintCombinations(cs)| == 2 * |cs|
  {
  }

  /** A description holds the dictionary. */
  ghost predicate Holds(r: Description, d: Dictionary)
    requires d.Valid()
  {
    && r.source == Print(d) && r.Sound() && r.combinations == Combinations(d.combinations) && r.contexts == d.contexts
    && HoldsWords(r.source, r.words, d.words) && HoldsTransforms(r.source, r.transforms, d.transforms)
  }

  /** The parts of a printed dictionary, whatever follows it. */
  lemma PrintedParts(d: Dictionary, rest: seq<byte>)
    requires d.Valid()
    ensures var source, header, lists := Print(d) + rest, |PrintHeader(d)|, |PrintLists(d)|;
            && At(source, 0, PrintHeader(d)) && At(source, header, PrintLists(d)) && |Print(d)| >= header + lists
            && source[..|Print(d)|] == Print(d)
            && (d.Custom() ==> At(source, header + lists, PrintCustom(d))
                               && |Print(d)| == header + lists + |PrintCustom(d)|)
  {
    hide At, PrintHeader, PrintLists, PrintCustom, Dictionary.Valid;
    var source := Print(d) + rest;
    var custom := if d.Custom() then PrintCustom(d) else [];
    AtWhole(Print(d), rest);
    AtParts(source, 0, PrintHeader(d), PrintLists(d) + custom);
    AtParts(source, |PrintHeader(d)|, PrintLists(d), custom);
  }

  lemma AtWhole(piece: seq<byte>, rest: seq<byte>)
    ensures At(piece + rest, 0, piece)
  {
    assert (piece + rest)[0..|piece|] == piece;
  }

  /** Every dictionary that is written parses, whatever follows it: to its prefix, and, when it has
      lists, to a description that holds every word, transform, combination and context of it. */
  lemma PrintParses(d: Dictionary, rest: seq<byte>)
    requires d.Valid()
    ensures DescriptionAt(Print(d) + rest).Some?
    ensures var source := Print(d) + rest;
            var (r, from, to) := DescriptionAt(source).value;
            && from <= to <= |source| && source[from..to] == d.prefix
            && if d.Custom() then Holds(r, d) else r == Description([], [], [], [], None, 0)
  {
    hide At, Print, PrintHeader, PrintLists, PrintCustom, Dictionary.Valid, HeaderAt, ListsAt, CustomAt, HoldsWords,
      HoldsTransforms, Combinations, Description.Sound;
    var source := Print(d) + rest;
    PrintedParts(d, rest);
    HeaderRead(source, d);
    ListsRead(source, |PrintHeader(d)|, d, |Print(d)|);
    if d.Custom() {
      CustomRead(source, |PrintHeader(d)| + |PrintLists(d)|, d);
      ListsSound(source, |PrintHeader(d)|, DescriptionAt(source).value.0);
    }
  }

  /** So what an address stands for is what was written there. */
  lemma PrintedIsFound(d: Dictionary, r: Description, p: Place, length: nat, builtin: Builtin)
    requires d.Valid() && d.Custom() && Holds(r, d) && builtin.Valid() && 4 <= length < 32
    requires Exists(r, p, length, builtin)
    ensures p.combination < |d.combinations|
    ensures var w: nat := d.combinations[p.combination].0;
            w < |d.words| ==>
              && p.word < |d.words[w].words[length - 4]|
              && WordAt(r, p, length, builtin) == d.words[w].words[length - 4][p.word]
    ensures var t: nat := d.combinations[p.combination].1;
            t < |d.transforms| ==>
              && p.transform < |d.transforms[t].transforms|
              && TransformAt(r, p, length, builtin) == d.transforms[t].Nth(p.transform)
  {
    hide Print, Pow2, WordBytesAt, View, TransformsInside, TransformList.Valid, Description.Sound, PrintStrings;
    var w: nat, t: nat := d.combinations[p.combination].0, d.combinations[p.combination].1;
    assert r.combinations[p.combination] == Combination(w, t);
    if w < |d.words| { assert HoldsList(r.source, r.words[w], d.words[w]); }
    if t < |d.transforms| { assert HoldsViews(r.source, r.transforms[t], d.transforms[t]); }
  }

  function OperationOf(source: seq<byte>, layout: TransformLayout, k: nat): nat {
    if layout.triples + 3 * k + 1 < |source| then source[layout.triples + 3 * k + 1] else 0
  }

  /** And nothing else parses than lists within the limits of the format. What is accounted for is a
      record for every list, two bytes for every combination, and the source that is kept. */
  lemma ParsedWithinLimits(source: seq<byte>)
    requires DescriptionAt(source).Some? && DescriptionAt(source).value.0.Custom()
    ensures var (r, from, to) := DescriptionAt(source).value;
            && source[..2] == [0x91, 0] && to - from <= Pow2(62) - 16
            && |r.words| <= 64 && |r.transforms| <= 64 && 0 < |r.combinations| <= 64
            && r.retained == 288 * |r.words| + 552 * |r.transforms| + 2 * |r.combinations| + |r.source|
            && (forall i, l :: 0 <= i < |r.words| && 4 <= l < 32 ==>
                  |r.words[i].sizeBits| == 32 && r.words[i].sizeBits[l] <= 15)
            && (forall i :: 0 <= i < |r.transforms| ==> |r.transforms[i].offsets| <= 256)
            && (forall i, k :: 0 <= i < |r.transforms| && 0 <= k < r.transforms[i].count ==>
                  OperationOf(r.source, r.transforms[i], k) <= 22)
  {
    hide Pow2, Varint, WordLists, TransformLists, CombinationsFit, ContextsAt, CombinationsAt, WordBytes, Strings;
    var (r, from, to) := DescriptionAt(source).value;
    var l := ListsAt(source, to).value;
    ListLengths(source, to);
    ListsSound(source, to, r);
    StringsOfLists(source, WordLists(source, to + 1, source[to]).value.1 + 1, |r.transforms|);
    forall i, k | 0 <= i < |r.transforms| && 0 <= k < r.transforms[i].count
      ensures OperationOf(r.source, r.transforms[i], k) <= 22
    {
      assert TripleFits(r.source, r.transforms[i].triples, k, |r.transforms[i].offsets|);
    }
  }

  lemma {:induction false} StringsOfLists(source: seq<byte>, at: nat, n: nat)
    requires TransformLists(source, at, n).Some?
    ensures var r := TransformLists(source, at, n).value.0;
            |r| == n && forall i :: 0 <= i < n ==> |r[i].offsets| <= 256
  {
    hide Strings, AllTriplesFit, AnyShift, AllParametersFit;
    if n > 0 { StringsOfLists(source, at, n - 1); }
  }
}
