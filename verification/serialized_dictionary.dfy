/** A parsed serialized dictionary (src/shared/decode_serialized.rs): `Description::parse` and the
    address resolution its offsets make total. */
module SerializedDictionaries {
  import opened Bits
  import opened Serialized
  import opened SerializedCursor

  const BUILTIN_TRANSFORMS := 121
  const CONTEXTS := 64
  const MAX_LISTS := 64

  /** Sizes of the records the parser reserves, on a machine with eight-byte words. */
  const WORD_LAYOUT_BYTES := 288
  const TRANSFORM_LAYOUT_BYTES := 552

  /** What a transform does to a word; carrying it out is not part of this model. */
  datatype Transform = Transform(prefix: seq<byte>, operation: nat, suffix: seq<byte>, parameter: nat)

  /** The built-in dictionary: sizes and offsets by length, the words, and the transforms. */
  datatype Builtin = Builtin(sizeBits: seq<byte>, offsets: seq<nat>, words: seq<byte>, transforms: seq<Transform>) {
    ghost predicate Valid() {
      && WordsInside(WordLayout(sizeBits, offsets), |words|)
      && |transforms| == BUILTIN_TRANSFORMS
    }
  }

  /** Word list and transform list by number; one past the end is the built-in one. */
  datatype Combination = Combination(words: nat, transforms: nat)

  datatype Description = Description(source: seq<byte>, words: seq<WordLayout>, transforms: seq<TransformLayout>,
                                     combinations: seq<Combination>, contexts: Option<seq<byte>>, retained: nat) {
    predicate Custom() { |words| > 0 || |transforms| > 0 }

    /** Every offset the description stores is inside the source it retains. */
    ghost predicate Inside() {
      && (forall i :: 0 <= i < |words| ==> WordsInside(words[i], |source|))
      && (forall i :: 0 <= i < |transforms| ==> TransformsInside(transforms[i], source))
    }

    /** What a successful parse of a custom description establishes. */
    ghost predicate Sound() {
      && Inside()
      && 0 < |combinations| <= MAX_LISTS
      && (forall c :: 0 <= c < |combinations| ==>
                        combinations[c].words <= |words| && combinations[c].transforms <= |transforms|)
      && (contexts.Some? ==> |contexts.value| == CONTEXTS
                             && forall i :: 0 <= i < CONTEXTS ==> contexts.value[i] as nat < |combinations|)
    }
  }

  // ------------------------------------------------------------------------- parsing

  /** `n` word lists in a row from `at` on, and where they end. */
  ghost function WordLists(source: seq<byte>, at: nat, n: nat): Option<(seq<WordLayout>, nat)> {
    if n == 0 then Some(([], at))
    else
      match WordLists(source, at, n - 1)
      case None => None
      case Some(r) =>
        if WordsFit(source, r.1) then
          Some((r.0 + [LayoutAt(source, r.1)], WordOffset(SizesAt(source, r.1), r.1 + 28, 32)))
        else None
  }

  ghost function TransformLists(source: seq<byte>, at: nat, n: nat): Option<(seq<TransformLayout>, nat)> {
    if n == 0 then Some(([], at))
    else
      match TransformLists(source, at, n - 1)
      case None => None
      case Some(r) =>
        match TransformsAt(source, r.1)
        case None => None
        case Some(t) => Some((r.0 + [t.0], t.1))
  }

  /** The lists lie inside what has been read. */
  lemma {:induction false} WordListsInside(source: seq<byte>, at: nat, n: nat)
    requires at <= |source| && WordLists(source, at, n).Some?
    ensures var r := WordLists(source, at, n).value;
            && |r.0| == n && at <= r.1 <= |source|
            && forall i :: 0 <= i < n ==> WordsInside(r.0[i], r.1)
  {
    hide WordsInside, WordsFit, LayoutAt, WordOffset;
    if n > 0 {
      WordListsInside(source, at, n - 1);
      var before, end := WordLists(source, at, n - 1).value, WordLists(source, at, n).value.1;
      WordListEnds(source, before.1);
      LayoutInside(source, before.1, end);
      forall i | 0 <= i < n - 1
        ensures WordsInside(before.0[i], end)
      {
        InsideMore(before.0[i], before.1, end);
      }
    }
  }

  lemma WordListEnds(source: seq<byte>, start: nat)
    requires WordsFit(source, start)
    ensures start <= WordOffset(SizesAt(source, start), start + 28, 32) <= |source|
  {
    WordOffsetGrows(SizesAt(source, start), start + 28, 4, 32);
  }

  lemma InsideMore(layout: WordLayout, n: nat, m: nat)
    requires WordsInside(layout, n) && n <= m
    ensures WordsInside(layout, m)
  {
    hide WordBytes;
  }

  lemma {:induction false} TransformListsInside(source: seq<byte>, at: nat, n: nat)
    requires at <= |source| && TransformLists(source, at, n).Some?
    ensures var r := TransformLists(source, at, n).value;
            && |r.0| == n && at <= r.1 <= |source|
            && forall i, m :: 0 <= i < n && r.1 <= m <= |source| ==> TransformsInside(r.0[i], source[..m])
  {
    hide TransformsInside, TransformsAt;
    if n > 0 {
      TransformListsInside(source, at, n - 1);
      var before, end := TransformLists(source, at, n - 1).value, TransformLists(source, at, n).value.1;
      TransformEnds(source, before.1);
      forall m | end <= m <= |source|
        ensures TransformsInside(TransformLists(source, at, n).value.0[n - 1], source[..m])
      {
        ReadTransformsInside(source, before.1, m);
      }
    }
  }

  lemma TransformEnds(source: seq<byte>, start: nat)
    requires TransformsAt(source, start).Some?
    ensures start < TransformsAt(source, start).value.1 <= |source|
  {
    hide Strings, AnyShift, AllParametersFit, AllTriplesFit;
  }

  /** The combinations at `at`, two bytes each. */
  function CombinationsAt(source: seq<byte>, at: nat, n: nat): (r: seq<Combination>)
    requires at + 2 * n <= |source|
    ensures |r| == n
  {
    seq(n, i requires 0 <= i < n => Combination(source[at + 2 * i], source[at + 2 * i + 1]))
  }

  method ParseWordLists(cursor: Cursor, n: nat) returns (r: Try<seq<WordLayout>>)
    requires cursor.Valid()
    modifies cursor
    ensures cursor.Valid()
    ensures match WordLists(cursor.source, old(cursor.position), n)
            case Some(w) => r == Ok(w.0) && cursor.position == w.1
            case None => r == Err(InvalidSerializedDictionary)
  {
    hide WordsFit, LayoutAt, WordOffset, WordLists;
    ghost var start := cursor.position;
    var words: seq<WordLayout> := [];
    WordListsStart(cursor.source, start);
    for i := 0 to n
      invariant cursor.Valid() && WordLists(cursor.source, start, i) == Some((words, cursor.position))
    {
      WordListsStep(cursor.source, start, i);
      var layout := ParseWords(cursor);
      if layout.Err? {
        WordListsFail(cursor.source, start, i + 1, n);
        return Err(InvalidSerializedDictionary);
      }
      words := words + [layout.value];
    }
    r := Ok(words);
  }

  lemma WordListsStart(source: seq<byte>, at: nat)
    ensures WordLists(source, at, 0) == Some(([], at))
  {
  }

  lemma WordListsStep(source: seq<byte>, at: nat, i: nat)
    requires WordLists(source, at, i).Some?
    ensures var r := WordLists(source, at, i).value;
            WordLists(source, at, i + 1)
            == if WordsFit(source, r.1) then
                 Some((r.0 + [LayoutAt(source, r.1)], WordOffset(LayoutAt(source, r.1).sizeBits, r.1 + 28, 32)))
               else None
  {
    hide WordOffset;
  }

  lemma {:induction false} WordListsFail(source: seq<byte>, at: nat, i: nat, n: nat)
    requires i <= n && WordLists(source, at, i).None?
    ensures WordLists(source, at, n).None?
    decreases n
  {
    if i < n { WordListsFail(source, at, i, n - 1); }
  }

  method ParseTransformLists(cursor: Cursor, n: nat) returns (r: Try<seq<TransformLayout>>)
    requires cursor.Valid()
    modifies cursor
    ensures cursor.Valid()
    ensures match TransformLists(cursor.source, old(cursor.position), n)
            case Some(t) => r == Ok(t.0) && cursor.position == t.1
            case None => r == Err(InvalidSerializedDictionary)
  {
    hide TransformsAt, TransformLists;
    ghost var start := cursor.position;
    var transforms: seq<TransformLayout> := [];
    TransformListsStart(cursor.source, start);
    for i := 0 to n
      invariant cursor.Valid() && TransformLists(cursor.source, start, i) == Some((transforms, cursor.position))
    {
      TransformListsStep(cursor.source, start, i);
      var layout := ParseTransforms(cursor);
      if layout.Err? {
        TransformListsFail(cursor.source, start, i + 1, n);
        return Err(InvalidSerializedDictionary);
      }
      transforms := transforms + [layout.value];
    }
    r := Ok(transforms);
  }

  lemma TransformListsStart(source: seq<byte>, at: nat)
    ensures TransformLists(source, at, 0) == Some(([], at))
  {
  }

  lemma TransformListsStep(source: seq<byte>, at: nat, i: nat)
    requires TransformLists(source, at, i).Some?
    ensures var r := TransformLists(source, at, i).value;
            TransformLists(source, at, i + 1)
            == match TransformsAt(source, r.1) case None => None case Some(t) => Some((r.0 + [t.0], t.1))
  {
    hide TransformsAt;
  }

  lemma {:induction false} TransformListsFail(source: seq<byte>, at: nat, i: nat, n: nat)
    requires i <= n && TransformLists(source, at, i).None?
    ensures TransformLists(source, at, n).None?
    decreases n
  {
    if i < n { TransformListsFail(source, at, i, n - 1); }
  }

  ghost predicate CombinationsFit(combinations: seq<Combination>, words: nat, transforms: nat) {
    forall c :: 0 <= c < |combinations| ==> combinations[c].words <= words && combinations[c].transforms <= transforms
  }

  method ParseCombinations(cursor: Cursor, n: nat, words: nat, transforms: nat) returns (r: Try<seq<Combination>>)
    requires cursor.Valid()
    modifies cursor
    ensures cursor.Valid()
    ensures r.Ok? <==> old(cursor.position) + 2 * n <= |cursor.source|
                       && CombinationsFit(CombinationsAt(cursor.source, old(cursor.position), n), words, transforms)
    ensures r.Ok? ==> r.value == CombinationsAt(cursor.source, old(cursor.position), n)
                      && cursor.position == old(cursor.position) + 2 * n
    ensures r.Err? ==> r.error == InvalidSerializedDictionary
    ensures old(cursor.position) <= cursor.position
  {
    ghost var start := cursor.position;
    var combinations: seq<Combination> := [];
    for i := 0 to n
      invariant cursor.Valid() && cursor.position == start + 2 * i && |combinations| == i
      invariant combinations == CombinationsAt(cursor.source, start, i)
                && CombinationsFit(combinations, words, transforms)
    {
      var w := cursor.Byte();
      if w.Err? { return Err(InvalidSerializedDictionary); }
      var t := cursor.Byte();
      if t.Err? { return Err(InvalidSerializedDictionary); }
      if w.value > words || t.value > transforms {
        if start + 2 * n <= |cursor.source| {
          assert CombinationsAt(cursor.source, start, n)[i] == Combination(w.value, t.value);
        }
        return Err(InvalidSerializedDictionary);
      }
      combinations := combinations + [Combination(w.value, t.value)];
    }
    r := Ok(combinations);
  }

  ghost predicate ContextsFit(contexts: seq<byte>, combinations: nat) {
    |contexts| == CONTEXTS && forall i :: 0 <= i < CONTEXTS ==> contexts[i] as nat < combinations
  }

  /** A flag, and a map from contexts to combinations when it is set. */
  ghost function ContextsAt(source: seq<byte>, at: nat, combinations: nat): Option<(Option<seq<byte>>, nat)> {
    if at >= |source| then None
    else if source[at] == 0 then Some((None, at + 1))
    else if source[at] != 1 || at + 65 > |source| || !ContextsFit(source[at + 1..at + 65], combinations) then None
    else Some((Some(source[at + 1..at + 65]), at + 65))
  }

  method ParseContexts(cursor: Cursor, combinations: nat) returns (r: Try<Option<seq<byte>>>)
    requires cursor.Valid()
    modifies cursor
    ensures cursor.Valid()
    ensures match ContextsAt(cursor.source, old(cursor.position), combinations)
            case Some(c) => r == Ok(c.0) && cursor.position == c.1
            case None => r == Err(InvalidSerializedDictionary)
  {
    var kind :- cursor.Byte();
    if kind == 0 { return Ok(None); }
    if kind != 1 { return Err(InvalidSerializedDictionary); }
    var contexts := cursor.Take(CONTEXTS);
    if contexts.Err? { return Err(InvalidSerializedDictionary); }
    for i := 0 to CONTEXTS
      invariant forall j :: 0 <= j < i ==> contexts.value[j] as nat < combinations
    {
      if contexts.value[i] as nat >= combinations { return Err(InvalidSerializedDictionary); }
    }
    r := Ok(Some(contexts.value));
  }

  // ---------------------------------------------------------- a whole description

  /** The bytes that come before the lists: the magic number, a prefix length, and the prefix. What
      it returns is where the prefix starts and where it ends. */
  ghost function HeaderAt(source: seq<byte>): (r: Option<(nat, nat)>)
    ensures r.Some? ==> r.value.0 <= r.value.1 <= |source|
  {
    if |source| < 2 || source[..2] != [0x91, 0] then None
    else
      match Varint(source[2..], MAX_VARINT_BYTES)
      case None => None
      case Some(v) =>
        if v.0 > Pow2(62) - 16 || 2 + v.1 + v.0 > |source| then None else Some((2 + v.1, 2 + v.1 + v.0))
  }

  datatype Lists = Lists(words: seq<WordLayout>, transforms: seq<TransformLayout>, end: nat)

  ghost function ListsAt(source: seq<byte>, at: nat): Option<Lists> {
    if at >= |source| || source[at] > MAX_LISTS then None
    else
      match WordLists(source, at + 1, source[at])
      case None => None
      case Some(w) =>
        if w.1 >= |source| || source[w.1] > MAX_LISTS then None
        else
          match TransformLists(source, w.1 + 1, source[w.1])
          case None => None
          case Some(t) => Some(Lists(w.0, t.0, t.1))
  }

  /** Combinations and contexts, for so many word and transform lists. */
  ghost function CustomAt(source: seq<byte>, at: nat, words: nat, transforms: nat)
    : Option<(seq<Combination>, Option<seq<byte>>, nat)>
  {
    if at >= |source| || source[at] > MAX_LISTS || source[at] == 0 then None
    else
      var n: nat := source[at];
      if at + 1 + 2 * n > |source| || !CombinationsFit(CombinationsAt(source, at + 1, n), words, transforms) then None
      else
        match ContextsAt(source, at + 1 + 2 * n, n)
        case None => None
        case Some(c) => Some((CombinationsAt(source, at + 1, n), c.0, c.1))
  }

  function ListsFootprint(words: nat, transforms: nat): nat {
    words * WORD_LAYOUT_BYTES + transforms * TRANSFORM_LAYOUT_BYTES
  }

  /** The dictionary a source holds. Without lists there is nothing to keep but the prefix. */
  ghost function DescriptionAt(source: seq<byte>): Option<(Description, nat, nat)> {
    match HeaderAt(source)
    case None => None
    case Some(h) =>
      match ListsAt(source, h.1)
      case None => None
      case Some(l) =>
        if |l.words| == 0 && |l.transforms| == 0 then Some((Description([], [], [], [], None, 0), h.0, h.1))
        else
          match CustomAt(source, l.end, |l.words|, |l.transforms|)
          case None => None
          case Some(c) =>
            if c.2 > |source| then None
            else
              Some((Description(source[..c.2], l.words, l.transforms, c.0, c.1,
                                ListsFootprint(|l.words|, |l.transforms|) + |c.0| * 2 + c.2), h.0, h.1))
  }

  /** So much memory fits a word, and the budget. */
  predicate Affordable(amount: nat, limit: Option<nat>) {
    amount < U64 && (limit.Some? ==> amount <= limit.value)
  }

  /** The allocator grants each list the parser reserves. */
  predicate Granted(d: Description, alloc: Allocator) {
    && alloc(|d.words| * WORD_LAYOUT_BYTES) && alloc(|d.transforms| * TRANSFORM_LAYOUT_BYTES)
    && (d.Custom() ==> alloc(|d.combinations| * 2) && alloc(|d.source|))
  }

  /** The dictionary a source holds, when there is memory for it. */
  ghost predicate Parses(source: seq<byte>, existing: nat, limit: Option<nat>, alloc: Allocator) {
    && DescriptionAt(source).Some?
    && Affordable(existing + DescriptionAt(source).value.0.retained, limit)
        && Granted(DescriptionAt(source).value.0, alloc)
  }

  method ParseHeader(cursor: Cursor) returns (r: Try<nat>)
    requires cursor.Valid() && cursor.position == 0
    modifies cursor
    ensures cursor.Valid()
    ensures match HeaderAt(cursor.source)
            case Some(h) => r == Ok(h.0) && cursor.position == h.1
            case None => r == Err(InvalidSerializedDictionary)
  {
    hide Varint, Pow2;
    var magic := cursor.Take(2);
    if magic.Err? || magic.value != [0x91, 0] { return Err(InvalidSerializedDictionary); }
    var length :- cursor.ReadVarint();
    if length > Pow2(62) - 16 { return Err(InvalidSerializedDictionary); }
    PrefixFitsWord();
    var start := cursor.position;
    var _ :- cursor.Take(length);
    r := Ok(start);
  }

  lemma PrefixFitsWord()
    ensures Pow2(62) + MAX_SLICE < U64
  {
    Pow2Values();
    ShlPow2(30, 32);
    ShlTimes(Pow2(30), 32);
    assert Pow2(32) == 4 * Pow2(30);
  }

  method ParseLists(cursor: Cursor, existing: nat, limit: Option<nat>, alloc: Allocator)
    returns (r: Try<(seq<WordLayout>, seq<TransformLayout>, nat)>)
    requires cursor.Valid()
    modifies cursor
    ensures cursor.Valid()
    ensures r.Ok? ==>
              && ListsAt(cursor.source, old(cursor.position)) == Some(Lists(r.value.0, r.value.1, cursor.position))
              && r.value.2 == existing + ListsFootprint(|r.value.0|, |r.value.1|)
    ensures var l := ListsAt(cursor.source, old(cursor.position));
            r.Ok? <==> && l.Some?
                       && Affordable(existing + ListsFootprint(|l.value.words|, |l.value.transforms|), limit)
                       && alloc(|l.value.words| * WORD_LAYOUT_BYTES)
                           && alloc(|l.value.transforms| * TRANSFORM_LAYOUT_BYTES)
  {
    hide WordLists, TransformLists;
    ghost var at := cursor.position;
    ListLengths(cursor.source, at);
    var wordCount :- cursor.Count();
    var live :- Reserve(wordCount, WORD_LAYOUT_BYTES, existing, limit, alloc);
    var words :- ParseWordLists(cursor, wordCount);
    var transformCount :- cursor.Count();
    live :- Reserve(transformCount, TRANSFORM_LAYOUT_BYTES, live, limit, alloc);
    var transforms :- ParseTransformLists(cursor, transformCount);
    r := Ok((words, transforms, live));
  }

  /** The lists have the lengths their counts announce. */
  lemma ListLengths(source: seq<byte>, at: nat)
    ensures at < |source| && WordLists(source, at + 1, source[at]).Some? ==>
              var w := WordLists(source, at + 1, source[at]).value;
              && |w.0| == source[at] as nat && at < w.1 <= |source|
              && (w.1 < |source| && TransformLists(source, w.1 + 1, source[w.1]).Some? ==>
                    var t := TransformLists(source, w.1 + 1, source[w.1]).value;
                    |t.0| == source[w.1] as nat && w.1 < t.1 <= |source|)
  {
    hide WordLists, TransformLists, WordsInside, TransformsInside;
    if at < |source| && WordLists(source, at + 1, source[at]).Some? {
      WordListsInside(source, at + 1, source[at]);
      var w := WordLists(source, at + 1, source[at]).value;
      if w.1 < |source| && TransformLists(source, w.1 + 1, source[w.1]).Some? {
        TransformListsInside(source, w.1 + 1, source[w.1]);
      }
    }
  }

  /** Combinations, the context map, and the part of the source worth keeping. */
  method ParseCustom(cursor: Cursor, words: seq<WordLayout>, transforms: seq<TransformLayout>, existing: nat,
                     lists: nat, limit: Option<nat>, alloc: Allocator) returns (r: Try<Description>)
    requires cursor.Valid() && existing <= lists
    modifies cursor
    ensures cursor.Valid()
    ensures var c := CustomAt(cursor.source, old(cursor.position), |words|, |transforms|);
            && (r.Ok? <==> && c.Some? && c.value.2 <= |cursor.source|
                           && Affordable(lists + |c.value.0| * 2 + c.value.2, limit)
                           && alloc(|c.value.0| * 2) && alloc(c.value.2))
            && (r.Ok? ==> r.value == Description(cursor.source[..c.value.2], words, transforms, c.value.0, c.value.1,
                                                 lists - existing + |c.value.0| * 2 + c.value.2))
  {
    hide CombinationsFit, ContextsAt, CombinationsAt;
    var count :- cursor.Count();
    if count == 0 { return Err(InvalidSerializedDictionary); }
    var live :- Reserve(count, 2, lists, limit, alloc);
    var combinations :- ParseCombinations(cursor, count, |words|, |transforms|);
    var contexts :- ParseContexts(cursor, count);
    live :- Reserve(cursor.position, 1, live, limit, alloc);
    r := Ok(Description(cursor.source[..cursor.position], words, transforms, combinations, contexts, live - existing));
  }

  /** `Description::parse`: what the source holds, exactly when it holds a dictionary there is
      memory for. A description that has lists is sound. */
  method Parse(source: seq<byte>, existing: nat, limit: Option<nat>, alloc: Allocator)
    returns (r: Try<(Description, nat, nat)>)
    requires |source| < MAX_SLICE
    ensures r.Ok? <==> Parses(source, existing, limit, alloc)
    ensures r.Ok? ==> DescriptionAt(source) == Some(r.value) && r.value.1 <= r.value.2 <= |source|
    ensures r.Ok? ==>
              if r.value.0.Custom() then r.value.0.Sound() else r.value.0 == Description([], [], [], [], None, 0)
  {
    hide HeaderAt, ListsAt, CustomAt, Description.Sound, ListsFootprint;
    var cursor := new Cursor(source);
    var from :- ParseHeader(cursor);
    var to := cursor.position;
    NoFootprint();
    var lists :- ParseLists(cursor, existing, limit, alloc);
    if |lists.0| == 0 && |lists.1| == 0 {
      return Ok((Description([], [], [], [], None, 0), from, to));
    }
    var d :- ParseCustom(cursor, lists.0, lists.1, existing, lists.2, limit, alloc);
    ListsSound(source, to, d);
    r := Ok((d, from, to));
  }

  lemma NoFootprint()
    ensures ListsFootprint(0, 0) == 0
  {
  }

  /** What was read of a source is sound. */
  lemma ListsSound(source: seq<byte>, at: nat, d: Description)
    requires ListsAt(source, at).Some? && ListsAt(source, at).value.words == d.words
             && ListsAt(source, at).value.transforms == d.transforms
    requires var c := CustomAt(source, ListsAt(source, at).value.end, |d.words|, |d.transforms|);
             c.Some? && c.value.2 <= |source| && d.source == source[..c.value.2] && d.combinations == c.value.0
             && d.contexts == c.value.1
    ensures d.Sound()
  {
    hide WordLists, TransformLists, WordsInside, TransformsInside;
    ListLengths(source, at);
    var w := WordLists(source, at + 1, source[at]).value;
    WordListsInside(source, at + 1, source[at]);
    TransformListsInside(source, w.1 + 1, source[w.1]);
    forall i | 0 <= i < |d.words|
      ensures WordsInside(d.words[i], |d.source|)
    {
      InsideMore(d.words[i], w.1, |d.source|);
    }
  }

  // ----------------------------------------------------------------------- resolution

  /** A word list of one length: how many words there are, and how many ways each is transformed. */
  function SizeBits(d: Description, c: nat, length: nat, builtin: Builtin): byte
    requires c < |d.combinations| && length < 32
  {
    var id := d.combinations[c].words;
    if id < |d.words| && length < |d.words[id].sizeBits| then d.words[id].sizeBits[length]
    else if length < |builtin.sizeBits| then builtin.sizeBits[length]
    else 0
  }

  function WordCount(sizeBits: nat): nat { if sizeBits == 0 then 0 else Pow2(sizeBits) }

  function TransformCount(d: Description, c: nat): nat
    requires c < |d.combinations|
  {
    var id := d.combinations[c].transforms;
    if id < |d.transforms| then d.transforms[id].count else BUILTIN_TRANSFORMS
  }

  /** How many addresses of one length a combination takes. */
  function SpanOf(d: Description, c: nat, length: nat, builtin: Builtin): nat
    requires c < |d.combinations| && length < 32
  {
    WordCount(SizeBits(d, c, length, builtin)) * TransformCount(d, c)
  }

  /** The combination a context prefers. */
  function Preferred(d: Description, context: nat): nat {
    if d.contexts.Some? && context < |d.contexts.value| then d.contexts.value[context] else 0
  }

  /** The `k`th combination tried: the preferred one, then the others in order. */
  function Tried(preferred: nat, k: nat): nat {
    if k == 0 then preferred else if k <= preferred then k - 1 else k
  }

  /** When a combination is tried. */
  function Turn(preferred: nat, c: nat): nat {
    if c == preferred then 0 else if c < preferred then c + 1 else c
  }

  /** The order is a permutation of the combinations. */
  lemma TurnsExact(preferred: nat, n: nat, k: nat)
    requires preferred < n && k < n
    ensures Tried(preferred, k) < n && Turn(preferred, Tried(preferred, k)) == k
    ensures Turn(preferred, k) < n && Tried(preferred, Turn(preferred, k)) == k
  {
  }

  /** The spans of the combinations, in the order they are tried. */
  function Spans(d: Description, length: nat, context: nat, builtin: Builtin): (spans: seq<nat>)
    requires length < 32 && Preferred(d, context) < |d.combinations|
    ensures |spans| == |d.combinations|
  {
    seq(|d.combinations|, k requires 0 <= k < |d.combinations| =>
      TurnsExact(Preferred(d, context), |d.combinations|, k);
      SpanOf(d, Tried(Preferred(d, context), k), length, builtin))
  }

  /** The addresses before the `k`th span. */
  ghost function Base(spans: seq<nat>, k: nat): nat
    requires k <= |spans|
  {
    if k == 0 then 0 else Base(spans, k - 1) + spans[k - 1]
  }

  lemma {:induction false} BaseMonotone(spans: seq<nat>, a: nat, b: nat)
    requires a <= b <= |spans|
    ensures Base(spans, a) <= Base(spans, b)
    decreases b
  {
    if a < b { BaseMonotone(spans, a, b - 1); }
  }

  /** A place in the dictionary: combination, transform and word by number. */
  datatype Place = Place(combination: nat, transform: nat, word: nat)

  ghost predicate Exists(d: Description, p: Place, length: nat, builtin: Builtin) {
    && p.combination < |d.combinations| && length < 32
    && p.transform < TransformCount(d, p.combination) && p.word < WordCount(SizeBits(d, p.combination, length, builtin))
  }

  /** The address of a place: the spans tried before it, then all words under one transform after
      another. */
  ghost function AddressOf(d: Description, p: Place, length: nat, context: nat, builtin: Builtin): nat
    requires length < 32 && Preferred(d, context) < |d.combinations| && p.combination < |d.combinations|
  {
    TurnsExact(Preferred(d, context), |d.combinations|, p.combination);
    Base(Spans(d, length, context, builtin), Turn(Preferred(d, context), p.combination))
    + (p.transform * WordCount(SizeBits(d, p.combination, length, builtin)) + p.word)
  }

  /** How many addresses of one length there are. */
  ghost function TotalSpan(d: Description, length: nat, context: nat, builtin: Builtin): nat
    requires length < 32 && Preferred(d, context) < |d.combinations|
  {
    Base(Spans(d, length, context, builtin), |d.combinations|)
  }

  lemma PlaceInSpan(transform: nat, transforms: nat, word: nat, words: nat)
    requires transform < transforms && word < words
    ensures transform * words + word < words * transforms
  {
    assert (transform + 1) * words <= transforms * words;
  }

  /** An address inside a span splits into one transform and one word. */
  lemma SplitAddress(offset: nat, sizeBits: nat, transforms: nat)
    requires offset < WordCount(sizeBits) * transforms
    ensures sizeBits > 0 && BitAnd(offset, WordCount(sizeBits) - 1) < WordCount(sizeBits)
            && Shr(offset, sizeBits) < transforms
    ensures Shr(offset, sizeBits) * WordCount(sizeBits) + BitAnd(offset, WordCount(sizeBits) - 1) == offset
  {
    hide Shr, Low, BitAnd, Shl;
    BitAndMask(sizeBits, offset);
    LowShr(offset, sizeBits);
    LowBound(offset, sizeBits);
    ShlTimes(Shr(offset, sizeBits), sizeBits);
    ProductMonotone(transforms, Shr(offset, sizeBits), Pow2(sizeBits));
  }

  lemma ProductMonotone(a: nat, b: nat, p: nat)
    ensures a <= b ==> a * p <= b * p
  {
  }

  /** Two numbers below the same word count that make the same address are the same. */
  lemma JoinAddress(transform: nat, word: nat, sizeBits: nat)
    requires word < WordCount(sizeBits)
    ensures var offset := transform * WordCount(sizeBits) + word;
            BitAnd(offset, WordCount(sizeBits) - 1) == word && Shr(offset, sizeBits) == transform
  {
    hide Shr, Low, BitAnd, Shl;
    var offset := transform * Pow2(sizeBits) + word;
    BitAndMask(sizeBits, offset);
    ShlTimes(transform, sizeBits);
    Compose(word, transform, sizeBits);
  }

  /** The loop of `resolve`: the span an address falls in, trying the `k`th and later ones. */
  function Find(spans: seq<nat>, k: nat, address: nat): (r: Option<(nat, nat)>)
    requires k <= |spans|
    decreases |spans| - k
  {
    if k == |spans| then None
    else if address < spans[k] then Some((k, address))
    else Find(spans, k + 1, address - spans[k])
  }

  lemma {:induction false} FindExact(spans: seq<nat>, k: nat, address: nat)
    requires k <= |spans|
    ensures Find(spans, k, address).Some? <==> Base(spans, k) + address < Base(spans, |spans|)
    ensures Find(spans, k, address).Some? ==>
              var (i, offset) := Find(spans, k, address).value;
              k <= i < |spans| && offset < spans[i] && Base(spans, k) + address == Base(spans, i) + offset
    decreases |spans| - k
  {
    if k < |spans| {
      if address < spans[k] {
        BaseMonotone(spans, k + 1, |spans|);
      } else {
        FindExact(spans, k + 1, address - spans[k]);
      }
    }
  }

  lemma {:induction false} FindInverts(spans: seq<nat>, k: nat, i: nat, offset: nat)
    requires k <= i < |spans| && offset < spans[i]
    ensures Base(spans, i) + offset >= Base(spans, k)
    ensures Find(spans, k, Base(spans, i) + offset - Base(spans, k)) == Some((i, offset))
    decreases i - k
  {
    BaseMonotone(spans, k, i);
    if k < i {
      BaseMonotone(spans, k + 1, i);
      FindInverts(spans, k + 1, i, offset);
    }
  }

  /** The place an address stands for. */
  function Locate(d: Description, address: nat, length: nat, context: nat, builtin: Builtin): Option<Place>
    requires length < 32 && Preferred(d, context) < |d.combinations|
  {
    match Find(Spans(d, length, context, builtin), 0, address)
    case None => None
    case Some(found) =>
      TurnsExact(Preferred(d, context), |d.combinations|, if found.0 < |d.combinations| then found.0 else 0);
      if found.0 < |d.combinations| then
        var c := Tried(Preferred(d, context), found.0);
        var sizeBits := SizeBits(d, c, length, builtin);
        Some(Place(c, Shr(found.1, sizeBits),
                   if WordCount(sizeBits) > 0 then BitAnd(found.1, WordCount(sizeBits) - 1) else 0))
      else None
  }

  /** Addresses below the total span stand for a place each, and only they do. */
  lemma LocateTotal(d: Description, address: nat, length: nat, context: nat, builtin: Builtin)
    requires length < 32 && Preferred(d, context) < |d.combinations|
    ensures Locate(d, address, length, context, builtin).Some? <==> address < TotalSpan(d, length, context, builtin)
    ensures Locate(d, address, length, context, builtin).Some? ==>
              var p := Locate(d, address, length, context, builtin).value;
              Exists(d, p, length, builtin) && AddressOf(d, p, length, context, builtin) == address
  {
    hide Shr, BitAnd, SizeBits, TransformCount, WordCount, Preferred, Tried, Turn;
    var spans := Spans(d, length, context, builtin);
    FindExact(spans, 0, address);
    if Find(spans, 0, address).Some? {
      var (k, offset) := Find(spans, 0, address).value;
      TurnsExact(Preferred(d, context), |d.combinations|, k);
      var c := Tried(Preferred(d, context), k);
      SplitAddress(offset, SizeBits(d, c, length, builtin), TransformCount(d, c));
    }
  }

  /** Every place has an address below the total span, and that address stands for it: with the
      lemma above, addresses and places correspond one to one. */
  lemma LocateInverts(d: Description, p: Place, length: nat, context: nat, builtin: Builtin)
    requires Exists(d, p, length, builtin) && Preferred(d, context) < |d.combinations|
    ensures AddressOf(d, p, length, context, builtin) < TotalSpan(d, length, context, builtin)
    ensures Locate(d, AddressOf(d, p, length, context, builtin), length, context, builtin) == Some(p)
  {
    hide Shr, BitAnd, SizeBits, TransformCount, WordCount, Preferred, Tried, Turn;
    var spans := Spans(d, length, context, builtin);
    var k := Turn(Preferred(d, context), p.combination);
    TurnsExact(Preferred(d, context), |d.combinations|, p.combination);
    var sizeBits := SizeBits(d, p.combination, length, builtin);
    PlaceInSpan(p.transform, TransformCount(d, p.combination), p.word, WordCount(sizeBits));
    assert spans[k] == SpanOf(d, p.combination, length, builtin);
    FindInverts(spans, 0, k, p.transform * WordCount(sizeBits) + p.word);
    JoinAddress(p.transform, p.word, sizeBits);
    FindExact(spans, 0, AddressOf(d, p, length, context, builtin));
  }

  // ------------------------------------------------------------- preferred-first order

  /** The context map names combination `c`; without a map every context prefers the first. */
  ghost predicate Names(d: Description, context: nat, c: nat) {
    match d.contexts
    case None => c == 0
    case Some(m) => context < |m| && m[context] as nat == c
  }

  /** What the combinations below `c`, other than `first`, take of the addresses. */
  ghost function SpansBelow(d: Description, first: nat, c: nat, length: nat, builtin: Builtin): nat
    requires c <= |d.combinations| && length < 32
  {
    if c == 0 then 0
    else
      SpansBelow(d, first, c - 1, length, builtin)
      + if c - 1 == first then 0 else SpanOf(d, c - 1, length, builtin)
  }

  lemma NamedIsPreferred(d: Description, context: nat, c: nat)
    requires Names(d, context, c)
    ensures Preferred(d, context) == c
  {
  }

  /** The spans tried before the `k`th: the first combination's, then those of lower number. */
  lemma {:induction false} BaseInOrder(d: Description, k: nat, length: nat, context: nat, builtin: Builtin)
    requires length < 32 && Preferred(d, context) < |d.combinations| && k <= |d.combinations|
    ensures var first := Preferred(d, context);
            Base(Spans(d, length, context, builtin), k)
            == if k == 0 then 0
               else SpanOf(d, first, length, builtin)
                    + SpansBelow(d, first, if k <= first then k - 1 else k, length, builtin)
    decreases k
  {
    hide SpanOf, Preferred;
    var first := Preferred(d, context);
    if k > 0 {
      BaseInOrder(d, k - 1, length, context, builtin);
      TurnsExact(first, |d.combinations|, k - 1);
      assert Spans(d, length, context, builtin)[k - 1] == SpanOf(d, Tried(first, k - 1), length, builtin);
      if k == first + 1 && k > 1 {
        assert SpansBelow(d, first, k, length, builtin) == SpansBelow(d, first, first, length, builtin);
      }
    }
  }

  /** The combination the context names takes the lowest addresses; the others follow by number. Each
      holds all its words under one transform after another. */
  lemma AddressInOrder(d: Description, p: Place, length: nat, context: nat, builtin: Builtin, first: nat)
    requires Exists(d, p, length, builtin) && Names(d, context, first) && first < |d.combinations|
    ensures var start := if p.combination == first then 0
                         else SpanOf(d, first, length, builtin) + SpansBelow(d, first, p.combination, length, builtin);
            var address := start + p.transform * WordCount(SizeBits(d, p.combination, length, builtin)) + p.word;
            && Preferred(d, context) == first
            && address == AddressOf(d, p, length, context, builtin)
            && Locate(d, address, length, context, builtin) == Some(p)
  {
    hide SpanOf, SizeBits, WordCount, TransformCount, Preferred, Locate;
    NamedIsPreferred(d, context, first);
    BaseInOrder(d, Turn(first, p.combination), length, context, builtin);
    SpansBelowSelf(d, first, p.combination, length, builtin);
    LocateInverts(d, p, length, context, builtin);
  }

  lemma SpansBelowSelf(d: Description, first: nat, c: nat, length: nat, builtin: Builtin)
    requires c < |d.combinations| && length < 32
    ensures c == first ==> SpansBelow(d, first, c + 1, length, builtin) == SpansBelow(d, first, c, length, builtin)
  {
  }

  /** Every word of every list a combination names is found under every transform: of the
      description's own lists, or of the built-in words and their 121 transforms. */
  lemma EveryWordExists(d: Description, c: nat, length: nat, builtin: Builtin, transform: nat, word: nat)
    requires Resolvable(d, builtin) && c < |d.combinations| && 4 <= length < 32
    requires var (w, t) := (d.combinations[c].words, d.combinations[c].transforms);
             var sizeBits := if w < |d.words| then d.words[w].sizeBits[length] else builtin.sizeBits[length];
             sizeBits > 0 && word < Pow2(sizeBits)
             && transform < if t < |d.transforms| then d.transforms[t].count else 121
    ensures Exists(d, Place(c, transform, word), length, builtin)
  {
    hide WordsInside, TransformsInside, Pow2;
    SizesOf(d, c, builtin);
  }

  // --------------------------------------------------------------------- what is found

  /** The string at `at`: a length, then the bytes. */
  function StringAt(source: seq<byte>, at: nat): seq<byte> {
    if at < |source| && at + 1 + source[at] <= |source| then source[at + 1..at + 1 + source[at]] else []
  }

  /** `TransformLayout::view`: every index below the count of a layout that is inside its source. */
  function View(layout: TransformLayout, source: seq<byte>, index: nat): Transform
    requires TransformsInside(layout, source) && index < layout.count
  {
    var triple := layout.triples + 3 * index;
    assert TripleFits(source, layout.triples, index, |layout.offsets|);
    Transform(StringAt(source, layout.strings + layout.offsets[source[triple]]), source[triple + 1],
              StringAt(source, layout.strings + layout.offsets[source[triple + 2]]),
              if layout.params.None? then 0
              else LittleWord(source[layout.params.value + 2 * index], source[layout.params.value + 2 * index + 1]))
  }

  /** What triple `index` names is inside the source. */
  lemma TripleInside(layout: TransformLayout, source: seq<byte>, index: nat)
    requires TransformsInside(layout, source) && index < layout.count
    ensures var triple := layout.triples + 3 * index;
            && triple + 2 < |source|
            && source[triple] as nat < |layout.offsets| && source[triple + 2] as nat < |layout.offsets|
            && source[triple + 1] <= MAX_OPERATION
            && StringInside(source, layout.strings + layout.offsets[source[triple]])
            && StringInside(source, layout.strings + layout.offsets[source[triple + 2]])
  {
    hide StringInside;
    assert TripleFits(source, layout.triples, index, |layout.offsets|);
  }

  lemma StringWhole(source: seq<byte>, at: nat)
    requires StringInside(source, at)
    ensures |StringAt(source, at)| == source[at]
  {
  }

  /** The strings a view refers to are whole: none is cut off by the end of the source. */
  lemma ViewIsWhole(layout: TransformLayout, source: seq<byte>, index: nat)
    requires TransformsInside(layout, source) && index < layout.count
    ensures var triple := layout.triples + 3 * index;
            && triple + 2 < |source|
            && source[triple] as nat < |layout.offsets| && source[triple + 2] as nat < |layout.offsets|
            && StringInside(source, layout.strings + layout.offsets[source[triple]])
            && StringInside(source, layout.strings + layout.offsets[source[triple + 2]])
            && |View(layout, source, index).prefix| == source[layout.strings + layout.offsets[source[triple]]]
            && |View(layout, source, index).suffix| == source[layout.strings + layout.offsets[source[triple + 2]]]
            && View(layout, source, index).operation <= MAX_OPERATION
  {
    hide TransformsInside, StringAt, AllTriplesFit;
    TripleInside(layout, source, index);
    var triple := layout.triples + 3 * index;
    StringWhole(source, layout.strings + layout.offsets[source[triple]]);
    StringWhole(source, layout.strings + layout.offsets[source[triple + 2]]);
  }

  /** A word and what to do to it. */
  datatype Reference = Reference(word: seq<byte>, transform: Transform)

  ghost predicate Resolvable(d: Description, builtin: Builtin) { d.Sound() && builtin.Valid() }

  lemma PreferredExists(d: Description, context: nat)
    requires d.Sound() && context < CONTEXTS
    ensures Preferred(d, context) < |d.combinations|
  {
    hide Description.Inside;
  }

  /** Word `index` of a list of words that is inside its source is inside it too. */
  lemma WordInside(layout: WordLayout, n: nat, length: nat, index: nat)
    requires WordsInside(layout, n) && 4 <= length < 32 && index < WordCount(layout.sizeBits[length])
    ensures layout.offsets[length] + index * length + length <= n
  {
    hide Shl;
    var sizeBits := layout.sizeBits[length];
    ShlTimes(length, sizeBits);
    WordsBefore(index, Pow2(sizeBits), length);
  }

  lemma WordsBefore(index: nat, count: nat, length: nat)
    requires index < count
    ensures index * length + length <= length * count
  {
    assert (index + 1) * length <= count * length;
  }

  /** The bytes of word `index` of one length, empty when the list does not reach that far. */
  function WordBytesAt(layout: WordLayout, source: seq<byte>, length: nat, index: nat): seq<byte> {
    if length < |layout.offsets| && layout.offsets[length] + index * length + length <= |source| then
      source[layout.offsets[length] + index * length..][..length]
    else []
  }

  /** The word of a place: from the list the combination names, or from the built-in words. */
  function WordAt(d: Description, p: Place, length: nat, builtin: Builtin): seq<byte>
    requires p.combination < |d.combinations|
  {
    var id := d.combinations[p.combination].words;
    if id < |d.words| then WordBytesAt(d.words[id], d.source, length, p.word)
    else WordBytesAt(WordLayout(builtin.sizeBits, builtin.offsets), builtin.words, length, p.word)
  }

  /** The word of a place that exists is whole. */
  lemma WordIsWhole(d: Description, p: Place, length: nat, builtin: Builtin)
    requires Resolvable(d, builtin) && 4 <= length < 32 && Exists(d, p, length, builtin)
    ensures |WordAt(d, p, length, builtin)| == length
  {
    hide WordCount, WordsInside, TransformsInside;
    var id := d.combinations[p.combination].words;
    SizesOf(d, p.combination, builtin);
    if id < |d.words| {
      WordInside(d.words[id], |d.source|, length, p.word);
    } else {
      WordInside(WordLayout(builtin.sizeBits, builtin.offsets), |builtin.words|, length, p.word);
    }
  }

  ghost function TransformAt(d: Description, p: Place, length: nat, builtin: Builtin): Transform
    requires Resolvable(d, builtin) && Exists(d, p, length, builtin)
  {
    var id := d.combinations[p.combination].transforms;
    if id < |d.transforms| then View(d.transforms[id], d.source, p.transform) else builtin.transforms[p.transform]
  }

  /** `resolve`, up to applying the transform: for a sound description, any context and any length
      from four to thirty-one it finds the word and transform the address stands for, and rejects
      every address that stands for none. */
  method Resolve(d: Description, address: nat, length: nat, context: nat, builtin: Builtin)
    returns (r: Option<Reference>)
    requires Resolvable(d, builtin) && context < CONTEXTS
    ensures !(4 <= length < 32) ==> r == None
    ensures 4 <= length < 32 ==>
              && Preferred(d, context) < |d.combinations|
              && match Locate(d, address, length, context, builtin)
                 case None => r == None
                 case Some(p) => Exists(d, p, length, builtin)
                                 && r == Some(Reference(WordAt(d, p, length, builtin),
                                                        TransformAt(d, p, length, builtin)))
  {
    hide Locate, SizeBits, TransformCount, WordCount, SpanOf, WordAt, TransformAt, Preferred, Spans, Resolvable;
    if !(4 <= length < 32) { return None; }
    PreferredIn(d, context, builtin);
    var preferred := Preferred(d, context);
    var rest := address;
    var k := 0;
    LocateStarts(d, address, length, context, builtin);
    while k < |d.combinations|
      invariant 0 <= k <= |d.combinations|
      invariant LocateFrom(d, k, rest, length, context, builtin) == Locate(d, address, length, context, builtin)
      decreases |d.combinations| - k
    {
      TurnsExact(preferred, |d.combinations|, k);
      LocateStep(d, k, rest, length, context, builtin);
      var combination := if k == 0 then preferred else if k <= preferred then k - 1 else k;
      var span := SpanOf(d, combination, length, builtin);
      if rest >= span {
        rest := rest - span;
        k := k + 1;
        continue;
      }
      LocateTotal(d, address, length, context, builtin);
      r := Fetch(d, combination, rest, length, builtin);
      return;
    }
    LocateEnds(d, rest, length, context, builtin);
    r := None;
  }

  lemma PreferredIn(d: Description, context: nat, builtin: Builtin)
    requires Resolvable(d, builtin) && context < CONTEXTS
    ensures Preferred(d, context) < |d.combinations|
  {
    hide Description.Sound, Builtin.Valid, Preferred;
    PreferredExists(d, context);
  }

  /** What remains to be found when the spans before the `k`th have been passed over. */
  ghost function LocateFrom(d: Description, k: nat, rest: nat, length: nat, context: nat,
                            builtin: Builtin): Option<Place>
    requires length < 32 && Preferred(d, context) < |d.combinations| && k <= |d.combinations|
  {
    match Find(Spans(d, length, context, builtin), k, rest)
    case None => None
    case Some(found) => PlaceAt(d, found.0, found.1, length, context, builtin)
  }

  ghost function PlaceAt(d: Description, k: nat, offset: nat, length: nat, context: nat,
                         builtin: Builtin): Option<Place>
    requires length < 32 && Preferred(d, context) < |d.combinations|
  {
    if k >= |d.combinations| then None
    else
      TurnsExact(Preferred(d, context), |d.combinations|, k);
      Some(PlaceOf(d, Tried(Preferred(d, context), k), offset, length, builtin))
  }

  /** The transform and word an offset into a span stands for. */
  function PlaceOf(d: Description, c: nat, offset: nat, length: nat, builtin: Builtin): Place
    requires c < |d.combinations| && length < 32
  {
    var sizeBits := SizeBits(d, c, length, builtin);
    Place(c, Shr(offset, sizeBits), if WordCount(sizeBits) > 0 then BitAnd(offset, WordCount(sizeBits) - 1) else 0)
  }

  lemma LocateStarts(d: Description, address: nat, length: nat, context: nat, builtin: Builtin)
    requires length < 32 && Preferred(d, context) < |d.combinations|
    ensures LocateFrom(d, 0, address, length, context, builtin) == Locate(d, address, length, context, builtin)
  {
    hide SizeBits, WordCount, SpanOf, Preferred, Find, Spans, Shr, BitAnd, Tried;
  }

  lemma LocateStep(d: Description, k: nat, rest: nat, length: nat, context: nat, builtin: Builtin)
    requires length < 32 && Preferred(d, context) < |d.combinations| && k < |d.combinations|
    ensures Tried(Preferred(d, context), k) < |d.combinations|
    ensures var span := SpanOf(d, Tried(Preferred(d, context), k), length, builtin);
            LocateFrom(d, k, rest, length, context, builtin)
            == if rest >= span then LocateFrom(d, k + 1, rest - span, length, context, builtin)
               else Some(PlaceOf(d, Tried(Preferred(d, context), k), rest, length, builtin))
  {
    hide SizeBits, WordCount, SpanOf, Preferred, PlaceOf, Tried;
    TurnsExact(Preferred(d, context), |d.combinations|, k);
  }

  lemma LocateEnds(d: Description, rest: nat, length: nat, context: nat, builtin: Builtin)
    requires length < 32 && Preferred(d, context) < |d.combinations|
    ensures LocateFrom(d, |d.combinations|, rest, length, context, builtin) == None
  {
    hide Spans;
  }

  /** The word and the transform at an offset into a combination's span. */
  method Fetch(d: Description, c: nat, offset: nat, length: nat, builtin: Builtin) returns (r: Option<Reference>)
    requires Resolvable(d, builtin) && 4 <= length < 32 && c < |d.combinations|
             && offset < SpanOf(d, c, length, builtin)
    ensures var p := PlaceOf(d, c, offset, length, builtin);
            Exists(d, p, length, builtin)
            && r == Some(Reference(WordAt(d, p, length, builtin), TransformAt(d, p, length, builtin)))
  {
    hide Shr, BitAnd, TransformsInside, WordsInside, View, WordCount;
    SplitAddress(offset, SizeBits(d, c, length, builtin), TransformCount(d, c));
    var words, transforms := d.combinations[c].words, d.combinations[c].transforms;
    var sizeBits := SizeBits(d, c, length, builtin);
    var index := BitAnd(offset, WordCount(sizeBits) - 1);
    SizesOf(d, c, builtin);
    var word: seq<byte>;
    if words < |d.words| {
      WordInside(d.words[words], |d.source|, length, index);
      word := d.source[d.words[words].offsets[length] + index * length..][..length];
    } else {
      WordInside(WordLayout(builtin.sizeBits, builtin.offsets), |builtin.words|, length, index);
      word := builtin.words[builtin.offsets[length] + index * length..][..length];
    }
    index := Shr(offset, sizeBits);
    var transform := if transforms < |d.transforms| then View(d.transforms[transforms], d.source, index)
        else builtin.transforms[index];
    r := Some(Reference(word, transform));
  }

  lemma SizesOf(d: Description, c: nat, builtin: Builtin)
    requires Resolvable(d, builtin) && c < |d.combinations|
    ensures |builtin.sizeBits| == 32 == |builtin.offsets|
    ensures d.combinations[c].words < |d.words| ==>
              |d.words[d.combinations[c].words].sizeBits| == 32 == |d.words[d.combinations[c].words].offsets|
  {
    hide TransformsInside;
  }
}
