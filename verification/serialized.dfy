/** Serialized dictionaries (src/shared/decode_serialized.rs): the parser, the offsets it vouches
    for, and the lookups that rely on them. */
module Serialized {
  import opened Bits
  import opened SerializedCursor

  const MAX_WORD_BITS := 15
  const MAX_OPERATION := 22
  const FIRST_SHIFT := 21
  const MAX_STRINGS := 256

  // ------------------------------------------------------------------------ word lists

  /** Size class and first word of each length; lengths below four have no words. */
  datatype WordLayout = WordLayout(sizeBits: seq<byte>, offsets: seq<nat>)

  /** The bytes of the words of one length: `length << bits`, or none. */
  function WordBytes(length: nat, sizeBits: nat): nat {
    if sizeBits == 0 then 0 else Shl(length, sizeBits)
  }

  /** Where the words of `length` start, when those of length four start at `first`. */
  function WordOffset(sizeBits: seq<byte>, first: nat, length: nat): nat
    requires |sizeBits| == 32 && length <= 32
  {
    if length <= 4 then first else WordOffset(sizeBits, first, length - 1) + WordBytes(length - 1, sizeBits[length - 1])
  }

  /** The sizes of a word list at `start`: four zeros for the unused lengths, then 28 bytes. */
  function SizesAt(source: seq<byte>, start: nat): (sizeBits: seq<byte>)
    requires start + 28 <= |source|
    ensures |sizeBits| == 32
  {
    [0, 0, 0, 0] + source[start..start + 28]
  }

  /** A word list can be read at `start`. */
  ghost predicate WordsFit(source: seq<byte>, start: nat) {
    && start + 28 <= |source|
    && (forall l :: 4 <= l < 32 ==> SizesAt(source, start)[l] <= MAX_WORD_BITS)
    && WordOffset(SizesAt(source, start), start + 28, 32) <= |source|
  }

  function LayoutAt(source: seq<byte>, start: nat): WordLayout
    requires start + 28 <= |source|
  {
    var sizeBits := SizesAt(source, start);
    WordLayout(sizeBits, seq(32, l requires 0 <= l < 32 => if l < 4 then 0 else WordOffset(sizeBits, start + 28, l)))
  }

  lemma {:induction false} WordOffsetGrows(sizeBits: seq<byte>, first: nat, a: nat, b: nat)
    requires |sizeBits| == 32 && a <= b <= 32
    ensures WordOffset(sizeBits, first, a) <= WordOffset(sizeBits, first, b)
    decreases b
  {
    if a < b { WordOffsetGrows(sizeBits, first, a, b - 1); }
  }

  lemma SmallShift(length: nat, n: nat)
    requires length < 32 && n <= MAX_WORD_BITS
    ensures Shl(length, n) < 0x40_0000
  {
    hide Shl, Pow2;
    Pow2Values();
    Pow2Monotone(n, 16);
    ShlTimes(32, n);
    ShlMonotone(length, 32, n);
  }

  /** `WordLayout::parse`: succeeds exactly when a word list fits, and then lays out its words one
      length after another. */
  method ParseWords(cursor: Cursor) returns (r: Try<WordLayout>)
    requires cursor.Valid()
    modifies cursor
    ensures cursor.Valid() && r.Ok? == WordsFit(cursor.source, old(cursor.position))
    ensures r.Ok? ==> r.value == LayoutAt(cursor.source, old(cursor.position))
                      && cursor.position == WordOffset(r.value.sizeBits, old(cursor.position) + 28, 32)
    ensures r.Err? ==> r.error == InvalidSerializedDictionary
  {
    hide Shl;
    ghost var start := cursor.position;
    var sizes := cursor.Take(28);
    if sizes.Err? { return Err(InvalidSerializedDictionary); }
    var sizeBits: seq<byte> := [0, 0, 0, 0] + sizes.value;
    assert sizeBits == SizesAt(cursor.source, start);
    var offsets: seq<nat> := [0, 0, 0, 0];
    for length := 4 to 32
      invariant cursor.Valid() && |offsets| == length
      invariant forall l :: 4 <= l < length ==> sizeBits[l] <= MAX_WORD_BITS
      invariant cursor.position == WordOffset(sizeBits, start + 28, length)
      invariant forall l :: 0 <= l < length ==> offsets[l] == if l < 4 then 0 else WordOffset(sizeBits, start + 28, l)
    {
      if sizeBits[length] > MAX_WORD_BITS { return Err(InvalidSerializedDictionary); }
      offsets := offsets + [cursor.position];
      WordOffsetGrows(sizeBits, start + 28, length + 1, 32);
      if sizeBits[length] != 0 {
        SmallShift(length, sizeBits[length]);
        var words := cursor.Take(Shl(length, sizeBits[length]));
        if words.Err? { return Err(InvalidSerializedDictionary); }
      }
    }
    r := Ok(WordLayout(sizeBits, offsets));
    assert r.value.offsets == LayoutAt(cursor.source, start).offsets;
  }

  /** Every word of the list is inside the first `n` bytes. */
  ghost predicate WordsInside(layout: WordLayout, n: nat) {
    && |layout.sizeBits| == 32 && |layout.offsets| == 32
    && forall l :: 4 <= l < 32 ==>
                     layout.sizeBits[l] <= MAX_WORD_BITS && layout.offsets[l] + WordBytes(l, layout.sizeBits[l]) <= n
  }

  lemma LayoutInside(source: seq<byte>, start: nat, n: nat)
    requires WordsFit(source, start) && WordOffset(SizesAt(source, start), start + 28, 32) <= n
    ensures WordsInside(LayoutAt(source, start), n)
  {
    hide WordBytes;
    var layout := LayoutAt(source, start);
    forall l | 4 <= l < 32
      ensures layout.sizeBits[l] <= MAX_WORD_BITS && layout.offsets[l] + WordBytes(l, layout.sizeBits[l]) <= n
    {
      WordOffsetGrows(layout.sizeBits, start + 28, l + 1, 32);
    }
  }

  // ------------------------------------------------------------------------ transforms

  /** Where strings, their offsets, triples and parameters of a transform list are. */
  datatype TransformLayout = TransformLayout(strings: nat, offsets: seq<nat>, triples: nat, count: nat,
                                             params: Option<nat>)

  /** The starts of a block of length-prefixed strings, from `position` on. The block ends with the
      first empty string, and holds at most 256 of them. */
  function Strings(source: seq<byte>, position: nat, found: nat): (r: Option<seq<nat>>)
    requires found <= MAX_STRINGS
    ensures r.Some? ==> |r.value| > 0 && found + |r.value| <= MAX_STRINGS && position < |source|
    decreases MAX_STRINGS - found
  {
    if position >= |source| || found == MAX_STRINGS then None
    else if source[position] == 0 then
      if position + 1 == |source| then Some([position]) else None
    else
      match Strings(source, position + 1 + source[position], found + 1)
      case None => None
      case Some(rest) => Some([position] + rest)
  }

  /** Every string lies inside its block. */
  lemma {:induction false} StringsInside(source: seq<byte>, position: nat, found: nat)
    requires found <= MAX_STRINGS && Strings(source, position, found).Some?
    ensures forall i :: 0 <= i < |Strings(source, position, found).value| ==>
                          var at := Strings(source, position, found).value[i];
                          at < |source| && at + 1 + source[at] <= |source|
    decreases MAX_STRINGS - found
  {
    if source[position] != 0 {
      StringsInside(source, position + 1 + source[position], found + 1);
    }
  }

  /** `whole` is the offsets found so far and those still to come. */
  ghost predicate Continued(whole: Option<seq<nat>>, offsets: seq<nat>, rest: Option<seq<nat>>) {
    whole == if rest.None? then None else Some(offsets + rest.value)
  }

  lemma NothingFound(whole: Option<seq<nat>>)
    ensures Continued(whole, [], whole)
  {
    if whole.Some? { assert [] + whole.value == whole.value; }
  }

  lemma StringsStep(whole: Option<seq<nat>>, source: seq<byte>, position: nat, offsets: seq<nat>)
    requires |offsets| <= MAX_STRINGS && Continued(whole, offsets, Strings(source, position, |offsets|))
    ensures position >= |source| || |offsets| == MAX_STRINGS ==> whole == None
    ensures position < |source| && |offsets| < MAX_STRINGS ==>
              if source[position] == 0 then
                whole == if position + 1 == |source| then Some(offsets + [position]) else None
              else
                Continued(whole, offsets + [position], Strings(source, position + 1 + source[position], |offsets| + 1))
  {
    if position < |source| && |offsets| < MAX_STRINGS && source[position] != 0 {
      var rest := Strings(source, position + 1 + source[position], |offsets| + 1);
      if rest.Some? { assert offsets + ([position] + rest.value) == offsets + [position] + rest.value; }
    }
  }

  /** The loop over the strings. */
  method ParseStrings(source: seq<byte>) returns (r: Try<seq<nat>>)
    ensures var s := Strings(source, 0, 0);
            if s.Some? then r == Ok(s.value) else r == Err(InvalidSerializedDictionary)
  {
    hide Strings;
    var offsets: seq<nat>, position: nat := [], 0;
    NothingFound(Strings(source, 0, 0));
    while true
      invariant |offsets| <= MAX_STRINGS
      invariant Continued(Strings(source, 0, 0), offsets, Strings(source, position, |offsets|))
      decreases MAX_STRINGS - |offsets|
    {
      StringsStep(Strings(source, 0, 0), source, position, offsets);
      if position >= |source| { return Err(InvalidSerializedDictionary); }
      var length := source[position];
      if |offsets| == MAX_STRINGS { return Err(InvalidSerializedDictionary); }
      if length == 0 {
        if position + 1 != |source| { return Err(InvalidSerializedDictionary); }
        return Ok(offsets + [position]);
      }
      offsets := offsets + [position];
      position := position + 1 + length;
    }
  }

  /** Triple `i` of a transform list. */
  ghost predicate TripleFits(source: seq<byte>, triples: nat, i: nat, strings: nat) {
    && triples + 3 * i + 3 <= |source|
    && source[triples + 3 * i] < strings && source[triples + 3 * i + 2] < strings
    && source[triples + 3 * i + 1] <= MAX_OPERATION
  }

  /** Triple `i` is one of the two operations that take a parameter. */
  ghost predicate Shifts(source: seq<byte>, triples: nat, i: nat) {
    triples + 3 * i + 1 < |source| && source[triples + 3 * i + 1] >= FIRST_SHIFT
  }

  method CheckTriples(source: seq<byte>, triples: nat, count: nat, strings: nat) returns (fit: bool, shifts: bool)
    requires triples + 3 * count <= |source|
    ensures fit == forall i :: 0 <= i < count ==> TripleFits(source, triples, i, strings)
    ensures fit ==> shifts == exists i :: 0 <= i < count && Shifts(source, triples, i)
  {
    shifts := false;
    for i := 0 to count
      invariant forall j :: 0 <= j < i ==> TripleFits(source, triples, j, strings)
      invariant shifts == exists j :: 0 <= j < i && Shifts(source, triples, j)
    {
      var at := triples + 3 * i;
      assert TripleFits(source, triples, i, strings)
          == (source[at] < strings && source[at + 2] < strings && source[at + 1] <= MAX_OPERATION);
      if source[at] >= strings || source[at + 2] >= strings || source[at + 1] > MAX_OPERATION {
        return false, shifts;
      }
      assert Shifts(source, triples, i) == (source[at + 1] >= FIRST_SHIFT);
      shifts := shifts || source[at + 1] >= FIRST_SHIFT;
    }
    fit := true;
  }

  /** Only shifts may have a parameter that is not zero. */
  ghost predicate ParameterFits(source: seq<byte>, triples: nat, params: nat, i: nat) {
    && triples + 3 * i + 2 < |source| && params + 2 * i + 2 <= |source|
    && (source[triples + 3 * i + 1] < FIRST_SHIFT ==> source[params + 2 * i] == 0 && source[params + 2 * i + 1] == 0)
  }

  method CheckParameters(source: seq<byte>, triples: nat, params: nat, count: nat) returns (fit: bool)
    requires triples + 3 * count <= |source| && params + 2 * count <= |source|
    ensures fit == forall i :: 0 <= i < count ==> ParameterFits(source, triples, params, i)
  {
    for i := 0 to count
      invariant forall j :: 0 <= j < i ==> ParameterFits(source, triples, params, j)
    {
      assert ParameterFits(source, triples, params, i)
          == (source[triples + 3 * i + 1] < FIRST_SHIFT ==>
              source[params + 2 * i] == 0 && source[params + 2 * i + 1] == 0);
      if source[triples + 3 * i + 1] < FIRST_SHIFT && (source[params + 2 * i] != 0 || source[params + 2 * i + 1] != 0) {
        return false;
      }
    }
    fit := true;
  }

  ghost predicate AllTriplesFit(source: seq<byte>, triples: nat, count: nat, strings: nat) {
    forall i :: 0 <= i < count ==> TripleFits(source, triples, i, strings)
  }

  ghost predicate AnyShift(source: seq<byte>, triples: nat, count: nat) {
    exists i :: 0 <= i < count && Shifts(source, triples, i)
  }

  ghost predicate AllParametersFit(source: seq<byte>, triples: nat, params: nat, count: nat) {
    forall i :: 0 <= i < count ==> ParameterFits(source, triples, params, i)
  }

  /** `u16::from_le_bytes` */
  function LittleWord(low: byte, high: byte): nat { low as nat + 256 * (high as nat) }

  /** The transform list at `start`, and where it ends: a block of strings, a number of triples, and
      parameters when a triple needs one. */
  ghost function TransformsAt(source: seq<byte>, start: nat): Option<(TransformLayout, nat)> {
    if start + 2 > |source| then None
    else
      var size, strings := LittleWord(source[start], source[start + 1]), start + 2;
      if strings + size >= |source| then None
      else
        match Strings(source[strings..strings + size], 0, 0)
        case None => None
        case Some(offsets) => TriplesAt(source, strings, offsets, source[strings + size], strings + size + 1)
  }

  ghost function TriplesAt(source: seq<byte>, strings: nat, offsets: seq<nat>, count: nat,
                           triples: nat): Option<(TransformLayout, nat)> {
    var middle := triples + 3 * count;
    if middle > |source| || !AllTriplesFit(source, triples, count, |offsets|) then None
    else if !AnyShift(source, triples, count)
        then Some((TransformLayout(strings, offsets, triples, count, None), middle))
    else if middle + 2 * count > |source| || !AllParametersFit(source, triples, middle, count) then None
    else Some((TransformLayout(strings, offsets, triples, count, Some(middle)), middle + 2 * count))
  }

  /** `TransformLayout::parse`: succeeds exactly when there is a transform list, and lays it out. */
  method ParseTransforms(cursor: Cursor) returns (r: Try<TransformLayout>)
    requires cursor.Valid()
    modifies cursor
    ensures cursor.Valid()
    ensures match TransformsAt(cursor.source, old(cursor.position))
            case Some(t) => r == Ok(t.0) && cursor.position == t.1
            case None => r == Err(InvalidSerializedDictionary)
  {
    hide Strings, AllTriplesFit, AnyShift, AllParametersFit, TriplesAt;
    ghost var start := cursor.position;
    var header := cursor.Take(2);
    if header.Err? { return Err(InvalidSerializedDictionary); }
    var size := LittleWord(header.value[0], header.value[1]);
    var strings := cursor.position;
    var block := cursor.Take(size);
    if block.Err? { return Err(InvalidSerializedDictionary); }
    var offsets := ParseStrings(block.value);
    if offsets.Err? { return Err(InvalidSerializedDictionary); }
    var count := cursor.Byte();
    if count.Err? { return Err(InvalidSerializedDictionary); }
    r := ParseTriples(cursor, strings, offsets.value, count.value);
  }

  method ParseTriples(cursor: Cursor, strings: nat, offsets: seq<nat>, count: nat) returns (r: Try<TransformLayout>)
    requires cursor.Valid() && count < 256
    modifies cursor
    ensures cursor.Valid()
    ensures match TriplesAt(cursor.source, strings, offsets, count, old(cursor.position))
            case Some(t) => r == Ok(t.0) && cursor.position == t.1
            case None => r == Err(InvalidSerializedDictionary)
  {
    var triples := cursor.position;
    var listed := cursor.Take(3 * count);
    if listed.Err? { return Err(InvalidSerializedDictionary); }
    var fit, shifts := CheckTriples(cursor.source, triples, count, |offsets|);
    if !fit { return Err(InvalidSerializedDictionary); }
    var params: Option<nat> := None;
    if shifts {
      params := Some(cursor.position);
      var parameters := cursor.Take(2 * count);
      if parameters.Err? { return Err(InvalidSerializedDictionary); }
      var zero := CheckParameters(cursor.source, triples, params.value, count);
      if !zero { return Err(InvalidSerializedDictionary); }
    }
    r := Ok(TransformLayout(strings, offsets, triples, count, params));
  }

  /** Everything a transform list refers to is inside the source: the strings its triples name, the
      triples, and the parameters if there are any. */
  ghost predicate TransformsInside(layout: TransformLayout, source: seq<byte>) {
    && (forall i :: 0 <= i < |layout.offsets| ==> StringInside(source, layout.strings + layout.offsets[i]))
    && layout.count < 256
    && layout.triples + 3 * layout.count <= |source|
    && AllTriplesFit(source, layout.triples, layout.count, |layout.offsets|)
    && (layout.params.Some? ==> layout.params.value + 2 * layout.count <= |source|)
  }

  /** The length-prefixed string at `at` is inside the source. */
  ghost predicate StringInside(source: seq<byte>, at: nat) {
    at < |source| && at + 1 + source[at] <= |source|
  }

  lemma StringsShift(source: seq<byte>, strings: nat, size: nat, end: nat)
    requires strings + size <= end <= |source| && Strings(source[strings..strings + size], 0, 0).Some?
    ensures var offsets := Strings(source[strings..strings + size], 0, 0).value;
            forall i :: 0 <= i < |offsets| ==> StringInside(source[..end], strings + offsets[i])
  {
    hide Strings;
    var block := source[strings..strings + size];
    var offsets := Strings(block, 0, 0).value;
    StringsInside(block, 0, 0);
    forall i | 0 <= i < |offsets|
      ensures StringInside(source[..end], strings + offsets[i])
    {
      assert block[offsets[i]] == source[..end][strings + offsets[i]];
    }
  }

  /** A transform list that was read is inside what was read. */
  lemma ReadTransformsInside(source: seq<byte>, start: nat, n: nat)
    requires TransformsAt(source, start).Some? && TransformsAt(source, start).value.1 <= n <= |source|
    ensures TransformsInside(TransformsAt(source, start).value.0, source[..n])
    ensures start < TransformsAt(source, start).value.1
  {
    hide Strings, AnyShift, AllParametersFit;
    var size, strings := LittleWord(source[start], source[start + 1]), start + 2;
    var layout, end := TransformsAt(source, start).value.0, TransformsAt(source, start).value.1;
    StringsShift(source, strings, size, n);
    forall i | 0 <= i < layout.count
      ensures TripleFits(source[..n], layout.triples, i, |layout.offsets|)
    {
      assert TripleFits(source, layout.triples, i, |layout.offsets|);
    }
  }
}
