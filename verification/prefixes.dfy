/** Attached prefixes of a decoder (src/shared/decode_dictionary.rs): at most fifteen segments that
    read as their concatenation, one live description, and a budget over all of it. */
module DictionaryPrefixes {
  import opened Bits
  import opened SerializedCursor
  import opened SerializedDictionaries

  const MAX_SEGMENTS := 15

  // -------------------------------------------------------------------- concatenation

  function Concat(segments: seq<seq<byte>>): seq<byte> {
    if |segments| == 0 then [] else segments[0] + Concat(segments[1..])
  }

  function Lengths(segments: seq<seq<byte>>): nat {
    if |segments| == 0 then 0 else |segments[0]| + Lengths(segments[1..])
  }

  lemma {:induction false} ConcatAppend(segments: seq<seq<byte>>, s: seq<byte>)
    ensures Concat(segments + [s]) == Concat(segments) + s
    ensures Lengths(segments + [s]) == Lengths(segments) + |s|
  {
    if |segments| == 0 {
      assert (segments + [s])[1..] == [];
      assert Concat([s]) == s + Concat([]);
    } else {
      assert (segments + [s])[1..] == segments[1..] + [s];
      ConcatAppend(segments[1..], s);
    }
  }

  lemma {:induction false} ConcatLength(segments: seq<seq<byte>>)
    ensures |Concat(segments)| == Lengths(segments)
  {
    if |segments| > 0 { ConcatLength(segments[1..]); }
  }

  /** The bytes from `offset` to the end of the segment holding it. */
  function RunFrom(segments: seq<seq<byte>>, offset: nat): seq<byte> {
    if |segments| == 0 then []
    else if offset < |segments[0]| then segments[0][offset..]
    else RunFrom(segments[1..], offset - |segments[0]|)
  }

  /** A run is a prefix of what follows the offset, and it is empty only past the end. */
  lemma {:induction false} RunIsPrefix(segments: seq<seq<byte>>, offset: nat)
    ensures offset < Lengths(segments) ==> 0 < |RunFrom(segments, offset)| <= Lengths(segments) - offset
    ensures offset < Lengths(segments) ==>
              offset <= |Concat(segments)| && RunFrom(segments, offset) <= Concat(segments)[offset..]
    ensures offset >= Lengths(segments) ==> RunFrom(segments, offset) == []
  {
    if |segments| > 0 {
      var head, tail := segments[0], segments[1..];
      ConcatLength(tail);
      if offset < |head| {
        assert Concat(segments)[offset..] == head[offset..] + Concat(tail);
      } else {
        RunIsPrefix(tail, offset - |head|);
        if offset - |head| < Lengths(tail) {
          assert Concat(segments)[offset..] == Concat(tail)[offset - |head|..];
        }
      }
    }
  }

  /** Run after run from an offset on. */
  function Walk(segments: seq<seq<byte>>, offset: nat): seq<byte>
    decreases Lengths(segments) - offset
  {
    RunIsPrefix(segments, offset);
    if offset >= Lengths(segments) then []
    else RunFrom(segments, offset) + Walk(segments, offset + |RunFrom(segments, offset)|)
  }

  /** Walking the runs rebuilds the concatenation. */
  lemma {:induction false} WalkRebuilds(segments: seq<seq<byte>>, offset: nat)
    requires offset <= Lengths(segments)
    ensures |Concat(segments)| == Lengths(segments) && Walk(segments, offset) == Concat(segments)[offset..]
    decreases Lengths(segments) - offset
  {
    hide RunFrom, Concat, Lengths;
    ConcatLength(segments);
    RunIsPrefix(segments, offset);
    if offset < Lengths(segments) {
      var run := RunFrom(segments, offset);
      WalkRebuilds(segments, offset + |run|);
      assert Concat(segments)[offset..] == run + Concat(segments)[offset..][|run|..];
      assert Concat(segments)[offset..][|run|..] == Concat(segments)[offset + |run|..];
    }
  }

  // ----------------------------------------------------------------------- the class

  datatype Limits = Limits(maxSourceBytes: Option<nat>, maxOwnedBytes: Option<nat>)

  datatype Attachment = RawPrefix(source: seq<byte>) | SerializedPrefix(source: seq<byte>)

  /** What the prefixes amount to: segments in use, their bytes, the memory they take together with
      the live description, and that description's part of it. */
  datatype Held = Held(count: nat, total: nat, retained: nat, live: Option<nat>)

  /** There is a slot for one more segment of `n` bytes, and memory for it. */
  predicate Admits(h: Held, n: nat, limits: Limits, alloc: Allocator) {
    && h.count < MAX_SEGMENTS && h.total + n < U64 && Affordable(h.retained + n, limits.maxOwnedBytes) && alloc(n)
  }

  function WithSegment(h: Held, n: nat): Held {
    h.(count := h.count + 1, total := h.total + n, retained := h.retained + n)
  }

  /** A serialized dictionary can be attached: it parses, it does not compete with a live
      description, and there is room for its prefix while both descriptions are held. */
  ghost predicate AdmitsSerialized(h: Held, source: seq<byte>, limits: Limits, alloc: Allocator) {
    && Parses(source, h.retained, limits.maxOwnedBytes, alloc)
    && var (d, from, to) := DescriptionAt(source).value;
       && !(d.Custom() && h.live.Some?)
       && (from < to ==> Admits(h.(retained := h.retained + d.retained), to - from, limits, alloc))
  }

  ghost function WithSerialized(h: Held, source: seq<byte>): (r: Held)
    requires DescriptionAt(source).Some? && (h.live.Some? ==> h.live.value <= h.retained)
    ensures r.live.Some? ==> r.live.value <= r.retained
  {
    var (d, from, to) := DescriptionAt(source).value;
    var peak := h.(retained := h.retained + d.retained);
    var joined := if from < to then WithSegment(peak, to - from) else peak;
    joined.(retained := joined.retained - if h.live.Some? then h.live.value else 0,
            live := if d.Custom() then Some(d.retained) else None)
  }

  /** A second dictionary with lists is refused while one is live; one without lists is not, and
      ends the life of the first. */
  lemma SecondDictionary(h: Held, source: seq<byte>, limits: Limits, alloc: Allocator)
    requires h.live.Some? && h.live.value <= h.retained && DescriptionAt(source).Some?
    ensures DescriptionAt(source).value.0.Custom() ==> !AdmitsSerialized(h, source, limits, alloc)
    ensures !DescriptionAt(source).value.0.Custom() ==> WithSerialized(h, source).live == None
  {
    hide DescriptionAt, Parses, Description.Custom;
  }

  class Prefixes {
    var description: Option<Description>
    var segments: seq<seq<byte>>
    var count: nat
    var total: nat
    var retained: nat

    /** The slots in use come first, and `total` is what they hold. */
    ghost predicate Slots()
      reads this
    {
      && |segments| == MAX_SEGMENTS && count <= MAX_SEGMENTS
      && (forall i :: count <= i < MAX_SEGMENTS ==> segments[i] == [])
      && total == Lengths(segments[..count]) < U64
    }

    function Holding(): Held
      reads this
    {
      Held(count, total, retained, if description.Some? then Some(description.value.retained) else None)
    }

    /** `retained` is exactly the segments and the live description. */
    ghost predicate Valid()
      reads this
    {
      && Slots() && retained == total + (if description.Some? then description.value.retained else 0)
      && (description.Some? ==> description.value.Custom() && description.value.Sound())
    }

    ghost function Contents(): seq<byte>
      requires Slots()
      reads this
    {
      Concat(segments[..count])
    }

    constructor ()
      ensures Valid() && Contents() == [] && description == None && Holding() == Held(0, 0, 0, None)
    {
      description, segments, count, total, retained := None, seq(MAX_SEGMENTS, _ => []), 0, 0, 0;
    }

    /** `attach`: one more segment. What it finds in `retained` may include a description that has
        not been committed. */
    method Attach(source: seq<byte>, limits: Limits, alloc: Allocator) returns (r: Try<()>)
      requires Slots()
      modifies this`segments, this`count, this`total, this`retained
      ensures r.Ok? <==> Admits(old(Holding()), |source|, limits, alloc)
      ensures r.Ok? ==>
                && Slots() && Contents() == old(Contents()) + source
                && Holding() == WithSegment(old(Holding()), |source|)
    {
      if count == |segments| { return Err(TooManyAttachments); }
      var next := retained + |source|;
      if next >= U64 { return Err(SizeOverflow); }
      if limits.maxOwnedBytes.Some? && next > limits.maxOwnedBytes.value {
        return Err(MemoryLimitExceeded(limits.maxOwnedBytes.value));
      }
      if total + |source| >= U64 { return Err(SizeOverflow); }
      total := total + |source|;
      if !alloc(|source|) { return Err(AllocationFailed); }
      ConcatAppend(segments[..count], source);
      assert segments[count] + source == source;
      segments := segments[count := segments[count] + source];
      retained := retained + |source|;
      count := count + 1;
      assert segments[..count] == old(segments[..count]) + [source];
      r := Ok(());
    }

    /** `attach_serialized`: the embedded prefix becomes a segment, and a description with lists
        becomes the live one. A description without lists leaves none live, even when one was. */
    method AttachSerialized(source: seq<byte>, limits: Limits, alloc: Allocator) returns (r: Try<()>)
      requires Valid() && |source| < MAX_SLICE
      modifies this
      ensures r.Ok? <==> AdmitsSerialized(old(Holding()), source, limits, alloc)
      ensures r.Ok? ==> Valid() && Holding() == WithSerialized(old(Holding()), source)
      ensures r.Ok? ==> var (d, from, to) := DescriptionAt(source).value;
                        && from <= to <= |source|
                        && Contents() == old(Contents()) + source[from..to]
                        && description == (if d.Custom() then Some(d) else None)
      ensures r.Ok? ==> (limits.maxOwnedBytes.Some? ==> retained <= limits.maxOwnedBytes.value)
    {
      hide Description.Sound, Concat, Lengths, DescriptionAt, Description.Custom;
      var parsed :- Parse(source, retained, limits.maxOwnedBytes, alloc);
      var (d, from, to) := parsed;
      if d.Custom() && description.Some? { return Err(ConflictingStaticDictionaries); }
      retained := retained + d.retained;
      if from < to {
        var _ :- Attach(source[from..to], limits, alloc);
      } else {
        assert Contents() + source[from..to] == Contents();
      }
      if description.Some? {
        retained := retained - description.value.retained;
      }
      description := if d.Custom() then Some(d) else None;
      r := Ok(());
    }

    /** `run_from` */
    method Run(offset: nat) returns (run: seq<byte>)
      requires Valid()
      ensures run == RunFrom(segments[..count], offset)
      ensures offset < total ==> 0 < |run| && offset <= |Contents()| && run <= Contents()[offset..]
      ensures offset >= total ==> run == []
    {
      hide RunFrom, Concat, Lengths;
      var rest: nat := offset;
      RunIsPrefix(segments[..count], offset);
      assert segments[0..count] == segments[..count];
      for i := 0 to count
        invariant RunFrom(segments[i..count], rest) == RunFrom(segments[..count], offset)
      {
        RunStep(segments[i..count], rest);
        assert segments[i..count][1..] == segments[i + 1..count];
        if rest < |segments[i]| {
          return segments[i][rest..];
        }
        rest := rest - |segments[i]|;
      }
      run := [];
      NoRun(segments[count..count], rest);
    }
  }

  lemma RunStep(segments: seq<seq<byte>>, offset: nat)
    requires |segments| > 0
    ensures RunFrom(segments, offset)
         == if offset < |segments[0]| then segments[0][offset..] else RunFrom(segments[1..], offset - |segments[0]|)
  {
  }

  lemma NoRun(segments: seq<seq<byte>>, offset: nat)
    requires |segments| == 0
    ensures RunFrom(segments, offset) == []
  {
  }

  // ------------------------------------------------------------------------ building

  /** The prefix bytes an attachment contributes. */
  ghost function PrefixOf(a: Attachment): seq<byte> {
    match a
    case RawPrefix(source) => source
    case SerializedPrefix(source) =>
      match DescriptionAt(source)
      case None => []
      case Some(d) => if d.1 <= d.2 <= |source| then source[d.1..d.2] else []
  }

  ghost function PrefixesOf(attachments: seq<Attachment>): seq<byte> {
    if |attachments| == 0 then []
    else PrefixesOf(attachments[..|attachments| - 1]) + PrefixOf(attachments[|attachments| - 1])
  }

  /** What attaching one source after another comes to, as long as each of them is admitted. */
  ghost function HeldAfter(attachments: seq<Attachment>, limits: Limits, alloc: Allocator): (r: Option<Held>)
    ensures r.Some? && r.value.live.Some? ==> r.value.live.value <= r.value.retained
  {
    if |attachments| == 0 then Some(Held(0, 0, 0, None))
    else
      match HeldAfter(attachments[..|attachments| - 1], limits, alloc)
      case None => None
      case Some(h) =>
        if !Affordable(SourceBytes(attachments), limits.maxSourceBytes) then None
        else
          match attachments[|attachments| - 1]
          case RawPrefix(source) =>
            if Admits(h, |source|, limits, alloc) then Some(WithSegment(h, |source|)) else None
          case SerializedPrefix(source) =>
            if AdmitsSerialized(h, source, limits, alloc) then Some(WithSerialized(h, source)) else None
  }

  /** A source that is not admitted is not made up for later. */
  lemma {:induction false} StaysRefused(attachments: seq<Attachment>, i: nat, limits: Limits, alloc: Allocator)
    requires i <= |attachments| && HeldAfter(attachments[..i], limits, alloc).None?
    ensures HeldAfter(attachments, limits, alloc).None?
    decreases |attachments|
  {
    if i < |attachments| {
      assert attachments[..|attachments| - 1][..i] == attachments[..i];
      StaysRefused(attachments[..|attachments| - 1], i, limits, alloc);
    } else {
      assert attachments[..i] == attachments;
    }
  }

  function SourceBytes(attachments: seq<Attachment>): nat {
    if |attachments| == 0 then 0
    else SourceBytes(attachments[..|attachments| - 1]) + |attachments[|attachments| - 1].source|
  }

  /** Raw prefixes alone: fifteen of them can be attached, if together they keep to the limits. */
  lemma {:induction false} RawPrefixesHeld(attachments: seq<Attachment>, limits: Limits, alloc: Allocator)
    requires (forall a :: a in attachments ==> a.RawPrefix?) && forall n :: alloc(n)
    ensures HeldAfter(attachments, limits, alloc).Some? <==>
              && |attachments| <= 15 && (attachments == [] || SourceBytes(attachments) < 0x1_0000_0000_0000_0000)
              && (attachments != [] && limits.maxOwnedBytes.Some? ==>
                    SourceBytes(attachments) <= limits.maxOwnedBytes.value)
              && (attachments != [] && limits.maxSourceBytes.Some? ==>
                    SourceBytes(attachments) <= limits.maxSourceBytes.value)
    ensures HeldAfter(attachments, limits, alloc).Some? ==>
              HeldAfter(attachments, limits, alloc).value
              == Held(|attachments|, SourceBytes(attachments), SourceBytes(attachments), None)
    decreases |attachments|
  {
    if attachments != [] {
      var front := attachments[..|attachments| - 1];
      RawPrefixesHeld(front, limits, alloc);
      assert attachments[|attachments| - 1] in attachments;
      assert SourceBytes([]) == 0;
    }
  }

  /** `build`: attaches in order, and succeeds exactly when every attachment is admitted; the state
      it reaches reads as the prefixes joined, holds both limits, and accounts for every byte. */
  method Build(attachments: seq<Attachment>, limits: Limits, alloc: Allocator) returns (r: Try<Prefixes>)
    requires forall a :: a in attachments ==> |a.source| < MAX_SLICE
    ensures r.Ok? <==> HeldAfter(attachments, limits, alloc).Some?
    ensures r.Ok? ==> r.value.Holding() == HeldAfter(attachments, limits, alloc).value
    ensures r.Ok? ==> fresh(r.value) && r.value.Valid() && r.value.Contents() == PrefixesOf(attachments)
    ensures r.Ok? ==> (limits.maxOwnedBytes.Some? ==> r.value.retained <= limits.maxOwnedBytes.value)
    ensures r.Ok? ==> (limits.maxSourceBytes.Some? ==> SourceBytes(attachments) <= limits.maxSourceBytes.value)
  {
    hide Description.Sound, Concat, Lengths, DescriptionAt;
    var result := new Prefixes();
    var sourceBytes: nat := 0;
    for i := 0 to |attachments|
      invariant fresh(result) && result.Valid() && result.Contents() == PrefixesOf(attachments[..i])
      invariant sourceBytes == SourceBytes(attachments[..i])
      invariant HeldAfter(attachments[..i], limits, alloc) == Some(result.Holding())
      invariant limits.maxOwnedBytes.Some? ==> result.retained <= limits.maxOwnedBytes.value
      invariant limits.maxSourceBytes.Some? ==> sourceBytes <= limits.maxSourceBytes.value
    {
      var attachment := attachments[i];
      assert attachments[..i + 1][..i] == attachments[..i];
      if HeldAfter(attachments[..i + 1], limits, alloc).None? { StaysRefused(attachments, i + 1, limits, alloc); }
      sourceBytes := sourceBytes + |attachment.source|;
      if sourceBytes >= U64 { return Err(SizeOverflow); }
      if limits.maxSourceBytes.Some? && sourceBytes > limits.maxSourceBytes.value {
        return Err(SourceLimitExceeded(limits.maxSourceBytes.value));
      }
      match attachment
      case RawPrefix(source) =>
        var _ :- result.Attach(source, limits, alloc);
      case SerializedPrefix(source) =>
        var _ :- result.AttachSerialized(source, limits, alloc);
    }
    assert attachments[..|attachments|] == attachments;
    r := Ok(result);
  }
}
