/** Reading a serialized dictionary byte by byte (src/shared/decode_serialized.rs): the cursor, the
    base-128 integers of section 4 of RFC 9841, and the shared memory budget. */
module SerializedCursor {
  import opened Bits

  datatype Error =
    | SizeOverflow
    | InvalidSerializedDictionary
    | MemoryLimitExceeded(limit: nat)
    | AllocationFailed
    | TooManyAttachments
    | SourceLimitExceeded(limit: nat)
    | ConflictingStaticDictionaries

  datatype Try<+T> = Ok(value: T) | Err(error: Error) {
    predicate IsFailure() { Err? }

    function PropagateFailure<U>(): Try<U>
      requires Err?
    {
      Err(error)
    }

    function Extract(): T
      requires Ok?
    {
      value
    }
  }

  datatype Option<+T> = None | Some(value: T)

  /** Slices are at most half the address space long. */
  const MAX_SLICE: nat := U64 / 2

  // ---------------------------------------------------------------------- the integers

  const MAX_VARINT_BYTES := 9

  /** An integer of at most `n` bytes and how many it took; seven bits a byte, low bits first, the
      top bit set in every byte but the last. */
  function Varint(s: seq<byte>, n: nat): (r: Option<(nat, nat)>)
    ensures r.Some? ==> r.value.1 <= |s| && 0 < r.value.1 <= n && r.value.0 < Pow2(7 * n)
  {
    if n == 0 || |s| == 0 then None
    else if s[0] < 128 then
      SevenMore(s[0], 0, n);
      Some((s[0], 1))
    else
      match Varint(s[1..], n - 1)
      case None => None
      case Some(r) =>
        SevenMore(s[0] - 128, r.0, n);
        Some((s[0] - 128 + 128 * r.0, 1 + r.1))
  }

  lemma SevenMore(low: nat, high: nat, n: nat)
    requires n > 0 && low < 128 && high < Pow2(7 * (n - 1))
    ensures low + 128 * high < Pow2(7 * n)
  {
    hide Pow2, Shl;
    var m: nat := 7 * (n - 1);
    assert 7 * n == m + 7;
    PowPlusSeven(m);
  }

  lemma PowPlusSeven(m: nat)
    ensures Pow2(m + 7) == 128 * Pow2(m)
  {
    assert Pow2(m + 2) == 2 * Pow2(m + 1) == 4 * Pow2(m);
    assert Pow2(m + 4) == 2 * Pow2(m + 3) == 4 * Pow2(m + 2);
    assert Pow2(m + 6) == 2 * Pow2(m + 5) == 4 * Pow2(m + 4);
  }

  lemma PowSeven()
    ensures Pow2(7) == 128
  {
  }

  /** The shortest encoding of a value. */
  function EncodeVarint(v: nat): (s: seq<byte>)
    ensures |s| > 0
  {
    if v < 128 then [v] else [128 + v % 128] + EncodeVarint(v / 128)
  }

  /** Every value below two to the sixty-third survives, whatever follows it. */
  lemma {:induction false} VarintRoundTrip(v: nat, n: nat, rest: seq<byte>)
    requires n > 0 && v < Pow2(7 * n)
    ensures Varint(EncodeVarint(v) + rest, n) == Some((v, |EncodeVarint(v)|))
    decreases n
  {
    hide Pow2, Shl;
    PowSeven();
    if v >= 128 {
      PowPlusSeven(7 * (n - 1));
      VarintRoundTrip(v / 128, n - 1, rest);
      assert (EncodeVarint(v) + rest)[1..] == EncodeVarint(v / 128) + rest;
    }
  }

  // ------------------------------------------------------------------------- the cursor

  class Cursor {
    const source: seq<byte>
    var position: nat

    ghost predicate Valid()
      reads this
    {
      position <= |source| < MAX_SLICE
    }

    constructor (source: seq<byte>)
      requires |source| < MAX_SLICE
      ensures Valid() && this.source == source && position == 0
    {
      this.source, position := source, 0;
    }

    method Take(length: nat) returns (r: Try<seq<byte>>)
      requires Valid()
      modifies this
      ensures Valid() && r.Ok? == (old(position) + length <= |source|)
      ensures r.Ok? ==> position == old(position) + length && r.value == source[old(position)..position]
      ensures r.Err? ==> position == old(position)
                         && r.error == if position + length >= U64 then SizeOverflow else InvalidSerializedDictionary
    {
      var end := position + length;
      if end >= U64 { return Err(SizeOverflow); }
      if end > |source| { return Err(InvalidSerializedDictionary); }
      r := Ok(source[position..end]);
      position := end;
    }

    method Byte() returns (r: Try<byte>)
      requires Valid()
      modifies this
      ensures Valid() && r.Ok? == (old(position) < |source|)
      ensures r.Ok? ==> position == old(position) + 1 && r.value == source[old(position)]
      ensures r.Err? ==> position == old(position) && r.error == InvalidSerializedDictionary
    {
      var bytes :- Take(1);
      r := Ok(bytes[0]);
    }

    /** A list length, at most sixty-four. */
    method Count() returns (r: Try<nat>)
      requires Valid()
      modifies this
      ensures Valid() && r.Ok? == (old(position) < |source| && source[old(position)] <= 64)
      ensures old(position) <= position
      ensures r.Ok? ==> position == old(position) + 1 && r.value == source[old(position)]
      ensures r.Err? ==> r.error == InvalidSerializedDictionary
    {
      var count :- Byte();
      if count > 64 { return Err(InvalidSerializedDictionary); }
      r := Ok(count);
    }

    method ReadVarint() returns (r: Try<nat>)
      requires Valid()
      modifies this
      ensures Valid()
      ensures var v := Varint(source[old(position)..], MAX_VARINT_BYTES);
              if v.Some? then r == Ok(v.value.0) && position == old(position) + v.value.1
              else r == Err(InvalidSerializedDictionary)
    {
      hide Pow2, Shl, BitOr;
      var value: nat, i: nat := 0, 0;
      ghost var start := position;
      assert Pow2(0) == 1 by { PowZero(); }
      ShlZeroBits(Varint(source[start..], MAX_VARINT_BYTES));
      while i < MAX_VARINT_BYTES
        invariant Valid() && i <= MAX_VARINT_BYTES && position == start + i && value < Pow2(7 * i)
        invariant Continues(Varint(source[start..], MAX_VARINT_BYTES),
                            Varint(source[position..], MAX_VARINT_BYTES - i), value, i)
      {
        ghost var before := source[position..];
        var b :- Byte();
        assert before[0] == b && before[1..] == source[position..];
        VarintStep(Varint(source[start..], MAX_VARINT_BYTES), before, MAX_VARINT_BYTES - i, value, i);
        value := BitOr(value, Shl(b % 128, 7 * i));
        if b < 128 { return Ok(value); }
        i := i + 1;
      }
      r := Err(InvalidSerializedDictionary);
    }
  }

  lemma PowZero()
    ensures Pow2(0) == 1
  {
  }

  /** `whole` is `value` with what is still to be read shifted past it. */
  ghost predicate Continues(whole: Option<(nat, nat)>, rest: Option<(nat, nat)>, value: nat, i: nat) {
    whole == if rest.None? then None else Some((value + Shl(rest.value.0, 7 * i), i + rest.value.1))
  }

  lemma ShlZeroBits(v: Option<(nat, nat)>)
    ensures Continues(v, v, 0, 0)
  {
  }

  lemma VarintStep(whole: Option<(nat, nat)>, s: seq<byte>, n: nat, value: nat, i: nat)
    requires n > 0 && |s| > 0 && value < Pow2(7 * i) && Continues(whole, Varint(s, n), value, i)
    ensures BitOr(value, Shl(s[0] % 128, 7 * i)) < Pow2(7 * (i + 1))
    ensures s[0] < 128 ==> whole == Some((BitOr(value, Shl(s[0] % 128, 7 * i)), i + 1))
    ensures s[0] >= 128 ==> Continues(whole, Varint(s[1..], n - 1), BitOr(value, Shl(s[0] % 128, 7 * i)), i + 1)
  {
    hide Pow2, Shl, BitOr;
    var low := s[0] % 128;
    BitOrDisjoint(7 * i, value, low);
    Pow2Values();
    ShlMonotone(low, 128, 7 * i);
    ShlPow2(7, 7 * i);
    var rest := Varint(s[1..], n - 1);
    if s[0] >= 128 && rest.Some? {
      ShlAdd(low, 128 * rest.value.0, 7 * i);
      ShlTimes(rest.value.0, 7);
      ShlShl(rest.value.0, 7, 7 * i);
    }
  }

  /** An integer that has not ended after nine bytes is rejected. */
  lemma VarintTooLong(s: seq<byte>)
    requires |s| >= 9 && forall i :: 0 <= i < 9 ==> s[i] >= 128
    ensures Varint(s, MAX_VARINT_BYTES) == None
  {
    hide Pow2;
    NeverEnds(s, MAX_VARINT_BYTES);
  }

  lemma {:induction false} NeverEnds(s: seq<byte>, n: nat)
    requires n <= |s| && forall i :: 0 <= i < n ==> s[i] >= 128
    ensures Varint(s, n) == None
    decreases n
  {
    hide Pow2;
    if n > 0 { NeverEnds(s[1..], n - 1); }
  }

  // ------------------------------------------------------------------------ the budget

  /** What the allocator grants: an exact reservation of so many bytes, or nothing. */
  type Allocator = nat -> bool

  /** `reserve`: one budget for every heap request of the parser. */
  method Reserve(count: nat, size: nat, live: nat, limit: Option<nat>, alloc: Allocator) returns (r: Try<nat>)
    requires size > 0
    ensures r.Ok? ==> r.value == live + count * size < U64 && (limit.Some? ==> r.value <= limit.value)
    ensures r.Ok? <==>
              && live + count * size < U64
              && (limit.Some? ==> live + count * size <= limit.value)
              && alloc(count * size)
    ensures r.Err? ==>
              r.error in {SizeOverflow, AllocationFailed}
                  || (limit.Some? && r.error == MemoryLimitExceeded(limit.value))
  {
    var bytes := count * size;
    if bytes >= U64 { return Err(SizeOverflow); }
    var next := live + bytes;
    if next >= U64 { return Err(SizeOverflow); }
    if limit.Some? && next > limit.value { return Err(MemoryLimitExceeded(limit.value)); }
    if !alloc(bytes) { return Err(AllocationFailed); }
    r := Ok(next);
  }
}
