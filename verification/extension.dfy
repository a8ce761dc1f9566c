/** Growing the last command over input that continues its copy (src/shared/command.rs). */
module Extension {
  import opened Bits
  import opened Commands
  import opened DictionaryPrefixes
  import opened Distances
  import opened PackedCommands
  import opened SerializedCursor
  import opened SymbolStreams

  // ------------------------------------------------------------- the match-length kernel

  /** How many leading bytes two windows share. */
  function MatchLength(a: seq<byte>, b: seq<byte>): (n: nat)
    ensures n <= |a| && n <= |b| && a[..n] == b[..n]
    ensures n < |a| && n < |b| ==> a[n] != b[n]
  {
    if |a| == 0 || |b| == 0 || a[0] != b[0] then 0 else 1 + MatchLength(a[1..], b[1..])
  }

  /** `find_match_length`: nothing matches when a window is not inside the data. */
  function FindMatchLength(data: seq<byte>, left: nat, right: nat, limit: nat): nat {
    if left + limit > |data| || right + limit > |data| then 0
    else MatchLength(data[left..left + limit], data[right..right + limit])
  }

  // ------------------------------------------------------------------- the byte scans

  /** How many of `n` bytes from `pos` on repeat those `distance` back, byte by byte. */
  ghost function Extent(ring: seq<byte>, mask: nat, pos: nat, distance: nat, n: nat): (k: nat)
    requires distance <= pos
    ensures k <= n
    decreases n
  {
    if n == 0 || ByteAt(ring, mask, pos) != ByteAt(ring, mask, pos - distance) then 0
    else 1 + Extent(ring, mask, pos + 1, distance, n - 1)
  }

  /** It is the longest such stretch. */
  lemma {:induction false} ExtentLongest(ring: seq<byte>, mask: nat, pos: nat, distance: nat, n: nat, i: nat)
    requires distance <= pos
    ensures i < Extent(ring, mask, pos, distance, n) ==>
            ByteAt(ring, mask, pos + i) == ByteAt(ring, mask, pos + i - distance)
    ensures i == Extent(ring, mask, pos, distance, n) < n ==>
            ByteAt(ring, mask, pos + i) != ByteAt(ring, mask, pos + i - distance)
    decreases n
  {
    hide ByteAt;
    if n > 0 && i > 0 && ByteAt(ring, mask, pos) == ByteAt(ring, mask, pos - distance) {
      ExtentLongest(ring, mask, pos + 1, distance, n - 1, i - 1);
    }
  }

  /** How many of `n` bytes from `pos` on equal the prefix from `address` on. */
  ghost function PrefixExtent(ring: seq<byte>, mask: nat, pos: nat, prefix: seq<byte>, address: nat, n: nat): (k: nat)
    ensures k <= n
    decreases n
  {
    if n == 0 || address >= |prefix| || ByteAt(ring, mask, pos) != prefix[address] then 0
    else 1 + PrefixExtent(ring, mask, pos + 1, prefix, address + 1, n - 1)
  }

  lemma {:induction false} PrefixExtentLongest(ring: seq<byte>, mask: nat, pos: nat, prefix: seq<byte>, address: nat,
                                               n: nat, i: nat)
    ensures i < PrefixExtent(ring, mask, pos, prefix, address, n) ==>
              address + i < |prefix| && ByteAt(ring, mask, pos + i) == prefix[address + i]
    ensures i == PrefixExtent(ring, mask, pos, prefix, address, n) < n ==>
              address + i >= |prefix| || ByteAt(ring, mask, pos + i) != prefix[address + i]
    decreases n
  {
    hide ByteAt;
    if n > 0 && i > 0 && address < |prefix| && ByteAt(ring, mask, pos) == prefix[address] {
      PrefixExtentLongest(ring, mask, pos + 1, prefix, address + 1, n - 1, i - 1);
    }
  }

  /** A stretch of the ring that does not wrap is the window that starts there. */
  lemma StretchIsWindow(ring: seq<byte>, k: nat, pos: nat, count: nat)
    requires Pow2(k) <= |ring| && BitAnd(pos, Pow2(k) - 1) + count <= Pow2(k)
    ensures ring[BitAnd(pos, Pow2(k) - 1)..BitAnd(pos, Pow2(k) - 1) + count] == Window(ring, Pow2(k) - 1, pos, count)
  {
    hide Pow2, BitAnd;
    var here := BitAnd(pos, Pow2(k) - 1);
    var stretch, window := ring[here..here + count], Window(ring, Pow2(k) - 1, pos, count);
    forall i | 0 <= i < count
      ensures stretch[i] == window[i]
    {
      MaskedStep(pos, k, i);
      assert window[i] == ByteAt(ring, Pow2(k) - 1, pos + i);
    }
  }

  /** Comparing two windows counts what the byte scan counts. */
  lemma {:induction false} WindowExtent(ring: seq<byte>, mask: nat, pos: nat, distance: nat, count: nat, n: nat)
    requires distance <= pos && count <= n
    ensures var m := MatchLength(Window(ring, mask, pos, count), Window(ring, mask, pos - distance, count));
            Extent(ring, mask, pos, distance, n)
            == if m < count then m else count + Extent(ring, mask, pos + count, distance, n - count)
    decreases count
  {
    hide ByteAt;
    var a, b := Window(ring, mask, pos, count), Window(ring, mask, pos - distance, count);
    if count > 0 {
      assert a[0] == ByteAt(ring, mask, pos + 0) && b[0] == ByteAt(ring, mask, pos - distance + 0);
      assert a[1..] == Window(ring, mask, pos + 1, count - 1);
      assert b[1..] == Window(ring, mask, pos + 1 - distance, count - 1);
      WindowExtent(ring, mask, pos + 1, distance, count - 1, n - 1);
    }
  }

  /** The kernel on one contiguous stretch counts what the byte scan counts. */
  lemma StretchExtent(ring: seq<byte>, k: nat, pos: nat, distance: nat, count: nat, n: nat)
    requires Pow2(k) <= |ring| && distance <= pos && count <= n
    requires BitAnd(pos, Pow2(k) - 1) + count <= Pow2(k) && BitAnd(pos - distance, Pow2(k) - 1) + count <= Pow2(k)
    ensures var m := FindMatchLength(ring, BitAnd(pos, Pow2(k) - 1), BitAnd(pos - distance, Pow2(k) - 1), count);
            && m <= count
            && Extent(ring, Pow2(k) - 1, pos, distance, n)
               == if m < count then m else count + Extent(ring, Pow2(k) - 1, pos + count, distance, n - count)
  {
    hide Pow2, BitAnd, ByteAt, Extent, MatchLength, Window;
    StretchIsWindow(ring, k, pos, count);
    StretchIsWindow(ring, k, pos - distance, count);
    WindowExtent(ring, Pow2(k) - 1, pos, distance, count, n);
  }

  // --------------------------------------------------------------- the code delta

  /** Reading the code delta as an unsigned field, as the recomputed symbol does, gives the length
      the decoder reconstructs exactly for the deltas from 0 to 63, or to 31 when the experimental
      modifiers are in use. */
  lemma UnsignedDeltaExact(c: Command, x: bool)
    requires c.copyLen < U32
    ensures c.CopyLen() + c.Modifier() == c.CopyLenCode(x) <==> c.Modifier() < if x then 32 else 64
  {
    hide Pow2, Low, Shr, BitOr, Bit, SignedDelta;
    Fields(c);
    CodeOfFields(c, c.CopyLen(), c.Modifier(), x);
  }

  lemma Fields(c: Command)
    requires c.copyLen < U32
    ensures c.CopyLen() < 0x200_0000 && c.Modifier() < 128
  {
    hide Low, Shr, Pow2;
    CopyLenBits();
    Pow2Values();
    assert Pow2(COPY_LEN_BITS + 7) == U32;
    LowBound(c.copyLen, COPY_LEN_BITS);
    ShrBound(c.copyLen, COPY_LEN_BITS, 7);
    assert Pow2(7) == 128;
  }

  lemma RawBelow(c: Command)
    requires c.Modifier() < 128
    ensures c.copyLen < U32
  {
    hide Low, Shr, Pow2;
    CopyLenBits();
    LowShr(c.copyLen, COPY_LEN_BITS);
    LowBound(c.copyLen, COPY_LEN_BITS);
    ShlTimes(c.Modifier(), COPY_LEN_BITS);
  }

  /** Adding to the packed field adds to the copy length and leaves the code delta alone, as long as
      the length keeps to its twenty-five bits. */
  lemma LengthGrows(c: Command, k: nat)
    requires c.CopyLen() + k < Pow2(COPY_LEN_BITS)
    ensures c.(copyLen := c.copyLen + k).CopyLen() == c.CopyLen() + k
    ensures c.(copyLen := c.copyLen + k).Modifier() == c.Modifier()
  {
    hide Low, Shr, Pow2;
    LowShr(c.copyLen, COPY_LEN_BITS);
    Compose(c.CopyLen() + k, c.Modifier(), COPY_LEN_BITS);
  }

  // ---------------------------------------------------------------------- the extension

  class CommandExtension {
    var command: Command
    /** The stretch still to be processed. */
    var position: nat
    var bytes: nat
    const ring: seq<byte>
    const mask: nat
    const lgwin: nat
    const params: DistanceParams
    const lastDistance: nat
    const lastProcessedPos: nat
    /** The segments of an attached prefix. */
    const attached: Option<seq<seq<byte>>>
    ghost const k: nat

    constructor (command: Command, position: nat, bytes: nat, ring: seq<byte>, ghost k: nat, mask: nat, lgwin: nat,
                 params: DistanceParams, lastDistance: nat, lastProcessedPos: nat, attached: Option<seq<seq<byte>>>)
      requires mask == Pow2(k) - 1 < |ring|
      ensures Valid() && this.command == command && this.position == position && this.bytes == bytes
      ensures this.ring == ring && this.mask == mask && this.lgwin == lgwin && this.params == params
      ensures this.lastDistance == lastDistance && this.lastProcessedPos == lastProcessedPos
              && this.attached == attached
    {
      this.command, this.position, this.bytes, this.ring, this.k, this.mask := command, position, bytes, ring, k, mask;
      this.lgwin, this.params, this.lastDistance := lgwin, params, lastDistance;
      this.lastProcessedPos, this.attached := lastProcessedPos, attached;
    }

    /** The ring is a whole window of a power of two. */
    ghost predicate Valid() {
      mask == Pow2(k) - 1 < |ring|
    }

    /** The window branch: absorbs exactly the stretch that repeats, across both wrap points. */
    method ExtendInWindow()
      requires Valid() && lastDistance <= position
      modifies this`command, this`position, this`bytes
      ensures var n := Extent(ring, mask, old(position), lastDistance, old(bytes));
              && command == old(command).(copyLen := old(command.copyLen) + n)
              && position == old(position) + n && bytes == old(bytes) - n
    {
      hide BitAnd, Pow2, Extent, FindMatchLength;
      ghost var all := Extent(ring, mask, position, lastDistance, bytes);
      while bytes != 0
        invariant lastDistance <= position
        invariant position - old(position) + Extent(ring, mask, position, lastDistance, bytes) == all
        invariant position + bytes == old(position) + old(bytes) && old(position) <= position
        invariant command == old(command).(copyLen := old(command.copyLen) + (position - old(position)))
        decreases bytes
      {
        MaskFits(k, position);
        MaskFits(k, position - lastDistance);
        var here := BitAnd(position, mask);
        var there := BitAnd(position - lastDistance, mask);
        var count := Least(bytes, Least(mask - here + 1, mask - there + 1));
        StretchExtent(ring, k, position, lastDistance, count, bytes);
        var matched := FindMatchLength(ring, here, there, count);
        command := command.(copyLen := command.copyLen + matched);
        bytes := bytes - matched;
        position := position + matched;
        if matched != count {
          return;
        }
      }
      NoExtent(ring, mask, position, lastDistance);
    }

    /** The prefix branch: absorbs exactly the stretch that equals the joined prefix from `address`
        on, across the seams between segments. */
    method ExtendIntoPrefix(maxDistance: nat, lastCopyLen: nat)
      requires Valid() && maxDistance <= lastDistance
      modifies this`command, this`position, this`bytes
      ensures var n := PrefixGain(maxDistance, lastCopyLen, old(position), old(bytes));
              && command == old(command).(copyLen := old(command.copyLen) + n)
              && position == old(position) + n && bytes == old(bytes) - n
    {
      hide BitAnd, Pow2, PrefixExtent, RunFrom, Concat, Lengths, ByteAt;
      if attached.None? { return; }
      var compound := Lengths(attached.value);
      var reach := lastDistance - maxDistance;
      if reach > compound || lastCopyLen >= reach { return; }
      ghost var prefix := Concat(attached.value);
      ConcatLength(attached.value);
      ghost var all := PrefixExtent(ring, mask, position, prefix, compound - reach + lastCopyLen, bytes);
      var address: nat := compound - reach + lastCopyLen;
      while true
        invariant position - old(position) + PrefixExtent(ring, mask, position, prefix, address, bytes) == all
        invariant position + bytes == old(position) + old(bytes) && old(position) <= position
        invariant command == old(command).(copyLen := old(command.copyLen) + (position - old(position)))
        invariant address <= |prefix|
        decreases |prefix| - address
      {
        RunIsPrefix(attached.value, address);
        var run := RunFrom(attached.value, address);
        if |run| == 0 {
          PrefixEnds(ring, mask, position, prefix, address, bytes);
          return;
        }
        ghost var from := address;
        for i := 0 to |run|
          invariant address == from + i
          invariant position - old(position) + PrefixExtent(ring, mask, position, prefix, address, bytes) == all
          invariant position + bytes == old(position) + old(bytes) && old(position) <= position
          invariant command == old(command).(copyLen := old(command.copyLen) + (position - old(position)))
        {
          assert run[i] == prefix[from..][i] == prefix[address];
          PrefixStep(ring, mask, position, prefix, address, bytes);
          if bytes == 0 { return; }
          if ByteAt(ring, mask, position) != run[i] { return; }
          command := command.(copyLen := command.copyLen + 1);
          bytes := bytes - 1;
          position := position + 1;
          address := address + 1;
        }
      }
    }

    /** How far the prefix branch gets; nothing when its guards do not hold. */
    ghost function PrefixGain(maxDistance: nat, lastCopyLen: nat, pos: nat, n: nat): (gain: nat)
      requires maxDistance <= lastDistance
      ensures gain <= n
    {
      if attached.None? || lastDistance - maxDistance > Lengths(attached.value)
          || lastCopyLen >= lastDistance - maxDistance then 0
      else
        PrefixExtent(ring, mask, pos, Concat(attached.value),
                     Lengths(attached.value) - (lastDistance - maxDistance) + lastCopyLen, n)
    }

    /** The largest distance into the window at the start of the last copy. */
    function MaxDistance(): nat
      requires command.CopyLen() <= lastProcessedPos && Pow2(lgwin) >= 16
      reads this`command
    {
      Least(lastProcessedPos - command.CopyLen(), Pow2(lgwin) - 16)
    }

    /** The last command copied from the last distance. */
    predicate Continues()
      requires command.DistanceCode() >= NUM_DISTANCE_SHORT_CODES + params.numDirect ==>
               command.DistanceExtraBits() >= 1
      reads this`command
    {
      var code := RestoreDistanceCode(command.distPrefix, command.distExtra, params.numDirect, params.postfixBits);
      code < NUM_DISTANCE_SHORT_CODES || code - (NUM_DISTANCE_SHORT_CODES - 1) == lastDistance
    }

    /** The last command was created with distance code `code`, whatever its lengths are by now. */
    ghost predicate CreatedWith(code: nat)
      reads this`command
    {
      && Sound(params) && code <= params.maxDistance + (NUM_DISTANCE_SHORT_CODES - 1)
      && (command.distPrefix, command.distExtra)
         == PrefixEncodeCopyDistance(code, params.numDirect, params.postfixBits)
    }

    /** The bytes `extend_last_command` absorbs. */
    ghost function Gain(): (gain: nat)
      requires command.CopyLen() <= lastProcessedPos && Pow2(lgwin) >= 16
      requires lastDistance <= MaxDistance() ==> lastDistance <= position
      reads this`command, this`position, this`bytes
      ensures gain <= bytes
    {
      if lastDistance <= MaxDistance() then Extent(ring, mask, position, lastDistance, bytes)
      else PrefixGain(MaxDistance(), command.CopyLen(), position, bytes)
    }

    /** `extend_last_command`: nothing changes unless the command continues; when it does, the bytes
        absorbed move from the stretch into the copy, and the symbol is recomputed. */
    method ExtendLastCommand()
      requires Valid() && command.CopyLen() <= lastProcessedPos && Pow2(lgwin) >= 16
      requires lastDistance <= MaxDistance() ==> lastDistance <= position
      requires command.DistanceCode() >= NUM_DISTANCE_SHORT_CODES + params.numDirect ==>
               command.DistanceExtraBits() >= 1
      requires command.copyLen < U32 && command.CopyLen() + bytes < Pow2(COPY_LEN_BITS)
               && command.CopyLen() + command.Modifier() >= 2
      modifies this`command, this`position, this`bytes
      ensures var n := if old(Continues()) then old(Gain()) else 0;
              && position == old(position) + n && bytes == old(bytes) - n
              && command.CopyLen() == old(command.CopyLen()) + n && command.Modifier() == old(command.Modifier())
              && command.insertLen == old(command.insertLen)
              && command.distPrefix == old(command.distPrefix) && command.distExtra == old(command.distExtra)
      ensures !old(Continues()) ==> command == old(command)
      ensures forall code: nat :: old(CreatedWith(code)) ==>
                position == old(position) + if code < 16 || code - 15 == lastDistance then old(Gain()) else 0
      ensures command.copyLen < U32
      ensures old(Continues()) ==>
                forall x :: command.Modifier() < (if x then 32 else 64) ==>
                              && command.CopyLenCode(x) >= 2
                              && command.cmdPrefix
                                  == LengthCode(command.insertLen, command.CopyLenCode(x), command.DistanceCode() == 0)
    {
      hide BitAnd, Pow2, Extent, PrefixExtent, Low, Shr, LengthCode, RestoreDistanceCode, Command.CopyLenCode,
        CommandExtension.CreatedWith;
      forall code: nat | CreatedWith(code)
        ensures Continues() <==> code < 16 || code - 15 == lastDistance
      {
        CodeDecides(this, code);
      }
      if Continues() {
        ghost var before := command;
        var maxDistance := MaxDistance();
        if lastDistance <= maxDistance {
          ExtendInWindow();
        } else {
          ExtendIntoPrefix(maxDistance, command.CopyLen());
        }
        LengthGrows(before, position - old(position));
        command := command.(cmdPrefix := LengthCode(command.insertLen, command.CopyLen() + command.Modifier(),
                                                    command.DistanceCode() == 0));
        Fields(before);
        RawBelow(command);
        UnsignedDeltaExact(command, false);
        UnsignedDeltaExact(command, true);
      }
    }
  }

  /** A command continues exactly when it was created with a short code, or with the code of the
      last distance. */
  lemma CodeDecides(e: CommandExtension, code: nat)
    requires e.CreatedWith(code)
    ensures e.command.DistanceCode() >= NUM_DISTANCE_SHORT_CODES + e.params.numDirect ==>
              e.command.DistanceExtraBits() >= 1
    ensures e.Continues() <==> code < 16 || code - 15 == e.lastDistance
  {
    hide Low, Shr, Pow2, PrefixEncodeCopyDistance, RestoreDistanceCode, Distance;
    DistanceCodingRoundTrip(code, e.params);
  }

  /** The last distance reaches a byte of the window: it is not past the copy's start, nor past the
      window. */
  ghost predicate ReachesWindow(e: CommandExtension)
    requires e.command.CopyLen() <= e.lastProcessedPos
    reads e
  {
    e.lastDistance <= e.lastProcessedPos - e.command.CopyLen() && e.lastDistance + 16 <= Pow2(e.lgwin)
  }

  /** What is absorbed: in the window, the bytes that repeat at the last distance; past it, those that
      go on in the attached prefix where the copy stopped, unless the copy has left the prefix. */
  lemma GainMeans(e: CommandExtension)
    requires e.Valid() && e.command.CopyLen() <= e.lastProcessedPos && Pow2(e.lgwin) >= 16
    requires e.lastDistance <= e.MaxDistance() ==> e.lastDistance <= e.position
    ensures ReachesWindow(e) ==>
              && e.lastDistance <= e.position
              && e.Gain() == Extent(e.ring, e.mask, e.position, e.lastDistance, e.bytes)
    ensures !ReachesWindow(e) && e.attached.None? ==> e.Gain() == 0
    ensures !ReachesWindow(e) && e.attached.Some? ==>
              var prefix, start := Concat(e.attached.value), e.lastProcessedPos - e.command.CopyLen();
              var seen := if start + 16 < Pow2(e.lgwin) then start else Pow2(e.lgwin) - 16;
              var next := |prefix| + seen + e.command.CopyLen() - e.lastDistance;
              e.Gain() == if next < e.command.CopyLen() || next >= |prefix| then 0
                          else PrefixExtent(e.ring, e.mask, e.position, prefix, next, e.bytes)
  {
    hide Pow2, Extent, PrefixExtent, Lengths, Concat, Command.CopyLen, ByteAt;
    if e.attached.Some? { ConcatLength(e.attached.value); }
  }

  /** What a new command is created with. */
  lemma NewIsCreatedWith(e: CommandExtension, insertLen: nat, copyLen: nat, delta: int, code: nat, x: bool)
    requires copyLen + delta >= 2 && e.command == NewCommand(e.params, insertLen, copyLen, delta, code, x)
    ensures e.CreatedWith(code) <==>
              Sound(e.params) && code <= e.params.maxDistance + (NUM_DISTANCE_SHORT_CODES - 1)
  {
    hide PrefixEncodeCopyDistance, LengthCode, BitOr, Shl, Sound;
  }

  function Least(a: nat, b: nat): nat { if a < b then a else b }

  lemma NoExtent(ring: seq<byte>, mask: nat, pos: nat, distance: nat)
    requires distance <= pos
    ensures Extent(ring, mask, pos, distance, 0) == 0
  {
  }

  lemma PrefixEnds(ring: seq<byte>, mask: nat, pos: nat, prefix: seq<byte>, address: nat, n: nat)
    requires address >= |prefix|
    ensures PrefixExtent(ring, mask, pos, prefix, address, n) == 0
  {
  }

  lemma PrefixStep(ring: seq<byte>, mask: nat, pos: nat, prefix: seq<byte>, address: nat, n: nat)
    requires address < |prefix|
    ensures PrefixExtent(ring, mask, pos, prefix, address, n)
         == if n == 0 || ByteAt(ring, mask, pos) != prefix[address] then 0
            else 1 + PrefixExtent(ring, mask, pos + 1, prefix, address + 1, n - 1)
  {
    hide ByteAt;
  }
}
