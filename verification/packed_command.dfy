/** The `Command` record (src/shared/command.rs): its constructors, its packed copy length, and the
    extra bits it is written with. */
module PackedCommands {
  import opened Bits
  import opened Distances
  import opened Commands

  const COPY_LEN_BITS := 25

  /** Copy length in the low twenty-five bits of `copyLen`, code delta in the top seven; distance
      symbol in the low ten bits of `distPrefix`, extra-bit count in the top six. */
  datatype Command = Command(insertLen: nat, copyLen: nat, distExtra: nat, cmdPrefix: nat, distPrefix: nat) {
    function CopyLen(): nat { Low(copyLen, COPY_LEN_BITS) }

    function Modifier(): nat { Shr(copyLen, COPY_LEN_BITS) }

    /** `copy_len_code`, the length the decoder reconstructs. With the experimental extensions the
        modifiers 32..=63 hold an absolute length. */
    function CopyLenCode(experimental: bool): nat {
      var modifier := Modifier();
      if experimental && 32 <= modifier <= 63 then modifier - 32
      else (CopyLen() + SignedDelta(modifier)) % U32
    }

    function DistanceCode(): nat { Low(distPrefix, 10) }

    function DistanceExtraBits(): nat { Shr(distPrefix, 10) }

    predicate HasDistance() { CopyLen() != 0 && cmdPrefix >= 128 }

    function DistanceContext(): (c: nat)
      ensures c < 4
    {
      var r := cmdPrefix / 64;
      var c := cmdPrefix % 8;
      if (r == 0 || r == 2 || r == 4 || r == 7) && c <= 2 then c else 3
    }
  }

  /** `((modifier | ((modifier & 0x40) << 1)) as u8) as i8`: the seven-bit field, sign extended. */
  function SignedDelta(modifier: nat): int {
    var b := BitOr(modifier, if Bit(modifier, 6) then 0x80 else 0) % 256;
    if b >= 128 then b - 256 else b
  }

  // ------------------------------------------------------------------------ constructors

  function NewCommand(p: DistanceParams, insertLen: nat, copyLen: nat, delta: int, distanceCode: nat,
                      experimental: bool): Command
    requires copyLen + delta >= 2
  {
    var field := if experimental && delta < -64 then 32 + (copyLen + delta) else delta % 256;
    var (distPrefix, distExtra) := PrefixEncodeCopyDistance(distanceCode, p.numDirect, p.postfixBits);
    Command(insertLen, BitOr(copyLen, Shl(field, COPY_LEN_BITS) % U32), distExtra,
            LengthCode(insertLen, copyLen + delta, Low(distPrefix, 10) == 0), distPrefix)
  }

  function InsertOnly(insertLen: nat): Command {
    Command(insertLen, Shl(4, COPY_LEN_BITS), 0, LengthCode(insertLen, 4, false), NUM_DISTANCE_SHORT_CODES)
  }

  // --------------------------------------------------------------- the packed copy length

  lemma SignedDeltaValue(m: nat)
    requires m < 128
    ensures SignedDelta(m) == if m >= 64 then m - 128 else m
  {
    TopBitOfSeven(m);
    if m >= 64 {
      OrHighBit(m);
    } else {
      BitOrCommutes(m, 0);
      BitOrZero(m);
    }
  }

  lemma TopBitOfSeven(m: nat)
    requires m < 128
    ensures Bit(m, 6) == (m >= 64)
  {
    hide Shl, Low, BitOr;
    BitShr(m, 6, 0);
    LowShr(m, 6);
    LowBound(m, 6);
    ShlTimes(Shr(m, 6), 6);
    assert Pow2(6) == 64;
  }

  lemma OrHighBit(m: nat)
    requires m < 128
    ensures BitOr(m, 128) == m + 128
  {
    assert Pow2(7) == 128;
    ShlTimes(1, 7);
    BitOrDisjoint(7, m, 1);
  }

  /** `x << 25` in thirty-two bits keeps the low seven bits of `x`. */
  lemma ShiftedField(field: nat)
    ensures Shl(field, COPY_LEN_BITS) % U32 == Shl(field % 128, COPY_LEN_BITS)
  {
    hide Shl, Bit, Pow2;
    CopyLenBits();
    ShlTimes(field, COPY_LEN_BITS);
    ShlTimes(field % 128, COPY_LEN_BITS);
    TopFieldWraps(field, field / 128, field % 128);
  }

  lemma TopFieldWraps(field: nat, high: nat, low: nat)
    requires field == 128 * high + low && low < 128
    ensures field * 0x200_0000 % U32 == low * 0x200_0000
  {
    assert field * 0x200_0000 == high * U32 + low * 0x200_0000;
  }

  /** Both fields of the packed copy length read back. */
  lemma PackedCopyLen(copyLen: nat, field: nat)
    requires copyLen < Pow2(COPY_LEN_BITS)
    ensures var packed := BitOr(copyLen, Shl(field, COPY_LEN_BITS) % U32);
            Low(packed, COPY_LEN_BITS) == copyLen && Shr(packed, COPY_LEN_BITS) == field % 128
  {
    hide Pow2, Shl, Shr, Low, BitOr, BitAnd, Log2;
    ShiftedField(field);
    BitOrDisjoint(COPY_LEN_BITS, copyLen, field % 128);
    Compose(copyLen, field % 128, COPY_LEN_BITS);
  }

  /** The code delta survives packing exactly for these deltas: a signed seven-bit range, less the
      modifiers the experimental extensions reserve, plus the absolute lengths they encode. */
  predicate DeltaFits(copyLen: nat, delta: int, experimental: bool) {
    if experimental then -64 <= delta < 32 || (delta < -64 && copyLen + delta < 32)
    else -64 <= delta < 64
  }

  lemma CopyLenCodeExact(p: DistanceParams, insertLen: nat, copyLen: nat, delta: int, distanceCode: nat,
                         experimental: bool)
    requires copyLen < Pow2(COPY_LEN_BITS) && copyLen + delta >= 2 && -0x8000_0000 <= delta < 0x8000_0000
    ensures var c := NewCommand(p, insertLen, copyLen, delta, distanceCode, experimental);
            && c.CopyLen() == copyLen
            && (c.CopyLenCode(experimental) == copyLen + delta <==> DeltaFits(copyLen, delta, experimental))
  {
    hide Pow2, Shl, Shr, Low, BitOr, BitAnd, Log2, LengthCode, SignedDelta, PrefixEncodeCopyDistance;
    var field := if experimental && delta < -64 then 32 + (copyLen + delta) else delta % 256;
    var c := NewCommand(p, insertLen, copyLen, delta, distanceCode, experimental);
    PackedCopyLen(copyLen, field);
    SignedDeltaValue(field % 128);
    CopyLenBits();
    DeltaCases(copyLen, delta, experimental, field, field % 128);
    CodeOfFields(c, copyLen, field % 128, experimental);
  }

  lemma CopyLenBits()
    ensures Pow2(COPY_LEN_BITS) == 0x200_0000
  {
    Pow2Values();
  }

  lemma CodeOfFields(c: Command, copyLen: nat, m: nat, experimental: bool)
    requires c.CopyLen() == copyLen && c.Modifier() == m < 128
    ensures c.CopyLenCode(experimental)
         == if experimental && 32 <= m <= 63 then m - 32 else (copyLen + if m >= 64 then m - 128 else m) % U32
  {
    hide Low, Shr, Pow2, BitOr;
    SignedDeltaValue(m);
  }

  lemma DeltaCases(copyLen: nat, delta: int, experimental: bool, field: nat, m: nat)
    requires copyLen < 0x200_0000 && copyLen + delta >= 2 && -0x8000_0000 <= delta < 0x8000_0000
    requires field == if experimental && delta < -64 then 32 + (copyLen + delta) else delta % 256
    requires m == field % 128
    ensures var code := if experimental && 32 <= m <= 63 then m - 32
                        else (copyLen + if m >= 64 then m - 128 else m) % U32;
            code == copyLen + delta <==> DeltaFits(copyLen, delta, experimental)
  {
    var signed := if m >= 64 then m - 128 else m;
    if copyLen + signed >= 0 {
      assert (copyLen + signed) % U32 == copyLen + signed;
    } else {
      assert (copyLen + signed) % U32 == copyLen + signed + U32;
    }
  }

  // ------------------------------------------------------------------- written extra bits

  /** A length as its code, and the width and value of its extra bits. */
  datatype Class = Class(code: nat, n: nat, v: nat)

  function InsertClass(insertLen: nat): (r: Class)
    requires insertLen < INSERT_LIMIT
    ensures r.code == InsertLengthCode(insertLen) && r.code < 24
    ensures r.n == INS_EXTRA[r.code] <= 24 && r.v < Pow2(r.n) && INS_BASE[r.code] + r.v == insertLen
  {
    InsertExtraFits(insertLen);
    var code := InsertLengthCode(insertLen);
    ExtrasAreSmall(code);
    Class(code, INS_EXTRA[code], insertLen - INS_BASE[code])
  }

  function CopyClass(copyLen: nat): (r: Class)
    requires 2 <= copyLen < COPY_LIMIT
    ensures r.code == CopyLengthCode(copyLen) && r.code < 24
    ensures r.n == COPY_EXTRA[r.code] <= 24 && r.v < Pow2(r.n) && COPY_BASE[r.code] + r.v == copyLen
  {
    CopyExtraFits(copyLen);
    var code := CopyLengthCode(copyLen);
    ExtrasAreSmall(code);
    Class(code, COPY_EXTRA[code], copyLen - COPY_BASE[code])
  }

  lemma ExtrasAreSmall(c: nat)
    requires c < 24
    ensures INS_EXTRA[c] <= 24 && COPY_EXTRA[c] <= 24
  {
  }

  /** `extra_bits`: the insert extra bits with the copy extra bits above them. */
  function ExtraBitsOf(insertLen: nat, copyLenCode: nat): (nat, nat)
    requires insertLen < INSERT_LIMIT && 2 <= copyLenCode < COPY_LIMIT
  {
    var i, k := InsertClass(insertLen), CopyClass(copyLenCode);
    (i.n + k.n, BitOr(Shl(k.v, i.n), i.v))
  }

  /** Two fields shifted together are written as the low one, then the high one. */
  lemma JoinFields(a: nat, b: nat, low: nat, high: nat)
    requires low < Pow2(a) && high < Pow2(b)
    ensures BitOr(Shl(high, a), low) < Pow2(a + b)
    ensures ToBits(a + b, BitOr(Shl(high, a), low)) == ToBits(a, low) + ToBits(b, high)
  {
    hide Shr, Low, BitOr, ToBits, Bit;
    BitOrCommutes(Shl(high, a), low);
    BitOrDisjoint(a, low, high);
    ToBitsSplit(a, b, low, high);
    ShlMonotone(high, Pow2(b), a);
    ShlPow2(b, a);
  }

  function ReadPair(a: nat, b: nat, s: bits): Read<(nat, nat)> {
    var (x, s) :- ReadBits(a, s);
    var (y, s) :- ReadBits(b, s);
    Got((x, y), s)
  }

  lemma ReadPairInverts(a: nat, x: nat, b: nat, y: nat, rest: bits)
    requires x < Pow2(a) && y < Pow2(b)
    ensures var v := BitOr(Shl(y, a), x);
            v < Pow2(a + b) && ReadPair(a, b, ToBits(a + b, v) + rest) == Got((x, y), rest)
  {
    hide Pow2, Shl, BitOr, ToBits, Bit, FromBits;
    JoinFields(a, b, x, y);
    assert ToBits(a, x) + ToBits(b, y) + rest == ToBits(a, x) + (ToBits(b, y) + rest);
    ReadBitsInverts(a, x, ToBits(b, y) + rest);
    ReadBitsInverts(b, y, rest);
  }

  /** RFC 7932, section 5: insert length, then copy length, from their codes. */
  function ReadLengths(insCode: nat, copyCode: nat, s: bits): (r: Read<(nat, nat)>)
    requires insCode < 24 && copyCode < 24
    ensures r.Got? ==> r.value.1 >= 2
  {
    var (extra, s) :- ReadPair(INS_EXTRA[insCode], COPY_EXTRA[copyCode], s);
    CopyBaseFrom2(copyCode);
    Got((INS_BASE[insCode] + extra.0, COPY_BASE[copyCode] + extra.1), s)
  }

  lemma CopyBaseFrom2(c: nat)
    requires c < 24
    ensures COPY_BASE[c] >= 2
  {
  }

  /** Reading the lengths a command was written with gives them back. */
  lemma ReadLengthsInverts(insertLen: nat, copyLenCode: nat, rest: bits)
    requires insertLen < INSERT_LIMIT && 2 <= copyLenCode < COPY_LIMIT
    ensures var (n, v) := ExtraBitsOf(insertLen, copyLenCode);
            n <= 48 && v < Pow2(n)
            && ReadLengths(InsertLengthCode(insertLen), CopyLengthCode(copyLenCode), ToBits(n, v) + rest)
               == Got((insertLen, copyLenCode), rest)
  {
    hide Pow2, Shl, Shr, Low, BitOr, BitAnd, Log2, InsertLengthCode, CopyLengthCode, ReadPair;
    var i, k := InsertClass(insertLen), CopyClass(copyLenCode);
    ReadPairInverts(i.n, i.v, k.n, k.v, rest);
  }

  // ----------------------------------------------------------------- well-formed commands

  /** Lengths the format expresses, and a command symbol that was computed from them. */
  ghost predicate LengthsFit(c: Command, experimental: bool, useLast: bool) {
    && c.insertLen < INSERT_LIMIT && 2 <= c.CopyLenCode(experimental) < COPY_LIMIT
    && c.cmdPrefix == LengthCode(c.insertLen, c.CopyLenCode(experimental), useLast)
  }

  /** A copy that is not a dictionary word: the decoder reconstructs the length copied, and the
      distance fields belong together. */
  ghost predicate PlainCopy(c: Command, p: DistanceParams, experimental: bool) {
    && LengthsFit(c, experimental, c.DistanceCode() == 0)
    && c.CopyLenCode(experimental) == c.CopyLen()
    && c.DistanceExtraBits() <= 29
    && c.DistanceExtraBits() == ExtraBits(c.DistanceCode(), p.numDirect, p.postfixBits)
    && c.distExtra < Pow2(c.DistanceExtraBits())
  }

  /** A trailing command that inserts literals and copies nothing. */
  ghost predicate Trailing(c: Command, experimental: bool) {
    LengthsFit(c, experimental, false) && c.CopyLen() == 0 && c.insertLen > 0
  }

  /** A new command, whatever its code delta, as long as the delta survives packing: its symbol and
      its lengths belong together, and its distance code is restored. */
  lemma NewIsCoded(p: DistanceParams, insertLen: nat, copyLen: nat, delta: int, distanceCode: nat, experimental: bool)
    requires Sound(p) && insertLen < INSERT_LIMIT && copyLen < Pow2(COPY_LEN_BITS)
    requires 2 <= copyLen + delta < COPY_LIMIT && DeltaFits(copyLen, delta, experimental)
    requires distanceCode <= p.maxDistance + (NUM_DISTANCE_SHORT_CODES - 1)
    ensures var c := NewCommand(p, insertLen, copyLen, delta, distanceCode, experimental);
            && c.insertLen == insertLen && c.CopyLen() == copyLen && c.CopyLenCode(experimental) == copyLen + delta
            && LengthsFit(c, experimental, c.DistanceCode() == 0)
            && c.DistanceExtraBits() <= 29 && c.distExtra < Pow2(c.DistanceExtraBits())
            && c.DistanceExtraBits() == ExtraBits(c.DistanceCode(), p.numDirect, p.postfixBits)
            && RestoredCode(c, p) == distanceCode
  {
    hide Pow2, Shl, Shr, Low, BitOr, BitAnd, Log2, LengthCode, PrefixEncodeCopyDistance, RestoreDistanceCode,
      SignedDelta;
    CopyLenBits();
    CopyLenCodeExact(p, insertLen, copyLen, delta, distanceCode, experimental);
    DistanceCodingRoundTrip(distanceCode, p);
  }

  /** Without a delta it is a copy the decoder reconstructs. */
  lemma NewIsPlain(p: DistanceParams, insertLen: nat, copyLen: nat, distanceCode: nat, experimental: bool)
    requires Sound(p) && insertLen < INSERT_LIMIT && 2 <= copyLen < COPY_LIMIT
    requires distanceCode <= p.maxDistance + (NUM_DISTANCE_SHORT_CODES - 1)
    ensures var c := NewCommand(p, insertLen, copyLen, 0, distanceCode, experimental);
            && PlainCopy(c, p, experimental) && c.insertLen == insertLen && c.CopyLen() == copyLen
            && RestoredCode(c, p) == distanceCode
  {
    hide NewCommand, LengthsFit, Command.CopyLen, Command.CopyLenCode, Command.DistanceCode, Command.DistanceExtraBits,
      Pow2, RestoreDistanceCode, ExtraBits;
    CopyLenBits();
    NewIsCoded(p, insertLen, copyLen, 0, distanceCode, experimental);
  }

  /** `restore_distance_code` on a command. */
  ghost function RestoredCode(c: Command, p: DistanceParams): nat
    requires c.DistanceCode() >= NUM_DISTANCE_SHORT_CODES + p.numDirect ==> c.DistanceExtraBits() >= 1
  {
    RestoreDistanceCode(c.distPrefix, c.distExtra, p.numDirect, p.postfixBits)
  }

  lemma InsertOnlyIsTrailing(insertLen: nat, experimental: bool)
    requires 0 < insertLen < INSERT_LIMIT
    ensures Trailing(InsertOnly(insertLen), experimental)
    ensures !InsertOnly(insertLen).HasDistance()
    ensures var c := InsertOnly(insertLen);
            c.insertLen == insertLen && c.CopyLenCode(experimental) == 4 && c.DistanceCode() == 16
            && c.DistanceExtraBits() == 0 && c.distExtra == 0
  {
    hide Pow2, Shl, Shr, Low, BitOr, BitAnd, Log2, LengthCode;
    InsertOnlyFields(InsertOnly(insertLen), experimental);
    Pow2Values();
    LowSmall(NUM_DISTANCE_SHORT_CODES, 10);
  }

  lemma InsertOnlyFields(c: Command, experimental: bool)
    requires c.copyLen == Shl(4, COPY_LEN_BITS)
    ensures c.CopyLen() == 0 && c.CopyLenCode(experimental) == 4
  {
    hide Shr, Low, Pow2, BitOr;
    Compose(0, 4, COPY_LEN_BITS);
    CodeOfFields(c, 0, 4, experimental);
  }
}
